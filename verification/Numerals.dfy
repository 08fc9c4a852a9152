/** Numerals: decimal text and the numbers it denotes. */
module Numerals {

  /** The decimal spelling of a number, by division. */
  function Decimal(n: nat): (r: string)
    ensures r != "" && r[0] != '-' && (n > 0 ==> r[0] != '0')
    ensures forall i :: 0 <= i < |r| ==> '0' <= r[i] <= '9'
  {
    if n < 10 then [(n as char) + '0'] else Decimal(n / 10) + [((n % 10) as char) + '0']
  }

  predicate Digit(c: char) {
    '0' <= c <= '9'
  }

  predicate AllDigits(s: string) {
    s != "" && forall i :: 0 <= i < |s| ==> Digit(s[i])
  }

  /** Read from the last digit; each step further left weighs ten times as much. */
  function Value(s: string): nat
    requires forall i :: 0 <= i < |s| ==> Digit(s[i])
  {
    if s == "" then 0
    else
      assert Digit(s[|s| - 1]);
      10 * Value(s[..|s| - 1]) + (s[|s| - 1] as int - '0' as int)
  }

  /** A numeral's value is the number that division spells so. */
  lemma {:induction false} ValueDecimal(n: nat)
    ensures AllDigits(Decimal(n)) && Value(Decimal(n)) == n
  {
    var s := Decimal(n);
    if n < 10 {
      assert s[..|s| - 1] == "";
    } else {
      ValueDecimal(n / 10);
      assert s[..|s| - 1] == Decimal(n / 10);
    }
  }

  function Power(k: nat): (p: nat)
    ensures p > 0
  {
    if k == 0 then 1 else 10 * Power(k - 1)
  }

  /** Putting numerals side by side shifts the first. */
  lemma {:induction false} ValueConcat(a: string, b: string)
    requires AllDigits(a) && forall i :: 0 <= i < |b| ==> Digit(b[i])
    ensures AllDigits(a + b) && Value(a + b) == Value(a) * Power(|b|) + Value(b)
  {
    if b == "" {
      assert a + b == a;
    } else {
      var n := |b| - 1;
      ValueConcat(a, b[..n]);
      assert (a + b)[..|a + b| - 1] == a + b[..n];
      assert Value(a) * Power(|b|) == 10 * (Value(a) * Power(n));
    }
  }

  lemma {:induction false} ValueBelow(a: string)
    requires AllDigits(a)
    ensures Value(a) < Power(|a|)
    ensures a[0] != '0' ==> Value(a) >= Power(|a| - 1)
  {
    if |a| > 1 {
      ValueBelow(a[..|a| - 1]);
    } else {
      assert a[..0] == "";
    }
  }

  /** A leading zero changes nothing. */
  lemma LeadingZero(a: string)
    requires AllDigits(a)
    ensures AllDigits("0" + a) && Value("0" + a) == Value(a)
  {
    ValueConcat("0", a);
    assert "0"[..0] == "";
  }

  /** Without leading zeros the longer numeral is the greater. */
  lemma LongerIsGreater(a: string, b: string)
    requires AllDigits(a) && AllDigits(b) && b[0] != '0' && |a| < |b|
    ensures Value(a) < Value(b)
  {
    ValueBelow(a);
    ValueBelow(b);
    PowerGrows(|a|, |b| - 1);
  }

  lemma {:induction false} PowerGrows(j: nat, k: nat)
    requires j <= k
    ensures Power(j) <= Power(k)
  {
    if j < k {
      PowerGrows(j, k - 1);
    }
  }

  /** Of two numerals of one length, the one with the smaller digit where they first differ is the smaller. */
  lemma FirstDigit(a: string, b: string, i: nat)
    requires AllDigits(a) && AllDigits(b) && i < |a| == |b| && a[..i] == b[..i] && a[i] < b[i]
    ensures Value(a) < Value(b)
  {
    Cut(a, i);
    Cut(b, i);
    hide Value, Power, AllDigits;
    var x, y, p := Value(a[..i + 1]), Value(b[..i + 1]), Power(|a| - i - 1);
    Times(x + 1, y, p);
  }

  lemma Times(x: nat, y: nat, p: nat)
    requires x <= y
    ensures x * p <= y * p
  {
  }

  /** A numeral lies between what its first digits make of the places that follow. */
  lemma Cut(a: string, i: nat)
    requires AllDigits(a) && i < |a|
    ensures AllDigits(a[..i]) || i == 0
    ensures AllDigits(a[..i + 1]) && Value(a[..i + 1]) == 10 * Value(a[..i]) + (a[i] as int - '0' as int)
    ensures var x, p := Value(a[..i + 1]), Power(|a| - i - 1); x * p <= Value(a) < (x + 1) * p
  {
    var head, rest := a[..i + 1], a[i + 1..];
    assert head[..i] == a[..i] && a == head + rest;
    ValueConcat(head, rest);
    if rest != "" {
      ValueBelow(rest);
    }
    hide Value, Power;
    Next(Value(head), Power(|rest|));
  }

  lemma Next(x: nat, p: nat)
    ensures (x + 1) * p == x * p + p
  {
  }

  /** Only zeros denote zero. */
  lemma {:induction false} ValueZero(s: string)
    requires forall i :: 0 <= i < |s| ==> Digit(s[i])
    ensures Value(s) == 0 <==> forall i :: 0 <= i < |s| ==> s[i] == '0'
  {
    if s != "" {
      ValueZero(s[..|s| - 1]);
    }
  }
}
