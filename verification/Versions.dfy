/** Comparing package versions, and keeping the latest package of every group. */
module Versions {
  import opened Numerals
  import opened Options
  import opened Texts

  // ---- orders ----

  function Sign(x: int): int {
    if x < 0 then -1 else if x > 0 then 1 else 0
  }

  function Lex<T>(cmp: (T, T) -> int, a: seq<T>, b: seq<T>): int
    decreases |a|
  {
    if a == [] then (if b == [] then 0 else -1)
    else if b == [] then 1
    else if cmp(a[0], b[0]) != 0 then cmp(a[0], b[0])
    else Lex(cmp, a[1..], b[1..])
  }

  ghost predicate Orders<T(!new)>(cmp: (T, T) -> int) {
    (forall x, y :: cmp(x, y) == -cmp(y, x)) && (forall x, y :: cmp(x, y) == 0 <==> x == y) &&
    forall x, y, z :: cmp(x, y) <= 0 && cmp(y, z) <= 0 ==> cmp(x, z) <= 0
  }

  lemma {:induction false} LexOpposite<T(!new)>(cmp: (T, T) -> int, a: seq<T>, b: seq<T>)
    requires Orders(cmp)
    ensures Lex(cmp, a, b) == -Lex(cmp, b, a)
    decreases |a|
  {
    if a != [] && b != [] {
      LexOpposite(cmp, a[1..], b[1..]);
      assert cmp(a[0], b[0]) == -cmp(b[0], a[0]);
    }
  }

  lemma {:induction false} LexEqual<T(!new)>(cmp: (T, T) -> int, a: seq<T>, b: seq<T>)
    requires Orders(cmp)
    ensures Lex(cmp, a, b) == 0 <==> a == b
    decreases |a|
  {
    if a != [] && b != [] {
      LexEqual(cmp, a[1..], b[1..]);
      assert a == [a[0]] + a[1..] && b == [b[0]] + b[1..];
    }
  }

  lemma {:induction false} LexChain<T(!new)>(cmp: (T, T) -> int, a: seq<T>, b: seq<T>, c: seq<T>)
    requires Orders(cmp) && Lex(cmp, a, b) <= 0 && Lex(cmp, b, c) <= 0
    ensures Lex(cmp, a, c) <= 0
    decreases |a|
  {
    if a != [] {
      var x, y, z := a[0], b[0], c[0];
      assert cmp(x, y) <= 0 && cmp(y, z) <= 0;
      assert cmp(x, z) <= 0;
      if cmp(x, z) == 0 {
        assert x == z && cmp(z, y) == -cmp(y, z);
        LexChain(cmp, a[1..], b[1..], c[1..]);
      }
    }
  }

  function CompareInts(a: int, b: int): int {
    Sign(a - b)
  }

  function CompareChars(a: char, b: char): int {
    Sign(a as int - b as int)
  }

  function CompareTexts(a: string, b: string): int {
    Lex(CompareChars, a, b)
  }

  // ---- sequences padded with zeros ----

  function Longer(a: nat, b: nat): nat {
    if a < b then b else a
  }

  function Pad(parts: seq<int>, n: nat): (padded: seq<int>)
    requires n >= |parts|
    ensures |padded| == n
  {
    if n == |parts| then parts else Pad(parts, n - 1) + [0]
  }

  function CompareSequences(a: seq<int>, b: seq<int>): int {
    var n := Longer(|a|, |b|);
    Lex(CompareInts, Pad(a, n), Pad(b, n))
  }

  /** The i-th place of a version, which is 0 past its end. */
  function Place(parts: seq<int>, i: nat): int {
    if i < |parts| then parts[i] else 0
  }

  lemma {:induction false} PadPlace(parts: seq<int>, n: nat, i: nat)
    requires |parts| <= n && i < n
    ensures Pad(parts, n)[i] == Place(parts, i)
    decreases n
  {
    if |parts| < n && i < n - 1 {
      PadPlace(parts, n - 1, i);
    }
  }

  /** The first place that differs decides. */
  ghost predicate Below(a: seq<int>, b: seq<int>) {
    exists i: nat :: Place(a, i) < Place(b, i) && forall j: nat :: j < i ==> Place(a, j) == Place(b, j)
  }

  ghost predicate Before(a: seq<int>, b: seq<int>)
    requires |a| == |b|
  {
    exists i :: 0 <= i < |a| && a[i] < b[i] && a[..i] == b[..i]
  }

  lemma {:induction false} LexFirst(a: seq<int>, b: seq<int>)
    requires |a| == |b|
    ensures Lex(CompareInts, a, b) == 0 <==> a == b
    ensures Lex(CompareInts, a, b) < 0 <==> Before(a, b)
    ensures -1 <= Lex(CompareInts, a, b) <= 1
    decreases |a|
  {
    if a != [] {
      LexFirst(a[1..], b[1..]);
      if a[0] == b[0] {
        assert a == [a[0]] + a[1..] && b == [b[0]] + b[1..];
        forall i | 0 <= i < |a| && a[i] < b[i] && a[..i] == b[..i]
          ensures exists k :: 0 <= k < |a| - 1 && a[1..][k] < b[1..][k] && a[1..][..k] == b[1..][..k]
        {
          assert a[1..][i - 1] < b[1..][i - 1] && a[1..][..i - 1] == a[..i][1..] == b[1..][..i - 1];
        }
        forall k | 0 <= k < |a| - 1 && a[1..][k] < b[1..][k] && a[1..][..k] == b[1..][..k]
          ensures exists i :: 0 <= i < |a| && a[i] < b[i] && a[..i] == b[..i]
        {
          assert a[k + 1] < b[k + 1] && a[..k + 1] == [a[0]] + a[1..][..k] == b[..k + 1];
        }
      } else {
        assert a[..0] == b[..0];
        assert forall i :: 0 < i <= |a| ==> a[..i][0] == a[0] && b[..i][0] == b[0];
      }
    }
  }

  lemma PaddedBelow(a: seq<int>, b: seq<int>, n: nat)
    requires |a| <= n && |b| <= n
    ensures Below(a, b) <==> Before(Pad(a, n), Pad(b, n))
    ensures Pad(a, n) == Pad(b, n) <==> forall i: nat :: Place(a, i) == Place(b, i)
  {
    hide Pad;
    forall i: nat | i < n
      ensures Pad(a, n)[i] == Place(a, i) && Pad(b, n)[i] == Place(b, i)
    {
      PadPlace(a, n, i);
      PadPlace(b, n, i);
    }
    SamePlaces(a, b, n, Pad(a, n), Pad(b, n));
  }

  lemma SamePlaces(a: seq<int>, b: seq<int>, n: nat, x: seq<int>, y: seq<int>)
    requires |a| <= n && |b| <= n && |x| == n && |y| == n
    requires forall i: nat :: i < n ==> x[i] == Place(a, i) && y[i] == Place(b, i)
    ensures Below(a, b) <==> Before(x, y)
    ensures x == y <==> forall i: nat :: Place(a, i) == Place(b, i)
  {
    if Below(a, b) {
      var i: nat :| Place(a, i) < Place(b, i) && forall j: nat :: j < i ==> Place(a, j) == Place(b, j);
      assert x[i] < y[i] && x[..i] == y[..i];
    }
    if i :| 0 <= i < n && x[i] < y[i] && x[..i] == y[..i] {
      forall j: nat | j < i
        ensures Place(a, j) == Place(b, j)
      {
        assert x[j] == x[..i][j] == y[..i][j] == y[j];
      }
      assert Place(a, i) < Place(b, i);
    }
  }

  /** Comparison is by the first place that differs, however many zeros either side leaves out. */
  lemma ComparePlaces(a: seq<int>, b: seq<int>)
    ensures CompareSequences(a, b) < 0 <==> Below(a, b)
    ensures CompareSequences(a, b) > 0 <==> Below(b, a)
    ensures CompareSequences(a, b) == 0 <==> forall i: nat :: Place(a, i) == Place(b, i)
  {
    hide Pad, Below;
    var n := Longer(|a|, |b|);
    PaddedBelow(a, b, n);
    PaddedBelow(b, a, n);
    LexFirst(Pad(a, n), Pad(b, n));
    LexFirst(Pad(b, n), Pad(a, n));
    LexOpposite(CompareInts, Pad(a, n), Pad(b, n));
  }

  lemma SequencesOpposite(a: seq<int>, b: seq<int>)
    ensures CompareSequences(a, b) == -CompareSequences(b, a)
  {
    LexOpposite(CompareInts, Pad(a, Longer(|a|, |b|)), Pad(b, Longer(|a|, |b|)));
  }

  lemma SequencesChain(a: seq<int>, b: seq<int>, c: seq<int>)
    requires CompareSequences(a, b) <= 0 && CompareSequences(b, c) <= 0
    ensures CompareSequences(a, c) <= 0
  {
    ComparePlaces(a, b);
    ComparePlaces(b, c);
    ComparePlaces(a, c);
    if Below(c, a) {
      var i: nat :| Place(c, i) < Place(a, i) && forall j: nat :: j < i ==> Place(c, j) == Place(a, j);
      Between(a, b, c, i);
    }
  }

  /** Where c is below a, b is below a or c is below b. */
  lemma Between(a: seq<int>, b: seq<int>, c: seq<int>, i: nat)
    requires Place(c, i) < Place(a, i) && forall j: nat :: j < i ==> Place(c, j) == Place(a, j)
    ensures Below(b, a) || Below(c, b)
  {
    if j: nat :| j < i && Place(b, j) != Place(a, j) {
      var k := FirstDifference(a, b, j);
      assert if Place(b, k) < Place(a, k) then Below(b, a) else Place(c, k) < Place(b, k);
    } else {
      assert if Place(b, i) < Place(a, i) then Below(b, a) else Place(c, i) < Place(b, i);
    }
  }

  lemma {:induction false} FirstDifference(a: seq<int>, b: seq<int>, j: nat) returns (k: nat)
    requires Place(a, j) != Place(b, j)
    ensures k <= j && Place(a, k) != Place(b, k) && forall i: nat :: i < k ==> Place(a, i) == Place(b, i)
  {
    k := j;
    if i: nat :| i < j && Place(a, i) != Place(b, i) {
      k := FirstDifference(a, b, i);
    }
  }

  // ---- version strings ----

  /** What Unicode says about text: case folding, and which characters are white space. */
  datatype Unicode = Unicode(fold: string -> string, blank: char -> bool)

  predicate Letter(c: char) {
    'a' <= c <= 'z' || 'A' <= c <= 'Z'
  }

  function Strip(s: string, blank: char -> bool): string {
    if s == "" then s
    else if blank(s[0]) then Strip(s[1..], blank)
    else if blank(s[|s| - 1]) then Strip(s[..|s| - 1], blank)
    else s
  }

  /** Digits, or several of them between dots. */
  predicate Numeric(version: string) {
    forall i :: 0 <= i < |Split(version, '.')| ==> AllDigits(Split(version, '.')[i])
  }

  function Values(parts: Names): (values: seq<int>)
    requires forall i :: 0 <= i < |parts| ==> AllDigits(parts[i])
    ensures |values| == |parts|
  {
    if parts == [] then []
    else
      assert AllDigits(parts[0]);
      [Value(parts[0])] + Values(parts[1..])
  }

  const SQLITE_BASE: nat := 1000000

  function Decoded(encoded: nat): seq<int> {
    [encoded / 1000000, encoded / 10000 % 100, encoded / 100 % 100, encoded % 100]
  }

  function NumericParts(version: string, sqlite: bool): Option<seq<int>> {
    if !Numeric(version) then None
    else if sqlite && '.' !in version && EncodedValue(version) >= SQLITE_BASE then Some(Decoded(EncodedValue(version)))
    else Some(Values(Split(version, '.')))
  }

  function EncodedValue(version: string): nat
    requires Numeric(version) && '.' !in version
  {
    SplitName(version, "", '.');
    assert AllDigits(Split(version, '.')[0]);
    Value(version)
  }

  // ---- natural order ----

  datatype Part = Word(text: string) | Number(value: nat)

  /** Words come before numbers. */
  function CompareParts(a: Part, b: Part): int {
    match (a, b)
    case (Word(x), Word(y)) => CompareTexts(x, y)
    case (Word(_), Number(_)) => -1
    case (Number(_), Word(_)) => 1
    case (Number(x), Number(y)) => Sign(x - y)
  }

  function Run(s: string, digits: bool): (n: nat)
    ensures n <= |s| && forall i :: 0 <= i < n ==> if digits then Digit(s[i]) else Letter(s[i])
  {
    if s != "" && (if digits then Digit(s[0]) else Letter(s[0])) then 1 + Run(s[1..], digits) else 0
  }

  /** The maximal runs of digits and of letters. */
  function FindAll(s: string): (found: Names)
    ensures forall i :: 0 <= i < |found| ==> found[i] != "" && (Digit(found[i][0]) ==> AllDigits(found[i]))
  {
    if s == "" then []
    else if Digit(s[0]) then [s[..Run(s, true)]] + FindAll(s[Run(s, true)..])
    else if Letter(s[0]) then [s[..Run(s, false)]] + FindAll(s[Run(s, false)..])
    else FindAll(s[1..])
  }

  datatype Class = DigitClass | LetterClass | OtherClass

  function ClassOf(c: char): Class {
    if Digit(c) then DigitClass else if Letter(c) then LetterClass else OtherClass
  }

  /** Text of one class is one component, or none if the class is neither digits nor letters. */
  lemma {:induction false} FindWhole(s: string, class_: Class)
    requires s != "" && forall i :: 0 <= i < |s| ==> ClassOf(s[i]) == class_
    ensures FindAll(s) == if class_.OtherClass? then [] else [s]
  {
    if class_.OtherClass? {
      if |s| > 1 {
        FindWhole(s[1..], class_);
      }
    } else {
      RunWhole(s, class_.DigitClass?);
      assert s[..|s|] == s && s[|s|..] == "";
    }
  }

  lemma {:induction false} RunWhole(s: string, digits: bool)
    requires forall i :: 0 <= i < |s| ==> if digits then Digit(s[i]) else Letter(s[i])
    ensures Run(s, digits) == |s|
  {
    if s != "" {
      RunWhole(s[1..], digits);
    }
  }

  lemma {:induction false} RunCut(a: string, b: string, digits: bool)
    requires Run(a, digits) < |a| || b == "" || !(if digits then Digit(b[0]) else Letter(b[0]))
    ensures Run(a + b, digits) == Run(a, digits)
  {
    if a == "" {
      assert a + b == b;
    } else {
      assert (a + b)[1..] == a[1..] + b;
      if if digits then Digit(a[0]) else Letter(a[0]) {
        RunCut(a[1..], b, digits);
      }
    }
  }

  /** The length of the first component or separator. */
  function First(s: string): (n: nat)
    requires s != ""
    ensures 0 < n <= |s| && forall i :: 0 <= i < n ==> ClassOf(s[i]) == ClassOf(s[0])
  {
    if Digit(s[0]) then Run(s, true) else if Letter(s[0]) then Run(s, false) else 1
  }

  lemma FindStep(s: string)
    requires s != ""
    ensures FindAll(s) == (if ClassOf(s[0]).OtherClass? then [] else [s[..First(s)]]) + FindAll(s[First(s)..])
  {
  }

  lemma FirstCut(a: string, b: string)
    requires a != "" && b != "" && (ClassOf(a[|a| - 1]) != ClassOf(b[0]) || ClassOf(b[0]).OtherClass?)
    ensures First(a + b) == First(a)
  {
    if !ClassOf(a[0]).OtherClass? {
      if First(a) == |a| {
        assert ClassOf(a[|a| - 1]) == ClassOf(a[0]);
      }
      RunCut(a, b, Digit(a[0]));
    }
  }

  /** Components never reach across a change of class: with the law for one class, this determines them. */
  lemma {:induction false} FindCut(a: string, b: string)
    requires a != "" && b != "" && (ClassOf(a[|a| - 1]) != ClassOf(b[0]) || ClassOf(b[0]).OtherClass?)
    ensures FindAll(a + b) == FindAll(a) + FindAll(b)
    decreases |a|
  {
    hide FindAll, Run, First, ClassOf;
    var n := First(a);
    FindStep(a);
    FindStep(a + b);
    FirstCut(a, b);
    assert (a + b)[..n] == a[..n] && (a + b)[n..] == a[n..] + b;
    if n < |a| {
      assert a[n..][|a| - n - 1] == a[|a| - 1];
      FindCut(a[n..], b);
    } else {
      assert a[n..] == "" && a[n..] + b == b;
      FindNone();
    }
  }

  lemma FindNone()
    ensures FindAll("") == []
  {
  }

  predicate AllBlank(s: string, blank: char -> bool) {
    forall i :: 0 <= i < |s| ==> blank(s[i])
  }

  lemma StripStep(s: string, blank: char -> bool)
    ensures Strip(s, blank) ==
            if s == "" then s
            else if blank(s[0]) then Strip(s[1..], blank)
            else if blank(s[|s| - 1]) then Strip(s[..|s| - 1], blank)
            else s
  {
  }

  /** Stripping removes white space at both ends, and all of it. */
  lemma {:induction false} StripMiddle(s: string, blank: char -> bool) returns (left: string, right: string)
    ensures s == left + (Strip(s, blank) + right) && AllBlank(left, blank) && AllBlank(right, blank)
    ensures Strip(s, blank) != "" ==> !blank(Strip(s, blank)[0]) && !blank(Strip(s, blank)[|Strip(s, blank)| - 1])
    decreases |s|
  {
    StripStep(s, blank);
    hide Strip;
    left, right := "", "";
    if s != "" && blank(s[0]) {
      left, right := StripMiddle(s[1..], blank);
      assert s == [s[0]] + s[1..];
      assert [s[0]] + left + (Strip(s[1..], blank) + right) == [s[0]] + (left + (Strip(s[1..], blank) + right));
      left := [s[0]] + left;
    } else if s != "" && blank(s[|s| - 1]) {
      var last := [s[|s| - 1]];
      left, right := StripMiddle(s[..|s| - 1], blank);
      assert s == s[..|s| - 1] + last;
      var middle := Strip(s[..|s| - 1], blank);
      assert left + (middle + (right + last)) == (left + (middle + right)) + last;
      right := right + last;
    }
  }

  /** From `at` on stand `n` digits, or `n` letters, and no more of them before or after. */
  predicate IsRun(s: string, at: nat, n: nat) {
    n > 0 && at + n <= |s| && !ClassOf(s[at]).OtherClass? &&
    (forall i :: at <= i < at + n ==> ClassOf(s[i]) == ClassOf(s[at])) &&
    (at > 0 ==> ClassOf(s[at - 1]) != ClassOf(s[at])) && (at + n < |s| ==> ClassOf(s[at + n]) != ClassOf(s[at]))
  }

  predicate RunIs(s: string, at: nat, component: string) {
    IsRun(s, at, |component|) && component == s[at..at + |component|]
  }

  predicate Covers(at: nat, n: nat, k: nat) {
    at <= k < at + n
  }

  /** The components are the maximal runs, at these places, in order and without missing any digit or letter. */
  ghost predicate AreRuns(s: string, found: Names, starts: seq<nat>) {
    |starts| == |found| &&
    (forall i :: 0 <= i < |found| ==> RunIs(s, starts[i], found[i])) &&
    (forall i, j :: 0 <= i < j < |starts| ==> starts[i] < starts[j]) &&
    forall k: nat :: k < |s| && !ClassOf(s[k]).OtherClass? ==>
      exists i :: 0 <= i < |starts| && Covers(starts[i], |found[i]|, k)
  }

  /** `FindAll` finds the maximal runs. */
  lemma {:induction false} FindRuns(s: string) returns (starts: seq<nat>)
    ensures AreRuns(s, FindAll(s), starts)
    decreases |s|
  {
    if s == "" {
      starts := [];
      FindNone();
    } else {
      hide FindAll, First, ClassOf, Run, AreRuns, RunsFrom;
      var n := First(s);
      FindStep(s);
      FirstEnds(s);
      var rest := FindRuns(s[n..]);
      var moved := Moved(rest, n);
      starts := if ClassOf(s[0]).OtherClass? then moved else [0] + moved;
      RunsMoved(s, n, FindAll(s[n..]), rest);
      RunsFirst(s, n, FindAll(s[n..]), moved);
    }
  }

  function Moved(starts: seq<nat>, n: nat): (moved: seq<nat>)
    ensures |moved| == |starts| && forall i :: 0 <= i < |starts| ==> moved[i] == starts[i] + n
  {
    seq(|starts|, i requires 0 <= i < |starts| => starts[i] + n)
  }

  lemma FirstEnds(s: string)
    requires s != ""
    ensures First(s) < |s| ==> ClassOf(s[First(s)]) != ClassOf(s[0]) || ClassOf(s[0]).OtherClass?
  {
    RunEnds(s, true);
    RunEnds(s, false);
  }

  lemma {:induction false} RunEnds(s: string, digits: bool)
    ensures Run(s, digits) < |s| ==> !(if digits then Digit(s[Run(s, digits)]) else Letter(s[Run(s, digits)]))
  {
    if s != "" {
      RunEnds(s[1..], digits);
    }
  }

  /** The runs of what follows the first component or separator, where they stand in the whole. */
  ghost predicate RunsFrom(s: string, n: nat, found: Names, starts: seq<nat>) {
    |starts| == |found| &&
    (forall i :: 0 <= i < |found| ==> n <= starts[i] && RunIs(s, starts[i], found[i])) &&
    (forall i, j :: 0 <= i < j < |starts| ==> starts[i] < starts[j]) &&
    forall k: nat :: n <= k < |s| && !ClassOf(s[k]).OtherClass? ==>
      exists i :: 0 <= i < |starts| && Covers(starts[i], |found[i]|, k)
  }

  lemma RunsMoved(s: string, n: nat, found: Names, starts: seq<nat>)
    requires 0 < n <= |s| && AreRuns(s[n..], found, starts)
    requires n < |s| ==> ClassOf(s[n]) != ClassOf(s[n - 1]) || ClassOf(s[n - 1]).OtherClass?
    ensures RunsFrom(s, n, found, Moved(starts, n))
  {
    hide RunIs, ClassOf;
    var moved := Moved(starts, n);
    forall i | 0 <= i < |found|
      ensures RunIs(s, moved[i], found[i])
    {
      RunMoved(s, n, starts[i], found[i]);
    }
    forall k: nat | n <= k < |s| && !ClassOf(s[k]).OtherClass?
      ensures exists i :: 0 <= i < |moved| && Covers(moved[i], |found[i]|, k)
    {
      var m := k - n;
      assert s[n..][m] == s[k];
      var i :| 0 <= i < |starts| && Covers(starts[i], |found[i]|, m);
      assert Covers(moved[i], |found[i]|, k);
    }
  }

  lemma RunMoved(s: string, n: nat, at: nat, component: string)
    requires 0 < n <= |s| && RunIs(s[n..], at, component)
    requires n < |s| ==> ClassOf(s[n]) != ClassOf(s[n - 1]) || ClassOf(s[n - 1]).OtherClass?
    ensures RunIs(s, at + n, component)
  {
    hide ClassOf;
    var length := |component|;
    assert forall i :: 0 <= i < |s| - n ==> s[n..][i] == s[n + i];
    forall i | at + n <= i < at + n + length
      ensures ClassOf(s[i]) == ClassOf(s[at + n])
    {
      assert s[n..][i - n] == s[i];
    }
    if at > 0 {
      assert s[n..][at - 1] == s[at + n - 1];
    }
    if at + length < |s| - n {
      assert s[n..][at + length] == s[at + n + length];
    }
  }

  lemma RunsFirst(s: string, n: nat, found: Names, moved: seq<nat>)
    requires s != "" && n == First(s) && RunsFrom(s, n, found, moved)
    requires n < |s| ==> ClassOf(s[n]) != ClassOf(s[0]) || ClassOf(s[0]).OtherClass?
    ensures if ClassOf(s[0]).OtherClass? then AreRuns(s, found, moved) else AreRuns(s, [s[..n]] + found, [0] + moved)
  {
    hide ClassOf, First, RunIs;
    if ClassOf(s[0]).OtherClass? {
      assert forall i :: 0 <= i < n ==> ClassOf(s[i]) == ClassOf(s[0]);
    } else {
      FirstIsRun(s, n);
      var all, starts := [s[..n]] + found, [0] + moved;
      forall i | 0 <= i < |all|
        ensures RunIs(s, starts[i], all[i])
      {
        if i > 0 {
          assert all[i] == found[i - 1] && starts[i] == moved[i - 1];
        }
      }
      forall k: nat | k < |s| && !ClassOf(s[k]).OtherClass?
        ensures exists i :: 0 <= i < |starts| && Covers(starts[i], |all[i]|, k)
      {
        if k < n {
          assert Covers(starts[0], |all[0]|, k);
        } else {
          var i :| 0 <= i < |moved| && Covers(moved[i], |found[i]|, k);
          assert Covers(starts[i + 1], |all[i + 1]|, k);
        }
      }
    }
  }

  lemma FirstIsRun(s: string, n: nat)
    requires s != "" && n == First(s) && !ClassOf(s[0]).OtherClass?
    requires n < |s| ==> ClassOf(s[n]) != ClassOf(s[0])
    ensures RunIs(s, 0, s[..n])
  {
    hide ClassOf, First;
  }

  /** A number for digits, a folded word for letters. */
  function PartOf(component: string, fold: string -> string): Part
    requires component != "" && (Digit(component[0]) ==> AllDigits(component))
  {
    if Digit(component[0]) then Number(Value(component)) else Word(fold(component))
  }

  function NaturalParts(version: string, fold: string -> string): seq<Part> {
    var found := FindAll(version);
    seq(|found|, i requires 0 <= i < |found| => PartOf(found[i], fold))
  }

  /** A part reads the run of digits or letters from `at` on. */
  predicate ReadsRun(part: Part, s: string, at: nat, n: nat, fold: string -> string) {
    IsRun(s, at, n) &&
    match part
    case Number(value) => (forall i :: at <= i < at + n ==> '0' <= s[i] <= '9') && value == Value(s[at..at + n])
    case Word(text) =>
      (forall i :: at <= i < at + n ==> 'a' <= s[i] <= 'z' || 'A' <= s[i] <= 'Z') && text == fold(s[at..at + n])
  }

  /** The parts read the version's maximal runs of digits and of letters, all of them, in order. */
  method NaturalVersionParts(version: string, fold: string -> string)
    returns (result: seq<Part>, ghost starts: seq<nat>, ghost lengths: seq<nat>)
    ensures result == NaturalParts(version, fold)
    ensures |starts| == |lengths| == |result|
    ensures forall i :: 0 <= i < |result| ==> ReadsRun(result[i], version, starts[i], lengths[i], fold)
    ensures forall i, j :: 0 <= i < j < |starts| ==> starts[i] < starts[j]
    ensures forall k: nat ::
              k < |version| &&
              ('0' <= version[k] <= '9' || 'a' <= version[k] <= 'z' || 'A' <= version[k] <= 'Z') ==>
              exists i :: 0 <= i < |starts| && Covers(starts[i], lengths[i], k)
  {
    hide RunIs, ReadsRun, ClassOf, FindAll, Value;
    result := [];
    var found := FindAll(version);
    starts := FindRuns(version);
    lengths := seq(|found|, i requires 0 <= i < |found| => |found[i]|);
    for i := 0 to |found|
      invariant result == NaturalParts(version, fold)[..i]
      invariant forall j :: 0 <= j < i ==> ReadsRun(result[j], version, starts[j], lengths[j], fold)
    {
      FoundReads(version, starts[i], found[i], fold);
      if Digit(found[i][0]) {
        result := result + [Number(Value(found[i]))];
      } else {
        result := result + [Word(fold(found[i]))];
      }
    }
    AllCovered(version, found, starts, lengths);
  }

  lemma FoundReads(s: string, at: nat, component: string, fold: string -> string)
    requires RunIs(s, at, component)
    requires Digit(component[0]) ==> AllDigits(component)
    ensures ReadsRun(PartOf(component, fold), s, at, |component|, fold)
  {
    OneClass(s, at, |component|);
    assert component[0] == s[at];
  }

  lemma AllCovered(s: string, found: Names, starts: seq<nat>, lengths: seq<nat>)
    requires AreRuns(s, found, starts) && |lengths| == |found|
    requires forall i :: 0 <= i < |found| ==> lengths[i] == |found[i]|
    ensures forall k: nat :: k < |s| && (Digit(s[k]) || Letter(s[k])) ==>
              exists i :: 0 <= i < |starts| && Covers(starts[i], lengths[i], k)
  {
    hide RunIs;
    forall k: nat | k < |s| && (Digit(s[k]) || Letter(s[k]))
      ensures exists i :: 0 <= i < |starts| && Covers(starts[i], lengths[i], k)
    {
      var i :| 0 <= i < |starts| && Covers(starts[i], |found[i]|, k);
      assert Covers(starts[i], lengths[i], k);
    }
  }

  lemma OneClass(s: string, at: nat, n: nat)
    requires IsRun(s, at, n)
    ensures if Digit(s[at]) then forall i :: at <= i < at + n ==>
            Digit(s[i]) else forall i :: at <= i < at + n ==> Letter(s[i])
  {
    assert forall i :: at <= i < at + n ==> ClassOf(s[i]) == ClassOf(s[at]);
  }

  // ---- the comparison ----

  predicate IsSqlite(u: Unicode, package: Option<string>) {
    package.Some? && package.value != "" && u.fold(package.value) == "sqlite"
  }

  function CompareNatural(u: Unicode, a: string, b: string): int {
    var x, y := NaturalParts(a, u.fold), NaturalParts(b, u.fold);
    if x != y then Lex(CompareParts, x, y) else CompareTexts(u.fold(a), u.fold(b))
  }

  function VersionCmp(u: Unicode, one: string, two: string, package: Option<string>): int {
    var a, b := Strip(one, u.blank), Strip(two, u.blank);
    var x, y := NumericParts(a, IsSqlite(u, package)), NumericParts(b, IsSqlite(u, package));
    if x.Some? && y.Some? then CompareSequences(x.value, y.value) else CompareNatural(u, a, b)
  }

  lemma CharsOrder()
    ensures Orders(CompareChars)
  {
  }

  lemma TextsOrder()
    ensures Orders(CompareTexts)
  {
    CharsOrder();
    forall a: string, b: string
      ensures CompareTexts(a, b) == -CompareTexts(b, a) && (CompareTexts(a, b) == 0 <==> a == b)
    {
      LexOpposite(CompareChars, a, b);
      LexEqual(CompareChars, a, b);
    }
    forall a: string, b: string, c: string | CompareTexts(a, b) <= 0 && CompareTexts(b, c) <= 0
      ensures CompareTexts(a, c) <= 0
    {
      LexChain(CompareChars, a, b, c);
    }
  }

  lemma PartsOrder()
    ensures Orders(CompareParts)
  {
    hide CompareTexts;
    TextsOrder();
  }

  lemma NaturalOpposite(u: Unicode, a: string, b: string)
    ensures CompareNatural(u, a, b) == -CompareNatural(u, b, a)
  {
    hide Orders;
    PartsOrder();
    TextsOrder();
    LexOpposite(CompareParts, NaturalParts(a, u.fold), NaturalParts(b, u.fold));
    TextsOpposite(u.fold(a), u.fold(b));
  }

  lemma TextsOpposite(a: string, b: string)
    ensures CompareTexts(a, b) == -CompareTexts(b, a)
  {
    CharsOrder();
    LexOpposite(CompareChars, a, b);
  }

  lemma NaturalChain(u: Unicode, a: string, b: string, c: string)
    requires CompareNatural(u, a, b) <= 0 && CompareNatural(u, b, c) <= 0
    ensures CompareNatural(u, a, c) <= 0
  {
    hide Orders, NaturalParts;
    PartsOrder();
    CharsOrder();
    var x, y, z := NaturalParts(a, u.fold), NaturalParts(b, u.fold), NaturalParts(c, u.fold);
    LexEqual(CompareParts, x, y);
    LexEqual(CompareParts, y, z);
    LexEqual(CompareParts, x, z);
    LexChain(CompareParts, x, y, z);
    if x == z {
      LexOpposite(CompareParts, x, y);
      LexChain(CompareChars, u.fold(a), u.fold(b), u.fold(c));
    }
  }

  /** Swapping the versions swaps the answer, whatever the strings. */
  lemma Antisymmetric(u: Unicode, one: string, two: string, package: Option<string>)
    ensures VersionCmp(u, one, two, package) == -VersionCmp(u, two, one, package)
  {
    hide CompareNatural, CompareSequences;
    var a, b := Strip(one, u.blank), Strip(two, u.blank);
    var x, y := NumericParts(a, IsSqlite(u, package)), NumericParts(b, IsSqlite(u, package));
    if x.Some? && y.Some? {
      SequencesOpposite(x.value, y.value);
    }
    NaturalOpposite(u, a, b);
  }

  predicate IsNumeric(u: Unicode, version: string) {
    Numeric(Strip(version, u.blank))
  }

  /** Among numeric versions, and wherever at most one of three is numeric, the comparison is a total preorder. */
  lemma Transitive(u: Unicode, one: string, two: string, three: string, package: Option<string>)
    requires (IsNumeric(u, one) && IsNumeric(u, two)) == (IsNumeric(u, two) && IsNumeric(u, three))
    requires (IsNumeric(u, one) && IsNumeric(u, two)) == (IsNumeric(u, one) && IsNumeric(u, three))
    requires VersionCmp(u, one, two, package) <= 0 && VersionCmp(u, two, three, package) <= 0
    ensures VersionCmp(u, one, three, package) <= 0
  {
    hide CompareNatural, CompareSequences;
    var a, b, c := Strip(one, u.blank), Strip(two, u.blank), Strip(three, u.blank);
    if Numeric(a) && Numeric(b) {
      var sqlite := IsSqlite(u, package);
      SequencesChain(NumericParts(a, sqlite).value, NumericParts(b, sqlite).value, NumericParts(c, sqlite).value);
    } else {
      NaturalChain(u, a, b, c);
    }
  }

  // ---- SQLite's integer versions ----

  function Encode(parts: seq<int>): int {
    1000000 * Place(parts, 0) + 10000 * Place(parts, 1) + 100 * Place(parts, 2) + Place(parts, 3)
  }

  /** At most four places, all but the first below 100. */
  predicate Encodable(parts: seq<int>) {
    |parts| <= 4 && forall i: nat :: 0 < i < 4 ==> 0 <= Place(parts, i) < 100
  }

  lemma EncodeOrders(a: seq<int>, b: seq<int>)
    requires Encodable(a) && Encodable(b)
    ensures CompareSequences(a, b) == Sign(Encode(a) - Encode(b))
  {
    ComparePlaces(a, b);
    if Below(a, b) {
      EncodeBelow(a, b);
    } else if Below(b, a) {
      EncodeBelow(b, a);
    }
    LexFirst(Pad(a, Longer(|a|, |b|)), Pad(b, Longer(|a|, |b|)));
  }

  lemma EncodeBelow(a: seq<int>, b: seq<int>)
    requires Encodable(a) && Encodable(b) && Below(a, b)
    ensures Encode(a) < Encode(b)
  {
    var i: nat :| Place(a, i) < Place(b, i) && forall j: nat :: j < i ==> Place(a, j) == Place(b, j);
    assert i < 4;
    assert forall j: nat :: 0 < j < 4 ==> 0 <= Place(a, j) < 100 && 0 <= Place(b, j) < 100;
  }

  lemma DecodeEncode(n: nat)
    ensures Encodable(Decoded(n)) && Encode(Decoded(n)) == n
  {
    var a, b := n / 100, n / 10000;
    assert b == a / 100 && n / 1000000 == b / 100;
    assert n == 100 * a + n % 100 && a == 100 * b + a % 100 && b == 100 * (b / 100) + b % 100;
  }

  predicate Encoded(u: Unicode, version: string) {
    var v := Strip(version, u.blank);
    Numeric(v) && '.' !in v && EncodedValue(v) >= SQLITE_BASE
  }

  /** Integer versions from 1000000 up compare as integers. */
  lemma SqliteIntegers(u: Unicode, one: string, two: string, package: Option<string>)
    requires IsSqlite(u, package) && Encoded(u, one) && Encoded(u, two)
    ensures VersionCmp(u, one, two, package) == Sign(EncodedValue(Strip(one, u.blank)) - EncodedValue(Strip(two,
            u.blank)))
  {
    hide CompareSequences, Decoded, Numeric, Encode;
    var m, n := EncodedValue(Strip(one, u.blank)), EncodedValue(Strip(two, u.blank));
    DecodeEncode(m);
    DecodeEncode(n);
    EncodeOrders(Decoded(m), Decoded(n));
  }

  /** An integer version stands to a dotted one as to the integer that spells it. */
  lemma SqliteDotted(u: Unicode, one: string, two: string, package: Option<string>)
    requires IsSqlite(u, package) && Encoded(u, one) && IsNumeric(u, two) && '.' in Strip(two, u.blank)
    requires Encodable(Values(Split(Strip(two, u.blank), '.')))
    ensures VersionCmp(u, one, two, package) ==
            Sign(EncodedValue(Strip(one, u.blank)) - Encode(Values(Split(Strip(two, u.blank), '.'))))
  {
    hide CompareSequences, Decoded, Encode;
    var m, parts := EncodedValue(Strip(one, u.blank)), Values(Split(Strip(two, u.blank), '.'));
    DecodeEncode(m);
    EncodeOrders(Decoded(m), parts);
  }
}
