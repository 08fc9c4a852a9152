/** Reading white space, literals and numbers, as functions of the bytes. */
module JsonLiterals {
  import opened Options
  import opened JsonGrammar
  import opened JsonStrings

  /** The first position at or after `i` that is not white space. */
  function Skip(s: seq<Byte>, i: nat): (r: nat)
    ensures i <= r && (i <= |s| ==> r <= |s|) && (r < |s| ==> !Blank(s[r]))
    decreases |s| - i
  {
    if i < |s| && Blank(s[i]) then Skip(s, i + 1) else i
  }

  lemma {:induction false} SkipBlanks(s: seq<Byte>, i: nat)
    requires i <= |s|
    ensures AllBlank(s[i..Skip(s, i)])
    decreases |s| - i
  {
    if i < |s| && Blank(s[i]) {
      SkipBlanks(s, i + 1);
      assert s[i..Skip(s, i)] == [s[i]] + s[i + 1..Skip(s, i + 1)];
    }
  }

  lemma {:induction false} SkipComplete(s: seq<Byte>, i: nat, t: seq<Byte>)
    requires Spelled(s, i, t) && AllBlank(t) && !Blank(At(s, i + |t|))
    ensures Skip(s, i) == i + |t|
    decreases |t|
  {
    if t != [] {
      assert s[i] == s[i..i + |t|][0] == t[0];
      assert s[i + 1..i + 1 + |t[1..]|] == s[i..i + |t|][1..] == t[1..];
      SkipComplete(s, i + 1, t[1..]);
    }
  }

  /** The first position at or after `i` that is not a digit. */
  function DigitsEnd(s: seq<Byte>, i: nat): (r: nat)
    ensures i <= r && (i <= |s| ==> r <= |s|) && !Digit(At(s, r))
    decreases |s| - i
  {
    if i < |s| && Digit(s[i]) then DigitsEnd(s, i + 1) else i
  }

  lemma {:induction false} DigitsEndDigits(s: seq<Byte>, i: nat)
    requires i <= |s|
    ensures AllDigits(s[i..DigitsEnd(s, i)]) && (Digit(At(s, i)) ==> DigitsEnd(s, i) > i)
    decreases |s| - i
  {
    if i < |s| && Digit(s[i]) {
      DigitsEndDigits(s, i + 1);
      assert s[i..DigitsEnd(s, i)] == [s[i]] + s[i + 1..DigitsEnd(s, i + 1)];
    }
  }

  lemma {:induction false} DigitsEndComplete(s: seq<Byte>, i: nat, t: seq<Byte>)
    requires Spelled(s, i, t) && AllDigits(t) && !Digit(At(s, i + |t|))
    ensures DigitsEnd(s, i) == i + |t| && (t != [] ==> s[i] == t[0])
    decreases |t|
  {
    if t != [] {
      assert s[i] == s[i..i + |t|][0] == t[0];
      assert s[i + 1..i + 1 + |t[1..]|] == s[i..i + |t|][1..] == t[1..];
      DigitsEndComplete(s, i + 1, t[1..]);
    }
  }

  /** The end of an integer part: a lone zero, or digits that do not begin with zero. */
  function WholeEnd(s: seq<Byte>, i: nat): (r: Option<nat>)
    ensures r.Some? ==> i < r.value <= |s|
  {
    if At(s, i) == ZERO then Some(i + 1)
    else if !Digit(At(s, i)) then None
    else Some(DigitsEnd(s, i))
  }

  function FractionEnd(s: seq<Byte>, i: nat): (r: Option<nat>)
    ensures r.Some? ==> i <= r.value && (i <= |s| ==> r.value <= |s|)
  {
    if At(s, i) != DOT then Some(i)
    else if !Digit(At(s, i + 1)) then None
    else Some(DigitsEnd(s, i + 1))
  }

  predicate Mark(b: Byte) { b == 0x65 || b == 0x45 }
  predicate Sign(b: Byte) { b == PLUS || b == MINUS }

  /** Where the digits of an exponent whose mark is at `i` begin. */
  function ExponentDigits(s: seq<Byte>, i: nat): nat {
    if Sign(At(s, i + 1)) then i + 2 else i + 1
  }

  function ExponentEnd(s: seq<Byte>, i: nat): (r: Option<nat>)
    ensures r.Some? ==> i <= r.value && (i <= |s| ==> r.value <= |s|)
    ensures r.Some? && r.value != i ==> Mark(At(s, i)) && ExponentDigits(s, i) < r.value
  {
    if !Mark(At(s, i)) then Some(i)
    else if !Digit(At(s, ExponentDigits(s, i))) then None
    else Some(DigitsEnd(s, ExponentDigits(s, i)))
  }

  function NumberStart(s: seq<Byte>, i: nat): nat {
    if At(s, i) == MINUS then i + 1 else i
  }

  function FractionText(s: seq<Byte>, b: nat, c: nat): seq<Byte>
    requires b <= c <= |s|
  {
    if c == b then [] else s[b + 1..c]
  }

  function ExponentText(s: seq<Byte>, c: nat, d: nat): Exponent
    requires c <= d <= |s| && (d != c ==> ExponentDigits(s, c) < d)
  {
    if d == c then NoExponent else Exponent(s[c], s[c + 1..ExponentDigits(s, c)], s[ExponentDigits(s, c)..d])
  }

  function NumberEnd(s: seq<Byte>, i: nat): (r: Option<nat>)
    ensures r.Some? ==> i < r.value <= |s|
  {
    match WholeEnd(s, NumberStart(s, i))
    case None => None
    case Some(b) =>
      match FractionEnd(s, b)
      case None => None
      case Some(c) => ExponentEnd(s, c)
  }

  function NumberAt(s: seq<Byte>, i: nat): Literal
    requires NumberEnd(s, i).Some?
  {
    var a := NumberStart(s, i);
    var b := WholeEnd(s, a).value;
    var c := FractionEnd(s, b).value;
    Number(a == i + 1, s[a..b], FractionText(s, b, c), ExponentText(s, c, NumberEnd(s, i).value))
  }

  ghost predicate NullAt(s: seq<Byte>, i: nat) { Spelled(s, i, NULL_TEXT) }
  ghost predicate TrueAt(s: seq<Byte>, i: nat) { Spelled(s, i, TRUE_TEXT) }
  ghost predicate FalseAt(s: seq<Byte>, i: nat) { Spelled(s, i, FALSE_TEXT) }

  ghost function LiteralEnd(s: seq<Byte>, i: nat): (r: Option<nat>)
    ensures r.Some? ==> i < r.value <= |s|
  {
    if NullAt(s, i) || TrueAt(s, i) then Some(i + 4)
    else if FalseAt(s, i) then Some(i + 5)
    else NumberEnd(s, i)
  }

  ghost function LiteralAt(s: seq<Byte>, i: nat): Literal
    requires LiteralEnd(s, i).Some?
  {
    if NullAt(s, i) then Null
    else if TrueAt(s, i) then True
    else if FalseAt(s, i) then False
    else NumberAt(s, i)
  }

  lemma SpelledFirst(s: seq<Byte>, i: nat, t: seq<Byte>)
    requires Spelled(s, i, t) && t != []
    ensures i < |s| && s[i] == t[0]
  {
    assert s[i] == s[i..i + |t|][0];
  }

  // ---- soundness: what ends at LiteralEnd is a literal of the grammar ----

  lemma WholeSound(s: seq<Byte>, i: nat)
    requires WholeEnd(s, i).Some?
    ensures var w := s[i..WholeEnd(s, i).value]; AllDigits(w) && (w[0] == ZERO ==> |w| == 1)
  {
    DigitsEndDigits(s, i);
  }

  lemma FractionSound(s: seq<Byte>, b: nat)
    requires b <= |s| && FractionEnd(s, b).Some?
    ensures var c := FractionEnd(s, b).value;
            AllDigits(FractionText(s, b, c)) && s[b..c] == PrintFraction(FractionText(s, b, c))
  {
    var c := FractionEnd(s, b).value;
    if At(s, b) == DOT {
      DigitsEndDigits(s, b + 1);
      assert s[b..c] == [DOT] + s[b + 1..c];
    }
  }

  lemma ExponentSound(s: seq<Byte>, c: nat)
    requires c <= |s| && ExponentEnd(s, c).Some?
    ensures var d := ExponentEnd(s, c).value;
            IsExponent(ExponentText(s, c, d)) && s[c..d] == PrintExponent(ExponentText(s, c, d))
  {
    var d := ExponentEnd(s, c).value;
    if Mark(At(s, c)) {
      var g := ExponentDigits(s, c);
      DigitsEndDigits(s, g);
      assert g == c + 2 ==> s[c + 1..g] == [s[c + 1]];
      assert s[c..d] == [s[c]] + s[c + 1..g] + s[g..d];
    }
  }

  lemma FourParts(s: seq<Byte>, i: nat, a: nat, b: nat, c: nat, d: nat)
    requires i <= a <= b <= c <= d <= |s|
    ensures s[i..d] == s[i..a] + s[a..b] + s[b..c] + s[c..d]
  {
    assert s[i..b] == s[i..a] + s[a..b];
    assert s[i..c] == s[i..b] + s[b..c];
    assert s[i..d] == s[i..c] + s[c..d];
  }

  lemma SpelledFour(s: seq<Byte>, i: nat, m: seq<Byte>, w: seq<Byte>, f: seq<Byte>, e: seq<Byte>)
    requires Spelled(s, i, m + w + f + e)
    ensures Spelled(s, i, m) && Spelled(s, i + |m|, w) && Spelled(s, i + |m| + |w|, f)
    ensures Spelled(s, i + |m| + |w| + |f|, e)
  {
    SpelledConcat(s, i, m + w + f, e);
    SpelledConcat(s, i, m + w, f);
    SpelledConcat(s, i, m, w);
  }

  lemma NumberSound(s: seq<Byte>, i: nat)
    requires NumberEnd(s, i).Some?
    ensures IsLiteral(NumberAt(s, i)) && s[i..NumberEnd(s, i).value] == PrintLiteral(NumberAt(s, i))
  {
    var a := NumberStart(s, i);
    var b := WholeEnd(s, a).value;
    var c := FractionEnd(s, b).value;
    var d := ExponentEnd(s, c).value;
    WholeSound(s, a);
    FractionSound(s, b);
    ExponentSound(s, c);
    var l := NumberAt(s, i);
    assert s[i..a] == if l.minus then [MINUS] else [];
    FourParts(s, i, a, b, c, d);
  }

  lemma LiteralSound(s: seq<Byte>, i: nat)
    requires LiteralEnd(s, i).Some?
    ensures IsLiteral(LiteralAt(s, i)) && s[i..LiteralEnd(s, i).value] == PrintLiteral(LiteralAt(s, i))
  {
    if !NullAt(s, i) && !TrueAt(s, i) && !FalseAt(s, i) {
      NumberSound(s, i);
    }
  }

  // ---- completeness: a literal followed by anything that cannot continue a number ends at LiteralEnd ----

  predicate EndsNumber(b: Byte) {
    !Digit(b) && b != DOT && !Mark(b)
  }

  lemma ExponentComplete(s: seq<Byte>, i: nat, e: Exponent)
    requires IsExponent(e) && Spelled(s, i, PrintExponent(e)) && EndsNumber(At(s, i + |PrintExponent(e)|))
    ensures ExponentEnd(s, i) == Some(i + |PrintExponent(e)|) && ExponentText(s, i, i + |PrintExponent(e)|) == e
    ensures !Digit(At(s, i)) && At(s, i) != DOT
  {
    if e.Exponent? {
      SpelledConcat(s, i, [e.mark] + e.sign, e.digits);
      SpelledConcat(s, i, [e.mark], e.sign);
      SpelledByte(s, i, e.mark);
      if e.sign != [] {
        SpelledByte(s, i + 1, e.sign[0]);
      }
      SpelledFirst(s, i + 1 + |e.sign|, e.digits);
      assert Digit(e.digits[0]);
      DigitsEndComplete(s, i + 1 + |e.sign|, e.digits);
    }
  }

  lemma FractionComplete(s: seq<Byte>, i: nat, f: seq<Byte>)
    requires AllDigits(f) && Spelled(s, i, PrintFraction(f))
    requires !Digit(At(s, i + |PrintFraction(f)|)) && At(s, i + |PrintFraction(f)|) != DOT
    ensures FractionEnd(s, i) == Some(i + |PrintFraction(f)|) && FractionText(s, i, i + |PrintFraction(f)|) == f
    ensures !Digit(At(s, i))
  {
    if f != [] {
      SpelledConcat(s, i, [DOT], f);
      SpelledByte(s, i, DOT);
      SpelledFirst(s, i + 1, f);
      DigitsEndComplete(s, i + 1, f);
    }
  }

  lemma WholeComplete(s: seq<Byte>, i: nat, minus: bool, w: seq<Byte>)
    requires Spelled(s, i, if minus then [MINUS] else [])
    requires var a := if minus then i + 1 else i; Spelled(s, a, w) && !Digit(At(s, a + |w|))
    requires w != [] && AllDigits(w) && (w[0] == ZERO ==> |w| == 1)
    ensures var a := if minus then i + 1 else i;
            NumberStart(s, i) == a && WholeEnd(s, a) == Some(a + |w|) && s[a..a + |w|] == w
    ensures i < |s| && (s[i] == MINUS || Digit(s[i]))
  {
    var a := if minus then i + 1 else i;
    assert Digit(w[0]);
    SpelledFirst(s, a, w);
    if minus {
      SpelledByte(s, i, MINUS);
    }
    DigitsEndComplete(s, a, w);
  }

  lemma NumberFromEnds(s: seq<Byte>, i: nat, b: nat, c: nat, d: nat)
    requires WholeEnd(s, NumberStart(s, i)) == Some(b) && FractionEnd(s, b) == Some(c) && ExponentEnd(s, c) == Some(d)
    ensures NumberEnd(s, i) == Some(d)
    ensures NumberAt(s, i) ==
            Number(NumberStart(s, i) == i + 1, s[NumberStart(s, i)..b], FractionText(s, b, c), ExponentText(s, c, d))
  {
  }

  lemma NumberPartsComplete(s: seq<Byte>, i: nat, minus: bool, w: seq<Byte>, fraction: seq<Byte>, exponent: Exponent)
    requires w != [] && AllDigits(w) && (w[0] == ZERO ==> |w| == 1) && AllDigits(fraction) && IsExponent(exponent)
    requires var t := (if minus then [MINUS] else []) + w + PrintFraction(fraction) + PrintExponent(exponent);
             Spelled(s, i, t) && EndsNumber(At(s, i + |t|))
    ensures var t := (if minus then [MINUS] else []) + w + PrintFraction(fraction) + PrintExponent(exponent);
            NumberEnd(s, i) == Some(i + |t|) && NumberAt(s, i) == Number(minus, w, fraction, exponent)
    ensures i < |s| && (s[i] == MINUS || Digit(s[i]))
  {
    hide Spelled, WholeEnd, FractionEnd, ExponentEnd, NumberEnd, NumberAt, AllDigits, IsExponent, PrintExponent;
    hide FractionText, ExponentText, PrintFraction;
    var m := if minus then [MINUS] else [];
    var f, e := PrintFraction(fraction), PrintExponent(exponent);
    SpelledFour(s, i, m, w, f, e);
    var b := i + |m| + |w|;
    var c := b + |f|;
    ExponentComplete(s, c, exponent);
    FractionComplete(s, b, fraction);
    WholeComplete(s, i, minus, w);
    NumberFromEnds(s, i, b, c, c + |e|);
  }

  lemma NumberComplete(s: seq<Byte>, i: nat, l: Literal)
    requires l.Number? && IsLiteral(l)
    requires Spelled(s, i, PrintLiteral(l)) && EndsNumber(At(s, i + |PrintLiteral(l)|))
    ensures NumberEnd(s, i) == Some(i + |PrintLiteral(l)|) && NumberAt(s, i) == l
    ensures i < |s| && (s[i] == MINUS || Digit(s[i]))
  {
    var m := if l.minus then [MINUS] else [];
    var w, f, e := l.whole, PrintFraction(l.fraction), PrintExponent(l.exponent);
    assert PrintLiteral(l) == m + w + f + e;
    NumberPartsComplete(s, i, l.minus, w, l.fraction, l.exponent);
  }

  /** The first byte of a literal is none of the bytes that open other values, nor white space. */
  predicate LiteralFirst(b: Byte) {
    b == MINUS || Digit(b) || b == 0x6E || b == 0x74 || b == 0x66
  }

  lemma LiteralComplete(s: seq<Byte>, i: nat, l: Literal)
    requires IsLiteral(l) && Spelled(s, i, PrintLiteral(l)) && EndsNumber(At(s, i + |PrintLiteral(l)|))
    ensures LiteralEnd(s, i) == Some(i + |PrintLiteral(l)|) && LiteralAt(s, i) == l
    ensures i < |s| && LiteralFirst(s[i])
  {
    if NullAt(s, i) { SpelledFirst(s, i, NULL_TEXT); }
    if TrueAt(s, i) { SpelledFirst(s, i, TRUE_TEXT); }
    if FalseAt(s, i) { SpelledFirst(s, i, FALSE_TEXT); }
    if l.Number? {
      NumberComplete(s, i, l);
    }
  }

}
