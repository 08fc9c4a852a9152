/** The exact condition on two numeric versions, read off their texts. */
module VersionSpellings {
  import opened Numerals
  import opened Options
  import opened Texts
  import opened Versions
  import opened VersionKinds

  predicate Encodes(version: string)
    requires Numeric(version)
  {
    '.' !in version && EncodedValue(version) >= SQLITE_BASE
  }

  /** An encoded integer beside another version: no larger than its first number, or the later version. */
  predicate FitsEncoded(encoded: nat, parts: seq<int>)
    requires parts != []
  {
    encoded <= parts[0] || CompareSequences(Decoded(encoded), parts) > 0
  }

  /** The same text, or different versions: not two spellings of one version. For SQLite an encoded integer and a
      version that is not one have a condition of their own. */
  predicate Fits(a: string, b: string, sqlite: bool)
    requires Numeric(a) && Numeric(b)
  {
    var x, y := Values(Split(a, '.')), Values(Split(b, '.'));
    if sqlite && Encodes(a) && !Encodes(b) then FitsEncoded(EncodedValue(a), y)
    else if sqlite && Encodes(b) && !Encodes(a) then FitsEncoded(EncodedValue(b), x)
    else a == b || CompareSequences(x, y) != 0
  }

  /** The numbers are the components. */
  lemma {:induction false} FindJoined(parts: Names)
    requires parts != [] && forall i :: 0 <= i < |parts| ==> AllDigits(parts[i])
    ensures FindAll(Join(parts, '.')) == parts
  {
    FindWhole(parts[0], DigitClass);
    if |parts| > 1 {
      var rest := Join(parts[1..], '.');
      FindJoined(parts[1..]);
      assert ("." + rest)[1..] == rest;
      assert FindAll("." + rest) == FindAll(rest);
      FindCut(parts[0], "." + rest);
      assert Join(parts, '.') == parts[0] + ("." + rest);
    }
  }

  function Numbers(values: seq<int>): (parts: seq<Part>)
    requires forall i :: 0 <= i < |values| ==> values[i] >= 0
    ensures |parts| == |values| && forall i :: 0 <= i < |parts| ==> parts[i] == Number(values[i])
  {
    seq(|values|, i requires 0 <= i < |values| => Number(values[i]))
  }

  lemma {:induction false} ValuesAt(parts: Names)
    requires forall i :: 0 <= i < |parts| ==> AllDigits(parts[i])
    ensures forall i :: 0 <= i < |parts| ==> Values(parts)[i] == Value(parts[i])
  {
    if parts != [] {
      ValuesAt(parts[1..]);
      forall i | 0 <= i < |parts|
        ensures Values(parts)[i] == Value(parts[i])
      {
        if i > 0 {
          assert Values(parts)[i] == Values(parts[1..])[i - 1];
        }
      }
    }
  }

  lemma NumericNatural(version: string, fold: string -> string)
    requires Numeric(version)
    ensures var values := Values(Split(version, '.'));
            (forall i :: 0 <= i < |values| ==> values[i] >= 0) && NaturalParts(version, fold) == Numbers(values)
  {
    var parts := Split(version, '.');
    JoinSplit(version, '.');
    FindJoined(parts);
    ValuesAt(parts);
  }

  lemma {:induction false} NumbersCompare(x: seq<int>, y: seq<int>)
    requires forall i :: 0 <= i < |x| ==> x[i] >= 0
    requires forall i :: 0 <= i < |y| ==> y[i] >= 0
    ensures Lex(CompareParts, Numbers(x), Numbers(y)) == Lex(CompareInts, x, y)
    ensures Numbers(x) == Numbers(y) <==> x == y
    decreases |x|
  {
    if x != [] && y != [] {
      NumbersCompare(x[1..], y[1..]);
      assert Numbers(x)[1..] == Numbers(x[1..]) && Numbers(y)[1..] == Numbers(y[1..]);
    }
    if Numbers(x) == Numbers(y) {
      assert forall i :: 0 <= i < |x| ==> Numbers(x)[i] == Numbers(y)[i];
    }
  }

  /** Without padding the order is the same, unless padding makes the two equal. */
  lemma {:induction false} LexBelow(x: seq<int>, y: seq<int>, i: nat)
    requires forall j :: 0 <= j < |x| ==> x[j] >= 0
    requires Place(x, i) < Place(y, i) && forall j: nat :: j < i ==> Place(x, j) == Place(y, j)
    ensures Lex(CompareInts, x, y) < 0
    decreases |x|
  {
    assert Place(x, i) >= 0;
    if x != [] {
      assert Place(x, 0) == x[0];
      if y != [] && i > 0 {
        assert Place(y, 0) == y[0] && x[0] == y[0];
        forall j: nat | j < i - 1
          ensures Place(x[1..], j) == Place(y[1..], j)
        {
          assert Place(x, j + 1) == Place(y, j + 1);
        }
        LexBelow(x[1..], y[1..], i - 1);
      }
    } else {
      assert i < |y|;
    }
  }

  lemma UnpaddedSign(x: seq<int>, y: seq<int>)
    requires forall i :: 0 <= i < |x| ==> x[i] >= 0
    requires forall i :: 0 <= i < |y| ==> y[i] >= 0
    ensures CompareSequences(x, y) != 0 ==> Sign(Lex(CompareInts, x, y)) == Sign(CompareSequences(x, y))
  {
    ComparePlaces(x, y);
    if Below(x, y) {
      var i: nat :| Place(x, i) < Place(y, i) && forall j: nat :: j < i ==> Place(x, j) == Place(y, j);
      LexBelow(x, y, i);
    } else if Below(y, x) {
      var i: nat :| Place(y, i) < Place(x, i) && forall j: nat :: j < i ==> Place(y, j) == Place(x, j);
      LexBelow(y, x, i);
      LexOpposite(CompareInts, x, y);
    }
  }

  /** On numeric versions the natural order is that of the unpadded numbers, and then of the texts. */
  lemma NaturalOfNumeric(u: Unicode, a: string, b: string)
    requires PlainAscii(u) && Numeric(a) && Numeric(b)
    ensures var x, y := Values(Split(a, '.')), Values(Split(b, '.'));
            CompareNatural(u, a, b) == if x != y then Lex(CompareInts, x, y) else CompareTexts(a, b)
  {
    NumericNatural(a, u.fold);
    NumericNatural(b, u.fold);
    NumericChars(a);
    NumericChars(b);
    hide Numeric, NaturalParts, Split, Values;
    NumbersCompare(Values(Split(a, '.')), Values(Split(b, '.')));
    assert u.fold(a) == a && u.fold(b) == b;
  }

  lemma ValuesNonNegative(version: string)
    requires Numeric(version)
    ensures forall i :: 0 <= i < |Values(Split(version, '.'))| ==> Values(Split(version, '.'))[i] >= 0
  {
    ValuesAt(Split(version, '.'));
  }

  lemma Undotted(version: string)
    requires Numeric(version) && '.' !in version
    ensures Values(Split(version, '.')) == [EncodedValue(version)]
  {
    SplitName(version, "", '.');
    assert AllDigits(Split(version, '.')[0]);
  }

  lemma SingleSequences(m: int, n: int)
    ensures CompareSequences([m], [n]) == Sign(m - n)
  {
    assert Lex(CompareInts, [m], [n]) == if CompareInts(m, n) != 0 then CompareInts(m, n) else Lex(CompareInts, [], []);
  }

  /** Two versions of which both or neither is an encoded integer compare by their numbers. */
  lemma PlainCmp(u: Unicode, x: string, y: string, package: Option<string>)
    requires IsNumeric(u, x) && IsNumeric(u, y)
    requires IsSqlite(u, package) ==> (Encodes(Strip(x, u.blank)) <==> Encodes(Strip(y, u.blank)))
    ensures VersionCmp(u, x, y, package) ==
            CompareSequences(Values(Split(Strip(x, u.blank), '.')), Values(Split(Strip(y, u.blank), '.')))
  {
    hide CompareSequences, Numeric, Decoded;
    var a, b := Strip(x, u.blank), Strip(y, u.blank);
    if IsSqlite(u, package) && Encodes(a) {
      Undotted(a);
      Undotted(b);
      SingleSequences(EncodedValue(a), EncodedValue(b));
      SqliteIntegers(u, x, y, package);
    }
  }

  lemma PlainFits(u: Unicode, x: string, y: string, package: Option<string>)
    requires PlainAscii(u) && IsNumeric(u, x) && IsNumeric(u, y)
    requires IsSqlite(u, package) ==> (Encodes(Strip(x, u.blank)) <==> Encodes(Strip(y, u.blank)))
    ensures Agreeing(u, x, y, package) <==> Fits(Strip(x, u.blank), Strip(y, u.blank), IsSqlite(u, package))
  {
    var a, b := Strip(x, u.blank), Strip(y, u.blank);
    var v, w := Values(Split(a, '.')), Values(Split(b, '.'));
    PlainCmp(u, x, y, package);
    NaturalOfNumeric(u, a, b);
    ValuesNonNegative(a);
    ValuesNonNegative(b);
    UnpaddedSign(v, w);
    hide CompareSequences, CompareNatural, VersionCmp, Lex, Values, Split, Numeric, Encodes, PlainAscii;
    SameSequence(v, w);
    CharsOrder();
    LexEqual(CompareChars, a, b);
    LexEqual(CompareInts, v, w);
  }

  lemma SameSequence(v: seq<int>, w: seq<int>)
    ensures Orders(CompareInts) && (v == w ==> CompareSequences(v, w) == 0)
  {
    ComparePlaces(v, w);
  }

  /** An encoded integer beside a version that is not one. */
  lemma EncodedFits(u: Unicode, x: string, y: string, package: Option<string>)
    requires PlainAscii(u) && IsNumeric(u, x) && IsNumeric(u, y) && IsSqlite(u, package)
    requires Encodes(Strip(x, u.blank)) && !Encodes(Strip(y, u.blank))
    ensures Agreeing(u, x, y, package) <==> FitsEncoded(EncodedValue(Strip(x, u.blank)), Values(Split(Strip(y,
            u.blank), '.')))
  {
    var a, b := Strip(x, u.blank), Strip(y, u.blank);
    var m, w := EncodedValue(a), Values(Split(b, '.'));
    NaturalOfNumeric(u, a, b);
    Undotted(a);
    LongerUnlessUndotted(b, m);
    EncodedCmp(u, x, y, package);
    hide CompareSequences, CompareNatural, VersionCmp, Lex, Values, Split, Numeric, PlainAscii, Decoded, EncodedValue;
    EncodedLex(m, w);
    if m <= w[0] {
      FirstDecides(m, w);
    }
  }

  lemma EncodedCmp(u: Unicode, x: string, y: string, package: Option<string>)
    requires IsNumeric(u, x) && IsNumeric(u, y) && IsSqlite(u, package)
    requires Encodes(Strip(x, u.blank)) && !Encodes(Strip(y, u.blank))
    ensures VersionCmp(u, x, y, package) ==
            CompareSequences(Decoded(EncodedValue(Strip(x, u.blank))), Values(Split(Strip(y, u.blank), '.')))
  {
    hide CompareSequences, Decoded, Numeric;
  }

  lemma LongerUnlessUndotted(b: string, m: nat)
    requires Numeric(b) && !Encodes(b) && m >= SQLITE_BASE
    ensures Values(Split(b, '.')) != [m]
  {
    if '.' in b {
      Dotted(b);
    } else {
      Undotted(b);
    }
  }

  lemma Dotted(b: string)
    requires Numeric(b) && '.' in b
    ensures |Split(b, '.')| > 1
  {
    if |Split(b, '.')| == 1 {
      JoinSplit(b, '.');
      NoSeparator(b, '.');
    }
  }

  lemma EncodedLex(m: nat, w: seq<int>)
    requires w != [] && w != [m]
    ensures Lex(CompareInts, [m], w) == if m <= w[0] then -1 else 1
  {
    assert m == w[0] && |w| == 1 ==> w == [m];
    assert [m][1..] == [];
    assert m == w[0] ==> w[1..] != [];
  }

  /** Dividing by a million makes an encoded integer smaller. */
  lemma FirstDecides(m: nat, w: seq<int>)
    requires w != [] && m >= SQLITE_BASE && m <= w[0]
    ensures CompareSequences(Decoded(m), w) < 0
  {
    ComparePlaces(Decoded(m), w);
    assert Place(Decoded(m), 0) < Place(w, 0);
  }

  lemma FitsSwap(u: Unicode, x: string, y: string, package: Option<string>)
    ensures Agreeing(u, x, y, package) <==> Agreeing(u, y, x, package)
  {
    hide Agreeing;
    if Agreeing(u, x, y, package) {
      AgreeingSwap(u, x, y, package);
    }
    if Agreeing(u, y, x, package) {
      AgreeingSwap(u, y, x, package);
    }
  }

  /** The numeric and the natural order of two numeric versions agree exactly when their texts fit. */
  lemma FitsIff(u: Unicode, x: string, y: string, package: Option<string>)
    requires PlainAscii(u) && IsNumeric(u, x) && IsNumeric(u, y)
    ensures Agreeing(u, x, y, package) <==> Fits(Strip(x, u.blank), Strip(y, u.blank), IsSqlite(u, package))
  {
    hide Agreeing, Numeric, PlainAscii, CompareSequences, FitsEncoded;
    var a, b := Strip(x, u.blank), Strip(y, u.blank);
    if IsSqlite(u, package) && Encodes(a) && !Encodes(b) {
      EncodedFits(u, x, y, package);
    } else if IsSqlite(u, package) && Encodes(b) && !Encodes(a) {
      FitsSwap(u, x, y, package);
      EncodedFits(u, y, x, package);
    } else {
      PlainFits(u, x, y, package);
    }
  }

  /** Two numeric versions chain with every version that is not numeric exactly when their texts fit: they are one
      text, or not two spellings of one version. */
  lemma ConsistentIff(u: Unicode, x: string, y: string, package: Option<string>)
    requires PlainAscii(u) && IsNumeric(u, x) && IsNumeric(u, y)
    ensures (forall z :: !IsNumeric(u, z) ==> Consistent(u, x, y, z, package)) <==>
            Fits(Strip(x, u.blank), Strip(y, u.blank), IsSqlite(u, package))
  {
    hide Agreeing, Consistent, Fits, PlainAscii;
    ConsistentAgreeing(u, x, y, package);
    FitsIff(u, x, y, package);
  }
}
