/** Numeric versions among others: when the comparison is transitive across the two kinds. */
module VersionKinds {
  import opened Numerals
  import opened Options
  import opened Texts
  import opened Versions

  predicate Dashed(c: char) {
    Digit(c) || c == '.' || c == '-'
  }

  /** Digits, dots and dashes fold to themselves, and digits and dashes are not white space. */
  ghost predicate PlainAscii(u: Unicode) {
    (forall s: string :: (forall i :: 0 <= i < |s| ==> Dashed(s[i])) ==> u.fold(s) == s) &&
    forall c :: Dashed(c) && c != '.' ==> !u.blank(c)
  }

  ghost predicate Chain(u: Unicode, a: string, b: string, c: string, package: Option<string>) {
    VersionCmp(u, a, b, package) <= 0 && VersionCmp(u, b, c, package) <= 0 ==> VersionCmp(u, a, c, package) <= 0
  }

  /** No chain through these three is broken, whatever their order. */
  ghost predicate Consistent(u: Unicode, a: string, b: string, c: string, package: Option<string>) {
    Chain(u, a, b, c, package) && Chain(u, a, c, b, package) && Chain(u, b, a, c, package) &&
    Chain(u, b, c, a, package) && Chain(u, c, a, b, package) && Chain(u, c, b, a, package)
  }

  function Natural(u: Unicode, a: string, b: string): int {
    CompareNatural(u, Strip(a, u.blank), Strip(b, u.blank))
  }

  ghost predicate Agreeing(u: Unicode, a: string, b: string, package: Option<string>) {
    Sign(VersionCmp(u, a, b, package)) == Sign(Natural(u, a, b))
  }

  /** Two numeric versions fit with every version that is not numeric exactly when their numeric and natural orders
      agree. */
  lemma ConsistentAgreeing(u: Unicode, x: string, y: string, package: Option<string>)
    requires PlainAscii(u) && IsNumeric(u, x) && IsNumeric(u, y)
    ensures (forall z :: !IsNumeric(u, z) ==> Consistent(u, x, y, z, package)) <==> Agreeing(u, x, y, package)
  {
    hide Natural, VersionCmp, IsNumeric, Chain, PlainAscii;
    NaturalOpposite(u, Strip(x, u.blank), Strip(y, u.blank));
    Antisymmetric(u, x, y, package);
    assert Natural(u, x, y) == -Natural(u, y, x) by {
      NaturalSwap(u, x, y);
    }
    if Agreeing(u, x, y, package) {
      forall z | !IsNumeric(u, z)
        ensures Consistent(u, x, y, z, package)
      {
        AgreeingConsistent(u, x, y, z, package);
      }
    } else if Natural(u, x, y) < 0 {
      var z := BrokenChain(u, x, y, package);
      assert !Consistent(u, x, y, z, package);
    } else if Natural(u, y, x) < 0 {
      var z := BrokenChain(u, y, x, package);
      assert !Consistent(u, x, y, z, package);
    } else {
      NaturalEqual(u, x, y, package);
    }
  }

  lemma NaturalSwap(u: Unicode, a: string, b: string)
    ensures Natural(u, a, b) == -Natural(u, b, a)
  {
    NaturalOpposite(u, Strip(a, u.blank), Strip(b, u.blank));
  }

  lemma ChainByNature(u: Unicode, a: string, b: string, c: string, package: Option<string>)
    requires Agreeing(u, a, b, package) && Agreeing(u, b, c, package) && Agreeing(u, a, c, package)
    ensures Chain(u, a, b, c, package)
  {
    hide VersionCmp, CompareNatural;
    if Natural(u, a, b) <= 0 && Natural(u, b, c) <= 0 {
      NaturalChain(u, Strip(a, u.blank), Strip(b, u.blank), Strip(c, u.blank));
    }
  }

  lemma AgreeingSwap(u: Unicode, a: string, b: string, package: Option<string>)
    requires Agreeing(u, a, b, package)
    ensures Agreeing(u, b, a, package)
  {
    hide VersionCmp, Natural;
    NaturalSwap(u, a, b);
    Antisymmetric(u, a, b, package);
  }

  lemma OtherAgreeing(u: Unicode, a: string, z: string, package: Option<string>)
    requires !IsNumeric(u, z)
    ensures Agreeing(u, a, z, package) && Agreeing(u, z, a, package)
  {
  }

  lemma AgreeingConsistent(u: Unicode, x: string, y: string, z: string, package: Option<string>)
    requires Agreeing(u, x, y, package) && !IsNumeric(u, z)
    ensures Consistent(u, x, y, z, package)
  {
    hide Agreeing, Chain;
    AgreeingSwap(u, x, y, package);
    OtherAgreeing(u, x, z, package);
    OtherAgreeing(u, y, z, package);
    ChainByNature(u, x, y, z, package);
    ChainByNature(u, x, z, y, package);
    ChainByNature(u, y, x, z, package);
    ChainByNature(u, y, z, x, package);
    ChainByNature(u, z, x, y, package);
    ChainByNature(u, z, y, x, package);
  }

  /** A dash after the lower version puts a version that is not numeric between the two. */
  lemma BrokenChain(u: Unicode, low: string, high: string, package: Option<string>) returns (z: string)
    requires PlainAscii(u) && IsNumeric(u, low) && IsNumeric(u, high)
    requires Natural(u, low, high) < 0 <= VersionCmp(u, low, high, package)
    ensures !IsNumeric(u, z) && !(Chain(u, low, z, high, package) && Chain(u, high, low, z, package))
  {
    var a, b := Strip(low, u.blank), Strip(high, u.blank);
    z := a + "-";
    NumericChars(a);
    NumericChars(b);
    assert z[|a|] == '-';
    StripDashed(u, z);
    if Numeric(z) {
      NumericChars(z);
    }
    NaturalDash(a, u.fold);
    DashAbove(a);
    if CompareTexts(a, b) < 0 {
      DashBelow(a, b);
    }
    Dash(u, low, high, z, package);
  }

  lemma Dash(u: Unicode, low: string, high: string, z: string, package: Option<string>)
    requires !IsNumeric(u, z) && Natural(u, low, z) < 0 && Natural(u, z, high) < 0 <= VersionCmp(u, low, high, package)
    ensures !(Chain(u, low, z, high, package) && Chain(u, high, low, z, package))
  {
    hide Natural, VersionCmp, IsNumeric;
    NaturalCompared(u, low, z, package);
    NaturalCompared(u, z, high, package);
    NaturalCompared(u, high, z, package);
    NaturalSwap(u, high, z);
    Antisymmetric(u, low, high, package);
  }

  lemma NaturalCompared(u: Unicode, a: string, b: string, package: Option<string>)
    requires !IsNumeric(u, a) || !IsNumeric(u, b)
    ensures VersionCmp(u, a, b, package) == Natural(u, a, b)
  {
  }

  lemma NumericChars(s: string)
    requires Numeric(s)
    ensures s != "" && Digit(s[0]) && forall i :: 0 <= i < |s| ==> Digit(s[i]) || s[i] == '.'
  {
    assert AllDigits(Split(s, '.')[0]);
    forall i | 0 <= i < |s|
      ensures Digit(s[i]) || s[i] == '.'
    {
      SplitChars(s, '.', i);
      if s[i] != '.' {
        var k :| 0 <= k < |Split(s, '.')| && s[i] in Split(s, '.')[k];
        assert AllDigits(Split(s, '.')[k]);
      }
    }
  }

  lemma StripDashed(u: Unicode, s: string)
    requires PlainAscii(u) && s != "" && Digit(s[0]) && s[|s| - 1] == '-'
    ensures Strip(s, u.blank) == s
  {
    assert Dashed(s[0]) && Dashed('-');
  }

  lemma {:induction false} DashAbove(a: string)
    ensures CompareTexts(a, a + "-") < 0
  {
    if a != "" {
      DashAbove(a[1..]);
      assert (a + "-")[1..] == a[1..] + "-";
    }
  }

  /** A dash comes before every digit and dot. */
  lemma {:induction false} DashBelow(a: string, b: string)
    requires CompareTexts(a, b) < 0 && forall i :: 0 <= i < |b| ==> Digit(b[i]) || b[i] == '.'
    ensures CompareTexts(a + "-", b) < 0
  {
    if a != "" && a[0] == b[0] {
      DashBelow(a[1..], b[1..]);
      assert (a + "-")[1..] == a[1..] + "-";
    }
  }

  lemma {:induction false} RunDash(s: string, digits: bool)
    ensures Run(s + "-", digits) == Run(s, digits)
  {
    if s != "" {
      RunDash(s[1..], digits);
      assert (s + "-")[1..] == s[1..] + "-";
    }
  }

  lemma {:induction false} FindDash(s: string)
    ensures FindAll(s + "-") == FindAll(s)
  {
    if s == "" {
      assert ("" + "-")[1..] == "";
    } else {
      RunDash(s, true);
      RunDash(s, false);
      var n := if Digit(s[0]) then Run(s, true) else if Letter(s[0]) then Run(s, false) else 1;
      assert (s + "-")[..n] == s[..n] && (s + "-")[n..] == s[n..] + "-";
      FindDash(s[n..]);
    }
  }

  lemma NaturalDash(s: string, fold: string -> string)
    ensures NaturalParts(s + "-", fold) == NaturalParts(s, fold)
  {
    FindDash(s);
  }

  lemma NaturalEqual(u: Unicode, x: string, y: string, package: Option<string>)
    requires PlainAscii(u) && IsNumeric(u, x) && IsNumeric(u, y) && Natural(u, x, y) == 0
    ensures Agreeing(u, x, y, package)
  {
    hide Orders, NaturalParts;
    var a, b := Strip(x, u.blank), Strip(y, u.blank);
    NumericChars(a);
    NumericChars(b);
    PartsOrder();
    LexEqual(CompareParts, NaturalParts(a, u.fold), NaturalParts(b, u.fold));
    CharsOrder();
    LexEqual(CompareChars, a, b);
    Antisymmetric(u, x, y, package);
  }

  /** Across the two kinds it is not: 1 is below 1-0, which is below 1.0, which equals 1. */
  lemma MixedNotTransitive(u: Unicode, package: Option<string>)
    requires PlainAscii(u)
    ensures VersionCmp(u, "1", "1-0", package) < 0 && VersionCmp(u, "1-0", "1.0", package) < 0
    ensures VersionCmp(u, "1", "1.0", package) == 0
  {
    hide PlainAscii, Strip, Natural;
    SmallTexts(u);
    SmallNumeric();
    NaturalCompared(u, "1", "1-0", package);
    NaturalCompared(u, "1-0", "1.0", package);
    SmallNatural(u);
    hide VersionCmp, IsNumeric;
    TrailingZero(u, package);
  }

  lemma TrailingZero(u: Unicode, package: Option<string>)
    requires PlainAscii(u)
    ensures VersionCmp(u, "1", "1.0", package) == 0
  {
    SmallTexts(u);
    SmallNumeric();
    hide PlainAscii, Strip, Numeric, NumericParts;
    ComparePlaces([1], [1, 0]);
  }

  lemma SmallNatural(u: Unicode)
    requires PlainAscii(u)
    ensures Natural(u, "1", "1-0") < 0 && Natural(u, "1-0", "1.0") < 0
  {
    SmallTexts(u);
    SmallParts(u.fold);
    hide PlainAscii, Strip, NaturalParts;
    assert Lex(CompareParts, [Number(1)], [Number(1), Number(0)]) == Lex(CompareParts, [], [Number(0)]);
    assert CompareTexts("1-0", "1.0") == -1;
  }

  lemma SmallNumeric()
    ensures Numeric("1") && Numeric("1.0") && !Numeric("1-0")
    ensures forall sqlite :: NumericParts("1", sqlite) == Some([1]) && NumericParts("1.0", sqlite) == Some([1, 0])
  {
    SmallSplits();
    hide Split;
    assert Value("1") == 10 * Value("") + 1 && Value("0") == 10 * Value("");
    assert "1-0"[1] == '-' && !AllDigits("1-0");
    assert Split("1-0", '.')[0] == "1-0";
    assert Values(["1"]) == [1] && Values(["1", "0"]) == [1, 0];
    assert EncodedValue("1") == 1;
  }

  lemma SmallTexts(u: Unicode)
    requires PlainAscii(u)
    ensures Strip("1", u.blank) == "1" && Strip("1-0", u.blank) == "1-0" && Strip("1.0", u.blank) == "1.0"
    ensures u.fold("1-0") == "1-0" && u.fold("1.0") == "1.0"
  {
    assert Dashed('0') && Dashed('1');
  }

  lemma SmallSplits()
    ensures Split("1", '.') == ["1"] && Split("1-0", '.') == ["1-0"] && Split("1.0", '.') == ["1", "0"]
  {
    SplitName("1", "0", '.');
    SplitName("1-0", "", '.');
    SplitName("0", "", '.');
    assert "1" + ['.'] + "0" == "1.0";
  }

  lemma SmallParts(fold: string -> string)
    ensures NaturalParts("1", fold) == [Number(1)]
    ensures NaturalParts("1-0", fold) == NaturalParts("1.0", fold) == [Number(1), Number(0)]
  {
    assert "0"[..1] == "0" && "0"[1..] == "" && "1"[..1] == "1" && "1"[1..] == "";
    assert FindAll("0") == ["0"] && FindAll("1") == ["1"];
    assert "-0"[1..] == "0" && ".0"[1..] == "0";
    assert "1-0"[..1] == "1" && "1-0"[1..] == "-0" && "1.0"[..1] == "1" && "1.0"[1..] == ".0";
    assert FindAll("-0") == FindAll("0") && FindAll(".0") == FindAll("0");
    assert FindAll("1-0") == ["1"] + FindAll("-0");
    assert FindAll("1.0") == ["1"] + FindAll(".0");
    assert Value("1") == 10 * Value("") + 1 && Value("0") == 10 * Value("");
  }
}
