/** What the version comparison says of versions as they are spelled: decimal numbers between dots, SQLite's digit
    pairs, and words and numbers in natural order. */
module VersionNumbers {
  import opened Numerals
  import opened Options
  import opened Texts
  import opened Versions

  // ---- dotted numbers ----

  function Spelled(numbers: seq<nat>): (parts: Names)
    ensures |parts| == |numbers| && forall i :: 0 <= i < |numbers| ==> parts[i] == Decimal(numbers[i])
  {
    seq(|numbers|, i requires 0 <= i < |numbers| => Decimal(numbers[i]))
  }

  /** The version of these numbers, such as 3.45.1. */
  function Dotted(numbers: seq<nat>): string {
    Join(Spelled(numbers), '.')
  }

  ghost predicate NoBlankDigits(u: Unicode) {
    forall c :: '0' <= c <= '9' ==> !u.blank(c)
  }

  /** A version is numeric exactly when it is numerals with dots between them. */
  lemma NumericIff(version: string)
    ensures Numeric(version) <==>
            exists parts: Names :: parts != [] && AllNumerals(parts) && version == Join(parts, '.')
  {
    JoinSplit(version, '.');
    assert Numeric(version) ==> AllNumerals(Split(version, '.'));
    forall parts: Names | parts != [] && AllNumerals(parts) && version == Join(parts, '.')
      ensures Numeric(version)
    {
      assert forall p :: p in parts ==> '.' !in p;
      SplitJoined(parts, '.');
      forall i | 0 <= i < |parts|
        ensures AllDigits(parts[i])
      {
        assert parts[i] in parts && forall j :: 0 <= j < |parts[i]| ==> parts[i][j] in parts[i];
      }
    }
  }

  ghost predicate AllNumerals(parts: Names) {
    forall p :: p in parts ==> p != "" && forall c :: c in p ==> '0' <= c <= '9'
  }

  /** A dotted version is read as its numbers. */
  lemma DottedReads(u: Unicode, numbers: seq<nat>)
    requires numbers != [] && NoBlankDigits(u)
    ensures var text := Dotted(numbers);
            Strip(text, u.blank) == text && Numeric(text) && Split(text, '.') == Spelled(numbers) &&
            Values(Split(text, '.')) == numbers && ('.' in text <==> |numbers| > 1)
  {
    var parts, text := Spelled(numbers), Dotted(numbers);
    forall i | 0 <= i < |parts|
      ensures AllDigits(parts[i]) && Value(parts[i]) == numbers[i] && '.' !in parts[i]
    {
      ValueDecimal(numbers[i]);
    }
    SplitJoined(parts, '.');
    JoinEnds(parts, '.');
    ValuesAre(parts, numbers);
    if |numbers| == 1 {
      assert text == parts[0];
    } else {
      assert text == parts[0] + ['.'] + Join(parts[1..], '.');
    }
    hide Join;
    assert Strip(text, u.blank) == text;
  }

  lemma {:induction false} JoinEnds(parts: Names, separator: char)
    requires parts != [] && forall i :: 0 <= i < |parts| ==> parts[i] != ""
    ensures var text, last := Join(parts, separator), parts[|parts| - 1];
            text != "" && text[0] == parts[0][0] && text[|text| - 1] == last[|last| - 1]
  {
    if |parts| > 1 {
      JoinEnds(parts[1..], separator);
    }
  }

  lemma {:induction false} ValuesAre(parts: Names, numbers: seq<nat>)
    requires |parts| == |numbers|
    requires forall i :: 0 <= i < |parts| ==> AllDigits(parts[i]) && Value(parts[i]) == numbers[i]
    ensures Values(parts) == numbers
  {
    if parts != [] {
      ValuesAre(parts[1..], numbers[1..]);
      assert numbers == [numbers[0]] + numbers[1..];
    }
  }

  /** Not an integer that stands for SQLite's digit pairs. */
  predicate Undecoded(numbers: seq<nat>) {
    |numbers| != 1 || numbers[0] < 1000000
  }

  ghost predicate NamesSqlite(u: Unicode, package: Option<string>) {
    package.Some? && package.value != "" && u.fold(package.value) == "sqlite"
  }

  /** Dotted versions compare by the first number that differs, where missing numbers are zero. */
  lemma DottedCmp(u: Unicode, a: seq<nat>, b: seq<nat>, package: Option<string>)
    requires a != [] && b != [] && NoBlankDigits(u)
    requires NamesSqlite(u, package) ==> Undecoded(a) && Undecoded(b)
    ensures VersionCmp(u, Dotted(a), Dotted(b), package) < 0 <==> Below(a, b)
    ensures VersionCmp(u, Dotted(a), Dotted(b), package) > 0 <==> Below(b, a)
  {
    DottedReads(u, a);
    DottedReads(u, b);
    DottedParts(u, a, package);
    DottedParts(u, b, package);
    ComparePlaces(a, b);
  }

  lemma DottedParts(u: Unicode, numbers: seq<nat>, package: Option<string>)
    requires numbers != [] && NoBlankDigits(u)
    requires NamesSqlite(u, package) ==> Undecoded(numbers)
    ensures NumericParts(Dotted(numbers), IsSqlite(u, package)) == Some(numbers)
  {
    DottedReads(u, numbers);
    if |numbers| == 1 {
      ValueDecimal(numbers[0]);
      assert Dotted(numbers) == Decimal(numbers[0]);
    }
  }

  // ---- SQLite's digit pairs ----

  function Two(n: nat): string
    requires n < 100
  {
    [(n / 10) as char + '0', (n % 10) as char + '0']
  }

  /** For SQLite, an integer with at least seven digits is the dotted version of its last three pairs of digits and
      what stands before them: 3450100 is 3.45.1.0. */
  lemma SqlitePairs(u: Unicode, a: nat, b: nat, c: nat, d: nat, other: string, package: Option<string>)
    requires a > 0 && b < 100 && c < 100 && d < 100 && NoBlankDigits(u) && NamesSqlite(u, package)
    requires IsNumeric(u, other)
    ensures var integer := Decimal(a) + Two(b) + Two(c) + Two(d);
            VersionCmp(u, integer, other, package) == VersionCmp(u, Dotted([a, b, c, d]), other, package)
  {
    var integer := Decimal(a) + Two(b) + Two(c) + Two(d);
    PairsValue(a, b, c, d);
    IntegerReads(u, integer);
    DottedReads(u, [a, b, c, d]);
    DottedParts(u, [a, b, c, d], package);
    hide Decimal, Two, Value, Decoded, Dotted, Strip, Numeric, Values, Split;
  }

  /** An integer with its digits is read as one numeral. */
  lemma IntegerReads(u: Unicode, integer: string)
    requires AllDigits(integer) && NoBlankDigits(u)
    ensures Strip(integer, u.blank) == integer && Numeric(integer) && '.' !in integer
    ensures EncodedValue(integer) == Value(integer)
  {
    assert '.' !in integer;
    SplitName(integer, "", '.');
  }

  lemma PairsValue(a: nat, b: nat, c: nat, d: nat)
    requires a > 0 && b < 100 && c < 100 && d < 100
    ensures var integer := Decimal(a) + Two(b) + Two(c) + Two(d);
            AllDigits(integer) && Value(integer) == 1000000 * a + 10000 * b + 100 * c + d &&
            Decoded(Value(integer)) == [a, b, c, d]
  {
    ValueDecimal(a);
    PairValue(Decimal(a), b);
    PairValue(Decimal(a) + Two(b), c);
    PairValue(Decimal(a) + Two(b) + Two(c), d);
    hide Value, AllDigits, Decoded, Decimal, Two;
    PairsDecoded(a, b, c, d);
  }

  lemma PairsDecoded(a: nat, b: nat, c: nat, d: nat)
    requires b < 100 && c < 100 && d < 100
    ensures Decoded(1000000 * a + 10000 * b + 100 * c + d) == [a, b, c, d]
  {
    var n := 1000000 * a + 10000 * b + 100 * c + d;
    assert n / 1000000 == a && n / 10000 == 100 * a + b && n / 100 == 10000 * a + 100 * b + c;
  }

  lemma PairValue(s: string, n: nat)
    requires AllDigits(s) && n < 100
    ensures AllDigits(s + Two(n)) && Value(s + Two(n)) == 100 * Value(s) + n
  {
    var t := s + Two(n);
    assert t[..|t| - 1][..|t| - 2] == s;
  }

  // ---- natural order ----

  /** At the first difference `a` has less, or nothing more. */
  ghost predicate FirstLess<T(!new)>(less: (T, T) -> bool, a: seq<T>, b: seq<T>) {
    exists i: nat :: LessAt(less, a, b, i)
  }

  ghost predicate LessAt<T(!new)>(less: (T, T) -> bool, a: seq<T>, b: seq<T>, i: nat) {
    i <= |a| && i < |b| && a[..i] == b[..i] && (i == |a| || less(a[i], b[i]))
  }

  lemma {:induction false} LexLess<T(!new)>(cmp: (T, T) -> int, less: (T, T) -> bool, a: seq<T>, b: seq<T>)
    requires Orders(cmp) && forall x, y :: cmp(x, y) < 0 <==> less(x, y)
    ensures Lex(cmp, a, b) < 0 <==> FirstLess(less, a, b)
    decreases |a|
  {
    if a == [] {
      assert b != [] ==> LessAt(less, a, b, 0);
    } else if b != [] && a[0] == b[0] {
      LexLess(cmp, less, a[1..], b[1..]);
      assert a == [a[0]] + a[1..] && b == [b[0]] + b[1..];
      if i: nat :| LessAt(less, a[1..], b[1..], i) {
        assert a[..i + 1] == [a[0]] + a[1..][..i] == b[..i + 1];
        assert LessAt(less, a, b, i + 1);
      }
      if i: nat :| LessAt(less, a, b, i) {
        assert cmp(a[0], b[0]) == 0;
        assert a[1..][..i - 1] == a[..i][1..] == b[1..][..i - 1];
        assert LessAt(less, a[1..], b[1..], i - 1);
      }
    } else if b != [] {
      assert less(a[0], b[0]) ==> LessAt(less, a, b, 0);
      assert forall i: nat :: 0 < i <= |a| && i <= |b| ==> a[..i][0] == a[0] && b[..i][0] == b[0];
    }
  }

  ghost predicate TextBelow(a: string, b: string) {
    FirstLess((x: char, y: char) => x < y, a, b)
  }

  /** A word comes before a number; words by their characters, numbers by value. */
  predicate PartBelow(x: Part, y: Part) {
    match (x, y)
    case (Word(_), Number(_)) => true
    case (Number(_), Word(_)) => false
    case (Number(m), Number(n)) => m < n
    case (Word(v), Word(w)) => CompareTexts(v, w) < 0
  }

  lemma TextLess(a: string, b: string)
    ensures CompareTexts(a, b) < 0 <==> TextBelow(a, b)
  {
    CharsOrder();
    LexLess(CompareChars, (x: char, y: char) => x < y, a, b);
  }

  /** Where not both are numeric, versions compare by the first word or number that differs, and only if none does by
      their folded texts. */
  lemma NaturalCmp(u: Unicode, one: string, two: string, package: Option<string>)
    requires !(IsNumeric(u, one) && IsNumeric(u, two))
    ensures var a, b := Strip(one, u.blank), Strip(two, u.blank);
            var x, y := NaturalParts(a, u.fold), NaturalParts(b, u.fold);
            VersionCmp(u, one, two, package) < 0 <==>
            FirstLess(PartBelow, x, y) || (x == y && TextBelow(u.fold(a), u.fold(b)))
  {
    hide Lex, Orders, FirstLess, NaturalParts, TextBelow, CompareTexts;
    var a, b := Strip(one, u.blank), Strip(two, u.blank);
    var x, y := NaturalParts(a, u.fold), NaturalParts(b, u.fold);
    PartsOrder();
    PartsLess(x, y);
    LexEqual(CompareParts, x, y);
    TextLess(u.fold(a), u.fold(b));
  }

  lemma PartsLess(x: seq<Part>, y: seq<Part>)
    ensures Lex(CompareParts, x, y) < 0 <==> FirstLess(PartBelow, x, y)
  {
    hide Lex, FirstLess, CompareTexts;
    PartsOrder();
    LexLess(CompareParts, PartBelow, x, y);
  }
}
