/** Steps of the parser's proof that do not mention its state. */
module JsonFacts {
  import opened Options
  import opened JsonGrammar
  import opened JsonStrings
  import opened JsonLiterals
  import opened JsonReading
  import opened JsonScan
  import opened JsonTokens

  const FRAME_SIZE: nat := 65536
  const PADDING: nat := 32
  const PRIMITIVE: Byte := 0x70

  /** The value of the first `n` of four hexadecimal digits. */
  function HexPrefix(t: seq<Byte>, n: nat): int
    requires n <= |t| && forall k :: 0 <= k < n ==> HexDigit(t[k])
  {
    if n == 0 then 0 else HexPrefix(t, n - 1) * 16 + HexValue(t[n - 1])
  }

  lemma HexDigitAt(s: seq<Byte>, at: nat, i: nat)
    requires i < 4
    ensures Hex4At(s, at) ==> HexDigit(s[at + i])
  {
    assert Hex4At(s, at) ==> s[at..at + 4][i] == s[at + i];
  }

  lemma HexPrefix4(t: seq<Byte>)
    requires IsHex4(t)
    ensures HexPrefix(t, 4) == Hex4Value(t)
  {
    assert HexPrefix(t, 1) == HexPrefix(t, 0) * 16 + HexValue(t[0]);
    assert HexPrefix(t, 2) == HexPrefix(t, 1) * 16 + HexValue(t[1]);
    assert HexPrefix(t, 3) == HexPrefix(t, 2) * 16 + HexValue(t[2]);
  }

  lemma {:induction false} HexPrefixSame(t: seq<Byte>, u: seq<Byte>, n: nat)
    requires n <= |t| && n <= |u| && t[..n] == u[..n]
    requires forall k :: 0 <= k < n ==> HexDigit(u[k])
    ensures (forall k :: 0 <= k < n ==> HexDigit(t[k])) && HexPrefix(t, n) == HexPrefix(u, n)
  {
    assert forall k :: 0 <= k < n ==> t[k] == t[..n][k] == u[..n][k] == u[k];
    if n > 0 {
      assert t[..n - 1] == t[..n][..n - 1] == u[..n][..n - 1] == u[..n - 1];
      HexPrefixSame(t, u, n - 1);
    }
  }

  lemma HexPrefixNonNegative(t: seq<Byte>, n: nat)
    requires n <= |t| && forall k :: 0 <= k < n ==> HexDigit(t[k])
    ensures HexPrefix(t, n) >= 0
  {
  }

  lemma Utf8Length(cp: int, extra: nat)
    requires Scalar(cp) && 1 <= extra <= 3 && cp >= Minimum(extra)
    requires extra == 1 ==> cp < 0x800
    requires extra == 2 ==> cp < 0x10000
    ensures |Utf8(cp)| == extra + 1
  {
  }

  /** What `string_char` has to return at a byte that is not ASCII. */
  lemma MultibyteResult(s: seq<Byte>, i: nat)
    requires i < |s| && s[i] >= 0x80
    ensures var extra := Extra(s[i]);
            var good := extra > 0 && (forall k :: i < k <= i + extra ==> Continuation(At(s, k))) &&
                        Folded(s, i, extra) >= Minimum(extra) && Scalar(Folded(s, i, extra));
            CodeAt(s, i) == (if good then Folded(s, i, extra) else -1) &&
            (good ==> NextAt(s, i) == i + 1 + extra)
  {
    hide Spelled;
    if Utf8At(s, i).Some? {
      Utf8Sound(s, i);
      FoldedBound(s, i, Extra(s[i]));
      Utf8Length(Folded(s, i, Extra(s[i])), Extra(s[i]));
    }
  }

  lemma ScalarRange(cp: nat)
    ensures Scalar(cp) <==> cp <= 0x10FFFF && !(0xD800 <= cp <= 0xDFFF)
  {
  }

  lemma FoldedBound(s: seq<Byte>, i: nat, extra: nat)
    requires i < |s| && 1 <= extra <= 3
    ensures extra == 1 ==> Folded(s, i, extra) < 0x800
    ensures extra == 2 ==> Folded(s, i, extra) < 0x10000
  {
    FoldedValue(s, i, extra);
  }

  lemma NoUnits(units: seq<Unit>)
    requires AllInString(units)
    ensures |PrintUnits(units)| == 0 <==> units == []
  {
  }

  lemma SameHead(a: seq<int>, b: seq<int>)
    requires a != [] && b != [] && a[0] == b[0]
    ensures a == b <==> a[1..] == b[1..]
  {
    assert a == [a[0]] + a[1..] && b == [b[0]] + b[1..];
  }

  /** Reading the first of some characters spelled at `i`. */
  lemma NextUnit(s: seq<Byte>, i: nat, units: seq<Unit>)
    requires AllInString(units) && Spelled(s, i, PrintUnits(units)) && |PrintUnits(units)| > 0
    ensures units != [] && i < |s| && CodeAt(s, i) == Code(units[0])
    ensures NextAt(s, i) == i + |PrintUnit(units[0])| && Spelled(s, NextAt(s, i), PrintUnits(units[1..]))
    ensures |PrintUnits(units)| == |PrintUnit(units[0])| + |PrintUnits(units[1..])|
    ensures Codes(units) == [Code(units[0])] + Codes(units[1..])
  {
    hide Spelled, PrintUnit, UnitAt, Code;
    NoUnits(units);
    SpelledConcat(s, i, PrintUnit(units[0]), PrintUnits(units[1..]));
    UnitAtComplete(s, i, units[0]);
  }

  /** The next of the characters that are still to be copied. */
  lemma CodesStep(all: seq<int>, used: nat, left: seq<Unit>)
    requires AllInString(left) && left != [] && used < |all| && all[used..] == Codes(left)
    ensures all[used] == Code(left[0]) && all[used] in all && all[used + 1..] == Codes(left[1..])
    ensures all[..used + 1] == all[..used] + [all[used]] && AllInString(left[1..])
  {
    assert all[used] == all[used..][0] && all[used + 1..] == all[used..][1..];
  }

  lemma SliceMore(before: seq<Token>, after: seq<Token>, base: nat, count: nat, more: nat)
    requires base <= count <= |before| && count <= more <= |after| && before[..count] == after[..count]
    ensures after[base..more] == before[base..count] + after[count..more]
  {
    assert after[base..count] == after[..count][base..] == before[..count][base..] == before[base..count];
    assert after[base..more] == after[base..count] + after[count..more];
  }

  ghost predicate ReadsName(s: seq<Byte>, at: nat, depth: nat, count: nat, seen: seq<seq<int>>)
    requires at <= |s|
  {
    var r := ReadValue(s, at, depth, count);
    r.Some? && var (k, e) := r.value;
    IsText(k) && e == at + Length(k) &&
    k.Str? && AllInString(k.units) && Codes(k.units) !in seen && At(s, Skip(s, e)) == COLON
  }

  lemma NoName(s: seq<Byte>, at: nat, depth: nat, count: nat, seen: seq<seq<int>>)
    requires at <= |s| && !ReadsName(s, at, depth, count, seen)
    ensures ReadItems(s, at, true, depth, count, seen).None?
  {
    hide IsText, Length, ReadValue, AllInString, Codes, Skip, ReadAfter;
    if ReadValue(s, at, depth, count).Some? {
      ReadValueSound(s, at, depth, count);
    }
  }

  lemma NoMember(s: seq<Byte>, at: nat, depth: nat, count: nat, seen: seq<seq<int>>)
    requires at <= |s| && ReadsName(s, at, depth, count, seen)
    requires var (k, e) := ReadValue(s, at, depth, count).value;
             Skip(s, e) + 1 <= |s| && ReadValue(s, Skip(s, e) + 1, depth, count + 1).None?
    ensures ReadItems(s, at, true, depth, count, seen).None?
  {
    hide IsText, Length, ReadValue, AllInString, Codes, Skip, ReadAfter;
  }

  /** The chain of names, longer by the member just written: its name at `n`, its value after it. */
  lemma ExtendChain(s: seq<Byte>, before: seq<Token>, middle: seq<Token>, after: seq<Token>, first: nat, n: nat,
                           last: nat, seen: seq<seq<int>>, units: seq<Unit>, w: Text, q: nat)
    requires first <= n < |middle| == |after| == |before| && n + 1 < last <= |after|
    requires before[..n] == middle[..n] && middle[..n + 1] == after[..n + 1]
    requires KeyChain(s, before, first, n, seen) && IsStr(s, middle[n], units)
    requires IsText(w) && last == n + 1 + Count(w) && after[n + 1..last] == Tokens(w, q, n + 1)
    ensures KeyChain(s, after, first, last, seen + [Codes(units)])
  {
    hide IsText, KeyChain, AllInString, Codes, Tokens;
    FirstToken(w, q, n + 1);
    assert after[n + 1] == after[n + 1..last][0];
    assert after[n] == after[..n + 1][n] == middle[..n + 1][n] == middle[n];
    assert after[..n] == after[..n + 1][..n] == middle[..n + 1][..n] == middle[..n];
    KeyChainKept(s, before, after, first, n, seen);
    KeyChainMore(s, after, first, n, seen, units, last);
  }

  lemma FirstToken(t: Text, at: int, base: int)
    requires IsText(t)
    ensures Tokens(t, at, base)[0].next == base + Count(t)
    ensures Tokens(t, at, base)[0].kind == QUOTE <==> t.Str?
    ensures t.Str? ==> Count(t) == 1 && AllInString(t.units)
  {
  }

  lemma Shorter(x: seq<Token>, y: seq<Token>, base: nat, n: nat)
    requires base <= n <= |x| && n <= |y| && x[..n] == y[..n]
    ensures x[..base] == y[..base]
  {
    assert x[..base] == x[..n][..base] == y[..n][..base] == y[..base];
  }

  lemma NoTokens(s: seq<Byte>, tokens: seq<Token>, i: nat)
    ensures KeyChain(s, tokens, i, i, [])
  {
  }

  lemma NoComma(s: seq<Byte>, braced: bool, depth: nat, b: nat, base: nat, full: Option<(Items, nat)>, e: nat,
                       count: nat, seen: seq<seq<int>>, done: seq<Token>)
    requires e <= |s| && At(s, Skip(s, e)) != Close(braced) && At(s, Skip(s, e)) != COMMA
    requires WalksAfter(braced, b, base, full, e, count, ReadAfter(s, e, braced, depth, count, seen), done)
    ensures full.None?
  {
    hide Skip;
  }

  lemma WalkStart(s: seq<Byte>, braced: bool, depth: nat, b: nat, base: nat)
    requires b <= |s|
    ensures var full := ReadItems(s, b, braced, depth, base, []);
            Walks(braced, b, base, full, b, base, full, [])
  {
    hide ReadItems, AreItems, TokensOfItems;
    var full := ReadItems(s, b, braced, depth, base, []);
    if full.Some? {
      NothingSeen();
      ReadItemsSound(s, b, braced, depth, base, []);
      var all := TokensOfItems(braced, full.value.0, b, base);
      assert all == [] + all;
    }
  }

  /** What `ReadValue` finds at a byte that is not white space, by what the byte is. */
  lemma ReadsAt(s: seq<Byte>, p: nat, depth: nat, count: nat)
    requires p <= |s|
    ensures depth > MAX_DEPTH || count >= TOKEN_COUNT ==> ReadValue(s, p, depth, count).None?
    ensures LiteralEnd(s, |s|).None?
  {
  }

  lemma ReadsGroup(s: seq<Byte>, p: nat, depth: nat, count: nat, braced: bool)
    requires p <= |s| && depth <= MAX_DEPTH && count < TOKEN_COUNT && ByteAt(s, Skip(s, p), Open(braced))
    ensures var a := Skip(s, p);
            var b := Skip(s, a + 1);
            ReadValue(s, p, depth, count) ==
            if At(s, b) == Close(braced) then Some((Text.Group(s[p..a], braced, s[a + 1..b], Nil), b + 1))
            else
              var r := ReadItems(s, b, braced, depth + 1, count + 1, []);
              if r.None? then None else Some((Text.Group(s[p..a], braced, s[a + 1..b], r.value.0), r.value.1))
  {
    hide ReadItems, Skip;
  }

  lemma ReadsStr(s: seq<Byte>, p: nat, depth: nat, count: nat)
    requires p <= |s| && depth <= MAX_DEPTH && count < TOKEN_COUNT && ByteAt(s, Skip(s, p), QUOTE)
    ensures var a := Skip(s, p);
            var r := UnitsAt(s, a + 1);
            ReadValue(s, p, depth, count) == if r.None? then None else Some((Str(s[p..a], r.value.0), r.value.1))
  {
    hide ReadItems, Skip, UnitsAt;
  }

  lemma ReadsPrim(s: seq<Byte>, p: nat, depth: nat, count: nat)
    requires p <= |s| && depth <= MAX_DEPTH && count < TOKEN_COUNT
    requires var c := At(s, Skip(s, p)); c != Open(true) && c != Open(false) && c != QUOTE
    ensures var a := Skip(s, p);
            var r := LiteralEnd(s, a);
            ReadValue(s, p, depth, count) == if r.None? then None else Some((Prim(s[p..a], LiteralAt(s, a)), r.value))
  {
    hide ReadItems, Skip, LiteralAt, Spelled;
  }

  lemma Undocumented(s: seq<Byte>)
    requires ReadValue(s, 0, 0, 0).None?
    ensures forall t :: !ReadsDocument(s, t)
  {
  }

  lemma OneDocument(s: seq<Byte>, t: Text, end: nat)
    requires ReadValue(s, 0, 0, 0) == Some((t, end))
    ensures forall u :: ReadsDocument(s, u) <==> u == t && t.Group? && t.braced && Skip(s, end) == |s|
  {
    hide ReadValue, Skip;
  }

  lemma PrimToken(s: seq<Byte>, at: nat, t: Text, base: int)
    requires IsText(t) && TextAt(s, at, t)
    ensures var k := Tokens(t, at, base)[0];
            (k.kind == PRIMITIVE <==> t.Prim?) &&
            (t.Prim? ==> 0 <= k.start <= k.end <= |s| && s[k.start..k.end] == PrintLiteral(t.literal))
  {
  }

  lemma KeyIsStr(k: Text)
    requires IsText(k) && k.Str?
    ensures AllInString(k.units)
  {
  }

  lemma NotYet(done: seq<seq<int>>, key: seq<int>, more: seq<seq<int>>, all: seq<seq<int>>)
    requires all == done + ([key] + more) && Distinct(all)
    ensures key !in done
  {
    assert all[|done|] == key;
    forall i | 0 <= i < |done|
      ensures done[i] != key
    {
      assert all[i] == done[i];
    }
  }

  lemma NextKeys(done: seq<seq<int>>, rest: Items)
    requires rest.Member? && rest.key.Str? && AllInString(rest.key.units)
    ensures done + [Codes(rest.key.units)] + Keys(rest.rest) == done + Keys(rest)
  {
  }

  /** The tokens of an object's members: the first name, its value, the rest. */
  lemma MemberTokens(items: Items, at: nat, i: nat)
    requires AreItems(true, items) && CountItems(items) > 0
    ensures items.Member? && IsText(items.key) && IsText(items.value) && AreItems(true, items.rest)
    ensures items.key.Str? && AllInString(items.key.units) && Count(items.key) == 1
    ensures var n := Count(items.value);
            var all := TokensOfItems(true, items, at, i);
            var vat := at + Length(items.key) + |items.mid| + 1;
            |all| == 1 + n + CountItems(items.rest) &&
            all[0..1] == Tokens(items.key, at, i) && all[1..1 + n] == Tokens(items.value, vat, i + 1) &&
            all[1 + n..|all|] ==
            TokensOfItems(true, items.rest, vat + Length(items.value) + |items.post| + 1, i + 1 + n)
  {
    hide Tokens, Length;
    KeyIsStr(items.key);
    var vat := at + Length(items.key) + |items.mid| + 1;
    var x, y := Tokens(items.key, at, i), Tokens(items.value, vat, i + 1);
    var z := TokensOfItems(true, items.rest, vat + Length(items.value) + |items.post| + 1, i + 1 + |y|);
    assert TokensOfItems(true, items, at, i) == x + (y + z) by {
      Append3(x, y, z);
    }
    ThreeSlices(x, y, z);
  }

  lemma ThreeSlices(x: seq<Token>, y: seq<Token>, z: seq<Token>)
    ensures var all := x + (y + z);
            all[0..|x|] == x && all[|x|..|x| + |y|] == y && all[|x| + |y|..|all|] == z
  {
  }

  /** A document has one tree. */
  lemma DocumentUnique(s: seq<Byte>, t: Text, u: Text)
    requires IsDocument(t, s) && IsDocument(u, s)
    ensures t == u
  {
    ReadDocument(s, t);
    ReadDocument(s, u);
  }
}
