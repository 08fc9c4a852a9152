/** The bounded token parser, over a fixed frame and a fixed token array. */
module JsonParser {
  import opened Options
  import opened JsonGrammar
  import opened JsonStrings
  import opened JsonLiterals
  import opened JsonReading
  import opened JsonScan
  import opened JsonTokens
  import opened JsonFacts

  /** The letters of the two-character escapes, and what each stands for. */
  const ESCAPES: seq<Byte> := [0x22, 0x5C, 0x2F, 0x62, 0x66, 0x6E, 0x72, 0x74]
  const DECODED: seq<Byte> := [0x22, 0x5C, 0x2F, 0x08, 0x0C, 0x0A, 0x0D, 0x09]

  lemma EscapeList(c: Byte)
    ensures c in ESCAPES <==> ShortEscape(c) >= 0
    ensures forall k :: 0 <= k < |ESCAPES| && ESCAPES[k] == c ==> ShortEscape(c) == DECODED[k]
  {
  }

  class Parser {
    const frame: array<Byte>
    const tokens: array<Token>
    var position: nat
    var tokenCount: nat
    /** The bytes being parsed; the frame holds them, padded with zeros. */
    ghost var content: seq<Byte>

    ghost predicate Valid()
      reads this, frame
    {
      frame.Length == FRAME_SIZE + PADDING && tokens.Length == TOKEN_COUNT && |content| <= FRAME_SIZE &&
      forall i :: 0 <= i < |content| + PADDING ==> frame[i] == At(content, i)
    }

    constructor ()
      ensures fresh(frame) && fresh(tokens) && frame.Length == FRAME_SIZE + PADDING && tokens.Length == TOKEN_COUNT
    {
      frame := new Byte[FRAME_SIZE + PADDING](i => 0);
      tokens := new Token[TOKEN_COUNT](i => Token(0, 0, 0, 0));
      position, tokenCount, content := 0, 0, [];
    }

    method Space()
      requires Valid() && position <= |content|
      modifies this`position
      ensures position == Skip(content, old(position))
    {
      while frame[position] != 0 && frame[position] in [0x20, 0x0D, 0x0A, 0x09]
        invariant position <= |content| && Skip(content, position) == Skip(content, old(position))
        decreases |content| - position
      {
        position := position + 1;
      }
    }

    method Hex4(offset: nat) returns (result: int, next: nat)
      requires Valid() && offset + 4 <= |content| + PADDING
      ensures result >= -1 && (result >= 0 <==> Hex4At(content, offset))
      ensures result >= 0 ==> result == Hex4Value(content[offset..offset + 4]) && next == offset + 4
    {
      result, next := 0, offset;
      var i := 0;
      while i < 4
        invariant 0 <= i <= 4 && next == offset + i && next <= |content| + 32
        invariant offset + i <= |content| || i == 0
        invariant forall k :: offset <= k < offset + i ==> HexDigit(content[k])
        invariant offset + i <= |content| ==> result == HexPrefix(content[offset..offset + i], i)
        invariant i == 0 ==> result == 0
      {
        var c := frame[next];
        next := next + 1;
        var digit := 0x30 <= c <= 0x39;
        if !(digit || 0x41 <= c <= 0x46 || 0x61 <= c <= 0x66) {
          HexDigitAt(content, offset, i);
          return -1, next;
        }
        assert next <= |content|;
        assert content[offset..next][..i] == content[offset..offset + i];
        HexPrefixSame(content[offset..next], content[offset..offset + i], i);
        var lower := if 0x41 <= c <= 0x5A then c + 0x20 else c;
        result := result * 16 + if digit then c - 0x30 else lower - 0x61 + 10;
        i := i + 1;
      }
      assert content[offset..offset + 4][..4] == content[offset..offset + 4];
      HexPrefix4(content[offset..offset + 4]);
      HexPrefixNonNegative(content[offset..offset + 4], 4);
    }

    /** One character, decoded: its code point, or -1 where no character of the grammar is spelled. */
    method StringChar(offset: nat) returns (code: int, next: nat)
      requires Valid() && offset < |content|
      ensures code == CodeAt(content, offset)
      ensures code >= 0 ==> next == NextAt(content, offset)
    {
      hide Spelled;
      ghost var s := content;
      var c := frame[offset];
      next := offset + 1;
      if c == BACKSLASH {
        code, next := Escape(next);
      } else if c < 0x80 {
        code := c;
      } else {
        code, next := Multibyte(offset);
      }
    }

    method Escape(offset: nat) returns (code: int, next: nat)
      requires Valid() && 0 < offset <= |content| && content[offset - 1] == BACKSLASH
      ensures code == CodeAt(content, offset - 1)
      ensures code >= 0 ==> next == NextAt(content, offset - 1)
    {
      hide Spelled;
      var c := frame[offset];
      next := offset + 1;
      if c != LETTER_U {
        code := Decoded(c);
        return;
      }
      ghost var s, i := content, offset - 1;
      var result;
      result, next := Hex4(next);
      assert if Hex4At(s, i + 2) then result == Hex4Value(s[i + 2..i + 6]) else result == -1;
      if 0xD800 <= result <= 0xDBFF {
        var first := frame[next];
        next := next + 1;
        if first != BACKSLASH {
          return -1, next;
        }
        var second := frame[next];
        next := next + 1;
        if second != LETTER_U {
          return -1, next;
        }
        var low;
        low, next := Hex4(next);
        assert low >= 0 <==> Hex4At(s, i + 8);
        code := if 0xDC00 <= low <= 0xDFFF then 0x10000 + (result - 0xD800) * 1024 + low - 0xDC00 else -1;
      } else {
        code := if 0xDC00 <= result <= 0xDFFF then -1 else result;
      }
    }

    /** Looks the byte after a backslash up in the list of escapes. */
    method Decoded(c: Byte) returns (code: int)
      ensures code == ShortEscape(c)
    {
      EscapeList(c);
      for k := 0 to |ESCAPES|
        invariant c !in ESCAPES[..k]
      {
        if ESCAPES[k] == c {
          return DECODED[k];
        }
      }
      assert ESCAPES[..|ESCAPES|] == ESCAPES;
      code := -1;
    }

    method Multibyte(offset: nat) returns (code: int, next: nat)
      requires Valid() && offset < |content| && content[offset] >= 0x80
      ensures code == CodeAt(content, offset)
      ensures code >= 0 ==> next == NextAt(content, offset)
    {
      hide Spelled, CodeAt, NextAt;
      MultibyteResult(content, offset);
      var c := frame[offset];
      next := offset + 1;
      var extra := Extra(c);
      if extra == 0 {
        return -1, next;
      }
      var result: nat := LeadBits(c, extra);
      var i := 0;
      assert FoldMore(content, next, extra, result) == Folded(content, offset, extra);
      hide Folded, Scalar, LeadBits;
      while i < extra
        invariant 0 <= i <= extra && next == offset + 1 + i
        invariant forall k :: offset < k <= offset + i ==> Continuation(At(content, k))
        invariant FoldMore(content, next, extra - i, result) == Folded(content, offset, extra)
      {
        c := frame[next];
        next := next + 1;
        if c / 64 != 2 {
          return -1, next;
        }
        result := result * 64 + c % 64;
        i := i + 1;
      }
      ScalarRange(result);
      code := if result < Minimum(extra) || result > 0x10FFFF || 0xD800 <= result <= 0xDFFF then -1 else result;
    }

    // ---- strings: find the closing quotation mark, then decode what is in between ----

    method ScanString() returns (ok: bool)
      requires Valid() && position <= |content|
      modifies this`position
      ensures ok <==> ScanEnd(content, old(position)).Some?
      ensures ok ==> position == ScanEnd(content, old(position)).value
    {
      var c := frame[position];
      position := position + 1;
      while c != QUOTE
        invariant 1 <= position <= |content| + 1 && c == At(content, position - 1)
        invariant ScanEnd(content, position - 1) == ScanEnd(content, old(position))
        decreases |content| + 1 - position
      {
        if c < 32 {
          return false;
        }
        if c == BACKSLASH {
          c := frame[position];
          position := position + 1;
          EscapeList(c);
          if c == LETTER_U {
            ok := ScanHex();
            if !ok {
              return;
            }
          } else if c !in ESCAPES {
            return false;
          }
        }
        c := frame[position];
        position := position + 1;
      }
      ok := true;
    }

    method ScanHex() returns (ok: bool)
      requires Valid() && position <= |content|
      modifies this`position
      ensures ok <==> Hex4At(content, old(position))
      ensures ok ==> position == old(position) + 4
    {
      ghost var p := position;
      for i := 0 to 4
        invariant position == p + i && position <= |content|
        invariant forall k :: p <= k < p + i ==> HexDigit(content[k])
      {
        var c := frame[position];
        position := position + 1;
        if !(0x30 <= c <= 0x39 || 0x41 <= c <= 0x46 || 0x61 <= c <= 0x66) {
          assert !Hex4At(content, p);
          return false;
        }
      }
      ok := true;
    }

    method CheckCharacters(start: nat) returns (ok: bool)
      requires Valid() && 1 <= position <= |content|
      ensures ok <==> Decodes(content, start, position - 1)
    {
      hide CodeAt, NextAt;
      var offset := start;
      while offset < position - 1
        invariant Decodes(content, offset, position - 1) <==> Decodes(content, start, position - 1)
        decreases position - offset
      {
        var code;
        code, offset := StringChar(offset);
        if code < 0 {
          return false;
        }
      }
      return offset == position - 1;
    }

    /** Whether two string tokens decode to the same code points, whatever their spelling. */
    method SameString(left: nat, right: nat, ghost lefts: seq<Unit>, ghost rights: seq<Unit>) returns (same: bool)
      requires Valid() && left < tokens.Length && right < tokens.Length
      requires IsStr(content, tokens[left], lefts) && IsStr(content, tokens[right], rights)
      ensures same <==> Codes(lefts) == Codes(rights)
    {
      hide Spelled, PrintUnit, UnitAt;
      var a: nat, b: nat := tokens[left].start + 1, tokens[right].start + 1;
      ghost var ls, rs := lefts, rights;
      while a < tokens[left].end - 1 && b < tokens[right].end - 1
        invariant AllInString(ls) && Spelled(content, a, PrintUnits(ls)) && a + |PrintUnits(ls)| == tokens[left].end - 1
        invariant AllInString(rs) && Spelled(content, b, PrintUnits(rs)) &&
                  b + |PrintUnits(rs)| == tokens[right].end - 1
        invariant Codes(lefts) == Codes(rights) <==> Codes(ls) == Codes(rs)
        decreases |ls|
      {
        NextUnit(content, a, ls);
        NextUnit(content, b, rs);
        var c, d;
        c, a := StringChar(a);
        d, b := StringChar(b);
        if c != d {
          assert Codes(ls)[0] != Codes(rs)[0];
          return false;
        }
        assert Codes(ls)[1..] == Codes(ls[1..]) && Codes(rs)[1..] == Codes(rs[1..]);
        SameHead(Codes(ls), Codes(rs));
        ls, rs := ls[1..], rs[1..];
      }
      NoUnits(ls);
      NoUnits(rs);
      return a == tokens[left].end - 1 && b == tokens[right].end - 1;
    }

    // ---- literals and numbers ----

    method Digits()
      requires Valid() && position <= |content|
      modifies this`position
      ensures position == DigitsEnd(content, old(position))
    {
      while 0x30 <= frame[position] <= 0x39
        invariant position <= |content| && DigitsEnd(content, position) == DigitsEnd(content, old(position))
        decreases |content| - position
      {
        position := position + 1;
      }
    }

    method Whole() returns (ok: bool)
      requires Valid() && position <= |content|
      modifies this`position
      ensures ok <==> WholeEnd(content, old(position)).Some?
      ensures ok ==> position == WholeEnd(content, old(position)).value
    {
      ok := true;
      if frame[position] == ZERO {
        position := position + 1;
      } else if 0x31 <= frame[position] <= 0x39 {
        Digits();
      } else {
        ok := false;
      }
    }

    method Fraction() returns (ok: bool)
      requires Valid() && position <= |content|
      modifies this`position
      ensures ok <==> FractionEnd(content, old(position)).Some?
      ensures ok ==> position == FractionEnd(content, old(position)).value
    {
      ok := true;
      if frame[position] == DOT {
        position := position + 1;
        ok := 0x30 <= frame[position] <= 0x39;
        if ok {
          Digits();
        }
      }
    }

    method ExponentPart() returns (ok: bool)
      requires Valid() && position <= |content|
      modifies this`position
      ensures ok <==> ExponentEnd(content, old(position)).Some?
      ensures ok ==> position == ExponentEnd(content, old(position)).value
    {
      ok := true;
      if frame[position] == 0x65 || frame[position] == 0x45 {
        position := position + 1;
        if frame[position] == PLUS || frame[position] == MINUS {
          position := position + 1;
        }
        ok := 0x30 <= frame[position] <= 0x39;
        if ok {
          Digits();
        }
      }
    }

    method Number() returns (ok: bool)
      requires Valid() && position <= |content|
      modifies this`position
      ensures ok <==> NumberEnd(content, old(position)).Some?
      ensures ok ==> position == NumberEnd(content, old(position)).value
    {
      hide WholeEnd, FractionEnd, ExponentEnd;
      if frame[position] == MINUS {
        position := position + 1;
      }
      ok := Whole();
      if ok {
        ok := Fraction();
        if ok {
          ok := ExponentPart();
        }
      }
    }

    method Matches(text: seq<Byte>) returns (found: bool)
      requires Valid() && position <= |content| && |text| <= 5 && forall k :: 0 <= k < |text| ==> text[k] != 0
      ensures found <==> Spelled(content, position, text)
    {
      found := frame[position..position + |text|] == text;
      if found && |text| > 0 {
        assert frame[position + |text| - 1] == text[|text| - 1];
        assert content[position..position + |text|] == frame[position..position + |text|];
      }
      if Spelled(content, position, text) {
        assert content[position..position + |text|] == frame[position..position + |text|];
      }
    }

    method Primitive() returns (ok: bool)
      requires Valid() && position <= |content|
      modifies this`position
      ensures ok <==> LiteralEnd(content, old(position)).Some?
      ensures ok ==> position == LiteralEnd(content, old(position)).value
    {
      hide Spelled, NumberEnd;
      var isNull := Matches(NULL_TEXT);
      var isTrue := Matches(TRUE_TEXT);
      var isFalse := Matches(FALSE_TEXT);
      if isNull || isTrue {
        position := position + 4;
        ok := true;
      } else if isFalse {
        position := position + 5;
        ok := true;
      } else {
        ok := Number();
      }
    }

    // ---- values ----

    /** The value read at byte `at` now stands in the token array from `base` on, and nothing before `base` changed. */
    ghost predicate Wrote(at: nat, depth: nat, base: nat, before: seq<Token>)
      requires at <= |content|
      reads this, tokens
    {
      var r := ReadValue(content, at, depth, base);
      r.Some? && var (t, end) := r.value;
      IsText(t) && TextAt(content, at, t) && end == at + Length(t) && position == end <= |content| &&
      tokenCount == base + Count(t) <= tokens.Length && base <= |before| && tokens[..base] == before[..base] &&
      tokens[base..tokenCount] == Tokens(t, at, base)
    }

    /** Whether a member name before `child` in the same object decodes to the name at `child`. */
    method Duplicate(first: nat, child: nat, ghost seen: seq<seq<int>>, ghost units: seq<Unit>) returns (found: bool)
      requires Valid() && first <= child < tokens.Length && KeyChain(content, tokens[..], first, child, seen)
      requires IsStr(content, tokens[child], units)
      ensures found <==> Codes(units) in seen
    {
      hide Spelled, PrintUnits, AllInString, Codes;
      var previous := first;
      ghost var left := seen;
      while previous < child
        invariant first <= previous <= child && KeyChain(content, tokens[..], previous, child, left)
        invariant Codes(units) in seen <==> Codes(units) in left
        decreases child - previous
      {
        assert left != [];
        ghost var name :| IsStr(content, tokens[previous], name) && Codes(name) == left[0];
        var same := SameString(previous, child, name, units);
        if same {
          return true;
        }
        assert left == [left[0]] + left[1..];
        left := left[1..];
        previous := tokens[previous + 1].next;
      }
      assert left == [];
      found := false;
    }

    method Element(depth: nat, ghost b: nat, ghost base: nat, ghost full: Option<(Items, nat)>) returns (ok: bool)
      requires Valid() && position <= |content| && base <= tokenCount <= TOKEN_COUNT
      requires Walks(false, b, base, full, position, tokenCount,
                     ReadItems(content, position, false, depth, tokenCount, []), tokens[base..tokenCount])
      modifies this`position, this`tokenCount, tokens
      ensures !ok ==> full.None?
      ensures ok ==>
        old(position) < position <= |content| && old(tokenCount) <= tokenCount <= TOKEN_COUNT &&
        tokens[..old(tokenCount)] == old(tokens[..tokenCount]) &&
        WalksAfter(false, b, base, full, position, tokenCount,
                   ReadAfter(content, position, false, depth, tokenCount, []), tokens[base..tokenCount])
      decreases |content| - position, 2
    {
      hide ReadValue, IsText, TextAt, Length, Tokens, ReadAfter, AreItems, TokensOfItems;
      ghost var p, n, before := position, tokenCount, tokens[..];
      var child := Value(depth);
      ok := child >= 0;
      if ok {
        WalkElem(content, depth, b, base, full, p, n, [], before[base..n]);
        SliceMore(before, tokens[..], base, n, tokenCount);
      }
    }

    /** A member's name and its colon. */
    method Name(depth: nat, first: nat, ghost seen: seq<seq<int>>) returns (ok: bool)
      requires Valid() && position <= |content| && first <= tokenCount <= TOKEN_COUNT
      requires KeyChain(content, tokens[..], first, tokenCount, seen)
      modifies this`position, this`tokenCount, tokens
      ensures ok <==> ReadsName(content, old(position), depth, old(tokenCount), seen)
      ensures ok ==>
        var (k, e) := ReadValue(content, old(position), depth, old(tokenCount)).value;
        position == Skip(content, e) + 1 <= |content| && tokenCount == old(tokenCount) + 1 <= TOKEN_COUNT &&
        tokens[..old(tokenCount)] == old(tokens[..tokenCount]) &&
        tokens[old(tokenCount)..tokenCount] == Tokens(k, old(position), old(tokenCount)) &&
        IsStr(content, tokens[old(tokenCount)], k.units)
      decreases |content| - position, 1
    {
      hide ReadValue, IsText, TextAt, Length, KeyChain, IsStr, AllInString, Codes, Tokens, Skip;
      ghost var s, p, n, before := content, position, tokenCount, tokens[..];
      var child := Value(depth);
      if child < 0 {
        return false;
      }
      ghost var k := ReadValue(s, p, depth, n).value.0;
      FirstToken(k, p, n);
      assert tokens[child] == tokens[n..tokenCount][0];
      if tokens[child].kind != QUOTE {
        return false;
      }
      StrToken(s, p, k, n);
      KeyChainKept(s, before, tokens[..], first, n, seen);
      var found := Duplicate(first, child, seen, k.units);
      if found {
        return false;
      }
      Space();
      ok := frame[position] == COLON;
      position := position + 1;
    }

    method MemberOf(depth: nat, first: nat, ghost b: nat, ghost full: Option<(Items, nat)>, ghost seen: seq<seq<int>>)
      returns (ok: bool, ghost more: seq<seq<int>>)
      requires Valid() && position <= |content| && first <= tokenCount <= TOKEN_COUNT
      requires Walks(true, b, first, full, position, tokenCount,
                     ReadItems(content, position, true, depth, tokenCount, seen), tokens[first..tokenCount])
      requires KeyChain(content, tokens[..], first, tokenCount, seen)
      modifies this`position, this`tokenCount, tokens
      ensures !ok ==> full.None?
      ensures ok ==>
        old(position) < position <= |content| && old(tokenCount) <= tokenCount <= TOKEN_COUNT &&
        tokens[..old(tokenCount)] == old(tokens[..tokenCount]) &&
        KeyChain(content, tokens[..], first, tokenCount, more) &&
        WalksAfter(true, b, first, full, position, tokenCount,
                   ReadAfter(content, position, true, depth, tokenCount, more), tokens[first..tokenCount])
      decreases |content| - position, 2
    {
      hide ReadValue, ReadItems, IsText, TextAt, Length, ReadAfter, AreItems, TokensOfItems, KeyChain, IsStr,
           AllInString,
           Codes, Tokens, Skip, WalksAfter;
      more := seen;
      ghost var s, p, n, before := content, position, tokenCount, tokens[..];
      ok := Name(depth, first, seen);
      if !ok {
        NoName(s, p, depth, n, seen);
        return;
      }
      ghost var middle, q, m, k := tokens[..], position, tokenCount, ReadValue(s, p, depth, n).value.0;
      FirstToken(k, p, n);
      var v := Value(depth);
      if v < 0 {
        NoMember(s, p, depth, n, seen);
        return false, more;
      }
      ok := true;
      ghost var w := ReadValue(s, q, depth, m).value.0;
      WalkMember(s, depth, b, first, full, p, n, seen, before[first..n], k, q - 1, w, position);
      SliceMore(before, middle, first, n, m);
      SliceMore(middle, tokens[..], first, m, tokenCount);
      more := seen + [Codes(k.units)];
      ExtendChain(s, before, middle, tokens[..], first, n, tokenCount, seen, k.units, w, q);
    }

    /** The items of a group and its closing bracket; the opening bracket has just been read. */
    method Group(depth: nat, index: nat, braced: bool) returns (ok: bool)
      requires Valid() && position <= |content| && index + 1 == tokenCount <= TOKEN_COUNT
      modifies this`position, this`tokenCount, tokens
      ensures var b := Skip(content, old(position));
              if At(content, b) == Close(braced) then
                ok && position == b + 1 <= |content| && tokenCount == index + 1 && tokens[..] == old(tokens[..])
              else
                (ok <==> ReadItems(content, b, braced, depth + 1, index + 1, []).Some?) &&
                (ok ==> WroteItems(b, braced, depth + 1, index + 1, old(tokens[..])))
      decreases |content| - position, 4
    {
      hide ReadItems, WroteItems, Skip;
      Space();
      if frame[position] != Close(braced) {
        ok := ItemList(depth + 1, index, braced);
      } else {
        position := position + 1;
        ok := true;
      }
    }

    ghost predicate WroteItems(b: nat, braced: bool, depth: nat, base: nat, before: seq<Token>)
      requires b <= |content|
      reads this, tokens
    {
      var r := ReadItems(content, b, braced, depth, base, []);
      r.Some? && position == r.value.1 <= |content| && AreItems(braced, r.value.0) &&
      tokenCount == base + CountItems(r.value.0) <= tokens.Length && base <= |before| &&
      tokens[..base] == before[..base] &&
      tokens[base..tokenCount] == TokensOfItems(braced, r.value.0, b, base)
    }

    method ItemList(depth: nat, index: nat, braced: bool) returns (ok: bool)
      requires Valid() && position <= |content| && index + 1 == tokenCount <= TOKEN_COUNT
      modifies this`position, this`tokenCount, tokens
      ensures ok <==> ReadItems(content, old(position), braced, depth, index + 1, []).Some?
      ensures ok ==> WroteItems(old(position), braced, depth, index + 1, old(tokens[..]))
      decreases |content| - position, 3
    {
      hide ReadItems, ReadAfter, AreItems, TokensOfItems, KeyChain, Skip, Walks, WalksAfter;
      ghost var s, b, before := content, position, tokens[..];
      ghost var full := ReadItems(s, b, braced, depth, index + 1, []);
      ghost var seen: seq<seq<int>> := [];
      NoTokens(s, tokens[..], index + 1);
      WalkStart(s, braced, depth, b, index + 1);
      assert tokens[index + 1..tokenCount] == [];
      ghost var e := position;
      while true
        invariant b <= position <= |s| && index + 1 <= tokenCount <= TOKEN_COUNT
        invariant tokens[..index + 1] == before[..index + 1]
        invariant braced ==> KeyChain(s, tokens[..], index + 1, tokenCount, seen)
        invariant !braced ==> seen == []
        invariant Walks(braced, b, index + 1, full, position, tokenCount,
                        ReadItems(s, position, braced, depth, tokenCount, seen), tokens[index + 1..tokenCount])
        decreases |s| - position
      {
        ghost var last, n := tokens[..], tokenCount;
        if braced {
          ok, seen := MemberOf(depth, index + 1, b, full, seen);
        } else {
          ok := Element(depth, b, index + 1, full);
        }
        if !ok {
          return;
        }
        Shorter(last, tokens[..], index + 1, n);
        e := position;
        Space();
        if frame[position] == Close(braced) {
          break;
        }
        ok := frame[position] == COMMA;
        position := position + 1;
        if !ok {
          NoComma(s, braced, depth, b, index + 1, full, e, tokenCount, seen, tokens[index + 1..tokenCount]);
          return;
        }
        WalkComma(s, braced, depth, b, index + 1, full, e, tokenCount, seen, tokens[index + 1..tokenCount]);
      }
      WalkClose(s, braced, depth, b, index + 1, full, e, tokenCount, seen, tokens[index + 1..tokenCount]);
      position := position + 1;
      ok := true;
    }

    /** All of a value's token is written but `end` and `next`. */
    ghost predicate Body(p: nat, depth: nat, n: nat, before: seq<Token>)
      requires p <= |content|
      reads this, tokens
    {
      var r := ReadValue(content, p, depth, n);
      r.Some? && var (t, end) := r.value;
      position == end && tokenCount == n + Count(t) <= tokens.Length && n <= |before| && tokens[..n] == before[..n] &&
      tokens[n].start == Skip(content, p) && tokens[n].kind == Kind(t) &&
      (t.Group? ==>
        AreItems(t.braced, t.items) &&
        tokens[n + 1..tokenCount] ==
        TokensOfItems(t.braced, t.items, Skip(content, p) + 1 + |t.blank|, n + 1))
    }

    lemma EmptyBody(p: nat, depth: nat, n: nat, before: seq<Token>, braced: bool)
      requires Valid() && p <= |content| && depth <= MAX_DEPTH && n < TOKEN_COUNT <= |before|
      requires ByteAt(content, Skip(content, p), Open(braced))
      requires var b := Skip(content, Skip(content, p) + 1);
               At(content, b) == Close(braced) && position == b + 1
      requires tokenCount == n + 1 && tokens[..n] == before[..n]
      requires tokens[n].start == Skip(content, p) && tokens[n].kind == Open(braced)
      ensures Body(p, depth, n, before)
    {
      hide ReadValue, Skip, ReadItems;
      ReadsGroup(content, p, depth, n, braced);
      assert AreItems(braced, Nil) && TokensOfItems(braced, Nil, Skip(content, Skip(content, p) + 1), n + 1) == [];
      assert tokens[n + 1..tokenCount] == [];
      assert CountItems(Nil) == 0;
    }

    lemma GroupBody(p: nat, depth: nat, n: nat, before: seq<Token>, middle: seq<Token>, braced: bool)
      requires Valid() && p <= |content| && depth <= MAX_DEPTH && n < TOKEN_COUNT <= |before|
      requires ByteAt(content, Skip(content, p), Open(braced))
      requires var b := Skip(content, Skip(content, p) + 1);
               At(content, b) != Close(braced) && WroteItems(b, braced, depth + 1, n + 1, middle)
      requires middle[..n] == before[..n]
      requires middle[n].start == Skip(content, p) && middle[n].kind == Open(braced)
      ensures Body(p, depth, n, before)
    {
      hide ReadValue, Skip, ReadItems, AreItems, TokensOfItems;
      ReadsGroup(content, p, depth, n, braced);
      assert tokens[n] == tokens[..n + 1][n] == middle[..n + 1][n] == middle[n];
      Shorter(middle, tokens[..], n, n + 1);
    }

    lemma StringBody(p: nat, depth: nat, n: nat, before: seq<Token>)
      requires Valid() && p <= |content| && depth <= MAX_DEPTH && n < TOKEN_COUNT <= |before|
      requires ByteAt(content, Skip(content, p), QUOTE)
      requires var r := UnitsAt(content, Skip(content, p) + 1); r.Some? && position == r.value.1
      requires tokenCount == n + 1 && tokens[..n] == before[..n]
      requires tokens[n].start == Skip(content, p) && tokens[n].kind == QUOTE
      ensures Body(p, depth, n, before)
    {
      hide ReadValue, Skip, UnitsAt;
      ReadsStr(content, p, depth, n);
    }

    lemma PrimBody(p: nat, depth: nat, n: nat, before: seq<Token>)
      requires Valid() && p <= |content| && depth <= MAX_DEPTH && n < TOKEN_COUNT <= |before|
      requires var c := At(content, Skip(content, p)); c != Open(true) && c != Open(false) && c != QUOTE
      requires var r := LiteralEnd(content, Skip(content, p)); r.Some? && position == r.value
      requires tokenCount == n + 1 && tokens[..n] == before[..n]
      requires tokens[n].start == Skip(content, p) && tokens[n].kind == PRIMITIVE
      ensures Body(p, depth, n, before)
    {
      hide ReadValue, Skip, LiteralEnd, LiteralAt;
      ReadsPrim(content, p, depth, n);
    }

    lemma Finished(p: nat, depth: nat, n: nat, before: seq<Token>)
      requires Valid() && p <= |content| && Body(p, depth, n, before)
      requires tokens[n].end == position && tokens[n].next == tokenCount
      ensures Wrote(p, depth, n, before)
    {
      hide ReadValue, IsText, TextAt, Length, AreItems, TokensOfItems;
      ReadValueSound(content, p, depth, n);
      var (t, end) := ReadValue(content, p, depth, n).value;
      assert |t.pre| == Skip(content, p) - p;
      assert tokens[n..tokenCount] == [tokens[n]] + tokens[n + 1..tokenCount];
    }

    method GroupValue(depth: nat, index: nat, braced: bool, ghost p: nat, ghost before: seq<Token>) returns (ok: bool)
      requires Valid() && p <= |content| && depth <= MAX_DEPTH && index < TOKEN_COUNT == |before|
      requires ByteAt(content, Skip(content, p), Open(braced)) && position == Skip(content, p) + 1
      requires tokenCount == index + 1 && tokens[..index] == before[..index]
      requires tokens[index].start == Skip(content, p) && tokens[index].kind == Open(braced)
      modifies this`position, this`tokenCount, tokens
      ensures ok <==> ReadValue(content, p, depth, index).Some?
      ensures ok ==> Body(p, depth, index, before) && 1 <= position <= |content|
      decreases |content| - position, 5
    {
      hide ReadValue, Skip, ReadItems, WroteItems, Body;
      ReadsGroup(content, p, depth, index, braced);
      ghost var middle, q := tokens[..], position;
      ok := Group(depth, index, braced);
      if At(content, Skip(content, q)) == Close(braced) {
        assert tokens[..index] == middle[..index];
        EmptyBody(p, depth, index, before, braced);
      } else if ok {
        GroupBody(p, depth, index, before, middle, braced);
        WroteWithin(Skip(content, q), braced, depth + 1, index + 1, middle);
      }
    }

    lemma WroteWithin(b: nat, braced: bool, depth: nat, base: nat, before: seq<Token>)
      requires b <= |content| && WroteItems(b, braced, depth, base, before)
      ensures 1 <= position <= |content|
    {
      hide ReadItems;
    }

    /** Parses one value and the white space before it. Returns the number of its token, or -1. */
    method Value(depth: nat) returns (index: int)
      requires Valid() && position <= |content| && tokenCount <= TOKEN_COUNT
      modifies this`position, this`tokenCount, tokens
      ensures index >= 0 <==> ReadValue(content, old(position), depth, old(tokenCount)).Some?
      ensures index >= 0 ==> index == old(tokenCount) && Wrote(old(position), depth, index, old(tokens[..]))
      decreases |content| - position, 0
    {
      hide Spelled, ReadItems, AreItems, TokensOfItems, UnitsAt, LiteralEnd, LiteralAt, ReadValue, Skip, ScanEnd,
           Decodes,
           Wrote, WroteItems, Body;
      ReadsAt(content, position, depth, tokenCount);
      if depth > MAX_DEPTH || tokenCount == TOKEN_COUNT {
        return -1;
      }
      ghost var s, p, n, before := content, position, tokenCount, tokens[..];
      Space();
      index := tokenCount;
      tokenCount := tokenCount + 1;
      var start := position;
      var c := frame[position];
      tokens[index] := tokens[index].(start := start, kind := c);
      position := position + 1;
      var ok;
      if c == Open(true) || c == Open(false) {
        assert tokens[..n] == before[..n];
        ok := GroupValue(depth, index, c == Open(true), p, before);
      } else if c == QUOTE {
        ReadsStr(s, p, depth, n);
        TwoPasses(s, start + 1);
        ok := ScanString();
      } else {
        ReadsPrim(s, p, depth, n);
        position := start;
        tokens[index] := tokens[index].(kind := PRIMITIVE);
        ok := Primitive();
        if ok {
          assert tokens[..n] == before[..n];
          PrimBody(p, depth, n, before);
        }
      }
      if !ok {
        return -1;
      }
      index := Finish(index, start, c, p, depth, before);
    }

    /** The end of `value`: the token's boundaries, and the check of a string's characters. */
    method Finish(first: nat, start: nat, c: Byte, ghost p: nat, ghost depth: nat, ghost before: seq<Token>)
      returns (index: int)
      requires Valid() && p <= |content| && depth <= MAX_DEPTH && first < TOKEN_COUNT <= |before|
      requires start == Skip(content, p) && c == At(content, start) && 1 <= position <= |content|
      requires if c == QUOTE then
                 ScanEnd(content, start + 1) == Some(position) && tokenCount == first + 1 &&
                 tokens[..first] == before[..first] && tokens[first].start == start && tokens[first].kind == QUOTE
               else Body(p, depth, first, before)
      modifies tokens
      ensures index >= 0 <==> ReadValue(content, p, depth, first).Some?
      ensures index >= 0 ==> index == first && Wrote(p, depth, first, before)
    {
      hide Spelled, AreItems, TokensOfItems, UnitsAt, ReadValue, Skip, ScanEnd, Decodes, Wrote;
      ghost var middle := tokens[..];
      tokens[first] := tokens[first].(end := position, next := tokenCount);
      assert tokens[..first] == middle[..first];
      assert tokens[first + 1..] == middle[first + 1..];
      if c == QUOTE {
        ReadsStr(content, p, depth, first);
        TwoPasses(content, start + 1);
        var ok := CheckCharacters(start + 1);
        if !ok {
          return -1;
        }
        StringBody(p, depth, first, before);
      } else {
        assert tokens[first + 1..tokenCount] == middle[first + 1..tokenCount];
      }
      Finished(p, depth, first, before);
      index := first;
    }

    // ---- whole frames ----

    /** Accepts exactly the documents of the grammar; the token array is then the preorder of the document's one
        tree. */
    method ParseFrame(length: nat) returns (result: int)
      requires frame.Length == FRAME_SIZE + PADDING && tokens.Length == TOKEN_COUNT && length <= FRAME_SIZE
      modifies this, frame, tokens
      ensures Valid() && content == old(frame[..length])
      ensures result == 0 || result == -1
      ensures result == 0 <==> exists t :: IsDocument(t, content)
      ensures result == 0 ==>
        forall t :: IsDocument(t, content) ==> tokenCount == Count(t) && Holds(0, t, 0)
    {
      hide ReadValue, Skip, IsDocument, Tokens, IsText, TextAt, Length, ReadsDocument;
      position, tokenCount := 0, 0;
      content := frame[..length];
      forall i | 0 <= i < PADDING {
        frame[length + i] := 0;
      }
      assert Valid();
      var i := 0;
      while i < length
        invariant 0 <= i <= length
        invariant forall k :: 0 <= k < i ==> content[k] != 0
      {
        if frame[i] == 0 {
          forall t | IsDocument(t, content)
            ensures false
          {
            DocumentNoNul(t, content);
          }
          return -1;
        }
        i := i + 1;
      }
      ghost var r := ReadValue(content, 0, 0, 0);
      forall t
        ensures IsDocument(t, content) <==> ReadsDocument(content, t)
      {
        ReadDocument(content, t);
      }
      ghost var before := tokens[..];
      var index := Value(0);
      if index != 0 {
        Undocumented(content);
        return -1;
      }
      RootToken(before);
      Space();
      result := if position == length && tokens[0].kind == Open(true) then 0 else -1;
      OneDocument(content, r.value.0, r.value.1);
      if result == 0 {
        assert IsDocument(r.value.0, content);
      }
    }

    lemma RootToken(before: seq<Token>)
      requires Wrote(0, 0, 0, before)
      ensures ReadValue(content, 0, 0, 0).Some?
      ensures var t := ReadValue(content, 0, 0, 0).value.0;
              tokens[0].kind == Open(true) <==> t.Group? && t.braced
    {
      hide ReadValue, TextAt;
      var t := ReadValue(content, 0, 0, 0).value.0;
      assert tokens[0] == tokens[0..tokenCount][0] == Tokens(t, 0, 0)[0];
    }

    // ---- reading the parsed document ----

    /** The subtree `t`, whose text begins at byte `at`, stands in the token array from `index` on. */
    ghost predicate Holds(index: int, t: Text, at: nat)
      reads this, frame, tokens
    {
      Valid() && tokenCount <= TOKEN_COUNT && IsText(t) && TextAt(content, at, t) && 0 <= index &&
      index + Count(t) <= tokenCount && tokens[index..index + Count(t)] == Tokens(t, at, index)
    }

    /** `equal` for a string: its decoded characters are the expected bytes. */
    method EqualString(index: int, expected: seq<Byte>, ghost t: Text, ghost at: nat) returns (same: bool)
      requires index >= 0 ==> Holds(index, t, at)
      ensures same <==> index >= 0 && t.Str? && Codes(t.units) == expected
    {
      hide Spelled, PrintUnit, UnitAt, Tokens, TextAt, IsText;
      if index < 0 {
        return false;
      }
      FirstToken(t, at, index);
      assert tokens[index] == tokens[index..index + Count(t)][0];
      if tokens[index].kind != QUOTE {
        return false;
      }
      StrToken(content, at, t, index);
      var begin: nat := tokens[index].start + 1;
      var end := tokens[index].end - 1;
      var offset := 0;
      ghost var left := t.units;
      while begin < end
        invariant AllInString(left) && Spelled(content, begin, PrintUnits(left)) && begin + |PrintUnits(left)| == end
        invariant 0 <= offset <= |expected|
        invariant Codes(t.units) == expected <==> Codes(left) == expected[offset..]
        decreases |left|
      {
        NextUnit(content, begin, left);
        if offset == |expected| {
          assert |Codes(left)| > 0;
          return false;
        }
        var code;
        code, begin := StringChar(begin);
        if code != expected[offset] {
          assert Codes(left)[0] != expected[offset..][0];
          return false;
        }
        SameHead(Codes(left), expected[offset..]);
        assert Codes(left)[1..] == Codes(left[1..]);
        assert expected[offset..][1..] == expected[offset + 1..];
        left := left[1..];
        offset := offset + 1;
      }
      NoUnits(left);
      same := offset == |expected|;
    }

    /** `equal` for a literal or number: its text is the expected one. */
    method EqualPrimitive(index: int, expected: seq<Byte>, ghost t: Text, ghost at: nat) returns (same: bool)
      requires index >= 0 ==> Holds(index, t, at)
      ensures same <==> index >= 0 && t.Prim? && PrintLiteral(t.literal) == expected
    {
      hide Spelled, Tokens, TextAt, IsText;
      if index < 0 {
        return false;
      }
      PrimToken(content, at, t, index);
      assert tokens[index] == tokens[index..index + Count(t)][0];
      if tokens[index].kind != PRIMITIVE {
        return false;
      }
      var begin, end := tokens[index].start, tokens[index].end;
      assert frame[begin..end] == content[begin..end];
      same := frame[begin..end] == expected;
    }

    /** A walk over an object's members: `rest` stands in the token array from `i` up to `end`. */
    ghost predicate Rest(i: int, end: int, rest: Items, at: nat)
      reads this, frame, tokens
    {
      Valid() && 0 <= i <= end <= tokenCount <= TOKEN_COUNT && AreItems(true, rest) &&
      (rest.Nil? || ItemsAt(content, at, true, rest)) && end == i + CountItems(rest) &&
      tokens[i..end] == TokensOfItems(true, rest, at, i)
    }

    lemma MembersHeld(index: int, t: Text, at: nat)
      requires Holds(index, t, at) && t.Group? && t.braced
      ensures tokens[index].next == index + Count(t)
      ensures Rest(index + 1, index + Count(t), t.items, at + |t.pre| + 1 + |t.blank|) && Distinct(Keys(t.items))
    {
      hide Spelled, TokensOfItems, AreItems, ItemsAt, Length;
      var all := tokens[index..index + Count(t)];
      assert tokens[index] == all[0];
      assert tokens[index + 1..index + Count(t)] == all[1..];
    }

    lemma FirstMember(i: int, end: int, rest: Items, at: nat)
      requires Rest(i, end, rest, at) && i < end
      ensures rest.Member? && rest.key.Str? && AllInString(rest.key.units) && i + 1 < tokens.Length
      ensures IsText(rest.key) && IsText(rest.value) && Holds(i, rest.key, at)
      ensures Holds(i + 1, rest.value, at + Length(rest.key) + |rest.mid| + 1)
    {
      hide Spelled, Tokens, TokensOfItems, IsText, TextAt, Length, AreItems, AllInString;
      MemberTokens(rest, at, i);
      SubSlice(tokens[..], i, end, 0, 1);
      SubSlice(tokens[..], i, end, 1, 1 + Count(rest.value));
    }

    lemma OtherMembers(i: int, end: int, rest: Items, at: nat)
      requires Rest(i, end, rest, at) && i < end
      requires rest.Member? && IsText(rest.key) && IsText(rest.value) && i + 1 < tokens.Length
      requires Holds(i + 1, rest.value, at + Length(rest.key) + |rest.mid| + 1)
      ensures tokens[i + 1].next == i + 1 + Count(rest.value)
      ensures Rest(tokens[i + 1].next, end, rest.rest,
                   at + Length(rest.key) + |rest.mid| + 1 + Length(rest.value) + |rest.post| + 1)
    {
      hide Spelled, Tokens, TokensOfItems, IsText, TextAt, Length, AreItems, AllInString;
      MemberTokens(rest, at, i);
      var vat := at + Length(rest.key) + |rest.mid| + 1;
      var n := Count(rest.value);
      FirstToken(rest.value, vat, i + 1);
      SubSlice(tokens[..], i, end, 1 + n, end - i);
      assert tokens[i + 1] == tokens[i + 1..i + 1 + n][0];
      assert AfterAt(content, vat + Length(rest.value), true, rest.post, rest.rest);
    }

    /** The value of the one member whose decoded name is `name`; -1 exactly when there is none. */
    method Field(index: int, name: seq<Byte>, ghost t: Text, ghost at: nat)
      returns (found: int, ghost v: Text, ghost vat: nat)
      requires index >= 0 ==> Holds(index, t, at)
      ensures found >= -1
      ensures found >= 0 <==> index >= 0 && t.Group? && t.braced && name in Keys(t.items)
      ensures found >= 0 ==> Holds(found, v, vat) && HasMember(t.items, name, v)
    {
      hide Holds, Rest, AreItems, Tokens, TokensOfItems, Codes, Length, AllInString;
      found, v, vat := -1, t, at;
      if index < 0 {
        return;
      }
      GroupKind(index, t, at);
      if tokens[index].kind != Open(true) {
        return;
      }
      MembersHeld(index, t, at);
      var end := tokens[index].next;
      var i := index + 1;
      ghost var rest, rat: nat := t.items, at + |t.pre| + 1 + |t.blank|;
      ghost var done: seq<seq<int>> := [];
      assert done + Keys(rest) == Keys(t.items);
      while i < end
        invariant Rest(i, end, rest, rat)
        invariant done + Keys(rest) == Keys(t.items)
        invariant found >= -1 && (found >= 0 <==> name in done)
        invariant found >= 0 ==> Holds(found, v, vat) && HasMember(t.items, name, v)
        invariant forall w :: HasMember(rest, name, w) ==> HasMember(t.items, name, w)
        decreases end - i
      {
        FirstMember(i, end, rest, rat);
        OtherMembers(i, end, rest, rat);
        ghost var k, valueAt: nat := rest.key, rat + Length(rest.key) + |rest.mid| + 1;
        var same := EqualString(i, name, k, rat);
        NotYet(done, Codes(k.units), Keys(rest.rest), Keys(t.items));
        if same {
          if found != -1 {
            assert false;  // the source returns -1 here: names are pairwise distinct
          }
          found, v, vat := i + 1, rest.value, valueAt;
          assert HasMember(rest, name, v);
        }
        NextKeys(done, rest);
        done := done + [Codes(k.units)];
        i := tokens[i + 1].next;
        rat := valueAt + Length(rest.value) + |rest.post| + 1;
        rest := rest.rest;
      }
      NoMore(i, end, rest, rat);
      assert done == Keys(t.items);
    }

    lemma GroupKind(index: int, t: Text, at: nat)
      requires Holds(index, t, at)
      ensures index < tokens.Length && (tokens[index].kind == Open(true) <==> t.Group? && t.braced)
    {
      assert tokens[index] == tokens[index..index + Count(t)][0];
    }

    lemma NoMore(i: int, end: int, rest: Items, at: nat)
      requires Rest(i, end, rest, at) && i >= end
      ensures Keys(rest) == []
    {
    }

    /** Copies a decoded ASCII string and its terminating zero. */
    method CopyString(index: int, output: array<Byte>, ghost t: Text, ghost at: nat) returns (ok: bool)
      requires index >= 0 ==> Holds(index, t, at)
      requires output != frame
      modifies output
      ensures ok <==>
              index >= 0 && t.Str? && |t.units| < output.Length && forall c :: c in Codes(t.units) ==> 0 < c < 128
      ensures ok ==> output[..|t.units|] == Codes(t.units) && output[|t.units|] == 0
    {
      hide Spelled, PrintUnit, PrintUnits, UnitAt, Tokens, TextAt, IsText, AllInString, Codes, CodeAt, NextAt;
      if index < 0 {
        return false;
      }
      FirstToken(t, at, index);
      assert tokens[index] == tokens[index..index + Count(t)][0];
      if tokens[index].kind != QUOTE || output.Length == 0 {
        return false;
      }
      StrToken(content, at, t, index);
      var offset: nat := tokens[index].start + 1;
      var used := 0;
      ghost var left, all := t.units, Codes(t.units);
      while offset < tokens[index].end - 1
        invariant AllInString(left) && Spelled(content, offset, PrintUnits(left))
        invariant offset + |PrintUnits(left)| == tokens[index].end - 1
        invariant used + |left| == |t.units| && all[used..] == Codes(left) && used < output.Length
        invariant output[..used] == all[..used] && forall c :: c in all[..used] ==> 0 < c < 128
        decreases |left|
      {
        NextUnit(content, offset, left);
        CodesStep(all, used, left);
        var c;
        c, offset := StringChar(offset);
        if c <= 0 || c > 127 || used + 1 == output.Length {
          return false;
        }
        output[used] := c;
        used := used + 1;
        left := left[1..];
      }
      NoUnits(left);
      assert all[..used] == all;
      output[used] := 0;
      ok := true;
    }
  }
}
