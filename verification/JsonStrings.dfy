/** Reading one character and one string, as functions of the bytes; sound and complete for the grammar's units. */
module JsonStrings {
  import opened Options
  import opened JsonGrammar

  /** The byte at `i`; past the end the frame is padded with zeros. */
  function At(s: seq<Byte>, i: nat): Byte {
    if i < |s| then s[i] else 0
  }

  predicate ByteAt(s: seq<Byte>, i: nat, b: Byte) {
    i < |s| && s[i] == b
  }

  /** `t` stands in `s` at `i`. */
  ghost predicate Spelled(s: seq<Byte>, i: nat, t: seq<Byte>) {
    i + |t| <= |s| && s[i..i + |t|] == t
  }

  lemma SpelledConcat(s: seq<Byte>, i: nat, a: seq<Byte>, b: seq<Byte>)
    ensures Spelled(s, i, a + b) <==> Spelled(s, i, a) && Spelled(s, i + |a|, b)
  {
    if i + |a| + |b| <= |s| {
      assert s[i..i + |a + b|] == s[i..i + |a|] + s[i + |a|..i + |a| + |b|];
      if Spelled(s, i, a + b) {
        assert s[i..i + |a|] == (a + b)[..|a|] == a;
        assert s[i + |a|..i + |a| + |b|] == (a + b)[|a|..] == b;
      }
    }
  }

  lemma SpelledEmpty(s: seq<Byte>, i: nat)
    ensures Spelled(s, i, []) <==> i <= |s|
  {
    if i <= |s| {
      assert s[i..i + 0] == [];
    }
  }

  lemma SpelledEnd(s: seq<Byte>, i: nat, t: seq<Byte>)
    ensures Spelled(s, i, t) ==> i + |t| <= |s|
  {
  }

  lemma SpelledByte(s: seq<Byte>, i: nat, b: Byte)
    ensures Spelled(s, i, [b]) <==> ByteAt(s, i, b)
  {
    if i < |s| {
      assert s[i..i + 1] == [s[i]];
    }
  }

  predicate Hex4At(s: seq<Byte>, i: nat) {
    i + 4 <= |s| && IsHex4(s[i..i + 4])
  }

  /** The number of continuation bytes a UTF-8 lead byte asks for; 0 for a byte that cannot lead. */
  function Extra(c: Byte): nat {
    if 0xF0 <= c <= 0xF4 then 3 else if 0xE0 <= c <= 0xEF then 2 else if 0xC2 <= c <= 0xDF then 1 else 0
  }

  predicate Continuation(b: Byte) {
    b / 64 == 2
  }

  /** The payload bits of a lead byte: the mask is one bit shorter for every continuation byte. */
  function LeadBits(c: Byte, extra: nat): nat {
    if extra == 1 then c % 32 else if extra == 2 then c % 16 else c % 8
  }

  /** The payload bits of a lead byte followed by `extra` continuation bytes. */
  function Folded(s: seq<Byte>, i: nat, extra: nat): (r: nat)
    requires i < |s| && 1 <= extra <= 3
  {
    FoldMore(s, i + 1, extra, LeadBits(s[i], extra))
  }

  function FoldMore(s: seq<Byte>, i: nat, n: nat, acc: nat): nat
    decreases n
  {
    if n == 0 then acc else FoldMore(s, i + 1, n - 1, acc * 64 + At(s, i) % 64)
  }

  function Minimum(extra: nat): int {
    if extra == 1 then 0x80 else if extra == 2 then 0x800 else 0x10000
  }

  function Utf8At(s: seq<Byte>, i: nat): Option<Unit>
    requires i < |s|
  {
    var extra := Extra(s[i]);
    if extra == 0 || !(forall k :: i < k <= i + extra ==> Continuation(At(s, k))) then None
    else
      var cp := Folded(s, i, extra);
      if cp < Minimum(extra) || !Scalar(cp) then None else Some(Raw(cp))
  }

  function EscapeAt(s: seq<Byte>, i: nat): Option<Unit>
    requires i < |s| && s[i] == BACKSLASH
  {
    if At(s, i + 1) != LETTER_U then
      if ShortEscape(At(s, i + 1)) < 0 then None else Some(Short(At(s, i + 1)))
    else if !Hex4At(s, i + 2) then None
    else
      var h := s[i + 2..i + 6];
      if 0xD800 <= Hex4Value(h) <= 0xDBFF then
        if At(s, i + 6) != BACKSLASH || At(s, i + 7) != LETTER_U || !Hex4At(s, i + 8) then None
        else
          var l := s[i + 8..i + 12];
          if 0xDC00 <= Hex4Value(l) <= 0xDFFF then Some(Pair(h, l)) else None
      else if 0xDC00 <= Hex4Value(h) <= 0xDFFF then None
      else Some(Hex(h))
  }

  function UnitAt(s: seq<Byte>, i: nat): Option<Unit>
    requires i < |s|
  {
    if s[i] == BACKSLASH then EscapeAt(s, i)
    else if s[i] < 0x80 then Some(Raw(s[i]))
    else Utf8At(s, i)
  }

  lemma FoldedValue(s: seq<Byte>, i: nat, extra: nat)
    requires i < |s| && 1 <= extra <= 3
    ensures extra == 1 ==> Folded(s, i, extra) == s[i] % 32 * 64 + At(s, i + 1) % 64
    ensures extra == 2 ==> Folded(s, i, extra) == (s[i] % 16 * 64 + At(s, i + 1) % 64) * 64 + At(s, i + 2) % 64
    ensures extra == 3 ==>
      Folded(s, i, extra) ==
      ((s[i] % 8 * 64 + At(s, i + 1) % 64) * 64 + At(s, i + 2) % 64) * 64 + At(s, i + 3) % 64
  {
    var lead := LeadBits(s[i], extra);
    var one := lead * 64 + At(s, i + 1) % 64;
    assert FoldMore(s, i + 1, extra, lead) == FoldMore(s, i + 2, extra - 1, one);
    if extra >= 2 {
      var two := one * 64 + At(s, i + 2) % 64;
      assert FoldMore(s, i + 2, extra - 1, one) == FoldMore(s, i + 3, extra - 2, two);
      if extra == 3 {
        assert FoldMore(s, i + 3, 1, two) == FoldMore(s, i + 4, 0, two * 64 + At(s, i + 3) % 64);
      }
    }
  }

  lemma Encode2(b0: Byte, b1: Byte)
    requires 0xC2 <= b0 <= 0xDF && Continuation(b1)
    ensures var cp := b0 % 32 * 64 + b1 % 64; 0x80 <= cp && Utf8(cp) == [b0, b1]
  {
  }

  lemma Encode3(b0: Byte, b1: Byte, b2: Byte)
    requires 0xE0 <= b0 <= 0xEF && Continuation(b1) && Continuation(b2)
    ensures var cp := (b0 % 16 * 64 + b1 % 64) * 64 + b2 % 64;
            cp >= 0x800 && Scalar(cp) ==> Utf8(cp) == [b0, b1, b2]
  {
    var cp := (b0 % 16 * 64 + b1 % 64) * 64 + b2 % 64;
    assert cp % 64 == b2 % 64 && cp / 64 == b0 % 16 * 64 + b1 % 64 && cp / 4096 == b0 % 16;
  }

  lemma Encode4(b0: Byte, b1: Byte, b2: Byte, b3: Byte)
    requires 0xF0 <= b0 <= 0xF4 && Continuation(b1) && Continuation(b2) && Continuation(b3)
    ensures var cp := ((b0 % 8 * 64 + b1 % 64) * 64 + b2 % 64) * 64 + b3 % 64;
            cp >= 0x10000 && Scalar(cp) ==> Utf8(cp) == [b0, b1, b2, b3]
  {
    var two := (b0 % 8 * 64 + b1 % 64) * 64 + b2 % 64;
    var cp := two * 64 + b3 % 64;
    assert cp % 64 == b3 % 64 && cp / 64 == two;
    assert two % 64 == b2 % 64 && cp / 4096 == b0 % 8 * 64 + b1 % 64 && cp / 262144 == b0 % 8;
  }

  lemma Utf8Sound(s: seq<Byte>, i: nat)
    requires i < |s| && s[i] >= 0x80 && Utf8At(s, i).Some?
    ensures IsUnit(Utf8At(s, i).value) && Spelled(s, i, PrintUnit(Utf8At(s, i).value))
  {
    var extra := Extra(s[i]);
    FoldedValue(s, i, extra);
    assert Continuation(At(s, i + 1));
    if extra == 1 {
      Encode2(s[i], s[i + 1]);
      assert s[i..i + 2] == [s[i], s[i + 1]];
    } else if extra == 2 {
      assert Continuation(At(s, i + 2));
      Encode3(s[i], s[i + 1], s[i + 2]);
      assert s[i..i + 3] == [s[i], s[i + 1], s[i + 2]];
    } else {
      assert Continuation(At(s, i + 2)) && Continuation(At(s, i + 3));
      Encode4(s[i], s[i + 1], s[i + 2], s[i + 3]);
      assert s[i..i + 4] == [s[i], s[i + 1], s[i + 2], s[i + 3]];
    }
  }

  lemma Decode2(cp: int)
    requires 0x80 <= cp < 0x800
    ensures var t := Utf8(cp);
            Extra(t[0]) == 1 && Continuation(t[1]) && cp == (t[0] as int) % 32 * 64 + (t[1] as int) % 64
  {
  }

  lemma Decode3(cp: int)
    requires Scalar(cp) && 0x800 <= cp < 0x10000
    ensures var t := Utf8(cp);
            Extra(t[0]) == 2 && Continuation(t[1]) && Continuation(t[2]) &&
            cp == ((t[0] as int) % 16 * 64 + (t[1] as int) % 64) * 64 + (t[2] as int) % 64
  {
    assert cp / 4096 == cp / 64 / 64;
  }

  lemma Decode4(cp: int)
    requires Scalar(cp) && 0x10000 <= cp
    ensures var t := Utf8(cp);
            Extra(t[0]) == 3 && Continuation(t[1]) && Continuation(t[2]) && Continuation(t[3]) &&
            cp == (((t[0] as int) % 8 * 64 + (t[1] as int) % 64) * 64 + (t[2] as int) % 64) * 64 + (t[3] as int) % 64
  {
    assert cp / 4096 == cp / 64 / 64 && cp / 262144 == cp / 4096 / 64;
  }

  lemma Utf8Complete(s: seq<Byte>, i: nat, cp: int)
    requires Scalar(cp) && cp >= 0x80 && Spelled(s, i, Utf8(cp))
    ensures s[i] >= 0x80 && Utf8At(s, i) == Some(Raw(cp))
  {
    var t := Utf8(cp);
    if cp < 0x800 { Decode2(cp); } else if cp < 0x10000 { Decode3(cp); } else { Decode4(cp); }
    assert forall k :: 0 <= k < |t| ==> s[i..i + |t|][k] == t[k];
    forall k | i < k <= i + |t| - 1
      ensures Continuation(At(s, k))
    {
      assert At(s, k) == t[k - i];
    }
    assert s[i] == t[0] && s[i + 1] == t[1];
    FoldedValue(s, i, |t| - 1);
  }

  /** What is read as a character is one: it is spelled there, by a unit of the grammar. */
  lemma UnitAtSound(s: seq<Byte>, i: nat)
    requires i < |s| && UnitAt(s, i).Some?
    ensures IsUnit(UnitAt(s, i).value) && Spelled(s, i, PrintUnit(UnitAt(s, i).value))
  {
    if s[i] == BACKSLASH {
      match EscapeAt(s, i).value
      case Short(letter) => assert s[i..i + 2] == [BACKSLASH, letter];
      case Hex(h) => assert s[i..i + 6] == [BACKSLASH, LETTER_U] + h;
      case Pair(h, l) => assert s[i..i + 12] == [BACKSLASH, LETTER_U] + h + [BACKSLASH, LETTER_U] + l;
    } else if s[i] < 0x80 {
      assert s[i..i + 1] == [s[i]];
    } else {
      Utf8Sound(s, i);
    }
  }

  /** Every spelling of every character is read, and read as itself: overlong forms and lone surrogates are no unit's
      spelling, so with soundness they are exactly what is refused. */
  lemma UnitAtComplete(s: seq<Byte>, i: nat, u: Unit)
    requires IsUnit(u) && Spelled(s, i, PrintUnit(u))
    ensures i < |s| && UnitAt(s, i) == Some(u)
  {
    var t := PrintUnit(u);
    assert forall k :: 0 <= k < |t| ==> s[i + k] == s[i..i + |t|][k] == t[k];
    assert s[i] == t[0];
    match u
    case Raw(cp) => if cp >= 0x80 { Utf8Complete(s, i, cp); }
    case Short(letter) => assert s[i + 1] == t[1];
    case Hex(h) =>
      assert s[i + 1] == t[1];
      assert s[i + 2..i + 6] == t[2..] == h;
    case Pair(h, l) =>
      assert s[i + 1] == t[1] && s[i + 6] == t[6] && s[i + 7] == t[7];
      assert s[i + 2..i + 6] == t[2..6] == h;
      assert s[i + 8..i + 12] == t[8..] == l;
  }

  /** The code point `string_char` returns at `i`, and -1 where it refuses. */
  function CodeAt(s: seq<Byte>, i: nat): (code: int)
    requires i < |s|
    ensures code >= -1
    ensures code >= 0 <==> UnitAt(s, i).Some?
  {
    if UnitAt(s, i).Some? then
      UnitAtSound(s, i);
      Code(UnitAt(s, i).value)
    else -1
  }

  /** Where `string_char` leaves the offset when it accepts. */
  function NextAt(s: seq<Byte>, i: nat): (j: nat)
    requires i < |s| && CodeAt(s, i) >= 0
    ensures i < j <= |s|
  {
    UnitAtSound(s, i);
    i + |PrintUnit(UnitAt(s, i).value)|
  }

  /** Reads characters up to the closing quotation mark; the result's end is just past it. */
  function UnitsAt(s: seq<Byte>, i: nat): (r: Option<(seq<Unit>, nat)>)
    ensures r.Some? ==> i < r.value.1 <= |s| && s[r.value.1 - 1] == QUOTE
    decreases |s| - i
  {
    if i >= |s| then None
    else if s[i] == QUOTE then Some(([], i + 1))
    else if s[i] < 0x20 || CodeAt(s, i) < 0 then None
    else
      match UnitsAt(s, NextAt(s, i))
      case None => None
      case Some((units, end)) => Some(([UnitAt(s, i).value] + units, end))
  }

  lemma StringUnit(s: seq<Byte>, i: nat)
    requires i < |s| && s[i] >= 0x20 && s[i] != QUOTE && UnitAt(s, i).Some?
    ensures InString(UnitAt(s, i).value) && Spelled(s, i, PrintUnit(UnitAt(s, i).value))
  {
    UnitAtSound(s, i);
    var t := PrintUnit(UnitAt(s, i).value);
    assert s[i] == s[i..i + |t|][0];
  }

  lemma StringUnitComplete(s: seq<Byte>, i: nat, u: Unit)
    requires InString(u) && Spelled(s, i, PrintUnit(u))
    ensures i < |s| && s[i] >= 0x20 && s[i] != QUOTE && UnitAt(s, i) == Some(u)
  {
    UnitAtComplete(s, i, u);
    var t := PrintUnit(u);
    assert s[i] == s[i..i + |t|][0] == t[0];
  }

  lemma ConsUnit(u: Unit, rest: seq<Unit>)
    requires InString(u) && AllInString(rest)
    ensures AllInString([u] + rest) && PrintUnits([u] + rest) == PrintUnit(u) + PrintUnits(rest)
    ensures Codes([u] + rest) == [Code(u)] + Codes(rest)
  {
    assert ([u] + rest)[1..] == rest;
  }

  lemma {:induction false} UnitsAtSound(s: seq<Byte>, i: nat)
    requires UnitsAt(s, i).Some?
    ensures var (units, end) := UnitsAt(s, i).value;
            AllInString(units) && Spelled(s, i, PrintUnits(units) + [QUOTE]) && end == i + |PrintUnits(units)| + 1
    decreases |s| - i
  {
    hide Spelled, PrintUnit, IsUnit, InString, UnitAt, Code;
    if s[i] == QUOTE {
      SpelledByte(s, i, QUOTE);
      assert PrintUnits([]) + [QUOTE] == [QUOTE];
    } else {
      StringUnit(s, i);
      var u := UnitAt(s, i).value;
      var p := PrintUnit(u);
      UnitsAtSound(s, i + |p|);
      var (rest, _) := UnitsAt(s, i + |p|).value;
      var q := PrintUnits(rest);
      ConsUnit(u, rest);
      SpelledConcat(s, i, p, q + [QUOTE]);
      assert p + q + [QUOTE] == p + (q + [QUOTE]);
    }
  }

  lemma UnitsAtCons(s: seq<Byte>, i: nat, u: Unit, rest: seq<Unit>, end: nat)
    requires InString(u) && Spelled(s, i, PrintUnit(u))
    requires UnitsAt(s, i + |PrintUnit(u)|) == Some((rest, end))
    ensures UnitsAt(s, i) == Some(([u] + rest, end))
  {
    hide Spelled;
    StringUnitComplete(s, i, u);
  }

  lemma UnitsAtEnd(s: seq<Byte>, i: nat)
    requires Spelled(s, i, [QUOTE])
    ensures UnitsAt(s, i) == Some(([], i + 1))
  {
    SpelledByte(s, i, QUOTE);
  }

  lemma {:induction false} UnitsAtComplete(s: seq<Byte>, i: nat, units: seq<Unit>)
    requires AllInString(units) && Spelled(s, i, PrintUnits(units) + [QUOTE])
    ensures UnitsAt(s, i) == Some((units, i + |PrintUnits(units)| + 1))
    decreases |units|
  {
    hide Spelled, PrintUnit, IsUnit, UnitAt, Code, UnitsAt;
    if units == [] {
      assert PrintUnits(units) + [QUOTE] == [QUOTE];
      UnitsAtEnd(s, i);
    } else {
      var u, rest := units[0], units[1..];
      assert units == [u] + rest;
      ConsUnit(u, rest);
      var p, q := PrintUnit(u), PrintUnits(rest);
      var all := PrintUnits(units);
      assert all == p + q;
      assert Spelled(s, i, p) && Spelled(s, i + |p|, q + [QUOTE]) by {
        assert all + [QUOTE] == p + (q + [QUOTE]);
        SpelledConcat(s, i, p, q + [QUOTE]);
      }
      UnitsAtComplete(s, i + |p|, rest);
      UnitsAtCons(s, i, u, rest, i + |p| + |q| + 1);
    }
  }
}
