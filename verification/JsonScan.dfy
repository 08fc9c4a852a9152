/** The parser reads a string twice: a first pass looks for the closing quotation mark, a second decodes the
    characters in between.  Together the two passes accept exactly the strings that `UnitsAt` reads in one. */
module JsonScan {
  import opened Options
  import opened JsonGrammar
  import opened JsonStrings

  /** The first pass. */
  function ScanEnd(s: seq<Byte>, i: nat): (r: Option<nat>)
    ensures r.Some? ==> i < r.value <= |s| && s[r.value - 1] == QUOTE
    decreases |s| - i
  {
    if i >= |s| then None
    else if s[i] == QUOTE then Some(i + 1)
    else if s[i] < 0x20 then None
    else if s[i] != BACKSLASH then ScanEnd(s, i + 1)
    else if At(s, i + 1) == LETTER_U then if Hex4At(s, i + 2) then ScanEnd(s, i + 6) else None
    else if ShortEscape(At(s, i + 1)) >= 0 then ScanEnd(s, i + 2)
    else None
  }

  /** The second pass: decoding from `i` lands exactly on `stop`. */
  predicate Decodes(s: seq<Byte>, i: nat, stop: nat)
    requires stop <= |s|
    decreases stop - i
  {
    if i < stop then CodeAt(s, i) >= 0 && Decodes(s, NextAt(s, i), stop) else i == stop
  }

  lemma ContinuationScan(s: seq<Byte>, i: nat, t: seq<Byte>)
    requires Spelled(s, i, t) && forall k :: 0 <= k < |t| ==> t[k] >= 0x80
    ensures ScanEnd(s, i) == ScanEnd(s, i + |t|)
    decreases |t|
  {
    if t != [] {
      SpelledConcat(s, i, [t[0]], t[1..]);
      assert [t[0]] + t[1..] == t;
      SpelledByte(s, i, t[0]);
      ContinuationScan(s, i + 1, t[1..]);
    }
  }

  lemma Utf8High(cp: int)
    requires Scalar(cp) && cp >= 0x80
    ensures forall k :: 0 <= k < |Utf8(cp)| ==> Utf8(cp)[k] >= 0x80
  {
  }

  lemma HexScan(s: seq<Byte>, i: nat)
    requires ByteAt(s, i, BACKSLASH) && At(s, i + 1) == LETTER_U && Hex4At(s, i + 2)
    ensures ScanEnd(s, i) == ScanEnd(s, i + 6)
  {
  }

  lemma EscapeShape(s: seq<Byte>, i: nat)
    requires i < |s| && s[i] == BACKSLASH && EscapeAt(s, i).Some? && IsUnit(EscapeAt(s, i).value)
    ensures var n := |PrintUnit(EscapeAt(s, i).value)|;
            if At(s, i + 1) != LETTER_U then ShortEscape(At(s, i + 1)) >= 0 && n == 2
            else Hex4At(s, i + 2) && (n == 6 || (n == 12 && SecondEscape(s, i + 6)))
  {
  }

  predicate SecondEscape(s: seq<Byte>, i: nat) {
    ByteAt(s, i, BACKSLASH) && At(s, i + 1) == LETTER_U && Hex4At(s, i + 2)
  }

  lemma EscapeScan(s: seq<Byte>, i: nat)
    requires i < |s| && s[i] == BACKSLASH && EscapeAt(s, i).Some? && IsUnit(EscapeAt(s, i).value)
    ensures ScanEnd(s, i) == ScanEnd(s, i + |PrintUnit(EscapeAt(s, i).value)|)
  {
    hide EscapeAt, IsUnit, PrintUnit, Hex4At;
    EscapeShape(s, i);
    if At(s, i + 1) == LETTER_U {
      hide ScanEnd;
      HexScan(s, i);
      if SecondEscape(s, i + 6) {
        HexScan(s, i + 6);
      }
    }
  }

  lemma AsciiScan(s: seq<Byte>, i: nat)
    requires i < |s| && 0x20 <= s[i] < 0x80 && s[i] != QUOTE && s[i] != BACKSLASH
    ensures ScanEnd(s, i) == ScanEnd(s, i + 1) && |PrintUnit(Raw(s[i]))| == 1
  {
  }

  /** One decoded character is a whole number of steps of the first pass. */
  lemma ScanUnit(s: seq<Byte>, i: nat)
    requires i < |s| && CodeAt(s, i) >= 0 && s[i] >= 0x20 && s[i] != QUOTE
    ensures ScanEnd(s, i) == ScanEnd(s, NextAt(s, i))
  {
    hide Spelled, EscapeAt, Utf8At, IsUnit, ScanEnd, PrintUnit;
    UnitAtSound(s, i);
    if s[i] == BACKSLASH {
      EscapeScan(s, i);
    } else if s[i] >= 0x80 {
      HighScan(s, i);
    } else {
      AsciiScan(s, i);
    }
  }

  lemma HighScan(s: seq<Byte>, i: nat)
    requires i < |s| && s[i] >= 0x80 && UnitAt(s, i).Some? && IsUnit(UnitAt(s, i).value)
    requires Spelled(s, i, PrintUnit(UnitAt(s, i).value))
    ensures ScanEnd(s, i) == ScanEnd(s, i + |PrintUnit(UnitAt(s, i).value)|)
  {
    hide Spelled, Folded, Utf8, ScanEnd;
    var cp := UnitAt(s, i).value.cp;
    RawHigh(s, i, cp);
    Utf8High(cp);
    ContinuationScan(s, i, Utf8(cp));
  }

  lemma RawHigh(s: seq<Byte>, i: nat, cp: int)
    requires i < |s| && s[i] >= 0x80 && Scalar(cp) && Spelled(s, i, Utf8(cp))
    ensures cp >= 0x80
  {
    SpelledAscii(s, i, cp);
  }

  lemma SpelledAscii(s: seq<Byte>, i: nat, cp: int)
    requires Scalar(cp) && Spelled(s, i, Utf8(cp))
    ensures cp < 0x80 ==> i < |s| && s[i] == cp
  {
    if cp < 0x80 {
      SpelledByte(s, i, cp);
    }
  }

  lemma {:induction false} UnitsScan(s: seq<Byte>, i: nat)
    requires UnitsAt(s, i).Some?
    ensures ScanEnd(s, i) == Some(UnitsAt(s, i).value.1) && Decodes(s, i, UnitsAt(s, i).value.1 - 1)
    decreases |s| - i
  {
    hide UnitAt, PrintUnit;
    if s[i] != QUOTE {
      UnitAtSound(s, i);
      ScanUnit(s, i);
      UnitsScan(s, NextAt(s, i));
    }
  }

  lemma {:induction false} ScanDecodes(s: seq<Byte>, i: nat)
    requires ScanEnd(s, i).Some? && Decodes(s, i, ScanEnd(s, i).value - 1)
    ensures UnitsAt(s, i).Some? && UnitsAt(s, i).value.1 == ScanEnd(s, i).value
    decreases |s| - i
  {
    hide UnitAt, PrintUnit;
    if s[i] != QUOTE {
      UnitAtSound(s, i);
      ScanUnit(s, i);
      ScanDecodes(s, NextAt(s, i));
    }
  }

  /** Both passes succeed exactly when the string is read, and then they agree where it ends. */
  lemma TwoPasses(s: seq<Byte>, i: nat)
    ensures UnitsAt(s, i).Some? <==> ScanEnd(s, i).Some? && Decodes(s, i, ScanEnd(s, i).value - 1)
    ensures UnitsAt(s, i).Some? ==> ScanEnd(s, i) == Some(UnitsAt(s, i).value.1)
  {
    if UnitsAt(s, i).Some? {
      UnitsScan(s, i);
    }
    if ScanEnd(s, i).Some? && Decodes(s, i, ScanEnd(s, i).value - 1) {
      ScanDecodes(s, i);
    }
  }
}
