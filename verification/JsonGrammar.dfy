/** The texts of RFC 8259, as trees that still carry their spelling.  `Print` gives the exact bytes of a tree, so
    "these bytes are a JSON text" is "some well-formed tree prints to these bytes"; nothing here refers to a parser. */
module JsonGrammar {

  type Byte = x: int | 0 <= x < 256

  const QUOTE: Byte := 0x22
  const BACKSLASH: Byte := 0x5C
  const COMMA: Byte := 0x2C
  const COLON: Byte := 0x3A
  const MINUS: Byte := 0x2D
  const PLUS: Byte := 0x2B
  const DOT: Byte := 0x2E
  const ZERO: Byte := 0x30
  const LETTER_U: Byte := 0x75
  const NULL_TEXT: seq<Byte> := [0x6E, 0x75, 0x6C, 0x6C]
  const TRUE_TEXT: seq<Byte> := [0x74, 0x72, 0x75, 0x65]
  const FALSE_TEXT: seq<Byte> := [0x66, 0x61, 0x6C, 0x73, 0x65]

  // ---- Unicode (sections 7 and 8 of RFC 8259, section 3 of RFC 3629) ----

  predicate Scalar(cp: int) {
    0 <= cp <= 0x10FFFF && !(0xD800 <= cp <= 0xDFFF)
  }

  function Utf8(cp: int): (r: seq<Byte>)
    requires Scalar(cp)
    ensures 1 <= |r| <= 4
  {
    if cp < 0x80 then [cp]
    else if cp < 0x800 then [0xC0 + cp / 64, 0x80 + cp % 64]
    else if cp < 0x10000 then [0xE0 + cp / 4096, 0x80 + cp / 64 % 64, 0x80 + cp % 64]
    else [0xF0 + cp / 262144, 0x80 + cp / 4096 % 64, 0x80 + cp / 64 % 64, 0x80 + cp % 64]
  }

  predicate Digit(b: Byte) {
    0x30 <= b <= 0x39
  }

  predicate HexDigit(b: Byte) {
    Digit(b) || 0x41 <= b <= 0x46 || 0x61 <= b <= 0x66
  }

  function HexValue(b: Byte): (v: int)
    requires HexDigit(b)
    ensures 0 <= v < 16
  {
    if Digit(b) then b - 0x30 else if b < 0x61 then b - 0x41 + 10 else b - 0x61 + 10
  }

  predicate IsHex4(h: seq<Byte>) {
    |h| == 4 && forall i :: 0 <= i < 4 ==> HexDigit(h[i])
  }

  function Hex4Value(h: seq<Byte>): (v: int)
    requires IsHex4(h)
    ensures 0 <= v < 0x10000
  {
    HexValue(h[0]) * 4096 + HexValue(h[1]) * 256 + HexValue(h[2]) * 16 + HexValue(h[3])
  }

  /** What the two-character escapes stand for; -1 for a byte that may not follow a backslash. */
  function ShortEscape(b: Byte): (cp: int)
    ensures -1 <= cp < 0x80
  {
    if b == QUOTE || b == BACKSLASH || b == 0x2F then b
    else if b == 0x62 then 8
    else if b == 0x66 then 12
    else if b == 0x6E then 10
    else if b == 0x72 then 13
    else if b == 0x74 then 9
    else -1
  }

  /** One character of a string, with its spelling. */
  datatype Unit =
    | Raw(cp: int)
    | Short(letter: Byte)
    | Hex(digits: seq<Byte>)
    | Pair(high: seq<Byte>, low: seq<Byte>)

  /** A character spelled as UTF-8, as a two-character escape, as one \u escape, or as a surrogate pair. */
  predicate IsUnit(u: Unit) {
    match u
    case Raw(cp) => Scalar(cp) && cp != BACKSLASH
    case Short(letter) => ShortEscape(letter) >= 0
    case Hex(h) => IsHex4(h) && Scalar(Hex4Value(h))
    case Pair(h, l) =>
      IsHex4(h) && IsHex4(l) && 0xD800 <= Hex4Value(h) <= 0xDBFF && 0xDC00 <= Hex4Value(l) <= 0xDFFF
  }

  /** Inside a string a raw character may be neither a control character nor the quotation mark. */
  predicate InString(u: Unit) {
    IsUnit(u) && (u.Raw? ==> 0x20 <= u.cp && u.cp != QUOTE)
  }

  function Code(u: Unit): (cp: int)
    requires IsUnit(u)
    ensures Scalar(cp)
  {
    match u
    case Raw(cp) => cp
    case Short(letter) => ShortEscape(letter)
    case Hex(h) => Hex4Value(h)
    case Pair(h, l) => 0x10000 + (Hex4Value(h) - 0xD800) * 1024 + (Hex4Value(l) - 0xDC00)
  }

  function PrintUnit(u: Unit): (r: seq<Byte>)
    requires IsUnit(u)
    ensures 1 <= |r| <= 12
  {
    match u
    case Raw(cp) => Utf8(cp)
    case Short(letter) => [BACKSLASH, letter]
    case Hex(h) => [BACKSLASH, LETTER_U] + h
    case Pair(h, l) => [BACKSLASH, LETTER_U] + h + [BACKSLASH, LETTER_U] + l
  }

  ghost predicate AllInString(units: seq<Unit>) {
    forall i :: 0 <= i < |units| ==> InString(units[i])
  }

  ghost function PrintUnits(units: seq<Unit>): seq<Byte>
    requires AllInString(units)
  {
    if units == [] then [] else PrintUnit(units[0]) + PrintUnits(units[1..])
  }

  /** The decoded string: its sequence of code points, whatever the spelling. */
  ghost function Codes(units: seq<Unit>): (r: seq<int>)
    requires AllInString(units)
    ensures |r| == |units|
  {
    if units == [] then [] else [Code(units[0])] + Codes(units[1..])
  }

  // ---- Literals and numbers (sections 3 and 6 of RFC 8259) ----

  datatype Exponent = NoExponent | Exponent(mark: Byte, sign: seq<Byte>, digits: seq<Byte>)

  datatype Literal =
    | Null
    | True
    | False
    | Number(minus: bool, whole: seq<Byte>, fraction: seq<Byte>, exponent: Exponent)

  predicate AllDigits(t: seq<Byte>) {
    forall i :: 0 <= i < |t| ==> Digit(t[i])
  }

  predicate IsExponent(e: Exponent) {
    e.Exponent? ==>
      (e.mark == 0x65 || e.mark == 0x45) && (e.sign == [] || e.sign == [PLUS] || e.sign == [MINUS]) &&
      e.digits != [] && AllDigits(e.digits)
  }

  predicate IsLiteral(l: Literal) {
    l.Number? ==>
      l.whole != [] && AllDigits(l.whole) && (l.whole[0] == ZERO ==> |l.whole| == 1) &&
      AllDigits(l.fraction) && IsExponent(l.exponent)
  }

  function PrintExponent(e: Exponent): seq<Byte> {
    match e
    case NoExponent => []
    case Exponent(mark, sign, digits) => [mark] + sign + digits
  }

  function PrintFraction(f: seq<Byte>): seq<Byte> {
    if f == [] then [] else [DOT] + f
  }

  function PrintLiteral(l: Literal): (r: seq<Byte>)
    ensures IsLiteral(l) ==> r != []
  {
    match l
    case Null => NULL_TEXT
    case True => TRUE_TEXT
    case False => FALSE_TEXT
    case Number(minus, whole, fraction, exponent) =>
      (if minus then [MINUS] else []) + whole + PrintFraction(fraction) + PrintExponent(exponent)
  }

  // ---- Values (sections 2, 4 and 5 of RFC 8259) ----

  predicate Blank(b: Byte) {
    b == 0x20 || b == 0x0D || b == 0x0A || b == 0x09
  }

  predicate AllBlank(t: seq<Byte>) {
    forall i :: 0 <= i < |t| ==> Blank(t[i])
  }

  /** A value together with the white space before it.  `blank` is the white space after an opening bracket; the first
      item of the group then has none of its own before it. */
  datatype Text =
    | Str(pre: seq<Byte>, units: seq<Unit>)
    | Prim(pre: seq<Byte>, literal: Literal)
    | Group(pre: seq<Byte>, braced: bool, blank: seq<Byte>, items: Items)

  /** The elements of an array or the members of an object, each with the white space after its parts. */
  datatype Items =
    | Nil
    | Elem(value: Text, post: seq<Byte>, rest: Items)
    | Member(key: Text, mid: seq<Byte>, value: Text, post: seq<Byte>, rest: Items)

  function Open(braced: bool): Byte { if braced then 0x7B else 0x5B }
  function Close(braced: bool): Byte { if braced then 0x7D else 0x5D }

  function FirstPre(items: Items): seq<Byte> {
    match items
    case Nil => []
    case Elem(v, _, _) => v.pre
    case Member(k, _, _, _, _) => k.pre
  }

  ghost predicate IsText(t: Text)
    decreases t
  {
    AllBlank(t.pre) &&
    match t
    case Str(_, units) => AllInString(units)
    case Prim(_, literal) => IsLiteral(literal)
    case Group(_, braced, blank, items) =>
      AllBlank(blank) && FirstPre(items) == [] && AreItems(braced, items) && Distinct(Keys(items))
  }

  ghost predicate AreItems(braced: bool, items: Items)
    decreases items
  {
    match items
    case Nil => true
    case Elem(v, post, rest) => !braced && IsText(v) && AllBlank(post) && AreItems(braced, rest)
    case Member(k, mid, v, post, rest) =>
      braced && IsText(k) && k.Str? && AllBlank(mid) && IsText(v) && AllBlank(post) && AreItems(braced, rest)
  }

  /** The decoded member names, in order. */
  ghost function Keys(items: Items): seq<seq<int>> {
    match items
    case Nil => []
    case Elem(_, _, rest) => Keys(rest)
    case Member(k, _, _, _, rest) =>
      (if k.Str? && AllInString(k.units) then [Codes(k.units)] else []) + Keys(rest)
  }

  ghost predicate Distinct<T(!new)>(q: seq<T>) {
    forall i, j :: 0 <= i < j < |q| ==> q[i] != q[j]
  }

  ghost function Print(t: Text): (r: seq<Byte>)
    requires IsText(t)
    ensures |r| == Length(t)
    decreases t
  {
    match t
    case Str(pre, units) => pre + [QUOTE] + PrintUnits(units) + [QUOTE]
    case Prim(pre, literal) => pre + PrintLiteral(literal)
    case Group(pre, braced, blank, items) =>
      pre + [Open(braced)] + blank + PrintItems(braced, items) + [Close(braced)]
  }

  ghost function PrintItems(braced: bool, items: Items): (r: seq<Byte>)
    requires AreItems(braced, items)
    ensures |r| == LengthOfItems(braced, items)
    decreases items, 0
  {
    match items
    case Nil => []
    case Elem(v, post, rest) => Print(v) + post + PrintRest(braced, rest)
    case Member(k, mid, v, post, rest) => Print(k) + mid + [COLON] + Print(v) + post + PrintRest(braced, rest)
  }

  ghost function PrintRest(braced: bool, rest: Items): (r: seq<Byte>)
    requires AreItems(braced, rest)
    ensures |r| == LengthOfRest(braced, rest)
    decreases rest, 1
  {
    if rest.Nil? then [] else [COMMA] + PrintItems(braced, rest)
  }

  /** The number of bytes of each part's text. */
  ghost function Length(t: Text): (n: nat)
    requires IsText(t)
    ensures n > |t.pre|
    decreases t
  {
    match t
    case Str(pre, units) => |pre| + 1 + |PrintUnits(units)| + 1
    case Prim(pre, literal) => |pre| + |PrintLiteral(literal)|
    case Group(pre, braced, blank, items) => |pre| + 1 + |blank| + LengthOfItems(braced, items) + 1
  }

  ghost function LengthOfItems(braced: bool, items: Items): (n: nat)
    requires AreItems(braced, items)
    decreases items, 0
  {
    match items
    case Nil => 0
    case Elem(v, post, rest) => Length(v) + |post| + LengthOfRest(braced, rest)
    case Member(k, mid, v, post, rest) => Length(k) + |mid| + 1 + Length(v) + |post| + LengthOfRest(braced, rest)
  }

  ghost function LengthOfRest(braced: bool, rest: Items): nat
    requires AreItems(braced, rest)
    decreases rest, 1
  {
    if rest.Nil? then 0 else 1 + LengthOfItems(braced, rest)
  }

  /** Values and member names, all counted. */
  function Count(t: Text): (n: nat)
    ensures n >= 1
  {
    if t.Group? then 1 + CountItems(t.items) else 1
  }

  function CountItems(items: Items): nat {
    match items
    case Nil => 0
    case Elem(v, _, rest) => Count(v) + CountItems(rest)
    case Member(k, _, v, _, rest) => Count(k) + Count(v) + CountItems(rest)
  }

  /** How deep values nest below this one. */
  function Height(t: Text): nat {
    if t.Group? && !t.items.Nil? then 1 + HeightItems(t.items) else 0
  }

  function Max(a: nat, b: nat): nat { if a < b then b else a }

  function HeightItems(items: Items): nat {
    match items
    case Nil => 0
    case Elem(v, _, rest) => Max(Height(v), HeightItems(rest))
    case Member(k, _, v, _, rest) => Max(Height(k), Max(Height(v), HeightItems(rest)))
  }

  const TOKEN_COUNT: nat := 4096
  const MAX_DEPTH: nat := 32

  /** Bytes that are one JSON object text within the parser's bounds: `t` and the white space after it. */
  ghost predicate IsDocument(t: Text, s: seq<Byte>) {
    IsText(t) && t.Group? && t.braced && Height(t) <= MAX_DEPTH && Count(t) <= TOKEN_COUNT &&
    Print(t) <= s && AllBlank(s[Length(t)..])
  }

  // ---- The token array: the tree in preorder ----

  datatype Token = Token(kind: Byte, start: int, end: int, next: int)

  function Kind(t: Text): Byte {
    match t
    case Str(_, _) => QUOTE
    case Prim(_, _) => 0x70
    case Group(_, braced, _, _) => Open(braced)
  }

  /** The tokens of `t`, whose text begins at byte `at` and whose first token has number `base`.  `next` is the number
      just past the subtree. */
  ghost function Tokens(t: Text, at: int, base: int): (r: seq<Token>)
    requires IsText(t)
    ensures |r| == Count(t)
    decreases t
  {
    [Token(Kind(t), at + |t.pre|, at + Length(t), base + Count(t))] +
    if t.Group? then TokensOfItems(t.braced, t.items, at + |t.pre| + 1 + |t.blank|, base + 1) else []
  }

  ghost function TokensOfItems(braced: bool, items: Items, at: int, base: int): (r: seq<Token>)
    requires AreItems(braced, items)
    ensures |r| == CountItems(items)
    decreases items
  {
    match items
    case Nil => []
    case Elem(v, post, rest) =>
      Tokens(v, at, base) +
      TokensOfItems(braced, rest, at + Length(v) + |post| + 1, base + Count(v))
    case Member(k, mid, v, post, rest) =>
      var colon := at + Length(k) + |mid|;
      Tokens(k, at, base) + Tokens(v, colon + 1, base + Count(k)) +
      TokensOfItems(braced, rest, colon + 1 + Length(v) + |post| + 1, base + Count(k) + Count(v))
  }
}
