/** The checks on a suite before it is used, and how its protocol lines are spelled. */
module Suites {
  import opened Numerals
  import opened Texts
  import opened V = Verdicts

  const PREFIX := "LANGUAGE-PORTS"
  const MAX_NAME: nat := 64

  // ---- loading a suite ----

  datatype Entry = Entry(name: string, command: string, markers: seq<string>)

  predicate NameFirst(c: char) {
    'a' <= c <= 'z' || '0' <= c <= '9'
  }

  predicate NameChar(c: char) {
    NameFirst(c) || c == '_' || c == '-'
  }

  predicate ValidName(name: string) {
    0 < |name| <= MAX_NAME && NameFirst(name[0]) && forall i :: 0 <= i < |name| ==> NameChar(name[i])
  }

  predicate ValidMarker(marker: string) {
    marker != "" && '\n' !in marker && '\r' !in marker
  }

  /** A command that is not all white space, and at least one marker, each a line that is not empty. */
  predicate ValidEntry(e: Entry, blank: char -> bool) {
    ValidName(e.name) && (exists i | 0 <= i < |e.command| :: !blank(e.command[i])) &&
    e.markers != [] && forall i :: 0 <= i < |e.markers| ==> ValidMarker(e.markers[i])
  }

  ghost predicate ValidSuite(entries: seq<Entry>, blank: char -> bool) {
    entries != [] && (forall i :: 0 <= i < |entries| ==> ValidEntry(entries[i], blank)) &&
    forall i, j :: 0 <= i < j < |entries| ==> entries[i].name != entries[j].name
  }

  /** A name by its characters: up to 64 lower-case letters, digits, "_" and "-", of which the first is a letter or
      digit. */
  predicate IsName(name: string) {
    1 <= |name| <= 64 && name[0] != '_' && name[0] != '-' &&
    forall c :: c in name ==> 97 <= c as int <= 122 || 48 <= c as int <= 57 || c == '_' || c == '-'
  }

  lemma NameIff(name: string)
    ensures ValidName(name) <==> IsName(name)
  {
    assert forall i :: 0 <= i < |name| ==> name[i] in name;
  }

  /** Accepts exactly suites whose entries are valid and whose names are distinct. */
  method LoadSuite(entries: seq<Entry>, blank: char -> bool) returns (ok: bool)
    ensures ok <==> ValidSuite(entries, blank)
    ensures ok ==> Distinct(V.Names(Cases(entries)))
    ensures ok <==>
      entries != [] && (forall i, j :: 0 <= i < j < |entries| ==> entries[i].name != entries[j].name) &&
      forall e :: e in entries ==>
        IsName(e.name) && (exists c :: c in e.command && !blank(c)) && e.markers != [] &&
        forall m :: m in e.markers ==> m != "" && '\n' !in m && '\r' !in m
  {
    var names: set<string> := {};
    forall e: Entry
      ensures ValidEntry(e, blank) <==>
              IsName(e.name) && (exists c :: c in e.command && !blank(c)) && e.markers != [] &&
              forall m :: m in e.markers ==> m != "" && '\n' !in m && '\r' !in m
    {
      EntryIff(e, blank);
    }
    if entries == [] {
      return false;
    }
    for i := 0 to |entries|
      invariant names == set j | 0 <= j < i :: entries[j].name
      invariant forall j :: 0 <= j < i ==> ValidEntry(entries[j], blank)
      invariant forall j, k :: 0 <= j < k < i ==> entries[j].name != entries[k].name
    {
      if !ValidName(entries[i].name) || entries[i].name in names {
        return false;
      }
      names := names + {entries[i].name};
      if !ValidEntry(entries[i], blank) {
        return false;
      }
    }
    ok := true;
  }

  lemma EntryIff(e: Entry, blank: char -> bool)
    ensures ValidEntry(e, blank) <==>
            IsName(e.name) && (exists c :: c in e.command && !blank(c)) && e.markers != [] &&
            forall m :: m in e.markers ==> m != "" && '\n' !in m && '\r' !in m
  {
    NameIff(e.name);
    assert forall i :: 0 <= i < |e.command| ==> e.command[i] in e.command;
    assert forall i :: 0 <= i < |e.markers| ==> e.markers[i] in e.markers;
  }

  function Cases(entries: seq<Entry>): (cases: seq<Case>)
    ensures |cases| == |entries| && forall i :: 0 <= i < |cases| ==> cases[i].name == entries[i].name
  {
    seq(|entries|, i requires 0 <= i < |entries| => Case(entries[i].name, Lines(entries[i].markers)))
  }

  function Lines(texts: seq<string>): (lines: seq<Line>)
    ensures |lines| == |texts|
  {
    seq(|texts|, i requires 0 <= i < |texts| => Read(texts[i]))
  }

  // ---- lines as text ----

  const BEGIN_TEXT := PREFIX + ": BEGIN"
  const END_TEXT := PREFIX + ": END PASS"
  const START_TEXT := PREFIX + ": begin "
  const STATUS_TEXT := PREFIX + ": status "

  function Write(l: Line): string {
    match l
    case Begin => BEGIN_TEXT
    case End => END_TEXT
    case Start(name) => START_TEXT + name
    case Status(name, code) => STATUS_TEXT + name + " " + code
    case Text(content) => content
  }

  predicate StatusName(name: string) {
    name != "" && forall i :: 0 <= i < |name| ==> NameChar(name[i])
  }

  /** The digits of a numeral that may be negative. */
  function Unsigned(code: string): string {
    if code != "" && code[0] == '-' then code[1..] else code
  }

  predicate StatusCode(code: string) {
    AllDigits(Unsigned(code))
  }

  /** A status line's numeral is zero for the checker exactly when its value is. */
  lemma ZeroValue(code: string)
    requires StatusCode(code)
    ensures IsZero(code) <==> Value(Unsigned(code)) == 0
  {
    ValueZero(Unsigned(code));
  }

  /** The kind of a line, by its text. */
  function Read(text: string): Line {
    if text == BEGIN_TEXT then Begin
    else if text == END_TEXT then End
    else if START_TEXT <= text then Start(text[|START_TEXT|..])
    else if STATUS_TEXT <= text then
      var parts := Split(text[|STATUS_TEXT|..], ' ');
      if |parts| == 2 && StatusName(parts[0]) && StatusCode(parts[1]) then Status(parts[0], parts[1]) else Text(text)
    else Text(text)
  }

  /** Nothing is lost in telling kinds apart: two lines are equal exactly when their texts are. */
  lemma WriteRead(text: string)
    ensures Write(Read(text)) == text
  {
    var l := Read(text);
    if l.Start? {
      Rest(START_TEXT, text);
    } else if l.Status? {
      Rest(STATUS_TEXT, text);
      StatusBack(text[|STATUS_TEXT|..]);
      Grouped(STATUS_TEXT, l.name, l.code);
    }
  }

  lemma Rest(prefix: string, text: string)
    requires prefix <= text
    ensures text == prefix + text[|prefix|..]
  {
  }

  lemma StatusBack(rest: string)
    requires |Split(rest, ' ')| == 2
    ensures rest == Split(rest, ' ')[0] + ([' '] + Split(rest, ' ')[1])
  {
    var parts := Split(rest, ' ');
    JoinSplit(rest, ' ');
    assert Join(parts, ' ') == parts[0] + [' '] + Join(parts[1..], ' ');
  }

  lemma Grouped(a: string, b: string, c: string)
    ensures a + b + " " + c == a + (b + ([' '] + c))
  {
  }

  /** A name in a status line: letters in lower case, digits, "_" and "-", in any order. */
  predicate InName(c: char) {
    97 <= c as int <= 122 || 48 <= c as int <= 57 || c == '_' || c == '-'
  }

  ghost predicate Spells(code: string, digits: string) {
    digits != "" && (forall c :: c in digits ==> '0' <= c <= '9') && (code == digits || code == "-" + digits)
  }

  /** A line is a status line exactly when it is spelled as one: a name, a space, and a numeral that may be negative. */
  lemma StatusIff(text: string, name: string, code: string)
    ensures Read(text) == Status(name, code) <==>
            text == "LANGUAGE-PORTS: status " + name + " " + code &&
            name != "" && (forall c :: c in name ==> InName(c)) && exists digits :: Spells(code, digits)
  {
    assert STATUS_TEXT == "LANGUAGE-PORTS: status ";
    StatusNameIff(name);
    CodeIff(code);
    if StatusName(name) && StatusCode(code) {
      ReadWrite(Status(name, code));
    }
    if Read(text) == Status(name, code) {
      WriteRead(text);
    }
  }

  lemma StatusNameIff(name: string)
    ensures StatusName(name) <==> name != "" && forall c :: c in name ==> InName(c)
  {
    assert forall i :: 0 <= i < |name| ==> name[i] in name;
  }

  lemma CodeIff(code: string)
    ensures StatusCode(code) <==> exists digits :: Spells(code, digits)
  {
    var digits := Unsigned(code);
    assert forall i :: 0 <= i < |digits| ==> digits[i] in digits;
    assert StatusCode(code) ==> Spells(code, digits);
    forall d | Spells(code, d)
      ensures d == digits
    {
      assert d[0] in d;
      assert ("-" + d)[1..] == d;
    }
  }

  lemma ReadInjective(a: string, b: string)
    ensures Read(a) == Read(b) <==> a == b
  {
    WriteRead(a);
    WriteRead(b);
  }

  /** The lines that the script writes are read as what they are. */
  lemma ReadWrite(l: Line)
    requires l.Status? ==> StatusName(l.name) && StatusCode(l.code)
    requires !l.Text?
    ensures Read(Write(l)) == l
  {
    Prefixes(Write(l));
    hide Split;
    match l
    case Begin =>
    case End =>
    case Start(name) =>
      assert Write(l)[|START_TEXT|..] == name;
    case Status(name, code) =>
      CodeChars(code);
      StatusForth(name, code);
  }

  lemma CodeChars(code: string)
    requires StatusCode(code)
    ensures ' ' !in code
  {
    if code[0] == '-' {
      assert code == ['-'] + code[1..];
    }
  }

  lemma StatusForth(name: string, code: string)
    requires ' ' !in name && ' ' !in code
    ensures var text := Write(Status(name, code));
            STATUS_TEXT <= text && Split(text[|STATUS_TEXT|..], ' ') == [name, code]
  {
    var rest := name + [' '] + code;
    Grouped(STATUS_TEXT, name, code);
    assert Write(Status(name, code)) == STATUS_TEXT + rest;
    SplitName(name, code, ' ');
    SplitName(code, "", ' ');
  }

  /** The four kinds differ in the first character after the prefix. */
  lemma Prefixes(text: string)
    ensures START_TEXT <= text ==> text != BEGIN_TEXT && text != END_TEXT && !(STATUS_TEXT <= text)
    ensures STATUS_TEXT <= text ==> text != BEGIN_TEXT && text != END_TEXT
    ensures BEGIN_TEXT != END_TEXT
  {
    var k := |PREFIX| + 2;
    assert START_TEXT[k] == 'b' && STATUS_TEXT[k] == 's' && BEGIN_TEXT[k] == 'B' && END_TEXT[k] == 'E';
  }
}
