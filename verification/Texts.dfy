/** Cutting text at a separator. */
module Texts {

  type Names = seq<string>

  function Split(s: string, separator: char): (parts: Names)
    ensures parts != []
  {
    if s == "" then [""]
    else
      var rest := Split(s[1..], separator);
      if s[0] == separator then [""] + rest else [[s[0]] + rest[0]] + rest[1..]
  }

  function Join(parts: Names, separator: char): string {
    if parts == [] then ""
    else if |parts| == 1 then parts[0]
    else parts[0] + [separator] + Join(parts[1..], separator)
  }

  /** Cutting loses nothing. */
  lemma {:induction false} JoinSplit(s: string, separator: char)
    ensures Join(Split(s, separator), separator) == s
  {
    if s != "" {
      JoinSplit(s[1..], separator);
      var parts, rest := Split(s, separator), Split(s[1..], separator);
      assert s == [s[0]] + s[1..];
      if s[0] == separator {
        assert parts[1..] == rest;
      } else {
        assert parts[1..] == rest[1..];
      }
    }
  }

  lemma {:induction false} SplitName(name: string, rest: string, separator: char)
    requires separator !in name
    ensures Split(name, separator) == [name]
    ensures Split(name + [separator] + rest, separator) == [name] + Split(rest, separator)
  {
    var all := name + [separator] + rest;
    if name == "" {
      assert all[1..] == rest;
    } else {
      SplitName(name[1..], rest, separator);
      assert all[1..] == name[1..] + [separator] + rest && name == [name[0]] + name[1..];
    }
  }

  /** Nor does joining, where the parts do not hold the separator. */
  lemma {:induction false} SplitJoined(parts: Names, separator: char)
    requires parts != [] && forall p :: p in parts ==> separator !in p
    ensures Split(Join(parts, separator), separator) == parts
  {
    assert parts[0] in parts;
    SplitName(parts[0], if |parts| == 1 then "" else Join(parts[1..], separator), separator);
    if |parts| > 1 {
      SplitJoined(parts[1..], separator);
    }
  }

  lemma {:induction false} NoSeparator(s: string, separator: char)
    ensures forall p :: p in Split(s, separator) ==> separator !in p
  {
    if s != "" {
      NoSeparator(s[1..], separator);
      assert Split(s[1..], separator)[0] in Split(s[1..], separator);
    }
  }

  ghost predicate InSome(parts: Names, c: char) {
    exists k :: 0 <= k < |parts| && c in parts[k]
  }

  /** Every other character is in one of the parts. */
  lemma {:induction false} SplitChars(s: string, separator: char, i: nat)
    requires i < |s|
    ensures s[i] == separator || InSome(Split(s, separator), s[i])
  {
    var parts, rest := Split(s, separator), Split(s[1..], separator);
    if s[i] == separator {
    } else if i == 0 {
      assert s[0] in parts[0];
    } else {
      SplitChars(s[1..], separator, i - 1);
      var k :| 0 <= k < |rest| && s[i] in rest[k];
      assert if s[0] == separator then s[i] in parts[k + 1] else s[i] in parts[k];
    }
  }
}
