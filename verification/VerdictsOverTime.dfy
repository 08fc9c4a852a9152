/** Verdicts as the log grows, the script that writes the log, and the loop that watches it. */
module VerdictsOverTime {
  import opened Numerals
  import opened Verdicts

  // ---- failing is final ----

  /** The log has grown. */
  ghost predicate Extends(log: Log, more: Log) {
    log.lines <= more.lines && (log.fatal ==> more.fatal)
  }

  lemma StatusesPrefix(a: seq<Line>, b: seq<Line>)
    requires a <= b
    ensures Statuses(a) <= Statuses(b) && StatusNames(a) <= StatusNames(b)
  {
    assert b == a + b[|a|..];
    StatusesConcat(a, b[|a|..]);
  }

  lemma InOrderPrefix(a: seq<Line>, b: seq<Line>, cases: seq<Case>)
    requires a <= b && StatusesInOrder(b, cases)
    ensures StatusesInOrder(a, cases)
  {
    StatusesPrefix(a, b);
  }

  lemma {:induction false} WindowsCut(a: seq<Line>, b: seq<Line>, cases: seq<Case>, from: nat, to: nat, w: seq<(nat,
                                      nat)>)
    requires a <= b && to <= |a| && Windows(b, cases, from, to, w)
    ensures Windows(a, cases, from, to, w)
    decreases cases
  {
    if cases != [] {
      assert Window(b, cases[0], w[0].0, w[0].1);
      assert a[w[0].0 + 1..w[0].1] == b[w[0].0 + 1..w[0].1];
      assert Window(a, cases[0], w[0].0, w[0].1);
      WindowsCut(a, b, cases[1..], w[0].1 + 1, to, w[1..]);
    }
  }

  /** Every window holds a status line. */
  lemma {:induction false} WindowsStatuses(lines: seq<Line>, cases: seq<Case>, from: nat, to: nat, w: seq<(nat, nat)>)
    requires to <= |lines| && Windows(lines, cases, from, to, w)
    ensures |Statuses(lines[..from])| + |cases| <= |Statuses(lines[..to])|
    decreases cases
  {
    if cases == [] {
      StatusesPrefix(lines[..from], lines[..to]);
    } else {
      var e := w[0].1;
      assert Window(lines, cases[0], w[0].0, e);
      WindowsStatuses(lines, cases[1..], e + 1, to, w[1..]);
      StatusesPrefix(lines[..from], lines[..e]);
      assert lines[..e + 1][..e] == lines[..e];
    }
  }

  lemma PassesCut(log: Log, more: Log, cases: seq<Case>)
    requires Extends(log, more) && Passes(more, cases) && End in log.lines
    ensures Passes(log, cases)
  {
    hide Windows;
    var b: nat, e: nat :| PassesWith(more.lines, cases, b, e);
    var w :| Windows(more.lines, cases, b + 1, e, w);
    var k :| 0 <= k < |log.lines| && log.lines[k] == End;
    assert more.lines[k] == End;
    InOrderPrefix(log.lines, more.lines, cases);
    FromTo(more.lines, cases, b + 1, e, w);
    WindowsCut(log.lines, more.lines, cases, b + 1, e, w);
    assert PassesWith(log.lines, cases, b, e);
    WindowsStatuses(log.lines, cases, b + 1, e, w);
    StatusesPrefix(log.lines[..e], log.lines);
  }

  lemma FromTo(lines: seq<Line>, cases: seq<Case>, from: nat, to: nat, w: seq<(nat, nat)>)
    requires to <= |lines| && Windows(lines, cases, from, to, w)
    ensures from <= to
  {
  }

  /** Once a log fails, every longer log fails. */
  lemma FailIsFinal(log: Log, more: Log, cases: seq<Case>)
    requires Extends(log, more) && Fails(log, cases)
    ensures Fails(more, cases)
  {
    hide PassesWith;
    if IsPending(more, cases) {
      InOrderPrefix(log.lines, more.lines, cases);
    }
    if Passes(more, cases) {
      InOrderPrefix(log.lines, more.lines, cases);
      if End in log.lines {
        PassesCut(log, more, cases);
      }
    }
  }

  /** A log that shows a nonzero status fails, and so never passes later. */
  lemma NonzeroFails(log: Log, cases: seq<Case>, i: nat)
    requires i < |log.lines| && log.lines[i].Status? && !IsZero(log.lines[i].code)
    ensures Fails(log, cases)
  {
    StatusAt(log.lines, i);
  }

  // ---- the generated script ----

  /** The commands of the script. `Shell(i)` runs the i-th case in a child shell. */
  datatype Command = Prologue(text: string) | Echo(line: Line) | Shell(i: nat) | SaveResult | EchoStatus(name: string)
                   | ExitUnlessZero

  function CaseScript(name: string, i: nat): seq<Command> {
    [Echo(Start(name)), Shell(i), SaveResult, EchoStatus(name), ExitUnlessZero]
  }

  function CasesScript(cases: seq<Case>, i: nat): seq<Command>
    requires i <= |cases|
  {
    if i == 0 then [] else CasesScript(cases, i - 1) + CaseScript(cases[i - 1].name, i - 1)
  }

  function Script(cases: seq<Case>): seq<Command> {
    [Prologue("#!/bin/sh"), Prologue("exec >/dev/ttyS0 2>&1"), Echo(Begin)] + CasesScript(cases, |cases|) + [Echo(End)]
  }

  /** What a case's command does: the lines it writes and its exit status. */
  datatype Behaviour = Behaviour(output: seq<Line>, code: nat)

  lemma DecimalZero(n: nat)
    ensures IsZero(Decimal(n)) <==> n == 0
    ensures Decimal(0) == "0"
  {
    if n > 0 {
      assert Decimal(n)[0] != '0';
    }
  }

  /** The lines the shell writes: `last` is the status of the last command, `result` the saved one. */
  function Execute(script: seq<Command>, behaviours: seq<Behaviour>, last: nat, result: nat): seq<Line> {
    if script == [] then []
    else
      var rest := script[1..];
      match script[0]
      case Prologue(_) => Execute(rest, behaviours, last, result)
      case Echo(line) => [line] + Execute(rest, behaviours, 0, result)
      case Shell(i) =>
        if i < |behaviours| then
          behaviours[i].output + Execute(rest, behaviours, behaviours[i].code, result)
        else Execute(rest, behaviours, last, result)
      case SaveResult => Execute(rest, behaviours, 0, last)
      case EchoStatus(name) => [Status(name, Decimal(result))] + Execute(rest, behaviours, 0, result)
      case ExitUnlessZero => if result != 0 then [] else Execute(rest, behaviours, 0, result)
  }

  /** The transcript from case `i` on: it ends after the first nonzero status, else with END. */
  function Transcript(cases: seq<Case>, behaviours: seq<Behaviour>, i: nat): seq<Line>
    requires i <= |cases| == |behaviours|
    decreases |cases| - i
  {
    if i == |cases| then [End]
    else
      [Start(cases[i].name)] + behaviours[i].output + [Status(cases[i].name, Decimal(behaviours[i].code))] +
      if behaviours[i].code != 0 then [] else Transcript(cases, behaviours, i + 1)
  }

  function Remaining(cases: seq<Case>, i: nat): seq<Command>
    requires i <= |cases|
    decreases |cases| - i
  {
    if i == |cases| then [Echo(End)] else CaseScript(cases[i].name, i) + Remaining(cases, i + 1)
  }

  lemma {:induction false} ScriptRemaining(cases: seq<Case>, i: nat)
    requires i <= |cases|
    ensures CasesScript(cases, i) + Remaining(cases, i) == CasesScript(cases, |cases|) + [Echo(End)]
    decreases |cases| - i
  {
    if i < |cases| {
      ScriptRemaining(cases, i + 1);
      assert CasesScript(cases, i + 1) + Remaining(cases, i + 1) ==
             CasesScript(cases, i) + (CaseScript(cases[i].name, i) + Remaining(cases, i + 1));
    }
  }

  lemma {:induction false} ExecuteRemaining(cases: seq<Case>, behaviours: seq<Behaviour>, i: nat, last: nat,
                                            result: nat)
    requires i <= |cases| == |behaviours|
    ensures Execute(Remaining(cases, i), behaviours, last, result) == Transcript(cases, behaviours, i)
    decreases |cases| - i
  {
    var r := Remaining(cases, i);
    if i < |cases| {
      var b, name := behaviours[i], cases[i].name;
      var tail := Remaining(cases, i + 1);
      ExecuteCase(name, i, tail, behaviours, last, result);
      ExecuteRemaining(cases, behaviours, i + 1, 0, b.code);
    } else {
      assert Execute([Echo(End)], behaviours, last, result) == [End] + Execute([], behaviours, 0, result);
    }
  }

  lemma ExecuteCase(name: string, i: nat, tail: seq<Command>, behaviours: seq<Behaviour>, last: nat, result: nat)
    requires i < |behaviours|
    ensures var b := behaviours[i];
            Execute(CaseScript(name, i) + tail, behaviours, last, result) ==
            [Start(name)] + b.output + [Status(name, Decimal(b.code))] +
            if b.code != 0 then [] else Execute(tail, behaviours, 0, b.code)
  {
    var b := behaviours[i];
    var s0 := CaseScript(name, i) + tail;
    var s1, s2, s3, s4 := s0[1..], s0[2..], s0[3..], s0[4..];
    assert s0[1..] == s1 && s1[1..] == s2 && s2[1..] == s3 && s3[1..] == s4 && s4[1..] == tail;
    var end := if b.code != 0 then [] else Execute(tail, behaviours, 0, b.code);
    assert Execute(s4, behaviours, 0, b.code) == end;
    assert Execute(s3, behaviours, 0, b.code) == [Status(name, Decimal(b.code))] + end;
    assert Execute(s2, behaviours, b.code, result) == [Status(name, Decimal(b.code))] + end;
    assert Execute(s1, behaviours, 0, result) == b.output + ([Status(name, Decimal(b.code))] + end);
    assert [Start(name)] + (b.output + ([Status(name, Decimal(b.code))] + end)) ==
           [Start(name)] + b.output + [Status(name, Decimal(b.code))] + end;
  }

  /** The whole log of a run. */
  function Written(cases: seq<Case>, behaviours: seq<Behaviour>): seq<Line>
    requires |cases| == |behaviours|
  {
    [Begin] + Transcript(cases, behaviours, 0)
  }

  /** Running the generated script writes BEGIN and the transcript. */
  lemma ScriptWrites(cases: seq<Case>, behaviours: seq<Behaviour>)
    requires |cases| == |behaviours|
    ensures Execute(Script(cases), behaviours, 0, 0) == Written(cases, behaviours)
  {
    var body := CasesScript(cases, |cases|) + [Echo(End)];
    ScriptRemaining(cases, 0);
    assert CasesScript(cases, 0) + Remaining(cases, 0) == Remaining(cases, 0);
    assert Remaining(cases, 0) == body;
    var s := Script(cases);
    assert s[1..][1..][1..] == body;
    assert Execute(s[1..][1..], behaviours, 0, 0) == [Begin] + Execute(body, behaviours, 0, 0);
    ExecuteRemaining(cases, behaviours, 0, 0, 0);
  }

  /** A script that, whatever the commands do, writes the log of the run to the serial port. */
  method BootScript(cases: seq<Case>) returns (lines: seq<Command>)
    ensures |lines| >= 2 && lines[0] == Prologue("#!/bin/sh") && lines[1] == Prologue("exec >/dev/ttyS0 2>&1")
    ensures forall behaviours: seq<Behaviour> :: |behaviours| == |cases| ==>
              Execute(lines, behaviours, 0, 0) == Written(cases, behaviours)
  {
    lines := [Prologue("#!/bin/sh"), Prologue("exec >/dev/ttyS0 2>&1"), Echo(Begin)];
    ghost var head := lines;
    for i := 0 to |cases|
      invariant lines == head + CasesScript(cases, i)
    {
      lines := lines + CaseScript(cases[i].name, i);
    }
    lines := lines + [Echo(End)];
    forall behaviours: seq<Behaviour> | |behaviours| == |cases|
      ensures Execute(lines, behaviours, 0, 0) == Written(cases, behaviours)
    {
      ScriptWrites(cases, behaviours);
    }
  }

  // ---- an honest run is never failed early, and passes at the end ----

  /** No case writes a line of the protocol. */
  ghost predicate Silent(behaviours: seq<Behaviour>) {
    forall i, l :: 0 <= i < |behaviours| && l in behaviours[i].output ==> l.Text?
  }

  /** Every case exits zero and writes its markers. */
  ghost predicate Succeeds(cases: seq<Case>, behaviours: seq<Behaviour>)
    requires |cases| == |behaviours|
  {
    forall i :: 0 <= i < |cases| ==>
      behaviours[i].code == 0 && forall m :: m in cases[i].markers ==> m in behaviours[i].output
  }

  ghost predicate Honest(cases: seq<Case>, behaviours: seq<Behaviour>) {
    |cases| == |behaviours| && Silent(behaviours) && Succeeds(cases, behaviours)
  }

  lemma {:induction false} TextHasNoStatuses(lines: seq<Line>)
    requires forall l :: l in lines ==> l.Text?
    ensures Statuses(lines) == []
    decreases |lines|
  {
    if lines != [] {
      assert lines[|lines| - 1] in lines;
      TextHasNoStatuses(lines[..|lines| - 1]);
    }
  }

  function ZeroStatuses(cases: seq<Case>, i: nat): seq<(string, string)>
    requires i <= |cases|
    decreases |cases| - i
  {
    if i == |cases| then [] else [(cases[i].name, "0")] + ZeroStatuses(cases, i + 1)
  }

  lemma {:induction false} ZeroStatusesAre(cases: seq<Case>, i: nat)
    requires i <= |cases|
    ensures |ZeroStatuses(cases, i)| == |cases| - i
    ensures forall k :: 0 <= k < |cases| - i ==> ZeroStatuses(cases, i)[k] == (cases[i + k].name, "0")
    decreases |cases| - i
  {
    if i < |cases| {
      ZeroStatusesAre(cases, i + 1);
      var rest := ZeroStatuses(cases, i + 1);
      forall k | 0 <= k < |cases| - i
        ensures ZeroStatuses(cases, i)[k] == (cases[i + k].name, "0")
      {
        if k > 0 {
          assert ZeroStatuses(cases, i)[k] == rest[k - 1];
        }
      }
    }
  }

  lemma ZeroStatusesInOrder(lines: seq<Line>, cases: seq<Case>)
    requires Statuses(lines) == ZeroStatuses(cases, 0)
    ensures StatusNames(lines) == Names(cases) && StatusesInOrder(lines, cases)
  {
    hide Statuses, ZeroStatuses;
    ZeroStatusesAre(cases, 0);
  }

  lemma Apart<T>(lines: seq<T>, at: nat, x: seq<T>, y: seq<T>)
    requires at <= |lines| && lines[at..] == x + y
    ensures at + |x| <= |lines| && lines[at..at + |x|] == x && lines[at + |x|..] == y
    ensures forall k :: at <= k < at + |x| ==> lines[k] == x[k - at]
  {
    assert lines[at..at + |x|] == lines[at..][..|x|];
    assert lines[at + |x|..] == lines[at..][|x|..];
    forall k | at <= k < at + |x|
      ensures lines[k] == x[k - at]
    {
      assert lines[k] == lines[at..][k - at];
    }
  }

  lemma {:induction false} TranscriptStatuses(cases: seq<Case>, behaviours: seq<Behaviour>, i: nat)
    requires Honest(cases, behaviours) && i <= |cases|
    ensures Statuses(Transcript(cases, behaviours, i)) == ZeroStatuses(cases, i)
    decreases |cases| - i
  {
    if i == |cases| {
      assert [End][..0] == [];
    } else {
      var head, status, tail :=
        [Start(cases[i].name)] + behaviours[i].output, [Status(cases[i].name, "0")], Transcript(cases, behaviours,
        i + 1);
      DecimalZero(0);
      TranscriptStatuses(cases, behaviours, i + 1);
      TextHasNoStatuses(behaviours[i].output);
      StatusesConcat([Start(cases[i].name)], behaviours[i].output);
      assert [Start(cases[i].name)][..0] == [];
      StatusesConcat(head + status, tail);
      StatusesConcat(head, status);
      assert status[..0] == [];
      assert Statuses(status) == [] + [(cases[i].name, "0")];
    }
  }

  lemma TranscriptSplit(cases: seq<Case>, behaviours: seq<Behaviour>, i: nat)
    requires i < |cases| == |behaviours| && behaviours[i].code == 0
    ensures Transcript(cases, behaviours, i) ==
            [Start(cases[i].name)] +
            (behaviours[i].output + ([Status(cases[i].name, "0")] + Transcript(cases, behaviours, i + 1)))
  {
    DecimalZero(0);
    Regroup([Start(cases[i].name)], behaviours[i].output, [Status(cases[i].name, "0")],
            Transcript(cases, behaviours, i + 1));
  }

  /** One case in place: its window, and no boundary lines in it. */
  lemma CaseInPlace(cases: seq<Case>, behaviours: seq<Behaviour>, i: nat, lines: seq<Line>, at: nat)
    requires Honest(cases, behaviours) && i < |cases| && at <= |lines|
    requires lines[at..] == Transcript(cases, behaviours, i)
    ensures var e := at + 1 + |behaviours[i].output|;
            e < |lines| && Window(lines, cases[i], at, e) && lines[e + 1..] == Transcript(cases, behaviours, i + 1) &&
            forall k :: at <= k <= e ==> lines[k] != Begin && lines[k] != End
  {
    hide Transcript, Window;
    var out, tail := behaviours[i].output, Transcript(cases, behaviours, i + 1);
    TranscriptSplit(cases, behaviours, i);
    assert (forall l :: l in out ==> l.Text?) && forall m :: m in cases[i].markers ==> m in out;
    hide Honest;
    Pieces(lines, at, cases[i], out, tail);
  }

  lemma Pieces(lines: seq<Line>, at: nat, c: Case, out: seq<Line>, tail: seq<Line>)
    requires at <= |lines| && lines[at..] == [Start(c.name)] + (out + ([Status(c.name, "0")] + tail))
    requires (forall l :: l in out ==> l.Text?) && forall m :: m in c.markers ==> m in out
    ensures var e := at + 1 + |out|;
            e < |lines| && Window(lines, c, at, e) && lines[e + 1..] == tail &&
            forall k :: at <= k <= e ==> lines[k] != Begin && lines[k] != End
  {
    var first, last := [Start(c.name)], [Status(c.name, "0")];
    var e := at + 1 + |out|;
    Apart(lines, at, first, out + (last + tail));
    Apart(lines, at + 1, out, last + tail);
    Apart(lines, e, last, tail);
    forall k | at <= k <= e
      ensures lines[k] != Begin && lines[k] != End
    {
      if at < k < e {
        assert out[k - at - 1] in out;
      }
    }
  }

  lemma Regroup<T>(a: seq<T>, b: seq<T>, c: seq<T>, d: seq<T>)
    ensures a + b + c + d == a + (b + (c + d))
  {
  }

  /** The transcript in place: a window for every case, END last and nowhere else, BEGIN nowhere. */
  lemma {:induction false} TranscriptWindows(cases: seq<Case>, behaviours: seq<Behaviour>, i: nat, lines: seq<Line>,
                                             at: nat)
    returns (w: seq<(nat, nat)>)
    requires |cases| == |behaviours| && Honest(cases, behaviours) && i <= |cases| && at <= |lines|
    requires lines[at..] == Transcript(cases, behaviours, i)
    ensures |lines| > at && Windows(lines, cases[i..], at, |lines| - 1, w)
    ensures forall k :: at <= k < |lines| ==> lines[k] != Begin && (lines[k] == End <==> k == |lines| - 1)
    decreases |cases| - i
  {
    hide Transcript, Window, Windows, Honest;
    if i == |cases| {
      w := EndInPlace(cases, behaviours, lines, at);
    } else {
      var e := at + 1 + |behaviours[i].output|;
      CaseInPlace(cases, behaviours, i, lines, at);
      var rest := TranscriptWindows(cases, behaviours, i + 1, lines, e + 1);
      w := WindowsCons(lines, cases, i, at, e, rest);
    }
  }

  lemma EndInPlace(cases: seq<Case>, behaviours: seq<Behaviour>, lines: seq<Line>, at: nat) returns (w: seq<(nat, nat)>)
    requires |cases| == |behaviours| && at <= |lines| && lines[at..] == Transcript(cases, behaviours, |cases|)
    ensures |lines| == at + 1 && lines[at] == End && Windows(lines, cases[|cases|..], at, at, w)
  {
    assert lines[at..] == [End];
    assert lines[at] == lines[at..][0];
    w := [];
  }

  lemma WindowsCons(lines: seq<Line>, cases: seq<Case>, i: nat, at: nat, e: nat, rest: seq<(nat, nat)>)
    returns (w: seq<(nat, nat)>)
    requires i < |cases| && at < e < |lines| - 1 && Window(lines, cases[i], at, e)
    requires Windows(lines, cases[i + 1..], e + 1, |lines| - 1, rest)
    ensures Windows(lines, cases[i..], at, |lines| - 1, w)
  {
    w := [(at, e)] + rest;
    assert w[1..] == rest && cases[i..][1..] == cases[i + 1..] && cases[i..][0] == cases[i];
  }

  /** The honest transcript passes as a whole and is pending at every earlier line. */
  lemma HonestRun(cases: seq<Case>, behaviours: seq<Behaviour>, k: nat)
    requires |cases| == |behaviours| && Honest(cases, behaviours)
    ensures var lines := Written(cases, behaviours);
            Passes(Log(false, lines), cases) && (k < |lines| ==> IsPending(Log(false, lines[..k]), cases))
  {
    hide Windows, Transcript, Statuses, StatusNames, StatusesInOrder, Honest, ZeroStatuses;
    var lines := Written(cases, behaviours);
    var t := Transcript(cases, behaviours, 0);
    assert lines[1..] == t;
    var w := TranscriptWindows(cases, behaviours, 0, lines, 1);
    assert cases[0..] == cases;
    TranscriptStatuses(cases, behaviours, 0);
    BeginStatuses(t);
    ZeroStatusesInOrder(lines, cases);
    assert PassesWith(lines, cases, 0, |lines| - 1);
    if k < |lines| {
      InOrderPrefix(lines[..k], lines, cases);
    }
  }

  lemma BeginStatuses(t: seq<Line>)
    ensures Statuses([Begin] + t) == Statuses(t)
  {
    StatusesConcat([Begin], t);
    assert [Begin][..0] == [];
  }

  /** A run in which a case exits nonzero ends failed, whatever the other cases write. */
  lemma {:induction false} NonzeroRun(cases: seq<Case>, behaviours: seq<Behaviour>, i: nat, j: nat)
    requires |cases| == |behaviours| && i <= j < |cases| && behaviours[j].code != 0
    ensures exists k :: 0 <= k < |Transcript(cases, behaviours, i)| &&
              var l := Transcript(cases, behaviours, i)[k]; l.Status? && !IsZero(l.code)
    decreases j - i
  {
    var t := Transcript(cases, behaviours, i);
    var e := 1 + |behaviours[i].output|;
    DecimalZero(behaviours[i].code);
    assert t[e] == Status(cases[i].name, Decimal(behaviours[i].code));
    if behaviours[i].code == 0 {
      NonzeroRun(cases, behaviours, i + 1, j);
      var u := Transcript(cases, behaviours, i + 1);
      var k :| 0 <= k < |u| && u[k].Status? && !IsZero(u[k].code);
      assert t[e + 1 + k] == u[k];
    }
  }
}
