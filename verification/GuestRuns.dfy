/** A guest's whole run: the verdict on every prefix of its log, and on the prefixes that the watching loop happens
    to read. */
module GuestRuns {
  import opened Numerals
  import opened Verdicts
  import opened VerdictsOverTime

  // ---- where END can be ----

  /** No case writes the suite's end marker. */
  ghost predicate EndsNothing(behaviours: seq<Behaviour>) {
    forall i :: 0 <= i < |behaviours| ==> End !in behaviours[i].output
  }

  ghost predicate AllZero(behaviours: seq<Behaviour>, i: nat) {
    forall j :: i <= j < |behaviours| ==> behaviours[j].code == 0
  }

  /** Then END stands last, and only if every case exits zero. */
  lemma {:induction false} EndLast(cases: seq<Case>, behaviours: seq<Behaviour>, i: nat, k: nat)
    requires i <= |cases| == |behaviours| && EndsNothing(behaviours) && k < |Transcript(cases, behaviours, i)|
    ensures Transcript(cases, behaviours, i)[k] == End <==>
            k == |Transcript(cases, behaviours, i)| - 1 && AllZero(behaviours, i)
    decreases |cases| - i
  {
    if i < |cases| {
      var head := |behaviours[i].output| + 2;
      if 1 <= k < head - 1 {
        assert Transcript(cases, behaviours, i)[k] == behaviours[i].output[k - 1];
      }
      if behaviours[i].code == 0 {
        assert AllZero(behaviours, i) <==> AllZero(behaviours, i + 1);
        if k >= head {
          assert Transcript(cases, behaviours, i)[k] == Transcript(cases, behaviours, i + 1)[k - head];
          EndLast(cases, behaviours, i + 1, k - head);
        } else {
          TranscriptNonempty(cases, behaviours, i + 1);
        }
      }
    }
  }

  lemma TranscriptNonempty(cases: seq<Case>, behaviours: seq<Behaviour>, i: nat)
    requires i <= |cases| == |behaviours|
    ensures Transcript(cases, behaviours, i) != []
  {
  }

  lemma WrittenEnd(cases: seq<Case>, behaviours: seq<Behaviour>, k: nat)
    requires |cases| == |behaviours| && EndsNothing(behaviours) && k < |Written(cases, behaviours)|
    ensures Written(cases, behaviours)[k] == End <==>
            k == |Written(cases, behaviours)| - 1 && AllZero(behaviours, 0)
  {
    hide Transcript;
    TranscriptNonempty(cases, behaviours, 0);
    if k > 0 {
      EndLast(cases, behaviours, 0, k - 1);
    }
  }

  // ---- a case that exits nonzero ----

  /** The finished log fails, with anything appended. While no case writes the end marker, no log along the way passes
      either, whatever else the cases write. */
  lemma NonzeroNeverPasses(cases: seq<Case>, behaviours: seq<Behaviour>, j: nat, log: Log)
    requires |cases| == |behaviours| && j < |cases| && behaviours[j].code != 0
    ensures Written(cases, behaviours) <= log.lines ==> Fails(log, cases)
    ensures EndsNothing(behaviours) && log.lines <= Written(cases, behaviours) ==> !Passes(log, cases)
  {
    hide Transcript;
    var t := Transcript(cases, behaviours, 0);
    if Written(cases, behaviours) <= log.lines {
      NonzeroRun(cases, behaviours, 0, j);
      var k :| 0 <= k < |t| && t[k].Status? && !IsZero(t[k].code);
      assert log.lines[1 + k] == Written(cases, behaviours)[1 + k] == t[k];
      NonzeroFails(log, cases, 1 + k);
    }
    if EndsNothing(behaviours) && log.lines <= Written(cases, behaviours) && Passes(log, cases) {
      PassesOnce(log, cases);
      var k :| 0 <= k < |log.lines| && log.lines[k] == End;
      WrittenEnd(cases, behaviours, k);
    }
  }

  /** A case that does write the protocol's lines can pass before its own status gives it away. */
  lemma ForgedPass()
    ensures var cases, behaviours := [Case("a", [Text("m")])], [Behaviour([Text("m"), Status("a", "0"), End], 1)];
            5 < |Written(cases, behaviours)| && Passes(Log(false, Written(cases, behaviours)[..5]), cases) &&
            Fails(Log(false, Written(cases, behaviours)), cases)
  {
    var cases, behaviours := [Case("a", [Text("m")])], [Behaviour([Text("m"), Status("a", "0"), End], 1)];
    var lines := Written(cases, behaviours);
    assert Transcript(cases, behaviours, 0) ==
           [Start("a")] + behaviours[0].output + [Status("a", Decimal(1))] + [];
    var seen := [Begin, Start("a"), Text("m"), Status("a", "0"), End];
    assert lines == seen + [Status("a", Decimal(1))];
    assert lines[..5] == seen;
    NonzeroNeverPasses(cases, behaviours, 0, Log(false, lines));
    ForgedStatuses(cases);
    ForgedWindow();
  }

  lemma ForgedWindow()
    ensures var cases := [Case("a", [Text("m")])];
            PassesWith([Begin, Start("a"), Text("m"), Status("a", "0"), End], cases, 0, 4)
  {
    var c := Case("a", [Text("m")]);
    var cases, seen := [c], [Begin, Start("a"), Text("m"), Status("a", "0"), End];
    assert seen[2..3] == [Text("m")] && Text("m") in seen[2..3];
    assert Window(seen, c, 1, 3);
    assert Windows(seen, [], 4, 4, []) && cases[1..] == [] && [(1, 3)][1..] == [];
    assert Windows(seen, cases, 1, 4, [(1, 3)]);
  }

  lemma ForgedStatuses(cases: seq<Case>)
    requires |cases| == 1 && cases[0].name == "a"
    ensures var seen := [Begin, Start("a"), Text("m"), Status("a", "0"), End];
            StatusNames(seen) == Names(cases) && StatusesInOrder(seen, cases)
  {
    var head, tail := [Begin, Start("a"), Text("m")], [End];
    assert head[..2] == [Begin, Start("a")] && head[..2][..1] == [Begin] && [Begin][..0] == [];
    assert [Status("a", "0")][..0] == [] && tail[..0] == [];
    assert Statuses(head) == [] && Statuses(tail) == [] && Statuses([Status("a", "0")]) == [("a", "0")];
    StatusesConcat(head, [Status("a", "0")]);
    StatusesConcat(head + [Status("a", "0")], tail);
    assert [Begin, Start("a"), Text("m"), Status("a", "0"), End] == head + [Status("a", "0")] + tail;
  }

  // ---- cases that keep out of the protocol ----

  /** Up to its last line the log only shows zero statuses, in order. */
  lemma {:induction false} SilentStatuses(cases: seq<Case>, behaviours: seq<Behaviour>, i: nat)
    requires i <= |cases| == |behaviours| && Silent(behaviours)
    ensures var t := Transcript(cases, behaviours, i);
            t != [] && Statuses(t[..|t| - 1]) <= ZeroStatuses(cases, i)
    decreases |cases| - i
  {
    hide Transcript, Statuses, ZeroStatuses;
    TranscriptParts(cases, behaviours, i);
    if i < |cases| {
      var head, code := HeadOf(cases, behaviours, i), behaviours[i].code;
      var last, rest := [Status(cases[i].name, Decimal(code))], Transcript(cases, behaviours, i + 1);
      HeadStatuses(cases, behaviours, i);
      if code != 0 {
        assert (head + last + [])[..|head + last + []| - 1] == head;
      } else {
        SilentStatuses(cases, behaviours, i + 1);
        assert (head + last + rest)[..|head| + 1 + |rest| - 1] == head + last + rest[..|rest| - 1];
        StatusesConcat(head, last);
        StatusesConcat(head + last, rest[..|rest| - 1]);
        DecimalZero(0);
        OneStatus(cases[i].name);
      }
    } else {
      assert [End][..0] == [];
      NoStatus();
    }
  }

  function HeadOf(cases: seq<Case>, behaviours: seq<Behaviour>, i: nat): seq<Line>
    requires i < |cases| == |behaviours|
  {
    [Start(cases[i].name)] + behaviours[i].output
  }

  lemma TranscriptParts(cases: seq<Case>, behaviours: seq<Behaviour>, i: nat)
    requires i <= |cases| == |behaviours|
    ensures i == |cases| ==> Transcript(cases, behaviours, i) == [End]
    ensures i < |cases| ==> ZeroStatuses(cases, i) == [(cases[i].name, "0")] + ZeroStatuses(cases, i + 1)
    ensures i < |cases| ==>
      Transcript(cases, behaviours, i) ==
      HeadOf(cases, behaviours, i) + [Status(cases[i].name, Decimal(behaviours[i].code))] +
      if behaviours[i].code != 0 then [] else Transcript(cases, behaviours, i + 1)
  {
  }

  lemma HeadStatuses(cases: seq<Case>, behaviours: seq<Behaviour>, i: nat)
    requires i < |cases| == |behaviours| && Silent(behaviours)
    ensures Statuses(HeadOf(cases, behaviours, i)) == []
  {
    assert [Start(cases[i].name)][..0] == [];
    StatusesConcat([Start(cases[i].name)], behaviours[i].output);
    TextHasNoStatuses(behaviours[i].output);
  }

  lemma OneStatus(name: string)
    ensures Statuses([Status(name, "0")]) == [(name, "0")]
  {
    assert [Status(name, "0")][..0] == [];
  }

  lemma NoStatus()
    ensures Statuses([]) == []
  {
  }

  lemma ZerosInOrder(lines: seq<Line>, cases: seq<Case>)
    requires Statuses(lines) <= ZeroStatuses(cases, 0)
    ensures StatusesInOrder(lines, cases)
  {
    hide Statuses, ZeroStatuses;
    ZeroStatusesAre(cases, 0);
    var q, z := Statuses(lines), ZeroStatuses(cases, 0);
    assert forall i :: 0 <= i < |q| ==> q[i] == z[i];
  }

  /** Every proper prefix is pending, however the cases end. */
  lemma SilentPending(cases: seq<Case>, behaviours: seq<Behaviour>, k: nat)
    requires |cases| == |behaviours| && Silent(behaviours) && k < |Written(cases, behaviours)|
    ensures IsPending(Log(false, Written(cases, behaviours)[..k]), cases)
  {
    hide Statuses, Transcript, StatusesInOrder, ZeroStatuses;
    var t, lines := Transcript(cases, behaviours, 0), Written(cases, behaviours);
    SilentStatuses(cases, behaviours, 0);
    BeginStatuses(t[..|t| - 1]);
    assert lines[..|lines| - 1] == [Begin] + t[..|t| - 1];
    ZerosInOrder(lines[..|lines| - 1], cases);
    InOrderPrefix(lines[..k], lines[..|lines| - 1], cases);
    forall i | 0 <= i < k
      ensures lines[i] != End
    {
      SilentEndsNothing(behaviours);
      WrittenEnd(cases, behaviours, i);
    }
  }

  lemma SilentEndsNothing(behaviours: seq<Behaviour>)
    requires Silent(behaviours)
    ensures EndsNothing(behaviours)
  {
    var l := End;
    assert forall i :: 0 <= i < |behaviours| && l in behaviours[i].output ==> l.Text?;
  }

  /** Windows on the whole log show that every case wrote its markers. */
  lemma {:induction false} MarkersWritten(cases: seq<Case>, behaviours: seq<Behaviour>, i: nat, lines: seq<Line>,
                                          at: nat,
                                          to: nat, w: seq<(nat, nat)>, j: nat)
    requires i <= j < |cases| == |behaviours| && AllZero(behaviours, i) && at <= |lines| && to <= |lines|
    requires lines[at..] == Transcript(cases, behaviours, i) && Distinct(StatusNames(lines))
    requires Windows(lines, cases[i..], at, to, w)
    ensures forall m :: m in cases[j].markers ==> m in behaviours[j].output
    decreases |cases| - i
  {
    hide Transcript, Distinct, StatusNames, Windows;
    var e := at + 1 + |behaviours[i].output|;
    CaseAt(cases, behaviours, i, lines, at);
    FirstOf(lines, cases, i, at, to, w);
    SameLine(lines, e, w[0].1);
    if i == j {
      forall m | m in cases[i].markers
        ensures m in behaviours[i].output
      {
        assert m in lines[w[0].0 + 1..e];
        var k :| w[0].0 + 1 <= k < e && lines[k] == m;
        assert lines[at + 1..e][k - at - 1] == m;
      }
    } else {
      MarkersWritten(cases, behaviours, i + 1, lines, e + 1, to, w[1..], j);
    }
  }

  lemma CaseAt(cases: seq<Case>, behaviours: seq<Behaviour>, i: nat, lines: seq<Line>, at: nat)
    requires i < |cases| == |behaviours| && behaviours[i].code == 0 && at <= |lines|
    requires lines[at..] == Transcript(cases, behaviours, i)
    ensures var e := at + 1 + |behaviours[i].output|;
            e < |lines| && lines[e] == Status(cases[i].name, "0") && lines[at + 1..e] == behaviours[i].output &&
            lines[e + 1..] == Transcript(cases, behaviours, i + 1)
  {
    hide Transcript;
    var out, status, tail := behaviours[i].output, [Status(cases[i].name, "0")], Transcript(cases, behaviours, i + 1);
    TranscriptSplit(cases, behaviours, i);
    Apart(lines, at, [Start(cases[i].name)], out + (status + tail));
    Apart(lines, at + 1, out, status + tail);
    Apart(lines, at + 1 + |out|, status, tail);
  }

  lemma FirstOf(lines: seq<Line>, cases: seq<Case>, i: nat, at: nat, to: nat, w: seq<(nat, nat)>)
    requires i < |cases| && to <= |lines| && Windows(lines, cases[i..], at, to, w)
    ensures |w| == |cases| - i && at <= w[0].0 < w[0].1 < |lines| && Window(lines, cases[i], w[0].0, w[0].1)
    ensures Windows(lines, cases[i + 1..], w[0].1 + 1, to, w[1..])
  {
    assert cases[i..][0] == cases[i] && cases[i..][1..] == cases[i + 1..];
  }

  lemma SameLine(lines: seq<Line>, i: nat, j: nat)
    requires i < |lines| && j < |lines| && lines[i].Status? && lines[j] == lines[i] && Distinct(StatusNames(lines))
    ensures i == j
  {
    if i <= j {
      SameStatus(lines, i, j);
    } else {
      SameStatus(lines, j, i);
    }
  }

  /** The whole log passes exactly when every case exited zero and wrote its markers. */
  lemma SilentVerdict(cases: seq<Case>, behaviours: seq<Behaviour>)
    requires |cases| == |behaviours| && Silent(behaviours) && Distinct(Names(cases))
    ensures Passes(Log(false, Written(cases, behaviours)), cases) <==> Succeeds(cases, behaviours)
    ensures !Succeeds(cases, behaviours) ==> Fails(Log(false, Written(cases, behaviours)), cases)
  {
    hide Transcript, Statuses, Windows, Passes, Distinct, Silent;
    var lines := Written(cases, behaviours);
    var log := Log(false, lines);
    TranscriptNonempty(cases, behaviours, 0);
    SilentEndsNothing(behaviours);
    if Succeeds(cases, behaviours) {
      HonestRun(cases, behaviours, 0);
    } else if AllZero(behaviours, 0) {
      WrittenEnd(cases, behaviours, |lines| - 1);
      assert End in lines;
      if Passes(log, cases) {
        PassedMarkers(cases, behaviours);
      }
    } else {
      var j :| 0 <= j < |behaviours| && behaviours[j].code != 0;
      NonzeroNeverPasses(cases, behaviours, j, log);
    }
  }

  lemma PassedMarkers(cases: seq<Case>, behaviours: seq<Behaviour>)
    requires |cases| == |behaviours| && AllZero(behaviours, 0) && Distinct(Names(cases))
    requires Passes(Log(false, Written(cases, behaviours)), cases)
    ensures Succeeds(cases, behaviours)
  {
    hide Transcript, Statuses, StatusNames, Windows, Distinct;
    var lines := Written(cases, behaviours);
    var b: nat, e: nat :| PassesWith(lines, cases, b, e);
    assert lines[0] == Begin;
    var w :| Windows(lines, cases, b + 1, e, w);
    assert lines[1..] == Transcript(cases, behaviours, 0) && cases[0..] == cases;
    forall j | 0 <= j < |cases|
      ensures forall m :: m in cases[j].markers ==> m in behaviours[j].output
    {
      MarkersWritten(cases, behaviours, 0, lines, 1, e, w, j);
    }
  }

  /** So the logs along the way are pending, and one of them passes exactly when the run succeeds: the last. */
  lemma SomePrefixPasses(cases: seq<Case>, behaviours: seq<Behaviour>)
    requires |cases| == |behaviours| && Silent(behaviours) && Distinct(Names(cases))
    ensures (exists k :: 0 <= k <= |Written(cases, behaviours)| &&
                         Passes(Log(false, Written(cases, behaviours)[..k]), cases)) <==>
            Succeeds(cases, behaviours)
  {
    hide Written, Passes, IsPending, Distinct, Silent, Succeeds;
    var lines := Written(cases, behaviours);
    assert lines[..|lines|] == lines;
    SilentVerdict(cases, behaviours);
    forall k | 0 <= k < |lines|
      ensures !Passes(Log(false, lines[..k]), cases)
    {
      SilentPending(cases, behaviours, k);
      PassesIsNotPending(Log(false, lines[..k]), cases);
    }
  }

  /** A nonzero case is pending up to its status line, which is the last, and fails from it on. */
  lemma NonzeroTurns(cases: seq<Case>, behaviours: seq<Behaviour>, j: nat, log: Log)
    requires |cases| == |behaviours| && Silent(behaviours) && j < |cases| && behaviours[j].code != 0
    ensures var lines := Written(cases, behaviours);
            (log.lines < lines && !log.fatal ==> IsPending(log, cases)) && (lines <= log.lines ==> Fails(log, cases)) &&
            lines[|lines| - 1].Status? && !IsZero(lines[|lines| - 1].code)
  {
    hide Transcript, IsPending, Fails;
    var lines := Written(cases, behaviours);
    NonzeroNeverPasses(cases, behaviours, j, log);
    LastStatus(cases, behaviours, 0, j);
    if log.lines < lines && !log.fatal {
      SilentPending(cases, behaviours, |log.lines|);
      assert log == Log(false, lines[..|log.lines|]);
    }
  }

  lemma {:induction false} LastStatus(cases: seq<Case>, behaviours: seq<Behaviour>, i: nat, j: nat)
    requires |cases| == |behaviours| && i <= j < |cases| && behaviours[j].code != 0
    ensures var t := Transcript(cases, behaviours, i);
            t != [] && t[|t| - 1].Status? && !IsZero(t[|t| - 1].code)
    decreases j - i
  {
    DecimalZero(behaviours[i].code);
    if behaviours[i].code == 0 {
      LastStatus(cases, behaviours, i + 1, j);
    }
  }

  // ---- the loop that watches the guest ----

  /** One look: the log as read, and whether just after reading it the guest had exited or time was up. */
  datatype Look = Look(log: Log, exited: bool, timedOut: bool)

  predicate Over(l: Look) {
    l.exited || l.timedOut
  }

  /** The first look that is not pending or is over decides; Pending if the looks run out. */
  ghost predicate Decided(looks: seq<Look>, cases: seq<Case>, state: Verdict, at: nat) {
    at <= |looks| && (at == |looks| <==> state == Pending) &&
    (forall i :: 0 <= i < at ==> IsPending(looks[i].log, cases) && !Over(looks[i])) &&
    (at < |looks| ==>
      (state == Pass <==> Passes(looks[at].log, cases)) && (IsPending(looks[at].log, cases) ==> Over(looks[at])))
  }

  method RunGuest(looks: seq<Look>, cases: seq<Case>) returns (state: Verdict, at: nat)
    requires Distinct(Names(cases))
    ensures Decided(looks, cases, state, at)
  {
    at := 0;
    while at < |looks|
      invariant at <= |looks|
      invariant forall i :: 0 <= i < at ==> IsPending(looks[i].log, cases) && !Over(looks[i])
    {
      hide Passes, IsPending;
      state := EvaluateOutput(looks[at].log, cases);
      if state != Pending {
        return;
      }
      PassesIsNotPending(looks[at].log, cases);
      if looks[at].exited || looks[at].timedOut {
        return Fail, at;
      }
      at := at + 1;
    }
    state := Pending;
  }

  /** The looks are at one log that grows, with no fatal message in it. */
  ghost predicate Watches(looks: seq<Look>, lines: seq<Line>) {
    forall i :: 0 <= i < |looks| ==> !looks[i].log.fatal && looks[i].log.lines <= lines
  }

  /** Some look saw the whole log, and no look before it was over. */
  ghost predicate SeenWhole(looks: seq<Look>, lines: seq<Line>) {
    exists i :: 0 <= i < |looks| && looks[i].log.lines == lines && forall j :: 0 <= j < i ==> !Over(looks[j])
  }

  /** A guest whose cases keep out of the protocol is passed exactly when all of them succeed and its whole log is
      seen in time; it is failed only if one of them does not, or a look that is still pending is over. */
  lemma GuestVerdict(cases: seq<Case>, behaviours: seq<Behaviour>, looks: seq<Look>, state: Verdict, at: nat)
    requires |cases| == |behaviours| && Silent(behaviours) && Distinct(Names(cases))
    requires Watches(looks, Written(cases, behaviours)) && Decided(looks, cases, state, at)
    ensures state == Pass <==> Succeeds(cases, behaviours) && SeenWhole(looks, Written(cases, behaviours))
    ensures state == Fail ==>
      !Succeeds(cases, behaviours) || (looks[at].log.lines != Written(cases, behaviours) && Over(looks[at]))
  {
    hide Written, Passes, IsPending, Distinct, Silent, Succeeds;
    var lines := Written(cases, behaviours);
    SilentVerdict(cases, behaviours);
    forall i | 0 <= i < |looks|
      ensures looks[i].log == Log(false, lines) || IsPending(looks[i].log, cases)
      ensures !(Passes(looks[i].log, cases) && IsPending(looks[i].log, cases))
    {
      if |looks[i].log.lines| < |lines| {
        SilentPending(cases, behaviours, |looks[i].log.lines|);
        assert looks[i].log == Log(false, lines[..|looks[i].log.lines|]);
      }
      PassesIsNotPending(looks[i].log, cases);
    }
  }

  /** A guest with a case that exits nonzero is never passed while no case writes the end marker, even if a fatal
      message comes in between. */
  lemma NonzeroGuest(cases: seq<Case>, behaviours: seq<Behaviour>, j: nat, looks: seq<Look>, state: Verdict, at: nat)
    requires |cases| == |behaviours| && j < |cases| && behaviours[j].code != 0 && EndsNothing(behaviours)
    requires forall i :: 0 <= i < |looks| ==> looks[i].log.lines <= Written(cases, behaviours)
    requires Decided(looks, cases, state, at)
    ensures state != Pass
  {
    hide Written, Passes;
    if at < |looks| {
      NonzeroNeverPasses(cases, behaviours, j, looks[at].log);
    }
  }

  /** A guest that succeeds and exits between the reading of its log and the look at its process is failed. */
  lemma LateExit()
    ensures var cases, behaviours := [Case("a", [Text("m")])], [Behaviour([Text("m")], 0)];
            var lines := Written(cases, behaviours);
            Honest(cases, behaviours) && Passes(Log(false, lines), cases) && |lines| == 5 &&
            Watches([Look(Log(false, lines[..4]), true, false)], lines) &&
            Decided([Look(Log(false, lines[..4]), true, false)], cases, Fail, 0)
  {
    var cases, behaviours := [Case("a", [Text("m")])], [Behaviour([Text("m")], 0)];
    var lines := Written(cases, behaviours);
    assert Honest(cases, behaviours);
    assert Transcript(cases, behaviours, 1) == [End];
    HonestRun(cases, behaviours, 4);
    PassesIsNotPending(Log(false, lines[..4]), cases);
  }
}
