/** What a whole execution says: its replies field by field, and its output put together. */
module CellOutput {
  import opened Numerals
  import opened Options
  import opened Cells

  /** The j-th reply of an execution, by its fields: it was started, it reports for the first time, it was waited
      for. */
  ghost predicate InTurn(m: Message, j: nat, id: nat, cell: string) {
    m.Reply? && m.fine && m.value.Some? &&
    if j == 0 then
      m.kind == "operation/response" && m.id == Some(id + 1) && m.value.value.kind == "execution/started" &&
      m.value.value.cell == Some(cell)
    else if j == 1 then m.kind == "execute/initialResponse" && m.id == Some(id + 1)
    else m.kind == "operation/response" && m.id == Some(id + j) && m.value.value.kind == "wait/completed"
  }

  /** The outcome that a reply carries: directly the first time, later under a live or else a missing cell. */
  ghost predicate Carries(m: Message, j: nat, o: Outcome) {
    m.Reply? && m.value.Some? &&
    if j == 1 then m.value.value.outcome == o
    else m.value.value.live == Some(o) || (m.value.value.live.None? && m.value.value.missing == Some(o))
  }

  /** A report of this cell that was timed and has a list of items. */
  predicate IsReport(body: Body, cell: string) {
    body.cell == Some(cell) && body.timed && body.items.Some?
  }

  function Items(o: Outcome): seq<Item> {
    var body := if o.yielded.Some? then o.yielded else o.result;
    if body.Some? && body.value.items.Some? then body.value.items.value else []
  }

  /** Everything the execution put out, in order. */
  ghost function Output(os: seq<Outcome>): seq<Item> {
    if os == [] then [] else Output(os[..|os| - 1]) + Items(os[|os| - 1])
  }

  /** Reports that the cell goes on, and then one that it ended. */
  ghost predicate Course(os: seq<Outcome>, cell: string) {
    os != [] && (forall i :: 0 <= i < |os| - 1 ==> os[i].yielded.Some? && IsReport(os[i].yielded.value, cell)) &&
    var last := os[|os| - 1]; last.yielded.None? && last.result.Some? && IsReport(last.result.value, cell)
  }

  /** A cell that was started and reported until it ended, with an error exactly if one is expected, and with exactly
      the expected output over all its reports. */
  ghost predicate WholeRun(rs: seq<Message>, os: seq<Outcome>, id: nat, cell: string, text: Option<string>,
                           error: bool) {
    |rs| == |os| + 1 && Course(os, cell) &&
    (forall j :: 0 <= j < |rs| ==> InTurn(rs[j], j, id, cell)) &&
    (forall j :: 1 <= j < |rs| ==> Carries(rs[j], j, os[j - 1])) &&
    (if error then os[|os| - 1].result.value.problem.Expected? else os[|os| - 1].result.value.problem.NoProblem?) &&
    Output(os) == if text.Some? then [Item(text)] else []
  }

  // ---- output, report by report ----

  /** Items that an execution may report: none, or the expected text. */
  predicate Allowed(items: seq<Item>, text: Option<string>) {
    items == [] || (text.Some? && items == [Item(text)])
  }

  lemma {:induction false} ItemsWithin(os: seq<Outcome>, i: nat)
    requires i < |os|
    ensures |Items(os[i])| <= |Output(os)| && forall x :: x in Items(os[i]) ==> x in Output(os)
  {
    if i < |os| - 1 {
      ItemsWithin(os[..|os| - 1], i);
    }
  }

  /** Output that is one item or none comes whole from one report. */
  lemma {:induction false} AllAllowed(os: seq<Outcome>, text: Option<string>)
    requires Output(os) == if text.Some? then [Item(text)] else []
    ensures forall i :: 0 <= i < |os| ==> Allowed(Items(os[i]), text)
  {
    forall i | 0 <= i < |os|
      ensures Allowed(Items(os[i]), text)
    {
      ItemsWithin(os, i);
      if text.Some? {
        AtMost(Items(os[i]), Item(text));
      }
    }
  }

  lemma AtMost(items: seq<Item>, x: Item)
    requires |items| <= 1 && forall y :: y in items ==> y == x
    ensures items == [] || items == [x]
  {
    if items != [] {
      assert items[0] in items;
    }
  }

  /** Counting the replies that tell the text is the length of the output. */
  lemma {:induction false} ToldOutput(rs: seq<Message>, os: seq<Outcome>, text: Option<string>)
    requires |rs| == |os| + 1 && forall j :: 1 <= j < |rs| ==> OutcomeAt(rs[j], j) == os[j - 1]
    requires forall i :: 0 <= i < |os| ==> Allowed(Items(os[i]), text)
    ensures |Output(os)| == Told(rs, text) && forall x :: x in Output(os) ==> text.Some? && x == Item(text)
  {
    if os != [] {
      var n := |os| - 1;
      ToldOutput(rs[..n + 1], os[..n], text);
      assert OutcomeAt(rs[n + 1], n + 1) == os[n];
      TellsItems(os[n], text);
    }
  }

  lemma TellsItems(o: Outcome, text: Option<string>)
    requires Allowed(Items(o), text)
    ensures |Items(o)| == if Tells(o, text) then 1 else 0
  {
  }

  lemma GoingIff(o: Outcome, cell: string, text: Option<string>)
    ensures Going(o, cell, text) <==>
            o.yielded.Some? && IsReport(o.yielded.value, cell) && Allowed(Items(o), text)
  {
  }

  lemma EndingIff(o: Outcome, cell: string, text: Option<string>, error: bool)
    ensures Ending(o, cell, text, error) <==>
            o.yielded.None? && o.result.Some? && IsReport(o.result.value, cell) && Allowed(Items(o), text) &&
            if error then o.result.value.problem.Expected? else o.result.value.problem.NoProblem?
  {
  }

  /** One report: what the probe reads is what the reply carries. */
  lemma CarriesOutcome(m: Message, j: nat, o: Outcome)
    requires j >= 1
    ensures Carries(m, j, o) ==> OutcomeAt(m, j) == o
    ensures m.Reply? && o == OutcomeAt(m, j) && o != SILENCE ==> Carries(m, j, o)
  {
  }

  lemma HeardIff(m: Message, j: nat, id: nat, cell: string)
    ensures Heard(m, j, id, cell) <==> InTurn(m, j, id, cell)
    ensures Heard(m, j, id, cell) ==> m.Reply?
  {
  }

  /** A whole run is a conversation that the probe accepts. */
  lemma WholeAccepted(rs: seq<Message>, os: seq<Outcome>, id: nat, cell: string, text: Option<string>, error: bool)
    requires WholeRun(rs, os, id, cell, text, error)
    ensures Conversation(rs, cell, text, error) && forall j :: 0 <= j < |rs| ==> Heard(rs[j], j, id, cell)
  {
    hide Output, InTurn, Carries, Heard, Told, OutcomeAt, Ending, Going, Items, Allowed;
    forall j | 0 <= j < |rs|
      ensures Heard(rs[j], j, id, cell)
    {
      HeardIff(rs[j], j, id, cell);
    }
    forall j | 1 <= j < |rs|
      ensures OutcomeAt(rs[j], j) == os[j - 1]
    {
      CarriesOutcome(rs[j], j, os[j - 1]);
    }
    AllAllowed(os, text);
    ToldOutput(rs, os, text);
    forall j | 1 <= j < |rs| - 1
      ensures Going(OutcomeAt(rs[j], j), cell, text)
    {
      GoingIff(os[j - 1], cell, text);
    }
    EndingIff(os[|os| - 1], cell, text, error);
  }

  ghost function Outcomes(rs: seq<Message>): (os: seq<Outcome>)
    ensures |os| == if rs == [] then 0 else |rs| - 1
    ensures forall i :: 0 <= i < |os| ==> os[i] == OutcomeAt(rs[i + 1], i + 1)
  {
    if rs == [] then [] else seq(|rs| - 1, i requires 0 <= i < |rs| - 1 => OutcomeAt(rs[i + 1], i + 1))
  }

  /** And every conversation that it accepts is a whole run. */
  lemma AcceptedWhole(rs: seq<Message>, id: nat, cell: string, text: Option<string>, error: bool)
    requires Conversation(rs, cell, text, error) && forall j :: 0 <= j < |rs| ==> Heard(rs[j], j, id, cell)
    ensures WholeRun(rs, Outcomes(rs), id, cell, text, error)
  {
    hide Output, InTurn, Carries, Heard, Told, OutcomeAt, Ending, Going, Items, Allowed;
    var os := Outcomes(rs);
    EndingIff(os[|os| - 1], cell, text, error);
    forall i | 0 <= i < |os|
      ensures Allowed(Items(os[i]), text) && os[i] != SILENCE
      ensures i < |os| - 1 ==> os[i].yielded.Some? && IsReport(os[i].yielded.value, cell)
    {
      if i < |os| - 1 {
        assert Going(OutcomeAt(rs[i + 1], i + 1), cell, text);
        GoingIff(os[i], cell, text);
      }
    }
    forall j | 0 <= j < |rs|
      ensures InTurn(rs[j], j, id, cell) && (j >= 1 ==> Carries(rs[j], j, os[j - 1]))
    {
      HeardIff(rs[j], j, id, cell);
      if j >= 1 {
        CarriesOutcome(rs[j], j, os[j - 1]);
      }
    }
    ToldOutput(rs, os, text);
    if text.Some? {
      assert Output(os)[0] in Output(os);
    }
  }

  /** The first n messages settle the books, the last of them is a reply, and the replies are a whole run. */
  ghost predicate Says(b: Books, ms: seq<Message>, n: nat, os: seq<Outcome>, id: nat, cell: string,
                       text: Option<string>, error: bool) {
    0 < n <= |ms| && ms[n - 1].Reply? && Settle(b, ms[..n]).Some? &&
    WholeRun(Replies(ms[..n]), os, id, cell, text, error)
  }

  /** An execution succeeds exactly when the messages up to some reply say so. */
  lemma FinishesIff(b: Books, ms: seq<Message>, id: nat, cell: string, text: Option<string>, error: bool)
    ensures Finishes(b, ms, id, cell, text, error) <==>
            exists n: nat, os: seq<Outcome> :: Says(b, ms, n, os, id, cell, text, error)
  {
    hide Settle, Replies, WholeRun, Conversation, Heard;
    if n: nat :| Complete(b, ms, n, id, cell, text, error) {
      AcceptedWhole(Replies(ms[..n]), id, cell, text, error);
      NoneAtFirst(ms, n, cell, text, error);
      assert Says(b, ms, n, Outcomes(Replies(ms[..n])), id, cell, text, error);
    }
    if n: nat, os: seq<Outcome> :| Says(b, ms, n, os, id, cell, text, error) {
      WholeAccepted(Replies(ms[..n]), os, id, cell, text, error);
      assert Complete(b, ms, n, id, cell, text, error);
    }
  }

  lemma NoneAtFirst(ms: seq<Message>, n: nat, cell: string, text: Option<string>, error: bool)
    requires n <= |ms| && Conversation(Replies(ms[..n]), cell, text, error)
    ensures n > 0
  {
  }

  /** An execution that is left running is one whose first report has no output. */
  lemma BegunIff(b: Books, ms: seq<Message>, n: nat, id: nat, cell: string)
    ensures Begun(b, ms, n, id, cell) <==>
            0 < n <= |ms| && ms[n - 1].Reply? && Settle(b, ms[..n]).Some? &&
            var rs := Replies(ms[..n]);
            |rs| == 2 && InTurn(rs[0], 0, id, cell) && InTurn(rs[1], 1, id, cell) &&
            var body := rs[1].value.value.outcome.yielded;
            body.Some? && IsReport(body.value, cell) && body.value.items == Some([])
  {
    hide Settle, Replies;
    if n <= |ms| && |Replies(ms[..n])| == 2 {
      var rs := Replies(ms[..n]);
      assert (forall j :: 0 <= j < |rs| ==> Heard(rs[j], j, id, cell)) <==>
             Heard(rs[0], 0, id, cell) && Heard(rs[1], 1, id, cell);
      HeardIff(rs[0], 0, id, cell);
      HeardIff(rs[1], 1, id, cell);
      NoneYet(ms, n);
    }
  }

  lemma NoneYet(ms: seq<Message>, n: nat)
    requires n <= |ms| && |Replies(ms[..n])| == 2
    ensures n > 0
  {
  }

  /** The shortest run, spelled out: started, and ended at once with the expected output and error. */
  lemma AtOnce(b: Books, id: nat, cell: string, text: Option<string>, error: bool, session: Option<string>,
               o: Outcome, v: Value)
    requires v.outcome.yielded.None? && v.outcome.result.Some? && v.outcome.result.value.cell == Some(cell)
    requires v.outcome.result.value.timed
    requires v.outcome.result.value.items == Some(if text.Some? then [Item(text)] else [])
    requires v.outcome.result.value.problem == if error then Expected else NoProblem
    ensures var started := Value("execution/started", session, Some(cell), o, None, None);
            var ms := [Reply("operation/response", Some(id + 1), true, Some(started)),
                       Reply("execute/initialResponse", Some(id + 1), true, Some(v))];
            Finishes(b, ms, id, cell, text, error)
  {
    var started := Value("execution/started", session, Some(cell), o, None, None);
    var ms := [Reply("operation/response", Some(id + 1), true, Some(started)),
               Reply("execute/initialResponse", Some(id + 1), true, Some(v))];
    assert ms[..2] == ms && ms[..2][..1] == ms[..1] && ms[..1][..0] == [];
    assert Replies(ms[..0]) == [] && Settle(b, ms[..0]) == Some(b);
    OneReply(b, ms, 0);
    OneReply(b, ms, 1);
    assert [v.outcome][..0] == [];
    assert Output([v.outcome]) == Output([]) + Items(v.outcome);
    assert Says(b, ms, 2, [v.outcome], id, cell, text, error);
    FinishesIff(b, ms, id, cell, text, error);
  }

  // ---- what is answered without being asked ----

  /** Among accepted messages every tool call is the one call of `echo` with 42, made by the newest cell of this
      session in the stage that offers the tool, and every closing is of a cell of this session. */
  lemma {:induction false} AcceptedMessages(b: Books, ms: seq<Message>, i: nat)
    requires Settle(b, ms).Some? && i < |ms|
    ensures ms[i].Delegate? ==>
              b.stage == "promises-tool" && b.cells != [] && ms[i].session == Some("pedigree-qualification") &&
              ms[i].call == Call("tool/invoke", Some(b.cells[|b.cells| - 1]), "function", "echo", true, "42", true)
    ensures ms[i].Closed? ==>
              ms[i].session == Some("pedigree-qualification") && ms[i].cell.Some? && ms[i].cell.value in b.cells
  {
    var n := |ms| - 1;
    EveryClosingBooked(b, ms[..n]);
    if i < n {
      AcceptedMessages(b, ms[..n], i);
    }
  }

  /** Cells are numbered from one. */
  lemma CellNumber(k: nat)
    requires k < MAX_CELLS
    ensures CellName(k) == Decimal(k + 1)
  {
    assert Decimal(k + 1) == [((k + 1) as char) + '0'];
  }
}
