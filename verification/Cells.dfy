/** The conversation with the code-mode host: cells started and closed, the one tool call, and output told once. */
module Cells {
  import opened Options

  const SESSION := "pedigree-qualification"
  const MAX_CELLS: nat := 8

  // ---- what arrives, as the probe's field lookups see it ----

  datatype Problem = NoProblem | Expected | OtherProblem

  /** An output item; the text is absent unless it is an input_text item. */
  datatype Item = Item(text: Option<string>)

  /** A runtime report; the items are absent unless they are an array. */
  datatype Body = Body(cell: Option<string>, items: Option<seq<Item>>, timed: bool, problem: Problem)

  datatype Outcome = Outcome(yielded: Option<Body>, result: Option<Body>)

  datatype Value = Value(kind: string, session: Option<string>, cell: Option<string>, outcome: Outcome,
                         live: Option<Outcome>, missing: Option<Outcome>)

  datatype Call = Call(kind: string, cell: Option<string>, toolKind: string, name: string, nullNamespace: bool,
                       argument: string, integerId: bool)

  datatype Message =
    | Closed(session: Option<string>, cell: Option<string>)
    | Delegate(session: Option<string>, call: Call)
    | Reply(kind: string, id: Option<nat>, fine: bool, value: Option<Value>)

  // ---- the books kept about asynchronous messages ----

  datatype Books = Books(stage: string, cells: seq<string>, closings: seq<string>, toolCalls: nat)

  predicate Echo(call: Call, cell: string) {
    call.kind == "tool/invoke" && call.cell == Some(cell) && call.toolKind == "function" && call.name == "echo" &&
    call.nullNamespace && call.argument == "42" && call.integerId
  }

  /** A cell may be closed once; the one tool call is the newest cell's, in its own stage. */
  predicate Welcome(b: Books, m: Message) {
    match m
    case Closed(session, cell) =>
      session == Some(SESSION) && cell.Some? && cell.value in b.cells && cell.value !in b.closings
    case Delegate(session, call) =>
      b.stage == "promises-tool" && b.toolCalls == 0 && session == Some(SESSION) && b.cells != [] &&
      Echo(call, b.cells[|b.cells| - 1])
    case Reply(_, _, _, _) => true
  }

  function Book(b: Books, m: Message): Books
    requires Welcome(b, m)
  {
    match m
    case Closed(_, cell) => b.(closings := b.closings + [cell.value])
    case Delegate(_, _) => b.(toolCalls := b.toolCalls + 1)
    case Reply(_, _, _, _) => b
  }

  /** The books after all these messages, unless one is unwelcome. */
  ghost function Settle(b: Books, ms: seq<Message>): Option<Books> {
    if ms == [] then Some(b)
    else
      var before := Settle(b, ms[..|ms| - 1]);
      if before.Some? && Welcome(before.value, ms[|ms| - 1]) then Some(Book(before.value, ms[|ms| - 1])) else None
  }

  ghost function Replies(ms: seq<Message>): seq<Message> {
    if ms == [] then []
    else Replies(ms[..|ms| - 1]) + if ms[|ms| - 1].Reply? then [ms[|ms| - 1]] else []
  }

  ghost function Closings(ms: seq<Message>): seq<string> {
    if ms == [] then []
    else Closings(ms[..|ms| - 1]) +
         if ms[|ms| - 1].Closed? && ms[|ms| - 1].cell.Some? then [ms[|ms| - 1].cell.value] else []
  }

  /** The books never miss a closing. */
  lemma {:induction false} EveryClosingBooked(b: Books, ms: seq<Message>)
    requires Settle(b, ms).Some?
    ensures Settle(b, ms).value.closings == b.closings + Closings(ms)
    ensures Settle(b, ms).value.cells == b.cells && Settle(b, ms).value.stage == b.stage
  {
    if ms != [] {
      EveryClosingBooked(b, ms[..|ms| - 1]);
    }
  }

  /** One tool call at most is ever answered. */
  lemma {:induction false} OneToolCall(b: Books, ms: seq<Message>)
    requires Settle(b, ms).Some? && b.toolCalls <= 1
    ensures Settle(b, ms).value.toolCalls <= 1
    ensures Settle(b, ms).value.toolCalls == b.toolCalls + |Delegates(ms)|
  {
    if ms != [] {
      OneToolCall(b, ms[..|ms| - 1]);
    }
  }

  ghost function Delegates(ms: seq<Message>): seq<Message> {
    if ms == [] then []
    else Delegates(ms[..|ms| - 1]) + if ms[|ms| - 1].Delegate? then [ms[|ms| - 1]] else []
  }

  lemma {:induction false} SettleAdd(b: Books, xs: seq<Message>, ys: seq<Message>)
    ensures Settle(b, xs + ys) ==
            (if Settle(b, xs).Some? then Settle(Settle(b, xs).value, ys) else None)
    ensures Replies(xs + ys) == Replies(xs) + Replies(ys)
    decreases ys
  {
    if ys == [] {
      assert xs + ys == xs;
    } else {
      var all, last := xs + ys, ys[|ys| - 1];
      assert all[..|all| - 1] == xs + ys[..|ys| - 1] && all[|all| - 1] == last;
      SettleAdd(b, xs, ys[..|ys| - 1]);
    }
  }

  // ---- the mask of closed cells ----

  function Bit(i: nat): bv32
    requires i < MAX_CELLS
  {
    1 << i
  }

  function Mask(n: nat): bv32
    requires n <= MAX_CELLS
  {
    (1 << n) - 1
  }

  predicate IsSet(m: bv32, i: nat)
    requires i < MAX_CELLS
  {
    m & Bit(i) != 0
  }

  function With(m: bv32, i: nat): bv32
    requires i < MAX_CELLS
  {
    m | Bit(i)
  }

  ghost predicate Within(m: bv32, n: nat)
    requires n <= MAX_CELLS
  {
    m & Mask(n) == m
  }

  lemma SetBit(m: bv32, i: nat, j: nat)
    requires i < MAX_CELLS && j < MAX_CELLS
    ensures IsSet(With(m, i), j) <==> i == j || IsSet(m, j)
  {
    Disjunction(m, i, j);
  }

  lemma Disjunction(m: bv32, i: nat, j: nat)
    requires i < MAX_CELLS && j < MAX_CELLS
    ensures (m | Bit(i)) & Bit(j) != 0 <==> i == j || m & Bit(j) != 0
  {
  }

  lemma WithinMask(m: bv32, i: nat, n: nat)
    requires i < n <= MAX_CELLS && Within(m, n)
    ensures Within(With(m, i), n)
  {
  }

  lemma MaskGrows(m: bv32, n: nat)
    requires n < MAX_CELLS && Within(m, n)
    ensures Within(m, n + 1) && !IsSet(m, n)
  {
  }

  lemma MaskFull(m: bv32, n: nat)
    requires n <= MAX_CELLS && Within(m, n)
    ensures m == Mask(n) <==> forall i :: 0 <= i < n ==> IsSet(m, i)
  {
    var a, b, c, d := 0 < n ==> IsSet(m, 0), 1 < n ==> IsSet(m, 1), 2 < n ==> IsSet(m, 2), 3 < n ==> IsSet(m, 3);
    var e, f, g, h := 4 < n ==> IsSet(m, 4), 5 < n ==> IsSet(m, 5), 6 < n ==> IsSet(m, 6), 7 < n ==> IsSet(m, 7);
    assert a && b && c && d && e && f && g && h <==> m == Mask(n);
  }

  /** The id of the k-th cell of a fresh session. */
  function CellName(k: nat): string
    requires k < MAX_CELLS
  {
    ["12345678"[k]]
  }

  ghost predicate Distinct(names: seq<string>) {
    forall i, j :: 0 <= i < j < |names| ==> names[i] != names[j]
  }

  ghost predicate Numbered(cells: seq<string>) {
    |cells| <= MAX_CELLS && forall k :: 0 <= k < |cells| ==> cells[k] == CellName(k)
  }

  /** The mask says which cells were closed, each once. */
  ghost predicate Marked(closed: bv32, cells: seq<string>, closings: seq<string>)
    requires |cells| <= MAX_CELLS
  {
    Within(closed, |cells|) && Distinct(closings) && (forall c :: c in closings ==> c in cells) &&
    forall k :: 0 <= k < |cells| ==> (IsSet(closed, k) <==> cells[k] in closings)
  }

  lemma Mark(closed: bv32, cells: seq<string>, closings: seq<string>, i: nat)
    requires Numbered(cells) && Marked(closed, cells, closings) && i < |cells| && cells[i] !in closings
    ensures Marked(With(closed, i), cells, closings + [cells[i]])
  {
    hide With, IsSet, Within, Mask;
    WithinMask(closed, i, |cells|);
    forall k | 0 <= k < |cells|
      ensures IsSet(With(closed, i), k) <==> cells[k] in closings + [cells[i]]
    {
      SetBit(closed, i, k);
      assert k != i ==> CellName(k) != CellName(i);
    }
  }

  lemma MarkNone(cells: seq<string>, name: string, closed: bv32, closings: seq<string>)
    requires Numbered(cells + [name]) && Marked(closed, cells, closings)
    ensures Marked(closed, cells + [name], closings)
  {
    hide With, IsSet, Within, Numbered;
    var more := cells + [name];
    NewName(cells, name);
    MaskGrows(closed, |cells|);
    forall k | 0 <= k < |more|
      ensures IsSet(closed, k) <==> more[k] in closings
    {
      if k < |cells| {
        assert more[k] == cells[k];
      }
    }
  }

  lemma NewName(cells: seq<string>, name: string)
    requires Numbered(cells + [name])
    ensures name !in cells && Numbered(cells) && |cells| < MAX_CELLS
  {
    var more := cells + [name];
    assert more[|cells|] == name;
    assert forall j :: 0 <= j < |cells| ==> more[j] == cells[j];
  }

  lemma NewCell(cells: seq<string>)
    requires Numbered(cells) && |cells| < MAX_CELLS
    ensures Numbered(cells + [CellName(|cells|)])
  {
  }

  lemma Held(closed: bv32, cells: seq<string>, closings: seq<string>, k: nat)
    requires |cells| <= MAX_CELLS && Marked(closed, cells, closings) && k < |cells|
    ensures IsSet(closed, k) <==> cells[k] in closings
  {
    hide With, IsSet, Within, Mask;
  }

  /** The mask is full exactly when every cell was closed once. */
  lemma MarkAll(closed: bv32, cells: seq<string>, closings: seq<string>)
    requires Numbered(cells) && Marked(closed, cells, closings)
    ensures closed == Mask(|cells|) <==> multiset(closings) == multiset(cells)
  {
    hide With, IsSet, Within, Mask;
    MaskFull(closed, |cells|);
    ClosedOnce(cells, closings);
    assert (forall c :: c in cells ==> c in closings) <==> forall k :: 0 <= k < |cells| ==> cells[k] in closings;
  }

  /** Distinct closings of existing cells that cover every cell close each exactly once. */
  lemma {:induction false} ClosedOnce(cells: seq<string>, closings: seq<string>)
    requires Distinct(cells) && Distinct(closings)
    requires forall c :: c in closings ==> c in cells
    ensures (forall c :: c in cells ==> c in closings) <==> multiset(closings) == multiset(cells)
  {
    OnceEach(cells);
    OnceEach(closings);
    if multiset(closings) == multiset(cells) {
      assert forall c :: c in cells ==> c in multiset(cells) && c in multiset(closings);
    }
    if forall c :: c in cells ==> c in closings {
      assert forall c :: multiset(closings)[c] == multiset(cells)[c];
    }
  }

  lemma {:induction false} OnceEach(names: seq<string>)
    requires Distinct(names)
    ensures forall c :: multiset(names)[c] == if c in names then 1 else 0
  {
    if names != [] {
      var n := |names| - 1;
      OnceEach(names[..n]);
      assert names == names[..n] + [names[n]];
    }
  }

  // ---- what an execution's replies must say ----

  /** A report of this cell with no output, or with exactly the expected text. */
  predicate Reports(body: Option<Body>, cell: string, text: Option<string>) {
    body.Some? && body.value.cell == Some(cell) && body.value.timed &&
    body.value.items == Some(if text.Some? then [Item(text)] else [])
  }

  /** The final report also says whether the source failed as expected. */
  predicate Concludes(body: Option<Body>, cell: string, text: Option<string>, error: bool) {
    Reports(body, cell, text) && body.value.problem == (if error then Expected else NoProblem)
  }

  predicate Matches(m: Message, kind: string, id: nat) {
    m.Reply? && m.kind == kind && (id != 0 ==> m.id == Some(id) && m.fine && m.value.Some?)
  }

  predicate Answers(m: Message, kind: string, id: nat)
    requires id != 0
  {
    Matches(m, "operation/response", id) && m.value.value.kind == kind
  }

  /** What the j-th reply of an execution must be: the first two start it and report first. */
  predicate Heard(m: Message, j: nat, id: nat, cell: string) {
    if j == 0 then Answers(m, "execution/started", id + 1) && m.value.value.cell == Some(cell)
    else if j == 1 then Matches(m, "execute/initialResponse", id + 1)
    else Answers(m, "wait/completed", id + j)
  }

  const SILENCE := Outcome(None, None)

  function OutcomeAt(m: Message, j: nat): Outcome {
    if !m.Reply? || m.value.None? then SILENCE
    else if j == 1 then m.value.value.outcome
    else WaitOutcome(m.value.value)
  }

  function WaitOutcome(v: Value): Outcome {
    if v.live.Some? then v.live.value else if v.missing.Some? then v.missing.value else SILENCE
  }

  predicate Going(o: Outcome, cell: string, text: Option<string>) {
    o.yielded.Some? && (Reports(o.yielded, cell, None) || (text.Some? && Reports(o.yielded, cell, text)))
  }

  predicate Ending(o: Outcome, cell: string, text: Option<string>, error: bool) {
    o.yielded.None? && (Concludes(o.result, cell, None, error) || (text.Some? &&
    Concludes(o.result, cell, text, error)))
  }

  /** Whether this outcome's report carries the text. */
  predicate Tells(o: Outcome, text: Option<string>) {
    var body := if o.yielded.Some? then o.yielded else o.result;
    text.Some? && body.Some? && body.value.items == Some([Item(text)])
  }

  /** How many of the replies carried the text. */
  ghost function Told(rs: seq<Message>, text: Option<string>): nat {
    if |rs| <= 1 then 0
    else Told(rs[..|rs| - 1], text) + if Tells(OutcomeAt(rs[|rs| - 1], |rs| - 1), text) then 1 else 0
  }

  /** The first n messages settle the books, and their replies are what an execution waits for. */
  ghost predicate Hears(b: Books, ms: seq<Message>, n: nat, id: nat, cell: string) {
    n <= |ms| && (n == 0 || ms[n - 1].Reply?) && Settle(b, ms[..n]).Some? &&
    forall j :: 0 <= j < |Replies(ms[..n])| ==> Heard(Replies(ms[..n])[j], j, id, cell)
  }

  ghost predicate AllGoing(rs: seq<Message>, cell: string, text: Option<string>) {
    forall j :: 1 <= j < |rs| - 1 ==> Going(OutcomeAt(rs[j], j), cell, text)
  }

  /** Reports that the cell goes on, then one that it ended as it should, and the text in exactly one of them. */
  ghost predicate Conversation(rs: seq<Message>, cell: string, text: Option<string>, error: bool) {
    |rs| >= 2 && AllGoing(rs, cell, text) && Ending(OutcomeAt(rs[|rs| - 1], |rs| - 1), cell, text, error) &&
    Told(rs, text) == if text.Some? then 1 else 0
  }

  ghost predicate Complete(b: Books, ms: seq<Message>, n: nat, id: nat, cell: string, text: Option<string>,
                           error: bool) {
    Hears(b, ms, n, id, cell) && Conversation(Replies(ms[..n]), cell, text, error)
  }

  /** An execution that is left running has only reported, without output. */
  ghost predicate Begun(b: Books, ms: seq<Message>, n: nat, id: nat, cell: string) {
    Hears(b, ms, n, id, cell) && |Replies(ms[..n])| == 2 &&
    Reports(OutcomeAt(Replies(ms[..n])[1], 1).yielded, cell, None)
  }

  // ---- where the replies are ----

  ghost function Lead(ms: seq<Message>): (n: nat)
    ensures n <= |ms| && (n < |ms| ==> ms[n].Reply?) && forall i :: 0 <= i < n ==> !ms[i].Reply?
  {
    if ms == [] || ms[0].Reply? then 0 else 1 + Lead(ms[1..])
  }

  lemma {:induction false} NoReplies(ms: seq<Message>)
    requires forall i :: 0 <= i < |ms| ==> !ms[i].Reply?
    ensures Replies(ms) == []
  {
    if ms != [] {
      NoReplies(ms[..|ms| - 1]);
    }
  }

  /** The next reply after the first c messages. */
  lemma NextReply(b: Books, ms: seq<Message>, c: nat)
    requires c <= |ms|
    ensures var k := c + Lead(ms[c..]);
            Replies(ms[..k]) == Replies(ms[..c]) && (k < |ms| ==> Replies(ms[..k + 1]) == Replies(ms[..c]) + [ms[k]])
    ensures var k := c + Lead(ms[c..]);
            Settle(b, ms[..k]) == (if Settle(b, ms[..c]).Some? then Settle(Settle(b, ms[..c]).value,
            ms[c..k]) else None) &&
            (k < |ms| ==> Settle(b, ms[..k + 1]) == Settle(b, ms[..k]))
  {
    hide Settle, Replies;
    var k := c + Lead(ms[c..]);
    assert forall i :: c <= i < k ==> ms[i] == ms[c..][i - c];
    NoReplies(ms[c..k]);
    assert ms[..k] == ms[..c] + ms[c..k];
    SettleAdd(b, ms[..c], ms[c..k]);
    if k < |ms| {
      assert ms[k] == ms[c..][k - c];
      OneReply(b, ms, k);
    }
  }

  lemma OneReply(b: Books, ms: seq<Message>, k: nat)
    requires k < |ms| && ms[k].Reply?
    ensures Settle(b, ms[..k + 1]) == Settle(b, ms[..k]) && Replies(ms[..k + 1]) == Replies(ms[..k]) + [ms[k]]
  {
    assert ms[..k + 1][..k] == ms[..k];
  }

  /** More replies are read only past the next one. */
  lemma PastNext(b: Books, ms: seq<Message>, c: nat, n: nat)
    requires c < n <= |ms| && ms[n - 1].Reply?
    ensures var k := c + Lead(ms[c..]);
            k < n && Replies(ms[..k + 1]) <= Replies(ms[..n]) &&
            (Settle(b, ms[..n]).Some? ==> Settle(b, ms[..k + 1]).Some?)
  {
    var k := c + Lead(ms[c..]);
    assert ms[n - 1] == ms[c..][n - 1 - c];
    assert ms[..n] == ms[..k + 1] + ms[k + 1..n];
    SettleAdd(b, ms[..k + 1], ms[k + 1..n]);
  }

  lemma {:induction false} ToldGrows(few: seq<Message>, many: seq<Message>, text: Option<string>)
    requires few <= many
    ensures Told(few, text) <= Told(many, text)
    decreases |many|
  {
    if |few| < |many| {
      ToldGrows(few, many[..|many| - 1], text);
    } else {
      assert few == many;
    }
  }

  lemma SettleShort(b: Books, ms: seq<Message>, c: nat, n: nat)
    requires c <= n <= |ms| && Settle(b, ms[..c]).None?
    ensures Settle(b, ms[..n]).None?
  {
    assert ms[..n] == ms[..c] + ms[c..n];
    SettleAdd(b, ms[..c], ms[c..n]);
  }

  ghost predicate Finishes(b: Books, ms: seq<Message>, id: nat, cell: string, text: Option<string>, error: bool) {
    exists n: nat :: Complete(b, ms, n, id, cell, text, error)
  }

  ghost predicate NonePast(b: Books, ms: seq<Message>, c: nat, id: nat, cell: string) {
    forall n: nat | Hears(b, ms, n, id, cell) :: n <= c
  }

  /** One more reply is heard, or no run goes past these. */
  lemma HearsNext(b: Books, ms: seq<Message>, c: nat, k: nat, id: nat, cell: string, kept: Books)
    requires Hears(b, ms, c, id, cell) && k == c + Lead(ms[c..]) && Settle(b, ms[..c]) == Some(kept)
    ensures k <= |ms| && k - c == Lead(ms[c..])
    ensures if k < |ms| && Settle(kept, ms[c..][..k - c]).Some? && Heard(ms[c..][k - c], |Replies(ms[..c])|, id, cell)
            then Hears(b, ms, k + 1, id, cell) && Replies(ms[..k + 1]) == Replies(ms[..c]) + [ms[c..][k - c]] &&
                 Settle(b, ms[..k + 1]) == Settle(kept, ms[c..][..k - c]) && ms[c..][k - c + 1..] == ms[k + 1..]
            else NonePast(b, ms, c, id, cell)
  {
    assert c <= |ms|;
    hide Replies, Settle, Heard, Hears, Lead, NonePast;
    if k < |ms| && Settle(kept, ms[c..][..k - c]).Some? && Heard(ms[c..][k - c], |Replies(ms[..c])|, id, cell) {
      HearsMore(b, ms, c, k, id, cell, kept);
    } else {
      HearsNoMore(b, ms, c, k, id, cell, kept);
    }
  }

  lemma HearsMore(b: Books, ms: seq<Message>, c: nat, k: nat, id: nat, cell: string, kept: Books)
    requires Hears(b, ms, c, id, cell) && k == c + Lead(ms[c..]) && Settle(b, ms[..c]) == Some(kept)
    requires k < |ms| && Settle(kept, ms[c..][..k - c]).Some? && Heard(ms[c..][k - c], |Replies(ms[..c])|, id, cell)
    ensures Hears(b, ms, k + 1, id, cell) && Replies(ms[..k + 1]) == Replies(ms[..c]) + [ms[c..][k - c]]
    ensures Settle(b, ms[..k + 1]) == Settle(kept, ms[c..][..k - c]) && ms[c..][k - c + 1..] == ms[k + 1..]
  {
    assert c <= |ms|;
    hide Replies, Settle, Heard, Hears, Lead;
    RestCut(ms, c, k);
    NextReply(b, ms, c);
    HearsOneMore(b, ms, c, k, id, cell);
  }

  lemma HearsNoMore(b: Books, ms: seq<Message>, c: nat, k: nat, id: nat, cell: string, kept: Books)
    requires c <= |ms| && k == c + Lead(ms[c..]) && Settle(b, ms[..c]) == Some(kept)
    requires !(k < |ms| && Settle(kept, ms[c..][..k - c]).Some? && Heard(ms[c..][k - c], |Replies(ms[..c])|, id, cell))
    ensures NonePast(b, ms, c, id, cell)
  {
    hide Replies, Settle, Heard, Lead, Hears;
    RestCut(ms, c, k);
    NextReply(b, ms, c);
    forall n: nat | Hears(b, ms, n, id, cell)
      ensures n <= c
    {
      if n > c {
        HearsEarlier(b, ms, c, n, id, cell);
      }
    }
  }

  lemma RestCut(ms: seq<Message>, c: nat, k: nat)
    requires c <= k <= |ms|
    ensures ms[c..][..k - c] == ms[c..k]
    ensures k < |ms| ==> ms[c..][k - c] == ms[k] && ms[c..][k - c + 1..] == ms[k + 1..]
  {
  }

  lemma HearsOneMore(b: Books, ms: seq<Message>, c: nat, k: nat, id: nat, cell: string)
    requires Hears(b, ms, c, id, cell) && k < |ms| && ms[k].Reply? && Settle(b, ms[..k + 1]).Some?
    requires Replies(ms[..k + 1]) == Replies(ms[..c]) + [ms[k]] && Heard(ms[k], |Replies(ms[..c])|, id, cell)
    ensures Hears(b, ms, k + 1, id, cell)
  {
    hide Replies, Settle, Heard;
  }

  lemma HearsEarlier(b: Books, ms: seq<Message>, c: nat, n: nat, id: nat, cell: string)
    requires c < n && Hears(b, ms, n, id, cell)
    ensures var k := c + Lead(ms[c..]);
            k < |ms| && Settle(b, ms[..k]).Some? && Heard(ms[k], |Replies(ms[..c])|, id, cell)
  {
    hide Replies, Settle, Heard, Lead;
    var k := c + Lead(ms[c..]);
    NextReply(b, ms, c);
    PastNext(b, ms, c, n);
    assert Replies(ms[..n])[|Replies(ms[..c])|] == Replies(ms[..k + 1])[|Replies(ms[..c])|] == ms[k];
  }

  lemma RepliesGrow(b: Books, ms: seq<Message>, c: nat, n: nat)
    requires c < n <= |ms| && ms[n - 1].Reply?
    ensures Replies(ms[..c]) <= Replies(ms[..n]) && |Replies(ms[..c])| < |Replies(ms[..n])|
  {
    hide Replies, Settle, Lead;
    PastNext(b, ms, c, n);
    NextReply(b, ms, c);
  }

  /** Until an ending is heard, a complete run is longer. */
  lemma Longer(b: Books, ms: seq<Message>, c: nat, n: nat, id: nat, cell: string, text: Option<string>, error: bool)
    requires Hears(b, ms, c, id, cell) && Complete(b, ms, n, id, cell, text, error)
    requires |Replies(ms[..c])| >= 2 && AllGoing(Replies(ms[..c]), cell, text)
    ensures var rs := Replies(ms[..c]);
            var o := OutcomeAt(rs[|rs| - 1], |rs| - 1);
            if o.yielded.Some? then n > c && Going(o, cell, text) && Told(rs, text) <= (if text.Some? then 1 else 0)
            else n == c
  {
    hide Replies, Settle, Heard, Told, Reports, OutcomeAt, Concludes;
    var rs, all := Replies(ms[..c]), Replies(ms[..n]);
    if n < c {
      RepliesGrow(b, ms, n, c);
    } else if c < n {
      RepliesGrow(b, ms, c, n);
      assert all[|rs| - 1] == rs[|rs| - 1];
      ToldGrows(rs, all, text);
    }
  }

  lemma StartHeard(b: Books, ms: seq<Message>, id: nat, cell: string)
    ensures Hears(b, ms, 0, id, cell) && Replies(ms[..0]) == [] && Settle(b, ms[..0]) == Some(b)
  {
    assert ms[..0] == [];
  }

  /** Runs that end at different messages have heard different numbers of replies. */
  lemma OneCut(b: Books, ms: seq<Message>, c: nat, n: nat, id: nat, cell: string)
    requires Hears(b, ms, c, id, cell) && Hears(b, ms, n, id, cell)
    ensures n == c || |Replies(ms[..n])| != |Replies(ms[..c])|
    ensures n <= c ==> |Replies(ms[..n])| <= |Replies(ms[..c])|
  {
    hide Replies, Settle, Heard;
    if n < c {
      RepliesGrow(b, ms, n, c);
    } else if c < n {
      RepliesGrow(b, ms, c, n);
    }
  }

  /** When no run goes past these replies, fewer than two is too few for any. */
  lemma TooFew(b: Books, ms: seq<Message>, c: nat, id: nat, cell: string)
    requires Hears(b, ms, c, id, cell) && |Replies(ms[..c])| < 2
    requires NonePast(b, ms, c, id, cell)
    ensures forall n: nat | Hears(b, ms, n, id, cell) :: |Replies(ms[..n])| < 2
  {
    hide Replies, Settle, Heard;
    forall n: nat | Hears(b, ms, n, id, cell)
      ensures |Replies(ms[..n])| < 2
    {
      OneCut(b, ms, c, n, id, cell);
    }
  }

  /** The replies so far only say that the cell goes on; the last of them is still to be judged. */
  ghost predicate Talking(rs: seq<Message>, outcome: Outcome, cell: string, text: Option<string>, seen: bool) {
    |rs| >= 2 && AllGoing(rs, cell, text) && outcome == OutcomeAt(rs[|rs| - 1], |rs| - 1) &&
    Told(rs[..|rs| - 1], text) == (if seen then 1 else 0) && (seen ==> text.Some?)
  }

  lemma TalkBegins(rs: seq<Message>, cell: string, text: Option<string>)
    requires |rs| == 2
    ensures Talking(rs, OutcomeAt(rs[1], 1), cell, text, false)
  {
  }

  lemma TalkMore(rs: seq<Message>, m: Message, outcome: Outcome, cell: string, text: Option<string>, seen: bool,
                 now: bool)
    requires Talking(rs, outcome, cell, text, seen) && Going(outcome, cell, text) && (now ==> text.Some?)
    requires Told(rs, text) == if now then 1 else 0
    ensures Talking(rs + [m], OutcomeAt(m, |rs|), cell, text, now)
  {
    hide Told, Going, OutcomeAt;
    assert (rs + [m])[..|rs|] == rs;
  }

  /** The last reply says the cell goes on: a complete run is longer, and it accepts this report. */
  lemma GoesOn(b: Books, ms: seq<Message>, c: nat, id: nat, cell: string, text: Option<string>, error: bool, seen: bool,
               outcome: Outcome)
    requires Hears(b, ms, c, id, cell) && Talking(Replies(ms[..c]), outcome, cell, text, seen) && outcome.yielded.Some?
    ensures var quiet := Reports(outcome.yielded, cell, None);
            var fine := quiet || (text.Some? && !seen && Reports(outcome.yielded, cell, text));
            (fine ==>
               Told(Replies(ms[..c]), text) == (if seen || !quiet then 1 else 0) && Going(outcome, cell, text)) &&
            (Finishes(b, ms, id, cell, text, error) ==> fine && !NonePast(b, ms, c, id, cell))
  {
    assert c <= |ms|;
    hide Replies, Settle, Heard, OutcomeAt, Complete, AllGoing;
    forall n: nat | Complete(b, ms, n, id, cell, text, error)
      ensures n > c && Hears(b, ms, n, id, cell)
      ensures Going(outcome, cell, text) && Told(Replies(ms[..c]), text) <= (if text.Some? then 1 else 0)
    {
      Longer(b, ms, c, n, id, cell, text, error);
      Heeded(b, ms, n, id, cell, text, error);
    }
  }

  lemma Heeded(b: Books, ms: seq<Message>, n: nat, id: nat, cell: string, text: Option<string>, error: bool)
    requires Complete(b, ms, n, id, cell, text, error)
    ensures Hears(b, ms, n, id, cell)
  {
  }

  /** The last reply says the cell ended: the run is complete now or never. */
  lemma Ends(b: Books, ms: seq<Message>, c: nat, id: nat, cell: string, text: Option<string>, error: bool, seen: bool,
             outcome: Outcome)
    requires Hears(b, ms, c, id, cell) && Talking(Replies(ms[..c]), outcome, cell, text, seen) && outcome.yielded.None?
    ensures var quiet := Concludes(outcome.result, cell, None, error);
            var fine := quiet || (text.Some? && !seen && Concludes(outcome.result, cell, text, error));
            Finishes(b, ms, id, cell, text, error) <==>
            fine && (text.Some? ==> seen || !quiet)
  {
    assert c <= |ms|;
    hide Replies, Settle, Heard, OutcomeAt, Hears, AllGoing;
    forall n: nat | Complete(b, ms, n, id, cell, text, error)
      ensures n == c
    {
      Longer(b, ms, c, n, id, cell, text, error);
    }
    assert Finishes(b, ms, id, cell, text, error) <==> Complete(b, ms, c, id, cell, text, error);
  }

  lemma Believe(rs: seq<Message>, outcome: Outcome, cell: string, text: Option<string>, seen: bool)
    requires Talking(rs, outcome, cell, text, seen)
    ensures |rs| >= 2 && (seen ==> text.Some?)
  {
  }

  class Probe {
    var stage: string
    var cells: seq<string>
    var closed: bv32
    var toolCalls: nat
    var requestId: nat
    /** What the host sends from now on. */
    var incoming: seq<Message>
    /** The cells whose closing was accepted, in order. */
    ghost var closings: seq<string>

    constructor (stage: string, incoming: seq<Message>)
      ensures Valid() && cells == [] && closings == [] && toolCalls == 0 && requestId == 0
      ensures this.stage == stage && this.incoming == incoming
    {
      this.stage, this.incoming := stage, incoming;
      cells, closed, toolCalls, requestId, closings := [], 0, 0, 0, [];
    }

    ghost predicate Valid()
      reads this`cells, this`closed, this`closings
    {
      Numbered(cells) && Marked(closed, cells, closings)
    }

    ghost function Kept(): Books
      reads this`stage, this`cells, this`closings, this`toolCalls
    {
      Books(stage, cells, closings, toolCalls)
    }

    /** -1 for an unwelcome message, 1 for one that is dealt with, 0 for a reply. */
    method AsyncMessage(m: Message) returns (handled: int)
      requires Valid()
      modifies this`closed, this`closings, this`toolCalls
      ensures Valid() && -1 <= handled <= 1
      ensures handled >= 0 <==> Welcome(old(Kept()), m)
      ensures (handled == 0 <==> m.Reply?) && (handled == 0 ==> Kept() == old(Kept()))
      ensures Kept() == if handled >= 0 then Book(old(Kept()), m) else old(Kept())
    {
      hide Marked, Numbered, Echo;
      match m
      case Closed(session, cell) =>
        if session != Some(SESSION) {
          return -1;
        }
        for i := 0 to |cells|
          invariant cell.Some? ==> cell.value !in cells[..i]
        {
          if cell == Some(cells[i]) {
            var first := CloseCell(i);
            return if first then 1 else -1;
          }
        }
        assert cells[..|cells|] == cells;
        handled := -1;
      case Delegate(session, call) =>
        if stage != "promises-tool" || toolCalls != 0 || session != Some(SESSION) || cells == [] ||
           !Echo(call, cells[|cells| - 1]) {
          return -1;
        }
        toolCalls := toolCalls + 1;
        handled := 1;
      case Reply(_, _, _, _) =>
        handled := 0;
    }

    method CloseCell(i: nat) returns (first: bool)
      requires Valid() && i < |cells|
      modifies this`closed, this`closings
      ensures Valid() && (first <==> cells[i] !in old(closings))
      ensures closings == if first then old(closings) + [cells[i]] else old(closings)
    {
      hide With, IsSet, Marked;
      Held(closed, cells, closings, i);
      if IsSet(closed, i) {
        return false;
      }
      Mark(closed, cells, closings, i);
      closings := closings + [cells[i]];
      closed := With(closed, i);
      first := true;
    }

    /** Deals with messages until a reply, which must be the expected one. */
    method Receive(kind: string, id: nat) returns (ok: bool, reply: Message)
      requires Valid()
      modifies this`closed, this`closings, this`toolCalls, this`incoming
      ensures Valid()
      ensures var ms, k := old(incoming), Lead(old(incoming));
              (ok <==> k < |ms| && Settle(old(Kept()), ms[..k]).Some? && Matches(ms[k], kind, id)) &&
              (ok ==> reply == ms[k] && incoming == ms[k + 1..] && Some(Kept()) == Settle(old(Kept()), ms[..k]))
    {
      hide Marked, Numbered, Matches, Welcome, Book;
      ghost var c: nat, ms, b := 0, incoming, Kept();
      while incoming != []
        invariant Valid() && c <= Lead(ms) && incoming == ms[c..] && Settle(b, ms[..c]) == Some(Kept())
        decreases |incoming|
      {
        reply := incoming[0];
        incoming := incoming[1..];
        assert ms[..c + 1][..c] == ms[..c];
        var handled := AsyncMessage(reply);
        if handled < 0 {
          SettleShort(b, ms, c + 1, Lead(ms));
          return false, reply;
        }
        if handled == 0 {
          ok := Matches(reply, kind, id);
          return;
        }
        c := c + 1;
      }
      ok, reply := false, Reply("", None, false, None);
    }

    method Request(kind: string) returns (ok: bool, value: Value)
      requires Valid()
      modifies this`closed, this`closings, this`toolCalls, this`incoming, this`requestId
      ensures Valid() && requestId == old(requestId) + 1
      ensures var ms, k := old(incoming), Lead(old(incoming));
              (ok <==> k < |ms| && Settle(old(Kept()), ms[..k]).Some? && Answers(ms[k], kind, requestId)) &&
              (ok ==> value == ms[k].value.value && incoming == ms[k + 1..] &&
                      Some(Kept()) == Settle(old(Kept()), ms[..k]))
    {
      hide Marked, Numbered, Settle;
      requestId := requestId + 1;
      var reply;
      ok, reply := Receive("operation/response", requestId);
      if ok && reply.value.value.kind == kind {
        value := reply.value.value;
      } else {
        ok, value := false, Value("", None, None, SILENCE, None, None);
      }
    }
 
    /** The books, what was heard, and what is still to come fit together. */
    ghost predicate Follows(b: Books, ms: seq<Message>, c: nat, id: nat, cell: string)
      reads this`stage, this`cells, this`closings, this`toolCalls, this`incoming
    {
      Hears(b, ms, c, id, cell) && incoming == ms[c..] && Settle(b, ms[..c]) == Some(Kept())
    }

    /** Starts a cell, and hears its first report. */
    method Start(ghost b: Books, ghost ms: seq<Message>, ghost id: nat)
      returns (ok: bool, outcome: Outcome, ghost c: nat)
      requires Valid() && |cells| < MAX_CELLS && ms == incoming && id == requestId
      requires b == Kept().(cells := cells + [CellName(|cells|)])
      modifies this`cells, this`closed, this`closings, this`toolCalls, this`incoming, this`requestId
      ensures Valid() && cells == b.cells && requestId == id + 1 && c <= |ms|
      ensures var cell := cells[|cells| - 1];
              if ok
              then Follows(b, ms, c, id, cell) && |Replies(ms[..c])| == 2 &&
                   outcome == OutcomeAt(Replies(ms[..c])[1], 1)
              else forall n: nat | Hears(b, ms, n, id, cell) :: |Replies(ms[..n])| < 2
    {
      hide Numbered, Marked, Settle, Replies, Lead, Hears;
      c, outcome := 0, SILENCE;
      ghost var cell := CellName(|cells|);
      NewCell(cells);
      MarkNone(cells, cell, closed, closings);
      cells := cells + [CellName(|cells|)];
      StartHeard(b, ms, id, cell);
      assert ms[0..] == ms;
      ghost var k := Lead(ms);
      HearsNext(b, ms, 0, k, id, cell, Kept());
      var value;
      ok, value := Request("execution/started");
      if !ok || value.cell != Some(cells[|cells| - 1]) {
        TooFew(b, ms, 0, id, cell);
        return false, SILENCE, 0;
      }
      c := k + 1;
      ok, outcome, c := FirstReport(b, ms, c, id, cell);
    }

    method FirstReport(ghost b: Books, ghost ms: seq<Message>, ghost started: nat, ghost id: nat, ghost cell: string)
      returns (ok: bool, outcome: Outcome, ghost c: nat)
      requires Valid() && Follows(b, ms, started, id, cell) && |Replies(ms[..started])| == 1 && requestId == id + 1
      modifies this`closed, this`closings, this`toolCalls, this`incoming
      ensures Valid() && c <= |ms|
      ensures if ok
              then Follows(b, ms, c, id, cell) && |Replies(ms[..c])| == 2 &&
                   outcome == OutcomeAt(Replies(ms[..c])[1], 1)
              else forall n: nat | Hears(b, ms, n, id, cell) :: |Replies(ms[..n])| < 2
    {
      hide Numbered, Marked, Settle, Replies, Lead, Hears;
      ghost var k := started + Lead(incoming);
      HearsNext(b, ms, started, k, id, cell, Kept());
      var reply;
      ok, reply := Receive("execute/initialResponse", requestId);
      if ok {
        outcome, c := OutcomeAt(reply, 1), k + 1;
      } else {
        TooFew(b, ms, started, id, cell);
        outcome, c := SILENCE, 0;
      }
    }

    /** Waits for the cell's next report. */
    method Wait(ghost b: Books, ghost ms: seq<Message>, ghost c: nat, ghost id: nat, ghost cell: string)
      returns (ok: bool, outcome: Outcome, ghost more: nat, ghost m: Message)
      requires Valid() && Follows(b, ms, c, id, cell) && |Replies(ms[..c])| >= 2
      requires requestId == id + |Replies(ms[..c])| - 1
      modifies this`closed, this`closings, this`toolCalls, this`incoming, this`requestId
      ensures Valid() && more <= |ms| && (ok ==> |incoming| < |old(incoming)|)
      ensures if ok
              then Follows(b, ms, more, id, cell) && Replies(ms[..more]) == Replies(ms[..c]) + [m] &&
                   outcome == OutcomeAt(m, |Replies(ms[..c])|) && requestId == id + |Replies(ms[..more])| - 1
              else NonePast(b, ms, c, id, cell)
    {
      hide Numbered, Marked, Settle, Replies, Lead, Hears, WaitOutcome;
      ghost var k := c + Lead(incoming);
      HearsNext(b, ms, c, k, id, cell, Kept());
      var value;
      ok, value := Request("wait/completed");
      if ok {
        outcome, more, m := WaitOutcome(value), k + 1, ms[c..][k - c];
      } else {
        outcome, more, m := SILENCE, 0, Reply("", None, false, None);
      }
    }

    /** Runs a source in a new cell, with or without expected text, up to its end or, when `pending`, its first
        report. */
    method Execute(text: Option<string>, error: bool, pending: bool) returns (ok: bool)
      requires Valid()
      modifies this`cells, this`closed, this`closings, this`toolCalls, this`incoming, this`requestId
      ensures Valid()
      ensures cells == if |old(cells)| < MAX_CELLS then old(cells) + [CellName(|old(cells)|)] else old(cells)
      ensures ok ==> |old(cells)| < MAX_CELLS
      ensures |old(cells)| < MAX_CELLS ==>
                var b, ms, id, cell := old(Kept()).(cells := cells), old(incoming), old(requestId), cells[|cells| - 1];
                if pending then ok <==> exists n: nat :: Begun(b, ms, n, id, cell)
                else ok <==> Finishes(b, ms, id, cell, text, error)
    {
      assert |cells| <= MAX_CELLS;
      hide Numbered, Marked, Settle, Replies, Lead, Hears, Reports, Concludes, WaitOutcome;
      if |cells| == MAX_CELLS {
        return false;
      }
      ghost var cell := CellName(|cells|);
      ghost var b, ms, id := Kept().(cells := cells + [cell]), incoming, requestId;
      var outcome;
      ghost var c: nat;
      ok, outcome, c := Start(b, ms, id);
      assert cells[|cells| - 1] == cell;
      if !ok {
        return;
      }
      if pending {
        ok := Reports(outcome.yielded, cells[|cells| - 1], None);
        forall n: nat | Begun(b, ms, n, id, cell)
          ensures n == c
        {
          OneCut(b, ms, c, n, id, cell);
        }
        assert ok ==> Begun(b, ms, c, id, cell);
        return;
      }
      ok := Follow(text, error, outcome, b, ms, c, id);
    }

    lemma Hearing(b: Books, ms: seq<Message>, c: nat, id: nat, cell: string)
      requires Follows(b, ms, c, id, cell)
      ensures Hears(b, ms, c, id, cell)
    {
    }

    /** Follows a started cell to its end. */
    method Follow(text: Option<string>, error: bool, first: Outcome, ghost b: Books, ghost ms: seq<Message>,
                  ghost start: nat,
                  ghost id: nat) returns (ok: bool)
      requires Valid() && cells != [] && Follows(b, ms, start, id, cells[|cells| - 1]) && requestId == id + 1
      requires start <= |ms| && |Replies(ms[..start])| == 2 && first == OutcomeAt(Replies(ms[..start])[1], 1)
      modifies this`closed, this`closings, this`toolCalls, this`incoming, this`requestId
      ensures Valid()
      ensures var cell := cells[|cells| - 1]; ok <==> Finishes(b, ms, id, cell, text, error)
    {
      hide Valid, Settle, Replies, Lead, Hears, Heard, Reports, Concludes, WaitOutcome, Going, OutcomeAt, Talking, Told;
      hide Complete, Finishes, NonePast, Follows;
      Hearing(b, ms, start, id, cells[|cells| - 1]);
      TalkBegins(Replies(ms[..start]), cells[|cells| - 1], text);
      var outcome, seen := first, false;
      ghost var c: nat, cell := start, cells[|cells| - 1];
      while outcome.yielded.Some?
        invariant Valid() && c <= |ms| && requestId == id + |Replies(ms[..c])| - 1
        invariant |Replies(ms[..c])| >= 2 && Follows(b, ms, c, id, cell)
        invariant Hears(b, ms, c, id, cell) && Talking(Replies(ms[..c]), outcome, cell, text, seen)
        decreases |incoming|
      {
        GoesOn(b, ms, c, id, cell, text, error, seen, outcome);
        Believe(Replies(ms[..c]), outcome, cell, text, seen);
        ghost var said, before := outcome, seen;
        ok, seen := Judge(Reports(outcome.yielded, cells[|cells| - 1], None), text, seen,
                          Reports(outcome.yielded, cells[|cells| - 1], text));
        if !ok {
          return;
        }
        ghost var m, more;
        ok, outcome, more, m := Wait(b, ms, c, id, cell);
        if !ok {
          return;
        }
        TalkMore(Replies(ms[..c]), m, said, cell, text, before, seen);
        c := more;
        Hearing(b, ms, c, id, cell);
      }
      Ends(b, ms, c, id, cell, text, error, seen, outcome);
      ok, seen := Judge(Concludes(outcome.result, cells[|cells| - 1], None, error), text, seen,
                        Concludes(outcome.result, cells[|cells| - 1], text, error));
      ok := ok && (text.None? || seen);
    }

    /** A report without output is fine; one with the text is, once, where text is expected. */
    method Judge(quiet: bool, text: Option<string>, seen: bool, tells: bool) returns (fine: bool, now: bool)
      ensures fine == (quiet || (text.Some? && !seen && tells))
      ensures fine ==> now == (seen || !quiet)
    {
      fine, now := true, seen;
      if !quiet {
        if text.None? || seen || !tells {
          return false, seen;
        }
        now := true;
      }
    }

    /** Closing the session succeeds only if every cell ever started was closed, each exactly once. */
    method Shutdown() returns (ok: bool)
      requires Valid()
      modifies this`closed, this`closings, this`toolCalls, this`incoming, this`requestId
      ensures Valid() && cells == old(cells)
      ensures ok ==> multiset(closings) == multiset(cells)
      ensures var ms, k := old(incoming), Lead(old(incoming));
              ok <==> k < |ms| && Settle(old(Kept()), ms[..k]).Some? &&
                      Answers(ms[k], "session/closed", old(requestId) + 1) &&
                      ms[k].value.value.session == Some(SESSION) &&
                      multiset(old(closings) + Closings(ms[..k])) == multiset(cells)
    {
      hide Marked, Settle, Lead, Closings;
      ghost var b, ms, k := Kept(), incoming, Lead(incoming);
      var value;
      ok, value := Request("session/closed");
      if k < |ms| && Settle(b, ms[..k]).Some? {
        EveryClosingBooked(b, ms[..k]);
      }
      MarkAll(closed, cells, closings);
      ok := ok && value.session == Some(SESSION) && closed == Mask(|cells|);
    }
  }
}
