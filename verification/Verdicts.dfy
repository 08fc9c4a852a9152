/** The verdict on a serial log: what the checker accepts, in terms of windows, and how verdicts behave as the log
    grows. */
module Verdicts {

  /** A complete line of the cleaned log. Every line is of exactly one kind; `Text` is any line outside the protocol. */
  datatype Line = Begin | End | Start(name: string) | Status(name: string, code: string) | Text(content: string)

  /** The cleaned log so far, and whether a fatal message has appeared. */
  datatype Log = Log(fatal: bool, lines: seq<Line>)

  datatype Case = Case(name: string, markers: seq<Line>)

  datatype Verdict = Fail | Pending | Pass

  /** The numeral of a status line denotes zero. */
  predicate IsZero(code: string) {
    if code != "" && code[0] == '-' then AllZeros(code[1..]) else AllZeros(code)
  }

  predicate AllZeros(digits: string) {
    forall i :: 0 <= i < |digits| ==> digits[i] == '0'
  }

  // ---- what the log says ----

  /** The status lines, in order. */
  function Statuses(lines: seq<Line>): (r: seq<(string, string)>)
    ensures |r| <= |lines|
  {
    if lines == [] then []
    else
      var last := lines[|lines| - 1];
      Statuses(lines[..|lines| - 1]) + if last.Status? then [(last.name, last.code)] else []
  }

  function StatusNames(lines: seq<Line>): (r: seq<string>)
    ensures |r| == |Statuses(lines)| && forall i :: 0 <= i < |r| ==> r[i] == Statuses(lines)[i].0
  {
    seq(|Statuses(lines)|, i requires 0 <= i < |Statuses(lines)| => Statuses(lines)[i].0)
  }

  function Names(cases: seq<Case>): (r: seq<string>)
    ensures |r| == |cases| && forall i :: 0 <= i < |r| ==> r[i] == cases[i].name
  {
    seq(|cases|, i requires 0 <= i < |cases| => cases[i].name)
  }

  ghost predicate Distinct<T(!new)>(q: seq<T>) {
    forall i, j :: 0 <= i < j < |q| ==> q[i] != q[j]
  }

  /** Every status is zero, and the names so far are the first case names in order. */
  ghost predicate StatusesInOrder(lines: seq<Line>, cases: seq<Case>) {
    (forall i :: 0 <= i < |Statuses(lines)| ==> IsZero(Statuses(lines)[i].1)) && StatusNames(lines) <= Names(cases)
  }

  ghost predicate Once(lines: seq<Line>, l: Line) {
    exists i :: 0 <= i < |lines| && OnlyAt(lines, l, i)
  }

  ghost predicate OnlyAt(lines: seq<Line>, l: Line, i: nat)
    requires i < |lines|
  {
    forall j :: 0 <= j < |lines| ==> (lines[j] == l <==> j == i)
  }

  /** A window for each case between `from` and `to`, in order and disjoint: its start line, its zero status, and in
      between every marker. */
  ghost predicate Windows(lines: seq<Line>, cases: seq<Case>, from: nat, to: nat, w: seq<(nat, nat)>)
    requires to <= |lines|
    decreases cases
  {
    |w| == |cases| && from <= to &&
    (cases != [] ==>
      from <= w[0].0 < w[0].1 < to && Window(lines, cases[0], w[0].0, w[0].1) &&
      Windows(lines, cases[1..], w[0].1 + 1, to, w[1..]))
  }

  ghost predicate Window(lines: seq<Line>, c: Case, b: nat, e: nat)
    requires b < e < |lines|
  {
    lines[b] == Start(c.name) && lines[e] == Status(c.name, "0") && forall m :: m in c.markers ==> m in lines[b + 1..e]
  }

  /** What a passing log is, said without any scanning. */
  ghost predicate Passes(log: Log, cases: seq<Case>) {
    !log.fatal && StatusesInOrder(log.lines, cases) && StatusNames(log.lines) == Names(cases) &&
    exists b: nat, e: nat :: PassesWith(log.lines, cases, b, e)
  }

  /** One BEGIN, one END, and between them the windows. */
  ghost predicate PassesWith(lines: seq<Line>, cases: seq<Case>, b: nat, e: nat) {
    b < |lines| && e < |lines| && OnlyAt(lines, Begin, b) && OnlyAt(lines, End, e) && HasWindows(lines, cases, b + 1, e)
  }

  ghost predicate HasWindows(lines: seq<Line>, cases: seq<Case>, from: nat, to: nat)
    requires to <= |lines|
  {
    exists w :: Windows(lines, cases, from, to, w)
  }

  ghost predicate IsPending(log: Log, cases: seq<Case>) {
    !log.fatal && StatusesInOrder(log.lines, cases) && End !in log.lines
  }

  ghost predicate Fails(log: Log, cases: seq<Case>) {
    !Passes(log, cases) && !IsPending(log, cases)
  }

  // ---- facts about statuses ----

  lemma {:induction false} StatusesConcat(a: seq<Line>, b: seq<Line>)
    ensures Statuses(a + b) == Statuses(a) + Statuses(b)
    decreases |b|
  {
    if b == [] {
      assert a + b == a;
    } else {
      assert (a + b)[..|a + b| - 1] == a + b[..|b| - 1];
      StatusesConcat(a, b[..|b| - 1]);
    }
  }

  /** A status line contributes its name at some position. */
  lemma StatusAt(lines: seq<Line>, i: nat)
    requires i < |lines| && lines[i].Status?
    ensures var k := |Statuses(lines[..i])|;
            k < |Statuses(lines)| && Statuses(lines)[k] == (lines[i].name, lines[i].code) &&
            StatusNames(lines)[k] == lines[i].name
  {
    assert lines == lines[..i + 1] + lines[i + 1..];
    StatusesConcat(lines[..i + 1], lines[i + 1..]);
    assert lines[..i + 1][..i] == lines[..i];
  }

  /** Later status lines stand later in the list. */
  lemma StatusOrder(lines: seq<Line>, i: nat, j: nat)
    requires i < j < |lines| && lines[i].Status?
    ensures |Statuses(lines[..i])| < |Statuses(lines[..j])|
  {
    assert lines[..j] == lines[..i + 1] + lines[i + 1..j];
    StatusesConcat(lines[..i + 1], lines[i + 1..j]);
    assert lines[..i + 1][..i] == lines[..i];
  }

  lemma OneStatusEach(lines: seq<Line>, i: nat, j: nat)
    requires i < j < |lines| && lines[i].Status? && lines[j].Status? && Distinct(StatusNames(lines))
    ensures lines[i].name != lines[j].name
  {
    StatusAt(lines, i);
    StatusAt(lines, j);
    StatusOrder(lines, i, j);
  }

  // ---- the greedy scan ----

  /** The first index from `from` on where `l` stands, else the length. */
  function IndexFrom(lines: seq<Line>, l: Line, from: nat): (i: nat)
    requires from <= |lines|
    ensures from <= i <= |lines| && (i < |lines| ==> lines[i] == l)
    ensures forall j :: from <= j < i ==> lines[j] != l
    decreases |lines| - from
  {
    if from == |lines| || lines[from] == l then from else IndexFrom(lines, l, from + 1)
  }

  predicate HasMarkers(lines: seq<Line>, markers: seq<Line>) {
    forall m :: m in markers ==> m in lines
  }

  /** The cursor after one case's first-match window; the length + 1 where a boundary or a marker is missing. */
  function After(lines: seq<Line>, c: Case, cursor: nat): (r: nat)
    requires cursor <= |lines|
    ensures r <= |lines| + 1 && r > cursor
  {
    var b := IndexFrom(lines, Start(c.name), cursor);
    if b == |lines| then |lines| + 1
    else
      var e := IndexFrom(lines, Status(c.name, "0"), b + 1);
      if e == |lines| || !HasMarkers(lines[b + 1..e], c.markers) then |lines| + 1 else e + 1
  }

  /** Where the scan of the cases ends up; the length + 1 where something is missing. */
  function Scan(lines: seq<Line>, cases: seq<Case>, cursor: nat): (r: nat)
    requires cursor <= |lines| + 1
    ensures cursor <= r <= |lines| + 1
    decreases cases
  {
    if cases == [] || cursor > |lines| then cursor else Scan(lines, cases[1..], After(lines, cases[0], cursor))
  }

  /** First-match scanning never misses: it stays within `to` exactly when windows within `to` exist. */
  lemma ScanComplete(lines: seq<Line>, cases: seq<Case>, cursor: nat, to: nat)
    requires cursor <= |lines| && to <= |lines| && Distinct(StatusNames(lines))
    ensures Scan(lines, cases, cursor) <= to <==> HasWindows(lines, cases, cursor, to)
  {
    if HasWindows(lines, cases, cursor, to) {
      var w :| Windows(lines, cases, cursor, to, w);
      ScanFinds(lines, cases, cursor, to, w);
    }
    if Scan(lines, cases, cursor) <= to {
      var w := ScanWindows(lines, cases, cursor, to);
    }
  }

  lemma {:induction false} ScanFinds(lines: seq<Line>, cases: seq<Case>, cursor: nat, to: nat, w: seq<(nat, nat)>)
    requires cursor <= |lines| && to <= |lines| && Distinct(StatusNames(lines))
    requires Windows(lines, cases, cursor, to, w)
    ensures Scan(lines, cases, cursor) <= to
    decreases cases
  {
    hide Distinct, Window, After;
    if cases != [] {
      FirstWindow(lines, cases, cursor, to, w);
      ScanFinds(lines, cases[1..], After(lines, cases[0], cursor), to, w[1..]);
    }
  }

  lemma {:induction false} ScanWindows(lines: seq<Line>, cases: seq<Case>, cursor: nat, to: nat)
    returns (w: seq<(nat, nat)>)
    requires cursor <= |lines| && to <= |lines| && Scan(lines, cases, cursor) <= to
    ensures Windows(lines, cases, cursor, to, w)
    decreases cases
  {
    hide After, Window;
    if cases == [] {
      w := [];
    } else {
      var rest := ScanWindows(lines, cases[1..], After(lines, cases[0], cursor), to);
      var b, e := AfterWindow(lines, cases[0], cursor);
      w := [(b, e)] + rest;
      assert w[1..] == rest;
    }
  }

  lemma AfterWindow(lines: seq<Line>, c: Case, cursor: nat) returns (b: nat, e: nat)
    requires cursor <= |lines| && After(lines, c, cursor) <= |lines|
    ensures cursor <= b < e < |lines| && After(lines, c, cursor) == e + 1 && Window(lines, c, b, e)
  {
    b := IndexFrom(lines, Start(c.name), cursor);
    e := IndexFrom(lines, Status(c.name, "0"), b + 1);
  }

  /** Any first window ends at the one status line, so the greedy one ends there too and is at least as wide. */
  lemma FirstWindow(lines: seq<Line>, cases: seq<Case>, cursor: nat, to: nat, w: seq<(nat, nat)>)
    requires cursor <= |lines| && to <= |lines| && Distinct(StatusNames(lines)) && cases != []
    requires Windows(lines, cases, cursor, to, w)
    ensures After(lines, cases[0], cursor) == w[0].1 + 1 && w[0].1 < to
    ensures Windows(lines, cases[1..], w[0].1 + 1, to, w[1..])
  {
    hide Distinct, HasMarkers;
    assert Window(lines, cases[0], w[0].0, w[0].1);
    var b := IndexFrom(lines, Start(cases[0].name), cursor);
    assert b <= w[0].0;
    var e := IndexFrom(lines, Status(cases[0].name, "0"), b + 1);
    assert e <= w[0].1;
    SameStatus(lines, e, w[0].1);
    MarkersEarlier(lines, b + 1, w[0].0 + 1, e, cases[0].markers);
  }

  lemma MarkersEarlier(lines: seq<Line>, from: nat, later: nat, to: nat, markers: seq<Line>)
    requires from <= later <= to <= |lines| && HasMarkers(lines[later..to], markers)
    ensures HasMarkers(lines[from..to], markers)
  {
    assert lines[from..to] == lines[from..later] + lines[later..to];
  }

  lemma SameStatus(lines: seq<Line>, i: nat, j: nat)
    requires i <= j < |lines| && lines[i].Status? && lines[j] == lines[i] && Distinct(StatusNames(lines))
    ensures i == j
  {
    if i < j {
      OneStatusEach(lines, i, j);
    }
  }

  // ---- the checker ----

  method Count(lines: seq<Line>, l: Line) returns (n: nat)
    ensures n == 0 <==> l !in lines
    ensures n == 1 <==> Once(lines, l)
  {
    n := 0;
    ghost var first := 0;
    for i := 0 to |lines|
      invariant n == 0 <==> l !in lines[..i]
      invariant n == 1 ==> first < i && OnlyAt(lines[..i], l, first)
      invariant n >= 1 ==> first < i && lines[first] == l
      invariant n >= 2 ==> exists j, k :: 0 <= j < k < i && lines[j] == l && lines[k] == l
    {
      assert lines[..i + 1] == lines[..i] + [lines[i]];
      if lines[i] == l {
        if n == 0 {
          first := i;
        }
        n := n + 1;
      }
    }
    assert lines[..|lines|] == lines;
    if n == 1 {
      assert OnlyAt(lines, l, first);
    } else if n >= 2 {
      var j, k :| 0 <= j < k < |lines| && lines[j] == l && lines[k] == l;
      Twice(lines, l, j, k);
    } else {
      OnceIn(lines, l);
    }
  }

  lemma Twice(lines: seq<Line>, l: Line, j: nat, k: nat)
    requires j < k < |lines| && lines[j] == l && lines[k] == l
    ensures !Once(lines, l)
  {
    forall i | 0 <= i < |lines|
      ensures !OnlyAt(lines, l, i)
    {
      assert j != i || k != i;
    }
  }

  lemma OnceIn(lines: seq<Line>, l: Line)
    ensures Once(lines, l) ==> l in lines
  {
    if Once(lines, l) {
      var i :| 0 <= i < |lines| && OnlyAt(lines, l, i);
      assert lines[i] == l;
    }
  }

  /** The scan of the cases with its advancing cursor; stops past the end where something is missing. */
  method ScanCases(lines: seq<Line>, cases: seq<Case>, from: nat) returns (cursor: nat)
    requires from <= |lines|
    ensures cursor == Scan(lines, cases, from)
  {
    cursor := from;
    assert cases[0..] == cases;
    for i := 0 to |cases|
      invariant cursor <= |lines|
      invariant Scan(lines, cases[i..], cursor) == Scan(lines, cases, from)
    {
      assert cases[i..][0] == cases[i] && cases[i..][1..] == cases[i + 1..];
      cursor := ScanCase(lines, cases[i], cursor);
      if cursor > |lines| {
        return;
      }
    }
    assert cases[|cases|..] == [];
  }

  method ScanCase(lines: seq<Line>, c: Case, cursor: nat) returns (next: nat)
    requires cursor <= |lines|
    ensures next == After(lines, c, cursor)
  {
    var start := IndexFrom(lines, Start(c.name), cursor);
    if start == |lines| {
      return |lines| + 1;
    }
    var end := IndexFrom(lines, Status(c.name, "0"), start + 1);
    if end == |lines| {
      return |lines| + 1;
    }
    var missing := !HasMarkers(lines[start + 1..end], c.markers);
    next := if missing then |lines| + 1 else end + 1;
  }

  /** Passes, fails or waits exactly as the window description says. */
  method EvaluateOutput(log: Log, cases: seq<Case>) returns (verdict: Verdict)
    requires Distinct(Names(cases))
    ensures verdict == Pass <==> Passes(log, cases)
    ensures verdict == Pending <==> IsPending(log, cases)
  {
    hide Scan, HasWindows, OnlyAt, Distinct;
    PassesIsNotPending(log, cases);
    if log.fatal {
      return Fail;
    }
    var lines, expected := log.lines, Names(cases);
    var statuses := Statuses(lines);
    for i := 0 to |statuses|
      invariant forall k :: 0 <= k < i ==> IsZero(statuses[k].1)
    {
      if statuses[i].0 !in expected || !IsZero(statuses[i].1) {
        assert StatusNames(lines)[i] == statuses[i].0;
        return Fail;
      }
    }
    if !(StatusNames(lines) <= expected) {
      return Fail;
    }
    if End !in lines {
      return Pending;
    }
    var begins := Count(lines, Begin);
    var ends := Count(lines, End);
    if begins != 1 || ends != 1 {
      if Passes(log, cases) {
        PassesOnce(log, cases);
      }
      return Fail;
    }
    if StatusNames(lines) != expected {
      return Fail;
    }
    OnceIndex(lines, Begin);
    OnceIndex(lines, End);
    var first := IndexFrom(lines, Begin, 0);
    var end := IndexFrom(lines, End, 0);
    ScanComplete(lines, cases, first + 1, end);
    var cursor := ScanCases(lines, cases, first + 1);
    if end < cursor {
      NotWith(lines, cases, first, end);
      return Fail;
    }
    assert PassesWith(lines, cases, first, end);
    return Pass;
  }

  lemma OnceIndex(lines: seq<Line>, l: Line)
    requires Once(lines, l)
    ensures IndexFrom(lines, l, 0) < |lines| && OnlyAt(lines, l, IndexFrom(lines, l, 0))
  {
    var i :| 0 <= i < |lines| && OnlyAt(lines, l, i);
    assert lines[i] == l;
  }

  lemma NotWith(lines: seq<Line>, cases: seq<Case>, first: nat, end: nat)
    requires first < |lines| && end < |lines| && OnlyAt(lines, Begin, first) && OnlyAt(lines, End, end)
    requires !HasWindows(lines, cases, first + 1, end)
    ensures forall b: nat, e: nat :: !PassesWith(lines, cases, b, e)
  {
    hide HasWindows;
    forall b: nat, e: nat | PassesWith(lines, cases, b, e)
      ensures b == first && e == end
    {
      assert lines[b] == Begin && lines[e] == End;
    }
  }

  lemma PassesOnce(log: Log, cases: seq<Case>)
    requires Passes(log, cases)
    ensures Once(log.lines, Begin) && Once(log.lines, End) && End in log.lines
  {
    hide HasWindows;
    var b: nat, e: nat :| PassesWith(log.lines, cases, b, e);
    assert log.lines[e] == End;
  }

  lemma PassesIsNotPending(log: Log, cases: seq<Case>)
    ensures !(Passes(log, cases) && IsPending(log, cases))
  {
    if Passes(log, cases) {
      PassesOnce(log, cases);
    }
  }
}
