/** The resumable upload of scripts/migrate_package_blobs.py, against a server that may keep any part of a chunk,
    lose any response, or answer anything at all. */
module Uploads {
  import opened Options

  type Bytes = seq<int>

  const MAX_STALLED: nat := 5
  const CHUNK_UNIT: nat := 262144

  // ---- the channel ----

  datatype Range = Absent | UpTo(last: nat) | Malformed

  datatype Http = Reply(status: int, range: Range) | NoReply

  /** What the server sends back: its true state, nothing, an error status, or something invented. */
  datatype Answer = Truth | Lost | Status(status: int) | Forged(reply: Http)

  /** One request's fate: how much of the chunk is kept, whether the server finalises the object if it is then complete,
      and what comes back. */
  datatype Fate = Fate(persist: nat, seal: bool, answer: Answer)

  predicate Accepted(status: int) {
    status == 200 || status == 201 || status == 308
  }

  predicate Transient(status: int) {
    status == 408 || status == 429 || status == 500 || status == 502 || status == 503 || status == 504
  }

  ghost predicate Honest(fates: nat -> Fate) {
    forall i :: !fates(i).answer.Forged? && (fates(i).answer.Status? ==> !Accepted(fates(i).answer.status))
  }

  /** Of any two answers in a row the server loses or delays at most one. */
  ghost predicate Answering(fates: nat -> Fate) {
    forall i :: Responsive(fates, i)
  }

  ghost predicate Responsive(fates: nat -> Fate, i: nat) {
    match fates(i).answer
    case Truth => true
    case Lost => fates(i + 1).answer.Truth?
    case Status(status) => status in {408, 429, 500, 502, 503, 504} && fates(i + 1).answer.Truth?
    case Forged(_) => false
  }

  /** An answering server that always keeps something of a chunk. */
  ghost predicate Helpful(fates: nat -> Fate, grain: nat) {
    Answering(fates) && forall i :: fates(i).persist >= grain
  }

  lemma AnsweringHonest(fates: nat -> Fate)
    requires Answering(fates)
    ensures Honest(fates)
  {
    forall i
      ensures !fates(i).answer.Forged? && (fates(i).answer.Status? ==> !Accepted(fates(i).answer.status))
    {
      assert Responsive(fates, i);
    }
  }

  /** A whole number of grains. */
  predicate Whole(n: nat, grain: nat)
    requires grain > 0
  {
    n == 0 || (n >= grain && Whole(n - grain, grain))
  }

  /** How many grains it takes to hold `n` bytes. */
  function Grains(n: nat, grain: nat): nat
    requires grain > 0
  {
    if n == 0 then 0 else if n <= grain then 1 else 1 + Grains(n - grain, grain)
  }

  /** A server keeps a whole chunk, or whole grains of it. */
  function Kept(persist: nat, length: nat, grain: nat): (n: nat)
    requires grain > 0
    ensures n <= length && (n == length || Whole(n, grain))
  {
    if persist >= length then length else WholePart(persist, grain)
  }

  function WholePart(n: nat, grain: nat): (r: nat)
    requires grain > 0
    ensures r <= n && Whole(r, grain) && (n >= grain ==> r > 0)
  {
    if n < grain then 0 else grain + WholePart(n - grain, grain)
  }

  lemma {:induction false} WholeAdd(a: nat, b: nat, grain: nat)
    requires grain > 0 && Whole(a, grain) && Whole(b, grain)
    ensures Whole(a + b, grain)
    decreases a
  {
    if a > 0 {
      WholeAdd(a - grain, b, grain);
    }
  }

  lemma {:induction false} GrainsGrow(a: nat, b: nat, grain: nat)
    requires grain > 0 && a < b && Whole(a, grain)
    ensures Grains(a, grain) + 1 <= Grains(b, grain)
    decreases a
  {
    if a > 0 {
      GrainsGrow(a - grain, b - grain, grain);
    }
  }

  lemma {:induction false} UnitWhole(n: nat)
    requires n % CHUNK_UNIT == 0
    ensures Whole(n, CHUNK_UNIT)
  {
    if n > 0 {
      UnitWhole(n - CHUNK_UNIT);
    }
  }

  /** Counted in chunk units this is division rounded up. */
  lemma {:induction false} GrainsCeiling(n: nat)
    ensures Grains(n, CHUNK_UNIT) == (n + CHUNK_UNIT - 1) / CHUNK_UNIT
  {
    if n > CHUNK_UNIT {
      GrainsCeiling(n - CHUNK_UNIT);
    }
  }

  /** How a server says that an object is complete. */
  type Success = status: int | status == 200 || status == 201 witness 200

  /** A resumable session on the server. */
  class Session {
    const done: Success
    const total: nat
    const grain: nat
    const fates: nat -> Fate
    var committed: Bytes
    var finalised: bool
    /** Requests so far, and data requests so far. */
    var clock: nat
    var puts: nat
    /** For every data request: where it said it starts, and how much the server had. */
    ghost var starts: seq<(nat, nat)>
    /** Which requests they were, and how many bytes each added. */
    ghost var sent: seq<nat>
    ghost var added: seq<nat>
    /** The request that completed the bytes. */
    ghost var completed: Option<nat>

    constructor (total: nat, grain: nat, fates: nat -> Fate, done: Success)
      requires grain > 0
      ensures this.done == done && this.total == total && this.grain == grain && this.fates == fates
      ensures committed == [] && !finalised && clock == 0 && puts == 0 && starts == [] && completed == None
      ensures sent == [] && added == []
    {
      this.total, this.grain, this.fates, this.done := total, grain, fates, done;
      committed, finalised, clock, puts, starts, completed := [], false, 0, 0, [], None;
      sent, added := [], [];
    }

    function State(): Http
      reads this`committed, this`finalised
    {
      if finalised then Reply(done, Absent)
      else Reply(308, if committed == [] then Absent else UpTo(|committed| - 1))
    }

    function Response(fate: Fate): Http
      reads this`committed, this`finalised
    {
      match fate.answer
      case Truth => State()
      case Lost => NoReply
      case Status(status) => Reply(status, Absent)
      case Forged(reply) => reply
    }

    /** A data request. Bytes that do not start where the server is are ignored. */
    method Put(first: nat, data: Bytes) returns (reply: Http)
      requires grain > 0
      modifies this
      ensures clock == old(clock) + 1 && puts == old(puts) + 1 && starts == old(starts) + [(first, |old(committed)|)]
      ensures if first == |old(committed)| && !old(finalised) then
                committed == old(committed) + data[..Kept(fates(old(clock)).persist, |data|, grain)] &&
                (finalised <==> |committed| == total && fates(old(clock)).seal) &&
                completed == (if |committed| == total then Some(old(clock)) else old(completed))
              else committed == old(committed) && finalised == old(finalised) && completed == old(completed)
      ensures sent == old(sent) + [old(clock)] && added == old(added) + [|committed| - |old(committed)|]
      ensures reply == Response(fates(old(clock)))
    {
      var fate := fates(clock);
      clock, puts, starts := clock + 1, puts + 1, starts + [(first, |committed|)];
      sent := sent + [clock - 1];
      ghost var before := |committed|;
      if first == |committed| && !finalised {
        committed := committed + data[..Kept(fate.persist, |data|, grain)];
        finalised := |committed| == total && fate.seal;
        completed := if |committed| == total then Some(clock - 1) else completed;
      }
      added := added + [|committed| - before];
      reply := Response(fate);
    }

    /** A request without data: asks where the server is. */
    method Ask() returns (reply: Http)
      modifies this`clock
      ensures clock == old(clock) + 1 && reply == Response(fates(old(clock)))
    {
      clock := clock + 1;
      reply := Response(fates(clock - 1));
    }

    /** The closing request of an empty file. */
    method Conclude() returns (reply: Http)
      modifies this`clock, this`finalised, this`completed
      ensures clock == old(clock) + 1 && reply == Response(fates(old(clock)))
      ensures finalised == (old(finalised) || (|committed| == total && fates(old(clock)).seal))
      ensures completed == if |committed| == total then Some(old(clock)) else old(completed)
    {
      var fate := fates(clock);
      completed := if |committed| == total then Some(clock) else completed;
      clock := clock + 1;
      finalised := finalised || (|committed| == total && fate.seal);
      reply := Response(fate);
    }
  }

  /** The offset an accepted reply acknowledges; None where the client raises. */
  function Acknowledged(reply: Http, total: nat): Option<nat>
    requires reply.Reply? && Accepted(reply.status)
  {
    if reply.status != 308 then Some(total)
    else
      match reply.range
      case Absent => Some(0)
      case UpTo(last) => Some(last + 1)
      case Malformed => None
  }

  predicate ValidChunk(chunkSize: nat) {
    chunkSize > 0 && chunkSize % CHUNK_UNIT == 0
  }

  predicate IsAccepted(reply: Http) {
    reply.Reply? && Accepted(reply.status)
  }

  /** An error that is worth asking the server about: no answer at all, or a transient status. */
  predicate Retried(reply: Http) {
    reply.NoReply? || (!Accepted(reply.status) && Transient(reply.status))
  }

  /** What a reply says of the offset: where it is, nothing, or that the upload cannot go on. */
  datatype Reading = Offset(n: nat) | Unknown | Hopeless

  function ReadQuery(reply: Http, total: nat): Reading {
    match reply
    case NoReply => Unknown
    case Reply(status, range) =>
      if status == 200 || status == 201 then Offset(total)
      else if status == 308 then
        match range
        case Absent => Offset(0)
        case UpTo(last) => Offset(last + 1)
        case Malformed => Hopeless
      else if status in {408, 429, 500, 502, 503, 504} then Unknown
      else Hopeless
  }

  /** An answer to data does not say zero; it only says nothing. */
  function ReadData(reply: Http, total: nat): Reading {
    if reply.Reply? && reply.status == 308 && reply.range.Absent? then Unknown else ReadQuery(reply, total)
  }

  /** The first of so many answers, from request `clock` on, that says something. */
  function FirstAnswer(session: Session, clock: nat, attempts: nat): Option<nat>
    reads session`committed, session`finalised
    decreases attempts
  {
    if attempts == 0 then None
    else
      match ReadQuery(session.Response(session.fates(clock)), session.total)
      case Offset(n) => Some(n)
      case Unknown => FirstAnswer(session, clock + 1, attempts - 1)
      case Hopeless => None
  }

  /** Where the server says it is; up to three attempts. */
  method QueryOffset(session: Session) returns (offset: Option<nat>)
    modifies session`clock
    ensures offset == FirstAnswer(session, old(session.clock), 3)
    ensures session.clock >= old(session.clock)
  {
    offset := None;
    ghost var start := session.clock;
    for attempt := 0 to 3
      invariant offset == None && session.clock == start + attempt
      invariant FirstAnswer(session, session.clock, 3 - attempt) == FirstAnswer(session, start, 3)
    {
      var reply := session.Ask();
      if IsAccepted(reply) {
        return Acknowledged(reply, session.total);
      }
      if !Retried(reply) {
        return None;
      }
    }
  }

  function Min(a: nat, b: nat): nat { if a < b then a else b }

  // ---- the client ----

  ghost predicate Seals(fates: nat -> Fate) {
    forall i :: fates(i).seal
  }

  /** A nonempty object is final exactly when the request that completed it was sealed. */
  ghost predicate Settled(session: Session)
    reads session
  {
    if |session.committed| < session.total then session.completed == None && !session.finalised
    else
      session.total > 0 ==>
        session.completed.Some? && (session.finalised <==> session.fates(session.completed.value).seal)
  }

  /** What an honest run keeps: the client knows exactly how much the server has, and the server has a prefix. */
  ghost predicate InStep(session: Session, file: Bytes, offset: nat, since: nat)
    reads session
  {
    offset == |session.committed| <= |file| && session.committed == file[..offset] &&
    (session.finalised ==> offset == |file|) && Settled(session) && since <= |session.starts| &&
    forall i :: since <= i < |session.starts| ==> session.starts[i].0 == session.starts[i].1
  }

  /** Where an honest server is. */
  function Position(session: Session): nat
    reads session`committed, session`finalised
  {
    if session.finalised then session.total else |session.committed|
  }

  lemma {:induction false} HonestAnswer(session: Session, clock: nat, attempts: nat)
    requires Honest(session.fates)
    ensures var answer := FirstAnswer(session, clock, attempts);
            (answer.Some? ==> answer.value == Position(session)) &&
            (attempts > 0 && session.fates(clock).answer.Truth? ==> answer.Some?) &&
            (attempts > 1 && Answering(session.fates) ==> answer.Some?)
    decreases attempts
  {
    if attempts > 0 {
      HonestAnswer(session, clock + 1, attempts - 1);
      if Answering(session.fates) {
        assert Responsive(session.fates, clock);
      }
    }
  }

  /** What the client makes of the answer to a data request at `clock`. */
  function Understood(session: Session, clock: nat): Option<nat>
    reads session`committed, session`finalised
  {
    match ReadData(session.Response(session.fates(clock)), session.total)
    case Offset(n) => Some(n)
    case Unknown => FirstAnswer(session, clock + 1, 3)
    case Hopeless => None
  }

  lemma HonestUnderstood(session: Session, clock: nat)
    requires Honest(session.fates)
    ensures Understood(session, clock).Some? ==> Understood(session, clock).value == Position(session)
    ensures Answering(session.fates) ==> Understood(session, clock).Some?
  {
    HonestAnswer(session, clock + 1, 3);
    assert Answering(session.fates) ==> Responsive(session.fates, clock);
  }

  /** Sends the data and works out the new offset; None where the source raises. */
  method Submit(session: Session, offset: nat, data: Bytes) returns (next: Option<nat>)
    requires session.grain > 0
    modifies session
    ensures session.puts == old(session.puts) + 1 && session.clock > old(session.clock)
    ensures next == Understood(session, old(session.clock))
    ensures !ReadData(session.Response(session.fates(old(session.clock))), session.total).Unknown? ==>
              session.clock == old(session.clock) + 1
    ensures session.starts == old(session.starts) + [(offset, |old(session.committed)|)]
    ensures session.sent == old(session.sent) + [old(session.clock)]
    ensures session.added == old(session.added) + [|session.committed| - |old(session.committed)|]
    ensures if offset == |old(session.committed)| && !old(session.finalised) then
              var clock := old(session.clock);
              session.committed ==
              old(session.committed) + data[..Kept(session.fates(clock).persist, |data|, session.grain)] &&
              (session.finalised <==> |session.committed| == session.total && session.fates(clock).seal) &&
              session.completed ==
              (if |session.committed| == session.total then Some(clock) else old(session.completed))
            else session.committed == old(session.committed) && session.finalised == old(session.finalised) &&
                 session.completed == old(session.completed)
  {
    var reply := session.Put(offset, data);
    if !IsAccepted(reply) {
      if !Retried(reply) {
        return None;
      }
      next := QueryOffset(session);
    } else if reply.status == 308 && reply.range.Absent? {
      next := QueryOffset(session);
    } else {
      next := Acknowledged(reply, session.total);
    }
  }

  /** Sends one chunk from `offset` on and works out the new offset. */
  method SendChunk(session: Session, file: Bytes, offset: nat, chunkSize: nat, ghost since: nat)
    returns (next: Option<nat>)
    requires offset < |file| && 0 < chunkSize && session.grain > 0 && session.total == |file|
    modifies session
    ensures session.puts == old(session.puts) + 1 && session.clock > old(session.clock)
    ensures next == Understood(session, old(session.clock))
    ensures Honest(session.fates) && old(InStep(session, file, offset, since)) && !old(session.finalised) ==>
            InStep(session, file, |session.committed|, since) && (next.Some? ==> next.value == |session.committed|) &&
            offset <= |session.committed| &&
            (Whole(chunkSize, session.grain) && Whole(offset, session.grain) ==>
              Whole(|session.committed|, session.grain) || |session.committed| == |file|) &&
            session.sent == old(session.sent) + [old(session.clock)] &&
            session.added == old(session.added) + [|session.committed| - offset] &&
            (session.fates(old(session.clock)).persist >= session.grain ==> |session.committed| > offset) &&
            (Answering(session.fates) ==> next.Some?)
  {
    var data := file[offset..offset + Min(chunkSize, |file| - offset)];
    next := Submit(session, offset, data);
    if Honest(session.fates) {
      HonestUnderstood(session, old(session.clock));
    }
    hide Understood, Honest, Answering, Whole;
    Extends(file, offset, data, Kept(session.fates(old(session.clock)).persist, |data|, session.grain));
    if Whole(chunkSize, session.grain) && Whole(offset, session.grain) {
      KeptGrains(session.fates(old(session.clock)).persist, offset, chunkSize, |file|, session.grain);
    }
  }

  lemma Extends(file: Bytes, offset: nat, data: Bytes, kept: nat)
    requires offset + |data| <= |file| && data == file[offset..offset + |data|] && kept <= |data|
    ensures file[..offset] + data[..kept] == file[..offset + kept]
  {
  }

  lemma KeptGrains(persist: nat, offset: nat, chunkSize: nat, total: nat, grain: nat)
    requires grain > 0 && offset < total && Whole(chunkSize, grain) && Whole(offset, grain)
    ensures var end := offset + Kept(persist, Min(chunkSize, total - offset), grain);
            Whole(end, grain) || end == total
  {
    var n := Kept(persist, Min(chunkSize, total - offset), grain);
    if Whole(n, grain) {
      WholeAdd(offset, n, grain);
    }
  }

  /** Five data requests in a row, from the k-th on, that added nothing. */
  ghost predicate StalledFrom(added: seq<nat>, k: nat) {
    k + 5 <= |added| && forall j :: k <= j < k + 5 ==> added[j] == 0
  }

  /** Of any five data requests in a row the server means to keep something of at least one. */
  ghost predicate KeepsOneInFive(session: Session)
    reads session
  {
    forall k: nat :: k + 5 <= |session.sent| ==> KeepsOne(session, k)
  }

  ghost predicate KeepsOne(session: Session, k: nat)
    requires k + 5 <= |session.sent|
    reads session
  {
    exists j :: k <= j < k + 5 && session.fates(session.sent[j]).persist >= session.grain
  }

  /** The last `stalled` data requests added nothing, the one before them did, and no five in a row stalled. */
  ghost predicate StallsCounted(added: seq<nat>, stalled: nat) {
    stalled <= |added| && (forall j :: |added| - stalled <= j < |added| ==> added[j] == 0) &&
    (stalled < |added| ==> added[|added| - stalled - 1] > 0) && forall k: nat :: !StalledFrom(added, k)
  }

  lemma OneMoreAdded(added: seq<nat>, stalled: nat, n: nat)
    requires StallsCounted(added, stalled) && stalled < 5
    ensures forall k: nat :: StalledFrom(added + [n], k) ==> k + 5 == |added + [n]| && n == 0 && stalled == 4
    ensures n > 0 || stalled < 4 ==> StallsCounted(added + [n], if n > 0 then 0 else stalled + 1)
    ensures n == 0 && stalled == 4 ==> |added| >= 4 && StalledFrom(added + [n], |added| - 4)
  {
    var more := added + [n];
    assert forall j :: 0 <= j < |added| ==> more[j] == added[j];
    forall k: nat | StalledFrom(more, k)
      ensures k + 5 == |more| && n == 0 && stalled == 4
    {
      assert more[|added|] == n;
      assert k + 5 <= |added| ==> StalledFrom(added, k);
      LastPositive(more, k, |added| - stalled - 1);
    }
  }

  lemma LastPositive(added: seq<nat>, k: nat, j: int)
    requires StalledFrom(added, k) && k + 5 == |added| && j < |added| && (0 <= j ==> added[j] > 0)
    ensures j < k
  {
  }

  /** A request of which a grain is kept adds something. */
  ghost predicate KeptAdds(fates: nat -> Fate, grain: nat, sent: seq<nat>, added: seq<nat>) {
    |sent| == |added| && forall j :: 0 <= j < |sent| && fates(sent[j]).persist >= grain ==> added[j] > 0
  }

  lemma NeverFive(session: Session, k: nat)
    requires KeptAdds(session.fates, session.grain, session.sent, session.added) && KeepsOneInFive(session)
    ensures !StalledFrom(session.added, k)
  {
    if k + 5 <= |session.added| {
      assert KeepsOne(session, k);
    }
  }

  lemma NeverStalled(added: seq<nat>, stalled: nat)
    requires StallsCounted(added, stalled)
    ensures forall k: nat :: !StalledFrom(added, k)
  {
  }

  lemma NothingAdded(fates: nat -> Fate, grain: nat)
    ensures StallsCounted([], 0) && KeptAdds(fates, grain, [], [])
  {
  }

  /** Data requests in the order of time. */
  ghost predicate InTime(sent: seq<nat>, clock: nat) {
    (forall j :: 0 <= j < |sent| ==> sent[j] < clock) && forall i, j :: 0 <= i < j < |sent| ==> sent[i] < sent[j]
  }

  lemma KeptMore(fates: nat -> Fate, grain: nat, sent: seq<nat>, added: seq<nat>, request: nat, n: nat)
    requires KeptAdds(fates, grain, sent, added) && (fates(request).persist >= grain ==> n > 0)
    ensures KeptAdds(fates, grain, sent + [request], added + [n])
  {
  }

  /** A run against an honest server so far: the client and the server are in step, and stalls are counted. */
  ghost predicate OnTrack(session: Session, file: Bytes, offset: nat, stalled: nat)
    requires session.grain > 0
    reads session
  {
    InStep(session, file, offset, 0) && (offset < |file| ==> !session.finalised) &&
    StallsCounted(session.added, stalled) && InTime(session.sent, session.clock) &&
    KeptAdds(session.fates, session.grain, session.sent, session.added) &&
    (session.grain == CHUNK_UNIT ==>
      (Whole(offset, CHUNK_UNIT) || offset == |file|) &&
      session.puts <= MAX_STALLED * Grains(offset, CHUNK_UNIT) + stalled)
  }

  /** What holds of it whenever it stops. */
  ghost predicate Halted(session: Session, file: Bytes)
    requires session.grain > 0
    reads session
  {
    session.committed <= file && (session.finalised ==> session.committed == file) &&
    (forall i :: 0 <= i < |session.starts| ==> session.starts[i].0 == session.starts[i].1) &&
    (forall k: nat :: StalledFrom(session.added, k) ==> k + 5 == |session.added|) &&
    InTime(session.sent, session.clock) &&
    KeptAdds(session.fates, session.grain, session.sent, session.added) &&
    (session.grain == CHUNK_UNIT ==> session.puts <= MAX_STALLED * Grains(|file|, CHUNK_UNIT))
  }

  /** A run that sent everything. */
  lemma OnTrackEnd(session: Session, file: Bytes, offset: nat, stalled: nat)
    requires session.grain > 0 && session.total == |file| && offset >= |file|
    requires OnTrack(session, file, offset, stalled) && stalled == 0
    ensures Halted(session, file) && session.committed == file && forall k: nat :: !StalledFrom(session.added, k)
    ensures file != [] ==>
              session.completed.Some? && (session.finalised <==> session.fates(session.completed.value).seal)
  {
    NeverStalled(session.added, stalled);
    assert file[..|file|] == file;
  }

  lemma OnTrackStart(session: Session, file: Bytes)
    requires session.grain > 0 && session.total == |file|
    requires session.committed == [] && !session.finalised && session.puts == 0 && session.starts == []
    requires session.completed == None && session.sent == [] && session.added == []
    ensures OnTrack(session, file, 0, 0)
  {
    NothingAdded(session.fates, session.grain);
    assert file[..0] == [];
  }

  /** Sends one chunk and counts stalls; None where the client gives up. */
  method Advance(session: Session, file: Bytes, offset: nat, stalled: nat, chunkSize: nat)
    returns (next: Option<nat>, now: nat)
    requires offset < |file| && ValidChunk(chunkSize) && session.grain > 0 && session.total == |file|
    requires stalled < MAX_STALLED
    modifies session
    ensures session.puts == old(session.puts) + 1
    ensures next.Some? ==> next.value >= offset && now < MAX_STALLED
    ensures next.Some? ==> now == if next.value > offset then 0 else stalled + 1
    ensures Honest(session.fates) && old(OnTrack(session, file, offset, stalled)) ==>
      Halted(session, file) && (next.Some? ==> next.value <= |file| && OnTrack(session, file, next.value, now)) &&
      (Answering(session.fates) && next.None? ==> GaveUp(session.added))
  {
    ghost var sent, added, puts := session.sent, session.added, session.puts;
    UnitWhole(chunkSize);
    next := SendChunk(session, file, offset, chunkSize, 0);
    hide Honest, Answering, ValidChunk, StalledFrom;
    ghost var n := |session.committed|;
    if Honest(session.fates) && old(OnTrack(session, file, offset, stalled)) {
      assert session.sent == sent + [session.sent[|sent|]];
      OneMoreAdded(added, stalled, n - offset);
      KeptMore(session.fates, session.grain, sent, added, session.sent[|sent|], n - offset);
      if session.grain == CHUNK_UNIT {
        GrainsWithin(offset, n, |file|, CHUNK_UNIT);
      }
    }
    now := 0;
    if next.None? {
      return;
    }
    if next.value < offset {
      return None, 0;
    }
    if next.value == offset {
      now := stalled + 1;
      if now >= MAX_STALLED {
        return None, now;
      }
    }
  }

  /** The last five data requests added nothing. */
  ghost predicate GaveUp(added: seq<nat>) {
    |added| >= 5 && StalledFrom(added, |added| - 5)
  }

  lemma Stopped(session: Session, file: Bytes)
    requires session.grain > 0 && Halted(session, file)
    ensures session.committed <= file && (session.finalised ==> session.committed == file)
    ensures forall i :: 0 <= i < |session.starts| ==> session.starts[i].0 == session.starts[i].1
    ensures forall k: nat :: StalledFrom(session.added, k) ==> k + 5 == |session.added|
    ensures session.grain == CHUNK_UNIT ==> session.puts <= MAX_STALLED * Grains(|file|, CHUNK_UNIT)
    ensures KeepsOneInFive(session) ==> !GaveUp(session.added)
    ensures forall i, j :: 0 <= i < j < |session.sent| ==> session.sent[i] < session.sent[j]
    ensures Helpful(session.fates, session.grain) ==> KeepsOneInFive(session)
    ensures GaveUp(session.added) ==> exists k: nat :: StalledFrom(session.added, k)
  {
    if Helpful(session.fates, session.grain) {
      forall k: nat | k + 5 <= |session.sent|
        ensures KeepsOne(session, k)
      {
        assert session.fates(session.sent[k]).persist >= session.grain;
      }
    }
    if KeepsOneInFive(session) && |session.added| >= 5 {
      NeverFive(session, |session.added| - 5);
    }
  }

  /** The answer that the closing request of an empty file must have. */
  predicate Welcomes(answer: Answer) {
    match answer
    case Truth => true
    case Lost => false
    case Status(status) => status in {200, 201, 308}
    case Forged(reply) => reply.Reply? && reply.status in {200, 201, 308}
  }

  /** Uploads the file. Whatever the server answers, it stops within five data requests a byte; an honest server
      ends up with a prefix of the file, never sees a request that starts anywhere but at its own end, and if the
      upload succeeds has the whole file. Against an answering server it gives up exactly at the fifth data request
      in a row that adds nothing. */
  method Upload(session: Session, file: Bytes, chunkSize: nat) returns (ok: bool)
    requires session.grain > 0 && session.total == |file|
    requires session.committed == [] && !session.finalised && session.puts == 0 && session.starts == []
    requires session.completed == None && session.sent == [] && session.added == []
    modifies session
    ensures session.puts <= MAX_STALLED * |file|
    ensures Honest(session.fates) ==>
      session.committed <= file && (session.finalised ==> session.committed == file) &&
      (forall i :: 0 <= i < |session.starts| ==> session.starts[i].0 == session.starts[i].1)
    ensures Honest(session.fates) && ok ==> session.committed == file
    ensures Honest(session.fates) && ok ==>
      session.completed.Some? && (session.finalised <==> session.fates(session.completed.value).seal)
    ensures Honest(session.fates) && session.grain == CHUNK_UNIT ==>
      session.puts <= MAX_STALLED * Grains(|file|, CHUNK_UNIT)
    ensures chunkSize == 0 || chunkSize % 262144 != 0 ==> !ok && session.puts == 0
    ensures chunkSize > 0 && chunkSize % 262144 == 0 && Helpful(session.fates, session.grain) ==>
              ok || (|file| == 0 && !session.fates(old(session.clock)).answer.Truth?)
    ensures file == [] && chunkSize > 0 && chunkSize % 262144 == 0 ==>
      (ok <==> Welcomes(session.fates(old(session.clock)).answer))
    ensures Honest(session.fates) ==>
      (forall k: nat :: StalledFrom(session.added, k) ==> k + 5 == |session.added|) &&
      forall i, j :: 0 <= i < j < |session.sent| ==> session.sent[i] < session.sent[j]
    ensures chunkSize > 0 && chunkSize % 262144 == 0 && Answering(session.fates) && file != [] ==>
              (ok <==> forall k: nat :: !StalledFrom(session.added, k)) && (KeepsOneInFive(session) ==> ok)
  {
    if !ValidChunk(chunkSize) {
      return false;
    }
    ghost var honest := Honest(session.fates);
    if Answering(session.fates) {
      AnsweringHonest(session.fates);
    }
    OnTrackStart(session, file);
    var offset: nat, stalled: nat := 0, 0;
    hide OnTrack, Halted, Honest, Answering, GaveUp, KeepsOneInFive;
    while offset < |file|
      invariant 0 <= stalled < MAX_STALLED
      invariant session.puts <= MAX_STALLED * Min(offset, |file|) + stalled
      invariant offset >= |file| ==> stalled == 0
      invariant honest ==> offset <= |file| && OnTrack(session, file, offset, stalled)
      invariant |file| == 0 ==> session.clock == old(session.clock) && !session.finalised
      decreases |file| - Min(offset, |file|), MAX_STALLED - stalled
    {
      var next;
      next, stalled := Advance(session, file, offset, stalled, chunkSize);
      if next.None? {
        if honest {
          Stopped(session, file);
        }
        return false;
      }
      offset := next.value;
    }
    if honest {
      OnTrackEnd(session, file, offset, stalled);
      Stopped(session, file);
    }
    ok := true;
    if |file| == 0 {
      var reply := session.Conclude();
      ok := IsAccepted(reply);
    }
  }

  /** A server that keeps every chunk whole, answers truthfully, and never finalises: the upload succeeds all the
      same. */
  method Unfinalised(file: Bytes, chunkSize: nat) returns (session: Session, ok: bool)
    requires file != [] && chunkSize > 0 && chunkSize % CHUNK_UNIT == 0
    ensures fresh(session) && Honest(session.fates)
    ensures ok && session.committed == file && !session.finalised
  {
    var fates: nat -> Fate := i => Fate(|file| + CHUNK_UNIT, false, Truth);
    session := new Session(|file|, CHUNK_UNIT, fates, 200);
    assert forall i: nat :: Responsive(fates, i);
    AnsweringHonest(fates);
    ok := Upload(session, file, chunkSize);
  }

  /** A server that keeps nothing of the first chunk and everything from then on: one stall is survived. */
  method OneStall(file: Bytes, chunkSize: nat) returns (session: Session, ok: bool)
    requires file != [] && chunkSize > 0 && chunkSize % CHUNK_UNIT == 0
    ensures fresh(session) && session.fates(0) == Fate(0, true, Truth)
    ensures ok && session.committed == file && session.finalised
  {
    var fates: nat -> Fate := i => Fate(if i == 0 then 0 else |file| + CHUNK_UNIT, true, Truth);
    session := new Session(|file|, CHUNK_UNIT, fates, 200);
    assert forall i: nat :: Responsive(fates, i);
    AnsweringHonest(fates);
    ok := Upload(session, file, chunkSize);
    forall k: nat | k + 5 <= |session.sent|
      ensures KeepsOne(session, k)
    {
      assert session.sent[k] < session.sent[k + 1];
    }
  }

  /** Before the end there is always a grain to go, and every step forward uses one up. */
  lemma GrainsWithin(a: nat, b: nat, n: nat, grain: nat)
    requires grain > 0 && a < n && Whole(a, grain)
    ensures Grains(a, grain) + 1 <= Grains(n, grain)
    ensures a < b ==> Grains(a, grain) + 1 <= Grains(b, grain)
  {
    GrainsGrow(a, n, grain);
    if a < b {
      GrainsGrow(a, b, grain);
    }
  }
}
