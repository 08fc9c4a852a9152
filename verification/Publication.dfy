/** Publishing packages under immutable names: upload requests and migrations, interleaved one remote operation at a
    time. Any step may be the last of its process, and any operation that the source wraps in an exception handler
    may fail. */
module Publication {
  import opened Options

  type Bytes = seq<int>
  type Hash = string
  type Digest = Bytes -> Hash
  type Pid = nat

  datatype Object = Object(bytes: Bytes, sha1: Hash)

  datatype Record = Record(name: string, sha1: Hash, dependencies: seq<string>, blob: nat)

  /** Where an upload request stands. `Cleaning` is the `finally` block; `ok` says whether the copy is known to be
      good. */
  datatype Phase =
    | Received
    | Comparing
    | Uploading
    | Staged(staging: nat)
    | Verified(staging: nat)
    | Cleaning(staging: nat, ok: bool)
    | Mirrored
    | Discarding
    | Finished

  /** One upload request; `known` says that the catalogue already had the record. */
  datatype Upload = Upload(name: string, sha1: Hash, dependencies: Option<seq<string>>, blob: nat, known: bool,
                           phase: Phase)

  datatype Migrating = Started | Downloaded(bytes: Bytes) | Creating(bytes: Bytes) | Migrated

  datatype Migration = Migration(record: Record, phase: Migrating)

  datatype State = State(
    bucket: map<string, Object>, staging: map<nat, Object>, blobs: map<nat, Bytes>, catalog: set<Record>,
    uploads: map<Pid, Upload>, migrations: map<Pid, Migration>, usedBlobs: set<nat>, usedStaging: set<nat>)

  ghost predicate Init(s: State) {
    s == State(map[], map[], map[], {}, map[], map[], {}, {})
  }

  /** The catalogue and the bucket as an earlier release left them: records whose packages are in the blob store
      with the recorded digest, of which any may have been published already, and nothing going on. */
  ghost predicate Legacy(h: Digest, s: State) {
    s.staging == map[] && s.uploads == map[] && s.migrations == map[] && s.blobs.Keys <= s.usedBlobs &&
    Sound(h, s) && Consistent(s) && forall r :: r in s.catalog ==> RecordSound(h, s, r)
  }

  predicate ObjectMatches(existing: Object, sha1: Hash, size: nat) {
    existing.sha1 == sha1 && |existing.bytes| == size
  }

  /** A record answers a request when digest and dependencies agree; a request without dependencies accepts any. */
  predicate SameRelease(record: Record, u: Upload) {
    record.sha1 == u.sha1 && (u.dependencies.None? || u.dependencies.value == record.dependencies)
  }

  function SetPhase(s: State, p: Pid, phase: Phase): State
    requires p in s.uploads
  {
    s.(uploads := s.uploads[p := s.uploads[p].(phase := phase)])
  }

  function SetMigrating(s: State, p: Pid, phase: Migrating): State
    requires p in s.migrations
  {
    s.(migrations := s.migrations[p := s.migrations[p].(phase := phase)])
  }

  datatype Step =
    | Begin(p: Pid, name: string, sha1: Hash, dependencies: Option<seq<string>>, blob: nat, bytes: Bytes)
    | Decide(p: Pid, found: Option<Record>)
    | Compare(p: Pid)
    | Stage(p: Pid, staging: nat, noticed: bool)
    | Verify(p: Pid)
    | Copy(p: Pid, noticed: bool)
    | Clean(p: Pid, deleted: bool)
    | Commit(p: Pid, stored: bool)
    | Discard(p: Pid, deleted: bool)
    | Fail(p: Pid)
    | BeginMigration(p: Pid, record: Record)
    | Download(p: Pid, bytes: Bytes)
    | CheckTarget(p: Pid, apply: bool)
    | Create(p: Pid)
    | Crash(p: Pid)

  ghost predicate In(s: State, p: Pid, phase: Phase) {
    p in s.uploads && s.uploads[p].phase == phase
  }

  /** Whether `step` can be taken in `s`. */
  ghost predicate Enabled(s: State, step: Step) {
    match step
    case Begin(p, _, _, _, blob, _) => p !in s.uploads && p !in s.migrations && blob !in s.usedBlobs
    case Decide(p, found) =>
      // A query may miss a record that is there.
      In(s, p, Received) && (found.Some? ==> found.value in s.catalog && found.value.name == s.uploads[p].name)
    case Compare(p) => In(s, p, Comparing)
    case Stage(p, staging, _) => In(s, p, Uploading) && s.uploads[p].blob in s.blobs && staging !in s.usedStaging
    case Verify(p) => p in s.uploads && s.uploads[p].phase.Staged? && s.uploads[p].blob in s.blobs
    case Copy(p, _) => p in s.uploads && s.uploads[p].phase.Verified? && s.uploads[p].blob in s.blobs
    case Clean(p, _) => p in s.uploads && s.uploads[p].phase.Cleaning?
    case Commit(p, _) => In(s, p, Mirrored)
    case Discard(p, _) => In(s, p, Discarding)
    case Fail(p) => p in s.uploads && !s.uploads[p].phase.Finished? && !s.uploads[p].phase.Mirrored?
    case BeginMigration(p, record) => p !in s.uploads && p !in s.migrations && record in s.catalog
    case Download(p, _) => p in s.migrations && s.migrations[p].phase.Started?
    case CheckTarget(p, _) => p in s.migrations && s.migrations[p].phase.Downloaded?
    case Create(p) => p in s.migrations && s.migrations[p].phase.Creating?
    case Crash(p) => p in s.uploads || p in s.migrations
  }

  /** The state after `step`. */
  function Apply(h: Digest, s: State, step: Step): State
    requires Enabled(s, step)
  {
    match step
    case Begin(p, name, sha1, dependencies, blob, bytes) =>
      s.(uploads := s.uploads[p := Upload(name, sha1, dependencies, blob, false, Received)],
         blobs := s.blobs[blob := bytes], usedBlobs := s.usedBlobs + {blob})
    case Decide(p, found) =>
      if found.None? then SetPhase(s, p, Uploading)
      else if SameRelease(found.value, s.uploads[p]) then
        s.(uploads := s.uploads[p := s.uploads[p].(phase := Comparing, known := true)])
      else SetPhase(s, p, Discarding)
    case Compare(p) =>
      var u := s.uploads[p];
      if u.name !in s.bucket then SetPhase(s, p, Uploading)
      else if u.blob in s.blobs && ObjectMatches(s.bucket[u.name], u.sha1, |s.blobs[u.blob]|) then SetPhase(s, p,
           Mirrored)
      else SetPhase(s, p, Discarding)
    case Stage(p, staging, noticed) =>
      var u := s.uploads[p];
      SetPhase(s, p, if noticed then Staged(staging) else Discarding)
        .(staging := s.staging[staging := Object(s.blobs[u.blob], u.sha1)], usedStaging := s.usedStaging + {staging})
    case Verify(p) =>
      var u := s.uploads[p];
      var staging := u.phase.staging;
      SetPhase(s, p, if h(s.blobs[u.blob]) == u.sha1 then Verified(staging) else Cleaning(staging, false))
    case Copy(p, noticed) =>
      var u := s.uploads[p];
      var staging := u.phase.staging;
      if staging !in s.staging then SetPhase(s, p, Cleaning(staging, false))
      else if u.name !in s.bucket then
        SetPhase(s, p, Cleaning(staging, noticed)).(bucket := s.bucket[u.name := s.staging[staging]])
      else
        var good := ObjectMatches(s.bucket[u.name], u.sha1, |s.blobs[u.blob]|);
        SetPhase(s, p, Cleaning(staging, noticed && good))
    case Clean(p, deleted) =>
      var phase := s.uploads[p].phase;
      SetPhase(s, p, if phase.ok then Mirrored else Discarding)
        .(staging := if deleted then s.staging - {phase.staging} else s.staging)
    case Commit(p, stored) =>
      var u := s.uploads[p];
      if u.known then SetPhase(s, p, Discarding)
      else
        var record := Record(u.name, u.sha1, if u.dependencies.Some? then u.dependencies.value else [], u.blob);
        SetPhase(s, p, Finished).(catalog := if stored then s.catalog + {record} else s.catalog)
    case Discard(p, deleted) =>
      SetPhase(s, p, Finished).(blobs := if deleted then s.blobs - {s.uploads[p].blob} else s.blobs)
    case Fail(p) => SetPhase(s, p, FailedPhase(s.uploads[p].phase))
    case BeginMigration(p, record) => s.(migrations := s.migrations[p := Migration(record, Started)])
    case Download(p, bytes) =>
      // Whatever arrives counts only if its digest is the record's.
      SetMigrating(s, p, if h(bytes) == s.migrations[p].record.sha1 then Downloaded(bytes) else Migrated)
    case CheckTarget(p, apply) =>
      var m := s.migrations[p];
      SetMigrating(s, p, if m.record.name in s.bucket || !apply then Migrated else Creating(m.phase.bytes))
    case Create(p) =>
      var m := s.migrations[p];
      var t := SetMigrating(s, p, Migrated);
      if m.record.name in s.bucket then t
      else t.(bucket := s.bucket[m.record.name := Object(m.phase.bytes, m.record.sha1)])
    case Crash(p) =>
      if p in s.uploads then SetPhase(s, p, Finished) else SetMigrating(s, p, Migrated)
  }

  /** An exception: the `finally` block if something was staged, else straight to discarding the upload. */
  function FailedPhase(phase: Phase): Phase {
    match phase
    case Staged(staging) => Cleaning(staging, false)
    case Verified(staging) => Cleaning(staging, false)
    case Cleaning(_, _) => phase
    case _ => Discarding
  }

  ghost predicate Next(h: Digest, s: State, t: State) {
    exists step :: Enabled(s, step) && t == Apply(h, s, step)
  }

  // ---- what every step keeps ----

  ghost predicate Sound(h: Digest, s: State) {
    forall n :: n in s.bucket ==> h(s.bucket[n].bytes) == s.bucket[n].sha1
  }

  /** The record's blob is there with its digest, and so is the object of its name if that is published. */
  ghost predicate RecordSound(h: Digest, s: State, r: Record) {
    Agrees(s, r) && r.blob in s.blobs && h(s.blobs[r.blob]) == r.sha1 && r.blob in s.usedBlobs
  }

  predicate Agrees(s: State, r: Record) {
    r.name in s.bucket ==> s.bucket[r.name].sha1 == r.sha1
  }

  ghost predicate Consistent(s: State) {
    forall r, q :: r in s.catalog && q in s.catalog && r.name == q.name ==> r.sha1 == q.sha1
  }

  /** No record that is still to be published asks for other bytes than this upload. */
  ghost predicate Unopposed(s: State, name: string, sha1: Hash) {
    forall r :: r in s.catalog && r.name == name ==> r.name in s.bucket || r.sha1 == sha1
  }

  predicate MayPublish(u: Upload) {
    u.phase.Comparing? || u.phase.Uploading? || u.phase.Staged? || u.phase.Verified?
  }

  /** A query that finds nothing misses no unpublished record with another digest. */
  ghost predicate Harmless(s: State, step: Step) {
    step.Decide? && step.found.None? && step.p in s.uploads ==>
      Unopposed(s, s.uploads[step.p].name, s.uploads[step.p].sha1)
  }

  /** The digest of the uploaded bytes has been checked. */
  predicate Checked(u: Upload) {
    match u.phase
    case Verified(_) => true
    case Cleaning(_, ok) => ok
    case Mirrored => !u.known
    case _ => false
  }

  /** The published object is known to be the request's. */
  predicate Good(u: Upload) {
    u.phase.Mirrored? || (u.phase.Cleaning? && u.phase.ok)
  }

  ghost predicate UploadSound(h: Digest, s: State, u: Upload) {
    u.blob in s.usedBlobs &&
    (u.phase.Finished? ||
     (u.blob in s.blobs && (forall r :: r in s.catalog ==> r.blob != u.blob) &&
      (Checked(u) ==> h(s.blobs[u.blob]) == u.sha1) &&
      (u.phase.Comparing? ==> u.known) && (MayPublish(u) ==> Unopposed(s, u.name, u.sha1)) &&
      (Good(u) ==> u.name in s.bucket && s.bucket[u.name].sha1 == u.sha1) &&
      (u.phase.Staged? || u.phase.Verified? ==>
        u.phase.staging in s.usedStaging &&
        (u.phase.staging in s.staging ==> s.staging[u.phase.staging] == Object(s.blobs[u.blob], u.sha1)))))
  }

  ghost predicate MigrationSound(h: Digest, s: State, m: Migration) {
    m.record in s.catalog &&
    match m.phase
    case Downloaded(bytes) => h(bytes) == m.record.sha1
    case Creating(bytes) => h(bytes) == m.record.sha1
    case _ => true
  }

  ghost predicate Separate(s: State) {
    forall p, q :: p in s.uploads && q in s.uploads && p != q ==> s.uploads[p].blob != s.uploads[q].blob
  }

  ghost predicate Inv(h: Digest, s: State) {
    Sound(h, s) && Separate(s) && Consistent(s) && s.blobs.Keys <= s.usedBlobs && s.staging.Keys <= s.usedStaging &&
    (forall r :: r in s.catalog ==> RecordSound(h, s, r)) &&
    (forall p :: p in s.uploads ==> UploadSound(h, s, s.uploads[p])) &&
    (forall p :: p in s.migrations ==> MigrationSound(h, s, s.migrations[p]))
  }

  /** Published objects never change. */
  ghost predicate Keeps(s: State, t: State) {
    forall n :: n in s.bucket ==> n in t.bucket && t.bucket[n] == s.bucket[n]
  }

  lemma StepKeeps(h: Digest, s: State, step: Step)
    requires Enabled(s, step)
    ensures Keeps(s, Apply(h, s, step))
  {
  }

  /** A step of one upload: nothing it shares with others shrinks. */
  lemma UploadStep(h: Digest, s: State, t: State, p: Pid)
    requires Inv(h, s) && p in s.uploads && p in t.uploads
    requires t.uploads == s.uploads[p := t.uploads[p]] && t.uploads[p].blob == s.uploads[p].blob
    requires t.migrations == s.migrations && t.catalog == s.catalog && t.blobs == s.blobs && t.usedBlobs == s.usedBlobs
    requires Keeps(s, t) && Sound(h, t) && s.usedStaging <= t.usedStaging && t.staging.Keys <= t.usedStaging
    requires forall k :: k in s.usedStaging && k in t.staging ==> k in s.staging && t.staging[k] == s.staging[k]
    requires UploadSound(h, t, t.uploads[p])
    requires forall r :: r in s.catalog ==> Agrees(t, r)
    ensures Inv(h, t)
  {
    forall q | q in t.uploads
      ensures UploadSound(h, t, t.uploads[q])
    {
      assert UploadSound(h, s, s.uploads[q]);
    }
    assert forall r :: r in s.catalog ==> RecordSound(h, s, r);
  }

  lemma BeginInv(h: Digest, s: State, step: Step)
    requires Inv(h, s) && step.Begin? && Enabled(s, step)
    ensures Inv(h, Apply(h, s, step))
  {
    var t := Apply(h, s, step);
    forall q | q in t.uploads
      ensures UploadSound(h, t, t.uploads[q])
    {
      if q != step.p {
        assert UploadSound(h, s, s.uploads[q]);
      }
    }
    assert forall r :: r in s.catalog ==> RecordSound(h, s, r);
  }

  lemma CopyInv(h: Digest, s: State, step: Step)
    requires Inv(h, s) && step.Copy? && Enabled(s, step)
    ensures Inv(h, Apply(h, s, step))
  {
    assert UploadSound(h, s, s.uploads[step.p]);
    UploadStep(h, s, Apply(h, s, step), step.p);
  }

  lemma CommitInv(h: Digest, s: State, step: Step)
    requires Inv(h, s) && step.Commit? && Enabled(s, step)
    ensures Inv(h, Apply(h, s, step))
  {
    var t := Apply(h, s, step);
    var u := s.uploads[step.p];
    assert UploadSound(h, s, u);
    if u.known {
      UploadStep(h, s, t, step.p);
    } else {
      forall q | q in t.uploads
        ensures UploadSound(h, t, t.uploads[q])
      {
        assert UploadSound(h, s, s.uploads[q]);
      }
      forall r | r in t.catalog
        ensures RecordSound(h, t, r)
      {
        if r in s.catalog {
          assert RecordSound(h, s, r);
        }
      }
    }
  }

  lemma DiscardInv(h: Digest, s: State, step: Step)
    requires Inv(h, s) && step.Discard? && Enabled(s, step)
    ensures Inv(h, Apply(h, s, step))
  {
    var t := Apply(h, s, step);
    assert UploadSound(h, s, s.uploads[step.p]);
    forall q | q in t.uploads
      ensures UploadSound(h, t, t.uploads[q])
    {
      assert UploadSound(h, s, s.uploads[q]);
    }
    forall r | r in t.catalog
      ensures RecordSound(h, t, r)
    {
      assert RecordSound(h, s, r);
    }
  }

  /** A step that touches only one migration. */
  lemma MigrationStepInv(h: Digest, s: State, step: Step)
    requires Inv(h, s) && Enabled(s, step) && (step.BeginMigration? || step.Download? || step.CheckTarget?)
    ensures Inv(h, Apply(h, s, step))
  {
    var t := Apply(h, s, step);
    if !step.BeginMigration? {
      assert MigrationSound(h, s, s.migrations[step.p]);
    }
    assert MigrationSound(h, t, t.migrations[step.p]);
    OthersSound(h, s, t);
  }

  lemma CreateInv(h: Digest, s: State, step: Step)
    requires Inv(h, s) && Enabled(s, step) && step.Create?
    ensures Inv(h, Apply(h, s, step))
  {
    var t := Apply(h, s, step);
    assert MigrationSound(h, s, s.migrations[step.p]);
    StepKeeps(h, s, step);
    OthersSound(h, s, t);
  }

  /** Publishing more and moving a migration on disturbs neither uploads nor records. */
  lemma OthersSound(h: Digest, s: State, t: State)
    requires Inv(h, s) && Keeps(s, t) && t == s.(bucket := t.bucket, migrations := t.migrations)
    requires forall r :: r in s.catalog ==> Agrees(t, r)
    ensures forall p :: p in t.uploads ==> UploadSound(h, t, t.uploads[p])
    ensures forall r :: r in t.catalog ==> RecordSound(h, t, r)
  {
    forall q | q in t.uploads
      ensures UploadSound(h, t, t.uploads[q])
    {
      assert UploadSound(h, s, s.uploads[q]);
    }
    forall r | r in t.catalog
      ensures RecordSound(h, t, r)
    {
      assert RecordSound(h, s, r);
    }
  }

  lemma CrashInv(h: Digest, s: State, step: Step)
    requires Inv(h, s) && step.Crash? && Enabled(s, step)
    ensures Inv(h, Apply(h, s, step))
  {
    if step.p in s.uploads {
      assert UploadSound(h, s, s.uploads[step.p]);
      UploadStep(h, s, Apply(h, s, step), step.p);
    }
  }

  lemma StepInv(h: Digest, s: State, step: Step)
    requires Inv(h, s) && Enabled(s, step) && Harmless(s, step)
    ensures Inv(h, Apply(h, s, step))
  {
    hide Inv, UploadSound, Apply;
    match step
    case Begin(_, _, _, _, _, _) => BeginInv(h, s, step);
    case Copy(_, _) => CopyInv(h, s, step);
    case Commit(_, _) => CommitInv(h, s, step);
    case Discard(_, _) => DiscardInv(h, s, step);
    case BeginMigration(_, _) => MigrationStepInv(h, s, step);
    case Download(_, _) => MigrationStepInv(h, s, step);
    case CheckTarget(_, _) => MigrationStepInv(h, s, step);
    case Create(_) => CreateInv(h, s, step);
    case Crash(_) => CrashInv(h, s, step);
    case Decide(_, _) => DecideInv(h, s, step);
    case Compare(_) => CompareInv(h, s, step);
    case Stage(_, _, _) => StageInv(h, s, step);
    case Verify(_) => VerifyInv(h, s, step);
    case Clean(_, _) => CleanInv(h, s, step);
    case Fail(_) => FailInv(h, s, step);
  }

  function AfterDecide(u: Upload, found: Option<Record>): Upload {
    if found.None? then u.(phase := Uploading)
    else if SameRelease(found.value, u) then u.(phase := Comparing, known := true)
    else u.(phase := Discarding)
  }

  lemma Decides(h: Digest, s: State, step: Step)
    requires Enabled(s, step) && step.Decide?
    ensures Apply(h, s, step) == s.(uploads := s.uploads[step.p := AfterDecide(s.uploads[step.p], step.found)])
    ensures In(s, step.p, Received)
    ensures step.found.Some? ==> step.found.value in s.catalog && step.found.value.name == s.uploads[step.p].name
  {
  }

  lemma DecideInv(h: Digest, s: State, step: Step)
    requires Inv(h, s) && Enabled(s, step) && step.Decide? && Harmless(s, step)
    ensures Inv(h, Apply(h, s, step))
  {
    Decides(h, s, step);
    hide Apply, Enabled;
    var u, t := s.uploads[step.p], Apply(h, s, step);
    assert UploadSound(h, s, u);
    if step.found.Some? && SameRelease(step.found.value, u) {
      FoundUnopposed(s, step.found.value);
    }
    assert Unopposed(t, u.name, u.sha1) == Unopposed(s, u.name, u.sha1);
    assert UploadSound(h, t, t.uploads[step.p]);
    hide UploadSound;
    UploadStep(h, s, t, step.p);
  }

  lemma FoundUnopposed(s: State, r: Record)
    requires Consistent(s) && r in s.catalog
    ensures Unopposed(s, r.name, r.sha1)
  {
  }

  lemma CompareInv(h: Digest, s: State, step: Step)
    requires Inv(h, s) && Enabled(s, step) && step.Compare?
    ensures Inv(h, Apply(h, s, step))
  {
    assert UploadSound(h, s, s.uploads[step.p]);
    UploadStep(h, s, Apply(h, s, step), step.p);
  }

  lemma StageInv(h: Digest, s: State, step: Step)
    requires Inv(h, s) && Enabled(s, step) && step.Stage?
    ensures Inv(h, Apply(h, s, step))
  {
    assert UploadSound(h, s, s.uploads[step.p]);
    UploadStep(h, s, Apply(h, s, step), step.p);
  }

  lemma VerifyInv(h: Digest, s: State, step: Step)
    requires Inv(h, s) && Enabled(s, step) && step.Verify?
    ensures Inv(h, Apply(h, s, step))
  {
    assert UploadSound(h, s, s.uploads[step.p]);
    UploadStep(h, s, Apply(h, s, step), step.p);
  }

  lemma CleanInv(h: Digest, s: State, step: Step)
    requires Inv(h, s) && Enabled(s, step) && step.Clean?
    ensures Inv(h, Apply(h, s, step))
  {
    assert UploadSound(h, s, s.uploads[step.p]);
    UploadStep(h, s, Apply(h, s, step), step.p);
  }

  lemma FailInv(h: Digest, s: State, step: Step)
    requires Inv(h, s) && Enabled(s, step) && step.Fail?
    ensures Inv(h, Apply(h, s, step))
  {
    assert UploadSound(h, s, s.uploads[step.p]);
    UploadStep(h, s, Apply(h, s, step), step.p);
  }

  // ---- whole runs ----

  ghost predicate Run(h: Digest, run: seq<State>) {
    run != [] && Legacy(h, run[0]) && forall i :: 0 <= i < |run| - 1 ==> Next(h, run[i], run[i + 1])
  }

  ghost predicate HarmlessNext(h: Digest, s: State, t: State) {
    exists step :: Enabled(s, step) && Harmless(s, step) && t == Apply(h, s, step)
  }

  /** A run in which every query is harmless. */
  ghost predicate Careful(h: Digest, run: seq<State>) {
    forall i :: 0 <= i < |run| - 1 ==> HarmlessNext(h, run[i], run[i + 1])
  }

  /** Every record but the given ones is published. */
  ghost predicate Published(s: State, legacy: set<Record>) {
    forall r :: r in s.catalog && r !in legacy ==> r.name in s.bucket
  }

  lemma PublishedStep(h: Digest, s: State, step: Step, legacy: set<Record>)
    requires Inv(h, s) && Enabled(s, step) && Published(s, legacy)
    ensures Published(Apply(h, s, step), legacy)
  {
    StepKeeps(h, s, step);
    if step.Commit? {
      assert UploadSound(h, s, s.uploads[step.p]);
    }
  }

  lemma LegacyInv(h: Digest, s: State)
    requires Legacy(h, s)
    ensures Inv(h, s)
  {
  }

  lemma {:induction false} RunInv(h: Digest, run: seq<State>, i: nat)
    requires Run(h, run) && Careful(h, run) && i < |run|
    ensures Inv(h, run[i]) && Published(run[i], run[0].catalog)
  {
    hide Inv, Legacy, Apply, Enabled, Harmless, Published;
    if i == 0 {
      LegacyInv(h, run[0]);
      NothingNew(run[0]);
    } else {
      RunInv(h, run, i - 1);
      assert HarmlessNext(h, run[i - 1], run[i]);
      var step :| Enabled(run[i - 1], step) && Harmless(run[i - 1], step) && run[i] == Apply(h, run[i - 1], step);
      StepInv(h, run[i - 1], step);
      PublishedStep(h, run[i - 1], step, run[0].catalog);
    }
  }

  lemma NothingNew(s: State)
    ensures Published(s, s.catalog)
  {
  }

  /** In every careful run over any legacy catalogue, at every moment: a published object's bytes have its recorded
      digest; every record's source blob is there with its digest, and the object of its name, if published, has
      that digest too; records added since the start are published; any two records of one name agree. */
  lemma Safety(h: Digest, run: seq<State>, i: nat)
    requires Run(h, run) && Careful(h, run) && i < |run|
    ensures forall n :: n in run[i].bucket ==> h(run[i].bucket[n].bytes) == run[i].bucket[n].sha1
    ensures forall r :: r in run[i].catalog ==>
      r.blob in run[i].blobs && h(run[i].blobs[r.blob]) == r.sha1 &&
      (r.name in run[i].bucket ==> run[i].bucket[r.name].sha1 == r.sha1)
    ensures forall r :: r in run[i].catalog && r !in run[0].catalog ==> r.name in run[i].bucket
    ensures forall r, q :: r in run[i].catalog && q in run[i].catalog && r.name == q.name ==> r.sha1 == q.sha1
  {
    RunInv(h, run, i);
    assert forall r :: r in run[i].catalog ==> RecordSound(h, run[i], r);
  }

  /** Where every record is published, no query can do harm, whatever it misses. */
  lemma PublishedHarmless(s: State, step: Step)
    requires Published(s, {})
    ensures Harmless(s, step)
  {
  }

  lemma {:induction false} FreshInv(h: Digest, run: seq<State>, i: nat)
    requires Run(h, run) && Init(run[0]) && i < |run|
    ensures Inv(h, run[i]) && Published(run[i], {})
    ensures i < |run| - 1 ==> HarmlessNext(h, run[i], run[i + 1])
  {
    hide Inv, Legacy, Apply, Enabled, Harmless;
    if i == 0 {
      LegacyInv(h, run[0]);
    } else {
      FreshInv(h, run, i - 1);
      assert Next(h, run[i - 1], run[i]);
      var step :| Enabled(run[i - 1], step) && run[i] == Apply(h, run[i - 1], step);
      PublishedHarmless(run[i - 1], step);
      StepInv(h, run[i - 1], step);
      PublishedStep(h, run[i - 1], step, {});
    }
    if i < |run| - 1 {
      assert Next(h, run[i], run[i + 1]);
      var step :| Enabled(run[i], step) && run[i + 1] == Apply(h, run[i], step);
      PublishedHarmless(run[i], step);
    }
  }

  /** So every run from an empty catalogue is careful, and all its records are published. */
  lemma FreshSafety(h: Digest, run: seq<State>, i: nat)
    requires Run(h, run) && Init(run[0]) && i < |run|
    ensures Careful(h, run)
    ensures forall r :: r in run[i].catalog ==> r.name in run[i].bucket && run[i].bucket[r.name].sha1 == r.sha1
  {
    forall j | 0 <= j < |run| - 1
      ensures HarmlessNext(h, run[j], run[j + 1])
    {
      FreshInv(h, run, j);
    }
    FreshInv(h, run, i);
    assert forall r :: r in run[i].catalog ==> RecordSound(h, run[i], r);
  }

  /** And once published, an object is there unchanged for ever. */
  lemma {:induction false} Immutable(h: Digest, run: seq<State>, i: nat, j: nat)
    requires Run(h, run) && i <= j < |run|
    ensures Keeps(run[i], run[j])
    decreases j
  {
    hide Apply, Enabled, Legacy;
    if i < j {
      Immutable(h, run, i, j - 1);
      assert Next(h, run[j - 1], run[j]);
      var step :| Enabled(run[j - 1], step) && run[j] == Apply(h, run[j - 1], step);
      StepKeeps(h, run[j - 1], step);
    }
  }

  // ---- what the migration does, and what a missed record does ----

  ghost predicate Leads(h: Digest, run: seq<State>) {
    run != [] && forall i :: 0 <= i < |run| - 1 ==> Next(h, run[i], run[i + 1])
  }

  /** An unpublished record is published by a migration that downloads the right bytes. */
  lemma MigrationPublishes(h: Digest, s: State, p: Pid, r: Record, bytes: Bytes) returns (run: seq<State>)
    requires r in s.catalog && r.name !in s.bucket && p !in s.uploads && p !in s.migrations && h(bytes) == r.sha1
    ensures Leads(h, run) && run[0] == s && run[|run| - 1].bucket == s.bucket[r.name := Object(bytes, r.sha1)]
  {
    var s1 := Apply(h, s, BeginMigration(p, r));
    TakesStep(h, s, BeginMigration(p, r));
    var s2 := Apply(h, s1, Download(p, bytes));
    TakesStep(h, s1, Download(p, bytes));
    var rest := DownloadedPublishes(h, s2, p);
    run := [s, s1] + rest;
  }

  lemma TakesStep(h: Digest, s: State, step: Step)
    requires Enabled(s, step)
    ensures Next(h, s, Apply(h, s, step))
  {
  }

  lemma DownloadedPublishes(h: Digest, s: State, p: Pid) returns (run: seq<State>)
    requires p in s.migrations && s.migrations[p].phase.Downloaded? && s.migrations[p].record.name !in s.bucket
    ensures var m := s.migrations[p];
            Leads(h, run) && |run| == 3 && run[0] == s &&
            run[2].bucket == s.bucket[m.record.name := Object(m.phase.bytes, m.record.sha1)]
  {
    var s1 := Apply(h, s, CheckTarget(p, true));
    TakesStep(h, s, CheckTarget(p, true));
    var s2 := Apply(h, s1, Create(p));
    TakesStep(h, s1, Create(p));
    run := [s, s1, s2];
  }

  /** The condition on queries is needed: whenever one misses an unpublished record with another digest than that of a
      sound upload, the upload can go on to publish an object that the record disagrees with. */
  lemma MissBreaks(h: Digest, s: State, p: Pid, staging: nat) returns (run: seq<State>)
    requires In(s, p, Received) && !Harmless(s, Decide(p, None)) && staging !in s.usedStaging
    requires s.uploads[p].blob in s.blobs && h(s.blobs[s.uploads[p].blob]) == s.uploads[p].sha1
    ensures Leads(h, run) && run[0] == s && |run| == 5
    ensures exists r :: r in s.catalog && r in run[4].catalog && !Agrees(run[4], r)
  {
    var r :| r in s.catalog && r.name == s.uploads[p].name && r.name !in s.bucket && r.sha1 != s.uploads[p].sha1;
    var s1 := Apply(h, s, Decide(p, None));
    TakesStep(h, s, Decide(p, None));
    var s2 := Apply(h, s1, Stage(p, staging, true));
    TakesStep(h, s1, Stage(p, staging, true));
    var rest := StagedPublishes(h, s2, p, staging);
    run := [s, s1] + rest;
    assert r in run[4].catalog && !Agrees(run[4], r);
  }

  lemma StagedPublishes(h: Digest, s: State, p: Pid, staging: nat) returns (run: seq<State>)
    requires In(s, p, Staged(staging)) && staging in s.staging && s.uploads[p].name !in s.bucket
    requires s.uploads[p].blob in s.blobs && h(s.blobs[s.uploads[p].blob]) == s.uploads[p].sha1
    ensures Leads(h, run) && |run| == 3 && run[0] == s && run[2].catalog == s.catalog
    ensures run[2].bucket == s.bucket[s.uploads[p].name := s.staging[staging]]
  {
    var s1 := Apply(h, s, Verify(p));
    TakesStep(h, s, Verify(p));
    var s2 := Apply(h, s1, Copy(p, true));
    TakesStep(h, s1, Copy(p, true));
    run := [s, s1, s2];
  }

  /** Such a run from a catalogue of one legacy record, for any two contents that the digest tells apart. */
  lemma MissedRecord(h: Digest, legacy: Bytes, other: Bytes) returns (run: seq<State>)
    requires h(legacy) != h(other)
    ensures Run(h, run) && !Careful(h, run)
    ensures exists r :: r in run[0].catalog && r in run[|run| - 1].catalog && !Agrees(run[|run| - 1], r)
  {
    var record := Record("a-1-x86_64.pup", h(legacy), [], 0);
    var s := State(map[], map[], map[0 := legacy], {record}, map[], map[], {0}, {});
    var begin := Begin(0, record.name, h(other), None, 1, other);
    assert Enabled(s, begin);
    var t := Apply(h, s, begin);
    assert record in t.catalog && !Harmless(t, Decide(0, None));
    var rest := MissBreaks(h, t, 0, 0);
    run := [s] + rest;
    assert Next(h, s, t);
    forall i | 0 <= i < |run| - 1
      ensures Next(h, run[i], run[i + 1])
    {
      if i > 0 {
        assert Next(h, rest[i - 1], rest[i]);
      }
    }
    if Careful(h, run) {
      Safety(h, run, |run| - 1);
    }
  }
}
