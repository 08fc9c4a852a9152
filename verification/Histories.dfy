/** Runs of publication step by step: where every record comes from, how every request ended, and what one
    undisturbed request does. */
module Histories {
  import opened Options
  import opened Publication

  /** A run with the step taken at each moment. */
  ghost predicate History(h: Digest, run: seq<State>, steps: seq<Step>) {
    |run| == |steps| + 1 && Legacy(h, run[0]) &&
    forall i :: 0 <= i < |steps| ==> Enabled(run[i], steps[i]) && run[i + 1] == Apply(h, run[i], steps[i])
  }

  /** Every run has one. */
  lemma {:induction false} HasHistory(h: Digest, run: seq<State>) returns (steps: seq<Step>)
    requires Run(h, run)
    ensures History(h, run, steps)
  {
    hide Legacy, Apply, Enabled;
    if |run| == 1 {
      steps := [];
    } else {
      var n := |run| - 1;
      steps := HasHistory(h, run[..n]);
      assert Next(h, run[n - 1], run[n]);
      var step :| Enabled(run[n - 1], step) && run[n] == Apply(h, run[n - 1], step);
      steps := steps + [step];
    }
  }

  // ---- requests ----

  /** The j-th step is the arrival of this request. */
  ghost predicate Requested(steps: seq<Step>, j: nat, p: Pid, name: string, sha1: Hash,
                            dependencies: Option<seq<string>>, blob: nat, bytes: Bytes) {
    j < |steps| && steps[j] == Begin(p, name, sha1, dependencies, blob, bytes)
  }

  /** An earlier step brought this request; its blob, while it is there, holds what was uploaded. */
  ghost predicate FromRequest(s: State, steps: seq<Step>, i: nat, p: Pid)
    requires p in s.uploads && i <= |steps|
  {
    exists j: nat, bytes: Bytes ::
      j < i && Requested(steps, j, p, s.uploads[p].name, s.uploads[p].sha1, s.uploads[p].dependencies,
                         s.uploads[p].blob, bytes) &&
      (s.uploads[p].blob in s.blobs ==> s.blobs[s.uploads[p].blob] == bytes)
  }

  /** The part of a request that came with it. */
  ghost predicate SameRequest(u: Upload, v: Upload) {
    v.name == u.name && v.sha1 == u.sha1 && v.dependencies == u.dependencies && v.blob == u.blob
  }

  /** It never changes, and blobs are not overwritten. */
  lemma RequestKept(h: Digest, s: State, step: Step, p: Pid)
    requires Enabled(s, step) && p in s.uploads && BlobsUsed(s)
    ensures var t := Apply(h, s, step);
            p in t.uploads && SameRequest(s.uploads[p], t.uploads[p]) &&
            (t.uploads[p].blob in t.blobs ==>
              s.uploads[p].blob in s.blobs && t.blobs[t.uploads[p].blob] == s.blobs[s.uploads[p].blob])
  {
    FieldsKept(h, s, step, p);
    BlobsKept(h, s, step, s.uploads[p].blob);
  }

  lemma FieldsKept(h: Digest, s: State, step: Step, p: Pid)
    requires Enabled(s, step) && p in s.uploads
    ensures p in Apply(h, s, step).uploads && SameRequest(s.uploads[p], Apply(h, s, step).uploads[p])
  {
    OneUpload(h, s, step);
    hide Apply, Enabled;
  }

  /** A step changes no more of the requests than where its own stands, and whether that is known. */
  lemma OneUpload(h: Digest, s: State, step: Step)
    requires Enabled(s, step)
    ensures var t := Apply(h, s, step);
            if step.Begin? then
              t.uploads == s.uploads[step.p := Upload(step.name, step.sha1, step.dependencies, step.blob, false,
                                                      Received)]
            else if step.p in s.uploads then
              step.p in t.uploads &&
              t.uploads == s.uploads[step.p := s.uploads[step.p].(phase := t.uploads[step.p].phase,
                                                                  known := t.uploads[step.p].known)]
            else t.uploads == s.uploads
    ensures !step.Begin? && !step.Decide? && step.p in s.uploads ==>
              Apply(h, s, step).uploads[step.p].known == s.uploads[step.p].known
  {
  }

  lemma BlobsKept(h: Digest, s: State, step: Step, blob: nat)
    requires Enabled(s, step) && blob in s.usedBlobs
    ensures blob in Apply(h, s, step).blobs ==> blob in s.blobs && Apply(h, s, step).blobs[blob] == s.blobs[blob]
  {
    OneBlob(h, s, step);
    hide Apply, Enabled;
  }

  lemma OneBlob(h: Digest, s: State, step: Step)
    requires Enabled(s, step)
    ensures var t := Apply(h, s, step);
            if step.Begin? then
              step.blob !in s.usedBlobs && t.blobs == s.blobs[step.blob := step.bytes] &&
              t.usedBlobs == s.usedBlobs + {step.blob}
            else
              (t.blobs == s.blobs || (step.p in s.uploads && t.blobs == s.blobs - {s.uploads[step.p].blob})) &&
              t.usedBlobs == s.usedBlobs
  {
  }

  lemma NewRequest(h: Digest, s: State, step: Step, p: Pid)
    requires Enabled(s, step) && p !in s.uploads && p in Apply(h, s, step).uploads
    ensures var t := Apply(h, s, step);
            step.Begin? && step.p == p && t.uploads[p].name == step.name && t.uploads[p].sha1 == step.sha1 &&
            t.uploads[p].dependencies == step.dependencies && t.uploads[p].blob == step.blob &&
            t.blobs[step.blob] == step.bytes && !t.uploads[p].known && t.uploads[p].phase.Received?
  {
    OneUpload(h, s, step);
    OneBlob(h, s, step);
    hide Apply, Enabled;
  }

  ghost predicate BlobsUsed(s: State) {
    s.blobs.Keys <= s.usedBlobs && forall p :: p in s.uploads ==> s.uploads[p].blob in s.usedBlobs
  }

  lemma BlobsUsedStep(h: Digest, s: State, step: Step)
    requires Enabled(s, step) && BlobsUsed(s)
    ensures BlobsUsed(Apply(h, s, step)) && s.usedBlobs <= Apply(h, s, step).usedBlobs
    ensures step.Begin? ==> step.blob !in s.usedBlobs && step.blob in Apply(h, s, step).usedBlobs
  {
    OneUpload(h, s, step);
    OneBlob(h, s, step);
    hide Apply, Enabled;
  }

  lemma {:induction false} RunBlobsUsed(h: Digest, run: seq<State>, steps: seq<Step>, i: nat)
    requires History(h, run, steps) && i < |run|
    ensures BlobsUsed(run[i])
  {
    hide Apply, Enabled, BlobsUsed;
    if i == 0 {
      LegacyUsed(h, run[0]);
    } else {
      RunBlobsUsed(h, run, steps, i - 1);
      BlobsUsedStep(h, run[i - 1], steps[i - 1]);
    }
  }

  lemma LegacyUsed(h: Digest, s: State)
    requires Legacy(h, s)
    ensures BlobsUsed(s)
  {
  }

  /** Every request of a run was brought by an earlier step. */
  lemma {:induction false} RequestsArrived(h: Digest, run: seq<State>, steps: seq<Step>, i: nat, p: Pid)
    requires History(h, run, steps) && i < |run| && p in run[i].uploads
    ensures FromRequest(run[i], steps, i, p)
  {
    hide Apply, Enabled;
    if i > 0 {
      var s, t, step := run[i - 1], run[i], steps[i - 1];
      if p in s.uploads {
        RequestsArrived(h, run, steps, i - 1, p);
        RunBlobsUsed(h, run, steps, i - 1);
        RequestKept(h, s, step, p);
        var j: nat, bytes: Bytes :|
          j < i - 1 && Requested(steps, j, p, s.uploads[p].name, s.uploads[p].sha1, s.uploads[p].dependencies,
                                 s.uploads[p].blob, bytes) &&
          (s.uploads[p].blob in s.blobs ==> s.blobs[s.uploads[p].blob] == bytes);
        assert Requested(steps, j, p, t.uploads[p].name, t.uploads[p].sha1, t.uploads[p].dependencies,
                         t.uploads[p].blob, bytes);
      } else {
        NewRequest(h, s, step, p);
        assert Requested(steps, i - 1, p, step.name, step.sha1, step.dependencies, step.blob, step.bytes);
      }
    }
  }

  lemma {:induction false} UsedGrow(h: Digest, run: seq<State>, steps: seq<Step>, i: nat, j: nat)
    requires History(h, run, steps) && i <= j < |run|
    ensures run[i].usedBlobs <= run[j].usedBlobs
    decreases j
  {
    hide Apply, Enabled;
    if i < j {
      UsedGrow(h, run, steps, i, j - 1);
      RunBlobsUsed(h, run, steps, j - 1);
      BlobsUsedStep(h, run[j - 1], steps[j - 1]);
    }
  }

  /** No two requests of a run have the same blob. */
  lemma OneRequest(h: Digest, run: seq<State>, steps: seq<Step>, i: nat, j: nat)
    requires History(h, run, steps) && i < j < |steps| && steps[i].Begin? && steps[j].Begin?
    ensures steps[i].blob != steps[j].blob
  {
    hide Apply, Enabled;
    RunBlobsUsed(h, run, steps, i);
    RunBlobsUsed(h, run, steps, j);
    BlobsUsedStep(h, run[i], steps[i]);
    BlobsUsedStep(h, run[j], steps[j]);
    UsedGrow(h, run, steps, i + 1, j);
  }

  // ---- records ----

  /** A record as the request asked for it; no dependencies only where none were given. */
  ghost predicate RecordOf(r: Record, u: Upload) {
    r.name == u.name && r.sha1 == u.sha1 && r.blob == u.blob &&
    match u.dependencies
    case Some(given) => r.dependencies == given
    case None => r.dependencies == []
  }

  /** Some finished request asked for this record, and was not answered by another. */
  ghost predicate Asked(s: State, r: Record) {
    exists p :: p in s.uploads && s.uploads[p].phase.Finished? && !s.uploads[p].known && RecordOf(r, s.uploads[p])
  }

  lemma AskedStep(h: Digest, s: State, step: Step, r: Record)
    requires Enabled(s, step) && Asked(s, r)
    ensures Asked(Apply(h, s, step), r)
  {
    var t := Apply(h, s, step);
    var p :| p in s.uploads && s.uploads[p].phase.Finished? && !s.uploads[p].known && RecordOf(r, s.uploads[p]);
    assert p in t.uploads && t.uploads[p] == s.uploads[p];
  }

  lemma NewRecord(h: Digest, s: State, step: Step, r: Record)
    requires Enabled(s, step) && r in Apply(h, s, step).catalog && r !in s.catalog
    ensures Asked(Apply(h, s, step), r)
  {
    var t := Apply(h, s, step);
    assert step.Commit? && step.p in t.uploads && t.uploads[step.p].phase.Finished?;
    assert RecordOf(r, t.uploads[step.p]);
  }

  lemma {:induction false} RecordsAsked(h: Digest, run: seq<State>, steps: seq<Step>, i: nat, r: Record)
    requires History(h, run, steps) && i < |run| && r in run[i].catalog && r !in run[0].catalog
    ensures Asked(run[i], r)
  {
    hide Apply, Enabled, Asked;
    if i > 0 {
      if r in run[i - 1].catalog {
        RecordsAsked(h, run, steps, i - 1, r);
        AskedStep(h, run[i - 1], steps[i - 1], r);
      } else {
        NewRecord(h, run[i - 1], steps[i - 1], r);
      }
    }
  }

  /** In every run, each record that is new since the start has the name, digest and dependencies of a request that
      brought its blob, and no other request brought that blob. In a careful run what was brought is what is in the
      blob store, and has the digest. */
  lemma Provenance(h: Digest, run: seq<State>, steps: seq<Step>, i: nat, r: Record)
    returns (j: nat, p: Pid, dependencies: Option<seq<string>>, bytes: Bytes)
    requires History(h, run, steps) && i < |run| && r in run[i].catalog && r !in run[0].catalog
    ensures j < i && steps[j] == Begin(p, r.name, r.sha1, dependencies, r.blob, bytes)
    ensures r.dependencies == if dependencies.Some? then dependencies.value else []
    ensures forall k :: 0 <= k < |steps| && k != j && steps[k].Begin? ==> steps[k].blob != r.blob
    ensures Careful(h, run) ==> r.blob in run[i].blobs && run[i].blobs[r.blob] == bytes && h(bytes) == r.sha1
  {
    RecordsAsked(h, run, steps, i, r);
    hide Apply, Enabled, Legacy;
    p :| p in run[i].uploads && run[i].uploads[p].phase.Finished? && !run[i].uploads[p].known &&
         RecordOf(r, run[i].uploads[p]);
    dependencies := run[i].uploads[p].dependencies;
    RequestsArrived(h, run, steps, i, p);
    j, bytes :|
      j < i && Requested(steps, j, p, r.name, r.sha1, dependencies, r.blob, bytes) &&
      (r.blob in run[i].blobs ==> run[i].blobs[r.blob] == bytes);
    forall k | 0 <= k < |steps| && k != j && steps[k].Begin?
      ensures steps[k].blob != r.blob
    {
      if k < j {
        OneRequest(h, run, steps, k, j);
      } else {
        OneRequest(h, run, steps, j, k);
      }
    }
    if Careful(h, run) {
      IsRun(h, run, steps);
      Safety(h, run, i);
    }
  }

  lemma IsRun(h: Digest, run: seq<State>, steps: seq<Step>)
    requires History(h, run, steps)
    ensures Run(h, run)
  {
    hide Apply, Enabled, Legacy;
    forall i | 0 <= i < |run| - 1
      ensures Next(h, run[i], run[i + 1])
    {
      assert Enabled(run[i], steps[i]);
    }
  }

  // ---- requests that are answered by a record ----

  /** A query found this record for the request. */
  ghost predicate AnsweredBy(run: seq<State>, steps: seq<Step>, k: nat, p: Pid, r: Record) {
    k < |steps| < |run| && steps[k] == Decide(p, Some(r)) && r in run[k].catalog
  }

  /** A request ends as known only if a query found a record of its name and digest, with its dependencies if it gave
      any. */
  lemma {:induction false} KnownAnswered(h: Digest, run: seq<State>, steps: seq<Step>, i: nat, p: Pid)
    returns (k: nat, r: Record)
    requires History(h, run, steps) && i < |run| && p in run[i].uploads && run[i].uploads[p].known
    ensures k < i && AnsweredBy(run, steps, k, p, r)
    ensures var u := run[i].uploads[p];
            r.name == u.name && r.sha1 == u.sha1 &&
            (u.dependencies.Some? ==> r.dependencies == u.dependencies.value)
  {
    hide Apply, Enabled;
    var s, step := run[i - 1], steps[i - 1];
    if p in s.uploads {
      RunBlobsUsed(h, run, steps, i - 1);
      RequestKept(h, s, step, p);
      if s.uploads[p].known {
        k, r := KnownAnswered(h, run, steps, i - 1, p);
      } else {
        BecomesKnown(h, s, step, p);
        k, r := i - 1, step.found.value;
      }
    } else {
      NewRequest(h, s, step, p);
    }
  }

  lemma BecomesKnown(h: Digest, s: State, step: Step, p: Pid)
    requires Enabled(s, step) && p in s.uploads && !s.uploads[p].known
    requires p in Apply(h, s, step).uploads && Apply(h, s, step).uploads[p].known
    ensures step.Decide? && step.p == p && step.found.Some? && step.found.value in s.catalog
    ensures var r, u := step.found.value, s.uploads[p];
            r.name == u.name && r.sha1 == u.sha1 &&
            (u.dependencies.Some? ==> r.dependencies == u.dependencies.value)
  {
    OneUpload(h, s, step);
    if step.Decide? {
      Decides(h, s, step);
    }
    hide Apply, Enabled;
  }

  // ---- one request on its own ----

  /** These steps lead from s to t. */
  ghost predicate Path(h: Digest, s: State, steps: seq<Step>, t: State)
    decreases |steps|
  {
    if steps == [] then s == t else Enabled(s, steps[0]) && Path(h, Apply(h, s, steps[0]), steps[1..], t)
  }

  lemma {:induction false} Onward(h: Digest, s: State, steps: seq<Step>, t: State, more: seq<Step>, last: State)
    requires Path(h, s, steps, t) && Path(h, t, more, last)
    ensures Path(h, s, steps + more, last)
    decreases |steps|
  {
    if steps == [] {
      assert steps + more == more;
    } else {
      assert (steps + more)[1..] == steps[1..] + more;
      Onward(h, Apply(h, s, steps[0]), steps[1..], t, more, last);
    }
  }

  lemma OneStep(h: Digest, s: State, step: Step)
    requires Enabled(s, step)
    ensures Path(h, s, [step], Apply(h, s, step))
  {
    hide Apply, Enabled;
    assert [step][1..] == [];
  }

  /** The bucket and the catalogue that a request leaves behind, and whether its blob is kept. */
  datatype Result = Result(bucket: map<string, Object>, catalog: set<Record>, kept: bool)

  /** An upload without a record of its name: it must have its digest, and agree with what is published. */
  function NewUpload(h: Digest, s: State, name: string, sha1: Hash, dependencies: Option<seq<string>>, blob: nat,
                     bytes: Bytes): Result {
    var record := Record(name, sha1, if dependencies.None? then [] else dependencies.value, blob);
    if h(bytes) != sha1 then Result(s.bucket, s.catalog, false)
    else if name !in s.bucket then Result(s.bucket[name := Object(bytes, sha1)], s.catalog + {record}, true)
    else if s.bucket[name].sha1 == sha1 && |s.bucket[name].bytes| == |bytes| then
      Result(s.bucket, s.catalog + {record}, true)
    else Result(s.bucket, s.catalog, false)
  }

  /** One with a record: no other is made; where digest and dependencies agree, an object that is missing is
      published from it. */
  function KnownUpload(h: Digest, s: State, name: string, sha1: Hash, dependencies: Option<seq<string>>, bytes: Bytes,
                       found: Record): Result {
    if found.sha1 == sha1 && (dependencies.Some? ==> dependencies.value == found.dependencies) && h(bytes) == sha1 &&
       name !in s.bucket
    then Result(s.bucket[name := Object(bytes, sha1)], s.catalog, false)
    else Result(s.bucket, s.catalog, false)
  }

  /** Without disturbance a request comes to exactly this, and leaves nothing staged. */
  lemma Undisturbed(h: Digest, s: State, p: Pid, name: string, sha1: Hash, dependencies: Option<seq<string>>,
                    blob: nat, bytes: Bytes, found: Option<Record>, staging: nat)
    returns (steps: seq<Step>, t: State)
    requires p !in s.uploads && p !in s.migrations && blob !in s.usedBlobs && s.blobs.Keys <= s.usedBlobs
    requires staging !in s.usedStaging && s.staging.Keys <= s.usedStaging
    requires found.Some? ==> found.value in s.catalog && found.value.name == name
    ensures Path(h, s, steps, t) && steps != [] && steps[0] == Begin(p, name, sha1, dependencies, blob, bytes)
    ensures p in t.uploads && t.uploads[p].phase.Finished? && t.staging == s.staging
    ensures var result := if found.None? then NewUpload(h, s, name, sha1, dependencies, blob, bytes)
                          else KnownUpload(h, s, name, sha1, dependencies, bytes, found.value);
            t.bucket == result.bucket && t.catalog == result.catalog &&
            t.blobs == if result.kept then s.blobs[blob := bytes] else s.blobs
  {
    hide Apply, Enabled, Path;
    var opening, s1 := Opening(h, s, p, name, sha1, dependencies, blob, bytes, found);
    var middle, s2 := Through(h, s1, p, staging);
    Onward(h, s, opening, s1, middle, s2);
    var end;
    end, t := Finish(h, s2, p);
    Onward(h, s, opening + middle, s2, end, t);
    steps := opening + middle + end;
    Removed(s.blobs, blob, bytes);
  }

  lemma Removed(blobs: map<nat, Bytes>, blob: nat, bytes: Bytes)
    requires blob !in blobs
    ensures blobs[blob := bytes] - {blob} == blobs
  {
  }

  /** The request arrives, and a query decides what becomes of it. */
  lemma Opening(h: Digest, s: State, p: Pid, name: string, sha1: Hash, dependencies: Option<seq<string>>, blob: nat,
                bytes: Bytes, found: Option<Record>) returns (steps: seq<Step>, t: State)
    requires p !in s.uploads && p !in s.migrations && blob !in s.usedBlobs
    requires found.Some? ==> found.value in s.catalog && found.value.name == name
    ensures Path(h, s, steps, t) && steps != [] && steps[0] == Begin(p, name, sha1, dependencies, blob, bytes)
    ensures var same := found.Some? && found.value.sha1 == sha1 &&
                        (dependencies.Some? ==> dependencies.value == found.value.dependencies);
            var phase := if found.None? then Uploading else if same then Comparing else Discarding;
            t == s.(uploads := s.uploads[p := Upload(name, sha1, dependencies, blob, same, phase)],
                    blobs := s.blobs[blob := bytes], usedBlobs := s.usedBlobs + {blob})
  {
    var begin, decide := Begin(p, name, sha1, dependencies, blob, bytes), Decide(p, found);
    var s1 := Apply(h, s, begin);
    OneStep(h, s, begin);
    t := Apply(h, s1, decide);
    OneStep(h, s1, decide);
    Onward(h, s, [begin], s1, [decide], t);
    steps := [begin] + [decide];
  }

  /** The request's published object agrees, or nothing is published and its bytes have the digest. */
  ghost predicate Publishable(h: Digest, s: State, u: Upload)
    requires u.blob in s.blobs
  {
    if u.name in s.bucket then ObjectMatches(s.bucket[u.name], u.sha1, |s.blobs[u.blob]|)
    else h(s.blobs[u.blob]) == u.sha1
  }

  /** From the decision to the end of the copying. */
  lemma Through(h: Digest, s: State, p: Pid, staging: nat) returns (steps: seq<Step>, t: State)
    requires p in s.uploads && s.uploads[p].blob in s.blobs
    requires s.uploads[p].phase in {Comparing, Uploading, Discarding}
    requires staging !in s.usedStaging && s.staging.Keys <= s.usedStaging
    ensures Path(h, s, steps, t)
    ensures t.staging == s.staging && t.catalog == s.catalog && t.blobs == s.blobs && p in t.uploads
    ensures var u := s.uploads[p];
            var fine := Publishable(h, s, u) && (u.phase.Uploading? ==> h(s.blobs[u.blob]) == u.sha1);
            t.uploads[p] == u.(phase := if fine && !u.phase.Discarding? then Mirrored else Discarding) &&
            t.bucket == if fine && !u.phase.Discarding? && u.name !in s.bucket
                        then s.bucket[u.name := Object(s.blobs[u.blob], u.sha1)] else s.bucket
  {
    if s.uploads[p].phase.Discarding? {
      steps, t := [], s;
    } else if s.uploads[p].phase.Uploading? {
      steps, t := Copying(h, s, p, staging);
    } else {
      var s1 := Apply(h, s, Compare(p));
      OneStep(h, s, Compare(p));
      if s1.uploads[p].phase.Uploading? {
        steps, t := Copying(h, s1, p, staging);
        Onward(h, s, [Compare(p)], s1, steps, t);
        steps := [Compare(p)] + steps;
      } else {
        steps, t := [Compare(p)], s1;
      }
    }
  }

  lemma Copying(h: Digest, s: State, p: Pid, staging: nat) returns (steps: seq<Step>, t: State)
    requires In(s, p, Uploading) && s.uploads[p].blob in s.blobs
    requires staging !in s.usedStaging && s.staging.Keys <= s.usedStaging
    ensures Path(h, s, steps, t)
    ensures t.staging == s.staging && t.catalog == s.catalog && t.blobs == s.blobs && p in t.uploads
    ensures var u := s.uploads[p];
            var fine := Publishable(h, s, u) && h(s.blobs[u.blob]) == u.sha1;
            t.uploads[p] == u.(phase := if fine then Mirrored else Discarding) &&
            t.bucket == if fine && u.name !in s.bucket then s.bucket[u.name := Object(s.blobs[u.blob], u.sha1)]
                        else s.bucket
  {
    var s1 := Apply(h, s, Stage(p, staging, true));
    OneStep(h, s, Stage(p, staging, true));
    var s2 := Apply(h, s1, Verify(p));
    OneStep(h, s1, Verify(p));
    Onward(h, s, [Stage(p, staging, true)], s1, [Verify(p)], s2);
    if s2.uploads[p].phase.Verified? {
      steps, t := CopyAndClean(h, s2, p);
    } else {
      steps, t := [Clean(p, true)], Apply(h, s2, Clean(p, true));
      OneStep(h, s2, Clean(p, true));
      assert t.staging == s.staging;
    }
    hide Apply, Enabled, Path;
    Onward(h, s, [Stage(p, staging, true)] + [Verify(p)], s2, steps, t);
    steps := [Stage(p, staging, true)] + [Verify(p)] + steps;
  }

  lemma CopyAndClean(h: Digest, s: State, p: Pid) returns (steps: seq<Step>, t: State)
    requires p in s.uploads && s.uploads[p].phase.Verified? && s.uploads[p].blob in s.blobs
    requires s.uploads[p].phase.staging in s.staging
    ensures Path(h, s, steps, t)
    ensures t.staging == s.staging - {s.uploads[p].phase.staging} && t.catalog == s.catalog && t.blobs == s.blobs
    ensures var u := s.uploads[p];
            var fine := u.name in s.bucket ==> ObjectMatches(s.bucket[u.name], u.sha1, |s.blobs[u.blob]|);
            p in t.uploads && t.uploads[p] == u.(phase := if fine then Mirrored else Discarding) &&
            t.bucket == if u.name !in s.bucket then s.bucket[u.name := s.staging[u.phase.staging]] else s.bucket
  {
    var s1 := Apply(h, s, Copy(p, true));
    OneStep(h, s, Copy(p, true));
    t := Apply(h, s1, Clean(p, true));
    OneStep(h, s1, Clean(p, true));
    hide Apply, Enabled, Path;
    Onward(h, s, [Copy(p, true)], s1, [Clean(p, true)], t);
    steps := [Copy(p, true)] + [Clean(p, true)];
  }

  /** The record is stored, or the blob deleted. */
  lemma Finish(h: Digest, s: State, p: Pid) returns (steps: seq<Step>, t: State)
    requires p in s.uploads && s.uploads[p].phase in {Mirrored, Discarding}
    ensures Path(h, s, steps, t) && t.bucket == s.bucket && t.staging == s.staging
    ensures var u := s.uploads[p];
            p in t.uploads && t.uploads[p] == u.(phase := Finished) &&
            if u.phase.Mirrored? && !u.known then
              t.blobs == s.blobs &&
              var dependencies := if u.dependencies.None? then [] else u.dependencies.value;
              t.catalog == s.catalog + {Record(u.name, u.sha1, dependencies, u.blob)}
            else t.blobs == s.blobs - {u.blob} && t.catalog == s.catalog
  {
    if s.uploads[p].phase.Discarding? {
      steps, t := [Discard(p, true)], Apply(h, s, Discard(p, true));
      OneStep(h, s, Discard(p, true));
    } else {
      var s1 := Apply(h, s, Commit(p, true));
      OneStep(h, s, Commit(p, true));
      if s.uploads[p].known {
        t := Apply(h, s1, Discard(p, true));
        OneStep(h, s1, Discard(p, true));
        Onward(h, s, [Commit(p, true)], s1, [Discard(p, true)], t);
        steps := [Commit(p, true)] + [Discard(p, true)];
      } else {
        steps, t := [Commit(p, true)], s1;
      }
    }
  }
}
