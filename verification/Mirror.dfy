/** One undisturbed call of `mirror_package`: stage, check the digest, copy to the immutable name, clean up. */
module Mirrors {
  import opened Publication

  /** Hashes a stream while something else consumes it. */
  class DigestingReader {
    const source: Bytes
    var position: nat
    /** What has been fed to the digest. */
    var digested: Bytes
    var bytesRead: nat

    constructor (source: Bytes)
      ensures this.source == source && Valid() && bytesRead == 0
    {
      this.source := source;
      position, digested, bytesRead := 0, [], 0;
    }

    ghost predicate Valid()
      reads this
    {
      position <= |source| && digested == source[..position] && bytesRead == position
    }

    /** At most `size` bytes; fewer, or none, at the end. */
    method Read(size: nat) returns (contents: Bytes)
      requires Valid()
      modifies this
      ensures Valid() && position == old(position) + |contents| && contents == source[old(position)..position]
      ensures |contents| <= size && (size > 0 && old(position) < |source| ==> |contents| > 0)
    {
      var end := if position + size <= |source| then position + size else |source|;
      contents := source[position..end];
      assert source[..end] == source[..position] + contents;
      digested := digested + contents;
      bytesRead := bytesRead + |contents|;
      position := end;
    }

    /** Consumes the stream in chunks, as the storage client does. */
    method Drain(chunk: nat) returns (sent: Bytes)
      requires Valid() && chunk > 0 && position == 0
      modifies this
      ensures Valid() && sent == source == digested && bytesRead == |source|
    {
      sent := [];
      while position < |source|
        invariant Valid() && sent == source[..position]
        decreases |source| - position
      {
        var contents := Read(chunk);
        assert source[..position] == source[..position - |contents|] + contents;
        sent := sent + contents;
      }
      assert source[..position] == source;
    }
  }

  datatype Outcome = Published | Conflict | DigestMismatch | Unavailable

  /** What becomes of a request: it works, it is refused, or it works and its answer is lost. */
  datatype Effect = Works | Refused | Unanswered

  datatype Faults = Faults(stage: Effect, copy: Effect, cleanup: bool)

  class Bucket {
    var objects: map<string, Object>
    var incoming: map<nat, Object>

    /** Copies the upload to its immutable name unless something else is there. */
    method MirrorPackage(h: Digest, upload: Bytes, fullname: string, expected: Hash, verifySource: bool, staging: nat,
                         chunk: nat, faults: Faults)
      returns (outcome: Outcome)
      requires staging !in incoming && chunk > 0
      modifies this
      ensures outcome == Expected(h, old(objects), upload, fullname, expected, verifySource, faults)
      ensures objects == Objects(h, old(objects), upload, fullname, expected, faults)
      ensures incoming == Incoming(old(objects), old(incoming), upload, fullname, expected, verifySource, staging,
              faults)
      ensures outcome.Published? ==> fullname in objects && ObjectMatches(objects[fullname], expected, |upload|)
    {
      if !verifySource && fullname in objects {
        return if ObjectMatches(objects[fullname], expected, |upload|) then Published else Conflict;
      }
      if faults.stage.Refused? {
        return Unavailable;
      }
      var reader := new DigestingReader(upload);
      var sent := reader.Drain(chunk);
      incoming := incoming[staging := Object(sent, expected)];
      if faults.stage.Unanswered? {
        return Unavailable;
      }
      if reader.bytesRead != |upload| || h(reader.digested) != expected {
        outcome := DigestMismatch;
      } else if faults.copy.Refused? {
        outcome := Unavailable;
      } else {
        var created := fullname !in objects;
        if created {
          objects := objects[fullname := incoming[staging]];
        }
        if faults.copy.Unanswered? {
          outcome := Unavailable;
        } else if created {
          outcome := Published;
        } else {
          outcome := if ObjectMatches(objects[fullname], expected, |upload|) then Published else Conflict;
        }
      }
      if !faults.cleanup {
        incoming := incoming - {staging};
      }
    }
  }

  /** The outcome as a decision table over the bucket and the upload. */
  function Expected(h: Digest, objects: map<string, Object>, upload: Bytes, fullname: string, expected: Hash,
                    verifySource: bool, faults: Faults): Outcome
  {
    var matching := fullname in objects && ObjectMatches(objects[fullname], expected, |upload|);
    if !verifySource && fullname in objects then if matching then Published else Conflict
    else if !faults.stage.Works? then Unavailable
    else if h(upload) != expected then DigestMismatch
    else if !faults.copy.Works? then Unavailable
    else if fullname !in objects || matching then Published
    else Conflict
  }

  /** The name is created, if it is free, exactly for bytes with the expected digest whose copy is not refused. */
  function Objects(h: Digest, objects: map<string, Object>, upload: Bytes, fullname: string, expected: Hash,
                   faults: Faults): map<string, Object>
  {
    if fullname !in objects && faults.stage.Works? && h(upload) == expected && !faults.copy.Refused?
    then objects[fullname := Object(upload, expected)]
    else objects
  }

  /** A staged object is left behind exactly when its staging is not answered or its deletion fails. */
  function Incoming(objects: map<string, Object>, incoming: map<nat, Object>, upload: Bytes, fullname: string,
                    expected: Hash, verifySource: bool, staging: nat, faults: Faults): map<nat, Object>
  {
    if (verifySource || fullname !in objects) &&
       (faults.stage.Unanswered? || (faults.stage.Works? && faults.cleanup))
    then incoming[staging := Object(upload, expected)]
    else incoming
  }

  // ---- the same call as steps of the interleaved model ----

  ghost predicate Ready(s: State, p: Pid, staging: nat, verifySource: bool) {
    In(s, p, if verifySource then Uploading else Comparing) && s.uploads[p].blob in s.blobs &&
    staging !in s.usedStaging && s.staging.Keys <= s.usedStaging
  }

  /** The remote operations of a call that nobody disturbs, and the faults as the steps they are. */
  ghost function Alone(h: Digest, s: State, p: Pid, staging: nat, verifySource: bool, faults: Faults): State
    requires Ready(s, p, staging, verifySource)
  {
    var compared := if verifySource then s else Apply(h, s, Compare(p));
    if !compared.uploads[p].phase.Uploading? then compared else StagedAndCopied(h, compared, p, staging, faults)
  }

  ghost function StagedAndCopied(h: Digest, s: State, p: Pid, staging: nat, faults: Faults): State
    requires Ready(s, p, staging, true)
  {
    match faults.stage
    case Refused => Apply(h, s, Fail(p))
    case Unanswered => Apply(h, s, Stage(p, staging, false))
    case Works => Copied(h, Apply(h, Apply(h, s, Stage(p, staging, true)), Verify(p)), p, faults)
  }

  /** After the digest check: the copy, if the digest is right, and the clean-up. */
  ghost function Copied(h: Digest, s: State, p: Pid, faults: Faults): State
    requires p in s.uploads && s.uploads[p].blob in s.blobs
    requires s.uploads[p].phase.Verified? || s.uploads[p].phase.Cleaning?
  {
    var copied :=
      if s.uploads[p].phase.Cleaning? then s
      else if faults.copy.Refused? then Apply(h, s, Fail(p))
      else Apply(h, s, Copy(p, faults.copy.Works?));
    Apply(h, copied, Clean(p, !faults.cleanup))
  }

  /** What a call came to: the upload goes on or is discarded, and bucket and staging are as they should be. */
  ghost predicate CameTo(t: State, p: Pid, outcome: Outcome, bucket: map<string, Object>, staging: map<nat, Object>) {
    In(t, p, if outcome.Published? then Mirrored else Discarding) && t.bucket == bucket && t.staging == staging
  }

  /** The sequential account and the interleaved one agree, whatever goes wrong: same verdict, same bucket, same
      staging. */
  lemma AloneAgrees(h: Digest, s: State, p: Pid, staging: nat, verifySource: bool, faults: Faults)
    requires Ready(s, p, staging, verifySource)
    ensures var u := s.uploads[p];
            var upload := s.blobs[u.blob];
            CameTo(Alone(h, s, p, staging, verifySource, faults), p,
                   Expected(h, s.bucket, upload, u.name, u.sha1, verifySource, faults),
                   Objects(h, s.bucket, upload, u.name, u.sha1, faults),
                   Incoming(s.bucket, s.staging, upload, u.name, u.sha1, verifySource, staging, faults))
  {
    hide StagedAndCopied;
    if verifySource {
      StagedAgrees(h, s, p, staging, faults);
    } else if s.uploads[p].name !in s.bucket {
      StagedAgrees(h, Apply(h, s, Compare(p)), p, staging, faults);
    }
  }

  lemma StagedAgrees(h: Digest, s: State, p: Pid, staging: nat, faults: Faults)
    requires Ready(s, p, staging, true)
    ensures var u := s.uploads[p];
            var upload := s.blobs[u.blob];
            CameTo(StagedAndCopied(h, s, p, staging, faults), p,
                   Expected(h, s.bucket, upload, u.name, u.sha1, true, faults),
                   Objects(h, s.bucket, upload, u.name, u.sha1, faults),
                   Incoming(s.bucket, s.staging, upload, u.name, u.sha1, true, staging, faults))
  {
    hide Copied;
    if faults.stage.Works? {
      Verifies(h, s, p, staging);
      hide Apply;
      CopiedAgrees(h, Apply(h, Apply(h, s, Stage(p, staging, true)), Verify(p)), p, staging, s.staging, faults);
    }
  }

  lemma Verifies(h: Digest, s: State, p: Pid, staging: nat)
    requires Ready(s, p, staging, true)
    ensures var t := Apply(h, Apply(h, s, Stage(p, staging, true)), Verify(p));
            var u := s.uploads[p];
            var upload := s.blobs[u.blob];
            t.bucket == s.bucket && t.blobs == s.blobs && t.staging == s.staging[staging := Object(upload, u.sha1)] &&
            p in t.uploads &&
            t.uploads[p] == u.(phase := if h(upload) == u.sha1 then Verified(staging) else Cleaning(staging, false))
  {
  }

  lemma CopiedAgrees(h: Digest, s: State, p: Pid, staging: nat, before: map<nat, Object>, faults: Faults)
    requires p in s.uploads && s.uploads[p].blob in s.blobs && staging !in before
    requires var u := s.uploads[p];
             s.staging == before[staging := Object(s.blobs[u.blob], u.sha1)] &&
             u.phase == if h(s.blobs[u.blob]) == u.sha1 then Verified(staging) else Cleaning(staging, false)
    ensures var u := s.uploads[p];
            var upload, fine := s.blobs[u.blob], Faults(Works, faults.copy, faults.cleanup);
            CameTo(Copied(h, s, p, faults), p, Expected(h, s.bucket, upload, u.name, u.sha1, true, fine),
                   Objects(h, s.bucket, upload, u.name, u.sha1, fine),
                   if faults.cleanup then s.staging else before)
  {
    var u := s.uploads[p];
    assert s.staging - {staging} == before;
    if u.phase.Cleaning? {
      Cleaned(h, s, p, staging, faults);
    } else if faults.copy.Refused? {
      Cleaned(h, Apply(h, s, Fail(p)), p, staging, faults);
    } else {
      Cleaned(h, Apply(h, s, Copy(p, faults.copy.Works?)), p, staging, faults);
    }
  }

  lemma Cleaned(h: Digest, s: State, p: Pid, staging: nat, faults: Faults)
    requires p in s.uploads && s.uploads[p].phase.Cleaning? && s.uploads[p].phase.staging == staging
    ensures var t := Apply(h, s, Clean(p, !faults.cleanup));
            In(t, p, if s.uploads[p].phase.ok then Mirrored else Discarding) && t.bucket == s.bucket &&
            t.staging == if faults.cleanup then s.staging else s.staging - {staging}
  {
  }
}
