/** Migrating one package: download and check it, look before uploading, upload create-only, look again. */
module Migrations {
  import opened Options
  import opened Uploads

  const CONTENT_TYPE := "application/octet-stream"
  const CACHE_CONTROL := "public, max-age=31536000, immutable"
  const DOWNLOAD_ATTEMPTS: nat := 3

  datatype Artifact = Artifact(fullname: string, sha1: string, size: nat)

  /** The digests; nothing is assumed of them. */
  datatype Digests = Digests(sha1: Bytes -> string, md5: Bytes -> string)

  // ---- downloading ----

  datatype Declared = Undeclared | Length(n: int) | NotANumber

  datatype Arrival = Received(status: int, declared: Declared, bytes: Bytes) | HttpError(status: int) | NetworkError

  predicate Sound(a: Arrival, artifact: Artifact, d: Digests) {
    a.Received? && a.status == 200 && (a.declared.Undeclared? || a.declared == Length(artifact.size)) &&
    |a.bytes| == artifact.size && d.sha1(a.bytes) == artifact.sha1
  }

  predicate Again(a: Arrival) {
    a.NetworkError? || (a.HttpError? && a.status in {408, 429, 500, 502, 503, 504})
  }

  /** The first arrival that is not worth repeating decides, if it is among the first three. */
  method DownloadAndVerify(artifact: Artifact, d: Digests, arrivals: nat -> Arrival) returns (downloaded: Option<Bytes>)
    ensures downloaded.Some? <==>
            exists k: nat :: k < DOWNLOAD_ATTEMPTS && Sound(arrivals(k), artifact, d) &&
                             forall i: nat :: i < k ==> Again(arrivals(i))
    ensures downloaded.Some? ==> |downloaded.value| == artifact.size && d.sha1(downloaded.value) == artifact.sha1
    ensures downloaded.Some? ==>
      exists k: nat :: k < DOWNLOAD_ATTEMPTS && Sound(arrivals(k), artifact, d) &&
                       (forall i: nat :: i < k ==> Again(arrivals(i))) && arrivals(k).bytes == downloaded.value
  {
    for attempt := 0 to DOWNLOAD_ATTEMPTS
      invariant forall i: nat :: i < attempt ==> Again(arrivals(i))
    {
      var arrival := arrivals(attempt);
      match arrival
      case Received(status, declared, bytes) =>
        if status != 200 || declared.NotANumber? || (declared.Length? && declared.n != artifact.size) {
          return None;
        }
        if |bytes| != artifact.size || d.sha1(bytes) != artifact.sha1 {
          return None;
        }
        return Some(bytes);
      case HttpError(status) =>
        if !Transient(status) {
          return None;
        }
      case NetworkError =>
    }
    downloaded := None;
  }

  // ---- the bucket ----

  datatype Metadata = Metadata(bucket: string, name: string, size: nat, contentType: string, cacheControl: string,
                               md5: string,
                               sha1: Option<string>)

  datatype Stored = Stored(bytes: Bytes, metadata: Metadata)

  /** Every field as expected of this artifact. */
  predicate VerifyGcsMetadata(m: Metadata, artifact: Artifact, downloaded: Bytes, bucket: string, d: Digests) {
    m.bucket == bucket && m.name == artifact.fullname && m.size == |downloaded| && m.contentType == CONTENT_TYPE &&
    m.cacheControl == CACHE_CONTROL && m.md5 == d.md5(downloaded) && m.sha1 == Some(d.sha1(downloaded))
  }

  /** The store reports sizes and MD5 digests of what it holds. */
  ghost predicate Genuine(objects: map<string, Stored>, d: Digests) {
    forall n :: n in objects ==>
      objects[n].metadata.size == |objects[n].bytes| && objects[n].metadata.md5 == d.md5(objects[n].bytes)
  }

  class Gcs {
    const bucket: string
    const digests: Digests
    var objects: map<string, Stored>

    constructor (bucket: string, digests: Digests, objects: map<string, Stored>)
      ensures this.bucket == bucket && this.digests == digests && this.objects == objects
    {
      this.bucket, this.digests, this.objects := bucket, digests, objects;
    }

    /** What the store makes of a finished session: a new object, unless the name is taken. */
    method Finalise(artifact: Artifact, bytes: Bytes)
      modifies this
      ensures objects == if artifact.fullname in old(objects) then old(objects)
                         else old(objects)[artifact.fullname := Stored(bytes, Describe(artifact, bytes))]
    {
      if artifact.fullname !in objects {
        objects := objects[artifact.fullname := Stored(bytes, Describe(artifact, bytes))];
      }
    }

    function Describe(artifact: Artifact, bytes: Bytes): Metadata {
      Metadata(bucket, artifact.fullname, |bytes|, CONTENT_TYPE, CACHE_CONTROL, digests.md5(bytes), Some(artifact.sha1))
    }
  }

  datatype Action = WouldUpload | VerifiedExisting | Uploaded

  /** The object under the artifact's name is described as its download was, in every field. */
  ghost predicate Verified(gcs: Gcs, artifact: Artifact, downloaded: Bytes)
    reads gcs
  {
    artifact.fullname in gcs.objects &&
    gcs.objects[artifact.fullname].metadata ==
    Metadata(gcs.bucket, artifact.fullname, |downloaded|, "application/octet-stream",
             "public, max-age=31536000, immutable", gcs.digests.md5(downloaded), Some(gcs.digests.sha1(downloaded)))
  }

  /** Migrates one package. `rival` is an object that somebody else creates during the upload, and `refused` says
      whether an upload that stopped was told that the name is taken. `uploaded` says that the upload ended well.
      However it went, success means that an object with the expected description is there; nothing that was there
      changes. */
  method MigrateOne(artifact: Artifact, gcs: Gcs, arrivals: nat -> Arrival, apply: bool, session: Session,
                    chunkSize: nat,
                    rival: Option<Stored>, refused: bool)
    returns (action: Option<Action>, ghost downloaded: Option<Bytes>, ghost uploaded: bool)
    requires session.grain > 0 && session.total == artifact.size
    requires session.committed == [] && !session.finalised && session.puts == 0 && session.starts == []
    requires session.completed == None && session.sent == [] && session.added == []
    modifies gcs, session
    ensures downloaded.Some? <==>
            exists k: nat :: k < DOWNLOAD_ATTEMPTS && Sound(arrivals(k), artifact, gcs.digests) &&
                             forall i: nat :: i < k ==> Again(arrivals(i))
    ensures forall n :: n in old(gcs.objects) ==> n in gcs.objects && gcs.objects[n] == old(gcs.objects)[n]
    ensures forall n :: n in gcs.objects && n !in old(gcs.objects) ==> n == artifact.fullname && apply
    ensures action.Some? ==>
      downloaded.Some? && |downloaded.value| == artifact.size && gcs.digests.sha1(downloaded.value) == artifact.sha1
    ensures action == Some(WouldUpload) ==> !apply && artifact.fullname !in gcs.objects
    ensures action == Some(VerifiedExisting) || action == Some(Uploaded) ==> Verified(gcs, artifact, downloaded.value)
    ensures downloaded.Some? && artifact.fullname in old(gcs.objects) ==>
      (action == Some(VerifiedExisting) <==> Verified(gcs, artifact, downloaded.value)) && action != Some(Uploaded)
    ensures downloaded.Some? && artifact.fullname !in old(gcs.objects) && !apply ==> action == Some(WouldUpload)
    ensures downloaded.Some? && artifact.fullname !in old(gcs.objects) && apply ==>
      action == if (uploaded || refused) && Verified(gcs, artifact, downloaded.value)
                then Some(if uploaded then Uploaded else VerifiedExisting) else None
    ensures downloaded.Some? && artifact.fullname !in old(gcs.objects) && apply && rival.Some? ==>
      gcs.objects == old(gcs.objects)[artifact.fullname := rival.value]
    ensures downloaded.Some? && artifact.fullname !in old(gcs.objects) && apply && rival.None? ==>
      gcs.objects == if session.finalised
                     then old(gcs.objects)[artifact.fullname :=
                                             Stored(session.committed, gcs.Describe(artifact, session.committed))]
                     else old(gcs.objects)
    ensures uploaded && Honest(session.fates) ==> downloaded.Some? && session.committed == downloaded.value
    ensures (action == Some(VerifiedExisting) || action == Some(Uploaded)) && Genuine(gcs.objects, gcs.digests) ==>
      var bytes := gcs.objects[artifact.fullname].bytes;
      |bytes| == artifact.size && gcs.digests.md5(bytes) == gcs.digests.md5(downloaded.value)
    ensures action == Some(Uploaded) && rival.None? && Honest(session.fates) ==>
      gcs.objects[artifact.fullname].bytes == downloaded.value
    ensures downloaded.Some? && artifact.fullname !in old(gcs.objects) && apply && rival.None? && artifact.size > 0 &&
            chunkSize > 0 && chunkSize % 262144 == 0 && Helpful(session.fates, session.grain) &&
            Seals(session.fates) ==>
              action == Some(Uploaded)
  {
    downloaded, uploaded := None, false;
    var file := DownloadAndVerify(artifact, gcs.digests, arrivals);
    if file.None? {
      return None, downloaded, uploaded;
    }
    downloaded := file;
    if artifact.fullname in gcs.objects {
      var fine := VerifyGcsMetadata(gcs.objects[artifact.fullname].metadata, artifact, file.value, gcs.bucket,
          gcs.digests);
      return if fine then Some(VerifiedExisting) else None, downloaded, uploaded;
    }
    if !apply {
      return Some(WouldUpload), downloaded, uploaded;
    }
    if Answering(session.fates) {
      AnsweringHonest(session.fates);
    }
    var done := Upload(session, file.value, chunkSize);
    uploaded := done;
    if rival.Some? {
      gcs.objects := gcs.objects[artifact.fullname := rival.value];
    }
    if session.finalised {
      gcs.Finalise(artifact, session.committed);
    }
    if !done && !refused {
      return None, downloaded, uploaded;
    }
    if artifact.fullname !in gcs.objects {
      return None, downloaded, uploaded;
    }
    var fine := VerifyGcsMetadata(gcs.objects[artifact.fullname].metadata, artifact, file.value, gcs.bucket,
        gcs.digests);
    action := if !fine then None else if done then Some(Uploaded) else Some(VerifiedExisting);
  }
}
