/** The reference-counted storage layer of app/services/minio_client.py.

    Many photo records may share one stored object (same object name); the object
    carries a count of its references, raised on every upload of that name and
    lowered on every delete, and the object itself is removed with its last reference.

    Each operation is given twice: as a decision table over the store's state
    (UploadOutcome, DeleteOutcome, SetupOutcome), about which the lemmas below are
    proved, and as a method of Client that performs the remote calls one after the
    other, in the source's order, proved to agree with the table. */
module MinioClient {
  import opened Wrappers
  import opened StatusCodes
  import opened ObjectStore

  /** The configuration the storage layer reads. */
  datatype Settings = Settings(minioEndpoint: string, minioBucketName: string)

  /** A status together with the store's state after the operation. */
  datatype Step = Step(status: Status, after: StoreState)

  datatype SetupStep = SetupStep(outcome: Outcome<string>, after: StoreState)

  // ---------------------------------------------------------------------------
  // Decision tables

  /** upload_to_minio (lines 35-67). An upload touches only its own object and never the
      buckets, and any status but FAILURE leaves that object stored. */
  function UploadOutcome(s: StoreState, data: seq<bv8>, bucket: string, objectName: string, f: Faults): (r: Step)
    ensures r.after.buckets == s.buckets
    ensures r.after.objects - {ObjectId(bucket, objectName)} == s.objects - {ObjectId(bucket, objectName)}
    ensures r.status != Failure ==> ObjectId(bucket, objectName) in r.after.objects
  {
    var id := ObjectId(bucket, objectName);
    match Stat(s, id, f.stat)
    case Ok(meta) =>
      (match CopyReplaceMetadata(s, id, meta.GetOr(0) + 1, f.copy)
       case Ok(t) => Step(ObjectAlreadyExist, t)
       // the copy sits inside the same try as the stat: a NoSuchKey there also leads to a fresh upload
       case Err(e) => if e.code == NoSuchKeyCode then FreshUpload(s, data, id, f) else Step(Failure, s))
    case Err(e) =>
      if e.code == NoSuchKeyCode then FreshUpload(s, data, id, f) else Step(Failure, s)
  }

  /** Lines 59-67: store the payload with count 1. It either succeeds with the payload
      stored under a count of 1, or fails and changes nothing. */
  function FreshUpload(s: StoreState, data: seq<bv8>, id: ObjectId, f: Faults): (r: Step)
    ensures r.status == Success || r == Step(Failure, s)
    ensures r.status == Success ==> r.after == s.(objects := s.objects[id := StoredObject(data, Some(1))])
    ensures r.status == Success <==> id.bucket in s.buckets && f.put.None?
  {
    match Put(s, id, data, 1, f.put)
    case Ok(t) => Step(Success, t)
    case Err(_) => Step(Failure, s)
  }

  /** Lines 107-113: how a delete reports an S3 error. */
  function DeleteErrorStatus(e: S3Error): (r: Status)
    ensures r == ObjectNotFound <==> e.code == NoSuchKeyCode
    ensures r == ObjectNotFound || r == Failure
  {
    if e.code == NoSuchKeyCode then ObjectNotFound else Failure
  }

  /** delete_from_minio (lines 74-113). A delete touches only its own object and never
      the buckets, and it can only succeed on an object that exists. */
  function DeleteOutcome(s: StoreState, bucket: string, objectName: string, f: Faults): (r: Step)
    ensures r.after.buckets == s.buckets
    ensures r.after.objects - {ObjectId(bucket, objectName)} == s.objects - {ObjectId(bucket, objectName)}
    ensures r.status == Success ==> ObjectId(bucket, objectName) in s.objects
  {
    var id := ObjectId(bucket, objectName);
    match Stat(s, id, f.stat)
    case Err(e) => Step(DeleteErrorStatus(e), s)
    case Ok(meta) =>
      var refCount := meta.GetOr(0);
      if refCount > 1 then
        match CopyReplaceMetadata(s, id, refCount - 1, f.copy)
        case Ok(t) => Step(Success, t)
        case Err(e) => Step(DeleteErrorStatus(e), s)
      else
        match Remove(s, id, f.remove)
        case Ok(t) => Step(Success, t)
        case Err(e) => Step(DeleteErrorStatus(e), s)
  }

  /** Lines 29-32: the message of the exception that aborts start-up. */
  function SetupError(e: S3Error): (message: string)
    ensures message == "Setup error: " + (if e.code == NoSuchBucketCode then "Bucket does not exist" else "Operation failed")
  {
    var code := if e.code == NoSuchBucketCode then NoSuchBucket else Failure;
    assert Description(code.Code()) == Descriptions[code.Code()];
    "Setup error: " + Description(code.Code())
  }

  /** setup_minio_bucket (lines 22-32). Setup never touches objects, adds at most its own
      bucket, and a success leaves that bucket present. */
  function SetupOutcome(s: StoreState, bucket: string, f: Faults): (r: SetupStep)
    ensures r.after.objects == s.objects
    ensures s.buckets <= r.after.buckets <= s.buckets + {bucket}
    ensures r.outcome.Pass? ==> bucket in r.after.buckets
  {
    match BucketExists(s, bucket, f.bucketExists)
    case Err(e) => SetupStep(Fail(SetupError(e)), s)
    case Ok(present) =>
      if present then SetupStep(Pass, s)
      else match MakeBucket(s, bucket, f.makeBucket)
        case Ok(t) => SetupStep(Pass, t)
        case Err(e) => SetupStep(Fail(SetupError(e)), s)
  }

  /** get_minio_object_url (lines 70-71): a plain path under the endpoint, the same
      whichever branch of the upload ran. The object name can be read back from it. */
  function ObjectUrl(endpoint: string, bucket: string, objectName: string): (url: string)
    ensures |url| == |endpoint| + |bucket| + |objectName| + 2
    ensures url[..|endpoint|] == endpoint && url[|endpoint|] == '/'
    ensures url[|endpoint| + 1..|endpoint| + 1 + |bucket|] == bucket && url[|endpoint| + 1 + |bucket|] == '/'
    ensures url[|endpoint| + |bucket| + 2..] == objectName
  {
    endpoint + "/" + bucket + "/" + objectName
  }

  lemma ObjectUrlInjective(endpoint: string, bucket: string, a: string, b: string)
    ensures ObjectUrl(endpoint, bucket, a) == ObjectUrl(endpoint, bucket, b) <==> a == b
  {
    if ObjectUrl(endpoint, bucket, a) == ObjectUrl(endpoint, bucket, b) {
      var n := |endpoint| + |bucket| + 2;
      assert a == ObjectUrl(endpoint, bucket, a)[n..] == ObjectUrl(endpoint, bucket, b)[n..] == b;
    }
  }

  // ---------------------------------------------------------------------------
  // The client: the remote store's state, changed one call at a time

  class Client {
    const settings: Settings
    var buckets: set<string>
    var objects: map<ObjectId, StoredObject>

    function State(): StoreState
      reads this
    {
      StoreState(buckets, objects)
    }

    constructor (settings: Settings, initial: StoreState)
      ensures this.settings == settings && State() == initial
    {
      this.settings := settings;
      buckets := initial.buckets;
      objects := initial.objects;
    }

    /** Creates the configured bucket when it is absent; any S3 error aborts. */
    method SetupMinioBucket(f: Faults) returns (outcome: Outcome<string>)
      modifies this
      ensures SetupStep(outcome, State()) == SetupOutcome(old(State()), settings.minioBucketName, f)
    {
      var bucket := settings.minioBucketName;
      var present := BucketExists(State(), bucket, f.bucketExists);
      if present.Err? {
        return Fail(SetupError(present.error));
      }
      if !present.value {
        var made := MakeBucket(State(), bucket, f.makeBucket);
        if made.Err? {
          return Fail(SetupError(made.error));
        }
        buckets := made.value.buckets;
      }
      outcome := Pass;
    }

    /** Stores data under objectName, or adds a reference when the name is taken. */
    method UploadToMinio(data: seq<bv8>, bucket: string, objectName: string, f: Faults) returns (status: Status)
      modifies this
      ensures Step(status, State()) == UploadOutcome(old(State()), data, bucket, objectName, f)
    {
      var id := ObjectId(bucket, objectName);
      var stat := Stat(State(), id, f.stat);
      if stat.Ok? {
        var refCount := stat.value.GetOr(0) + 1;
        var copied := CopyReplaceMetadata(State(), id, refCount, f.copy);
        if copied.Ok? {
          objects := copied.value.objects;
          return ObjectAlreadyExist;
        }
        if copied.error.code != NoSuchKeyCode {
          return Failure;
        }
      } else if stat.error.code != NoSuchKeyCode {
        return Failure;
      }
      var put := Put(State(), id, data, 1, f.put);
      if put.Ok? {
        objects := put.value.objects;
        status := Success;
      } else {
        status := Failure;
      }
    }

    /** Drops one reference to objectName, removing the object with its last one. */
    method DeleteFromMinio(bucket: string, objectName: string, f: Faults) returns (status: Status)
      modifies this
      ensures Step(status, State()) == DeleteOutcome(old(State()), bucket, objectName, f)
    {
      var id := ObjectId(bucket, objectName);
      var stat := Stat(State(), id, f.stat);
      if stat.Err? {
        return DeleteErrorStatus(stat.error);
      }
      var refCount := stat.value.GetOr(0);
      if refCount > 1 {
        refCount := refCount - 1;
        var copied := CopyReplaceMetadata(State(), id, refCount, f.copy);
        if copied.Err? {
          return DeleteErrorStatus(copied.error);
        }
        objects := copied.value.objects;
      } else {
        var removed := Remove(State(), id, f.remove);
        if removed.Err? {
          return DeleteErrorStatus(removed.error);
        }
        objects := removed.value.objects;
      }
      status := Success;
    }
  }

  // ---------------------------------------------------------------------------
  // Upload

  /** A name not yet stored is stored with count 1 and reported as SUCCESS; a failing put changes nothing. */
  lemma UploadAbsentKey(s: StoreState, data: seq<bv8>, bucket: string, objectName: string, f: Faults)
    requires bucket in s.buckets && ObjectId(bucket, objectName) !in s.objects && f.stat.None?
    ensures UploadOutcome(s, data, bucket, objectName, f) ==
      if f.put.None? then Step(Success, s.(objects := s.objects[ObjectId(bucket, objectName) := StoredObject(data, Some(1))]))
      else Step(Failure, s)
  {
  }

  /** A stored name gets count old+1 (missing metadata read as 0), keeps its payload,
      and the upload reports OBJECT_ALREADY_EXIST. */
  lemma UploadExistingKey(s: StoreState, data: seq<bv8>, bucket: string, objectName: string, f: Faults)
    requires bucket in s.buckets && ObjectId(bucket, objectName) in s.objects
    requires f.stat.None? && f.copy.None?
    ensures var id := ObjectId(bucket, objectName);
      UploadOutcome(s, data, bucket, objectName, f) ==
        Step(ObjectAlreadyExist, s.(objects := s.objects[id := StoredObject(s.objects[id].payload, Some(RefCount(s, id) + 1))]))
  {
  }

  /** A stat failing with any code but NoSuchKey aborts the upload: FAILURE, store unchanged. */
  lemma UploadStatFailure(s: StoreState, data: seq<bv8>, bucket: string, objectName: string, f: Faults)
    requires Stat(s, ObjectId(bucket, objectName), f.stat).Err?
    requires Stat(s, ObjectId(bucket, objectName), f.stat).error.code != NoSuchKeyCode
    ensures UploadOutcome(s, data, bucket, objectName, f) == Step(Failure, s)
  {
  }

  /** An upload reports SUCCESS, OBJECT_ALREADY_EXIST or FAILURE, and a FAILURE leaves the store as it was. */
  lemma UploadFailureChangesNothing(s: StoreState, data: seq<bv8>, bucket: string, objectName: string, f: Faults)
    ensures var r := UploadOutcome(s, data, bucket, objectName, f);
      r.status == Success || r.status == ObjectAlreadyExist || r == Step(Failure, s)
  {
  }

  /** Without racing NoSuchKey reports, a successful upload adds exactly one reference to
      its object and touches no other object; an unsuccessful one touches nothing. */
  lemma UploadAddsOneReference(s: StoreState, data: seq<bv8>, bucket: string, objectName: string, f: Faults)
    requires Benign(f)
    ensures var id := ObjectId(bucket, objectName);
      var r := UploadOutcome(s, data, bucket, objectName, f);
      if r.status == Success || r.status == ObjectAlreadyExist then
        id in r.after.objects && RefCount(r.after, id) == RefCount(s, id) + 1 &&
        r.after == s.(objects := s.objects[id := r.after.objects[id]])
      else r.after == s
  {
  }

  // ---------------------------------------------------------------------------
  // Delete

  /** With more than one reference, a delete lowers the count by exactly 1 and keeps the payload. */
  lemma DeleteDecrements(s: StoreState, bucket: string, objectName: string, f: Faults)
    requires bucket in s.buckets && ObjectId(bucket, objectName) in s.objects
    requires f.stat.None? && f.copy.None? && RefCount(s, ObjectId(bucket, objectName)) > 1
    ensures var id := ObjectId(bucket, objectName);
      DeleteOutcome(s, bucket, objectName, f) ==
        Step(Success, s.(objects := s.objects[id := StoredObject(s.objects[id].payload, Some(RefCount(s, id) - 1))]))
  {
  }

  /** With one reference or none recorded, a delete removes the object. */
  lemma DeleteRemoves(s: StoreState, bucket: string, objectName: string, f: Faults)
    requires bucket in s.buckets && ObjectId(bucket, objectName) in s.objects
    requires f.stat.None? && f.remove.None? && RefCount(s, ObjectId(bucket, objectName)) <= 1
    ensures DeleteOutcome(s, bucket, objectName, f) ==
      Step(Success, s.(objects := s.objects - {ObjectId(bucket, objectName)}))
  {
  }

  /** Deleting an absent name reports OBJECT_NOT_FOUND and changes nothing. */
  lemma DeleteAbsentKey(s: StoreState, bucket: string, objectName: string, f: Faults)
    requires bucket in s.buckets && ObjectId(bucket, objectName) !in s.objects && f.stat.None?
    ensures DeleteOutcome(s, bucket, objectName, f) == Step(ObjectNotFound, s)
  {
  }

  /** Once the last reference is deleted, deleting again reports OBJECT_NOT_FOUND. */
  lemma DeleteAgainAfterRemoval(s: StoreState, bucket: string, objectName: string, f: Faults, g: Faults)
    requires bucket in s.buckets && ObjectId(bucket, objectName) in s.objects
    requires f.stat.None? && f.remove.None? && RefCount(s, ObjectId(bucket, objectName)) <= 1
    requires g.stat.None?
    ensures DeleteOutcome(DeleteOutcome(s, bucket, objectName, f).after, bucket, objectName, g) ==
      Step(ObjectNotFound, DeleteOutcome(s, bucket, objectName, f).after)
  {
    DeleteRemoves(s, bucket, objectName, f);
    DeleteAbsentKey(DeleteOutcome(s, bucket, objectName, f).after, bucket, objectName, g);
  }

  /** A delete reports SUCCESS, OBJECT_NOT_FOUND or FAILURE, and only SUCCESS changes the store. */
  lemma DeleteFailureChangesNothing(s: StoreState, bucket: string, objectName: string, f: Faults)
    ensures var r := DeleteOutcome(s, bucket, objectName, f);
      r.status == Success || r == Step(ObjectNotFound, s) || r == Step(Failure, s)
  {
  }

  /** A successful delete drops one reference (none below 0) from an object that existed
      and touches no other object. */
  lemma DeleteDropsOneReference(s: StoreState, bucket: string, objectName: string, f: Faults)
    ensures var id := ObjectId(bucket, objectName);
      var r := DeleteOutcome(s, bucket, objectName, f);
      r.status == Success ==>
        id in s.objects && r.after.buckets == s.buckets &&
        RefCount(r.after, id) == (if RefCount(s, id) > 0 then RefCount(s, id) - 1 else 0) &&
        r.after.objects - {id} == s.objects - {id} &&
        (id in r.after.objects ==> r.after.objects[id].payload == s.objects[id].payload)
  {
  }

  // ---------------------------------------------------------------------------
  // The count stays at least 1 while the object exists

  lemma UploadKeepsWellFormed(s: StoreState, data: seq<bv8>, bucket: string, objectName: string, f: Faults)
    requires WellFormed(s)
    ensures WellFormed(UploadOutcome(s, data, bucket, objectName, f).after)
  {
  }

  lemma DeleteKeepsWellFormed(s: StoreState, bucket: string, objectName: string, f: Faults)
    requires WellFormed(s)
    ensures WellFormed(DeleteOutcome(s, bucket, objectName, f).after)
  {
  }

  lemma SetupKeepsWellFormed(s: StoreState, bucket: string, f: Faults)
    requires WellFormed(s)
    ensures WellFormed(SetupOutcome(s, bucket, f).after)
  {
  }

  // ---------------------------------------------------------------------------
  // Sequences of uploads and deletes of one name, with no failing call

  function UploadMany(s: StoreState, data: seq<bv8>, bucket: string, objectName: string, n: nat): StoreState {
    if n == 0 then s else UploadOutcome(UploadMany(s, data, bucket, objectName, n - 1), data, bucket, objectName, NoFaults).after
  }

  function DeleteMany(s: StoreState, bucket: string, objectName: string, n: nat): StoreState
    decreases n
  {
    if n == 0 then s else DeleteMany(DeleteOutcome(s, bucket, objectName, NoFaults).after, bucket, objectName, n - 1)
  }

  /** n uploads of a new name leave it stored once, with count n and the uploaded payload. */
  lemma {:induction false} UploadManyCounts(s: StoreState, data: seq<bv8>, bucket: string, objectName: string, n: nat)
    requires bucket in s.buckets && ObjectId(bucket, objectName) !in s.objects && n >= 1
    ensures UploadMany(s, data, bucket, objectName, n) ==
      s.(objects := s.objects[ObjectId(bucket, objectName) := StoredObject(data, Some(n))])
  {
    if n == 1 {
      UploadAbsentKey(s, data, bucket, objectName, NoFaults);
    } else {
      UploadManyCounts(s, data, bucket, objectName, n - 1);
      UploadExistingKey(UploadMany(s, data, bucket, objectName, n - 1), data, bucket, objectName, NoFaults);
    }
  }

  /** The first of those uploads reports SUCCESS and every later one OBJECT_ALREADY_EXIST. */
  lemma UploadManyStatus(s: StoreState, data: seq<bv8>, bucket: string, objectName: string, n: nat)
    requires bucket in s.buckets && ObjectId(bucket, objectName) !in s.objects
    ensures UploadOutcome(UploadMany(s, data, bucket, objectName, n), data, bucket, objectName, NoFaults).status ==
      if n == 0 then Success else ObjectAlreadyExist
  {
    if n > 0 {
      UploadManyCounts(s, data, bucket, objectName, n);
    }
  }

  /** n deletes of an object with count n remove it and nothing else. */
  lemma {:induction false} DeleteManyRemoves(s: StoreState, bucket: string, objectName: string, n: nat)
    requires bucket in s.buckets && ObjectId(bucket, objectName) in s.objects
    requires s.objects[ObjectId(bucket, objectName)].refCount == Some(n) && n >= 1
    ensures DeleteMany(s, bucket, objectName, n) == s.(objects := s.objects - {ObjectId(bucket, objectName)})
    decreases n
  {
    var id := ObjectId(bucket, objectName);
    if n == 1 {
      DeleteRemoves(s, bucket, objectName, NoFaults);
    } else {
      DeleteDecrements(s, bucket, objectName, NoFaults);
      var t := DeleteOutcome(s, bucket, objectName, NoFaults).after;
      DeleteManyRemoves(t, bucket, objectName, n - 1);
      assert t.objects - {id} == s.objects - {id};
    }
  }

  /** n uploads of a new name followed by n deletes of it leave the store as it was:
      in particular the object is absent again. */
  lemma UploadsThenDeletesRestore(s: StoreState, data: seq<bv8>, bucket: string, objectName: string, n: nat)
    requires bucket in s.buckets && ObjectId(bucket, objectName) !in s.objects
    ensures DeleteMany(UploadMany(s, data, bucket, objectName, n), bucket, objectName, n) == s
  {
    var id := ObjectId(bucket, objectName);
    if n > 0 {
      UploadManyCounts(s, data, bucket, objectName, n);
      DeleteManyRemoves(UploadMany(s, data, bucket, objectName, n), bucket, objectName, n);
      assert s.objects[id := StoredObject(data, Some(n))] - {id} == s.objects;
    }
  }

  // ---------------------------------------------------------------------------
  // Bucket setup

  /** A successful setup always leaves the bucket in place and the objects untouched;
      a failed one changes nothing. */
  lemma SetupNoDegradedSuccess(s: StoreState, bucket: string, f: Faults)
    ensures var r := SetupOutcome(s, bucket, f);
      (r.outcome.Pass? ==> r.after == s.(buckets := s.buckets + {bucket})) &&
      (r.outcome.Fail? ==> r.after == s)
  {
    if bucket in s.buckets {
      assert s.buckets + {bucket} == s.buckets;
    }
  }

  /** Any failing call makes setup fail, with the message built from that call's error. */
  lemma SetupFailsOnFault(s: StoreState, bucket: string, f: Faults)
    requires f.bucketExists.Some? || (bucket !in s.buckets && f.makeBucket.Some?)
    ensures SetupOutcome(s, bucket, f).outcome ==
      Fail(SetupError(if f.bucketExists.Some? then f.bucketExists.value else f.makeBucket.value))
  {
  }

  /** Setup is idempotent: without failures it succeeds, and running it again changes nothing. */
  lemma SetupIdempotent(s: StoreState, bucket: string)
    ensures var r := SetupOutcome(s, bucket, NoFaults);
      r.outcome == Pass && bucket in r.after.buckets && SetupOutcome(r.after, bucket, NoFaults) == SetupStep(Pass, r.after)
  {
  }
}
