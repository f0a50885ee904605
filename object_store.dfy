/** The remote S3-compatible object store, abstracted to a map from (bucket, key)
    to stored objects plus a set of buckets. Every SDK call the storage layer makes
    is one step on this state: it either goes through or fails with an S3 error code.
    Which calls fail is not decided here: a Faults value names, for one operation,
    the error (if any) each kind of call reports. */
module ObjectStore {
  import opened Wrappers

  /** The error codes the storage layer tests for; the remote store reports them
      on its own when the bucket or the key is missing. */
  const NoSuchKeyCode := "NoSuchKey"
  const NoSuchBucketCode := "NoSuchBucket"
  const BucketAlreadyOwnedCode := "BucketAlreadyOwnedByYou"

  /** minio.S3Error, reduced to its code. */
  datatype S3Error = S3Error(code: string)

  datatype ObjectId = ObjectId(bucket: string, key: string)

  /** An object's bytes and its x-amz-meta-ref-count metadata (None when the field is absent). */
  datatype StoredObject = StoredObject(payload: seq<bv8>, refCount: Option<nat>)

  datatype StoreState = StoreState(buckets: set<string>, objects: map<ObjectId, StoredObject>)

  /** For one operation: the error each kind of remote call reports, or None when it goes through. */
  datatype Faults = Faults(
    bucketExists: Option<S3Error>,
    makeBucket: Option<S3Error>,
    stat: Option<S3Error>,
    copy: Option<S3Error>,
    put: Option<S3Error>,
    remove: Option<S3Error>)

  const NoFaults := Faults(None, None, None, None, None, None)

  /** No call reports a missing key that the store itself would not report: such a
      report only arises when another request changes the same key in between. */
  predicate Benign(f: Faults) {
    (f.stat.Some? ==> f.stat.value.code != NoSuchKeyCode) &&
    (f.copy.Some? ==> f.copy.value.code != NoSuchKeyCode) &&
    (f.put.Some? ==> f.put.value.code != NoSuchKeyCode) &&
    (f.remove.Some? ==> f.remove.value.code != NoSuchKeyCode)
  }

  /** The reference count the storage layer reads for an object: the metadata value,
      0 when the field is missing, and 0 when the object does not exist. */
  function RefCount(s: StoreState, id: ObjectId): nat {
    if id in s.objects then s.objects[id].refCount.GetOr(0) else 0
  }

  /** Every object lives in an existing bucket and carries a count of at least 1. */
  ghost predicate WellFormed(s: StoreState) {
    forall id :: id in s.objects ==>
      id.bucket in s.buckets && s.objects[id].refCount.Some? && s.objects[id].refCount.value >= 1
  }

  /** bucket_exists. */
  function BucketExists(s: StoreState, bucket: string, fault: Option<S3Error>): (r: Result<bool, S3Error>)
    ensures r.Err? <==> fault.Some?
    ensures r.Ok? ==> (r.value <==> bucket in s.buckets)
  {
    match fault
    case Some(e) => Err(e)
    case None => Ok(bucket in s.buckets)
  }

  /** make_bucket: creating a bucket that exists is an error. */
  function MakeBucket(s: StoreState, bucket: string, fault: Option<S3Error>): (r: Result<StoreState, S3Error>)
    ensures r.Ok? <==> fault.None? && bucket !in s.buckets
    ensures r.Ok? ==> r.value == s.(buckets := s.buckets + {bucket})
  {
    match fault
    case Some(e) => Err(e)
    case None =>
      if bucket in s.buckets then Err(S3Error(BucketAlreadyOwnedCode))
      else Ok(s.(buckets := s.buckets + {bucket}))
  }

  /** stat_object: the object's count metadata, or the store's own NoSuchBucket/NoSuchKey. */
  function Stat(s: StoreState, id: ObjectId, fault: Option<S3Error>): (r: Result<Option<nat>, S3Error>)
    ensures r.Ok? <==> fault.None? && id.bucket in s.buckets && id in s.objects
    ensures r.Ok? ==> r.value == s.objects[id].refCount
    ensures fault.None? && id.bucket in s.buckets && id !in s.objects ==> r == Err(S3Error(NoSuchKeyCode))
  {
    match fault
    case Some(e) => Err(e)
    case None =>
      if id.bucket !in s.buckets then Err(S3Error(NoSuchBucketCode))
      else if id !in s.objects then Err(S3Error(NoSuchKeyCode))
      else Ok(s.objects[id].refCount)
  }

  /** copy_object of an object onto itself with metadata directive REPLACE: only the
      count metadata changes; the payload and every other object stay as they were. */
  function CopyReplaceMetadata(s: StoreState, id: ObjectId, refCount: nat, fault: Option<S3Error>): (r: Result<StoreState, S3Error>)
    ensures r.Ok? <==> fault.None? && id.bucket in s.buckets && id in s.objects
    ensures r.Ok? ==> r.value.buckets == s.buckets && id in r.value.objects
    ensures r.Ok? ==> r.value.objects == s.objects[id := StoredObject(s.objects[id].payload, Some(refCount))]
    ensures fault.None? && id.bucket in s.buckets && id !in s.objects ==> r == Err(S3Error(NoSuchKeyCode))
  {
    match fault
    case Some(e) => Err(e)
    case None =>
      if id.bucket !in s.buckets then Err(S3Error(NoSuchBucketCode))
      else if id !in s.objects then Err(S3Error(NoSuchKeyCode))
      else Ok(s.(objects := s.objects[id := s.objects[id].(refCount := Some(refCount))]))
  }

  /** put_object: stores the payload with the given count, replacing any object under the key. */
  function Put(s: StoreState, id: ObjectId, data: seq<bv8>, refCount: nat, fault: Option<S3Error>): (r: Result<StoreState, S3Error>)
    ensures r.Ok? <==> fault.None? && id.bucket in s.buckets
    ensures r.Ok? ==> r.value == s.(objects := s.objects[id := StoredObject(data, Some(refCount))])
  {
    match fault
    case Some(e) => Err(e)
    case None =>
      if id.bucket !in s.buckets then Err(S3Error(NoSuchBucketCode))
      else Ok(s.(objects := s.objects[id := StoredObject(data, Some(refCount))]))
  }

  /** remove_object: removing a key that is absent is not an error in S3. */
  function Remove(s: StoreState, id: ObjectId, fault: Option<S3Error>): (r: Result<StoreState, S3Error>)
    ensures r.Ok? <==> fault.None? && id.bucket in s.buckets
    ensures r.Ok? ==> r.value == s.(objects := s.objects - {id})
  {
    match fault
    case Some(e) => Err(e)
    case None =>
      if id.bucket !in s.buckets then Err(S3Error(NoSuchBucketCode))
      else Ok(s.(objects := s.objects - {id}))
  }
}
