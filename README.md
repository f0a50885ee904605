# Photo album storage layer, in Dafny

This project models the core of a photo-sharing backend (FastAPI + SQLAlchemy +
MinIO). Users form groups and upload photos into them. The photos are kept in an
S3-compatible object store. Four parts are modelled:

- **Reference-counted object store** (`app/services/minio_client.py`). An object
  is stored once per object name. Its `x-amz-meta-ref-count` metadata counts the
  photo records that refer to it. An upload of a taken name raises the count
  instead of storing the bytes again. A delete lowers the count, and removes the
  object when the last reference goes. Bucket setup creates the bucket when it is
  absent.
- **Status codes** (`app/services/minio_status_codes.py`). Eleven codes and the
  description lookup.
- **Photo records** (`app/crud/photos.py`). The object key
  `"{group_id}_{user_id}_{image_name}"`, the upload path and the delete path.
- **Group membership** (`app/crud/groups.py`). Create, invite and remove, with
  their checks in the source's order.

The remote store is a value: a set of buckets plus a map from (bucket, key) to the
payload bytes and an optional count (`ObjectStore`). Each SDK call is one step on
that value: stat, copy-with-REPLACE-metadata, put, remove, bucket_exists and
make_bucket. A step goes through, or fails with an S3 error (`S3Error`, the one
exception type the source catches). The store reports
`NoSuchBucket` and `NoSuchKey` itself. Any other failure is an input: a `Faults`
value gives, for one operation, the error each kind of call reports, if any.

Each storage operation appears twice:

- a decision table over the store (`UploadOutcome`, `DeleteOutcome`, `SetupOutcome`);
- a method of the `MinioClient.Client` class. It holds the store's state and makes
  the calls one after another, in the source's order, and it is proved to agree
  with the table.

The lemmas are stated over the tables.

The database is the `Db.Database` class. It holds the users, groups and photos
tables as maps keyed by id. The crud functions are methods that change it. Raised
exceptions (`HTTPException`, `ValueError`, `PermissionError`, `Exception`) are
returned as `Err` values.

The main cross-cutting property is `Photos.RefCountsMatch`. The store is well
formed, so every stored object has a count of at least 1. Every stored object's count
equals the number of photo rows uploaded under its key, so an object with no rows does
not exist. Upload keeps the property, as long as no call reports a `NoSuchKey` that
the store itself would not report (`ObjectStore.Benign`). Such a report can only
come from a concurrent request. A delete of the photo's own key keeps the property.
The source builds the key from the caller's ids instead, and that key can break it:
see Findings.

Behaviours of the code worth knowing, all followed by the model:

- The object key joins the group id, the user id and the image name with `_`, and
  does not escape the separator. The key is still injective: the ids are integers,
  whose decimal form has no `_`, so the first two `_` always split a key correctly,
  even when the image name contains `_` (`Photos.ObjectKeyRoundTrip`,
  `Photos.ObjectKeyInjective`).
- In `upload_to_minio` the copy call sits in the same `try` as the stat. A copy
  failing with `NoSuchKey` therefore falls through to `put_object`, which stores the
  payload with count 1. A copy failing with any other code reports FAILURE.
- In `delete_from_minio` a `NoSuchKey` from the stat, the copy or the remove call
  reports OBJECT_NOT_FOUND. Any other S3 error reports FAILURE.
- Only missing count metadata reads as 0. Metadata that is not a number makes
  `int(...)` raise `ValueError` (see Left out).

## Model

| member | source | states |
|---|---|---|
| `StatusCodes.Status.Code` | app/services/minio_status_codes.py:5-17 | every status has an integer code between 0 and 10 |
| `StatusCodes.FromCode` | app/services/minio_status_codes.py:5-17 | exactly the integers 0 to 10 are codes, and each names a status with that code |
| `StatusCodes.CodeRoundTrip` | app/services/minio_status_codes.py:5-17 | a status is recovered from its code |
| `StatusCodes.CodesDistinct` | app/services/minio_status_codes.py:5-17 | two statuses have the same code iff they are the same status, so the eleven codes are distinct |
| `StatusCodes.Description` | app/services/minio_status_codes.py:20-35 | the lookup is total, and it returns "Unknown status code" exactly for integers outside the eleven codes |
| `StatusCodes.DescriptionTable` | app/services/minio_status_codes.py:22-34 | each of the eleven codes has its listed text |
| `StatusCodes.DescriptionsDistinct` | app/services/minio_status_codes.py:22-34 | two statuses have the same description iff they are the same status |
| `Decimal.NatToString` | app/crud/photos.py:27 | the decimal rendering of a natural number is non-empty, made of digits, and starts with `0` only for 0 itself |
| `Decimal.IntToString` | app/crud/photos.py:27 | the rendering of an integer is digits, with at most a leading minus sign |
| `Decimal.ParseNatToString` | app/crud/photos.py:27 | parsing the digits of n gives n |
| `Decimal.IntToStringRoundTrip` | app/crud/photos.py:27 | parsing the rendering of any integer gives that integer back |
| `Decimal.IntToStringInjective` | app/crud/photos.py:27 | two integers render alike iff they are equal |
| `Seqs.FirstIndex` | app/crud/groups.py:112 | the first position of an element, or None iff the element is absent |
| `Seqs.RemoveFirst` | app/crud/groups.py:112 | `list.remove` takes out the first occurrence of x and keeps the other elements in order (multiset minus one); a list without x comes back unchanged, where Python raises (see Left out) |
| `Seqs.RemoveFirstNoDuplicates` | app/crud/groups.py:112 | on a list without duplicates, removal leaves exactly the other elements, still without duplicates |
| `Seqs.RemoveFirstUndoesAppend` | app/crud/groups.py:78-112 | removing an element that was just appended, and absent before, restores the list |
| `ObjectStore.BucketExists` | app/services/minio_client.py:24 | reports whether the bucket exists, or fails only with the injected error |
| `ObjectStore.MakeBucket` | app/services/minio_client.py:25 | succeeds iff nothing fails and the bucket is absent, and then adds only that bucket |
| `ObjectStore.Stat` | app/services/minio_client.py:39 | returns the count metadata iff the bucket and the object exist and nothing fails; a missing key in an existing bucket is `NoSuchKey` |
| `ObjectStore.CopyReplaceMetadata` | app/services/minio_client.py:44-51 | rewrites only the count of an existing object; the payload, the other objects and the buckets stay the same |
| `ObjectStore.Put` | app/services/minio_client.py:60-62 | stores the payload with the given count under the key, replacing what was there; only a missing bucket or an injected error stops it |
| `ObjectStore.Remove` | app/services/minio_client.py:104 | drops the key, and succeeds on an absent key too |
| `MinioClient.UploadOutcome` | app/services/minio_client.py:35-67 | the upload decision table: it changes only its own object and never the buckets, and any status but FAILURE leaves that object stored |
| `MinioClient.FreshUpload` | app/services/minio_client.py:59-67 | the fresh-upload branch succeeds iff the bucket exists and the put does not fail, and then stores the payload with count 1; otherwise FAILURE and no change |
| `MinioClient.DeleteOutcome` | app/services/minio_client.py:74-113 | the delete decision table: it changes only its own object and never the buckets, and succeeds only on an object that exists |
| `MinioClient.SetupOutcome` | app/services/minio_client.py:22-32 | the setup decision table: it never touches objects, adds at most its own bucket, and a success leaves that bucket present |
| `MinioClient.DeleteErrorStatus` | app/services/minio_client.py:107-113 | a delete's S3 error becomes OBJECT_NOT_FOUND iff its code is `NoSuchKey`, and FAILURE otherwise |
| `MinioClient.SetupError` | app/services/minio_client.py:29-32 | the setup exception says "Bucket does not exist" for `NoSuchBucket` and "Operation failed" for every other code |
| `MinioClient.ObjectUrl` | app/services/minio_client.py:70-71 | the URL is the endpoint, "/", the bucket, "/" and the object name, so the name can be read back from its end |
| `MinioClient.ObjectUrlInjective` | app/services/minio_client.py:70-71 | under one endpoint and bucket, distinct object names have distinct URLs |
| `MinioClient.Client.constructor` | app/services/minio_client.py:14-19 | a client over the given settings, starting from the given store state |
| `MinioClient.Client.SetupMinioBucket` | app/services/minio_client.py:22-32 | its result and the new store state are those of the setup decision table |
| `MinioClient.Client.UploadToMinio` | app/services/minio_client.py:35-67 | its status and the new store state are those of the upload decision table |
| `MinioClient.Client.DeleteFromMinio` | app/services/minio_client.py:74-113 | its status and the new store state are those of the delete decision table |
| `MinioClient.UploadAbsentKey` | app/services/minio_client.py:54-67 | uploading an absent name stores the payload with count 1 and reports SUCCESS; a failing put reports FAILURE and changes nothing |
| `MinioClient.UploadExistingKey` | app/services/minio_client.py:39-53 | uploading a stored name sets its count to the old count + 1 (missing metadata counts as 0), keeps the payload and reports OBJECT_ALREADY_EXIST |
| `MinioClient.UploadStatFailure` | app/services/minio_client.py:54-57 | a stat failing with any code but `NoSuchKey` gives FAILURE and an unchanged store |
| `MinioClient.UploadFailureChangesNothing` | app/services/minio_client.py:35-67 | an upload reports SUCCESS, OBJECT_ALREADY_EXIST or FAILURE, and FAILURE leaves the store unchanged |
| `MinioClient.UploadAddsOneReference` | app/services/minio_client.py:35-67 | without racing `NoSuchKey` reports, a successful upload raises its object's count by exactly 1 and changes no other object; an unsuccessful one changes nothing |
| `MinioClient.DeleteDecrements` | app/services/minio_client.py:83-101 | deleting with count > 1 lowers the count by exactly 1, keeps the object and its payload, and reports SUCCESS |
| `MinioClient.DeleteRemoves` | app/services/minio_client.py:83-106 | deleting with count ≤ 1 (missing metadata counts as 0) removes the object and reports SUCCESS |
| `MinioClient.DeleteAbsentKey` | app/services/minio_client.py:107-110 | deleting an absent name reports OBJECT_NOT_FOUND and changes nothing |
| `MinioClient.DeleteAgainAfterRemoval` | app/services/minio_client.py:102-110 | once a delete has removed the object, a repeated delete reports OBJECT_NOT_FOUND |
| `MinioClient.DeleteFailureChangesNothing` | app/services/minio_client.py:74-113 | a delete reports SUCCESS, OBJECT_NOT_FOUND or FAILURE, and only SUCCESS changes the store |
| `MinioClient.DeleteDropsOneReference` | app/services/minio_client.py:74-113 | a successful delete acts on an existing object, lowers its count by 1 (not below 0), keeps its payload while it stays, and changes no other object |
| `MinioClient.UploadKeepsWellFormed` | app/services/minio_client.py:41-62 | uploads keep every object in an existing bucket, with a count of at least 1 |
| `MinioClient.DeleteKeepsWellFormed` | app/services/minio_client.py:84-106 | deletes keep every remaining object's count at least 1 |
| `MinioClient.SetupKeepsWellFormed` | app/services/minio_client.py:22-32 | setup keeps the store well formed |
| `MinioClient.UploadManyCounts` | app/services/minio_client.py:41-64 | n ≥ 1 uploads of a new name, with no failing call, leave it stored with count n and the uploaded payload, and nothing else changed |
| `MinioClient.UploadManyStatus` | app/services/minio_client.py:53-64 | the first of those uploads reports SUCCESS and every later one OBJECT_ALREADY_EXIST |
| `MinioClient.DeleteManyRemoves` | app/services/minio_client.py:86-106 | n deletes of an object with count n remove it and change nothing else |
| `MinioClient.UploadsThenDeletesRestore` | app/services/minio_client.py:35-113 | n uploads of a new name followed by n deletes restore the store exactly, so the object is absent again |
| `MinioClient.SetupNoDegradedSuccess` | app/services/minio_client.py:22-32 | a successful setup leaves the bucket present and the objects untouched; a failed setup changes nothing |
| `MinioClient.SetupFailsOnFault` | app/services/minio_client.py:29-32 | any failing bucket call makes setup fail, with the message built from that call's error |
| `MinioClient.SetupIdempotent` | app/services/minio_client.py:24-28 | without failures setup succeeds and leaves the bucket present, and running it again changes nothing |
| `Db.GetUserByEmail` | app/crud/users.py:23-24 | the user with that email if there is one, or None exactly when no user has it |
| `Groups.GetGroupById` | app/crud/groups.py:14-21 | the group when its id exists, and a 404 "Group not found" otherwise |
| `Groups.CreateGroup` | app/crud/groups.py:24-45 | a taken name gives 409 and no change; otherwise a new id holds the group, with the creator as admin and as its only member, and the tables stay valid |
| `Groups.InviteUserToGroup` | app/crud/groups.py:48-80 | 404 for an unknown email, then 404 for an unknown group, then 403 unless the caller is the admin, then 409 for an existing member, each with no change; otherwise the user is appended once and the other members are unchanged |
| `Groups.RemoveUserFromGroup` | app/crud/groups.py:83-115 | 404 for an unknown group, then 404 when the target is not a member, then 403 when the target is the admin and others remain, then 403 when the caller is neither admin nor target, each with no change; otherwise an admin leaving deletes the group and anyone else leaves the member list alone |
| `Groups.RemoveUndoesInvite` | app/crud/groups.py:78-112 | removing a member who was just invited restores the group's former member list |
| `Groups.InviteKeepsGroupValid` | app/crud/groups.py:71-78 | an invite keeps the admin a member, the members distinct and every member a user |
| `Groups.RemoveKeepsGroupValid` | app/crud/groups.py:94-112 | removing a non-admin keeps the group valid |
| `Photos.ObjectKey` | app/crud/photos.py:27 | the key ends with the image name after a `_`, and is at least four characters longer than the name |
| `Photos.ObjectKeyRoundTrip` | app/crud/photos.py:27 | splitting a key at its first two `_` recovers the group id, the user id and the image name, even when the name contains `_` |
| `Photos.ObjectKeyInjective` | app/crud/photos.py:27 | two photos share a key iff their group, user and image name all agree |
| `Photos.ObjectKeyExample` | app/crud/photos.py:27 | group 7, user 3 and "sunset.jpg" give "7_3_sunset.jpg" |
| `Photos.UploadKeepsRefCountsMatched` | app/crud/photos.py:71-88 | adding a row exactly when the storage upload succeeds keeps every count equal to its number of rows |
| `Photos.DeleteByRecordKeyKeepsRefCountsMatched` | app/crud/photos.py:120-130 | deleting the row exactly when a delete of its own key succeeds keeps every count equal to its number of rows |
| `Photos.UploadErrorMessage` | app/crud/photos.py:38-41 | the failure message is the inner message wrapped once more, and the status code can be read back from its end |
| `Photos.HandleImageUpload` | app/crud/photos.py:15-41 | the store changes as the upload table says; the result is the object URL iff the status is SUCCESS or OBJECT_ALREADY_EXIST, and otherwise an error naming the status code |
| `Photos.UploadPhoto` | app/crud/photos.py:44-89 | 404 for an unknown group, then 404 for an unknown user, then 403 for a non-member, with no storage call and no row; then 500 and no row when storage fails; otherwise one new row whose file path is the object URL; keeps counts matched when no racing `NoSuchKey` is reported |
| `Photos.GetPhotoById` | app/crud/photos.py:100-107 | the photo when its id exists, and a 404 "Photo not found" otherwise |
| `Photos.MayDelete` | app/crud/photos.py:117 | the uploader may always delete a photo, and anyone else only as admin of the photo's group |
| `Photos.CallerObjectKey` | app/crud/photos.py:122 | the key built from the caller's ids is the photo's own key exactly when the caller passes the photo's group and user |
| `Photos.DeletePhoto` | app/crud/photos.py:110-132 | "Photo not found." for a missing row; a permission error unless the caller owns the photo or administers its group; then a storage delete of the key built from the caller's ids; the row goes only on SUCCESS, and any other status raises with its description and keeps the row |
| `Photos.DeletePhotoByRecordKey` | app/crud/photos.py:110-132 | the same checks and results, with the key taken from the photo's own record; keeps every count equal to its number of rows |
| `Photos.CallerKeyDeleteBreaksRefCounts` | app/crud/photos.py:117-130 | an admin deleting a member's photo, with a photo of the same name of their own, succeeds in storage but leaves counts that no longer match the rows |

## Left out

- The MinIO SDK, the network and the client construction (app/services/minio_client.py:14-19). A call's success or failure is an input (`Faults`), not something the model decides.
- Logging throughout app/services/minio_client.py.
- Concurrency. Operations run one at a time. The read-then-write race on the count between two requests is not modelled. A `NoSuchKey` reported for a key that exists is the trace such a race leaves, and the model accepts it as an input.
- Seqs.RemoveFirst: returns the list unchanged when the element is absent, where Python's `list.remove` raises `ValueError`. Its only caller (app/crud/groups.py:112) runs after the membership 404 at line 88, so the case never arises there.
- UploadPhoto: keeps counts matched only when no call reports a racing `NoSuchKey` (`Benign`). Such a report makes the source store the object again with count 1 and lose the earlier references.
- Exceptions other than `S3Error` (a connection error, for example) escape `upload_to_minio`, `delete_from_minio` and `setup_minio_bucket` unchanged. The model gives every failing call an S3 error code, so it reports FAILURE (or "Setup error: …") where the source raises the original exception, and `delete_photo` then passes that exception on instead of "Failed to delete photo from MinIO: …" (app/crud/photos.py:123-126). The store and the rows still end as in the model's FAILURE case, because the call that raises is the one that would have written. A `db.commit` failing after a successful storage call (app/crud/photos.py:87, 130) is not modelled either: there the store has changed while the rows have not.
- The `ValueError` from `int(...)` on count metadata that is not a number (app/services/minio_client.py:41, 84). Metadata is an optional natural number.
- `get_user_photos` and `get_group_photos` (app/crud/photos.py:92-97): plain filtered queries that nothing in this model calls.
- The photo's `upload_time` (a clock default) and `db.refresh`. UploadPhoto returns the new row's id and gives the row in its postcondition.
- SQLAlchemy sessions and transactions. Each method's writes take effect together, and the two commits of `create_group` are one step.
- `create_group` for a creator who is not a user: the source would append `None` to the members. The model requires the creator to be a user, as the only caller passes the authenticated user's id.
- Deleting a group: the relationship to photos (app/models/group.py:17) declares no delete cascade, so SQLAlchemy by default sets the photos' `group_id` to NULL rather than deleting them. The model leaves the rows as they were. Either way, the admin lookup at app/crud/photos.py:117 no longer finds a group for them.
- `remove_user_from_group` loads the target with `db.query(User).get`. An unknown id gives `None`, which is not a member. The model checks membership directly, with the same 404.
- JWT and bcrypt (app/services/auth.py), `get_current_user` and `authenticate_user`, the FastAPI routers, the app lifespan, the schemas and the settings loader.

## Findings

| source | as written | input that shows it | evidently intended | confidence | as-written member | corrected member |
|---|---|---|---|---|---|---|
| app/crud/photos.py:122 | `delete_photo` builds the key from the caller's `group_id` and `user_id`, not from the photo's | group 5 has admin 1 and member 2, and each owns a photo "a.jpg" with one reference. Admin 1 deletes member 2's photo. Storage removes 5_1_a.jpg, the admin's object, and reports SUCCESS. Member 2's row goes, and 5_2_a.jpg keeps a reference that no row holds. Without a same-named photo of their own, the admin always gets OBJECT_NOT_FOUND | the key of the photo being deleted, from `photo.group_id` and `photo.user_id` | high; not executed | Photos.CallerKeyDeleteBreaksRefCounts | Photos.DeletePhotoByRecordKey |
