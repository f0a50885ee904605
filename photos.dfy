/** Photo records (app/crud/photos.py): the object key a photo is stored under, the
    upload path (checks, storage upload, then one new row) and the delete path
    (checks, storage delete, then the row goes). */
module Photos {
  import opened Wrappers
  import opened Decimal
  import opened Seqs
  import opened StatusCodes
  import opened ObjectStore
  import opened MinioClient
  import opened Db

  // ---------------------------------------------------------------------------
  // Object keys

  /** f"{group_id}_{user_id}_{image_name}": the image name is the key's tail, after a '_',
      and the key is never shorter than two digits, two '_' and the name. */
  function ObjectKey(groupId: int, userId: int, imageName: string): (key: string)
    ensures |key| >= |imageName| + 4
    ensures key[|key| - |imageName|..] == imageName && key[|key| - |imageName| - 1] == '_'
  {
    IntToString(groupId) + "_" + IntToString(userId) + "_" + imageName
  }

  datatype KeyParts = KeyParts(groupId: int, userId: int, imageName: string)

  /** Reads a key back: the two ids end at the first and the second '_'. */
  function ParseObjectKey(key: string): (r: Option<KeyParts>)
  {
    match FirstIndex(key, '_')
    case None => None
    case Some(i) =>
      var rest := key[i + 1..];
      match FirstIndex(rest, '_')
      case None => None
      case Some(j) =>
        var groupId := ParseInt(key[..i]);
        var userId := ParseInt(rest[..j]);
        if groupId.Some? && userId.Some? then Some(KeyParts(groupId.value, userId.value, rest[j + 1..]))
        else None
  }

  lemma FirstIndexAfterPrefix(a: string, rest: string)
    requires '_' !in a
    ensures FirstIndex(a + "_" + rest, '_') == Some(|a|)
  {
    var s := a + "_" + rest;
    assert s[|a|] == '_';
    assert s[..|a|] == a;
  }

  lemma NoUnderscoreInInt(i: int)
    ensures '_' !in IntToString(i)
  {
  }

  /** Splitting a key whose two id parts contain no '_' recovers the parts and the name. */
  lemma ParseJoinedKey(g: string, u: string, imageName: string)
    requires '_' !in g && '_' !in u
    ensures var pg, pu := ParseInt(g), ParseInt(u);
      ParseObjectKey(g + "_" + u + "_" + imageName) ==
        if pg.Some? && pu.Some? then Some(KeyParts(pg.value, pu.value, imageName)) else None
  {
    var key := g + "_" + u + "_" + imageName;
    assert key == g + "_" + (u + "_" + imageName);
    FirstIndexAfterPrefix(g, u + "_" + imageName);
    var rest := key[|g| + 1..];
    assert rest == u + "_" + imageName;
    FirstIndexAfterPrefix(u, imageName);
    assert key[..|g|] == g;
    assert rest[..|u|] == u;
    assert rest[|u| + 1..] == imageName;
  }

  /** Decimal ids contain no '_', so a key determines the group, the user and the image
      name it was built from, even when the image name itself contains '_'. */
  lemma ObjectKeyRoundTrip(groupId: int, userId: int, imageName: string)
    ensures ParseObjectKey(ObjectKey(groupId, userId, imageName)) == Some(KeyParts(groupId, userId, imageName))
  {
    NoUnderscoreInInt(groupId);
    NoUnderscoreInInt(userId);
    ParseJoinedKey(IntToString(groupId), IntToString(userId), imageName);
    IntToStringRoundTrip(groupId);
    IntToStringRoundTrip(userId);
  }

  /** Two photos share a stored object exactly when group, user and image name all agree. */
  lemma ObjectKeyInjective(a: KeyParts, b: KeyParts)
    ensures ObjectKey(a.groupId, a.userId, a.imageName) == ObjectKey(b.groupId, b.userId, b.imageName) <==> a == b
  {
    ObjectKeyRoundTrip(a.groupId, a.userId, a.imageName);
    ObjectKeyRoundTrip(b.groupId, b.userId, b.imageName);
  }

  lemma ObjectKeyExample()
    ensures ObjectKey(7, 3, "sunset.jpg") == "7_3_sunset.jpg"
  {
    assert IntToString(7) == "7";
    assert IntToString(3) == "3";
  }

  // ---------------------------------------------------------------------------
  // Reference counts against photo rows

  /** The key a photo record was uploaded under. */
  function PhotoKey(p: Photo): string {
    ObjectKey(p.groupId, p.userId, p.name)
  }

  ghost function RowsWithKey(photos: map<int, Photo>, key: string): set<int> {
    set id | id in photos && PhotoKey(photos[id]) == key
  }

  /** Every stored object's count is the number of photo rows uploaded under its key. As a
      well-formed store holds no object with a count below 1, an object without rows does
      not exist. */
  ghost predicate RefCountsMatch(photos: map<int, Photo>, s: StoreState, bucket: string) {
    WellFormed(s) &&
    forall key :: RefCount(s, ObjectId(bucket, key)) == |RowsWithKey(photos, key)|
  }

  lemma RowsWithKeyInsert(photos: map<int, Photo>, newId: int, p: Photo, key: string)
    requires newId !in photos
    ensures |RowsWithKey(photos[newId := p], key)| == |RowsWithKey(photos, key)| + (if PhotoKey(p) == key then 1 else 0)
  {
    if PhotoKey(p) == key {
      assert RowsWithKey(photos[newId := p], key) == RowsWithKey(photos, key) + {newId};
    } else {
      assert RowsWithKey(photos[newId := p], key) == RowsWithKey(photos, key);
    }
  }

  lemma RowsWithKeyRemove(photos: map<int, Photo>, photoId: int, key: string)
    requires photoId in photos
    ensures |RowsWithKey(photos - {photoId}, key)| == |RowsWithKey(photos, key)| - (if PhotoKey(photos[photoId]) == key then 1 else 0)
  {
    if PhotoKey(photos[photoId]) == key {
      assert photoId in RowsWithKey(photos, key);
      assert RowsWithKey(photos - {photoId}, key) == RowsWithKey(photos, key) - {photoId};
    } else {
      assert RowsWithKey(photos - {photoId}, key) == RowsWithKey(photos, key);
    }
  }

  /** Adding a row for a photo whose storage upload succeeded keeps the counts matched. */
  lemma UploadKeepsRefCountsMatched(photos: map<int, Photo>, s: StoreState, bucket: string, data: seq<bv8>, p: Photo, newId: int, f: Faults)
    requires RefCountsMatch(photos, s, bucket) && Benign(f) && newId !in photos
    ensures var r := UploadOutcome(s, data, bucket, PhotoKey(p), f);
      RefCountsMatch(if r.status == Success || r.status == ObjectAlreadyExist then photos[newId := p] else photos, r.after, bucket)
  {
    var key := PhotoKey(p);
    var r := UploadOutcome(s, data, bucket, key, f);
    UploadAddsOneReference(s, data, bucket, key, f);
    UploadKeepsWellFormed(s, data, bucket, key, f);
    if r.status == Success || r.status == ObjectAlreadyExist {
      var next := photos[newId := p];
      forall k ensures RefCount(r.after, ObjectId(bucket, k)) == |RowsWithKey(next, k)| {
        RowsWithKeyInsert(photos, newId, p, k);
        assert k != key ==> RefCount(r.after, ObjectId(bucket, k)) == RefCount(s, ObjectId(bucket, k));
      }
    }
  }

  /** Deleting a row together with one reference to the object it was uploaded under keeps
      the counts matched; when the storage delete does not succeed, the row stays. */
  lemma DeleteByRecordKeyKeepsRefCountsMatched(photos: map<int, Photo>, s: StoreState, bucket: string, photoId: int, f: Faults)
    requires RefCountsMatch(photos, s, bucket) && photoId in photos
    ensures var r := DeleteOutcome(s, bucket, PhotoKey(photos[photoId]), f);
      RefCountsMatch(if r.status == Success then photos - {photoId} else photos, r.after, bucket)
  {
    var key := PhotoKey(photos[photoId]);
    var r := DeleteOutcome(s, bucket, key, f);
    DeleteDropsOneReference(s, bucket, key, f);
    DeleteFailureChangesNothing(s, bucket, key, f);
    DeleteKeepsWellFormed(s, bucket, key, f);
    if r.status == Success {
      var next := photos - {photoId};
      assert photoId in RowsWithKey(photos, key);
      forall k ensures RefCount(r.after, ObjectId(bucket, k)) == |RowsWithKey(next, k)| {
        RowsWithKeyRemove(photos, photoId, k);
        assert k != key ==> RefCount(r.after, ObjectId(bucket, k)) == RefCount(s, ObjectId(bucket, k));
      }
    }
  }

  // ---------------------------------------------------------------------------
  // Upload

  /** The message an upload failure propagates: the inner message wrapped once more, ending
      in the status code, which can be read back from it. */
  function UploadErrorMessage(status: Status): (message: string)
    ensures |message| > |UploadErrorPrefix|
    ensures message[..|UploadErrorPrefix|] == UploadErrorPrefix
    ensures ParseInt(message[|UploadErrorPrefix|..]) == Some(status.Code())
  {
    IntToStringRoundTrip(status.Code());
    var message := UploadErrorPrefix + IntToString(status.Code());
    assert message[|UploadErrorPrefix|..] == IntToString(status.Code());
    message
  }

  const UploadErrorPrefix := "Error during image upload: " + "Failed to upload image. Status code: "

  /** handle_image_upload: the object URL when storage reports SUCCESS or
      OBJECT_ALREADY_EXIST; for any other status an error naming its code. */
  method HandleImageUpload(client: Client, imageData: seq<bv8>, imageName: string, userId: int, groupId: int, f: Faults)
    returns (r: Result<string, string>)
    modifies client
    ensures var bucket := client.settings.minioBucketName;
      var key := ObjectKey(groupId, userId, imageName);
      var step := UploadOutcome(old(client.State()), imageData, bucket, key, f);
      client.State() == step.after &&
      (r.Ok? <==> step.status == Success || step.status == ObjectAlreadyExist) &&
      (r.Ok? ==> r.value == ObjectUrl(client.settings.minioEndpoint, bucket, key)) &&
      (r.Err? ==> r.error == UploadErrorMessage(step.status))
  {
    var bucket := client.settings.minioBucketName;
    var objectName := ObjectKey(groupId, userId, imageName);
    var result := client.UploadToMinio(imageData, bucket, objectName, f);
    if result == Success || result == ObjectAlreadyExist {
      return Ok(ObjectUrl(client.settings.minioEndpoint, bucket, objectName));
    }
    r := Err(UploadErrorMessage(result));
  }

  /** upload_photo: 404 for an unknown group, 404 for an unknown user, 403 for a non-member
      (none of which reaches storage); 500 when storage fails (no row); otherwise one new row
      whose file path is the object's URL. Returns the new row's id. */
  method UploadPhoto(db: Database, client: Client, userId: int, groupId: int, imageName: string, imageData: seq<bv8>, f: Faults)
    returns (r: Result<int, Error>)
    requires db.Valid()
    modifies db, client
    ensures db.Valid() && db.users == old(db.users) && db.groups == old(db.groups)
    ensures var bucket := client.settings.minioBucketName;
      var key := ObjectKey(groupId, userId, imageName);
      if groupId !in old(db.groups) then
        r == Err(HttpException(404, "Group not found")) && db.photos == old(db.photos) && client.State() == old(client.State())
      else if userId !in old(db.users) then
        r == Err(HttpException(404, "User not found")) && db.photos == old(db.photos) && client.State() == old(client.State())
      else if userId !in old(db.groups)[groupId].members then
        r == Err(HttpException(403, "User is not a member of this group")) && db.photos == old(db.photos) && client.State() == old(client.State())
      else
        var step := UploadOutcome(old(client.State()), imageData, bucket, key, f);
        client.State() == step.after &&
        if step.status == Success || step.status == ObjectAlreadyExist then
          r.Ok? && r.value !in old(db.photos) &&
          db.photos == old(db.photos)[r.value := Photo(imageName, ObjectUrl(client.settings.minioEndpoint, bucket, key), userId, groupId)]
        else
          r == Err(HttpException(500, "Failed to upload the photo")) && db.photos == old(db.photos)
    ensures old(RefCountsMatch(db.photos, client.State(), client.settings.minioBucketName)) && Benign(f) ==>
      RefCountsMatch(db.photos, client.State(), client.settings.minioBucketName)
  {
    ghost var photos0, store0 := db.photos, client.State();
    if groupId !in db.groups {
      return Err(HttpException(404, "Group not found"));
    }
    if userId !in db.users {
      return Err(HttpException(404, "User not found"));
    }
    if userId !in db.groups[groupId].members {
      return Err(HttpException(403, "User is not a member of this group"));
    }
    var url := HandleImageUpload(client, imageData, imageName, userId, groupId, f);
    ghost var p := Photo(imageName, if url.Ok? then url.value else "", userId, groupId);
    if RefCountsMatch(photos0, store0, client.settings.minioBucketName) && Benign(f) {
      UploadKeepsRefCountsMatched(photos0, store0, client.settings.minioBucketName, imageData, p, db.nextPhotoId, f);
    }
    if url.Err? {
      return Err(HttpException(500, "Failed to upload the photo"));
    }
    var id := db.nextPhotoId;
    db.photos := db.photos[id := Photo(imageName, url.value, userId, groupId)];
    db.nextPhotoId := id + 1;
    r := Ok(id);
  }

  // ---------------------------------------------------------------------------
  // Lookup and delete

  /** get_photo_by_id: the photo, or 404. */
  function GetPhotoById(db: Database, photoId: int): (r: Result<Photo, Error>)
    reads db
    ensures r.Ok? <==> photoId in db.photos
    ensures r.Ok? ==> r.value == db.photos[photoId]
    ensures r.Err? ==> r.error == HttpException(404, "Photo not found")
  {
    if photoId in db.photos then Ok(db.photos[photoId]) else Err(HttpException(404, "Photo not found"))
  }

  /** The uploader may always delete a photo; anyone else only as admin of its group. */
  function MayDelete(groups: map<int, Group>, photo: Photo, userId: int): (allowed: bool)
    ensures photo.userId == userId ==> allowed
    ensures allowed && photo.userId != userId ==> photo.groupId in groups && groups[photo.groupId].adminId == userId
  {
    photo.userId == userId || (photo.groupId in groups && groups[photo.groupId].adminId == userId)
  }

  /** The key delete_photo deletes: built from the caller's group and user ids. It is the
      photo's own key exactly when the caller passes the photo's own group and user. */
  function CallerObjectKey(groupId: int, userId: int, photo: Photo): (key: string)
    ensures key == PhotoKey(photo) <==> groupId == photo.groupId && userId == photo.userId
  {
    ObjectKeyInjective(KeyParts(groupId, userId, photo.name), KeyParts(photo.groupId, photo.userId, photo.name));
    ObjectKey(groupId, userId, photo.name)
  }

  /** delete_photo as written: "Photo not found." for a missing row, a permission error
      unless the caller may delete it, then a storage delete of the key built from the
      CALLER's ids; the row goes only when that delete reports SUCCESS. */
  method DeletePhoto(db: Database, client: Client, groupId: int, userId: int, photoId: int, f: Faults)
    returns (r: Result<string, Error>)
    requires db.Valid()
    modifies db, client
    ensures db.Valid() && db.users == old(db.users) && db.groups == old(db.groups)
    ensures
      if photoId !in old(db.photos) then
        r == Err(ValueError("Photo not found.")) && db.photos == old(db.photos) && client.State() == old(client.State())
      else
        var photo := old(db.photos)[photoId];
        if !MayDelete(old(db.groups), photo, userId) then
          r == Err(PermissionError("You do not have permission to delete this photo.")) &&
          db.photos == old(db.photos) && client.State() == old(client.State())
        else
          var step := DeleteOutcome(old(client.State()), client.settings.minioBucketName, CallerObjectKey(groupId, userId, photo), f);
          client.State() == step.after &&
          if step.status == Success then
            r == Ok("Photo deleted successfully") && db.photos == old(db.photos) - {photoId}
          else
            r == Err(Exception("Failed to delete photo from MinIO: " + Description(step.status.Code()))) &&
            db.photos == old(db.photos)
  {
    if photoId !in db.photos {
      return Err(ValueError("Photo not found."));
    }
    var photo := db.photos[photoId];
    if !MayDelete(db.groups, photo, userId) {
      return Err(PermissionError("You do not have permission to delete this photo."));
    }
    var objectName := CallerObjectKey(groupId, userId, photo);
    var deleteStatus := client.DeleteFromMinio(client.settings.minioBucketName, objectName, f);
    if deleteStatus != Success {
      return Err(Exception("Failed to delete photo from MinIO: " + Description(deleteStatus.Code())));
    }
    db.photos := db.photos - {photoId};
    r := Ok("Photo deleted successfully");
  }

  /** delete_photo with the key taken from the photo's own record, so that the reference
      dropped is one the row holds; it keeps every count equal to its number of rows. */
  method DeletePhotoByRecordKey(db: Database, client: Client, groupId: int, userId: int, photoId: int, f: Faults)
    returns (r: Result<string, Error>)
    requires db.Valid()
    modifies db, client
    ensures db.Valid() && db.users == old(db.users) && db.groups == old(db.groups)
    ensures
      if photoId !in old(db.photos) then
        r == Err(ValueError("Photo not found.")) && db.photos == old(db.photos) && client.State() == old(client.State())
      else
        var photo := old(db.photos)[photoId];
        if !MayDelete(old(db.groups), photo, userId) then
          r == Err(PermissionError("You do not have permission to delete this photo.")) &&
          db.photos == old(db.photos) && client.State() == old(client.State())
        else
          var step := DeleteOutcome(old(client.State()), client.settings.minioBucketName, PhotoKey(photo), f);
          client.State() == step.after &&
          if step.status == Success then
            r == Ok("Photo deleted successfully") && db.photos == old(db.photos) - {photoId}
          else
            r == Err(Exception("Failed to delete photo from MinIO: " + Description(step.status.Code()))) &&
            db.photos == old(db.photos)
    ensures old(RefCountsMatch(db.photos, client.State(), client.settings.minioBucketName)) ==>
      RefCountsMatch(db.photos, client.State(), client.settings.minioBucketName)
  {
    if photoId !in db.photos {
      return Err(ValueError("Photo not found."));
    }
    var photo := db.photos[photoId];
    if !MayDelete(db.groups, photo, userId) {
      return Err(PermissionError("You do not have permission to delete this photo."));
    }
    ghost var photos0, store0 := db.photos, client.State();
    if RefCountsMatch(photos0, store0, client.settings.minioBucketName) {
      DeleteByRecordKeyKeepsRefCountsMatched(photos0, store0, client.settings.minioBucketName, photoId, f);
    }
    var objectName := PhotoKey(photo);
    var deleteStatus := client.DeleteFromMinio(client.settings.minioBucketName, objectName, f);
    if deleteStatus != Success {
      return Err(Exception("Failed to delete photo from MinIO: " + Description(deleteStatus.Code())));
    }
    db.photos := db.photos - {photoId};
    r := Ok("Photo deleted successfully");
  }

  /** Two rows under two distinct keys, each key's object holding one reference. */
  lemma TwoRowsCountsMatch(p: Photo, q: Photo, bucket: string)
    requires PhotoKey(p) != PhotoKey(q)
    ensures RefCountsMatch(map[10 := p, 11 := q], StoreState({bucket}, map[
      ObjectId(bucket, PhotoKey(p)) := StoredObject([], Some(1)),
      ObjectId(bucket, PhotoKey(q)) := StoredObject([], Some(1))]), bucket)
  {
    var photos := map[10 := p, 11 := q];
    var s := StoreState({bucket}, map[
      ObjectId(bucket, PhotoKey(p)) := StoredObject([], Some(1)),
      ObjectId(bucket, PhotoKey(q)) := StoredObject([], Some(1))]);
    forall key ensures RefCount(s, ObjectId(bucket, key)) == |RowsWithKey(photos, key)| {
      if key == PhotoKey(p) {
        assert RowsWithKey(photos, key) == {10};
      } else if key == PhotoKey(q) {
        assert RowsWithKey(photos, key) == {11};
      } else {
        assert RowsWithKey(photos, key) == {};
      }
    }
  }

  lemma ExampleKeys()
    ensures PhotoKey(Photo("a.jpg", "http://store/photos/5_2_a.jpg", 2, 5)) == "5_2_a.jpg"
    ensures PhotoKey(Photo("a.jpg", "http://store/photos/5_1_a.jpg", 1, 5)) == "5_1_a.jpg"
    ensures CallerObjectKey(5, 1, Photo("a.jpg", "http://store/photos/5_2_a.jpg", 2, 5)) == "5_1_a.jpg"
  {
    assert IntToString(5) == "5" && IntToString(2) == "2" && IntToString(1) == "1";
  }

  /** The source's key choice breaks the counts. Group 5 has admin 1 and member 2, each with
      a photo named a.jpg, each object holding one reference. The admin may delete member 2's
      photo, but the delete removes the ADMIN's object (key 5_1_a.jpg) and reports SUCCESS,
      so member 2's row goes while its object stays, and the admin's row loses its object. */
  lemma CallerKeyDeleteBreaksRefCounts()
    ensures var bucket := "photos";
      var memberPhoto := Photo("a.jpg", "http://store/photos/5_2_a.jpg", 2, 5);
      var adminPhoto := Photo("a.jpg", "http://store/photos/5_1_a.jpg", 1, 5);
      var photos := map[10 := memberPhoto, 11 := adminPhoto];
      var groups := map[5 := Group("trip", None, 1, [1, 2])];
      var s := StoreState({bucket}, map[
        ObjectId(bucket, "5_2_a.jpg") := StoredObject([], Some(1)),
        ObjectId(bucket, "5_1_a.jpg") := StoredObject([], Some(1))]);
      var step := DeleteOutcome(s, bucket, CallerObjectKey(5, 1, memberPhoto), NoFaults);
      RefCountsMatch(photos, s, bucket) && MayDelete(groups, memberPhoto, 1) &&
      CallerObjectKey(5, 1, memberPhoto) != PhotoKey(memberPhoto) &&
      step.status == Success &&
      !RefCountsMatch(photos - {10}, step.after, bucket)
  {
    var bucket := "photos";
    var memberPhoto := Photo("a.jpg", "http://store/photos/5_2_a.jpg", 2, 5);
    var adminPhoto := Photo("a.jpg", "http://store/photos/5_1_a.jpg", 1, 5);
    var photos := map[10 := memberPhoto, 11 := adminPhoto];
    var s := StoreState({bucket}, map[
      ObjectId(bucket, "5_2_a.jpg") := StoredObject([], Some(1)),
      ObjectId(bucket, "5_1_a.jpg") := StoredObject([], Some(1))]);
    ExampleKeys();
    TwoRowsCountsMatch(memberPhoto, adminPhoto, bucket);
    var step := DeleteOutcome(s, bucket, "5_1_a.jpg", NoFaults);
    DeleteRemoves(s, bucket, "5_1_a.jpg", NoFaults);
    assert RowsWithKey(photos - {10}, "5_1_a.jpg") == {11};
    assert RefCount(step.after, ObjectId(bucket, "5_1_a.jpg")) == 0;
  }
}
