/** Images attached to entries: batch insertion for one entry, and the
    owner-scoped read, delete and comment update of one image. */
module ImageStore {
  import opened Wrappers
  import opened SeqUtil
  import opened Schema

  /** One image of the batch handed to `insertImagesDB`. */
  datatype CreateImageData = CreateImageData(path: string, comment: string, previewData: string, exifData: string)

  /** The row filter of the scoped statements: `WHERE user_id = ? AND id = ?`. */
  predicate OwnedImage(i: Image, imageId: int, userId: int) {
    i.userId == userId && i.id == imageId
  }

  /** The row one image of the batch becomes. */
  function ImageRow(id: int, entryId: int, userId: int, data: CreateImageData, now: string): Image {
    Image(id, entryId, userId, data.path, data.comment, data.previewData, data.exifData, now)
  }

  /** One `INSERT INTO images (...)` of the batch. */
  function InsertImage(db: Db, data: CreateImageData, entryId: int, userId: int, now: string): (r: Step<RunResult>)
    ensures r.out == RunResult(1, Some(db.nextImageId))
    ensures r.db == db.(images := r.db.images, nextImageId := db.nextImageId + 1)
    ensures r.db.images == db.images + [ImageRow(db.nextImageId, entryId, userId, data, now)]
    ensures Valid(db) ==> Valid(r.db)
  {
    var row := ImageRow(db.nextImageId, entryId, userId, data, now);
    var images := db.images + [row];
    var step := Step(db.(images := images, nextImageId := db.nextImageId + 1), RunResult(1, Some(row.id)));
    assert Valid(db) ==> Valid(step.db) by {
      if Valid(db) {
        AppendUniqueKeys(db.images, row, ImageId);
        assert forall i :: i in images ==> i in db.images || i == row;
      }
    }
    step
  }

  /** The database after the first `n` images of a batch: the other tables
      and the earlier image rows are kept, and one row per inserted image
      follows, with consecutive ids from the next id. */
  predicate BatchInserted(db: Db, db': Db, images: seq<CreateImageData>, n: nat, entryId: int, userId: int, now: string)
    requires n <= |images|
  {
    && db' == db.(images := db'.images, nextImageId := db.nextImageId + n)
    && |db'.images| == |db.images| + n
    && db'.images[..|db.images|] == db.images
    && forall k :: 0 <= k < n ==>
         db'.images[|db.images| + k] == ImageRow(db.nextImageId + k, entryId, userId, images[k], now)
  }

  /** Inserting the next image of the batch extends the batch by one row. */
  lemma BatchStep(db: Db, db': Db, images: seq<CreateImageData>, n: nat, entryId: int, userId: int, now: string)
    requires n < |images|
    requires BatchInserted(db, db', images, n, entryId, userId, now)
    ensures BatchInserted(db, InsertImage(db', images[n], entryId, userId, now).db, images, n + 1, entryId, userId, now)
  {
    var next := InsertImage(db', images[n], entryId, userId, now).db;
    assert next.images[..|db.images|] == db'.images[..|db.images|];
    forall k | 0 <= k < n + 1
      ensures next.images[|db.images| + k] == ImageRow(db.nextImageId + k, entryId, userId, images[k], now)
    {
      if k < n {
        assert next.images[|db.images| + k] == db'.images[|db.images| + k];
      }
    }
  }

  /** insertImagesDB: inserts the batch one image at a time, in order, every
      row carrying the given entry and owner. A statement reports failure by
      throwing, never by a falsy result, so the early exit is never taken
      and the result is always `true`. */
  method InsertImages(db: Db, images: seq<CreateImageData>, entryId: int, userId: int, now: string)
    returns (db': Db, success: bool)
    ensures success
    ensures db' == db.(images := db'.images, nextImageId := db.nextImageId + |images|)
    ensures |db'.images| == |db.images| + |images|
    ensures db'.images[..|db.images|] == db.images
    ensures forall k :: 0 <= k < |images| ==>
              db'.images[|db.images| + k] == ImageRow(db.nextImageId + k, entryId, userId, images[k], now)
    ensures Valid(db) ==> Valid(db')
    ensures Valid(db) ==> forall k :: 0 <= k < |images| ==>
              GetImage(db', db.nextImageId + k, userId) == Some(ImageRow(db.nextImageId + k, entryId, userId, images[k], now))
  {
    db' := db;
    success := true;
    var n := 0;
    while n < |images|
      invariant 0 <= n <= |images|
      invariant BatchInserted(db, db', images, n, entryId, userId, now)
      invariant Valid(db) ==> Valid(db')
    {
      BatchStep(db, db', images, n, entryId, userId, now);
      var r := InsertImage(db', images[n], entryId, userId, now);
      db' := r.db;
      n := n + 1;
    }
    if Valid(db) {
      AppendedImagesFound(db', |db.images|, db.nextImageId, images, entryId, userId, now);
    }
  }

  /** Under the invariant, the owner reads back each image of a batch
      appended after the first `before` rows. */
  lemma AppendedImagesFound(db: Db, before: nat, firstId: int, images: seq<CreateImageData>,
                            entryId: int, userId: int, now: string)
    requires Valid(db)
    requires before + |images| <= |db.images|
    requires forall k :: 0 <= k < |images| ==>
               db.images[before + k] == ImageRow(firstId + k, entryId, userId, images[k], now)
    ensures forall k :: 0 <= k < |images| ==>
              GetImage(db, firstId + k, userId) == Some(ImageRow(firstId + k, entryId, userId, images[k], now))
  {
    forall k | 0 <= k < |images|
      ensures GetImage(db, firstId + k, userId) == Some(ImageRow(firstId + k, entryId, userId, images[k], now))
    {
      GetImageFinds(db, db.images[before + k]);
    }
  }

  /** getImageDB: `SELECT * FROM images WHERE user_id = ? AND id = ?`. */
  function GetImage(db: Db, imageId: int, userId: int): (r: Option<Image>)
    ensures r.Some? <==> exists i :: i in db.images && OwnedImage(i, imageId, userId)
    ensures r.Some? ==> r.value in db.images && OwnedImage(r.value, imageId, userId)
  {
    FindFirst(db.images, (i: Image) => OwnedImage(i, imageId, userId))
  }

  /** Under the invariant, an owner reads back each of their images by id. */
  lemma GetImageFinds(db: Db, i: Image)
    requires Valid(db)
    requires i in db.images
    ensures GetImage(db, i.id, i.userId) == Some(i)
  {
    UniqueKeysMembers(db.images, ImageId, GetImage(db, i.id, i.userId).value, i);
  }

  /** deleteImageDB: removes the image only if the caller owns it; every
      other row of every table stays. */
  function DeleteImage(db: Db, imageId: int, userId: int): (r: Step<RunResult>)
    ensures r.db == db.(images := r.db.images)
    ensures forall i :: i in r.db.images <==> i in db.images && !OwnedImage(i, imageId, userId)
    ensures r.out.lastInsertRowid.None?
    ensures r.out.changes == |db.images| - |r.db.images|
    ensures r.out.changes == 0 <==> forall i :: i in db.images ==> !OwnedImage(i, imageId, userId)
    ensures Valid(db) ==> Valid(r.db) && r.out.changes <= 1
    ensures IsSubseq(r.db.images, db.images)
    ensures (forall i :: i in db.images ==> !OwnedImage(i, imageId, userId)) ==> r == Step(db, RunResult(0, None))
  {
    var keep := (i: Image) => !OwnedImage(i, imageId, userId);
    var gone := (i: Image) => OwnedImage(i, imageId, userId);
    var kept := Filter(db.images, keep);
    FilterSplit(db.images, gone, keep);
    var step := Step(db.(images := kept), RunResult(|db.images| - |kept|, None));
    assert Valid(db) ==> Valid(step.db) && step.out.changes <= 1 by {
      if Valid(db) {
        DeleteImageValid(db, keep, gone);
      }
    }
    FilterSubseq(db.images, keep);
    assert (forall i :: i in db.images ==> !OwnedImage(i, imageId, userId)) ==> step.db == db by {
      if forall i :: i in db.images ==> !OwnedImage(i, imageId, userId) {
        FilterKeepsAll(db.images, keep);
      }
    }
    step
  }

  /** Removing the rows one key selects keeps the invariant and removes at
      most one row. */
  lemma DeleteImageValid(db: Db, keep: Image -> bool, gone: Image -> bool)
    requires Valid(db)
    requires forall i :: keep(i) == !gone(i)
    requires forall i, i' :: gone(i) && gone(i') ==> i.id == i'.id
    ensures Valid(db.(images := Filter(db.images, keep)))
    ensures |db.images| - |Filter(db.images, keep)| <= 1
  {
    FilterSplit(db.images, gone, keep);
    FilterUniqueKeys(db.images, keep, ImageId);
    FilterAtMostOne(db.images, gone);
  }

  /** The `images` column after `SET comment = ?` on the rows the filter selects. */
  function SetComment(images: seq<Image>, imageId: int, userId: int, comment: string): (r: seq<Image>)
    ensures |r| == |images|
    ensures forall k :: 0 <= k < |images| ==>
              var before := images[k];
              var after := r[k];
              && after.(comment := before.comment) == before
              && (OwnedImage(before, imageId, userId) ==> after.comment == comment)
              && (!OwnedImage(before, imageId, userId) ==> after == before)
  {
    seq(|images|, k requires 0 <= k < |images| =>
      if OwnedImage(images[k], imageId, userId) then images[k].(comment := comment) else images[k])
  }

  lemma SetCommentValid(images: seq<Image>, next: int, imageId: int, userId: int, comment: string)
    requires ImagesValid(images, next)
    ensures ImagesValid(SetComment(images, imageId, userId, comment), next)
  {
    var r := SetComment(images, imageId, userId, comment);
    SameKeysUnique(images, r, ImageId);
    forall i | i in r ensures 0 < i.id < next {
      var k :| 0 <= k < |r| && r[k] == i;
      assert images[k] in images;
    }
  }

  /** updateImageCommentDB: `UPDATE images SET comment = ? WHERE user_id = ? AND id = ?`. */
  function UpdateImageComment(db: Db, imageId: int, userId: int, comment: string): (r: Step<RunResult>)
    ensures r.db == db.(images := SetComment(db.images, imageId, userId, comment))
    ensures r.out.lastInsertRowid.None?
    ensures r.out.changes == 0 <==> forall i :: i in db.images ==> !OwnedImage(i, imageId, userId)
    ensures Valid(db) ==> Valid(r.db) && r.out.changes <= 1
  {
    var hit := (i: Image) => OwnedImage(i, imageId, userId);
    var images := SetComment(db.images, imageId, userId, comment);
    var changes := |Filter(db.images, hit)|;
    var step := Step(db.(images := images), RunResult(changes, None));
    assert Valid(db) ==> Valid(step.db) && step.out.changes <= 1 by {
      if Valid(db) {
        SetCommentValid(db.images, db.nextImageId, imageId, userId, comment);
        FilterAtMostOne(db.images, hit);
      }
    }
    step
  }

  /** After a comment update by its owner, the image reads back with the new
      comment and otherwise as before. */
  lemma UpdateImageCommentThenGet(db: Db, imageId: int, userId: int, comment: string)
    requires Valid(db)
    requires GetImage(db, imageId, userId).Some?
    ensures GetImage(UpdateImageComment(db, imageId, userId, comment).db, imageId, userId)
            == Some(GetImage(db, imageId, userId).value.(comment := comment))
  {
    var before := GetImage(db, imageId, userId).value;
    var db' := UpdateImageComment(db, imageId, userId, comment).db;
    var k :| 0 <= k < |db.images| && db.images[k] == before;
    assert OwnedImage(db'.images[k], imageId, userId);
    var after := GetImage(db', imageId, userId).value;
    var j :| 0 <= j < |db'.images| && db'.images[j] == after;
    assert after.(comment := db.images[j].comment) == db.images[j];
    UniqueKeysMembers(db.images, ImageId, db.images[j], before);
  }

  /** After a delete by its owner, the image is gone for that owner. */
  lemma DeleteImageThenGet(db: Db, imageId: int, userId: int)
    ensures GetImage(DeleteImage(db, imageId, userId).db, imageId, userId).None?
  {
  }
}
