/** Tags, namespaced per user, and the entry-to-tag association: both
    inserted with `INSERT OR IGNORE`, so repeating an insert is a no-op. */
module TagStore {
  import opened Wrappers
  import opened SeqUtil
  import opened Schema
  import EntryStore

  predicate NamedTag(t: Tag, userId: int, name: string) {
    t.userId == userId && t.name == name
  }

  function TagNamed(userId: int, name: string): Tag -> bool {
    (t: Tag) => NamedTag(t, userId, name)
  }

  function IsLink(entryId: int, tagId: int): EntryTag -> bool {
    (l: EntryTag) => l == EntryTag(entryId, tagId)
  }

  /** createTagDB: `INSERT OR IGNORE INTO tags (user_id, name)`. The pair
      `(user_id, name)` is unique, so a tag the user already has is left
      alone and nothing is inserted. */
  function CreateTag(db: Db, userId: int, name: string): (r: Step<RunResult>)
    ensures (exists t :: t in db.tags && NamedTag(t, userId, name)) ==> r == Step(db, RunResult(0, None))
    ensures (forall t :: t in db.tags ==> !NamedTag(t, userId, name)) ==>
              && r.out == RunResult(1, Some(db.nextTagId))
              && r.db == db.(tags := db.tags + [Tag(db.nextTagId, userId, name, None)], nextTagId := db.nextTagId + 1)
    ensures exists t :: t in r.db.tags && NamedTag(t, userId, name)
    ensures Valid(db) ==> Valid(r.db)
  {
    if exists t :: t in db.tags && NamedTag(t, userId, name) then
      Step(db, RunResult(0, None))
    else
      var row := Tag(db.nextTagId, userId, name, None);
      var tags := db.tags + [row];
      assert row in tags;
      var step := Step(db.(tags := tags, nextTagId := db.nextTagId + 1), RunResult(1, Some(row.id)));
      assert Valid(db) ==> Valid(step.db) by {
        if Valid(db) {
          AppendUniqueKeys(db.tags, row, TagId);
          AppendUniqueKeys(db.tags, row, TagOwnerName);
          assert forall t :: t in tags ==> t in db.tags || t == row;
        }
      }
      step
  }

  /** Creating the same tag twice: the second call changes nothing and
      reports zero rows inserted. */
  lemma CreateTagIdempotent(db: Db, userId: int, name: string)
    ensures var once := CreateTag(db, userId, name);
            CreateTag(once.db, userId, name) == Step(once.db, RunResult(0, None))
  {
  }

  /** After `createTagDB` the user has exactly one tag of that name. */
  lemma CreateTagExactlyOne(db: Db, userId: int, name: string)
    requires Valid(db)
    ensures |Filter(CreateTag(db, userId, name).db.tags, TagNamed(userId, name))| == 1
  {
    var tags := CreateTag(db, userId, name).db.tags;
    var t :| t in tags && NamedTag(t, userId, name);
    assert t in Filter(tags, TagNamed(userId, name));
    forall i, j | 0 <= i < j < |tags| && TagNamed(userId, name)(tags[i])
      ensures !TagNamed(userId, name)(tags[j])
    {
      assert TagOwnerName(tags[i]) != TagOwnerName(tags[j]);
    }
    FilterAtMostOne(tags, TagNamed(userId, name));
  }

  /** insertEntryToTagDB: `INSERT OR IGNORE INTO entry_to_tag (entry_id, tag_id)`.
      The pair is unique, so linking twice is a no-op. Neither id is
      checked against its table. */
  function InsertEntryToTag(db: Db, entryId: int, tagId: int): (r: Step<RunResult>)
    ensures EntryTag(entryId, tagId) in db.entryTags ==> r == Step(db, RunResult(0, None))
    ensures EntryTag(entryId, tagId) !in db.entryTags ==>
              && r.out == RunResult(1, None)
              && r.db == db.(entryTags := db.entryTags + [EntryTag(entryId, tagId)])
    ensures EntryTag(entryId, tagId) in r.db.entryTags
    ensures Valid(db) ==> Valid(r.db)
  {
    var link := EntryTag(entryId, tagId);
    if link in db.entryTags then
      Step(db, RunResult(0, None))
    else
      var step := Step(db.(entryTags := db.entryTags + [link]), RunResult(1, None));
      assert Valid(db) ==> Valid(step.db) by {
        if Valid(db) {
          AppendUniqueKeys(db.entryTags, link, LinkPair);
        }
      }
      step
  }

  /** Linking the same entry and tag twice: the second call changes nothing
      and reports zero rows inserted. */
  lemma InsertEntryToTagIdempotent(db: Db, entryId: int, tagId: int)
    ensures var once := InsertEntryToTag(db, entryId, tagId);
            InsertEntryToTag(once.db, entryId, tagId) == Step(once.db, RunResult(0, None))
  {
  }

  /** After `insertEntryToTagDB` exactly one association row links the pair. */
  lemma InsertEntryToTagExactlyOne(db: Db, entryId: int, tagId: int)
    requires Valid(db)
    ensures |Filter(InsertEntryToTag(db, entryId, tagId).db.entryTags, IsLink(entryId, tagId))| == 1
  {
    var links := InsertEntryToTag(db, entryId, tagId).db.entryTags;
    assert EntryTag(entryId, tagId) in Filter(links, IsLink(entryId, tagId));
    forall i, j | 0 <= i < j < |links| && IsLink(entryId, tagId)(links[i])
      ensures !IsLink(entryId, tagId)(links[j])
    {
      assert LinkPair(links[i]) != LinkPair(links[j]);
    }
    FilterAtMostOne(links, IsLink(entryId, tagId));
  }

  /** getTagsDB: every tag of the user, and only theirs. */
  function GetTags(db: Db, userId: int): (r: seq<Tag>)
    ensures forall t :: t in r <==> t in db.tags && t.userId == userId
    ensures Valid(db) ==> UniqueKeys(r, TagId) && UniqueKeys(r, (t: Tag) => t.name)
  {
    var mine := (t: Tag) => t.userId == userId;
    var r := Filter(db.tags, mine);
    assert Valid(db) ==> UniqueKeys(r, TagId) && UniqueKeys(r, (t: Tag) => t.name) by {
      if Valid(db) {
        FilterUniqueKeys(db.tags, mine, TagId);
        FilterUniqueKeys(db.tags, mine, TagOwnerName);
        assert forall k :: 0 <= k < |r| ==> r[k] in r;
      }
    }
    r
  }

  /** A tag just created, or already there, is among the user's tags. */
  lemma CreateTagThenGetTags(db: Db, userId: int, name: string)
    ensures exists t :: t in GetTags(CreateTag(db, userId, name).db, userId) && t.name == name
  {
    var db' := CreateTag(db, userId, name).db;
    var t :| t in db'.tags && NamedTag(t, userId, name);
    assert t in GetTags(db', userId);
  }

  /** Linking an entry to a tag makes the tag show up when the entry is
      read; for an entry that had no links, it is then the only tag shown,
      and it is shown once. */
  lemma LinkThenGetEntry(db: Db, e: Entry, g: Tag)
    requires Valid(db)
    requires e in db.entries && g in db.tags
    ensures var got := EntryStore.GetEntry(InsertEntryToTag(db, e.id, g.id).db, e.userId, e.id, true);
            && got.Some?
            && EntryStore.TagRef(g.id, g.name) in got.value.tags
            && ((forall l :: l in db.entryTags ==> l.entryId != e.id) ==>
                  && (forall t :: t in got.value.tags ==> t == EntryStore.TagRef(g.id, g.name))
                  && |got.value.tags| == 1)
  {
    var linked := InsertEntryToTag(db, e.id, g.id).db;
    assert e in linked.entries;
    EntryStore.GetEntryFinds(linked, e, true);
    var got := EntryStore.GetEntry(linked, e.userId, e.id, true);
    assert EntryStore.LinkedTag(linked, e.id, EntryStore.TagRef(g.id, g.name));
    if forall l :: l in db.entryTags ==> l.entryId != e.id {
      forall t | t in got.value.tags
        ensures t == EntryStore.TagRef(g.id, g.name)
      {
        var g' :| g' in linked.tags && EntryTag(e.id, g'.id) in linked.entryTags && t == EntryStore.TagRef(g'.id, g'.name);
        assert g'.id == g.id;
        UniqueKeysMembers(db.tags, TagId, g, g');
      }
      UniqueKeysOnly(got.value.tags, EntryStore.TagRefId, EntryStore.TagRef(g.id, g.name));
    }
  }
}
