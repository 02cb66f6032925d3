/** Entries: creation, the owner-scoped and visibility-filtered reads (each
    hit enriched with the entry's tags and images), and the owner-scoped
    update and delete. */
module EntryStore {
  import opened Wrappers
  import opened SeqUtil
  import opened Schema
  import DateFormat

  datatype CreateEntryData = CreateEntryData(
    userId: int,
    entryType: string,
    title: string,
    content: string,
    comment: string,
    isPrivate: int,
    pinned: int,
    manualDate: Option<DateFormat.DateValue>)

  /** The payload of `updateEntryDB`; it carries a type and tag ids, which
      the statement does not write. */
  datatype UpdateEntryData = UpdateEntryData(
    userId: int,
    entryId: int,
    entryType: string,
    title: string,
    content: string,
    comment: string,
    isPrivate: int,
    pinned: int,
    manualDate: Option<DateFormat.DateValue>,
    tags: seq<int>)

  /** A tag as the enrichment query selects it: `tags.id, tags.name`. */
  datatype TagRef = TagRef(id: int, name: string)

  /** An entry row with the tags and images attached to it at read time. */
  datatype EntryWithRefs = EntryWithRefs(entry: Entry, tags: seq<TagRef>, images: seq<Image>)

  /** The visibility predicate: a caller who is not logged in sees only
      entries with `private = 0`. */
  predicate Visible(e: Entry, loggedIn: bool) {
    loggedIn || e.isPrivate == 0
  }

  /** The row filter of `getEntry`. */
  predicate Selected(e: Entry, userId: int, entryId: int, loggedIn: bool) {
    e.userId == userId && e.id == entryId && Visible(e, loggedIn)
  }

  /** The row filter of `getEntries`. */
  predicate Listed(e: Entry, userId: int, entryType: string, loggedIn: bool) {
    e.userId == userId && e.entryType == entryType && Visible(e, loggedIn)
  }

  function ListedBy(userId: int, entryType: string, loggedIn: bool): Entry -> bool {
    (e: Entry) => Listed(e, userId, entryType, loggedIn)
  }

  /** The row filter of `updateEntryDB` and `deleteEntryDB`. */
  predicate OwnedEntry(e: Entry, entryId: int, userId: int) {
    e.userId == userId && e.id == entryId
  }

  /** `t` is a row of `tags JOIN entry_to_tag ON tags.id = entry_to_tag.tag_id
      WHERE entry_to_tag.entry_id = entryId`. */
  ghost predicate LinkedTag(db: Db, entryId: int, t: TagRef) {
    exists g :: g in db.tags && EntryTag(entryId, g.id) in db.entryTags && t == TagRef(g.id, g.name)
  }

  /** `x` carries exactly the tags linked to its entry and exactly the
      images whose `entry_id` is its entry. */
  ghost predicate CompleteRefs(db: Db, x: EntryWithRefs) {
    && (forall t :: t in x.tags <==> LinkedTag(db, x.entry.id, t))
    && (forall i :: i in x.images <==> i in db.images && i.entryId == x.entry.id)
  }

  function TagRefId(t: TagRef): int { t.id }

  /** Under the invariant the join yields each tag and each image once. */
  predicate DistinctRefs(x: EntryWithRefs) {
    UniqueKeys(x.tags, TagRefId) && UniqueKeys(x.images, ImageId)
  }

  function HasId(id: int): Tag -> bool {
    (g: Tag) => g.id == id
  }

  function OfEntry(entryId: int): Image -> bool {
    (i: Image) => i.entryId == entryId
  }

  function Refs(tags: seq<Tag>): (r: seq<TagRef>)
    ensures |r| == |tags|
    ensures forall t :: t in r <==> exists g :: g in tags && t == TagRef(g.id, g.name)
    decreases |tags|
  {
    if |tags| == 0 then []
    else
      assert forall g :: g in tags <==> g == tags[0] || g in tags[1..];
      [TagRef(tags[0].id, tags[0].name)] + Refs(tags[1..])
  }

  /** The tag join, walking `entry_to_tag` and matching each link of the
      entry against `tags`. */
  function TagsOf(links: seq<EntryTag>, tags: seq<Tag>, entryId: int): (r: seq<TagRef>)
    ensures forall t :: t in r <==>
              exists g :: g in tags && EntryTag(entryId, g.id) in links && t == TagRef(g.id, g.name)
    decreases |links|
  {
    if |links| == 0 then []
    else
      assert forall l :: l in links <==> l == links[0] || l in links[1..];
      var here := if links[0].entryId == entryId then Refs(Filter(tags, HasId(links[0].tagId))) else [];
      here + TagsOf(links[1..], tags, entryId)
  }

  /** With links unique by pair and tag ids unique, the join yields each
      linked tag once. */
  lemma {:induction false} TagsOfUnique(links: seq<EntryTag>, tags: seq<Tag>, entryId: int)
    requires UniqueKeys(links, LinkPair) && UniqueKeys(tags, TagId)
    ensures UniqueKeys(TagsOf(links, tags, entryId), TagRefId)
    decreases |links|
  {
    if |links| > 0 {
      var tail := links[1..];
      assert UniqueKeys(tail, LinkPair) by {
        forall i, j | 0 <= i < j < |tail| ensures LinkPair(tail[i]) != LinkPair(tail[j]) {
          assert tail[i] == links[i + 1] && tail[j] == links[j + 1];
        }
      }
      TagsOfUnique(tail, tags, entryId);
      var rest := TagsOf(tail, tags, entryId);
      if links[0].entryId == entryId {
        var tagId := links[0].tagId;
        var hits := Filter(tags, HasId(tagId));
        forall i, j | 0 <= i < j < |tags| && HasId(tagId)(tags[i]) ensures !HasId(tagId)(tags[j]) {
          assert TagId(tags[i]) != TagId(tags[j]);
        }
        FilterAtMostOne(tags, HasId(tagId));
        var here := Refs(hits);
        forall x, y | x in here && y in rest ensures TagRefId(x) != TagRefId(y) {
          var g :| g in tags && EntryTag(entryId, g.id) in tail && y == TagRef(g.id, g.name);
        }
        ConcatUniqueKeys(here, rest, TagRefId);
      } else {
        assert TagsOf(links, tags, entryId) == [] + rest;
      }
    }
  }

  /** Attaches to an entry row its current tags and images. */
  function Enrich(db: Db, e: Entry): (r: EntryWithRefs)
    ensures r.entry == e
  {
    EntryWithRefs(e, TagsOf(db.entryTags, db.tags, e.id), Filter(db.images, OfEntry(e.id)))
  }

  function EnrichIn(db: Db): Entry -> EntryWithRefs {
    (e: Entry) => Enrich(db, e)
  }

  /** The enriched row carries exactly the linked tags and exactly the
      entry's images, and under the invariant each of them once. */
  lemma EnrichComplete(db: Db, e: Entry)
    ensures CompleteRefs(db, Enrich(db, e))
    ensures Valid(db) ==> DistinctRefs(Enrich(db, e))
  {
    if Valid(db) {
      TagsOfUnique(db.entryTags, db.tags, e.id);
      FilterUniqueKeys(db.images, OfEntry(e.id), ImageId);
    }
  }

  /** getEntry: the entry with this id and owner, visible to the caller,
      with its tags and images; absent otherwise, so a wrong owner, a wrong
      id and a private entry read anonymously look the same. */
  function GetEntry(db: Db, userId: int, entryId: int, loggedIn: bool): (r: Option<EntryWithRefs>)
    ensures r.Some? <==> exists e :: e in db.entries && Selected(e, userId, entryId, loggedIn)
    ensures r.Some? ==> r.value.entry in db.entries && Selected(r.value.entry, userId, entryId, loggedIn)
    ensures r.Some? ==> CompleteRefs(db, r.value)
    ensures r.Some? && Valid(db) ==> DistinctRefs(r.value)
  {
    match FindFirst(db.entries, (e: Entry) => Selected(e, userId, entryId, loggedIn))
    case None => None
    case Some(e) =>
      EnrichComplete(db, e);
      Some(Enrich(db, e))
  }

  /** With entry ids unique, the owner reads an entry exactly when it is
      visible to them, and then gets that entry with its tags and images. */
  lemma GetEntryFinds(db: Db, e: Entry, loggedIn: bool)
    requires Valid(db)
    requires e in db.entries
    ensures GetEntry(db, e.userId, e.id, loggedIn).Some? <==> Visible(e, loggedIn)
    ensures Visible(e, loggedIn) ==> GetEntry(db, e.userId, e.id, loggedIn) == Some(Enrich(db, e))
  {
    var found := FindFirst(db.entries, (x: Entry) => Selected(x, e.userId, e.id, loggedIn));
    if found.Some? {
      UniqueKeysMembers(db.entries, EntryId, found.value, e);
    }
  }

  /** Another user's entry is never returned, whatever the login state. */
  lemma GetEntryOtherOwner(db: Db, e: Entry, userId: int, loggedIn: bool)
    requires Valid(db)
    requires e in db.entries && e.userId != userId
    ensures GetEntry(db, userId, e.id, loggedIn).None?
  {
  }

  /** SQL `OFFSET offset` over `n` rows: a negative offset counts as zero,
      and an offset past the end leaves nothing. */
  function PageStart(n: nat, offset: int): (start: nat)
    ensures start <= n
  {
    if offset < 0 then 0 else if offset > n then n else offset
  }

  /** SQL `LIMIT limit OFFSET offset`: a negative limit means no limit and
      a negative offset counts as zero. */
  function PageLength(n: nat, limit: int, offset: int): (len: nat)
    ensures PageStart(n, offset) + len <= n
    ensures limit >= 0 ==> len <= limit
    ensures offset <= 0 && (limit < 0 || n <= limit) ==> len == n
    ensures limit >= 0 && PageStart(n, offset) + limit <= n ==> len == limit
    ensures (limit < 0 || PageStart(n, offset) + limit > n) ==> PageStart(n, offset) + len == n
  {
    var skipped := if offset < 0 then 0 else offset;
    var available := if n <= skipped then 0 else n - skipped;
    if limit < 0 || available <= limit then available else limit
  }

  /** The rows a `LIMIT`/`OFFSET` clause keeps: a contiguous run of the
      input, starting after the skipped rows, each input row at most once. */
  function Page<T>(s: seq<T>, limit: int, offset: int): (r: seq<T>)
    ensures |r| == PageLength(|s|, limit, offset)
    ensures forall k :: 0 <= k < |r| ==> r[k] == s[PageStart(|s|, offset) + k]
    ensures multiset(r) <= multiset(s)
    ensures offset <= 0 && (limit < 0 || |s| <= limit) ==> r == s
  {
    var start := PageStart(|s|, offset);
    var len := PageLength(|s|, limit, offset);
    SliceMultiset(s, start, start + len);
    s[start..start + len]
  }

  /** A page of `f` applied to each row is `f` applied to the rows at the
      page's positions. */
  lemma MapPage<T, U>(s: seq<T>, f: T -> U, limit: int, offset: int)
    ensures var r := Map(Page(s, limit, offset), f);
            && |r| == PageLength(|s|, limit, offset)
            && forall k :: 0 <= k < |r| ==> r[k] == f(s[PageStart(|s|, offset) + k])
  {
  }

  /** The same for a page of filtered rows. */
  lemma FilterMapPage<T(!new), U>(s: seq<T>, p: T -> bool, f: T -> U, limit: int, offset: int)
    ensures var listed := Filter(s, p);
            var r := Map(Page(listed, limit, offset), f);
            forall k :: 0 <= k < |r| ==> r[k] == f(listed[PageStart(|listed|, offset) + k])
  {
    MapPage(Filter(s, p), f, limit, offset);
  }

  /** Every row of a page of filtered rows is a row that passes the filter. */
  lemma FilterPageMembers<T(!new)>(s: seq<T>, p: T -> bool, limit: int, offset: int)
    ensures forall x :: x in Page(Filter(s, p), limit, offset) ==> x in s && p(x)
  {
    var listed := Filter(s, p);
    var rows := Page(listed, limit, offset);
    forall x | x in rows ensures x in s && p(x) {
      var k :| 0 <= k < |rows| && rows[k] == x;
      assert x == listed[PageStart(|listed|, offset) + k];
    }
  }

  lemma SliceMultiset<T>(s: seq<T>, i: nat, j: nat)
    requires i <= j <= |s|
    ensures multiset(s[i..j]) <= multiset(s)
  {
    assert s == s[..i] + s[i..j] + s[j..];
  }

  /** The page `getEntries` returns: the matching rows that the `LIMIT` and
      `OFFSET` clause keeps, each with its tags and images attached. The
      statement's `ORDER BY ?` binds the column name as a constant, so the
      statement promises no order; the model takes the matching rows in
      table order, one order the statement allows, and a partial page
      holds the rows at its positions in that order. */
  function EntriesPage(db: Db, userId: int, entryType: string, loggedIn: bool, limit: int, offset: int)
    : (r: seq<EntryWithRefs>)
    ensures |r| == PageLength(|Filter(db.entries, ListedBy(userId, entryType, loggedIn))|, limit, offset)
    ensures limit >= 0 ==> |r| <= limit
  {
    Map(Page(Filter(db.entries, ListedBy(userId, entryType, loggedIn)), limit, offset), EnrichIn(db))
  }

  /** getEntries: selects the page, then attaches tags and images to each
      row in turn. */
  method GetEntries(db: Db, userId: int, entryType: string, loggedIn: bool, limit: int, offset: int)
    returns (res: seq<EntryWithRefs>)
    ensures res == EntriesPage(db, userId, entryType, loggedIn, limit, offset)
  {
    var rows := Page(Filter(db.entries, ListedBy(userId, entryType, loggedIn)), limit, offset);
    var enrich := EnrichIn(db);
    res := [];
    var n := 0;
    while n < |rows|
      invariant 0 <= n <= |rows|
      invariant |res| == n
      invariant forall k :: 0 <= k < n ==> res[k] == enrich(rows[k])
    {
      res := res + [enrich(rows[n])];
      n := n + 1;
    }
  }

  /** The page holds the matching rows at the page's positions, in turn,
      each with its tags and images attached. */
  lemma EntriesPageRows(db: Db, userId: int, entryType: string, loggedIn: bool, limit: int, offset: int)
    ensures var listed := Filter(db.entries, ListedBy(userId, entryType, loggedIn));
            var res := EntriesPage(db, userId, entryType, loggedIn, limit, offset);
            forall k :: 0 <= k < |res| ==> res[k] == Enrich(db, listed[PageStart(|listed|, offset) + k])
  {
    FilterMapPage(db.entries, ListedBy(userId, entryType, loggedIn), EnrichIn(db), limit, offset);
  }

  /** Every row of the page is a visible entry of the caller, with all of
      its tags and images. */
  lemma EntriesPageListed(db: Db, userId: int, entryType: string, loggedIn: bool, limit: int, offset: int)
    ensures var res := EntriesPage(db, userId, entryType, loggedIn, limit, offset);
            forall k :: 0 <= k < |res| ==>
              && res[k].entry in db.entries
              && Listed(res[k].entry, userId, entryType, loggedIn)
              && CompleteRefs(db, res[k])
  {
    var rows := Page(Filter(db.entries, ListedBy(userId, entryType, loggedIn)), limit, offset);
    var res := EntriesPage(db, userId, entryType, loggedIn, limit, offset);
    FilterPageMembers(db.entries, ListedBy(userId, entryType, loggedIn), limit, offset);
    assert forall k :: 0 <= k < |rows| ==> res[k] == Enrich(db, rows[k]);
    EnrichedRows(db, rows, res, userId, entryType, loggedIn);
  }

  /** A page that cuts nothing (the route's defaults, `limit` 99999 and
      `offset` 0, on a smaller table) holds every visible entry. */
  lemma EntriesPageCovers(db: Db, userId: int, entryType: string, loggedIn: bool, limit: int, offset: int)
    requires offset <= 0
    requires limit < 0 || |Filter(db.entries, ListedBy(userId, entryType, loggedIn))| <= limit
    ensures var res := EntriesPage(db, userId, entryType, loggedIn, limit, offset);
            forall e :: e in db.entries && Listed(e, userId, entryType, loggedIn) ==>
              exists k :: 0 <= k < |res| && res[k].entry == e
  {
    var rows := Page(Filter(db.entries, ListedBy(userId, entryType, loggedIn)), limit, offset);
    var res := EntriesPage(db, userId, entryType, loggedIn, limit, offset);
    assert forall k :: 0 <= k < |rows| ==> res[k] == Enrich(db, rows[k]);
    EnrichedRowsCover(db, rows, res, userId, entryType, loggedIn);
  }

  /** Under the invariant the page lists each entry once, and each row is
      what `getEntry` returns for its id. */
  lemma EntriesPageDistinct(db: Db, userId: int, entryType: string, loggedIn: bool, limit: int, offset: int)
    requires Valid(db)
    ensures var res := EntriesPage(db, userId, entryType, loggedIn, limit, offset);
            && (forall i, j :: 0 <= i < j < |res| ==> res[i].entry.id != res[j].entry.id)
            && (forall k :: 0 <= k < |res| ==> GetEntry(db, userId, res[k].entry.id, loggedIn) == Some(res[k]))
  {
    var listed := Filter(db.entries, ListedBy(userId, entryType, loggedIn));
    var rows := Page(listed, limit, offset);
    var res := EntriesPage(db, userId, entryType, loggedIn, limit, offset);
    FilterPageMembers(db.entries, ListedBy(userId, entryType, loggedIn), limit, offset);
    assert forall k :: 0 <= k < |rows| ==> res[k] == Enrich(db, rows[k]);
    EnrichedRows(db, rows, res, userId, entryType, loggedIn);
    FilterUniqueKeys(db.entries, ListedBy(userId, entryType, loggedIn), EntryId);
    PageUniqueKeys(listed, limit, offset, EntryId);
    assert forall k :: 0 <= k < |res| ==> res[k].entry == rows[k];
  }

  /** A page of rows with unique keys has unique keys. */
  lemma PageUniqueKeys<T, K>(s: seq<T>, limit: int, offset: int, key: T -> K)
    requires UniqueKeys(s, key)
    ensures UniqueKeys(Page(s, limit, offset), key)
  {
    var start := PageStart(|s|, offset);
    SliceUniqueKeys(s, start, start + PageLength(|s|, limit, offset), key);
  }

  /** A slice of a sequence with unique keys has unique keys. */
  lemma SliceUniqueKeys<T, K>(s: seq<T>, i: nat, j: nat, key: T -> K)
    requires i <= j <= |s|
    requires UniqueKeys(s, key)
    ensures UniqueKeys(s[i..j], key)
  {
    var r := s[i..j];
    forall a, b | 0 <= a < b < |r| ensures key(r[a]) != key(r[b]) {
      assert r[a] == s[i + a] && r[b] == s[i + b];
    }
  }

  /** What enriching a page of listed rows yields, element by element. */
  lemma EnrichedRows(db: Db, rows: seq<Entry>, res: seq<EntryWithRefs>, userId: int, entryType: string, loggedIn: bool)
    requires forall e :: e in rows ==> e in db.entries && Listed(e, userId, entryType, loggedIn)
    requires |res| == |rows| && forall k :: 0 <= k < |rows| ==> res[k] == Enrich(db, rows[k])
    ensures forall k :: 0 <= k < |res| ==>
              && res[k].entry in db.entries
              && Listed(res[k].entry, userId, entryType, loggedIn)
              && CompleteRefs(db, res[k])
    ensures Valid(db) ==>
              forall k :: 0 <= k < |res| ==> GetEntry(db, userId, res[k].entry.id, loggedIn) == Some(res[k])
  {
    assert forall k :: 0 <= k < |rows| ==> rows[k] in rows;
    forall k | 0 <= k < |res| ensures CompleteRefs(db, res[k]) {
      EnrichComplete(db, rows[k]);
    }
    if Valid(db) {
      forall k | 0 <= k < |res|
        ensures GetEntry(db, userId, res[k].entry.id, loggedIn) == Some(res[k])
      {
        GetEntryFinds(db, rows[k], loggedIn);
      }
    }
  }

  /** A page that holds every listed row holds each of them enriched. */
  lemma EnrichedRowsCover(db: Db, rows: seq<Entry>, res: seq<EntryWithRefs>, userId: int, entryType: string, loggedIn: bool)
    requires forall e :: e in db.entries && Listed(e, userId, entryType, loggedIn) ==> e in rows
    requires |res| == |rows| && forall k :: 0 <= k < |rows| ==> res[k] == Enrich(db, rows[k])
    ensures forall e :: e in db.entries && Listed(e, userId, entryType, loggedIn) ==>
              exists k :: 0 <= k < |res| && res[k].entry == e
  {
    forall e | e in db.entries && Listed(e, userId, entryType, loggedIn)
      ensures exists k :: 0 <= k < |res| && res[k].entry == e
    {
      var k :| 0 <= k < |rows| && rows[k] == e;
      assert res[k].entry == e;
    }
  }

  /** The row `createEntryDB` inserts. */
  function EntryRow(id: int, data: CreateEntryData, now: string): Entry {
    Entry(id, data.userId, data.entryType, data.title, data.content, data.comment, data.isPrivate, data.pinned,
          now, None, DateFormat.NormalizeManualDate(data.manualDate))
  }

  /** createEntryDB: inserts one entry, stamped with the current time and
      with its manual date normalised. */
  function CreateEntry(db: Db, data: CreateEntryData, now: string): (r: Step<RunResult>)
    ensures r.out == RunResult(1, Some(db.nextEntryId))
    ensures r.db == db.(entries := db.entries + [EntryRow(db.nextEntryId, data, now)], nextEntryId := db.nextEntryId + 1)
    ensures Valid(db) ==> Valid(r.db)
  {
    var row := EntryRow(db.nextEntryId, data, now);
    var entries := db.entries + [row];
    var step := Step(db.(entries := entries, nextEntryId := db.nextEntryId + 1), RunResult(1, Some(row.id)));
    assert Valid(db) ==> Valid(step.db) by {
      if Valid(db) {
        AppendUniqueKeys(db.entries, row, EntryId);
        assert forall e :: e in entries ==> e in db.entries || e == row;
      }
    }
    step
  }

  /** A created entry reads back, for its owner, with the fields given and
      the manual date normalised; an anonymous reader sees it exactly when
      it is not private. */
  lemma CreateEntryThenGet(db: Db, data: CreateEntryData, now: string)
    requires Valid(db)
    ensures var db' := CreateEntry(db, data, now).db;
            var got := GetEntry(db', data.userId, db.nextEntryId, true);
            && got.Some?
            && got.value.entry.entryType == data.entryType
            && got.value.entry.title == data.title
            && got.value.entry.content == data.content
            && got.value.entry.comment == data.comment
            && got.value.entry.isPrivate == data.isPrivate
            && got.value.entry.pinned == data.pinned
            && got.value.entry.createdAt == now
            && got.value.entry.manualDate == DateFormat.NormalizeManualDate(data.manualDate)
            && (GetEntry(db', data.userId, db.nextEntryId, false).Some? <==> data.isPrivate == 0)
  {
    var db' := CreateEntry(db, data, now).db;
    var row := EntryRow(db.nextEntryId, data, now);
    assert row in db'.entries;
    GetEntryFinds(db', row, true);
    GetEntryFinds(db', row, false);
  }

  /** The `entries` column after `updateEntryDB`'s `SET`: on the rows the
      filter selects, the title, content, comment, private and pinned flags,
      modification time and manual date are written and nothing else; the
      other rows are untouched. */
  function UpdateRows(entries: seq<Entry>, data: UpdateEntryData, now: string): (r: seq<Entry>)
    ensures |r| == |entries|
    ensures forall k :: 0 <= k < |entries| ==>
              var before := entries[k];
              var after := r[k];
              && after.id == before.id
              && after.userId == before.userId
              && after.entryType == before.entryType
              && after.createdAt == before.createdAt
              && (OwnedEntry(before, data.entryId, data.userId) ==>
                    && after.title == data.title
                    && after.content == data.content
                    && after.comment == data.comment
                    && after.isPrivate == data.isPrivate
                    && after.pinned == data.pinned
                    && after.updatedAt == Some(now)
                    && after.manualDate == DateFormat.NormalizeManualDate(data.manualDate))
              && (!OwnedEntry(before, data.entryId, data.userId) ==> after == before)
  {
    seq(|entries|, k requires 0 <= k < |entries| =>
      if OwnedEntry(entries[k], data.entryId, data.userId) then
        entries[k].(title := data.title, content := data.content, comment := data.comment,
                    isPrivate := data.isPrivate, pinned := data.pinned, updatedAt := Some(now),
                    manualDate := DateFormat.NormalizeManualDate(data.manualDate))
      else entries[k])
  }

  lemma UpdateRowsValid(entries: seq<Entry>, next: int, data: UpdateEntryData, now: string)
    requires EntriesValid(entries, next)
    ensures EntriesValid(UpdateRows(entries, data, now), next)
  {
    var r := UpdateRows(entries, data, now);
    SameKeysUnique(entries, r, EntryId);
    forall e | e in r ensures 0 < e.id < next {
      var k :| 0 <= k < |r| && r[k] == e;
      assert entries[k] in entries;
    }
  }

  /** updateEntryDB: rewrites the entry only if the caller owns it; zero
      changes means "not found or not the owner". */
  function UpdateEntry(db: Db, data: UpdateEntryData, now: string): (r: Step<RunResult>)
    ensures r.db == db.(entries := UpdateRows(db.entries, data, now))
    ensures r.out.lastInsertRowid.None?
    ensures r.out.changes == 0 <==> forall e :: e in db.entries ==> !OwnedEntry(e, data.entryId, data.userId)
    ensures Valid(db) ==> Valid(r.db) && r.out.changes <= 1
  {
    var hit := (e: Entry) => OwnedEntry(e, data.entryId, data.userId);
    var entries := UpdateRows(db.entries, data, now);
    var changes := |Filter(db.entries, hit)|;
    var step := Step(db.(entries := entries), RunResult(changes, None));
    assert Valid(db) ==> Valid(step.db) && step.out.changes <= 1 by {
      if Valid(db) {
        UpdateRowsValid(db.entries, db.nextEntryId, data, now);
        FilterAtMostOne(db.entries, hit);
      }
    }
    step
  }

  /** After an update by its owner, the entry reads back with the new
      values, its type and creation time kept, and the same tags and images. */
  lemma UpdateEntryThenGet(db: Db, data: UpdateEntryData, now: string, e: Entry)
    requires Valid(db)
    requires e in db.entries && OwnedEntry(e, data.entryId, data.userId)
    ensures var got := GetEntry(UpdateEntry(db, data, now).db, data.userId, data.entryId, true);
            var before := GetEntry(db, data.userId, data.entryId, true);
            && got.Some? && before.Some?
            && got.value.entry.title == data.title
            && got.value.entry.content == data.content
            && got.value.entry.comment == data.comment
            && got.value.entry.isPrivate == data.isPrivate
            && got.value.entry.pinned == data.pinned
            && got.value.entry.updatedAt == Some(now)
            && got.value.entry.manualDate == DateFormat.NormalizeManualDate(data.manualDate)
            && got.value.entry.entryType == e.entryType
            && got.value.entry.createdAt == e.createdAt
            && got.value.tags == before.value.tags
            && got.value.images == before.value.images
  {
    var db' := UpdateEntry(db, data, now).db;
    var k :| 0 <= k < |db.entries| && db.entries[k] == e;
    var e' := db'.entries[k];
    assert e' in db'.entries;
    GetEntryFinds(db, e, true);
    GetEntryFinds(db', e', true);
  }

  /** deleteEntryDB: removes the entry only if the caller owns it. Its
      images and tag links are left in place. */
  function DeleteEntry(db: Db, entryId: int, userId: int): (r: Step<RunResult>)
    ensures r.db == db.(entries := r.db.entries)
    ensures forall e :: e in r.db.entries <==> e in db.entries && !OwnedEntry(e, entryId, userId)
    ensures r.out.lastInsertRowid.None?
    ensures r.out.changes == |db.entries| - |r.db.entries|
    ensures r.out.changes == 0 <==> forall e :: e in db.entries ==> !OwnedEntry(e, entryId, userId)
    ensures Valid(db) ==> Valid(r.db) && r.out.changes <= 1
    ensures IsSubseq(r.db.entries, db.entries)
    ensures (forall e :: e in db.entries ==> !OwnedEntry(e, entryId, userId)) ==> r == Step(db, RunResult(0, None))
  {
    var keep := (e: Entry) => !OwnedEntry(e, entryId, userId);
    var gone := (e: Entry) => OwnedEntry(e, entryId, userId);
    var kept := Filter(db.entries, keep);
    FilterSplit(db.entries, gone, keep);
    var step := Step(db.(entries := kept), RunResult(|db.entries| - |kept|, None));
    assert Valid(db) ==> Valid(step.db) && step.out.changes <= 1 by {
      if Valid(db) {
        DeleteEntryValid(db, keep, gone);
      }
    }
    FilterSubseq(db.entries, keep);
    assert (forall e :: e in db.entries ==> !OwnedEntry(e, entryId, userId)) ==> step.db == db by {
      if forall e :: e in db.entries ==> !OwnedEntry(e, entryId, userId) {
        FilterKeepsAll(db.entries, keep);
      }
    }
    step
  }

  /** Removing the rows one key selects keeps the invariant and removes at
      most one row. */
  lemma DeleteEntryValid(db: Db, keep: Entry -> bool, gone: Entry -> bool)
    requires Valid(db)
    requires forall e :: keep(e) == !gone(e)
    requires forall e, e' :: gone(e) && gone(e') ==> e.id == e'.id
    ensures Valid(db.(entries := Filter(db.entries, keep)))
    ensures |db.entries| - |Filter(db.entries, keep)| <= 1
  {
    FilterSplit(db.entries, gone, keep);
    FilterUniqueKeys(db.entries, keep, EntryId);
    FilterAtMostOne(db.entries, gone);
  }

  /** After a delete by its owner, the entry can no longer be read. */
  lemma DeleteEntryThenGet(db: Db, entryId: int, userId: int, loggedIn: bool)
    ensures GetEntry(DeleteEntry(db, entryId, userId).db, userId, entryId, loggedIn).None?
  {
  }
}
