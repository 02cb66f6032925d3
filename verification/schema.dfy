/** The six tables the data-access layer reads and writes, the database
    state as one sequence of rows per table (in insertion order) plus the
    next id each table hands out, and the uniqueness constraints of the
    schema that the statements rely on. */
module Schema {
  import opened Wrappers
  import opened SeqUtil

  datatype User = User(id: int, username: string, pwhash: string, createdAt: string, updatedAt: string)

  datatype Session = Session(id: int, uuid: string, userId: int, userAgent: string, ip: string, createdAt: string)

  /** An entry row. `isPrivate` and `pinned` hold whatever number the caller
      stored; only `isPrivate == 0` makes the entry world-readable. A column
      the statements leave unset is `None`. */
  datatype Entry = Entry(
    id: int,
    userId: int,
    entryType: string,
    title: string,
    content: string,
    comment: string,
    isPrivate: int,
    pinned: int,
    createdAt: string,
    updatedAt: Option<string>,
    manualDate: Option<string>)

  datatype Image = Image(
    id: int,
    entryId: int,
    userId: int,
    path: string,
    comment: string,
    previewData: string,
    exifData: string,
    createdAt: string)

  datatype Tag = Tag(id: int, userId: int, name: string, createdAt: Option<string>)

  /** A row of `entry_to_tag`. */
  datatype EntryTag = EntryTag(entryId: int, tagId: int)

  datatype Db = Db(
    users: seq<User>,
    sessions: seq<Session>,
    entries: seq<Entry>,
    images: seq<Image>,
    tags: seq<Tag>,
    entryTags: seq<EntryTag>,
    nextSessionId: int,
    nextEntryId: int,
    nextImageId: int,
    nextTagId: int)

  /** What running a statement reports: the number of rows it changed and,
      when it inserted a row, that row's id. */
  datatype RunResult = RunResult(changes: nat, lastInsertRowid: Option<int>)

  /** The database after an operation, and what the operation returned. */
  datatype Step<+T> = Step(db: Db, out: T)

  datatype DbError = UniqueViolation(column: string)

  function UserId(u: User): int { u.id }
  function UserName(u: User): string { u.username }
  function SessionId(s: Session): int { s.id }
  function SessionUuid(s: Session): string { s.uuid }
  function EntryId(e: Entry): int { e.id }
  function ImageId(i: Image): int { i.id }
  function TagId(t: Tag): int { t.id }
  function TagOwnerName(t: Tag): (int, string) { (t.userId, t.name) }
  function LinkPair(l: EntryTag): EntryTag { l }

  predicate UsersValid(users: seq<User>) {
    UniqueKeys(users, UserId) && UniqueKeys(users, UserName)
  }

  predicate SessionsValid(sessions: seq<Session>, next: int) {
    && 0 < next
    && UniqueKeys(sessions, SessionId)
    && UniqueKeys(sessions, SessionUuid)
    && forall s :: s in sessions ==> 0 < s.id < next
  }

  predicate EntriesValid(entries: seq<Entry>, next: int) {
    && 0 < next
    && UniqueKeys(entries, EntryId)
    && forall e :: e in entries ==> 0 < e.id < next
  }

  predicate ImagesValid(images: seq<Image>, next: int) {
    && 0 < next
    && UniqueKeys(images, ImageId)
    && forall i :: i in images ==> 0 < i.id < next
  }

  predicate TagsValid(tags: seq<Tag>, next: int) {
    && 0 < next
    && UniqueKeys(tags, TagId)
    && UniqueKeys(tags, TagOwnerName)
    && forall t :: t in tags ==> 0 < t.id < next
  }

  /** The state invariant: user ids and usernames are unique; the ids of
      sessions, entries, images and tags are unique in their table and lie
      between 1 and that table's next id, exclusive; `sessions.uuid` and
      the pair `(tags.user_id, tags.name)` are unique; and `entry_to_tag`,
      which has no id, holds each `(entry_id, tag_id)` pair once. */
  predicate Valid(db: Db) {
    && UsersValid(db.users)
    && SessionsValid(db.sessions, db.nextSessionId)
    && EntriesValid(db.entries, db.nextEntryId)
    && ImagesValid(db.images, db.nextImageId)
    && TagsValid(db.tags, db.nextTagId)
    && UniqueKeys(db.entryTags, LinkPair)
  }
}
