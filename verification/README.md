# Verified model of the journaling app's data-access layer

This project models `s5/src/lib/server/db.js`, the data-access layer of a
personal journaling application. The layer is a fixed set of narrow
operations over six SQLite tables: `users`, `sessions`, `entries`, `images`,
`tags` and `entry_to_tag`. It covers session and user lookup, entries
(typed notes, tasks, links and events with a private flag), images attached
to entries, and per-user tags linked to entries.

The database is an immutable value `Schema.Db`. It holds one sequence of rows
per table, in insertion order, and the next id each table hands out. Every
exported function of `db.js` is a pure function. A read returns a row, an
absent marker (`Option`), or a sequence. A write returns a `Step`: the new
database plus what `stmt.run` reports (`RunResult`: rows changed and, for an
insert, the new row's id). The batch insert and the paginated list, which
loop in the source, are methods with loop invariants.

`Schema.Valid` is the state invariant. User ids and usernames are unique;
users are created outside this layer, so their ids have no counter or
range. The ids of sessions, entries, images and tags are unique in their
table and lie between 1 and that table's next id. Session `uuid` and
`(user_id, name)` of a tag are unique, and `entry_to_tag`, which has no id
column, holds each `(entry_id, tag_id)` pair once.
Every write preserves it. These are the constraints that `INSERT OR IGNORE`
and the single-row `get` calls rely on.

Modules, one per file:

- `Wrappers`: `Option` and `Result`.
- `SeqUtil`: filtering and first-match over sequences, and unique keys.
- `DateFormat`: the `YYYY-MM-DD HH:mm:ss` form of a manual date, and a reader for it.
- `Schema`: row types, the database state and the invariant.
- `SessionStore`: `getSessionUser`, `getUser`, `createSession`, `destroySession`.
- `ImageStore`: `insertImagesDB`, `getImageDB`, `deleteImageDB`, `updateImageCommentDB`.
- `EntryStore`: `createEntryDB`, `getEntry`, `getEntries`, `updateEntryDB`, `deleteEntryDB`.
- `TagStore`: `createTagDB`, `insertEntryToTagDB`, `getTagsDB`.

Notes on the code:

- `getEntries` binds `orderBy` as a value in `ORDER BY ? DESC`. The sort key is therefore a constant, and the statement promises no order.
- `insertImagesDB` checks each `stmt.run` result for falsiness, but a failed insert throws, so the `false` return is never reached.
- `updateEntryDB` writes a column named `modified_at`. The model treats it as the entry's modification timestamp (`Entry.updatedAt`).

## Model

| member | source | states |
|---|---|---|
| `DateFormat.YearText` | s5/src/lib/server/db.js:8 | The `YYYY` field is the year's digits, zero-padded to at least four, for every year. Its length is four below year 10000 and the year's digit count from then on, and it reads back as the year. |
| `DateFormat.Format` | s5/src/lib/server/db.js:8 | For every year, the formatted date starts with the year field `YearText` gives, followed by `-MM-DD HH:mm:ss`, and `Parse` gives back the same date. It is 19 characters iff the year is below 10000. |
| `DateFormat.NormalizeManualDate` | s5/src/lib/server/db.js:135 | A missing manual date is stored as NULL. A valid date is stored as the year field `YearText` gives (four digits below year 10000, so 19 characters in all; wider from 10000 on) followed by `-MM-DD HH:mm:ss`, and the text reads back as the given date. An invalid `Date` is truthy and is stored as dayjs's `Invalid Date` text, which does not read back as a date. |
| `DateFormat.MidnightExample` | s5/src/lib/server/db.js:135 | The date 2024-03-01 at midnight is stored as `2024-03-01 00:00:00`. |
| `SessionStore.GetSessionUser` | s5/src/lib/server/db.js:30-35 | The result is present iff some session has the token and its `user_id` joins to an existing user. It is then `{username, user_id}` of such a session and user. |
| `SessionStore.GetUser` | s5/src/lib/server/db.js:51-55 | The result is present iff a user has exactly that username, and it is such a user. |
| `SessionStore.GetUserFindsUser` | s5/src/lib/server/db.js:51-55 | Under the invariant, looking up an existing user's name returns that very user. |
| `SessionStore.CreateSession` | s5/src/lib/server/db.js:69-76 | A token already in use is an error and leaves the database unchanged. Otherwise one session row with the next id and the given time is appended and nothing else changes. The invariant is preserved. |
| `SessionStore.DestroySession` | s5/src/lib/server/db.js:82-86 | Exactly the sessions with the token are removed; the rest keep their order and the other tables are untouched. The change count is zero iff no session had the token, and then the database is unchanged. Under the invariant it is at most one. |
| `SessionStore.CreateSessionThenResolve` | s5/src/lib/server/db.js:30-35 | A session created with a fresh token for an existing user resolves to that user's name and id. |
| `SessionStore.DestroySessionThenResolve` | s5/src/lib/server/db.js:82-86 | After `destroySession`, the token resolves to no one. |
| `ImageStore.InsertImage` | s5/src/lib/server/db.js:105-107 | One image row is appended with the next id, the given entry, owner and time. Nothing else changes and the invariant is preserved. |
| `ImageStore.BatchStep` | s5/src/lib/server/db.js:104-107 | Inserting the next image of the batch keeps the other tables and earlier rows, and adds one row with the next consecutive id. |
| `ImageStore.InsertImages` | s5/src/lib/server/db.js:102-114 | The batch is appended in order with consecutive ids and the given entry and owner. Earlier rows and the other tables are unchanged, the result is `true`, and the invariant is preserved. Under the invariant, the owner can read each new image back by its id. |
| `ImageStore.GetImage` | s5/src/lib/server/db.js:287-291 | The result is present iff an image has both the given id and owner, and it is such an image. |
| `ImageStore.GetImageFinds` | s5/src/lib/server/db.js:287-291 | Under the invariant, an image's owner reads back exactly that image by its id. |
| `ImageStore.DeleteImage` | s5/src/lib/server/db.js:298-302 | Only the image with this id and owner is removed; every other row of every table stays, the images in their order. The change count is zero iff none matched, and then the database is unchanged. Under the invariant it is at most one. |
| `ImageStore.SetComment` | s5/src/lib/server/db.js:311 | Matching rows get the new comment and keep every other column. All other rows are unchanged. |
| `ImageStore.UpdateImageComment` | s5/src/lib/server/db.js:310-314 | Only the `images` table changes, as `SetComment` describes. The change count is zero iff no image has this id and owner. The invariant is preserved and at most one row changes. |
| `ImageStore.UpdateImageCommentThenGet` | s5/src/lib/server/db.js:310-314 | After its owner updates the comment, the image reads back with the new comment and is otherwise as before. |
| `ImageStore.DeleteImageThenGet` | s5/src/lib/server/db.js:298-302 | After its owner deletes it, the image can no longer be read by that owner. |
| `EntryStore.TagsOf` | s5/src/lib/server/db.js:198-202 | A tag reference is in the result iff some tag with that id and name is linked to the entry through `entry_to_tag`. |
| `EntryStore.TagsOfUnique` | s5/src/lib/server/db.js:198-202 | With links unique by pair and tag ids unique, the join lists each linked tag once. |
| `EntryStore.EnrichComplete` | s5/src/lib/server/db.js:197-209 | The tags attached to an entry are exactly the linked tags. The attached images are exactly the images whose `entry_id` is the entry. Under the invariant each tag and each image appears once. |
| `EntryStore.GetEntry` | s5/src/lib/server/db.js:191-211 | The result is present iff an entry matches both `user_id` and `id` and is visible (logged in, or `private = 0`). It is then such an entry with its complete tags and images, each appearing once under the invariant. |
| `EntryStore.GetEntryFinds` | s5/src/lib/server/db.js:193-195 | Under the invariant, the owner gets an entry back iff it is visible to them. A private entry is absent when not logged in and present when logged in. The result is that entry, enriched. |
| `EntryStore.GetEntryOtherOwner` | s5/src/lib/server/db.js:194 | Under the invariant, another user's entry is never returned, whether or not the caller is logged in. |
| `EntryStore.PageLength` | s5/src/lib/server/db.js:225-226 | LIMIT/OFFSET keeps `limit` rows when that many remain after the skipped ones (a negative offset skipping none), and otherwise every remaining row; never more than `limit` when `limit >= 0`, nor past the end. |
| `EntryStore.Page` | s5/src/lib/server/db.js:225-226 | LIMIT/OFFSET keeps a contiguous run of `PageLength` input rows, starting after the skipped ones. It takes no row more often than the input holds it. With a non-positive offset and a limit that is negative or at least the input length, every row is kept. |
| `EntryStore.EntriesPage` | s5/src/lib/server/db.js:224-226 | The page holds `PageLength` of the matching rows, so at most `limit` of them when `limit >= 0`. |
| `EntryStore.GetEntries` | s5/src/lib/server/db.js:221-240 | Attaching tags and images to the selected rows one at a time yields exactly `EntriesPage`, the page with every row enriched. |
| `EntryStore.EntriesPageRows` | s5/src/lib/server/db.js:224-238 | The k-th result is the matching row at the page's k-th position, enriched. |
| `EntryStore.EntriesPageListed` | s5/src/lib/server/db.js:224-238 | Each result is an entry of the table with the given owner and type, visible to the caller, with its complete tags and images. |
| `EntryStore.EntriesPageCovers` | s5/src/lib/server/db.js:224-226 | With a non-positive offset and a limit that is negative or at least the match count, every matching entry is returned. This includes the defaults 99999 and 0 for fewer than 99999 matches. |
| `EntryStore.EntriesPageDistinct` | s5/src/lib/server/db.js:221-240 | Under the invariant the results have distinct ids, and each equals what `getEntry` returns for it. |
| `EntryStore.EnrichedRows` | s5/src/lib/server/db.js:227-238 | Enriching listed rows one by one yields listed, completely enriched entries. Under the invariant each equals `getEntry`'s answer. |
| `EntryStore.EnrichedRowsCover` | s5/src/lib/server/db.js:224-226 | When the page holds every matching row, every matching entry appears in the enriched result. |
| `EntryStore.CreateEntry` | s5/src/lib/server/db.js:134-149 | One entry is appended with the next id, the current time and the normalised manual date. The result reports one change and the new id. Nothing else changes and the invariant is preserved. |
| `EntryStore.CreateEntryThenGet` | s5/src/lib/server/db.js:134-141 | A created entry reads back for its owner with the given fields and the normalised manual date. An anonymous reader sees it iff `private = 0`. |
| `EntryStore.UpdateRows` | s5/src/lib/server/db.js:263-265 | Each row keeps its id, owner, type and creation time. A row matching both `user_id` and `id` gets the new title, content, comment, private and pinned flags, modification time and manual date. Any other row is unchanged. |
| `EntryStore.UpdateEntry` | s5/src/lib/server/db.js:260-269 | Only the `entries` table changes, as `UpdateRows` describes. The change count is zero iff the caller owns no entry with that id. The invariant is preserved and at most one row changes. |
| `EntryStore.UpdateEntryThenGet` | s5/src/lib/server/db.js:260-269 | After its owner updates it, the entry reads back with the new title, content, comment, private and pinned flags, manual date and the modification time `now`. It keeps the same type and creation time, and the same tags and images. |
| `EntryStore.DeleteEntry` | s5/src/lib/server/db.js:276-280 | Only the entry with this id and owner is removed; the other entries keep their order. Images and `entry_to_tag` rows are untouched. The change count is zero iff none matched, and then the database is unchanged. Under the invariant it is at most one. |
| `EntryStore.DeleteEntryThenGet` | s5/src/lib/server/db.js:276-280 | After its owner deletes it, the entry cannot be read. |
| `TagStore.CreateTag` | s5/src/lib/server/db.js:330-334 | If the user already has a tag of that name, nothing changes and zero rows are reported. Otherwise one tag is appended with the next id. Either way the user has such a tag afterwards, and the invariant is preserved. |
| `TagStore.CreateTagIdempotent` | s5/src/lib/server/db.js:330-334 | Repeating `createTagDB` with the same user and name changes nothing and reports zero rows. |
| `TagStore.CreateTagExactlyOne` | s5/src/lib/server/db.js:330-334 | Under the invariant, after `createTagDB` exactly one tag of the user has that name. |
| `TagStore.InsertEntryToTag` | s5/src/lib/server/db.js:343-347 | An existing link is left alone with zero rows reported. Otherwise the link is appended. Either way the link exists afterwards, and the invariant is preserved. |
| `TagStore.InsertEntryToTagIdempotent` | s5/src/lib/server/db.js:343-347 | Repeating `insertEntryToTagDB` with the same pair changes nothing and reports zero rows. |
| `TagStore.InsertEntryToTagExactlyOne` | s5/src/lib/server/db.js:343-347 | Under the invariant, after `insertEntryToTagDB` exactly one association row holds the pair. |
| `TagStore.GetTags` | s5/src/lib/server/db.js:355-359 | The result holds exactly the user's tags. Under the invariant their ids and their names are distinct. |
| `TagStore.CreateTagThenGetTags` | s5/src/lib/server/db.js:330-359 | After `createTagDB`, the user's tag list holds a tag of that name. |
| `TagStore.LinkThenGetEntry` | s5/src/lib/server/db.js:343-347 | After an entry is linked to a tag, reading the entry shows that tag. If the entry had no links before, the entry shows exactly one tag, and it is that tag. |

## Left out

- The SQLite engine is not modelled: prepared statements, the `DBPATH` setting and SQL parsing. Each statement's effect is written out directly on the sequences.
- `datetime('now')` is a `now` parameter. One `insertImagesDB` call stamps all its images with the same `now`.
- dayjs's conversion of a JavaScript `Date` to local calendar fields is not modelled. The model takes the fields already broken out (`DateFormat.DateTime`), or the invalid date.
- DateFormat.NormalizeManualDate: years before year 0 are not representable (`year` is a `nat`), so the text dayjs writes for them is not modelled.
- The schema file is not part of this model. Only its uniqueness constraints are modelled, as `Schema.Valid`. Foreign keys, NOT NULL, CHECK constraints and column defaults are not; a column a statement leaves unset is `None`.
- Ids come from a per-table counter. SQLite without AUTOINCREMENT may reuse the id of a deleted last row.
- `lastInsertRowid` is `Some` only for a statement that inserted a row with a modelled id. The connection-wide value reported otherwise is not modelled, and neither is the rowid of an `entry_to_tag` row.
- `ImageStore.InsertImages`: only the success path is modelled. `stmt.run` throws instead of returning a falsy value, so the early exit that returns `false` is never taken, and an exception part-way is not modelled.
- `EntryStore.GetEntries`: the statement sorts by a constant, because `orderBy` is bound as a value, so SQLite may return the matching rows in any order. The model takes them in table order, which is one order the statement allows but not one it promises. A page that cuts rows therefore holds the rows at its positions in table order; with another order it could hold other matching rows.
- `EntryStore.UpdateEntry`: the statement writes `modified_at`. Whether the unseen schema has that column, or fails on it, is not modelled.
- The JavaScript default arguments are not modelled; every argument is passed explicitly. The defaults are `loggedIn = false`; and for `getEntries`, `type = ''`, `limit = 99999`, `offset = 0`, `orderBy = 'created_at'`.
- `SessionStore.CreateSession`: the only failure modelled is a duplicate token. Other constraint failures of the unseen schema are not.
- `TagStore.CreateTag` and `TagStore.InsertEntryToTag`: `INSERT OR IGNORE` is modelled as ignoring only the uniqueness violation.
- Concurrency is not modelled. `db.js` issues no cascade and uses no transaction. The schema is not shown, so any `ON DELETE` action or foreign-key failure of `deleteEntryDB` is not modelled; the model keeps the images and links.
- User creation happens outside this layer. `go/main.go`, `web/src/lib/refs.ts` and the route handlers are not part of this model.
