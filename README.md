# Persistence core of an AT Protocol OAuth crate, modelled in Dafny

This project models the storage layer of a Rust crate that gives AT Protocol
applications OAuth login, together with the blog example that ships with it.
It covers four parts:

- **OAuth key-value tables** (`src/db.rs`): `auth_session` is keyed by the
  user's DID and `auth_state` by a random state token. Both hold an opaque
  serialized payload. `kv_store.dfy` models either table as one class,
  `KvStore.KvTable`, over `map<string, string>`. Its methods are the upsert
  (`save_or_update`, written as count-then-UPDATE-or-INSERT), the lookups
  (`get_by_key`, and `get_by_did`, which requires a well-formed DID because the
  source unwraps `Did::new`), the single-key delete and the delete-all.
- **Blog-post table** (`examples/schema.rs`): the `blog_posts` table is a
  `map<string, Row>` keyed by `uri`, inside the class
  `BlogStore.BlogPostTable`. It has a strict insert, an upsert that keeps
  `authorDid` and `createdAt`, an idempotent delete and a point lookup. It
  also has three queries: `ORDER BY indexedAt DESC LIMIT 10`, `WHERE
  published = 1 ORDER BY createdAt DESC LIMIT 20`, and the latest post of one
  author. `BlogStore.Select` models each query as a selection loop. Each result
  is specified by `IsTopK`:
  - its rows are distinct rows of the table that pass the WHERE clause;
  - they are sorted non-increasingly on the sort column;
  - there are `min(limit, #eligible)` of them;
  - no row left out ranks above a row returned.

  Ties are left in any order, as SQL leaves them. `blog_post.dfy` holds the row
  types, the conversions to and from the generated lexicon record, and the two
  display helpers.
- **Lexicon record** (`examples/lexicon.rs`): the class
  `Lexicon.BlogPostRecord` has a validator and in-place mutators. `add_tag`
  checks in this order: length, then count, then membership.
- **`html_escape`** (`examples/basic_usage.rs`): five chained `replace` calls.
  `HtmlEscape` models them literally, and the chain is proved equal to
  escaping each character on its own.

Strings are `seq<char>`, one `char` per byte of the UTF-8 text, so `|s|` is
Rust's `String::len()`. Timestamps are `int` epoch seconds. The current time
is a parameter. Tags are `seq<string>`, where the source stores a JSON array.

Three choices follow the code closely:
- `save_or_update` counts the rows with the key and then branches to UPDATE
  or INSERT. The model keeps that shape, and each call is one atomic step.
- `ORDER BY ... DESC` leaves ties in any order, so query results are stated
  as non-increasing on the sort column, not strictly decreasing.
- The lexicon's doc comments speak of "characters". The checks use byte
  lengths, and the model uses byte lengths.

## Model

| member | source | states |
|---|---|---|
| `KvStore.ExampleDidIsValid` | src/db.rs:73 | `did:plc:abc123` is a well-formed DID, while an empty identifier or an upper-case method is rejected, so `get_by_did` would panic on those |
| `KvStore.KvTable.constructor` | src/db.rs:19-36 | a freshly created table has no rows |
| `KvStore.KvTable.CountByKey` | src/db.rs:94-95 | `SELECT COUNT(*) ... WHERE key = ?1` is 0 or 1, and positive exactly when the key is stored |
| `KvStore.KvTable.GetByKey` | src/db.rs:165-179 | returns `None` exactly when the key is absent (no rows is not an error), otherwise the row with that key and its stored payload |
| `KvStore.KvTable.GetByDid` | src/db.rs:72-87 | requires a well-formed DID, as `Did::new(did).unwrap()` does; then `None` iff the DID is absent, otherwise its stored session |
| `KvStore.KvTable.SaveOrUpdate` | src/db.rs:90-114 | after the count-then-UPDATE-or-INSERT, the table is the old one with the key mapped to the new payload: inserted if absent, overwritten if present, and every other key's row unchanged |
| `KvStore.KvTable.DeleteByKey` | src/db.rs:208-215 | removes exactly that key; deleting an absent key leaves the table unchanged |
| `KvStore.KvTable.DeleteAll` | src/db.rs:127-134 | the table is empty afterwards |
| `KvStore.SaveOrUpdateTwice` | src/db.rs:182-206 | two identical upserts leave the table as one does, and a lookup afterwards returns exactly the saved entry |
| `BlogPost.NewPost` | examples/schema.rs:83-98 | a new post is an unpublished draft with no summary, no tags and no handle, and all three timestamps equal to now |
| `BlogPost.RowRoundTrip` | examples/schema.rs:160-190 | a stored row read back by `map_from_row` and written again is the same row |
| `BlogPost.PostThroughTable` | examples/schema.rs:207-228 | a post written and read back is unchanged, except that the handle is dropped and an absent summary returns as `Some("")`, so summary absence does not round-trip |
| `BlogPost.RecordDataRoundTrip` | examples/schema.rs:120-151 | lexicon data converted to a post and back keeps title, content, summary and creation time; absent and empty tags both return as `None`; `published` and `updatedAt` are always present, with defaults `false` and now |
| `BlogPost.PostRecordRoundTrip` | examples/schema.rs:138-151 | a post converted to lexicon data and back is the same post, re-indexed at now and without a handle; empty tags survive as empty |
| `BlogPost.AbsentTagsEqualEmptyTags` | examples/schema.rs:101-136 | absent tags and an empty tag list give the same post |
| `BlogPost.StoredPostDisplaysDid` | examples/schema.rs:374-379 | a post read from the table has no handle, so its display name is always its author's DID |
| `BlogPost.TruncateAsWritten` | examples/schema.rs:383-396 | the preview as written: unchanged within the limit; beyond it, panics exactly when the byte at the limit is not a character boundary, and otherwise is the first `limit` bytes plus `...` |
| `BlogPost.DisplaySummaryAsWritten` | examples/schema.rs:382-398 | `display_summary` as written: the summary cut at 100 bytes, or, without a summary, the content cut at 150 |
| `BlogPost.DisplaySummaryPanicsInsideCharacter` | examples/schema.rs:384-385 | a 99-byte ASCII summary followed by the two bytes of `é` makes `display_summary` panic |
| `BlogPost.FloorCharBoundary` | examples/schema.rs:385 | the greatest character boundary at or before a byte index |
| `BlogPost.Truncate` | examples/schema.rs:383-396 | the corrected preview never panics: unchanged within the limit; beyond it, cut at the last character boundary within the limit, followed by `...` |
| `BlogPost.DisplaySummaryAgreesWhenNoPanic` | examples/schema.rs:382-398 | the corrected `display_summary` equals the source's wherever the source does not panic, and is at most 103 (summary) or 153 (content) bytes long |
| `BlogStore.PickMax` | examples/schema.rs:292 | picks a candidate row whose sort key is greatest among the candidates |
| `BlogStore.Select` | examples/schema.rs:291-301 | a `WHERE ... ORDER BY ... DESC LIMIT n` query returns an admissible top-n answer (`IsTopK`) |
| `BlogStore.TopKLength` | examples/schema.rs:292 | a query returns exactly `min(limit, number of eligible rows)` rows |
| `BlogStore.TopKHead` | examples/schema.rs:334-337 | with a positive limit, the answer is empty iff no row is eligible; otherwise its first row has the greatest sort key of all eligible rows |
| `BlogStore.UpsertedRow` | examples/schema.rs:235-268 | an upsert adds the `uri` if absent and leaves every other row unchanged. The row for that `uri` then holds the post's title, content, summary (an absent one written as the empty string), tags, published flag, updatedAt and indexedAt, while authorDid and createdAt keep their stored values (or the post's, on insert) |
| `BlogStore.UpsertIdempotent` | examples/schema.rs:231-274 | repeating an upsert changes nothing |
| `BlogStore.BlogPostTable.constructor` | examples/schema.rs:42-57 | a freshly created `blog_posts` table is empty and keyed by `uri` |
| `BlogStore.BlogPostTable.CountByUri` | examples/schema.rs:235-236 | the row count for a `uri` is 0 or 1, and positive exactly when it is stored |
| `BlogStore.BlogPostTable.Save` | examples/schema.rs:207-228 | fails with a primary-key violation, leaving the table unchanged, exactly when the `uri` is already stored; otherwise adds exactly that row |
| `BlogStore.BlogPostTable.SaveOrUpdate` | examples/schema.rs:231-274 | the count-then-UPDATE-or-INSERT leaves the table equal to `Upserted(old table, post)` and keeps the table keyed by `uri` |
| `BlogStore.BlogPostTable.DeleteByUri` | examples/schema.rs:276-283 | removes only the row with that `uri`; an absent `uri` leaves the table unchanged |
| `BlogStore.BlogPostTable.LoadLatestPosts` | examples/schema.rs:286-304 | returns the top 10 rows by `indexedAt`, newest first (`IsTopK`), `min(10, table size)` of them, each read back with a summary and without a handle |
| `BlogStore.BlogPostTable.LoadPublishedPosts` | examples/schema.rs:307-325 | returns the top 20 published rows by `createdAt`, newest first, `min(20, published count)` of them, all published |
| `BlogStore.BlogPostTable.MyLatestPost` | examples/schema.rs:328-348 | `None` iff the author has no post; otherwise one of the author's stored rows with the greatest `createdAt`, read back exactly as `map_from_row` gives it (summary present, no handle) |
| `BlogStore.BlogPostTable.LoadByUri` | examples/schema.rs:351-371 | `None` iff the `uri` is absent; otherwise the stored row for that `uri`, read back |
| `BlogStore.PublishDraftScenario` | examples/schema.rs:207-274 | saving a draft and then upserting a published edit under the same `uri` leaves a row with the edit's title, content, flag and update time, but the draft's author and creation time, whatever the edit states for those |
| `Lexicon.BlogPostRecord.Draft` | examples/lexicon.rs:34-42 | the unvalidated record has the given title and content, no summary, no tags, is unpublished, and both times are now |
| `Lexicon.BlogPostRecord.New` | examples/lexicon.rs:33-46 | succeeds iff 1 ≤ title ≤ 200 and 1 ≤ content ≤ 10000 bytes, reporting the title error first. The result is a fresh valid record with no summary and no tags, unpublished |
| `Lexicon.BlogPostRecord.AddTag` | examples/lexicon.rs:49-60 | a tag over 50 bytes is refused first. Next, any tag is refused once 10 exist, even a duplicate. Otherwise the tag is appended unless already present. A refusal changes nothing; duplicate-freedom, the tag bounds and validity are preserved |
| `Lexicon.BlogPostRecord.SetSummary` | examples/lexicon.rs:63-69 | sets `summary = Some(s)` iff `s` is at most 500 bytes; a refusal changes nothing; validity is preserved |
| `Lexicon.BlogPostRecord.Publish` | examples/lexicon.rs:72-75 | sets `published` and `updatedAt := now`; no other field changes |
| `Lexicon.BlogPostRecord.Unpublish` | examples/lexicon.rs:78-81 | clears `published` and sets `updatedAt := now`; no other field changes |
| `Lexicon.BlogPostRecord.Validate` | examples/lexicon.rs:84-110 | succeeds iff title 1–200, content 1–10000, summary ≤ 500, ≤ 10 tags and each tag ≤ 50 bytes. Otherwise it reports the first failed check, in that order |
| `Lexicon.AddTagTwice` | examples/lexicon.rs:49-60 | adding the same tag twice gives the tags of adding it once, and a valid record stays valid |
| `HtmlEscape.ReplaceCharAppend` | examples/basic_usage.rs:324-328 | `str::replace` of a character distributes over concatenation |
| `HtmlEscape.HtmlEscapeAppend` | examples/basic_usage.rs:323-328 | `html_escape` distributes over concatenation |
| `HtmlEscape.HtmlEscapeChar` | examples/basic_usage.rs:323-328 | on one character, the chain yields that character's reference, or the character itself |
| `HtmlEscape.HtmlEscapeIsPerCharacter` | examples/basic_usage.rs:323-328 | the chained replaces equal the per-character map `&→&amp;`, `<→&lt;`, `>→&gt;`, `"→&quot;`, `'→&#x27;`, with every other character unchanged |
| `HtmlEscape.AmpersandMustGoFirst` | examples/basic_usage.rs:324 | replacing `&` last would turn `<` into `&amp;lt;`; the source's order gives `&lt;` |
| `HtmlEscape.NoMarkupInOutput` | examples/basic_usage.rs:324-328 | the output contains no `<`, `>`, `"` or `'` |
| `HtmlEscape.PlainTextUnchanged` | examples/basic_usage.rs:323-328 | input without any of the five special characters is returned unchanged |
| `HtmlEscape.EscapedLength` | examples/basic_usage.rs:324-328 | the output length is the input length plus 4/3/3/5/5 per `& < > " '`, so the output is never shorter |
| `HtmlEscape.AmpersandsBeginEntities` | examples/basic_usage.rs:324-328 | every `&` in the output begins one of the five character references |
| `HtmlEscape.UnescapeInvertsEscape` | examples/basic_usage.rs:323-328 | decoding the five references recovers the input, so escaping loses no information |

## Findings

| source | as written | input that shows it | evidently intended | confidence | as-written member | corrected member |
|---|---|---|---|---|---|---|
| examples/schema.rs:384-385 (same at 391-392 for the content) | `&summary[..100]` slices at byte 100, and Rust panics when that byte is inside a multi-byte character | a summary of 99 ASCII bytes followed by `é` (bytes C3 A9): byte 100 is a continuation byte | cut at the last character boundary within 100 (or 150) bytes, then append `...` | high; not executed | `BlogPost.DisplaySummaryAsWritten` (exhibited by `BlogPost.DisplaySummaryPanicsInsideCharacter`) | `BlogPost.Truncate` (used by `BlogPost.DisplaySummary`; agreement shown by `BlogPost.DisplaySummaryAgreesWhenNoPanic`) |

## Left out

- Database I/O errors: every operation of the source returns a `Result` whose error is an `async_sqlite` or `rusqlite` failure (connection, prepare, constraint). Only the primary-key violation of `save` is modelled; the others come from the database engine.
- Async connection pool and concurrency: each call is one atomic step, so the count-then-branch race between concurrent upserts of the same key is not modelled.
- Table creation (`create_oauth_tables`, `create_tables_in_database`): SQL DDL. The constructors stand for a freshly created, empty table.
- `AuthSession::new` / `AuthState::new` only serialize the payload with serde_json. The model takes the payload already serialized, as an `Entry`, and treats it as opaque.
- JSON encoding of the `tags` column, and the parse failure of `to_codegen_record_data` and `get_tags` on a malformed column: tags are a `seq<string>`, so these cannot fail here.
- `to_known_record`: it wraps the result in a type of the generated lexicon code, which is not part of this model.
- Date handling: `DateTime::from_timestamp` range checks in `map_from_row`, and the `.unwrap()` that would panic in the list queries on an out-of-range timestamp. Also the truncation of sub-second time by `.timestamp()` and the clock-dependent `is_today`. Timestamps are epoch-second integers.
- A NULL `summary` column: this code always writes a string there, so the model stores a string and reads it back as `Some`.
- `Lexicon.BlogPostRecord.New`: takes one `now` for both `Utc::now()` calls, which can differ by a few nanoseconds in the source.
- `KvStore.ValidDid`: follows the AT Protocol DID syntax (at most 2048 bytes, `did:[a-z]+:[a-zA-Z0-9._:%-]*[a-zA-Z0-9._-]`) as the `Did` type of the `atrium_api` library enforces it. That library is not part of this model.
- `src/oauth.rs` (builder for the external OAuth client), `examples/templates.rs` (templates without logic) and `src/lib.rs` (re-exports) are not part of this model.
- The HTTP handlers, pages and profile fetching of `examples/basic_usage.rs`: everything except `html_escape` involves the network or rendering.
