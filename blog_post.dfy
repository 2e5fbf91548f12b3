/**
 * The blog-post row type `BlogPostFromDb` of the example application, the
 * columns of the `blog_posts` table it is stored in, the generated lexicon
 * record it converts to and from, and its two display helpers.
 *
 * Strings stand for the UTF-8 bytes of a Rust `String`, one `char` per
 * byte, so `|s|` is Rust's `s.len()`. Timestamps are epoch seconds. The
 * `tags` column holds a JSON array; here it is the sequence it encodes.
 */
module BlogPost {
  import opened Wrappers

  /** `BlogPostFromDb`: a post as the application handles it. */
  datatype Post = Post(
    uri: string,
    authorDid: string,
    title: string,
    content: string,
    summary: Option<string>,
    tags: seq<string>,
    published: bool,
    createdAt: int,
    updatedAt: int,
    indexedAt: int,
    handle: Option<string>)

  /**
   * One row of `blog_posts`. The `summary` column is always written as a
   * string (`unwrap_or_default`), and `handle` is not a column.
   */
  datatype Row = Row(
    uri: string,
    authorDid: string,
    title: string,
    content: string,
    summary: string,
    tags: seq<string>,
    published: bool,
    createdAt: int,
    updatedAt: int,
    indexedAt: int)

  /** The generated lexicon `RecordData`: optional tags, published flag and update time. */
  datatype RecordData = RecordData(
    title: string,
    content: string,
    summary: Option<string>,
    tags: Option<seq<string>>,
    published: Option<bool>,
    createdAt: int,
    updatedAt: Option<int>)

  /** The generated lexicon `Record`, a wrapper around its `data`. */
  datatype CodegenRecord = CodegenRecord(data: RecordData)

  /** The column values bound by the INSERT of `save` / `save_or_update`. */
  function ToRow(p: Post): Row {
    Row(p.uri, p.authorDid, p.title, p.content, p.summary.GetOr(""), p.tags,
        p.published, p.createdAt, p.updatedAt, p.indexedAt)
  }

  /** `map_from_row`: a stored row read back; the summary column reads as `Some`, the handle as `None`. */
  function FromRow(r: Row): Post {
    Post(r.uri, r.authorDid, r.title, r.content, Some(r.summary), r.tags,
         r.published, r.createdAt, r.updatedAt, r.indexedAt, None)
  }

  /** `BlogPostFromDb::new`: an unpublished draft without summary or tags, all times `now`. */
  function NewPost(uri: string, authorDid: string, title: string, content: string, now: int): (p: Post)
    ensures p.uri == uri && p.authorDid == authorDid && p.title == title && p.content == content
    ensures p.summary == None && p.tags == [] && !p.published && p.handle == None
    ensures p.createdAt == now && p.updatedAt == now && p.indexedAt == now
  {
    Post(uri, authorDid, title, content, None, [], false, now, now, now, None)
  }

  /**
   * `from_codegen_record_data`: absent tags become the empty list, an absent
   * published flag becomes `false`, an absent update time and the index
   * time are `now`.
   */
  function FromCodegenRecordData(uri: string, authorDid: string, d: RecordData, now: int): Post {
    Post(uri, authorDid, d.title, d.content, d.summary, d.tags.GetOr([]),
         d.published.GetOr(false), d.createdAt, d.updatedAt.GetOr(now), now, None)
  }

  /** `from_codegen_record`: the same conversion applied to the record's data. */
  function FromCodegenRecord(uri: string, authorDid: string, rec: CodegenRecord, now: int): Post {
    FromCodegenRecordData(uri, authorDid, rec.data, now)
  }

  /** `to_codegen_record_data`: an empty tag list becomes `None`; published and update time are always present. */
  function ToCodegenRecordData(p: Post): RecordData {
    RecordData(p.title, p.content, p.summary, if p.tags == [] then None else Some(p.tags),
               Some(p.published), p.createdAt, Some(p.updatedAt))
  }

  /** Storing a row and reading it back gives the same row. */
  lemma RowRoundTrip(r: Row)
    ensures ToRow(FromRow(r)) == r
  {
  }

  /**
   * A post written and read back is the same post except that an absent
   * summary comes back as `Some("")` and the handle is dropped: absence of a
   * summary does not survive the table.
   */
  lemma PostThroughTable(p: Post)
    ensures FromRow(ToRow(p)) == p.(summary := Some(p.summary.GetOr("")), handle := None)
    ensures p.summary == None ==> FromRow(ToRow(p)).summary == Some("")
    ensures p.summary != Some("") && p.summary.Some? ==> FromRow(ToRow(p)).summary == p.summary
  {
  }

  /**
   * Lexicon data converted to a post and back: title, content, summary and
   * creation time are kept; absent and empty tags both come back as `None`;
   * published and update time come back present, with their defaults.
   */
  lemma RecordDataRoundTrip(uri: string, authorDid: string, d: RecordData, now: int)
    ensures var d' := ToCodegenRecordData(FromCodegenRecordData(uri, authorDid, d, now));
      && d'.title == d.title && d'.content == d.content && d'.summary == d.summary
      && d'.createdAt == d.createdAt
      && d'.tags == (if d.tags == Some([]) then None else d.tags)
      && d'.published == Some(d.published.GetOr(false))
      && d'.updatedAt == Some(d.updatedAt.GetOr(now))
  {
  }

  /** A post converted to lexicon data and back is the same post, re-indexed at `now`, without a handle. */
  lemma PostRecordRoundTrip(p: Post, now: int)
    ensures FromCodegenRecordData(p.uri, p.authorDid, ToCodegenRecordData(p), now)
         == p.(indexedAt := now, handle := None)
  {
  }

  /** Absent tags and an empty tag list are indistinguishable once converted to a post. */
  lemma AbsentTagsEqualEmptyTags(uri: string, authorDid: string, d: RecordData, now: int)
    ensures FromCodegenRecordData(uri, authorDid, d.(tags := None), now)
         == FromCodegenRecordData(uri, authorDid, d.(tags := Some([])), now)
  {
  }

  /** `author_display_name`: the handle when known, the author's DID otherwise. */
  function AuthorDisplayName(p: Post): string {
    match p.handle
    case Some(h) => h
    case None => p.authorDid
  }

  /** A post read from the table has no handle, so it always displays its author's DID. */
  lemma StoredPostDisplaysDid(r: Row)
    ensures AuthorDisplayName(FromRow(r)) == r.authorDid
  {
  }

  // ---------------------------------------------------------------------
  // display_summary
  // ---------------------------------------------------------------------

  /** True when `c` is a UTF-8 continuation byte (`0b10xx_xxxx`). */
  predicate IsContinuationByte(c: char) {
    0x80 <= c as int < 0xC0
  }

  /** Rust's `str::is_char_boundary`: slicing at `i` does not cut a character. */
  predicate IsCharBoundary(s: string, i: nat) {
    i == 0 || i == |s| || (i < |s| && !IsContinuationByte(s[i]))
  }

  /**
   * The summary preview exactly as written: more than `limit` bytes are cut
   * with `&s[..limit]` and followed by `"..."`. The slice panics when byte
   * `limit` is not a character boundary; `None` stands for that panic.
   */
  function TruncateAsWritten(s: string, limit: nat): (r: Option<string>)
    ensures |s| <= limit ==> r == Some(s)
    ensures |s| > limit ==> (r.None? <==> !IsCharBoundary(s, limit))
    ensures r.Some? && |s| > limit ==> r.value == s[..limit] + "..."
  {
    if |s| > limit then
      if IsCharBoundary(s, limit) then Some(s[..limit] + "...") else None
    else Some(s)
  }

  /** `display_summary` as written: the summary cut at 100 bytes, or else the content cut at 150. */
  function DisplaySummaryAsWritten(p: Post): (r: Option<string>)
    ensures p.summary.Some? ==> r == TruncateAsWritten(p.summary.value, 100)
    ensures p.summary.None? ==> r == TruncateAsWritten(p.content, 150)
  {
    match p.summary
    case Some(s) => TruncateAsWritten(s, 100)
    case None => TruncateAsWritten(p.content, 150)
  }

  /** A 99-byte ASCII summary followed by the two bytes of `é` makes `display_summary` panic. */
  lemma {:induction false} DisplaySummaryPanicsInsideCharacter()
    ensures var s := seq(99, _ => 'a') + ['Ã', '©'];
      DisplaySummaryAsWritten(NewPost("u", "did:plc:a", "t", "c", 0).(summary := Some(s))).None?
  {
    var s := seq(99, _ => 'a') + ['Ã', '©'];
    assert |s| == 101 && s[100] == '©';
    assert !IsCharBoundary(s, 100);
  }

  /**
   * Rust's `str::floor_char_boundary`: the largest character boundary not
   * after `i`.
   */
  function FloorCharBoundary(s: string, i: nat): (b: nat)
    ensures b <= i && b <= |s|
    ensures IsCharBoundary(s, b)
    ensures forall j :: b < j <= i && j <= |s| ==> !IsCharBoundary(s, j)
  {
    if i >= |s| then |s|
    else if IsCharBoundary(s, i) then i
    else FloorCharBoundary(s, i - 1)
  }

  /** The intended preview: cut at the last character boundary within `limit` bytes, never panicking. */
  function Truncate(s: string, limit: nat): (r: string)
    ensures |s| <= limit ==> r == s
    ensures |s| > limit ==> exists k: nat ::
              && k <= limit && IsCharBoundary(s, k)
              && (forall j :: k < j <= limit ==> !IsCharBoundary(s, j))
              && r == s[..k] + "..."
  {
    if |s| > limit then
      var k := FloorCharBoundary(s, limit);
      s[..k] + "..."
    else s
  }

  /** `display_summary` corrected: the same preview, cut at a character boundary. */
  function DisplaySummary(p: Post): string {
    match p.summary
    case Some(s) => Truncate(s, 100)
    case None => Truncate(p.content, 150)
  }

  /**
   * The corrected preview agrees with the source wherever the source does
   * not panic, and it is at most `"..."` longer than the limit.
   */
  lemma DisplaySummaryAgreesWhenNoPanic(p: Post)
    ensures DisplaySummaryAsWritten(p).Some? ==> DisplaySummaryAsWritten(p).value == DisplaySummary(p)
    ensures |DisplaySummary(p)| <= (if p.summary.Some? then 103 else 153)
  {
  }
}
