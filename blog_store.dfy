/**
 * The `blog_posts` table of the example application and the operations
 * `BlogPostFromDb` runs on it: a strict insert, an upsert, a delete, a point
 * lookup and three ordered, limited queries. The table is a map from the
 * primary key `uri` to the stored row.
 *
 * A query `SELECT * ... WHERE <w> ORDER BY <c> DESC LIMIT <n>` is modelled
 * by `Select`, which picks the eligible row with the greatest sort key, n
 * times over. SQL leaves the order of rows with equal keys unspecified, and
 * so does the specification `IsTopK` of its result.
 */
module BlogStore {
  import opened Wrappers
  import opened BlogPost

  /** The failure of a strict insert whose `uri` is already stored. */
  datatype DbError = PrimaryKeyViolation

  /** The WHERE clause of a query. */
  datatype Where = AnyRow | PublishedOnly | ByAuthor(did: string)

  /** The column of an `ORDER BY ... DESC`. */
  datatype SortColumn = IndexedAt | CreatedAt

  predicate Matches(w: Where, r: Row) {
    match w
    case AnyRow => true
    case PublishedOnly => r.published
    case ByAuthor(did) => r.authorDid == did
  }

  function SortKey(c: SortColumn, r: Row): int {
    match c
    case IndexedAt => r.indexedAt
    case CreatedAt => r.createdAt
  }

  /** Every row is stored under its own `uri`: the primary key. */
  ghost predicate KeyedByUri(t: map<string, Row>) {
    forall u :: u in t ==> t[u].uri == u
  }

  /** The keys of the rows a WHERE clause selects. */
  ghost function Eligible(t: map<string, Row>, w: Where): set<string> {
    set u | u in t && Matches(w, t[u])
  }

  function UrisOf(rs: seq<Row>): set<string> {
    set i | 0 <= i < |rs| :: rs[i].uri
  }

  function ToRows(ps: seq<Post>): (rs: seq<Row>)
    ensures |rs| == |ps|
    ensures forall i :: 0 <= i < |ps| ==> rs[i] == ToRow(ps[i])
  {
    seq(|ps|, i requires 0 <= i < |ps| => ToRow(ps[i]))
  }

  /**
   * `res` is an admissible answer to `WHERE w ORDER BY c DESC LIMIT limit`:
   * distinct rows of the table that satisfy `w`, sorted non-increasingly on
   * `c`, as many as the limit allows, and no row left out ranks above a row
   * returned.
   */
  ghost predicate IsTopK(t: map<string, Row>, w: Where, c: SortColumn, limit: nat, res: seq<Row>) {
    && |res| <= limit
    && (forall i :: 0 <= i < |res| ==> res[i].uri in t && t[res[i].uri] == res[i] && Matches(w, res[i]))
    && (forall i, j :: 0 <= i < j < |res| ==> res[i].uri != res[j].uri)
    && (forall i, j :: 0 <= i < j < |res| ==> SortKey(c, res[j]) <= SortKey(c, res[i]))
    && (|res| < limit ==> Eligible(t, w) <= UrisOf(res))
    && (forall u, i :: u in Eligible(t, w) && u !in UrisOf(res) && 0 <= i < |res| ==>
          SortKey(c, t[u]) <= SortKey(c, res[i]))
  }

  /** The key of an eligible row with the greatest sort key. */
  method PickMax(t: map<string, Row>, candidates: set<string>, c: SortColumn) returns (best: string)
    requires candidates != {} && candidates <= t.Keys
    ensures best in candidates
    ensures forall u :: u in candidates ==> SortKey(c, t[u]) <= SortKey(c, t[best])
  {
    best :| best in candidates;
    var rest := candidates - {best};
    while rest != {}
      invariant rest <= candidates && best in candidates
      invariant forall u :: u in candidates && u !in rest ==> SortKey(c, t[u]) <= SortKey(c, t[best])
      decreases rest
    {
      var u :| u in rest;
      if SortKey(c, t[u]) > SortKey(c, t[best]) {
        best := u;
      }
      rest := rest - {u};
    }
  }

  /** `SELECT * FROM blog_posts WHERE w ORDER BY c DESC LIMIT limit`. */
  method Select(t: map<string, Row>, w: Where, c: SortColumn, limit: nat) returns (res: seq<Row>)
    requires KeyedByUri(t)
    ensures IsTopK(t, w, c, limit, res)
  {
    var pending := set u | u in t && Matches(w, t[u]);
    res := [];
    while |res| < limit && pending != {}
      invariant |res| <= limit
      invariant pending !! UrisOf(res)
      invariant pending + UrisOf(res) == Eligible(t, w)
      invariant forall i :: 0 <= i < |res| ==> res[i].uri in t && t[res[i].uri] == res[i] && Matches(w, res[i])
      invariant forall i, j :: 0 <= i < j < |res| ==> res[i].uri != res[j].uri
      invariant forall i, j :: 0 <= i < j < |res| ==> SortKey(c, res[j]) <= SortKey(c, res[i])
      invariant forall u, i :: u in pending && 0 <= i < |res| ==> SortKey(c, t[u]) <= SortKey(c, res[i])
      decreases pending
    {
      var best := PickMax(t, pending, c);
      UrisOfAppend(res, t[best]);
      res := res + [t[best]];
      pending := pending - {best};
    }
  }

  lemma UrisOfAppend(rs: seq<Row>, r: Row)
    ensures UrisOf(rs + [r]) == UrisOf(rs) + {r.uri}
  {
    var rs' := rs + [r];
    forall u | u in UrisOf(rs') ensures u in UrisOf(rs) + {r.uri} {
      var i :| 0 <= i < |rs'| && rs'[i].uri == u;
      if i < |rs| { assert rs'[i] == rs[i]; }
    }
    forall u | u in UrisOf(rs) ensures u in UrisOf(rs') {
      var i :| 0 <= i < |rs| && rs[i].uri == u;
      assert rs'[i] == rs[i];
    }
    assert rs'[|rs|] == r;
  }

  lemma SubsetCardinality<T>(a: set<T>, b: set<T>)
    requires a <= b
    ensures |a| <= |b|
  {
    assert b == a + (b - a);
  }

  lemma {:induction false} DistinctUrisCount(rs: seq<Row>)
    requires forall i, j :: 0 <= i < j < |rs| ==> rs[i].uri != rs[j].uri
    ensures |UrisOf(rs)| == |rs|
  {
    if rs != [] {
      var init := rs[..|rs| - 1];
      DistinctUrisCount(init);
      assert rs == init + [rs[|rs| - 1]];
      UrisOfAppend(init, rs[|rs| - 1]);
    }
  }

  /** A query returns `min(limit, number of eligible rows)` rows. */
  lemma TopKLength(t: map<string, Row>, w: Where, c: SortColumn, limit: nat, res: seq<Row>)
    requires IsTopK(t, w, c, limit, res)
    ensures |res| == if limit < |Eligible(t, w)| then limit else |Eligible(t, w)|
  {
    DistinctUrisCount(res);
    assert UrisOf(res) <= Eligible(t, w);
    SubsetCardinality(UrisOf(res), Eligible(t, w));
    if |res| < limit {
      assert UrisOf(res) == Eligible(t, w);
    }
  }

  /**
   * The first row of a query answer carries the greatest sort key of all
   * eligible rows, and an answer is empty only when no row is eligible.
   */
  lemma TopKHead(t: map<string, Row>, w: Where, c: SortColumn, limit: nat, res: seq<Row>)
    requires IsTopK(t, w, c, limit, res) && 0 < limit
    ensures res == [] <==> Eligible(t, w) == {}
    ensures res != [] ==> forall u :: u in Eligible(t, w) ==> SortKey(c, t[u]) <= SortKey(c, res[0])
  {
    if res != [] {
      assert res[0].uri in Eligible(t, w);
      forall u | u in Eligible(t, w)
        ensures SortKey(c, t[u]) <= SortKey(c, res[0])
      {
        if u in UrisOf(res) {
          var i :| 0 <= i < |res| && res[i].uri == u;
          assert t[u] == res[i];
        }
      }
    }
  }

  /**
   * The table after `save_or_update(p)`: a stored row keeps its `authorDid`
   * and `createdAt` and takes every other column from `p`; an absent row is
   * inserted whole.
   */
  function Upserted(t: map<string, Row>, p: Post): map<string, Row> {
    t[p.uri := if p.uri in t then ToRow(p).(authorDid := t[p.uri].authorDid, createdAt := t[p.uri].createdAt)
               else ToRow(p)]
  }

  /** An upsert touches only the row of its `uri`, and that row is then the post with its original author and creation time. */
  lemma UpsertedRow(t: map<string, Row>, p: Post)
    ensures var t' := Upserted(t, p);
      && t'.Keys == t.Keys + {p.uri}
      && (forall u :: u in t && u != p.uri ==> t'[u] == t[u])
      && FromRow(t'[p.uri]).(summary := p.summary, handle := p.handle, authorDid := p.authorDid, createdAt := p.createdAt) == p
      && t'[p.uri].summary == p.summary.GetOr("")
      && t'[p.uri].authorDid == (if p.uri in t then t[p.uri].authorDid else p.authorDid)
      && t'[p.uri].createdAt == (if p.uri in t then t[p.uri].createdAt else p.createdAt)
  {
  }

  /** Repeating an upsert changes nothing. */
  lemma UpsertIdempotent(t: map<string, Row>, p: Post)
    ensures Upserted(Upserted(t, p), p) == Upserted(t, p)
  {
  }

  /** The `blog_posts` table. */
  class BlogPostTable {
    var rows: map<string, Row>

    ghost predicate Valid()
      reads this
    {
      KeyedByUri(rows)
    }

    /** An empty table, as left by `create_tables_in_database`. */
    constructor ()
      ensures Valid() && rows == map[]
    {
      rows := map[];
    }

    /** `SELECT COUNT(*) FROM blog_posts WHERE uri = ?1`: 0 or 1. */
    function CountByUri(uri: string): (n: nat)
      reads this
      ensures n <= 1
      ensures n > 0 <==> uri in rows
    {
      if uri in rows then 1 else 0
    }

    /** `save`: a plain INSERT, which the primary key rejects when the `uri` is already stored. */
    method Save(p: Post) returns (r: Result<(), DbError>)
      requires Valid()
      modifies this
      ensures Valid()
      ensures r.Failure? <==> p.uri in old(rows)
      ensures r.Failure? ==> r.error == PrimaryKeyViolation && rows == old(rows)
      ensures r.Success? ==> rows == old(rows)[p.uri := ToRow(p)]
    {
      if p.uri in rows {
        r := Failure(PrimaryKeyViolation);
      } else {
        rows := rows[p.uri := ToRow(p)];
        r := Success(());
      }
    }

    /**
     * `save_or_update`: counts the rows with this `uri`, then UPDATEs the
     * mutable columns of the stored row or INSERTs the whole post.
     */
    method SaveOrUpdate(p: Post)
      requires Valid()
      modifies this
      ensures Valid()
      ensures rows == Upserted(old(rows), p)
    {
      var count := CountByUri(p.uri);
      if count > 0 {
        // UPDATE blog_posts SET title, content, summary, tags, published,
        // updatedAt, indexedAt WHERE uri = ?1
        var stored, s := rows[p.uri], ToRow(p);
        rows := rows[p.uri := stored.(title := s.title, content := s.content, summary := s.summary,
                                      tags := s.tags, published := s.published,
                                      updatedAt := s.updatedAt, indexedAt := s.indexedAt)];
      } else {
        rows := rows[p.uri := ToRow(p)];
      }
    }

    /** `delete_by_uri`: removes that row only; an absent `uri` is not an error. */
    method DeleteByUri(uri: string)
      requires Valid()
      modifies this
      ensures Valid()
      ensures rows == old(rows) - {uri}
      ensures uri !in old(rows) ==> rows == old(rows)
    {
      // DELETE FROM blog_posts WHERE uri = ?1
      rows := map u | u in rows && u != uri :: rows[u];
    }

    /** `load_latest_posts`: the 10 most recently indexed posts, newest first. */
    method LoadLatestPosts() returns (posts: seq<Post>)
      requires Valid()
      ensures IsTopK(rows, AnyRow, IndexedAt, 10, ToRows(posts))
      ensures |posts| == if |rows| < 10 then |rows| else 10
      ensures forall i :: 0 <= i < |posts| ==> posts[i].handle == None && posts[i].summary.Some?
    {
      var selected := Select(rows, AnyRow, IndexedAt, 10);
      posts := [];
      for i := 0 to |selected|
        invariant |posts| == i
        invariant forall j :: 0 <= j < i ==> posts[j] == FromRow(selected[j])
      {
        posts := posts + [FromRow(selected[i])];
      }
      assert ToRows(posts) == selected;
      TopKLength(rows, AnyRow, IndexedAt, 10, selected);
      assert Eligible(rows, AnyRow) == rows.Keys;
    }

    /** `load_published_posts`: the 20 most recently created published posts, newest first. */
    method LoadPublishedPosts() returns (posts: seq<Post>)
      requires Valid()
      ensures IsTopK(rows, PublishedOnly, CreatedAt, 20, ToRows(posts))
      ensures |posts| == if |Eligible(rows, PublishedOnly)| < 20 then |Eligible(rows, PublishedOnly)| else 20
      ensures forall i :: 0 <= i < |posts| ==> posts[i].published
      ensures forall i :: 0 <= i < |posts| ==> posts[i].handle == None && posts[i].summary.Some?
    {
      var selected := Select(rows, PublishedOnly, CreatedAt, 20);
      posts := [];
      for i := 0 to |selected|
        invariant |posts| == i
        invariant forall j :: 0 <= j < i ==> posts[j] == FromRow(selected[j])
      {
        posts := posts + [FromRow(selected[i])];
      }
      assert ToRows(posts) == selected;
      TopKLength(rows, PublishedOnly, CreatedAt, 20, selected);
    }

    /**
     * `my_latest_post`: `None` exactly when the author has no post;
     * otherwise one of the author's posts with the latest creation time.
     */
    method MyLatestPost(did: string) returns (r: Option<Post>)
      requires Valid()
      ensures r.None? <==> forall u :: u in rows ==> rows[u].authorDid != did
      ensures r.Some? ==> r.value.uri in rows && r.value == FromRow(rows[r.value.uri])
      ensures r.Some? ==> r.value.authorDid == did
      ensures r.Some? ==> forall u :: u in rows && rows[u].authorDid == did ==> rows[u].createdAt <= r.value.createdAt
    {
      var selected := Select(rows, ByAuthor(did), CreatedAt, 1);
      TopKHead(rows, ByAuthor(did), CreatedAt, 1, selected);
      if |selected| == 0 {
        r := None;
        forall u | u in rows
          ensures rows[u].authorDid != did
        {
          assert u !in Eligible(rows, ByAuthor(did));
        }
      } else {
        r := Some(FromRow(selected[0]));
        forall u | u in rows && rows[u].authorDid == did
          ensures rows[u].createdAt <= r.value.createdAt
        {
          assert u in Eligible(rows, ByAuthor(did));
        }
      }
    }

    /** `load_by_uri`: the post stored under `uri`, or `None` when there is none. */
    method LoadByUri(uri: string) returns (r: Option<Post>)
      requires Valid()
      ensures r.None? <==> uri !in rows
      ensures r.Some? ==> r.value == FromRow(rows[uri]) && r.value.uri == uri
    {
      if CountByUri(uri) > 0 {
        r := Some(FromRow(rows[uri]));
      } else {
        r := None;
      }
    }
  }

  /**
   * The scenario of a draft that is edited and published later: after `save`
   * of an unpublished post and `save_or_update` of an edited version under
   * the same `uri`, the stored row carries the edit's content, flag and
   * update time, but keeps the draft's author and creation time even when
   * the edit states others.
   */
  method PublishDraftScenario(t: BlogPostTable, draft: Post, edit: Post) returns (r: Option<Post>)
    requires t.Valid() && draft.uri !in t.rows && !draft.published
    requires edit.uri == draft.uri && edit.published
    modifies t
    ensures t.Valid()
    ensures r.Some? && r.value.published && r.value.updatedAt == edit.updatedAt
    ensures r.value.title == edit.title && r.value.content == edit.content
    ensures r.value.createdAt == draft.createdAt && r.value.authorDid == draft.authorDid
  {
    var saved := t.Save(draft);
    t.SaveOrUpdate(edit);
    r := t.LoadByUri(draft.uri);
  }
}
