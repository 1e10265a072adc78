/**
 * Cursor pagination of the feed (`PrismaPostRepository.findWithPagination`).
 * The table is a sequence of posts in the order the query reads them
 * (`createdAt` descending). A page fetches `limit + 1` rows; when the
 * surplus row is there it is popped and its id becomes the next cursor.
 *
 * As written, a cursor also sets `skip: 1`, so the next page starts one row
 * past the row the cursor names, and that row (the popped one) is never
 * shown. `PageAsWritten` models that; `Page` starts the next page at the
 * cursor row, so that the pages cover the feed exactly.
 */
module Pagination {
  import opened Wrappers
  import opened Entities
  import opened Text

  function Min(a: int, b: int): int {
    if a <= b then a else b
  }

  predicate NewestFirst(rows: seq<Post>) {
    forall i, j :: 0 <= i < j < |rows| ==> rows[i].createdAt >= rows[j].createdAt
  }

  /** Ids are non-empty and unique, as the table's primary key is. */
  predicate WellKeyed(rows: seq<Post>) {
    (forall i :: 0 <= i < |rows| ==> rows[i].id != "") &&
    (forall i, j :: 0 <= i < j < |rows| ==> rows[i].id != rows[j].id)
  }

  /** The position of the first row at or after `from` with the given id. */
  function IndexFrom(rows: seq<Post>, id: string, from: nat): (r: Option<nat>)
    requires from <= |rows|
    ensures r.Some? ==> from <= r.value < |rows| && rows[r.value].id == id
    decreases |rows| - from
  {
    if from == |rows| then None
    else if rows[from].id == id then Some(from)
    else IndexFrom(rows, id, from + 1)
  }

  /** The search finds the first matching row at or after `from`, and fails only when there is none. */
  lemma {:induction false} IndexFromFirst(rows: seq<Post>, id: string, from: nat)
    requires from <= |rows|
    ensures IndexFrom(rows, id, from).None? <==> forall i :: from <= i < |rows| ==> rows[i].id != id
    ensures IndexFrom(rows, id, from).Some? ==>
              forall j :: from <= j < IndexFrom(rows, id, from).value ==> rows[j].id != id
    decreases |rows| - from
  {
    if from < |rows| && rows[from].id != id {
      IndexFromFirst(rows, id, from + 1);
    }
  }

  /** The position of the first row with the given id: the row a Prisma cursor names. */
  function IndexOf(rows: seq<Post>, id: string): (r: Option<nat>)
    ensures r.Some? ==> r.value < |rows| && rows[r.value].id == id
  {
    IndexFrom(rows, id, 0)
  }

  /**
   * Where the query starts reading, as written: just past the cursor row
   * (`cursor: {id}` with `skip: 1`). `None` when the cursor names no row,
   * in which case the query returns nothing.
   */
  function StartAsWritten(rows: seq<Post>, cursor: Option<string>): (s: Option<nat>)
    ensures s.Some? ==> s.value <= |rows|
  {
    if !Truthy(cursor) then Some(0)
    else match IndexOf(rows, cursor.value)
      case None => None
      case Some(i) => Some(i + 1)
  }

  /** Where the query starts reading without the skip: at the cursor row. */
  function Start(rows: seq<Post>, cursor: Option<string>): (s: Option<nat>)
    ensures s.Some? ==> s.value < |rows| || (s.value == 0 && !Truthy(cursor))
  {
    if !Truthy(cursor) then Some(0) else IndexOf(rows, cursor.value)
  }

  /** The rows `findMany` returns with `take: limit + 1` from the start position. */
  function Fetch(rows: seq<Post>, start: Option<nat>, limit: nat): (fetched: seq<Post>)
    requires start.Some? ==> start.value <= |rows|
    ensures |fetched| <= limit + 1
    ensures start.None? ==> fetched == []
    ensures start.Some? ==>
              start.value + |fetched| <= |rows| && fetched == rows[start.value..start.value + |fetched|] &&
              (|fetched| == limit + 1 || start.value + |fetched| == |rows|)
  {
    match start
    case None => []
    case Some(s) => rows[s..Min(s + limit + 1, |rows|)]
  }

  /** Pops the surplus row, when there is one, and makes its id the next cursor. */
  function PopSurplus(fetched: seq<Post>, limit: nat): (page: PostPage)
    requires |fetched| <= limit + 1
    ensures |page.posts| <= limit
    ensures page.nextCursor.Some? <==> |fetched| > limit
    ensures page.nextCursor.Some? ==>
              page.posts + [fetched[limit]] == fetched && page.nextCursor.value == fetched[limit].id
    ensures page.nextCursor.None? ==> page.posts == fetched
  {
    if |fetched| > limit then PostPage(fetched[..limit], Some(fetched[limit].id))
    else PostPage(fetched, None)
  }

  /** `findWithPagination(limit, cursor)` as the code is written. */
  function PageAsWritten(rows: seq<Post>, limit: nat, cursor: Option<string>): PostPage {
    PopSurplus(Fetch(rows, StartAsWritten(rows, cursor), limit), limit)
  }

  /** `findWithPagination(limit, cursor)` with the page starting at the cursor row. */
  function Page(rows: seq<Post>, limit: nat, cursor: Option<string>): PostPage {
    PopSurplus(Fetch(rows, Start(rows, cursor), limit), limit)
  }

  /** The page read from position `s`: the rows there, and a next cursor exactly when one more row follows. */
  lemma PageFrom(rows: seq<Post>, s: nat, limit: nat)
    requires s <= |rows|
    ensures var p := PopSurplus(Fetch(rows, Some(s), limit), limit);
            p.posts == rows[s..s + |p.posts|] &&
            (p.nextCursor.Some? <==> s + limit < |rows|) &&
            (p.nextCursor.None? ==> p.posts == rows[s..]) &&
            (p.nextCursor.Some? ==> |p.posts| == limit && p.nextCursor.value == rows[s + limit].id)
  {
    var fetched := Fetch(rows, Some(s), limit);
    if |fetched| > limit {
      assert fetched == rows[s..s + limit + 1];
      assert fetched[..limit] == rows[s..s + limit];
    }
  }

  /** A stretch of a newest-first table is newest first. */
  lemma SliceNewestFirst(rows: seq<Post>, a: nat, b: nat)
    requires a <= b <= |rows| && NewestFirst(rows)
    ensures NewestFirst(rows[a..b])
  {
    forall i, j | 0 <= i < j < b - a
      ensures rows[a..b][i].createdAt >= rows[a..b][j].createdAt
    {
      assert rows[a..b][i] == rows[a + i] && rows[a..b][j] == rows[a + j];
    }
  }

  /**
   * The page as written: at most `limit` posts, taken in table order just
   * past the cursor row (from the top without a cursor, nothing for an
   * unknown cursor), with a next cursor exactly when a surplus row existed,
   * naming the row right after the page.
   */
  lemma AsWrittenPageShape(rows: seq<Post>, limit: nat, cursor: Option<string>)
    ensures var p := PageAsWritten(rows, limit, cursor);
            |p.posts| <= limit &&
            (NewestFirst(rows) ==> NewestFirst(p.posts)) &&
            (!Truthy(cursor) ==>
               p.posts == rows[..|p.posts|] && (p.nextCursor.Some? <==> limit < |rows|)) &&
            (Truthy(cursor) && IndexOf(rows, cursor.value).None? ==> p == PostPage([], None)) &&
            (Truthy(cursor) && IndexOf(rows, cursor.value).Some? ==>
               var i := IndexOf(rows, cursor.value).value;
               p.posts == rows[i + 1..i + 1 + |p.posts|] &&
               (p.nextCursor.Some? <==> i + 1 + limit < |rows|) &&
               (p.nextCursor.Some? ==> p.nextCursor.value == rows[i + 1 + limit].id))
  {
    var start := StartAsWritten(rows, cursor);
    if start.Some? {
      var s := start.value;
      PageFrom(rows, s, limit);
      var p := PageAsWritten(rows, limit, cursor);
      if NewestFirst(rows) {
        SliceNewestFirst(rows, s, s + |p.posts|);
      }
    }
  }

  /**
   * As written, the row whose id becomes the next cursor is not on this page
   * and is not on the page its cursor fetches either.
   */
  lemma AsWrittenCursorRowNeverShown(rows: seq<Post>, limit: nat, cursor: Option<string>)
    requires WellKeyed(rows)
    ensures var p := PageAsWritten(rows, limit, cursor);
            p.nextCursor.Some? ==>
              var c := p.nextCursor.value;
              (forall k :: 0 <= k < |p.posts| ==> p.posts[k].id != c) &&
              (forall k :: 0 <= k < |PageAsWritten(rows, limit, p.nextCursor).posts| ==>
                 PageAsWritten(rows, limit, p.nextCursor).posts[k].id != c)
  {
    match StartAsWritten(rows, cursor)
    case None =>
    case Some(s) =>
      assert PageAsWritten(rows, limit, cursor) == PopSurplus(Fetch(rows, Some(s), limit), limit);
      PageFrom(rows, s, limit);
      if s + limit < |rows| {
        RowOutsideStretch(rows, s, s + limit, s + limit);
        AsWrittenPageAfterRow(rows, limit, s + limit);
      }
  }

  /** As written, the page a row's id fetches as cursor does not hold that row. */
  lemma AsWrittenPageAfterRow(rows: seq<Post>, limit: nat, i: nat)
    requires WellKeyed(rows) && i < |rows|
    ensures var q := PageAsWritten(rows, limit, Some(rows[i].id));
            forall k :: 0 <= k < |q.posts| ==> q.posts[k].id != rows[i].id
  {
    CursorOfRow(rows, i);
    var q := PageAsWritten(rows, limit, Some(rows[i].id));
    PageFrom(rows, i + 1, limit);
    RowOutsideStretch(rows, i + 1, i + 1 + |q.posts|, i);
  }

  /** In a well-keyed table, no row of a stretch shares its id with a row outside it. */
  lemma RowOutsideStretch(rows: seq<Post>, a: nat, b: nat, i: nat)
    requires WellKeyed(rows) && a <= b <= |rows| && i < |rows| && (i < a || b <= i)
    ensures forall k :: 0 <= k < b - a ==> rows[a..b][k].id != rows[i].id
  {
    forall k | 0 <= k < b - a
      ensures rows[a..b][k].id != rows[i].id
    {
      assert rows[a..b][k] == rows[a + k];
      if a + k < i {
        DistinctIds(rows, a + k, i);
      } else {
        DistinctIds(rows, i, a + k);
      }
    }
  }

  lemma DistinctIds(rows: seq<Post>, i: nat, j: nat)
    requires WellKeyed(rows) && i < j < |rows|
    ensures rows[i].id != rows[j].id
  {
  }

  /** In a well-keyed table, a row's id as cursor starts the query at that row, or past it with the skip. */
  lemma CursorOfRow(rows: seq<Post>, i: nat)
    requires WellKeyed(rows) && i < |rows|
    ensures Start(rows, Some(rows[i].id)) == Some(i)
    ensures StartAsWritten(rows, Some(rows[i].id)) == Some(i + 1)
  {
    IdsLocate(rows, i);
  }

  /** In a well-keyed table, a row's id finds exactly that row. */
  lemma IdsLocate(rows: seq<Post>, i: nat)
    requires WellKeyed(rows) && i < |rows|
    ensures IndexOf(rows, rows[i].id) == Some(i)
    ensures Truthy(Some(rows[i].id))
  {
    IndexFromFirst(rows, rows[i].id, 0);
    var r := IndexOf(rows, rows[i].id);
    assert r.Some? && r.value <= i;
    assert rows[r.value].id == rows[i].id;
  }

  /** Three posts, one per page: as written the middle one is never shown. */
  lemma AsWrittenLosesARow()
    ensures var a := Post("a", "first", "u", 3);
            var b := Post("b", "second", "u", 2);
            var c := Post("c", "third", "u", 1);
            var rows := [a, b, c];
            PageAsWritten(rows, 1, None) == PostPage([a], Some("b")) &&
            PageAsWritten(rows, 1, Some("b")) == PostPage([c], None) &&
            Page(rows, 1, Some("b")) == PostPage([b], Some("c"))
  {
    var a := Post("a", "first", "u", 3);
    var b := Post("b", "second", "u", 2);
    var c := Post("c", "third", "u", 1);
    var rows := [a, b, c];
    assert IndexOf(rows, "b") == Some(1) by {
      assert rows[0].id != "b" && rows[1].id == "b";
      assert IndexFrom(rows, "b", 1) == Some(1);
    }
    assert [a, b, c][0..1] == [a];
    assert rows[2..3] == [c];
    assert rows[1..3] == [b, c];
  }

  /**
   * The page starts at the cursor row (at the top without a cursor), and the
   * next cursor names the row right after it, which is where the next page
   * starts. A cursor naming no row gives an empty last page.
   */
  lemma PageSteps(rows: seq<Post>, limit: nat, cursor: Option<string>)
    requires WellKeyed(rows)
    ensures var p := Page(rows, limit, cursor);
            (Start(rows, cursor).None? ==> p == PostPage([], None)) &&
            (Start(rows, cursor).Some? ==>
               var s := Start(rows, cursor).value;
               (p.nextCursor.None? ==> p.posts == rows[s..]) &&
               (p.nextCursor.Some? ==>
                  s + limit < |rows| && p.posts == rows[s..s + limit] && Start(rows, p.nextCursor) == Some(s + limit)))
  {
    match Start(rows, cursor)
    case None =>
    case Some(s) => PageStepsFrom(rows, limit, cursor, s);
  }

  /** `PageSteps` for a page known to start at row `s`. */
  lemma PageStepsFrom(rows: seq<Post>, limit: nat, cursor: Option<string>, s: nat)
    requires WellKeyed(rows) && Start(rows, cursor) == Some(s)
    ensures var p := Page(rows, limit, cursor);
            (p.nextCursor.None? ==> p.posts == rows[s..]) &&
            (p.nextCursor.Some? ==>
               s + limit < |rows| && p.posts == rows[s..s + limit] && Start(rows, p.nextCursor) == Some(s + limit))
  {
    assert Page(rows, limit, cursor) == PopSurplus(Fetch(rows, Some(s), limit), limit);
    PageFrom(rows, s, limit);
    if s + limit < |rows| {
      CursorOfRow(rows, s + limit);
    }
  }

  /**
   * The page holds at most `limit` posts in table order, starting at the
   * cursor row, and has a next cursor exactly when rows remain after it.
   */
  lemma PageShape(rows: seq<Post>, limit: nat, cursor: Option<string>)
    ensures var p := Page(rows, limit, cursor);
            |p.posts| <= limit &&
            (NewestFirst(rows) ==> NewestFirst(p.posts)) &&
            (!Truthy(cursor) ==> p.posts == rows[..|p.posts|] && (p.nextCursor.Some? <==> limit < |rows|)) &&
            (Start(rows, cursor).None? ==> p == PostPage([], None)) &&
            (Start(rows, cursor).Some? ==>
               var s := Start(rows, cursor).value;
               p.posts == rows[s..s + |p.posts|] &&
               (p.nextCursor.Some? <==> s + limit < |rows|) &&
               (p.nextCursor.Some? ==> p.nextCursor.value == rows[s + limit].id))
  {
    var start := Start(rows, cursor);
    if start.Some? {
      var s := start.value;
      PageFrom(rows, s, limit);
      var p := Page(rows, limit, cursor);
      if NewestFirst(rows) {
        SliceNewestFirst(rows, s, s + |p.posts|);
      }
    }
  }

  /** What a client reads by following next cursors from `cursor` until there is none. */
  function Feed(rows: seq<Post>, limit: nat, cursor: Option<string>): seq<Post>
    requires WellKeyed(rows) && limit > 0
    decreases match Start(rows, cursor) case None => 0 case Some(s) => |rows| - s
  {
    var p := Page(rows, limit, cursor);
    if p.nextCursor.None? then p.posts
    else
      PageSteps(rows, limit, cursor);
      p.posts + Feed(rows, limit, p.nextCursor)
  }

  /** Following the cursors from the page that starts at row `s` reads every row from `s` on, once, in table order. */
  lemma {:induction false} FeedReadsTheRest(rows: seq<Post>, limit: nat, cursor: Option<string>, s: nat)
    requires WellKeyed(rows) && limit > 0
    requires Start(rows, cursor) == Some(s)
    ensures Feed(rows, limit, cursor) == rows[s..]
    decreases |rows| - s
  {
    var p := Page(rows, limit, cursor);
    PageStepsFrom(rows, limit, cursor, s);
    if p.nextCursor.Some? {
      FeedReadsTheRest(rows, limit, p.nextCursor, s + limit);
      calc {
        Feed(rows, limit, cursor);
        p.posts + Feed(rows, limit, p.nextCursor);
        rows[s..s + limit] + rows[s + limit..];
        rows[s..];
      }
    } else {
      assert Feed(rows, limit, cursor) == p.posts;
    }
  }

  /** Paging from the first page shows the whole feed, each post exactly once. */
  lemma FeedShowsEveryPost(rows: seq<Post>, limit: nat)
    requires WellKeyed(rows) && limit > 0
    ensures Feed(rows, limit, None) == rows
  {
    FeedReadsTheRest(rows, limit, None, 0);
  }

  /**
   * The post table the repository reads, newest first. `queries` counts the
   * database queries issued, so callers can state when the table is read.
   */
  class PostRepository {
    var rows: seq<Post>
    ghost var queries: nat

    constructor (rows: seq<Post>)
      ensures this.rows == rows && queries == 0
    {
      this.rows := rows;
      queries := 0;
    }

    /** Builds the query, fetches `limit + 1` rows and pops the surplus one. */
    method FindWithPagination(limit: nat, cursor: Option<string>) returns (page: PostPage)
      modifies this
      ensures page == Page(rows, limit, cursor)
      ensures rows == old(rows) && queries == old(queries) + 1
    {
      queries := queries + 1;
      var start: Option<nat> := Some(0);
      if Truthy(cursor) {
        start := IndexOf(rows, cursor.value);
      }
      var posts := Fetch(rows, start, limit);
      var nextCursor: Option<string> := None;
      if |posts| > limit {
        var lastPost := posts[|posts| - 1];
        posts := posts[..|posts| - 1];
        nextCursor := Some(lastPost.id);
      }
      page := PostPage(posts, nextCursor);
    }
  }
}
