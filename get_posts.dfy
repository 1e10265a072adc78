/**
 * The cache-aside read of the feed (`GetPostsUseCase.execute`). A page is
 * cached under a key built from the page size and the cursor; a live entry
 * is returned as is, otherwise the table is queried once and the page is
 * cached for two minutes when a cursor was given and one minute for the
 * first page. Time is milliseconds.
 */
module GetPosts {
  import opened Wrappers
  import opened Decimal
  import opened Text
  import opened Entities
  import opened Pagination

  const KeyPrefix := "posts:limit="
  const CursorInfix := ":cursor="

  /** `posts:limit={limit}`, then `:cursor={cursor}` when a cursor is given. */
  function CacheKey(limit: int, cursor: Option<string>): string {
    KeyPrefix + IntToString(limit) + (if Truthy(cursor) then CursorInfix + cursor.value else "")
  }

  /** Seconds a cached page lives: later pages change less than the first. */
  function TtlSeconds(cursor: Option<string>): nat {
    if Truthy(cursor) then 120 else 60
  }

  /** A cached page and the instant it expires. */
  datatype Entry = Entry(page: PostPage, expiresAt: int)

  /** The live entry under `key`, if any: an expired entry reads as missing. */
  function Lookup(entries: map<string, Entry>, key: string, now: int): (r: Option<PostPage>)
    ensures r.Some? <==> key in entries && now < entries[key].expiresAt
    ensures r.Some? ==> r.value == entries[key].page
  {
    if key in entries && now < entries[key].expiresAt then Some(entries[key].page) else None
  }

  /** What one read does: the page it returns, whether it queried the table, and the cache after it. */
  datatype Outcome = Outcome(page: PostPage, queried: bool, entries: map<string, Entry>)

  /** `execute(limit, cursor)` against the cache `entries` and the table `rows` at time `now`. */
  function Read(entries: map<string, Entry>, rows: seq<Post>, limit: nat, cursor: Option<string>, now: int): Outcome {
    var key := CacheKey(limit, cursor);
    match Lookup(entries, key, now)
    case Some(cached) => Outcome(cached, false, entries)
    case None =>
      var page := Page(rows, limit, cursor);
      Outcome(page, true, entries[key := Entry(page, now + TtlSeconds(cursor) * 1000)])
  }

  /** No colon appears in a rendered number. */
  lemma NoColonInNumber(n: int)
    ensures ':' !in IntToString(n)
  {
    var s := IntToString(n);
    assert forall i :: 0 <= i < |s| ==> s[i] != ':';
  }

  lemma StripPrefix(p: string, a: string, b: string)
    requires p + a == p + b
    ensures a == b
  {
    assert a == (p + a)[|p|..];
    assert b == (p + b)[|p|..];
  }

  /**
   * Two reads share a cache entry exactly when they ask for the same page
   * size and the same cursor; in particular a read with a cursor never
   * shares one with a read without.
   */
  lemma CacheKeyInjective(limit1: int, cursor1: Option<string>, limit2: int, cursor2: Option<string>)
    ensures CacheKey(limit1, cursor1) == CacheKey(limit2, cursor2) <==>
            limit1 == limit2 && Truthy(cursor1) == Truthy(cursor2) &&
            (Truthy(cursor1) ==> cursor1.value == cursor2.value)
  {
    if CacheKey(limit1, cursor1) == CacheKey(limit2, cursor2) {
      var n1, n2 := IntToString(limit1), IntToString(limit2);
      var rest1 := if Truthy(cursor1) then CursorInfix + cursor1.value else "";
      var rest2 := if Truthy(cursor2) then CursorInfix + cursor2.value else "";
      assert CacheKey(limit1, cursor1) == KeyPrefix + n1 + rest1 == KeyPrefix + (n1 + rest1);
      assert CacheKey(limit2, cursor2) == KeyPrefix + n2 + rest2 == KeyPrefix + (n2 + rest2);
      StripPrefix(KeyPrefix, n1 + rest1, n2 + rest2);
      NoColonInNumber(limit1);
      NoColonInNumber(limit2);
      assert Truthy(cursor1) <==> ':' in n1 + rest1 by {
        if Truthy(cursor1) {
          assert (n1 + rest1)[|n1|] == ':';
        }
      }
      assert Truthy(cursor2) <==> ':' in n2 + rest2 by {
        if Truthy(cursor2) {
          assert (n2 + rest2)[|n2|] == ':';
        }
      }
      if Truthy(cursor1) && Truthy(cursor2) {
        var t1, t2 := "cursor=" + cursor1.value, "cursor=" + cursor2.value;
        assert n1 + rest1 == n1 + [':'] + t1;
        assert n2 + rest2 == n2 + [':'] + t2;
        SplitAtFirstSeparator(n1, t1, n2, t2, ':');
        StripPrefix("cursor=", cursor1.value, cursor2.value);
      } else if !Truthy(cursor1) && !Truthy(cursor2) {
        assert n1 + rest1 == n1 && n2 + rest2 == n2;
      }
      IntToStringInjective(limit1, limit2);
    }
  }

  /**
   * A live entry is returned without querying and the cache is left as it
   * was; otherwise the table is queried once, its page returned unchanged
   * and cached under the key for 120 s with a cursor or 60 s without, and
   * no other entry changes.
   */
  lemma ReadHitOrMiss(entries: map<string, Entry>, rows: seq<Post>, limit: nat, cursor: Option<string>, now: int)
    ensures var o := Read(entries, rows, limit, cursor, now);
            var key := CacheKey(limit, cursor);
            (o.queried <==> Lookup(entries, key, now).None?) &&
            (!o.queried ==> o.page == entries[key].page && o.entries == entries) &&
            (o.queried ==>
               o.page == Page(rows, limit, cursor) &&
               o.entries.Keys == entries.Keys + {key} &&
               o.entries[key] == Entry(o.page, now + (if Truthy(cursor) then 120000 else 60000)) &&
               forall k :: k in entries && k != key ==> o.entries[k] == entries[k])
  {
  }

  /**
   * A second identical read before the entry expires returns the first
   * read's page without querying, even if the table changed in between.
   */
  lemma RepeatWithinTtlHits(entries: map<string, Entry>, rows: seq<Post>, later: seq<Post>,
                            limit: nat, cursor: Option<string>, now: int, laterNow: int)
    requires now <= laterNow < now + TtlSeconds(cursor) * 1000
    ensures var first := Read(entries, rows, limit, cursor, now);
            var second := Read(first.entries, later, limit, cursor, laterNow);
            first.queried ==> !second.queried && second.page == first.page && second.entries == first.entries
  {
  }

  /** Once the entry has expired, the same read queries the table again and sees its current rows. */
  lemma ExpiredEntryRequeries(entries: map<string, Entry>, rows: seq<Post>, later: seq<Post>,
                              limit: nat, cursor: Option<string>, now: int, laterNow: int)
    requires laterNow >= now + TtlSeconds(cursor) * 1000
    ensures var first := Read(entries, rows, limit, cursor, now);
            var second := Read(first.entries, later, limit, cursor, laterNow);
            first.queried ==> second.queried && second.page == Page(later, limit, cursor)
  {
  }

  /** The page cache: a key-value store with per-key expiry. */
  class Cache {
    var entries: map<string, Entry>

    constructor ()
      ensures entries == map[]
    {
      entries := map[];
    }

    /** `get(key)`: the stored page while it is live. */
    method Get(key: string, now: int) returns (cached: Option<PostPage>)
      ensures cached == Lookup(entries, key, now)
    {
      if key in entries && now < entries[key].expiresAt {
        cached := Some(entries[key].page);
      } else {
        cached := None;
      }
    }

    /** `set(key, page, ttl)`: stores the page for `ttlSeconds` from now, replacing any entry. */
    method Set(key: string, page: PostPage, ttlSeconds: nat, now: int)
      modifies this
      ensures entries == old(entries)[key := Entry(page, now + ttlSeconds * 1000)]
    {
      entries := entries[key := Entry(page, now + ttlSeconds * 1000)];
    }
  }

  class GetPostsUseCase {
    const repository: PostRepository
    const cache: Cache

    constructor (repository: PostRepository, cache: Cache)
      ensures this.repository == repository && this.cache == cache
    {
      this.repository := repository;
      this.cache := cache;
    }

    /** Returns the cached page when live; otherwise queries, caches and returns the page. */
    method Execute(limit: nat, cursor: Option<string>, now: int) returns (result: PostPage)
      modifies cache, repository
      ensures var o := Read(old(cache.entries), old(repository.rows), limit, cursor, now);
              result == o.page && cache.entries == o.entries &&
              repository.rows == old(repository.rows) &&
              repository.queries == old(repository.queries) + (if o.queried then 1 else 0)
    {
      var cacheKey := CacheKey(limit, cursor);
      var cached := cache.Get(cacheKey, now);
      if cached.Some? {
        return cached.value;
      }
      result := repository.FindWithPagination(limit, cursor);
      var cacheTtl := if Truthy(cursor) then 120 else 60;
      cache.Set(cacheKey, result, cacheTtl, now);
    }
  }
}
