/**
 * The cache-aside fetch of book metadata from the Naver book-search API
 * (`get_book_details_from_naver`). The cache is a keyed store whose entries
 * hold the six-field metadata record and the timeout it was stored with; the
 * remote API is an input that maps a query term to a reply.
 */
module NaverCache {

  import Wrappers

  /** The six fields the view keeps from a search result. */
  datatype Metadata = Metadata(
    author: string,
    title: string,
    publisher: string,
    image: string,
    isbn: string,
    description: string)

  /** One search result item as returned by the API (the fields the model keeps track of). */
  datatype Item = Item(
    title: string,
    link: string,
    image: string,
    author: string,
    publisher: string,
    pubdate: string,
    isbn: string,
    description: string)

  /** The HTTP reply of the search API: a status code and the `items` array. */
  datatype Reply = Reply(status: int, items: seq<Item>)

  /** The search API, as a function from the query term to its reply. */
  type Remote = string -> Reply

  /**
   * What a fetch yields: the metadata, `Absent` (the source's `None`, for a
   * non-200 reply), or `Fault` (a 200 reply with no items, where indexing
   * `items[0]` raises and the request ends in a server error).
   */
  datatype Fetched = Found(md: Metadata) | Absent | Fault

  /** A cache entry: the stored record and the timeout (seconds) it was stored with. */
  datatype Entry = Entry(value: Metadata, timeout: int)

  /** One week in seconds, the timeout used for every entry. */
  const CacheTimeout: int := 86400 * 7

  /** The cache key of an ISBN. */
  function CacheKey(isbn: string): (key: string)
    ensures |key| == |isbn| + 5 && key[..5] == "book_" && key[5..] == isbn
  {
    "book_" + isbn
  }

  /** Distinct ISBNs never share a cache slot. */
  lemma CacheKeyInjective(a: string, b: string)
    requires CacheKey(a) == CacheKey(b)
    ensures a == b
  {
  }

  /** The record stored for a search result: the six fields, copied from the item. */
  function Extract(item: Item): (md: Metadata)
    ensures md.author == item.author && md.title == item.title
    ensures md.publisher == item.publisher && md.image == item.image
    ensures md.isbn == item.isbn && md.description == item.description
  {
    Metadata(item.author, item.title, item.publisher, item.image, item.isbn, item.description)
  }

  /**
   * The fetch as a state transition: what it yields and the cache afterwards.
   * The JSON round trip the source performs on the stored value is the identity
   * on the six-field record.
   */
  function Fetch(cache: map<string, Entry>, isbn: string, remote: Remote): (r: (Fetched, map<string, Entry>))
    ensures forall k :: k in cache ==> k in r.1 && r.1[k] == cache[k]
    ensures r.0.Found? ==> CacheKey(isbn) in r.1 && r.0.md == r.1[CacheKey(isbn)].value
    ensures !r.0.Found? ==> r.1 == cache
    ensures forall k :: k in r.1 && k !in cache ==> k == CacheKey(isbn) && r.1[k].timeout == 604800
  {
    var key := CacheKey(isbn);
    if key in cache then
      (Found(cache[key].value), cache)
    else
      var reply := remote(isbn);
      if reply.status == 200 then
        if |reply.items| == 0 then (Fault, cache)
        else
          var md := Extract(reply.items[0]);
          (Found(md), cache[key := Entry(md, CacheTimeout)])
      else
        (Absent, cache)
  }

  /** The outcome alone. */
  function Resolve(cache: map<string, Entry>, isbn: string, remote: Remote): Fetched
  {
    Fetch(cache, isbn, remote).0
  }

  /** A hit returns the cached record, leaves the cache alone and does not depend on the remote at all. */
  lemma FetchHit(cache: map<string, Entry>, isbn: string, remote: Remote, other: Remote)
    requires CacheKey(isbn) in cache
    ensures Fetch(cache, isbn, remote) == (Found(cache[CacheKey(isbn)].value), cache)
    ensures Fetch(cache, isbn, remote) == Fetch(cache, isbn, other)
  {
  }

  /**
   * A miss answered with 200 stores the first item's six fields under the key
   * with a one-week timeout, changes no other key, and returns what it stored.
   */
  lemma FetchMissStores(cache: map<string, Entry>, isbn: string, remote: Remote)
    requires CacheKey(isbn) !in cache
    requires remote(isbn).status == 200 && |remote(isbn).items| > 0
    ensures var (r, after) := Fetch(cache, isbn, remote);
      && after == cache[CacheKey(isbn) := Entry(Extract(remote(isbn).items[0]), 604800)]
      && r == Found(after[CacheKey(isbn)].value)
  {
  }

  /** A miss answered with anything but 200 yields `Absent` and leaves the cache unchanged. */
  lemma FetchMissFails(cache: map<string, Entry>, isbn: string, remote: Remote)
    requires CacheKey(isbn) !in cache
    requires remote(isbn).status != 200
    ensures Fetch(cache, isbn, remote) == (Absent, cache)
  {
  }

  /** A miss answered with 200 but no items faults (the source raises on `items[0]`) and leaves the cache unchanged. */
  lemma FetchMissEmpty(cache: map<string, Entry>, isbn: string, remote: Remote)
    requires CacheKey(isbn) !in cache
    requires remote(isbn).status == 200 && remote(isbn).items == []
    ensures Fetch(cache, isbn, remote) == (Fault, cache)
  {
  }

  /**
   * Fetching the same ISBN twice: the second fetch is answered from the cache
   * whatever the remote would say then, and yields what the first yielded.
   */
  lemma FetchTwice(cache: map<string, Entry>, isbn: string, remote: Remote, later: Remote)
    requires Resolve(cache, isbn, remote).Found?
    ensures var after := Fetch(cache, isbn, remote).1;
      && CacheKey(isbn) in after
      && Fetch(after, isbn, later) == (Resolve(cache, isbn, remote), after)
  {
  }

  /**
   * `cache` is consistent with `init` and `remote`: it keeps every entry of
   * `init` unchanged, and every `book_` key it holds carries what a fetch from
   * `init` yields for that ISBN. (It does not say which keys were added; see
   * `RequestListing.LoopCache` for the cache a loop of fetches leaves.)
   */
  ghost predicate Agrees(init: map<string, Entry>, cache: map<string, Entry>, remote: Remote)
  {
    && (forall k :: k in init ==> k in cache && cache[k] == init[k])
    && (forall isbn :: CacheKey(isbn) in cache ==> Resolve(init, isbn, remote) == Found(cache[CacheKey(isbn)].value))
  }

  lemma AgreesRefl(init: map<string, Entry>, remote: Remote)
    ensures Agrees(init, init, remote)
  {
  }

  /** Under `Agrees`, a fetch from the later cache yields what it yields from the initial one. */
  lemma AgreesResolve(init: map<string, Entry>, cache: map<string, Entry>, remote: Remote, isbn: string)
    requires Agrees(init, cache, remote)
    ensures Resolve(cache, isbn, remote) == Resolve(init, isbn, remote)
  {
  }

  /** A further fetch keeps `Agrees`. */
  lemma AgreesFetch(init: map<string, Entry>, cache: map<string, Entry>, remote: Remote, isbn: string)
    requires Agrees(init, cache, remote)
    ensures Agrees(init, Fetch(cache, isbn, remote).1, remote)
  {
  }

  /** The Django cache, holding the entries the fetch reads and writes. */
  class Cache {
    var entries: map<string, Entry>

    constructor (entries: map<string, Entry>)
      ensures this.entries == entries
    {
      this.entries := entries;
    }

    /** `cache.get(key)`: the stored record, or `None` on a miss. */
    method Get(key: string) returns (r: Wrappers.Option<Metadata>)
      ensures r.Some? <==> key in entries
      ensures r.Some? ==> r.value == entries[key].value
    {
      r := if key in entries then Wrappers.Some(entries[key].value) else Wrappers.None;
    }

    /** `cache.set(key, value, timeout)`. */
    method Set(key: string, value: Metadata, timeout: int)
      modifies this
      ensures entries == old(entries)[key := Entry(value, timeout)]
    {
      entries := entries[key := Entry(value, timeout)];
    }
  }

  /** `get_book_details_from_naver`: look in the cache first, call the API on a miss. */
  method FetchDetails(cache: Cache, isbn: string, remote: Remote) returns (r: Fetched)
    modifies cache
    ensures (r, cache.entries) == Fetch(old(cache.entries), isbn, remote)
  {
    var key := CacheKey(isbn);
    var cached := cache.Get(key);
    if cached.Some? {
      return Found(cached.value);
    }
    var reply := remote(isbn);
    if reply.status == 200 {
      if |reply.items| == 0 {
        return Fault;
      }
      var item := reply.items[0];
      var data := Metadata(item.author, item.title, item.publisher, item.image, item.isbn, item.description);
      cache.Set(key, data, CacheTimeout);
      r := Found(data);
    } else {
      r := Absent;
    }
  }
}
