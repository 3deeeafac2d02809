/**
 * The ranked listing of outstanding book requests (`BookRequestListView.get`):
 * resolve each request's metadata through the cache-aside fetch, drop the ones
 * that do not resolve, sort the rest by request count, highest first, keeping
 * ties in their input order (Python's `sorted(..., reverse=True)` is stable),
 * and cut the result into pages of ten.
 */
module RequestListing {

  import opened Wrappers
  import NaverCache
  import Paging

  /** A `BookRequest` row: the requested ISBN and how many users asked for it. */
  datatype BookRequest = BookRequest(isbn: string, count: int)

  /** One entry of `book_list`. */
  datatype Row = Row(isbn: string, author: string, title: string, publisher: string, count: int)

  /** The listing entry for a request whose metadata resolved. */
  function MakeRow(req: BookRequest, md: NaverCache.Metadata): (row: Row)
    ensures row.isbn == req.isbn && row.count == req.count
    ensures row.author == md.author && row.title == md.title && row.publisher == md.publisher
  {
    Row(req.isbn, md.author, md.title, md.publisher, req.count)
  }

  /**
   * The entries the loop builds, against the cache as it was before the loop;
   * `None` when some request's fetch fails with a server error.
   */
  function Collect(cache: map<string, NaverCache.Entry>, remote: NaverCache.Remote, reqs: seq<BookRequest>): (r: Option<seq<Row>>)
    ensures r.Some? ==> |r.value| <= |reqs|
    decreases |reqs|
  {
    if reqs == [] then Some([])
    else
      var last := reqs[|reqs| - 1];
      match Collect(cache, remote, reqs[..|reqs| - 1])
      case None => None
      case Some(rows) =>
        match NaverCache.Resolve(cache, last.isbn, remote)
        case Fault => None
        case Absent => Some(rows)
        case Found(md) => Some(rows + [MakeRow(last, md)])
  }

  /** The loop fails exactly when the fetch for some request fails with a server error. */
  lemma {:induction false} CollectFails(cache: map<string, NaverCache.Entry>, remote: NaverCache.Remote, reqs: seq<BookRequest>)
    ensures Collect(cache, remote, reqs).None? <==>
      exists j :: 0 <= j < |reqs| && NaverCache.Resolve(cache, reqs[j].isbn, remote).Fault?
  {
    if reqs != [] {
      var init := reqs[..|reqs| - 1];
      CollectFails(cache, remote, init);
      if Collect(cache, remote, init).None? {
        var j :| 0 <= j < |init| && NaverCache.Resolve(cache, init[j].isbn, remote).Fault?;
        assert reqs[j] == init[j];
      }
      if exists j :: 0 <= j < |reqs| && NaverCache.Resolve(cache, reqs[j].isbn, remote).Fault? {
        var j :| 0 <= j < |reqs| && NaverCache.Resolve(cache, reqs[j].isbn, remote).Fault?;
        if j < |init| {
          assert init[j] == reqs[j];
        }
      }
    }
  }

  /** The positions in `s` of the entries that satisfy `f`. */
  function Positions<T>(s: seq<T>, f: T -> bool): set<int>
  {
    set j | 0 <= j < |s| && f(s[j])
  }

  /** Taking off the last entry takes its position off the set, if it was there. */
  lemma PositionsInit<T>(s: seq<T>, f: T -> bool)
    requires s != []
    ensures |Positions(s, f)| == |Positions(s[..|s| - 1], f)| + (if f(s[|s| - 1]) then 1 else 0)
  {
    var n := |s| - 1;
    var p := Positions(s[..n], f);
    if f(s[n]) {
      assert Positions(s, f) == p + {n};
    } else {
      assert Positions(s, f) == p;
    }
  }

  /** The positions of the requests whose metadata resolved. */
  function Resolved(cache: map<string, NaverCache.Entry>, remote: NaverCache.Remote, reqs: seq<BookRequest>): set<int>
  {
    Positions(reqs, (req: BookRequest) => NaverCache.Resolve(cache, req.isbn, remote).Found?)
  }

  /** When the loop succeeds, it holds one entry per request whose metadata resolved. */
  lemma {:induction false} CollectCount(cache: map<string, NaverCache.Entry>, remote: NaverCache.Remote, reqs: seq<BookRequest>, rows: seq<Row>)
    requires Collect(cache, remote, reqs) == Some(rows)
    ensures |rows| == |Resolved(cache, remote, reqs)|
  {
    if reqs == [] {
      assert Resolved(cache, remote, reqs) == {};
    } else {
      var n := |reqs| - 1;
      var before :| Collect(cache, remote, reqs[..n]) == Some(before);
      CollectCount(cache, remote, reqs[..n], before);
      PositionsInit(reqs, (req: BookRequest) => NaverCache.Resolve(cache, req.isbn, remote).Found?);
    }
  }

  /**
   * When the loop succeeds, its entries are exactly those of the requests whose
   * metadata resolved, one per such request, each built from that request and its metadata.
   */
  lemma {:induction false} CollectRows(cache: map<string, NaverCache.Entry>, remote: NaverCache.Remote, reqs: seq<BookRequest>, rows: seq<Row>)
    requires Collect(cache, remote, reqs) == Some(rows)
    ensures |rows| <= |reqs|
    ensures |rows| == |Resolved(cache, remote, reqs)|
    ensures forall row :: row in rows <==>
      exists j :: 0 <= j < |reqs| && NaverCache.Resolve(cache, reqs[j].isbn, remote).Found? &&
                  row == MakeRow(reqs[j], NaverCache.Resolve(cache, reqs[j].isbn, remote).md)
  {
    CollectCount(cache, remote, reqs, rows);
    if reqs != [] {
      var init := reqs[..|reqs| - 1];
      var last := reqs[|reqs| - 1];
      var before :| Collect(cache, remote, init) == Some(before);
      CollectRows(cache, remote, init, before);
      var d := NaverCache.Resolve(cache, last.isbn, remote);
      forall row | row in rows
        ensures exists j :: 0 <= j < |reqs| && NaverCache.Resolve(cache, reqs[j].isbn, remote).Found? &&
                  row == MakeRow(reqs[j], NaverCache.Resolve(cache, reqs[j].isbn, remote).md)
      {
        if row in before {
          var j :| 0 <= j < |init| && NaverCache.Resolve(cache, init[j].isbn, remote).Found? &&
                  row == MakeRow(init[j], NaverCache.Resolve(cache, init[j].isbn, remote).md);
          assert reqs[j] == init[j];
        } else {
          assert reqs[|reqs| - 1] == last;
        }
      }
      forall j | 0 <= j < |reqs| && NaverCache.Resolve(cache, reqs[j].isbn, remote).Found?
        ensures MakeRow(reqs[j], NaverCache.Resolve(cache, reqs[j].isbn, remote).md) in rows
      {
        if j < |init| {
          assert init[j] == reqs[j];
        }
      }
    }
  }

  /** A failure in the first `i` requests is a failure of the whole loop. */
  lemma CollectPrefixFails(cache: map<string, NaverCache.Entry>, remote: NaverCache.Remote, reqs: seq<BookRequest>, i: nat)
    requires i <= |reqs| && Collect(cache, remote, reqs[..i]).None?
    ensures Collect(cache, remote, reqs).None?
  {
    CollectFails(cache, remote, reqs[..i]);
    var j :| 0 <= j < i && NaverCache.Resolve(cache, reqs[..i][j].isbn, remote).Fault?;
    CollectFails(cache, remote, reqs);
  }

  /**
   * The cache the loop leaves: each request's fetch runs on the cache the
   * previous fetches left, and the loop stops at the first fault.
   */
  function LoopCache(cache: map<string, NaverCache.Entry>, remote: NaverCache.Remote, reqs: seq<BookRequest>): (r: map<string, NaverCache.Entry>)
    ensures forall k :: k in cache ==> k in r && r[k] == cache[k]
    decreases |reqs|
  {
    if reqs == [] then cache
    else
      var init := reqs[..|reqs| - 1];
      var prev := LoopCache(cache, remote, init);
      if Collect(cache, remote, init).None? then prev
      else NaverCache.Fetch(prev, reqs[|reqs| - 1].isbn, remote).1
  }

  /** After the first fault, the remaining requests are not fetched. */
  lemma {:induction false} LoopCacheStops(cache: map<string, NaverCache.Entry>, remote: NaverCache.Remote, reqs: seq<BookRequest>, i: nat)
    requires i <= |reqs| && Collect(cache, remote, reqs[..i]).None?
    ensures LoopCache(cache, remote, reqs) == LoopCache(cache, remote, reqs[..i])
  {
    if i < |reqs| {
      var init := reqs[..|reqs| - 1];
      assert init[..i] == reqs[..i];
      LoopCacheStops(cache, remote, init, i);
      CollectPrefixFails(cache, remote, init, i);
    } else {
      assert reqs[..i] == reqs;
    }
  }

  /** The cache the loop leaves is consistent with the cache before it. */
  lemma {:induction false} LoopCacheAgrees(cache: map<string, NaverCache.Entry>, remote: NaverCache.Remote, reqs: seq<BookRequest>)
    ensures NaverCache.Agrees(cache, LoopCache(cache, remote, reqs), remote)
  {
    if reqs == [] {
      NaverCache.AgreesRefl(cache, remote);
    } else {
      var init := reqs[..|reqs| - 1];
      LoopCacheAgrees(cache, remote, init);
      NaverCache.AgreesFetch(cache, LoopCache(cache, remote, init), remote, reqs[|reqs| - 1].isbn);
    }
  }

  /** Every key the loop adds is that of a requested ISBN whose reply was 200 with items. */
  lemma {:induction false} LoopCacheNew(cache: map<string, NaverCache.Entry>, remote: NaverCache.Remote, reqs: seq<BookRequest>)
    ensures var after := LoopCache(cache, remote, reqs);
      forall k :: k in after && k !in cache ==>
        exists j :: 0 <= j < |reqs| && k == NaverCache.CacheKey(reqs[j].isbn) &&
          remote(reqs[j].isbn).status == 200 && |remote(reqs[j].isbn).items| > 0 &&
          after[k] == NaverCache.Entry(NaverCache.Extract(remote(reqs[j].isbn).items[0]), 604800)
  {
    if reqs != [] {
      var n := |reqs| - 1;
      var init := reqs[..n];
      var prev := LoopCache(cache, remote, init);
      var after := LoopCache(cache, remote, reqs);
      LoopCacheNew(cache, remote, init);
      forall k | k in after && k !in cache
        ensures exists j :: 0 <= j < |reqs| && k == NaverCache.CacheKey(reqs[j].isbn) &&
                  remote(reqs[j].isbn).status == 200 && |remote(reqs[j].isbn).items| > 0 &&
                  after[k] == NaverCache.Entry(NaverCache.Extract(remote(reqs[j].isbn).items[0]), 604800)
      {
        if k in prev {
          var j :| 0 <= j < |init| && k == NaverCache.CacheKey(init[j].isbn) &&
            remote(init[j].isbn).status == 200 && |remote(init[j].isbn).items| > 0 &&
            prev[k] == NaverCache.Entry(NaverCache.Extract(remote(init[j].isbn).items[0]), 604800);
          assert reqs[j] == init[j];
        } else {
          assert k == NaverCache.CacheKey(reqs[n].isbn);
        }
      }
    }
  }

  /** When the loop succeeds, every request whose metadata resolved has its key in the cache. */
  lemma {:induction false} LoopCacheCovers(cache: map<string, NaverCache.Entry>, remote: NaverCache.Remote, reqs: seq<BookRequest>)
    requires Collect(cache, remote, reqs).Some?
    ensures forall j :: 0 <= j < |reqs| && NaverCache.Resolve(cache, reqs[j].isbn, remote).Found? ==>
      NaverCache.CacheKey(reqs[j].isbn) in LoopCache(cache, remote, reqs)
  {
    if reqs != [] {
      var n := |reqs| - 1;
      var init := reqs[..n];
      var prev := LoopCache(cache, remote, init);
      var after := LoopCache(cache, remote, reqs);
      LoopCacheCovers(cache, remote, init);
      LoopCacheAgrees(cache, remote, init);
      forall j | 0 <= j < |reqs| && NaverCache.Resolve(cache, reqs[j].isbn, remote).Found?
        ensures NaverCache.CacheKey(reqs[j].isbn) in after
      {
        if j < n {
          assert init[j] == reqs[j];
        } else {
          NaverCache.AgreesResolve(cache, prev, remote, reqs[n].isbn);
        }
      }
    }
  }

  /**
   * The loop stores exactly the misses that resolved: every key it adds is the
   * key of a requested ISBN whose reply was 200 with items, holding that reply's
   * first item with a one-week timeout; and when the loop succeeds, every
   * request whose metadata resolved has its key in the cache.
   */
  lemma LoopCacheStores(cache: map<string, NaverCache.Entry>, remote: NaverCache.Remote, reqs: seq<BookRequest>)
    ensures var after := LoopCache(cache, remote, reqs);
      forall k :: k in after && k !in cache ==>
        exists j :: 0 <= j < |reqs| && k == NaverCache.CacheKey(reqs[j].isbn) &&
          remote(reqs[j].isbn).status == 200 && |remote(reqs[j].isbn).items| > 0 &&
          after[k] == NaverCache.Entry(NaverCache.Extract(remote(reqs[j].isbn).items[0]), 604800)
    ensures var after := LoopCache(cache, remote, reqs);
      Collect(cache, remote, reqs).Some? ==>
        forall j :: 0 <= j < |reqs| && NaverCache.Resolve(cache, reqs[j].isbn, remote).Found? ==>
          NaverCache.CacheKey(reqs[j].isbn) in after
  {
    LoopCacheNew(cache, remote, reqs);
    if Collect(cache, remote, reqs).Some? {
      LoopCacheCovers(cache, remote, reqs);
    }
  }

  // ---------------------------------------------------------------------------
  // Sorting by request count, highest first, stable.

  /** Non-increasing in `count`. */
  predicate SortedDesc(s: seq<Row>)
  {
    forall i, j :: 0 <= i < j < |s| ==> s[i].count >= s[j].count
  }

  /** The entries of `s` whose count is `k`, in their order in `s`. */
  function Keyed(s: seq<Row>, k: int): seq<Row>
  {
    if s == [] then [] else (if s[0].count == k then [s[0]] else []) + Keyed(s[1..], k)
  }

  /** Insert `x` before the first entry whose count is not above its own. */
  function InsertDesc(x: Row, s: seq<Row>): (r: seq<Row>)
    ensures |r| == |s| + 1
  {
    if s == [] || x.count >= s[0].count then [x] + s else [s[0]] + InsertDesc(x, s[1..])
  }

  /** `sorted(book_list, key=lambda x: x['request_count'], reverse=True)`. */
  function SortDesc(s: seq<Row>): (r: seq<Row>)
    ensures |r| == |s|
  {
    if s == [] then [] else InsertDesc(s[0], SortDesc(s[1..]))
  }

  lemma {:induction false} InsertPerm(x: Row, s: seq<Row>)
    ensures multiset(InsertDesc(x, s)) == multiset(s) + multiset{x}
  {
    if s != [] && x.count < s[0].count {
      InsertPerm(x, s[1..]);
      assert s == [s[0]] + s[1..];
    }
  }

  lemma {:induction false} InsertSorted(x: Row, s: seq<Row>)
    requires SortedDesc(s)
    ensures SortedDesc(InsertDesc(x, s))
  {
    if s != [] && x.count < s[0].count {
      var tail := InsertDesc(x, s[1..]);
      InsertSorted(x, s[1..]);
      InsertPerm(x, s[1..]);
      forall j | 0 <= j < |tail| ensures s[0].count >= tail[j].count
      {
        assert tail[j] in multiset(tail);
        if tail[j] != x {
          assert tail[j] in multiset(s[1..]);
          var m :| 0 <= m < |s[1..]| && s[1..][m] == tail[j];
          assert s[m + 1] == tail[j];
        }
      }
    }
  }

  lemma {:induction false} InsertKeyed(x: Row, s: seq<Row>, k: int)
    ensures Keyed(InsertDesc(x, s), k) == (if x.count == k then [x] else []) + Keyed(s, k)
  {
    if s == [] || x.count >= s[0].count {
      assert ([x] + s)[1..] == s;
    } else {
      InsertKeyed(x, s[1..], k);
      assert ([s[0]] + InsertDesc(x, s[1..]))[1..] == InsertDesc(x, s[1..]);
    }
  }

  /** The sorted list is non-increasing in request count. */
  lemma {:induction false} SortDescSorted(s: seq<Row>)
    ensures SortedDesc(SortDesc(s))
  {
    if s != [] {
      SortDescSorted(s[1..]);
      InsertSorted(s[0], SortDesc(s[1..]));
    }
  }

  /** The sorted list is a permutation of the input. */
  lemma {:induction false} SortDescPerm(s: seq<Row>)
    ensures multiset(SortDesc(s)) == multiset(s)
  {
    if s != [] {
      SortDescPerm(s[1..]);
      InsertPerm(s[0], SortDesc(s[1..]));
      assert s == [s[0]] + s[1..];
    }
  }

  /** Stability: for every count, the entries with that count keep their input order. */
  lemma {:induction false} SortDescStable(s: seq<Row>, k: int)
    ensures Keyed(SortDesc(s), k) == Keyed(s, k)
  {
    if s != [] {
      SortDescStable(s[1..], k);
      InsertKeyed(s[0], SortDesc(s[1..]), k);
    }
  }

  lemma KeyedHead(s: seq<Row>)
    ensures s != [] ==> Keyed(s, s[0].count) != []
    ensures forall k :: s == [] ==> Keyed(s, k) == []
  {
  }

  lemma {:induction false} KeyedAbsent(s: seq<Row>, k: int)
    requires SortedDesc(s) && (s == [] || s[0].count < k)
    ensures Keyed(s, k) == []
  {
    if s != [] {
      KeyedAbsent(s[1..], k);
    }
  }

  /**
   * Sortedness and stability pin the result down: two non-increasing lists with
   * the same entries per count, in the same order, are equal. So `SortDesc` is
   * the only stable descending sort.
   */
  lemma {:induction false} StableSortUnique(a: seq<Row>, b: seq<Row>)
    requires SortedDesc(a) && SortedDesc(b)
    requires forall k :: Keyed(a, k) == Keyed(b, k)
    ensures a == b
  {
    if a == [] || b == [] {
      KeyedHead(a);
      KeyedHead(b);
    } else {
      var m, n := a[0].count, b[0].count;
      if m > n {
        KeyedAbsent(b, m);
        KeyedHead(a);
      } else if n > m {
        KeyedAbsent(a, n);
        KeyedHead(b);
      } else {
        assert Keyed(a, m) == [a[0]] + Keyed(a[1..], m);
        assert Keyed(b, m) == [b[0]] + Keyed(b[1..], m);
        assert Keyed(a, m)[0] == a[0];
        forall k ensures Keyed(a[1..], k) == Keyed(b[1..], k)
        {
          if k == m {
            assert Keyed(a[1..], m) == Keyed(a, m)[1..];
            assert Keyed(b[1..], m) == Keyed(b, m)[1..];
          } else {
            assert Keyed(a, k) == Keyed(a[1..], k);
            assert Keyed(b, k) == Keyed(b[1..], k);
          }
        }
        StableSortUnique(a[1..], b[1..]);
        assert a == [a[0]] + a[1..] && b == [b[0]] + b[1..];
      }
    }
  }

  /** Requests counted 5, 9 and 9 (in that order) are ranked 9, 9, 5, the two nines in input order. */
  lemma RankingExample()
    ensures var a, b, c := Row("A", "", "", "", 5), Row("B", "", "", "", 9), Row("C", "", "", "", 9);
      SortDesc([a, b, c]) == [b, c, a]
  {
    var a, b, c := Row("A", "", "", "", 5), Row("B", "", "", "", 9), Row("C", "", "", "", 9);
    assert [a, b, c][1..] == [b, c] && [b, c][1..] == [c];
    assert SortDesc([c]) == [c];
    assert SortDesc([b, c]) == InsertDesc(b, [c]) == [b, c];
    assert InsertDesc(a, [c]) == [c, a];
    assert InsertDesc(a, [b, c]) == [b] + InsertDesc(a, [c]);
  }

  // ---------------------------------------------------------------------------
  // The view.

  /** The loop of the view: fetch each request's metadata and keep those that resolved. */
  method CollectRequests(cache: NaverCache.Cache, remote: NaverCache.Remote, requests: seq<BookRequest>)
    returns (r: Option<seq<Row>>)
    modifies cache
    ensures r == Collect(old(cache.entries), remote, requests)
    ensures cache.entries == LoopCache(old(cache.entries), remote, requests)
  {
    ghost var init := cache.entries;
    var bookList := [];
    var i := 0;
    while i < |requests|
      invariant 0 <= i <= |requests|
      invariant Collect(init, remote, requests[..i]) == Some(bookList)
      invariant cache.entries == LoopCache(init, remote, requests[..i])
    {
      var req := requests[i];
      ghost var before := cache.entries;
      LoopCacheAgrees(init, remote, requests[..i]);
      NaverCache.AgreesResolve(init, before, remote, req.isbn);
      var details := NaverCache.FetchDetails(cache, req.isbn, remote);
      assert requests[..i + 1][..i] == requests[..i];
      if details.Fault? {
        CollectPrefixFails(init, remote, requests, i + 1);
        LoopCacheStops(init, remote, requests, i + 1);
        return None;
      }
      if details.Found? {
        bookList := bookList + [Row(req.isbn, details.md.author, details.md.title, details.md.publisher, req.count)];
      }
      i := i + 1;
    }
    assert requests[..|requests|] == requests;
    return Some(bookList);
  }

  /**
   * `BookRequestListView.get` after the admin check: page `page` of the ranked
   * list; `None` when the view fails with a server error.
   */
  method ListRequests(cache: NaverCache.Cache, remote: NaverCache.Remote, requests: seq<BookRequest>, page: int)
    returns (r: Option<seq<Row>>)
    requires var c := Collect(cache.entries, remote, requests);
      c.Some? ==> 1 <= page <= Paging.NumPages(|c.value|)
    modifies cache
    ensures var c := Collect(old(cache.entries), remote, requests);
      && r.Some? == c.Some?
      && (r.Some? ==> r.value == Paging.Page(SortDesc(c.value), page))
    ensures cache.entries == LoopCache(old(cache.entries), remote, requests)
  {
    var bookList := CollectRequests(cache, remote, requests);
    if bookList.None? {
      return None;
    }
    var sorted := SortDesc(bookList.value);
    r := Some(Paging.Page(sorted, page));
  }
}
