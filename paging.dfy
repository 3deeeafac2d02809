/**
 * Django's `Paginator(items, 10)` over an in-memory list: the list cut into
 * consecutive pages of ten, with one (empty) page for an empty list.
 */
module Paging {

  const PageSize: nat := 10

  function Min(a: int, b: int): int
  {
    if a <= b then a else b
  }

  /** The number of pages: one for an empty list, otherwise the ceiling of |s| / 10. */
  function NumPages(n: nat): nat
  {
    if n == 0 then 1 else (n + PageSize - 1) / PageSize
  }

  /** The pages of `s`, in order. */
  function Pages<T>(s: seq<T>): (pages: seq<seq<T>>)
    ensures |pages| >= 1 && |pages[0]| <= PageSize
    decreases |s|
  {
    if |s| <= PageSize then [s] else [s[..PageSize]] + Pages(s[PageSize..])
  }

  function Concat<T>(pages: seq<seq<T>>): seq<T>
  {
    if pages == [] then [] else pages[0] + Concat(pages[1..])
  }

  /** Putting the pages back together gives the list. */
  lemma {:induction false} PagesConcat<T>(s: seq<T>)
    ensures Concat(Pages(s)) == s
  {
    if |s| > PageSize {
      PagesConcat(s[PageSize..]);
      assert s == s[..PageSize] + s[PageSize..];
    }
  }

  /** There are `NumPages(|s|)` pages. */
  lemma {:induction false} PagesCount<T>(s: seq<T>)
    ensures |Pages(s)| == NumPages(|s|)
  {
    if |s| > PageSize {
      PagesCount(s[PageSize..]);
    }
  }

  /** Page `i` (from 0) is the slice from PageSize * i up to PageSize * (i + 1) or the end. */
  lemma {:induction false} PagesAt<T>(s: seq<T>, i: nat)
    requires i < |Pages(s)|
    ensures PageSize * i <= |s| && Pages(s)[i] == s[PageSize * i .. Min(PageSize * (i + 1), |s|)]
  {
    if |s| > PageSize && i > 0 {
      var rest := s[PageSize..];
      PagesAt(rest, i - 1);
      assert Pages(s)[i] == Pages(rest)[i - 1];
      assert Min(PageSize * i, |rest|) + PageSize == Min(PageSize * (i + 1), |s|);
      assert rest[PageSize * (i - 1) .. Min(PageSize * i, |rest|)] == s[PageSize * i .. Min(PageSize * (i + 1), |s|)];
    } else if |s| > PageSize {
      assert Pages(s)[0] == s[..PageSize];
    } else {
      assert Pages(s)[0] == s && s[0 .. |s|] == s;
    }
  }

  /** Every page holds at most ten entries, every page but the last exactly ten, and none is empty unless the list is. */
  lemma {:induction false} PagesSizes<T>(s: seq<T>)
    ensures forall i :: 0 <= i < |Pages(s)| ==>
      && |Pages(s)[i]| <= PageSize
      && (i < |Pages(s)| - 1 ==> |Pages(s)[i]| == PageSize)
      && (s != [] ==> Pages(s)[i] != [])
  {
    if |s| > PageSize {
      PagesSizes(s[PageSize..]);
    }
  }

  /** `paginator.get_page(number)` for a page number in range (numbered from 1). */
  function Page<T>(s: seq<T>, number: int): (p: seq<T>)
    requires 1 <= number <= NumPages(|s|)
    ensures PageSize * (number - 1) <= |s|
    ensures p == s[PageSize * (number - 1) .. Min(PageSize * number, |s|)]
  {
    PagesCount(s);
    PagesAt(s, number - 1);
    Pages(s)[number - 1]
  }
}
