/** `paginate_list(items, page_size)`: the number of pages and the page
    accessor `get_page(page)`, which slices `items[start:end]` with Python's
    slice rules (negative bounds count from the end, bounds are clamped). */
module Pagination {

  /** Python's normalisation of one slice bound against a length `n`. */
  function SliceBound(i: int, n: nat): (b: nat)
    ensures b <= n
    ensures 0 <= i <= n ==> b == i
    ensures i > n ==> b == n
    ensures i < 0 && i + n >= 0 ==> b == i + n
    ensures i + n < 0 ==> b == 0
  {
    if i < 0 then (if i + n < 0 then 0 else i + n)
    else if i > n then n
    else i
  }

  /** Python's `s[i:j]`. */
  function PySlice<T>(s: seq<T>, i: int, j: int): (r: seq<T>)
    ensures |r| <= |s|
  {
    var lo, hi := SliceBound(i, |s|), SliceBound(j, |s|);
    if lo < hi then s[lo..hi] else []
  }

  /** `max(1, (len(items) + page_size - 1) // page_size)`. */
  function TotalPages(n: nat, pageSize: int): (t: int)
    requires pageSize > 0
    ensures t >= 1
  {
    var c := (n + pageSize - 1) / pageSize;
    if c > 1 then c else 1
  }

  /** `get_page(page)`: `items[(page - 1) * page_size : (page - 1) * page_size + page_size]`. */
  function GetPage<T>(items: seq<T>, pageSize: int, page: int): seq<T>
    requires pageSize > 0
  {
    var start := (page - 1) * pageSize;
    PySlice(items, start, start + pageSize)
  }

  /** `paginate_list`: the page count and the page accessor. */
  function PaginateList<T>(items: seq<T>, pageSize: int): (r: (int, int -> seq<T>))
    requires pageSize > 0
    ensures r.0 >= 1
    ensures forall page :: r.1(page) == GetPage(items, pageSize, page)
  {
    (TotalPages(|items|, pageSize), page => GetPage(items, pageSize, page))
  }

  function Min(a: int, b: int): int { if a <= b then a else b }

  lemma MulMonotone(a: int, b: int, k: int)
    requires a <= b && k >= 0
    ensures a * k <= b * k
  {}

  /** The page count is the ceiling of n / page_size, and at least 1: the
      pages hold all items, and the last page is not empty unless the list
      is. */
  lemma TotalPagesIsCeiling(n: nat, pageSize: int)
    requires pageSize > 0
    ensures n <= TotalPages(n, pageSize) * pageSize
    ensures n > 0 ==> (TotalPages(n, pageSize) - 1) * pageSize < n
    ensures n == 0 ==> TotalPages(n, pageSize) == 1
  {
    var c := (n + pageSize - 1) / pageSize;
    var m := (n + pageSize - 1) % pageSize;
    assert c * pageSize + m == n + pageSize - 1 && 0 <= m < pageSize;
    var t := TotalPages(n, pageSize);
    if c >= 1 {
      MulMonotone(1, c, pageSize);
    } else {
      MulMonotone(c, 0, pageSize);
    }
    assert c >= 1 <==> n > 0;
    if c <= 1 {
      MulMonotone(c, 1, pageSize);
    }
    assert (t - 1) * pageSize == t * pageSize - pageSize;
  }

  /** A page with a positive number holds the items from position
      (page - 1) * page_size up to page * page_size, cut at the end. */
  lemma PageContents<T>(items: seq<T>, pageSize: int, page: int)
    requires pageSize > 0 && page >= 1
    ensures var lo := Min((page - 1) * pageSize, |items|);
            var hi := Min(page * pageSize, |items|);
            GetPage(items, pageSize, page) == items[lo..hi]
  {
    var start := (page - 1) * pageSize;
    MulMonotone(0, page - 1, pageSize);
    assert start + pageSize == page * pageSize;
    var lo, hi := SliceBound(start, |items|), SliceBound(start + pageSize, |items|);
    assert lo == Min(start, |items|) && hi == Min(page * pageSize, |items|);
    assert lo <= hi;
  }

  /** No page holds more than page_size items. */
  lemma PageSizeBound<T>(items: seq<T>, pageSize: int, page: int)
    requires pageSize > 0
    ensures |GetPage(items, pageSize, page)| <= pageSize
  {
    var start := (page - 1) * pageSize;
    var lo, hi := SliceBound(start, |items|), SliceBound(start + pageSize, |items|);
    if lo < hi {
      assert hi - lo <= pageSize;
    }
  }

  /** The pages past the last one are empty. */
  lemma PagesPastEndEmpty<T>(items: seq<T>, pageSize: int, page: int)
    requires pageSize > 0 && page > TotalPages(|items|, pageSize)
    ensures GetPage(items, pageSize, page) == []
  {
    TotalPagesIsCeiling(|items|, pageSize);
    var t := TotalPages(|items|, pageSize);
    var start := (page - 1) * pageSize;
    MulMonotone(t, page - 1, pageSize);
    assert start >= |items|;
    assert SliceBound(start, |items|) == |items|;
  }

  /** Page 0 is empty: it slices `items[-page_size:0]`. */
  lemma PageZeroEmpty<T>(items: seq<T>, pageSize: int)
    requires pageSize > 0
    ensures GetPage(items, pageSize, 0) == []
  {}

  /** A negative page wraps around to the end: page -1 slices
      `items[-2 * page_size : -page_size]`, which is not empty when the list
      holds at least 2 * page_size items. */
  lemma NegativePageWraps<T>(items: seq<T>, pageSize: int)
    requires pageSize > 0 && |items| >= 2 * pageSize
    ensures GetPage(items, pageSize, -1) == items[|items| - 2 * pageSize..|items| - pageSize]
  {}

  /** Pages 1 to k, concatenated. */
  function PagesUpTo<T>(items: seq<T>, pageSize: int, k: nat): seq<T>
    requires pageSize > 0
  {
    if k == 0 then [] else PagesUpTo(items, pageSize, k - 1) + GetPage(items, pageSize, k)
  }

  lemma PrefixSplit<T>(s: seq<T>, a: int, b: int)
    requires 0 <= a <= b <= |s|
    ensures s[..a] + s[a..b] == s[..b]
  {}

  lemma {:induction false} PagesUpToPrefix<T>(items: seq<T>, pageSize: int, k: nat)
    requires pageSize > 0
    ensures PagesUpTo(items, pageSize, k) == items[..Min(k * pageSize, |items|)]
  {
    if k > 0 {
      PagesUpToPrefix(items, pageSize, k - 1);
      PageContents(items, pageSize, k);
      MulMonotone(k - 1, k, pageSize);
      PrefixSplit(items, Min((k - 1) * pageSize, |items|), Min(k * pageSize, |items|));
    }
  }

  /** Reading the pages 1 to total_pages in order gives back the list. */
  lemma PagesReassemble<T>(items: seq<T>, pageSize: int)
    requires pageSize > 0
    ensures PagesUpTo(items, pageSize, TotalPages(|items|, pageSize)) == items
  {
    TotalPagesIsCeiling(|items|, pageSize);
    PagesUpToPrefix(items, pageSize, TotalPages(|items|, pageSize));
  }
}
