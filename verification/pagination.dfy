/** `usePage`: a list shown `viewNum` items at a time, with a current page
    (1-based), the number of the last page and the items on view. */
module Pagination {
  import opened Common

  datatype PageState<T> = PageState(page: int, lastPage: int, viewList: seq<T>)

  function InitialPage<T>(): PageState<T> { PageState(1, 0, []) }

  /** The items of page p: `data.slice((p - 1) * n, p * n)`. Page 0, which the
      "previous" button can reach, resolves to `slice(-n, 0)` and is empty. */
  function PageView<T>(data: seq<T>, n: nat, p: int): (r: seq<T>)
    ensures |r| <= n
    ensures p == 0 ==> r == []
  {
    JsSlice(data, (p - 1) * n, p * n)
  }

  /** `Math.ceil(data.length / viewNum)` is the integer ceiling of the
      quotient. */
  lemma CeilOfQuotient(len: nat, n: nat)
    requires n > 0
    ensures Ceil(len as real / n as real) == (len + n - 1) / n
  {
    var q := (len + n - 1) / n;
    var r := (len + n - 1) % n;
    assert len + n - 1 == q * n + r;
    assert (q - 1) as real < len as real / n as real <= q as real by {
      assert (q - 1) * n < len <= q * n;
      RealQuotientBounds(len, n, q);
    }
  }

  lemma RealQuotientBounds(len: nat, n: nat, q: int)
    requires n > 0 && (q - 1) * n < len <= q * n
    ensures (q - 1) as real < len as real / n as real <= q as real
  {
    var w := n as real;
    assert ((q - 1) * n) as real == (q - 1) as real * w;
    assert (q * n) as real == q as real * w;
    QuotientAbove(len as real, (q - 1) as real, w);
    QuotientAtMost(len as real, q as real, w);
  }

  lemma QuotientAbove(a: real, b: real, w: real)
    requires w > 0.0 && b * w < a
    ensures b < a / w
  {
    var q := a / w;
    assert q * w == a;
    assert (q - b) * w == a - b * w;
  }

  lemma QuotientAtMost(a: real, b: real, w: real)
    requires w > 0.0 && a <= b * w
    ensures a / w <= b
  {
    var q := a / w;
    assert q * w == a;
    assert (b - q) * w == b * w - a;
  }

  /** The number of pages needed for `len` items, `n` to a page. */
  function PageCount(len: nat, n: nat): nat
    requires n > 0
  {
    (len + n - 1) / n
  }

  /** The page count is the fewest pages that hold every item: the pages
      before the last cannot hold them all. */
  lemma PageCountBounds(len: nat, n: nat)
    requires n > 0
    ensures len <= PageCount(len, n) * n
    ensures len > 0 ==> (PageCount(len, n) - 1) * n < len
    ensures len == 0 <==> PageCount(len, n) == 0
  {
    var c := PageCount(len, n);
    assert len + n - 1 == c * n + (len + n - 1) % n;
  }

  /** What the hook keeps true once the data has arrived: the last page is the
      page count, the page lies between 0 and the last page, and the list on
      view is that page's items. */
  predicate Paged<T(==)>(s: PageState<T>, data: seq<T>, n: nat)
    requires n > 0
  {
    && s.lastPage == PageCount(|data|, n)
    && 0 <= s.page <= s.lastPage
    && s.viewList == PageView(data, n, s.page)
  }

  lemma FirstPage<T>(data: seq<T>, n: nat)
    requires n > 0 && |data| > 0
    ensures PageView(data, n, 1) == JsSlice(data, 0, n)
    ensures PageCount(|data|, n) >= 1
  {
    assert (1 - 1) * n == 0 && 1 * n == n;
    assert |data| + n - 1 >= n;
  }

  lemma FirstPaged<T>(data: seq<T>, n: nat, r: PageState<T>)
    requires n > 0 && |data| > 0
    requires r == PageState(1, Ceil(|data| as real / n as real), JsSlice(data, 0, n))
    ensures Paged(r, data, n)
  {
    CeilOfQuotient(|data|, n);
    FirstPage(data, n);
  }

  lemma MulMono(a: int, b: int, n: nat)
    requires a <= b
    ensures a * n <= b * n
  {
    assert b * n - a * n == (b - a) * n;
  }

  /** The data effect: non-empty data sets the last page to
      `Math.ceil(length / n)`, goes to page 1 and shows the first `n` items;
      empty data leaves the state untouched. */
  function DataChanged<T(==)>(s: PageState<T>, data: seq<T>, n: nat): (r: PageState<T>)
    requires n > 0
    ensures |data| == 0 ==> r == s
    ensures |data| > 0 ==> Paged(r, data, n) && r.page == 1
    ensures |data| > 0 ==> r.lastPage == Ceil(|data| as real / n as real)
  {
    if |data| > 0 then
      var r := PageState(1, Ceil(|data| as real / n as real), JsSlice(data, 0, n));
      FirstPaged(data, n, r);
      r
    else s
  }

  /** `nextPage`: before the last page, show the next page's items and move
      on; on the last page nothing happens. */
  function NextPage<T(==)>(s: PageState<T>, data: seq<T>, n: nat): (r: PageState<T>)
    requires n > 0
    ensures s.page < s.lastPage ==> r.page == s.page + 1 && r.lastPage == s.lastPage
    ensures s.page >= s.lastPage ==> r == s
    ensures Paged(s, data, n) ==> Paged(r, data, n)
  {
    if s.page < s.lastPage then
      PageState(s.page + 1, s.lastPage, JsSlice(data, s.page * n, (s.page + 1) * n))
    else s
  }

  /** `prevPage`: from any page above 0, show the items of the page before
      and move back. From page 1 this goes to page 0 with nothing on view,
      because the guard is `page > 0` rather than `page > 1`. */
  function PrevPage<T(==)>(s: PageState<T>, data: seq<T>, n: nat): (r: PageState<T>)
    requires n > 0
    ensures s.page > 0 ==> r.page == s.page - 1 && r.lastPage == s.lastPage
    ensures s.page <= 0 ==> r == s
    ensures s.page == 1 ==> r.viewList == []
    ensures Paged(s, data, n) ==> Paged(r, data, n)
  {
    if s.page > 0 then
      PageState(s.page - 1, s.lastPage, JsSlice(data, (s.page - 2) * n, (s.page - 1) * n))
    else s
  }

  /** Forward then back returns to the same page and items. */
  lemma NextThenPrev<T>(s: PageState<T>, data: seq<T>, n: nat)
    requires n > 0 && Paged(s, data, n) && s.page < s.lastPage
    ensures PrevPage(NextPage(s, data, n), data, n) == s
  {
  }

  /** Every page up to the last holds the items at its offsets: a full page of
      `n` before the last, and between 1 and `n` on the last. */
  lemma PageContents<T>(data: seq<T>, n: nat, p: int)
    requires n > 0 && 1 <= p <= PageCount(|data|, n)
    ensures p < PageCount(|data|, n) ==> |PageView(data, n, p)| == n
    ensures p == PageCount(|data|, n) ==> 1 <= |PageView(data, n, p)| <= n
    ensures forall k :: 0 <= k < |PageView(data, n, p)| ==> PageView(data, n, p)[k] == data[(p - 1) * n + k]
  {
    PageCountBounds(|data|, n);
    MulMono(p - 1, PageCount(|data|, n) - 1, n);
    assert p * n == (p - 1) * n + n;
    if p < PageCount(|data|, n) {
      MulMono(p, PageCount(|data|, n) - 1, n);
    }
    SliceWindow(data, (p - 1) * n, p * n, n);
  }

  /** A window of `n` items from an offset inside the list: it holds the items
      from that offset on, and is cut short only by the end of the list. */
  lemma SliceWindow<T>(data: seq<T>, a: int, b: int, n: nat)
    requires 0 <= a < |data| && b == a + n
    ensures |JsSlice(data, a, b)| == if b <= |data| then n else |data| - a
    ensures forall k :: 0 <= k < |JsSlice(data, a, b)| ==> JsSlice(data, a, b)[k] == data[a + k]
  {
  }
}
