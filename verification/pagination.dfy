/** The listing endpoint's page arithmetic: the bounds its `page` and `size`
    query parameters accept, the page count, the row offset of a page, and
    the `OFFSET … LIMIT …` slice of the matching rows. */
module Pagination {

  const DefaultPage := 1
  const DefaultSize := 10
  const MaxSize := 100

  /** The bounds the query parameters declare: `page >= 1` and `1 <= size <= 100`. */
  predicate ValidPaging(page: int, size: int) {
    page >= 1 && 1 <= size <= MaxSize
  }

  /** `(total + size - 1) // size`: the number of pages of `size` rows that
      hold `total` rows, the ceiling of total / size. */
  function PageCount(total: nat, size: int): (pages: nat)
    requires size >= 1
    ensures pages * size >= total
    ensures total > 0 ==> (pages - 1) * size < total
    ensures total == 0 ==> pages == 0
  {
    var q := (total + size - 1) / size;
    assert q * size <= total + size - 1 < (q + 1) * size;
    q
  }

  /** `(page - 1) * size`: the number of rows before the page, a multiple of
      the page size that grows by one page per page number. */
  function Offset(page: int, size: int): (offset: nat)
    requires page >= 1 && size >= 1
    ensures offset % size == 0
    ensures offset / size == page - 1
  {
    MultipleDivides(page - 1, size);
    (page - 1) * size
  }

  /** Dividing a multiple of `size` by `size` leaves no remainder. */
  lemma MultipleDivides(k: nat, size: int)
    requires size >= 1
    ensures (k * size) % size == 0
    ensures (k * size) / size == k
  {
    var x := k * size;
    var q := x / size;
    var r := x % size;
    assert x == q * size + r && 0 <= r < size;
    assert (k - q) * size == r;
    ScaledBounds(k - q, size);
  }

  /** A nonzero multiple of a positive `size` is at least `size` away from zero. */
  lemma ScaledBounds(d: int, size: int)
    requires size >= 1
    ensures d >= 1 ==> d * size >= size
    ensures d <= -1 ==> d * size <= -size
  {
    if d >= 1 {
      assert d * size == (d - 1) * size + size;
    } else if d <= -1 {
      assert d * size == (d + 1) * size - size;
    }
  }

  /** `w` is what `OFFSET offset LIMIT limit` returns from `s`: the elements
      at positions offset, offset + 1, … in order, as many as `limit` allows
      and `s` still has from the offset on. */
  ghost predicate IsWindow<T>(w: seq<T>, s: seq<T>, offset: nat, limit: nat) {
    && |w| == (if offset >= |s| then 0 else if |s| - offset < limit then |s| - offset else limit)
    && forall i :: 0 <= i < |w| ==> offset + i < |s| && w[i] == s[offset + i]
  }

  /** `OFFSET offset LIMIT limit` over `s`: at most `limit` elements, namely
      those at positions offset, offset + 1, … that exist. */
  function PageSlice<T>(s: seq<T>, offset: nat, limit: nat): (r: seq<T>)
    ensures |r| <= limit
    ensures offset >= |s| ==> r == []
    ensures offset < |s| ==> |r| == (if offset + limit <= |s| then limit else |s| - offset)
    ensures forall i :: 0 <= i < |r| ==> offset + i < |s| && r[i] == s[offset + i]
    ensures forall x :: x in r ==> x in s
    ensures IsWindow(r, s, offset, limit)
  {
    if offset >= |s| then []
    else if offset + limit <= |s| then s[offset..offset + limit]
    else s[offset..]
  }

  /** The rows of pages 1 through `n`, one page after another. */
  function AllPages<T>(s: seq<T>, size: int, n: nat): seq<T>
    requires size >= 1
  {
    if n == 0 then [] else AllPages(s, size, n - 1) + PageSlice(s, Offset(n, size), size)
  }

  /** Pages 1 through `n` of a listing whose page `k` holds `pages(k)`, one
      after another. */
  function Concatenated<T>(pages: nat -> seq<T>, n: nat): seq<T> {
    if n == 0 then [] else Concatenated(pages, n - 1) + pages(n)
  }

  /** A listing whose every page is the `OFFSET/LIMIT` slice of `s` for that
      page concatenates to the same rows as the slices themselves. */
  lemma {:induction false} ConcatenatedSlices<T>(pages: nat -> seq<T>, s: seq<T>, size: int, n: nat)
    requires size >= 1
    requires forall k :: 1 <= k <= n ==> pages(k) == PageSlice(s, Offset(k, size), size)
    ensures Concatenated(pages, n) == AllPages(s, size, n)
  {
    if n > 0 {
      ConcatenatedSlices(pages, s, size, n - 1);
    }
  }

  /** Pages 1 through `n` are the first `n * size` rows (or all rows if fewer). */
  lemma {:induction false} AllPagesPrefix<T>(s: seq<T>, size: int, n: nat)
    requires size >= 1
    ensures AllPages(s, size, n) == s[..if n * size <= |s| then n * size else |s|]
  {
    if n > 0 {
      AllPagesPrefix(s, size, n - 1);
      var o := Offset(n, size);
      assert o == (n - 1) * size;
      assert n * size == o + size;
      var prev := if o <= |s| then o else |s|;
      var next := if n * size <= |s| then n * size else |s|;
      assert s[..next] == s[..prev] + s[prev..next];
    }
  }

  /** Listing pages 1 through the page count, in order, yields every row
      exactly once and in order. */
  lemma PagesCoverAll<T>(s: seq<T>, size: int)
    requires size >= 1
    ensures AllPages(s, size, PageCount(|s|, size)) == s
  {
    var n := PageCount(|s|, size);
    AllPagesPrefix(s, size, n);
    assert s[..|s|] == s;
  }

  /** A page past the last one is empty rather than an error. */
  lemma PageBeyondLastIsEmpty<T>(s: seq<T>, page: int, size: int)
    requires page >= 1 && size >= 1
    requires page > PageCount(|s|, size)
    ensures PageSlice(s, Offset(page, size), size) == []
  {
    var n := PageCount(|s|, size);
    var d := page - 1 - n;
    assert (page - 1) * size == n * size + d * size;
    ScaledBounds(d, size);
  }
}
