/** Page arithmetic: the store's inclusive `range(from, to)` window, 1-based pages of a
    fixed size, and `Math.ceil(count / size)` page counts. */
module Paging {

  function Min(a: int, b: int): int { if a <= b then a else b }
  function Max(a: int, b: int): int { if a <= b then b else a }

  /** `Math.ceil(n / d)` for a natural `n` and positive `d`. */
  function CeilDiv(n: nat, d: nat): (q: nat)
    requires d > 0
    ensures n <= q * d
    ensures n > 0 ==> (q - 1) * d < n
    ensures n == 0 <==> q == 0
  {
    var q := (n + d - 1) / d;
    var r := (n + d - 1) % d;
    assert n + d - 1 == q * d + r && 0 <= r < d;
    assert q * d - d == (q - 1) * d;
    q
  }

  /** `pages` pages of `size` rows are exactly enough for `n` rows: they hold all of them, one
      page fewer would not, and no rows need no pages. */
  predicate PageCountFor(n: nat, size: int, pages: nat)
  {
    && n <= pages * size
    && (pages > 0 ==> (pages - 1) * size < n)
    && (n == 0 <==> pages == 0)
  }

  /** Rows `from..to` (both inclusive) of `s`, as far as they exist. A window that starts
      past the end, or ends before it starts, is empty; a negative start is read as 0. */
  function Window<T>(s: seq<T>, from: int, to: int): (r: seq<T>)
    ensures |r| <= |s|
    ensures 0 <= from ==> |r| == Max(0, Min(to + 1, |s|) - from)
    ensures 0 <= from ==> forall k :: 0 <= k < |r| ==> r[k] == s[from + k]
    ensures from < 0 ==> forall k :: 0 <= k < |r| ==> r[k] == s[k]
    ensures |r| <= Max(0, to - Max(from, 0) + 1)
  {
    var lo := Min(Max(from, 0), |s|);
    var hi := Max(lo, Min(to + 1, |s|));
    s[lo..hi]
  }

  /** The store's answer for 1-based page `page` of `size` rows:
      `range((page - 1) * size, (page - 1) * size + size - 1)`. */
  function Page<T>(s: seq<T>, page: int, size: int): seq<T>
  {
    Window(s, (page - 1) * size, (page - 1) * size + size - 1)
  }

  /** Pages 1..n concatenated. */
  function Pages<T>(s: seq<T>, size: int, n: nat): seq<T>
  {
    if n == 0 then [] else Pages(s, size, n - 1) + Page(s, n, size)
  }

  /** A page holds the rows at offsets `(page - 1) * size` up to the next `size`, and never more. */
  lemma PageContents<T>(s: seq<T>, page: int, size: int)
    requires page >= 1 && size >= 1
    ensures |Page(s, page, size)| <= size
    ensures (page - 1) * size >= |s| ==> Page(s, page, size) == []
    ensures (page - 1) * size < |s| ==>
              Page(s, page, size) == s[(page - 1) * size..Min(page * size, |s|)]
  {
    assert (page - 1) * size + size == page * size;
    assert (page - 1) * size >= 0;
  }

  /** A page keeps the rows it takes from `s` and their relative order. */
  lemma PageOrder<T>(s: seq<T>, page: int, size: int, le: (T, T) -> bool)
    requires forall i, j :: 0 <= i < j < |s| ==> le(s[i], s[j])
    ensures forall x :: x in Page(s, page, size) ==> x in s
    ensures forall i, j :: 0 <= i < j < |Page(s, page, size)| ==> le(Page(s, page, size)[i], Page(s, page, size)[j])
  {
    var from := (page - 1) * size;
    var r := Page(s, page, size);
    if from >= 0 {
      assert forall k :: 0 <= k < |r| ==> r[k] == s[from + k];
    } else {
      assert forall k :: 0 <= k < |r| ==> r[k] == s[k];
    }
  }

  lemma MulStep(n: int, size: int)
    ensures n * size == (n - 1) * size + size
  {
  }

  /** A window of `size` rows starting at a non-negative offset. */
  lemma WindowFrom<T>(s: seq<T>, from: int, size: int)
    requires from >= 0 && size >= 1
    ensures from >= |s| ==> Window(s, from, from + size - 1) == []
    ensures from < |s| ==> Window(s, from, from + size - 1) == s[from..Min(from + size, |s|)]
  {
  }

  /** Appending the window at offset m to the first m rows gives the first m + size rows. */
  lemma PrefixStep<T>(s: seq<T>, m: int, size: int)
    requires m >= 0 && size >= 1
    ensures s[..Min(m, |s|)] + Window(s, m, m + size - 1) == s[..Min(m + size, |s|)]
  {
    WindowFrom(s, m, size);
    if m < |s| {
      var b := Min(m + size, |s|);
      assert s[..b] == s[..m] + s[m..b];
    }
  }

  /** The first n pages are exactly the first n * size rows. */
  lemma {:induction false} PagesPrefix<T>(s: seq<T>, size: int, n: nat)
    requires size >= 1
    ensures Pages(s, size, n) == s[..Min(n * size, |s|)]
  {
    if n > 0 {
      var m := (n - 1) * size;
      MulStep(n, size);
      PagesPrefix(s, size, n - 1);
      PrefixStep(s, m, size);
    }
  }

  /** Concatenating pages 1..ceil(|s| / size) gives back `s`: no row is skipped or repeated. */
  lemma {:induction false} PagingComplete<T>(s: seq<T>, size: int)
    requires size >= 1
    ensures Pages(s, size, CeilDiv(|s|, size)) == s
  {
    var n := CeilDiv(|s|, size);
    PagesPrefix(s, size, n);
    assert s[..|s|] == s;
  }

  /** The last page holds the remainder: |s| - (pages - 1) * size rows, between 1 and size. */
  lemma LastPage<T>(s: seq<T>, size: int)
    requires size >= 1 && |s| > 0
    ensures var n := CeilDiv(|s|, size);
            |Page(s, n, size)| == |s| - (n - 1) * size &&
            1 <= |Page(s, n, size)| <= size
  {
    var n := CeilDiv(|s|, size);
    PageContents(s, n, size);
    assert (n - 1) * size + size == n * size;
  }
}
