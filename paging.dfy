/** Spring Data pagination: a page request and the page a query returns for it. */
module Paging {

  /** `PageRequest.of` refuses a page size below one. */
  type PageSize = n: nat | n >= 1 witness 1

  /** `Pageable`: either `Pageable.unpaged()` or a zero-based page index with a size. */
  datatype Pageable = Unpaged | PageRequest(page: nat, size: PageSize)

  /** `Page<T>`: the content of one page, the number of matches in all, and the request. */
  datatype Page<T> = Page(content: seq<T>, total: nat, pageable: Pageable)

  function Min(a: int, b: int): int
  {
    if a <= b then a else b
  }

  /** `Pageable.getOffset()`: the index of the first entry of page `page`, counted one page at a
      time. */
  function Offset(page: nat, size: nat): nat
  {
    if page == 0 then 0 else Offset(page - 1, size) + size
  }

  /** The offset is `page * size`. */
  lemma {:induction false} OffsetIsProduct(page: nat, size: nat)
    ensures Offset(page, size) == page * size
  {
    if page > 0 {
      OffsetIsProduct(page - 1, size);
      assert (page - 1) * size + size == page * size;
    }
  }

  /** The page `p` selects from the full, ordered list of `matches`. */
  function PageOf<T>(matches: seq<T>, p: Pageable): (r: Page<T>)
    ensures r.total == |matches| && r.pageable == p
    ensures p.Unpaged? ==> r.content == matches
    ensures p.PageRequest? ==> |r.content| <= p.size
    ensures forall i :: 0 <= i < |r.content| ==> r.content[i] in matches
  {
    match p
    case Unpaged => Page(matches, |matches|, p)
    case PageRequest(page, size) =>
      var lo := Min(Offset(page, size), |matches|);
      var hi := Min(Offset(page, size) + size, |matches|);
      Page(matches[lo..hi], |matches|, p)
  }

  /** Page `page` of size `size` is the slice of the matches from index `page * size` up to, but
      excluding, `(page + 1) * size`, both cut at the number of matches. */
  lemma PageIsSlice<T>(matches: seq<T>, page: nat, size: PageSize)
    ensures var n, o := |matches|, page * size;
      PageOf(matches, PageRequest(page, size)).content == matches[Min(o, n)..Min(o + size, n)]
  {
    OffsetIsProduct(page, size);
  }

  /** `Page.map`: converts the content and keeps the total and the request. */
  function MapPage<T, U>(pg: Page<T>, f: T -> U): (r: Page<U>)
    ensures |r.content| == |pg.content| && r.total == pg.total && r.pageable == pg.pageable
    ensures forall i :: 0 <= i < |pg.content| ==> r.content[i] == f(pg.content[i])
  {
    Page(seq(|pg.content|, i requires 0 <= i < |pg.content| => f(pg.content[i])), pg.total, pg.pageable)
  }

  /** The contents of pages `0 .. k - 1` of size `size`, one after another. */
  function FirstPages<T>(matches: seq<T>, size: PageSize, k: nat): seq<T>
  {
    if k == 0 then [] else FirstPages(matches, size, k - 1) + PageOf(matches, PageRequest(k - 1, size)).content
  }

  lemma PrefixThenSlice<T>(s: seq<T>, lo: nat, hi: nat)
    requires lo <= hi <= |s|
    ensures s[..lo] + s[lo..hi] == s[..hi]
  {
  }

  /** Page `k - 1` is the slice of the matches between the offsets of pages `k - 1` and `k`. */
  lemma NextPage<T>(matches: seq<T>, size: PageSize, k: nat)
    requires k > 0
    ensures var n, o := |matches|, Offset(k - 1, size);
      && Offset(k, size) == o + size
      && FirstPages(matches, size, k) == FirstPages(matches, size, k - 1) + matches[Min(o, n)..Min(o + size, n)]
  {
  }

  /** The first `k` pages are the matches up to the offset of page `k`. */
  lemma {:induction false} FirstPagesUpToOffset<T>(matches: seq<T>, size: PageSize, k: nat)
    ensures FirstPages(matches, size, k) == matches[..Min(Offset(k, size), |matches|)]
  {
    if k > 0 {
      var n, o := |matches|, Offset(k - 1, size);
      var lo, hi := Min(o, n), Min(o + size, n);
      FirstPagesUpToOffset(matches, size, k - 1);
      NextPage(matches, size, k);
      PrefixThenSlice(matches, lo, hi);
    }
  }

  /** Pages tile the match list: the first `k` pages together are its first `k * size` entries
      (or all of it), so no match is skipped or repeated. */
  lemma FirstPagesArePrefix<T>(matches: seq<T>, size: PageSize, k: nat)
    ensures FirstPages(matches, size, k) == matches[..Min(k * size, |matches|)]
  {
    FirstPagesUpToOffset(matches, size, k);
    OffsetIsProduct(k, size);
  }

  /** Enough pages reproduce the whole match list. */
  lemma AllPagesCoverMatches<T>(matches: seq<T>, size: PageSize, k: nat)
    requires k * size >= |matches|
    ensures FirstPages(matches, size, k) == matches
  {
    FirstPagesArePrefix(matches, size, k);
  }

  /** Five matches in pages of two: two, two and one, then nothing; the total is five each time. */
  lemma FiveInPagesOfTwo<T>(matches: seq<T>)
    requires |matches| == 5
    ensures |PageOf(matches, PageRequest(0, 2)).content| == 2
    ensures |PageOf(matches, PageRequest(1, 2)).content| == 2
    ensures |PageOf(matches, PageRequest(2, 2)).content| == 1
    ensures |PageOf(matches, PageRequest(3, 2)).content| == 0
    ensures forall k: nat :: PageOf(matches, PageRequest(k, 2)).total == 5
  {
  }
}
