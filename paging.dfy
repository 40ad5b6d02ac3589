/**
 * `PagingExtension.GetPageAsync`: one-based paging of an (ordered) query. The page number is
 * checked first, then the page size; the page is the slice `Skip(skip).Take(pageSize)` with
 * `skip = pageSize * (pageNumber - 1)`. The source rounds `skip` up with `Math.Ceiling` after a
 * conversion to `decimal`; the value is already an integer, so the rounding changes nothing.
 * Arithmetic is unbounded here (32-bit overflow of the product is not modelled).
 */
module Paging {
  import opened Common
  import opened Linq

  const PageNumberMessage := "PageNumber should be a positive number!"
  const PageSizeMessage := "PageSize should be a positive number!"

  /**
   * The number of elements in `pages` full pages, counted page by page; it is
   * `pages * pageSize` (`OffsetIsProduct`). Contracts use it instead of the product so that
   * their proofs stay linear.
   */
  function Offset(pageSize: nat, pages: nat): nat
  {
    if pages == 0 then 0 else Offset(pageSize, pages - 1) + pageSize
  }

  lemma {:induction false} OffsetIsProduct(pageSize: nat, pages: nat)
    ensures Offset(pageSize, pages) == pages * pageSize == pageSize * pages
  {
    if pages > 0 {
      OffsetIsProduct(pageSize, pages - 1);
      assert pages * pageSize == (pages - 1) * pageSize + pageSize;
    }
  }

  /**
   * The page, or the message of the exception thrown for a bad argument. A valid page is the run
   * of at most `pageSize` elements starting at `skip = pageSize * (pageNumber - 1)` (written
   * `Offset(pageSize, pageNumber - 1)`), cut short by the end of the input.
   */
  function GetPage<T>(s: seq<T>, pageSize: int, pageNumber: int): (r: Result<seq<T>, string>)
    ensures pageNumber < 1 ==> r == Err(PageNumberMessage)
    ensures pageNumber >= 1 && pageSize < 1 ==> r == Err(PageSizeMessage)
    ensures pageNumber >= 1 && pageSize >= 1 ==>
      var skip := Offset(pageSize, pageNumber - 1);
      r == Ok(s[Min(skip, |s|)..Min(skip + pageSize, |s|)])
  {
    if pageNumber < 1 then Err(PageNumberMessage)
    else if pageSize < 1 then Err(PageSizeMessage)
    else
      var skip := pageSize * (pageNumber - 1);
      OffsetIsProduct(pageSize, pageNumber - 1);
      SkipTakeIsSlice(s, skip, pageSize);
      Ok(Take(Skip(s, skip), pageSize))
  }

  /** `Skip(skip).Take(count)` for non-negative arguments is a slice of the input. */
  lemma SkipTakeIsSlice<T>(s: seq<T>, skip: nat, count: nat)
    ensures Take(Skip(s, skip), count) == s[Min(skip, |s|)..Min(skip + count, |s|)]
  {
    var rest := Skip(s, skip);
    assert rest == s[Min(skip, |s|)..];
  }

  /** The first page is a prefix of the input. */
  lemma FirstPageIsPrefix<T>(s: seq<T>, pageSize: int)
    requires pageSize >= 1
    ensures GetPage(s, pageSize, 1) == Ok(s[..Min(pageSize, |s|)])
  {
    assert Offset(pageSize, 0) == 0;
  }

  /** Pages `1..k` of the input, concatenated in order. */
  function Pages<T>(s: seq<T>, pageSize: int, k: nat): seq<T>
    requires pageSize >= 1
  {
    if k == 0 then [] else Pages(s, pageSize, k - 1) + GetPage(s, pageSize, k).value
  }

  /**
   * Pages are contiguous and do not overlap: the first `k` pages together are exactly the prefix
   * of length `min(k * pageSize, |s|)`.
   */
  lemma PagesArePrefix<T>(s: seq<T>, pageSize: int, k: nat)
    requires pageSize >= 1
    ensures Pages(s, pageSize, k) == s[..Min(k * pageSize, |s|)]
  {
    PagesAreRunningPrefix(s, pageSize, k);
    OffsetIsProduct(pageSize, k);
  }

  lemma {:induction false} PagesAreRunningPrefix<T>(s: seq<T>, pageSize: int, k: nat)
    requires pageSize >= 1
    ensures Pages(s, pageSize, k) == s[..Min(Offset(pageSize, k), |s|)]
  {
    if k > 0 {
      var before, after := Min(Offset(pageSize, k - 1), |s|), Min(Offset(pageSize, k), |s|);
      PagesAreRunningPrefix(s, pageSize, k - 1);
      AdjacentSlices(s, before, after);
    }
  }

  lemma AdjacentSlices<T>(s: seq<T>, i: nat, j: nat)
    requires i <= j <= |s|
    ensures s[..i] + s[i..j] == s[..j]
  {
  }
}
