/** Fixed-size pagination of a list: five items per page, pages numbered from 1 on screen. */
module Paging {

  const PageSize: nat := 5

  /** `Math.ceil(n / PageSize)`: the fewest pages that hold `n` items. */
  function TotalPages(n: nat): (t: nat)
    ensures t * PageSize >= n
    ensures t == 0 || (t - 1) * PageSize < n
    ensures t == 0 <==> n == 0
  {
    (n + PageSize - 1) / PageSize
  }

  /** Where a relative index of `Array.prototype.slice` lands: negative counts from the end,
      and the result is clamped to `[0, len]`. */
  function SliceIndex(i: int, len: nat): (r: nat)
    ensures r <= len
    ensures 0 <= i ==> r == if i < len then i else len
    ensures i < 0 ==> r == if len + i < 0 then 0 else len + i
  {
    if i < 0 then (if len + i < 0 then 0 else len + i)
    else if i > len then len
    else i
  }

  /** `s.slice(start, end)`. */
  function Slice<T>(s: seq<T>, start: int, end: int): (r: seq<T>)
    ensures start <= end ==> |r| <= end - start
    ensures 0 <= start <= end ==> r == s[SliceIndex(start, |s|)..SliceIndex(end, |s|)]
  {
    var a, b := SliceIndex(start, |s|), SliceIndex(end, |s|);
    if a < b then s[a..b] else []
  }

  function Min(a: nat, b: nat): nat {
    if a < b then a else b
  }

  /** Page `k` counted from 0: the items at indices `[k * PageSize, (k + 1) * PageSize)`. */
  function Page<T>(s: seq<T>, k: nat): (r: seq<T>)
    ensures |r| <= PageSize
    ensures k < TotalPages(|s|) <==> r != []
  {
    s[Min(k * PageSize, |s|)..Min((k + 1) * PageSize, |s|)]
  }

  /** The items shown on page `currentPage` counted from 1:
      `s.slice((currentPage - 1) * PageSize, currentPage * PageSize)`. */
  function Current<T>(s: seq<T>, currentPage: int): (r: seq<T>)
    ensures |r| <= PageSize
    ensures currentPage >= 1 ==> r == Page(s, currentPage - 1)
  {
    Slice(s, (currentPage - 1) * PageSize, currentPage * PageSize)
  }

  /** Pages `0 .. n - 1` one after another. */
  function Pages<T>(s: seq<T>, n: nat): seq<T>
    decreases n
  {
    if n == 0 then [] else Pages(s, n - 1) + Page(s, n - 1)
  }

  lemma {:induction false} PagesPrefix<T>(s: seq<T>, n: nat)
    ensures Pages(s, n) == s[..Min(n * PageSize, |s|)]
    decreases n
  {
    if n > 0 {
      PagesPrefix(s, n - 1);
      var a, b := Min((n - 1) * PageSize, |s|), Min(n * PageSize, |s|);
      assert s[..a] + s[a..b] == s[..b];
    }
  }

  /** Reading pages 1 to `TotalPages` in turn shows every item exactly once, in order. */
  lemma PagesCoverAll<T>(s: seq<T>)
    ensures Pages(s, TotalPages(|s|)) == s
  {
    PagesPrefix(s, TotalPages(|s|));
    assert s[..|s|] == s;
  }
}
