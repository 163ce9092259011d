/**
 * Pagination shared by the employee and timesheet tables: ten items per page,
 * pages numbered from 1, page `p` being `items.slice((p - 1) * 10, p * 10)`.
 */
module Paging {
  import opened Seqs

  /** `itemsPerPage` on both list pages. */
  const PageSize: nat := 10

  function Min(a: int, b: int): int { if a <= b then a else b }

  function Max(a: int, b: int): int { if a >= b then a else b }

  /** `Math.ceil(n / itemsPerPage)`: the fewest pages that hold `n` items. */
  function PageCount(n: nat): (c: nat)
    ensures c * PageSize >= n
    ensures c > 0 ==> (c - 1) * PageSize < n
    ensures c == 0 <==> n == 0
  {
    (n + PageSize - 1) / PageSize
  }

  /**
   * `items.slice((page - 1) * itemsPerPage, page * itemsPerPage)`. From page 1
   * on it is the contiguous block of at most ten items that starts at index
   * `(page - 1) * 10`; pages past the end are empty.
   */
  function PageOf<T>(items: seq<T>, page: int): (r: seq<T>)
    ensures |r| <= PageSize
    ensures page >= 1 ==> |r| == Max(0, Min(PageSize, |items| - (page - 1) * PageSize))
    ensures page >= 1 ==> forall k | 0 <= k < |r| :: r[k] == items[(page - 1) * PageSize + k]
  {
    Slice(items, (page - 1) * PageSize, page * PageSize)
  }

  /** Every item is on exactly the page its index says, at the position its index says. */
  lemma PagesCoverItems<T>(items: seq<T>, i: nat)
    requires i < |items|
    ensures 1 <= i / PageSize + 1 <= PageCount(|items|)
    ensures i % PageSize < |PageOf(items, i / PageSize + 1)|
    ensures PageOf(items, i / PageSize + 1)[i % PageSize] == items[i]
  {
    var p := i / PageSize + 1;
    assert (p - 1) * PageSize + i % PageSize == i;
  }

  /** Pages 1 .. PageCount are non-empty, every later page is empty. */
  lemma PageEmptyIffPastCount<T>(items: seq<T>, page: int)
    requires page >= 1
    ensures PageOf(items, page) == [] <==> page > PageCount(|items|)
  {
    var c := PageCount(|items|);
    if page > c {
      assert (page - 1) * PageSize >= c * PageSize;
    } else {
      assert (page - 1) * PageSize <= (c - 1) * PageSize;
    }
  }
}
