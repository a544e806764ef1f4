/**
 * The page arithmetic shared by the consumer listing and the product listing:
 * an OFFSET/LIMIT (or Python slice) window and the page count
 * `(total + page_size - 1) // page_size or 1`.
 */
module Paging {

  /** A paginated response: one page of rows and the numbers that describe it. */
  datatype Page<T> = Page(data: seq<T>, total: nat, page: nat, pageSize: nat, totalPages: nat)

  function Min(a: int, b: int): int { if a <= b then a else b }

  function Max(a: int, b: int): int { if a >= b then a else b }

  /** Rows `offset .. offset + limit` of `xs`, clamped to its end. */
  function Slice<T>(xs: seq<T>, offset: nat, limit: nat): (r: seq<T>)
    ensures |r| == Max(0, Min(limit, |xs| - offset))
    ensures forall i | 0 <= i < |r| :: offset + i < |xs| && r[i] == xs[offset + i]
  {
    if offset >= |xs| then [] else xs[offset .. Min(offset + limit, |xs|)]
  }

  /** The offset of 1-based page `page` when every page holds `size` rows. */
  function PageStart(page: nat, size: nat): nat
    requires page >= 1
  {
    (page - 1) * size
  }

  /** The number of pages needed for `total` rows, never less than one. */
  function TotalPages(total: nat, size: nat): (r: nat)
    requires size >= 1
    ensures r >= 1
    ensures total == 0 ==> r == 1
    ensures total > 0 ==> (r - 1) * size < total <= r * size
  {
    var q := (total + size - 1) / size;
    CeilingDivision(total, size);
    if q == 0 then 1 else q
  }

  /** `(total + size - 1) / size` is the ceiling of `total / size`. */
  lemma CeilingDivision(total: nat, size: nat)
    requires size >= 1
    ensures total == 0 ==> (total + size - 1) / size == 0
    ensures total > 0 ==> var q := (total + size - 1) / size;
                          q >= 1 && (q - 1) * size < total <= q * size
  {
    var n := total + size - 1;
    var q := n / size;
    var m := n % size;
    assert n == q * size + m && 0 <= m < size;
    if total > 0 {
      assert q * size <= n;
      assert n < (q + 1) * size;
      assert (q - 1) * size == q * size - size;
    }
  }

  /** Any page after the last one is empty. */
  lemma {:induction false} PastLastPageEmpty<T>(xs: seq<T>, page: nat, size: nat)
    requires size >= 1 && page > TotalPages(|xs|, size)
    ensures Slice(xs, PageStart(page, size), size) == []
  {
    var tp := TotalPages(|xs|, size);
    assert page - 1 >= tp;
    assert tp * size <= (page - 1) * size;
    assert |xs| <= tp * size;
  }
}
