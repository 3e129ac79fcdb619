/** Pagination: `paginate` splits an array, in order, into pages of a given
    size, the last of which may be shorter. */
module Pagination {
  import opened Arith

  /** The number of pages `n` elements fill: the ceiling of `n / size`. */
  function PageCount(n: nat, size: nat): nat
    requires size > 0
  {
    (n + size - 1) / size
  }

  /** `pages` is the first `n` elements of `arr` cut into pages of `size`:
      as many pages as they fill, and page `j` holds the elements from
      `j * size` up to the next multiple of `size` or to `n`. */
  ghost predicate PagedUpTo<T>(arr: seq<T>, size: nat, n: nat, pages: seq<seq<T>>)
    requires size > 0 && n <= |arr|
  {
    |pages| == PageCount(n, size) &&
    forall j :: 0 <= j < |pages| ==> PageHolds(arr, size, n, pages, j)
  }

  /** Page `j` starts before `n` and holds the elements from `j * size` up to
      the next multiple of `size` or to `n`. */
  ghost predicate PageHolds<T>(arr: seq<T>, size: nat, n: nat, pages: seq<seq<T>>, j: nat)
    requires n <= |arr| && j < |pages|
  {
    j * size < n && pages[j] == arr[j * size..Min(j * size + size, n)]
  }

  /** `pages` is `arr` cut into pages of `size`. */
  ghost predicate IsPaging<T>(arr: seq<T>, size: nat, pages: seq<seq<T>>)
    requires size > 0
  {
    PagedUpTo(arr, size, |arr|, pages)
  }

  /** Facts about the page count of `n` elements, and of `n + 1`. */
  lemma PageCountStep(n: nat, size: nat)
    requires size > 0
    ensures PageCount(n, size) * size >= n
    ensures n > 0 ==> (PageCount(n, size) - 1) * size < n
    ensures n % size == 0 ==> PageCount(n, size) == n / size && PageCount(n + 1, size) == n / size + 1
    ensures n % size != 0 ==> PageCount(n, size) == n / size + 1 && PageCount(n + 1, size) == PageCount(n, size)
  {
    if n % size == 0 {
      PageCountExact(n, size);
    } else {
      PageCountPartial(n, size);
    }
  }

  /** A multiple of the page size fills its pages exactly. */
  lemma PageCountExact(n: nat, size: nat)
    requires size > 0 && n % size == 0
    ensures PageCount(n, size) == n / size && PageCount(n + 1, size) == n / size + 1
    ensures PageCount(n, size) * size == n
  {
    var q := n / size;
    assert n == q * size;
    DivUnique(n + size - 1, size, q, size - 1);
    assert n + size == (q + 1) * size;
    DivUnique(n + size, size, q + 1, 0);
  }

  /** Any other count leaves its last page partly filled. */
  lemma PageCountPartial(n: nat, size: nat)
    requires size > 0 && n % size != 0
    ensures PageCount(n, size) == n / size + 1 && PageCount(n + 1, size) == PageCount(n, size)
    ensures (PageCount(n, size) - 1) * size < n < PageCount(n, size) * size
  {
    var q, r := n / size, n % size;
    assert n == q * size + r;
    assert n + size - 1 == (q + 1) * size + (r - 1);
    DivUnique(n + size - 1, size, q + 1, r - 1);
    assert n + size == (q + 1) * size + r;
    DivUnique(n + size, size, q + 1, r);
  }

  /** Earlier pages are full and end before element `i`. */
  lemma EarlierPagesFull(size: nat, i: nat, j: nat)
    requires size > 0 && j < i / size
    ensures j * size + size <= i
  {
    MulLe(j + 1, i / size, size);
    assert i == (i / size) * size + i % size;
  }

  /** Element `i` at a page boundary starts a new page. */
  lemma StartPage<T>(arr: seq<T>, size: nat, i: nat, pages: seq<seq<T>>)
    requires size > 0 && i < |arr| && PagedUpTo(arr, size, i, pages)
    requires i % size == 0
    ensures i / size == |pages|
    ensures PagedUpTo(arr, size, i + 1, pages + [[arr[i]]])
  {
    PageCountStep(i, size);
    var idx := i / size;
    var pages' := pages + [[arr[i]]];
    assert i == idx * size + i % size;
    assert idx * size == i;
    assert |pages'| == PageCount(i + 1, size);
    assert Min(i + size, i + 1) == i + 1;
    assert pages'[idx] == [arr[i]] == arr[idx * size..Min(idx * size + size, i + 1)];
    var next := i + 1;
    forall j | 0 <= j < |pages'|
      ensures PageHolds(arr, size, next, pages', j)
    {
      if j < idx {
        EarlierPagesFull(size, i, j);
        assert PageHolds(arr, size, i, pages, j);
        assert pages'[j] == pages[j];
      } else {
        assert j == idx;
      }
    }
  }

  /** Element `i` inside a page extends the last page. */
  lemma ExtendPage<T>(arr: seq<T>, size: nat, i: nat, pages: seq<seq<T>>)
    requires size > 0 && i < |arr| && PagedUpTo(arr, size, i, pages)
    requires i % size != 0
    ensures i / size == |pages| - 1
    ensures PagedUpTo(arr, size, i + 1, pages[i / size := pages[i / size] + [arr[i]]])
  {
    PageCountStep(i, size);
    var idx := i / size;
    var pages' := pages[idx := pages[idx] + [arr[i]]];
    assert i == idx * size + i % size;
    assert idx * size < i < i + 1 <= idx * size + size;
    var next := i + 1;
    forall j | 0 <= j < |pages'|
      ensures PageHolds(arr, size, next, pages', j)
    {
      if j < idx {
        EarlierPagesFull(size, i, j);
        assert PageHolds(arr, size, i, pages, j);
        assert pages'[j] == pages[j];
      } else {
        assert j == idx;
        assert PageHolds(arr, size, i, pages, idx);
        assert pages[idx] == arr[idx * size..i];
      }
    }
  }

  /** `paginate(arr, size)` for a positive whole page size: for each element in
      turn, the page it belongs to is extended, or started when it does not
      exist yet. */
  method Paginate<T>(arr: seq<T>, size: nat) returns (pages: seq<seq<T>>)
    requires size > 0
    ensures IsPaging(arr, size, pages)
  {
    pages := [];
    for i := 0 to |arr|
      invariant PagedUpTo(arr, size, i, pages)
    {
      var idx := i / size;
      if i % size == 0 {
        StartPage(arr, size, i, pages);
      } else {
        ExtendPage(arr, size, i, pages);
      }
      if idx < |pages| {
        pages := pages[idx := pages[idx] + [arr[i]]];
      } else {
        assert idx == |pages|;
        pages := pages + [[arr[i]]];
      }
    }
  }

  // ---------------------------------------------------------------------------
  // What a paging promises.

  /** The pages laid end to end. */
  function Flatten<T>(pages: seq<seq<T>>): seq<T> {
    if pages == [] then [] else Flatten(pages[..|pages| - 1]) + pages[|pages| - 1]
  }

  lemma {:induction false} FlattenPrefix<T>(arr: seq<T>, size: nat, pages: seq<seq<T>>, k: nat)
    requires size > 0 && IsPaging(arr, size, pages) && k <= |pages|
    ensures Flatten(pages[..k]) == arr[..Min(k * size, |arr|)]
  {
    if k > 0 {
      FlattenPrefix(arr, size, pages, k - 1);
      FlattenStep(arr, size, pages, k - 1);
    } else {
      assert pages[..0] == [];
      assert arr[..Min(0, |arr|)] == [];
    }
  }

  /** Adding page `j` to the first `j` pages extends their elements by the
      next `size` elements of the array, or by what is left of it. */
  lemma FlattenStep<T>(arr: seq<T>, size: nat, pages: seq<seq<T>>, j: nat)
    requires size > 0 && IsPaging(arr, size, pages) && j < |pages|
    requires Flatten(pages[..j]) == arr[..Min(j * size, |arr|)]
    ensures Flatten(pages[..j + 1]) == arr[..Min((j + 1) * size, |arr|)]
  {
    var start := j * size;
    assert PageHolds(arr, size, |arr|, pages, j);
    var end := Min(start + size, |arr|);
    assert (j + 1) * size == start + size;
    assert pages[..j + 1][..j] == pages[..j];
    assert Flatten(pages[..j + 1]) == Flatten(pages[..j]) + pages[j];
    assert arr[..end] == arr[..start] + arr[start..end];
  }

  /** Laid end to end, the pages give back the array, in order. */
  lemma PagesConcatenate<T>(arr: seq<T>, size: nat, pages: seq<seq<T>>)
    requires size > 0 && IsPaging(arr, size, pages)
    ensures Flatten(pages) == arr
  {
    FlattenPrefix(arr, size, pages, |pages|);
    PageCountStep(|arr|, size);
    assert pages[..|pages|] == pages;
  }

  lemma InnerPageFull<T>(arr: seq<T>, size: nat, pages: seq<seq<T>>, j: nat)
    requires size > 0 && IsPaging(arr, size, pages) && j < |pages| - 1
    ensures |pages[j]| == size
  {
    PageCountStep(|arr|, size);
    MulLe(j + 1, |pages| - 1, size);
    var start := j * size;
    assert (j + 1) * size == start + size;
    assert start + size < |arr|;
    assert PageHolds(arr, size, |arr|, pages, j);
  }

  /** Every page but the last is full, the last holds between one and `size`
      elements, there are `ceil(|arr| / size)` pages, and an empty array has
      no pages at all. */
  lemma PageSizes<T>(arr: seq<T>, size: nat, pages: seq<seq<T>>)
    requires size > 0 && IsPaging(arr, size, pages)
    ensures |pages| == (|arr| + size - 1) / size
    ensures pages == [] <==> arr == []
    ensures forall j :: 0 <= j < |pages| - 1 ==> |pages[j]| == size
    ensures pages != [] ==> 1 <= |pages[|pages| - 1]| <= size
  {
    PageCountStep(|arr|, size);
    forall j | 0 <= j < |pages| - 1
      ensures |pages[j]| == size
    {
      InnerPageFull(arr, size, pages, j);
    }
    if arr != [] {
      assert |pages| >= 1;
      assert PageHolds(arr, size, |arr|, pages, |pages| - 1);
    }
  }

  /** The examples the test suite checks. */
  lemma PaginateExamples(pages: seq<seq<int>>, pages': seq<seq<int>>, empty: seq<seq<int>>)
    requires IsPaging([1, 2, 3, 4, 5, 6, 7, 8, 9], 5, pages)
    requires IsPaging([1, 2, 3, 4], 3, pages')
    requires IsPaging([], 3, empty)
    ensures pages == [[1, 2, 3, 4, 5], [6, 7, 8, 9]]
    ensures pages' == [[1, 2, 3], [4]]
    ensures empty == []
  {
    var nine := [1, 2, 3, 4, 5, 6, 7, 8, 9];
    assert PageCount(9, 5) == 2 && |pages| == 2;
    assert PageHolds(nine, 5, 9, pages, 0) && PageHolds(nine, 5, 9, pages, 1);
    assert pages[0] == nine[0..Min(0 * 5 + 5, 9)] == [1, 2, 3, 4, 5];
    assert pages[1] == nine[1 * 5..Min(1 * 5 + 5, 9)] == [6, 7, 8, 9];
    assert pages == [pages[0], pages[1]];
    var four := [1, 2, 3, 4];
    assert PageCount(4, 3) == 2 && |pages'| == 2;
    assert PageHolds(four, 3, 4, pages', 0) && PageHolds(four, 3, 4, pages', 1);
    assert pages'[0] == four[0..Min(0 * 3 + 3, 4)] == [1, 2, 3];
    assert pages'[1] == four[1 * 3..Min(1 * 3 + 3, 4)] == [4];
    assert pages' == [pages'[0], pages'[1]];
  }

  /** The test-suite pagings of 10 elements by 5 and of 5 elements by 3. */
  lemma PaginateEvenExamples(pages: seq<seq<int>>, pages': seq<seq<int>>)
    requires IsPaging([1, 2, 3, 4, 5, 6, 7, 8, 9, 10], 5, pages)
    requires IsPaging([1, 2, 3, 4, 5], 3, pages')
    ensures pages == [[1, 2, 3, 4, 5], [6, 7, 8, 9, 10]]
    ensures pages' == [[1, 2, 3], [4, 5]]
  {
    var ten := [1, 2, 3, 4, 5, 6, 7, 8, 9, 10];
    assert PageCount(10, 5) == 2 && |pages| == 2;
    assert PageHolds(ten, 5, 10, pages, 0) && PageHolds(ten, 5, 10, pages, 1);
    assert pages[0] == ten[0..Min(0 * 5 + 5, 10)] == [1, 2, 3, 4, 5];
    assert pages[1] == ten[1 * 5..Min(1 * 5 + 5, 10)] == [6, 7, 8, 9, 10];
    assert pages == [pages[0], pages[1]];
    var five := [1, 2, 3, 4, 5];
    assert PageCount(5, 3) == 2 && |pages'| == 2;
    assert PageHolds(five, 3, 5, pages', 0) && PageHolds(five, 3, 5, pages', 1);
    assert pages'[0] == five[0..Min(0 * 3 + 3, 5)] == [1, 2, 3];
    assert pages'[1] == five[1 * 3..Min(1 * 3 + 3, 5)] == [4, 5];
    assert pages' == [pages'[0], pages'[1]];
  }

  /** The documented paging of five elements by 2. */
  lemma PaginateDocumentedExample(pages: seq<seq<int>>)
    requires IsPaging([1, 2, 3, 4, 5], 2, pages)
    ensures pages == [[1, 2], [3, 4], [5]]
  {
    var five := [1, 2, 3, 4, 5];
    assert PageCount(5, 2) == 3 && |pages| == 3;
    assert PageHolds(five, 2, 5, pages, 0) && PageHolds(five, 2, 5, pages, 1);
    assert PageHolds(five, 2, 5, pages, 2);
    assert pages[0] == five[0..Min(0 * 2 + 2, 5)] == [1, 2];
    assert pages[1] == five[1 * 2..Min(1 * 2 + 2, 5)] == [3, 4];
    assert pages[2] == five[2 * 2..Min(2 * 2 + 2, 5)] == [5];
    assert pages == [pages[0], pages[1], pages[2]];
  }
}
