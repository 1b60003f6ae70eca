/**
 Offset paging over an already ordered result, as the repository applies it to a
 page request: page `index` of size `size` holds the items at positions
 `index * size` up to (excluding) `(index + 1) * size`.
 */
module Paging {

  function Min(a: int, b: int): int {
    if a <= b then a else b
  }

  /** The position of the first item of page `index`: `index` pages of `size` items come before it. */
  function Offset(index: nat, size: nat): nat {
    index * size
  }

  /** Page `index + 1` starts one page after page `index`. */
  lemma NextOffset(index: nat, size: nat)
    ensures Offset(index + 1, size) == Offset(index, size) + size
  {
    assert (index + 1) * size == index * size + size;
  }

  /** Later pages start no earlier. */
  lemma OffsetMonotonic(a: nat, b: nat, size: nat)
    requires a <= b
    ensures Offset(a, size) <= Offset(b, size)
  {
    assert b * size == a * size + (b - a) * size;
  }

  /** The number of pages needed to show `total` items, `size` per page. */
  function PageCount(total: nat, size: nat): (n: nat)
    requires size >= 1
    ensures total <= Offset(n, size)
    ensures n == 0 || Offset(n - 1, size) < total
  {
    var n := (total + size - 1) / size;
    if n == 0 then n
    else
      assert (total + size - 1) == n * size + (total + size - 1) % size;
      assert (n - 1) * size == n * size - size;
      n
  }

  /** One page of a result together with the paging counters reported to the caller. */
  datatype Page<T> = Page(content: seq<T>, number: nat, totalPages: nat, totalElements: nat)

  /** The (at most) `size` items of `all` from position `start` on. */
  function Window<T>(all: seq<T>, start: nat, size: nat): (w: seq<T>)
    ensures |w| == Min(size, if |all| <= start then 0 else |all| - start)
    ensures forall i :: 0 <= i < |w| ==> start + i < |all| && w[i] == all[start + i]
  {
    if |all| <= start then [] else all[start .. Min(|all|, start + size)]
  }

  /** Page `index` of `all`, `size` items per page. */
  function PageOf<T>(all: seq<T>, index: nat, size: nat): (p: Page<T>)
    requires size >= 1
    ensures p.number == index
    ensures p.totalElements == |all|
    ensures p.totalPages == PageCount(|all|, size)
    ensures |p.content| <= size
    // the page is the window of `all` starting at the page's offset
    ensures forall i :: 0 <= i < |p.content| ==> Offset(index, size) + i < |all| && p.content[i] == all[Offset(index, size) + i]
    // a page is full unless it reaches the end of the result
    ensures |p.content| == Min(size, if |all| <= Offset(index, size) then 0 else |all| - Offset(index, size))
  {
    Page(Window(all, Offset(index, size), size), index, PageCount(|all|, size), |all|)
  }

  /** The concatenation of pages `0 .. n - 1`. */
  function PagesBefore<T>(all: seq<T>, size: nat, n: nat): seq<T>
    requires size >= 1
  {
    if n == 0 then [] else PagesBefore(all, size, n - 1) + Window(all, Offset(n - 1, size), size)
  }

  /** A prefix of `all` followed by the window that starts where it ends is a longer prefix. */
  lemma PrefixThenWindow<T>(all: seq<T>, start: nat, size: nat)
    ensures all[..Min(|all|, start)] + Window(all, start, size) == all[..Min(|all|, start + size)]
  {
    if start < |all| {
      assert all[..start] + all[start..Min(|all|, start + size)] == all[..Min(|all|, start + size)];
    }
  }

  /** The first `n` pages together are exactly the items before page `n` (or all of them). */
  lemma {:induction false} PagesBeforeIsPrefix<T>(all: seq<T>, size: nat, n: nat)
    requires size >= 1
    ensures PagesBefore(all, size, n) == all[..Min(|all|, Offset(n, size))]
  {
    if n > 0 {
      PagesBeforeIsPrefix(all, size, n - 1);
      PrefixThenWindow(all, Offset(n - 1, size), size);
      NextOffset(n - 1, size);
    }
  }

  /** Walking every reported page in order yields the whole result exactly once. */
  lemma PagesCoverAll<T>(all: seq<T>, size: nat)
    requires size >= 1
    ensures PagesBefore(all, size, PageCount(|all|, size)) == all
  {
    var n := PageCount(|all|, size);
    PagesBeforeIsPrefix(all, size, n);
    assert all[..|all|] == all;
  }

  /** Pages past the reported page count are empty. */
  lemma PagesPastEndAreEmpty<T>(all: seq<T>, index: nat, size: nat)
    requires size >= 1 && index >= PageCount(|all|, size)
    ensures PageOf(all, index, size).content == []
  {
    OffsetMonotonic(PageCount(|all|, size), index, size);
  }
}
