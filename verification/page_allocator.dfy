/**
 * The one-shot slot allocator (`PageAllocator`): a shuffled vector of slot
 * indices handed out in order as grid coordinates until it runs dry.
 */
module Allocation {
  import opened Wrappers
  import opened Permutations

  /** `glm::ivec2 pages`: the atlas grid size in pages. */
  datatype Dims = Dims(x: int, y: int)

  /** `PageAlloc`: the grid coordinates of one physical slot. */
  datatype PageAlloc = PageAlloc(x: int, y: int)

  datatype Allocator = Allocator(allocArr: seq<int>, pages: Dims, allocIdx: nat)

  const OutOfMemory: string := "Out of memory!"

  /** The state every constructed allocator is in. */
  predicate Valid(a: Allocator) {
    && 0 <= a.pages.x && 0 <= a.pages.y
    && |a.allocArr| == a.pages.x * a.pages.y
    && IsPermutation(a.allocArr, |a.allocArr|)
    && a.allocIdx <= |a.allocArr|
  }

  predicate InGrid(p: PageAlloc, pages: Dims) {
    0 <= p.x < pages.x && 0 <= p.y < pages.y
  }

  /** Row-major slot index of a cell. */
  function IndexOf(p: PageAlloc, pages: Dims): int {
    p.y * pages.x + p.x
  }

  lemma DivBelow(v: int, w: int, h: int)
    requires 0 <= v < w * h && 0 < w
    ensures 0 <= v / w < h
  {
  }

  lemma MulNonneg(a: int, b: int)
    requires 0 <= a && 0 <= b
    ensures 0 <= a * b
  {
  }

  lemma DivModOfIndex(x: int, y: int, w: int)
    requires 0 <= x < w && 0 <= y
    ensures (y * w + x) / w == y && (y * w + x) % w == x
  {
    var n := y * w + x;
    var q, r := n / w, n % w;
    assert w * (q - y) == x - r;
    if q > y {
      MulNonneg(w, q - y - 1);
    } else if q < y {
      MulNonneg(w, y - q - 1);
    }
  }

  lemma IndexBelow(p: PageAlloc, pages: Dims)
    requires InGrid(p, pages)
    ensures 0 <= IndexOf(p, pages) < pages.x * pages.y
  {
    MulNonneg(p.y, pages.x);
    MulNonneg(pages.y - 1 - p.y, pages.x);
  }

  /** The coordinates `(v % pages.x, v / pages.x)` of slot index `v`. */
  function SlotOf(v: int, pages: Dims): (p: PageAlloc)
    requires 0 <= v < pages.x * pages.y && 0 < pages.x
    ensures InGrid(p, pages)
    ensures IndexOf(p, pages) == v
  {
    DivBelow(v, pages.x, pages.y);
    PageAlloc(v % pages.x, v / pages.x)
  }

  /** Constructor: fill 0 .. x*y-1, then shuffle with the given draws. */
  method NewAllocator(pages: Dims, draws: seq<nat>) returns (a: Allocator)
    requires 0 <= pages.x && 0 <= pages.y && pages.x * pages.y <= 0x7FFF_FFFF
    requires |draws| == pages.x * pages.y
    requires forall i | 0 <= i < |draws| :: draws[i] <= i
    ensures Valid(a)
    ensures a.pages == pages && a.allocIdx == 0
  {
    var ident := Iota(pages.x * pages.y);
    IotaIsPermutation(ident);
    var arr := Shuffle(ident, draws);
    ShuffledIsPermutation(ident, arr, |ident|);
    a := Allocator(arr, pages, 0);
  }

  lemma ZeroWidthIsEmpty(a: Allocator)
    requires Valid(a) && a.pages.x == 0
    ensures |a.allocArr| == 0
  {
  }

  /**
   * `Alloc`: the next slot in permuted order, or "Out of memory!" once every
   * slot has been handed out, in which case nothing changes.
   */
  function Alloc(a: Allocator): (r: (Result<PageAlloc>, Allocator))
    requires Valid(a)
    ensures Valid(r.1)
    ensures r.0.Err? <==> a.allocIdx >= a.pages.x * a.pages.y
    ensures r.0.Err? ==> r.0.error == OutOfMemory && r.1 == a
    ensures r.0.Ok? ==> r.1 == a.(allocIdx := a.allocIdx + 1)
    ensures r.0.Ok? ==> InGrid(r.0.value, a.pages)
    ensures r.0.Ok? ==> IndexOf(r.0.value, a.pages) == a.allocArr[a.allocIdx]
  {
    if a.allocIdx >= |a.allocArr| then
      (Err(OutOfMemory), a)
    else
      assert a.pages.x != 0 by {
        if a.pages.x == 0 { ZeroWidthIsEmpty(a); }
      }
      var out := SlotOf(a.allocArr[a.allocIdx], a.pages);
      (Ok(out), a.(allocIdx := a.allocIdx + 1))
  }

  /** The outcomes of `k` consecutive `Alloc` calls and the final state. */
  function Run(a: Allocator, k: nat): (r: (seq<Result<PageAlloc>>, Allocator))
    requires Valid(a)
    ensures |r.0| == k && Valid(r.1)
    decreases k
  {
    if k == 0 then ([], a)
    else
      var (out, a1) := Alloc(a);
      var (outs, a2) := Run(a1, k - 1);
      ([out] + outs, a2)
  }

  /** What the `i`-th of a run of calls starting in `a` is expected to return. */
  function Expected(a: Allocator, i: nat): Result<PageAlloc>
    requires Valid(a)
  {
    if a.allocIdx + i < |a.allocArr| then
      assert a.pages.x != 0 by {
        if a.pages.x == 0 { ZeroWidthIsEmpty(a); }
      }
      Ok(SlotOf(a.allocArr[a.allocIdx + i], a.pages))
    else Err(OutOfMemory)
  }

  function Min(a: int, b: int): int { if a <= b then a else b }

  /**
   * Call `i` of a run returns the slot at permuted position `allocIdx + i`
   * while one is left and "Out of memory!" afterwards; the index stops at
   * the capacity and nothing else in the allocator ever changes.
   */
  lemma {:induction false} RunOutcomes(a: Allocator, k: nat)
    requires Valid(a)
    ensures forall i | 0 <= i < k :: Run(a, k).0[i] == Expected(a, i)
    ensures Run(a, k).1 == a.(allocIdx := Min(a.allocIdx + k, |a.allocArr|))
    decreases k
  {
    if k > 0 {
      var (out, a1) := Alloc(a);
      RunOutcomes(a1, k - 1);
      forall i | 0 <= i < k
        ensures Run(a, k).0[i] == Expected(a, i)
      {
        if i > 0 {
          assert Run(a, k).0[i] == Run(a1, k - 1).0[i - 1];
          if a.allocIdx < |a.allocArr| {
            assert Expected(a1, i - 1) == Expected(a, i);
          }
        }
      }
    }
  }

  /** From a fresh allocator exactly the first `pages.x * pages.y` calls succeed. */
  lemma SucceedsExactlyCapacity(a: Allocator, k: nat, i: nat)
    requires Valid(a) && a.allocIdx == 0
    requires i < k
    ensures Run(a, k).0[i].Ok? <==> i < a.pages.x * a.pages.y
  {
    RunOutcomes(a, k);
  }

  /** No two successful calls of a run return the same slot. */
  lemma RunDistinct(a: Allocator, k: nat, i: nat, j: nat)
    requires Valid(a)
    requires i < j < k
    requires Run(a, k).0[i].Ok? && Run(a, k).0[j].Ok?
    ensures Run(a, k).0[i].value != Run(a, k).0[j].value
  {
    RunOutcomes(a, k);
    var p := Run(a, k).0[i].value;
    var q := Run(a, k).0[j].value;
    assert IndexOf(p, a.pages) == a.allocArr[a.allocIdx + i];
    assert IndexOf(q, a.pages) == a.allocArr[a.allocIdx + j];
  }

  /**
   * A run of at least `pages.x * pages.y` calls from a fresh allocator
   * reaches every cell of the grid.
   */
  lemma RunCovers(a: Allocator, k: nat, cell: PageAlloc)
    requires Valid(a) && a.allocIdx == 0
    requires k >= a.pages.x * a.pages.y
    requires InGrid(cell, a.pages)
    ensures exists i | 0 <= i < a.pages.x * a.pages.y :: Run(a, k).0[i] == Ok(cell)
  {
    RunOutcomes(a, k);
    var v := IndexOf(cell, a.pages);
    DivModOfIndex(cell.x, cell.y, a.pages.x);
    IndexBelow(cell, a.pages);
    PermutationCovers(a.allocArr, |a.allocArr|, v);
    var i :| 0 <= i < |a.allocArr| && a.allocArr[i] == v;
    assert Run(a, k).0[i] == Expected(a, i);
    assert SlotOf(v, a.pages) == cell;
  }
}
