/** `sort_indices` of src/c/core.c: an in-place heapsort of one
    type-contiguous segment of the index buffer, ordering the segment's
    slot ids by non-increasing radius of the records they name. The kernel
    builds a min-heap by sifting each new entry up, then repeatedly swaps the
    smallest entry to the end of the shrinking heap and sifts the new root
    down. */
module KernelSort {
  import opened Cells

  /** The radius the ordering compares: that of the record a slot id names. */
  function R(cells: seq<CellRec>, id: int): (r: real) {
    if 0 <= id < |cells| then cells[id].r else 0.0
  }

  /** The C parent index `(j - 1) / 2`, which truncates toward zero, so the
      root is its own parent. */
  function Parent(j: nat): (p: nat)
    ensures j > 0 ==> p < j && (j == 2 * p + 1 || j == 2 * p + 2)
    ensures j == 0 ==> p == 0
  {
    if j == 0 then 0 else (j - 1) / 2
  }

  /** The heap edge into entry `c` is ordered: no parent is larger than
      its child. */
  ghost predicate Edge(cells: seq<CellRec>, s: seq<int>, c: nat)
    requires c < |s|
  {
    R(cells, s[Parent(c)]) <= R(cells, s[c])
  }

  /** Entry `x` of `s` is no larger than entry `y`. */
  ghost predicate Below(cells: seq<CellRec>, s: seq<int>, x: nat, y: nat)
    requires x < |s| && y < |s|
  {
    R(cells, s[x]) <= R(cells, s[y])
  }

  /** The first `m` entries of `s` form a min-heap on the radius. */
  ghost predicate MinHeap(cells: seq<CellRec>, s: seq<int>, m: nat)
    requires m <= |s|
  {
    forall c {:trigger Edge(cells, s, c)} :: 1 <= c < m ==> Edge(cells, s, c)
  }

  /** Every entry from `lo` to `hi` is at least as large as every later one. */
  ghost predicate Descending(cells: seq<CellRec>, s: seq<int>, lo: nat, hi: nat)
    requires lo <= hi <= |s|
  {
    forall p, q :: lo <= p < q < hi ==> R(cells, s[p]) >= R(cells, s[q])
  }

  /** Exchange two entries of the segment, as the source does through `t`. */
  method Swap(a: array<int>, x: nat, y: nat)
    requires x < a.Length && y < a.Length
    modifies a
    ensures a[..] == old(a[..])[x := old(a[y])][y := old(a[x])]
    ensures multiset(a[..]) == old(multiset(a[..]))
  {
    var t := a[x];
    a[x] := a[y];
    a[y] := t;
  }

  /** The root of a min-heap is its smallest entry. */
  lemma {:induction false} HeapRootMin(cells: seq<CellRec>, s: seq<int>, m: nat, k: nat)
    requires m <= |s| && MinHeap(cells, s, m) && k < m
    ensures R(cells, s[0]) <= R(cells, s[k])
    decreases k
  {
    if k > 0 {
      assert Edge(cells, s, k);
      HeapRootMin(cells, s, m, Parent(k));
    }
  }

  /** Sift-up invariant: the heap property holds on the first `m` entries
      except on the edge into `j`, and `j`'s parent is no larger than `j`'s
      children. */
  ghost predicate UpInv(cells: seq<CellRec>, s: seq<int>, m: nat, j: nat)
    requires j < m <= |s|
  {
    (forall c {:trigger Edge(cells, s, c)} :: 1 <= c < m && c != j ==> Edge(cells, s, c)) &&
    (j > 0 ==> forall c {:trigger Below(cells, s, Parent(j), c)} ::
      1 <= c < m && Parent(c) == j ==> Below(cells, s, Parent(j), c))
  }

  /** A heap of `m` entries, extended by one entry, breaks at most the edge
      into the new entry. */
  lemma UpStart(cells: seq<CellRec>, s: seq<int>, m: nat)
    requires m < |s| && MinHeap(cells, s, m)
    ensures UpInv(cells, s, m + 1, m)
  {
  }

  /** A sift-up step that swaps `j` with its larger parent moves the
      exception up to the parent. */
  lemma UpSwap(cells: seq<CellRec>, s: seq<int>, m: nat, j: nat)
    requires 0 < j < m <= |s| && UpInv(cells, s, m, j)
    requires R(cells, s[j]) < R(cells, s[Parent(j)])
    ensures UpInv(cells, s[j := s[Parent(j)]][Parent(j) := s[j]], m, Parent(j))
  {
    var p := Parent(j);
    var t := s[j := s[p]][p := s[j]];
    forall c | 1 <= c < m && c != p
      ensures Edge(cells, t, c)
    {
      if c == j {
      } else if Parent(c) == j {
        assert t[c] == s[c];
        assert Below(cells, s, p, c);
      } else if Parent(c) == p {
        assert t[c] == s[c];
        assert Edge(cells, s, c);
      } else {
        assert t[c] == s[c] && t[Parent(c)] == s[Parent(c)];
        assert Edge(cells, s, c);
      }
    }
    if p > 0 {
      assert Edge(cells, s, p);
      forall c | 1 <= c < m && Parent(c) == p
        ensures Below(cells, t, Parent(p), c)
      {
        if c != j {
          assert Edge(cells, s, c);
        }
      }
    }
  }

  /** A sift-up that stops with the edge into `j` ordered leaves a heap. */
  lemma UpDone(cells: seq<CellRec>, s: seq<int>, m: nat, j: nat)
    requires j < m <= |s| && UpInv(cells, s, m, j)
    requires R(cells, s[j]) >= R(cells, s[Parent(j)])
    ensures MinHeap(cells, s, m)
  {
    assert Edge(cells, s, j);
  }

  /** Swapping the root of a heap of `m + 1` entries with its last entry
      leaves a heap of `m` entries broken at most below the root. */
  lemma ExtractStart(cells: seq<CellRec>, s: seq<int>, m: nat)
    requires 0 < m < |s| && MinHeap(cells, s, m + 1)
    ensures DownInv(cells, s[0 := s[m]][m := s[0]], m, 0)
  {
    var t := s[0 := s[m]][m := s[0]];
    forall c | 1 <= c < m && Parent(c) != 0
      ensures Edge(cells, t, c)
    {
      assert Edge(cells, s, c);
      assert t[c] == s[c] && t[Parent(c)] == s[Parent(c)];
    }
  }

  /** The inner loop of the heap build: move entry `i` up while it is
      smaller than its parent, turning a heap of `i` entries into one of
      `i + 1`. */
  method SiftUp(cells: seq<CellRec>, a: array<int>, i: nat)
    requires i < a.Length && MinHeap(cells, a[..], i)
    modifies a
    ensures MinHeap(cells, a[..], i + 1)
    ensures multiset(a[..]) == old(multiset(a[..]))
    ensures a[i + 1..] == old(a[i + 1..])
  {
    var j: nat := i;
    UpStart(cells, a[..], i);
    while R(cells, a[j]) < R(cells, a[Parent(j)])
      invariant j <= i
      invariant UpInv(cells, a[..], i + 1, j)
      invariant multiset(a[..]) == old(multiset(a[..]))
      invariant a[i + 1..] == old(a[i + 1..])
      decreases j
    {
      var p := Parent(j);
      UpSwap(cells, a[..], i + 1, j);
      Swap(a, j, p);
      j := p;
    }
    UpDone(cells, a[..], i + 1, j);
  }

  /** Sift-down invariant: the heap property holds on the first `m` entries
      except on the edges out of `j`, and `j`'s parent is no larger than
      `j`'s children. */
  ghost predicate DownInv(cells: seq<CellRec>, s: seq<int>, m: nat, j: nat)
    requires m <= |s|
  {
    (forall c {:trigger Edge(cells, s, c)} :: 1 <= c < m && Parent(c) != j ==> Edge(cells, s, c)) &&
    (0 < j < m ==> forall c {:trigger Below(cells, s, Parent(j), c)} ::
      1 <= c < m && Parent(c) == j ==> Below(cells, s, Parent(j), c))
  }

  /** The smaller child of `j` in a heap of `m` entries, chosen as the
      source does: the left child unless the right one exists and is
      strictly smaller. */
  function SmallerChild(cells: seq<CellRec>, s: seq<int>, m: nat, j: nat): (k: nat)
    requires 2 * j + 1 < m <= |s|
    ensures k == 2 * j + 1 || k == 2 * j + 2
    ensures k < m && Parent(k) == j
    ensures forall c {:trigger Below(cells, s, k, c)} :: 1 <= c < m && Parent(c) == j ==> Below(cells, s, k, c)
  {
    var index := 2 * j + 1;
    if index < m - 1 && R(cells, s[index]) > R(cells, s[index + 1]) then index + 1 else index
  }

  /** A sift-down step that swaps `j` with its smaller child moves the
      exception down to that child. */
  lemma DownSwap(cells: seq<CellRec>, s: seq<int>, m: nat, j: nat, k: nat)
    requires 2 * j + 1 < m <= |s| && DownInv(cells, s, m, j)
    requires k == SmallerChild(cells, s, m, j) && R(cells, s[j]) > R(cells, s[k])
    ensures DownInv(cells, s[j := s[k]][k := s[j]], m, k)
  {
    var t := s[j := s[k]][k := s[j]];
    forall c | 1 <= c < m && Parent(c) != k
      ensures Edge(cells, t, c)
    {
      if Parent(c) == j {
        assert Below(cells, s, k, c);
      } else if c == j {
        assert Below(cells, s, Parent(j), k);
      } else {
        assert t[c] == s[c] && t[Parent(c)] == s[Parent(c)];
        assert Edge(cells, s, c);
      }
    }
    if 0 < k < m {
      forall c | 1 <= c < m && Parent(c) == k
        ensures Below(cells, t, Parent(k), c)
      {
        assert c != j && c != k;
        assert t[c] == s[c];
        assert Edge(cells, s, c);
      }
    }
  }

  /** A sift-down step without a swap finds a heap, so the exception may
      move to either child. */
  lemma DownStay(cells: seq<CellRec>, s: seq<int>, m: nat, j: nat, k: nat)
    requires 2 * j + 1 < m <= |s| && DownInv(cells, s, m, j)
    requires k == SmallerChild(cells, s, m, j) && R(cells, s[j]) <= R(cells, s[k])
    ensures MinHeap(cells, s, m)
    ensures DownInv(cells, s, m, k)
  {
    forall c | 1 <= c < m
      ensures Edge(cells, s, c)
    {
      if Parent(c) == j {
        assert Below(cells, s, k, c);
      }
    }
    if 0 < k < m {
      forall c | 1 <= c < m && Parent(c) == k
        ensures Below(cells, s, Parent(k), c)
      {
        assert Edge(cells, s, c);
      }
    }
  }

  /** With no child left inside the heap the exception is empty. */
  lemma DownDone(cells: seq<CellRec>, s: seq<int>, m: nat, j: nat)
    requires m <= |s| && 2 * j + 1 >= m && DownInv(cells, s, m, j)
    ensures MinHeap(cells, s, m)
  {
    forall c | 1 <= c < m
      ensures Edge(cells, s, c)
    {
      assert Parent(c) != j;
    }
  }

  /** Every one of the first `m` entries is at least `bound`. */
  ghost predicate AtLeast(cells: seq<CellRec>, s: seq<int>, m: nat, bound: real)
    requires m <= |s|
  {
    forall p :: 0 <= p < m ==> R(cells, s[p]) >= bound
  }

  /** Exchanging two of the first `m` entries keeps every one of them at
      least `bound`. */
  lemma SwapAtLeast(cells: seq<CellRec>, s: seq<int>, m: nat, bound: real, x: nat, y: nat)
    requires x < m && y < m <= |s| && AtLeast(cells, s, m, bound)
    ensures AtLeast(cells, s[x := s[y]][y := s[x]], m, bound)
  {
  }

  /** The sift-down loop's state: the sift-down invariant at `j`, every heap
      entry at least `bound`, and the entries past the heap as in `orig`. */
  ghost predicate SiftInv(cells: seq<CellRec>, s: seq<int>, orig: seq<int>, m: nat, j: nat, bound: real)
    requires m <= |s|
  {
    |s| == |orig| && DownInv(cells, s, m, j) && AtLeast(cells, s, m, bound) && s[m..] == orig[m..]
  }

  /** One sift-down step keeps the loop's state, whether it swaps `j` with
      its smaller child or not. */
  lemma SiftStep(cells: seq<CellRec>, s: seq<int>, orig: seq<int>, m: nat, j: nat, bound: real)
    requires 2 * j + 1 < m <= |s| && SiftInv(cells, s, orig, m, j, bound)
    ensures var k := SmallerChild(cells, s, m, j);
      if R(cells, s[j]) > R(cells, s[k]) then SiftInv(cells, s[j := s[k]][k := s[j]], orig, m, k, bound)
      else SiftInv(cells, s, orig, m, k, bound)
  {
    var k := SmallerChild(cells, s, m, j);
    if R(cells, s[j]) > R(cells, s[k]) {
      DownSwap(cells, s, m, j, k);
      SwapAtLeast(cells, s, m, bound, j, k);
      var t := s[j := s[k]][k := s[j]];
      assert t[m..] == s[m..];
    } else {
      DownStay(cells, s, m, j, k);
    }
  }

  /** The inner loop of the extraction: starting at the root, swap the
      entry with its smaller child while it is larger than that child. The
      source's loop keeps descending after a step without a swap, through a
      part that is already a heap; the child reads are guarded so that no
      entry past the heap is compared. */
  method SiftDown(cells: seq<CellRec>, a: array<int>, i: nat, ghost bound: real)
    requires 0 < i < a.Length && DownInv(cells, a[..], i, 0)
    requires AtLeast(cells, a[..], i, bound)
    modifies a
    ensures MinHeap(cells, a[..], i)
    ensures AtLeast(cells, a[..], i, bound)
    ensures multiset(a[..]) == old(multiset(a[..]))
    ensures a[i..] == old(a[i..])
  {
    var j: nat := 0;
    while 2 * j + 1 < i
      invariant SiftInv(cells, a[..], old(a[..]), i, j, bound)
      invariant multiset(a[..]) == old(multiset(a[..]))
      decreases i - j
    {
      var index := 2 * j + 1;
      if index < i - 1 && R(cells, a[index]) > R(cells, a[index + 1]) {
        index := index + 1;
      }
      assert index == SmallerChild(cells, a[..], i, j);
      SiftStep(cells, a[..], old(a[..]), i, j, bound);
      if R(cells, a[j]) > R(cells, a[index]) {
        Swap(a, j, index);
      }
      j := index;
    }
    DownDone(cells, a[..], i, j);
  }

  /** The first loop of `sort_indices`: sift each entry up into the heap
      of the entries before it. */
  method BuildHeap(cells: seq<CellRec>, a: array<int>)
    modifies a
    ensures MinHeap(cells, a[..], a.Length)
    ensures multiset(a[..]) == old(multiset(a[..]))
  {
    var i := 1;
    while i < a.Length
      invariant 1 <= i <= a.Length || a.Length == 0
      invariant MinHeap(cells, a[..], if a.Length == 0 then 0 else i)
      invariant multiset(a[..]) == old(multiset(a[..]))
    {
      SiftUp(cells, a, i);
      i := i + 1;
    }
  }

  /** The state of the extraction with a heap of `i + 1` entries: a heap
      in front, an ordered tail behind, and no heap entry smaller than the
      tail's first. */
  ghost predicate DrainInv(cells: seq<CellRec>, s: seq<int>, i: nat)
    requires i < |s|
  {
    MinHeap(cells, s, i + 1) && Descending(cells, s, i + 1, |s|) &&
    (i + 1 < |s| ==> forall p :: 0 <= p <= i ==> R(cells, s[p]) >= R(cells, s[i + 1]))
  }

  /** Swapping the root of the heap behind it leaves the sift-down's
      precondition, with every heap entry at least the old root. */
  lemma DrainPrepare(cells: seq<CellRec>, s: seq<int>, i: nat)
    requires 0 < i < |s| && DrainInv(cells, s, i)
    ensures DownInv(cells, s[0 := s[i]][i := s[0]], i, 0)
    ensures AtLeast(cells, s[0 := s[i]][i := s[0]], i, R(cells, s[0]))
  {
    forall k | 0 <= k <= i
      ensures R(cells, s[0]) <= R(cells, s[k])
    {
      HeapRootMin(cells, s, i + 1, k);
    }
    ExtractStart(cells, s, i);
  }

  /** After the swap and the sift, the old root sits at `i`, in front of
      the already ordered tail it is no smaller than. */
  lemma DrainStep(cells: seq<CellRec>, s: seq<int>, t: seq<int>, i: nat)
    requires 0 < i < |s| == |t| && DrainInv(cells, s, i)
    requires MinHeap(cells, t, i) && AtLeast(cells, t, i, R(cells, s[0]))
    requires t[i..] == s[0 := s[i]][i := s[0]][i..]
    ensures DrainInv(cells, t, i - 1)
  {
    assert t[i] == t[i..][0] == s[0];
    forall p, q | i <= p < q < |t|
      ensures R(cells, t[p]) >= R(cells, t[q])
    {
      assert t[q] == t[i..][q - i] == s[q];
      if p > i {
        assert t[p] == t[i..][p - i] == s[p];
      } else {
        HeapRootMin(cells, s, i + 1, i);
      }
    }
  }

  /** The second loop of `sort_indices`: swap the heap's smallest entry
      behind the shrinking heap and sift the new root down, until the
      segment is in non-increasing order. */
  method DrainHeap(cells: seq<CellRec>, a: array<int>)
    requires a.Length > 0 && MinHeap(cells, a[..], a.Length)
    modifies a
    ensures Descending(cells, a[..], 0, a.Length)
    ensures multiset(a[..]) == old(multiset(a[..]))
  {
    var i := a.Length - 1;
    while i > 0
      invariant 0 <= i < a.Length
      invariant DrainInv(cells, a[..], i)
      invariant multiset(a[..]) == old(multiset(a[..]))
    {
      ghost var s0 := a[..];
      DrainPrepare(cells, s0, i);
      Swap(a, 0, i);
      SiftDown(cells, a, i, R(cells, s0[0]));
      DrainStep(cells, s0, a[..], i);
      i := i - 1;
    }
  }

  /** `sort_indices` on the segment `a`: afterwards the segment holds the
      same slot ids, ordered by non-increasing radius. An empty segment is
      left alone. */
  method SortIndices(cells: seq<CellRec>, a: array<int>)
    modifies a
    ensures multiset(a[..]) == old(multiset(a[..]))
    ensures forall p, q :: 0 <= p < q < a.Length ==> R(cells, a[p]) >= R(cells, a[q])
  {
    if a.Length == 0 {
      return;
    }
    BuildHeap(cells, a);
    DrainHeap(cells, a);
  }
}
