/** `select` of src/c/core.c: list the cells, among those the quadtree
    returns for a query rectangle, whose bounding box meets the rectangle,
    leaving out pellets that are at most one tick old. The quadtree walk is
    abstracted as the sequence of slot ids it visits. */
module KernelSelect {
  import opened Cells

  /** The query rectangle `l, r, b, t`. */
  datatype Rect = Rect(l: real, r: real, b: real, t: real)

  /** The per-item test of `select`. */
  predicate Selected(c: CellRec, q: Rect) {
    c.x - c.r <= q.r && c.x + c.r >= q.l && c.y - c.r <= q.t && c.y + c.r >= q.b &&
    (c.ty != PELLET_TYPE || c.age > 1)
  }

  /** The candidates that pass the test, in visiting order. */
  function Filter(cells: seq<CellRec>, ids: seq<int>, q: Rect): (out: seq<int>)
    requires forall i :: 0 <= i < |ids| ==> 0 <= ids[i] < |cells|
    ensures |out| <= |ids|
  {
    if |ids| == 0 then []
    else
      var rest := Filter(cells, ids[..|ids| - 1], q);
      var id := ids[|ids| - 1];
      if Selected(cells[id], q) then rest + [id] else rest
  }

  /** An id is listed exactly when it was visited and its cell passes. */
  lemma {:induction false} FilterMembers(cells: seq<CellRec>, ids: seq<int>, q: Rect, id: int)
    requires forall i :: 0 <= i < |ids| ==> 0 <= ids[i] < |cells|
    ensures id in Filter(cells, ids, q) <==> id in ids && 0 <= id < |cells| && Selected(cells[id], q)
  {
    if |ids| > 0 {
      var init := ids[..|ids| - 1];
      FilterMembers(cells, init, q, id);
      assert ids == init + [ids[|ids| - 1]];
    }
  }

  /** A cell whose centre lies in the rectangle is listed unless it is a
      fresh pellet, for any non-negative radius. */
  lemma CentreInside(c: CellRec, q: Rect)
    requires c.r >= 0.0 && q.l <= c.x <= q.r && q.b <= c.y <= q.t
    requires c.ty != PELLET_TYPE || c.age > 1
    ensures Selected(c, q)
  {
  }

  /** Growing the rectangle never drops a listed cell. */
  lemma SelectedMonotone(c: CellRec, q: Rect, big: Rect)
    requires big.l <= q.l && q.r <= big.r && big.b <= q.b && q.t <= big.t
    requires Selected(c, q)
    ensures Selected(c, big)
  {
  }

  /** A larger rectangle lists at least as many of the visited cells. */
  lemma {:induction false} FilterMonotone(cells: seq<CellRec>, ids: seq<int>, q: Rect, big: Rect)
    requires forall i :: 0 <= i < |ids| ==> 0 <= ids[i] < |cells|
    requires big.l <= q.l && q.r <= big.r && big.b <= q.b && q.t <= big.t
    ensures |Filter(cells, ids, q)| <= |Filter(cells, ids, big)|
  {
    if |ids| > 0 {
      var id := ids[|ids| - 1];
      FilterMonotone(cells, ids[..|ids| - 1], q, big);
      if Selected(cells[id], q) {
        SelectedMonotone(cells[id], q, big);
      }
    }
  }

  /** One more visited id extends the filtered list by that id exactly when
      its cell passes. */
  lemma FilterSnoc(cells: seq<CellRec>, ids: seq<int>, q: Rect, i: nat)
    requires forall j :: 0 <= j < |ids| ==> 0 <= ids[j] < |cells|
    requires i < |ids|
    ensures Filter(cells, ids[..i + 1], q) ==
      Filter(cells, ids[..i], q) + (if Selected(cells[ids[i]], q) then [ids[i]] else [])
  {
    assert ids[..i + 1][..i] == ids[..i];
  }

  /** `select` over the visited ids `ids`: writes the passing ids to the
      front of `list` and returns how many it wrote. */
  method Select(cells: array<CellRec>, ids: seq<int>, q: Rect, list: array<int>) returns (count: nat)
    requires forall i :: 0 <= i < |ids| ==> 0 <= ids[i] < cells.Length
    requires |ids| <= list.Length
    modifies list
    ensures count <= |ids|
    ensures list[..count] == Filter(cells[..], ids, q)
    ensures forall k :: count <= k < list.Length ==> list[k] == old(list[k])
  {
    ghost var cs := cells[..];
    count := 0;
    var i := 0;
    while i < |ids|
      invariant 0 <= i <= |ids|
      invariant count <= i
      invariant list[..count] == Filter(cs, ids[..i], q)
      invariant forall k :: count <= k < list.Length ==> list[k] == old(list[k])
    {
      FilterSnoc(cs, ids, q, i);
      var id := ids[i];
      ghost var before := list[..count];
      if Selected(cells[id], q) {
        list[count] := id;
        assert list[..count] == before;
        count := count + 1;
        assert list[..count] == before + [id];
      }
      i := i + 1;
    }
    assert ids[..i] == ids;
  }
}
