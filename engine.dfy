/** The bookkeeping of the `Engine` class of src/physics/engine.js: the slot
    allocator over the cell arena, the per-type entity directory, the
    delayed kill and spawn queues, the index buffer handed to the numeric
    kernel and the removals applied after resolution. The quadtree, the
    WebAssembly memory and the timers are not part of this model. */
module PhysicsEngine {
  import opened Cells
  import opened Directory
  import KernelSort
  import KernelUpdate

  /** How many slots `newCell` probes before it gives up. */
  const MAX_TRIES: nat := 65536

  /** What `newCell` did: placed the cell at slot `id`; refused because the
      cell count reached `CELL_LIMIT - 1` (the engine stops); or found no free
      slot (the process exits). */
  datatype Spawn = Spawned(id: nat) | LimitReached | SlotsExhausted

  /** The next slot the allocator tries after `id`: `((id + 1) % limit) || 1`. */
  function Step(id: int, limit: nat): (n: int)
    requires 1 <= id < limit
    ensures 1 <= n < limit
    ensures n == if id + 1 < limit then id + 1 else 1
  {
    var m := (id + 1) % limit;
    if m == 0 then 1 else m
  }

  /** How many steps the allocator takes from `start` to reach `j`, both
      among the slots 1 to `limit - 1`. */
  function Dist(start: int, j: int, limit: nat): (d: int)
    requires 1 <= start < limit && 1 <= j < limit
    ensures 0 <= d < limit - 1
  {
    if j >= start then j - start else j - start + (limit - 1)
  }

  /** One step further from the start is one more step, until the scan has
      gone round. */
  lemma DistStep(start: int, j: int, limit: nat)
    requires 1 <= start < limit && 1 <= j < limit
    requires Dist(start, j, limit) + 1 < limit - 1
    ensures Dist(start, Step(j, limit), limit) == Dist(start, j, limit) + 1
  {
  }

  /** A slot is determined by its distance from the start. */
  lemma DistInjective(start: int, i: int, j: int, limit: nat)
    requires 1 <= start < limit && 1 <= i < limit && 1 <= j < limit
    requires Dist(start, i, limit) == Dist(start, j, limit)
    ensures i == j
  {
  }

  /** `newCell`'s writes into the record of the slot it picked: position,
      radius, type, boost and flags reset to EXIST; the rest of the record
      is left as the slot held it. */
  function Placed(c: CellRec, x: real, y: real, size: real, ty: Byte, bx: real, by_: real, boost: real): (d: CellRec)
    ensures Exists(d) && d.ty == ty && d.r == size && d.x == x && d.y == y
    ensures d.eatenBy == c.eatenBy && d.age == c.age
  {
    CellRec(x, y, size, ty, EXIST_BIT, c.eatenBy, c.age, bx, by_, boost)
  }

  /** `cell.remove()`: set the REMOVE bit. */
  function MarkedRemoved(c: CellRec): (d: CellRec)
    ensures Has(d.flags, REMOVE_BIT) && d.flags & !REMOVE_BIT == c.flags & !REMOVE_BIT
    ensures Exists(d) == Exists(c) && d.ty == c.ty
    ensures d.(flags := c.flags) == c
  {
    c.(flags := c.flags | REMOVE_BIT)
  }

  /** The parent after `splitFromCell`: radius `root`, marked updated. */
  function Shrunk(c: CellRec, root: real): (d: CellRec)
    ensures Exists(d) == Exists(c) && d.ty == c.ty && d.r == root && Has(d.flags, UPDATE_BIT)
    ensures d.(r := c.r, flags := c.flags) == c
  {
    c.(r := root, flags := c.flags | UPDATE_BIT)
  }

  /** A dead cell replacing `c`: the same place, size and boost. */
  predicate DeadCopyOf(d: CellRec, c: CellRec) {
    d.ty == DEAD_CELL_TYPE && d.flags == EXIST_BIT &&
    d.x == c.x && d.y == c.y && d.r == c.r &&
    d.boostX == c.boostX && d.boostY == c.boostY && d.boost == c.boost
  }

  /** The index buffer `updateIndices` writes: the slots freed last tick,
      then every non-zero type's set in type order, then a 0 sentinel. */
  function Layout(removed: seq<int>, counters: seq<seq<int>>): (buf: seq<int>)
    requires |counters| == 256
  {
    removed + Concat(counters[1..]) + [0]
  }

  /** The layout ends with its only 0 and lists exactly the freed slots and
      the members of the sets of types 1 to 255. */
  lemma LayoutMembers(removed: seq<int>, counters: seq<seq<int>>, x: int)
    requires |counters| == 256
    requires forall i :: 0 <= i < |removed| ==> removed[i] >= 1
    requires forall t :: 1 <= t < 256 ==> forall i :: 0 <= i < |counters[t]| ==> counters[t][i] >= 1
    ensures var b := Layout(removed, counters);
      b[|b| - 1] == 0 && 0 !in b[..|b| - 1] &&
      (x in b[..|b| - 1] <==> x in removed || exists t :: 1 <= t < 256 && x in counters[t])
  {
    var b := Layout(removed, counters);
    var cs := counters[1..];
    assert b[..|b| - 1] == removed + Concat(cs);
    ConcatMembers(cs, x);
    ConcatMembers(cs, 0);
    if exists t :: 1 <= t < 256 && x in counters[t] {
      var t :| 1 <= t < 256 && x in counters[t];
      assert cs[t - 1] == counters[t];
    }
    if exists u :: 0 <= u < |cs| && x in cs[u] {
      var u :| 0 <= u < |cs| && x in cs[u];
      assert counters[u + 1] == cs[u];
    }
  }

  /** A segment ordered by non-increasing radius. */
  ghost predicate SortedByRadius(cells: seq<CellRec>, s: seq<int>) {
    forall p, q :: 0 <= p < q < |s| ==> KernelSort.R(cells, s[p]) >= KernelSort.R(cells, s[q])
  }

  /** The writing loop of `updateIndices`: the freed slots first (in
      place of type 0), then the sets of types 1 to 255, then the sentinel. */
  method WriteLayout(removed: seq<int>, counters: seq<seq<int>>) returns (buf: seq<int>)
    requires |counters| == 256
    ensures buf == Layout(removed, counters)
  {
    buf := [];
    var t := 0;
    while t < 256
      invariant 0 <= t <= 256
      invariant t == 0 ==> buf == []
      invariant t > 0 ==> buf == removed + Concat(counters[1..][..t - 1])
    {
      if t == 0 {
        buf := buf + removed;
      } else {
        ConcatSnoc(counters[1..], t - 1);
        assert counters[1..][t - 1] == counters[t];
        buf := buf + counters[t];
      }
      t := t + 1;
    }
    assert counters[1..][..255] == counters[1..];
    buf := buf + [0];
  }

  /** Every layout entry is a slot of the arena. */
  lemma LayoutInRange(removed: seq<int>, counters: seq<seq<int>>, limit: nat)
    requires |counters| == 256 && limit >= 1
    requires forall i :: 0 <= i < |removed| ==> 0 <= removed[i] < limit
    requires forall t :: 0 <= t < 256 ==> SlotIds(counters[t], limit)
    ensures forall i :: 0 <= i < |Layout(removed, counters)| ==> 0 <= Layout(removed, counters)[i] < limit
  {
    var cs := counters[1..];
    forall t | 0 <= t < |cs|
      ensures SlotIds(cs[t], limit)
    {
      assert cs[t] == counters[t + 1];
    }
    ConcatMembersBound(cs, limit);
  }

  /** The writing loop of `sortIndices`: every type's set in type order. */
  method WriteAll(counters: seq<seq<int>>) returns (buf: seq<int>)
    ensures buf == Concat(counters)
  {
    buf := [];
    var t := 0;
    while t < |counters|
      invariant 0 <= t <= |counters|
      invariant buf == Concat(counters[..t])
    {
      ConcatSnoc(counters, t);
      buf := buf + counters[t];
      t := t + 1;
    }
    assert counters[..t] == counters;
  }

  /** The sorting loop of `sortIndices`: the kernel sorts the segment of
      each player type 0 to 250 in turn, in place; the other segments stay
      as they were. `segs` are the segments as they end up. */
  method SortSegments(cells: seq<CellRec>, counters: seq<seq<int>>, buf0: seq<int>)
    returns (buf: seq<int>, ghost segs: seq<seq<int>>)
    requires |counters| == 256 && buf0 == Concat(counters)
    ensures |segs| == 256 && buf == Concat(segs)
    ensures forall t :: 0 <= t < 256 ==> multiset(segs[t]) == multiset(counters[t])
    ensures forall t :: 0 <= t <= 250 ==> SortedByRadius(cells, segs[t])
    ensures forall t :: 250 < t < 256 ==> segs[t] == counters[t]
  {
    buf := buf0;
    segs := counters;
    var ptr := 0;
    var t := 0;
    while t <= 250
      invariant 0 <= t <= 251
      invariant |segs| == 256 && buf == Concat(segs)
      invariant ptr == Offset(segs, t)
      invariant forall u :: 0 <= u < 256 ==> multiset(segs[u]) == multiset(counters[u])
      invariant forall u :: 0 <= u < t ==> SortedByRadius(cells, segs[u])
      invariant forall u :: t <= u < 256 ==> segs[u] == counters[u]
    {
      var s := |counters[t]|;
      ghost var prev := segs;
      buf, segs := SortSegment(cells, buf, segs, t, ptr, s);
      assert forall u :: 0 <= u < 256 && u != t ==> segs[u] == prev[u];
      ConcatSnoc(segs, t);
      ptr := ptr + s;
      t := t + 1;
    }
  }

  /** Sorts the segment of set `t`, which starts at `ptr`, in place in the
      buffer. */
  method SortSegment(cells: seq<CellRec>, buf0: seq<int>, ghost segs0: seq<seq<int>>, t: nat, ptr: nat, s: nat)
    returns (buf: seq<int>, ghost segs: seq<seq<int>>)
    requires t < |segs0| && buf0 == Concat(segs0) && ptr == Offset(segs0, t) && s == |segs0[t]|
    ensures |segs| == |segs0| && buf == Concat(segs) && Offset(segs, t) == ptr
    ensures segs == segs0[t := segs[t]]
    ensures multiset(segs[t]) == multiset(segs0[t]) && SortedByRadius(cells, segs[t])
  {
    Segment(segs0, t);
    buf, segs := buf0, segs0;
    if s > 0 {
      var a := new int[s](i requires 0 <= i < s => buf0[ptr + i]);
      assert a[..] == segs0[t];
      KernelSort.SortIndices(cells, a);
      ReplaceSegment(segs0, t, a[..]);
      buf := buf0[..ptr] + a[..] + buf0[ptr + s..];
      segs := segs0[t := a[..]];
    }
  }

  /** Slot ids of each set stay slot ids once concatenated. */
  lemma ConcatMembersBound(cs: seq<seq<int>>, limit: nat)
    requires forall t :: 0 <= t < |cs| ==> SlotIds(cs[t], limit)
    ensures forall i :: 0 <= i < |Concat(cs)| ==> 0 <= Concat(cs)[i] < limit
  {
    forall i | 0 <= i < |Concat(cs)|
      ensures 0 <= Concat(cs)[i] < limit
    {
      ConcatMembers(cs, Concat(cs)[i]);
    }
  }

  /** Every slot but the reserved slot 0 holds a live record. */
  ghost predicate AllTaken(cells: seq<CellRec>, limit: nat)
    requires |cells| == limit
  {
    forall j :: 1 <= j < limit ==> Exists(cells[j])
  }

  /** `pos` is the first slot without a live record that the allocator
      meets when it steps from `start`. */
  ghost predicate FirstFree(cells: seq<CellRec>, start: int, pos: int, limit: nat)
    requires |cells| == limit && 1 <= start < limit && 1 <= pos < limit
  {
    !Exists(cells[pos]) &&
    forall j :: 1 <= j < limit && Dist(start, j, limit) < Dist(start, pos, limit) ==> Exists(cells[j])
  }

  /** The probing loop of `newCell`, from slot `start`: step through the
      slots until one holds no live record, giving up after `MAX_TRIES`
      steps. `found` is false when it gave up. */
  method Probe(cells: seq<CellRec>, start: int, limit: nat) returns (pos: int, found: bool)
    requires 2 <= limit <= 0x1_0000 && |cells| == limit && 1 <= start < limit
    ensures 1 <= pos < limit
    ensures found ==> FirstFree(cells, start, pos, limit)
    ensures !found ==> AllTaken(cells, limit)
  {
    pos := start;
    var tries := 0;
    while Exists(cells[pos])
      invariant 1 <= pos < limit && 0 <= tries < MAX_TRIES
      invariant tries < limit - 1 ==> Dist(start, pos, limit) == tries
      invariant forall j :: 1 <= j < limit && (tries >= limit - 1 || Dist(start, j, limit) < tries) ==>
        Exists(cells[j])
      decreases MAX_TRIES - tries
    {
      ProbeStep(cells, start, pos, tries, limit);
      pos := Step(pos, limit);
      tries := tries + 1;
      if tries >= MAX_TRIES {
        return pos, false;
      }
    }
    found := true;
  }

  /** A probe past a live slot keeps the probing loop's invariant. */
  lemma ProbeStep(cells: seq<CellRec>, start: int, pos: int, tries: nat, limit: nat)
    requires 2 <= limit <= 0x1_0000 && |cells| == limit && 1 <= start < limit && 1 <= pos < limit
    requires Exists(cells[pos])
    requires tries < limit - 1 ==> Dist(start, pos, limit) == tries
    requires forall j :: 1 <= j < limit && (tries >= limit - 1 || Dist(start, j, limit) < tries) ==> Exists(cells[j])
    ensures tries + 1 < limit - 1 ==> Dist(start, Step(pos, limit), limit) == tries + 1
    ensures forall j :: 1 <= j < limit && (tries + 1 >= limit - 1 || Dist(start, j, limit) < tries + 1) ==>
      Exists(cells[j])
  {
    forall j | 1 <= j < limit && (tries + 1 >= limit - 1 || Dist(start, j, limit) < tries + 1)
      ensures Exists(cells[j])
    {
      if tries < limit - 1 && Dist(start, j, limit) == tries {
        DistInjective(start, j, pos, limit);
      }
    }
    if tries + 1 < limit - 1 {
      DistStep(start, pos, limit);
    }
  }

  /** One round of `kill(id, true)` on the arena `cur`: a dead copy of the
      record at `victim` written by `newCell` to slot `d`, then `victim`
      cleared by the kernel's `clear_cell`. */
  function ReplaceRound(cur: seq<CellRec>, victim: int, d: int): (next: seq<CellRec>)
    ensures |next| == |cur|
  {
    if 0 <= victim < |cur| && 0 <= d < |cur| then
      var c := cur[victim];
      cur[d := Placed(cur[d], c.x, c.y, c.r, DEAD_CELL_TYPE, c.boostX, c.boostY, c.boost)][victim := Zero]
    else cur
  }

  /** A round clears the victim, leaves a dead copy of it at `d` and
      changes no other slot. */
  lemma ReplaceRoundEffect(cur: seq<CellRec>, victim: int, d: int)
    requires 0 <= victim < |cur| && 0 <= d < |cur|
    ensures var next := ReplaceRound(cur, victim, d);
      next[victim] == Zero && (victim != d ==> DeadCopyOf(next[d], cur[victim])) &&
      forall j :: 0 <= j < |cur| && j != victim && j != d ==> next[j] == cur[j]
  {
  }

  /** The arena after the first `n` rounds, round `i` killing the cell at
      `killed[i]` and placing its dead copy at `dead[i]`. */
  function Replaced(orig: seq<CellRec>, killed: seq<int>, dead: seq<int>, n: nat): (s: seq<CellRec>)
    requires n <= |killed| && n <= |dead|
    ensures |s| == |orig|
  {
    if n == 0 then orig
    else ReplaceRound(Replaced(orig, killed, dead, n - 1), killed[n - 1], dead[n - 1])
  }

  /** In each of the first `n` rounds the dead copy went to a slot that
      was free at that round, as `newCell` guarantees. */
  ghost predicate PlacedFree(orig: seq<CellRec>, killed: seq<int>, dead: seq<int>, n: nat)
    requires n <= |killed| && n <= |dead|
  {
    n == 0 ||
    (PlacedFree(orig, killed, dead, n - 1) &&
     0 <= dead[n - 1] < |orig| && !Exists(Replaced(orig, killed, dead, n - 1)[dead[n - 1]]))
  }

  /** The first `n` rounds do not depend on later entries of `dead`. */
  lemma {:induction false} ReplacedExtend(orig: seq<CellRec>, killed: seq<int>, dead: seq<int>, d: int, n: nat)
    requires n <= |killed| && n <= |dead|
    ensures Replaced(orig, killed, dead + [d], n) == Replaced(orig, killed, dead, n)
    ensures PlacedFree(orig, killed, dead + [d], n) == PlacedFree(orig, killed, dead, n)
  {
    if n > 0 {
      ReplacedExtend(orig, killed, dead, d, n - 1);
      assert (dead + [d])[n - 1] == dead[n - 1];
    }
  }

  /** The state of `kill(id, true)` after the rounds that placed the dead
      copies `dead`: the arena `cur` is `Replaced`, each copy went to a free
      slot other than 0, and the sets `cs` are `cs0` with the copies added
      to the dead cells' set. */
  ghost predicate Rounds(orig: seq<CellRec>, cs0: seq<seq<int>>, killed: seq<int>, dead: seq<int>,
                         cur: seq<CellRec>, cs: seq<seq<int>>, limit: int)
  {
    |dead| <= |killed| && |cs0| == 256 &&
    cs == cs0[DEAD_CELL_TYPE := AddAll(cs0[DEAD_CELL_TYPE], dead)] &&
    cur == Replaced(orig, killed, dead, |dead|) && PlacedFree(orig, killed, dead, |dead|) &&
    forall i :: 0 <= i < |dead| ==> 1 <= dead[i] < limit
  }

  /** One more round on a free slot `d` extends the rounds before it. */
  lemma RoundStep(orig: seq<CellRec>, cs0: seq<seq<int>>, killed: seq<int>, dead: seq<int>,
                  cur: seq<CellRec>, cs: seq<seq<int>>, limit: int, d: int, next: seq<CellRec>)
    requires Rounds(orig, cs0, killed, dead, cur, cs, limit) && |dead| < |killed|
    requires 1 <= d < limit && d < |cur| && !Exists(cur[d]) && next == ReplaceRound(cur, killed[|dead|], d)
    ensures Rounds(orig, cs0, killed, dead + [d], next, cs[DEAD_CELL_TYPE := Add(cs[DEAD_CELL_TYPE], d)], limit)
  {
    var k := |dead|;
    ReplacedExtend(orig, killed, dead, d, k);
    assert (dead + [d])[k] == d;
    AddAllSnoc(cs0[DEAD_CELL_TYPE], dead, d);
    assert cs[DEAD_CELL_TYPE := Add(cs[DEAD_CELL_TYPE], d)] ==
      cs0[DEAD_CELL_TYPE := AddAll(cs0[DEAD_CELL_TYPE], dead + [d])];
  }

  /** What the arena looks like after `k` rounds of `kill(id, true)`: each
      killed cell has a dead copy at its slot in `dead`, none of those is a
      cell still to be killed, the cells still to be killed are untouched,
      the killed slots not reused are zero and every other slot is as
      before. */
  ghost predicate ReplaceInv(cur: seq<CellRec>, orig: seq<CellRec>, killed: seq<int>, dead: seq<int>, k: nat)
    requires |cur| == |orig| && k <= |killed| && |dead| == k
    requires forall i :: 0 <= i < |killed| ==> 0 <= killed[i] < |orig|
  {
    DeadCopies(cur, orig, killed, dead) && Disjoint(killed, dead) && Pending(cur, orig, killed, k) &&
    Cleared(cur, killed, dead) && Untouched(cur, orig, killed, dead) && FromFree(orig, killed, dead)
  }

  /** Round `i` left a dead copy of `killed[i]` at `dead[i]`. */
  ghost predicate DeadCopies(cur: seq<CellRec>, orig: seq<CellRec>, killed: seq<int>, dead: seq<int>)
    requires |cur| == |orig| && |dead| <= |killed|
    requires forall i :: 0 <= i < |killed| ==> 0 <= killed[i] < |orig|
  {
    forall i :: 0 <= i < |dead| ==> 0 <= dead[i] < |cur| && DeadCopyOf(cur[dead[i]], orig[killed[i]])
  }

  /** No dead copy sits at the slot of a cell still to be killed. */
  ghost predicate Disjoint(killed: seq<int>, dead: seq<int>) {
    forall i, j :: 0 <= i < |dead| <= j < |killed| ==> dead[i] != killed[j]
  }

  /** The cells from round `k` on are untouched. */
  ghost predicate Pending(cur: seq<CellRec>, orig: seq<CellRec>, killed: seq<int>, k: nat)
    requires |cur| == |orig| && k <= |killed|
    requires forall i :: 0 <= i < |killed| ==> 0 <= killed[i] < |orig|
  {
    forall j :: k <= j < |killed| ==> cur[killed[j]] == orig[killed[j]]
  }

  /** The killed slots that no dead copy reused are zero. */
  ghost predicate Cleared(cur: seq<CellRec>, killed: seq<int>, dead: seq<int>)
    requires |dead| <= |killed|
  {
    forall j :: 0 <= j < |cur| && j in killed[..|dead|] && j !in dead ==> cur[j] == Zero
  }

  /** Every other slot is as it was. */
  ghost predicate Untouched(cur: seq<CellRec>, orig: seq<CellRec>, killed: seq<int>, dead: seq<int>)
    requires |cur| == |orig| && |dead| <= |killed|
  {
    forall j :: 0 <= j < |cur| && j !in killed[..|dead|] && j !in dead ==> cur[j] == orig[j]
  }

  /** Each dead copy went to a slot that was free before the kill or that
      held one of the cells killed so far. */
  ghost predicate FromFree(orig: seq<CellRec>, killed: seq<int>, dead: seq<int>)
    requires |dead| <= |killed|
  {
    forall i :: 0 <= i < |dead| ==>
      0 <= dead[i] < |orig| && (dead[i] in killed[..|dead|] || !Exists(orig[dead[i]]))
  }

  /** One more round keeps `ReplaceInv` when its slot `d` is free. */
  lemma ReplaceStep(cur: seq<CellRec>, orig: seq<CellRec>, killed: seq<int>, dead: seq<int>, k: nat, d: int)
    requires |cur| == |orig| && k < |killed| && |dead| == k
    requires forall i :: 0 <= i < |killed| ==> 0 <= killed[i] < |orig|
    requires NoDup(killed) && forall i :: 0 <= i < |killed| ==> Exists(orig[killed[i]])
    requires ReplaceInv(cur, orig, killed, dead, k)
    requires 0 <= d < |cur| && !Exists(cur[d])
    ensures ReplaceInv(ReplaceRound(cur, killed[k], d), orig, killed, dead + [d], k + 1)
  {
    var victim := killed[k];
    ReplaceRoundEffect(cur, victim, d);
    assert cur[victim] == orig[victim];
    StepDeadCopies(cur, orig, killed, dead, d);
    StepDisjoint(cur, orig, killed, dead, d);
    StepPending(cur, orig, killed, k, d);
    StepCleared(cur, killed, dead, d);
    StepUntouched(cur, orig, killed, dead, d);
    StepFromFree(cur, orig, killed, dead, d);
  }

  lemma StepFromFree(cur: seq<CellRec>, orig: seq<CellRec>, killed: seq<int>, dead: seq<int>, d: int)
    requires |cur| == |orig| && |dead| < |killed|
    requires forall i :: 0 <= i < |killed| ==> 0 <= killed[i] < |orig|
    requires DeadCopies(cur, orig, killed, dead) && Untouched(cur, orig, killed, dead)
    requires FromFree(orig, killed, dead)
    requires 0 <= d < |cur| && !Exists(cur[d])
    ensures FromFree(orig, killed, dead + [d])
  {
    var k := |dead|;
    assert killed[..k + 1] == killed[..k] + [killed[k]];
    forall i | 0 <= i < k
      ensures dead[i] != d
    {
      assert Exists(cur[dead[i]]);
    }
    if d !in killed[..k] {
      assert cur[d] == orig[d];
    }
    forall i | 0 <= i < k + 1
      ensures 0 <= (dead + [d])[i] < |orig| &&
        ((dead + [d])[i] in killed[..k + 1] || !Exists(orig[(dead + [d])[i]]))
    {
      if i < k {
        assert (dead + [d])[i] == dead[i];
      }
    }
  }

  lemma StepDeadCopies(cur: seq<CellRec>, orig: seq<CellRec>, killed: seq<int>, dead: seq<int>, d: int)
    requires |cur| == |orig| && |dead| < |killed|
    requires forall i :: 0 <= i < |killed| ==> 0 <= killed[i] < |orig|
    requires DeadCopies(cur, orig, killed, dead) && Disjoint(killed, dead)
    requires cur[killed[|dead|]] == orig[killed[|dead|]] && Exists(orig[killed[|dead|]])
    requires 0 <= d < |cur| && !Exists(cur[d])
    ensures DeadCopies(ReplaceRound(cur, killed[|dead|], d), orig, killed, dead + [d])
  {
    var k := |dead|;
    var next := ReplaceRound(cur, killed[k], d);
    ReplaceRoundEffect(cur, killed[k], d);
    forall i | 0 <= i < k
      ensures next[dead[i]] == cur[dead[i]]
    {
      assert Exists(cur[dead[i]]);
      assert dead[i] != killed[k];
    }
  }

  lemma StepDisjoint(cur: seq<CellRec>, orig: seq<CellRec>, killed: seq<int>, dead: seq<int>, d: int)
    requires |cur| == |orig| && |dead| < |killed|
    requires forall i :: 0 <= i < |killed| ==> 0 <= killed[i] < |orig|
    requires forall i :: 0 <= i < |killed| ==> Exists(orig[killed[i]])
    requires Disjoint(killed, dead) && Pending(cur, orig, killed, |dead|)
    requires 0 <= d < |cur| && !Exists(cur[d])
    ensures Disjoint(killed, dead + [d])
  {
    var k := |dead|;
    forall i, j | 0 <= i < k + 1 <= j < |killed|
      ensures (dead + [d])[i] != killed[j]
    {
      if i == k {
        assert Exists(cur[killed[j]]);
      }
    }
  }

  lemma StepPending(cur: seq<CellRec>, orig: seq<CellRec>, killed: seq<int>, k: nat, d: int)
    requires |cur| == |orig| && k < |killed|
    requires forall i :: 0 <= i < |killed| ==> 0 <= killed[i] < |orig|
    requires NoDup(killed) && forall i :: 0 <= i < |killed| ==> Exists(orig[killed[i]])
    requires Pending(cur, orig, killed, k)
    requires 0 <= d < |cur| && !Exists(cur[d])
    ensures Pending(ReplaceRound(cur, killed[k], d), orig, killed, k + 1)
  {
    var next := ReplaceRound(cur, killed[k], d);
    ReplaceRoundEffect(cur, killed[k], d);
    forall j | k + 1 <= j < |killed|
      ensures next[killed[j]] == orig[killed[j]]
    {
      assert killed[j] != killed[k];
      assert Exists(cur[killed[j]]);
    }
  }

  lemma StepCleared(cur: seq<CellRec>, killed: seq<int>, dead: seq<int>, d: int)
    requires |dead| < |killed| && 0 <= killed[|dead|] < |cur| && 0 <= d < |cur|
    requires Cleared(cur, killed, dead)
    ensures Cleared(ReplaceRound(cur, killed[|dead|], d), killed, dead + [d])
  {
    var k := |dead|;
    var next := ReplaceRound(cur, killed[k], d);
    ReplaceRoundEffect(cur, killed[k], d);
    assert killed[..k + 1] == killed[..k] + [killed[k]];
    forall j | 0 <= j < |next| && j in killed[..k + 1] && j !in dead + [d]
      ensures next[j] == Zero
    {
      if j != killed[k] {
        assert j in killed[..k];
      }
    }
  }

  lemma StepUntouched(cur: seq<CellRec>, orig: seq<CellRec>, killed: seq<int>, dead: seq<int>, d: int)
    requires |cur| == |orig| && |dead| < |killed| && 0 <= killed[|dead|] < |cur| && 0 <= d < |cur|
    requires Untouched(cur, orig, killed, dead)
    ensures Untouched(ReplaceRound(cur, killed[|dead|], d), orig, killed, dead + [d])
  {
    var k := |dead|;
    var next := ReplaceRound(cur, killed[k], d);
    ReplaceRoundEffect(cur, killed[k], d);
    assert killed[..k + 1] == killed[..k] + [killed[k]];
    forall j | 0 <= j < |next| && j !in killed[..k + 1] && j !in dead + [d]
      ensures next[j] == orig[j]
    {
      assert j !in killed[..k] && j != killed[k] && j != d && j !in dead;
    }
  }

  /** Rounds on free slots from a set of live, distinct cells leave the
      arena `ReplaceInv` describes. */
  lemma {:induction false} ReplacedInv(orig: seq<CellRec>, killed: seq<int>, dead: seq<int>)
    requires |dead| <= |killed|
    requires forall i :: 0 <= i < |killed| ==> 0 <= killed[i] < |orig|
    requires NoDup(killed) && forall i :: 0 <= i < |killed| ==> Exists(orig[killed[i]])
    requires PlacedFree(orig, killed, dead, |dead|)
    ensures ReplaceInv(Replaced(orig, killed, dead, |dead|), orig, killed, dead, |dead|)
    decreases |dead|
  {
    var n := |dead|;
    if n == 0 {
      assert killed[..0] == [];
    } else {
      var pre := dead[..n - 1];
      assert pre + [dead[n - 1]] == dead;
      ReplacedExtend(orig, killed, pre, dead[n - 1], n - 1);
      ReplacedInv(orig, killed, pre);
      var cur := Replaced(orig, killed, pre, n - 1);
      ReplaceStep(cur, orig, killed, pre, n - 1, dead[n - 1]);
    }
  }

  /** The state of `postResolve` after it freed the slots `removed` from
      the sets `cs0`: each set lost exactly its freed members. */
  ghost predicate Pruned(cs0: seq<seq<int>>, cs: seq<seq<int>>, removed: seq<int>, cells: seq<CellRec>)
    requires forall i :: 0 <= i < |removed| ==> 0 <= removed[i] < |cells|
  {
    |cs| == |cs0| &&
    forall t, x :: 0 <= t < |cs| ==> (x in cs[t] <==> x in cs0[t] && !(x in removed && cells[x].ty == t))
  }

  /** The removal loop of `postResolve` over the first entries `idx` of
      the index buffer: every entry whose record carries the REMOVE bit
      leaves its type's set and is recorded as freed, in buffer order. */
  method Prune(cells: seq<CellRec>, counters: seq<seq<int>>, idx: seq<int>, limit: int)
    returns (cs: seq<seq<int>>, removed: seq<int>)
    requires |cells| == limit && SetsWellFormed(counters, limit) && InRange(idx, limit)
    ensures removed == Flagged(cells, idx)
    ensures SetsWellFormed(cs, limit) && InRange(removed, limit)
    ensures Pruned(counters, cs, removed, cells)
    // when the entries are distinct members, each freed slot leaves its set
    // exactly once
    ensures Freeable(cells, counters, idx) ==>
      NoDup(removed) && SetTotal(cs) + |removed| == SetTotal(counters)
  {
    ghost var h := Freeable(cells, counters, idx);
    cs := counters;
    removed := [];
    var i := 0;
    while i < |idx|
      invariant 0 <= i <= |idx|
      invariant PruneState(cells, counters, cs, removed, idx[..i], limit)
      invariant h ==> PruneCounted(counters, cs, removed, idx[..i])
    {
      var index := idx[i];
      var cell := cells[index];
      PruneStateStep(cells, counters, cs, removed, idx, i, limit);
      if h {
        PruneCountStep(cells, counters, cs, removed, idx, i);
      }
      if Has(cell.flags, REMOVE_BIT) {
        cs := cs[cell.ty := Delete(cs[cell.ty], index)];
        removed := removed + [index];
      }
      i := i + 1;
    }
    assert idx[..i] == idx;
  }

  /** The state of `postResolve` after the entries `seen`: the freed slots
      are the flagged entries, and each set lost exactly its freed members. */
  ghost predicate PruneState(cells: seq<CellRec>, counters: seq<seq<int>>, cs: seq<seq<int>>, removed: seq<int>,
                             seen: seq<int>, limit: int)
  {
    |cells| == limit && InRange(seen, limit) && removed == Flagged(cells, seen) && InRange(removed, limit) &&
    SetsWellFormed(cs, limit) && Pruned(counters, cs, removed, cells)
  }

  /** Entry `i` keeps the state: a flagged entry leaves its set and joins
      the freed slots, any other changes nothing. */
  lemma PruneStateStep(cells: seq<CellRec>, counters: seq<seq<int>>, cs: seq<seq<int>>, removed: seq<int>,
                       idx: seq<int>, i: int, limit: int)
    requires InRange(idx, limit) && 0 <= i < |idx| && PruneState(cells, counters, cs, removed, idx[..i], limit)
    ensures var x := idx[i];
      if Has(cells[x].flags, REMOVE_BIT) then
        PruneState(cells, counters, cs[cells[x].ty := Delete(cs[cells[x].ty], x)], removed + [x], idx[..i + 1], limit)
      else PruneState(cells, counters, cs, removed, idx[..i + 1], limit)
  {
    var x := idx[i];
    assert idx[..i + 1][..i] == idx[..i];
    if Has(cells[x].flags, REMOVE_BIT) {
      PruneStep(counters, cs, removed, cells, x);
      SetsUpdate(cs, cells[x].ty, Delete(cs[cells[x].ty], x), limit);
    }
  }

  /** The count `postResolve` keeps after the entries `seen`: the freed
      slots are distinct, were seen, and left the sets one entry each. */
  ghost predicate PruneCounted(counters: seq<seq<int>>, cs: seq<seq<int>>, removed: seq<int>, seen: seq<int>) {
    NoDup(removed) && SetTotal(cs) + |removed| == SetTotal(counters) &&
    forall y :: y in removed ==> y in seen
  }

  /** On distinct member entries, entry `i` keeps the count: a flagged
      entry was not freed before and is still in its set. */
  lemma PruneCountStep(cells: seq<CellRec>, counters: seq<seq<int>>, cs: seq<seq<int>>, removed: seq<int>,
                       idx: seq<int>, i: int)
    requires Freeable(cells, counters, idx) && 0 <= i < |idx| && InRange(idx, |cells|)
    requires InRange(removed, |cells|) && SetsWellFormed(cs, |cells|) && Pruned(counters, cs, removed, cells)
    requires PruneCounted(counters, cs, removed, idx[..i])
    ensures var x := idx[i];
      if Has(cells[x].flags, REMOVE_BIT) then
        PruneCounted(counters, cs[cells[x].ty := Delete(cs[cells[x].ty], x)], removed + [x], idx[..i + 1])
      else PruneCounted(counters, cs, removed, idx[..i + 1])
  {
    var x := idx[i];
    assert idx[..i + 1] == idx[..i] + [x];
    if Has(cells[x].flags, REMOVE_BIT) {
      assert x !in idx[..i];
      PruneMember(counters, cs, removed, cells, x);
      SetTotalUpdate(cs, cells[x].ty, Delete(cs[cells[x].ty], x));
    }
  }

  /** Freeing one more slot deletes it from its type's set. */
  lemma PruneStep(cs0: seq<seq<int>>, cs: seq<seq<int>>, removed: seq<int>, cells: seq<CellRec>, x: int)
    requires forall i :: 0 <= i < |removed| ==> 0 <= removed[i] < |cells|
    requires 0 <= x < |cells| && cells[x].ty < |cs| && Pruned(cs0, cs, removed, cells)
    ensures Pruned(cs0, cs[cells[x].ty := Delete(cs[cells[x].ty], x)], removed + [x], cells)
  {
    var cs' := cs[cells[x].ty := Delete(cs[cells[x].ty], x)];
    forall t, y | 0 <= t < |cs'|
      ensures y in cs'[t] <==> y in cs0[t] && !(y in removed + [x] && cells[y].ty == t)
    {
      assert y in removed + [x] <==> y in removed || y == x;
    }
  }

  /** One duplicate-free set of slot ids per cell type. */
  ghost predicate SetsWellFormed(counters: seq<seq<int>>, limit: int) {
    |counters| == 256 && forall t :: 0 <= t < 256 ==> NoDup(counters[t]) && SlotIds(counters[t], limit)
  }

  /** Replacing one set by a well-formed one keeps the sets well formed. */
  lemma SetsUpdate(counters: seq<seq<int>>, t: int, s: seq<int>, limit: int)
    requires SetsWellFormed(counters, limit) && 0 <= t < 256 && NoDup(s) && SlotIds(s, limit)
    ensures SetsWellFormed(counters[t := s], limit)
  {
  }

  /** Every entry is a slot of the arena. */
  ghost predicate InRange(s: seq<int>, limit: int) {
    forall i :: 0 <= i < |s| ==> 0 <= s[i] < limit
  }

  /** The number of entries over all sets. */
  function SetTotal(cs: seq<seq<int>>): (n: nat) {
    if |cs| == 0 then 0 else SetTotal(cs[..|cs| - 1]) + |cs[|cs| - 1]|
  }

  /** Replacing one set changes the total by the change of that set's size. */
  lemma {:induction false} SetTotalUpdate(cs: seq<seq<int>>, t: int, s: seq<int>)
    requires 0 <= t < |cs|
    ensures SetTotal(cs[t := s]) == SetTotal(cs) - |cs[t]| + |s|
    decreases |cs|
  {
    var n := |cs| - 1;
    if t < n {
      assert cs[t := s][..n] == cs[..n][t := s];
      SetTotalUpdate(cs[..n], t, s);
    } else {
      assert cs[t := s][..n] == cs[..n];
    }
  }

  /** Empty sets hold nothing. */
  lemma {:induction false} SetTotalEmpty(cs: seq<seq<int>>)
    requires forall t :: 0 <= t < |cs| ==> cs[t] == []
    ensures SetTotal(cs) == 0
    decreases |cs|
  {
    if |cs| > 0 {
      SetTotalEmpty(cs[..|cs| - 1]);
    }
  }

  /** Every member of the set of type `t` is a slot holding a live record
      of type `t`. */
  ghost predicate Typed(cells: seq<CellRec>, cs: seq<seq<int>>) {
    forall t, x {:trigger x in cs[t]} :: 0 <= t < |cs| && x in cs[t] ==> 0 <= x < |cells| && Exists(cells[x]) && cells[x].ty == t
  }

  /** Some set holds `x`. */
  ghost predicate InSets(cs: seq<seq<int>>, x: int) {
    exists t :: 0 <= t < |cs| && x in cs[t]
  }

  /** A record has one type, so typed sets are pairwise disjoint. */
  lemma TypedDisjoint(cells: seq<CellRec>, cs: seq<seq<int>>)
    requires Typed(cells, cs)
    ensures forall t, u, x :: 0 <= t < u < |cs| && x in cs[t] ==> x !in cs[u]
  {
  }

  /** Writing a live record of type `ty` to a free slot and adding the slot
      to set `ty` keeps the sets typed; the slot was in no set, so that set
      grows by one. */
  lemma PlaceTyped(cells: seq<CellRec>, cs: seq<seq<int>>, pos: int, c: CellRec)
    requires Typed(cells, cs) && 0 <= pos < |cells| && !Exists(cells[pos])
    requires Exists(c) && c.ty < |cs|
    ensures !InSets(cs, pos)
    ensures Typed(cells[pos := c], cs[c.ty := Add(cs[c.ty], pos)])
  {
  }

  /** Rewriting a member's record with a live record of the same type keeps
      the sets typed. */
  lemma RewriteTyped(cells: seq<CellRec>, cs: seq<seq<int>>, x: int, c: CellRec)
    requires Typed(cells, cs) && 0 <= x < |cells| && Exists(cells[x])
    requires Exists(c) && c.ty == cells[x].ty
    ensures Typed(cells[x := c], cs)
  {
  }

  /** Setting the REMOVE bit of the members of set `id` keeps every set
      typed, with or without set `id` emptied. */
  lemma MarkTyped(cells: seq<CellRec>, marked: seq<CellRec>, cs: seq<seq<int>>, id: int)
    requires Typed(cells, cs) && 0 <= id < |cs| && |marked| == |cells|
    requires forall j :: 0 <= j < |cells| ==> marked[j] == if j in cs[id] then MarkedRemoved(cells[j]) else cells[j]
    ensures Typed(marked, cs) && Typed(marked, cs[id := []])
  {
    forall t, x {:trigger x in cs[t]} | 0 <= t < |cs| && x in cs[t]
      ensures Exists(marked[x]) && marked[x].ty == t
    {
      assert marked[x] == if x in cs[id] then MarkedRemoved(cells[x]) else cells[x];
    }
  }

  /** After a complete `kill(id, true)` the sets are typed again: the
      killed set is empty, the dead copies are live dead cells, and every
      other member kept its record. */
  lemma ReplaceTyped(orig: seq<CellRec>, cs0: seq<seq<int>>, id: int, dead: seq<int>, cur: seq<CellRec>)
    requires |cs0| == 256 && 0 <= id < DEAD_CELL_TYPE && |cur| == |orig|
    requires Typed(orig, cs0) && |dead| == |cs0[id]|
    requires forall i :: 0 <= i < |cs0[id]| ==> 0 <= cs0[id][i] < |orig|
    requires DeadCopies(cur, orig, cs0[id], dead) && Untouched(cur, orig, cs0[id], dead)
    requires FromFree(orig, cs0[id], dead)
    ensures Typed(cur, cs0[id := []][DEAD_CELL_TYPE := AddAll(cs0[DEAD_CELL_TYPE], dead)])
  {
    var killed := cs0[id];
    var cs := cs0[id := []][DEAD_CELL_TYPE := AddAll(cs0[DEAD_CELL_TYPE], dead)];
    AddAllMembers(cs0[DEAD_CELL_TYPE], dead);
    forall t, x {:trigger x in cs[t]} | 0 <= t < |cs| && x in cs[t]
      ensures 0 <= x < |cur| && Exists(cur[x]) && cur[x].ty == t
    {
      if t == DEAD_CELL_TYPE && x in dead {
        DeadMember(orig, killed, dead, cur, x);
      } else {
        assert x in cs0[t];
        KeptMember(orig, cs0, id, killed, dead, cur, t, x);
      }
    }
  }

  /** Neither the killed slots nor the dead slots include slot 0, so a
      `kill(id, true)` leaves it alone. */
  lemma ReplaceKeepsZero(orig: seq<CellRec>, killed: seq<int>, dead: seq<int>, cur: seq<CellRec>)
    requires |cur| == |orig| >= 1 && |dead| <= |killed|
    requires forall i :: 0 <= i < |killed| ==> killed[i] != 0
    requires forall i :: 0 <= i < |dead| ==> dead[i] != 0
    requires Untouched(cur, orig, killed, dead)
    ensures cur[0] == orig[0]
  {
    assert 0 !in killed[..|dead|];
    assert 0 !in dead;
  }

  /** A dead slot holds a live dead cell. */
  lemma DeadMember(orig: seq<CellRec>, killed: seq<int>, dead: seq<int>, cur: seq<CellRec>, x: int)
    requires |cur| == |orig| && |dead| <= |killed|
    requires forall i :: 0 <= i < |killed| ==> 0 <= killed[i] < |orig|
    requires DeadCopies(cur, orig, killed, dead) && x in dead
    ensures 0 <= x < |cur| && Exists(cur[x]) && cur[x].ty == DEAD_CELL_TYPE
  {
    var i :| 0 <= i < |dead| && dead[i] == x;
    assert DeadCopyOf(cur[dead[i]], orig[killed[i]]);
  }

  /** A member of a set other than the killed one is neither a killed slot
      nor a dead slot, so it keeps its record. */
  lemma KeptMember(orig: seq<CellRec>, cs0: seq<seq<int>>, id: int, killed: seq<int>, dead: seq<int>, cur: seq<CellRec>, t: int, x: int)
    requires Typed(orig, cs0) && 0 <= id < |cs0| && killed == cs0[id] && |dead| == |killed| && |cur| == |orig|
    requires 0 <= t < |cs0| && t != id && x in cs0[t]
    requires Untouched(cur, orig, killed, dead) && FromFree(orig, killed, dead)
    ensures 0 <= x < |cur| && Exists(cur[x]) && cur[x].ty == t
  {
    var n := |dead|;
    assert killed[..n] == killed;
    assert x !in killed;
    forall i | 0 <= i < n
      ensures dead[i] != x
    {
      assert dead[i] in killed[..n] || !Exists(orig[dead[i]]);
    }
    assert cur[x] == orig[x];
  }

  /** The segments `sortIndices` leaves, rearrangements of duplicate-free
      typed sets, lie end to end without duplicates. */
  lemma SegmentsNoDup(cells: seq<CellRec>, cs: seq<seq<int>>, segs: seq<seq<int>>)
    requires |segs| == |cs| && Typed(cells, cs)
    requires forall t :: 0 <= t < |cs| ==> NoDup(cs[t])
    requires forall t :: 0 <= t < |segs| ==> multiset(segs[t]) == multiset(cs[t])
    ensures NoDup(Concat(segs))
  {
    forall t | 0 <= t < |segs|
      ensures NoDup(segs[t])
    {
      SameMultisetNoDup(segs[t], cs[t]);
    }
    forall t, u, x | 0 <= t < u < |segs| && x in segs[t]
      ensures x !in segs[u]
    {
      assert x in multiset(segs[t]);
      assert x in cs[t] && x !in cs[u];
      assert x !in multiset(cs[u]);
    }
    ConcatNoDup(segs);
  }

  /** The segments hold exactly the members of the sets. */
  lemma SegmentsMembers(cs: seq<seq<int>>, segs: seq<seq<int>>, x: int)
    requires |segs| == |cs|
    requires forall t :: 0 <= t < |segs| ==> multiset(segs[t]) == multiset(cs[t])
    ensures x in Concat(segs) <==> InSets(cs, x)
  {
    ConcatMembers(segs, x);
    if x in Concat(segs) {
      var t :| 0 <= t < |segs| && x in segs[t];
      assert x in multiset(segs[t]);
      assert x in cs[t];
    }
    if InSets(cs, x) {
      var t :| 0 <= t < |cs| && x in cs[t];
      assert x in multiset(cs[t]);
      assert x in segs[t];
    }
  }

  /** The slots `postResolve` freed are distinct, still live (the kernel
      clears them at the next `update`) and in no set. */
  ghost predicate Apart(cells: seq<CellRec>, removed: seq<int>, cs: seq<seq<int>>) {
    NoDup(removed) &&
    forall i :: 0 <= i < |removed| ==>
      1 <= removed[i] < |cells| && Exists(cells[removed[i]]) && !InSets(cs, removed[i])
  }

  /** Freed slots apart from typed sets make a layout the kernel's `update`
      accepts: non-zero distinct slot ids, then the sentinel. */
  lemma LayoutIndexBuffer(cells: seq<CellRec>, removed: seq<int>, counters: seq<seq<int>>)
    requires |cells| >= 1 && SetsWellFormed(counters, |cells|) && Typed(cells, counters)
    requires Apart(cells, removed, counters)
    ensures KernelUpdate.IndexBuffer(Layout(removed, counters), |cells|)
  {
    var limit := |cells|;
    var cs := counters[1..];
    forall t | 0 <= t < |cs|
      ensures NoDup(cs[t]) && SlotIds(cs[t], limit)
    {
      assert cs[t] == counters[t + 1];
    }
    forall t, u, x | 0 <= t < u < |cs| && x in cs[t]
      ensures x !in cs[u]
    {
      assert cs[t] == counters[t + 1] && cs[u] == counters[u + 1];
    }
    ConcatNoDup(cs);
    var b := Layout(removed, counters);
    var pre := removed + Concat(cs);
    assert b == pre + [0];
    forall j | |removed| <= j < |pre|
      ensures 1 <= pre[j] < limit && InSets(counters, pre[j])
    {
      ConcatMembers(cs, pre[j]);
      var u :| 0 <= u < |cs| && pre[j] in cs[u];
      assert pre[j] in counters[u + 1];
    }
    forall i, j | 0 <= i < j < |pre|
      ensures pre[i] != pre[j]
    {
      if i < |removed| <= j {
        assert !InSets(counters, removed[i]);
      }
    }
  }

  /** The buffer entries `postResolve` can free without losing count:
      distinct, each a member of a typed set or the clear slot 0. */
  ghost predicate Freeable(cells: seq<CellRec>, cs: seq<seq<int>>, idx: seq<int>) {
    Typed(cells, cs) && |cells| >= 1 && !Has(cells[0].flags, REMOVE_BIT) && NoDup(idx) &&
    forall i :: 0 <= i < |idx| ==> idx[i] == 0 || InSets(cs, idx[i])
  }

  /** A freeable entry that was not freed yet is still in its type's set. */
  lemma PruneMember(cs0: seq<seq<int>>, cs: seq<seq<int>>, removed: seq<int>, cells: seq<CellRec>, x: int)
    requires forall i :: 0 <= i < |removed| ==> 0 <= removed[i] < |cells|
    requires Typed(cells, cs0) && Pruned(cs0, cs, removed, cells)
    requires InSets(cs0, x) && x !in removed
    ensures 0 <= x < |cells| && cells[x].ty < |cs| && x in cs[cells[x].ty]
  {
    var t :| 0 <= t < |cs0| && x in cs0[t];
  }

  /** What freeing leaves: each freed slot was a live member and is in no
      set now, and the sets stay typed. */
  lemma PrunedApart(cs0: seq<seq<int>>, cs: seq<seq<int>>, removed: seq<int>, cells: seq<CellRec>, idx: seq<int>)
    requires forall i :: 0 <= i < |idx| ==> 0 <= idx[i] < |cells|
    requires Freeable(cells, cs0, idx) && removed == Flagged(cells, idx) && NoDup(removed)
    requires InRange(removed, |cells|) && Pruned(cs0, cs, removed, cells)
    ensures Typed(cells, cs) && Apart(cells, removed, cs)
  {
    forall t, x {:trigger x in cs[t]} | 0 <= t < |cs| && x in cs[t]
      ensures 0 <= x < |cells| && Exists(cells[x]) && cells[x].ty == t
    {
      assert x in cs0[t];
    }
    forall i | 0 <= i < |removed|
      ensures 1 <= removed[i] < |cells| && Exists(cells[removed[i]]) && !InSets(cs, removed[i])
    {
      FreedSlotApart(cs0, cs, removed, cells, idx, removed[i]);
    }
  }

  /** One freed slot was a live member and is in no set now. */
  lemma FreedSlotApart(cs0: seq<seq<int>>, cs: seq<seq<int>>, removed: seq<int>, cells: seq<CellRec>, idx: seq<int>, x: int)
    requires forall i :: 0 <= i < |idx| ==> 0 <= idx[i] < |cells|
    requires Freeable(cells, cs0, idx) && removed == Flagged(cells, idx) && x in removed
    requires InRange(removed, |cells|) && Pruned(cs0, cs, removed, cells)
    ensures 1 <= x < |cells| && Exists(cells[x]) && !InSets(cs, x)
  {
    FlaggedMembers(cells, idx, x);
    var j :| 0 <= j < |idx| && idx[j] == x;
    assert x != 0;
    var t :| 0 <= t < |cs0| && x in cs0[t];
    forall u | 0 <= u < |cs|
      ensures x !in cs[u]
    {
      if u != cells[x].ty {
        assert x !in cs0[u];
      }
    }
  }

  /** A record in no set is not listed by a buffer that lists only set
      members and the sentinel, so `postResolve` never frees it. */
  lemma UnlistedNeverFreed(cells: seq<CellRec>, cs: seq<seq<int>>, buf: seq<int>, x: int)
    requires InRange(buf, |cells|) && x != 0 && !InSets(cs, x)
    requires forall i :: 0 <= i < |buf| ==> buf[i] == 0 || InSets(cs, buf[i])
    ensures x !in Flagged(cells, buf)
  {
    FlaggedMembers(cells, buf, x);
  }

  /** A member of a set whose record carries the REMOVE bit, listed by a
      buffer that lists every member, is freed by `postResolve`. */
  lemma MarkedFreed(cells: seq<CellRec>, cs: seq<seq<int>>, buf: seq<int>, t: int, x: int)
    requires InRange(buf, |cells|) && 0 <= t < |cs| && x in cs[t] && 0 <= x < |cells|
    requires forall u, y :: 0 <= u < |cs| && y in cs[u] ==> y in buf
    requires Has(cells[x].flags, REMOVE_BIT)
    ensures x in Flagged(cells, buf)
  {
    FlaggedMembers(cells, buf, x);
  }

  /** A complete `kill(id, true)` on typed sets with slot 0 clear: the
      arena is as `ReplaceInv` describes, slot 0 is still clear, and the
      sets with the killed set emptied and the dead copies added are typed. */
  lemma ReplaceMembers(orig: seq<CellRec>, cs0: seq<seq<int>>, id: int, dead: seq<int>, limit: int)
    requires |orig| == limit >= 1 && 0 <= id < DEAD_CELL_TYPE
    requires orig[0] == Zero && Typed(orig, cs0) && SetsWellFormed(cs0, limit)
    requires |dead| == |cs0[id]| && forall i :: 0 <= i < |dead| ==> 1 <= dead[i] < limit
    requires PlacedFree(orig, cs0[id], dead, |dead|)
    ensures forall i :: 0 <= i < |cs0[id]| ==> 1 <= cs0[id][i] < limit
    ensures ReplaceInv(Replaced(orig, cs0[id], dead, |dead|), orig, cs0[id], dead, |dead|)
    ensures Replaced(orig, cs0[id], dead, |dead|)[0] == Zero
    ensures Typed(Replaced(orig, cs0[id], dead, |dead|), cs0[id := []][DEAD_CELL_TYPE := AddAll(cs0[DEAD_CELL_TYPE], dead)])
  {
    var killed := cs0[id];
    SlotIdsIndex(killed, limit);
    forall i | 0 <= i < |killed|
      ensures Exists(orig[killed[i]])
    {
      assert killed[i] in cs0[id];
    }
    ReplacedInv(orig, killed, dead);
    var cur := Replaced(orig, killed, dead, |dead|);
    ReplaceTyped(orig, cs0, id, dead, cur);
    ReplaceKeepsZero(orig, killed, dead, cur);
  }

  /** Emptying the killed set and adding one dead copy per killed cell
      does not grow the total. */
  lemma ReplaceTotal(cs0: seq<seq<int>>, id: int, dead: seq<int>)
    requires |cs0| == 256 && 0 <= id < DEAD_CELL_TYPE && |dead| == |cs0[id]|
    ensures SetTotal(cs0[id := []][DEAD_CELL_TYPE := AddAll(cs0[DEAD_CELL_TYPE], dead)]) <= SetTotal(cs0)
  {
    var added := AddAll(cs0[DEAD_CELL_TYPE], dead);
    AddAllMembers(cs0[DEAD_CELL_TYPE], dead);
    SetTotalUpdate(cs0, id, []);
    SetTotalUpdate(cs0[id := []], DEAD_CELL_TYPE, added);
  }

  /** Unless `exited`, slot 0 is clear, every set member is a live record
      of its set's type, and the sets hold at most `count` entries. */
  ghost predicate Coherent(exited: bool, cells: seq<CellRec>, cs: seq<seq<int>>, count: int) {
    exited || (|cells| >= 1 && cells[0] == Zero && Typed(cells, cs) && SetTotal(cs) <= count)
  }

  /** Placing a live record at a free slot other than 0 and adding the
      slot to the record's set keeps slot 0 clear, the sets typed and the
      freed slots apart, and the sets grow by one entry. */
  lemma PlaceKeeps(cells: seq<CellRec>, cs: seq<seq<int>>, removed: seq<int>, pos: int, c: CellRec)
    requires 1 <= pos < |cells| && !Exists(cells[pos]) && Exists(c) && c.ty < |cs|
    ensures cells[0] == Zero && Typed(cells, cs) ==>
      cells[pos := c][0] == Zero && Typed(cells[pos := c], cs[c.ty := Add(cs[c.ty], pos)]) &&
      SetTotal(cs[c.ty := Add(cs[c.ty], pos)]) == SetTotal(cs) + 1
    ensures Apart(cells, removed, cs) ==> Apart(cells[pos := c], removed, cs[c.ty := Add(cs[c.ty], pos)])
  {
    if Typed(cells, cs) {
      PlaceTyped(cells, cs, pos, c);
      SetTotalUpdate(cs, c.ty, Add(cs[c.ty], pos));
    }
    if Apart(cells, removed, cs) {
      PlaceApart(cells, removed, cs, pos, c);
    }
  }

  /** Placing a record at a free slot and adding the slot to a set keeps
      the freed slots, which are live, apart from the sets. */
  lemma PlaceApart(cells: seq<CellRec>, removed: seq<int>, cs: seq<seq<int>>, pos: int, c: CellRec)
    requires Apart(cells, removed, cs) && 0 <= pos < |cells| && !Exists(cells[pos]) && c.ty < |cs|
    ensures Apart(cells[pos := c], removed, cs[c.ty := Add(cs[c.ty], pos)])
  {
    var cs' := cs[c.ty := Add(cs[c.ty], pos)];
    forall i | 0 <= i < |removed|
      ensures 1 <= removed[i] < |cells| && Exists(cells[pos := c][removed[i]]) && !InSets(cs', removed[i])
    {
      var x := removed[i];
      assert x != pos;
      forall t | 0 <= t < |cs'|
        ensures x !in cs'[t]
      {
        assert x !in cs[t];
      }
    }
  }

  class Engine {
    /** `CELL_LIMIT`: the number of slots in the arena. */
    const limit: nat
    /** The arena; slot 0 is never handed out. */
    const cells: array<CellRec>
    /** One insertion-ordered set of slot ids per cell type. */
    var counters: seq<seq<int>>
    /** `__next_cell_id`: where the allocator looks first. */
    var nextCellId: int
    /** How many allocated cells are in the quadtree. */
    var cellCount: int
    /** Whether `stop()` was called. */
    var stopped: bool
    /** Whether `newCell` found no free slot and called `process.exit`;
        after that nothing is promised about the sets. */
    var exited: bool
    /** The slots `postResolve` freed. */
    var removedCells: seq<int>
    /** Pending `[controller id, replace]` kill requests. */
    var killArray: seq<(int, bool)>
    /** Controller ids waiting to spawn. */
    var spawnArray: seq<int>
    /** The index buffer shared with the kernel, sentinel included. */
    var indexBuffer: seq<int>
    /** `indices`: the number of buffer entries, sentinel included. */
    var indices: int

    ghost predicate Valid()
      reads this
    {
      2 <= limit <= 0x1_0000 && cells.Length == limit && 1 <= nextCellId < limit &&
      cellCount <= limit - 1 &&
      SetsWellFormed(counters, limit) && 0 <= indices <= |indexBuffer| &&
      InRange(indexBuffer, limit) && InRange(removedCells, limit)
    }

    /** Slot 0 stays clear, and every set member is a live record of its
        set's type, so the sets are pairwise disjoint. */
    ghost predicate Members()
      reads this, cells
      requires Valid()
    {
      cells[0] == Zero && Typed(cells[..], counters)
    }

    /** Until the process exits, the sets agree with the arena and hold at
        most `cellCount` slots, so `cellCount` is never negative. A dead
        copy made by `kill(id, true)` is not counted itself: it takes over
        the count of the cell it replaces. */
    ghost predicate Consistent()
      reads this, cells
      requires Valid()
    {
      Coherent(exited, cells[..], counters, cellCount)
    }

    /** The slots `postResolve` freed are distinct, live and in no set, as
        they stay until the kernel's `update` clears them. */
    ghost predicate FreedApart()
      reads this, cells
      requires Valid()
    {
      Apart(cells[..], removedCells, counters)
    }

    /** The buffer as `sortIndices` leaves it: every set member exactly
        once, then the sentinel. */
    ghost predicate Listed()
      reads this
      requires Valid()
    {
      0 < indices == |indexBuffer| && indexBuffer[indices - 1] == 0 &&
      NoDup(indexBuffer[..indices - 1]) &&
      (forall i :: 0 <= i < indices - 1 ==> InSets(counters, indexBuffer[i])) &&
      (forall t, x {:trigger x in counters[t]} :: 0 <= t < 256 && x in counters[t] ==> x in indexBuffer)
    }

    /** The queues and buffers the allocator and `kill` leave alone. */
    ghost function Queues(): (seq<int>, seq<(int, bool)>, seq<int>, seq<int>, int)
      reads this
    {
      (removedCells, killArray, spawnArray, indexBuffer, indices)
    }

    /** Everything but the two delay queues. */
    ghost function Core(): (seq<seq<int>>, int, int, bool, bool, seq<int>, seq<int>, int)
      reads this
    {
      (counters, nextCellId, cellCount, stopped, exited, removedCells, indexBuffer, indices)
    }

    /** `bindBuffers`: an all-zero arena of `limit` slots, empty sets and
        queues, the allocator at slot 1. */
    constructor (limit: nat)
      requires 2 <= limit <= 0x1_0000
      ensures Valid() && Consistent() && FreedApart() && fresh(cells) && this.limit == limit
      ensures forall i :: 0 <= i < limit ==> cells[i] == Zero
      ensures counters == seq(256, _ => []) && nextCellId == 1 && cellCount == 0 && !stopped && !exited
      ensures removedCells == [] && killArray == [] && spawnArray == [] && indexBuffer == [] && indices == 0
    {
      this.limit := limit;
      cells := new CellRec[limit](_ => Zero);
      counters := seq(256, _ => []);
      nextCellId := 1;
      cellCount := 0;
      stopped := false;
      exited := false;
      removedCells := [];
      killArray := [];
      spawnArray := [];
      indexBuffer := [];
      indices := 0;
      new;
      SetTotalEmpty(counters);
    }

    /** `newCell(x, y, size, type, boostX, boostY, boost, insert)`. */
    method NewCell(x: real, y: real, size: real, ty: Byte, bx: real, by_: real, boost: real, insert: bool)
      returns (r: Spawn)
      requires Valid()
      modifies this, cells
      ensures Valid()
      ensures Queues() == old(Queues())
      ensures r.LimitReached? <==> old(cellCount) >= limit - 1
      ensures stopped == (old(stopped) || r.LimitReached?) && exited == (old(exited) || r.SlotsExhausted?)
      ensures r.LimitReached? ==> nextCellId == old(nextCellId)
      ensures !r.Spawned? ==>
        cells[..] == old(cells[..]) && counters == old(counters) && cellCount == old(cellCount)
      // the probe runs out only when every slot but 0 is taken
      ensures r.SlotsExhausted? ==> AllTaken(cells[..], limit)
      // the slot taken is the first free one from where the allocator stood
      ensures r.Spawned? ==> (1 <= r.id < limit && nextCellId == r.id &&
        FirstFree(old(cells[..]), old(nextCellId), r.id, limit) &&
        cells[..] == old(cells[..])[r.id := Placed(old(cells[r.id]), x, y, size, ty, bx, by_, boost)] &&
        counters == old(counters)[ty := Add(old(counters[ty]), r.id)] &&
        cellCount == old(cellCount) + (if insert then 1 else 0))
      // the taken slot was in no set, so the sets stay typed and grow by one
      ensures old(Members()) ==> Members()
      ensures r.Spawned? && old(Members()) ==> SetTotal(counters) == old(SetTotal(counters)) + 1
      ensures insert && old(Consistent()) ==> Consistent()
      ensures old(FreedApart()) ==> FreedApart()
    {
      if cellCount >= limit - 1 {
        stopped := true;
        return LimitReached;
      }
      var pos, found := Probe(cells[..], nextCellId, limit);
      if !found {
        nextCellId := pos;
        exited := true;
        return SlotsExhausted;
      }
      Place(pos, Placed(cells[pos], x, y, size, ty, bx, by_, boost), insert);
      nextCellId := pos;
      r := Spawned(pos);
    }

    /** What `newCell` writes once it found the free slot `pos`: the record,
        the tree count when `insert`, and the type's set. */
    method Place(pos: int, c: CellRec, insert: bool)
      requires Valid() && 1 <= pos < limit && !Exists(cells[pos]) && Exists(c) && cellCount < limit - 1
      modifies this, cells
      ensures Valid()
      ensures cells[..] == old(cells[..])[pos := c]
      ensures counters == old(counters)[c.ty := Add(old(counters[c.ty]), pos)]
      ensures cellCount == old(cellCount) + (if insert then 1 else 0)
      ensures Queues() == old(Queues()) && nextCellId == old(nextCellId)
      ensures stopped == old(stopped) && exited == old(exited)
      // the slot was in no set, so the sets stay typed and grow by one
      ensures old(Members()) ==> Members() && SetTotal(counters) == old(SetTotal(counters)) + 1
      ensures insert && old(Consistent()) ==> Consistent()
      ensures old(FreedApart()) ==> FreedApart()
    {
      PlaceKeeps(cells[..], counters, removedCells, pos, c);
      SetsUpdate(counters, c.ty, Add(counters[c.ty], pos), limit);
      cells[pos] := c;
      if insert {
        cellCount := cellCount + 1;
      }
      counters := counters[c.ty := Add(counters[c.ty], pos)];
    }

    /** `delaySpawn(id)`: queue controller `id` for the next spawn phase. */
    method DelaySpawn(id: int)
      modifies this
      ensures spawnArray == old(spawnArray) + [id]
      ensures killArray == old(killArray) && Core() == old(Core())
      ensures old(Valid()) ==>
        Valid() && (old(Consistent()) ==> Consistent()) && (old(FreedApart()) ==> FreedApart())
    {
      spawnArray := spawnArray + [id];
    }

    /** `delayKill(id, replace)`, with `alive` standing for the controller's
        alive flag: a dead controller's request is dropped. */
    method DelayKill(id: int, replace: bool, alive: bool)
      modifies this
      ensures killArray == if alive then old(killArray) + [(id, replace)] else old(killArray)
      ensures spawnArray == old(spawnArray) && Core() == old(Core())
      ensures old(Valid()) ==>
        Valid() && (old(Consistent()) ==> Consistent()) && (old(FreedApart()) ==> FreedApart())
    {
      if !alive {
        return;
      }
      killArray := killArray + [(id, replace)];
    }

    /** `kill(id, true)`: put a dead cell in place of each of the
        controller's cells, zero the controller's records and empty its set.
        `dead` lists the slots of the dead cells, one per killed cell. It
        fails when `newCell` cannot place a dead cell: at the first cell
        when the count has reached the limit (the count does not change
        during the kill), or when the process exits. The model stops at
        that refusal; the source carries on with an undefined dead cell. */
    method KillReplace(id: Byte) returns (ok: bool, ghost dead: seq<int>)
      requires Valid() && Consistent() && id < DEAD_CELL_TYPE
      modifies this, cells
      ensures Valid() && Consistent()
      ensures Queues() == old(Queues()) && cellCount == old(cellCount)
      ensures ok ==> (exited == old(exited) && |dead| == |old(counters[id])| &&
        counters == old(counters)[id := []][DEAD_CELL_TYPE := AddAll(old(counters[DEAD_CELL_TYPE]), dead)] &&
        cells[..] == Replaced(old(cells[..]), old(counters[id]), dead, |dead|) &&
        PlacedFree(old(cells[..]), old(counters[id]), dead, |dead|))
      // each killed cell has a dead copy at its slot in `dead`, its own slot
      // is cleared unless a later copy reused it, and nothing else changed
      ensures ok && !old(exited) ==>
        (forall i :: 0 <= i < |old(counters[id])| ==> 1 <= old(counters[id])[i] < limit) &&
        ReplaceInv(cells[..], old(cells[..]), old(counters[id]), dead, |dead|)
      ensures !ok ==>
        exited || (old(cellCount) >= limit - 1 && stopped && dead == [] &&
                   cells[..] == old(cells[..]) && counters == old(counters))
    {
      var killed := counters[id];
      SlotIdsIndex(killed, limit);
      ghost var orig := cells[..];
      ghost var cs0 := counters;
      ok, dead := ReplaceAll(killed);
      if !ok {
        return;
      }
      ClearKilled(id, orig, cs0, dead);
    }

    /** The end of `kill(id, true)`, `counters[id].clear()`, after every
        killed cell got its dead copy at its slot in `dead`: the sets are
        consistent again and the arena is as `ReplaceInv` describes. */
    method ClearKilled(id: Byte, ghost orig: seq<CellRec>, ghost cs0: seq<seq<int>>, ghost dead: seq<int>)
      requires Valid() && id < DEAD_CELL_TYPE && |orig| == limit && SetsWellFormed(cs0, limit)
      requires |dead| == |cs0[id]| && forall i :: 0 <= i < |dead| ==> 1 <= dead[i] < limit
      requires counters == cs0[DEAD_CELL_TYPE := AddAll(cs0[DEAD_CELL_TYPE], dead)]
      requires cells[..] == Replaced(orig, cs0[id], dead, |dead|) && PlacedFree(orig, cs0[id], dead, |dead|)
      requires Coherent(exited, orig, cs0, cellCount)
      modifies this
      ensures Valid() && Consistent()
      ensures counters == cs0[id := []][DEAD_CELL_TYPE := AddAll(cs0[DEAD_CELL_TYPE], dead)]
      ensures Queues() == old(Queues()) && cellCount == old(cellCount) && nextCellId == old(nextCellId)
      ensures stopped == old(stopped) && exited == old(exited)
      ensures !exited ==>
        (forall i :: 0 <= i < |cs0[id]| ==> 1 <= cs0[id][i] < limit) &&
        ReplaceInv(cells[..], orig, cs0[id], dead, |dead|)
    {
      SetsUpdate(counters, id, [], limit);
      ghost var added := AddAll(cs0[DEAD_CELL_TYPE], dead);
      ghost var none: seq<int> := [];
      assert cs0[DEAD_CELL_TYPE := added][id := none] == cs0[id := none][DEAD_CELL_TYPE := added];
      counters := counters[id := []];
      if !exited {
        ReplaceMembers(orig, cs0, id, dead, limit);
        ReplaceTotal(cs0, id, dead);
      }
    }

    /** The loop of `kill(id, true)` over the slots `killed`: one dead copy
        per cell, each at the slot `newCell` picked. It stops at the first
        failure of `newCell`, which can only be the first round when the
        count has reached the limit, since the count does not change. The
        source does not stop there: it goes on with an undefined dead cell. */
    method ReplaceAll(killed: seq<int>) returns (ok: bool, ghost dead: seq<int>)
      requires Valid() && forall i :: 0 <= i < |killed| ==> 1 <= killed[i] < limit
      modifies this, cells
      ensures Valid() && Queues() == old(Queues()) && cellCount == old(cellCount)
      ensures ok ==> (exited == old(exited) && |dead| == |killed| &&
        (forall i :: 0 <= i < |dead| ==> 1 <= dead[i] < limit) &&
        counters == old(counters)[DEAD_CELL_TYPE := AddAll(old(counters[DEAD_CELL_TYPE]), dead)] &&
        cells[..] == Replaced(old(cells[..]), killed, dead, |dead|) &&
        PlacedFree(old(cells[..]), killed, dead, |dead|))
      ensures !ok ==>
        exited || (old(cellCount) >= limit - 1 && stopped && exited == old(exited) && dead == [] &&
                   cells[..] == old(cells[..]) && counters == old(counters))
    {
      ghost var orig := cells[..];
      ghost var cs0 := counters;
      dead := [];
      var k := 0;
      while k < |killed|
        invariant Valid() && 0 <= k <= |killed| && |dead| == k
        invariant Rounds(orig, cs0, killed, dead, cells[..], counters, limit)
        invariant Queues() == old(Queues()) && cellCount == old(cellCount) && exited == old(exited)
        invariant k > 0 ==> cellCount < limit - 1
      {
        ghost var cur, cs := cells[..], counters;
        var r := ReplaceOne(killed[k]);
        if !r.Spawned? {
          if r.LimitReached? {
            assert k == 0 && dead == [] && cells[..] == orig && counters == cs0;
          }
          return false, dead;
        }
        RoundStep(orig, cs0, killed, dead, cur, cs, limit, r.id, cells[..]);
        dead := dead + [r.id];
        k := k + 1;
      }
      ok := true;
    }

    /** One round of the loop of `kill(id, true)`, for the cell at slot
        `victim`: `newCell` places a dead copy of it, not inserted in the
        tree, at a free slot, then the victim's record is cleared. */
    method ReplaceOne(victim: int) returns (r: Spawn)
      requires Valid() && 1 <= victim < limit
      modifies this, cells
      ensures Valid()
      ensures Queues() == old(Queues()) && cellCount == old(cellCount)
      ensures r.Spawned? ==> (1 <= r.id < limit && old(cellCount) < limit - 1 && exited == old(exited) &&
        !Exists(old(cells[r.id])) &&
        counters == old(counters)[DEAD_CELL_TYPE := Add(old(counters[DEAD_CELL_TYPE]), r.id)] &&
        cells[..] == ReplaceRound(old(cells[..]), victim, r.id))
      ensures r.LimitReached? ==> (old(cellCount) >= limit - 1 && stopped && exited == old(exited) &&
        cells[..] == old(cells[..]) && counters == old(counters))
      ensures r.SlotsExhausted? ==> exited
    {
      var c := cells[victim];
      r := NewCell(c.x, c.y, c.r, DEAD_CELL_TYPE, c.boostX, c.boostY, c.boost, false);
      if !r.Spawned? {
        return;
      }
      cells[victim] := Zero;
    }

    /** The marking loop of `kill(id, false)`: `cell.remove()` on each slot
        of `killed`. */
    method MarkAll(killed: seq<int>)
      requires Valid() && NoDup(killed) && SlotIds(killed, limit)
      modifies cells
      ensures forall j :: 0 <= j < limit ==>
        cells[j] == if j in killed then MarkedRemoved(old(cells[j])) else old(cells[j])
    {
      SlotIdsIndex(killed, limit);
      var k := 0;
      while k < |killed|
        invariant 0 <= k <= |killed|
        invariant forall j :: 0 <= j < limit ==>
          cells[j] == if j in killed[..k] then MarkedRemoved(old(cells[j])) else old(cells[j])
      {
        assert killed[..k + 1] == killed[..k] + [killed[k]];
        assert killed[k] !in killed[..k];
        cells[killed[k]] := MarkedRemoved(cells[killed[k]]);
        k := k + 1;
      }
      assert killed[..k] == killed;
    }

    /** `kill(id, false)` as written: set the REMOVE bit of each of the
        controller's cells and empty its set. The marked cells stay live
        and counted in `cellCount` but leave the sets, so no later buffer
        lists them (see `UnlistedNeverFreed`). */
    method KillRemove(id: Byte)
      requires Valid() && Consistent()
      modifies this, cells
      ensures Valid() && Consistent()
      ensures counters == old(counters)[id := []]
      ensures forall j :: 0 <= j < limit ==>
        cells[j] == if j in old(counters[id]) then MarkedRemoved(old(cells[j])) else old(cells[j])
      ensures SetTotal(counters) == old(SetTotal(counters)) - |old(counters[id])|
      ensures Queues() == old(Queues()) && cellCount == old(cellCount)
      ensures nextCellId == old(nextCellId) && stopped == old(stopped) && exited == old(exited)
    {
      MarkAll(counters[id]);
      if !exited {
        MarkTyped(old(cells[..]), cells[..], counters, id);
      }
      SetTotalUpdate(counters, id, []);
      SetsUpdate(counters, id, [], limit);
      counters := counters[id := []];
    }

    /** `kill(id, false)` as evidently intended: set the REMOVE bit of each
        of the controller's cells and leave them in its set, so that the
        next buffer lists them and `postResolve` frees them (see
        `MarkedFreed`). */
    method KillMark(id: Byte)
      requires Valid() && Consistent()
      modifies cells
      ensures Valid() && Consistent()
      ensures forall j :: 0 <= j < limit ==>
        cells[j] == if j in counters[id] then MarkedRemoved(old(cells[j])) else old(cells[j])
    {
      MarkAll(counters[id]);
      if !exited {
        MarkTyped(old(cells[..]), cells[..], counters, id);
      }
    }

    /** `updateIndices`: write the index buffer for the kernel's `update`. */
    method UpdateIndices()
      requires Valid() && Consistent()
      modifies this
      ensures Valid() && Consistent()
      ensures indexBuffer == Layout(old(removedCells), old(counters)) && indices == |indexBuffer|
      ensures counters == old(counters) && removedCells == old(removedCells)
      ensures killArray == old(killArray) && spawnArray == old(spawnArray) && cellCount == old(cellCount)
      ensures nextCellId == old(nextCellId) && stopped == old(stopped) && exited == old(exited)
      // with the freed slots apart from the sets, `update` accepts the buffer
      ensures !exited && FreedApart() ==> KernelUpdate.IndexBuffer(indexBuffer, limit)
    {
      indexBuffer := WriteLayout(removedCells, counters);
      LayoutInRange(removedCells, counters, limit);
      indices := |indexBuffer|;
      if !exited && FreedApart() {
        LayoutIndexBuffer(cells[..], removedCells, counters);
      }
    }

    /** `sortIndices`: write every type's set to the buffer in type order,
        sentinel last, then have the kernel sort each player type's segment
        by non-increasing radius. `segs` are the segments as they end up. */
    method SortIndices() returns (ghost segs: seq<seq<int>>)
      requires Valid() && Consistent()
      modifies this
      ensures Valid() && Consistent()
      ensures |segs| == 256 && indexBuffer == Concat(segs) + [0] && indices == |indexBuffer|
      ensures forall t :: 0 <= t < 256 ==> multiset(segs[t]) == multiset(counters[t])
      ensures forall t :: 0 <= t <= 250 ==> SortedByRadius(cells[..], segs[t])
      ensures forall t :: 250 < t < 256 ==> segs[t] == counters[t]
      ensures counters == old(counters) && removedCells == old(removedCells)
      ensures killArray == old(killArray) && spawnArray == old(spawnArray) && cellCount == old(cellCount)
      ensures nextCellId == old(nextCellId) && stopped == old(stopped) && exited == old(exited)
      // the buffer lists every set member exactly once
      ensures !exited ==> Listed()
    {
      var all := WriteAll(counters);
      var buf;
      buf, segs := SortSegments(cells[..], counters, all);
      forall t | 0 <= t < 256
        ensures SlotIds(segs[t], limit)
      {
        SameMultisetSlotIds(segs[t], counters[t], limit);
      }
      ConcatMembersBound(segs, limit);
      indexBuffer := buf + [0];
      indices := |indexBuffer|;
      if !exited {
        SegmentsNoDup(cells[..], counters, segs);
        assert indexBuffer[..indices - 1] == buf;
        forall i | 0 <= i < indices - 1
          ensures InSets(counters, indexBuffer[i])
        {
          SegmentsMembers(counters, segs, indexBuffer[i]);
        }
        forall t, x {:trigger x in counters[t]} | 0 <= t < 256 && x in counters[t]
          ensures x in indexBuffer
        {
          SegmentsMembers(counters, segs, x);
        }
      }
    }

    /** `postResolve`, its removal branch: every listed slot whose record
        carries the REMOVE bit leaves its type's set, is recorded as freed
        and is no longer counted. */
    method PostResolve()
      requires Valid() && Consistent()
      modifies this
      ensures Valid()
      ensures removedCells == Flagged(cells[..], old(indexBuffer)[..old(indices)])
      ensures Pruned(old(counters), counters, removedCells, cells[..])
      ensures cellCount == old(cellCount) - |removedCells|
      ensures indexBuffer == old(indexBuffer) && indices == old(indices)
      ensures killArray == old(killArray) && spawnArray == old(spawnArray) && nextCellId == old(nextCellId)
      ensures stopped == old(stopped) && exited == old(exited)
      // on the buffer `sortIndices` wrote every freed slot was a member, so
      // the count stays consistent and the freed slots are apart
      ensures old(Listed()) ==> Consistent()
      ensures old(Listed()) && !exited ==> FreedApart()
    {
      ghost var h := Listed() && !exited;
      ghost var idx := indexBuffer[..indices];
      ghost var cs0 := counters;
      if h {
        ListedFreeable();
      }
      var freed;
      counters, freed := Prune(cells[..], counters, indexBuffer[..indices], limit);
      removedCells := freed;
      cellCount := cellCount - |freed|;
      if h {
        PrunedApart(cs0, counters, freed, cells[..], idx);
      }
    }

    /** The buffer `sortIndices` wrote lists distinct members and the
        sentinel, and slot 0 is clear. */
    lemma ListedFreeable()
      requires Valid() && Consistent() && Listed() && !exited
      ensures Freeable(cells[..], counters, indexBuffer[..indices])
    {
      var idx := indexBuffer[..indices];
      var n := indices - 1;
      forall i | 0 <= i < n
        ensures idx[i] != 0
      {
        var t :| 0 <= t < 256 && idx[i] in counters[t];
      }
      assert idx[n] == 0;
      assert forall i, j :: 0 <= i < j < n ==> idx[i] != idx[j] by {
        assert idx[..n] == indexBuffer[..indices - 1];
      }
    }

    /** `splitFromCell(cell, size, boostX, boostY, boost)` on slot `id`,
        with `root` standing for `Math.sqrt(r² - size²)` and `splitDist` for
        `PLAYER_SPLIT_DIST`: the parent shrinks to `root` and is marked
        updated, then a cell of the parent's type and radius `size` is placed
        `splitDist` along the boost direction. */
    method SplitFromCell(id: nat, size: real, root: real, bx: real, by_: real, boost: real, splitDist: real)
      returns (r: Spawn)
      requires Valid() && Consistent() && id < limit && Exists(cells[id])
      requires root >= 0.0 && root * root == cells[id].r * cells[id].r - size * size
      modifies this, cells
      ensures Valid() && Consistent() && Queues() == old(Queues())
      ensures r.LimitReached? <==> old(cellCount) >= limit - 1
      ensures stopped == (old(stopped) || r.LimitReached?) && exited == (old(exited) || r.SlotsExhausted?)
      ensures r.LimitReached? ==> nextCellId == old(nextCellId)
      ensures !r.Spawned? ==> (cells[..] == old(cells[..])[id := Shrunk(old(cells[id]), root)] &&
        counters == old(counters) && cellCount == old(cellCount))
      ensures r.Spawned? ==> (counters == old(counters)[old(cells[id]).ty := Add(old(counters)[old(cells[id]).ty], r.id)] &&
        cellCount == old(cellCount) + 1 && nextCellId == r.id)
      ensures r.Spawned? ==> (r.id < limit && r.id != id &&
        cells[..] == old(cells[..])[id := Shrunk(old(cells[id]), root)][r.id :=
          Placed(old(cells[r.id]), old(cells[id]).x + splitDist * bx, old(cells[id]).y + splitDist * by_,
                 size, old(cells[id]).ty, bx, by_, boost)])
      // the two pieces carry the parent's whole area
      ensures r.Spawned? ==> cells[id].r * cells[id].r + cells[r.id].r * cells[r.id].r == old(cells[id].r * cells[id].r)
    {
      var c := cells[id];
      if !exited {
        RewriteTyped(cells[..], counters, id, Shrunk(c, root));
      }
      cells[id] := Shrunk(c, root);
      r := NewCell(c.x + splitDist * bx, c.y + splitDist * by_, size, c.ty, bx, by_, boost, true);
    }
  }
}
