/** The pairwise resolution of src/c/core.c (`resolve`) and the merge-bit
    rules of `update_player_cells`. Resolution walks the index buffer; for
    each cell it first applies the skip test and the dead-cell timeout, then
    looks at every cell the quadtree returns near it and decides, pair by
    pair, whether the two collide, one eats the other, or nothing happens.
    Distances are compared squared, so no square root is needed except for
    the eater's new radius, which the caller supplies. */
module KernelResolve {
  import opened Cells

  /** The scalar arguments of `resolve`. */
  datatype ResolveParams = ResolveParams(
    noColliDelay: U32, eatOverlap: real, eatMulti: real,
    virusMaxSize: real, removeTick: U32)

  /** What a pair of cells does, as the source's PHYSICS_* codes. */
  datatype Action = Non | Eat | Col

  /** Both records carry the MERGE bit. */
  predicate BothMerge(a: CellRec, b: CellRec) {
    Has(a.flags & b.flags, MERGE_BIT)
  }

  /** The action table: what `cell` does to `other` once it has been chosen
      as the one of the pair that looks. */
  function ActionOf(cell: CellRec, other: CellRec, q: ResolveParams): (a: Action)
    // a player eats every other type, and eats its own cells only to merge
    ensures IsPlayer(cell.ty) && cell.ty != other.ty ==> a == Eat
    ensures a == Eat && cell.ty == other.ty ==>
      cell.ty == MOTHER_CELL_TYPE || (IsPlayer(cell.ty) && BothMerge(cell, other))
    // collisions happen only between cells of one type
    ensures a == Col ==> cell.ty == other.ty
    ensures a == Col ==> cell.ty == EJECTED_TYPE || cell.ty == DEAD_CELL_TYPE || IsPlayer(cell.ty)
    ensures a == Col && IsPlayer(cell.ty) ==>
      !BothMerge(cell, other) && cell.age > q.noColliDelay && other.age > q.noColliDelay
    // the only non-player eaters: a virus eating ejected mass, or a mother cell
    ensures a == Eat && !IsPlayer(cell.ty) ==>
      cell.ty == MOTHER_CELL_TYPE || (cell.ty == VIRUS_TYPE && other.ty == EJECTED_TYPE)
    ensures cell.ty == MOTHER_CELL_TYPE ==> a == Eat
    // pellets never act; a virus ignores everything except ejected mass
    ensures cell.ty == PELLET_TYPE ==> a == Non
    ensures cell.ty == VIRUS_TYPE && other.ty != EJECTED_TYPE ==> a == Non
  {
    if IsPlayer(cell.ty) then
      if cell.ty == other.ty then
        if BothMerge(cell, other) then Eat
        else if cell.age > q.noColliDelay && other.age > q.noColliDelay then Col
        else Non
      else Eat
    else if cell.ty == VIRUS_TYPE && other.ty == EJECTED_TYPE then Eat
    else if cell.ty == EJECTED_TYPE && other.ty == EJECTED_TYPE then Col
    else if cell.ty == DEAD_CELL_TYPE then
      if other.ty == DEAD_CELL_TYPE then Col else Non
    else if cell.ty == MOTHER_CELL_TYPE then Eat
    else Non
  }

  /** Which side of a pair looks: the larger cell, or on equal radii the
      one in the lower slot. (The source compares record addresses, which
      are ordered as slot ids.) */
  predicate Looks(cell: CellRec, id: int, other: CellRec, oid: int) {
    id != oid && !(cell.r < other.r) && !(cell.r == other.r && id > oid)
  }

  /** Every pair of distinct cells is looked at from exactly one side. */
  lemma LooksOnce(a: CellRec, ia: int, b: CellRec, ib: int)
    requires ia != ib
    ensures Looks(a, ia, b, ib) != Looks(b, ib, a, ia)
  {
  }

  /** The cheap rejection before the distance is computed: the other
      centre lies too far right or too far up. */
  predicate FarApart(cell: CellRec, other: CellRec) {
    other.x - cell.x > cell.r + other.r || other.y - cell.y > cell.r + other.r
  }

  /** The squared distance between two centres. */
  function DistSq(cell: CellRec, other: CellRec): (d2: real)
    ensures d2 >= 0.0
  {
    var dx := other.x - cell.x;
    var dy := other.y - cell.y;
    dx * dx + dy * dy
  }

  /** The eat rule: the eater is of the same type or larger by the factor
      `eatMulti`, and the distance is below its radius less the other's
      radius over `eatOverlap`, compared here on squares. */
  predicate CanEat(cell: CellRec, other: CellRec, q: ResolveParams)
    requires q.eatOverlap != 0.0
  {
    var m := cell.r - other.r / q.eatOverlap;
    (cell.ty == other.ty || cell.r > other.r * q.eatMulti) && m > 0.0 && DistSq(cell, other) < m * m
  }

  /** Two cells overlap: the distance is below the sum of their radii. */
  predicate Overlaps(cell: CellRec, other: CellRec) {
    cell.r + other.r > 0.0 && DistSq(cell, other) < (cell.r + other.r) * (cell.r + other.r)
  }

  /** The test that marks the other cell INSIDE: the distance (taken as 1
      for coincident centres) plus the other radius is below this radius. */
  predicate Inside(cell: CellRec, other: CellRec) {
    if DistSq(cell, other) == 0.0 then 1.0 + other.r < cell.r
    else cell.r - other.r > 0.0 && DistSq(cell, other) < (cell.r - other.r) * (cell.r - other.r)
  }

  /** For non-negative `d` and `m > 0`, `d < m` exactly when `d * d < m * m`. */
  lemma SquareMonotone(d: real, m: real)
    requires d >= 0.0 && m > 0.0
    ensures d < m <==> d * d < m * m
  {
    var dd, dm, mm := d * d, d * m, m * m;
    if d < m {
      assert dd <= dm;
      assert dm < mm;
    } else {
      assert mm <= dm;
      assert dm <= dd;
    }
  }

  /** With `d` the distance, the squared forms of the rules agree with the
      source's tests on `d`: eating needs `d < r1 - r2 / eatOverlap`,
      colliding needs `m = r1 + r2 - d > 0`, and INSIDE needs
      `d + r2 < r1` with `d` raised to 1 when it is 0. */
  lemma RulesOnDistance(cell: CellRec, other: CellRec, q: ResolveParams, d: real)
    requires q.eatOverlap != 0.0
    requires d >= 0.0 && d * d == DistSq(cell, other)
    ensures CanEat(cell, other, q) <==>
      (cell.ty == other.ty || cell.r > other.r * q.eatMulti) && d < cell.r - other.r / q.eatOverlap
    ensures Overlaps(cell, other) <==> cell.r + other.r - d > 0.0
    ensures Inside(cell, other) <==> (if d == 0.0 then 1.0 else d) + other.r < cell.r
  {
    var m := cell.r - other.r / q.eatOverlap;
    if m > 0.0 {
      SquareMonotone(d, m);
    }
    var s := cell.r + other.r;
    if s > 0.0 {
      SquareMonotone(d, s);
    }
    InsideOnDistance(cell, other, d);
  }

  /** The INSIDE test on squares agrees with the source's test on the
      distance `d`, raised to 1 when it is 0. */
  lemma InsideOnDistance(cell: CellRec, other: CellRec, d: real)
    requires d >= 0.0 && d * d == DistSq(cell, other)
    ensures Inside(cell, other) <==> (if d == 0.0 then 1.0 else d) + other.r < cell.r
  {
    var e := cell.r - other.r;
    var dd := d * d;
    if d == 0.0 {
      assert DistSq(cell, other) == 0.0;
    } else {
      assert d > 0.0;
      SquareMonotone(0.0, d);
      assert dd > 0.0;
      assert DistSq(cell, other) != 0.0;
      if e > 0.0 {
        SquareMonotone(d, e);
        assert Inside(cell, other) <==> dd < e * e;
      } else {
        assert !(d < e);
        assert !Inside(cell, other);
      }
    }
  }

  /** The cheap rejection never drops a pair that could eat or collide:
      for cells of non-negative radius and a positive overlap divisor, a
      rejected pair neither overlaps nor passes the eat rule. */
  lemma FarApartSound(cell: CellRec, other: CellRec, q: ResolveParams)
    requires cell.r >= 0.0 && other.r >= 0.0 && q.eatOverlap > 0.0
    requires FarApart(cell, other)
    ensures !Overlaps(cell, other) && !CanEat(cell, other, q)
  {
    var dx := other.x - cell.x;
    var dy := other.y - cell.y;
    var s := cell.r + other.r;
    var big := if dx > s then dx else dy;
    assert big > s >= 0.0;
    assert big * big > s * s by {
      SquareMonotone(s, big);
    }
    assert DistSq(cell, other) >= big * big;
    var m := cell.r - other.r / q.eatOverlap;
    assert other.r / q.eatOverlap >= 0.0;
    if m > 0.0 {
      assert m <= s;
      assert m * m <= s * s by {
        if m < s {
          SquareMonotone(m, s);
        }
      }
    }
  }

  /** The record of the eaten cell: REMOVE set and `eatenBy` naming the
      eater, except that an eaten virus or mother cell records no eater. */
  function Eaten(other: CellRec, eater: U16): (o: CellRec)
    ensures Has(o.flags, REMOVE_BIT)
    ensures o.eatenBy == if other.ty == VIRUS_TYPE || other.ty == MOTHER_CELL_TYPE then 0 else eater
    ensures o.x == other.x && o.y == other.y && o.r == other.r && o.ty == other.ty && o.age == other.age
  {
    var who := if other.ty == VIRUS_TYPE || other.ty == MOTHER_CELL_TYPE then 0 else eater;
    other.(eatenBy := who, flags := other.flags | REMOVE_BIT)
  }

  /** The share of the eaten ejected mass's boost a player cell of new
      radius `root` takes: 2% of the mass's radius over `root + 100`. */
  function BoostShare(other: CellRec, root: real): (share: real)
    requires root >= 0.0
  {
    other.r / (root + 100.0) * 0.02
  }

  /** `flags` with the POP bit added when `cond` holds. */
  function WithPop(flags: bv8, cond: bool): (f: bv8)
    ensures f & !POP_BIT == flags & !POP_BIT
    ensures Has(f, POP_BIT) <==> cond || Has(flags, POP_BIT)
  {
    if cond then flags | POP_BIT else flags
  }

  /** The record of the eater, given `root`, the square root of the sum of
      the two squared radii: it takes that radius; a player eating ejected
      mass gains a share of its boost; eating a virus or a mother cell pops
      the eater; a virus grown to `virusMaxSize` by ejected mass pops and
      takes the mass's direction. */
  function Eater(cell: CellRec, other: CellRec, root: real, q: ResolveParams): (c: CellRec)
    requires root >= 0.0
    ensures c.r == root && c.ty == cell.ty && c.x == cell.x && c.y == cell.y && c.age == cell.age
    ensures c.eatenBy == cell.eatenBy
    ensures IsPlayer(cell.ty) && other.ty == EJECTED_TYPE ==>
      c.boost == cell.boost + BoostShare(other, root) * other.boost
    ensures !(IsPlayer(cell.ty) && other.ty == EJECTED_TYPE) ==> c.boost == cell.boost
    ensures cell.ty == VIRUS_TYPE && other.ty == EJECTED_TYPE && root >= q.virusMaxSize ==>
      c.boostX == other.boostX && c.boostY == other.boostY
  {
    var boost := if IsPlayer(cell.ty) && other.ty == EJECTED_TYPE
      then cell.boost + BoostShare(other, root) * other.boost
      else cell.boost;
    var split := cell.ty == VIRUS_TYPE && other.ty == EJECTED_TYPE && root >= q.virusMaxSize;
    var pop := other.ty == VIRUS_TYPE || other.ty == MOTHER_CELL_TYPE || split;
    CellRec(cell.x, cell.y, root, cell.ty, WithPop(cell.flags, pop),
      cell.eatenBy, cell.age,
      if split then other.boostX else cell.boostX,
      if split then other.boostY else cell.boostY,
      boost)
  }

  /** The eater's flags: POP is set when it ate a virus or a mother cell,
      or when it is a virus grown to `virusMaxSize` by ejected mass, and
      every other bit stays as it was. */
  lemma EaterPops(cell: CellRec, other: CellRec, root: real, q: ResolveParams)
    requires root >= 0.0
    ensures var c := Eater(cell, other, root, q);
      (Has(c.flags, POP_BIT) <==>
        Has(cell.flags, POP_BIT) || other.ty == VIRUS_TYPE || other.ty == MOTHER_CELL_TYPE ||
        (cell.ty == VIRUS_TYPE && other.ty == EJECTED_TYPE && root >= q.virusMaxSize)) &&
      c.flags & !POP_BIT == cell.flags & !POP_BIT
  {
    var split := cell.ty == VIRUS_TYPE && other.ty == EJECTED_TYPE && root >= q.virusMaxSize;
    var pop := other.ty == VIRUS_TYPE || other.ty == MOTHER_CELL_TYPE || split;
    assert Eater(cell, other, root, q).flags == WithPop(cell.flags, pop);
  }

  /** Eating conserves area: the eater's squared radius is the sum of the
      two squared radii, and the eaten record is marked for removal. */
  lemma EatConservesArea(cell: CellRec, other: CellRec, root: real, q: ResolveParams, eater: U16)
    requires root >= 0.0 && root * root == cell.r * cell.r + other.r * other.r
    ensures Eater(cell, other, root, q).r * Eater(cell, other, root, q).r ==
      cell.r * cell.r + other.r * other.r
    ensures Has(Eaten(other, eater).flags, REMOVE_BIT)
  {
  }

  /** The collision's flag effects: both records are marked as updated, and
      the other one INSIDE when it lies within this one. Positions are not
      modelled. */
  function CollideFlags(cell: CellRec, other: CellRec): (f: (bv8, bv8))
    ensures Has(f.0, UPDATE_BIT) && Has(f.1, UPDATE_BIT)
    ensures Has(f.1, INSIDE_BIT) <==> Has(other.flags, INSIDE_BIT) || Inside(cell, other)
    ensures f.0 & !UPDATE_BIT == cell.flags & !UPDATE_BIT
    ensures f.1 & !(UPDATE_BIT | INSIDE_BIT) == other.flags & !(UPDATE_BIT | INSIDE_BIT)
  {
    var o := if Inside(cell, other) then other.flags | INSIDE_BIT else other.flags;
    (cell.flags | UPDATE_BIT, o | UPDATE_BIT)
  }

  /** What the start of `resolve`'s per-cell step decides. */
  datatype Start = Skipped | DeadChecked | Search

  /** The per-cell start as a value: skip a record with any of REMOVE, POP
      or INSIDE; a dead cell only checks its timeout; every other cell goes
      on to search its neighbours. */
  function StartOf(c: CellRec): (s: Start)
    ensures s == Skipped <==> Has(c.flags, SKIP_RESOLVE_BITS)
    ensures s == Search ==> c.ty != DEAD_CELL_TYPE && !Has(c.flags, REMOVE_BIT)
    ensures s == Search ==> !Has(c.flags, POP_BIT) && !Has(c.flags, INSIDE_BIT)
  {
    if Has(c.flags, SKIP_RESOLVE_BITS) then Skipped
    else if c.ty == DEAD_CELL_TYPE then DeadChecked
    else Search
  }

  /** The per-cell start of `resolve` on slot `id`: a dead cell older than
      `removeTick` is marked for removal with no eater; the result says
      whether the cell goes on to search. */
  method ResolveStart(cells: array<CellRec>, id: nat, q: ResolveParams) returns (search: bool)
    requires id < cells.Length
    modifies cells
    ensures search <==> StartOf(old(cells[id])) == Search
    ensures StartOf(old(cells[id])) == DeadChecked && old(cells[id]).age > q.removeTick ==>
      cells[id] == old(cells[id]).(flags := old(cells[id]).flags | REMOVE_BIT, eatenBy := 0)
    ensures !(StartOf(old(cells[id])) == DeadChecked && old(cells[id]).age > q.removeTick) ==>
      cells[id] == old(cells[id])
    ensures forall s :: 0 <= s < cells.Length && s != id ==> cells[s] == old(cells[s])
  {
    var c := cells[id];
    if Has(c.flags, SKIP_RESOLVE_BITS) {
      return false;
    }
    if c.ty == DEAD_CELL_TYPE {
      if c.age > q.removeTick {
        cells[id] := c.(flags := c.flags | REMOVE_BIT, eatenBy := 0);
      }
      return false;
    }
    return true;
  }

  /** Whether a pair reaches the distance computation, which is what
      `resolve` counts: `cell` looks, `other` is not skipped, the table
      gives an action and the cheap rejection does not fire. */
  predicate Counted(cell: CellRec, id: int, other: CellRec, oid: int, q: ResolveParams) {
    Looks(cell, id, other, oid) && !Has(other.flags, SKIP_RESOLVE_BITS) &&
    ActionOf(cell, other, q) != Non && !FarApart(cell, other)
  }

  /** One inner step of `resolve`: the cell in slot `id` against the
      neighbour in slot `oid`. `root` is the square root of the sum of the
      squared radii, used when the cell eats. The result says whether the
      pair was counted. */
  method ResolvePair(cells: array<CellRec>, id: nat, oid: nat, q: ResolveParams, root: real)
    returns (counted: bool)
    requires id < cells.Length && oid < cells.Length && id < 0x1_0000
    requires q.eatOverlap != 0.0
    requires root >= 0.0 && root * root == cells[id].r * cells[id].r + cells[oid].r * cells[oid].r
    modifies cells
    ensures counted == Counted(old(cells[id]), id, old(cells[oid]), oid, q)
    ensures forall s :: 0 <= s < cells.Length && s != id && s != oid ==> cells[s] == old(cells[s])
    ensures counted && ActionOf(old(cells[id]), old(cells[oid]), q) == Eat && CanEat(old(cells[id]), old(cells[oid]), q) ==>
      cells[id] == Eater(old(cells[id]), old(cells[oid]), root, q) && cells[oid] == Eaten(old(cells[oid]), id)
    ensures counted && ActionOf(old(cells[id]), old(cells[oid]), q) == Col && Overlaps(old(cells[id]), old(cells[oid])) ==>
      (cells[id].flags, cells[oid].flags) == CollideFlags(old(cells[id]), old(cells[oid])) &&
      cells[id].r == old(cells[id]).r && cells[oid].r == old(cells[oid]).r &&
      cells[id].ty == old(cells[id]).ty && cells[oid].ty == old(cells[oid]).ty
    ensures (!counted || (ActionOf(old(cells[id]), old(cells[oid]), q) == Eat && !CanEat(old(cells[id]), old(cells[oid]), q)) ||
             (ActionOf(old(cells[id]), old(cells[oid]), q) == Col && !Overlaps(old(cells[id]), old(cells[oid])))) ==>
      cells[..] == old(cells[..])
  {
    var cell := cells[id];
    var other := cells[oid];
    if !Looks(cell, id, other, oid) || Has(other.flags, SKIP_RESOLVE_BITS) {
      return false;
    }
    var action := ActionOf(cell, other, q);
    if action == Non || FarApart(cell, other) {
      return false;
    }
    counted := true;
    if action == Col {
      if Overlaps(cell, other) {
        var f := CollideFlags(cell, other);
        cells[id] := cell.(flags := f.0);
        cells[oid] := other.(flags := f.1);
      }
    } else if CanEat(cell, other, q) {
      cells[oid] := Eaten(other, id);
      cells[id] := Eater(cell, other, root, q);
    }
  }

  /** The scalar arguments of `update_player_cells` that decide merging. */
  datatype MergeParams = MergeParams(
    mergeInitial: real, mergeIncrease: real, mergeTime: U32,
    noMergeDelay: U32, mergeVersionNew: bool)

  /** `roundf`: to the nearest integer, halves away from zero. */
  function RoundF(x: real): (n: int)
    ensures x >= 0.0 ==> n as real <= x + 0.5 < n as real + 1.0
    ensures x < 0.0 ==> n as real - 1.0 < x - 0.5 <= n as real
  {
    if x >= 0.0 then (x + 0.5).Floor else -((-x + 0.5).Floor)
  }

  /** Whether a player cell of age `age` and radius `r` may merge. With a
      merge time, the new rule waits for the larger of the size-dependent
      delay and `noMergeDelay` and for `mergeInitial`; the old rule waits
      for `noMergeDelay` and `mergeInitial + mergeIncrease`. Without a
      merge time only `noMergeDelay` counts. */
  predicate MergeReady(age: U32, r: real, m: MergeParams) {
    if m.mergeTime > 0 then
      if m.mergeVersionNew then
        var increase := RoundF(25.0 * r * m.mergeIncrease) as real;
        var time := if increase > m.noMergeDelay as real then increase else m.noMergeDelay as real;
        age as real > m.mergeInitial && age as real > time
      else
        age > m.noMergeDelay && age as real > m.mergeInitial + m.mergeIncrease
    else age > m.noMergeDelay
  }

  /** Readiness only grows with age: a cell that may merge still may once
      it is older. */
  lemma MergeReadyMonotone(a1: U32, a2: U32, r: real, m: MergeParams)
    requires a1 <= a2 && MergeReady(a1, r, m)
    ensures MergeReady(a2, r, m)
  {
  }

  /** Every rule waits longer than `noMergeDelay` ticks: the new rule's
      wait is at least that delay. */
  lemma MergeWaitsForDelay(age: U32, r: real, m: MergeParams)
    requires MergeReady(age, r, m)
    ensures age > m.noMergeDelay
  {
  }

  /** The record after the merge test: the MERGE bit is added when the cell
      is ready and nothing else changes. */
  function WithMerge(c: CellRec, m: MergeParams): (u: CellRec)
    ensures Has(u.flags, MERGE_BIT) <==> Has(c.flags, MERGE_BIT) || MergeReady(c.age, c.r, m)
    ensures u.flags & !MERGE_BIT == c.flags & !MERGE_BIT
    ensures u.(flags := c.flags) == c
  {
    if MergeReady(c.age, c.r, m) then c.(flags := c.flags | MERGE_BIT) else c
  }

  /** Adding the merge bit twice is adding it once. */
  lemma WithMergeIdempotent(c: CellRec, m: MergeParams)
    ensures WithMerge(WithMerge(c, m), m) == WithMerge(c, m)
  {
  }

  /** The merge-bit loop of `update_player_cells` over one player's segment
      `indices`: each listed cell that is ready gets the MERGE bit; no
      other cell changes. An empty segment is left alone. */
  method UpdateMergeBits(cells: array<CellRec>, indices: seq<int>, m: MergeParams)
    requires forall i :: 0 <= i < |indices| ==> 0 <= indices[i] < cells.Length
    modifies cells
    ensures forall s :: 0 <= s < cells.Length ==>
      cells[s] == if s in indices then WithMerge(old(cells[s]), m) else old(cells[s])
  {
    if |indices| == 0 {
      return;
    }
    var i := 0;
    while i < |indices|
      invariant 0 <= i <= |indices|
      invariant forall s :: 0 <= s < cells.Length ==>
        cells[s] == if s in indices[..i] then WithMerge(old(cells[s]), m) else old(cells[s])
    {
      assert indices[..i + 1] == indices[..i] + [indices[i]];
      var id := indices[i];
      WithMergeIdempotent(old(cells[id]), m);
      cells[id] := WithMerge(cells[id], m);
      i := i + 1;
    }
    assert indices[..i] == indices;
  }
}
