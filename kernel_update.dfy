/** The kernel's per-tick pass over the index buffer (`update` and
    `clear_cell` in src/c/core.c): it zeroes the records freed last tick,
    then ages every listed cell, masks its flags, expires old ejected mass,
    applies the launch boost, marks oversized player cells for autosplit and
    clamps every cell into the world box. */
module KernelUpdate {
  import opened Cells

  /** The world box `l, r, b, t` the kernel clamps into. */
  datatype Box = Box(l: real, r: real, b: real, t: real)

  /** The scalar arguments of `update`. `score` stands for the host's
      `get_score`, the current score of a player id. */
  datatype UpdateParams = UpdateParams(
    dtMulti: real, ejectMaxAge: U32, autoSize: real,
    decayMulti: real, decayMin: real, score: Byte -> real, box: Box)

  /** `age++` on an unsigned 32-bit field. */
  function NextAge(age: U32): (a: U32)
    ensures age < 0xFFFF_FFFF ==> a == age + 1
    ensures age == 0xFFFF_FFFF ==> a == 0
  {
    (age + 1) % 0x1_0000_0000
  }

  /** The launch-boost step on position and boost: a boosted cell (boost
      above 1) moves along its boost vector by a ninth of its boost, scaled
      by the tick length, and loses that much boost. */
  function BoostStep(c: CellRec, dtMulti: real): (m: CellRec)
    ensures m.ty == c.ty && m.r == c.r && m.age == c.age && m.flags == c.flags && m.eatenBy == c.eatenBy
    ensures m.boostX == c.boostX && m.boostY == c.boostY
    ensures c.boost <= 1.0 ==> m.x == c.x && m.y == c.y && m.boost == c.boost
    ensures c.boost > 1.0 ==> m.boost == c.boost - c.boost / 9.0 * dtMulti
    ensures c.boost > 1.0 ==> m.x == c.x + c.boostX * (c.boost / 9.0 * dtMulti)
    ensures c.boost > 1.0 ==> m.y == c.y + c.boostY * (c.boost / 9.0 * dtMulti)
  {
    if c.boost > 1.0 then
      var db := c.boost / 9.0 * dtMulti;
      c.(x := c.x + c.boostX * db, y := c.y + c.boostY * db, boost := c.boost - db)
    else c
  }

  /** One axis of the clamp: the test against `first` and then the test
      against the other bound on the possibly corrected value. `lowFirst`
      says whether the lower bound is checked first (x: left, then right) or
      the upper one (y: top, then bottom). */
  function ClampAxis(v: real, lo: real, hi: real, lowFirst: bool): (w: real)
    ensures lowFirst ==> w <= hi
    ensures !lowFirst ==> w >= lo
    ensures lo <= hi ==> lo <= w <= hi
    ensures lo <= v <= hi ==> w == v
  {
    if lowFirst then
      var v1 := if v < lo then lo else v;
      if v1 > hi then hi else v1
    else
      var v1 := if v > hi then hi else v;
      if v1 < lo then lo else v1
  }

  /** How many of the two tests of one axis fire; each one reflects that
      boost component of a boosted cell. */
  function AxisHits(v: real, lo: real, hi: real, lowFirst: bool): (n: nat)
    ensures n <= 2
    ensures n == 0 <==> lo <= v <= hi
  {
    if lowFirst then
      var v1 := if v < lo then lo else v;
      (if v < lo then 1 else 0) + (if v1 > hi then 1 else 0)
    else
      var v1 := if v > hi then hi else v;
      (if v > hi then 1 else 0) + (if v1 < lo then 1 else 0)
  }

  /** A boost component after `hits` reflections. */
  function Reflect(v: real, bounce: bool, hits: nat): (w: real) {
    if bounce && hits % 2 == 1 then -v else v
  }

  /** True when the clamp of `update` moves the cell. */
  predicate NeedsClamp(c: CellRec, box: Box) {
    var hr := c.r / 2.0;
    !(box.l + hr <= c.x <= box.r - hr) || !(box.b + hr <= c.y <= box.t - hr)
  }

  /** The bounce-and-clamp step of `update` on position and boost: the
      left, right, top and bottom tests in the source's order, each pulling
      the centre back by half the radius and reflecting the boost while the
      cell is still boosted. */
  function ClampStep(c: CellRec, box: Box): (u: CellRec)
    ensures u.ty == c.ty && u.r == c.r && u.age == c.age && u.boost == c.boost
    ensures u.flags == c.flags && u.eatenBy == c.eatenBy
    ensures u.x <= box.r - c.r / 2.0
    ensures u.y >= box.b + c.r / 2.0
    ensures box.l + c.r / 2.0 <= box.r - c.r / 2.0 ==> box.l + c.r / 2.0 <= u.x
    ensures box.b + c.r / 2.0 <= box.t - c.r / 2.0 ==> u.y <= box.t - c.r / 2.0
    ensures !NeedsClamp(c, box) ==> u.x == c.x && u.y == c.y && u.boostX == c.boostX && u.boostY == c.boostY
  {
    var hr := c.r / 2.0;
    var bounce := c.boost > 1.0;
    c.(x := ClampAxis(c.x, box.l + hr, box.r - hr, true),
       y := ClampAxis(c.y, box.b + hr, box.t - hr, false),
       boostX := Reflect(c.boostX, bounce, AxisHits(c.x, box.l + hr, box.r - hr, true)),
       boostY := Reflect(c.boostY, bounce, AxisHits(c.y, box.b + hr, box.t - hr, false)))
  }

  /** The score-based decay multiplier of one player id: the score less a
      hundredth of the squared decay floor, scaled by 0.00005, and never
      below 1. */
  function DecayFactor(score: real, decayMin: real): (f: real)
    ensures f >= 1.0
    ensures f >= (score - 0.01 * decayMin * decayMin) * 0.00005
    ensures f == 1.0 || f == (score - 0.01 * decayMin * decayMin) * 0.00005
  {
    var m := (score - 0.01 * decayMin * decayMin) * 0.00005;
    if m < 1.0 then 1.0 else m
  }

  /** True when `update` decays the cell: a player cell above the decay
      floor. */
  predicate Decays(c: CellRec, p: UpdateParams) {
    IsPlayer(c.ty) && c.r > p.decayMin
  }

  /** The radius after the decay step, with `multi` the multiplier the pass
      holds for the cell's player. */
  function DecayedRadius(c: CellRec, p: UpdateParams, multi: real): (r: real)
    ensures !Decays(c, p) ==> r == c.r
    ensures Decays(c, p) ==> r == c.r - multi * c.r * p.decayMulti * p.dtMulti / 50.0
  {
    if Decays(c, p) then c.r - multi * c.r * p.decayMulti * p.dtMulti / 50.0 else c.r
  }

  /** The record after the boost and decay steps, as the clamp sees it. */
  function PreClamp(c: CellRec, p: UpdateParams, multi: real): (m: CellRec)
    ensures m.ty == c.ty && m.age == c.age && m.flags == c.flags && m.eatenBy == c.eatenBy
    ensures m.r == DecayedRadius(c, p, multi)
  {
    BoostStep(c, p.dtMulti).(r := DecayedRadius(c, p, multi))
  }

  /** The flags byte after the flag steps of `update`: the CLEAR_BITS mask,
      then REMOVE for expired ejected mass, UPDATE for a boosted, decayed or
      clamped cell and AUTOSPLIT for an oversized player cell. */
  function TickFlags(flags: bv8, expire: bool, moved: bool, auto: bool): (f: bv8)
    ensures Has(f, EXIST_BIT) == Has(flags, EXIST_BIT)
    ensures Has(f, MERGE_BIT) == Has(flags, MERGE_BIT)
    ensures !Has(f, INSIDE_BIT) && !Has(f, POP_BIT)
    ensures Has(f, REMOVE_BIT) == expire
    ensures Has(f, UPDATE_BIT) == moved
    ensures Has(f, AUTOSPLIT_BIT) == auto
  {
    var f1 := flags & CLEAR_BITS;
    var f2 := if expire then f1 | REMOVE_BIT else f1;
    var f3 := if moved then f2 | UPDATE_BIT else f2;
    if auto then f3 | AUTOSPLIT_BIT else f3
  }

  /** What `update` does to one listed cell that is not a freed record;
      `multi` is the decay multiplier the pass holds for the cell's player. */
  function UpdateOne(c: CellRec, p: UpdateParams, multi: real): (u: CellRec)
  {
    var age := NextAge(c.age);
    var expire := c.ty == EJECTED_TYPE && age > p.ejectMaxAge;
    var r := DecayedRadius(c, p, multi);
    var auto := IsPlayer(c.ty) && p.autoSize != 0.0 && r > p.autoSize;
    var m := PreClamp(c, p, multi);
    var moved := c.boost > 1.0 || Decays(c, p) || NeedsClamp(m, p.box);
    var k := ClampStep(m, p.box);
    CellRec(k.x, k.y, r, c.ty, TickFlags(c.flags, expire, moved, auto), c.eatenBy, age, k.boostX, k.boostY, k.boost)
  }

  /** The record `update` writes for a listed cell: the type and eater are
      kept, the age steps on, the radius decays, and the flags are masked and
      recomputed. */
  lemma UpdateOneFlags(c: CellRec, p: UpdateParams, multi: real)
    ensures var u := UpdateOne(c, p, multi);
      u.ty == c.ty && u.eatenBy == c.eatenBy && u.age == NextAge(c.age) &&
      u.r == DecayedRadius(c, p, multi) &&
      // the mask keeps EXIST and MERGE and drops INSIDE and POP
      Has(u.flags, EXIST_BIT) == Has(c.flags, EXIST_BIT) &&
      Has(u.flags, MERGE_BIT) == Has(c.flags, MERGE_BIT) &&
      !Has(u.flags, INSIDE_BIT) && !Has(u.flags, POP_BIT) &&
      // REMOVE and AUTOSPLIT are recomputed from scratch
      (Has(u.flags, REMOVE_BIT) <==> c.ty == EJECTED_TYPE && NextAge(c.age) > p.ejectMaxAge) &&
      (Has(u.flags, AUTOSPLIT_BIT) <==> IsPlayer(c.ty) && p.autoSize != 0.0 && u.r > p.autoSize) &&
      // UPDATE is set exactly when the cell was boosted, decayed or clamped
      (Has(u.flags, UPDATE_BIT) <==> c.boost > 1.0 || Decays(c, p) || NeedsClamp(PreClamp(c, p, multi), p.box))
  {
  }

  /** After `update` the centre lies inside the box shrunk by half the
      (decayed) radius: always below the right edge and above the bottom
      one, and inside the other two edges when the shrunk box is not empty. */
  lemma UpdateOneInBox(c: CellRec, p: UpdateParams, multi: real)
    ensures var u := UpdateOne(c, p, multi);
      u.x <= p.box.r - u.r / 2.0 && u.y >= p.box.b + u.r / 2.0 &&
      (p.box.l + u.r / 2.0 <= p.box.r - u.r / 2.0 ==> p.box.l + u.r / 2.0 <= u.x) &&
      (p.box.b + u.r / 2.0 <= p.box.t - u.r / 2.0 ==> u.y <= p.box.t - u.r / 2.0)
  {
    var m := PreClamp(c, p, multi);
    assert UpdateOne(c, p, multi).x == ClampStep(m, p.box).x;
    assert UpdateOne(c, p, multi).y == ClampStep(m, p.box).y;
  }

  /** The length of the run of buffer entries, from position `k` on, whose
      records carry the REMOVE bit: the records freed by the last tick. */
  function LeadingRemoved(cs: seq<CellRec>, idx: seq<int>, k: nat): (n: nat)
    requires k <= |idx|
    ensures k <= n <= |idx|
    ensures forall j :: k <= j < n ==> 0 <= idx[j] < |cs| && Has(cs[idx[j]].flags, REMOVE_BIT)
    ensures n < |idx| ==> !(0 <= idx[n] < |cs| && Has(cs[idx[n]].flags, REMOVE_BIT))
    decreases |idx| - k
  {
    if k < |idx| && 0 <= idx[k] < |cs| && Has(cs[idx[k]].flags, REMOVE_BIT)
    then LeadingRemoved(cs, idx, k + 1)
    else k
  }

  /** A sentinel-terminated index buffer over an arena of `n` slots: slot ids
      in 1..n-1, pairwise distinct, followed by a single 0. */
  predicate IndexBuffer(idx: seq<int>, n: nat) {
    |idx| >= 1 && idx[|idx| - 1] == 0 && n >= 1 &&
    (forall j :: 0 <= j < |idx| - 1 ==> 1 <= idx[j] < n) &&
    (forall i, j :: 0 <= i < j < |idx| - 1 ==> idx[i] != idx[j])
  }

  /** Whether a player cell of a non-zero type sits among buffer positions
      `from` to `k - 1`: until one does, the pass's cached player is 0 with
      multiplier 1. */
  function SeenPlayer(cs: seq<CellRec>, idx: seq<int>, from: nat, k: nat): (b: bool)
    requires from <= k <= |idx|
    decreases k - from
  {
    if k == from then false
    else
      SeenPlayer(cs, idx, from, k - 1) ||
      (0 <= idx[k - 1] < |cs| && IsPlayer(cs[idx[k - 1]].ty) && cs[idx[k - 1]].ty != 0)
  }

  /** `SeenPlayer` says exactly whether some position from `from` to
      `k - 1` names a player cell of non-zero type. */
  lemma {:induction false} SeenPlayerMeans(cs: seq<CellRec>, idx: seq<int>, from: nat, k: nat)
    requires from <= k <= |idx|
    ensures SeenPlayer(cs, idx, from, k) <==>
      exists j :: from <= j < k && 0 <= idx[j] < |cs| && IsPlayer(cs[idx[j]].ty) && cs[idx[j]].ty != 0
    decreases k - from
  {
    if k > from {
      SeenPlayerMeans(cs, idx, from, k - 1);
    }
  }

  /** The decay multiplier `update` applies to a player cell of type `t`:
      the one computed from the player's score, except for player 0 before
      any other player has been met, whose multiplier is the initial 1. */
  function Multiplier(p: UpdateParams, t: Byte, seen: bool): (m: real)
    ensures m >= 1.0
    ensures t != 0 ==> m == DecayFactor(p.score(t), p.decayMin)
  {
    if t != 0 || seen then DecayFactor(p.score(t), p.decayMin) else 1.0
  }

  /** The multiplier only matters for a cell that decays. */
  lemma MultiplierUnused(c: CellRec, p: UpdateParams, m1: real, m2: real)
    requires !Decays(c, p)
    ensures UpdateOne(c, p, m1) == UpdateOne(c, p, m2)
  {
    assert DecayedRadius(c, p, m1) == DecayedRadius(c, p, m2);
  }

  /** `SeenPlayer` only looks at the records the positions name. */
  lemma {:induction false} SeenPlayerFrame(a: seq<CellRec>, b: seq<CellRec>, idx: seq<int>, from: nat, k: nat)
    requires from <= k <= |idx| && |a| == |b|
    requires forall j :: from <= j < k && 0 <= idx[j] < |a| ==> a[idx[j]] == b[idx[j]]
    ensures SeenPlayer(a, idx, from, k) == SeenPlayer(b, idx, from, k)
    decreases k - from
  {
    if k > from {
      SeenPlayerFrame(a, b, idx, from, k - 1);
    }
  }

  /** What `update` makes of the record named at buffer position `j`, where
      the listed part of the buffer starts at `from`. */
  function UpdatedAt(cs: seq<CellRec>, idx: seq<int>, from: nat, j: nat, p: UpdateParams): (u: CellRec)
    requires from <= j < |idx| && 0 <= idx[j] < |cs|
  {
    var c := cs[idx[j]];
    UpdateOne(c, p, Multiplier(p, c.ty, SeenPlayer(cs, idx, from, j)))
  }

  /** Slot 0 is reserved and never carries the REMOVE bit, so the freed
      prefix ends before the sentinel. */
  lemma PrefixBeforeSentinel(cs: seq<CellRec>, idx: seq<int>)
    requires IndexBuffer(idx, |cs|) && !Has(cs[0].flags, REMOVE_BIT)
    ensures LeadingRemoved(cs, idx, 0) < |idx|
  {
    var j := |idx| - 1;
    assert !(0 <= idx[j] < |cs| && Has(cs[idx[j]].flags, REMOVE_BIT));
  }

  /** A listed position outside positions `lo` to `hi - 1` names a slot
      none of them names. */
  lemma Unlisted(idx: seq<int>, n: nat, j: nat, lo: nat, hi: nat)
    requires IndexBuffer(idx, n) && j < |idx| - 1 && lo <= hi <= |idx| - 1 && !(lo <= j < hi)
    ensures idx[j] !in idx[lo..hi]
  {
    forall i | lo <= i < hi
      ensures idx[i] != idx[j]
    {
    }
  }

  /** The arena after the clearing loop has zeroed the records named at
      buffer positions `0` to `n - 1`. */
  function Cleared(cs: seq<CellRec>, idx: seq<int>, n: nat): (out: seq<CellRec>)
    requires IndexBuffer(idx, |cs|) && n <= |idx| - 1
    ensures |out| == |cs|
  {
    if n == 0 then cs else Cleared(cs, idx, n - 1)[idx[n - 1] := Zero]
  }

  /** Every cleared position's record is zero. */
  lemma {:induction false} ClearedZero(cs: seq<CellRec>, idx: seq<int>, n: nat, j: nat)
    requires IndexBuffer(idx, |cs|) && j < n <= |idx| - 1
    ensures Cleared(cs, idx, n)[idx[j]] == Zero
  {
    if j < n - 1 {
      ClearedZero(cs, idx, n - 1, j);
    }
  }

  /** A slot no cleared position names keeps its record. */
  lemma {:induction false} ClearedUntouched(cs: seq<CellRec>, idx: seq<int>, n: nat, s: int)
    requires IndexBuffer(idx, |cs|) && n <= |idx| - 1
    requires 0 <= s < |cs| && s !in idx[..n]
    ensures Cleared(cs, idx, n)[s] == cs[s]
  {
    if n > 0 {
      assert idx[..n] == idx[..n - 1] + [idx[n - 1]];
      ClearedUntouched(cs, idx, n - 1, s);
    }
  }

  /** The first loop of `update`: zero the leading records that carry the
      REMOVE bit and return how many there were. */
  method ClearFreed(cells: array<CellRec>, idx: seq<int>) returns (k: nat)
    requires IndexBuffer(idx, cells.Length)
    requires !Has(cells[0].flags, REMOVE_BIT)
    modifies cells
    ensures k == LeadingRemoved(old(cells[..]), idx, 0) && k < |idx|
    ensures cells[..] == Cleared(old(cells[..]), idx, k)
  {
    ghost var cs := cells[..];
    ghost var n0 := LeadingRemoved(cs, idx, 0);
    PrefixBeforeSentinel(cs, idx);
    k := 0;
    while Has(cells[idx[k]].flags, REMOVE_BIT)
      invariant 0 <= k <= n0
      invariant cells[..] == Cleared(cs, idx, k)
      invariant cells[idx[k]] == cs[idx[k]]
      decreases n0 - k
    {
      cells[idx[k]] := Zero;
      k := k + 1;
      if k < |idx| - 1 {
        Unlisted(idx, |cs|, k, 0, k);
      } else {
        assert forall i :: 0 <= i < k ==> idx[i] != 0;
      }
      ClearedUntouched(cs, idx, k, idx[k]);
    }
  }

  /** What the pass's cached player `currType` and multiplier `currMulti`
      satisfy, where `seen` says whether a player of non-zero type has been
      met. */
  predicate CacheInv(p: UpdateParams, currType: Byte, currMulti: real, seen: bool) {
    (currType != 0 ==> seen && currMulti == DecayFactor(p.score(currType), p.decayMin)) &&
    (currType == 0 ==> currMulti == Multiplier(p, 0, seen))
  }

  /** One step of the cache: a player cell of a new type replaces the
      cached player and recomputes the multiplier, and the multiplier then
      held is the one `Multiplier` assigns to the cell. */
  lemma CacheStep(p: UpdateParams, t0: Byte, m0: real, t1: Byte, m1: real, ty: Byte, seen: bool)
    requires CacheInv(p, t0, m0, seen)
    requires if IsPlayer(ty) && t0 != ty then t1 == ty && m1 == DecayFactor(p.score(ty), p.decayMin)
             else t1 == t0 && m1 == m0
    ensures CacheInv(p, t1, m1, seen || (IsPlayer(ty) && ty != 0))
    ensures IsPlayer(ty) ==> m1 == Multiplier(p, ty, seen)
  {
  }

  /** The arena after `update` has written buffer positions `from` to
      `k - 1`, one record at a time. */
  function Applied(cs: seq<CellRec>, idx: seq<int>, from: nat, k: nat, p: UpdateParams): (out: seq<CellRec>)
    requires IndexBuffer(idx, |cs|) && from <= k <= |idx| - 1
    ensures |out| == |cs|
    decreases k - from
  {
    if k == from then cs
    else Applied(cs, idx, from, k - 1, p)[idx[k - 1] := UpdatedAt(cs, idx, from, k - 1, p)]
  }

  /** Since the listed slots are distinct, each written position holds its
      own updated record. */
  lemma {:induction false} AppliedAt(cs: seq<CellRec>, idx: seq<int>, from: nat, k: nat, p: UpdateParams, j: nat)
    requires IndexBuffer(idx, |cs|) && from <= j < k <= |idx| - 1
    ensures Applied(cs, idx, from, k, p)[idx[j]] == UpdatedAt(cs, idx, from, j, p)
    decreases k - from
  {
    if j < k - 1 {
      assert idx[j] != idx[k - 1];
      AppliedAt(cs, idx, from, k - 1, p, j);
    }
  }

  /** A slot no written position names keeps its record. */
  lemma {:induction false} AppliedUntouched(cs: seq<CellRec>, idx: seq<int>, from: nat, k: nat, p: UpdateParams, s: int)
    requires IndexBuffer(idx, |cs|) && from <= k <= |idx| - 1
    requires 0 <= s < |cs| && s !in idx[from..k]
    ensures Applied(cs, idx, from, k, p)[s] == cs[s]
    decreases k - from
  {
    if k > from {
      assert idx[from..k] == idx[from..k - 1] + [idx[k - 1]];
      AppliedUntouched(cs, idx, from, k - 1, p, s);
    }
  }

  /** The main loop of `update`: from position `from` up to the sentinel,
      update every listed record, recomputing the decay multiplier whenever
      a player cell's type differs from the cached player. */
  method UpdateListed(cells: array<CellRec>, idx: seq<int>, from: nat, p: UpdateParams)
    requires IndexBuffer(idx, cells.Length) && from < |idx|
    modifies cells
    ensures cells[..] == Applied(old(cells[..]), idx, from, |idx| - 1, p)
  {
    ghost var cs := cells[..];
    var currType: Byte := 0;
    var currMulti := 1.0;
    var k := from;
    while idx[k] != 0
      invariant from <= k <= |idx| - 1
      invariant CacheInv(p, currType, currMulti, SeenPlayer(cs, idx, from, k))
      invariant cells[..] == Applied(cs, idx, from, k, p)
      decreases |idx| - k
    {
      currType, currMulti := UpdateStep(cells, idx, from, k, p, cs, currType, currMulti);
      k := k + 1;
    }
  }

  /** One pass of the main loop at position `k`: refresh the cached player
      and multiplier, then update the record the position names. */
  method UpdateStep(cells: array<CellRec>, idx: seq<int>, from: nat, k: nat, p: UpdateParams,
                    ghost cs: seq<CellRec>, t0: Byte, m0: real)
    returns (currType: Byte, currMulti: real)
    requires IndexBuffer(idx, |cs|) && from <= k < |idx| - 1
    requires CacheInv(p, t0, m0, SeenPlayer(cs, idx, from, k))
    requires cells[..] == Applied(cs, idx, from, k, p)
    modifies cells
    ensures CacheInv(p, currType, currMulti, SeenPlayer(cs, idx, from, k + 1))
    ensures cells[..] == Applied(cs, idx, from, k + 1, p)
  {
    Unlisted(idx, |cs|, k, from, k);
    AppliedUntouched(cs, idx, from, k, p, idx[k]);
    var c := cells[idx[k]];
    ghost var seen := SeenPlayer(cs, idx, from, k);
    currType, currMulti := t0, m0;
    if IsPlayer(c.ty) && currType != c.ty {
      currType := c.ty;
      currMulti := DecayFactor(p.score(currType), p.decayMin);
    }
    CacheStep(p, t0, m0, currType, currMulti, c.ty, seen);
    if !IsPlayer(c.ty) {
      MultiplierUnused(c, p, currMulti, Multiplier(p, c.ty, seen));
    }
    cells[idx[k]] := UpdateOne(c, p, currMulti);
  }

  /** The arena after `update`: the freed records at the head of the
      buffer zeroed, then every later listed record updated. */
  function Updated(cs: seq<CellRec>, idx: seq<int>, p: UpdateParams): (out: seq<CellRec>)
    requires IndexBuffer(idx, |cs|) && !Has(cs[0].flags, REMOVE_BIT)
    ensures |out| == |cs|
  {
    PrefixBeforeSentinel(cs, idx);
    var n0 := LeadingRemoved(cs, idx, 0);
    Applied(Cleared(cs, idx, n0), idx, n0, |idx| - 1, p)
  }

  /** The records freed last tick are zero after `update`. */
  lemma UpdatedFreed(cs: seq<CellRec>, idx: seq<int>, p: UpdateParams, j: nat)
    requires IndexBuffer(idx, |cs|) && !Has(cs[0].flags, REMOVE_BIT)
    requires j < LeadingRemoved(cs, idx, 0)
    ensures Updated(cs, idx, p)[idx[j]] == Zero
  {
    PrefixBeforeSentinel(cs, idx);
    var n0 := LeadingRemoved(cs, idx, 0);
    var mid := Cleared(cs, idx, n0);
    ClearedZero(cs, idx, n0, j);
    Unlisted(idx, |cs|, j, n0, |idx| - 1);
    AppliedUntouched(mid, idx, n0, |idx| - 1, p, idx[j]);
  }

  /** Every later listed record is the per-record update of its old value,
      with the multiplier the pass holds at that position; clearing the
      freed records first changes nothing there. */
  lemma UpdatedListed(cs: seq<CellRec>, idx: seq<int>, p: UpdateParams, j: nat)
    requires IndexBuffer(idx, |cs|) && !Has(cs[0].flags, REMOVE_BIT)
    requires LeadingRemoved(cs, idx, 0) <= j < |idx| - 1
    ensures Updated(cs, idx, p)[idx[j]] == UpdatedAt(cs, idx, LeadingRemoved(cs, idx, 0), j, p)
  {
    PrefixBeforeSentinel(cs, idx);
    var n0 := LeadingRemoved(cs, idx, 0);
    var mid := Cleared(cs, idx, n0);
    AppliedAt(mid, idx, n0, |idx| - 1, p, j);
    forall i | n0 <= i <= j
      ensures mid[idx[i]] == cs[idx[i]]
    {
      Unlisted(idx, |cs|, i, 0, n0);
      assert idx[..n0] == idx[0..n0];
      ClearedUntouched(cs, idx, n0, idx[i]);
    }
    SeenPlayerFrame(mid, cs, idx, n0, j);
  }

  /** A slot the buffer does not list keeps its record. */
  lemma UpdatedUntouched(cs: seq<CellRec>, idx: seq<int>, p: UpdateParams, s: int)
    requires IndexBuffer(idx, |cs|) && !Has(cs[0].flags, REMOVE_BIT)
    requires 0 <= s < |cs| && s !in idx[..|idx| - 1]
    ensures Updated(cs, idx, p)[s] == cs[s]
  {
    PrefixBeforeSentinel(cs, idx);
    var n0 := LeadingRemoved(cs, idx, 0);
    assert idx[..|idx| - 1] == idx[..n0] + idx[n0..|idx| - 1];
    ClearedUntouched(cs, idx, n0, s);
    AppliedUntouched(Cleared(cs, idx, n0), idx, n0, |idx| - 1, p, s);
  }

  /** `update` over the arena `cells` and the index buffer `idx`; it
      returns at once when the freed records are followed by the sentinel. */
  method Update(cells: array<CellRec>, idx: seq<int>, p: UpdateParams)
    requires IndexBuffer(idx, cells.Length)
    requires !Has(cells[0].flags, REMOVE_BIT)
    modifies cells
    ensures cells[..] == Updated(old(cells[..]), idx, p)
  {
    var k := ClearFreed(cells, idx);
    if idx[k] == 0 {
      return;
    }
    UpdateListed(cells, idx, k, p);
  }

  /** `clear_cell`: zero one record, leaving every other slot alone. */
  method ClearCell(cells: array<CellRec>, id: int)
    requires 0 <= id < cells.Length
    modifies cells
    ensures cells[id] == Zero
    ensures forall s :: 0 <= s < cells.Length && s != id ==> cells[s] == old(cells[s])
  {
    cells[id] := Zero;
  }
}
