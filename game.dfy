/** The player slots of src/game/index.js: `MAX_PLAYER` controllers, each
    holding at most one client handle, attached lowest id first (slot 0 is
    never handed out), with a running count of attached handles. Handles
    are named by numbers here. */
module GameServer {
  import opened PhysicsEngine

  const MAX_PLAYER: nat := 250

  /** `controls[i].handle`: the handle a controller holds, if any. */
  datatype Slot = Free | Held(handle: nat)

  /** What `addHandler` did with a handle. */
  datatype Join =
    | Joined(id: nat)
    | AlreadyAttached
      /** The search ran past the last controller: `controls[250]` is
          undefined and reading its `handle` throws. */
    | Crashed

  /** How many slots hold a handle. */
  function Count(owner: seq<Slot>): (n: nat) {
    if |owner| == 0 then 0
    else Count(owner[..|owner| - 1]) + (if owner[|owner| - 1].Held? then 1 else 0)
  }

  /** Attaching a handle to a free slot adds one to the count; detaching
      the handle of a held slot takes one away. */
  lemma {:induction false} CountUpdate(owner: seq<Slot>, i: nat, s: Slot)
    requires i < |owner|
    ensures Count(owner[i := s]) ==
      Count(owner) - (if owner[i].Held? then 1 else 0) + (if s.Held? then 1 else 0)
    decreases |owner|
  {
    var n := |owner| - 1;
    if i < n {
      CountUpdate(owner[..n], i, s);
      assert owner[i := s][..n] == owner[..n][i := s];
    } else {
      assert owner[i := s][..n] == owner[..n];
    }
  }

  /** With slot 0 free, at most `|owner| - 1` slots are held, and exactly
      that many when every other slot is held. */
  lemma {:induction false} CountFull(owner: seq<Slot>)
    requires |owner| > 0 && owner[0].Free?
    ensures Count(owner) <= |owner| - 1
    ensures Count(owner) == |owner| - 1 <==> forall i :: 1 <= i < |owner| ==> owner[i].Held?
    decreases |owner|
  {
    var n := |owner| - 1;
    if n > 0 {
      CountFull(owner[..n]);
      assert forall i :: 1 <= i < n ==> owner[..n][i] == owner[i];
    }
  }

  class Game {
    /** The physics engine the game queues kill requests on. */
    const engine: Engine
    /** `controls[i].handle` for each controller id `i`. */
    var owner: seq<Slot>
    /** `handle.controller` for every handle that is attached. */
    var ctl: map<nat, nat>
    /** `handles`: how many handles are attached. */
    var handles: int

    /** Slot 0 stays free, each attached handle's controller holds it and
        no other, and `handles` counts the held slots. */
    ghost predicate Valid()
      reads this
    {
      |owner| == MAX_PLAYER && owner[0] == Free &&
      (forall h :: h in ctl ==> 1 <= ctl[h] < MAX_PLAYER && owner[ctl[h]] == Held(h)) &&
      (forall i :: 0 <= i < |owner| && owner[i].Held? ==> owner[i].handle in ctl && ctl[owner[i].handle] == i) &&
      handles == Count(owner)
    }

    /** `isFull` as written: all `MAX_PLAYER` controllers attached. */
    predicate IsFull()
      reads this
    {
      handles == MAX_PLAYER
    }

    /** Slot 0 is never handed out, so `handles` stops at `MAX_PLAYER - 1`
        and `isFull` can never hold. */
    lemma IsFullNeverHolds()
      requires Valid()
      ensures handles <= MAX_PLAYER - 1
      ensures !IsFull()
    {
      CountFull(owner);
    }

    /** The test `isFull` evidently means: every controller that can be
        handed out is taken. */
    predicate NoFreeSlot()
      reads this
    {
      handles == MAX_PLAYER - 1
    }

    /** `NoFreeSlot` holds exactly when no controller from 1 up is free. */
    lemma NoFreeSlotMeans()
      requires Valid()
      ensures NoFreeSlot() <==> forall i :: 1 <= i < MAX_PLAYER ==> owner[i].Held?
    {
      CountFull(owner);
    }

    /** A game with no handles attached. */
    constructor (engine: Engine)
      ensures Valid() && this.engine == engine
      ensures owner == seq(MAX_PLAYER, _ => Free) && ctl == map[] && handles == 0
    {
      this.engine := engine;
      owner := seq(MAX_PLAYER, _ => Free);
      ctl := map[];
      handles := 0;
      new;
      CountZero(owner);
    }

    /** `addHandler(h)`: report a full server through `errored` (without
        stopping), ignore a handle that is already attached, and otherwise
        attach it to the lowest free controller id from 1 up. */
    method AddHandler(h: nat) returns (r: Join, errored: bool)
      requires Valid()
      modifies this
      ensures Valid()
      ensures errored == old(IsFull()) && !errored
      ensures r.AlreadyAttached? <==> h in old(ctl)
      ensures r.Crashed? <==> h !in old(ctl) && old(NoFreeSlot())
      ensures !r.Joined? ==> owner == old(owner) && ctl == old(ctl) && handles == old(handles)
      ensures r.Joined? ==> (1 <= r.id < MAX_PLAYER && old(owner)[r.id] == Free &&
        (forall i :: 1 <= i < r.id ==> old(owner)[i].Held?) &&
        owner == old(owner)[r.id := Held(h)] && ctl == old(ctl)[h := r.id] && handles == old(handles) + 1)
    {
      IsFullNeverHolds();
      NoFreeSlotMeans();
      errored := IsFull();
      if h in ctl {
        return AlreadyAttached, errored;
      }
      var id := 1;
      while id < |owner| && owner[id].Held?
        invariant 1 <= id <= |owner|
        invariant forall i :: 1 <= i < id ==> owner[i].Held?
      {
        id := id + 1;
      }
      if id == |owner| {
        return Crashed, errored;
      }
      CountUpdate(owner, id, Held(h));
      owner := owner[id := Held(h)];
      ctl := ctl[h := id];
      handles := handles + 1;
      r := Joined(id);
    }

    /** `removeHandler(h)`: nothing for a handle that is not attached;
        otherwise queue a kill with replacement of its controller's cells
        (dropped by the engine when the controller is not `alive`), free the
        controller and detach the handle. */
    method RemoveHandler(h: nat, alive: bool)
      requires Valid()
      modifies this, engine
      ensures Valid()
      ensures h !in old(ctl) ==> (owner == old(owner) && ctl == old(ctl) && handles == old(handles) &&
        engine.killArray == old(engine.killArray))
      ensures h in old(ctl) ==> (owner == old(owner)[old(ctl)[h] := Free] && ctl == old(ctl) - {h} &&
        handles == old(handles) - 1 &&
        engine.killArray == if alive then old(engine.killArray) + [(old(ctl)[h], true)] else old(engine.killArray))
      // the engine changes only its kill queue
      ensures engine.spawnArray == old(engine.spawnArray) && engine.Core() == old(engine.Core())
      ensures old(engine.Valid()) ==>
        engine.Valid() && (old(engine.Consistent()) ==> engine.Consistent()) &&
        (old(engine.FreedApart()) ==> engine.FreedApart())
    {
      if h !in ctl {
        return;
      }
      var c := ctl[h];
      engine.DelayKill(c, true, alive);
      CountUpdate(owner, c, Free);
      owner := owner[c := Free];
      ctl := ctl - {h};
      handles := handles - 1;
    }
  }

  /** No slot of an all-free table is held. */
  lemma {:induction false} CountZero(owner: seq<Slot>)
    requires forall i :: 0 <= i < |owner| ==> owner[i] == Free
    ensures Count(owner) == 0
    decreases |owner|
  {
    if |owner| > 0 {
      CountZero(owner[..|owner| - 1]);
    }
  }
}
