/** The entity directory of src/physics/engine.js: one insertion-ordered
    set of slot ids per cell type (`counters`, an array of 256 `Set`s), and
    the concatenation of those sets that the engine writes to the index
    buffer. A `Set` is a duplicate-free sequence in insertion order here. */
module Directory {
  import opened Cells

  /** No slot id occurs twice. */
  predicate NoDup(s: seq<int>) {
    forall i, j :: 0 <= i < j < |s| ==> s[i] != s[j]
  }

  /** Every entry is a slot id of an arena of `limit` slots other than the
      reserved slot 0. */
  predicate SlotIds(s: seq<int>, limit: int) {
    forall x :: x in s ==> 1 <= x < limit
  }

  /** `Set.prototype.add`: append the id unless it is already present. */
  function Add(s: seq<int>, id: int): (t: seq<int>)
    ensures forall x :: x in t <==> x in s || x == id
    ensures NoDup(s) ==> NoDup(t)
    ensures |t| == if id in s then |s| else |s| + 1
    ensures t[..|s|] == s
  {
    if id in s then s else s + [id]
  }

  /** `Set.prototype.delete`: drop the id, keeping the order of the rest. */
  function Delete(s: seq<int>, id: int): (t: seq<int>)
    ensures forall x :: x in t <==> x in s && x != id
    ensures |t| <= |s|
    ensures NoDup(s) ==> NoDup(t)
    ensures NoDup(s) && id in s ==> |t| == |s| - 1
    ensures id !in s ==> t == s
  {
    if |s| == 0 then []
    else if s[0] == id then
      assert NoDup(s) ==> id !in s[1..];
      Delete(s[1..], id)
    else
      var rest := Delete(s[1..], id);
      assert NoDup(s) ==> s[0] !in rest;
      [s[0]] + rest
  }

  /** Adds each id in turn. */
  function AddAll(s: seq<int>, ids: seq<int>): (t: seq<int>)
    decreases |ids|
  {
    if |ids| == 0 then s else Add(AddAll(s, ids[..|ids| - 1]), ids[|ids| - 1])
  }

  /** Adding one more id adds it after the others. */
  lemma AddAllSnoc(s: seq<int>, ids: seq<int>, id: int)
    ensures AddAll(s, ids + [id]) == Add(AddAll(s, ids), id)
  {
    assert (ids + [id])[..|ids|] == ids;
  }

  /** Adding several ids holds exactly the old members and the new ids,
      each once. */
  lemma {:induction false} AddAllMembers(s: seq<int>, ids: seq<int>)
    ensures forall x :: x in AddAll(s, ids) <==> x in s || x in ids
    ensures NoDup(s) ==> NoDup(AddAll(s, ids))
    ensures |AddAll(s, ids)| <= |s| + |ids|
    decreases |ids|
  {
    if |ids| > 0 {
      var init := ids[..|ids| - 1];
      AddAllMembers(s, init);
      assert ids == init + [ids[|ids| - 1]];
    }
  }

  /** The index form of `SlotIds`. */
  lemma SlotIdsIndex(s: seq<int>, limit: int)
    requires SlotIds(s, limit)
    ensures forall i :: 0 <= i < |s| ==> 1 <= s[i] < limit
  {
    forall i | 0 <= i < |s|
      ensures 1 <= s[i] < limit
    {
      assert s[i] in s;
    }
  }

  /** A rearrangement of slot ids holds slot ids. */
  lemma SameMultisetSlotIds(a: seq<int>, b: seq<int>, limit: int)
    requires multiset(a) == multiset(b) && SlotIds(b, limit)
    ensures SlotIds(a, limit)
  {
    forall x | x in a
      ensures 1 <= x < limit
    {
      assert x in multiset(a);
      assert x in multiset(b);
      assert x in b;
    }
  }

  /** A duplicate-free sequence holds each id at most once. */
  lemma {:induction false} NoDupCount(s: seq<int>, x: int)
    requires NoDup(s)
    ensures multiset(s)[x] <= 1
    decreases |s|
  {
    if |s| > 0 {
      var init := s[..|s| - 1];
      assert s == init + [s[|s| - 1]];
      NoDupCount(init, x);
      assert s[|s| - 1] !in init;
    }
  }

  /** A rearrangement of a duplicate-free sequence is duplicate-free. */
  lemma SameMultisetNoDup(a: seq<int>, b: seq<int>)
    requires multiset(a) == multiset(b) && NoDup(b)
    ensures NoDup(a)
  {
    forall i, j | 0 <= i < j < |a|
      ensures a[i] != a[j]
    {
      NoDupCount(b, a[i]);
      assert a[i] == a[j] ==> multiset(a)[a[i]] >= 2 by {
        assert a == a[..i] + [a[i]] + a[i + 1..j] + [a[j]] + a[j + 1..];
      }
    }
  }

  /** The sets laid end to end, in type order. */
  function Concat(cs: seq<seq<int>>): (out: seq<int>) {
    if |cs| == 0 then [] else Concat(cs[..|cs| - 1]) + cs[|cs| - 1]
  }

  /** An id is in the concatenation exactly when one of the sets holds it. */
  lemma {:induction false} ConcatMembers(cs: seq<seq<int>>, x: int)
    ensures x in Concat(cs) <==> exists t :: 0 <= t < |cs| && x in cs[t]
    decreases |cs|
  {
    if |cs| > 0 {
      var init := cs[..|cs| - 1];
      ConcatMembers(init, x);
      if x in Concat(cs) && x !in cs[|cs| - 1] {
        var t :| 0 <= t < |init| && x in init[t];
        assert cs[t] == init[t];
      }
      if exists t :: 0 <= t < |cs| && x in cs[t] {
        var t :| 0 <= t < |cs| && x in cs[t];
        if t < |cs| - 1 {
          assert init[t] == cs[t];
        }
      }
    }
  }

  lemma {:induction false} ConcatAppend(a: seq<seq<int>>, b: seq<seq<int>>)
    ensures Concat(a + b) == Concat(a) + Concat(b)
    decreases |b|
  {
    if |b| > 0 {
      assert (a + b)[..|a + b| - 1] == a + b[..|b| - 1];
      ConcatAppend(a, b[..|b| - 1]);
    } else {
      assert a + b == a;
    }
  }

  /** Sets that are duplicate-free and pairwise disjoint concatenate to a
      duplicate-free sequence: a slot in at most one type set is listed at
      most once. */
  lemma {:induction false} ConcatNoDup(cs: seq<seq<int>>)
    requires forall t :: 0 <= t < |cs| ==> NoDup(cs[t])
    requires forall t, u, x :: 0 <= t < u < |cs| && x in cs[t] ==> x !in cs[u]
    ensures NoDup(Concat(cs))
    decreases |cs|
  {
    if |cs| > 0 {
      var init := cs[..|cs| - 1];
      var last := cs[|cs| - 1];
      ConcatNoDup(init);
      var c := Concat(init) + last;
      forall i, j | 0 <= i < j < |c|
        ensures c[i] != c[j]
      {
        if i < |Concat(init)| <= j {
          ConcatMembers(init, c[i]);
          var t :| 0 <= t < |init| && c[i] in init[t];
          assert c[i] in cs[t];
          assert c[j] in last;
        }
      }
    }
  }

  /** The concatenation of the first `n + 1` sets. */
  lemma ConcatSnoc(cs: seq<seq<int>>, n: nat)
    requires n < |cs|
    ensures Concat(cs[..n + 1]) == Concat(cs[..n]) + cs[n]
  {
    assert cs[..n + 1][..n] == cs[..n];
  }

  /** Where set `t` starts in the concatenation. */
  function Offset(cs: seq<seq<int>>, t: nat): (o: nat)
    requires t <= |cs|
  {
    |Concat(cs[..t])|
  }

  /** The concatenation around one set. */
  lemma ConcatAround(a: seq<seq<int>>, x: seq<int>, b: seq<seq<int>>)
    ensures Concat(a + [x] + b) == Concat(a) + x + Concat(b)
  {
    ConcatAppend(a + [x], b);
    ConcatAppend(a, [x]);
    assert [x][..0] == [];
  }

  /** Set `t` occupies its own segment of the concatenation. */
  lemma Segment(cs: seq<seq<int>>, t: nat)
    requires t < |cs|
    ensures Offset(cs, t) + |cs[t]| <= |Concat(cs)|
    ensures Concat(cs)[Offset(cs, t)..Offset(cs, t) + |cs[t]|] == cs[t]
  {
    assert cs == cs[..t] + [cs[t]] + cs[t + 1..];
    ConcatAround(cs[..t], cs[t], cs[t + 1..]);
  }

  /** Replacing one set by a sequence of the same length changes only that
      set's segment. */
  lemma ReplaceSegment(cs: seq<seq<int>>, t: nat, s: seq<int>)
    requires t < |cs| && |s| == |cs[t]|
    ensures Offset(cs, t) + |s| <= |Concat(cs)|
    ensures Concat(cs[t := s]) == Concat(cs)[..Offset(cs, t)] + s + Concat(cs)[Offset(cs, t) + |s|..]
    ensures Offset(cs[t := s], t) == Offset(cs, t)
  {
    var pre, post := cs[..t], cs[t + 1..];
    assert cs == pre + [cs[t]] + post;
    assert cs[t := s] == pre + [s] + post;
    assert cs[t := s][..t] == pre;
    ConcatAround(pre, cs[t], post);
    ConcatAround(pre, s, post);
    var a, c := Concat(pre), Concat(post);
    assert Concat(cs) == a + cs[t] + c;
    assert Concat(cs)[..|a|] == a;
    assert Concat(cs)[|a| + |s|..] == c;
  }

  /** The buffer entries whose records carry the REMOVE bit, in buffer
      order: the slots `postResolve` frees. */
  function Flagged(cells: seq<CellRec>, idx: seq<int>): (out: seq<int>)
    requires forall i :: 0 <= i < |idx| ==> 0 <= idx[i] < |cells|
    ensures |out| <= |idx|
  {
    if |idx| == 0 then []
    else
      var rest := Flagged(cells, idx[..|idx| - 1]);
      var x := idx[|idx| - 1];
      if Has(cells[x].flags, REMOVE_BIT) then rest + [x] else rest
  }

  /** A slot is freed exactly when it is listed and its record carries the
      REMOVE bit. */
  lemma {:induction false} FlaggedMembers(cells: seq<CellRec>, idx: seq<int>, x: int)
    requires forall i :: 0 <= i < |idx| ==> 0 <= idx[i] < |cells|
    ensures x in Flagged(cells, idx) <==> x in idx && 0 <= x < |cells| && Has(cells[x].flags, REMOVE_BIT)
  {
    if |idx| > 0 {
      var init := idx[..|idx| - 1];
      FlaggedMembers(cells, init, x);
      assert idx == init + [idx[|idx| - 1]];
    }
  }

}
