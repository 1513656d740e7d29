/** The mass arithmetic of src/physics/engine.js: how `distributeCellMass`
    shares a popped player cell's mass among new pieces, and how the
    autosplit of `updateTree` chooses its piece count and size. Mass is a
    hundredth of the squared radius throughout. */
module Mass {

  /** The sum of a sequence of masses. */
  function Sum(s: seq<real>): (total: real) {
    if |s| == 0 then 0.0 else Sum(s[..|s| - 1]) + s[|s| - 1]
  }

  /** `n` copies of `v`: `new Array(n).fill(v)`. */
  function Fill(n: nat, v: real): (s: seq<real>)
    ensures |s| == n && forall i :: 0 <= i < n ==> s[i] == v
  {
    seq(n, _ => v)
  }

  lemma {:induction false} SumAppend(a: seq<real>, b: seq<real>)
    ensures Sum(a + b) == Sum(a) + Sum(b)
    decreases |b|
  {
    if |b| > 0 {
      assert (a + b)[..|a + b| - 1] == a + b[..|b| - 1];
      SumAppend(a, b[..|b| - 1]);
    } else {
      assert a + b == a;
    }
  }

  lemma {:induction false} SumFill(n: nat, v: real)
    ensures Sum(Fill(n, v)) == n as real * v
    decreases n
  {
    if n > 0 {
      assert Fill(n, v)[..n - 1] == Fill(n - 1, v);
      SumFill(n - 1, v);
    }
  }

  /** `2^n` as a real. */
  function Pow2(n: nat): (p: real)
    ensures p >= 1.0
  {
    if n == 0 then 1.0 else 2.0 * Pow2(n - 1)
  }

  /** Halving `m / 2^(n+1)` gives `m / 2^(n+2)`. */
  lemma HalfStep(m: real, n: nat)
    ensures m / Pow2(n + 1) / 2.0 == m / Pow2(n + 2)
  {
    var p := Pow2(n + 1);
    assert Pow2(n + 2) == 2.0 * p;
    assert m / p / 2.0 == m / (2.0 * p);
  }

  /** A power of two. */
  predicate IsPow2(n: int)
    decreases if n > 0 then n else 0
  {
    n == 1 || (n > 1 && n % 2 == 0 && IsPow2(n / 2))
  }

  /** The monotone-pop branch: as many pieces as the mass affords at the
      minimum split mass, capped by the free cell budget, all of one mass
      `M / (amount + 1)`, so the popped cell keeps one share. */
  function MonotonePieces(cellMass: real, cellsLeft: nat, splitMin: real): (pieces: seq<real>)
    requires splitMin > 0.0 && cellMass >= 0.0
    ensures var afford := (cellMass / splitMin).Floor;
      |pieces| == if afford < cellsLeft then afford else cellsLeft
    ensures forall i :: 0 <= i < |pieces| ==> pieces[i] == cellMass / (|pieces| as real + 1.0)
  {
    var afford := (cellMass / splitMin).Floor;
    var amount := if afford < cellsLeft then afford else cellsLeft;
    Fill(amount, cellMass / (amount as real + 1.0))
  }

  /** Equal shares of `M / (n + 1)` for `n` pieces leave the popped cell
      exactly one share. */
  lemma SharesLeaveOne(cellMass: real, n: nat)
    ensures Sum(Fill(n, cellMass / (n as real + 1.0))) + cellMass / (n as real + 1.0) == cellMass
  {
    SumFill(n, cellMass / (n as real + 1.0));
    var k := n as real + 1.0;
    assert (n as real) * (cellMass / k) + cellMass / k == k * (cellMass / k);
  }

  /** `half` is the count before the doubling loop's last doubling, whose
      test passed. */
  predicate LastDoublingPassed(cellMass: real, cellsLeft: nat, splitMin: real, amount: nat, half: nat) {
    amount > 2 ==> amount == 2 * half && amount <= cellsLeft && cellMass / (half as real + 1.0) >= splitMin
  }

  /** A doubling whose test passed gives a power of two again, and is the
      last one that passed. */
  lemma DoublingStep(cellMass: real, cellsLeft: nat, splitMin: real, amount: nat)
    requires IsPow2(amount)
    requires cellMass / (amount as real + 1.0) >= splitMin && amount * 2 <= cellsLeft
    ensures IsPow2(amount * 2)
    ensures LastDoublingPassed(cellMass, cellsLeft, splitMin, amount * 2, amount)
  {
    assert (amount * 2) / 2 == amount;
  }

  /** Where the doubling loop stops, with the test of the count before it
      passed, equal pieces of the current count are a low-mass result. */
  lemma DoublingStopped(cellMass: real, cellsLeft: nat, splitMin: real, amount: nat, half: nat)
    requires !(cellMass / (amount as real + 1.0) >= splitMin && amount * 2 <= cellsLeft)
    requires LastDoublingPassed(cellMass, cellsLeft, splitMin, amount, half)
    ensures LowMassResult(cellMass, cellsLeft, splitMin, Fill(amount, cellMass / (amount as real + 1.0)))
  {
    var pieces := Fill(amount, cellMass / (amount as real + 1.0));
    if amount > 2 {
      assert |pieces| / 2 == half;
    }
  }

  /** The low-mass branch as written: start from two pieces and double
      while a piece of `M / (amount + 1)` still reaches the minimum and the
      doubled count fits the budget. */
  method LowMassPiecesAsWritten(cellMass: real, cellsLeft: nat, splitMin: real) returns (pieces: seq<real>)
    ensures |pieces| >= 2 && IsPow2(|pieces|)
    ensures cellsLeft >= 2 ==> |pieces| <= cellsLeft
    // equal pieces; the loop stopped at the first failing test, after a passing one
    ensures LowMassResult(cellMass, cellsLeft, splitMin, pieces)
  {
    var amount := 2;
    var perPiece := cellMass / (amount as real + 1.0);
    ghost var half: nat := 0;
    while perPiece >= splitMin && amount * 2 <= cellsLeft
      invariant amount >= 2 && IsPow2(amount)
      invariant cellsLeft >= 2 ==> amount <= cellsLeft
      invariant perPiece == cellMass / (amount as real + 1.0)
      invariant LastDoublingPassed(cellMass, cellsLeft, splitMin, amount, half)
      decreases cellsLeft - amount
    {
      DoublingStep(cellMass, cellsLeft, splitMin, amount);
      half := amount;
      amount := amount * 2;
      perPiece := cellMass / (amount as real + 1.0);
    }
    pieces := Fill(amount, perPiece);
    DoublingStopped(cellMass, cellsLeft, splitMin, amount, half);
  }

  /** The as-written branch can exceed the budget: with one free cell and
      a mass below the minimum split mass it still returns two pieces. */
  lemma LowMassOverrun()
    ensures var cellMass, cellsLeft, splitMin := 10.0, 1, 36.0;
      cellMass / cellsLeft as real < splitMin &&
      // the loop test fails at once, so the result keeps its initial count
      !(cellMass / 3.0 >= splitMin && 2 * 2 <= cellsLeft) &&
      |Fill(2, cellMass / 3.0)| > cellsLeft
  {
  }

  /** The low-mass branch with the budget respected: it starts from
      `min(2, cellsLeft)` pieces, so it never returns more pieces than there
      are free cells. */
  method LowMassPieces(cellMass: real, cellsLeft: nat, splitMin: real) returns (pieces: seq<real>)
    requires cellsLeft >= 1
    ensures 1 <= |pieces| <= cellsLeft && IsPow2(|pieces|)
    ensures cellsLeft >= 2 ==> |pieces| >= 2
    // equal pieces; the loop stopped at the first failing test, after a passing one
    ensures LowMassResult(cellMass, cellsLeft, splitMin, pieces)
  {
    var amount := if cellsLeft < 2 then cellsLeft else 2;
    var perPiece := cellMass / (amount as real + 1.0);
    ghost var half: nat := 0;
    while perPiece >= splitMin && amount * 2 <= cellsLeft
      invariant 1 <= amount <= cellsLeft && IsPow2(amount)
      invariant cellsLeft >= 2 ==> amount >= 2
      invariant perPiece == cellMass / (amount as real + 1.0)
      invariant LastDoublingPassed(cellMass, cellsLeft, splitMin, amount, half)
      decreases cellsLeft - amount
    {
      DoublingStep(cellMass, cellsLeft, splitMin, amount);
      half := amount;
      amount := amount * 2;
      perPiece := cellMass / (amount as real + 1.0);
    }
    pieces := Fill(amount, perPiece);
    DoublingStopped(cellMass, cellsLeft, splitMin, amount, half);
  }

  /** Of two distinct powers of two, the smaller is at most half the larger. */
  lemma {:induction false} Pow2Gap(a: int, b: int)
    requires IsPow2(a) && IsPow2(b) && a < b
    ensures 2 * a <= b
    decreases b
  {
    if a > 1 {
      Pow2Gap(a / 2, b / 2);
    }
  }

  /** The low-mass stop rule fixes the count: for a non-negative mass, at
      most one power of two from 2 up has its own test failing and the test
      of its half passing. */
  lemma LowMassCountDetermined(cellMass: real, cellsLeft: nat, splitMin: real, n1: nat, n2: nat)
    requires cellMass >= 0.0 && 2 <= n1 && 2 <= n2 && IsPow2(n1) && IsPow2(n2)
    requires cellMass / (n1 as real + 1.0) < splitMin || n1 * 2 > cellsLeft
    requires cellMass / (n2 as real + 1.0) < splitMin || n2 * 2 > cellsLeft
    requires n1 > 2 ==> n1 <= cellsLeft && cellMass / ((n1 / 2) as real + 1.0) >= splitMin
    requires n2 > 2 ==> n2 <= cellsLeft && cellMass / ((n2 / 2) as real + 1.0) >= splitMin
    ensures n1 == n2
  {
    if n1 < n2 {
      EarlierPassed(cellMass, cellsLeft, splitMin, n1, n2);
    } else if n2 < n1 {
      EarlierPassed(cellMass, cellsLeft, splitMin, n2, n1);
    }
  }

  /** A smaller power of two than a count whose half passed the test
      passes the test itself, within the budget. */
  lemma EarlierPassed(cellMass: real, cellsLeft: nat, splitMin: real, a: nat, b: nat)
    requires cellMass >= 0.0 && 2 <= a < b && IsPow2(a) && IsPow2(b)
    requires b <= cellsLeft && cellMass / ((b / 2) as real + 1.0) >= splitMin
    ensures cellMass / (a as real + 1.0) >= splitMin && a * 2 <= cellsLeft
  {
    Pow2Gap(a, b);
    assert a <= b / 2;
    DivAntitone(cellMass, a as real + 1.0, (b / 2) as real + 1.0);
  }

  /** Dividing a non-negative mass by a larger count gives no more. */
  lemma DivAntitone(m: real, x: real, y: real)
    requires m >= 0.0 && 0.0 < x <= y
    ensures m / x >= m / y
  {
    assert m / x - m / y == m * (y - x) / (x * y);
  }

  /** A positive quotient by a positive count has a positive numerator. */
  lemma PositiveNumerator(x: real, k: real, bound: real)
    requires k > 0.0 && bound > 0.0 && x / k >= bound
    ensures x > 0.0
  {
  }

  /** The pieces the greedy loop has pushed so far halve from `M / 4`, the
      one pushed for the last free cell taking all the mass that was left. */
  predicate Halving(cellMass: real, cellsLeft: nat, splits: seq<real>) {
    (forall i :: 0 <= i < |splits| && i < cellsLeft - 1 ==> splits[i] == cellMass / Pow2(i + 2)) &&
    (|splits| == cellsLeft > 0 ==> splits[cellsLeft - 1] == cellMass / Pow2(cellsLeft))
  }

  lemma HalvingPush(cellMass: real, cellsLeft: nat, splits: seq<real>, x: real)
    requires Halving(cellMass, cellsLeft, splits) && |splits| < cellsLeft
    requires x == if |splits| < cellsLeft - 1 then cellMass / Pow2(|splits| + 2) else cellMass / Pow2(cellsLeft)
    ensures Halving(cellMass, cellsLeft, splits + [x])
  {
    var t := splits + [x];
    forall i | 0 <= i < |t| && i < cellsLeft - 1
      ensures t[i] == cellMass / Pow2(i + 2)
    {
      if i < |splits| {
        assert t[i] == splits[i];
      }
    }
  }

  /** One round of the greedy loop keeps its invariant: with `left` free
      cells and `massLeft == M / 2^(k+1)` still to share, the pushed piece is
      half of it, or all of it for the last free cell. */
  lemma GreedyRound(cellMass: real, cellsLeft: nat, splits: seq<real>, left: nat, massLeft: real, x: real)
    requires |splits| + left == cellsLeft && left > 0
    requires massLeft == cellMass / Pow2(|splits| + 1)
    requires Halving(cellMass, cellsLeft, splits)
    requires x == if left > 1 then massLeft / 2.0 else massLeft
    ensures Halving(cellMass, cellsLeft, splits + [x])
    ensures left > 1 ==> massLeft - x == x == cellMass / Pow2(|splits + [x]| + 1)
    ensures left == 1 ==> massLeft - x == 0.0
    ensures Sum(splits + [x]) == Sum(splits) + x
  {
    if left > 1 {
      HalfStep(cellMass, |splits|);
    }
    HalvingPush(cellMass, cellsLeft, splits, x);
  }

  /** Spreading `m` evenly over `n > 0` pieces keeps all of it. */
  lemma EvenShare(m: real, n: nat)
    requires n > 0
    ensures Sum(Fill(n, m / n as real)) == m
  {
    SumFill(n, m / n as real);
    assert n as real * (m / n as real) == m;
  }

  /** The loop test of the greedy branch passed for each of the first `n`
      pushes: the `k`-th time, the mass still to share, `M / 2^(k+1)`,
      spread over the `cellsLeft - k` free cells left, reached the minimum. */
  predicate PushesPassed(cellMass: real, cellsLeft: nat, splitMin: real, n: nat) {
    forall k :: 0 <= k < n && k < cellsLeft ==> NextShare(cellMass, cellsLeft, k) >= splitMin
  }

  /** The share the greedy loop tests before its `k`-th push. */
  function NextShare(cellMass: real, cellsLeft: nat, k: nat): (share: real)
    requires k < cellsLeft
  {
    cellMass / Pow2(k + 1) / (cellsLeft - k) as real
  }

  /** A push whose loop test passed extends the passed pushes by one. */
  lemma PushesPassedStep(cellMass: real, cellsLeft: nat, splitMin: real, n: nat)
    requires PushesPassed(cellMass, cellsLeft, splitMin, n) && n < cellsLeft
    requires cellMass / Pow2(n + 1) / (cellsLeft - n) as real >= splitMin
    ensures PushesPassed(cellMass, cellsLeft, splitMin, n + 1)
  {
  }

  /** The greedy branch: while half of the remaining pushed mass spread over
      the free cells still reaches the minimum, push the next halving of the
      mass; then spread what is left evenly over the free cells that remain.
      `pushed` is how many pieces the loop pushed. */
  method GreedyPieces(cellMass: real, cellsLeft: nat, splitMin: real) returns (pieces: seq<real>, ghost pushed: nat)
    requires cellsLeft > 0 && splitMin > 0.0
    // `cellsLeft` pieces summing to half the mass: the halving pushes, each of
    // which passed the loop's test, then equal shares once a test failed
    ensures GreedyResult(cellMass, cellsLeft, splitMin, pieces, pushed)
  {
    var splits: seq<real> := [];
    var left := cellsLeft;
    var nextMass := cellMass / 2.0;
    var massLeft := cellMass / 2.0;
    while left > 0 && !(nextMass / left as real < splitMin)
      invariant |splits| + left == cellsLeft
      invariant left > 0 ==> nextMass == massLeft == cellMass / Pow2(|splits| + 1)
      invariant left == 0 ==> massLeft == 0.0
      invariant Sum(splits) + massLeft == cellMass / 2.0
      invariant Halving(cellMass, cellsLeft, splits)
      invariant PushesPassed(cellMass, cellsLeft, splitMin, |splits|)
      decreases left
    {
      PositiveNumerator(nextMass, left as real, splitMin);
      PushesPassedStep(cellMass, cellsLeft, splitMin, |splits|);
      ghost var before := nextMass;
      while nextMass >= massLeft && left > 1
        invariant massLeft == before > 0.0
        invariant nextMass == before || (left > 1 && nextMass == before / 2.0)
        decreases if nextMass >= massLeft then 1 else 0
      {
        nextMass := nextMass / 2.0;
      }
      GreedyRound(cellMass, cellsLeft, splits, left, massLeft, nextMass);
      splits := splits + [nextMass];
      massLeft := massLeft - nextMass;
      left := left - 1;
    }
    pushed := |splits|;
    var share := if left > 0 then massLeft / left as real else 0.0;
    pieces := splits + Fill(left, share);
    GreedyStopped(cellMass, cellsLeft, splitMin, splits, left, massLeft, share);
  }

  /** Where the greedy loop stops, its pushes followed by equal shares of
      what is left over the free cells that remain are a greedy result. */
  lemma GreedyStopped(cellMass: real, cellsLeft: nat, splitMin: real, splits: seq<real>, left: nat, massLeft: real, share: real)
    requires |splits| + left == cellsLeft
    requires left > 0 ==> massLeft == cellMass / Pow2(|splits| + 1) && massLeft / left as real < splitMin
    requires left == 0 ==> massLeft == 0.0
    requires Sum(splits) + massLeft == cellMass / 2.0
    requires Halving(cellMass, cellsLeft, splits)
    requires PushesPassed(cellMass, cellsLeft, splitMin, |splits|)
    requires share == if left > 0 then massLeft / left as real else 0.0
    ensures GreedyResult(cellMass, cellsLeft, splitMin, splits + Fill(left, share), |splits|)
  {
    var pieces := splits + Fill(left, share);
    assert Sum(pieces) == cellMass / 2.0 by {
      SumAppend(splits, Fill(left, share));
      if left > 0 {
        EvenShare(massLeft, left);
      }
    }
    HalvingPrefix(cellMass, cellsLeft, splits, Fill(left, share));
    SharesTail(cellMass, cellsLeft, splits, left, share);
  }

  /** The equal shares after the pushes are the remaining mass
      `M / 2^(pushed+1)` spread over the free cells that remain. */
  lemma SharesTail(cellMass: real, cellsLeft: nat, splits: seq<real>, left: nat, share: real)
    requires |splits| + left == cellsLeft
    requires left > 0 ==> share == cellMass / Pow2(|splits| + 1) / left as real
    ensures forall i :: |splits| <= i < cellsLeft ==>
      (splits + Fill(left, share))[i] == cellMass / Pow2(|splits| + 1) / (cellsLeft - |splits|) as real
  {
    var tail := Fill(left, share);
    forall i | |splits| <= i < cellsLeft
      ensures (splits + tail)[i] == cellMass / Pow2(|splits| + 1) / (cellsLeft - |splits|) as real
    {
      assert (splits + tail)[i] == tail[i - |splits|];
    }
  }

  /** Pieces after the halving pushes do not disturb them. */
  lemma HalvingPrefix(cellMass: real, cellsLeft: nat, splits: seq<real>, rest: seq<real>)
    requires Halving(cellMass, cellsLeft, splits)
    ensures forall i :: 0 <= i < |splits| && i < cellsLeft - 1 ==> (splits + rest)[i] == cellMass / Pow2(i + 2)
    ensures |splits| == cellsLeft > 0 ==> (splits + rest)[cellsLeft - 1] == cellMass / Pow2(cellsLeft)
  {
  }

  /** The greedy stop rule fixes the number of pushes: it is the first
      push whose test fails, or all of them. */
  lemma PushesDetermined(cellMass: real, cellsLeft: nat, splitMin: real, p1: nat, p2: nat)
    requires p1 <= cellsLeft && p2 <= cellsLeft
    requires PushesPassed(cellMass, cellsLeft, splitMin, p1) && PushesPassed(cellMass, cellsLeft, splitMin, p2)
    requires p1 < cellsLeft ==> NextShare(cellMass, cellsLeft, p1) < splitMin
    requires p2 < cellsLeft ==> NextShare(cellMass, cellsLeft, p2) < splitMin
    ensures p1 == p2
  {
  }

  /** What the greedy branch returns (`GreedyPieces`): `cellsLeft` pieces
      summing to half the mass, the halving pieces first, then equal
      shares of what is left; every push passed the loop's test and the
      loop stopped at the first one that failed. */
  predicate GreedyResult(cellMass: real, cellsLeft: nat, splitMin: real, pieces: seq<real>, pushed: nat) {
    |pieces| == cellsLeft && pushed <= cellsLeft && Sum(pieces) == cellMass / 2.0 &&
    // the pushed pieces halve: M/4, M/8, ..., the last one taking all that is left
    (forall i :: 0 <= i < pushed && i < cellsLeft - 1 ==> pieces[i] == cellMass / Pow2(i + 2)) &&
    (pushed == cellsLeft > 0 ==> pieces[cellsLeft - 1] == cellMass / Pow2(cellsLeft)) &&
    // every piece after them is an equal share of the remaining mass
    (forall i :: pushed <= i < cellsLeft ==>
      pieces[i] == cellMass / Pow2(pushed + 1) / (cellsLeft - pushed) as real) &&
    // every push passed the loop's test, and the loop stopped because the
    // next share fell below the minimum
    PushesPassed(cellMass, cellsLeft, splitMin, pushed) &&
    (pushed < cellsLeft ==> cellMass / Pow2(pushed + 1) / (cellsLeft - pushed) as real < splitMin)
  }

  /** What the low-mass branch returns, beyond its count's bounds: equal
      pieces `M / (n + 1)`, the loop stopped at the first failing test,
      and the doubling before it passed. */
  predicate LowMassResult(cellMass: real, cellsLeft: nat, splitMin: real, pieces: seq<real>) {
    // every piece is `M / (n + 1)`
    (forall i :: 0 <= i < |pieces| ==> pieces[i] == cellMass / (|pieces| as real + 1.0)) &&
    // the loop's test fails for the count returned
    (cellMass / (|pieces| as real + 1.0) < splitMin || |pieces| * 2 > cellsLeft) &&
    // and passed for the count before the last doubling
    (|pieces| > 2 ==> |pieces| <= cellsLeft && cellMass / ((|pieces| / 2) as real + 1.0) >= splitMin)
  }

  /** The corrected `distributeCellMass`, whose low-mass branch starts
      from `min(2, cellsLeft)` pieces (`LowMassPieces`); the source's own
      dispatcher is `DistributeCellMassAsWritten`. The inputs are the
      popped cell's mass, the free cell budget of its player (which may be
      negative), the minimum split mass and the monotone-pop option. */
  method DistributeCellMass(cellMass: real, cellsLeft: int, splitMin: real, monotone: bool)
    returns (pieces: seq<real>, ghost pushed: nat)
    requires splitMin > 0.0 && cellMass >= 0.0
    ensures cellsLeft <= 0 ==> pieces == []
    ensures cellsLeft > 0 ==> |pieces| <= cellsLeft
    ensures cellsLeft > 0 && monotone ==> pieces == MonotonePieces(cellMass, cellsLeft, splitMin)
    // the greedy branch: the halving pieces, then equal shares of what is left
    ensures cellsLeft > 0 && !monotone && cellMass / cellsLeft as real >= splitMin ==>
      GreedyResult(cellMass, cellsLeft, splitMin, pieces, pushed)
    // the low-mass branch: a power of two of equal pieces, doubled while it may
    ensures cellsLeft > 0 && !monotone && cellMass / cellsLeft as real < splitMin ==>
      1 <= |pieces| && IsPow2(|pieces|) && (cellsLeft >= 2 ==> |pieces| >= 2) &&
      LowMassResult(cellMass, cellsLeft, splitMin, pieces)
    ensures Sum(pieces) <= cellMass
  {
    pushed := 0;
    if cellsLeft <= 0 {
      return [], 0;
    }
    if monotone {
      pieces := MonotonePieces(cellMass, cellsLeft, splitMin);
      EqualPiecesBounded(cellMass, pieces);
      return;
    }
    if cellMass / cellsLeft as real < splitMin {
      pieces := LowMassPieces(cellMass, cellsLeft, splitMin);
      LowMassBounded(cellMass, cellsLeft, splitMin, pieces);
      return;
    }
    pieces, pushed := GreedyPieces(cellMass, cellsLeft, splitMin);
    GreedyBounded(cellMass, cellsLeft, splitMin, pieces, pushed);
  }

  /** Equal pieces `M / (n + 1)` of a non-negative mass sum to at most it. */
  lemma EqualPiecesBounded(cellMass: real, pieces: seq<real>)
    requires cellMass >= 0.0
    requires forall i :: 0 <= i < |pieces| ==> pieces[i] == cellMass / (|pieces| as real + 1.0)
    ensures Sum(pieces) <= cellMass
  {
    assert pieces == Fill(|pieces|, cellMass / (|pieces| as real + 1.0));
    NonNegativeShare(cellMass, |pieces|);
  }

  /** A low-mass result of a non-negative mass carries no more than it. */
  lemma LowMassBounded(cellMass: real, cellsLeft: nat, splitMin: real, pieces: seq<real>)
    requires cellMass >= 0.0 && LowMassResult(cellMass, cellsLeft, splitMin, pieces)
    ensures Sum(pieces) <= cellMass
  {
    EqualPiecesBounded(cellMass, pieces);
  }

  /** A greedy result fills the budget and carries half of a non-negative
      mass. */
  lemma GreedyBounded(cellMass: real, cellsLeft: nat, splitMin: real, pieces: seq<real>, pushed: nat)
    requires cellMass >= 0.0 && GreedyResult(cellMass, cellsLeft, splitMin, pieces, pushed)
    ensures |pieces| == cellsLeft && Sum(pieces) <= cellMass
  {
  }

  /** `distributeCellMass` as written, with the low-mass branch that may
      overrun a budget of one free cell. */
  method DistributeCellMassAsWritten(cellMass: real, cellsLeft: int, splitMin: real, monotone: bool)
    returns (pieces: seq<real>, ghost pushed: nat)
    requires splitMin > 0.0 && cellMass >= 0.0
    ensures cellsLeft <= 0 ==> pieces == []
    ensures cellsLeft >= 2 ==> |pieces| <= cellsLeft
    ensures cellsLeft > 0 && monotone ==> pieces == MonotonePieces(cellMass, cellsLeft, splitMin)
    // the greedy branch: the halving pieces, then equal shares of what is left
    ensures cellsLeft > 0 && !monotone && cellMass / cellsLeft as real >= splitMin ==>
      GreedyResult(cellMass, cellsLeft, splitMin, pieces, pushed)
    // the low-mass branch as written: at least two pieces, whatever the budget
    ensures cellsLeft > 0 && !monotone && cellMass / cellsLeft as real < splitMin ==>
      |pieces| >= 2 && IsPow2(|pieces|) &&
      LowMassResult(cellMass, cellsLeft, splitMin, pieces)
  {
    pushed := 0;
    if cellsLeft <= 0 {
      return [], 0;
    }
    if monotone {
      pieces := MonotonePieces(cellMass, cellsLeft, splitMin);
      return;
    }
    if cellMass / cellsLeft as real < splitMin {
      pieces := LowMassPiecesAsWritten(cellMass, cellsLeft, splitMin);
      return;
    }
    pieces, pushed := GreedyPieces(cellMass, cellsLeft, splitMin);
  }

  /** Equal shares of a non-negative mass sum to at most the mass. */
  lemma NonNegativeShare(cellMass: real, n: nat)
    requires cellMass >= 0.0
    ensures Sum(Fill(n, cellMass / (n as real + 1.0))) <= cellMass
  {
    SharesLeaveOne(cellMass, n);
    assert cellMass / (n as real + 1.0) >= 0.0;
  }

  /** The autosplit piece count of `updateTree`: `ceil(r² / A²)` for
      autosplit size `A`. */
  function AutosplitCount(r2: real, a: real): (n: int)
    requires a > 0.0
    ensures n as real >= r2 / (a * a) > n as real - 1.0
  {
    var q := r2 / (a * a);
    if q.Floor as real == q then q.Floor else q.Floor + 1
  }

  /** For a cell over the autosplit size, the count is at least two and its
      pieces of area `r² / n` are no larger than the autosplit area, so the
      `min` with `A` in the source picks `sqrt(r² / n)`; the `n - 1` split
      pieces and the remaining cell then carry the cell's whole area. */
  lemma AutosplitPieces(r2: real, a: real)
    requires a > 0.0 && r2 > a * a
    ensures AutosplitCount(r2, a) >= 2
    ensures r2 / AutosplitCount(r2, a) as real <= a * a
    ensures r2 - (AutosplitCount(r2, a) - 1) as real * (r2 / AutosplitCount(r2, a) as real) ==
      r2 / AutosplitCount(r2, a) as real
  {
    var n := AutosplitCount(r2, a);
    var aa := a * a;
    assert r2 / aa > 1.0;
    assert n >= 2;
    var nr := n as real;
    assert nr * aa >= r2 by {
      assert nr >= r2 / aa;
      assert nr * aa >= (r2 / aa) * aa;
    }
    assert r2 / nr <= aa;
    assert nr * (r2 / nr) == r2;
  }
}
