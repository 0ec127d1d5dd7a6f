/** Cutting a list of transactions into chunks that stay below the block's mass and cycle limits. */
module Chunker {
  import opened Arith
  import opened Outcomes
  import opened Words

  datatype Cost = Cost(mass: u64, cycles: u64)

  datatype Limits = Limits(mass: u64, cycles: u64)

  function Mass(txs: seq<Cost>, a: nat, b: nat): nat
    requires a <= b <= |txs|
    decreases b
  {
    if a == b then 0 else Mass(txs, a, b - 1) + txs[b - 1].mass
  }

  function Cycles(txs: seq<Cost>, a: nat, b: nat): nat
    requires a <= b <= |txs|
    decreases b
  {
    if a == b then 0 else Cycles(txs, a, b - 1) + txs[b - 1].cycles
  }

  /** The transactions from a up to b reach one of the limits. */
  predicate Reaches(txs: seq<Cost>, lim: Limits, a: nat, b: nat)
    requires a <= b <= |txs|
  {
    Mass(txs, a, b) >= lim.mass || Cycles(txs, a, b) >= lim.cycles
  }

  /** A running sum leaves the machine word before a limit is reached. */
  predicate Overflows(txs: seq<Cost>, lim: Limits, a: nat)
  {
    exists b {:trigger Reaches(txs, lim, a, b)} :: a < b < |txs| && !Reaches(txs, lim, a, b)
      && (Mass(txs, a, b + 1) > U64_MAX || Cycles(txs, a, b + 1) > U64_MAX)
  }

  /** b ends a chunk that starts at a: one transaction or below both limits, and no longer chunk would be below them. */
  ghost predicate IsChunk(txs: seq<Cost>, lim: Limits, a: nat, b: nat)
  {
    && a < b <= |txs|
    && (b == a + 1 || !Reaches(txs, lim, a, b))
    && (b < |txs| ==> Reaches(txs, lim, a, b + 1))
  }

  lemma {:induction false} MassSplits(txs: seq<Cost>, a: nat, b: nat, c: nat)
    requires a <= b <= c <= |txs|
    ensures Mass(txs, a, c) == Mass(txs, a, b) + Mass(txs, b, c)
    ensures Cycles(txs, a, c) == Cycles(txs, a, b) + Cycles(txs, b, c)
    decreases c
  {
    if b < c { MassSplits(txs, a, b, c - 1); }
  }

  // ---- the sums, defined apart from the running ones ----

  function Sum(xs: seq<nat>): nat
  {
    if xs == [] then 0 else xs[0] + Sum(xs[1..])
  }

  function Masses(txs: seq<Cost>): seq<nat>
  {
    seq(|txs|, i requires 0 <= i < |txs| => txs[i].mass)
  }

  function CycleCounts(txs: seq<Cost>): seq<nat>
  {
    seq(|txs|, i requires 0 <= i < |txs| => txs[i].cycles)
  }

  lemma {:induction false} SumSnoc(xs: seq<nat>, x: nat)
    ensures Sum(xs + [x]) == Sum(xs) + x
  {
    if xs == [] {
      assert xs + [x] == [x];
    } else {
      SumSnoc(xs[1..], x);
      assert (xs + [x])[1..] == xs[1..] + [x];
    }
  }

  /** The running sums are the sums of the masses and of the cycles of the transactions between the bounds. */
  lemma {:induction false} RunningSums(txs: seq<Cost>, a: nat, b: nat)
    requires a <= b <= |txs|
    ensures Mass(txs, a, b) == Sum(Masses(txs[a..b])) && Cycles(txs, a, b) == Sum(CycleCounts(txs[a..b]))
    decreases b
  {
    if a < b {
      RunningSums(txs, a, b - 1);
      assert txs[a..b] == txs[a..b - 1] + [txs[b - 1]];
      CostsSnoc(txs[a..b - 1], txs[b - 1]);
    }
  }

  lemma CostsSnoc(txs: seq<Cost>, tx: Cost)
    ensures Sum(Masses(txs + [tx])) == Sum(Masses(txs)) + tx.mass
    ensures Sum(CycleCounts(txs + [tx])) == Sum(CycleCounts(txs)) + tx.cycles
  {
    assert Masses(txs + [tx]) == Masses(txs) + [tx.mass as nat];
    assert CycleCounts(txs + [tx]) == CycleCounts(txs) + [tx.cycles as nat];
    SumSnoc(Masses(txs), tx.mass);
    SumSnoc(CycleCounts(txs), tx.cycles);
  }

  /** A panic means that some sum leaves 64 bits with the next transaction while both sums are below the limits. */
  lemma OverflowMeans(txs: seq<Cost>, lim: Limits, a: nat)
    ensures Overflows(txs, lim, a) <==> exists b :: SumOverflows(txs, lim, a, b)
  {
    forall b | a < b < |txs|
      ensures SumOverflows(txs, lim, a, b) <==>
              !Reaches(txs, lim, a, b) && (Mass(txs, a, b + 1) > U64_MAX || Cycles(txs, a, b + 1) > U64_MAX)
    {
      RunningSums(txs, a, b);
      RunningSums(txs, a, b + 1);
    }
    if b :| SumOverflows(txs, lim, a, b) { assert !Reaches(txs, lim, a, b); }
  }

  predicate SumOverflows(txs: seq<Cost>, lim: Limits, a: nat, b: nat)
  {
    && a < b < |txs|
    && Sum(Masses(txs[a..b])) < lim.mass && Sum(CycleCounts(txs[a..b])) < lim.cycles
    && (Sum(Masses(txs[a..b + 1])) > U64_MAX || Sum(CycleCounts(txs[a..b + 1])) > U64_MAX)
  }

  /** Several transactions stay below both limits, and one more would reach one of them. */
  predicate Tight(txs: seq<Cost>, lim: Limits, a: nat, b: nat)
    requires a < b <= |txs|
  {
    && (b > a + 1 ==> Sum(Masses(txs[a..b])) < lim.mass && Sum(CycleCounts(txs[a..b])) < lim.cycles)
    && (b < |txs| ==> Sum(Masses(txs[a..b + 1])) >= lim.mass || Sum(CycleCounts(txs[a..b + 1])) >= lim.cycles)
  }

  lemma ChunkIsTight(txs: seq<Cost>, lim: Limits, a: nat, b: nat)
    requires a < b <= |txs|
    ensures IsChunk(txs, lim, a, b) <==> Tight(txs, lim, a, b)
  {
    RunningSums(txs, a, b);
    if b < |txs| { RunningSums(txs, a, b + 1); }
  }

  /** The end of the chunk that starts at the lower bound, or none past the end of the list. */
  method NextChunkUpperBound(txs: seq<Cost>, lim: Limits, lower: nat) returns (r: Outcome<Option<nat>>)
    ensures r.Panicked? <==> Overflows(txs, lim, lower)
    ensures r == Returned(None) <==> lower >= |txs|
    ensures r.Returned? && r.value.Some? ==>
      lower < r.value.value <= |txs| && Tight(txs, lim, lower, r.value.value)
  {
    r := FindUpperBound(txs, lim, lower);
    if r.Returned? && r.value.Some? { ChunkIsTight(txs, lim, lower, r.value.value); }
  }

  method FindUpperBound(txs: seq<Cost>, lim: Limits, lower: nat) returns (r: Outcome<Option<nat>>)
    ensures r.Panicked? <==> Overflows(txs, lim, lower)
    ensures r == Returned(None) <==> lower >= |txs|
    ensures r.Returned? && r.value.Some? ==> IsChunk(txs, lim, lower, r.value.value)
  {
    if lower >= |txs| {
      return Returned(None);
    }
    var mass, cycles := 0, 0;
    var i := 0;
    while lower + i < |txs|
      invariant lower + i <= |txs|
      invariant mass == Mass(txs, lower, lower + i) && cycles == Cycles(txs, lower, lower + i)
      invariant 0 <= mass <= U64_MAX && 0 <= cycles <= U64_MAX
      invariant forall b :: lower < b <= lower + i ==> !Reaches(txs, lim, lower, b)
    {
      var tx := txs[lower + i];
      if mass + tx.mass > U64_MAX || cycles + tx.cycles > U64_MAX {
        assert !Reaches(txs, lim, lower, lower + i);
        return Panicked;
      }
      mass, cycles := mass + tx.mass, cycles + tx.cycles;
      if mass >= lim.mass || cycles >= lim.cycles {
        var relative := if i < 1 then 1 else i;
        NoOverflowBefore(txs, lim, lower, lower + i + 1);
        return Returned(Some(relative + lower));
      }
      i := i + 1;
    }
    NoOverflowAtAll(txs, lim, lower);
    r := Returned(Some(|txs|));
  }

  lemma MoreReaches(txs: seq<Cost>, lim: Limits, a: nat, b: nat, c: nat)
    requires a <= b <= c <= |txs| && Reaches(txs, lim, a, b)
    ensures Reaches(txs, lim, a, c)
  {
    MassSplits(txs, a, b, c);
  }

  lemma NoOverflowBefore(txs: seq<Cost>, lim: Limits, lower: nat, top: nat)
    requires lower < top <= |txs| && Reaches(txs, lim, lower, top)
    requires Mass(txs, lower, top) <= U64_MAX && Cycles(txs, lower, top) <= U64_MAX
    ensures !Overflows(txs, lim, lower)
  {
    forall b {:trigger Reaches(txs, lim, lower, b)} | lower < b < |txs| && !Reaches(txs, lim, lower, b)
      ensures Mass(txs, lower, b + 1) <= U64_MAX && Cycles(txs, lower, b + 1) <= U64_MAX
    {
      if b >= top {
        MoreReaches(txs, lim, lower, top, b);
      }
      MassSplits(txs, lower, b + 1, top);
    }
  }

  lemma NoOverflowAtAll(txs: seq<Cost>, lim: Limits, lower: nat)
    requires lower <= |txs| && Mass(txs, lower, |txs|) <= U64_MAX && Cycles(txs, lower, |txs|) <= U64_MAX
    ensures !Overflows(txs, lim, lower)
  {
    forall b {:trigger Reaches(txs, lim, lower, b)} | lower < b < |txs|
      ensures Mass(txs, lower, b + 1) <= U64_MAX && Cycles(txs, lower, b + 1) <= U64_MAX
    {
      MassSplits(txs, lower, b + 1, |txs|);
    }
  }

  /** Costs that leave room for the limits never overflow a sum. */
  lemma RoomMeansNoPanic(txs: seq<Cost>, lim: Limits, lower: nat)
    requires forall i :: 0 <= i < |txs| ==>
      txs[i].mass + lim.mass <= U64_MAX + 1 && txs[i].cycles + lim.cycles <= U64_MAX + 1
    ensures !Overflows(txs, lim, lower)
  {
    if Overflows(txs, lim, lower) {
      var b :| lower < b < |txs| && !Reaches(txs, lim, lower, b)
        && (Mass(txs, lower, b + 1) > U64_MAX || Cycles(txs, lower, b + 1) > U64_MAX);
    }
  }

  // ---- all chunks ----

  /** The cuts 0 = b(0) < b(1) < ... at the ends of consecutive chunks. */
  ghost predicate Cuts(txs: seq<Cost>, lim: Limits, cuts: seq<nat>)
  {
    |cuts| > 0 && cuts[0] == 0 && forall j :: 0 <= j < |cuts| - 1 ==> IsChunk(txs, lim, cuts[j], cuts[j + 1])
  }

  /** The cuts lead to a chunk whose sum overflows. */
  ghost predicate Overruns(txs: seq<Cost>, lim: Limits, cuts: seq<nat>)
  {
    Cuts(txs, lim, cuts) && Overflows(txs, lim, cuts[|cuts| - 1])
  }

  /** A start leaves no choice of the end. */
  lemma ChunkIsUnique(txs: seq<Cost>, lim: Limits, a: nat, b: nat, c: nat)
    requires IsChunk(txs, lim, a, b) && IsChunk(txs, lim, a, c)
    ensures b == c
  {
    if b < c {
      MoreReaches(txs, lim, a, b + 1, c);
    } else if c < b {
      MoreReaches(txs, lim, a, c + 1, b);
    }
  }

  /** So there is only one way to cut. */
  lemma {:induction false} CutsAgree(txs: seq<Cost>, lim: Limits, c: seq<nat>, d: seq<nat>, j: nat)
    requires Cuts(txs, lim, c) && Cuts(txs, lim, d) && j < |c| && j < |d|
    ensures c[j] == d[j]
  {
    if j > 0 {
      CutsAgree(txs, lim, c, d, j - 1);
      assert IsChunk(txs, lim, c[j - 1], c[j]) && IsChunk(txs, lim, d[j - 1], d[j]);
      ChunkIsUnique(txs, lim, c[j - 1], c[j], d[j]);
    }
  }

  lemma InnerCut(txs: seq<Cost>, lim: Limits, cuts: seq<nat>, j: nat)
    requires Cuts(txs, lim, cuts) && j < |cuts| - 1
    ensures cuts[j] < |txs|
  {
    assert IsChunk(txs, lim, cuts[j], cuts[j + 1]);
  }

  lemma CompleteCutsDoNotOverrun(txs: seq<Cost>, lim: Limits, c: seq<nat>, d: seq<nat>)
    requires Cuts(txs, lim, c) && c[|c| - 1] == |txs| && (forall j :: 0 <= j < |c| ==> !Overflows(txs, lim, c[j]))
    ensures !Overruns(txs, lim, d)
  {
    if Cuts(txs, lim, d) {
      if |d| <= |c| {
        CutsAgree(txs, lim, c, d, |d| - 1);
      } else {
        InnerCut(txs, lim, d, |c| - 1);
        CutsAgree(txs, lim, c, d, |c| - 1);
      }
    }
  }

  /**
   * Cuts the whole list; every transaction is in exactly one chunk and gets one result. It panics
   * exactly when the cuts made so far can lead to a chunk whose sum overflows.
   */
  method ChunkAll(txs: seq<Cost>, lim: Limits) returns (r: Outcome<seq<nat>>)
    ensures r.Returned? ==> Cuts(txs, lim, r.value) && r.value[|r.value| - 1] == |txs|
    ensures r.Panicked? <==> exists cuts :: Overruns(txs, lim, cuts)
  {
    var cuts := [0];
    var lower := 0;
    while true
      invariant Cuts(txs, lim, cuts) && cuts[|cuts| - 1] == lower <= |txs|
      invariant forall j :: 0 <= j < |cuts| - 1 ==> !Overflows(txs, lim, cuts[j])
      decreases |txs| - lower
    {
      var upper := NextChunkUpperBound(txs, lim, lower);
      match upper
      case Panicked =>
        assert Overruns(txs, lim, cuts);
        return Panicked;
      case Returned(None) =>
        forall d ensures !Overruns(txs, lim, d) { CompleteCutsDoNotOverrun(txs, lim, cuts, d); }
        return Returned(cuts);
      case Returned(Some(b)) =>
        ChunkIsTight(txs, lim, lower, b);
        cuts := cuts + [b];
        lower := b;
    }
  }

  // ---- how many chunks there can be ----

  function Weight(txs: seq<Cost>, lim: Limits, a: nat, b: nat): nat
    requires a <= b <= |txs|
  {
    Times(Mass(txs, a, b), lim.cycles) + Times(Cycles(txs, a, b), lim.mass)
  }

  lemma WeightSplits(txs: seq<Cost>, lim: Limits, a: nat, b: nat, c: nat)
    requires a <= b <= c <= |txs|
    ensures Weight(txs, lim, a, c) == Weight(txs, lim, a, b) + Weight(txs, lim, b, c)
  {
    MassSplits(txs, a, b, c);
    TimesAdd(Mass(txs, a, b), Mass(txs, b, c), lim.cycles);
    TimesAdd(Cycles(txs, a, b), Cycles(txs, b, c), lim.mass);
  }

  lemma Monotone(x: nat, y: nat, z: nat)
    requires x <= y
    ensures Times(x, z) <= Times(y, z)
  {
    TimesAdd(x, y - x, z);
  }

  /** Reaching a limit weighs at least the product of the limits. */
  lemma ReachingIsHeavy(txs: seq<Cost>, lim: Limits, a: nat, b: nat)
    requires a <= b <= |txs| && Reaches(txs, lim, a, b)
    ensures Weight(txs, lim, a, b) >= Times(lim.mass, lim.cycles)
  {
    if Mass(txs, a, b) >= lim.mass {
      Monotone(lim.mass, Mass(txs, a, b), lim.cycles);
    } else {
      Monotone(lim.cycles, Cycles(txs, a, b), lim.mass);
      TimesSwap(lim.mass, lim.cycles);
    }
  }

  /** Two neighbouring chunks together weigh at least the product of the limits. */
  lemma NeighboursAreHeavy(txs: seq<Cost>, lim: Limits, a: nat, b: nat, c: nat)
    requires IsChunk(txs, lim, a, b) && IsChunk(txs, lim, b, c)
    ensures Weight(txs, lim, a, b) + Weight(txs, lim, b, c) >= Times(lim.mass, lim.cycles)
  {
    ReachingIsHeavy(txs, lim, a, b + 1);
    WeightSplits(txs, lim, a, b, b + 1);
    WeightSplits(txs, lim, b, b + 1, c);
  }

  lemma {:induction false} ChunkCount(txs: seq<Cost>, lim: Limits, cuts: seq<nat>, k: nat)
    requires Cuts(txs, lim, cuts) && 0 < k < |cuts|
    ensures cuts[k - 1] < cuts[k] <= |txs| && cuts[1] <= |txs|
    ensures Times(k - 1, Times(lim.mass, lim.cycles)) + Weight(txs, lim, cuts[k - 1], cuts[k])
            <= 2 * Weight(txs, lim, 0, cuts[k])
  {
    assert IsChunk(txs, lim, cuts[0], cuts[1]);
    assert IsChunk(txs, lim, cuts[k - 1], cuts[k]);
    TimesIs(0, Times(lim.mass, lim.cycles));
    if k > 1 {
      assert IsChunk(txs, lim, cuts[k - 2], cuts[k - 1]);
      ChunkCount(txs, lim, cuts, k - 1);
      NeighboursAreHeavy(txs, lim, cuts[k - 2], cuts[k - 1], cuts[k]);
      WeightSplits(txs, lim, 0, cuts[k - 1], cuts[k]);
      TimesAdd(k - 2, 1, Times(lim.mass, lim.cycles));
      TimesIs(1, Times(lim.mass, lim.cycles));
    }
  }

  /** The number of chunks is bounded by twice the total cost in units of the limits. */
  lemma {:induction false} ChunkCountBound(txs: seq<Cost>, lim: Limits, cuts: seq<nat>)
    requires Cuts(txs, lim, cuts) && |cuts| > 1 && cuts[|cuts| - 1] == |txs|
    ensures var chunks := |cuts| - 1;
            (chunks - 1) * lim.mass * lim.cycles
              <= 2 * (Sum(Masses(txs)) * lim.cycles + Sum(CycleCounts(txs)) * lim.mass)
  {
    RunningSums(txs, 0, |txs|);
    assert txs[0..|txs|] == txs;
    var n := |cuts| - 1;
    ChunkCount(txs, lim, cuts, n);
    TimesIs(n - 1, Times(lim.mass, lim.cycles));
    TimesIs(lim.mass, lim.cycles);
    TimesIs(Mass(txs, 0, |txs|), lim.cycles);
    TimesIs(Cycles(txs, 0, |txs|), lim.mass);
    MulAssoc(n - 1, lim.mass, lim.cycles);
  }
}
