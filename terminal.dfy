/** The electrode quantities the contact reports after a solution update:
    the terminal current, summed over all processors, and the terminal
    potential, the mean of the metal-side potentials of every boundary node,
    gathered from all processors. Processor `r` contributes the values of the
    boundary nodes it owns; `Gathered` and `RankTotals` describe what the
    collective operations put together from processors lo..hi-1. */
module Terminal {
  import opened Mesh
  import opened Assembly

  /** Arithmetic mean; zero for an empty list. */
  function Mean(s: seq<real>): (v: real) {
    if |s| == 0 then 0.0 else Sum(s) / (|s| as real)
  }

  /** The potential of the metal-side node of `n`. */
  function MetalPotential(x: Vector, n: BoundaryNode): (v: real) {
    Get(x, n.metal)
  }

  /** The metal-node potentials of the owned boundary nodes, in node order
      (the local `psi_buffer`). */
  function LocalPotentials(x: Vector, nodes: seq<BoundaryNode>, rank: nat): (vals: seq<real>) {
    OwnedMap(nodes, rank, n => MetalPotential(x, n))
  }

  /** The value of every boundary node, whoever owns it, in node order. */
  function NodeValues(nodes: seq<BoundaryNode>, g: BoundaryNode -> real): (vs: seq<real>)
    ensures |vs| == |nodes|
  {
    if |nodes| == 0 then [] else NodeValues(nodes[..|nodes| - 1], g) + [g(nodes[|nodes| - 1])]
  }

  /** What an all-gather of the local lists of processors lo..hi-1 yields:
      the lists one after another, in processor order. */
  function Gathered(nodes: seq<BoundaryNode>, g: BoundaryNode -> real, lo: nat, hi: nat): (vals: seq<real>)
    decreases hi
  {
    if hi <= lo then [] else Gathered(nodes, g, lo, hi - 1) + OwnedMap(nodes, hi - 1, g)
  }

  /** The sums of the local lists of processors lo..hi-1, in processor order. */
  function RankTotals(nodes: seq<BoundaryNode>, g: BoundaryNode -> real, lo: nat, hi: nat): (vals: seq<real>)
    decreases hi
  {
    if hi <= lo then [] else RankTotals(nodes, g, lo, hi - 1) + [Sum(OwnedMap(nodes, hi - 1, g))]
  }

  /** `v` scaled by `z`: the contact current of a processor is its summed node
      currents scaled by the device width. */
  function Scaled(z: real, v: real): (r: real) {
    z * v
  }

  /** Every value of `s` scaled by `z`. */
  function Scale(z: real, s: seq<real>): (r: seq<real>)
    ensures |r| == |s|
  {
    if |s| == 0 then [] else Scale(z, s[..|s| - 1]) + [Scaled(z, s[|s| - 1])]
  }

  /** The values of the nodes owned by processors lo..hi-1, summed in node order. */
  function Total(nodes: seq<BoundaryNode>, g: BoundaryNode -> real, lo: nat, hi: nat): (v: real) {
    if |nodes| == 0 then 0.0
    else
      var last := nodes[|nodes| - 1];
      Total(nodes[..|nodes| - 1], g, lo, hi) + (if lo <= last.owner < hi then g(last) else 0.0)
  }

  /** The number of nodes owned by processors lo..hi-1. */
  function Count(nodes: seq<BoundaryNode>, lo: nat, hi: nat): (c: nat) {
    if |nodes| == 0 then 0
    else
      var last := nodes[|nodes| - 1];
      Count(nodes[..|nodes| - 1], lo, hi) + (if lo <= last.owner < hi then 1 else 0)
  }

  /** Every boundary node belongs to one of the processors 0..p-1. */
  predicate OwnedBelow(nodes: seq<BoundaryNode>, p: nat) {
    forall k :: 0 <= k < |nodes| ==> nodes[k].owner < p
  }

  // ----------------------------------------------------------------- mean

  /** A list whose values lie in [lo, hi] sums to between |s|*lo and |s|*hi. */
  lemma {:induction false} SumBounds(s: seq<real>, lo: real, hi: real)
    requires forall k :: 0 <= k < |s| ==> lo <= s[k] <= hi
    ensures (|s| as real) * lo <= Sum(s) <= (|s| as real) * hi
  {
    if |s| > 0 {
      SumBounds(s[..|s| - 1], lo, hi);
    }
  }

  /** The mean of a non-empty list lies between its bounds. */
  lemma MeanWithinBounds(s: seq<real>, lo: real, hi: real)
    requires |s| > 0
    requires forall k :: 0 <= k < |s| ==> lo <= s[k] <= hi
    ensures lo <= Mean(s) <= hi
  {
    SumBounds(s, lo, hi);
    var c := |s| as real;
    assert Mean(s) * c == Sum(s);
  }

  /** An equipotential metal side reports its potential. */
  lemma MeanOfConstant(s: seq<real>, v: real)
    requires |s| > 0
    requires forall k :: 0 <= k < |s| ==> s[k] == v
    ensures Mean(s) == v
  {
    MeanWithinBounds(s, v, v);
  }

  // ------------------------------------------------------------ gathering

  /** The gathered lists of lo..hi split at any processor in between. */
  lemma {:induction false} GatheredSplit(nodes: seq<BoundaryNode>, g: BoundaryNode -> real, lo: nat, mid: nat, hi: nat)
    requires lo <= mid <= hi
    ensures Gathered(nodes, g, lo, hi) == Gathered(nodes, g, lo, mid) + Gathered(nodes, g, mid, hi)
    decreases hi
  {
    if mid == hi {
      assert Gathered(nodes, g, lo, mid) + [] == Gathered(nodes, g, lo, mid);
    } else {
      GatheredSplit(nodes, g, lo, mid, hi - 1);
      var a, b, c := Gathered(nodes, g, lo, mid), Gathered(nodes, g, mid, hi - 1), OwnedMap(nodes, hi - 1, g);
      assert Gathered(nodes, g, lo, hi) == a + b + c;
      assert Gathered(nodes, g, mid, hi) == b + c;
      assert a + b + c == a + (b + c);
    }
  }

  /** One processor's slice of the gathered lists is its own list. */
  lemma GatheredOne(nodes: seq<BoundaryNode>, g: BoundaryNode -> real, r: nat)
    ensures Gathered(nodes, g, r, r + 1) == OwnedMap(nodes, r, g)
  {
    assert Gathered(nodes, g, r, r) == [];
  }

  /** One processor's list holds one value per node it owns. */
  lemma {:induction false} OwnedCount(nodes: seq<BoundaryNode>, g: BoundaryNode -> real, r: nat)
    ensures |OwnedMap(nodes, r, g)| == Count(nodes, r, r + 1)
  {
    if |nodes| > 0 {
      OwnedCount(nodes[..|nodes| - 1], g, r);
    }
  }

  /** One processor's list sums the values of the nodes it owns. */
  lemma {:induction false} OwnedTotal(nodes: seq<BoundaryNode>, g: BoundaryNode -> real, r: nat)
    ensures Sum(OwnedMap(nodes, r, g)) == Total(nodes, g, r, r + 1)
  {
    if |nodes| > 0 {
      var init, last := nodes[..|nodes| - 1], nodes[|nodes| - 1];
      OwnedTotal(init, g, r);
      SumAppend(OwnedMap(init, r, g), if last.owner == r then [g(last)] else []);
    }
  }

  /** Counting the nodes of lo..hi processor by processor. */
  lemma {:induction false} CountStep(nodes: seq<BoundaryNode>, lo: nat, hi: nat)
    requires lo < hi
    ensures Count(nodes, lo, hi) == Count(nodes, lo, hi - 1) + Count(nodes, hi - 1, hi)
  {
    if |nodes| > 0 {
      CountStep(nodes[..|nodes| - 1], lo, hi);
    }
  }

  /** No processors, no nodes. */
  lemma {:induction false} TotalEmpty(nodes: seq<BoundaryNode>, g: BoundaryNode -> real, lo: nat, hi: nat)
    requires hi <= lo
    ensures Total(nodes, g, lo, hi) == 0.0 && Count(nodes, lo, hi) == 0
  {
    if |nodes| > 0 {
      TotalEmpty(nodes[..|nodes| - 1], g, lo, hi);
    }
  }

  /** When every node has an owner among 0..p-1, the nodes of 0..p-1 are all
      the nodes. */
  lemma {:induction false} TotalAll(nodes: seq<BoundaryNode>, g: BoundaryNode -> real, p: nat)
    requires OwnedBelow(nodes, p)
    ensures Count(nodes, 0, p) == |nodes|
    ensures Total(nodes, g, 0, p) == Sum(NodeValues(nodes, g))
  {
    if |nodes| > 0 {
      var init := nodes[..|nodes| - 1];
      TotalAll(init, g, p);
      var vs := NodeValues(nodes, g);
      assert vs[..|vs| - 1] == NodeValues(init, g);
    }
  }

  /** One more processor's list in the all-gather: its length. */
  lemma GatheredCountStep(nodes: seq<BoundaryNode>, g: BoundaryNode -> real, lo: nat, hi: nat)
    requires lo < hi
    requires |Gathered(nodes, g, lo, hi - 1)| == Count(nodes, lo, hi - 1)
    ensures |Gathered(nodes, g, lo, hi)| == Count(nodes, lo, hi)
  {
    var before, last := Gathered(nodes, g, lo, hi - 1), OwnedMap(nodes, hi - 1, g);
    assert Gathered(nodes, g, lo, hi) == before + last;
    CountStep(nodes, lo, hi);
    OwnedCount(nodes, g, hi - 1);
  }

  /** One more processor's list in the all-gather: its sum. */
  lemma GatheredSumStep(nodes: seq<BoundaryNode>, g: BoundaryNode -> real, lo: nat, hi: nat)
    requires lo < hi
    requires Sum(Gathered(nodes, g, lo, hi - 1)) == Total(nodes, g, lo, hi - 1)
    ensures Sum(Gathered(nodes, g, lo, hi)) == Total(nodes, g, lo, hi)
  {
    TotalSplit(nodes, g, lo, hi - 1, hi);
    OwnedTotal(nodes, g, hi - 1);
    SumAppend(Gathered(nodes, g, lo, hi - 1), OwnedMap(nodes, hi - 1, g));
  }

  /** Gathering from processors lo..hi-1 collects exactly the values of the
      nodes they own: as many, with the same sum. */
  lemma {:induction false} GatheredTotal(nodes: seq<BoundaryNode>, g: BoundaryNode -> real, lo: nat, hi: nat)
    ensures |Gathered(nodes, g, lo, hi)| == Count(nodes, lo, hi)
    ensures Sum(Gathered(nodes, g, lo, hi)) == Total(nodes, g, lo, hi)
    decreases hi
  {
    if lo < hi {
      GatheredTotal(nodes, g, lo, hi - 1);
      GatheredCountStep(nodes, g, lo, hi);
      GatheredSumStep(nodes, g, lo, hi);
    } else {
      TotalEmpty(nodes, g, lo, hi);
    }
  }

  /** When every node has an owner among 0..p-1, gathering from all
      processors collects every boundary node's value exactly once: as many
      values as nodes, with the same sum. */
  lemma GatheredCoversAllNodes(nodes: seq<BoundaryNode>, g: BoundaryNode -> real, p: nat)
    requires OwnedBelow(nodes, p)
    ensures |Gathered(nodes, g, 0, p)| == |nodes|
    ensures Sum(Gathered(nodes, g, 0, p)) == Sum(NodeValues(nodes, g))
  {
    GatheredTotal(nodes, g, 0, p);
    TotalAll(nodes, g, p);
  }

  /** The list a processor sees after the all-gather: the lists of the
      processors below it, its own, then those above it. */
  lemma GatheredAround(nodes: seq<BoundaryNode>, g: BoundaryNode -> real, rank: nat, p: nat)
    requires rank < p
    ensures Gathered(nodes, g, 0, rank) + OwnedMap(nodes, rank, g) + Gathered(nodes, g, rank + 1, p) == Gathered(nodes, g, 0, p)
  {
    GatheredSplit(nodes, g, 0, rank, p);
    GatheredSplit(nodes, g, rank, rank + 1, p);
    GatheredOne(nodes, g, rank);
  }

  /** Splitting the processors lo..hi-1 at `mid` splits the sum of their
      nodes' values. */
  lemma {:induction false} TotalSplit(nodes: seq<BoundaryNode>, g: BoundaryNode -> real, lo: nat, mid: nat, hi: nat)
    requires lo <= mid <= hi
    ensures Total(nodes, g, lo, hi) == Total(nodes, g, lo, mid) + Total(nodes, g, mid, hi)
  {
    if |nodes| > 0 {
      TotalSplit(nodes[..|nodes| - 1], g, lo, mid, hi);
    }
  }

  /** Scaling distributes over addition. */
  lemma ScaledSplit(z: real, a: real, b: real)
    ensures Scaled(z, a + b) == Scaled(z, a) + Scaled(z, b)
  {
  }

  /** Scaling a list scales its sum. */
  lemma {:induction false} ScaleSum(z: real, s: seq<real>)
    ensures Sum(Scale(z, s)) == Scaled(z, Sum(s))
  {
    if |s| > 0 {
      ScaleSum(z, s[..|s| - 1]);
      SumPush(Scale(z, s[..|s| - 1]), Scaled(z, s[|s| - 1]));
      SumPush(s[..|s| - 1], s[|s| - 1]);
      assert s[..|s| - 1] + [s[|s| - 1]] == s;
      ScaledSplit(z, Sum(s[..|s| - 1]), s[|s| - 1]);
    }
  }

  /** Scaling is applied value by value, so it splits over concatenation. */
  lemma {:induction false} ScaleAppend(z: real, a: seq<real>, b: seq<real>)
    ensures Scale(z, a + b) == Scale(z, a) + Scale(z, b)
    decreases |b|
  {
    if |b| > 0 {
      var s, b0 := a + b, b[..|b| - 1];
      assert s[..|s| - 1] == a + b0;
      assert Scale(z, s) == Scale(z, a + b0) + [Scaled(z, b[|b| - 1])];
      assert Scale(z, b) == Scale(z, b0) + [Scaled(z, b[|b| - 1])];
      ScaleAppend(z, a, b0);
    } else {
      assert a + b == a;
      assert Scale(z, a) + [] == Scale(z, a);
    }
  }

  /** The per-processor sums of lo..hi split at any processor in between. */
  lemma {:induction false} RankTotalsSplit(nodes: seq<BoundaryNode>, g: BoundaryNode -> real, lo: nat, mid: nat, hi: nat)
    requires lo <= mid <= hi
    ensures RankTotals(nodes, g, lo, hi) == RankTotals(nodes, g, lo, mid) + RankTotals(nodes, g, mid, hi)
    decreases hi
  {
    if mid == hi {
      assert RankTotals(nodes, g, lo, mid) + [] == RankTotals(nodes, g, lo, mid);
    } else {
      RankTotalsSplit(nodes, g, lo, mid, hi - 1);
      var a, b, c := RankTotals(nodes, g, lo, mid), RankTotals(nodes, g, mid, hi - 1), [Sum(OwnedMap(nodes, hi - 1, g))];
      assert RankTotals(nodes, g, lo, hi) == a + b + c;
      assert RankTotals(nodes, g, mid, hi) == b + c;
      assert a + b + c == a + (b + c);
    }
  }

  /** The per-processor sums in processor order: those below `rank`, its own,
      then those above it. */
  lemma RankTotalsAround(nodes: seq<BoundaryNode>, g: BoundaryNode -> real, rank: nat, p: nat)
    requires rank < p
    ensures RankTotals(nodes, g, 0, rank) + [Sum(OwnedMap(nodes, rank, g))] + RankTotals(nodes, g, rank + 1, p) == RankTotals(nodes, g, 0, p)
  {
    RankTotalsSplit(nodes, g, 0, rank, p);
    RankTotalsSplit(nodes, g, rank, rank + 1, p);
    assert RankTotals(nodes, g, rank, rank + 1) == [Sum(OwnedMap(nodes, rank, g))] by {
      assert RankTotals(nodes, g, rank, rank) == [];
    }
  }

  /** One more processor's sum. */
  lemma RankTotalsStep(nodes: seq<BoundaryNode>, g: BoundaryNode -> real, lo: nat, hi: nat)
    requires lo < hi
    requires Sum(RankTotals(nodes, g, lo, hi - 1)) == Total(nodes, g, lo, hi - 1)
    ensures Sum(RankTotals(nodes, g, lo, hi)) == Total(nodes, g, lo, hi)
  {
    var mine := Sum(OwnedMap(nodes, hi - 1, g));
    assert RankTotals(nodes, g, lo, hi) == RankTotals(nodes, g, lo, hi - 1) + [mine];
    TotalSplit(nodes, g, lo, hi - 1, hi);
    OwnedTotal(nodes, g, hi - 1);
    SumPush(RankTotals(nodes, g, lo, hi - 1), mine);
  }

  /** The per-processor sums add up to the values of the nodes they own. */
  lemma {:induction false} RankTotalsSum(nodes: seq<BoundaryNode>, g: BoundaryNode -> real, lo: nat, hi: nat)
    ensures Sum(RankTotals(nodes, g, lo, hi)) == Total(nodes, g, lo, hi)
    decreases hi
  {
    if lo < hi {
      RankTotalsSum(nodes, g, lo, hi - 1);
      RankTotalsStep(nodes, g, lo, hi);
    } else {
      TotalEmpty(nodes, g, lo, hi);
    }
  }

  /** Scaling the values before, at and after one position. */
  lemma ScaleAround(z: real, below: seq<real>, v: real, above: seq<real>)
    ensures Scale(z, below) + [Scaled(z, v)] + Scale(z, above) == Scale(z, below + [v] + above)
  {
    ScaleAppend(z, below, [v]);
    ScaleAppend(z, below + [v], above);
    assert Scale(z, [v]) == [Scaled(z, v)] by {
      assert [v][..0] == [];
    }
  }

  // ------------------------------------------------------- terminal values

  /** After the update every processor holds the same terminal current:
      `z_width` times the sum of the currents of all boundary nodes, each node
      counted once, whichever processor owns it. `lower` and `higher` are the
      currents the processors below and above `rank` hold, each `z_width`
      times the sum of its own list. */
  lemma TerminalCurrent(nodes: seq<BoundaryNode>, g: BoundaryNode -> real, zWidth: real, rank: nat, p: nat,
                        lower: seq<real>, higher: seq<real>)
    requires rank < p && OwnedBelow(nodes, p)
    requires lower == Scale(zWidth, RankTotals(nodes, g, 0, rank))
    requires higher == Scale(zWidth, RankTotals(nodes, g, rank + 1, p))
    ensures Sum(lower + [Scaled(zWidth, Sum(OwnedMap(nodes, rank, g)))] + higher) == Scaled(zWidth, Sum(NodeValues(nodes, g)))
  {
    var mine := Sum(OwnedMap(nodes, rank, g));
    ScaleAround(zWidth, RankTotals(nodes, g, 0, rank), mine, RankTotals(nodes, g, rank + 1, p));
    RankTotalsAround(nodes, g, rank, p);
    ScaleSum(zWidth, RankTotals(nodes, g, 0, p));
    RankTotalsSum(nodes, g, 0, p);
    TotalAll(nodes, g, p);
  }

  /** After the update every processor holds the same terminal potential: the
      mean of the metal-side potentials of all boundary nodes, each counted
      once. `before` and `after` are the lists gathered from the processors
      below and above `rank`. */
  lemma TerminalPotential(x: Vector, nodes: seq<BoundaryNode>, rank: nat, p: nat, before: seq<real>, after: seq<real>)
    requires rank < p && OwnedBelow(nodes, p)
    requires before == Gathered(nodes, n => MetalPotential(x, n), 0, rank)
    requires after == Gathered(nodes, n => MetalPotential(x, n), rank + 1, p)
    ensures Mean(before + LocalPotentials(x, nodes, rank) + after) == Mean(NodeValues(nodes, n => MetalPotential(x, n)))
  {
    GatheredAround(nodes, n => MetalPotential(x, n), rank, p);
    GatheredCoversAllNodes(nodes, n => MetalPotential(x, n), p);
  }
}
