/** Sharing the copies of one operation among the ranks of a multi-node run, and putting
    their results together again.  A collective is one step on the values of all ranks. */
module Dispatch {

  /** What `dispatchMemcpy` looks at in a buffer. */
  datatype Buffer = Buffer(hasContext: bool, rank: int)

  /** The rank that runs a copy, or -1 if neither buffer has a context. */
  function OwnerOf(src: Buffer, dst: Buffer, preferSrc: bool): int {
    if preferSrc && src.hasContext then src.rank else if dst.hasContext then dst.rank else -1
  }

  function Owners(srcs: seq<Buffer>, dsts: seq<Buffer>, preferSrc: bool): (r: seq<int>)
    requires |srcs| == |dsts|
    ensures |r| == |srcs|
  {
    seq(|srcs|, i requires 0 <= i < |srcs| => OwnerOf(srcs[i], dsts[i], preferSrc))
  }

  /** The entries of `xs` that belong to rank `r`, in order. */
  function Mine<T>(xs: seq<T>, owners: seq<int>, r: int): seq<T>
    requires |xs| == |owners|
  {
    if xs == [] then []
    else
      var n := |xs| - 1;
      Mine(xs[..n], owners[..n], r) + (if owners[n] == r then [xs[n]] else [])
  }

  class NodeHelperMulti {
    const worldRank: int
    var rankOfFirstMemcpy: int

    constructor (worldRank: int)
      ensures this.worldRank == worldRank
    {
      this.worldRank := worldRank;
      rankOfFirstMemcpy := 0;
    }

    /** `dispatchMemcpy`: every rank computes the same owners, keeps its own copies, and
        remembers who runs the first one. */
    method DispatchMemcpy(srcs: seq<Buffer>, dsts: seq<Buffer>, preferSrc: bool)
      returns (srcNodes: seq<Buffer>, dstNodes: seq<Buffer>, ranks: seq<int>)
      requires |srcs| == |dsts|
      modifies this
      ensures ranks == Owners(srcs, dsts, preferSrc)
      ensures forall i | 0 <= i < |srcs| ::
                && (preferSrc && srcs[i].hasContext ==> ranks[i] == srcs[i].rank)
                && (!(preferSrc && srcs[i].hasContext) && dsts[i].hasContext ==> ranks[i] == dsts[i].rank)
                && (!(preferSrc && srcs[i].hasContext) && !dsts[i].hasContext ==> ranks[i] == -1)
      ensures srcNodes == Mine(srcs, ranks, worldRank) && dstNodes == Mine(dsts, ranks, worldRank)
      ensures rankOfFirstMemcpy == if |ranks| > 0 then ranks[0] else old(rankOfFirstMemcpy)
    {
      ranks := seq(|srcs|, _ => -1);
      for i := 0 to |srcs|
        invariant |ranks| == |srcs| && rankOfFirstMemcpy == old(rankOfFirstMemcpy)
        invariant forall k | 0 <= k < |srcs| :: ranks[k] == if k < i then OwnerOf(srcs[k], dsts[k], preferSrc) else -1
      {
        if preferSrc && srcs[i].hasContext {
          ranks := ranks[i := srcs[i].rank];
        } else if dsts[i].hasContext {
          ranks := ranks[i := dsts[i].rank];
        }
      }
      srcNodes, dstNodes := [], [];
      for i := 0 to |srcs|
        invariant rankOfFirstMemcpy == old(rankOfFirstMemcpy)
        invariant srcNodes == Mine(srcs[..i], ranks[..i], worldRank)
                  && dstNodes == Mine(dsts[..i], ranks[..i], worldRank)
      {
        MineSnoc(srcs, ranks, worldRank, i);
        MineSnoc(dsts, ranks, worldRank, i);
        if ranks[i] == worldRank {
          srcNodes := srcNodes + [srcs[i]];
          dstNodes := dstNodes + [dsts[i]];
        }
      }
      assert srcs[..|srcs|] == srcs && dsts[..|srcs|] == dsts && ranks[..|srcs|] == ranks;
      if |ranks| > 0 {
        rankOfFirstMemcpy := ranks[0];
      }
    }
  }

  lemma MineSnoc<T>(xs: seq<T>, owners: seq<int>, r: int, i: nat)
    requires |xs| == |owners| && i < |xs|
    ensures Mine(xs[..i + 1], owners[..i + 1], r)
            == Mine(xs[..i], owners[..i], r) + (if owners[i] == r then [xs[i]] else [])
  {
    assert xs[..i + 1][..i] == xs[..i] && owners[..i + 1][..i] == owners[..i];
  }

  /** Filtering two lists by the same owners keeps them aligned. */
  lemma {:induction false} MineLength<T, U>(xs: seq<T>, ys: seq<U>, owners: seq<int>, r: int)
    requires |xs| == |ys| == |owners|
    ensures |Mine(xs, owners, r)| == |Mine(ys, owners, r)|
  {
    if xs == [] {
    } else {
      var n := |xs| - 1;
      MineLength(xs[..n], ys[..n], owners[..n], r);
    }
  }

  /** A rank keeps an entry for every time it is named as owner. */
  lemma {:induction false} MineCount<T>(xs: seq<T>, owners: seq<int>, r: int)
    requires |xs| == |owners|
    ensures |Mine(xs, owners, r)| == multiset(owners)[r]
    decreases |xs|
  {
    if xs == [] {
    } else {
      var n := |xs| - 1;
      MineCount(xs[..n], owners[..n], r);
      assert owners == owners[..n] + [owners[n]];
    }
  }

  /** Entry `i` stands in its owner's list after the owner's earlier entries. */
  lemma {:induction false} MineAt<T>(xs: seq<T>, owners: seq<int>, i: nat)
    requires |xs| == |owners| && i < |xs|
    ensures var before := |Mine(xs[..i], owners[..i], owners[i])|;
            before < |Mine(xs, owners, owners[i])| && Mine(xs, owners, owners[i])[before] == xs[i]
    decreases |xs|
  {
    var n := |xs| - 1;
    if i < n {
      assert xs[..n][..i] == xs[..i] && owners[..n][..i] == owners[..i];
      MineAt(xs[..n], owners[..n], i);
    }
  }

  /** The copies a rank keeps are exactly those it owns: as many as its owner entries. */
  lemma {:induction false} EveryCopyHasOneOwner<T>(xs: seq<T>, owners: seq<int>, ranks: nat)
    requires |xs| == |owners| && forall i | 0 <= i < |owners| :: 0 <= owners[i] < ranks
    ensures CountAll(xs, owners, ranks) == |xs|
    decreases |xs|
  {
    if xs == [] {
      CountAllEmpty(xs, owners, ranks);
    } else {
      var n := |xs| - 1;
      EveryCopyHasOneOwner(xs[..n], owners[..n], ranks);
      CountAllSnoc(xs, owners, ranks);
    }
  }

  function CountAll<T>(xs: seq<T>, owners: seq<int>, ranks: nat): nat
    requires |xs| == |owners|
  {
    if ranks == 0 then 0 else CountAll(xs, owners, ranks - 1) + |Mine(xs, owners, ranks - 1)|
  }

  lemma {:induction false} CountAllEmpty<T>(xs: seq<T>, owners: seq<int>, ranks: nat)
    requires |xs| == |owners| == 0
    ensures CountAll(xs, owners, ranks) == 0
  {
    if ranks == 0 {
    } else {
      CountAllEmpty(xs, owners, ranks - 1);
    }
  }

  lemma {:induction false} CountAllSnoc<T>(xs: seq<T>, owners: seq<int>, ranks: nat)
    requires |xs| == |owners| && xs != [] && 0 <= owners[|xs| - 1]
    ensures CountAll(xs, owners, ranks)
         == CountAll(xs[..|xs| - 1], owners[..|xs| - 1], ranks) + (if owners[|xs| - 1] < ranks then 1 else 0)
  {
    if ranks == 0 {
    } else {
      CountAllSnoc(xs, owners, ranks - 1);
    }
  }

  // ---------- calculateVectorBandwidth ----------

  /** `MPI_Bcast`: afterwards every rank holds the root's value. */
  function Bcast(values: seq<real>, root: nat): seq<real>
    requires root < |values|
  {
    seq(|values|, _ => values[root])
  }

  /** `calculateVectorBandwidth` on all ranks at once.  `results[r]` is what rank `r` measured
      for its own copies; every rank ends with the results of all copies in their original
      order, its cursor never leaves its results and has passed all of them at the end. */
  method GatherResults(ghost values: seq<real>, results: seq<seq<real>>, owners: seq<int>)
    returns (gathered: seq<seq<real>>, cursors: seq<nat>)
    requires |values| == |owners| && forall i | 0 <= i < |owners| :: 0 <= owners[i] < |results|
    requires forall r | 0 <= r < |results| :: results[r] == Mine(values, owners, r)
    ensures |gathered| == |cursors| == |results|
    ensures forall r | 0 <= r < |results| :: gathered[r] == values
    ensures forall r | 0 <= r < |results| :: cursors[r] == |results[r]|
  {
    gathered := seq(|results|, _ => []);
    cursors := seq(|results|, _ => 0);
    for i := 0 to |owners|
      invariant |gathered| == |cursors| == |results|
      invariant forall r | 0 <= r < |results| :: gathered[r] == values[..i]
      invariant forall r | 0 <= r < |results| :: cursors[r] == |Mine(values[..i], owners[..i], r)|
    {
      MineAt(values, owners, i);
      forall r | 0 <= r < |results|
        ensures Mine(values[..i + 1], owners[..i + 1], r)
             == Mine(values[..i], owners[..i], r) + (if owners[i] == r then [values[i]] else [])
      {
        MineSnoc(values, owners, r, i);
      }
      var root := owners[i];
      var tmp := seq(|results|, _ => 0.0);
      tmp := tmp[root := results[root][cursors[root]]];
      cursors := cursors[root := cursors[root] + 1];
      tmp := Bcast(tmp, root);
      gathered := seq(|results|, r requires 0 <= r < |results| => gathered[r] + [tmp[r]]);
    }
    assert values[..|owners|] == values && owners[..|owners|] == owners;
  }

  // ---------- From dispatch to the gathered results ----------

  /** The numbers of the copies that rank `r` keeps, in order. */
  function Kept(owners: seq<int>, r: int): (p: seq<nat>)
    ensures forall k | 0 <= k < |p| :: p[k] < |owners|
  {
    if owners == [] then []
    else
      var n := |owners| - 1;
      Kept(owners[..n], r) + (if owners[n] == r then [n] else [])
  }

  /** They are exactly the copies that the rank owns, each once, in ascending order. */
  lemma {:induction false} KeptIs(owners: seq<int>, r: int)
    ensures forall k, l | 0 <= k < l < |Kept(owners, r)| :: Kept(owners, r)[k] < Kept(owners, r)[l]
    ensures forall i: nat :: i in Kept(owners, r) <==> i < |owners| && owners[i] == r
    decreases |owners|
  {
    if owners == [] {
    } else {
      var n := |owners| - 1;
      KeptIs(owners[..n], r);
    }
  }

  function At<T>(xs: seq<T>, numbers: seq<nat>): (r: seq<T>)
    requires forall k | 0 <= k < |numbers| :: numbers[k] < |xs|
    ensures |r| == |numbers|
  {
    seq(|numbers|, k requires 0 <= k < |numbers| => xs[numbers[k]])
  }

  /** Filtering a list is taking what stands at the numbers kept: filtering commutes with
      whatever is measured copy by copy. */
  lemma {:induction false} MineIsAt<T>(xs: seq<T>, owners: seq<int>, r: int)
    requires |xs| == |owners|
    ensures Mine(xs, owners, r) == At(xs, Kept(owners, r))
  {
    if xs == [] {
    } else {
      var n := |xs| - 1;
      MineIsAt(xs[..n], owners[..n], r);
      assert At(xs[..n], Kept(owners[..n], r)) == At(xs, Kept(owners[..n], r));
    }
  }

  /** A whole operation on all ranks: every rank dispatches on its own, measures the copies it
      has kept, and gathers.  `measured(i)` is what measuring copy `i` gives.  Every rank ends with
      the results of all copies in their original order. */
  method MeasureAll(srcs: seq<Buffer>, dsts: seq<Buffer>, preferSrc: bool, worldSize: nat, measured: nat -> real)
    returns (gathered: seq<seq<real>>)
    requires |srcs| == |dsts|
    requires forall i | 0 <= i < |srcs| :: 0 <= Owners(srcs, dsts, preferSrc)[i] < worldSize
    ensures |gathered| == worldSize
    ensures forall r | 0 <= r < worldSize :: gathered[r] == seq(|srcs|, i requires 0 <= i < |srcs| => measured(i))
  {
    hide Mine, Owners;
    var owners := Owners(srcs, dsts, preferSrc);
    ghost var values := seq(|srcs|, i requires 0 <= i < |srcs| => measured(i));
    var results := [];
    for r := 0 to worldSize
      invariant |results| == r && forall q | 0 <= q < r :: results[q] == Mine(values, owners, q)
    {
      var local, _ := MeasureOwn(srcs, dsts, preferSrc, r, measured);
      results := results + [local];
    }
    var cursors;
    gathered, cursors := GatherResults(values, results, owners);
  }

  /** One rank: dispatch, then measure each copy kept.  `first` is the rank of the first copy as
      the rank's helper remembers it. */
  method MeasureOwn(srcs: seq<Buffer>, dsts: seq<Buffer>, preferSrc: bool, rank: nat, measured: nat -> real)
    returns (local: seq<real>, first: int)
    requires |srcs| == |dsts|
    ensures local == Mine(seq(|srcs|, i requires 0 <= i < |srcs| => measured(i)), Owners(srcs, dsts, preferSrc), rank)
    ensures srcs != [] ==> first == Owners(srcs, dsts, preferSrc)[0]
  {
    hide Mine, Owners, Kept;
    var helper := new NodeHelperMulti(rank);
    var srcNodes, dstNodes, ranks := helper.DispatchMemcpy(srcs, dsts, preferSrc);
    ghost var values := seq(|srcs|, i requires 0 <= i < |srcs| => measured(i));
    first := helper.rankOfFirstMemcpy;
    var kept := Kept(ranks, rank);
    MineIsAt(values, ranks, rank);
    MineIsAt(srcs, ranks, rank);
    MineIsAt(dsts, ranks, rank);
    local := [];
    for k := 0 to |srcNodes|
      invariant |local| == k && forall l | 0 <= l < k :: local[l] == values[kept[l]]
    {
      assert srcNodes[k] == srcs[kept[k]] && dstNodes[k] == dsts[kept[k]];
      local := local + [measured(kept[k])];
    }
    assert local == At(values, kept);
  }

  // ---------- calculateSumBandwidth and calculateFirstBandwidth ----------

  function Sum(xs: seq<real>): real {
    if xs == [] then 0.0 else Sum(xs[..|xs| - 1]) + xs[|xs| - 1]
  }

  /** `MPI_Allreduce` with `MPI_SUM` over the local sums of all ranks. */
  function SumOfSums(values: seq<real>, owners: seq<int>, ranks: nat): real
    requires |values| == |owners|
  {
    if ranks == 0 then 0.0 else SumOfSums(values, owners, ranks - 1) + Sum(Mine(values, owners, ranks - 1))
  }

  /** The local loop of `calculateSumBandwidth`. */
  method LocalSum(stats: seq<real>) returns (sum: real)
    ensures sum == Sum(stats)
  {
    sum := 0.0;
    for i := 0 to |stats|
      invariant sum == Sum(stats[..i])
    {
      assert stats[..i + 1][..i] == stats[..i];
      sum := sum + stats[i];
    }
    assert stats[..|stats|] == stats;
  }

  lemma {:induction false} SumOfSumsEmpty(values: seq<real>, owners: seq<int>, ranks: nat)
    requires |values| == |owners| == 0
    ensures SumOfSums(values, owners, ranks) == 0.0
  {
    if ranks == 0 {
    } else {
      SumOfSumsEmpty(values, owners, ranks - 1);
    }
  }

  lemma {:induction false} SumOfSumsSnoc(values: seq<real>, owners: seq<int>, ranks: nat)
    requires |values| == |owners| && values != [] && 0 <= owners[|values| - 1]
    ensures SumOfSums(values, owners, ranks)
         == SumOfSums(values[..|values| - 1], owners[..|values| - 1], ranks)
            + (if owners[|values| - 1] < ranks then values[|values| - 1] else 0.0)
  {
    hide Sum, Mine;
    if ranks == 0 {
    } else {
      SumOfSumsSnoc(values, owners, ranks - 1);
      MineSum(values, owners, ranks - 1);
    }
  }

  lemma MineSum(values: seq<real>, owners: seq<int>, r: nat)
    requires |values| == |owners| && values != []
    ensures var n := |values| - 1;
            Sum(Mine(values, owners, r))
            == Sum(Mine(values[..n], owners[..n], r)) + (if owners[n] == r then values[n] else 0.0)
  {
    var n := |values| - 1;
    var mine := Mine(values[..n], owners[..n], r);
    SumSnoc(mine, values[n]);
    assert mine + [] == mine;
  }

  lemma SumSnoc(xs: seq<real>, x: real)
    ensures Sum(xs + [x]) == Sum(xs) + x
  {
    assert (xs + [x])[..|xs|] == xs;
  }

  /** A sum is the values added up. */
  lemma {:induction false} SumIs(a: seq<real>, b: seq<real>, x: real)
    ensures Sum([]) == 0.0 && Sum([x]) == x && Sum(a + b) == Sum(a) + Sum(b)
    decreases |b|
  {
    SumSnoc([], x);
    assert [] + [x] == [x];
    if b == [] {
      assert a + b == a;
    } else {
      var n := |b| - 1;
      assert a + b == (a + b[..n]) + [b[n]];
      SumSnoc(a + b[..n], b[n]);
      SumIs(a, b[..n], x);
    }
  }

  /** The sums of all ranks add up to the sum over all copies, in exact arithmetic. */
  lemma {:induction false} SumsAddUp(values: seq<real>, owners: seq<int>, ranks: nat)
    requires |values| == |owners| && forall i | 0 <= i < |owners| :: 0 <= owners[i] < ranks
    ensures SumOfSums(values, owners, ranks) == Sum(values)
    decreases |values|
  {
    if values == [] {
      SumOfSumsEmpty(values, owners, ranks);
    } else {
      SumsAddUp(values[..|values| - 1], owners[..|values| - 1], ranks);
      SumOfSumsSnoc(values, owners, ranks);
    }
  }

  /** `MPI_Allreduce` with `MPI_SUM`: every rank gets the sum of what all ranks hold. */
  function AllReduceSum(held: seq<real>): seq<real> {
    seq(|held|, _ => Sum(held))
  }

  lemma {:induction false} SumOfHeld(values: seq<real>, owners: seq<int>, held: seq<real>)
    requires |values| == |owners| && forall r | 0 <= r < |held| :: held[r] == Sum(Mine(values, owners, r))
    ensures Sum(held) == SumOfSums(values, owners, |held|)
    decreases |held|
  {
    hide Mine;
    if held == [] {
    } else {
      SumOfHeld(values, owners, held[..|held| - 1]);
    }
  }

  /** A whole operation that asks for the sum, on all ranks: every rank dispatches on its own,
      measures the copies it has kept, adds them up and reduces.  Every rank returns the sum over
      all copies, in exact arithmetic. */
  method SumBandwidth(srcs: seq<Buffer>, dsts: seq<Buffer>, preferSrc: bool, worldSize: nat, measured: nat -> real)
    returns (sums: seq<real>)
    requires |srcs| == |dsts|
    requires forall i | 0 <= i < |srcs| :: 0 <= Owners(srcs, dsts, preferSrc)[i] < worldSize
    ensures |sums| == worldSize
    ensures forall r | 0 <= r < worldSize :: sums[r] == Sum(seq(|srcs|, i requires 0 <= i < |srcs| => measured(i)))
  {
    hide Mine, Owners, Sum;
    ghost var owners := Owners(srcs, dsts, preferSrc);
    ghost var values := seq(|srcs|, i requires 0 <= i < |srcs| => measured(i));
    var held := [];
    for r := 0 to worldSize
      invariant |held| == r && forall q | 0 <= q < r :: held[q] == Sum(Mine(values, owners, q))
    {
      var local, _ := MeasureOwn(srcs, dsts, preferSrc, r, measured);
      var sum := LocalSum(local);
      held := held + [sum];
    }
    SumOfHeld(values, owners, held);
    SumsAddUp(values, owners, worldSize);
    sums := AllReduceSum(held);
  }

  /** The owner of the first copy has it at the head of its own. */
  lemma MineFirst<T>(xs: seq<T>, owners: seq<int>)
    requires |xs| == |owners| > 0
    ensures Mine(xs, owners, owners[0]) != [] && Mine(xs, owners, owners[0])[0] == xs[0]
  {
    MineAt(xs, owners, 0);
    assert Mine(xs[..0], owners[..0], owners[0]) == [];
  }

  /** A whole operation that asks for the first copy, on all ranks: the rank that remembers being
      the first copy's offers the head of its own results, and every rank takes what the rank it
      remembers offers.  All of them agree on it, and return what measuring the first copy gives. */
  method FirstBandwidth(srcs: seq<Buffer>, dsts: seq<Buffer>, preferSrc: bool, worldSize: nat, measured: nat -> real)
    returns (firsts: seq<real>)
    requires |srcs| == |dsts| > 0
    requires forall i | 0 <= i < |srcs| :: 0 <= Owners(srcs, dsts, preferSrc)[i] < worldSize
    ensures |firsts| == worldSize
    ensures forall r | 0 <= r < worldSize :: firsts[r] == measured(0)
  {
    hide Mine, Owners;
    ghost var owners := Owners(srcs, dsts, preferSrc);
    ghost var values := seq(|srcs|, i requires 0 <= i < |srcs| => measured(i));
    MineFirst(values, owners);
    var held, roots := [], [];
    for r := 0 to worldSize
      invariant |held| == |roots| == r && forall q | 0 <= q < r :: roots[q] == owners[0]
      invariant owners[0] < r ==> held[owners[0]] == measured(0)
    {
      var local, first := MeasureOwn(srcs, dsts, preferSrc, r, measured);
      var retval := 0.0;
      if r == first {
        retval := local[0];
      }
      held, roots := held + [retval], roots + [first];
    }
    firsts := seq(worldSize, r requires 0 <= r < worldSize => Bcast(held, roots[r])[r]);
  }
}
