/** The list of GPU pairs that a multi-node run measures: sampled on rank 0, broadcast once,
    and cached by every rank.  The random shuffles are arbitrary permutations. */
module PairSampling {

  type Pair = (int, int)

  predicate IsPair(p: Pair, n: nat) {
    0 <= p.0 < n && 0 <= p.1 < n && p.0 != p.1
  }

  ghost predicate Distinct<T(!new)>(xs: seq<T>) {
    forall i, j | 0 <= i < j < |xs| :: xs[i] != xs[j]
  }

  ghost function Elems<T>(xs: seq<T>): set<T> {
    set x | x in xs
  }

  /** The GPUs that some pair of the list names. */
  ghost function Covered(pairs: seq<Pair>): (r: set<int>)
    ensures forall p | p in pairs :: p.0 in r && p.1 in r
  {
    if pairs == [] then {} else Covered(pairs[..|pairs| - 1]) + {pairs[|pairs| - 1].0, pairs[|pairs| - 1].1}
  }

  ghost function Below(n: nat): (r: set<int>)
    ensures forall i :: i in r <==> 0 <= i < n
    ensures |r| == n
  {
    if n == 0 then {} else Below(n - 1) + {n - 1}
  }

  /** A shuffle permutes whatever it is given. */
  ghost predicate IsShuffle<T(!new)>(f: seq<T> -> seq<T>) {
    forall xs :: multiset(f(xs)) == multiset(xs)
  }

  // ---------- Lists and their sets ----------

  lemma {:induction false} DistinctSize<T(!new)>(xs: seq<T>)
    requires Distinct(xs)
    ensures |Elems(xs)| == |xs|
  {
    if xs == [] {
    } else {
      var n := |xs| - 1;
      DistinctSize(xs[..n]);
      assert Elems(xs) == Elems(xs[..n]) + {xs[n]};
      assert xs[n] !in Elems(xs[..n]);
    }
  }

  lemma PermutationKeeps<T(!new)>(xs: seq<T>, ys: seq<T>)
    requires multiset(xs) == multiset(ys) && Distinct(xs)
    ensures Elems(xs) == Elems(ys) && |xs| == |ys| && Distinct(ys)
  {
    assert |xs| == |multiset(xs)| == |multiset(ys)| == |ys|;
    forall x ensures x in xs <==> x in ys {
      assert x in xs <==> x in multiset(xs);
      assert x in ys <==> x in multiset(ys);
    }
    if i, j :| 0 <= i < j < |ys| && ys[i] == ys[j] {
      var x := ys[i];
      MultiplicityOfTwo(ys, i, j);
      MultiplicityOfDistinct(xs, x);
    }
  }

  lemma MultiplicityOfTwo<T(!new)>(ys: seq<T>, i: nat, j: nat)
    requires i < j < |ys| && ys[i] == ys[j]
    ensures multiset(ys)[ys[i]] >= 2
  {
    assert ys == ys[..j] + [ys[j]] + ys[j + 1..];
    assert ys[i] in ys[..j];
    assert multiset(ys[..j])[ys[i]] >= 1;
  }

  lemma {:induction false} MultiplicityOfDistinct<T(!new)>(xs: seq<T>, x: T)
    requires Distinct(xs)
    ensures multiset(xs)[x] <= 1
  {
    if xs == [] {
    } else {
      var n := |xs| - 1;
      MultiplicityOfDistinct(xs[..n], x);
      assert xs == xs[..n] + [xs[n]];
      if x == xs[n] {
        assert x !in xs[..n];
        assert multiset(xs[..n])[x] == 0;
      }
    }
  }

  lemma DistinctAppend<T(!new)>(a: seq<T>, b: seq<T>)
    requires Distinct(a) && Distinct(b) && forall x | x in b :: x !in a
    ensures Distinct(a + b)
  {
    var c := a + b;
    forall i, j | 0 <= i < j < |c| ensures c[i] != c[j] {
      if i < |a| <= j {
        assert b[j - |a|] in b && a[i] in a;
      }
    }
  }

  lemma ElemsSnoc<T(!new)>(xs: seq<T>, x: T)
    ensures Elems(xs + [x]) == Elems(xs) + {x}
  {
  }

  // ---------- All pairs ----------

  /** The pairs that the two loops of `generateTestPairs` list, up to row `src` and `peer`. */
  function PairsUpTo(n: nat, src: nat, peer: nat): seq<Pair>
    decreases src, peer
  {
    if peer > 0 then PairsUpTo(n, src, peer - 1) + (if peer - 1 == src then [] else [(src, peer - 1)])
    else if src > 0 then PairsUpTo(n, src - 1, n)
    else []
  }

  lemma {:induction false} PairsUpToAre(n: nat, src: nat, peer: nat)
    requires src <= n && peer <= n && (src == n ==> peer == 0)
    ensures forall p: Pair ::
              p in PairsUpTo(n, src, peer) <==> IsPair(p, n) && (p.0 < src || (p.0 == src && p.1 < peer))
    ensures Distinct(PairsUpTo(n, src, peer))
    ensures |PairsUpTo(n, src, peer)| == src * (n - 1) + peer - (if src < peer then 1 else 0)
    decreases src, peer
  {
    if peer > 0 {
      PairsUpToAre(n, src, peer - 1);
    } else if src > 0 {
      PairsUpToAre(n, src - 1, n);
      assert src * (n - 1) == (src - 1) * (n - 1) + (n - 1);
    }
  }

  method AllPairs(n: nat) returns (pairs: seq<Pair>)
    ensures Distinct(pairs) && |pairs| == n * (n - 1)
    ensures forall p: Pair :: p in pairs <==> IsPair(p, n)
  {
    pairs := [];
    for src := 0 to n
      invariant pairs == PairsUpTo(n, src, 0)
    {
      for peer := 0 to n
        invariant pairs == PairsUpTo(n, src, peer)
      {
        if peer == src {
          continue;
        }
        pairs := pairs + [(src, peer)];
      }
    }
    PairsUpToAre(n, n, 0);
  }

  // ---------- Sampling ----------

  lemma CoveredSnoc(selected: seq<Pair>, p: Pair)
    ensures Covered(selected + [p]) == Covered(selected) + {p.0, p.1}
  {
    assert (selected + [p])[..|selected|] == selected;
  }

  /** A pair that covers a GPU not covered before. */
  lemma AddingCovers(selected: seq<Pair>, p: Pair, gpu: int)
    requires (p.0 == gpu || p.1 == gpu) && gpu !in Covered(selected)
    ensures p !in selected && Covered(selected + [p]) == Covered(selected) + {p.0, p.1}
    ensures |Covered(selected + [p])| >= |Covered(selected)| + 1
    ensures p.0 != p.1 && selected == [] ==> |Covered(selected + [p])| == 2
  {
    CoveredSnoc(selected, p);
    CardinalityGrows(Covered(selected), Covered(selected + [p]), gpu);
    if selected == [] && p.0 != p.1 {
      assert Covered(selected + [p]) == {p.0, p.1};
    }
  }

  lemma CardinalityGrows(a: set<int>, b: set<int>, x: int)
    requires a <= b && x in b && x !in a
    ensures |b| >= |a| + 1
  {
    SubsetSize(a + {x}, b);
  }

  lemma {:induction false} SubsetSize<T>(a: set<T>, b: set<T>)
    requires a <= b
    ensures |a| <= |b|
  {
    assert b == a + (b - a);
  }

  /** The state of the sample: `t` pairs at most, all different, and every pair but the
      first has brought a GPU that was not covered before. */
  ghost predicate Sample(selected: seq<Pair>, n: nat, t: nat) {
    && |selected| <= t
    && Distinct(selected)
    && (forall p | p in selected :: IsPair(p, n))
    && (selected != [] ==> |Covered(selected)| >= |selected| + 1)
  }

  lemma SampleGrows(selected: seq<Pair>, pair: Pair, gpu: int, n: nat, t: nat)
    requires Sample(selected, n, t) && |selected| < t && IsPair(pair, n) && (pair.0 == gpu || pair.1 == gpu)
             && gpu !in Covered(selected)
    ensures Sample(selected + [pair], n, t) && Elems(selected + [pair]) == Elems(selected) + {pair}
    ensures Covered(selected + [pair]) == Covered(selected) + {pair.0, pair.1}
    ensures |Elems(selected + [pair])| == |selected| + 1
  {
    hide Covered, Elems;
    AddingCovers(selected, pair, gpu);
    DistinctAppend(selected, [pair]);
    ElemsSnoc(selected, pair);
    DistinctSize(selected + [pair]);
    if selected != [] {
      assert |Covered(selected + [pair])| >= |selected + [pair]| + 1;
    } else {
      assert selected + [pair] == [pair];
    }
    forall p | p in selected + [pair] ensures IsPair(p, n) {
      assert p in selected || p == pair;
    }
  }

  lemma EmptySample(n: nat, t: nat)
    ensures Sample([], n, t) && Covered([]) == {} && Elems<Pair>([]) == {}
  {
  }

  /** The first pass: for every GPU in a random order that is not covered yet, the first
      pair of the shuffled list that names it. */
  method FirstPass(allPairs: seq<Pair>, order: seq<int>, n: nat, t: nat)
    returns (selected: seq<Pair>, chosen: set<Pair>)
    requires n >= 2 && forall p: Pair :: p in allPairs <==> IsPair(p, n)
    requires forall k | 0 <= k < |order| :: 0 <= order[k] < n
    ensures Sample(selected, n, t) && chosen == Elems(selected)
    ensures |selected| < t ==> forall k | 0 <= k < |order| :: order[k] in Covered(selected)
  {
    hide Covered, Sample, Elems;
    EmptySample(n, t);
    selected, chosen := [], {};
    var gpuIncluded := seq(n, _ => false);
    for k := 0 to |order|
      invariant |gpuIncluded| == n && Sample(selected, n, t) && chosen == Elems(selected) && |chosen| == |selected|
      invariant forall g | 0 <= g < n :: gpuIncluded[g] <==> g in Covered(selected)
      invariant |selected| < t ==> forall j | 0 <= j < k :: order[j] in Covered(selected)
    {
      var gpu := order[k];
      if |chosen| >= t {
        break;
      }
      if gpuIncluded[gpu] {
        continue;
      }
      var i := FindPair(allPairs, gpu, chosen, selected, n);
      var pair := allPairs[i];
      AddingCovers(selected, pair, gpu);
      assert IsPair(pair, n);
      SampleGrows(selected, pair, gpu, n, t);
      chosen := chosen + {pair};
      selected := selected + [pair];
      gpuIncluded := gpuIncluded[pair.0 := true][pair.1 := true];
    }
  }

  /** The first pair that names `gpu` and has not been chosen; there always is one. */
  method FindPair(allPairs: seq<Pair>, gpu: int, chosen: set<Pair>, ghost selected: seq<Pair>, ghost n: nat)
    returns (i: nat)
    requires n >= 2 && 0 <= gpu < n && chosen == Elems(selected) && gpu !in Covered(selected)
    requires forall p: Pair :: p in allPairs <==> IsPair(p, n)
    ensures i < |allPairs| && (allPairs[i].0 == gpu || allPairs[i].1 == gpu) && allPairs[i] !in chosen
    ensures forall j | 0 <= j < i :: allPairs[j].0 != gpu && allPairs[j].1 != gpu
  {
    ghost var other: Pair := (gpu, if gpu == 0 then 1 else 0);
    assert IsPair(other, n);
    ghost var m :| 0 <= m < |allPairs| && allPairs[m] == other;
    i := 0;
    while true
      invariant 0 <= i <= m
      invariant forall j | 0 <= j < i :: allPairs[j].0 != gpu && allPairs[j].1 != gpu
      decreases m - i
    {
      if allPairs[i].0 == gpu || allPairs[i].1 == gpu {
        AddingCovers(selected, allPairs[i], gpu);
        if allPairs[i] !in chosen {
          return;
        }
      }
      i := i + 1;
    }
  }

  /** The pairs that the first pass has not chosen. */
  method Remaining(allPairs: seq<Pair>, chosen: set<Pair>) returns (remaining: seq<Pair>)
    requires Distinct(allPairs)
    ensures Distinct(remaining) && forall p :: p in remaining <==> p in allPairs && p !in chosen
  {
    remaining := [];
    for i := 0 to |allPairs|
      invariant Distinct(remaining) && forall p :: p in remaining <==> p in allPairs[..i] && p !in chosen
    {
      if allPairs[i] !in chosen {
        remaining := remaining + [allPairs[i]];
      }
      assert allPairs[..i + 1] == allPairs[..i] + [allPairs[i]];
    }
    assert allPairs[..|allPairs|] == allPairs;
  }

  /** Adding pairs that are not there yet keeps what is covered. */
  lemma AppendKeeps(selected: seq<Pair>, more: seq<Pair>, n: nat)
    requires Distinct(selected) && Distinct(more) && forall p | p in more :: p !in selected && IsPair(p, n)
    requires forall p | p in selected :: IsPair(p, n)
    ensures Distinct(selected + more) && (forall p | p in selected + more :: IsPair(p, n))
    ensures |Covered(selected)| <= |Covered(selected + more)| <= n
  {
    var all := selected + more;
    DistinctAppend(selected, more);
    CoveredAppend(selected, more);
    SubsetSize(Covered(selected), Covered(all));
    CoveredBelow(all, n);
    SubsetSize(Covered(all), Below(n));
  }

  lemma {:induction false} CoveredAppend(a: seq<Pair>, b: seq<Pair>)
    ensures Covered(a) <= Covered(a + b)
  {
    if b == [] {
      assert a + b == a;
    } else {
      var n := |b| - 1;
      CoveredAppend(a, b[..n]);
      assert a + b == (a + b[..n]) + [b[n]];
      CoveredSnoc(a + b[..n], b[n]);
    }
  }

  lemma {:induction false} CoveredBelow(pairs: seq<Pair>, n: nat)
    requires forall p | p in pairs :: IsPair(p, n)
    ensures Covered(pairs) <= Below(n)
  {
    if pairs == [] {
    } else {
      CoveredBelow(pairs[..|pairs| - 1], n);
      assert IsPair(pairs[|pairs| - 1], n);
    }
  }

  /** What a sample of `t` of the `n * (n - 1)` pairs must be: exactly `t` different ordered
      pairs of different GPUs, covering at least `min(n, t + 1)` of the GPUs. */
  ghost predicate GoodSample(pairs: seq<Pair>, n: nat, t: nat) {
    && |pairs| == t && Distinct(pairs) && (forall p | p in pairs :: IsPair(p, n))
    && |Covered(pairs)| >= if n < t + 1 then n else t + 1
  }

  /** Both passes. */
  method SelectPairs(allPairs: seq<Pair>, n: nat, t: nat, shuffleOrder: seq<int> -> seq<int>,
                     shufflePairs: seq<Pair> -> seq<Pair>)
    returns (selected: seq<Pair>)
    requires n >= 2 && 1 <= t < n * (n - 1) == |allPairs| && Distinct(allPairs)
    requires forall p: Pair :: p in allPairs <==> IsPair(p, n)
    requires IsShuffle(shuffleOrder) && IsShuffle(shufflePairs)
    ensures GoodSample(selected, n, t)
  {
    hide Covered, IsShuffle, Below, Elems;
    var gpuOrder: seq<int> := seq(n, i => i);
    var order := shuffleOrder(gpuOrder);
    OrderNamesAll(n, order, shuffleOrder);
    var chosen;
    selected, chosen := FirstPass(allPairs, order, n, t);
    DistinctSize(selected);
    if |chosen| < t {
      forall g | 0 <= g < n ensures g in Covered(selected) {
        assert g in order;
        var k :| 0 <= k < |order| && order[k] == g;
      }
      selected := SecondPass(allPairs, selected, chosen, n, t, shufflePairs);
    } else {
      assert |Covered(selected)| >= t + 1;
    }
  }

  /** A shuffled order of the GPUs names every one of them, and nothing else. */
  lemma OrderNamesAll(n: nat, order: seq<int>, shuffleOrder: seq<int> -> seq<int>)
    requires IsShuffle(shuffleOrder) && order == shuffleOrder(seq(n, i => i))
    ensures forall k | 0 <= k < |order| :: 0 <= order[k] < n
    ensures forall g | 0 <= g < n :: g in order
  {
    var gpuOrder: seq<int> := seq(n, i => i);
    PermutationKeeps(gpuOrder, order);
    forall k | 0 <= k < |order| ensures 0 <= order[k] < n {
      assert order[k] in Elems(order);
    }
    forall g | 0 <= g < n ensures g in order {
      assert gpuOrder[g] == g;
      assert g in Elems(gpuOrder);
      assert g in Elems(order);
    }
  }

  /** The second pass: fill the remaining slots from a shuffle of the remaining pairs. */
  method SecondPass(allPairs: seq<Pair>, first: seq<Pair>, chosen: set<Pair>, n: nat, t: nat,
                    shufflePairs: seq<Pair> -> seq<Pair>)
    returns (selected: seq<Pair>)
    requires n >= 2 && t < n * (n - 1) == |allPairs| && Distinct(allPairs)
    requires forall p: Pair :: p in allPairs <==> IsPair(p, n)
    requires Sample(first, n, t) && chosen == Elems(first) && |chosen| == |first| < t
    requires forall g | 0 <= g < n :: g in Covered(first)
    requires IsShuffle(shufflePairs)
    ensures GoodSample(selected, n, t)
  {
    hide Covered, Below;
    selected := first;
    var remaining := Remaining(allPairs, chosen);
    RemainingSize(allPairs, first, remaining);
    var shuffled := shufflePairs(remaining);
    PermutationKeeps(remaining, shuffled);
    var remainingSlots := t - |chosen|;
    var pairsToAdd := if remainingSlots < |remaining| then remainingSlots else |remaining|;
    ghost var more := shuffled[..pairsToAdd];
    forall p | p in more ensures p !in first && IsPair(p, n) {
      assert p in Elems(shuffled);
      assert p in remaining;
    }
    for i := 0 to pairsToAdd
      invariant selected == first + more[..i]
    {
      assert more[..i + 1] == more[..i] + [shuffled[i]];
      selected := selected + [shuffled[i]];
    }
    assert more[..pairsToAdd] == more;
    AppendKeeps(first, more, n);
    SubsetSize(Below(n), Covered(first));
  }

  lemma RemainingSize(allPairs: seq<Pair>, selected: seq<Pair>, remaining: seq<Pair>)
    requires Distinct(allPairs) && Distinct(selected) && Distinct(remaining)
    requires forall p | p in selected :: p in allPairs
    requires forall p :: p in remaining <==> p in allPairs && p !in selected
    ensures |remaining| == |allPairs| - |selected|
  {
    DistinctSize(allPairs);
    DistinctSize(selected);
    DistinctSize(remaining);
    assert Elems(remaining) == Elems(allPairs) - Elems(selected);
    assert Elems(selected) <= Elems(allPairs);
  }

  // ---------- Broadcast and cache ----------

  /** The pairs as one flat list of integers, as they are sent. */
  function Flatten(pairs: seq<Pair>): (r: seq<int>)
    ensures |r| == 2 * |pairs|
    ensures forall i | 0 <= i < |pairs| :: r[2 * i] == pairs[i].0 && r[2 * i + 1] == pairs[i].1
  {
    if pairs == [] then [] else Flatten(pairs[..|pairs| - 1]) + [pairs[|pairs| - 1].0, pairs[|pairs| - 1].1]
  }

  method Serialize(pairs: seq<Pair>) returns (flat: seq<int>)
    ensures flat == Flatten(pairs)
  {
    flat := [];
    for i := 0 to |pairs|
      invariant flat == Flatten(pairs[..i])
    {
      assert pairs[..i + 1][..i] == pairs[..i];
      flat := flat + [pairs[i].0, pairs[i].1];
    }
    assert pairs[..|pairs|] == pairs;
  }

  /** Rebuilding the pairs undoes flattening them. */
  method Deserialize(flat: seq<int>, size: nat, ghost pairs: seq<Pair>) returns (r: seq<Pair>)
    requires flat == Flatten(pairs) && size == |pairs|
    ensures r == pairs
  {
    r := [];
    for i := 0 to size
      invariant r == pairs[..i]
    {
      r := r + [(flat[i * 2], flat[i * 2 + 1])];
    }
  }

  /** The static variables of `generateTestPairs` on one rank. */
  datatype Cache = Cache(allValidPairs: seq<Pair>, selectedPairs: seq<Pair>, pairsCalculated: bool)

  /** Where a rank stands in a call: not in one, or waiting in one of the collectives. */
  datatype Place = Outside | InBarrier | InSizeBroadcast | InDataBroadcast

  /** A rank: its cache, the local variables of the call it is in, and how often it has taken part
      in a barrier and in a broadcast. */
  datatype Rank = Rank(cache: Cache, place: Place, finalPairs: seq<Pair>, size: nat, serialized: seq<int>,
                       barriers: nat, broadcasts: nat)

  /** The list is one that a call with target `t` promises: nothing for 0, a good sample when
      fewer than all pairs are wanted, all pairs otherwise. */
  ghost predicate GoodList(pairs: seq<Pair>, n: nat, t: int) {
    if t == 0 then pairs == []
    else if 0 < t < n * (n - 1) then GoodSample(pairs, n, t)
    else |pairs| == n * (n - 1) && Distinct(pairs) && forall p: Pair :: p in pairs <==> IsPair(p, n)
  }

  // ---------- Collectives ----------

  // A collective completes only when every rank is in it.

  method Barrier(ranks: seq<Rank>) returns (after: seq<Rank>)
    requires forall r | 0 <= r < |ranks| :: ranks[r].place == InBarrier
    ensures |after| == |ranks|
    ensures forall r | 0 <= r < |ranks| :: after[r] == ranks[r].(place := Outside, barriers := ranks[r].barriers + 1)
  {
    after := seq(|ranks|, r requires 0 <= r < |ranks| =>
                 ranks[r].(place := Outside, barriers := ranks[r].barriers + 1));
  }

  method BroadcastSize(ranks: seq<Rank>) returns (after: seq<Rank>)
    requires |ranks| > 0 && forall r | 0 <= r < |ranks| :: ranks[r].place == InSizeBroadcast
    ensures |after| == |ranks|
    ensures forall r | 0 <= r < |ranks| ::
              after[r] == ranks[r].(place := Outside, size := ranks[0].size, broadcasts := ranks[r].broadcasts + 1)
  {
    after := seq(|ranks|, r requires 0 <= r < |ranks| =>
      ranks[r].(place := Outside, size := ranks[0].size, broadcasts := ranks[r].broadcasts + 1));
  }

  /** The buffers must be equally long on all ranks. */
  method BroadcastData(ranks: seq<Rank>) returns (after: seq<Rank>)
    requires |ranks| > 0
    requires forall r | 0 <= r < |ranks| ::
               ranks[r].place == InDataBroadcast && |ranks[r].serialized| == |ranks[0].serialized|
    ensures |after| == |ranks|
    ensures forall r | 0 <= r < |ranks| ::
              after[r] == ranks[r].(place := Outside, serialized := ranks[0].serialized,
                                    broadcasts := ranks[r].broadcasts + 1)
  {
    after := seq(|ranks|, r requires 0 <= r < |ranks| =>
      ranks[r].(place := Outside, serialized := ranks[0].serialized, broadcasts := ranks[r].broadcasts + 1));
  }

  /** All ranks of a run, with the one target that is fixed for it. */
  class Ranks {
    const worldSize: nat
    const target: int
    const shuffleAll: seq<Pair> -> seq<Pair>
    const shuffleOrder: seq<int> -> seq<int>
    const shuffleRemaining: seq<Pair> -> seq<Pair>
    var ranks: seq<Rank>
    ghost var agreed: seq<Pair>

    ghost predicate Valid()
      reads this
    {
      && worldSize >= 1 && target >= -1 && |ranks| == worldSize
      && IsShuffle(shuffleAll) && IsShuffle(shuffleOrder) && IsShuffle(shuffleRemaining)
      && (forall r | 0 <= r < worldSize :: ranks[r].place == Outside)
      && if ranks[0].cache.pairsCalculated then
           target != 0 && GoodList(agreed, worldSize, target)
           && forall r | 0 <= r < worldSize :: Holds(ranks[r].cache, agreed)
         else
           forall r | 0 <= r < worldSize :: ranks[r].cache == Cache([], [], false)
    }

    /** The cache returns the list. */
    ghost predicate Holds(c: Cache, list: seq<Pair>) {
      c.pairsCalculated && ListOf(c) == list
    }

    function Wanted(): int {
      if target == -1 then worldSize * (worldSize - 1) else target
    }

    predicate UseDecisionSampling() {
      Wanted() < worldSize * (worldSize - 1)
    }

    function ListOf(c: Cache): seq<Pair> {
      if UseDecisionSampling() then c.selectedPairs else c.allValidPairs
    }

    constructor (worldSize: nat, target: int, shuffleAll: seq<Pair> -> seq<Pair>, shuffleOrder: seq<int> -> seq<int>,
                 shuffleRemaining: seq<Pair> -> seq<Pair>)
      requires worldSize >= 1 && target >= -1
      requires IsShuffle(shuffleAll) && IsShuffle(shuffleOrder) && IsShuffle(shuffleRemaining)
      ensures Valid() && !ranks[0].cache.pairsCalculated
      ensures this.worldSize == worldSize && this.target == target
    {
      this.worldSize, this.target := worldSize, target;
      this.shuffleAll, this.shuffleOrder, this.shuffleRemaining := shuffleAll, shuffleOrder, shuffleRemaining;
      ranks := seq(worldSize, _ => Rank(Cache([], [], false), Outside, [], 0, [], 0, 0));
      agreed := [];
    }

    /** Whether a rank returns before the collectives, judged by its own cache alone. */
    predicate ReturnsEarly(c: Cache) {
      target == 0 || (c.pairsCalculated && (!UseDecisionSampling() || c.selectedPairs != []))
    }

    /** The work of rank 0 on the first call. */
    method Calculate() returns (c: Cache)
      requires worldSize >= 1 && target >= -1 && target != 0
      requires IsShuffle(shuffleAll) && IsShuffle(shuffleOrder) && IsShuffle(shuffleRemaining)
      ensures GoodList(ListOf(c), worldSize, target)
    {
      hide Covered;
      var allPairs := AllPairs(worldSize);
      var shuffled := shuffleAll(allPairs);
      PermutationKeeps(allPairs, shuffled);
      assert forall p: Pair :: p in shuffled <==> p in Elems(shuffled);
      assert forall p: Pair :: p in allPairs <==> p in Elems(allPairs);
      c := Cache(shuffled, [], true);
      if UseDecisionSampling() {
        SeveralRanks(worldSize, Wanted());
        var selected := SelectPairs(shuffled, worldSize, Wanted(), shuffleOrder, shuffleRemaining);
        c := c.(selectedPairs := selected);
      }
    }

    /** A rank runs up to the barrier, or returns before it. */
    method Enter(rank: nat, x: Rank) returns (y: Rank, returned: bool, list: seq<Pair>)
      requires worldSize >= 1 && target >= -1 && x.place == Outside
      requires IsShuffle(shuffleAll) && IsShuffle(shuffleOrder) && IsShuffle(shuffleRemaining)
      ensures returned <==> ReturnsEarly(x.cache)
      ensures returned ==> y == x && list == if target == 0 then [] else ListOf(x.cache)
      ensures !returned ==> y == x.(place := InBarrier, cache := y.cache)
      ensures !returned && (rank != 0 || x.cache.pairsCalculated) ==> y.cache == x.cache
      ensures !returned && rank == 0 && !x.cache.pairsCalculated ==> GoodList(ListOf(y.cache), worldSize, target)
    {
      hide GoodList, IsShuffle;
      if ReturnsEarly(x.cache) {
        return x, true, if target == 0 then [] else ListOf(x.cache);
      }
      var c := x.cache;
      if rank == 0 {
        if !c.pairsCalculated {
          c := Calculate();
        }
      }
      return x.(place := InBarrier, cache := c), false, [];
    }

    /** A rank runs from the barrier to the broadcast of the size. */
    method AfterBarrier(rank: nat, x: Rank) returns (y: Rank)
      requires x.place == Outside
      ensures y == x.(place := InSizeBroadcast, cache := x.cache.(pairsCalculated := true),
                      finalPairs := if rank == 0 then ListOf(x.cache) else [],
                      size := if rank == 0 then |ListOf(x.cache)| else 0)
    {
      var c := x.cache.(pairsCalculated := true);
      var finalPairs := [];
      if rank == 0 {
        finalPairs := ListOf(c);
      }
      y := x.(place := InSizeBroadcast, cache := c, finalPairs := finalPairs, size := |finalPairs|);
    }

    /** A rank makes its buffer ready for the broadcast of the pairs. */
    method AfterSize(rank: nat, x: Rank) returns (y: Rank)
      requires x.place == Outside && (rank == 0 ==> x.size == |x.finalPairs|)
      ensures y == x.(place := InDataBroadcast, serialized := y.serialized) && |y.serialized| == 2 * x.size
      ensures rank == 0 ==> y.serialized == Flatten(x.finalPairs)
    {
      hide Flatten;
      var serialized;
      if rank == 0 {
        serialized := Serialize(x.finalPairs);
      } else {
        serialized := seq(x.size * 2, _ => 0);
      }
      y := x.(place := InDataBroadcast, serialized := serialized);
    }

    /** A rank rebuilds the pairs, caches them and returns. */
    method AfterData(rank: nat, x: Rank, ghost pairs: seq<Pair>) returns (y: Rank, list: seq<Pair>)
      requires x.place == Outside && x.cache.pairsCalculated
      requires x.serialized == Flatten(pairs) && x.size == |pairs|
               && (rank == 0 ==> x.finalPairs == pairs == ListOf(x.cache))
      ensures list == pairs && Holds(y.cache, pairs) && y == x.(cache := y.cache)
    {
      hide Flatten;
      var c := x.cache;
      list := x.finalPairs;
      if rank != 0 {
        list := Deserialize(x.serialized, x.size, pairs);
        if UseDecisionSampling() {
          c := c.(selectedPairs := list);
        } else {
          c := c.(allValidPairs := list);
        }
      }
      y := x.(cache := c);
    }

    /** A call of `generateTestPairs` on every rank, each taking its own branches and entering its
        own collectives, which complete only with all ranks.  The ranks return early together
        or not at all; on the first call each takes part in one barrier and two broadcasts, and
        on no later call; every rank returns the same list, which is the same on every call and
        is what the target promises. */
    method GenerateTestPairs() returns (results: seq<seq<Pair>>)
      requires Valid()
      modifies this
      ensures Valid() && |results| == worldSize
      ensures forall r | 0 <= r < worldSize :: results[r] == if target == 0 then [] else agreed
      ensures GoodList(results[0], worldSize, target)
      ensures forall r | 0 <= r < worldSize ::
                var took := if target == 0 || old(ranks[0].cache.pairsCalculated) then 0 else 1;
                ranks[r].barriers == old(ranks[r].barriers) + took
                && ranks[r].broadcasts == old(ranks[r].broadcasts) + 2 * took
      ensures target != 0 ==> ranks[0].cache.pairsCalculated
      ensures old(ranks[0].cache.pairsCalculated) ==> agreed == old(agreed) && ranks == old(ranks)
    {
      hide GoodList, IsShuffle;
      AgreedNotEmpty();
      ghost var was := ranks;
      var early := 0;
      results := [];
      var entered: seq<Rank> := [];
      for r := 0 to worldSize
        invariant ranks == was && agreed == old(agreed) && |entered| == r
        invariant forall q | 0 <= q < r :: Entered(q, was[q], entered[q])
        invariant early == if ReturnsEarly(was[0].cache) then r else 0
        invariant ReturnsEarly(was[0].cache) ==> |results| == r
        invariant ReturnsEarly(was[0].cache) ==>
                    forall q | 0 <= q < r :: results[q] == if target == 0 then [] else agreed
      {
        SameBranch(r);
        var y, returned, list := Enter(r, ranks[r]);
        entered := entered + [y];
        if returned {
          early := early + 1;
          results := results + [list];
        }
      }
      if early > 0 {
        assert entered == was;
        return;
      }
      results := Exchange(entered);
    }

    /** What `Enter` makes of a rank. */
    ghost predicate Entered(rank: nat, x: Rank, y: Rank) {
      if ReturnsEarly(x.cache) then y == x
      else
        && y == x.(place := InBarrier, cache := y.cache)
        && (rank != 0 || x.cache.pairsCalculated ==> y.cache == x.cache)
        && (rank == 0 && !x.cache.pairsCalculated ==> GoodList(ListOf(y.cache), worldSize, target))
    }

    /** Judged by its own cache, every rank takes the same branch, and returns the same list. */
    lemma SameBranch(r: nat)
      requires Valid() && r < worldSize
      ensures ReturnsEarly(ranks[r].cache) == ReturnsEarly(ranks[0].cache)
      ensures ReturnsEarly(ranks[r].cache) && target != 0 ==> ListOf(ranks[r].cache) == agreed
    {
      hide GoodList, IsShuffle;
    }

    /** After the first call every rank returns early. */
    lemma AgreedNotEmpty()
      requires Valid()
      ensures ReturnsEarly(ranks[0].cache) <==> target == 0 || ranks[0].cache.pairsCalculated
      ensures target == 0 ==> GoodList([], worldSize, target)
      ensures ranks[0].cache.pairsCalculated ==> GoodList(agreed, worldSize, target)
    {
      hide IsShuffle;
    }

    /** From the barrier on: every rank between the collectives on its own. */
    method Exchange(entered: seq<Rank>) returns (results: seq<seq<Pair>>)
      requires Valid() && target != 0 && !ranks[0].cache.pairsCalculated && |entered| == worldSize
      requires forall r | 0 <= r < worldSize :: !ReturnsEarly(ranks[r].cache) && Entered(r, ranks[r], entered[r])
      modifies this
      ensures Valid() && ranks[0].cache.pairsCalculated
      ensures |results| == worldSize && forall r | 0 <= r < worldSize :: results[r] == agreed
      ensures GoodList(agreed, worldSize, target)
      ensures forall r | 0 <= r < worldSize ::
                ranks[r].barriers == old(ranks[r].barriers) + 1 && ranks[r].broadcasts == old(ranks[r].broadcasts) + 2
    {
      hide GoodList, IsShuffle, Flatten;
      ghost var was := ranks;
      agreed := ListOf(entered[0].cache);
      var xs := Barrier(entered);
      var ys := RunAfterBarrier(xs, agreed);
      xs := BroadcastSize(ys);
      var zs := RunAfterSize(xs, agreed);
      xs := BroadcastData(zs);
      ranks, results := RunAfterData(xs, agreed);
    }

    method RunAfterBarrier(xs: seq<Rank>, ghost list: seq<Pair>) returns (ys: seq<Rank>)
      requires |xs| == worldSize >= 1 && list == ListOf(xs[0].cache)
      requires forall r | 0 <= r < worldSize :: xs[r].place == Outside
      ensures |ys| == worldSize && ys[0].finalPairs == list && ys[0].size == |list| && ListOf(ys[0].cache) == list
      ensures forall r | 0 <= r < worldSize ::
                ys[r].place == InSizeBroadcast && ys[r].cache.pairsCalculated
                && ys[r].barriers == xs[r].barriers && ys[r].broadcasts == xs[r].broadcasts
    {
      ys := [];
      for r := 0 to worldSize
        invariant |ys| == r
        invariant r > 0 ==> ys[0].finalPairs == list && ys[0].size == |list| && ListOf(ys[0].cache) == list
        invariant forall q | 0 <= q < r ::
                    ys[q].place == InSizeBroadcast && ys[q].cache.pairsCalculated
                    && ys[q].barriers == xs[q].barriers && ys[q].broadcasts == xs[q].broadcasts
      {
        var y := AfterBarrier(r, xs[r]);
        ys := ys + [y];
      }
    }

    method RunAfterSize(xs: seq<Rank>, ghost list: seq<Pair>) returns (zs: seq<Rank>)
      requires |xs| == worldSize >= 1 && xs[0].finalPairs == list && ListOf(xs[0].cache) == list
      requires forall r | 0 <= r < worldSize ::
                 xs[r].place == Outside && xs[r].size == |list| && xs[r].cache.pairsCalculated
      ensures |zs| == worldSize && zs[0].serialized == Flatten(list) && zs[0].finalPairs == list
              && ListOf(zs[0].cache) == list
      ensures forall r | 0 <= r < worldSize ::
                zs[r].place == InDataBroadcast && |zs[r].serialized| == 2 * |list| && zs[r].size == |list|
                && zs[r].cache.pairsCalculated
                && zs[r].barriers == xs[r].barriers && zs[r].broadcasts == xs[r].broadcasts
    {
      hide Flatten;
      zs := [];
      for r := 0 to worldSize
        invariant |zs| == r
        invariant r > 0 ==> zs[0].serialized == Flatten(list) && zs[0].finalPairs == list && ListOf(zs[0].cache) == list
        invariant forall q | 0 <= q < r ::
                    zs[q].place == InDataBroadcast && |zs[q].serialized| == 2 * |list| && zs[q].size == |list|
                    && zs[q].cache.pairsCalculated && zs[q].barriers == xs[q].barriers
                    && zs[q].broadcasts == xs[q].broadcasts
      {
        var z := AfterSize(r, xs[r]);
        zs := zs + [z];
      }
    }

    method RunAfterData(xs: seq<Rank>, ghost list: seq<Pair>) returns (ys: seq<Rank>, results: seq<seq<Pair>>)
      requires |xs| == worldSize >= 1 && xs[0].finalPairs == list && ListOf(xs[0].cache) == list
      requires forall r | 0 <= r < worldSize ::
                 xs[r].place == Outside && xs[r].serialized == Flatten(list) && xs[r].size == |list|
                 && xs[r].cache.pairsCalculated
      ensures |ys| == |results| == worldSize
      ensures forall r | 0 <= r < worldSize ::
                results[r] == list && Holds(ys[r].cache, list) && ys[r].place == Outside
                && ys[r].barriers == xs[r].barriers && ys[r].broadcasts == xs[r].broadcasts
    {
      hide Flatten;
      ys, results := [], [];
      for r := 0 to worldSize
        invariant |ys| == |results| == r
        invariant forall q | 0 <= q < r ::
                    results[q] == list && Holds(ys[q].cache, list) && ys[q].place == Outside
                    && ys[q].barriers == xs[q].barriers && ys[q].broadcasts == xs[q].broadcasts
      {
        var y, received := AfterData(r, xs[r], list);
        ys := ys + [y];
        results := results + [received];
      }
    }
  }

  lemma SeveralRanks(n: nat, t: int)
    requires 1 <= n && 0 < t < n * (n - 1)
    ensures n >= 2
  {
  }
}
