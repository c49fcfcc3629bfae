/** The bidirectional copy: odd warps copy from the source to the destination, even warps the
    other way, so that each buffer first holds the pattern where it is read and zeros where it
    is written.  The threads run in any interleaving. */
module SplitWarp {
  import opened Pattern
  import StridedCopy

  /** `uint4`: the four words that a thread moves at a time. */
  datatype Quad = Quad(x: bv32, y: bv32, z: bv32, w: bv32)

  const ZERO := Quad(0, 0, 0, 0)

  const WARP_SIZE: nat := 32

  /** A launch over `size` quads, at least one. */
  datatype Launch = Launch(size: nat, loops: nat)

  /** What a thread has loaded and not yet stored. */
  datatype Held = Nothing | Holding(q: Quad)

  datatype Thread = Thread(stores: nat, held: Held)

  datatype State = State(dst: seq<Quad>, src: seq<Quad>, threads: seq<Thread>)

  predicate OddWarp(i: nat) {
    i / WARP_SIZE % 2 == 1
  }

  /** The threads of the launch: blocks of at most 1024, and none for a last block that would
      not be full. */
  function Threads(c: Launch): (n: nat)
    ensures n <= c.size
    ensures c.size > 0 ==> n > 0
    ensures n > c.size - 1024
    ensures n == c.size <==> c.size <= 1024 || c.size % 1024 == 0
  {
    StridedCopy.SmallCovers(c.size);
    StridedCopy.SmallThreads(c.size)
  }

  /** The second half of every 64 threads. */
  lemma OddWarpIs(i: nat)
    ensures OddWarp(i) <==> i % 64 >= 32
  {
    assert i == 64 * (i / 64) + i % 64;
    assert i / 32 == 2 * (i / 64) + i % 64 / 32;
  }

  // ---------- Words and quads ----------

  function WordOf(q: Quad, k: nat): bv32 {
    if k == 0 then q.x else if k == 1 then q.y else if k == 2 then q.z else q.w
  }

  /** The buffer as `memcmpKernel` sees it. */
  function Words(buffer: seq<Quad>): (r: seq<bv32>)
    ensures |r| == 4 * |buffer|
  {
    seq(4 * |buffer|, k requires 0 <= k < 4 * |buffer| => WordOf(buffer[k / 4], k % 4))
  }

  /** The words of a quad in memory. */
  lemma WordsOfQuad(a: bv32, b: bv32, c: bv32, d: bv32)
    ensures Words([Quad(a, b, c, d)]) == [a, b, c, d]
  {
  }

  /** Quad `i` of a buffer filled with the source's pattern. */
  function FullQuad(i: nat): Quad {
    Quad(Filled(SOURCE_SEED, 4 * i), Filled(SOURCE_SEED, 4 * i + 1), Filled(SOURCE_SEED, 4 * i + 2),
         Filled(SOURCE_SEED, 4 * i + 3))
  }

  lemma WordOfFull(k: nat)
    ensures WordOf(FullQuad(k / 4), k % 4) == Filled(SOURCE_SEED, k)
  {
    hide Filled;
    assert k == 4 * (k / 4) + k % 4;
  }

  lemma WordOfZero(k: nat)
    ensures WordOf(ZERO, k % 4) == 0 != Filled(SOURCE_SEED, k)
  {
    PatternHasNoZero(SOURCE_SEED, k % PATTERN_WORDS);
  }

  // ---------- Clearing ----------

  /** A buffer after `memclearKernelByWarpParity`. */
  function Cleared(buffer: seq<Quad>, threads: nat, odd: bool): (r: seq<Quad>)
    ensures |r| == |buffer|
    ensures forall i: nat | i < |buffer| :: r[i] == if i < threads && OddWarp(i) == odd then ZERO else buffer[i]
  {
    seq(|buffer|, i requires 0 <= i < |buffer| => if i < threads && OddWarp(i) == odd then ZERO else buffer[i])
  }

  /** The threads of `memclearKernelByWarpParityDevice`, in any order. */
  method ClearByWarpParity(buffer: array<Quad>, clearOddWarpIndexed: bool, order: seq<nat>)
    requires buffer.Length >= 1
    requires forall idx: nat :: idx in order <==> idx < Threads(Launch(buffer.Length, 0))
    modifies buffer
    ensures buffer[..] == Cleared(old(buffer[..]), Threads(Launch(buffer.Length, 0)), clearOddWarpIndexed)
  {
    hide Threads;
    for k := 0 to |order|
      invariant forall i: nat | i < buffer.Length ::
                  buffer[i] == if i in order[..k] && OddWarp(i) == clearOddWarpIndexed then ZERO else old(buffer[i])
    {
      var idx := order[k];
      assert idx in order;
      var globalWarpId, threadInWarp := idx / WARP_SIZE, idx % WARP_SIZE;
      assert order[..k + 1] == order[..k] + [idx];
      if (globalWarpId % 2 == 1) == clearOddWarpIndexed {
        buffer[globalWarpId * WARP_SIZE + threadInWarp] := ZERO;
      }
    }
    assert order[..|order|] == order;
  }

  // ---------- Steps ----------

  /** The quad a thread reads, and the one it writes. */
  function Origin(s: State, i: nat): Quad
    requires i < |s.dst| == |s.src|
  {
    if OddWarp(i) then s.src[i] else s.dst[i]
  }

  function Target(s: State, i: nat): Quad
    requires i < |s.dst| == |s.src|
  {
    if OddWarp(i) then s.dst[i] else s.src[i]
  }

  predicate Ended(c: Launch, x: Thread) {
    x.stores >= c.loops
  }

  predicate Enabled(c: Launch, s: State, t: nat) {
    t < |s.threads| && !Ended(c, s.threads[t])
  }

  predicate Shaped(c: Launch, s: State) {
    |s.dst| == |s.src| == c.size && |s.threads| == Threads(c)
  }

  /** A load or a store of thread `t`. */
  function Next(c: Launch, s: State, t: nat): State
    requires Shaped(c, s) && Enabled(c, s, t)
  {
    var x := s.threads[t];
    if x.held.Nothing? then s.(threads := s.threads[t := x.(held := Holding(Origin(s, t)))])
    else
      var threads := s.threads[t := Thread(x.stores + 1, Nothing)];
      if OddWarp(t) then State(s.dst[t := x.held.q], s.src, threads)
      else State(s.dst, s.src[t := x.held.q], threads)
  }

  /** Both buffers filled with the pattern, the destination cleared for the odd warps and the
      source for the even ones. */
  function Start(c: Launch): State {
    var full := seq(c.size, i requires 0 <= i < c.size => FullQuad(i));
    State(Cleared(full, Threads(c), true), Cleared(full, Threads(c), false), seq(Threads(c), _ => Thread(0, Nothing)))
  }

  /** At every index the buffer that is read there holds the pattern; the other one holds it
      from the first store of the index's thread on, and zeros before; indices without a
      thread hold the pattern in both. */
  ghost predicate IndexInv(c: Launch, s: State, i: nat)
    requires Shaped(c, s) && i < c.size
  {
    && Origin(s, i) == FullQuad(i)
    && Target(s, i) == (if i < Threads(c) && s.threads[i].stores == 0 then ZERO else FullQuad(i))
    && (i < Threads(c) && s.threads[i].held.Holding? ==> s.threads[i].held.q == FullQuad(i))
  }

  ghost predicate Inv(c: Launch, s: State) {
    Shaped(c, s) && forall i: nat | i < c.size :: IndexInv(c, s, i)
  }

  lemma StartInv(c: Launch)
    ensures Inv(c, Start(c))
  {
    hide OddWarp, Threads, FullQuad;
  }

  lemma StepKeepsInv(c: Launch, s: State, t: nat)
    requires Inv(c, s) && Enabled(c, s, t)
    ensures Inv(c, Next(c, s, t))
  {
    hide OddWarp, Threads, FullQuad;
    forall i: nat | i < c.size ensures IndexInv(c, Next(c, s, t), i) {
      assert IndexInv(c, s, i) && IndexInv(c, s, t);
    }
  }

  /** The state after letting threads take steps in the order of the schedule; a thread that
      has ended lets its turn pass. */
  ghost function Run(c: Launch, s: State, schedule: seq<nat>): (r: State)
    requires Inv(c, s)
    ensures Inv(c, r)
    decreases |schedule|
  {
    if schedule == [] then s
    else if !Enabled(c, s, schedule[0]) then Run(c, s, schedule[1..])
    else
      StepKeepsInv(c, s, schedule[0]);
      Run(c, Next(c, s, schedule[0]), schedule[1..])
  }

  /** Every step brings the end of its thread nearer. */
  function StepsLeft(c: Launch, x: Thread): int {
    2 * (c.loops - x.stores) - if x.held.Holding? then 1 else 0
  }

  lemma StepShortens(c: Launch, s: State, t: nat)
    requires Shaped(c, s) && Enabled(c, s, t)
    ensures StepsLeft(c, Next(c, s, t).threads[t]) == StepsLeft(c, s.threads[t]) - 1
    ensures StepsLeft(c, s.threads[t]) > 0
    ensures forall u: nat | u < |s.threads| && u != t :: Next(c, s, t).threads[u] == s.threads[u]
  {
  }

  /** The schedule gives every thread a turn for each of its loads and stores. */
  ghost predicate Fair(c: Launch, schedule: seq<nat>) {
    forall t | 0 <= t < Threads(c) :: multiset(schedule)[t] >= 2 * c.loops
  }

  /** A thread that gets at least as many turns as it has steps left has ended. */
  lemma {:induction false} TurnsEnd(c: Launch, s: State, schedule: seq<nat>, t: nat)
    requires Inv(c, s) && t < Threads(c) && multiset(schedule)[t] >= StepsLeft(c, s.threads[t])
    ensures Ended(c, Run(c, s, schedule).threads[t])
    decreases |schedule|
  {
    hide Threads, IndexInv, Next, StepsLeft;
    if schedule == [] {
      if !Ended(c, s.threads[t]) { StepShortens(c, s, t); }
    } else {
      var u := schedule[0];
      StridedCopy.FirstTurn(schedule, t);
      if Enabled(c, s, u) {
        StepShortens(c, s, u);
        StepKeepsInv(c, s, u);
        TurnsEnd(c, Next(c, s, u), schedule[1..], t);
      } else {
        if u == t { EndedHasNone(c, s.threads[t]); }
        TurnsEnd(c, s, schedule[1..], t);
      }
    }
  }

  lemma EndedHasNone(c: Launch, x: Thread)
    ensures Ended(c, x) ==> StepsLeft(c, x) <= 0
  {
  }

  lemma StartThreads(c: Launch, t: nat)
    requires t < Threads(c)
    ensures |Start(c).threads| == Threads(c) && StepsLeft(c, Start(c).threads[t]) == 2 * c.loops
  {
    hide Threads;
  }

  /** Every fair schedule ends all threads. */
  lemma FairEnds(c: Launch, schedule: seq<nat>)
    requires Fair(c, schedule)
    ensures (StartInv(c); forall t | 0 <= t < Threads(c) :: Ended(c, Run(c, Start(c), schedule).threads[t]))
  {
    hide Threads, Start, StepsLeft, IndexInv;
    StartInv(c);
    forall t | 0 <= t < Threads(c) ensures Ended(c, Run(c, Start(c), schedule).threads[t]) {
      StartThreads(c, t);
      TurnsEnd(c, Start(c), schedule, t);
    }
  }

  /** There is a fair schedule for every launch. */
  lemma FairExists(c: Launch)
    ensures Fair(c, StridedCopy.RoundRobin(Threads(c), 2 * c.loops))
  {
    hide Threads, StridedCopy.RoundRobin;
    forall t | 0 <= t < Threads(c) ensures multiset(StridedCopy.RoundRobin(Threads(c), 2 * c.loops))[t] >= 2 * c.loops {
      StridedCopy.RoundRobinTurns(Threads(c), 2 * c.loops, t);
    }
  }

  // ---------- The check ----------

  /** The words that the check of a buffer finds wrong, at any moment of any run: those of the
      threads that write this buffer and have not stored yet. */
  lemma MismatchesAre(c: Launch, s: State, k: nat)
    requires Inv(c, s) && k < 4 * c.size
    ensures Mismatch(Words(s.dst), 4 * c.size, SOURCE_SEED, k)
            <==> k / 4 < Threads(c) && OddWarp(k / 4) && s.threads[k / 4].stores == 0
    ensures Mismatch(Words(s.src), 4 * c.size, SOURCE_SEED, k)
            <==> k / 4 < Threads(c) && !OddWarp(k / 4) && s.threads[k / 4].stores == 0
  {
    hide OddWarp, Threads, FullQuad, Filled, WordOf;
    assert IndexInv(c, s, k / 4);
    WordOfFull(k);
    WordOfZero(k);
    assert Words(s.dst)[k] == WordOf(s.dst[k / 4], k % 4) && Words(s.src)[k] == WordOf(s.src[k / 4], k % 4);
  }

  /** Neither buffer is found to differ from the pattern. */
  ghost predicate CheckPasses(c: Launch, s: State)
    requires Shaped(c, s)
  {
    forall k: nat ::
      !Mismatch(Words(s.dst), 4 * c.size, SOURCE_SEED, k)
      && !Mismatch(Words(s.src), 4 * c.size, SOURCE_SEED, k)
  }

  /** Under every schedule the check passes exactly when every launched thread has stored at
      least once: leaving out a single thread makes it fail. */
  lemma CheckIsExact(c: Launch, schedule: seq<nat>)
    requires c.size > 0
    ensures var s := (StartInv(c); Run(c, Start(c), schedule));
            CheckPasses(c, s) <==> forall t | 0 <= t < Threads(c) :: s.threads[t].stores > 0
  {
    hide OddWarp, Threads, FullQuad, Filled, Words, Mismatch, Start;
    StartInv(c);
    var s := Run(c, Start(c), schedule);
    if CheckPasses(c, s) {
      forall t | 0 <= t < Threads(c) ensures s.threads[t].stores > 0 {
        MismatchesAre(c, s, 4 * t);
        assert 4 * t / 4 == t;
      }
    }
    if forall t | 0 <= t < Threads(c) :: s.threads[t].stores > 0 {
      forall k: nat
        ensures !Mismatch(Words(s.dst), 4 * c.size, SOURCE_SEED, k)
                && !Mismatch(Words(s.src), 4 * c.size, SOURCE_SEED, k)
      {
        if k < 4 * c.size {
          MismatchesAre(c, s, k);
        } else {
          MismatchIsWithin(Words(s.dst), Words(s.src), 4 * c.size, k);
        }
      }
    }
  }

  /** For buffers of whole MiB no quad is without a thread: at the start every quad is wrong in the
      buffer that its thread writes, and the check passes if and only if all have been stored. */
  lemma MebibytesAreCovered(c: Launch, mib: nat, schedule: seq<nat>)
    requires c.size == mib * 0x100000 / 16 && mib > 0
    ensures Threads(c) == c.size
    ensures forall i: nat | i < c.size :: (if i % 64 >= 32 then Start(c).dst[i] else Start(c).src[i]) == ZERO
    ensures var s := (StartInv(c); Run(c, Start(c), schedule));
            CheckPasses(c, s) <==> forall i: nat | i < c.size :: s.threads[i].stores > 0
  {
    hide OddWarp, FullQuad, CheckPasses, Threads, Run;
    WholeBlocks(mib);
    StartInv(c);
    CheckIsExact(c, schedule);
    forall i: nat | i < c.size ensures (if i % 64 >= 32 then Start(c).dst[i] else Start(c).src[i]) == ZERO {
      OddWarpIs(i);
    }
  }

  lemma WholeBlocks(mib: nat)
    ensures mib * 0x100000 / 16 % 1024 == 0 && (mib > 0 ==> mib * 0x100000 / 16 > 0)
  {
    assert mib * 0x100000 / 16 == mib * 64 * 1024;
  }

  lemma MismatchIsWithin(a: seq<bv32>, b: seq<bv32>, size: nat, k: nat)
    requires size <= |a| && size <= |b| && size <= k
    ensures !Mismatch(a, size, SOURCE_SEED, k) && !Mismatch(b, size, SOURCE_SEED, k)
  {
  }

  /** Once all threads have ended, having repeated at least once, both buffers hold the full
      pattern, those quads included that no thread of the launch reaches; with no repetition
      the check fails. */
  lemma EndedCopyIsFull(c: Launch, schedule: seq<nat>)
    requires c.size > 0
    requires (StartInv(c); forall t | 0 <= t < Threads(c) :: Ended(c, Run(c, Start(c), schedule).threads[t]))
    ensures var s := Run(c, Start(c), schedule);
            (c.loops > 0 ==> s.dst == s.src == seq(c.size, i requires 0 <= i < c.size => FullQuad(i)))
            && (CheckPasses(c, s) <==> c.loops > 0)
  {
    hide OddWarp, Threads, FullQuad, Start, CheckPasses;
    CheckIsExact(c, schedule);
    StartInv(c);
    var s := Run(c, Start(c), schedule);
    if c.loops > 0 {
      forall i | 0 <= i < c.size ensures s.dst[i] == s.src[i] == FullQuad(i) {
        assert IndexInv(c, s, i);
      }
    } else {
      NoStores(c, Start(c), schedule);
      NoStoreAtStart(c);
    }
  }

  /** Under every fair schedule with at least one repetition both buffers end with the full
      pattern and the check passes. */
  lemma FairCopyIsFull(c: Launch, schedule: seq<nat>)
    requires c.size > 0 && c.loops > 0 && Fair(c, schedule)
    ensures var s := (StartInv(c); Run(c, Start(c), schedule));
            s.dst == s.src == seq(c.size, i requires 0 <= i < c.size => FullQuad(i)) && CheckPasses(c, s)
  {
    hide Inv, Start, Fair, FullQuad, CheckPasses, Threads;
    FairEnds(c, schedule);
    EndedCopyIsFull(c, schedule);
  }

  lemma NoStoreAtStart(c: Launch)
    requires c.size > 0
    ensures |Start(c).threads| == Threads(c) > 0 && Start(c).threads[0].stores == 0
  {
    hide Threads;
  }

  lemma {:induction false} NoStores(c: Launch, s: State, schedule: seq<nat>)
    requires Inv(c, s) && c.loops == 0
    ensures Run(c, s, schedule) == s
    decreases |schedule|
  {
    if schedule == [] {
    } else {
      NoStores(c, s, schedule[1..]);
    }
  }
}
