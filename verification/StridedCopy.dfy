/** The SM copy kernels: every thread copies the elements of its own stride, twelve at a time
    through a pipe of loads and stores and then one at a time, while the other threads run in
    any interleaving.  The simple kernel is the case of one element per thread. */
module StridedCopy {
  import opened Arith

  /** What a thread holds: the repetitions done, the elements of the current repetition stored,
      the values loaded and not yet stored, and whether it is storing. */
  datatype Thread<T> = Thread(loop: nat, next: nat, pipe: seq<T>, storing: bool)

  /** The launch: number of threads, elements per thread, repetitions, and the source, which
      no thread writes. */
  datatype Launch<T> = Launch(threads: nat, chunk: nat, loops: nat, src: seq<T>)

  datatype State<T> = State(dst: seq<T>, threads: seq<Thread<T>>)

  ghost predicate LaunchOk<T>(c: Launch<T>, dst: seq<T>) {
    c.threads > 0 && c.threads * c.chunk <= |c.src| && c.threads * c.chunk <= |dst|
  }

  /** The elements copied in groups of twelve. */
  function BigEnd(chunk: nat): nat {
    chunk / 12 * 12
  }

  /** Element `k` of thread `t`. */
  function At(n: nat, t: nat, k: nat): nat {
    t + k * n
  }

  predicate Ended<T>(c: Launch<T>, x: Thread<T>) {
    x.loop >= c.loops
  }

  lemma IndexInRange(n: nat, chunk: nat, t: nat, k: nat)
    requires t < n && k < chunk
    ensures At(n, t, k) < n * chunk && At(n, t, k) % n == t && At(n, t, k) / n == k
  {
    MulMono(k + 1, chunk, n);
    assert (k + 1) * n == k * n + n;
    DivModUnique(n, At(n, t, k), k, t);
  }

  /** Every index below `n * chunk` is an element of one thread. */
  lemma OwnerOf(n: nat, chunk: nat, i: nat)
    requires n > 0 && i < n * chunk
    ensures i % n < n && i / n < chunk && i == At(n, i % n, i / n)
  {
    DivModOf(n, i);
    DivBelow(n, i, chunk);
  }

  // ---------- Steps ----------

  ghost predicate Enabled<T>(c: Launch<T>, s: State<T>, t: nat) {
    t < |s.threads| && !Ended(c, s.threads[t])
  }

  /** The value `v` is the source's element `k` of thread `t`. */
  ghost predicate Loaded<T>(c: Launch<T>, t: nat, k: nat, v: T) {
    At(c.threads, t, k) < |c.src| && v == c.src[At(c.threads, t, k)]
  }

  /** The pipe holds the source's elements from element `next` of the thread on. */
  ghost predicate PipeHolds<T>(c: Launch<T>, t: nat, next: nat, pipe: seq<T>) {
    forall j | 0 <= j < |pipe| :: Loaded(c, t, next + j, pipe[j])
  }

  lemma PipeAfterStore<T>(c: Launch<T>, t: nat, next: nat, pipe: seq<T>)
    requires PipeHolds(c, t, next, pipe) && pipe != []
    ensures PipeHolds(c, t, next + 1, pipe[1..])
  {
    hide Loaded;
    forall j | 0 <= j < |pipe[1..]| ensures Loaded(c, t, next + 1 + j, pipe[1..][j]) {
      assert Loaded(c, t, next + (j + 1), pipe[j + 1]);
    }
  }

  lemma PipeAfterLoad<T>(c: Launch<T>, t: nat, next: nat, pipe: seq<T>, v: T)
    requires PipeHolds(c, t, next, pipe) && Loaded(c, t, next + |pipe|, v)
    ensures PipeHolds(c, t, next, pipe + [v])
  {
    hide Loaded;
    var longer := pipe + [v];
    forall j | 0 <= j < |longer| ensures Loaded(c, t, next + j, longer[j]) {
      if j < |pipe| { assert Loaded(c, t, next + j, pipe[j]); }
    }
  }

  ghost predicate ThreadInv<T>(c: Launch<T>, t: nat, x: Thread<T>) {
    && x.next + |x.pipe| <= c.chunk
    && PipeHolds(c, t, x.next, x.pipe)
    && (x.storing ==> x.pipe != [])
    && (x.storing && x.next < BigEnd(c.chunk) ==> (x.next + |x.pipe|) % 12 == 0 && |x.pipe| <= 12)
    && (x.storing && x.next >= BigEnd(c.chunk) ==> |x.pipe| == 1)
    && (!x.storing && x.pipe != [] ==> x.next < BigEnd(c.chunk) && |x.pipe| < 12)
    && (!x.storing && x.next < BigEnd(c.chunk) ==> x.next % 12 == 0)
    && (Ended(c, x) ==> x.next == 0 && x.pipe == [] && !x.storing)
  }

  /** What one load, store or loop test makes of a thread. */
  function ThreadStep<T>(c: Launch<T>, t: nat, x: Thread<T>): Thread<T>
    requires t < c.threads && c.threads * c.chunk <= |c.src| && ThreadInv(c, t, x)
  {
    if x.storing then Thread(x.loop, x.next + 1, x.pipe[1..], |x.pipe| > 1)
    else if x.next < BigEnd(c.chunk) then
      LoadInRange(c, t, x);
      Thread(x.loop, x.next, x.pipe + [c.src[At(c.threads, t, x.next + |x.pipe|)]], |x.pipe| + 1 == 12)
    else if x.next < c.chunk then
      LoadInRange(c, t, x);
      Thread(x.loop, x.next, [c.src[At(c.threads, t, x.next)]], true)
    else Thread(x.loop + 1, 0, [], false)
  }

  lemma LoadInRange<T>(c: Launch<T>, t: nat, x: Thread<T>)
    requires t < c.threads && c.threads * c.chunk <= |c.src| && ThreadInv(c, t, x) && !x.storing && x.next < c.chunk
    ensures x.next + |x.pipe| < c.chunk
    ensures At(c.threads, t, x.next + |x.pipe|) < |c.src|
  {
    if x.next < BigEnd(c.chunk) { assert x.next + 12 <= BigEnd(c.chunk) <= c.chunk; }
    IndexInRange(c.threads, c.chunk, t, x.next + |x.pipe|);
  }

  /** The memory after a step of thread `t`: a store if the thread is storing. */
  function MemoryStep<T>(c: Launch<T>, dst: seq<T>, t: nat, x: Thread<T>): (r: seq<T>)
    requires LaunchOk(c, dst) && t < c.threads && ThreadInv(c, t, x)
    ensures |r| == |dst|
  {
    if x.storing then
      IndexInRange(c.threads, c.chunk, t, x.next);
      dst[At(c.threads, t, x.next) := x.pipe[0]]
    else dst
  }

  /** Element `k` of thread `t` has been stored. */
  predicate Stored<T>(x: Thread<T>, k: nat) {
    x.loop > 0 || k < x.next
  }

  /** The destination holds the source where the owning thread has stored, and what was there
      before everywhere else. */
  ghost predicate MemoryInv<T>(c: Launch<T>, dst0: seq<T>, s: State<T>) {
    && |s.dst| == |dst0| && |s.threads| == c.threads
    && (forall t, k | 0 <= t < c.threads && 0 <= k < c.chunk :: ElementInv(c, dst0, s, t, k))
    && (forall i | c.threads * c.chunk <= i < |dst0| :: s.dst[i] == dst0[i])
  }

  ghost predicate ElementInv<T>(c: Launch<T>, dst0: seq<T>, s: State<T>, t: nat, k: nat)
    requires t < |s.threads|
  {
    var i := At(c.threads, t, k);
    i < |s.dst| && i < |dst0| && i < |c.src| && s.dst[i] == if Stored(s.threads[t], k) then c.src[i] else dst0[i]
  }

  ghost predicate Inv<T>(c: Launch<T>, dst0: seq<T>, s: State<T>) {
    && LaunchOk(c, dst0) && |s.threads| == c.threads
    && (forall t | 0 <= t < c.threads :: ThreadInv(c, t, s.threads[t]))
    && MemoryInv(c, dst0, s)
  }

  function Next<T>(c: Launch<T>, dst0: seq<T>, s: State<T>, t: nat): State<T>
    requires Inv(c, dst0, s) && Enabled(c, s, t)
  {
    State(MemoryStep(c, s.dst, t, s.threads[t]), s.threads[t := ThreadStep(c, t, s.threads[t])])
  }

  ghost function Start<T>(c: Launch<T>, dst0: seq<T>): State<T> {
    State(dst0, seq(c.threads, _ => Thread(0, 0, [], false)))
  }

  lemma StartInv<T>(c: Launch<T>, dst0: seq<T>)
    requires LaunchOk(c, dst0)
    ensures Inv(c, dst0, Start(c, dst0))
  {
    forall t, k | 0 <= t < c.threads && 0 <= k < c.chunk ensures ElementInv(c, dst0, Start(c, dst0), t, k) {
      IndexInRange(c.threads, c.chunk, t, k);
    }
    assert BigEnd(c.chunk) % 12 == 0;
  }

  lemma ThreadStepKeeps<T>(c: Launch<T>, t: nat, x: Thread<T>)
    requires t < c.threads && c.threads * c.chunk <= |c.src| && ThreadInv(c, t, x) && !Ended(c, x)
    ensures ThreadInv(c, t, ThreadStep(c, t, x))
  {
    hide At, PipeHolds, BigEnd;
    BigEndIs(c.chunk);
    if x.storing {
      PipeAfterStore(c, t, x.next, x.pipe);
      StoringEnds(c.chunk, x.next, |x.pipe|);
    } else if x.next < c.chunk {
      LoadInRange(c, t, x);
      BlockEnds(c.chunk, x.next);
      PipeAfterLoad(c, t, x.next, x.pipe, c.src[At(c.threads, t, x.next + |x.pipe|)]);
      if x.next >= BigEnd(c.chunk) {
        assert x.pipe == [];
        assert x.pipe + [c.src[At(c.threads, t, x.next)]] == [c.src[At(c.threads, t, x.next)]];
      }
    } else {
      NothingInPipe(c, t);
    }
  }

  lemma NothingInPipe<T>(c: Launch<T>, t: nat)
    ensures PipeHolds(c, t, 0, [])
  {
  }

  /** Fewer than twelve elements are left for the loop that copies one at a time. */
  lemma BigEndIs(chunk: nat)
    ensures BigEnd(chunk) % 12 == 0 && BigEnd(chunk) <= chunk < BigEnd(chunk) + 12
  {
  }

  /** Inside a block of twelve the stores stay in front of the end of the blocks. */
  lemma StoringEnds(chunk: nat, next: nat, pipe: nat)
    requires pipe > 0 && next + pipe <= chunk
    requires next < BigEnd(chunk) ==> (next + pipe) % 12 == 0 && pipe <= 12
    ensures next < BigEnd(chunk) && pipe > 1 ==> next + 1 < BigEnd(chunk)
    ensures next < BigEnd(chunk) && pipe == 1 ==> (next + 1) % 12 == 0
  {
  }

  lemma BlockEnds(chunk: nat, next: nat)
    requires next < BigEnd(chunk) ==> next % 12 == 0
    ensures next < BigEnd(chunk) ==> next + 12 <= BigEnd(chunk) && (next + 12) % 12 == 0
  {
  }

  /** A step of one thread changes nothing but elements of that thread, and stores there what
      the source holds. */
  lemma MemoryStepKeeps<T>(c: Launch<T>, dst0: seq<T>, s: State<T>, t: nat)
    requires Inv(c, dst0, s) && Enabled(c, s, t)
    ensures MemoryInv(c, dst0, Next(c, dst0, s, t))
  {
    var s', x := Next(c, dst0, s, t), s.threads[t];
    var y := ThreadStep(c, t, x);
    forall u, k | 0 <= u < c.threads && 0 <= k < c.chunk ensures ElementInv(c, dst0, s', u, k) {
      assert ElementInv(c, dst0, s, u, k);
      IndexInRange(c.threads, c.chunk, u, k);
      if x.storing { IndexInRange(c.threads, c.chunk, t, x.next); }
      if u == t { StoredAfter(c, t, x, k); }
    }
    if x.storing { IndexInRange(c.threads, c.chunk, t, x.next); }
  }

  lemma StoredAfter<T>(c: Launch<T>, t: nat, x: Thread<T>, k: nat)
    requires t < c.threads && c.threads * c.chunk <= |c.src| && ThreadInv(c, t, x) && k < c.chunk
    ensures Stored(ThreadStep(c, t, x), k) <==> Stored(x, k) || (x.storing && k == x.next)
  {
    hide At;
  }

  lemma StepKeepsInv<T>(c: Launch<T>, dst0: seq<T>, s: State<T>, t: nat)
    requires Inv(c, dst0, s) && Enabled(c, s, t)
    ensures Inv(c, dst0, Next(c, dst0, s, t))
  {
    hide MemoryInv, ThreadStep, MemoryStep;
    MemoryStepKeeps(c, dst0, s, t);
    ThreadStepKeeps(c, t, s.threads[t]);
  }

  // ---------- Whole runs ----------

  /** The state after letting threads take steps in the order of the schedule; a thread that
      has ended lets its turn pass. */
  ghost function Run<T>(c: Launch<T>, dst0: seq<T>, s: State<T>, schedule: seq<nat>): (r: State<T>)
    requires Inv(c, dst0, s)
    ensures Inv(c, dst0, r)
    decreases |schedule|
  {
    if schedule == [] then s
    else if !Enabled(c, s, schedule[0]) then Run(c, dst0, s, schedule[1..])
    else
      StepKeepsInv(c, dst0, s, schedule[0]);
      Run(c, dst0, Next(c, dst0, s, schedule[0]), schedule[1..])
  }

  /** Under every schedule: at any moment an element holds its old value or the source's; once
      all threads have ended, having repeated at least once, the destination equals the source
      on the copied prefix and is untouched beyond it. */
  lemma CopyIsMemcpy<T>(c: Launch<T>, dst0: seq<T>, schedule: seq<nat>)
    requires LaunchOk(c, dst0)
    ensures var s := (StartInv(c, dst0); Run(c, dst0, Start(c, dst0), schedule));
            |s.dst| == |dst0| && |s.threads| == c.threads
            && (forall i | 0 <= i < c.threads * c.chunk :: s.dst[i] == dst0[i] || s.dst[i] == c.src[i])
            && (forall i | c.threads * c.chunk <= i < |dst0| :: s.dst[i] == dst0[i])
            && (c.loops > 0 && (forall t | 0 <= t < c.threads :: Ended(c, s.threads[t])) ==>
                  s.dst == c.src[..c.threads * c.chunk] + dst0[c.threads * c.chunk..])
  {
    hide Inv, Start, Ended;
    StartInv(c, dst0);
    var s := Run(c, dst0, Start(c, dst0), schedule);
    InvGives(c, dst0, s, 0);
    forall i | 0 <= i < |dst0|
      ensures i < c.threads * c.chunk ==> s.dst[i] == dst0[i] || s.dst[i] == c.src[i]
      ensures c.threads * c.chunk <= i ==> s.dst[i] == dst0[i]
      ensures c.loops > 0 && (forall t | 0 <= t < c.threads :: Ended(c, s.threads[t])) && i < c.threads * c.chunk
              ==> s.dst[i] == c.src[i]
    {
      ElementAfter(c, dst0, s, i);
    }
  }

  /** An element holds the source's value exactly when its thread has stored it. */
  lemma ElementAfter<T>(c: Launch<T>, dst0: seq<T>, s: State<T>, i: nat)
    requires Inv(c, dst0, s) && |s.threads| == c.threads && i < |dst0| == |s.dst|
    ensures c.threads * c.chunk <= i ==> s.dst[i] == dst0[i]
    ensures i < c.threads * c.chunk ==>
              i % c.threads < c.threads && i / c.threads < c.chunk && i < |c.src|
              && s.dst[i] == (if Stored(s.threads[i % c.threads], i / c.threads) then c.src[i] else dst0[i])
    ensures i < c.threads * c.chunk && c.loops > 0 && Ended(c, s.threads[i % c.threads]) ==> s.dst[i] == c.src[i]
  {
    hide ThreadInv, At;
    if i < c.threads * c.chunk {
      OwnerOf(c.threads, c.chunk, i);
      assert ElementInv(c, dst0, s, i % c.threads, i / c.threads);
    }
  }

  /** A step of thread `t` changes at most the element it has come to, puts the source's value
      there, and no other thread ever comes to that index. */
  lemma OneWriter<T>(c: Launch<T>, dst0: seq<T>, s: State<T>, t: nat, i: nat)
    requires Inv(c, dst0, s) && Enabled(c, s, t) && i < |dst0| && Next(c, dst0, s, t).dst[i] != s.dst[i]
    ensures var k := s.threads[t].next;
            k < c.chunk && i == At(c.threads, t, k) && Loaded(c, t, k, Next(c, dst0, s, t).dst[i])
    ensures forall u: nat, k: nat | u < c.threads && k < c.chunk && At(c.threads, u, k) == i ::
              u == t && k == s.threads[t].next
  {
    hide MemoryInv, ThreadStep, ThreadInv, MemoryStep, At, Loaded;
    InvGives(c, dst0, s, t);
    NextMemory(c, dst0, s, t);
    StoreTouches(c, s.dst, t, s.threads[t], i);
    OneOwner(c, t, s.threads[t].next);
  }

  lemma OneOwner<T>(c: Launch<T>, t: nat, next: nat)
    requires t < c.threads && next < c.chunk
    ensures forall u: nat, k: nat | u < c.threads && k < c.chunk && At(c.threads, u, k) == At(c.threads, t, next) ::
            u == t && k == next
  {
    hide At;
    forall u: nat, k: nat | u < c.threads && k < c.chunk && At(c.threads, u, k) == At(c.threads, t, next)
      ensures u == t && k == next
    {
      IndexInRange(c.threads, c.chunk, u, k);
      IndexInRange(c.threads, c.chunk, t, next);
    }
  }

  lemma InvGives<T>(c: Launch<T>, dst0: seq<T>, s: State<T>, t: nat)
    requires Inv(c, dst0, s) && t < c.threads
    ensures |s.dst| == |dst0| && |s.threads| == c.threads && LaunchOk(c, s.dst) && ThreadInv(c, t, s.threads[t])
  {
    hide ThreadInv;
  }

  lemma NextMemory<T>(c: Launch<T>, dst0: seq<T>, s: State<T>, t: nat)
    requires Inv(c, dst0, s) && Enabled(c, s, t) && LaunchOk(c, s.dst) && ThreadInv(c, t, s.threads[t])
    ensures Next(c, dst0, s, t).dst == MemoryStep(c, s.dst, t, s.threads[t])
  {
    hide Inv, ThreadInv, MemoryStep, ThreadStep;
  }

  lemma StoreTouches<T>(c: Launch<T>, dst: seq<T>, t: nat, x: Thread<T>, i: nat)
    requires LaunchOk(c, dst) && t < c.threads && ThreadInv(c, t, x) && i < |dst|
             && MemoryStep(c, dst, t, x)[i] != dst[i]
    ensures x.next < c.chunk && i == At(c.threads, t, x.next) && Loaded(c, t, x.next, MemoryStep(c, dst, t, x)[i])
  {
    hide At, BigEnd, Loaded, ThreadInv, MemoryStep;
    StoreIs(c, dst, t, x);
    if x.storing { FirstInPipe(c, t, x); }
  }

  lemma StoreIs<T>(c: Launch<T>, dst: seq<T>, t: nat, x: Thread<T>)
    requires LaunchOk(c, dst) && t < c.threads && ThreadInv(c, t, x)
    ensures x.storing ==> x.pipe != [] && At(c.threads, t, x.next) < |dst|
                          && MemoryStep(c, dst, t, x) == dst[At(c.threads, t, x.next) := x.pipe[0]]
    ensures !x.storing ==> MemoryStep(c, dst, t, x) == dst
  {
    hide At, BigEnd, PipeHolds;
    if x.storing { IndexInRange(c.threads, c.chunk, t, x.next); }
  }

  lemma FirstInPipe<T>(c: Launch<T>, t: nat, x: Thread<T>)
    requires ThreadInv(c, t, x) && x.storing
    ensures x.next < c.chunk && x.pipe != [] && Loaded(c, t, x.next, x.pipe[0])
  {
    hide At, BigEnd, Loaded;
    assert Loaded(c, t, x.next + 0, x.pipe[0]);
  }

  // ---------- Progress ----------

  /** The steps left in the current repetition of a thread, and in all that follow. */
  function StepsLeft<T>(c: Launch<T>, x: Thread<T>): int {
    (c.loops - x.loop) * (2 * c.chunk + 1) - 2 * x.next - |x.pipe|
  }

  /** Every step of a thread brings its end nearer. */
  lemma StepShortens<T>(c: Launch<T>, t: nat, x: Thread<T>)
    requires t < c.threads && c.threads * c.chunk <= |c.src| && ThreadInv(c, t, x) && !Ended(c, x)
    ensures StepsLeft(c, ThreadStep(c, t, x)) == StepsLeft(c, x) - 1
    ensures StepsLeft(c, x) > 0
  {
    hide At;
    var left := c.loops - x.loop;
    MulMono(1, left, 2 * c.chunk + 1);
    OneRepetition(left, 2 * c.chunk + 1);
  }

  lemma OneRepetition(left: int, steps: nat)
    ensures left * steps == (left - 1) * steps + steps
  {
  }

  /** The steps a thread takes from the start to its end. */
  function StepsNeeded<T>(c: Launch<T>): nat {
    c.loops * (2 * c.chunk + 1)
  }

  /** The schedule gives every thread as many turns as it has steps. */
  ghost predicate Fair<T>(c: Launch<T>, schedule: seq<nat>) {
    forall t | 0 <= t < c.threads :: multiset(schedule)[t] >= StepsNeeded(c)
  }

  lemma EndedHasNone<T>(c: Launch<T>, t: nat, x: Thread<T>)
    requires ThreadInv(c, t, x) && Ended(c, x)
    ensures StepsLeft(c, x) <= 0
  {
    hide At, PipeHolds, BigEnd;
    MulMono(c.loops - x.loop, 0, 2 * c.chunk + 1);
  }

  lemma FirstTurn(schedule: seq<nat>, t: nat)
    requires schedule != []
    ensures multiset(schedule)[t] == multiset(schedule[1..])[t] + if schedule[0] == t then 1 else 0
  {
    assert schedule == [schedule[0]] + schedule[1..];
  }

  lemma NextThreads<T>(c: Launch<T>, dst0: seq<T>, s: State<T>, u: nat, t: nat)
    requires Inv(c, dst0, s) && Enabled(c, s, u) && t < c.threads && ThreadInv(c, u, s.threads[u])
    ensures |s.threads| == |Next(c, dst0, s, u).threads| == c.threads
    ensures Next(c, dst0, s, u).threads[t] == if t == u then ThreadStep(c, u, s.threads[u]) else s.threads[t]
  {
    hide MemoryInv, ThreadInv, ThreadStep, MemoryStep, At;
  }

  /** A thread that gets at least as many turns as it has steps left has ended. */
  lemma {:induction false} TurnsEnd<T>(c: Launch<T>, dst0: seq<T>, s: State<T>, schedule: seq<nat>, t: nat)
    requires Inv(c, dst0, s) && t < |s.threads| == c.threads && multiset(schedule)[t] >= StepsLeft(c, s.threads[t])
    ensures |Run(c, dst0, s, schedule).threads| == c.threads && Ended(c, Run(c, dst0, s, schedule).threads[t])
    decreases |schedule|
  {
    hide MemoryInv, ThreadInv, ThreadStep, MemoryStep, At, StepsLeft, Next;
    InvGives(c, dst0, s, t);
    RunIs(c, dst0, s, schedule);
    if schedule == [] {
      if !Ended(c, s.threads[t]) { StepShortens(c, t, s.threads[t]); }
    } else {
      var u := schedule[0];
      FirstTurn(schedule, t);
      if Enabled(c, s, u) {
        InvGives(c, dst0, s, u);
        StepKeepsInv(c, dst0, s, u);
        NextThreads(c, dst0, s, u, t);
        if u == t { StepShortens(c, t, s.threads[t]); }
        TurnsEnd(c, dst0, Next(c, dst0, s, u), schedule[1..], t);
      } else {
        if u == t { EndedHasNone(c, t, s.threads[t]); }
        TurnsEnd(c, dst0, s, schedule[1..], t);
      }
    }
  }

  lemma RunIs<T>(c: Launch<T>, dst0: seq<T>, s: State<T>, schedule: seq<nat>)
    requires Inv(c, dst0, s)
    ensures schedule == [] ==> Run(c, dst0, s, schedule) == s
    ensures schedule != [] && !Enabled(c, s, schedule[0])
            ==> Run(c, dst0, s, schedule) == Run(c, dst0, s, schedule[1..])
    ensures schedule != [] && Enabled(c, s, schedule[0]) ==>
              (StepKeepsInv(c, dst0, s, schedule[0]);
               Run(c, dst0, s, schedule) == Run(c, dst0, Next(c, dst0, s, schedule[0]), schedule[1..]))
  {
    hide Inv, Next, Enabled;
  }

  lemma StartThreads<T>(c: Launch<T>, dst0: seq<T>, t: nat)
    requires t < c.threads
    ensures |Start(c, dst0).threads| == c.threads && StepsLeft(c, Start(c, dst0).threads[t]) == StepsNeeded(c)
  {
  }

  /** Every fair schedule ends all threads, whatever else it does. */
  lemma FairEnds<T>(c: Launch<T>, dst0: seq<T>, schedule: seq<nat>)
    requires LaunchOk(c, dst0) && Fair(c, schedule)
    ensures var s := (StartInv(c, dst0); Run(c, dst0, Start(c, dst0), schedule));
            |s.threads| == c.threads && forall t | 0 <= t < c.threads :: Ended(c, s.threads[t])
  {
    hide Inv, Start, StepsNeeded, StepsLeft;
    StartInv(c, dst0);
    InvGives(c, dst0, Run(c, dst0, Start(c, dst0), schedule), 0);
    forall t | 0 <= t < c.threads
      ensures |Run(c, dst0, Start(c, dst0), schedule).threads| == c.threads
              && Ended(c, Run(c, dst0, Start(c, dst0), schedule).threads[t])
    {
      StartThreads(c, dst0, t);
      TurnsEnd(c, dst0, Start(c, dst0), schedule, t);
    }
  }

  /** Under every fair schedule the kernel is a memory copy of its prefix. */
  lemma FairCopyIsMemcpy<T>(c: Launch<T>, dst0: seq<T>, schedule: seq<nat>)
    requires LaunchOk(c, dst0) && Fair(c, schedule) && c.loops > 0
    ensures var s := (StartInv(c, dst0); Run(c, dst0, Start(c, dst0), schedule));
            s.dst == c.src[..c.threads * c.chunk] + dst0[c.threads * c.chunk..]
  {
    hide Inv, Start, Fair;
    CopyIsMemcpy(c, dst0, schedule);
    FairEnds(c, dst0, schedule);
  }

  /** All threads in turn, over and over. */
  function RoundRobin(threads: nat, rounds: nat): seq<nat> {
    if rounds == 0 then [] else RoundRobin(threads, rounds - 1) + OneRound(threads)
  }

  function OneRound(threads: nat): seq<nat> {
    if threads == 0 then [] else OneRound(threads - 1) + [threads - 1]
  }

  lemma {:induction false} OneRoundTurns(threads: nat, t: nat)
    ensures multiset(OneRound(threads))[t] == if t < threads then 1 else 0
  {
    if threads == 0 {
    } else {
      OneRoundTurns(threads - 1, t);
    }
  }

  lemma {:induction false} RoundRobinTurns(threads: nat, rounds: nat, t: nat)
    requires t < threads
    ensures multiset(RoundRobin(threads, rounds))[t] == rounds
  {
    if rounds == 0 {
    } else {
      RoundRobinTurns(threads, rounds - 1, t);
      OneRoundTurns(threads, t);
    }
  }

  /** There is a fair schedule for every launch. */
  lemma FairExists<T>(c: Launch<T>)
    ensures Fair(c, RoundRobin(c.threads, StepsNeeded(c)))
  {
    hide RoundRobin, StepsNeeded;
    forall t | 0 <= t < c.threads ensures multiset(RoundRobin(c.threads, StepsNeeded(c)))[t] >= StepsNeeded(c) {
      RoundRobinTurns(c.threads, StepsNeeded(c), t);
    }
  }

  // ---------- Launching ----------

  const SMALL_BUFFER: nat := 64 * 1024 * 1024
  const THREADS_PER_BLOCK: nat := 512

  predicate SupportedWidth(bytes: nat) {
    bytes == 4 || bytes == 8 || bytes == 16 || bytes == 32
  }

  /** `launchCopyKernel`: the threads and the elements per thread it launches, and the number
      of bytes it returns. */
  datatype Launched = Launched(threads: nat, chunk: nat, bytes: nat)

  function SmallBlock(elements: nat): nat {
    if elements < 1024 then elements else 1024
  }

  /** The elements of a large buffer, rounded down to a multiple of the threads. */
  function LargeElements(elements: nat, total: nat): nat
    requires total > 0
  {
    total * (elements / total)
  }

  function SmallThreads(elements: nat): nat {
    if elements == 0 then 0 else elements / SmallBlock(elements) * SmallBlock(elements)
  }

  function LaunchCopy(size: nat, width: nat, numSm: nat): Launched
    requires SupportedWidth(width) && numSm > 0
  {
    if size < SMALL_BUFFER then
      var elements := size / width;
      if elements == 0 then Launched(0, 0, 0) else Launched(SmallThreads(elements), 1, elements * width)
    else
      var elements := LargeElements(size / width, numSm * THREADS_PER_BLOCK);
      Launched(numSm * THREADS_PER_BLOCK, elements / (numSm * THREADS_PER_BLOCK), elements * width)
  }

  /** `MemcpyInitiatorSM::getAdjustedCopySize`. */
  function AdjustedCopySize(size: nat, width: nat, numSm: nat): nat
    requires SupportedWidth(width) && numSm > 0
  {
    if size < SMALL_BUFFER then size / width * width
    else
      var totalThreadCount := numSm * THREADS_PER_BLOCK;
      totalThreadCount * (size / width / totalThreadCount) * width
  }

  /** The launcher returns the size that was announced, and its threads copy all of it exactly
      when the buffer is large, or has at most 1024 elements, or a multiple of 1024: there is
      no launch for the tail of a small buffer. */
  lemma LaunchMatchesAdjustedSize(size: nat, width: nat, numSm: nat)
    requires SupportedWidth(width) && numSm > 0
    ensures var l := LaunchCopy(size, width, numSm);
            l.bytes == AdjustedCopySize(size, width, numSm) <= size
            && l.threads * l.chunk * width <= l.bytes
            && (l.threads * l.chunk * width == l.bytes
                <==> size >= SMALL_BUFFER || size / width <= 1024 || size / width % 1024 == 0)
  {
    hide LargeElements, SmallThreads;
    var elements := size / width;
    WholeElements(size, width);
    if size < SMALL_BUFFER {
      SmallLaunch(elements, width);
    } else {
      LargeLaunch(elements, numSm * THREADS_PER_BLOCK, width);
      LargeIs(elements, numSm * THREADS_PER_BLOCK);
    }
  }

  lemma WholeElements(size: nat, width: nat)
    requires width > 0
    ensures size / width * width <= size
  {
    DivModOf(width, size);
  }

  lemma LargeIs(elements: nat, total: nat)
    requires total > 0
    ensures LargeElements(elements, total) == total * (elements / total)
  {
  }

  lemma LargeLaunch(elements: nat, total: nat, width: nat)
    requires total > 0
    ensures var used := LargeElements(elements, total);
            used / total == elements / total && total * (used / total) == used && used * width <= elements * width
  {
    var rounds := elements / total;
    DivModOf(total, elements);
    assert total * rounds == rounds * total + 0;
    DivModUnique(total, total * rounds, rounds, 0);
    MulMono(total * rounds, elements, width);
  }

  lemma Scale(a: nat, b: nat, width: nat)
    requires a <= b
    ensures a * width <= b * width
    ensures width > 0 && a < b ==> a * width < b * width
  {
  }

  lemma SmallLaunch(elements: nat, width: nat)
    requires width > 0
    ensures SmallThreads(elements) * width <= elements * width
    ensures SmallThreads(elements) * width == elements * width <==> elements <= 1024 || elements % 1024 == 0
  {
    var covered := SmallThreads(elements);
    SmallCovers(elements);
    Scale(covered, elements, width);
  }

  lemma SmallCovers(elements: nat)
    ensures SmallThreads(elements) <= elements
    ensures SmallThreads(elements) == elements <==> elements <= 1024 || elements % 1024 == 0
  {
    if 0 < elements < 1024 { DivModUnique(elements, elements, 1, 0); }
  }

  /** The launch itself: below 64 MiB one element per thread in blocks of at most 1024, and from
      there on 512 threads for every multiprocessor, each with an equal share. */
  lemma LaunchIs(size: nat, width: nat, numSm: nat)
    requires width in {4, 8, 16, 32} && numSm > 0 && size >= width
    ensures var l, elements := LaunchCopy(size, width, numSm), size / width;
            && (size < 0x4000000 && elements <= 1024 ==> l.threads == elements)
            && (size < 0x4000000 && elements > 1024 ==> l.threads == elements - elements % 1024)
            && (size < 0x4000000 ==> l.chunk == 1)
            && (size >= 0x4000000 ==> l.threads == 512 * numSm && l.chunk == elements / (512 * numSm))
            && l.bytes == (if size < 0x4000000 then elements else 512 * numSm * (elements / (512 * numSm))) * width
  {
    hide LargeElements;
    WholeElements(size, width);
    DivModOf(width, size);
    if size >= 0x4000000 {
      LargeLaunch(size / width, numSm * THREADS_PER_BLOCK, width);
    } else if size / width < 1024 {
      DivModUnique(size / width, size / width, 1, 0);
    }
  }

  /** A thread in the unrolled part begins to store when it has loaded twelve elements. */
  lemma TwelveInPipe<T>(c: Launch<T>, t: nat, x: Thread<T>)
    requires t < c.threads && c.threads * c.chunk <= |c.src| && ThreadInv(c, t, x) && !Ended(c, x) && !x.storing
    ensures ThreadStep(c, t, x).storing && x.next < BigEnd(c.chunk) <==> x.next < BigEnd(c.chunk) && |x.pipe| == 11
    ensures ThreadStep(c, t, x).storing && BigEnd(c.chunk) <= x.next <==> BigEnd(c.chunk) <= x.next < c.chunk
  {
    hide At, PipeHolds;
  }

  /** Every buffer of whole MiB is copied completely up to its announced size. */
  lemma MebibytesAreCovered(mib: nat, width: nat, numSm: nat)
    requires SupportedWidth(width) && numSm > 0
    ensures var l := LaunchCopy(mib * 0x100000, width, numSm);
            l.threads * l.chunk * width == AdjustedCopySize(mib * 0x100000, width, numSm)
  {
    LaunchMatchesAdjustedSize(mib * 0x100000, width, numSm);
    MebibyteElements(mib, width);
  }

  lemma MebibyteElements(mib: nat, width: nat)
    requires SupportedWidth(width)
    ensures mib * 0x100000 / width % 1024 == 0
  {
    if width == 4 {
      assert mib * 0x100000 / 4 == mib * 256 * 1024;
    } else if width == 8 {
      assert mib * 0x100000 / 8 == mib * 128 * 1024;
    } else if width == 16 {
      assert mib * 0x100000 / 16 == mib * 64 * 1024;
    } else {
      assert mib * 0x100000 / 32 == mib * 32 * 1024;
    }
  }
}
