/** The start-of-copy latch of a multi-node measurement, as a step relation over all ranks:
    every rank runs the sample loop of `doMemcpyCore` on its own, and the spin kernels it has
    launched run beside it.  A round is one sample of one operation; rounds follow each other
    without end of operation being visible to the latch.  Memory is sequentially consistent,
    a launched spin kernel may start at any later time, and none times out. */
module Latch {
  import Dispatch

  /** `owners(k)` are the ranks of the copies of round `k`, in order, as `dispatchMemcpy` finds
      them; a round may be without copies. */
  datatype Config = Config(ranks: nat, rounds: nat, owners: nat -> seq<nat>)

  ghost predicate ConfigOk(c: Config) {
    c.ranks > 0 && forall k: nat, i: nat | i < |c.owners(k)| :: c.owners(k)[i] < c.ranks
  }

  /** The rank that `dispatchMemcpy` remembers as that of the first copy: it keeps the last one
      where there is no copy. */
  function First(c: Config, k: nat): nat {
    if c.owners(k) != [] then c.owners(k)[0] else if k == 0 then 0 else First(c, k - 1)
  }

  /** The copies (hence the spin kernels) that rank `r` launches in round `k`: those it keeps. */
  function Copies(c: Config, k: nat, r: nat): nat {
    |Dispatch.Mine(c.owners(k), c.owners(k), r)|
  }

  /** The rank remembered is a rank, and launches a copy if any rank does. */
  lemma {:induction false} FirstOwns(c: Config, k: nat)
    requires ConfigOk(c)
    ensures First(c, k) < c.ranks
    ensures First(c, k) == if |c.owners(k)| > 0 then c.owners(k)[0] else if k > 0 then First(c, k - 1) else 0
    ensures forall r: nat :: Copies(c, k, r) > 0 ==> Copies(c, k, First(c, k)) > 0
  {
    if c.owners(k) != [] {
      Dispatch.MineFirst(c.owners(k), c.owners(k));
    } else if k > 0 {
      FirstOwns(c, k - 1);
    }
  }

  /** Where a rank stands in the sample loop. */
  datatype PC =
    | ResetHost | ResetDevice  // streamBlockerReset: first the host latch, then the shared one
    | EnterA | LeaveA          // synchronizeProcess
    | Enqueue                  // streamBlockerBlock, once for every copy
    | Release                  // streamBlockerRelease
    | Drain                    // streamSynchronizeWrapper on every stream
    | EnterB | LeaveB          // synchronizeProcess
    | Done

  /** A spin kernel: on the host latch, between its two stages, on the shared latch, ended. */
  datatype Spin = Waiting | Writing | Polling | Exited

  datatype Rank = Rank(round: nat, pc: PC, host: bool, spins: seq<Spin>)

  /** All ranks, and the latch on rank 0's device that they share. */
  datatype State = State(ranks: seq<Rank>, device: bool)

  /** A step of a rank's host code, or of one of the spin kernels it has launched. */
  datatype Action = Host(r: nat) | Kernel(r: nat, i: nat)

  function PCAt(c: Config, round: nat): PC {
    if round < c.rounds then ResetHost else Done
  }

  ghost predicate Init(c: Config, s: State) {
    && |s.ranks| == c.ranks
    && forall r | 0 <= r < c.ranks ::
         s.ranks[r].round == 0 && s.ranks[r].pc == PCAt(c, 0) && s.ranks[r].spins == []
  }

  /** How many barriers a rank has entered, and how many it has left. */
  function Entered(x: Rank): nat {
    2 * x.round + match x.pc
      case ResetHost => 0
      case ResetDevice => 0
      case EnterA => 0
      case LeaveB => 2
      case Done => 0
      case _ => 1
  }

  function Left(x: Rank): nat {
    2 * x.round + match x.pc
      case Enqueue => 1
      case Release => 1
      case Drain => 1
      case EnterB => 1
      case LeaveB => 1
      case _ => 0
  }

  predicate AllExited(spins: seq<Spin>) {
    forall i | 0 <= i < |spins| :: spins[i].Exited?
  }

  /** A rank may leave a barrier when every rank has entered it. */
  predicate BarrierOpen(s: State, x: Rank) {
    forall q | 0 <= q < |s.ranks| :: Entered(s.ranks[q]) >= Entered(x)
  }

  predicate HostEnabled(s: State, x: Rank) {
    match x.pc
    case LeaveA => BarrierOpen(s, x)
    case LeaveB => BarrierOpen(s, x)
    case Drain => AllExited(x.spins)
    case Done => false
    case _ => true
  }

  predicate KernelEnabled(s: State, x: Rank, i: nat) {
    i < |x.spins| && match x.spins[i]
      case Waiting => x.host
      case Writing => true
      case Polling => s.device
      case Exited => false
  }

  predicate Enabled(s: State, a: Action) {
    a.r < |s.ranks| && match a
      case Host(r) => HostEnabled(s, s.ranks[r])
      case Kernel(r, i) => KernelEnabled(s, s.ranks[r], i)
  }

  /** What one step of the host code makes of a rank. */
  function HostStep(c: Config, r: nat, x: Rank): Rank {
    match x.pc
    case ResetHost => x.(host := false, pc := ResetDevice)
    case ResetDevice => x.(pc := EnterA)
    case EnterA => x.(pc := LeaveA)
    case LeaveA => x.(pc := Enqueue)
    case Enqueue =>
      if |x.spins| < Copies(c, x.round, r) then
        x.(spins := x.spins + [if r == First(c, x.round) then Waiting else Polling])
      else x.(pc := Release)
    case Release => x.(host := true, pc := Drain)
    case Drain => x.(pc := EnterB)
    case EnterB => x.(pc := LeaveB)
    case LeaveB => Rank(x.round + 1, PCAt(c, x.round + 1), x.host, [])
    case Done => x
  }

  function NextSpin(p: Spin): Spin {
    match p
    case Waiting => Writing
    case Writing => Polling
    case _ => Exited
  }

  function Next(c: Config, s: State, a: Action): State
    requires Enabled(s, a)
  {
    var x := s.ranks[a.r];
    match a
    case Host(r) => State(s.ranks[r := HostStep(c, r, x)], if x.pc.ResetDevice? then false else s.device)
    case Kernel(r, i) =>
      State(s.ranks[r := x.(spins := x.spins[i := NextSpin(x.spins[i])])],
            if x.spins[i].Writing? then true else s.device)
  }

  // ---------- The invariant ----------

  /** Rank `x` has released round `k`. */
  predicate Released(x: Rank, k: nat) {
    x.round > k || (x.round == k && (x.pc.Drain? || x.pc.EnterB? || x.pc.LeaveB?))
  }

  /** The rank has reset the shared latch in its round. */
  predicate PastReset(x: Rank) {
    !x.pc.ResetHost? && !x.pc.ResetDevice? && !x.pc.Done?
  }

  /** The rank has entered the first barrier of its round and not yet the second. */
  predicate InSample(x: Rank) {
    x.pc.LeaveA? || x.pc.Enqueue? || x.pc.Release? || x.pc.Drain?
  }

  /** Some spin kernel of the rank has set the shared latch. */
  predicate HasWritten(x: Rank) {
    exists i | 0 <= i < |x.spins| :: x.spins[i].Polling? || x.spins[i].Exited?
  }

  /** What holds of every rank on its own. */
  ghost predicate RankInv(c: Config, r: nat, x: Rank) {
    && x.round <= c.rounds && (x.pc.Done? <==> x.round == c.rounds)
    && |x.spins| <= Copies(c, x.round, r)
    && (x.spins != [] ==> Left(x) == 2 * x.round + 1)
    && (x.pc.Release? || x.pc.Drain? || x.pc.EnterB? || x.pc.LeaveB? ==> |x.spins| == Copies(c, x.round, r))
    && (x.pc.EnterB? || x.pc.LeaveB? ==> AllExited(x.spins))
    && (x.host ==> !(x.pc.ResetDevice? || x.pc.EnterA? || x.pc.LeaveA? || x.pc.Enqueue? || x.pc.Release?))
    && (x.pc.Drain? || x.pc.EnterB? || x.pc.LeaveB? ==> x.host)
    && (r != First(c, x.round) ==> forall i | 0 <= i < |x.spins| :: x.spins[i].Polling? || x.spins[i].Exited?)
    && (r == First(c, x.round) && !Released(x, x.round) ==> forall i | 0 <= i < |x.spins| :: x.spins[i].Waiting?)
  }

  ghost predicate RanksInv(c: Config, s: State) {
    |s.ranks| == c.ranks && forall r | 0 <= r < c.ranks :: RankInv(c, r, s.ranks[r])
  }

  /** No rank has left a barrier that another has not entered. */
  ghost predicate InStep(s: State) {
    forall q, r | 0 <= q < |s.ranks| && 0 <= r < |s.ranks| :: Entered(s.ranks[q]) >= Left(s.ranks[r])
  }

  ghost predicate ReleasedBy(c: Config, s: State, k: nat) {
    First(c, k) < |s.ranks| && Released(s.ranks[First(c, k)], k)
  }

  /** If the latch is set, it has been released in the round of every rank past its reset. */
  ghost predicate SetMeansReleased(c: Config, s: State) {
    s.device ==> forall r | 0 <= r < |s.ranks| && PastReset(s.ranks[r]) :: ReleasedBy(c, s, s.ranks[r].round)
  }

  /** A spin kernel that has ended was released. */
  ghost predicate ExitedMeansReleased(c: Config, s: State) {
    forall r, i | 0 <= r < |s.ranks| && 0 <= i < |s.ranks[r].spins| && s.ranks[r].spins[i].Exited? ::
      ReleasedBy(c, s, s.ranks[r].round)
  }

  /** A spin kernel of the first copy's rank has set the latch in round `k`. */
  ghost predicate FirstHasWritten(c: Config, s: State, k: nat) {
    First(c, k) < |s.ranks| && s.ranks[First(c, k)].round == k && HasWritten(s.ranks[First(c, k)])
  }

  /** Once set in a round, the latch stays set while any rank is in the round's sample. */
  ghost predicate SetStays(c: Config, s: State) {
    forall r | 0 <= r < |s.ranks| && InSample(s.ranks[r]) && FirstHasWritten(c, s, s.ranks[r].round) :: s.device
  }

  ghost predicate Inv(c: Config, s: State) {
    RanksInv(c, s) && InStep(s) && SetMeansReleased(c, s) && ExitedMeansReleased(c, s) && SetStays(c, s)
  }

  lemma InitInv(c: Config, s: State)
    requires ConfigOk(c) && Init(c, s)
    ensures Inv(c, s)
  {
  }

  /** While a rank has a spin kernel running, every rank past its reset is in the same round. */
  lemma SameRound(c: Config, s: State, q: nat, r: nat)
    requires RanksInv(c, s) && InStep(s) && q < c.ranks && r < c.ranks
    requires !AllExited(s.ranks[r].spins) && PastReset(s.ranks[q])
    ensures s.ranks[q].round == s.ranks[r].round
  {
    assert Entered(s.ranks[q]) >= Left(s.ranks[r]);
    assert Entered(s.ranks[r]) >= Left(s.ranks[q]);
  }

  /** A rank that is about to reset finds no live spin kernel anywhere. */
  lemma NoneLiveAtReset(c: Config, s: State, q: nat, r: nat)
    requires RanksInv(c, s) && InStep(s) && q < c.ranks && r < c.ranks
    requires s.ranks[q].pc.ResetHost? || s.ranks[q].pc.ResetDevice?
    ensures AllExited(s.ranks[r].spins)
    ensures InSample(s.ranks[r]) ==> s.ranks[r].round < s.ranks[q].round || s.ranks[r].pc.LeaveA?
  {
    assert Entered(s.ranks[q]) >= Left(s.ranks[r]);
    assert Entered(s.ranks[r]) >= Left(s.ranks[q]);
  }

  // ---------- Every step keeps the invariant ----------

  lemma ReleasedStays(c: Config, r: nat, x: Rank, k: nat)
    requires Released(x, k)
    ensures Released(HostStep(c, r, x), k)
  {
  }

  lemma HostKeepsRanks(c: Config, s: State, r: nat)
    requires RanksInv(c, s) && Enabled(s, Host(r))
    ensures RanksInv(c, Next(c, s, Host(r)))
  {
    var x := s.ranks[r];
    assert RankInv(c, r, x);
    assert RankInv(c, r, HostStep(c, r, x));
  }

  lemma HostKeepsInStep(c: Config, s: State, r: nat)
    requires RanksInv(c, s) && InStep(s) && Enabled(s, Host(r))
    ensures InStep(Next(c, s, Host(r)))
  {
    var s', x := Next(c, s, Host(r)), s.ranks[r];
    var x' := HostStep(c, r, x);
    assert Entered(x') >= Entered(x);
    assert Left(x') <= Entered(x);
    forall p, q | 0 <= p < c.ranks && 0 <= q < c.ranks ensures Entered(s'.ranks[p]) >= Left(s'.ranks[q]) {
      assert Entered(s.ranks[p]) >= Left(s.ranks[q]);
      assert Left(x') != Left(x) ==> Entered(s.ranks[p]) >= Entered(x);
    }
  }

  lemma ReleasedByStays(c: Config, s: State, r: nat, k: nat)
    requires Enabled(s, Host(r)) && ReleasedBy(c, s, k)
    ensures ReleasedBy(c, Next(c, s, Host(r)), k)
  {
    ReleasedStays(c, r, s.ranks[First(c, k)], k);
  }

  lemma HostKeepsReleased(c: Config, s: State, r: nat)
    requires Inv(c, s) && Enabled(s, Host(r))
    ensures SetMeansReleased(c, Next(c, s, Host(r))) && ExitedMeansReleased(c, Next(c, s, Host(r)))
  {
    var s', x := Next(c, s, Host(r)), s.ranks[r];
    assert RankInv(c, r, x);
    forall q | s'.device && 0 <= q < c.ranks && PastReset(s'.ranks[q]) ensures ReleasedBy(c, s', s'.ranks[q].round) {
      assert PastReset(s.ranks[q]) && s'.ranks[q].round == s.ranks[q].round;
      ReleasedByStays(c, s, r, s.ranks[q].round);
    }
    forall q, i | 0 <= q < c.ranks && 0 <= i < |s'.ranks[q].spins| && s'.ranks[q].spins[i].Exited?
      ensures ReleasedBy(c, s', s'.ranks[q].round)
    {
      assert i < |s.ranks[q].spins| && s.ranks[q].spins[i].Exited? && s'.ranks[q].round == s.ranks[q].round;
      ReleasedByStays(c, s, r, s.ranks[q].round);
    }
  }

  lemma HostKeepsSet(c: Config, s: State, r: nat)
    requires Inv(c, s) && Enabled(s, Host(r))
    ensures SetStays(c, Next(c, s, Host(r)))
  {
    var s', x := Next(c, s, Host(r)), s.ranks[r];
    assert RankInv(c, r, x);
    forall q | 0 <= q < c.ranks && InSample(s'.ranks[q]) && FirstHasWritten(c, s', s'.ranks[q].round)
      ensures s'.device
    {
      var k := s'.ranks[q].round;
      var f := First(c, k);
      FirstWroteBefore(c, s, r, k);
      assert Entered(s.ranks[r]) >= Left(s.ranks[f]);
      assert Entered(s.ranks[q]) >= Left(s.ranks[r]);
      assert InSample(s.ranks[q]) && s.ranks[q].round == k;
    }
  }

  lemma FirstWroteBefore(c: Config, s: State, r: nat, k: nat)
    requires RanksInv(c, s) && Enabled(s, Host(r)) && FirstHasWritten(c, Next(c, s, Host(r)), k)
    ensures FirstHasWritten(c, s, k) && Left(s.ranks[First(c, k)]) == 2 * k + 1
  {
    var f := First(c, k);
    var y, y' := s.ranks[f], Next(c, s, Host(r)).ranks[f];
    assert RankInv(c, f, y);
    var i :| 0 <= i < |y'.spins| && (y'.spins[i].Polling? || y'.spins[i].Exited?);
    assert i < |y.spins| && y.spins[i] == y'.spins[i];
  }

  lemma HostKeepsInv(c: Config, s: State, r: nat)
    requires Inv(c, s) && Enabled(s, Host(r))
    ensures Inv(c, Next(c, s, Host(r)))
  {
    hide RanksInv, InStep, SetMeansReleased, ExitedMeansReleased, SetStays, Enabled, Next;
    HostKeepsRanks(c, s, r);
    HostKeepsInStep(c, s, r);
    HostKeepsReleased(c, s, r);
    HostKeepsSet(c, s, r);
  }

  lemma KernelKeepsRanks(c: Config, s: State, r: nat, i: nat)
    requires RanksInv(c, s) && Enabled(s, Kernel(r, i))
    ensures RanksInv(c, Next(c, s, Kernel(r, i)))
  {
    assert RankInv(c, r, s.ranks[r]);
    assert RankInv(c, r, Next(c, s, Kernel(r, i)).ranks[r]);
  }

  lemma KernelKeepsPlace(c: Config, s: State, r: nat, i: nat)
    requires RanksInv(c, s) && InStep(s) && Enabled(s, Kernel(r, i))
    ensures var s' := Next(c, s, Kernel(r, i));
            InStep(s') && |s'.ranks| == |s.ranks|
            && (forall q | 0 <= q < c.ranks :: s'.ranks[q].round == s.ranks[q].round && s'.ranks[q].pc == s.ranks[q].pc)
            && (forall k :: ReleasedBy(c, s', k) == ReleasedBy(c, s, k))
  {
    var s' := Next(c, s, Kernel(r, i));
    forall p, q | 0 <= p < c.ranks && 0 <= q < c.ranks ensures Entered(s'.ranks[p]) >= Left(s'.ranks[q]) {
      assert Entered(s.ranks[p]) >= Left(s.ranks[q]);
    }
  }

  lemma KernelKeepsSetMeansReleased(c: Config, s: State, r: nat, i: nat)
    requires Inv(c, s) && Enabled(s, Kernel(r, i))
    ensures SetMeansReleased(c, Next(c, s, Kernel(r, i)))
  {
    var s', x := Next(c, s, Kernel(r, i)), s.ranks[r];
    KernelKeepsPlace(c, s, r, i);
    assert RankInv(c, r, x);
    forall q | s'.device && 0 <= q < c.ranks && PastReset(s'.ranks[q]) ensures ReleasedBy(c, s', s'.ranks[q].round) {
      if x.spins[i].Writing? {
        SameRound(c, s, q, r);
        assert ReleasedBy(c, s, x.round);
      }
    }
  }

  lemma KernelKeepsExitedMeansReleased(c: Config, s: State, r: nat, i: nat)
    requires Inv(c, s) && Enabled(s, Kernel(r, i))
    ensures ExitedMeansReleased(c, Next(c, s, Kernel(r, i)))
  {
    var s', x := Next(c, s, Kernel(r, i)), s.ranks[r];
    KernelKeepsPlace(c, s, r, i);
    assert RankInv(c, r, x);
    forall q, j | 0 <= q < c.ranks && 0 <= j < |s'.ranks[q].spins| && s'.ranks[q].spins[j].Exited?
      ensures ReleasedBy(c, s', s'.ranks[q].round)
    {
      if q != r || j != i {
        assert s.ranks[q].spins[j].Exited?;
      } else {
        assert x.spins[i].Polling? && PastReset(x);
      }
    }
  }

  lemma KernelKeepsSet(c: Config, s: State, r: nat, i: nat)
    requires Inv(c, s) && Enabled(s, Kernel(r, i))
    ensures SetStays(c, Next(c, s, Kernel(r, i)))
  {
    var s', x := Next(c, s, Kernel(r, i)), s.ranks[r];
    KernelKeepsPlace(c, s, r, i);
    forall q | 0 <= q < c.ranks && InSample(s'.ranks[q]) && FirstHasWritten(c, s', s'.ranks[q].round)
      ensures s'.device
    {
      var f := First(c, s.ranks[q].round);
      var j :| 0 <= j < |s'.ranks[f].spins| && (s'.ranks[f].spins[j].Polling? || s'.ranks[f].spins[j].Exited?);
      if !x.spins[i].Writing? {
        assert s.ranks[f].spins[j].Polling? || s.ranks[f].spins[j].Exited?;
      }
    }
  }

  lemma KernelKeepsInv(c: Config, s: State, r: nat, i: nat)
    requires Inv(c, s) && Enabled(s, Kernel(r, i))
    ensures Inv(c, Next(c, s, Kernel(r, i)))
  {
    hide SetMeansReleased, ExitedMeansReleased, SetStays, InStep, RanksInv, Next, Enabled;
    KernelKeepsRanks(c, s, r, i);
    KernelKeepsPlace(c, s, r, i);
    KernelKeepsSetMeansReleased(c, s, r, i);
    KernelKeepsExitedMeansReleased(c, s, r, i);
    KernelKeepsSet(c, s, r, i);
  }

  // ---------- Whole runs ----------

  /** Every action of the sequence is enabled when its turn comes. */
  ghost predicate Feasible(c: Config, s: State, run: seq<Action>)
    decreases |run|
  {
    run == [] || (Enabled(s, run[0]) && Feasible(c, Next(c, s, run[0]), run[1..]))
  }

  ghost function After(c: Config, s: State, run: seq<Action>): State
    requires Feasible(c, s, run)
    decreases |run|
  {
    if run == [] then s else After(c, Next(c, s, run[0]), run[1..])
  }

  lemma {:induction false} RunKeepsInv(c: Config, s: State, run: seq<Action>)
    requires Inv(c, s) && Feasible(c, s, run)
    ensures Inv(c, After(c, s, run))
    decreases |run|
  {
    if run == [] {
    } else {
      match run[0] {
        case Host(r) => HostKeepsInv(c, s, r);
        case Kernel(r, i) => KernelKeepsInv(c, s, r, i);
      }
      RunKeepsInv(c, Next(c, s, run[0]), run[1..]);
    }
  }

  /** A rank launches a spin kernel for every copy of the round that it owns. */
  lemma CopiesAre(c: Config, k: nat, r: nat)
    ensures Copies(c, k, r) == multiset(c.owners(k))[r]
  {
    Dispatch.MineCount(c.owners(k), c.owners(k), r);
    SameCount(c.owners(k), c.owners(k), r);
  }

  lemma {:induction false} SameCount(a: seq<nat>, b: seq<int>, r: nat)
    requires |a| == |b| && forall i | 0 <= i < |a| :: a[i] == b[i]
    ensures multiset(a)[r] == multiset(b)[r]
    decreases |a|
  {
    if a == [] {
    } else {
      var n := |a| - 1;
      SameCount(a[..n], b[..n], r);
      assert a == a[..n] + [a[n]] && b == b[..n] + [b[n]];
    }
  }

  /** Safety over every run of every number of ranks, rounds and copies.  When a spin kernel
      has ended, the first copy's rank has released its round.  When a rank is about to reset
      a latch, no spin kernel of any rank is live.  After a release the host latch stays set
      until the rank has left the round, and once a spin kernel has set the shared latch it
      stays set while any rank has a live spin kernel of that round: no release is lost.
      When a rank releases, it holds back every copy of the round that it owns: it has launched
      one spin kernel for each, and of the first copy's rank none has moved. */
  lemma LatchSafety(c: Config, s0: State, run: seq<Action>)
    requires ConfigOk(c) && Init(c, s0) && Feasible(c, s0, run)
    ensures var s := After(c, s0, run);
            |s.ranks| == c.ranks
            && (forall r, i | 0 <= r < c.ranks && 0 <= i < |s.ranks[r].spins| && s.ranks[r].spins[i].Exited? ::
                  ReleasedBy(c, s, s.ranks[r].round))
            && (forall q, r | 0 <= q < c.ranks && 0 <= r < c.ranks
                              && (s.ranks[q].pc.ResetHost? || s.ranks[q].pc.ResetDevice?) ::
                  AllExited(s.ranks[r].spins))
            && (forall r | 0 <= r < c.ranks && Released(s.ranks[r], s.ranks[r].round) && !s.ranks[r].pc.Done? ::
                  s.ranks[r].host)
            && (forall r | 0 <= r < c.ranks && !AllExited(s.ranks[r].spins)
                && FirstHasWritten(c, s, s.ranks[r].round) ::
                  s.device)
            && (forall r | 0 <= r < c.ranks && (s.ranks[r].pc.Release? || s.ranks[r].pc.Drain?) ::
                  |s.ranks[r].spins| == multiset(c.owners(s.ranks[r].round))[r])
            && (forall r, i | 0 <= r < c.ranks && s.ranks[r].pc.Release? && First(c, s.ranks[r].round) == r
                              && 0 <= i < |s.ranks[r].spins| ::
                  s.ranks[r].spins[i].Waiting?)
  {
    hide Feasible, After, Next, Enabled, First, Copies;
    InitInv(c, s0);
    RunKeepsInv(c, s0, run);
    var s := After(c, s0, run);
    forall q, r | 0 <= q < c.ranks && 0 <= r < c.ranks && (s.ranks[q].pc.ResetHost? || s.ranks[q].pc.ResetDevice?)
      ensures AllExited(s.ranks[r].spins)
    {
      NoneLiveAtReset(c, s, q, r);
    }
    forall r | 0 <= r < c.ranks
      ensures !AllExited(s.ranks[r].spins) ==> InSample(s.ranks[r])
      ensures s.ranks[r].pc.Release? || s.ranks[r].pc.Drain? ==>
                |s.ranks[r].spins| == multiset(c.owners(s.ranks[r].round))[r]
      ensures s.ranks[r].pc.Release? && First(c, s.ranks[r].round) == r ==>
                forall i | 0 <= i < |s.ranks[r].spins| :: s.ranks[r].spins[i].Waiting?
    {
      assert RankInv(c, r, s.ranks[r]);
      CopiesAre(c, s.ranks[r].round, r);
    }
  }

  // ---------- Progress ----------

  ghost predicate AllDone(s: State) {
    forall r | 0 <= r < |s.ranks| :: s.ranks[r].pc.Done?
  }

  /** A rank that no other rank is behind. */
  lemma {:induction false} Slowest(s: State, n: nat) returns (m: nat)
    requires 0 < n <= |s.ranks|
    ensures m < n && forall r | 0 <= r < n :: Entered(s.ranks[m]) <= Entered(s.ranks[r])
  {
    if n == 1 {
      m := 0;
    } else {
      m := Slowest(s, n - 1);
      if Entered(s.ranks[n - 1]) < Entered(s.ranks[m]) { m := n - 1; }
    }
  }

  /** A spin kernel of a rank that is draining can move, unless it polls a latch not yet set. */
  lemma DrainingMoves(c: Config, s: State, r: nat) returns (i: nat)
    requires Inv(c, s) && r < c.ranks && s.ranks[r].pc.Drain? && !AllExited(s.ranks[r].spins)
    ensures i < |s.ranks[r].spins| && !s.ranks[r].spins[i].Exited?
    ensures Enabled(s, Kernel(r, i)) || (s.ranks[r].spins[i].Polling? && !s.device)
  {
    assert RankInv(c, r, s.ranks[r]);
    i :| 0 <= i < |s.ranks[r].spins| && !s.ranks[r].spins[i].Exited?;
  }

  /** There is no deadlock: until every rank is done, some step is possible. */
  lemma Progress(c: Config, s: State) returns (a: Action)
    requires ConfigOk(c) && Inv(c, s) && !AllDone(s)
    ensures Enabled(s, a)
  {
    var m := Slowest(s, c.ranks);
    var x := s.ranks[m];
    assert RankInv(c, m, x);
    if HostEnabled(s, x) {
      return Host(m);
    }
    if x.pc.Done? {
      var r :| 0 <= r < c.ranks && !s.ranks[r].pc.Done?;
      assert RankInv(c, r, s.ranks[r]);
      return Host(r);  // it waits at the last barrier, which every rank has entered
    } else {
      var i := DrainingMoves(c, s, m);
      if Enabled(s, Kernel(m, i)) {
        return Kernel(m, i);
      }
      a := FirstMoves(c, s, m, i);
    }
  }

  lemma ExitedAfterWriting(y: Rank)
    requires |y.spins| > 0
    ensures AllExited(y.spins) ==> HasWritten(y)
  {
    if AllExited(y.spins) { assert y.spins[0].Exited?; }
  }

  /** If the slowest rank waits for the shared latch, the first copy's rank can move. */
  lemma FirstMoves(c: Config, s: State, m: nat, i: nat) returns (a: Action)
    requires ConfigOk(c) && Inv(c, s) && m < c.ranks && s.ranks[m].pc.Drain? && i < |s.ranks[m].spins|
    requires s.ranks[m].spins[i].Polling? && !s.device
    requires forall r | 0 <= r < c.ranks :: Entered(s.ranks[m]) <= Entered(s.ranks[r])
    ensures Enabled(s, a)
  {
    var x := s.ranks[m];
    var k := x.round;
    assert RankInv(c, m, x);
    FirstOwns(c, k);
    var f := First(c, k);
    var y := s.ranks[f];
    assert RankInv(c, f, y);
    assert Entered(x) >= Left(y);
    assert y.round == k && !FirstHasWritten(c, s, k);
    assert Copies(c, k, m) > 0;
    if y.pc.Drain? || y.pc.LeaveB? {
      ExitedAfterWriting(y);
      var j := DrainingMoves(c, s, f);
      return Kernel(f, j);
    }
    return Host(f);
  }

  // ---------- Every run ends ----------

  function SpinWork(p: Spin): nat {
    match p
    case Waiting => 3
    case Writing => 2
    case Polling => 1
    case Exited => 0
  }

  function SpinsWork(spins: seq<Spin>): nat {
    if spins == [] then 0 else SpinWork(spins[|spins| - 1]) + SpinsWork(spins[..|spins| - 1])
  }

  function PCWork(pc: PC): nat {
    match pc
    case ResetHost => 9
    case ResetDevice => 8
    case EnterA => 7
    case LeaveA => 6
    case Enqueue => 5
    case Release => 4
    case Drain => 3
    case EnterB => 2
    case LeaveB => 1
    case Done => 0
  }

  /** The steps a rank and its spin kernels can take from the start of round `k`. */
  function RoundsWork(c: Config, r: nat, k: nat): nat
    decreases c.rounds - k
  {
    if k >= c.rounds then 0 else 9 + 4 * Copies(c, k, r) + RoundsWork(c, r, k + 1)
  }

  /** The steps a rank and its spin kernels can still take. */
  function RankWork(c: Config, r: nat, x: Rank): nat
    requires |x.spins| <= Copies(c, x.round, r)
  {
    if x.pc.Done? then 0
    else PCWork(x.pc) + 4 * (Copies(c, x.round, r) - |x.spins|) + SpinsWork(x.spins) + RoundsWork(c, r, x.round + 1)
  }

  function Work(c: Config, ranks: seq<Rank>): nat
    requires forall r | 0 <= r < |ranks| :: |ranks[r].spins| <= Copies(c, ranks[r].round, r)
  {
    if ranks == [] then 0 else RankWork(c, |ranks| - 1, ranks[|ranks| - 1]) + Work(c, ranks[..|ranks| - 1])
  }

  lemma {:induction false} SpinsWorkUpdate(spins: seq<Spin>, i: nat, p: Spin)
    requires i < |spins|
    ensures SpinsWork(spins[i := p]) + SpinWork(spins[i]) == SpinsWork(spins) + SpinWork(p)
    decreases |spins|
  {
    var n := |spins| - 1;
    if i < n {
      assert spins[i := p][..n] == spins[..n][i := p];
      SpinsWorkUpdate(spins[..n], i, p);
    } else {
      assert spins[i := p][..n] == spins[..n];
    }
  }

  lemma {:induction false} NoSpinsWork(spins: seq<Spin>)
    requires AllExited(spins)
    ensures SpinsWork(spins) == 0
    decreases |spins|
  {
    if spins == [] {
    } else {
      NoSpinsWork(spins[..|spins| - 1]);
    }
  }

  lemma {:induction false} WorkUpdate(c: Config, ranks: seq<Rank>, r: nat, x: Rank)
    requires r < |ranks| && forall q | 0 <= q < |ranks| :: |ranks[q].spins| <= Copies(c, ranks[q].round, q)
    requires |x.spins| <= Copies(c, x.round, r)
    ensures Work(c, ranks[r := x]) + RankWork(c, r, ranks[r]) == Work(c, ranks) + RankWork(c, r, x)
    decreases |ranks|
  {
    var n := |ranks| - 1;
    if r < n {
      assert ranks[r := x][..n] == ranks[..n][r := x];
      WorkUpdate(c, ranks[..n], r, x);
    } else {
      assert ranks[r := x][..n] == ranks[..n];
    }
  }

  lemma RoundsWorkAt(c: Config, r: nat, k: nat)
    ensures RoundsWork(c, r, k) == if k >= c.rounds then 0 else 9 + 4 * Copies(c, k, r) + RoundsWork(c, r, k + 1)
  {
  }

  /** Leaving the last barrier of a round. */
  lemma LeavingWorks(c: Config, r: nat, x: Rank)
    requires x.pc.LeaveB? && RankInv(c, r, x)
    ensures |x.spins| <= Copies(c, x.round, r) && |HostStep(c, r, x).spins| <= Copies(c, x.round + 1, r)
    ensures RankWork(c, r, HostStep(c, r, x)) < RankWork(c, r, x)
  {
    hide First, Copies, RoundsWork, AllExited;
    NoSpinsWork(x.spins);
    RoundsWorkAt(c, r, x.round + 1);
  }

  /** Launching one more spin kernel. */
  lemma LaunchingWorks(c: Config, r: nat, x: Rank)
    requires x.pc.Enqueue? && |x.spins| < Copies(c, x.round, r)
    ensures |HostStep(c, r, x).spins| <= Copies(c, x.round, r)
    ensures RankWork(c, r, HostStep(c, r, x)) < RankWork(c, r, x)
  {
    hide First, Copies, RoundsWork;
    var p := if r == First(c, x.round) then Waiting else Polling;
    assert (x.spins + [p])[..|x.spins|] == x.spins;
  }

  lemma HostStepWorks(c: Config, s: State, r: nat)
    requires RanksInv(c, s) && Enabled(s, Host(r)) && RankInv(c, r, HostStep(c, r, s.ranks[r]))
    ensures RankWork(c, r, HostStep(c, r, s.ranks[r])) < RankWork(c, r, s.ranks[r])
  {
    hide First, Copies, RoundsWork, AllExited, SpinsWork;
    var x := s.ranks[r];
    assert RankInv(c, r, x);
    if x.pc.LeaveB? {
      LeavingWorks(c, r, x);
    } else if x.pc.Enqueue? && |x.spins| < Copies(c, x.round, r) {
      LaunchingWorks(c, r, x);
    }
  }

  lemma RanksWithinCopies(c: Config, s: State)
    requires RanksInv(c, s)
    ensures forall r | 0 <= r < |s.ranks| :: |s.ranks[r].spins| <= Copies(c, s.ranks[r].round, r)
  {
    forall r | 0 <= r < |s.ranks| ensures |s.ranks[r].spins| <= Copies(c, s.ranks[r].round, r) {
      assert RankInv(c, r, s.ranks[r]);
    }
  }

  lemma StepWorks(c: Config, s: State, a: Action)
    requires Inv(c, s) && Enabled(s, a)
    ensures (forall r | 0 <= r < |s.ranks| :: |s.ranks[r].spins| <= Copies(c, s.ranks[r].round, r))
    ensures (forall r | 0 <= r < |s.ranks| ::
               |Next(c, s, a).ranks[r].spins| <= Copies(c, Next(c, s, a).ranks[r].round, r))
    ensures Work(c, Next(c, s, a).ranks) < Work(c, s.ranks)
  {
    hide RankWork, Work;
    RanksWithinCopies(c, s);
    match a {
      case Host(r) =>
        HostKeepsRanks(c, s, r);
        RanksWithinCopies(c, Next(c, s, a));
        assert RankInv(c, r, Next(c, s, a).ranks[r]);
        HostStepWorks(c, s, r);
        WorkUpdate(c, s.ranks, r, HostStep(c, r, s.ranks[r]));
      case Kernel(r, i) =>
        KernelKeepsRanks(c, s, r, i);
        RanksWithinCopies(c, Next(c, s, a));
        KernelStepWorks(c, s, r, i);
        WorkUpdate(c, s.ranks, r, Next(c, s, a).ranks[r]);
    }
  }

  lemma KernelStepWorks(c: Config, s: State, r: nat, i: nat)
    requires RanksInv(c, s) && Enabled(s, Kernel(r, i)) && RanksInv(c, Next(c, s, Kernel(r, i)))
    ensures |s.ranks[r].spins| <= Copies(c, s.ranks[r].round, r)
    ensures |Next(c, s, Kernel(r, i)).ranks[r].spins| <= Copies(c, s.ranks[r].round, r)
    ensures RankWork(c, r, Next(c, s, Kernel(r, i)).ranks[r]) < RankWork(c, r, s.ranks[r])
  {
    var x := s.ranks[r];
    assert RankInv(c, r, x);
    SpinsWorkUpdate(x.spins, i, NextSpin(x.spins[i]));
  }

  /** No run is longer than the steps there are, so together with Progress every run that
      goes on as long as it can ends with every rank done. */
  lemma {:induction false} RunIsBounded(c: Config, s: State, run: seq<Action>)
    requires Inv(c, s) && Feasible(c, s, run)
    requires forall r | 0 <= r < |s.ranks| :: |s.ranks[r].spins| <= Copies(c, s.ranks[r].round, r)
    ensures |run| <= Work(c, s.ranks)
    decreases |run|
  {
    hide Work, Enabled, Next;
    if run == [] {
    } else {
      StepWorks(c, s, run[0]);
      match run[0] {
        case Host(r) => HostKeepsInv(c, s, r);
        case Kernel(r, i) => KernelKeepsInv(c, s, r, i);
      }
      RunIsBounded(c, Next(c, s, run[0]), run[1..]);
    }
  }

  /** A run that cannot be extended ends with every rank done. */
  lemma MaximalRunCompletes(c: Config, s0: State, run: seq<Action>)
    requires ConfigOk(c) && Init(c, s0) && Feasible(c, s0, run)
    requires forall a: Action :: !Enabled(After(c, s0, run), a)
    ensures AllDone(After(c, s0, run))
  {
    InitInv(c, s0);
    RunKeepsInv(c, s0, run);
    if !AllDone(After(c, s0, run)) {
      var a := Progress(c, After(c, s0, run));
    }
  }
}
