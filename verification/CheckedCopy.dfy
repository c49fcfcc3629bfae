/** The copy kernel and the data check together, for every element width: both buffers are
    filled, the threads copy in any interleaving, and the destination is compared with the
    source's pattern word for word. */
module CheckedCopy {
  import opened Arith
  import opened Pattern
  import opened StridedCopy

  /** An element of the copy: `k` words, which a thread loads and stores at once. */
  type Element = seq<bv32>

  /** The words of an element width. */
  function WordsPer(width: nat): (k: nat)
    requires SupportedWidth(width)
    ensures k > 0 && k * 4 == width
  {
    width / 4
  }

  /** Element `i` of a filled buffer. */
  function FilledElement(seed: bv32, k: nat, i: nat): (e: Element)
    ensures |e| == k
  {
    seq(k, j requires 0 <= j < k => Filled(seed, i * k + j))
  }

  ghost predicate Uniform(buffer: seq<Element>, k: nat) {
    forall i: nat | i < |buffer| :: |buffer[i]| == k
  }

  /** The elements from `from` to before `to` hold the pattern of `seed`.  `memsetPattern` fills
      the announced size of a buffer and no more, so nothing is known of what lies beyond. */
  ghost predicate Filling(buffer: seq<Element>, seed: bv32, k: nat, from: nat, to: nat) {
    && Uniform(buffer, k) && to <= |buffer|
    && (forall i: nat | from <= i < to :: buffer[i] == FilledElement(seed, k, i))
  }

  /** The buffer as `memcmpKernel` sees it. */
  ghost function Words(buffer: seq<Element>, k: nat): (r: seq<bv32>)
    requires k > 0 && Uniform(buffer, k)
    ensures |r| == |buffer| * k
  {
    if buffer == [] then [] else Words(buffer[..|buffer| - 1], k) + buffer[|buffer| - 1]
  }

  lemma {:induction false} WordAt(buffer: seq<Element>, k: nat, m: nat)
    requires k > 0 && Uniform(buffer, k) && m < |buffer| * k
    ensures m / k < |buffer| && m % k < k && Words(buffer, k)[m] == buffer[m / k][m % k]
  {
    var n := |buffer| - 1;
    DivBelow(k, m, |buffer|);
    DivModOf(k, m);
    if m < n * k {
      WordAt(buffer[..n], k, m);
    } else {
      DivModUnique(k, m, n, m - n * k);
    }
  }

  /** Element `i` has been stored by the thread it belongs to. */
  predicate Copied(c: Launch<Element>, s: State<Element>, i: nat)
    requires |s.threads| == c.threads > 0
  {
    i < c.threads * c.chunk && Stored(s.threads[i % c.threads], i / c.threads)
  }

  lemma SeedsDiffer(i: nat)
    ensures Filled(SOURCE_SEED, i) != Filled(TARGET_SEED, i)
  {
    PatternsDiffer(SOURCE_SEED, TARGET_SEED, i % PATTERN_WORDS);
  }

  lemma CopiedElement(c: Launch<Element>, dst0: seq<Element>, s: State<Element>, k: nat, n: nat, i: nat)
    requires Inv(c, dst0, s) && i < n
    requires Filling(c.src, SOURCE_SEED, k, 0, n) && Filling(dst0, TARGET_SEED, k, 0, n)
    ensures |s.dst| == |dst0| && |s.threads| == c.threads > 0
    ensures s.dst[i] == FilledElement(if Copied(c, s, i) then SOURCE_SEED else TARGET_SEED, k, i)
  {
    hide Inv, FilledElement, Uniform;
    InvLengths(c, dst0, s);
    ElementAfter(c, dst0, s, i);
  }

  lemma InvLengths(c: Launch<Element>, dst0: seq<Element>, s: State<Element>)
    requires Inv(c, dst0, s)
    ensures |s.dst| == |dst0| && |s.threads| == c.threads > 0
  {
    hide ThreadInv;
  }

  lemma StaysUniform(c: Launch<Element>, dst0: seq<Element>, s: State<Element>, k: nat)
    requires Inv(c, dst0, s) && Uniform(c.src, k) && Uniform(dst0, k)
    ensures Uniform(s.dst, k) && |s.dst| == |dst0| && |s.threads| == c.threads > 0
  {
    hide Inv;
    InvLengths(c, dst0, s);
    forall i: nat | i < |s.dst| ensures |s.dst[i]| == k { ElementAfter(c, dst0, s, i); }
  }

  /** At every moment of every run the check of any part of the filled prefix finds wrong exactly
      the words of the elements that no thread has stored yet. */
  lemma CheckFindsTheRest(c: Launch<Element>, dst0: seq<Element>, s: State<Element>, k: nat, n: nat, size: nat, m: nat)
    requires Inv(c, dst0, s) && k > 0 && m < size <= n * k
    requires Filling(c.src, SOURCE_SEED, k, 0, n) && Filling(dst0, TARGET_SEED, k, 0, n)
    ensures Uniform(s.dst, k) && |s.dst| == |dst0| && |s.threads| == c.threads > 0 && size <= |Words(s.dst, k)|
    ensures Mismatch(Words(s.dst, k), size, SOURCE_SEED, m) <==> !Copied(c, s, m / k)
  {
    hide Inv, Filled, Copied, Words, Uniform;
    StaysUniform(c, dst0, s, k);
    MulMono(n, |dst0|, k);
    ElementBelow(m, n, k);
    CopiedElement(c, dst0, s, k, n, m / k);
    MismatchOf(s.dst, k, size, m, Copied(c, s, m / k));
  }

  /** A word of an element that holds one of the two patterns is wrong if it is the old one. */
  lemma MismatchOf(buffer: seq<Element>, k: nat, size: nat, m: nat, copied: bool)
    requires k > 0 && Uniform(buffer, k) && m < size <= |buffer| * k
    requires m / k < |buffer| && buffer[m / k] == FilledElement(if copied then SOURCE_SEED else TARGET_SEED, k, m / k)
    ensures |Words(buffer, k)| == |buffer| * k
    ensures Mismatch(Words(buffer, k), size, SOURCE_SEED, m) <==> !copied
  {
    hide Filled, Words, Uniform;
    WordAt(buffer, k, m);
    DivModOf(k, m);
    SeedsDiffer(m);
  }

  /** The launch for a buffer of `size` bytes, copied `loops` times. */
  function LaunchFor(size: nat, width: nat, numSm: nat, loops: nat, src: seq<Element>): Launch<Element>
    requires SupportedWidth(width) && numSm > 0
  {
    var l := LaunchCopy(size, width, numSm);
    Launch(l.threads, l.chunk, loops, src)
  }

  lemma LaunchHasThreads(size: nat, width: nat, numSm: nat)
    requires SupportedWidth(width) && numSm > 0 && size >= width
    ensures LaunchCopy(size, width, numSm).threads > 0
  {
    DivModOf(width, size);
  }

  /** The launch stays inside the buffers. */
  lemma LaunchFits(size: nat, width: nat, numSm: nat, loops: nat, src: seq<Element>, dst0: seq<Element>)
    requires SupportedWidth(width) && numSm > 0 && size >= width && |src| == |dst0| == size / width
    ensures LaunchOk(LaunchFor(size, width, numSm, loops, src), dst0)
  {
    hide AdjustedCopySize, LaunchCopy;
    var l := LaunchCopy(size, width, numSm);
    LaunchMatchesAdjustedSize(size, width, numSm);
    LaunchHasThreads(size, width, numSm);
    FitsIn(l.threads * l.chunk, size, width);
  }

  lemma FitsIn(elements: nat, size: nat, width: nat)
    requires width > 0 && elements * width <= size
    ensures elements <= size / width
  {
    DivModOf(width, size);
    if elements > size / width { MulMono(size / width + 1, elements, width); }
  }

  /** The state that a schedule leaves behind. */
  ghost function Final(size: nat, width: nat, numSm: nat, loops: nat, src: seq<Element>, dst0: seq<Element>,
                       schedule: seq<nat>)
      : (s: State<Element>)
    requires SupportedWidth(width) && numSm > 0 && size >= width && |src| == |dst0| == size / width
    ensures Inv(LaunchFor(size, width, numSm, loops, src), dst0, s)
  {
    LaunchFits(size, width, numSm, loops, src, dst0);
    var c := LaunchFor(size, width, numSm, loops, src);
    StartInv(c, dst0);
    Run(c, dst0, Start(c, dst0), schedule)
  }

  /** The words of the announced size. */
  function CheckedWords(size: nat, width: nat, numSm: nat): nat
    requires SupportedWidth(width) && numSm > 0
  {
    AdjustedCopySize(size, width, numSm) / 4
  }

  /** The elements that the launched threads copy. */
  function CopiedCount(size: nat, width: nat, numSm: nat): nat
    requires SupportedWidth(width) && numSm > 0
  {
    LaunchCopy(size, width, numSm).threads * LaunchCopy(size, width, numSm).chunk
  }

  /** What `memsetPattern` makes of the two buffers, and any copies before the one that counts
      leave of it: the announced elements of the source hold its pattern, and those elements of
      the destination that no thread copies hold theirs. */
  ghost predicate Prepared(size: nat, width: nat, numSm: nat, src: seq<Element>, dst0: seq<Element>)
    requires SupportedWidth(width) && numSm > 0
  {
    var k, announced := WordsPer(width), AnnouncedCount(size, width, numSm);
    && |src| == |dst0| == size / width
    && Filling(src, SOURCE_SEED, k, 0, announced)
    && Filling(dst0, TARGET_SEED, k, CopiedCount(size, width, numSm), announced)
  }

  /** Filling the announced bytes of both buffers prepares them. */
  lemma FillPrepares(size: nat, width: nat, numSm: nat, src: seq<Element>, dst0: seq<Element>)
    requires SupportedWidth(width) && numSm > 0 && |src| == |dst0| == size / width
    requires Filling(src, SOURCE_SEED, WordsPer(width), 0, AnnouncedCount(size, width, numSm))
    requires Filling(dst0, TARGET_SEED, WordsPer(width), 0, AnnouncedCount(size, width, numSm))
    ensures Prepared(size, width, numSm, src, dst0)
  {
    hide AnnouncedCount, LaunchCopy, FilledElement, Uniform;
  }

  /** A warm-up copy leaves the buffers prepared, whatever its schedule. */
  lemma WarmUpKeepsPrepared(size: nat, width: nat, numSm: nat, loops: nat, src: seq<Element>, dst0: seq<Element>,
                            schedule: seq<nat>)
    requires SupportedWidth(width) && numSm > 0 && size >= width && Prepared(size, width, numSm, src, dst0)
    ensures Prepared(size, width, numSm, src, Final(size, width, numSm, loops, src, dst0, schedule).dst)
  {
    hide Inv, AnnouncedCount, LaunchCopy, FilledElement, Final, Uniform;
    var c, s := LaunchFor(size, width, numSm, loops, src), Final(size, width, numSm, loops, src, dst0, schedule);
    StaysUniform(c, dst0, s, WordsPer(width));
    forall i: nat | CopiedCount(size, width, numSm) <= i < |dst0| ensures s.dst[i] == dst0[i] {
      ElementAfter(c, dst0, s, i);
    }
  }

  /** After a fair schedule the announced elements hold the source's pattern as far as they are
      copied, and the destination's from there on. */
  lemma FinalElement(size: nat, width: nat, numSm: nat, loops: nat, src: seq<Element>, dst0: seq<Element>,
                     schedule: seq<nat>, i: nat)
    requires SupportedWidth(width) && numSm > 0 && loops > 0 && size >= width && Prepared(size, width, numSm, src, dst0)
    requires Fair(LaunchFor(size, width, numSm, loops, src), schedule) && i < AnnouncedCount(size, width, numSm)
    ensures var s := Final(size, width, numSm, loops, src, dst0, schedule);
            var seed := if i < CopiedCount(size, width, numSm) then SOURCE_SEED else TARGET_SEED;
            i < |s.dst| && s.dst[i] == FilledElement(seed, WordsPer(width), i)
  {
    hide Inv, Start, Fair, LaunchOk, AnnouncedCount, LaunchCopy, FilledElement, Uniform, Ended;
    var c := LaunchFor(size, width, numSm, loops, src);
    LaunchFits(size, width, numSm, loops, src, dst0);
    var s := Final(size, width, numSm, loops, src, dst0, schedule);
    FairEnds(c, dst0, schedule);
    InvLengths(c, dst0, s);
    ElementAfter(c, dst0, s, i);
  }

  /** After a real launch under any fair schedule the check of the announced size finds wrong
      exactly the words of the elements beyond the launched threads. */
  lemma MismatchesOfLaunch(size: nat, width: nat, numSm: nat, loops: nat, src: seq<Element>, dst0: seq<Element>,
                           schedule: seq<nat>, m: nat)
    requires SupportedWidth(width) && numSm > 0 && loops > 0 && size >= width && Prepared(size, width, numSm, src, dst0)
    requires Fair(LaunchFor(size, width, numSm, loops, src), schedule)
    requires m < CheckedWords(size, width, numSm)
    ensures var s := Final(size, width, numSm, loops, src, dst0, schedule);
            Uniform(s.dst, WordsPer(width)) && CheckedWords(size, width, numSm) <= |Words(s.dst, WordsPer(width))|
            && (Mismatch(Words(s.dst, WordsPer(width)), CheckedWords(size, width, numSm), SOURCE_SEED, m)
                <==> CopiedCount(size, width, numSm) * WordsPer(width) <= m)
  {
    hide Fair, Uniform, Words, Mismatch, CheckedWords, CopiedCount, AnnouncedCount, FilledElement, Final, LaunchFor;
    var k := WordsPer(width);
    var s := Final(size, width, numSm, loops, src, dst0, schedule);
    AnnouncedFits(size, width, numSm);
    FinalUniform(size, width, numSm, loops, src, dst0, schedule);
    ElementBelow(m, AnnouncedCount(size, width, numSm), k);
    FinalElement(size, width, numSm, loops, src, dst0, schedule, m / k);
    MismatchOf(s.dst, k, CheckedWords(size, width, numSm), m, m / k < CopiedCount(size, width, numSm));
    ElementBelow(m, CopiedCount(size, width, numSm), k);
  }

  lemma ElementBelow(m: nat, bound: nat, k: nat)
    requires k > 0
    ensures m / k < bound <==> m < bound * k
  {
    DivModOf(k, m);
    if m < bound * k { DivBelow(k, m, bound); }
    if m / k < bound { MulMono(m / k + 1, bound, k); }
  }

  lemma AnnouncedFits(size: nat, width: nat, numSm: nat)
    requires SupportedWidth(width) && numSm > 0
    ensures CheckedWords(size, width, numSm) == AnnouncedCount(size, width, numSm) * WordsPer(width)
    ensures CheckedWords(size, width, numSm) <= size / width * WordsPer(width)
    ensures CheckedWords(size, width, numSm) * 4 == AdjustedCopySize(size, width, numSm)
  {
    hide AdjustedCopySize, LaunchCopy, AnnouncedCount;
    var k := WordsPer(width);
    AnnouncedElements(size, width, numSm);
    var e := AnnouncedCount(size, width, numSm);
    assert e * (k * 4) == (e * k) * 4;
    MulMono(e, size / width, k);
  }

  /** The announced size is a number of whole elements, at most those of the buffer. */
  function AnnouncedCount(size: nat, width: nat, numSm: nat): nat
    requires SupportedWidth(width) && numSm > 0
  {
    if size < SMALL_BUFFER then size / width
    else numSm * THREADS_PER_BLOCK * (size / width / (numSm * THREADS_PER_BLOCK))
  }

  lemma AnnouncedElements(size: nat, width: nat, numSm: nat)
    requires SupportedWidth(width) && numSm > 0
    ensures AdjustedCopySize(size, width, numSm) == AnnouncedCount(size, width, numSm) * width
    ensures AnnouncedCount(size, width, numSm) <= size / width
  {
    DivModOf(numSm * THREADS_PER_BLOCK, size / width);
  }

  /** After a real launch under any fair schedule the check of the announced size passes exactly
      when the buffer is large, or has at most 1024 elements, or a multiple of 1024. */
  lemma WholeCopyPasses(size: nat, width: nat, numSm: nat, loops: nat, src: seq<Element>, dst0: seq<Element>,
                        schedule: seq<nat>)
    requires SupportedWidth(width) && numSm > 0 && loops > 0 && size >= width && Prepared(size, width, numSm, src, dst0)
    requires Fair(LaunchFor(size, width, numSm, loops, src), schedule)
    ensures var s := Final(size, width, numSm, loops, src, dst0, schedule);
            Uniform(s.dst, WordsPer(width)) && CheckedWords(size, width, numSm) <= |Words(s.dst, WordsPer(width))|
            && ((forall m: nat :: !Mismatch(Words(s.dst, WordsPer(width)), CheckedWords(size, width, numSm),
                                            SOURCE_SEED, m))
                <==> size >= SMALL_BUFFER || size / width <= 1024 || size / width % 1024 == 0)
  {
    hide Fair, LaunchCopy, Uniform, Words, Mismatch, Final, AdjustedCopySize, LaunchFor, Filled, AnnouncedCount,
         CopiedCount;
    var k, checked, copied := WordsPer(width), CheckedWords(size, width, numSm), CopiedCount(size, width, numSm);
    CopiedAll(size, width, numSm);
    AnnouncedFits(size, width, numSm);
    var s := Final(size, width, numSm, loops, src, dst0, schedule);
    FinalUniform(size, width, numSm, loops, src, dst0, schedule);
    forall m: nat ensures Mismatch(Words(s.dst, k), checked, SOURCE_SEED, m) <==> copied * k <= m < checked {
      MismatchBelow(Words(s.dst, k), checked, m);
      if m < checked { MismatchesOfLaunch(size, width, numSm, loops, src, dst0, schedule, m); }
    }
    assert Mismatch(Words(s.dst, k), checked, SOURCE_SEED, copied * k) <==> copied * k < checked;
  }

  lemma CopiedAll(size: nat, width: nat, numSm: nat)
    requires SupportedWidth(width) && numSm > 0
    ensures CopiedCount(size, width, numSm) * WordsPer(width) <= CheckedWords(size, width, numSm)
    ensures CopiedCount(size, width, numSm) * WordsPer(width) == CheckedWords(size, width, numSm)
            <==> size >= SMALL_BUFFER || size / width <= 1024 || size / width % 1024 == 0
  {
    hide LaunchCopy, AdjustedCopySize, AnnouncedCount;
    var copied, k := CopiedCount(size, width, numSm), WordsPer(width);
    LaunchMatchesAdjustedSize(size, width, numSm);
    AnnouncedFits(size, width, numSm);
    assert copied * width == (copied * k) * 4;
  }

  lemma FinalUniform(size: nat, width: nat, numSm: nat, loops: nat, src: seq<Element>, dst0: seq<Element>,
                     schedule: seq<nat>)
    requires SupportedWidth(width) && numSm > 0 && size >= width && Prepared(size, width, numSm, src, dst0)
    ensures var s := Final(size, width, numSm, loops, src, dst0, schedule);
            Uniform(s.dst, WordsPer(width)) && |s.dst| == size / width
  {
    hide Inv, Uniform, LaunchCopy, Final;
    var s := Final(size, width, numSm, loops, src, dst0, schedule);
    StaysUniform(LaunchFor(size, width, numSm, loops, src), dst0, s, WordsPer(width));
  }

  lemma MismatchBelow(words: seq<bv32>, size: nat, i: nat)
    requires size <= |words|
    ensures Mismatch(words, size, SOURCE_SEED, i) ==> i < size
  {
  }

  /** A buffer of 20 KiB with the default width of 16 bytes: 1280 elements are announced and
      checked, 1024 are copied, and the check finds the words of the other 256 wrong. */
  lemma TwentyKibibytes(numSm: nat, loops: nat, src: seq<Element>, dst0: seq<Element>, schedule: seq<nat>)
    requires numSm > 0 && loops > 0 && |src| == |dst0| == 1280
    requires Filling(src, SOURCE_SEED, 4, 0, 1280) && Filling(dst0, TARGET_SEED, 4, 0, 1280)
    requires Fair(LaunchFor(20 * 1024, 16, numSm, loops, src), schedule)
    ensures LaunchCopy(20 * 1024, 16, numSm) == Launched(1024, 1, 20 * 1024)
    ensures var s := Final(20 * 1024, 16, numSm, loops, src, dst0, schedule);
            Uniform(s.dst, 4) && |Words(s.dst, 4)| == 5120
            && forall m: nat | m < 5120 :: Mismatch(Words(s.dst, 4), 5120, SOURCE_SEED, m) <==> 4096 <= m
  {
    hide Filling, Fair, Final, Words, Uniform, Mismatch, LaunchFor, Prepared, CopiedCount;
    TwentyLaunch(numSm);
    FillPrepares(20 * 1024, 16, numSm, src, dst0);
    FinalUniform(20 * 1024, 16, numSm, loops, src, dst0, schedule);
    forall m: nat | m < 5120
      ensures Mismatch(Words(Final(20 * 1024, 16, numSm, loops, src, dst0, schedule).dst, 4), 5120, SOURCE_SEED, m)
              <==> 4096 <= m
    {
      MismatchesOfLaunch(20 * 1024, 16, numSm, loops, src, dst0, schedule, m);
    }
  }

  lemma TwentyLaunch(numSm: nat)
    requires numSm > 0
    ensures LaunchCopy(20 * 1024, 16, numSm) == Launched(1024, 1, 20 * 1024)
            && CheckedWords(20 * 1024, 16, numSm) == 5120
    ensures CopiedCount(20 * 1024, 16, numSm) == 1024 && AnnouncedCount(20 * 1024, 16, numSm) == 1280
  {
  }

  /** The default 512 MiB on a device with 132 multiprocessors: 32768 of the 33554432 elements are
      neither filled nor copied nor checked, so the check passes whatever they hold. */
  lemma DefaultBuffer(loops: nat, src: seq<Element>, dst0: seq<Element>, schedule: seq<nat>)
    requires loops > 0 && |src| == |dst0| == 33554432
    requires Filling(src, SOURCE_SEED, 4, 0, 33521664) && Filling(dst0, TARGET_SEED, 4, 0, 33521664)
    requires Fair(LaunchFor(512 * 0x100000, 16, 132, loops, src), schedule)
    ensures var s := Final(512 * 0x100000, 16, 132, loops, src, dst0, schedule);
            Uniform(s.dst, 4) && 4 * 33521664 <= |Words(s.dst, 4)|
            && forall m: nat :: !Mismatch(Words(s.dst, 4), 4 * 33521664, SOURCE_SEED, m)
  {
    hide Filling, Fair, Final, Words, Uniform, Mismatch, LaunchFor, Prepared, CopiedCount;
    DefaultLaunch();
    FillPrepares(512 * 0x100000, 16, 132, src, dst0);
    WholeCopyPasses(512 * 0x100000, 16, 132, loops, src, dst0, schedule);
  }

  lemma DefaultLaunch()
    ensures AnnouncedCount(512 * 0x100000, 16, 132) == 33521664 && CheckedWords(512 * 0x100000, 16, 132) == 4 * 33521664
  {
  }
}
