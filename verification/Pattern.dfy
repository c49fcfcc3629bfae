/** The xorshift pattern that buffers are filled with before a copy and compared with after
    it, and what a passed comparison means. */
module Pattern {

  const PATTERN_WORDS: nat := 524288  // 2 MiB of 4-byte words

  const SOURCE_SEED: bv32 := 0xBAADF00D
  const TARGET_SEED: bv32 := 0xCAFEBABE

  function Xor(a: bv32, b: bv32): bv32 { a ^ b }

  function Shr17(x: bv32): bv32 { x >> 17 }

  function Step1(x: bv32): bv32 { x ^ (x << 13) }

  function Step2(x: bv32): bv32 { Xor(x, Shr17(x)) }

  function Step3(x: bv32): bv32 { x ^ (x << 5) }

  function XorShift(x: bv32): bv32 { Step3(Step2(Step1(x))) }

  // A step y = x ^ (x << k) applied again with k doubled undoes itself once 2k bits are gone.

  lemma Undo5(x: bv32)
    ensures (x ^ (x << 5)) ^ ((x ^ (x << 5)) << 5) == x ^ (x << 10)
  {
  }

  lemma Undo10(x: bv32)
    ensures (x ^ (x << 10)) ^ ((x ^ (x << 10)) << 10) == x ^ (x << 20)
  {
  }

  lemma Undo20(x: bv32)
    ensures (x ^ (x << 20)) ^ ((x ^ (x << 20)) << 20) == x
  {
  }

  lemma Undo13(x: bv32)
    ensures (x ^ (x << 13)) ^ ((x ^ (x << 13)) << 13) == x ^ (x << 26)
  {
  }

  lemma Undo26(x: bv32)
    ensures (x ^ (x << 26)) ^ ((x ^ (x << 26)) << 26) == x
  {
  }

  lemma ShrOfXor(a: bv32, b: bv32)
    ensures Shr17(Xor(a, b)) == Xor(Shr17(a), Shr17(b))
  {
  }

  lemma ShrTwice(x: bv32)
    ensures Shr17(Shr17(x)) == 0
  {
  }

  lemma XorTwice(a: bv32, b: bv32)
    ensures Xor(Xor(a, b), b) == a && Xor(a, 0) == a
  {
  }

  lemma Undo17(x: bv32)
    ensures Xor(Step2(x), Shr17(Step2(x))) == x
  {
    hide Xor, Shr17;
    ShrOfXor(x, Shr17(x));
    ShrTwice(x);
    XorTwice(Shr17(x), 0);
    XorTwice(x, Shr17(x));
  }

  lemma Step1Injective(x: bv32, y: bv32)
    requires Step1(x) == Step1(y)
    ensures x == y
  {
    Undo13(x);
    Undo13(y);
    Undo26(x);
    Undo26(y);
  }

  lemma Step2Injective(x: bv32, y: bv32)
    requires Step2(x) == Step2(y)
    ensures x == y
  {
    hide Step2, Xor, Shr17;
    Undo17(x);
    Undo17(y);
  }

  lemma Step3Injective(x: bv32, y: bv32)
    requires Step3(x) == Step3(y)
    ensures x == y
  {
    Undo5(x);
    Undo5(y);
    Undo10(x);
    Undo10(y);
    Undo20(x);
    Undo20(y);
  }

  /** Different words are followed by different words. */
  lemma XorShiftInjective(x: bv32, y: bv32)
    requires XorShift(x) == XorShift(y)
    ensures x == y
  {
    hide Step1, Step2, Step3;
    Step3Injective(Step2(Step1(x)), Step2(Step1(y)));
    Step2Injective(Step1(x), Step1(y));
    Step1Injective(x, y);
  }

  /** The three shifts: 13 to the left, 17 to the right and 5 to the left. */
  lemma ShiftsAre(x: bv32, a: bv32, b: bv32)
    requires a == x ^ (x << 13) && b == Xor(a, Shr17(a))
    ensures XorShift(x) == b ^ (b << 5) && Shr17(a) == a >> 17
  {
    hide Step2, Xor, Shr17;
    StepTwo(a);
    ShrIs(a);
    StepThree(b);
    StepOne(x);
  }

  lemma StepOne(x: bv32)
    ensures Step1(x) == x ^ (x << 13)
  {
  }

  lemma StepTwo(x: bv32)
    ensures Step2(x) == Xor(x, Shr17(x))
  {
    hide Xor, Shr17;
  }

  lemma StepThree(x: bv32)
    ensures Step3(x) == x ^ (x << 5)
  {
  }

  lemma ShrIs(x: bv32)
    ensures Shr17(x) == x >> 17
  {
  }

  /** The first words that source and destination are filled with. */
  lemma FirstWords()
    ensures Filled(SOURCE_SEED, 0) == 0x9126193B && Filled(SOURCE_SEED, 1) == 0x122B575B
    ensures Filled(TARGET_SEED, 0) == 0xA887F92A && Filled(TARGET_SEED, 1) == 0xA3F0CD9B
  {
    hide XorShift;
    FirstSteps();
  }

  lemma FirstSteps()
    ensures XorShift(0xBAADF00D) == 0x9126193B && XorShift(0x9126193B) == 0x122B575B
    ensures XorShift(0xCAFEBABE) == 0xA887F92A && XorShift(0xA887F92A) == 0xA3F0CD9B
  {
  }

  /** The pattern repeats after 2 MiB and within them goes on word by word. */
  lemma FilledRepeats(seed: bv32, i: nat)
    ensures Filled(seed, i + 0x200000 / 4) == Filled(seed, i)
    ensures (i + 1) % (0x200000 / 4) != 0 ==> Filled(seed, i + 1) == XorShift(Filled(seed, i))
  {
    hide XorShift;
  }

  lemma XorShiftOfZero()
    ensures XorShift(0) == 0
  {
  }

  /** Word `n` of the pattern. */
  function Word(seed: bv32, n: nat): bv32 {
    XorShift(if n == 0 then seed else Word(seed, n - 1))
  }

  /** The patterns of two seeds differ at every word. */
  lemma {:induction false} PatternsDiffer(a: bv32, b: bv32, n: nat)
    requires a != b
    ensures Word(a, n) != Word(b, n)
  {
    hide XorShift;
    if n == 0 {
      if XorShift(a) == XorShift(b) { XorShiftInjective(a, b); }
    } else {
      PatternsDiffer(a, b, n - 1);
      if Word(a, n) == Word(b, n) { XorShiftInjective(Word(a, n - 1), Word(b, n - 1)); }
    }
  }

  /** The pattern of a seed other than 0 has no word 0. */
  lemma {:induction false} PatternHasNoZero(seed: bv32, n: nat)
    requires seed != 0
    ensures Word(seed, n) != 0
  {
    PatternsDiffer(seed, 0, n);
    ZeroPattern(n);
  }

  lemma {:induction false} ZeroPattern(n: nat)
    ensures Word(0, n) == 0
  {
    XorShiftOfZero();
    if n == 0 {
    } else {
      ZeroPattern(n - 1);
    }
  }

  // ---------- Filling ----------

  lemma StepsAre(v: bv32)
    ensures Step3(Step2(Step1(v))) == XorShift(v)
    ensures v ^ (v << 13) == Step1(v) && v ^ (v << 5) == Step3(v)
  {
    hide Step2;
  }

  lemma WordIs(seed: bv32, n: nat)
    ensures Word(seed, n) == XorShift(if n == 0 then seed else Word(seed, n - 1))
  {
    hide XorShift;
  }

  /** The body of the loop of `xorshift2MBPattern`. */
  method NextWord(oldValue: bv32) returns (value: bv32)
    ensures value == XorShift(oldValue)
  {
    hide XorShift, Step1, Step3, Xor, Shr17;
    value := oldValue;
    StepsAre(value);
    value := value ^ (value << 13);
    value := Xor(value, Shr17(value));
    StepsAre(value);
    value := value ^ (value << 5);
  }

  /** `xorshift2MBPattern`. */
  method FillPattern(buffer: array<bv32>, seed: bv32)
    requires buffer.Length == PATTERN_WORDS
    modifies buffer
    ensures forall i | 0 <= i < PATTERN_WORDS :: buffer[i] == Word(seed, i)
  {
    hide Word, XorShift;
    var oldValue := seed;
    for n := 0 to PATTERN_WORDS
      invariant oldValue == if n == 0 then seed else Word(seed, n - 1)
      invariant forall i | 0 <= i < n :: buffer[i] == Word(seed, i)
    {
      oldValue := NextWord(oldValue);
      WordIs(seed, n);
      buffer[n] := oldValue;
    }
  }

  /** Word `i` of a filled buffer: the pattern repeats every 2 MiB. */
  function Filled(seed: bv32, i: nat): bv32 {
    Word(seed, i % PATTERN_WORDS)
  }

  /** Byte `k` of a word in memory, least significant first. */
  function ByteOf(w: bv32, k: nat): bv8
    requires k < 4
  {
    ((if k == 0 then w else if k == 1 then w >> 8 else if k == 2 then w >> 16 else w >> 24) & 0xFF) as bv8
  }

  /** The bytes of a word, the first the least significant one. */
  lemma BytesOf(w: bv32)
    ensures w == (ByteOf(w, 0) as bv32) | ((ByteOf(w, 1) as bv32) << 8) | ((ByteOf(w, 2) as bv32) << 16)
                 | ((ByteOf(w, 3) as bv32) << 24)
  {
  }

  /** Byte `i` of a filled buffer. */
  function FilledByte(seed: bv32, i: nat): bv8 {
    ByteOf(Filled(seed, i / 4), i % 4)
  }

  /** `cpuMemsetPatternHelper`: the pattern is copied chunk by chunk, to any number of bytes. */
  method CpuFill(buffer: array<bv8>, size: nat, seed: bv32)
    requires size <= buffer.Length
    modifies buffer
    ensures forall i | 0 <= i < size :: buffer[i] == FilledByte(seed, i)
    ensures forall i | size <= i < buffer.Length :: buffer[i] == old(buffer[i])
  {
    hide Word, ByteOf, FilledByte;
    var pattern := new bv32[PATTERN_WORDS];
    FillPattern(pattern, seed);
    var dst, remaining := 0, size;
    while remaining > 0
      invariant 0 <= dst <= size && dst + remaining == size && (remaining > 0 ==> dst % (4 * PATTERN_WORDS) == 0)
      invariant forall i | 0 <= i < dst :: buffer[i] == FilledByte(seed, i)
      invariant forall i | dst <= i < buffer.Length :: buffer[i] == old(buffer[i])
      invariant forall i | 0 <= i < PATTERN_WORDS :: pattern[i] == Word(seed, i)
    {
      var chunk := if 4 * PATTERN_WORDS < remaining then 4 * PATTERN_WORDS else remaining;
      forall k | 0 <= k < chunk {
        buffer[dst + k] := ByteOf(pattern[k / 4], k % 4);
      }
      forall i | dst <= i < dst + chunk ensures buffer[i] == FilledByte(seed, i) {
        WithinChunk(seed, dst, i - dst);
        assert buffer[dst + (i - dst)] == ByteOf(pattern[(i - dst) / 4], (i - dst) % 4);
      }
      dst := dst + chunk;
      remaining := remaining - chunk;
    }
  }

  lemma WithinChunk(seed: bv32, dst: nat, k: nat)
    requires dst % (4 * PATTERN_WORDS) == 0 && k < 4 * PATTERN_WORDS
    ensures FilledByte(seed, dst + k) == ByteOf(Word(seed, k / 4), k % 4)
  {
    hide ByteOf, Word;
    assert (dst + k) / 4 % PATTERN_WORDS == k / 4 && (dst + k) % 4 == k % 4;
  }

  /** The threads that `memsetKernel` launches: one for every word, with a last block that may be
      too long. */
  function FillThreads(size: nat): (n: nat)
    ensures size <= n < size + 1024 && n % 1024 == 0
  {
    (size + 1023) / 1024 * 1024
  }

  /** `memsetKernel`, its threads taken in any order. */
  method GpuFill(buffer: array<bv32>, size: nat, seed: bv32, order: seq<nat>)
    requires size <= buffer.Length
    requires forall idx: nat :: idx in order <==> idx < FillThreads(size)
    modifies buffer
    ensures forall i | 0 <= i < size :: buffer[i] == Filled(seed, i)
    ensures forall i | size <= i < buffer.Length :: buffer[i] == old(buffer[i])
  {
    hide Word;
    var pattern := new bv32[PATTERN_WORDS];
    FillPattern(pattern, seed);
    for k := 0 to |order|
      invariant forall i: nat | i < size && i in order[..k] :: buffer[i] == Filled(seed, i)
      invariant forall i | size <= i < buffer.Length :: buffer[i] == old(buffer[i])
      invariant forall i | 0 <= i < PATTERN_WORDS :: pattern[i] == Word(seed, i)
    {
      var idx := order[k];
      assert order[..k + 1] == order[..k] + [idx];
      if idx < size {
        buffer[idx] := pattern[idx % PATTERN_WORDS];
      }
    }
    assert order[..|order|] == order;
  }

  // ---------- Comparing ----------

  /** The words of the first `size` that do not hold the pattern. */
  ghost predicate Mismatch(words: seq<bv32>, size: nat, seed: bv32, i: nat)
    requires size <= |words|
  {
    i < size && words[i] != Filled(seed, i)
  }

  /** `memcmpKernel`, its threads taken in any order: the error flag is set exactly when some
      word differs from the pattern, and then by exactly one thread. */
  method Compare(words: seq<bv32>, size: nat, seed: bv32, order: seq<nat>) returns (errorFlag: bool, reports: nat)
    requires size <= |words|
    requires forall i | 0 <= i < size :: i in order
    ensures errorFlag <==> exists i: nat :: Mismatch(words, size, seed, i)
    ensures reports == if errorFlag then 1 else 0
  {
    hide Filled;
    errorFlag, reports := false, 0;
    for k := 0 to |order|
      invariant errorFlag ==> exists i: nat :: Mismatch(words, size, seed, i)
      invariant !errorFlag ==> forall j | 0 <= j < k :: !Mismatch(words, size, seed, order[j])
      invariant reports == if errorFlag then 1 else 0
    {
      var idx := order[k];
      if idx < size && words[idx] != Filled(seed, idx) {
        assert Mismatch(words, size, seed, idx);
        if !errorFlag {
          errorFlag := true;
          reports := reports + 1;
        }
      }
    }
    if !errorFlag {
      forall i: nat ensures !Mismatch(words, size, seed, i) {
        if i < size {
          assert i in order;
        }
      }
    }
  }

  /** The destination after both fills and a copy that has written exactly the words `w`. */
  ghost predicate AfterCopy(words: seq<bv32>, size: nat, w: set<nat>) {
    size <= |words| && forall i: nat | i < size :: words[i] == Filled(if i in w then SOURCE_SEED else TARGET_SEED, i)
  }

  /** The check is exact: it finds a mismatch at precisely the words the copy left out, so it
      passes if and only if the copy has written every checked word. */
  lemma CheckIsExact(words: seq<bv32>, size: nat, w: set<nat>)
    requires AfterCopy(words, size, w)
    ensures forall i: nat | i < size :: Mismatch(words, size, SOURCE_SEED, i) <==> i !in w
    ensures (forall i: nat :: !Mismatch(words, size, SOURCE_SEED, i)) <==> forall i: nat | i < size :: i in w
  {
    forall i: nat | i < size ensures Mismatch(words, size, SOURCE_SEED, i) <==> i !in w {
      PatternsDiffer(SOURCE_SEED, TARGET_SEED, i % PATTERN_WORDS);
    }
  }
}
