/** The strided ring of pointers that the latency and host-read tests chase: how it is built
    in place, that it is a permutation of the nodes, and which nodes a chase visits. */
module PointerChase {
  import opened Arith

  /** The size of a `LatencyNode`, a single pointer. */
  const LATENCY_NODE: nat := 8

  /** The node after node `i`. */
  function Next(n: nat, stride: nat, i: nat): (j: nat)
    requires n > 0
    ensures j < n
  {
    (i + stride) % n
  }

  // ---------- Building ----------

  /** The address of node `i` of a buffer. */
  function Address(base: int, width: nat, i: nat): int {
    base + i * width
  }

  /** The `next` fields of a ring of `n` nodes. */
  function Ring(n: nat, base: int, width: nat, stride: nat): (r: seq<int>)
    ensures |r| == n
  {
    seq(n, i requires 0 <= i < n => Address(base, width, Next(n, stride, i)))
  }

  /** `latencyHelper` for a device buffer: one copy of a node for every `i`. */
  method BuildOnDevice(memory: array<int>, base: int, stride: nat)
    modifies memory
    ensures memory[..] == Ring(memory.Length, base, LATENCY_NODE, stride)
    ensures forall i | 0 <= i < memory.Length :: memory[i] == base + (i + stride) % memory.Length * 8
  {
    var n := memory.Length;
    for i := 0 to n
      invariant forall k | 0 <= k < i :: memory[k] == Address(base, LATENCY_NODE, Next(n, stride, k))
    {
      var nextOffset := ((i + stride) % n) * LATENCY_NODE;
      memory[i] := base + nextOffset;
    }
  }

  /** `latencyHelper` for a host buffer, and `initHostPtrChaseNodes` for nodes of any width:
      they build the same ring as on the device, and nothing in a buffer without nodes. */
  method BuildOnHost(memory: array<int>, base: int, width: nat, stride: nat)
    modifies memory
    ensures memory[..] == Ring(memory.Length, base, width, stride)
    ensures forall i | 0 <= i < memory.Length :: memory[i] == base + (i + stride) % memory.Length * width
  {
    var n := memory.Length;
    if n == 0 {
      return;
    }
    for i := 0 to n
      invariant forall k | 0 <= k < i :: memory[k] == Address(base, width, Next(n, stride, k))
    {
      memory[i] := Address(base, width, (i + stride) % n);
    }
  }

  /** `ptrChasingKernel`, from node `start`: every access stays in the buffer, and after
      `accesses` of them the chase is that many strides on. */
  method Chase(memory: seq<int>, base: int, width: nat, stride: nat, start: nat, accesses: nat) returns (p: int)
    requires start < |memory| && width > 0 && memory == Ring(|memory|, base, width, stride)
    ensures p == base + (start + accesses * stride) % |memory| * width
  {
    var n := |memory|;
    p := Address(base, width, start);
    DivModUnique(n, start, 0, start);
    for k := 0 to accesses
      invariant p == Address(base, width, (start + k * stride) % n)
    {
      ghost var at := (start + k * stride) % n;
      NodeAt(base, width, at);
      Onward(n, stride, start, k);
      p := memory[(p - base) / width];
    }
  }

  lemma NodeAt(base: int, width: nat, i: nat)
    requires width > 0
    ensures (Address(base, width, i) - base) / width == i
  {
    DivModUnique(width, i * width, i, 0);
  }

  lemma AddMod(n: nat, x: nat, y: nat)
    requires n > 0
    ensures (x % n + y) % n == (x + y) % n
  {
    DivModOf(n, x);
    DivModOf(n, x % n + y);
    var q := x / n + (x % n + y) / n;
    assert x + y == x / n * n + (x % n + y) / n * n + (x % n + y) % n;
    assert q * n == x / n * n + (x % n + y) / n * n;
    DivModUnique(n, x + y, q, (x % n + y) % n);
  }

  lemma Onward(n: nat, stride: nat, start: nat, k: nat)
    requires n > 0
    ensures Next(n, stride, (start + k * stride) % n) == (start + (k + 1) * stride) % n
  {
    AddMod(n, start + k * stride, stride);
    assert (k + 1) * stride == k * stride + stride;
  }

  // ---------- The ring ----------

  /** Node `i` after `k` accesses. */
  function Follow(n: nat, stride: nat, i: nat, k: nat): (j: nat)
    requires i < n
    ensures j < n
  {
    if k == 0 then i else Next(n, stride, Follow(n, stride, i, k - 1))
  }

  lemma {:induction false} FollowIs(n: nat, stride: nat, i: nat, k: nat)
    requires i < n
    ensures Follow(n, stride, i, k) == (i + k * stride) % n
  {
    if k == 0 {
      DivModUnique(n, i, 0, i);
    } else {
      FollowIs(n, stride, i, k - 1);
      Onward(n, stride, i, k - 1);
    }
  }

  /** Numbers that leave the same remainder differ by a multiple, and the other way round. */
  lemma SameRemainder(n: nat, a: nat, b: nat)
    requires n > 0
    ensures a % n == b % n ==> b == a + n * (b / n - a / n)
  {
    DivModOf(n, a);
    DivModOf(n, b);
    assert n * (b / n - a / n) == b / n * n - a / n * n;
  }

  lemma ShiftRemainder(n: nat, a: nat, b: nat, m: int)
    requires n > 0 && b == a + n * m
    ensures a % n == b % n
  {
    DivModOf(n, a);
    var q := a / n + m;
    assert q * n == a / n * n + n * m;
    assert b == q * n + a % n;
    if q < 0 { MulMono(q, -1, n); }
    DivModUnique(n, b, q, a % n);
  }

  /** The links form a permutation of the nodes: every node is the next of exactly one. */
  lemma NextIsPermutation(n: nat, stride: nat, j: nat)
    requires j < n
    ensures exists i: nat :: i < n && Next(n, stride, i) == j
    ensures forall a: nat, b: nat | a < n && b < n && Next(n, stride, a) == Next(n, stride, b) :: a == b
  {
    DivModOf(n, stride);
    var i := (j + (n - stride % n)) % n;
    AddMod(n, j + (n - stride % n), stride);
    assert j + (n - stride % n) + stride == j + n * (1 + stride / n);
    ShiftRemainder(n, j, j + (n - stride % n) + stride, 1 + stride / n);
    DivModUnique(n, j, 0, j);
    assert i < n && Next(n, stride, i) == j;
    forall a: nat, b: nat | a < n && b < n && Next(n, stride, a) == Next(n, stride, b) ensures a == b {
      SameRemainder(n, a + stride, b + stride);
      SmallMultiple(n, b - a, (b + stride) / n - (a + stride) / n);
    }
  }

  lemma SmallMultiple(n: nat, d: int, m: int)
    requires -d < n && d < n && d == n * m
    ensures d == 0
  {
    if m > 0 { MulMono(1, m, n); }
    if m < 0 { MulMono(m, -1, n); }
  }

  // ---------- Greatest common divisors ----------

  function Gcd(a: nat, b: nat): nat
    decreases b
  {
    if b == 0 then a else Gcd(b, a % b)
  }

  /** The quotients of two numbers by their greatest common divisor, and a combination of the
      numbers that gives it. */
  datatype Bezout = Bezout(qa: nat, qb: nat, x: int, y: int)

  lemma {:induction false} GcdCombines(a: nat, b: nat) returns (z: Bezout)
    requires a > 0 || b > 0
    ensures var g := Gcd(a, b); g > 0 && a == g * z.qa && b == g * z.qb && g == z.x * a + z.y * b
    decreases b
  {
    if b == 0 {
      z := Bezout(1, 0, 1, 0);
    } else {
      var w := GcdCombines(b, a % b);
      DivModOf(b, a);
      z := Bezout(a / b * w.qa + w.qb, w.qa, w.y, w.x - a / b * w.y);
      CombineBack(Gcd(a, b), a, b, a / b, a % b, w);
    }
  }

  lemma CombineBack(g: nat, a: nat, b: nat, q: nat, r: nat, w: Bezout)
    requires a == q * b + r && b == g * w.qa && r == g * w.qb && g == w.x * b + w.y * r
    ensures q * w.qa + w.qb >= 0 && a == g * (q * w.qa + w.qb)
    ensures g == w.y * a + (w.x - q * w.y) * b
  {
    assert q * (g * w.qa) == g * (q * w.qa);
    assert w.y * (q * b + r) == q * w.y * b + w.y * r;
    assert (w.x - q * w.y) * b == w.x * b - q * w.y * b;
  }

  /** `Gcd` is a common divisor, and every common divisor divides it. */
  lemma GcdIsGreatest(a: nat, b: nat)
    requires a > 0 || b > 0
    ensures var g := Gcd(a, b); g > 0 && a % g == 0 && b % g == 0
    ensures forall d: nat | d > 0 && a % d == 0 && b % d == 0 :: Gcd(a, b) % d == 0
  {
    hide Gcd;
    var z := GcdCombines(a, b);
    var g := Gcd(a, b);
    DivModUnique(g, a, z.qa, 0);
    DivModUnique(g, b, z.qb, 0);
    forall d: nat | d > 0 && a % d == 0 && b % d == 0 ensures g % d == 0 {
      DivModOf(d, a);
      DivModOf(d, b);
      Divides(d, a / d, b / d, z.x, z.y, g);
    }
  }

  /** A combination of two multiples is a multiple. */
  lemma Divides(d: nat, a: nat, b: nat, x: int, y: int, g: nat)
    requires d > 0 && g == x * (a * d) + y * (b * d)
    ensures g % d == 0
  {
    assert x * (a * d) == d * (x * a);
    assert y * (b * d) == d * (y * b);
    ShiftRemainder(d, 0, g, x * a + y * b);
  }

  // ---------- Which nodes a chase visits ----------

  /** A chase comes back to its node after exactly the multiples of `n / gcd(n, stride)`. */
  lemma PeriodIs(n: nat, stride: nat, i: nat, k: nat)
    requires i < n
    ensures Gcd(n, stride) > 0 && n / Gcd(n, stride) > 0
    ensures Follow(n, stride, i, k) == i <==> k % (n / Gcd(n, stride)) == 0
  {
    var z := GcdCombines(n, stride);
    var g := Gcd(n, stride);
    DivModUnique(g, n, z.qa, 0);
    FollowIs(n, stride, i, k);
    DivModUnique(n, i, 0, i);
    if k % z.qa == 0 {
      MultipleReturns(n, stride, i, k, z);
    }
    if Follow(n, stride, i, k) == i {
      ReturnIsMultiple(n, stride, i, k, z);
    }
  }

  lemma MultipleReturns(n: nat, stride: nat, i: nat, k: nat, z: Bezout)
    requires z.qa > 0 && k % z.qa == 0 && n > 0
    requires var g := Gcd(n, stride); n == g * z.qa && stride == g * z.qb
    ensures (i + k * stride) % n == i % n
  {
    var g, m := Gcd(n, stride), k / z.qa;
    DivModOf(z.qa, k);
    calc {
      k * stride;
      (m * z.qa) * (g * z.qb);
      (g * z.qa) * (m * z.qb);
      n * (m * z.qb);
    }
    ShiftRemainder(n, i, i + k * stride, m * z.qb);
  }

  lemma ReturnIsMultiple(n: nat, stride: nat, i: nat, k: nat, z: Bezout)
    requires z.qa > 0 && n > 0 && (i + k * stride) % n == i % n
    requires var g := Gcd(n, stride); g > 0 && n == g * z.qa && stride == g * z.qb && g == z.x * n + z.y * stride
    ensures k % z.qa == 0
  {
    hide Gcd;
    var g := Gcd(n, stride);
    SameRemainder(n, i, i + k * stride);
    var q := (i + k * stride) / n - i / n;
    CancelGcd(g, n, stride, k, q, z);
    Coprime(g, n, stride, z);
    IsMultiple(k, q, z);
    ShiftRemainder(z.qa, 0, k, k * z.x + z.y * q);
  }

  lemma CancelGcd(g: nat, n: nat, stride: nat, k: nat, q: int, z: Bezout)
    requires g > 0 && n == g * z.qa && stride == g * z.qb && k * stride == n * q
    ensures k * z.qb == z.qa * q
  {
    assert g * (k * z.qb) == k * (g * z.qb);
    assert g * (z.qa * q) == (g * z.qa) * q;
    Cancel(g, k * z.qb, z.qa * q);
  }

  lemma IsMultiple(k: nat, q: int, z: Bezout)
    requires z.x * z.qa + z.y * z.qb == 1 && k * z.qb == z.qa * q
    ensures k == z.qa * (k * z.x + z.y * q)
  {
    calc {
      k;
      k * (z.x * z.qa + z.y * z.qb);
      z.qa * (k * z.x) + z.y * (k * z.qb);
      z.qa * (k * z.x) + z.y * (z.qa * q);
      z.qa * (k * z.x + z.y * q);
    }
  }

  lemma Cancel(g: nat, a: int, b: int)
    requires g > 0 && g * a == g * b
    ensures a == b
  {
    if a < b { MulMono(a + 1, b, g); }
    if b < a { MulMono(b + 1, a, g); }
  }

  /** The quotients by the greatest common divisor have none of their own. */
  lemma Coprime(g: nat, n: nat, stride: nat, z: Bezout)
    requires g > 0 && n == g * z.qa && stride == g * z.qb && g == z.x * n + z.y * stride
    ensures z.x * z.qa + z.y * z.qb == 1
  {
    assert z.x * (g * z.qa) == g * (z.x * z.qa);
    assert z.y * (g * z.qb) == g * (z.y * z.qb);
    assert g * (z.x * z.qa + z.y * z.qb) == g * (z.x * z.qa) + g * (z.y * z.qb);
    Cancel(g, z.x * z.qa + z.y * z.qb, 1);
  }

  /** The nodes of the orbit of `i` are exactly those in its residue class modulo
      `gcd(n, stride)`; each is reached within the first `n / gcd(n, stride)` accesses. */
  lemma OrbitIsResidueClass(n: nat, stride: nat, i: nat, j: nat)
    requires i < n && j < n
    ensures var g := Gcd(n, stride);
            g > 0
            && ((exists k: nat :: Follow(n, stride, i, k) == j) <==> i % g == j % g)
            && (i % g == j % g ==> exists k: nat :: k < n / g && Follow(n, stride, i, k) == j)
  {
    var z := GcdCombines(n, stride);
    var g := Gcd(n, stride);
    DivModUnique(g, n, z.qa, 0);
    forall k: nat | Follow(n, stride, i, k) == j ensures i % g == j % g {
      VisitKeepsClass(n, stride, i, j, k, z);
    }
    if i % g == j % g {
      var k := VisitOf(n, stride, i, j, z);
      assert Follow(n, stride, i, k) == j;
    }
  }

  lemma VisitKeepsClass(n: nat, stride: nat, i: nat, j: nat, k: nat, z: Bezout)
    requires i < n && Follow(n, stride, i, k) == j
    requires var g := Gcd(n, stride); g > 0 && n == g * z.qa && stride == g * z.qb
    ensures i % Gcd(n, stride) == j % Gcd(n, stride)
  {
    hide Follow, Gcd;
    var g := Gcd(n, stride);
    FollowIs(n, stride, i, k);
    DivModOf(n, i + k * stride);
    var q := (i + k * stride) / n;
    StaysInClass(g, n, stride, i, j, k, q, z);
    ShiftRemainder(g, i, j, k * z.qb - q * z.qa);
  }

  lemma StaysInClass(g: nat, n: nat, stride: nat, i: nat, j: nat, k: nat, q: nat, z: Bezout)
    requires n == g * z.qa && stride == g * z.qb && i + k * stride == q * n + j
    ensures j == i + g * (k * z.qb - q * z.qa)
  {
    assert k * (g * z.qb) == g * (k * z.qb);
    assert q * (g * z.qa) == g * (q * z.qa);
    assert g * (k * z.qb - q * z.qa) == g * (k * z.qb) - g * (q * z.qa);
  }

  /** The access that reaches `j` from `i`. */
  lemma VisitOf(n: nat, stride: nat, i: nat, j: nat, z: Bezout) returns (k: nat)
    requires i < n && j < n
    requires var g := Gcd(n, stride);
             g > 0 && n == g * z.qa && stride == g * z.qb && g == z.x * n + z.y * stride && i % g == j % g
    ensures k < z.qa && Follow(n, stride, i, k) == j
  {
    var g := Gcd(n, stride);
    SameRemainder(g, i, j);
    var m := j / g - i / g;
    assert z.qa > 0;
    k := m * z.y % z.qa;
    var u := m * z.y / z.qa;
    assert m * z.y == u * z.qa + k;
    Reaches(g, n, stride, i, j, z, m, u, k);
    ShiftRemainder(n, j, i + k * stride, -(m * z.x) - u * z.qb);
    FollowIs(n, stride, i, k);
    DivModUnique(n, j, 0, j);
  }

  lemma Reaches(g: nat, n: nat, stride: nat, i: nat, j: nat, z: Bezout, m: int, u: int, k: nat)
    requires n == g * z.qa && stride == g * z.qb && g == z.x * n + z.y * stride
    requires j == i + g * m && m * z.y == u * z.qa + k
    ensures i + k * stride == j + n * (-(m * z.x) - u * z.qb)
  {
    calc {
      k * stride;
      (m * z.y - u * z.qa) * stride;
      m * (z.y * stride) - u * z.qa * stride;
      m * (g - z.x * n) - u * z.qa * (g * z.qb);
      g * m - n * (m * z.x) - (g * z.qa) * (u * z.qb);
      g * m - n * (m * z.x) - n * (u * z.qb);
      g * m + n * (-(m * z.x) - u * z.qb);
    }
  }

  /** The first `n / gcd(n, stride)` nodes of a chase all differ, so that is the length of
      the orbit. */
  lemma OrbitHasNoRepeats(n: nat, stride: nat, i: nat, a: nat, b: nat)
    requires i < n && a < b
    ensures Gcd(n, stride) > 0
    ensures b < n / Gcd(n, stride) ==> Follow(n, stride, i, a) != Follow(n, stride, i, b)
  {
    var z := GcdCombines(n, stride);
    var j := Follow(n, stride, i, a);
    FollowOn(n, stride, i, a, b - a);
    PeriodIs(n, stride, j, b - a);
    var period := n / Gcd(n, stride);
    if b < period { DivModUnique(period, b - a, 0, b - a); }
  }

  lemma {:induction false} FollowOn(n: nat, stride: nat, i: nat, a: nat, d: nat)
    requires i < n
    ensures Follow(n, stride, Follow(n, stride, i, a), d) == Follow(n, stride, i, a + d)
  {
    if d == 0 {
    } else {
      FollowOn(n, stride, i, a, d - 1);
    }
  }
}
