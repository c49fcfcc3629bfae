/** The order and the equality of values: types first, then contents; containers by size
    first and then lexicographically by key and value, as `std::map` compares. */
module Ordering {
  import opened Chars
  import opened Values

  predicate DoubleLess(a: Double, b: Double) {
    match (a, b)
    case (Finite(x), Finite(y)) => x < y
    case (NegInf, Finite(_)) => true
    case (NegInf, PosInf) => true
    case (Finite(_), PosInf) => true
    case _ => false
  }

  predicate DoubleEqual(a: Double, b: Double) {
    !a.NaN? && a == b
  }

  function TypeRank(v: Value): nat {
    match v
    case Null => 0
    case Int(_) => 1
    case UInt(_) => 2
    case Real(_) => 3
    case Str(_) => 4
    case Bool(_) => 5
    case Arr(_) => 6
    case Obj(_) => 7
  }

  /** A measure for recursion over two trees at once. */
  function Weight(v: Value): nat {
    if IsContainer(v) then 1 + NodesWeight(v.nodes) else 1
  }

  function NodesWeight(nodes: seq<Node>): nat {
    if nodes == [] then 0 else NodeWeight(nodes[0]) + NodesWeight(nodes[1..])
  }

  function NodeWeight(n: Node): nat {
    2 + Weight(n.value)
  }

  /** `operator<`. */
  predicate Less(a: Value, b: Value)
    decreases Weight(a) + Weight(b)
  {
    if TypeRank(a) != TypeRank(b) then TypeRank(a) < TypeRank(b)
    else match a
      case Null => false
      case Int(i) => i < b.i
      case UInt(u) => u < b.u
      case Real(d) => DoubleLess(d, b.d)
      case Str(s) => TextLess(s, b.s)
      case Bool(x) => !x && b.b
      case Arr(nodes) => if |nodes| != |b.nodes| then |nodes| < |b.nodes| else NodesLess(nodes, b.nodes)
      case Obj(nodes) => if |nodes| != |b.nodes| then |nodes| < |b.nodes| else NodesLess(nodes, b.nodes)
  }

  /** `std::lexicographical_compare` on the nodes of two maps. */
  predicate NodesLess(a: seq<Node>, b: seq<Node>)
    decreases NodesWeight(a) + NodesWeight(b)
  {
    if b == [] then false
    else if a == [] then true
    else
      assert NodesWeight(a) == NodeWeight(a[0]) + NodesWeight(a[1..]);
      assert NodesWeight(b) == NodeWeight(b[0]) + NodesWeight(b[1..]);
      if NodeLess(a[0], b[0]) then true
      else if NodeLess(b[0], a[0]) then false
      else NodesLess(a[1..], b[1..])
  }

  /** `operator<` of `std::pair`. */
  predicate NodeLess(a: Node, b: Node)
    decreases Weight(a.value) + Weight(b.value) + 1
  {
    KeyLess(a.key, b.key) || (!KeyLess(b.key, a.key) && Less(a.value, b.value))
  }

  /** `operator==`. */
  predicate Equal(a: Value, b: Value)
    decreases a
  {
    TypeRank(a) == TypeRank(b) && match a
      case Null => true
      case Int(i) => i == b.i
      case UInt(u) => u == b.u
      case Real(d) => DoubleEqual(d, b.d)
      case Str(s) => s == b.s
      case Bool(x) => x == b.b
      case Arr(nodes) => |nodes| == |b.nodes| && NodesEqual(nodes, b.nodes)
      case Obj(nodes) => |nodes| == |b.nodes| && NodesEqual(nodes, b.nodes)
  }

  predicate NodesEqual(a: seq<Node>, b: seq<Node>)
    requires |a| == |b|
    decreases a
  {
    a == [] || (NodeEqual(a[0], b[0]) && NodesEqual(a[1..], b[1..]))
  }

  predicate NodeEqual(a: Node, b: Node)
    decreases a
  {
    a.key == b.key && Equal(a.value, b.value)
  }

  /** `compare`. */
  function Compare(a: Value, b: Value): int {
    if Less(a, b) then -1 else if Less(b, a) then 1 else 0
  }

  ghost predicate NaNFree(v: Value) {
    match v
    case Real(d) => !d.NaN?
    case Arr(nodes) => forall i | 0 <= i < |nodes| :: NaNFree(nodes[i].value)
    case Obj(nodes) => forall i | 0 <= i < |nodes| :: NaNFree(nodes[i].value)
    case _ => true
  }

  ghost predicate NodesNaNFree(nodes: seq<Node>) {
    forall i | 0 <= i < |nodes| :: NaNFree(nodes[i].value)
  }

  // ---------- Equality ----------

  /** `==` relates a value to itself exactly when it holds no NaN, and relates no two
      different values. */
  lemma {:induction false} EqualIs(a: Value, b: Value)
    ensures Equal(a, b) <==> a == b && NaNFree(a)
    decreases a
  {
    if IsContainer(a) && TypeRank(a) == TypeRank(b) {
      if |a.nodes| == |b.nodes| { NodesEqualIs(a.nodes, b.nodes); }
    }
  }

  lemma {:induction false} NodesEqualIs(a: seq<Node>, b: seq<Node>)
    requires |a| == |b|
    ensures NodesEqual(a, b) <==> a == b && NodesNaNFree(a)
    decreases a
  {
    if a == [] {
    } else {
      NodeEqualIs(a[0], b[0]);
      NodesEqualIs(a[1..], b[1..]);
      assert a == [a[0]] + a[1..] && b == [b[0]] + b[1..];
      assert NodesNaNFree(a) <==> NaNFree(a[0].value) && NodesNaNFree(a[1..]) by {
        assert forall i | 0 <= i < |a| - 1 :: a[1..][i] == a[i + 1];
        assert forall i | 0 < i < |a| :: a[i] == a[1..][i - 1];
      }
    }
  }

  lemma {:induction false} NodeEqualIs(a: Node, b: Node)
    ensures NodeEqual(a, b) <==> a == b && NaNFree(a.value)
    decreases a
  {
    EqualIs(a.value, b.value);
  }

  // ---------- A strict total order ----------

  lemma {:induction false} Irreflexive(a: Value)
    ensures !Less(a, a)
    decreases a
  {
    match a
    case Str(s) => TextLessIrreflexive(s);
    case Arr(nodes) => NodesIrreflexive(nodes);
    case Obj(nodes) => NodesIrreflexive(nodes);
    case _ =>
  }

  lemma {:induction false} NodesIrreflexive(a: seq<Node>)
    ensures !NodesLess(a, a)
    decreases a
  {
    if a == [] {
    } else {
      NodeIrreflexive(a[0]);
      NodesIrreflexive(a[1..]);
    }
  }

  lemma {:induction false} NodeIrreflexive(a: Node)
    ensures !NodeLess(a, a)
    decreases a
  {
    KeyLessIrreflexive(a.key);
    Irreflexive(a.value);
  }

  /** Two values without NaN that `<` does not order are the same. */
  lemma {:induction false} Total(a: Value, b: Value)
    requires NaNFree(a) && NaNFree(b)
    ensures Less(a, b) || Less(b, a) || a == b
    decreases a
  {
    if a.Str? && b.Str? { TextLessTotal(a.s, b.s); }
    if IsContainer(a) && TypeRank(a) == TypeRank(b) {
      if |a.nodes| == |b.nodes| { NodesTotal(a.nodes, b.nodes); }
    }
  }

  lemma {:induction false} NodesTotal(a: seq<Node>, b: seq<Node>)
    requires |a| == |b| && NodesNaNFree(a) && NodesNaNFree(b)
    ensures NodesLess(a, b) || NodesLess(b, a) || a == b
    decreases a
  {
    if a == [] {
    } else {
      NodeTotal(a[0], b[0]);
      NodesTotal(a[1..], b[1..]);
      assert a == [a[0]] + a[1..] && b == [b[0]] + b[1..];
    }
  }

  lemma {:induction false} NodeTotal(a: Node, b: Node)
    requires NaNFree(a.value) && NaNFree(b.value)
    ensures NodeLess(a, b) || NodeLess(b, a) || a == b
    decreases a
  {
    KeyLessTotal(a.key, b.key);
    KeyLessIrreflexive(a.key);
    Total(a.value, b.value);
  }

  lemma {:induction false} Asymmetric(a: Value, b: Value)
    requires NaNFree(a) && NaNFree(b) && Less(a, b)
    ensures !Less(b, a)
  {
    if Less(b, a) {
      Transitive(a, b, a);
      Irreflexive(a);
    }
  }

  lemma {:induction false} Transitive(a: Value, b: Value, c: Value)
    requires NaNFree(a) && NaNFree(b) && NaNFree(c) && Less(a, b) && Less(b, c)
    ensures Less(a, c)
    decreases a
  {
    if TypeRank(a) == TypeRank(b) == TypeRank(c) {
      if a.Str? { TextLessTransitive(a.s, b.s, c.s); }
      if a.Arr? || a.Obj? {
        if |a.nodes| == |b.nodes| == |c.nodes| { NodesTransitive(a.nodes, b.nodes, c.nodes); }
      }
    }
  }

  lemma {:induction false} NodesTransitive(a: seq<Node>, b: seq<Node>, c: seq<Node>)
    requires |a| == |b| == |c| && NodesNaNFree(a) && NodesNaNFree(b) && NodesNaNFree(c)
    requires NodesLess(a, b) && NodesLess(b, c)
    ensures NodesLess(a, c)
    decreases a
  {
    HeadOrTail(a, b);
    HeadOrTail(b, c);
    HeadOrTail(a, c);
    if NodeLess(a[0], b[0]) && NodeLess(b[0], c[0]) {
      NodeTransitive(a[0], b[0], c[0]);
    } else if a[0] == b[0] == c[0] {
      NodesTransitive(a[1..], b[1..], c[1..]);
    }
  }

  /** The lexicographic step: a smaller head, or the same head and a smaller tail. */
  lemma HeadOrTail(a: seq<Node>, b: seq<Node>)
    requires |a| == |b| && a != [] && NodesNaNFree(a) && NodesNaNFree(b)
    ensures NodeLess(a[0], b[0]) ==> NodesLess(a, b)
    ensures a[0] == b[0] ==> NodesLess(a, b) == NodesLess(a[1..], b[1..])
    ensures NodesLess(a, b) ==> NodeLess(a[0], b[0]) || a[0] == b[0]
  {
    NodeTotal(a[0], b[0]);
    if a[0] == b[0] {
      KeyLessIrreflexive(a[0].key);
      Irreflexive(a[0].value);
    }
  }

  lemma {:induction false} NodeTransitive(a: Node, b: Node, c: Node)
    requires NaNFree(a.value) && NaNFree(b.value) && NaNFree(c.value) && NodeLess(a, b) && NodeLess(b, c)
    ensures NodeLess(a, c)
    decreases a
  {
    KeyLessTotal(a.key, b.key);
    KeyLessTotal(b.key, c.key);
    if KeyLess(a.key, b.key) && KeyLess(b.key, c.key) {
      KeyLessTransitive(a.key, b.key, c.key);
    } else if a.key == b.key == c.key {
      Transitive(a.value, b.value, c.value);
    }
  }

  /** On values without NaN, `<` and `==` are a strict total order and its equality: exactly
      one of `a < b`, `a == b`, `b < a` holds, and `compare` tells which. */
  lemma Trichotomy(a: Value, b: Value)
    requires NaNFree(a) && NaNFree(b)
    ensures Less(a, b) ==> !Equal(a, b) && !Less(b, a) && Compare(a, b) == -1
    ensures Equal(a, b) ==> !Less(b, a) && Compare(a, b) == 0
    ensures Less(b, a) ==> Compare(a, b) == 1
    ensures Less(a, b) || Equal(a, b) || Less(b, a)
  {
    EqualIs(a, b);
    Total(a, b);
    Irreflexive(a);
    if Less(a, b) { Asymmetric(a, b); }
  }

  /** What the order is: null, integers, unsigned integers, reals, strings, booleans, arrays and
      objects in this order, and within one type the order of the contents. */
  lemma LessIs(a: Value, b: Value)
    ensures Less(a, b) ==> !b.Null?
    ensures a.Null? && !b.Null? ==> Less(a, b)
    ensures a.Int? && !b.Null? ==> (Less(a, b) <==> (b.Int? ==> a.i < b.i))
    ensures a.UInt? && !b.Null? && !b.Int? ==> (Less(a, b) <==> (b.UInt? ==> a.u < b.u))
    ensures a.Real? && (b.Str? || b.Bool? || IsContainer(b)) ==> Less(a, b)
    ensures a.Real? && b.Real? ==> (Less(a, b) <==> RealBelow(a.d, b.d))
    ensures a.Str? && (b.Bool? || IsContainer(b)) ==> Less(a, b)
    ensures a.Str? && b.Str? ==> (Less(a, b) <==> exists n: nat :: DecidesAt(a.s, b.s, n))
    ensures a.Bool? && IsContainer(b) ==> Less(a, b)
    ensures a.Bool? && b.Bool? ==> (Less(a, b) <==> a == Bool(false) && b == Bool(true))
    ensures a.Arr? && b.Obj? ==> Less(a, b)
    ensures a.Obj? && b.Arr? ==> !Less(a, b)
  {
    if a.Str? && b.Str? { TextLessIff(a.s, b.s); }
  }

  ghost predicate RealBelow(a: Double, b: Double) {
    !a.NaN? && !b.NaN? && a != b && !a.PosInf? && !b.NegInf? && (a.Finite? && b.Finite? ==> a.r < b.r)
  }

  /** Of two containers of one type the one with fewer nodes is below, and otherwise the first node
      in which they differ decides: by its key, or by its value where the keys are the same. */
  lemma ContainerLessIff(a: Value, b: Value)
    requires IsContainer(a) && NaNFree(a) && NaNFree(b) && (a.Arr? <==> b.Arr?) && (a.Obj? <==> b.Obj?)
    ensures Less(a, b) <==>
              || |a.nodes| < |b.nodes|
              || (|a.nodes| == |b.nodes| && exists n: nat :: NodeDecides(a.nodes, b.nodes, n))
  {
    if |a.nodes| == |b.nodes| { NodesLessIff(a.nodes, b.nodes); }
  }

  ghost predicate NodeDecides(a: seq<Node>, b: seq<Node>, n: nat) {
    && n < |a| && n < |b| && a[..n] == b[..n]
    && (KeyLess(a[n].key, b[n].key) || (a[n].key == b[n].key && Less(a[n].value, b[n].value)))
  }

  lemma {:induction false} NodesLessIff(a: seq<Node>, b: seq<Node>)
    requires |a| == |b| && NodesNaNFree(a) && NodesNaNFree(b)
    ensures NodesLess(a, b) <==> exists n: nat :: NodeDecides(a, b, n)
    decreases |a|
  {
    hide Less, NodesLess, NodeLess, KeyLess;
    if a == [] {
      NothingLess();
    } else {
      HeadOrTail(a, b);
      HeadDecides(a, b);
      if a[0] == b[0] {
        NodesLessIff(a[1..], b[1..]);
        forall n: nat ensures NodeDecides(a, b, n + 1) <==> NodeDecides(a[1..], b[1..], n) { TailDecides(a, b, n); }
        if n: nat :| NodeDecides(a, b, n) { assert NodeDecides(a[1..], b[1..], n - 1); }
        if n: nat :| NodeDecides(a[1..], b[1..], n) { assert NodeDecides(a, b, n + 1); }
      } else {
        if NodeLess(a[0], b[0]) { assert NodeDecides(a, b, 0); }
        assert forall n: nat | n > 0 && NodeDecides(a, b, n) :: a[..n][0] == b[..n][0];
      }
    }
  }

  lemma NothingLess()
    ensures !NodesLess([], [])
  {
  }

  lemma HeadDecides(a: seq<Node>, b: seq<Node>)
    requires |a| == |b| && a != [] && NodesNaNFree(a) && NodesNaNFree(b)
    ensures NodeDecides(a, b, 0) <==> NodeLess(a[0], b[0])
    ensures a[0] == b[0] ==> !NodeDecides(a, b, 0)
  {
    KeyLessTotal(a[0].key, b[0].key);
    KeyLessIrreflexive(a[0].key);
    if KeyLess(a[0].key, b[0].key) && KeyLess(b[0].key, a[0].key) { KeyLessTransitive(a[0].key, b[0].key, a[0].key); }
    if a[0] == b[0] { Irreflexive(a[0].value); }
  }

  lemma TailDecides(a: seq<Node>, b: seq<Node>, n: nat)
    requires |a| == |b| && a != [] && a[0] == b[0]
    ensures NodeDecides(a, b, n + 1) <==> NodeDecides(a[1..], b[1..], n)
  {
    hide Less, KeyLess;
    if n + 1 < |a| {
      assert a[..n + 1] == [a[0]] + a[1..][..n] && b[..n + 1] == [b[0]] + b[1..][..n];
      assert a[..n + 1][1..] == a[1..][..n] && b[..n + 1][1..] == b[1..][..n];
    }
  }

  /** A value is equal to itself exactly when it holds no NaN. */
  lemma SelfEqualIffNaNFree(a: Value)
    ensures Equal(a, a) <==> NaNFree(a)
  {
    EqualIs(a, a);
  }
}
