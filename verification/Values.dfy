/** `Json::Value`: a tagged union whose arrays and objects are both a `std::map` from
    `CZString` keys to values, held here as the sequence of its nodes in key order. */
module Values {
  import opened Chars
  import opened Decimal

  /** A C++ `double`; the sign of zero, which no comparison sees, is left out. */
  datatype Double = Finite(r: real) | PosInf | NegInf | NaN

  /** `CZString`: an array index or a member name. */
  datatype Key = Index(index: nat) | Name(name: Text)

  datatype Node = Node(key: Key, value: Value)

  datatype Value =
    | Null
    | Int(i: int)
    | UInt(u: int)
    | Real(d: Double)
    | Str(s: Text)
    | Bool(b: bool)
    | Arr(nodes: seq<Node>)
    | Obj(nodes: seq<Node>)

  predicate IsContainer(v: Value) {
    v.Arr? || v.Obj?
  }

  predicate KeyLess(a: Key, b: Key) {
    if a.Index? && b.Index? then a.index < b.index
    else if a.Name? && b.Name? then TextLess(a.name, b.name)
    else a.Index? && b.Name?
  }

  ghost predicate Sorted(nodes: seq<Node>) {
    forall i, j | 0 <= i < j < |nodes| :: KeyLess(nodes[i].key, nodes[j].key)
  }

  /** What every `Value` built through the public interface satisfies. */
  ghost predicate Valid(v: Value) {
    match v
    case Int(i) => MIN_INT64 <= i <= MAX_INT64
    case UInt(u) => 0 <= u <= MAX_UINT64
    case Arr(nodes) => Sorted(nodes) && forall k | 0 <= k < |nodes| :: nodes[k].key.Index? && Valid(nodes[k].value)
    case Obj(nodes) => Sorted(nodes) && forall k | 0 <= k < |nodes| :: nodes[k].key.Name? && Valid(nodes[k].value)
    case _ => true
  }

  // ---------- The map ----------

  function LowerBound(nodes: seq<Node>, key: Key): (i: nat)
    ensures i <= |nodes|
    ensures forall j | 0 <= j < i :: KeyLess(nodes[j].key, key)
    ensures i < |nodes| ==> !KeyLess(nodes[i].key, key)
  {
    if nodes == [] || !KeyLess(nodes[0].key, key) then 0 else 1 + LowerBound(nodes[1..], key)
  }

  predicate HasKey(nodes: seq<Node>, key: Key) {
    var i := LowerBound(nodes, key);
    i < |nodes| && nodes[i].key == key
  }

  /** `operator[] const`: a missing key reads as the null singleton. */
  function Lookup(nodes: seq<Node>, key: Key): Value {
    if HasKey(nodes, key) then nodes[LowerBound(nodes, key)].value else Null
  }

  /** `operator[]`: a missing key is inserted with a null value. */
  function Demand(nodes: seq<Node>, key: Key): (r: seq<Node>)
    ensures HasKey(nodes, key) ==> r == nodes
  {
    var i := LowerBound(nodes, key);
    if HasKey(nodes, key) then nodes else nodes[..i] + [Node(key, Null)] + nodes[i..]
  }

  /** Assignment through the reference that `operator[]` returns. */
  function Put(nodes: seq<Node>, key: Key, value: Value): (r: seq<Node>) {
    var i := LowerBound(nodes, key);
    if HasKey(nodes, key) then nodes[i := Node(key, value)] else nodes[..i] + [Node(key, value)] + nodes[i..]
  }

  /** `Value::size()` of an array: the highest index plus one. */
  function ArraySize(nodes: seq<Node>): nat {
    if nodes == [] || !nodes[|nodes| - 1].key.Index? then 0 else nodes[|nodes| - 1].key.index + 1
  }

  // ---------- The order of keys ----------

  lemma {:induction false} TextLessIrreflexive(a: Text)
    ensures !TextLess(a, a)
  {
    if a == [] {
    } else {
      TextLessIrreflexive(a[1..]);
    }
  }

  lemma {:induction false} TextLessTransitive(a: Text, b: Text, c: Text)
    requires TextLess(a, b) && TextLess(b, c)
    ensures TextLess(a, c)
  {
    if a != [] && a[0] == b[0] == c[0] { TextLessTransitive(a[1..], b[1..], c[1..]); }
  }

  lemma {:induction false} TextLessTotal(a: Text, b: Text)
    ensures a == b || TextLess(a, b) || TextLess(b, a)
  {
    if a != [] && b != [] && a[0] == b[0] {
      TextLessTotal(a[1..], b[1..]);
      if a[1..] == b[1..] {
        assert a == [a[0]] + a[1..] == b;
      }
    }
  }

  /** The first byte in which two texts differ decides, and a text comes after its proper
      prefixes. */
  lemma {:induction false} TextLessIff(a: Text, b: Text)
    ensures TextLess(a, b) <==> exists n: nat :: DecidesAt(a, b, n)
  {
    if a == [] || b == [] {
      assert b != [] ==> DecidesAt(a, b, 0);
    } else if a[0] != b[0] {
      assert a[0] < b[0] ==> DecidesAt(a, b, 0);
      assert forall n: nat | n > 0 && DecidesAt(a, b, n) :: a[..n][0] == b[..n][0];
    } else {
      TextLessIff(a[1..], b[1..]);
      forall n: nat ensures DecidesAt(a, b, n) <==> n > 0 && DecidesAt(a[1..], b[1..], n - 1) {
        if n > 0 && n <= |a| && n <= |b| {
          assert a[..n] == [a[0]] + a[1..][..n - 1] && b[..n] == [b[0]] + b[1..][..n - 1];
          assert a[..n][1..] == a[1..][..n - 1] && b[..n][1..] == b[1..][..n - 1];
        }
      }
      if n: nat :| DecidesAt(a[1..], b[1..], n) { assert DecidesAt(a, b, n + 1); }
    }
  }

  /** The texts agree on `n` bytes, and then `a` ends or has the smaller byte. */
  ghost predicate DecidesAt(a: Text, b: Text, n: nat) {
    n <= |a| && n < |b| && a[..n] == b[..n] && (n < |a| ==> a[n] < b[n])
  }

  /** Indices are ordered as numbers, and names as texts. */
  lemma KeyLessIs(a: Key, b: Key)
    ensures a.Index? && b.Index? ==> (KeyLess(a, b) <==> a.index < b.index)
    ensures a.Name? && b.Name? ==> (KeyLess(a, b) <==> exists n: nat :: DecidesAt(a.name, b.name, n))
  {
    if a.Name? && b.Name? { TextLessIff(a.name, b.name); }
  }

  lemma KeyLessIrreflexive(a: Key)
    ensures !KeyLess(a, a)
  {
    if a.Name? { TextLessIrreflexive(a.name); }
  }

  lemma KeyLessTransitive(a: Key, b: Key, c: Key)
    requires KeyLess(a, b) && KeyLess(b, c)
    ensures KeyLess(a, c)
  {
    if a.Name? { TextLessTransitive(a.name, b.name, c.name); }
  }

  lemma KeyLessTotal(a: Key, b: Key)
    ensures a == b || KeyLess(a, b) || KeyLess(b, a)
  {
    if a.Name? && b.Name? { TextLessTotal(a.name, b.name); }
  }

  // ---------- Facts about the map ----------

  lemma LowerBoundIs(nodes: seq<Node>, key: Key, i: nat)
    requires i <= |nodes|
    requires forall j | 0 <= j < i :: KeyLess(nodes[j].key, key)
    requires i < |nodes| ==> !KeyLess(nodes[i].key, key)
    ensures LowerBound(nodes, key) == i
  {
  }

  lemma LookupSelf(nodes: seq<Node>, i: nat)
    requires Sorted(nodes) && i < |nodes|
    ensures HasKey(nodes, nodes[i].key) && LowerBound(nodes, nodes[i].key) == i
    ensures Lookup(nodes, nodes[i].key) == nodes[i].value
  {
    KeyLessIrreflexive(nodes[i].key);
    LowerBoundIs(nodes, nodes[i].key, i);
  }

  lemma PutAtEnd(nodes: seq<Node>, key: Key, value: Value)
    requires forall i | 0 <= i < |nodes| :: KeyLess(nodes[i].key, key)
    ensures Put(nodes, key, value) == nodes + [Node(key, value)]
    ensures Lookup(nodes, key) == Null && !HasKey(nodes, key)
  {
    LowerBoundIs(nodes, key, |nodes|);
  }

  /** Assigning keeps the nodes in key order, and changes what one key reads as. */
  lemma PutKeepsOrder(nodes: seq<Node>, key: Key, value: Value)
    requires Sorted(nodes)
    ensures Sorted(Put(nodes, key, value))
  {
    var i := LowerBound(nodes, key);
    if !HasKey(nodes, key) {
      forall j | i <= j < |nodes| ensures KeyLess(key, nodes[j].key) {
        KeyLessTotal(key, nodes[i].key);
        if i < j { KeyLessTransitive(key, nodes[i].key, nodes[j].key); }
      }
    }
  }

  lemma PutReads(nodes: seq<Node>, key: Key, value: Value)
    ensures LowerBound(Put(nodes, key, value), key) == LowerBound(nodes, key)
    ensures HasKey(Put(nodes, key, value), key) && Lookup(Put(nodes, key, value), key) == value
    ensures Put(Demand(nodes, key), key, value) == Put(nodes, key, value)
    ensures HasKey(Demand(nodes, key), key) && Lookup(Demand(nodes, key), key) == Lookup(nodes, key)
  {
    var i := LowerBound(nodes, key);
    var p, d := Put(nodes, key, value), Demand(nodes, key);
    KeyLessIrreflexive(key);
    assert forall j | 0 <= j < i :: p[j].key == nodes[j].key == d[j].key;
    LowerBoundIs(p, key, i);
    LowerBoundIs(d, key, i);
  }

  lemma HasKeyIs(nodes: seq<Node>, key: Key)
    requires Sorted(nodes)
    ensures HasKey(nodes, key) <==> exists i | 0 <= i < |nodes| :: nodes[i].key == key
  {
    if i :| 0 <= i < |nodes| && nodes[i].key == key { LookupSelf(nodes, i); }
  }

  /** The keys of the map after assigning. */
  lemma PutHas(nodes: seq<Node>, key: Key, value: Value, other: Key)
    requires Sorted(nodes)
    ensures HasKey(Put(nodes, key, value), other) <==> other == key || HasKey(nodes, other)
  {
    hide LowerBound, HasKey;
    PutKeepsOrder(nodes, key, value);
    PutReads(nodes, key, value);
    HasKeyIs(nodes, other);
    HasKeyIs(Put(nodes, key, value), other);
    if other != key { PutKeys(nodes, key, value, other); }
  }

  lemma PutKeys(nodes: seq<Node>, key: Key, value: Value, other: Key)
    requires other != key
    ensures (exists i | 0 <= i < |Put(nodes, key, value)| :: Put(nodes, key, value)[i].key == other)
            <==> exists i | 0 <= i < |nodes| :: nodes[i].key == other
  {
    var r, b := Put(nodes, key, value), LowerBound(nodes, key);
    var shift := if HasKey(nodes, key) then 0 else 1;
    hide LowerBound;
    if i :| 0 <= i < |nodes| && nodes[i].key == other {
      assert r[if i < b then i else i + shift] == nodes[i];
    }
    if i :| 0 <= i < |r| && r[i].key == other {
      assert r[i] == nodes[if i < b then i else i - shift];
    }
  }

  /** Assigning leaves what other keys read as. */
  lemma PutLeaves(nodes: seq<Node>, key: Key, value: Value, other: Key)
    requires Sorted(nodes) && other != key
    ensures Lookup(Put(nodes, key, value), other) == Lookup(nodes, other)
  {
    var r, b := Put(nodes, key, value), LowerBound(nodes, key);
    var shift := if HasKey(nodes, key) then 0 else 1;
    PutHas(nodes, key, value, other);
    PutKeepsOrder(nodes, key, value);
    if HasKey(nodes, other) {
      var i := LowerBound(nodes, other);
      var k := if i < b then i else i + shift;
      FoundAt(nodes, key, value, i, k);
      LookupSelf(r, k);
    }
  }

  lemma FoundAt(nodes: seq<Node>, key: Key, value: Value, i: nat, k: nat)
    requires i < |nodes| && nodes[i].key != key
    requires k == if i < LowerBound(nodes, key) then i else if HasKey(nodes, key) then i else i + 1
    ensures k < |Put(nodes, key, value)| && Put(nodes, key, value)[k] == nodes[i]
  {
  }

  // ---------- Pointers into a tree ----------

  /** A `Value*` into the document, as the keys on the way from the root. */
  type Path = seq<Key>

  predicate Resolves(root: Value, path: Path) {
    path == [] || (IsContainer(root) && HasKey(root.nodes, path[0]) && Resolves(Lookup(root.nodes, path[0]), path[1..]))
  }

  function At(root: Value, path: Path): Value
    requires Resolves(root, path)
  {
    if path == [] then root else At(Lookup(root.nodes, path[0]), path[1..])
  }

  function WithNodes(v: Value, nodes: seq<Node>): Value
    requires IsContainer(v)
  {
    if v.Arr? then Arr(nodes) else Obj(nodes)
  }

  /** The document after assigning `v` through the pointer `path`. */
  function Store(root: Value, path: Path, v: Value): Value
    requires Resolves(root, path)
  {
    if path == [] then v
    else WithNodes(root, Put(root.nodes, path[0], Store(Lookup(root.nodes, path[0]), path[1..], v)))
  }

  lemma {:induction false} StoreThenAt(root: Value, path: Path, v: Value)
    requires Resolves(root, path)
    ensures Resolves(Store(root, path, v), path) && At(Store(root, path, v), path) == v
  {
    if path == [] {
    } else {
      var child := Lookup(root.nodes, path[0]);
      StoreThenAt(child, path[1..], v);
      PutReads(root.nodes, path[0], Store(child, path[1..], v));
    }
  }

  lemma PutTwice(nodes: seq<Node>, key: Key, v: Value, w: Value)
    ensures Put(Put(nodes, key, v), key, w) == Put(nodes, key, w)
  {
    PutReads(nodes, key, v);
  }

  /** A later assignment through the same pointer hides an earlier one. */
  lemma {:induction false} StoreTwice(root: Value, path: Path, v: Value, w: Value)
    requires Resolves(root, path)
    ensures Resolves(Store(root, path, v), path)
    ensures Store(Store(root, path, v), path, w) == Store(root, path, w)
  {
    StoreThenAt(root, path, v);
    if path == [] {
    } else {
      var child := Lookup(root.nodes, path[0]);
      StoreTwice(child, path[1..], v, w);
      PutReads(root.nodes, path[0], Store(child, path[1..], v));
      PutTwice(root.nodes, path[0], Store(child, path[1..], v), Store(child, path[1..], w));
    }
  }

  /** A pointer one level deeper reads and assigns one key of the value above it. */
  lemma {:induction false} StoreChild(root: Value, path: Path, key: Key, v: Value)
    requires Resolves(root, path) && IsContainer(At(root, path)) && HasKey(At(root, path).nodes, key)
    ensures Resolves(root, path + [key])
    ensures At(root, path + [key]) == Lookup(At(root, path).nodes, key)
    ensures Store(root, path + [key], v)
         == Store(root, path, WithNodes(At(root, path), Put(At(root, path).nodes, key, v)))
  {
    var full := path + [key];
    if path == [] {
      assert full[1..] == [];
    } else {
      assert full[1..] == path[1..] + [key];
      StoreChild(Lookup(root.nodes, path[0]), path[1..], key, v);
    }
  }
}
