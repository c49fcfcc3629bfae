/** The array operations of `Value`, which work in place on a map from indices to values,
    against operations on the sequence the array stands for.  Holes are allowed. */
module ArrayOps {
  import opened Decimal
  import opened Values

  ghost predicate ArrayNodes(nodes: seq<Node>) {
    Sorted(nodes) && forall i | 0 <= i < |nodes| :: nodes[i].key.Index?
  }

  /** The sequence an array stands for: as long as `size()`, with null in its holes. */
  function Elements(nodes: seq<Node>): (r: seq<Value>)
    ensures |r| == ArraySize(nodes)
  {
    seq(ArraySize(nodes), i requires 0 <= i < ArraySize(nodes) => Lookup(nodes, Index(i)))
  }

  /** The array as a partial function: the node at `i`, if there is one. */
  function Cell(nodes: seq<Node>, i: nat): Option<Value> {
    if HasKey(nodes, Index(i)) then Some(Lookup(nodes, Index(i))) else None
  }

  function OrNull(c: Option<Value>): Value {
    if c.Some? then c.value else Null
  }

  /** No holes. */
  ghost predicate Dense(nodes: seq<Node>) {
    forall i | 0 <= i < ArraySize(nodes) :: Cell(nodes, i).Some?
  }

  lemma LookupIsCell(nodes: seq<Node>, i: nat)
    ensures Lookup(nodes, Index(i)) == OrNull(Cell(nodes, i))
    ensures HasKey(nodes, Index(i)) <==> Cell(nodes, i).Some?
  {
  }

  lemma ElementsAre(nodes: seq<Node>)
    ensures forall i | 0 <= i < ArraySize(nodes) :: Elements(nodes)[i] == OrNull(Cell(nodes, i))
  {
  }

  // ---------- The map as a partial function ----------

  lemma CellIs(nodes: seq<Node>, i: nat)
    requires ArrayNodes(nodes)
    ensures forall k | 0 <= k < |nodes| :: nodes[k].key == Index(i) ==> Cell(nodes, i) == Some(nodes[k].value)
    ensures (forall k | 0 <= k < |nodes| :: nodes[k].key != Index(i)) ==> Cell(nodes, i) == None
  {
    forall k | 0 <= k < |nodes| && nodes[k].key == Index(i) ensures Cell(nodes, i) == Some(nodes[k].value) {
      LookupSelf(nodes, k);
    }
  }

  /** Nothing lies beyond the size, and the last place is taken. */
  lemma SizeBounds(nodes: seq<Node>)
    requires ArrayNodes(nodes)
    ensures forall i | ArraySize(nodes) <= i :: Cell(nodes, i) == None
    ensures ArraySize(nodes) > 0 ==> Cell(nodes, ArraySize(nodes) - 1).Some?
  {
    forall i | ArraySize(nodes) <= i ensures Cell(nodes, i) == None {
      CellIs(nodes, i);
      var last := |nodes| - 1;
      assert forall k | 0 <= k < |nodes| :: k == last || KeyLess(nodes[k].key, nodes[last].key);
    }
    if nodes != [] { LookupSelf(nodes, |nodes| - 1); }
  }

  /** An array is as long as `n` if nothing lies beyond `n` and `n - 1` is taken. */
  lemma SizeIs(nodes: seq<Node>, n: nat)
    requires ArrayNodes(nodes) && (n > 0 ==> Cell(nodes, n - 1).Some?) && forall i | n <= i :: Cell(nodes, i) == None
    ensures ArraySize(nodes) == n
  {
    SizeBounds(nodes);
  }

  /** Assignment changes one place. */
  lemma PutAt(nodes: seq<Node>, i: nat, value: Value)
    requires ArrayNodes(nodes)
    ensures ArrayNodes(Put(nodes, Index(i), value))
    ensures forall j: nat :: Cell(Put(nodes, Index(i), value), j) == if j == i then Some(value) else Cell(nodes, j)
  {
    var r := Put(nodes, Index(i), value);
    PutKeepsOrder(nodes, Index(i), value);
    PutReads(nodes, Index(i), value);
    forall j: nat | j != i ensures Cell(r, j) == Cell(nodes, j) {
      PutKeeps(nodes, i, value, j);
    }
  }

  lemma PutKeeps(nodes: seq<Node>, i: nat, value: Value, j: nat)
    requires ArrayNodes(nodes) && ArrayNodes(Put(nodes, Index(i), value)) && j != i
    ensures Cell(Put(nodes, Index(i), value), j) == Cell(nodes, j)
  {
    hide LowerBound, Cell, Lookup;
    var r, b := Put(nodes, Index(i), value), LowerBound(nodes, Index(i));
    var shift := if HasKey(nodes, Index(i)) then 0 else 1;
    CellIs(r, j);
    CellIs(nodes, j);
    if k :| 0 <= k < |nodes| && nodes[k].key == Index(j) {
      assert r[if k < b then k else k + shift] == nodes[k];
    } else {
      assert forall m | 0 <= m < |r| && m != b :: r[m] == nodes[if m < b then m else m - shift];
    }
  }

  /** `operator[]` creates a null where there was a hole. */
  lemma DemandAt(nodes: seq<Node>, i: nat)
    requires ArrayNodes(nodes)
    ensures ArrayNodes(Demand(nodes, Index(i)))
    ensures forall j: nat ::
              Cell(Demand(nodes, Index(i)), j) == if j == i then Some(OrNull(Cell(nodes, i))) else Cell(nodes, j)
  {
    PutAt(nodes, i, Lookup(nodes, Index(i)));
    assert Demand(nodes, Index(i)) == Put(nodes, Index(i), Lookup(nodes, Index(i)));
  }

  /** `map::erase`. */
  function Erase(nodes: seq<Node>, key: Key): seq<Node> {
    var b := LowerBound(nodes, key);
    if HasKey(nodes, key) then nodes[..b] + nodes[b + 1..] else nodes
  }

  lemma EraseAt(nodes: seq<Node>, i: nat)
    requires ArrayNodes(nodes)
    ensures ArrayNodes(Erase(nodes, Index(i)))
    ensures forall j: nat :: Cell(Erase(nodes, Index(i)), j) == if j == i then None else Cell(nodes, j)
  {
    var r := Erase(nodes, Index(i));
    assert forall k | 0 <= k < |r| :: r[k] == nodes[if k < LowerBound(nodes, Index(i)) then k
                                                    else if |r| == |nodes| then k else k + 1];
    forall j: nat ensures Cell(r, j) == if j == i then None else Cell(nodes, j) {
      EraseKeeps(nodes, i, j);
    }
  }

  lemma EraseKeeps(nodes: seq<Node>, i: nat, j: nat)
    requires ArrayNodes(nodes) && ArrayNodes(Erase(nodes, Index(i)))
    ensures Cell(Erase(nodes, Index(i)), j) == if j == i then None else Cell(nodes, j)
  {
    hide LowerBound, Cell, Lookup;
    var r, b := Erase(nodes, Index(i)), LowerBound(nodes, Index(i));
    LookupIsCell(nodes, i);
    if HasKey(nodes, Index(i)) {
      CellIs(r, j);
      CellIs(nodes, j);
      assert forall k | 0 <= k < |r| :: r[k] == nodes[if k < b then k else k + 1];
      if j == i {
        assert forall k | 0 <= k < |nodes| && k != b ::
                 KeyLess(nodes[k].key, nodes[b].key) || KeyLess(nodes[b].key, nodes[k].key);
      } else if k :| 0 <= k < |nodes| && nodes[k].key == Index(j) {
        assert nodes[k] == r[if k < b then k else k - 1];
      }
    }
  }

  /** The places from `index` on have moved down by one, holes turning into nulls. */
  ghost predicate MovedDown(before: seq<Node>, nodes: seq<Node>, index: nat) {
    forall j: nat {:trigger Cell(nodes, j)} ::
      Cell(nodes, j) == (if ArraySize(before) <= j + 1 then None
                         else if j < index then Cell(before, j) else Some(OrNull(Cell(before, j + 1))))
  }

  // ---------- The operations ----------

  class ArrayValue {
    var nodes: seq<Node>

    ghost predicate Valid()
      reads this
    {
      ArrayNodes(nodes)
    }

    constructor ()
      ensures Valid() && nodes == [] && Elements(nodes) == []
    {
      nodes := [];
    }

    /** Assignment through `operator[]`: one place changes, and a place beyond the end leaves
        holes in front of it. */
    method Assign(index: nat, value: Value)
      requires Valid()
      modifies this
      ensures Valid()
      ensures forall j: nat :: Cell(nodes, j) == if j == index then Some(value) else old(Cell(nodes, j))
    {
      hide Put, Cell;
      PutAt(nodes, index, value);
      nodes := Put(nodes, Index(index), value);
    }

    /** `append`: adds at the end. */
    method Append(value: Value)
      requires Valid()
      modifies this
      ensures Valid() && Elements(nodes) == old(Elements(nodes)) + [value]
      ensures old(Dense(nodes)) ==> Dense(nodes)
    {
      hide Put, Cell, Elements, ArraySize;
      ghost var before := nodes;
      var size := ArraySize(nodes);
      SizeBounds(nodes);
      PutAt(nodes, size, value);
      nodes := Put(nodes, Index(size), value);
      SizeIs(nodes, size + 1);
      ElementsAre(before);
      ElementsAre(nodes);
    }

    /** `(*this)[i] = std::move((*this)[i - 1])`: both places exist afterwards, with their
        values exchanged. */
    method SwapDown(i: nat)
      requires Valid() && 0 < i
      modifies this
      ensures Valid()
      ensures forall j: nat :: Cell(nodes, j) ==
                if j == i then Some(OrNull(old(Cell(nodes, i - 1))))
                else if j == i - 1 then Some(OrNull(old(Cell(nodes, i)))) else old(Cell(nodes, j))
    {
      hide Put, Cell, Lookup;
      LookupIsCell(nodes, i);
      LookupIsCell(nodes, i - 1);
      var upper, lower := Lookup(nodes, Index(i)), Lookup(nodes, Index(i - 1));
      PutAt(nodes, i, lower);
      nodes := Put(nodes, Index(i), lower);
      PutAt(nodes, i - 1, upper);
      nodes := Put(nodes, Index(i - 1), upper);
    }

    /** `insert`: a downward chain of swaps, then an assignment.  On every array, holes or
        not, it inserts into the sequence; beyond the size it refuses. */
    method Insert(index: nat, value: Value) returns (ok: bool)
      requires Valid()
      modifies this
      ensures Valid() && (ok <==> index <= |old(Elements(nodes))|)
      ensures ok ==> Elements(nodes) == old(Elements(nodes))[..index] + [value] + old(Elements(nodes))[index..]
      ensures !ok ==> nodes == old(nodes)
      ensures old(Dense(nodes)) ==> Dense(nodes)
    {
      hide Put, Cell, Elements, ArraySize, Lookup, ArrayNodes;
      var length := ArraySize(nodes);
      if index > length {
        return false;
      }
      SizeBounds(nodes);
      ghost var before := nodes;
      var i := length;
      while i > index
        invariant index <= i <= length && Valid()
        invariant forall j: nat | j < i :: Cell(nodes, j) == Cell(before, j)
        invariant forall j: nat | i < j <= length :: Cell(nodes, j) == Some(OrNull(Cell(before, j - 1)))
        invariant forall j: nat | j > length :: Cell(nodes, j) == None
        invariant OrNull(Cell(nodes, i)) == Null
      {
        SwapDown(i);
        i := i - 1;
      }
      PutAt(nodes, index, value);
      nodes := Put(nodes, Index(index), value);
      SizeIs(nodes, length + 1);
      Inserted(before, nodes, index, value);
      return true;
    }

    /** `removeIndex`: refuses where there is no node.  Otherwise it removes the element from
        the sequence, except that removing the last element uncovers the holes before it. */
    method RemoveIndex(index: nat) returns (ok: bool, removed: Value)
      requires Valid()
      modifies this
      ensures Valid() && (ok <==> old(Cell(nodes, index).Some?))
      ensures !ok ==> nodes == old(nodes)
      ensures ok ==> index < |old(Elements(nodes))| && removed == old(Elements(nodes))[index]
      ensures ok ==> MovedDown(old(nodes), nodes, index)
      ensures ok ==> (Elements(nodes) == old(Elements(nodes))[..index] + old(Elements(nodes))[index + 1..]
                      <==> (index + 1 < |old(Elements(nodes))| || index == 0 || old(Cell(nodes, index - 1).Some?)))
      ensures old(Dense(nodes)) ==> Dense(nodes)
    {
      hide Put, Demand, Erase, Cell, Elements, ArraySize, Lookup, ArrayNodes, HasKey;
      removed := Null;
      LookupIsCell(nodes, index);
      if !HasKey(nodes, Index(index)) {
        return false, removed;
      }
      SizeBounds(nodes);
      ElementsAre(nodes);
      removed := Lookup(nodes, Index(index));
      ghost var before := nodes;
      var oldSize := ArraySize(nodes);
      var i := index;
      while i < oldSize - 1
        invariant index <= i <= oldSize - 1 && Valid()
        invariant forall j: nat | j < index || j > i :: Cell(nodes, j) == Cell(before, j)
        invariant forall j: nat | index <= j < i :: Cell(nodes, j) == Some(OrNull(Cell(before, j + 1)))
        invariant OrNull(Cell(nodes, i)) == OrNull(Cell(before, i))
      {
        DemandAt(nodes, i + 1);
        nodes := Demand(nodes, Index(i + 1));
        LookupIsCell(nodes, i + 1);
        PutAt(nodes, i, Lookup(nodes, Index(i + 1)));
        nodes := Put(nodes, Index(i), Lookup(nodes, Index(i + 1)));
        i := i + 1;
      }
      EraseAt(nodes, oldSize - 1);
      nodes := Erase(nodes, Index(oldSize - 1));
      ok := true;
      Removed(before, nodes, index);
    }

    /** `resize`; `ok` is false where the assertion on the new size fails, which is exactly
        where shrinking would end in a hole. */
    method Resize(newSize: nat) returns (ok: bool)
      requires Valid()
      modifies this
      ensures Valid()
      ensures ok <==> newSize == 0 || newSize > |old(Elements(nodes))| || old(Cell(nodes, newSize - 1).Some?)
      ensures newSize <= |old(Elements(nodes))|
              ==> forall j: nat :: Cell(nodes, j) == if newSize <= j then None else old(Cell(nodes, j))
      ensures ok && newSize <= |old(Elements(nodes))| ==> Elements(nodes) == old(Elements(nodes))[..newSize]
      ensures newSize > |old(Elements(nodes))|
              ==> Elements(nodes) == old(Elements(nodes)) + seq(newSize - |old(Elements(nodes))|, _ => Null)
      ensures old(Dense(nodes)) ==> ok && Dense(nodes)
    {
      ghost var before := nodes;
      var oldSize := ArraySize(nodes);
      if newSize == 0 {
        nodes := [];
        return true;
      }
      if newSize > oldSize {
        Grow(newSize);
        return true;
      }
      Shrink(newSize);
      ok := ArraySize(nodes) == newSize;
      Shrunk(before, nodes, newSize);
    }

    /** The growing loop of `resize`. */
    method Grow(newSize: nat)
      requires Valid() && newSize > ArraySize(nodes)
      modifies this
      ensures Valid() && (old(Dense(nodes)) ==> Dense(nodes))
      ensures Elements(nodes) == old(Elements(nodes)) + seq(newSize - |old(Elements(nodes))|, _ => Null)
    {
      hide Demand, Cell, Elements, ArraySize, ArrayNodes;
      SizeBounds(nodes);
      ghost var before := nodes;
      var oldSize := ArraySize(nodes);
      for i := oldSize to newSize
        invariant Valid()
        invariant forall j: nat :: Cell(nodes, j) == if oldSize <= j < i then Some(Null) else Cell(before, j)
      {
        DemandAt(nodes, i);
        nodes := Demand(nodes, Index(i));
      }
      SizeIs(nodes, newSize);
      ElementsAre(before);
      ElementsAre(nodes);
    }

    /** The shrinking loop of `resize`. */
    method Shrink(newSize: nat)
      requires Valid() && newSize <= ArraySize(nodes)
      modifies this
      ensures Valid()
      ensures forall j: nat :: Cell(nodes, j) == if newSize <= j then None else old(Cell(nodes, j))
    {
      hide Erase, Cell, ArraySize, ArrayNodes;
      SizeBounds(nodes);
      ghost var before := nodes;
      var oldSize := ArraySize(nodes);
      for index := newSize to oldSize
        invariant Valid()
        invariant forall j: nat :: Cell(nodes, j) == if newSize <= j < index then None else Cell(before, j)
      {
        EraseAt(nodes, index);
        nodes := Erase(nodes, Index(index));
      }
    }
  }

  lemma NothingIn(i: nat)
    ensures Cell([], i) == None
  {
  }

  /** An array with places 0 and 2 and a hole between them. */
  method WithHole(a: Value, b: Value) returns (v: ArrayValue)
    ensures fresh(v) && v.Valid() && ArraySize(v.nodes) == 3
    ensures forall j: nat :: Cell(v.nodes, j) == if j == 0 then Some(a) else if j == 2 then Some(b) else None
  {
    hide Cell, ArraySize, Elements;
    v := new ArrayValue();
    forall j: nat ensures Cell(v.nodes, j) == None {
      NothingIn(j);
    }
    v.Assign(0, a);
    v.Assign(2, b);
    SizeIs(v.nodes, 3);
  }

  /** Removing the last of three elements leaves one, where two were to be expected. */
  method RemovingUncoversHole(a: Value, b: Value) returns (before: seq<Value>, ok: bool, after: seq<Value>)
    ensures before == [a, Null, b] && ok && after == [a]
  {
    hide Cell, ArraySize;
    var v := WithHole(a, b);
    ElementsAre(v.nodes);
    before := Elements(v.nodes);
    assert before == [a, Null, b];
    var removed;
    ghost var was := v.nodes;
    ok, removed := v.RemoveIndex(2);
    assert Cell(v.nodes, 0) == Some(a) && Cell(was, 1) == None;
    forall i: nat | 1 <= i ensures Cell(v.nodes, i) == None {
      if i == 1 { assert Cell(v.nodes, i) == Cell(was, i); }
    }
    SizeIs(v.nodes, 1);
    ElementsAre(v.nodes);
    after := Elements(v.nodes);
  }

  /** Shrinking to two elements fails the assertion at the end of `resize`. */
  method ShrinkingEndsInHole(a: Value, b: Value) returns (ok: bool, after: seq<Value>)
    ensures !ok && after == [a]
  {
    hide Cell, ArraySize;
    var v := WithHole(a, b);
    ok := v.Resize(2);
    SizeIs(v.nodes, 1);
    ElementsAre(v.nodes);
    after := Elements(v.nodes);
  }

  // ---------- What the loops have done ----------

  lemma Inserted(before: seq<Node>, nodes: seq<Node>, index: nat, value: Value)
    requires index <= ArraySize(before) && ArraySize(nodes) == ArraySize(before) + 1
    requires forall j: nat | j < index :: Cell(nodes, j) == Cell(before, j)
    requires Cell(nodes, index) == Some(value)
    requires forall j: nat | index < j <= ArraySize(before) :: Cell(nodes, j) == Some(OrNull(Cell(before, j - 1)))
    ensures Elements(nodes) == Elements(before)[..index] + [value] + Elements(before)[index..]
    ensures Dense(before) ==> Dense(nodes)
  {
    hide Cell, Elements, ArraySize;
    ElementsAre(before);
    ElementsAre(nodes);
  }

  lemma Removed(before: seq<Node>, nodes: seq<Node>, index: nat)
    requires ArrayNodes(before) && ArrayNodes(nodes) && index < ArraySize(before)
    requires forall j: nat | j < index && j < ArraySize(before) - 1 :: Cell(nodes, j) == Cell(before, j)
    requires forall j: nat | index <= j < ArraySize(before) - 1 :: Cell(nodes, j) == Some(OrNull(Cell(before, j + 1)))
    requires forall j: nat | ArraySize(before) - 1 <= j :: Cell(nodes, j) == None
    ensures Elements(nodes) == Elements(before)[..index] + Elements(before)[index + 1..]
            <==> index + 1 < ArraySize(before) || index == 0 || Cell(before, index - 1).Some?
    ensures Dense(before) ==> Dense(nodes)
  {
    hide Cell, Elements, ArraySize, ArrayNodes;
    SizeBounds(nodes);
    ElementsAre(before);
    ElementsAre(nodes);
    var n := ArraySize(before) - 1;
    if index + 1 < ArraySize(before) || index == 0 || Cell(before, index - 1).Some? {
      SizeIs(nodes, n);
    }
  }

  lemma Shrunk(before: seq<Node>, nodes: seq<Node>, newSize: nat)
    requires ArrayNodes(before) && ArrayNodes(nodes) && 0 < newSize <= ArraySize(before)
    requires forall j: nat :: Cell(nodes, j) == if newSize <= j then None else Cell(before, j)
    ensures ArraySize(nodes) == newSize <==> Cell(before, newSize - 1).Some?
    ensures ArraySize(nodes) == newSize ==> Elements(nodes) == Elements(before)[..newSize]
    ensures Dense(before) ==> Dense(nodes)
  {
    hide Cell, Elements, ArraySize, ArrayNodes;
    SizeBounds(nodes);
    ElementsAre(before);
    ElementsAre(nodes);
    if Cell(before, newSize - 1).Some? {
      SizeIs(nodes, newSize);
    }
  }
}
