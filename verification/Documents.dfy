/** The meaning of a `Value`: a JSON document in which an array is a sequence (holes read
    as null), an integer is a number whatever its tag, and an object lists its members in
    key order. */
module Documents {
  import opened Chars
  import opened Decimal
  import opened Values

  datatype Member = Member(name: Text, value: Json)

  datatype Json =
    | JNull
    | JBool(b: bool)
    | JNumber(n: int)
    | JReal(d: Double)
    | JString(s: Text)
    | JArray(items: seq<Json>)
    | JObject(members: seq<Member>)

  function KeyText(k: Key): Text {
    if k.Name? then k.name else []
  }

  function Meaning(v: Value): Json {
    match v
    case Null => JNull
    case Int(i) => JNumber(i)
    case UInt(u) => JNumber(u)
    case Real(d) => JReal(d)
    case Str(s) => JString(s)
    case Bool(b) => JBool(b)
    case Arr(nodes) =>
      JArray(seq(ArraySize(nodes), i requires 0 <= i < ArraySize(nodes) =>
        if HasKey(nodes, Index(i)) then Meaning(nodes[LowerBound(nodes, Index(i))].value) else JNull))
    case Obj(nodes) =>
      JObject(seq(|nodes|, i requires 0 <= i < |nodes| => Member(KeyText(nodes[i].key), Meaning(nodes[i].value))))
  }

  /** What the scalars mean: an integer is the same number whatever its tag. */
  lemma MeaningOfScalar(n: int, d: Double, t: Text)
    ensures Meaning(Null) == JNull && Meaning(Int(n)) == Meaning(UInt(n)) == JNumber(n)
    ensures Meaning(Real(d)) == JReal(d) && Meaning(Str(t)) == JString(t)
    ensures Meaning(Bool(true)) == JBool(true) && Meaning(Bool(false)) == JBool(false)
  {
  }

  /** The `Value` the reader builds for a document: dense arrays, `intValue` where it fits. */
  function Embed(j: Json): Value {
    match j
    case JNull => Null
    case JBool(b) => Bool(b)
    case JNumber(n) => if n <= MAX_INT64 then Int(n) else UInt(n)
    case JReal(d) => Real(d)
    case JString(s) => Str(s)
    case JArray(items) => Arr(EmbedItems(items))
    case JObject(members) => Obj(EmbedMembers(members))
  }

  function EmbedItems(items: seq<Json>): (r: seq<Node>)
    ensures |r| == |items|
    ensures forall i | 0 <= i < |r| :: r[i] == Node(Index(i), Embed(items[i]))
  {
    if items == [] then [] else
      EmbedItems(items[..|items| - 1]) + [Node(Index(|items| - 1), Embed(items[|items| - 1]))]
  }

  function EmbedMembers(members: seq<Member>): (r: seq<Node>)
    ensures |r| == |members|
    ensures forall i | 0 <= i < |r| :: r[i] == Node(Name(members[i].name), Embed(members[i].value))
  {
    if members == [] then [] else
      EmbedMembers(members[..|members| - 1])
      + [Node(Name(members[|members| - 1].name), Embed(members[|members| - 1].value))]
  }

  lemma DenseReads(nodes: seq<Node>, i: nat)
    requires i < |nodes| && forall k | 0 <= k < |nodes| :: nodes[k].key == Index(k)
    ensures HasKey(nodes, Index(i)) && LowerBound(nodes, Index(i)) == i
  {
    LowerBoundIs(nodes, Index(i), i);
  }

  /** What an array without holes means. */
  lemma DenseMeans(nodes: seq<Node>)
    requires forall i | 0 <= i < |nodes| :: nodes[i].key == Index(i)
    ensures Meaning(Arr(nodes)).JArray? && |Meaning(Arr(nodes)).items| == |nodes|
    ensures forall i | 0 <= i < |nodes| :: Meaning(Arr(nodes)).items[i] == Meaning(nodes[i].value)
  {
    hide HasKey, LowerBound;
    assert ArraySize(nodes) == |nodes|;
    forall i | 0 <= i < |nodes| ensures HasKey(nodes, Index(i)) && LowerBound(nodes, Index(i)) == i {
      DenseReads(nodes, i);
    }
  }

  lemma ObjectMeans(nodes: seq<Node>, members: seq<Member>)
    requires |nodes| == |members|
    requires forall i | 0 <= i < |members| ::
               nodes[i].key == Name(members[i].name) && Meaning(nodes[i].value) == members[i].value
    ensures Meaning(Obj(nodes)) == JObject(members)
  {
    assert Meaning(Obj(nodes)).members == members;
  }

  /** What the reader builds for a document means that document. */
  lemma {:induction false} MeaningOfEmbed(j: Json)
    ensures Meaning(Embed(j)) == j
  {
    hide EmbedItems, EmbedMembers, HasKey, LowerBound;
    match j
    case JArray(items) =>
      var nodes := EmbedItems(items);
      DenseMeans(nodes);
      forall i | 0 <= i < |items| ensures Meaning(nodes[i].value) == items[i] {
        MeaningOfEmbed(items[i]);
      }
      assert Meaning(Arr(nodes)).items == items;
    case JObject(members) =>
      var nodes := EmbedMembers(members);
      forall i | 0 <= i < |members| ensures Meaning(nodes[i].value) == members[i].value {
        MeaningOfEmbed(members[i].value);
      }
      ObjectMeans(nodes, members);
    case _ =>
  }

  /** Member names strictly ascending at every level, as a `std::map` lists them. */
  ghost predicate Ordered(j: Json) {
    match j
    case JArray(items) => forall i | 0 <= i < |items| :: Ordered(items[i])
    case JObject(members) =>
      && (forall i, k | 0 <= i < k < |members| :: TextLess(members[i].name, members[k].name))
      && (forall i | 0 <= i < |members| :: Ordered(members[i].value))
    case _ => true
  }

  lemma {:induction false} MeaningIsOrdered(v: Value)
    requires Valid(v)
    ensures Ordered(Meaning(v))
  {
    match v
    case Arr(nodes) =>
      forall i | 0 <= i < ArraySize(nodes) ensures Ordered(Meaning(v).items[i]) {
        if HasKey(nodes, Index(i)) { MeaningIsOrdered(nodes[LowerBound(nodes, Index(i))].value); }
      }
    case Obj(nodes) =>
      forall i | 0 <= i < |nodes| ensures Ordered(Meaning(v).members[i].value) {
        MeaningIsOrdered(nodes[i].value);
      }
    case _ =>
  }

  /** No null at any depth. */
  ghost predicate NullFree(j: Json) {
    match j
    case JNull => false
    case JArray(items) => forall i | 0 <= i < |items| :: NullFree(items[i])
    case JObject(members) => forall i | 0 <= i < |members| :: NullFree(members[i].value)
    case _ => true
  }

  /** No array that holds one null and nothing else. */
  ghost predicate NoLoneNull(j: Json) {
    match j
    case JArray(items) => items != [JNull] && forall i | 0 <= i < |items| :: NoLoneNull(items[i])
    case JObject(members) => forall i | 0 <= i < |members| :: NoLoneNull(members[i].value)
    case _ => true
  }

  /** How deeply the reader nests `readValue` on a document: 1 for a scalar. */
  function Depth(j: Json): nat {
    match j
    case JArray(items) => 1 + ItemsDepth(items)
    case JObject(members) => 1 + MembersDepth(members)
    case _ => 1
  }

  function ItemsDepth(items: seq<Json>): nat {
    if items == [] then 0 else Max(Depth(items[0]), ItemsDepth(items[1..]))
  }

  function MembersDepth(members: seq<Member>): nat {
    if members == [] then 0 else Max(Depth(members[0].value), MembersDepth(members[1..]))
  }

  function Max(a: nat, b: nat): nat {
    if a < b then b else a
  }

  lemma {:induction false} ItemDepth(items: seq<Json>, i: nat)
    requires i < |items|
    ensures Depth(items[i]) <= ItemsDepth(items)
  {
    if i == 0 {
    } else {
      ItemDepth(items[1..], i - 1);
    }
  }

  lemma {:induction false} MemberDepth(members: seq<Member>, i: nat)
    requires i < |members|
    ensures Depth(members[i].value) <= MembersDepth(members)
  {
    if i == 0 {
    } else {
      MemberDepth(members[1..], i - 1);
    }
  }

  /** What `value[index]` and `value[name]` of the writers refer to. */
  lemma MeaningOfElement(v: Value, i: nat)
    requires v.Arr? && Valid(v) && i < ArraySize(v.nodes)
    ensures Meaning(v).JArray? && |Meaning(v).items| == ArraySize(v.nodes)
    ensures var e := Lookup(v.nodes, Index(i));
            Valid(e) && Meaning(e) == Meaning(v).items[i] && Depth(Meaning(e)) < Depth(Meaning(v))
  {
    ItemDepth(Meaning(v).items, i);
  }

  lemma MeaningOfMember(v: Value, i: nat)
    requires v.Obj? && Valid(v) && i < |v.nodes|
    ensures Meaning(v).JObject? && |Meaning(v).members| == |v.nodes|
            && v.nodes[i].key == Name(Meaning(v).members[i].name)
    ensures var e := Lookup(v.nodes, Name(KeyText(v.nodes[i].key)));
            Valid(e) && Meaning(e) == Meaning(v).members[i].value && Depth(Meaning(e)) < Depth(Meaning(v))
  {
    LookupSelf(v.nodes, i);
    MemberDepth(Meaning(v).members, i);
  }

  lemma MeaningOfContainer(v: Value)
    ensures v.Arr? ==> Meaning(v).JArray? && |Meaning(v).items| == ArraySize(v.nodes)
    ensures v.Obj? ==> Meaning(v).JObject? && |Meaning(v).members| == |v.nodes|
  {
  }
}
