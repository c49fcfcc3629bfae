/** When reading back a written document restores it: the exact condition on the document, the
    writer's settings and the reader's features. */
module Restoring {
  import opened Chars
  import opened Decimal
  import opened Utf8
  import opened Quoting
  import opened Values
  import opened Documents
  import opened Lexing
  import opened Parsing
  import opened Layout
  import opened Outcomes
  import opened RoundTrip

  /** The string survives quoting with this writer. */
  predicate Storable(s: Text, w: Style) {
    w.emitUTF8 || WellFormed(s)
  }

  /** Every string and every name of the document survives quoting. */
  ghost predicate AllStorable(j: Json, w: Style) {
    match j
    case JString(s) => Storable(s, w)
    case JArray(items) => forall i | 0 <= i < |items| :: AllStorable(items[i], w)
    case JObject(members) =>
      forall i | 0 <= i < |members| :: Storable(members[i].name, w) && AllStorable(members[i].value, w)
    case _ => true
  }

  ghost predicate NamesShort(j: Json) {
    match j
    case JArray(items) => forall i | 0 <= i < |items| :: NamesShort(items[i])
    case JObject(members) =>
      forall i | 0 <= i < |members| :: |members[i].name| < MAX_KEY_LENGTH && NamesShort(members[i].value)
    case _ => true
  }

  /** No null is lost: none is dropped; or the reader allows for dropped nulls, and there is
      neither a null document nor an array of one null; or there is no null. */
  ghost predicate NullsKept(f: Features, j: Json, w: Style) {
    w.dropNull ==> if f.allowDroppedNullPlaceholders then j != JNull && NoLoneNull(j) else NullFree(j)
  }

  lemma StorableIs(s: Text, w: Style)
    ensures Normal(s, w.emitUTF8) == s <==> Storable(s, w)
  {
    if w.emitUTF8 { NormalOfRawBytes(s); } else { KeptIffWellFormed(s); }
  }

  // ---------- Strings and names in normal form ----------

  /** The document with every string and every name in the form it is read back in. */
  function Reread(j: Json, w: Style): Json {
    match j
    case JString(s) => JString(Normal(s, w.emitUTF8))
    case JArray(items) => JArray(seq(|items|, i requires 0 <= i < |items| => Reread(items[i], w)))
    case JObject(members) => JObject(seq(|members|, i requires 0 <= i < |members| => RereadMember(members[i], w)))
    case _ => j
  }

  function RereadMember(m: Member, w: Style): Member {
    Member(Normal(m.name, w.emitUTF8), Reread(m.value, w))
  }

  lemma {:induction false} RereadKeepsIffStorable(j: Json, w: Style)
    ensures Reread(j, w) == j <==> AllStorable(j, w)
  {
    hide Normal, Storable;
    match j
    case JString(s) => StorableIs(s, w);
    case JArray(items) =>
      var r := Reread(j, w).items;
      forall i | 0 <= i < |items| ensures r[i] == items[i] <==> AllStorable(items[i], w) {
        RereadKeepsIffStorable(items[i], w);
      }
      assert r == items <==> forall i | 0 <= i < |items| :: r[i] == items[i];
    case JObject(members) =>
      var r := Reread(j, w).members;
      forall i | 0 <= i < |members|
        ensures r[i] == members[i] <==> Storable(members[i].name, w) && AllStorable(members[i].value, w)
      {
        assert r[i] == RereadMember(members[i], w);
        StorableIs(members[i].name, w);
        RereadKeepsIffStorable(members[i].value, w);
      }
      assert r == members <==> forall i | 0 <= i < |members| :: r[i] == members[i];
    case _ =>
  }

  // ---------- What is built is canonical ----------

  /** The value is the one its meaning is read as, and all its strings are in normal form. */
  ghost predicate Canonical(v: Value, w: Style) {
    Embed(Meaning(v)) == v && Reread(Meaning(v), w) == Meaning(v)
  }

  ghost predicate CanonicalNode(n: Node, w: Style) {
    n.key.Name? && Normal(n.key.name, w.emitUTF8) == n.key.name && Canonical(n.value, w)
  }

  lemma CanonicalArray(nodes: seq<Node>, w: Style)
    requires forall i | 0 <= i < |nodes| :: nodes[i].key == Index(i) && Canonical(nodes[i].value, w)
    ensures Canonical(Arr(nodes), w)
  {
    hide Meaning, Embed, EmbedItems;
    DenseMeans(nodes);
    var items := Meaning(Arr(nodes)).items;
    EmbedOfArray(items);
    assert EmbedItems(items) == nodes;
    assert Reread(JArray(items), w).items == items;
  }

  lemma EmbedOfArray(items: seq<Json>)
    ensures Embed(JArray(items)) == Arr(EmbedItems(items))
  {
  }

  lemma EmbedOfObject(members: seq<Member>)
    ensures Embed(JObject(members)) == Obj(EmbedMembers(members))
  {
  }

  lemma CanonicalObject(nodes: seq<Node>, w: Style)
    requires forall i | 0 <= i < |nodes| :: CanonicalNode(nodes[i], w)
    ensures Canonical(Obj(nodes), w)
  {
    hide Embed, EmbedMembers, Normal;
    var members := Meaning(Obj(nodes)).members;
    EmbedOfObject(members);
    assert EmbedMembers(members) == nodes;
    assert Reread(JObject(members), w).members == members;
  }

  lemma CanonicalScalar(v: Value, w: Style)
    requires !IsContainer(v) && (v.Int? ==> v.i <= MAX_INT64) && (v.UInt? ==> v.u > MAX_INT64)
    requires v.Str? ==> Normal(v.s, w.emitUTF8) == v.s
    ensures Canonical(v, w)
  {
    hide Normal;
  }

  lemma {:induction false} BuiltIsCanonical(f: Features, j: Json, w: Style)
    ensures Canonical(Built(f, j, w), w)
    decreases j, 1
  {
    hide Canonical, Normal, KeptItems, BuiltItems, BuiltMembers;
    match j
    case JArray(items) =>
      var k := KeptItems(f, items, w);
      forall i | 0 <= i < k ensures Canonical(BuiltItems(f, items, k, w)[i].value, w) {
        BuiltIsCanonical(f, items[i], w);
      }
      CanonicalArray(BuiltItems(f, items, k, w), w);
    case JObject(members) =>
      BuiltNodesCanonical(f, members, |members|, w);
      CanonicalObject(BuiltMembers(f, members, |members|, w), w);
    case JString(s) =>
      NormalIsIdempotent(s, w.emitUTF8);
      CanonicalScalar(Built(f, j, w), w);
    case _ => CanonicalScalar(Built(f, j, w), w);
  }

  lemma {:induction false} BuiltNodesCanonical(f: Features, members: seq<Member>, k: nat, w: Style)
    requires k <= |members|
    ensures forall n | n in BuiltMembers(f, members, k, w) :: CanonicalNode(n, w)
    decreases members, 0, k
  {
    hide Built, Canonical, Normal, Put;
    if k == 0 {
    } else {
      var m := members[k - 1];
      var name := Normal(m.name, w.emitUTF8);
      BuiltNodesCanonical(f, members, k - 1, w);
      BuiltIsCanonical(f, m.value, w);
      NormalIsIdempotent(m.name, w.emitUTF8);
      assert CanonicalNode(Node(Name(name), Built(f, m.value, w)), w);
      PutNodes(BuiltMembers(f, members, k - 1, w), Name(name), Built(f, m.value, w));
    }
  }

  lemma PutNodes(nodes: seq<Node>, key: Key, value: Value)
    ensures forall n | n in Put(nodes, key, value) :: n in nodes || n == Node(key, value)
  {
    hide LowerBound;
    var r, b := Put(nodes, key, value), LowerBound(nodes, key);
    var shift := if HasKey(nodes, key) then 0 else 1;
    forall i | 0 <= i < |r| ensures r[i] in nodes || r[i] == Node(key, value) {
      if i != b { assert r[i] == nodes[if i < b then i else i - shift]; }
    }
  }

  // ---------- In order, and with nothing lost ----------

  /** The names of the members, as they are read back, are strictly ascending. */
  ghost predicate InOrder(members: seq<Member>, w: Style) {
    forall i, k | 0 <= i < k < |members| ::
      TextLess(Normal(members[i].name, w.emitUTF8), Normal(members[k].name, w.emitUTF8))
  }

  ghost predicate NormalOrdered(j: Json, w: Style) {
    match j
    case JArray(items) => forall i | 0 <= i < |items| :: NormalOrdered(items[i], w)
    case JObject(members) => InOrder(members, w) && forall i | 0 <= i < |members| :: NormalOrdered(members[i].value, w)
    case _ => true
  }

  /** No array loses a null at its end. */
  ghost predicate Untrimmed(f: Features, j: Json, w: Style) {
    match j
    case JArray(items) => !LosesLast(f, items, w) && forall i | 0 <= i < |items| :: Untrimmed(f, items[i], w)
    case JObject(members) => forall i | 0 <= i < |members| :: Untrimmed(f, members[i].value, w)
    case _ => true
  }

  /** What is built is the document in normal form exactly when no two names of an object fall
      together or change places, and no array loses a null. */
  lemma {:induction false} BuiltIsReread(f: Features, j: Json, w: Style)
    ensures Built(f, j, w) == Embed(Reread(j, w)) <==> NormalOrdered(j, w) && Untrimmed(f, j, w)
    decreases j, 1
  {
    hide Built, Embed, Normal, InOrder, LosesLast;
    match j
    case JArray(items) => BuiltArrayIsReread(f, items, w);
    case JObject(members) => BuiltObjectIsReread(f, members, w);
    case _ => BuiltScalarIsReread(f, j, w);
  }

  lemma BuiltScalarIsReread(f: Features, j: Json, w: Style)
    requires !j.JArray? && !j.JObject?
    ensures Built(f, j, w) == Embed(Reread(j, w))
  {
    hide Normal;
  }

  lemma {:induction false} BuiltArrayIsReread(f: Features, items: seq<Json>, w: Style)
    ensures Built(f, JArray(items), w) == Embed(Reread(JArray(items), w))
            <==> NormalOrdered(JArray(items), w) && Untrimmed(f, JArray(items), w)
    decreases items, |items| + 1
  {
    hide Built, Embed, LosesLast, BuiltItems, EmbedItems;
    var r := Reread(JArray(items), w).items;
    EmbedOfArray(r);
    BuiltArray(f, items, w);
    var a, b := BuiltItems(f, items, KeptItems(f, items, w), w), EmbedItems(r);
    forall i | 0 <= i < |items|
      ensures Built(f, items[i], w) == Embed(r[i]) <==> NormalOrdered(items[i], w) && Untrimmed(f, items[i], w)
    {
      BuiltIsReread(f, items[i], w);
    }
    if a == b {
      forall i | 0 <= i < |items| ensures Built(f, items[i], w) == Embed(r[i]) { assert a[i] == b[i]; }
    }
  }

  lemma {:induction false} MembersInOrder(f: Features, members: seq<Member>, k: nat, w: Style)
    requires k <= |members| && InOrder(members, w)
    ensures |BuiltMembers(f, members, k, w)| == k
    ensures forall i | 0 <= i < k ::
              BuiltMembers(f, members, k, w)[i]
              == Node(Name(Normal(members[i].name, w.emitUTF8)), Built(f, members[i].value, w))
  {
    hide Built, Normal, Put;
    if k == 0 {
    } else {
      var m := members[k - 1];
      MembersInOrder(f, members, k - 1, w);
      PutAtEnd(BuiltMembers(f, members, k - 1, w), Name(Normal(m.name, w.emitUTF8)), Built(f, m.value, w));
    }
  }

  /** Nodes in the order of the names show that the names are in order. */
  lemma OrderShows(nodes: seq<Node>, members: seq<Member>, w: Style)
    requires Sorted(nodes) && |nodes| == |members|
    requires forall i | 0 <= i < |members| :: nodes[i].key == Name(Normal(members[i].name, w.emitUTF8))
    ensures InOrder(members, w)
  {
    hide Normal, TextLess;
    forall i, k | 0 <= i < k < |members|
      ensures TextLess(Normal(members[i].name, w.emitUTF8), Normal(members[k].name, w.emitUTF8))
    {
      assert KeyLess(nodes[i].key, nodes[k].key);
    }
  }

  lemma {:induction false} BuiltObjectIsReread(f: Features, members: seq<Member>, w: Style)
    ensures Built(f, JObject(members), w) == Embed(Reread(JObject(members), w))
            <==> NormalOrdered(JObject(members), w) && Untrimmed(f, JObject(members), w)
    decreases members, |members| + 1
  {
    hide Built, Embed, Normal, InOrder, BuiltMembers, EmbedMembers;
    var r := Reread(JObject(members), w).members;
    EmbedOfObject(r);
    BuiltObject(f, members, w);
    var a, b := BuiltMembers(f, members, |members|, w), EmbedMembers(r);
    forall i | 0 <= i < |members|
      ensures Built(f, members[i].value, w) == Embed(r[i].value)
              <==> NormalOrdered(members[i].value, w) && Untrimmed(f, members[i].value, w)
    {
      assert r[i] == RereadMember(members[i], w);
      BuiltIsReread(f, members[i].value, w);
    }
    if a == b {
      BuiltMembersSorted(f, members, |members|, w);
      forall i | 0 <= i < |members| ensures a[i].key == Name(Normal(members[i].name, w.emitUTF8)) {
        assert a[i] == b[i] && r[i] == RereadMember(members[i], w);
      }
      OrderShows(a, members, w);
    }
    if InOrder(members, w) {
      MembersInOrder(f, members, |members|, w);
      assert a == b <==> forall i | 0 <= i < |members| :: a[i] == b[i];
    }
  }

  lemma BuiltObject(f: Features, members: seq<Member>, w: Style)
    ensures Built(f, JObject(members), w) == Obj(BuiltMembers(f, members, |members|, w))
  {
  }

  /** Names that survive quoting stay in order. */
  lemma {:induction false} StorableStaysOrdered(j: Json, w: Style)
    requires Ordered(j) && AllStorable(j, w)
    ensures NormalOrdered(j, w)
  {
    hide Normal, Storable;
    match j
    case JArray(items) =>
      forall i | 0 <= i < |items| ensures NormalOrdered(items[i], w) { StorableStaysOrdered(items[i], w); }
    case JObject(members) =>
      forall i | 0 <= i < |members|
        ensures Normal(members[i].name, w.emitUTF8) == members[i].name && NormalOrdered(members[i].value, w)
      {
        StorableIs(members[i].name, w);
        StorableStaysOrdered(members[i].value, w);
      }
    case _ =>
  }

  /** What is built means the document exactly when all its strings and names survive quoting
      and no array loses a null. */
  lemma BuiltRestoresIff(f: Features, j: Json, w: Style)
    requires Ordered(j)
    ensures Meaning(Built(f, j, w)) == j <==> AllStorable(j, w) && Untrimmed(f, j, w)
  {
    hide Built, Embed, Meaning, Reread, AllStorable, Untrimmed, NormalOrdered, Ordered;
    BuiltIsCanonical(f, j, w);
    BuiltIsReread(f, j, w);
    RereadKeepsIffStorable(j, w);
    MeaningOfEmbed(j);
    if AllStorable(j, w) { StorableStaysOrdered(j, w); }
  }

  // ---------- When there is a problem ----------

  /** No name is too long as it is read back. */
  ghost predicate NormalShort(j: Json, w: Style) {
    match j
    case JArray(items) => forall i | 0 <= i < |items| :: NormalShort(items[i], w)
    case JObject(members) => forall i | 0 <= i < |members| :: ShortMember(members[i], w)
    case _ => true
  }

  ghost predicate ShortMember(m: Member, w: Style) {
    |Normal(m.name, w.emitUTF8)| < MAX_KEY_LENGTH && NormalShort(m.value, w)
  }

  /** No two names of an object are read back as one. */
  ghost predicate NamesDistinct(j: Json, w: Style)
    decreases j, 2
  {
    match j
    case JArray(items) => forall i | 0 <= i < |items| :: NamesDistinct(items[i], w)
    case JObject(members) => DistinctFrom(members, 0, w)
    case _ => true
  }

  ghost predicate DistinctFrom(members: seq<Member>, k: nat, w: Style)
    decreases members, 1
  {
    forall i | k <= i < |members| :: DistinctAt(members, i, w)
  }

  ghost predicate DistinctAt(members: seq<Member>, i: nat, w: Style)
    requires i < |members|
    decreases members, 0
  {
    !Repeats(members, i, w) && NamesDistinct(members[i].value, w)
  }

  /** The reader meets no dropped null that it does not allow for. */
  ghost predicate NullsReadable(f: Features, j: Json, w: Style) {
    w.dropNull && !f.allowDroppedNullPlaceholders ==> NullFree(j)
  }

  /** The verdict on a document that is not nested too deeply, whose names are not too long and
      whose nulls are readable: the only thing that can go wrong is a duplicate name. */
  ghost function DuplicateVerdict(f: Features, distinct: bool): Verdict {
    if f.rejectDupKeys && !distinct then Fails(DuplicateKey) else Fine
  }

  /** Where nothing else is wrong, reading fails exactly when the features reject duplicates and
      two names of some object are read back as one. */
  lemma {:induction false} FailsIffDuplicate(f: Features, j: Json, w: Style, depth: nat)
    requires NormalShort(j, w) && NullsReadable(f, j, w) && depth + Depth(j) <= f.stackLimit + 1
    ensures VerdictOf(f, j, w, depth) == DuplicateVerdict(f, NamesDistinct(j, w))
    decreases j, 1
  {
    hide ItemsVerdict, MembersVerdict, Normal, Repeats, ItemsDepth, MembersDepth;
    match j
    case JArray(items) => ItemsFailIff(f, items, 0, w, depth + 1);
    case JObject(members) => MembersFailIff(f, members, 0, w, depth + 1);
    case _ =>
  }

  lemma {:induction false} ItemsFailIff(f: Features, items: seq<Json>, k: nat, w: Style, depth: nat)
    requires k <= KeptItems(f, items, w) && NormalShort(JArray(items), w) && NullsReadable(f, JArray(items), w)
    requires depth + ItemsDepth(items) <= f.stackLimit + 1
    ensures ItemsVerdict(f, items, k, w, depth)
            == DuplicateVerdict(f, forall i | k <= i < |items| :: NamesDistinct(items[i], w))
    decreases items, 0, |items| - k
  {
    hide VerdictOf, Normal, Repeats, ItemsDepth, ItemsVerdict, Depth;
    if k == KeptItems(f, items, w) {
      ItemsVerdictEnd(f, items, w, depth);
    } else {
      ItemDepth(items, k);
      FailsIffDuplicate(f, items[k], w, depth);
      ItemsVerdictAt(f, items, k, w, depth);
      ItemsFailIff(f, items, k + 1, w, depth);
      assert (forall i | k <= i < |items| :: NamesDistinct(items[i], w))
        <==> NamesDistinct(items[k], w) && forall i | k + 1 <= i < |items| :: NamesDistinct(items[i], w);
    }
  }

  lemma ItemsVerdictEnd(f: Features, items: seq<Json>, w: Style, depth: nat)
    ensures ItemsVerdict(f, items, KeptItems(f, items, w), w, depth) == Fine
    ensures forall i | KeptItems(f, items, w) <= i < |items| :: items[i] == JNull
  {
    hide VerdictOf;
  }

  lemma {:induction false} MembersFailIff(f: Features, members: seq<Member>, k: nat, w: Style, depth: nat)
    requires k <= |members| && NormalShort(JObject(members), w) && NullsReadable(f, JObject(members), w)
    requires depth + MembersDepth(members) <= f.stackLimit + 1
    ensures MembersVerdict(f, members, k, w, depth) == DuplicateVerdict(f, DistinctFrom(members, k, w))
    decreases members, 0, |members| - k
  {
    hide VerdictOf, Normal, Repeats, MembersDepth, MembersVerdict, Depth;
    if k == |members| {
      MembersVerdictEnd(f, members, w, depth);
    } else {
      assert ShortMember(members[k], w);
      MemberDepth(members, k);
      FailsIffDuplicate(f, members[k].value, w, depth);
      MembersVerdictAt(f, members, k, w, depth);
      MembersFailIff(f, members, k + 1, w, depth);
      assert DistinctFrom(members, k, w) <==> DistinctAt(members, k, w) && DistinctFrom(members, k + 1, w);
    }
  }

  lemma MembersVerdictEnd(f: Features, members: seq<Member>, w: Style, depth: nat)
    ensures MembersVerdict(f, members, |members|, w, depth) == Fine
  {
  }

  /** Success shows that the document is not nested too deeply, that no name is too long and
      that there was no dropped null to miss. */
  lemma {:induction false} FineShows(f: Features, j: Json, w: Style, depth: nat)
    requires VerdictOf(f, j, w, depth) == Fine && Untrimmed(f, j, w)
    ensures depth + Depth(j) <= f.stackLimit + 1 && NormalShort(j, w) && NullsReadable(f, j, w)
    decreases j, 1
  {
    hide ItemsVerdict, MembersVerdict, Normal, Repeats, ItemsDepth, MembersDepth, LosesLast;
    match j
    case JArray(items) =>
      ItemsFineShow(f, items, 0, w, depth + 1);
      ItemsDepthBound(items, f.stackLimit - depth);
    case JObject(members) =>
      MembersFineShow(f, members, 0, w, depth + 1);
      MembersDepthBound(members, f.stackLimit - depth);
    case _ =>
  }

  lemma {:induction false} ItemsFineShow(f: Features, items: seq<Json>, k: nat, w: Style, depth: nat)
    requires k <= KeptItems(f, items, w) && ItemsVerdict(f, items, k, w, depth) == Fine
             && Untrimmed(f, JArray(items), w)
    ensures forall i | k <= i < |items| ::
              depth + Depth(items[i]) <= f.stackLimit + 1 && NormalShort(items[i], w) && NullsReadable(f, items[i], w)
    decreases items, 0, |items| - k
  {
    hide VerdictOf, Normal, Repeats, ItemsVerdict, Depth, LosesLast, NullsReadable;
    if k == KeptItems(f, items, w) {
    } else {
      ItemsVerdictAt(f, items, k, w, depth);
      FineShows(f, items[k], w, depth);
      ItemsFineShow(f, items, k + 1, w, depth);
    }
  }

  lemma {:induction false} MembersFineShow(f: Features, members: seq<Member>, k: nat, w: Style, depth: nat)
    requires k <= |members| && MembersVerdict(f, members, k, w, depth) == Fine && Untrimmed(f, JObject(members), w)
    ensures forall i | k <= i < |members| ::
              depth + Depth(members[i].value) <= f.stackLimit + 1 && ShortMember(members[i], w)
              && NullsReadable(f, members[i].value, w)
    decreases members, 0, |members| - k
  {
    hide VerdictOf, Normal, Repeats, MembersVerdict, Depth, NullsReadable;
    if k == |members| {
    } else {
      MembersVerdictAt(f, members, k, w, depth);
      FineShows(f, members[k].value, w, depth);
      MembersFineShow(f, members, k + 1, w, depth);
    }
  }

  lemma {:induction false} ItemsDepthBound(items: seq<Json>, n: nat)
    requires forall i | 0 <= i < |items| :: Depth(items[i]) <= n
    ensures ItemsDepth(items) <= n
  {
    hide Depth;
    if items == [] {
    } else {
      ItemsDepthBound(items[1..], n);
    }
  }

  lemma {:induction false} MembersDepthBound(members: seq<Member>, n: nat)
    requires forall i | 0 <= i < |members| :: Depth(members[i].value) <= n
    ensures MembersDepth(members) <= n
  {
    hide Depth;
    if members == [] {
    } else {
      MembersDepthBound(members[1..], n);
    }
  }

  /** Names in order are distinct. */
  lemma {:induction false} OrderedIsDistinct(j: Json, w: Style)
    requires NormalOrdered(j, w)
    ensures NamesDistinct(j, w)
  {
    hide Normal, TextLess;
    match j
    case JArray(items) =>
      forall i | 0 <= i < |items| ensures NamesDistinct(items[i], w) { OrderedIsDistinct(items[i], w); }
    case JObject(members) =>
      forall i | 0 <= i < |members| ensures DistinctAt(members, i, w) {
        forall l | 0 <= l < i ensures Normal(members[l].name, w.emitUTF8) != Normal(members[i].name, w.emitUTF8) {
          TextLessIrreflexive(Normal(members[i].name, w.emitUTF8));
        }
        OrderedIsDistinct(members[i].value, w);
      }
      assert DistinctFrom(members, 0, w);
    case _ =>
  }

  lemma {:induction false} NullFreeIsUntrimmed(f: Features, j: Json, w: Style)
    requires !w.dropNull || NullFree(j)
    ensures Untrimmed(f, j, w)
  {
    match j
    case JArray(items) =>
      forall i | 0 <= i < |items| ensures Untrimmed(f, items[i], w) {
        NullFreeIsUntrimmed(f, items[i], w);
      }
    case JObject(members) =>
      forall i | 0 <= i < |members| ensures Untrimmed(f, members[i].value, w) {
        NullFreeIsUntrimmed(f, members[i].value, w);
      }
    case _ =>
  }

  /** Where the reader allows for dropped nulls, only an array of one null loses it. */
  lemma {:induction false} UntrimmedIffNoLoneNull(f: Features, j: Json, w: Style)
    requires w.dropNull && f.allowDroppedNullPlaceholders
    ensures Untrimmed(f, j, w) <==> NoLoneNull(j)
  {
    match j
    case JArray(items) =>
      forall i | 0 <= i < |items| ensures Untrimmed(f, items[i], w) <==> NoLoneNull(items[i]) {
        UntrimmedIffNoLoneNull(f, items[i], w);
      }
      assert LosesLast(f, items, w) <==> items == [JNull];
    case JObject(members) =>
      forall i | 0 <= i < |members| ensures Untrimmed(f, members[i].value, w) <==> NoLoneNull(members[i].value) {
        UntrimmedIffNoLoneNull(f, members[i].value, w);
      }
    case _ =>
  }

  /** Nulls are kept exactly when no array loses one, none is missed, and the document is not
      itself a dropped null. */
  lemma NullsKeptIff(f: Features, j: Json, w: Style)
    ensures NullsKept(f, j, w) <==> Untrimmed(f, j, w) && NullsReadable(f, j, w) && !Dropped(j, w)
  {
    hide LosesLast, Untrimmed, NoLoneNull;
    if !w.dropNull || NullFree(j) { NullFreeIsUntrimmed(f, j, w); }
    if w.dropNull && f.allowDroppedNullPlaceholders { UntrimmedIffNoLoneNull(f, j, w); }
  }

  lemma {:induction false} ShortIff(j: Json, w: Style)
    requires AllStorable(j, w)
    ensures NormalShort(j, w) <==> NamesShort(j)
  {
    hide Normal, Storable;
    match j
    case JArray(items) =>
      forall i | 0 <= i < |items| ensures NormalShort(items[i], w) <==> NamesShort(items[i]) { ShortIff(items[i], w); }
    case JObject(members) =>
      forall i | 0 <= i < |members|
        ensures ShortMember(members[i], w) <==> |members[i].name| < MAX_KEY_LENGTH && NamesShort(members[i].value)
      {
        StorableIs(members[i].name, w);
        ShortIff(members[i].value, w);
      }
    case _ =>
  }

  // ---------- The round trip ----------

  /** Parsing has succeeded and restored the document. */
  ghost predicate Restored(r: Read, j: Json) {
    r.Read? && r.ok && Meaning(r.value) == j
  }

  /** The document as it must be to be restored: all of it can be checked before writing. */
  ghost predicate Restorable(f: Features, j: Json, w: Style) {
    && AllStorable(j, w) && NullsKept(f, j, w) && NamesShort(j)
    && Depth(j) <= f.stackLimit && (!f.strictRoot || j.JArray? || j.JObject?)
  }

  lemma FineIff(f: Features, j: Json, w: Style)
    requires Ordered(j) && AllStorable(j, w) && Untrimmed(f, j, w)
    ensures RootVerdict(f, j, w) == Fine
            <==> !Dropped(j, w) && NullsReadable(f, j, w) && NamesShort(j) && Depth(j) <= f.stackLimit
  {
    hide VerdictOf, Depth, NamesDistinct, NormalOrdered, NormalShort, NamesShort, Untrimmed, Ordered, AllStorable,
         NullsReadable;
    DroppedVerdict(f, j, w);
    ShortIff(j, w);
    StorableStaysOrdered(j, w);
    OrderedIsDistinct(j, w);
    if VerdictOf(f, j, w, 1) == Fine { FineShows(f, j, w, 1); }
    if NullsReadable(f, j, w) && NamesShort(j) && Depth(j) <= f.stackLimit { FailsIffDuplicate(f, j, w, 1); }
  }

  /** Parsing any layout of a document restores it if and only if all its strings and names
      survive quoting, no null is lost, no name is too long, it does not nest too deeply, and it
      is not a scalar that the features refuse. */
  lemma RoundTripIff(f: Features, lib: Library, s: Text, root: Value, j: Json, w: Style)
    requires Writable(lib, j, w) && Ordered(j) && Lays(Tokens(j, w), s)
    ensures Restored(Parse(f, lib, s, root), j) <==> Restorable(f, j, w)
  {
    hide Parse, Writable, Tokens, Lays, Meaning, Built, Depth, NamesShort, Untrimmed, Ordered, AllStorable, RootVerdict;
    hide NullsReadable, NullsKept;
    ParseOfLayout(f, lib, s, root, j, w);
    BuiltRestoresIff(f, j, w);
    NullsKeptIff(f, j, w);
    if AllStorable(j, w) && Untrimmed(f, j, w) { FineIff(f, j, w); }
  }

  /** With duplicates rejected and nothing else wrong, parsing fails with that error exactly
      when two names of some object are read back as one. */
  lemma DuplicateIff(f: Features, lib: Library, s: Text, root: Value, j: Json, w: Style)
    requires Writable(lib, j, w) && Lays(Tokens(j, w), s)
    requires NormalShort(j, w) && NullsReadable(f, j, w) && !Dropped(j, w) && Depth(j) <= f.stackLimit
             && f.rejectDupKeys
    ensures var r := Parse(f, lib, s, root);
            r.Read? && (!NamesDistinct(j, w) <==> r.errors != [] && r.errors[0].message == DuplicateKey)
            && (NamesDistinct(j, w) ==> r.value == Built(f, j, w))
  {
    hide Writable, Tokens, Lays, Built, Depth, NamesDistinct, NormalShort, NullsReadable, VerdictOf, ReadValue, Finish;
    ParseOfLayout(f, lib, s, root, j, w);
    FailsIffDuplicate(f, j, w, 1);
    DroppedVerdict(f, j, w);
  }

  // ---------- Dropped nulls ----------

  /** The document with every array of one null made empty. */
  function Collapse(j: Json): Json {
    match j
    case JArray(items) =>
      if items == [JNull] then JArray([]) else JArray(seq(|items|, i requires 0 <= i < |items| => Collapse(items[i])))
    case JObject(members) =>
      JObject(seq(|members|, i requires 0 <= i < |members| => Member(members[i].name, Collapse(members[i].value))))
    case _ => j
  }

  /** A reader that allows for dropped nulls builds from the text without them what it would
      build from the full text of the collapsed document. */
  lemma {:induction false} DroppingCollapses(f: Features, j: Json, w: Style)
    requires w.dropNull && f.allowDroppedNullPlaceholders
    ensures Built(f, j, w) == Built(f, Collapse(j), w.(dropNull := false))
    decreases j, 1
  {
    hide BuiltItems, BuiltMembers, Normal;
    match j
    case JArray(items) =>
      if items == [JNull] {
        NothingBuilt(f, items, [], w);
        NothingBuilt(f, [], [], w.(dropNull := false));
      } else {
        var c := Collapse(j).items;
        forall i | 0 <= i < |items| ensures Built(f, items[i], w) == Built(f, c[i], w.(dropNull := false)) {
          DroppingCollapses(f, items[i], w);
        }
        assert BuiltItems(f, items, |items|, w) == BuiltItems(f, c, |c|, w.(dropNull := false));
      }
    case JObject(members) => DroppingInMembers(f, members, |members|, w);
    case _ =>
  }

  lemma {:induction false} DroppingInMembers(f: Features, members: seq<Member>, k: nat, w: Style)
    requires w.dropNull && f.allowDroppedNullPlaceholders && k <= |members|
    ensures BuiltMembers(f, members, k, w)
         == BuiltMembers(f, Collapse(JObject(members)).members, k, w.(dropNull := false))
    decreases members, 0, k
  {
    hide Built, Normal, Put;
    if k == 0 {
    } else {
      DroppingInMembers(f, members, k - 1, w);
      DroppingCollapses(f, members[k - 1].value, w);
    }
  }

  /** Parsing the text without nulls, where nothing goes wrong and the names stay in order, gives
      the collapsed document in normal form. */
  lemma ParseOfDropped(f: Features, lib: Library, s: Text, root: Value, j: Json, w: Style)
    requires Writable(lib, j, w) && Lays(Tokens(j, w), s) && w.dropNull && f.allowDroppedNullPlaceholders
    requires RootVerdict(f, j, w) == Fine && NormalOrdered(Collapse(j), w.(dropNull := false))
    ensures var r := Parse(f, lib, s, root);
            r.Read? && r.value == Embed(Reread(Collapse(j), w.(dropNull := false)))
  {
    hide Parse, Writable, Lays, Tokens, Built, RootVerdict, Collapse, Reread, Embed, NormalOrdered;
    ParseOfLayout(f, lib, s, root, j, w);
    DroppingCollapses(f, j, w);
    NullFreeIsUntrimmed(f, Collapse(j), w.(dropNull := false));
    BuiltIsReread(f, Collapse(j), w.(dropNull := false));
  }

  // ---------- Values ----------

  /** What must be true of the library for the reals of a document to survive. */
  ghost predicate RealsReadBack(lib: Library, j: Json, w: Style) {
    match j
    case JReal(d) => ReadsBack(lib, w.realText(d), d)
    case JArray(items) => forall i | 0 <= i < |items| :: RealsReadBack(lib, items[i], w)
    case JObject(members) => forall i | 0 <= i < |members| :: RealsReadBack(lib, members[i].value, w)
    case _ => true
  }

  predicate NoReals(j: Json) {
    match j
    case JReal(_) => false
    case JArray(items) => forall i | 0 <= i < |items| :: NoReals(items[i])
    case JObject(members) => forall i | 0 <= i < |members| :: NoReals(members[i].value)
    case _ => true
  }

  /** Nothing is asked of the library for a document without reals. */
  lemma {:induction false} NoRealsReadBack(lib: Library, j: Json, w: Style)
    requires NoReals(j)
    ensures RealsReadBack(lib, j, w)
  {
    match j
    case JArray(items) =>
      forall i | 0 <= i < |items| ensures RealsReadBack(lib, items[i], w) {
        NoRealsReadBack(lib, items[i], w);
      }
    case JObject(members) =>
      forall i | 0 <= i < |members| ensures RealsReadBack(lib, members[i].value, w) {
        NoRealsReadBack(lib, members[i].value, w);
      }
    case _ =>
  }

  /** The document of a value has integers in range. */
  lemma {:induction false} ValidIsWritable(lib: Library, v: Value, w: Style)
    requires Valid(v) && RealsReadBack(lib, Meaning(v), w)
    ensures Writable(lib, Meaning(v), w)
  {
    hide ReadsBack;
    match v
    case Arr(nodes) =>
      forall i | 0 <= i < ArraySize(nodes) ensures Writable(lib, Meaning(v).items[i], w) {
        assert RealsReadBack(lib, Meaning(v).items[i], w);
        if HasKey(nodes, Index(i)) { ValidIsWritable(lib, nodes[LowerBound(nodes, Index(i))].value, w); }
      }
    case Obj(nodes) =>
      forall i | 0 <= i < |nodes| ensures Writable(lib, Meaning(v).members[i].value, w) {
        assert RealsReadBack(lib, Meaning(v).members[i].value, w);
        ValidIsWritable(lib, nodes[i].value, w);
      }
    case _ =>
  }
}
