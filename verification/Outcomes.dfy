/** What reading back a written document comes to, as a function of the document, the writer's
    settings and the reader's features: whether it throws, fails or succeeds, and the value
    that success builds.  Module RoundTrip proves that the reader does exactly this. */
module Outcomes {
  import opened Chars
  import opened Decimal
  import opened Utf8
  import opened Quoting
  import opened Values
  import opened Documents
  import opened Lexing
  import opened Parsing
  import opened Layout

  /** Nothing is written for the document. */
  predicate Dropped(j: Json, w: Style) {
    j.JNull? && w.dropNull
  }

  /** Nothing is written for the last item and the reader does not miss it: in front of the
      closing bracket it accepts an array without items, and with some features an array that
      ends in a comma. */
  predicate LosesLast(f: Features, items: seq<Json>, w: Style) {
    && items != [] && Dropped(items[|items| - 1], w)
    && (|items| == 1 || (f.allowTrailingCommas && !f.allowDroppedNullPlaceholders))
  }

  function KeptItems(f: Features, items: seq<Json>, w: Style): (k: nat)
    ensures k <= |items|
  {
    if LosesLast(f, items, w) then |items| - 1 else |items|
  }

  // ---------- Success or not ----------

  datatype Verdict = Fine | Throws | Fails(message: Message)

  /** The first problem that `readValue` meets, with `depth` pointers on the node stack. */
  function VerdictOf(f: Features, j: Json, w: Style, depth: nat): Verdict
    decreases j, 1
  {
    if depth > f.stackLimit then Throws
    else
      match j
      case JNull => if w.dropNull && !f.allowDroppedNullPlaceholders then Fails(ValueExpected) else Fine
      case JArray(items) => ItemsVerdict(f, items, 0, w, depth + 1)
      case JObject(members) => MembersVerdict(f, members, 0, w, depth + 1)
      case _ => Fine
  }

  /** The first problem from item `k` on. */
  function ItemsVerdict(f: Features, items: seq<Json>, k: nat, w: Style, depth: nat): Verdict
    requires k <= KeptItems(f, items, w)
    decreases items, 0, |items| - k
  {
    if k == KeptItems(f, items, w) then Fine
    else
      var v := VerdictOf(f, items[k], w, depth);
      if v != Fine then v else ItemsVerdict(f, items, k + 1, w, depth)
  }

  /** The first problem from member `k` on. */
  function MembersVerdict(f: Features, members: seq<Member>, k: nat, w: Style, depth: nat): Verdict
    requires k <= |members|
    decreases members, 0, |members| - k
  {
    if k == |members| then Fine
    else if |Normal(members[k].name, w.emitUTF8)| >= MAX_KEY_LENGTH then Throws
    else if f.rejectDupKeys && Repeats(members, k, w) then Fails(DuplicateKey)
    else
      var v := VerdictOf(f, members[k].value, w, depth);
      if v != Fine then v else MembersVerdict(f, members, k + 1, w, depth)
  }

  /** An earlier member is read back under the same name. */
  predicate Repeats(members: seq<Member>, k: nat, w: Style)
    requires k < |members|
  {
    exists i | 0 <= i < k :: Normal(members[i].name, w.emitUTF8) == Normal(members[k].name, w.emitUTF8)
  }

  /** At the root there is not even a separator to read in place of a dropped null. */
  function RootVerdict(f: Features, j: Json, w: Style): Verdict {
    if Dropped(j, w) && f.stackLimit > 0 then Fails(ValueExpected) else VerdictOf(f, j, w, 1)
  }

  // ---------- The value ----------

  /** The value that reading builds when nothing goes wrong. */
  function Built(f: Features, j: Json, w: Style): Value
    decreases j, 1
  {
    match j
    case JString(s) => Str(Normal(s, w.emitUTF8))
    case JArray(items) => Arr(BuiltItems(f, items, KeptItems(f, items, w), w))
    case JObject(members) => Obj(BuiltMembers(f, members, |members|, w))
    case JNull => Null
    case JBool(b) => Bool(b)
    case JNumber(n) => if n <= MAX_INT64 then Int(n) else UInt(n)
    case JReal(d) => Real(d)
  }

  /** The nodes after `k` items: dense indices. */
  function BuiltItems(f: Features, items: seq<Json>, k: nat, w: Style): (r: seq<Node>)
    requires k <= |items|
    ensures |r| == k && forall i | 0 <= i < k :: r[i] == Node(Index(i), Built(f, items[i], w))
    decreases items, 0, k
  {
    if k == 0 then [] else BuiltItems(f, items, k - 1, w) + [Node(Index(k - 1), Built(f, items[k - 1], w))]
  }

  /** The nodes after `k` members: every member is assigned under the name it is read back by,
      whatever was there before. */
  function BuiltMembers(f: Features, members: seq<Member>, k: nat, w: Style): seq<Node>
    requires k <= |members|
    decreases members, 0, k
  {
    if k == 0 then []
    else
      var m := members[k - 1];
      Put(BuiltMembers(f, members, k - 1, w), Name(Normal(m.name, w.emitUTF8)), Built(f, m.value, w))
  }

  lemma {:induction false} BuiltMembersSorted(f: Features, members: seq<Member>, k: nat, w: Style)
    requires k <= |members|
    ensures Sorted(BuiltMembers(f, members, k, w))
  {
    hide Built, Put, Normal;
    if k == 0 {
    } else {
      var m := members[k - 1];
      BuiltMembersSorted(f, members, k - 1, w);
      PutKeepsOrder(BuiltMembers(f, members, k - 1, w), Name(Normal(m.name, w.emitUTF8)), Built(f, m.value, w));
    }
  }

  /** The object has a member of a name exactly when one of the first `k` names reads back as it. */
  lemma {:induction false} BuiltHas(f: Features, members: seq<Member>, k: nat, w: Style, name: Text)
    requires k <= |members|
    ensures HasKey(BuiltMembers(f, members, k, w), Name(name))
            <==> exists i | 0 <= i < k :: Normal(members[i].name, w.emitUTF8) == name
  {
    hide Built, Put, Normal, HasKey;
    if k == 0 {
      NothingHas(Name(name));
    } else {
      var m := members[k - 1];
      BuiltMembersSorted(f, members, k - 1, w);
      BuiltHas(f, members, k - 1, w, name);
      PutHas(BuiltMembers(f, members, k - 1, w), Name(Normal(m.name, w.emitUTF8)), Built(f, m.value, w), Name(name));
      assert (exists i | 0 <= i < k :: Normal(members[i].name, w.emitUTF8) == name)
        <==> ((exists i | 0 <= i < k - 1 :: Normal(members[i].name, w.emitUTF8) == name)
              || Normal(m.name, w.emitUTF8) == name);
    }
  }

  lemma NothingHas(key: Key)
    ensures !HasKey([], key)
  {
  }

  /** The last of several members that read back under one name wins. */
  lemma {:induction false} LastWins(f: Features, members: seq<Member>, k: nat, w: Style, i: nat)
    requires i < k <= |members|
    requires forall l | i < l < k :: Normal(members[l].name, w.emitUTF8) != Normal(members[i].name, w.emitUTF8)
    ensures Lookup(BuiltMembers(f, members, k, w), Name(Normal(members[i].name, w.emitUTF8)))
            == Built(f, members[i].value, w)
  {
    hide Built, Put, Normal, Lookup;
    var m := members[k - 1];
    var before := BuiltMembers(f, members, k - 1, w);
    BuiltMembersSorted(f, members, k - 1, w);
    if i == k - 1 {
      PutReads(before, Name(Normal(m.name, w.emitUTF8)), Built(f, m.value, w));
    } else {
      LastWins(f, members, k - 1, w, i);
      PutLeaves(before, Name(Normal(m.name, w.emitUTF8)), Built(f, m.value, w),
                Name(Normal(members[i].name, w.emitUTF8)));
    }
  }

  /** Two different names that are read back as one, and what becomes of an object that has
      members of both. */
  lemma TwoNamesReadAsOne(f: Features, w: Style, a: int, b: int)
    requires !w.emitUTF8 && MIN_INT64 <= a <= MAX_INT64 && MIN_INT64 <= b <= MAX_INT64
    ensures Normal([0x80], false) == Normal([0x81], false) == [0xEF, 0xBF, 0xBD]
    ensures Built(f, JObject([Member([0x80], JNumber(a)), Member([0x81], JNumber(b))]), w)
            == Obj([Node(Name([0xEF, 0xBF, 0xBD]), Int(b))])
    ensures f.rejectDupKeys && f.stackLimit >= 2
            ==> RootVerdict(f, JObject([Member([0x80], JNumber(a)), Member([0x81], JNumber(b))]), w)
                == Fails(DuplicateKey)
  {
    hide Normal, MembersVerdict, BuiltMembers;
    var members := [Member([0x80], JNumber(a)), Member([0x81], JNumber(b))];
    OneStrayByte(0x80);
    OneStrayByte(0x81);
    TwoMembersBuilt(f, members, [0xEF, 0xBF, 0xBD], a, b, w);
    if f.rejectDupKeys && f.stackLimit >= 2 { TwoMembersVerdict(f, members, w); }
  }

  lemma TwoMembersBuilt(f: Features, members: seq<Member>, name: Text, a: int, b: int, w: Style)
    requires |members| == 2 && members[0].value == JNumber(a) && members[1].value == JNumber(b) && a <= MAX_INT64
             && b <= MAX_INT64
    requires Normal(members[0].name, w.emitUTF8) == Normal(members[1].name, w.emitUTF8) == name
    ensures BuiltMembers(f, members, 2, w) == [Node(Name(name), Int(b))]
  {
    hide Normal, Put;
    assert BuiltMembers(f, members, 0, w) == [];
    PutAtEnd([], Name(name), Int(a));
    assert BuiltMembers(f, members, 1, w) == [Node(Name(name), Int(a))];
    PutReplaces(Name(name), Int(a), Int(b));
  }

  lemma TwoMembersVerdict(f: Features, members: seq<Member>, w: Style)
    requires |members| == 2 && members[0].value.JNumber? && f.rejectDupKeys && f.stackLimit >= 2
    requires Normal(members[0].name, w.emitUTF8) == Normal(members[1].name, w.emitUTF8)
    requires |Normal(members[0].name, w.emitUTF8)| < MAX_KEY_LENGTH
    ensures MembersVerdict(f, members, 0, w, 2) == Fails(DuplicateKey)
  {
    hide Normal;
    assert Repeats(members, 1, w);
    assert MembersVerdict(f, members, 1, w, 2) == Fails(DuplicateKey);
    assert VerdictOf(f, members[0].value, w, 2) == Fine;
  }

  lemma PutReplaces(key: Key, a: Value, b: Value)
    ensures Put([Node(key, a)], key, b) == [Node(key, b)]
  {
    KeyLessIrreflexive(key);
    LowerBoundIs([Node(key, a)], key, 0);
  }

  lemma OneStrayByte(c: Byte)
    requires 0x80 <= c < 0xE0
    ensures Normal([c], false) == [0xEF, 0xBF, 0xBD]
  {
    assert Utf8ToCodepoint([c]) == Scanned(REPLACEMENT, 1);
    assert Normal([c][1..], false) == [];
  }
}
