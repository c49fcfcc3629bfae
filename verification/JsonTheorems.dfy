/** The reader and the writers together. */
module JsonTheorems {
  import opened Chars
  import opened Quoting
  import opened Values
  import opened Documents
  import opened Lexing
  import opened Parsing
  import opened Layout
  import opened Outcomes
  import opened RoundTrip
  import opened Restoring
  import opened FastWriting

  /** Reading back what `FastWriter` writes, for every value whose reals the library reads back,
      every setting of the writer, every set of reader features and every previous root: it
      restores the document if and only if the document is restorable, which for a document
      of well-formed UTF-8 with all nulls written is a matter of its depth and the length of its
      names. */
  lemma FastRoundTrip(f: Features, lib: Library, v: Value, root: Value, w: Style, yaml: bool, omitEndingLineFeed: bool)
    requires Valid(v) && RealsReadBack(lib, Meaning(v), w) && RealTextOk(w)
    ensures var text := FastText(Meaning(v), w, yaml) + (if omitEndingLineFeed then [] else [LF]);
            Restored(Parse(f, lib, text, root), Meaning(v)) <==> Restorable(f, Meaning(v), w)
  {
    hide Parse, FastText, Writable, Tokens, Lays, Restored, Restorable, Ordered, Meaning, Valid;
    var j := Meaning(v);
    var text, ending := FastText(j, w, yaml), if omitEndingLineFeed then [] else [LF];
    FastTextLays(j, w, yaml);
    EndingLays(omitEndingLineFeed);
    LaysAppend(Tokens(j, w), [], text, ending);
    assert Tokens(j, w) + [] == Tokens(j, w);
    ValidIsWritable(lib, v, w);
    MeaningIsOrdered(v);
    RoundTripIff(f, lib, text + ending, root, j, w);
  }

  /** In plain terms: a container of integers, strings, booleans and nulls, with well-formed UTF-8
      (or any bytes under `emitUTF8`), short names and all nulls written, comes back whole
      whatever the features, if it does not nest too deeply. */
  lemma WellFormedRoundTrip(f: Features, lib: Library, v: Value, root: Value, w: Style, yaml: bool,
                            omitEndingLineFeed: bool)
    requires Valid(v) && IsContainer(v) && NoReals(Meaning(v)) && RealTextOk(w) && !w.dropNull
    requires AllStorable(Meaning(v), w) && NamesShort(Meaning(v)) && Depth(Meaning(v)) <= f.stackLimit
    ensures var text := FastText(Meaning(v), w, yaml) + (if omitEndingLineFeed then [] else [LF]);
            var r := Parse(f, lib, text, root); r.Read? && r.ok && Meaning(r.value) == Meaning(v)
  {
    hide Parse, FastText, AllStorable, NamesShort, Depth, NoReals, Valid, RealsReadBack, RealTextOk;
    NoRealsReadBack(lib, Meaning(v), w);
    FastRoundTrip(f, lib, v, root, w, yaml, omitEndingLineFeed);
    MeaningOfContainer(v);
  }

  /** With nulls dropped, a container in which nothing else stands in the way is restored exactly
      when no array holds one null and nothing else, if the reader allows for dropped nulls, and
      exactly when there is no null at all, if it does not. */
  lemma DroppedNulls(f: Features, lib: Library, v: Value, root: Value, w: Style, yaml: bool, omitEndingLineFeed: bool)
    requires Valid(v) && IsContainer(v) && RealsReadBack(lib, Meaning(v), w) && RealTextOk(w) && w.dropNull
    requires AllStorable(Meaning(v), w) && NamesShort(Meaning(v)) && Depth(Meaning(v)) <= f.stackLimit
    ensures var text := FastText(Meaning(v), w, yaml) + (if omitEndingLineFeed then [] else [LF]);
            Restored(Parse(f, lib, text, root), Meaning(v))
            <==> if f.allowDroppedNullPlaceholders then NoLoneNull(Meaning(v)) else NullFree(Meaning(v))
  {
    hide Parse, FastText, Restored, AllStorable, NamesShort, Depth, NoLoneNull, NullFree, Valid, RealsReadBack,
         RealTextOk;
    FastRoundTrip(f, lib, v, root, w, yaml, omitEndingLineFeed);
    MeaningOfContainer(v);
  }

  /** An array of one null is lost, whatever the features. */
  lemma OneNullIsLost(f: Features, lib: Library, root: Value, w: Style, yaml: bool)
    requires w.dropNull
    ensures FastText(JArray([JNull]), w, yaml) == [LBRACKET, RBRACKET]
    ensures !Restored(Parse(f, lib, [LBRACKET, RBRACKET], root), JArray([JNull]))
  {
    hide Parse, Lays;
    OneNullText(w, yaml);
    LaysOne([LBRACKET]);
    LaysOne([RBRACKET]);
    LaysAppend([[LBRACKET]], [[RBRACKET]], [LBRACKET], [RBRACKET]);
    assert Tokens(JArray([]), w) == [[LBRACKET]] + [[RBRACKET]];
    assert [LBRACKET] + [RBRACKET] == [LBRACKET, RBRACKET];
    ParseOfLayout(f, lib, [LBRACKET, RBRACKET], root, JArray([]), w);
    BuiltRestoresIff(f, JArray([]), w);
  }

  lemma EndingLays(omitEndingLineFeed: bool)
    ensures Lays([], if omitEndingLineFeed then [] else [LF])
  {
    LaysNothing(if omitEndingLineFeed then [] else [LF]);
  }

  /** Two layouts of the same document are read alike, whatever line breaks, indentation and
      spaces they contain: both throw, both fail with the same kind of error, or both give the
      same value. */
  lemma LayoutDoesNotMatter(f: Features, lib: Library, s: Text, t: Text, root: Value, j: Json, w: Style)
    requires Writable(lib, j, w) && Lays(Tokens(j, w), s) && Lays(Tokens(j, w), t)
    ensures var a, b := Parse(f, lib, s, root), Parse(f, lib, t, root);
            a.Thrown? == b.Thrown?
            && (a.Read? ==> a.ok == b.ok && (a.ok ==> a.value == b.value)
                            && (RootVerdict(f, j, w).Fails? ==>
                                  a.errors != [] && b.errors != [] && a.errors[0].message == b.errors[0].message))
  {
    hide Parse, Writable, Tokens, Lays, RootVerdict, Built;
    ParseOfLayout(f, lib, s, root, j, w);
    ParseOfLayout(f, lib, t, root, j, w);
  }

  // ---------- What is read can be written ----------

  lemma PutValid(v: Value, key: Key, child: Value)
    requires IsContainer(v) && Valid(v) && Valid(child) && (v.Arr? <==> key.Index?)
    ensures Valid(WithNodes(v, Put(v.nodes, key, child)))
  {
    var r, i := Put(v.nodes, key, child), LowerBound(v.nodes, key);
    PutKeepsOrder(v.nodes, key, child);
    forall k | 0 <= k < |r| ensures r[k].key.Index? == v.Arr? && Valid(r[k].value) {
      assert k != i ==> r[k] == v.nodes[if k < i || HasKey(v.nodes, key) then k else k - 1];
    }
  }

  lemma LookupValid(v: Value, key: Key)
    requires IsContainer(v) && Valid(v)
    ensures Valid(Lookup(v.nodes, key))
  {
  }

  lemma NumberOfValid(lib: Library, t: Text)
    ensures NumberOf(lib, t).Some? ==> Valid(NumberOf(lib, t).value)
  {
  }

  ghost predicate Sound(r: Read) {
    r.Read? ==> Valid(r.value)
  }

  /** Whatever the bytes, the features and the outcome, reading leaves a valid value: maps in
      key order at every level, and integers in range. */
  lemma {:induction false} ReadIsValid(f: Features, lib: Library, s: Text, p: nat, depth: nat, current: Value)
    requires p <= |s| && Valid(current)
    ensures Sound(ReadValue(f, lib, s, p, depth, current))
    decreases |s| - p, 0
  {
    hide ReadScalar, ReadMembers, ReadElements, SkipCommentTokens, Valid;
    if depth <= f.stackLimit {
      var t := SkipCommentTokens(f, s, p);
      ScalarIsValid(f, lib, s, t, current);
      if t.kind == ObjectBegin {
        NothingIsValid();
        MembersAreValid(f, lib, s, t.end, depth, [], true);
      } else if t.kind == ArrayBegin {
        NothingIsValid();
        ElementsAreValid(f, lib, s, t.end, depth, [], 0);
      }
    }
  }

  lemma NothingIsValid()
    ensures Valid(Obj([])) && Valid(Arr([]))
  {
  }

  lemma ScalarIsValid(f: Features, lib: Library, s: Text, t: Token, current: Value)
    requires t.start <= t.end <= |s| && (t.kind == StringToken ==> t.start + 2 <= t.end)
    requires (t.start == t.end ==> t.kind == EndOfStream) && Valid(current)
    ensures Valid(ReadScalar(f, lib, s, t, current).value)
  {
    hide NumberOf, Unescape;
    NumberOfValid(lib, TextOf(s, t));
  }

  lemma {:induction false} MembersAreValid(f: Features, lib: Library, s: Text, p: nat, depth: nat, nodes: seq<Node>,
                                           unnamed: bool)
    requires p <= |s| && Valid(Obj(nodes))
    ensures Sound(ReadMembers(f, lib, s, p, depth, nodes, unnamed))
    decreases |s| - p, 1
  {
    hide NonComment, ReadName, NamedMember, Recover, Valid;
    var t := NonComment(f, s, p);
    var name := ReadName(f, lib, s, t);
    if name.MemberName? {
      NameTokenConsumes(f, lib, s, t);
      NamedIsValid(f, lib, s, t, depth, nodes, name.name);
    }
  }

  lemma NameTokenConsumes(f: Features, lib: Library, s: Text, t: Token)
    requires t.start <= t.end <= |s| && (t.kind == StringToken ==> t.start + 2 <= t.end)
    requires t.start == t.end ==> t.kind == EndOfStream
    ensures ReadName(f, lib, s, t).MemberName? ==> t.start < t.end
  {
  }

  lemma {:induction false} NamedIsValid(f: Features, lib: Library, s: Text, t: Token, depth: nat, nodes: seq<Node>,
                                        name: Text)
    requires t.end <= |s| && Valid(Obj(nodes))
    ensures Sound(NamedMember(f, lib, s, t, depth, nodes, name))
    decreases |s| - t.end, 2
  {
    hide ReadToken, ReadValue, AfterMember, Recover, Valid, Put, Lookup;
    var colon := ReadToken(f, s, t.end);
    if colon.kind == MemberSeparator {
      LookupValid(Obj(nodes), Name(name));
      ReadIsValid(f, lib, s, colon.end, depth + 1, Lookup(nodes, Name(name)));
      var r := ReadValue(f, lib, s, colon.end, depth + 1, Lookup(nodes, Name(name)));
      if r.Read? {
        PutValid(Obj(nodes), Name(name), r.value);
        AfterMemberIsValid(f, lib, s, depth, Put(nodes, Name(name), r.value), name == [], r);
      }
    }
  }

  lemma {:induction false} AfterMemberIsValid(f: Features, lib: Library, s: Text, depth: nat, nodes: seq<Node>,
                                              unnamed: bool, value: Read)
    requires value.Read? && value.pos <= |s| && (value.ok <==> value.errors == []) && Valid(Obj(nodes))
    ensures Sound(AfterMember(f, lib, s, depth, nodes, unnamed, value))
    decreases |s| - value.pos, 0
  {
    hide ReadToken, NonComment, ReadMembers, Recover, Valid;
    if value.ok {
      var comma := ReadToken(f, s, value.pos);
      if comma.kind == ArraySeparator || comma.kind == CommentToken {
        var last := if comma.kind == CommentToken then NonComment(f, s, comma.end) else comma;
        MembersAreValid(f, lib, s, last.end, depth, nodes, unnamed);
      }
    }
  }

  lemma {:induction false} ElementsAreValid(f: Features, lib: Library, s: Text, p: nat, depth: nat, nodes: seq<Node>,
                                            index: nat)
    requires p <= |s| && Valid(Arr(nodes))
    ensures Sound(ReadElements(f, lib, s, p, depth, nodes, index))
    decreases |s| - p, 1
  {
    hide ReadValue, AfterElement, Valid, Put, Lookup;
    var q := SkipSpaces(s, p);
    LookupValid(Arr(nodes), Index(index));
    ReadIsValid(f, lib, s, q, depth + 1, Lookup(nodes, Index(index)));
    var r := ReadValue(f, lib, s, q, depth + 1, Lookup(nodes, Index(index)));
    if r.Read? {
      PutValid(Arr(nodes), Index(index), r.value);
      AfterElementIsValid(f, lib, s, depth, Put(nodes, Index(index), r.value), index, r);
    }
  }

  lemma {:induction false} AfterElementIsValid(f: Features, lib: Library, s: Text, depth: nat, nodes: seq<Node>,
                                               index: nat, value: Read)
    requires value.Read? && value.pos <= |s| && (value.ok <==> value.errors == []) && Valid(Arr(nodes))
    ensures Sound(AfterElement(f, lib, s, depth, nodes, index, value))
    decreases |s| - value.pos, 0
  {
    hide NonComment, ReadElements, Recover, Valid;
    if value.ok {
      var t := NonComment(f, s, value.pos);
      if t.kind == ArraySeparator {
        ElementsAreValid(f, lib, s, t.end, depth, nodes, index + 1);
      }
    }
  }

  /** Parsing any bytes into a valid root leaves a valid root. */
  lemma ParseIsValid(f: Features, lib: Library, s: Text, root: Value)
    requires Valid(root)
    ensures Sound(Parse(f, lib, s, root))
  {
    hide ReadValue, Valid, SkipCommentTokens;
    ReadIsValid(f, lib, s, Begin(f, s), 1, root);
  }
}
