/** `FastWriter`: a document on one line, without optional whitespace. */
module FastWriting {
  import opened Chars
  import opened Decimal
  import opened Quoting
  import opened Values
  import opened Documents
  import opened Layout

  /** The text of a document, as a function of the writer's settings. */
  function FastText(j: Json, w: Style, yaml: bool): Text {
    match j
    case JArray(items) => [LBRACKET] + FastItems(items, w, yaml) + [RBRACKET]
    case JObject(members) => [LBRACE] + FastMembers(members, w, yaml) + [RBRACE]
    case _ => ScalarText(j, w)
  }

  function Comma<T>(before: seq<T>): Text {
    if before == [] then [] else [COMMA]
  }

  function Colon(yaml: bool): Text {
    if yaml then [COLON, SPACE] else [COLON]
  }

  function FastItems(items: seq<Json>, w: Style, yaml: bool): Text {
    if items == [] then []
    else
      var n := |items| - 1;
      FastItems(items[..n], w, yaml) + Comma(items[..n]) + FastText(items[n], w, yaml)
  }

  function FastMembers(members: seq<Member>, w: Style, yaml: bool): Text {
    if members == [] then []
    else
      var n := |members| - 1;
      FastMembers(members[..n], w, yaml) + Comma(members[..n])
      + (Quoted(members[n].name, w.emitUTF8) + Colon(yaml) + FastText(members[n].value, w, yaml))
  }

  lemma FastArray(items: seq<Json>, w: Style, yaml: bool)
    ensures FastText(JArray(items), w, yaml) == [LBRACKET] + FastItems(items, w, yaml) + [RBRACKET]
    ensures FastItems(items[..0], w, yaml) == []
  {
  }

  lemma FastObject(members: seq<Member>, w: Style, yaml: bool)
    ensures FastText(JObject(members), w, yaml) == [LBRACE] + FastMembers(members, w, yaml) + [RBRACE]
    ensures FastMembers(members[..0], w, yaml) == []
  {
  }

  lemma CommaOf<T>(s: seq<T>, i: nat)
    requires i <= |s|
    ensures Comma(s[..i]) == if i > 0 then [COMMA] else []
  {
  }

  lemma Regroup(before: Text, open: Text, p: Text, c: Text, q: Text, k: Text, v: Text)
    ensures before + (open + p) + c + q + k + v == before + (open + (p + c + (q + k + v)))
    ensures c == [] ==> before + (open + p) + q + k + v == before + (open + (p + c + (q + k + v)))
  {
  }

  lemma FastItemsPrefix(items: seq<Json>, k: nat, w: Style, yaml: bool)
    requires k < |items|
    ensures FastItems(items[..k + 1], w, yaml)
         == FastItems(items[..k], w, yaml) + Comma(items[..k]) + FastText(items[k], w, yaml)
  {
    assert items[..k + 1][..k] == items[..k];
  }

  lemma FastMembersPrefix(members: seq<Member>, k: nat, w: Style, yaml: bool)
    requires k < |members|
    ensures FastMembers(members[..k + 1], w, yaml)
         == FastMembers(members[..k], w, yaml) + Comma(members[..k])
            + (Quoted(members[k].name, w.emitUTF8) + Colon(yaml) + FastText(members[k].value, w, yaml))
  {
    assert members[..k + 1][..k] == members[..k];
  }

  /** The writer's text is a layout of the document's tokens. */
  lemma {:induction false} FastTextLays(j: Json, w: Style, yaml: bool)
    requires RealTextOk(w)
    ensures Lays(Tokens(j, w), FastText(j, w, yaml))
    decreases j, 1
  {
    match j
    case JArray(items) =>
      LaysOne([LBRACKET]);
      LaysOne([RBRACKET]);
      FastItemsLay(items, |items|, w, yaml);
      assert items[..|items|] == items;
      LaysAppend3([[LBRACKET]], ItemTokens(items, w), [[RBRACKET]], [LBRACKET], FastItems(items, w, yaml), [RBRACKET]);
    case JObject(members) =>
      LaysOne([LBRACE]);
      LaysOne([RBRACE]);
      FastMembersLay(members, |members|, w, yaml);
      assert members[..|members|] == members;
      LaysAppend3([[LBRACE]], MemberTokens(members, w), [[RBRACE]], [LBRACE], FastMembers(members, w, yaml), [RBRACE]);
    case _ => LaysScalar(j, w);
  }

  lemma CommaLays<T>(before: seq<T>)
    ensures Lays(Separator(before), Comma(before))
  {
    LaysOne([COMMA]);
  }

  lemma NothingLays(w: Style, yaml: bool)
    ensures Lays(ItemTokens([], w), FastItems([], w, yaml))
    ensures Lays(MemberTokens([], w), FastMembers([], w, yaml))
  {
    LaysNothing([]);
  }

  lemma {:induction false} FastItemsLay(items: seq<Json>, k: nat, w: Style, yaml: bool)
    requires RealTextOk(w) && k <= |items|
    ensures Lays(ItemTokens(items[..k], w), FastItems(items[..k], w, yaml))
    decreases items, 0, k
  {
    hide FastText, FastItems, ItemTokens, Tokens, Lays, Comma, Separator;
    if k == 0 {
      NothingLays(w, yaml);
    } else {
      FastItemsPrefix(items, k - 1, w, yaml);
      FastItemsLay(items, k - 1, w, yaml);
      FastTextLays(items[k - 1], w, yaml);
      CommaLays(items[..k - 1]);
      ItemTokensPrefix(items, k - 1, w);
      LaysAppend3(ItemTokens(items[..k - 1], w), Separator(items[..k - 1]), Tokens(items[k - 1], w),
                  FastItems(items[..k - 1], w, yaml), Comma(items[..k - 1]), FastText(items[k - 1], w, yaml));
    }
  }

  lemma ColonLays(yaml: bool)
    ensures Lays([[COLON]], Colon(yaml))
  {
    LaysOne([COLON]);
    LaysNothing([SPACE]);
    LaysAppend([[COLON]], [], [COLON], [SPACE]);
    assert [COLON] + [SPACE] == [COLON, SPACE];
  }

  lemma {:induction false} FastMembersLay(members: seq<Member>, k: nat, w: Style, yaml: bool)
    requires RealTextOk(w) && k <= |members|
    ensures Lays(MemberTokens(members[..k], w), FastMembers(members[..k], w, yaml))
    decreases members, 0, k
  {
    hide FastText, FastMembers, MemberTokens, Tokens, Quoted, Lays, Colon, Comma, Separator;
    if k == 0 {
      NothingLays(w, yaml);
    } else {
      var m := members[k - 1];
      FastMembersPrefix(members, k - 1, w, yaml);
      FastMembersLay(members, k - 1, w, yaml);
      FastTextLays(m.value, w, yaml);
      CommaLays(members[..k - 1]);
      ColonLays(yaml);
      LaysQuoted(m.name, w.emitUTF8);
      LaysAppend3([Quoted(m.name, w.emitUTF8)], [[COLON]], Tokens(m.value, w),
                  Quoted(m.name, w.emitUTF8), Colon(yaml), FastText(m.value, w, yaml));
      MemberTokensPrefix(members, k - 1, w);
      assert [Quoted(m.name, w.emitUTF8)] + [[COLON]] == [Quoted(m.name, w.emitUTF8), [COLON]];
      LaysAppend3(MemberTokens(members[..k - 1], w), Separator(members[..k - 1]),
                  [Quoted(m.name, w.emitUTF8)] + [[COLON]] + Tokens(m.value, w),
                  FastMembers(members[..k - 1], w, yaml), Comma(members[..k - 1]),
                  Quoted(m.name, w.emitUTF8) + Colon(yaml) + FastText(m.value, w, yaml));
    }
  }

  // ---------- Nothing but the tokens ----------

  /** The tokens one after the other, the colon with a space behind it for YAML. */
  function Flat(tokens: seq<Text>, yaml: bool): Text {
    if tokens == [] then []
    else
      var n := |tokens| - 1;
      Flat(tokens[..n], yaml) + if tokens[n] == [COLON] then Colon(yaml) else tokens[n]
  }

  lemma {:induction false} FlatAppend(a: seq<Text>, b: seq<Text>, yaml: bool)
    ensures Flat(a + b, yaml) == Flat(a, yaml) + Flat(b, yaml)
    decreases |b|
  {
    hide Colon;
    if b == [] {
      assert a + b == a;
    } else {
      var n := |b| - 1;
      assert (a + b)[..|a| + n] == a + b[..n];
      FlatAppend(a, b[..n], yaml);
    }
  }

  lemma FlatOne(t: Text, yaml: bool)
    ensures Flat([t], yaml) == if t == [COLON] then Colon(yaml) else t
    ensures Flat([], yaml) == []
  {
    assert [t][..0] == [];
  }

  /** No text of a `double` is a colon. */
  ghost predicate RealsAreNoColons(w: Style) {
    forall d :: w.realText(d) != [COLON]
  }

  lemma FlatScalar(j: Json, w: Style, yaml: bool)
    requires !j.JArray? && !j.JObject? && RealsAreNoColons(w)
    ensures Flat(Tokens(j, w), yaml) == ScalarText(j, w)
  {
    hide Colon;
    if Tokens(j, w) != [] {
      var t := Tokens(j, w)[0];
      if j.JNumber? { DigitsRoundTrip(if j.n < 0 then -j.n else j.n); }
      assert t != [COLON];
      FlatOne(t, yaml);
    }
  }

  /** The text is the tokens of the document and nothing else: no space but the one behind a colon. */
  lemma {:induction false} FastIsFlat(j: Json, w: Style, yaml: bool)
    requires RealsAreNoColons(w)
    ensures FastText(j, w, yaml) == Flat(Tokens(j, w), yaml)
    decreases j, 1
  {
    hide Flat, FastItems, FastMembers, ItemTokens, MemberTokens, ScalarText, RealsAreNoColons;
    FlatBrackets(yaml);
    match j
    case JArray(items) =>
      FlatItems(items, |items|, w, yaml);
      assert items[..|items|] == items;
      FlatAppend([[LBRACKET]], ItemTokens(items, w), yaml);
      FlatAppend([[LBRACKET]] + ItemTokens(items, w), [[RBRACKET]], yaml);
    case JObject(members) =>
      FlatMembers(members, |members|, w, yaml);
      assert members[..|members|] == members;
      FlatAppend([[LBRACE]], MemberTokens(members, w), yaml);
      FlatAppend([[LBRACE]] + MemberTokens(members, w), [[RBRACE]], yaml);
    case _ => FlatScalar(j, w, yaml);
  }

  lemma FlatBrackets(yaml: bool)
    ensures Flat([[LBRACKET]], yaml) == [LBRACKET] && Flat([[RBRACKET]], yaml) == [RBRACKET]
    ensures Flat([[LBRACE]], yaml) == [LBRACE] && Flat([[RBRACE]], yaml) == [RBRACE]
    ensures Flat([[COMMA]], yaml) == [COMMA] && Flat([[COLON]], yaml) == Colon(yaml) && Flat([], yaml) == []
  {
    FlatOne([LBRACKET], yaml);
    FlatOne([RBRACKET], yaml);
    FlatOne([LBRACE], yaml);
    FlatOne([RBRACE], yaml);
    FlatOne([COMMA], yaml);
    FlatOne([COLON], yaml);
  }

  lemma NothingIsFlat(w: Style, yaml: bool)
    ensures FastItems([], w, yaml) == FastMembers([], w, yaml) == Flat([], yaml) == []
    ensures ItemTokens([], w) == MemberTokens([], w) == []
  {
  }

  lemma {:induction false} FlatItems(items: seq<Json>, k: nat, w: Style, yaml: bool)
    requires RealsAreNoColons(w) && k <= |items|
    ensures FastItems(items[..k], w, yaml) == Flat(ItemTokens(items[..k], w), yaml)
    decreases items, 0, k
  {
    hide FastText, FastItems, ItemTokens, Tokens, Flat, RealsAreNoColons;
    if k == 0 {
      NothingIsFlat(w, yaml);
      assert items[..0] == [];
    } else {
      var before := items[..k - 1];
      FlatItems(items, k - 1, w, yaml);
      FastIsFlat(items[k - 1], w, yaml);
      FastItemsPrefix(items, k - 1, w, yaml);
      ItemTokensPrefix(items, k - 1, w);
      FlatBrackets(yaml);
      FlatAppend(ItemTokens(before, w), Separator(before), yaml);
      FlatAppend(ItemTokens(before, w) + Separator(before), Tokens(items[k - 1], w), yaml);
    }
  }

  lemma {:induction false} FlatMembers(members: seq<Member>, k: nat, w: Style, yaml: bool)
    requires RealsAreNoColons(w) && k <= |members|
    ensures FastMembers(members[..k], w, yaml) == Flat(MemberTokens(members[..k], w), yaml)
    decreases members, 0, k
  {
    hide FastText, FastMembers, MemberTokens, Tokens, Flat, Quoted, Colon, RealsAreNoColons;
    if k == 0 {
      NothingIsFlat(w, yaml);
      assert members[..0] == [];
    } else {
      var before, m := members[..k - 1], members[k - 1];
      FlatMembers(members, k - 1, w, yaml);
      FastIsFlat(m.value, w, yaml);
      FastMembersPrefix(members, k - 1, w, yaml);
      MemberTokensPrefix(members, k - 1, w);
      FlatBrackets(yaml);
      FlatName(m.name, w, yaml);
      FlatAppend(MemberTokens(before, w), Separator(before), yaml);
      FlatAppend([Quoted(m.name, w.emitUTF8), [COLON]], Tokens(m.value, w), yaml);
      FlatAppend(MemberTokens(before, w) + Separator(before),
                 [Quoted(m.name, w.emitUTF8), [COLON]] + Tokens(m.value, w), yaml);
    }
  }

  lemma FlatName(name: Text, w: Style, yaml: bool)
    ensures Flat([Quoted(name, w.emitUTF8), [COLON]], yaml) == Quoted(name, w.emitUTF8) + Colon(yaml)
  {
    hide Flat, Colon;
    var q := Quoted(name, w.emitUTF8);
    assert q != [COLON] by { assert q[0] == QUOTE; }
    assert [q, [COLON]] == [q] + [[COLON]];
    FlatAppend([q], [[COLON]], yaml);
    FlatOne(q, yaml);
    FlatOne([COLON], yaml);
  }

  // ---------- Dropped nulls ----------

  function Dropping(w: Style): Style {
    w.(dropNull := true)
  }

  function Keeping(w: Style): Style {
    w.(dropNull := false)
  }

  /** `a` is no longer than `b`, and the same if and only if `same` holds. */
  predicate Shorter(a: Text, b: Text, same: bool) {
    |a| <= |b| && (same <==> |a| == |b|) && (same ==> a == b)
  }

  lemma ShorterAppend(a: Text, b: Text, p: bool, mid: Text, c: Text, d: Text, q: bool)
    requires Shorter(a, b, p) && Shorter(c, d, q)
    ensures Shorter(a + mid + c, b + mid + d, p && q)
  {
  }

  lemma ShorterWithin(open: Text, a: Text, b: Text, close: Text, p: bool)
    requires Shorter(a, b, p)
    ensures Shorter(open + a + close, open + b + close, p)
  {
  }

  /** Dropping nulls changes the text of exactly the documents that hold a null. */
  lemma {:induction false} DropsNothingIffNullFree(j: Json, w: Style, yaml: bool)
    ensures Shorter(FastText(j, Dropping(w), yaml), FastText(j, Keeping(w), yaml), NullFree(j))
    ensures FastText(j, Dropping(w), yaml) == FastText(j, Keeping(w), yaml) <==> NullFree(j)
    decreases j, 1
  {
    hide FastItems, FastMembers;
    match j
    case JArray(items) =>
      DropsInItems(items, |items|, w, yaml);
      assert items[..|items|] == items;
      ShorterWithin([LBRACKET], FastItems(items, Dropping(w), yaml), FastItems(items, Keeping(w), yaml), [RBRACKET],
                    NullFree(j));
    case JObject(members) =>
      DropsInMembers(members, |members|, w, yaml);
      assert members[..|members|] == members;
      ShorterWithin([LBRACE], FastMembers(members, Dropping(w), yaml), FastMembers(members, Keeping(w), yaml),
                    [RBRACE], NullFree(j));
    case _ =>
  }

  lemma {:induction false} DropsInItems(items: seq<Json>, k: nat, w: Style, yaml: bool)
    requires k <= |items|
    ensures Shorter(FastItems(items[..k], Dropping(w), yaml), FastItems(items[..k], Keeping(w), yaml),
                    forall i | 0 <= i < k :: NullFree(items[i]))
    decreases items, 0, k
  {
    hide FastText, FastItems, NullFree, Shorter;
    if k == 0 {
      NothingDropped(w, yaml);
    } else {
      DropsInItems(items, k - 1, w, yaml);
      DropsNothingIffNullFree(items[k - 1], w, yaml);
      FastItemsPrefix(items, k - 1, Dropping(w), yaml);
      FastItemsPrefix(items, k - 1, Keeping(w), yaml);
      var p := forall i | 0 <= i < k - 1 :: NullFree(items[i]);
      ShorterAppend(FastItems(items[..k - 1], Dropping(w), yaml), FastItems(items[..k - 1], Keeping(w), yaml), p,
                    Comma(items[..k - 1]), FastText(items[k - 1], Dropping(w), yaml),
                    FastText(items[k - 1], Keeping(w), yaml), NullFree(items[k - 1]));
      assert p && NullFree(items[k - 1]) <==> forall i | 0 <= i < k :: NullFree(items[i]);
    }
  }

  lemma {:induction false} DropsInMembers(members: seq<Member>, k: nat, w: Style, yaml: bool)
    requires k <= |members|
    ensures Shorter(FastMembers(members[..k], Dropping(w), yaml), FastMembers(members[..k], Keeping(w), yaml),
                    forall i | 0 <= i < k :: NullFree(members[i].value))
    decreases members, 0, k
  {
    hide FastText, FastMembers, NullFree, Shorter, Quoted, Colon;
    if k == 0 {
      NothingDropped(w, yaml);
    } else {
      var m := members[k - 1];
      DropsInMembers(members, k - 1, w, yaml);
      DropsNothingIffNullFree(m.value, w, yaml);
      FastMembersPrefix(members, k - 1, Dropping(w), yaml);
      FastMembersPrefix(members, k - 1, Keeping(w), yaml);
      var p := forall i | 0 <= i < k - 1 :: NullFree(members[i].value);
      var name := Quoted(m.name, w.emitUTF8) + Colon(yaml);
      Named(FastMembers(members[..k - 1], Dropping(w), yaml), Comma(members[..k - 1]), name,
            FastText(m.value, Dropping(w), yaml));
      Named(FastMembers(members[..k - 1], Keeping(w), yaml), Comma(members[..k - 1]), name,
            FastText(m.value, Keeping(w), yaml));
      ShorterAppend(FastMembers(members[..k - 1], Dropping(w), yaml), FastMembers(members[..k - 1], Keeping(w), yaml),
                    p, Comma(members[..k - 1]) + name, FastText(m.value, Dropping(w), yaml),
                    FastText(m.value, Keeping(w), yaml), NullFree(m.value));
      assert p && NullFree(m.value) <==> forall i | 0 <= i < k :: NullFree(members[i].value);
    }
  }

  lemma Named(before: Text, comma: Text, name: Text, value: Text)
    ensures before + comma + (name + value) == before + (comma + name) + value
  {
  }

  lemma NothingDropped(w: Style, yaml: bool)
    ensures Shorter(FastItems([], Dropping(w), yaml), FastItems([], Keeping(w), yaml), true)
    ensures Shorter(FastMembers([], Dropping(w), yaml), FastMembers([], Keeping(w), yaml), true)
  {
  }

  /** With dropped nulls an array of one null is written like the empty array. */
  lemma OneNullText(w: Style, yaml: bool)
    requires w.dropNull
    ensures FastText(JArray([JNull]), w, yaml) == [LBRACKET, RBRACKET] == FastText(JArray([]), w, yaml)
  {
    var one := [JNull];
    FastItemsPrefix(one, 0, w, yaml);
    assert one[..1] == one && one[..0] == [];
  }

  class FastWriter {
    const realText: Double -> Text
    var document: Text
    var yamlCompatibilityEnabled: bool
    var dropNullPlaceholders: bool
    var omitEndingLineFeed: bool

    constructor (realText: Double -> Text)
      ensures this.realText == realText && !yamlCompatibilityEnabled && !dropNullPlaceholders && !omitEndingLineFeed
    {
      this.realText := realText;
      document := [];
      yamlCompatibilityEnabled, dropNullPlaceholders, omitEndingLineFeed := false, false, false;
    }

    function Settings(): Style
      reads this
    {
      Style(false, dropNullPlaceholders, realText)
    }

    function TextOf(j: Json): Text
      reads this
    {
      FastText(j, Settings(), yamlCompatibilityEnabled)
    }

    /** `write`: the text of the document and, unless switched off, a line feed. */
    method Write(root: Value) returns (text: Text)
      requires Valid(root)
      modifies this`document
      ensures text == document == TextOf(Meaning(root)) + (if omitEndingLineFeed then [] else [LF])
    {
      document := [];
      WriteValue(root);
      if !omitEndingLineFeed {
        document := document + [LF];
      }
      text := document;
    }

    /** `writeValue`: appends the text of the value's document. */
    method WriteValue(value: Value)
      requires Valid(value)
      modifies this`document
      ensures document == old(document) + TextOf(Meaning(value))
      decreases Depth(Meaning(value))
    {
      match value
      case Null =>
        if !dropNullPlaceholders {
          document := document + NULL_TEXT;
        }
      case Int(i) =>
        var t := ValueToString(i as Int64);
        document := document + t;
      case UInt(u) =>
        var t := ValueToStringUnsigned(u as UInt64);
        document := document + t;
      case Real(d) =>
        document := document + realText(d);
      case Str(s) =>
        var t := ValueToQuotedStringN(s, false);
        document := document + t;
      case Bool(b) =>
        document := document + (if b then TRUE_TEXT else FALSE_TEXT);
      case Arr(nodes) =>
        WriteElements(value);
      case Obj(nodes) =>
        WriteMembers(value);
    }

    /** The array case of `writeValue`. */
    method WriteElements(value: Value)
      requires Valid(value) && value.Arr?
      modifies this`document
      ensures document == old(document) + TextOf(Meaning(value))
      decreases Depth(Meaning(value)), 0
    {
      hide Depth, Lookup, FastText, FastItems, ArraySize, Meaning, Valid;
      MeaningOfContainer(value);
      ghost var items := Meaning(value).items;
      ghost var w, yaml := Settings(), yamlCompatibilityEnabled;
      ghost var before := document;
      FastArray(items, w, yaml);
      document := document + [LBRACKET];
      var size := ArraySize(value.nodes);
      for index := 0 to size
        invariant |items| == size
        invariant document == before + ([LBRACKET] + FastItems(items[..index], w, yaml))
      {
        MeaningOfElement(value, index);
        if index > 0 {
          document := document + [COMMA];
        }
        WriteValue(Lookup(value.nodes, Index(index)));
        FastItemsPrefix(items, index, w, yaml);
      }
      assert items[..size] == items;
      document := document + [RBRACKET];
    }

    /** The object case of `writeValue`. */
    method WriteMembers(value: Value)
      requires Valid(value) && value.Obj?
      modifies this`document
      ensures document == old(document) + TextOf(Meaning(value))
      decreases Depth(Meaning(value)), 0
    {
      hide Depth, Lookup, FastText, FastMembers, Quoted, Colon, Comma, Meaning, Valid, RealTextOk;
      MeaningOfContainer(value);
      ghost var members := Meaning(value).members;
      ghost var w, yaml := Settings(), yamlCompatibilityEnabled;
      ghost var before := document;
      FastObject(members, w, yaml);
      var names := seq(|value.nodes|, i requires 0 <= i < |value.nodes| => KeyText(value.nodes[i].key));
      document := document + [LBRACE];
      for i := 0 to |names|
        invariant |members| == |names|
        invariant document == before + ([LBRACE] + FastMembers(members[..i], w, yaml))
      {
        MeaningOfMember(value, i);
        CommaOf(members, i);
        if i > 0 {
          document := document + [COMMA];
        }
        var t := ValueToQuotedStringN(names[i], false);
        document := document + t;
        document := document + Colon(yamlCompatibilityEnabled);
        WriteValue(Lookup(value.nodes, Name(names[i])));
        Regroup(before, [LBRACE], FastMembers(members[..i], w, yaml), Comma(members[..i]),
                Quoted(names[i], false), Colon(yaml), FastText(members[i].value, w, yaml));
        FastMembersPrefix(members, i, w, yaml);
      }
      assert members[..|names|] == members;
      document := document + [RBRACE];
    }
  }
}
