/** The tokens of a document, and texts that lay them out with any whitespace between. */
module Layout {
  import opened Chars
  import opened Decimal
  import opened Quoting
  import opened Values
  import opened Documents
  import opened Lexing

  /** What a writer's settings say about tokens: the `emitUTF8` flag, whether null
      placeholders are dropped, and the library's text of a `double`. */
  datatype Style = Style(emitUTF8: bool, dropNull: bool, realText: Double -> Text)

  /** The tokens a writer puts for a document. */
  function Tokens(j: Json, w: Style): seq<Text> {
    match j
    case JNull => if w.dropNull then [] else [NULL_TEXT]
    case JBool(b) => [if b then TRUE_TEXT else FALSE_TEXT]
    case JNumber(n) => [IntText(n)]
    case JReal(d) => [w.realText(d)]
    case JString(s) => [Quoted(s, w.emitUTF8)]
    case JArray(items) => [[LBRACKET]] + ItemTokens(items, w) + [[RBRACKET]]
    case JObject(members) => [[LBRACE]] + MemberTokens(members, w) + [[RBRACE]]
  }

  function ItemTokens(items: seq<Json>, w: Style): seq<Text> {
    if items == [] then []
    else Tokens(items[0], w) + (if |items| == 1 then [] else [[COMMA]] + ItemTokens(items[1..], w))
  }

  function MemberTokens(members: seq<Member>, w: Style): seq<Text> {
    if members == [] then []
    else [Quoted(members[0].name, w.emitUTF8), [COLON]] + Tokens(members[0].value, w)
         + (if |members| == 1 then [] else [[COMMA]] + MemberTokens(members[1..], w))
  }

  /** From `p` on, `s` consists of the given tokens in order and whitespace. */
  predicate Spaced(tokens: seq<Text>, s: Text, p: nat)
    requires p <= |s|
    decreases |tokens|
  {
    var q := SkipSpaces(s, p);
    if tokens == [] then q == |s|
    else tokens[0] != [] && StandsAt(s, q, tokens[0]) && Spaced(tokens[1..], s, q + |tokens[0]|)
  }

  /** `t` is a layout of the tokens. */
  predicate Lays(tokens: seq<Text>, t: Text) {
    Spaced(tokens, t, 0)
  }

  // ---------- Putting layouts together ----------

  lemma {:induction false} SkipSpacesShift(a: Text, b: Text, p: nat)
    requires p <= |b|
    ensures SkipSpaces(a + b, |a| + p) == |a| + SkipSpaces(b, p)
    decreases |b| - p
  {
    if p < |b| && IsSpace(b[p]) { SkipSpacesShift(a, b, p + 1); }
  }

  lemma {:induction false} SpacedShift(tokens: seq<Text>, a: Text, b: Text, p: nat)
    requires p <= |b| && Spaced(tokens, b, p)
    ensures Spaced(tokens, a + b, |a| + p)
    decreases |tokens|
  {
    hide SkipSpaces;
    SkipSpacesShift(a, b, p);
    if tokens == [] {
    } else {
      var q := SkipSpaces(b, p);
      assert (a + b)[|a| + q..|a| + q + |tokens[0]|] == b[q..q + |tokens[0]|];
      SpacedShift(tokens[1..], a, b, q + |tokens[0]|);
    }
  }

  /** Whitespace in front of a layout does not matter. */
  lemma {:induction false} SkipSpacesAcross(a: Text, b: Text, p: nat)
    requires p <= |a|
    ensures SkipSpaces(a, p) == |a| ==> SkipSpaces(a + b, p) == |a| + SkipSpaces(b, 0)
    ensures SkipSpaces(a, p) < |a| ==> SkipSpaces(a + b, p) == SkipSpaces(a, p)
    decreases |a| - p
  {
    if p == |a| {
      SkipSpacesShift(a, b, 0);
    } else if IsSpace(a[p]) {
      SkipSpacesAcross(a, b, p + 1);
    }
  }

  lemma {:induction false} SpacedAppend(t1: seq<Text>, t2: seq<Text>, a: Text, b: Text, p: nat)
    requires p <= |a| && Spaced(t1, a, p) && Lays(t2, b)
    ensures Spaced(t1 + t2, a + b, p)
    decreases |t1|
  {
    hide SkipSpaces, StandsAt;
    SkipSpacesAcross(a, b, p);
    if t1 == [] {
      assert t1 + t2 == t2;
      SpacedShift(t2, a, b, 0);
      SpacedSkips(t2, a + b, p, |a|);
    } else {
      var q := SkipSpaces(a, p);
      StandsInFront(a, b, q, t1[0]);
      assert t1 + t2 == [t1[0]] + (t1[1..] + t2);
      SpacedAppend(t1[1..], t2, a, b, q + |t1[0]|);
      SpacedCons(t1[0], t1[1..] + t2, a + b, p);
    }
  }

  lemma StandsInFront(a: Text, b: Text, q: nat, t: Text)
    requires StandsAt(a, q, t)
    ensures StandsAt(a + b, q, t) && q + |t| <= |a|
  {
    assert (a + b)[q..q + |t|] == a[q..q + |t|];
  }

  lemma SpacedCons(t: Text, tokens: seq<Text>, s: Text, p: nat)
    requires p <= |s| && t != [] && StandsAt(s, SkipSpaces(s, p), t)
    requires SkipSpaces(s, p) + |t| <= |s| && Spaced(tokens, s, SkipSpaces(s, p) + |t|)
    ensures Spaced([t] + tokens, s, p)
  {
    hide SkipSpaces, StandsAt;
    assert ([t] + tokens)[1..] == tokens;
  }

  lemma SpacedSkips(tokens: seq<Text>, s: Text, p: nat, q: nat)
    requires p <= |s| && q <= |s| && SkipSpaces(s, p) == SkipSpaces(s, q) && Spaced(tokens, s, q)
    ensures Spaced(tokens, s, p)
  {
  }

  /** Layouts can be put one after the other. */
  lemma LaysAppend(t1: seq<Text>, t2: seq<Text>, a: Text, b: Text)
    requires Lays(t1, a) && Lays(t2, b)
    ensures Lays(t1 + t2, a + b)
  {
    SpacedAppend(t1, t2, a, b, 0);
  }

  lemma LaysOne(t: Text)
    requires t != [] && !IsSpace(t[0])
    ensures Lays([t], t)
  {
    assert t[0..|t|] == t;
  }

  lemma {:induction false} SkipAllSpaces(t: Text, p: nat)
    requires p <= |t| && AllSpace(t[p..])
    ensures SkipSpaces(t, p) == |t|
    decreases |t| - p
  {
    if p < |t| {
      assert t[p] == t[p..][0];
      assert t[p + 1..] == t[p..][1..];
      SkipAllSpaces(t, p + 1);
    }
  }

  lemma LaysNothing(t: Text)
    requires AllSpace(t)
    ensures Lays([], t)
  {
    SkipAllSpaces(t, 0);
  }

  lemma LaysAppend3(t1: seq<Text>, t2: seq<Text>, t3: seq<Text>, a: Text, b: Text, c: Text)
    requires Lays(t1, a) && Lays(t2, b) && Lays(t3, c)
    ensures Lays(t1 + t2 + t3, a + b + c)
  {
    LaysAppend(t1, t2, a, b);
    LaysAppend(t1 + t2, t3, a + b, c);
  }

  // ---------- Tokens in the order the writers put them ----------

  function Separator<T>(before: seq<T>): seq<Text> {
    if before == [] then [] else [[COMMA]]
  }

  lemma {:induction false} ItemTokensSnoc(items: seq<Json>, x: Json, w: Style)
    ensures ItemTokens(items + [x], w) == ItemTokens(items, w) + Separator(items) + Tokens(x, w)
  {
    hide Tokens;
    if items == [] {
      assert items + [x] == [x];
    } else {
      assert (items + [x])[1..] == items[1..] + [x];
      ItemTokensSnoc(items[1..], x, w);
    }
  }

  lemma {:induction false} MemberTokensSnoc(members: seq<Member>, m: Member, w: Style)
    ensures MemberTokens(members + [m], w)
         == MemberTokens(members, w) + Separator(members) + ([Quoted(m.name, w.emitUTF8), [COLON]] + Tokens(m.value, w))
  {
    if members == [] {
      assert members + [m] == [m];
    } else {
      assert (members + [m])[1..] == members[1..] + [m];
      MemberTokensSnoc(members[1..], m, w);
    }
  }

  lemma ItemTokensPrefix(items: seq<Json>, k: nat, w: Style)
    requires k < |items|
    ensures ItemTokens(items[..k + 1], w) == ItemTokens(items[..k], w) + Separator(items[..k]) + Tokens(items[k], w)
  {
    assert items[..k + 1] == items[..k] + [items[k]];
    ItemTokensSnoc(items[..k], items[k], w);
  }

  lemma MemberTokensPrefix(members: seq<Member>, k: nat, w: Style)
    requires k < |members|
    ensures MemberTokens(members[..k + 1], w)
         == MemberTokens(members[..k], w) + Separator(members[..k])
            + ([Quoted(members[k].name, w.emitUTF8), [COLON]] + Tokens(members[k].value, w))
  {
    assert members[..k + 1] == members[..k] + [members[k]];
    MemberTokensSnoc(members[..k], members[k], w);
  }

  /** What is assumed of the library's text of a `double`. */
  ghost predicate RealTextOk(w: Style) {
    forall d :: w.realText(d) != [] && !IsSpace(w.realText(d)[0])
  }

  lemma LaysQuoted(s: Text, emitUTF8: bool)
    ensures Lays([Quoted(s, emitUTF8)], Quoted(s, emitUTF8))
  {
    LaysOne(Quoted(s, emitUTF8));
  }

  /** The text of a document that is neither array nor object. */
  function ScalarText(j: Json, w: Style): Text {
    if Tokens(j, w) == [] then [] else Tokens(j, w)[0]
  }

  lemma LaysScalar(j: Json, w: Style)
    requires !j.JArray? && !j.JObject? && RealTextOk(w)
    ensures |Tokens(j, w)| <= 1 && Lays(Tokens(j, w), ScalarText(j, w))
  {
    if j.JNull? && w.dropNull {
      LaysNothing([]);
    } else {
      if j.JNumber? { DigitsRoundTrip(if j.n < 0 then -j.n else j.n); }
      LaysOne(Tokens(j, w)[0]);
    }
  }
}
