/** The text that `BuiltStyledStreamWriter` writes for a document: which values start a line, how
    far the line is indented, and which arrays stay on one line. */
module StyledTexts {
  import opened Chars
  import opened Quoting
  import opened Documents
  import opened Layout
  import FastWriting

  const RIGHT_MARGIN: nat := 74

  /** The width of `ArrayIndex`: sums of lengths wrap around at this bound. */
  const UINT32: nat := 0x1_0000_0000

  /** The settings of the builder that decide about lines and spaces; `oneLine` is set when the
      comment style is None. */
  datatype Form = Form(indentation: Text, colon: Text, oneLine: bool)

  function Copies(t: Text, n: nat): Text {
    if n == 0 then [] else Copies(t, n - 1) + t
  }

  /** A line feed and the indentation of the depth, if there is any indentation. */
  function NewLine(p: Form, depth: nat): Text {
    if p.indentation == [] then [] else [LF] + Copies(p.indentation, depth)
  }

  /** What is written in front of an opening bracket: nothing where a line has just begun. */
  function Start(p: Form, depth: nat, begun: bool): Text {
    if begun then [] else NewLine(p, depth)
  }

  /** A space, if there is any indentation. */
  function Gap(p: Form): Text {
    if p.indentation == [] then [] else [SPACE]
  }

  /** A document whose text is one string: no container with contents. */
  predicate Leaf(j: Json) {
    (j.JArray? ==> j.items == []) && (j.JObject? ==> j.members == [])
  }

  function LeafText(j: Json, w: Style): Text {
    if j.JArray? then [LBRACKET, RBRACKET] else if j.JObject? then [LBRACE, RBRACE] else ScalarText(j, w)
  }

  function LeafTexts(items: seq<Json>, w: Style): (r: seq<Text>)
    ensures |r| == |items|
  {
    seq(|items|, i requires 0 <= i < |items| => LeafText(items[i], w))
  }

  function TotalLength(items: seq<Json>, w: Style): nat {
    if items == [] then 0 else TotalLength(items[..|items| - 1], w) + |LeafText(items[|items| - 1], w)|
  }

  /** The array goes on one line: the settings allow it, every child is a leaf, and neither the
      number of children nor the length of the line reaches the margin. */
  predicate OnOneLine(items: seq<Json>, w: Style, p: Form) {
    && p.oneLine
    && |items| * 3 % UINT32 < RIGHT_MARGIN
    && (forall i | 0 <= i < |items| :: Leaf(items[i]))
    && (4 + (|items| - 1) * 2 + TotalLength(items, w)) % UINT32 < RIGHT_MARGIN
  }

  function Comma<T>(before: seq<T>): Text {
    if before == [] then [] else [COMMA]
  }

  function CommaGap<T>(before: seq<T>, p: Form): Text {
    if before == [] then [] else [COMMA] + Gap(p)
  }

  function OneLineItems(items: seq<Json>, w: Style, p: Form): Text {
    if items == [] then []
    else
      var n := |items| - 1;
      OneLineItems(items[..n], w, p) + CommaGap(items[..n], p) + LeafText(items[n], w)
  }

  function OneLineText(items: seq<Json>, w: Style, p: Form): Text {
    [LBRACKET] + Gap(p) + OneLineItems(items, w, p) + Gap(p) + [RBRACKET]
  }

  /** The text of a document whose brackets stand at `depth`; `begun` if a line has just begun. */
  function Styled(j: Json, w: Style, p: Form, depth: nat, begun: bool): Text
    decreases j, 1
  {
    if Leaf(j) then LeafText(j, w)
    else if j.JObject? then
      Start(p, depth, begun) + [LBRACE] + MemberLines(j.members, w, p, depth + 1) + NewLine(p, depth) + [RBRACE]
    else if OnOneLine(j.items, w, p) then OneLineText(j.items, w, p)
    else Start(p, depth, begun) + [LBRACKET] + ItemLines(j.items, w, p, depth + 1) + NewLine(p, depth) + [RBRACKET]
  }

  /** Every item on a line of its own. */
  function ItemLines(items: seq<Json>, w: Style, p: Form, depth: nat): Text
    decreases items, 0
  {
    if items == [] then []
    else
      var n := |items| - 1;
      ItemLines(items[..n], w, p, depth) + Comma(items[..n]) + NewLine(p, depth) + Styled(items[n], w, p, depth, true)
  }

  /** Every member's name on a line of its own; a value that takes several lines begins on the
      next one. */
  function MemberLines(members: seq<Member>, w: Style, p: Form, depth: nat): Text
    decreases members, 0
  {
    if members == [] then []
    else
      var n := |members| - 1;
      MemberLines(members[..n], w, p, depth) + Comma(members[..n]) + NewLine(p, depth)
      + MemberText(members[n], w, p, depth)
  }

  function MemberText(m: Member, w: Style, p: Form, depth: nat): Text
    decreases m, 2
  {
    Quoted(m.name, w.emitUTF8) + p.colon + Styled(m.value, w, p, depth, false)
  }

  // ---------- Unfolding ----------

  lemma ItemLinesPrefix(items: seq<Json>, k: nat, w: Style, p: Form, depth: nat)
    requires k < |items|
    ensures ItemLines(items[..k + 1], w, p, depth)
         == ItemLines(items[..k], w, p, depth) + Comma(items[..k]) + NewLine(p, depth)
            + Styled(items[k], w, p, depth, true)
  {
    hide Styled, NewLine, Comma;
    assert items[..k + 1][..k] == items[..k];
  }

  lemma MemberLinesPrefix(members: seq<Member>, k: nat, w: Style, p: Form, depth: nat)
    requires k < |members|
    ensures MemberLines(members[..k + 1], w, p, depth)
         == MemberLines(members[..k], w, p, depth) + Comma(members[..k]) + NewLine(p, depth)
            + MemberText(members[k], w, p, depth)
  {
    hide MemberText, NewLine, Comma;
    assert members[..k + 1][..k] == members[..k];
  }

  lemma OneLinePrefix(items: seq<Json>, k: nat, w: Style, p: Form)
    requires k < |items|
    ensures OneLineItems(items[..k + 1], w, p)
         == OneLineItems(items[..k], w, p) + CommaGap(items[..k], p) + LeafText(items[k], w)
    ensures TotalLength(items[..k + 1], w) == TotalLength(items[..k], w) + |LeafText(items[k], w)|
  {
    hide LeafText;
    assert items[..k + 1][..k] == items[..k];
  }

  lemma NoLines(w: Style, p: Form, depth: nat)
    ensures ItemLines([], w, p, depth) == [] && MemberLines([], w, p, depth) == [] && OneLineItems([], w, p) == []
    ensures TotalLength([], w) == 0
  {
  }

  lemma CommaOf<T>(s: seq<T>, k: nat)
    requires k <= |s|
    ensures Comma(s[..k]) == if k == 0 then [] else [COMMA]
  {
  }

  lemma StyledIs(j: Json, w: Style, p: Form, depth: nat, begun: bool)
    ensures Leaf(j) ==> Styled(j, w, p, depth, begun) == LeafText(j, w)
    ensures !Leaf(j) && j.JObject? ==>
              Styled(j, w, p, depth, begun)
              == Start(p, depth, begun) + [LBRACE] + MemberLines(j.members, w, p, depth + 1) + NewLine(p, depth)
                 + [RBRACE]
    ensures !Leaf(j) && j.JArray? && OnOneLine(j.items, w, p) ==>
              Styled(j, w, p, depth, begun) == OneLineText(j.items, w, p)
    ensures !Leaf(j) && j.JArray? && !OnOneLine(j.items, w, p) ==>
              Styled(j, w, p, depth, begun)
              == Start(p, depth, begun) + [LBRACKET] + ItemLines(j.items, w, p, depth + 1) + NewLine(p, depth)
                 + [RBRACKET]
  {
    hide Leaf, LeafText, Start, OneLineText, OnOneLine, NewLine, MemberLines, ItemLines;
  }

  // ---------- A layout of the same tokens ----------

  /** Whitespace for indentation, and a colon with whitespace around it. */
  ghost predicate GoodForm(p: Form) {
    AllSpace(p.indentation) && Lays([[COLON]], p.colon)
  }

  lemma LaysSpaceBefore(space: Text, tokens: seq<Text>, t: Text)
    requires AllSpace(space) && Lays(tokens, t)
    ensures Lays(tokens, space + t)
  {
    LaysNothing(space);
    LaysAppend([], tokens, space, t);
    assert [] + tokens == tokens;
  }

  lemma LaysSpaceAfter(tokens: seq<Text>, t: Text, space: Text)
    requires AllSpace(space) && Lays(tokens, t)
    ensures Lays(tokens, t + space)
  {
    LaysNothing(space);
    LaysAppend(tokens, [], t, space);
    assert tokens + [] == tokens;
  }

  lemma {:induction false} CopiesAreSpace(t: Text, n: nat)
    requires AllSpace(t)
    ensures AllSpace(Copies(t, n))
  {
    if n == 0 {
    } else {
      CopiesAreSpace(t, n - 1);
    }
  }

  lemma NewLineIsSpace(p: Form, depth: nat)
    requires AllSpace(p.indentation)
    ensures AllSpace(NewLine(p, depth)) && AllSpace(Start(p, depth, true)) && AllSpace(Start(p, depth, false))
            && AllSpace(Gap(p))
  {
    CopiesAreSpace(p.indentation, depth);
  }

  lemma BracketsLay()
    ensures Lays([[LBRACKET]], [LBRACKET]) && Lays([[RBRACKET]], [RBRACKET])
    ensures Lays([[LBRACE]], [LBRACE]) && Lays([[RBRACE]], [RBRACE])
  {
    LaysOne([LBRACKET]);
    LaysOne([RBRACKET]);
    LaysOne([LBRACE]);
    LaysOne([RBRACE]);
  }

  /** Brackets with whitespace before each. */
  lemma LaysBracketed(open: Text, close: Text, tokens: seq<Text>, a: Text, inner: Text, b: Text)
    requires AllSpace(a) && AllSpace(b) && Lays([open], open) && Lays([close], close) && Lays(tokens, inner)
    ensures Lays([open] + tokens + [close], a + open + inner + b + close)
  {
    hide Lays, AllSpace;
    LaysSpaceBefore(a, [open], open);
    LaysSpaceAfter(tokens, inner, b);
    LaysAppend3([open], tokens, [close], a + open, inner + b, close);
    assert a + open + inner + b + close == a + open + (inner + b) + close;
  }

  lemma CommaLays<T>(before: seq<T>, p: Form)
    requires AllSpace(p.indentation)
    ensures Lays(Separator(before), Comma(before)) && Lays(Separator(before), CommaGap(before, p))
  {
    LaysOne([COMMA]);
    LaysSpaceAfter([[COMMA]], [COMMA], Gap(p));
  }

  lemma LeafLays(j: Json, w: Style)
    requires Leaf(j) && RealTextOk(w)
    ensures Lays(Tokens(j, w), LeafText(j, w))
  {
    hide Lays;
    BracketsLay();
    match j
    case JArray(items) =>
      LaysAppend([[LBRACKET]], [[RBRACKET]], [LBRACKET], [RBRACKET]);
      assert Tokens(j, w) == [[LBRACKET]] + [[RBRACKET]];
      assert LeafText(j, w) == [LBRACKET] + [RBRACKET];
    case JObject(members) =>
      LaysAppend([[LBRACE]], [[RBRACE]], [LBRACE], [RBRACE]);
      assert Tokens(j, w) == [[LBRACE]] + [[RBRACE]];
      assert LeafText(j, w) == [LBRACE] + [RBRACE];
    case _ => LaysScalar(j, w);
  }

  /** Whatever the settings, the text is a layout of the tokens that `FastWriter` writes. */
  lemma {:induction false} StyledLays(j: Json, w: Style, p: Form, depth: nat, begun: bool)
    requires RealTextOk(w) && GoodForm(p)
    ensures Lays(Tokens(j, w), Styled(j, w, p, depth, begun))
    decreases j, 1
  {
    hide Lays, Leaf, LeafText, Start, OnOneLine, NewLine, MemberLines, ItemLines, ItemTokens, MemberTokens, RealTextOk;
    hide Styled, OneLineItems, Gap;
    StyledIs(j, w, p, depth, begun);
    BracketsLay();
    NewLineIsSpace(p, depth);
    if Leaf(j) {
      LeafLays(j, w);
    } else if j.JObject? {
      MemberLinesLay(j.members, |j.members|, w, p, depth + 1);
      assert j.members[..|j.members|] == j.members;
      LaysBracketed([LBRACE], [RBRACE], MemberTokens(j.members, w), Start(p, depth, begun),
                    MemberLines(j.members, w, p, depth + 1), NewLine(p, depth));
    } else {
      NoContainer(j);
      assert j.items[..|j.items|] == j.items;
      if OnOneLine(j.items, w, p) {
        LeavesOnOneLine(j.items, w, p);
        OneLineLays(j.items, |j.items|, w, p);
        LaysSpaceBefore(Gap(p), ItemTokens(j.items, w), OneLineItems(j.items, w, p));
        NewLineIsSpace(p, 0);
        LaysBracketed([LBRACKET], [RBRACKET], ItemTokens(j.items, w), Start(p, 0, true),
                      Gap(p) + OneLineItems(j.items, w, p), Gap(p));
        OneLineParts(j.items, w, p);
      } else {
        ItemLinesLay(j.items, |j.items|, w, p, depth + 1);
        LaysBracketed([LBRACKET], [RBRACKET], ItemTokens(j.items, w), Start(p, depth, begun),
                      ItemLines(j.items, w, p, depth + 1), NewLine(p, depth));
      }
    }
  }

  lemma NoContainer(j: Json)
    requires !Leaf(j)
    ensures j.JObject? || j.JArray?
  {
  }

  lemma LeavesOnOneLine(items: seq<Json>, w: Style, p: Form)
    requires OnOneLine(items, w, p)
    ensures forall i | 0 <= i < |items| :: Leaf(items[i])
  {
  }

  lemma OneLineParts(items: seq<Json>, w: Style, p: Form)
    ensures OneLineText(items, w, p)
         == Start(p, 0, true) + [LBRACKET] + (Gap(p) + OneLineItems(items, w, p)) + Gap(p) + [RBRACKET]
  {
    hide OneLineItems, Gap;
  }

  lemma {:induction false} OneLineLays(items: seq<Json>, k: nat, w: Style, p: Form)
    requires RealTextOk(w) && AllSpace(p.indentation) && k <= |items| && forall i | 0 <= i < |items| :: Leaf(items[i])
    ensures Lays(ItemTokens(items[..k], w), OneLineItems(items[..k], w, p))
  {
    hide Lays, ItemTokens, OneLineItems, Leaf, LeafText, RealTextOk, AllSpace, Tokens;
    if k == 0 {
      LaysNoLines(w, p, 0);
    } else {
      OneLineLays(items, k - 1, w, p);
      OneLinePrefix(items, k - 1, w, p);
      CommaLays(items[..k - 1], p);
      LeafLays(items[k - 1], w);
      ItemTokensPrefix(items, k - 1, w);
      LaysAppend3(ItemTokens(items[..k - 1], w), Separator(items[..k - 1]), Tokens(items[k - 1], w),
                  OneLineItems(items[..k - 1], w, p), CommaGap(items[..k - 1], p), LeafText(items[k - 1], w));
    }
  }

  lemma LaysNoLines(w: Style, p: Form, depth: nat)
    ensures Lays(ItemTokens([], w), OneLineItems([], w, p)) && Lays(ItemTokens([], w), ItemLines([], w, p, depth))
    ensures Lays(MemberTokens([], w), MemberLines([], w, p, depth))
  {
    LaysNothing([]);
  }

  lemma {:induction false} ItemLinesLay(items: seq<Json>, k: nat, w: Style, p: Form, depth: nat)
    requires RealTextOk(w) && GoodForm(p) && k <= |items|
    ensures Lays(ItemTokens(items[..k], w), ItemLines(items[..k], w, p, depth))
    decreases items, 0, k
  {
    hide Lays, ItemTokens, ItemLines, Styled, RealTextOk, AllSpace, Tokens, NewLine, Separator, Comma;
    if k == 0 {
      LaysNoLines(w, p, depth);
    } else {
      var before, x := items[..k - 1], items[k - 1];
      ItemLinesLay(items, k - 1, w, p, depth);
      ItemLinesPrefix(items, k - 1, w, p, depth);
      CommaLays(before, p);
      NewLineIsSpace(p, depth);
      StyledLays(x, w, p, depth, true);
      LaysSpaceAfter(Separator(before), Comma(before), NewLine(p, depth));
      ItemTokensPrefix(items, k - 1, w);
      LaysAppend3(ItemTokens(before, w), Separator(before), Tokens(x, w), ItemLines(before, w, p, depth),
                  Comma(before) + NewLine(p, depth), Styled(x, w, p, depth, true));
      Regroup(ItemLines(before, w, p, depth), Comma(before), NewLine(p, depth), Styled(x, w, p, depth, true));
    }
  }

  lemma Regroup(a: Text, b: Text, c: Text, d: Text)
    ensures a + (b + c) + d == a + b + c + d
  {
  }

  lemma {:induction false} MemberLinesLay(members: seq<Member>, k: nat, w: Style, p: Form, depth: nat)
    requires RealTextOk(w) && GoodForm(p) && k <= |members|
    ensures Lays(MemberTokens(members[..k], w), MemberLines(members[..k], w, p, depth))
    decreases members, 0, k
  {
    hide Lays, MemberTokens, MemberLines, MemberText, Styled, RealTextOk, AllSpace, Tokens, NewLine, Separator, Comma;
    hide Quoted;
    if k == 0 {
      LaysNoLines(w, p, depth);
    } else {
      var before, m := members[..k - 1], members[k - 1];
      MemberLinesLay(members, k - 1, w, p, depth);
      MemberLinesPrefix(members, k - 1, w, p, depth);
      CommaLays(before, p);
      NewLineIsSpace(p, depth);
      MemberTextLays(m, w, p, depth);
      LaysSpaceAfter(Separator(before), Comma(before), NewLine(p, depth));
      MemberTokensPrefix(members, k - 1, w);
      LaysAppend3(MemberTokens(before, w), Separator(before),
                  [Quoted(m.name, w.emitUTF8), [COLON]] + Tokens(m.value, w),
                  MemberLines(before, w, p, depth), Comma(before) + NewLine(p, depth), MemberText(m, w, p, depth));
      Regroup(MemberLines(before, w, p, depth), Comma(before), NewLine(p, depth), MemberText(m, w, p, depth));
    }
  }

  lemma {:induction false} MemberTextLays(m: Member, w: Style, p: Form, depth: nat)
    requires RealTextOk(w) && GoodForm(p)
    ensures Lays([Quoted(m.name, w.emitUTF8), [COLON]] + Tokens(m.value, w), MemberText(m, w, p, depth))
    decreases m, 2
  {
    hide Lays, Styled, RealTextOk, AllSpace, Tokens, Quoted;
    StyledLays(m.value, w, p, depth, false);
    LaysQuoted(m.name, w.emitUTF8);
    LaysAppend3([Quoted(m.name, w.emitUTF8)], [[COLON]], Tokens(m.value, w),
                Quoted(m.name, w.emitUTF8), p.colon, Styled(m.value, w, p, depth, false));
    assert [Quoted(m.name, w.emitUTF8)] + [[COLON]] == [Quoted(m.name, w.emitUTF8), [COLON]];
  }

  // ---------- Without indentation ----------

  /** Without indentation nothing but the colon differs from what `FastWriter` writes, whatever
      the comment style: no line is broken and no space is added. */
  lemma {:induction false} StyledIsFast(j: Json, w: Style, p: Form, yaml: bool, depth: nat, begun: bool)
    requires p.indentation == [] && p.colon == FastWriting.Colon(yaml)
    ensures Styled(j, w, p, depth, begun) == FastWriting.FastText(j, w, yaml)
    decreases j, 1
  {
    hide Styled, LeafText, OnOneLine, OneLineItems, ItemLines, MemberLines, FastWriting.FastItems,
         FastWriting.FastMembers;
    StyledIs(j, w, p, depth, begun);
    if Leaf(j) {
      LeafIsFast(j, w, yaml);
    } else if j.JObject? {
      MembersAreFast(j.members, |j.members|, w, p, yaml, depth + 1);
      assert j.members[..|j.members|] == j.members;
    } else {
      assert j.items[..|j.items|] == j.items;
      if OnOneLine(j.items, w, p) {
        LeavesOnOneLine(j.items, w, p);
        OneLineIsFast(j.items, |j.items|, w, p, yaml);
      } else {
        ItemsAreFast(j.items, |j.items|, w, p, yaml, depth + 1);
      }
    }
  }

  lemma LeafIsFast(j: Json, w: Style, yaml: bool)
    requires Leaf(j)
    ensures LeafText(j, w) == FastWriting.FastText(j, w, yaml)
  {
    hide ScalarText;
  }

  lemma CommasAgree<T>(before: seq<T>, p: Form)
    requires p.indentation == []
    ensures CommaGap(before, p) == Comma(before) == FastWriting.Comma(before)
  {
  }

  lemma NoNewLine(p: Form, depth: nat)
    requires p.indentation == []
    ensures NewLine(p, depth) == []
  {
  }

  lemma {:induction false} OneLineIsFast(items: seq<Json>, k: nat, w: Style, p: Form, yaml: bool)
    requires p.indentation == [] && k <= |items| && forall i | 0 <= i < |items| :: Leaf(items[i])
    ensures OneLineItems(items[..k], w, p) == FastWriting.FastItems(items[..k], w, yaml)
  {
    hide FastWriting.FastText, FastWriting.FastItems, FastWriting.Comma, OneLineItems, CommaGap, LeafText, Leaf,
         TotalLength;
    if k == 0 {
      NoLines(w, p, 0);
      FastWriting.FastArray(items, w, yaml);
      assert items[..0] == [];
    } else {
      CommasAgree(items[..k - 1], p);
      OneLineIsFast(items, k - 1, w, p, yaml);
      OneLinePrefix(items, k - 1, w, p);
      FastWriting.FastItemsPrefix(items, k - 1, w, yaml);
      LeafIsFast(items[k - 1], w, yaml);
    }
  }

  lemma {:induction false} ItemsAreFast(items: seq<Json>, k: nat, w: Style, p: Form, yaml: bool, depth: nat)
    requires p.indentation == [] && p.colon == FastWriting.Colon(yaml) && k <= |items|
    ensures ItemLines(items[..k], w, p, depth) == FastWriting.FastItems(items[..k], w, yaml)
    decreases items, 0, k
  {
    hide FastWriting.FastText, FastWriting.FastItems, FastWriting.Comma, ItemLines, Styled, NewLine, Comma;
    if k == 0 {
      NoLines(w, p, depth);
      FastWriting.FastArray(items, w, yaml);
      assert items[..0] == [];
    } else {
      NoNewLine(p, depth);
      CommasAgree(items[..k - 1], p);
      ItemsAreFast(items, k - 1, w, p, yaml, depth);
      ItemLinesPrefix(items, k - 1, w, p, depth);
      FastWriting.FastItemsPrefix(items, k - 1, w, yaml);
      StyledIsFast(items[k - 1], w, p, yaml, depth, true);
    }
  }

  lemma {:induction false} MembersAreFast(members: seq<Member>, k: nat, w: Style, p: Form, yaml: bool, depth: nat)
    requires p.indentation == [] && p.colon == FastWriting.Colon(yaml) && k <= |members|
    ensures MemberLines(members[..k], w, p, depth) == FastWriting.FastMembers(members[..k], w, yaml)
    decreases members, 0, k
  {
    hide FastWriting.FastText, FastWriting.FastMembers, FastWriting.Comma, MemberLines, Styled, Quoted, NewLine, Comma;
    if k == 0 {
      NoLines(w, p, depth);
      FastWriting.FastObject(members, w, yaml);
      assert members[..0] == [];
    } else {
      NoNewLine(p, depth);
      CommasAgree(members[..k - 1], p);
      MembersAreFast(members, k - 1, w, p, yaml, depth);
      MemberLinesPrefix(members, k - 1, w, p, depth);
      FastWriting.FastMembersPrefix(members, k - 1, w, yaml);
      StyledIsFast(members[k - 1].value, w, p, yaml, depth, false);
    }
  }

  // ---------- Lines ----------

  /** Somewhere in `t`, but not at its end, stands `part`. */
  ghost predicate Within(part: Text, t: Text) {
    exists a: Text, b: Text :: t == a + part + b && b != []
  }

  lemma WithinAppend(part: Text, a: Text, b: Text)
    requires Within(part, a) && b != []
    ensures Within(part, a + b)
  {
    var x, y :| a == x + part + y && y != [];
    assert a + b == x + part + (y + b);
  }

  /** With an indentation, in an array that does not stay on one line every element starts a line
      one copy of the indentation further in, and the closing bracket starts one below the
      opening bracket's. */
  lemma ElementsStartLines(items: seq<Json>, w: Style, p: Form, depth: nat, begun: bool, k: nat)
    requires k < |items| && !OnOneLine(items, w, p) && p.indentation != []
    ensures var t := Styled(JArray(items), w, p, depth, begun);
            && Within([LF] + Copies(p.indentation, depth + 1) + Styled(items[k], w, p, depth + 1, true), t)
            && EndsIn(t, [LF] + Copies(p.indentation, depth) + [RBRACKET])
  {
    hide OnOneLine, Styled, ItemLines, NewLine, Copies;
    NewLineIs(p, depth);
    NewLineIs(p, depth + 1);
    StyledIs(JArray(items), w, p, depth, begun);
    var close := NewLine(p, depth) + [RBRACKET];
    var open := Start(p, depth, begun) + [LBRACKET];
    ItemLineWithin(items, |items|, w, p, depth + 1, k, open, close);
    assert items[..|items|] == items;
    assert Styled(JArray(items), w, p, depth, begun) == open + ItemLines(items, w, p, depth + 1) + close;
  }

  ghost predicate EndsIn(t: Text, part: Text) {
    exists a: Text :: t == a + part
  }

  lemma {:induction false} ItemLineWithin(items: seq<Json>, n: nat, w: Style, p: Form, depth: nat, k: nat,
                                          open: Text, close: Text)
    requires k < n <= |items| && close != []
    ensures Within(NewLine(p, depth) + Styled(items[k], w, p, depth, true),
                   open + ItemLines(items[..n], w, p, depth) + close)
  {
    hide NewLine, Styled, ItemLines, Within;
    ItemLinesPrefix(items, n - 1, w, p, depth);
    var line := NewLine(p, depth) + Styled(items[n - 1], w, p, depth, true);
    if k == n - 1 {
      StandsWithin(open + ItemLines(items[..k], w, p, depth) + Comma(items[..k]), line, close);
      assert open + ItemLines(items[..n], w, p, depth) + close
          == open + ItemLines(items[..k], w, p, depth) + Comma(items[..k]) + line + close;
    } else {
      CommaOf(items, n - 1);
      ItemLineWithin(items, n - 1, w, p, depth, k, open, [COMMA]);
      WithinAppend(NewLine(p, depth) + Styled(items[k], w, p, depth, true),
                   open + ItemLines(items[..n - 1], w, p, depth) + [COMMA], line + close);
      assert open + ItemLines(items[..n], w, p, depth) + close
          == open + ItemLines(items[..n - 1], w, p, depth) + [COMMA] + (line + close);
    }
  }

  lemma StandsWithin(a: Text, part: Text, b: Text)
    requires b != []
    ensures Within(part, a + part + b)
  {
  }

  /** The same for objects: every name starts a line, and a value that takes several lines starts
      one of its own, at the depth of the name. */
  lemma NamesStartLines(members: seq<Member>, w: Style, p: Form, depth: nat, begun: bool, k: nat)
    requires k < |members| && p.indentation != []
    ensures var t, m := Styled(JObject(members), w, p, depth, begun), members[k];
            && Within([LF] + Copies(p.indentation, depth + 1) + Quoted(m.name, w.emitUTF8) + p.colon
                      + Styled(m.value, w, p, depth + 1, false), t)
            && EndsIn(t, [LF] + Copies(p.indentation, depth) + [RBRACE])
  {
    hide Styled, MemberLines, MemberText, Quoted, NewLine, Copies;
    NewLineIs(p, depth);
    NewLineIs(p, depth + 1);
    StyledIs(JObject(members), w, p, depth, begun);
    var close := NewLine(p, depth) + [RBRACE];
    var open := Start(p, depth, begun) + [LBRACE];
    MemberLineWithin(members, |members|, w, p, depth + 1, k, open, close);
    assert members[..|members|] == members;
    assert Styled(JObject(members), w, p, depth, begun) == open + MemberLines(members, w, p, depth + 1) + close;
    NamedLine(members[k], w, p, depth + 1);
  }

  lemma NewLineIs(p: Form, depth: nat)
    requires p.indentation != []
    ensures NewLine(p, depth) == [LF] + Copies(p.indentation, depth)
  {
  }

  lemma NamedLine(m: Member, w: Style, p: Form, depth: nat)
    ensures NewLine(p, depth) + MemberText(m, w, p, depth)
         == NewLine(p, depth) + Quoted(m.name, w.emitUTF8) + p.colon + Styled(m.value, w, p, depth, false)
  {
    hide NewLine, Quoted, Styled;
  }

  lemma {:induction false} MemberLineWithin(members: seq<Member>, n: nat, w: Style, p: Form, depth: nat, k: nat,
                                            open: Text, close: Text)
    requires k < n <= |members| && close != []
    ensures Within(NewLine(p, depth) + MemberText(members[k], w, p, depth),
                   open + MemberLines(members[..n], w, p, depth) + close)
  {
    hide NewLine, MemberText, MemberLines, Within;
    MemberLinesPrefix(members, n - 1, w, p, depth);
    var line := NewLine(p, depth) + MemberText(members[n - 1], w, p, depth);
    if k == n - 1 {
      StandsWithin(open + MemberLines(members[..k], w, p, depth) + Comma(members[..k]), line, close);
      assert open + MemberLines(members[..n], w, p, depth) + close
          == open + MemberLines(members[..k], w, p, depth) + Comma(members[..k]) + line + close;
    } else {
      CommaOf(members, n - 1);
      MemberLineWithin(members, n - 1, w, p, depth, k, open, [COMMA]);
      WithinAppend(NewLine(p, depth) + MemberText(members[k], w, p, depth),
                   open + MemberLines(members[..n - 1], w, p, depth) + [COMMA], line + close);
      assert open + MemberLines(members[..n], w, p, depth) + close
          == open + MemberLines(members[..n - 1], w, p, depth) + [COMMA] + (line + close);
    }
  }

  /** A container whose text takes several lines starts a line of its own behind a name. */
  lemma ContainersStartLines(j: Json, w: Style, p: Form, depth: nat)
    requires !Leaf(j) && (j.JArray? ==> !OnOneLine(j.items, w, p)) && p.indentation != []
    ensures Styled(j, w, p, depth, false) == [LF] + Copies(p.indentation, depth) + Styled(j, w, p, depth, true)
  {
    hide OnOneLine, ItemLines, MemberLines, Copies, Styled;
    StyledIs(j, w, p, depth, false);
    StyledIs(j, w, p, depth, true);
  }

  /** With the comment style None and an indentation, an array of leaves goes on one line exactly
      when it has at most 24 elements and the line it makes is shorter than 74 bytes (counted in
      32 bits); any other array with elements does not. */
  lemma OneLineIff(items: seq<Json>, w: Style, p: Form)
    requires p.oneLine && p.indentation != [] && 0 < |items| < 0x1_0000_0000 / 3
    ensures OnOneLine(items, w, p)
            <==> |items| <= 24 && |OneLineText(items, w, p)| % 0x1_0000_0000 < 74
                 && forall i | 0 <= i < |items| :: Leaf(items[i])
  {
    hide Leaf, OneLineItems, TotalLength;
    OneLineLength(items, |items|, w, p);
    assert items[..|items|] == items;
    assert |OneLineText(items, w, p)| == 4 + (|items| - 1) * 2 + TotalLength(items, w);
    Narrow(|items|);
  }

  lemma Narrow(n: nat)
    requires n < 0x1_0000_0000 / 3
    ensures n * 3 % UINT32 < RIGHT_MARGIN <==> n <= 24
  {
  }

  lemma {:induction false} OneLineLength(items: seq<Json>, k: nat, w: Style, p: Form)
    requires p.indentation != [] && 0 < k <= |items|
    ensures |OneLineItems(items[..k], w, p)| == (k - 1) * 2 + TotalLength(items[..k], w)
  {
    hide LeafText, OneLineItems, TotalLength;
    OneLinePrefix(items, k - 1, w, p);
    if k > 1 {
      OneLineLength(items, k - 1, w, p);
    } else {
      NoLines(w, p, 0);
      assert items[..0] == [];
    }
  }
}
