/** `BuiltStyledStreamWriter` on values without comments: it writes the text of module StyledTexts,
    with the indentation held in a string, the begun line in a flag, and a buffer of child texts
    that decides whether an array stays on one line. */
module StyledWriting {
  import opened Chars
  import opened Decimal
  import opened Quoting
  import opened Values
  import opened Documents
  import opened Layout
  import opened StyledTexts

  lemma ColonSymbolLays(yaml: bool, compact: bool)
    ensures Lays([[COLON]], ColonSymbol(yaml, compact))
  {
    LaysOne([COLON]);
    LaysSpaceAfter([[COLON]], [COLON], [SPACE]);
    LaysSpaceBefore([SPACE], [[COLON]], [COLON, SPACE]);
    assert [COLON] + [SPACE] == [COLON, SPACE] && [SPACE] + [COLON, SPACE] == [SPACE, COLON, SPACE];
  }

  function ColonSymbol(yaml: bool, compact: bool): Text {
    if yaml then [COLON, SPACE] else if compact then [COLON] else [SPACE, COLON, SPACE]
  }

  /** A value is empty exactly when its document is a leaf. */
  lemma LeafOfValue(v: Value)
    requires Valid(v)
    ensures Leaf(Meaning(v)) <==> !(IsContainer(v) && v.nodes != [])
  {
  }

  lemma ModAdd(a: nat, b: nat)
    ensures (a % UINT32 + b) % UINT32 == (a + b) % UINT32
  {
  }

  class BuiltStyledStreamWriter {
    const indentation: Text
    const keepComments: bool
    const colonSymbol: Text
    const nullSymbol: Text
    const endingLineFeedSymbol: Text
    const emitUTF8: bool
    const realText: Double -> Text
    var sout: Text
    var childValues: seq<Text>
    var indentString: Text
    var addChildValues: bool
    var indented: bool

    function Settings(): Style {
      Style(emitUTF8, nullSymbol == [], realText)
    }

    /** Comments are kept or arrays are put on one line, never both. */
    function Shape(): Form {
      Form(indentation, colonSymbol, !keepComments)
    }

    /** The text of a document, written at a depth. */
    ghost function TextAt(j: Json, depth: nat, begun: bool): Text {
      Styled(j, Settings(), Shape(), depth, begun)
    }

    /** What holds of every writer that a builder makes, between any two steps of writing. */
    ghost predicate Working(depth: nat)
      reads this
    {
      && (nullSymbol == [] || nullSymbol == NULL_TEXT)
      && indentString == Copies(indentation, depth)
      && (keepComments ==> childValues == [] && !addChildValues)
    }

    /** The writer is ready to write a document that can be read back: the indentation is
        whitespace. */
    ghost predicate Ready()
      reads this
    {
      && AllSpace(indentation) && AllSpace(endingLineFeedSymbol) && Lays([[COLON]], colonSymbol)
      && (nullSymbol == [] || nullSymbol == NULL_TEXT) && RealTextOk(Settings())
      && (keepComments ==> childValues == [] && !addChildValues)
    }

    /** `StreamWriterBuilder::newStreamWriter`. */
    constructor (indentation: Text, keepComments: bool, enableYAMLCompatibility: bool, dropNullPlaceholders: bool,
                 emitUTF8: bool, realText: Double -> Text)
      ensures Settings() == Style(emitUTF8, dropNullPlaceholders, realText)
      ensures Shape() == Form(indentation, colonSymbol, !keepComments)
      ensures colonSymbol == if enableYAMLCompatibility then [COLON, SPACE]
                             else if indentation == [] then [COLON] else [SPACE, COLON, SPACE]
      ensures endingLineFeedSymbol == [] && sout == []
      ensures AllSpace(indentation) && RealTextOk(Settings()) ==> Ready()
    {
      this.indentation := indentation;
      this.keepComments := keepComments;
      this.colonSymbol := ColonSymbol(enableYAMLCompatibility, indentation == []);
      this.nullSymbol := if dropNullPlaceholders then [] else NULL_TEXT;
      this.endingLineFeedSymbol := [];
      this.emitUTF8 := emitUTF8;
      this.realText := realText;
      sout, childValues, indentString, addChildValues, indented := [], [], [], false, false;
      new;
      ColonSymbolLays(enableYAMLCompatibility, indentation == []);
    }

    /** `write`: what it adds to the stream is the styled text of the document from depth 0 on, and
        the ending line feed symbol; it lays out the tokens of the document. */
    method Write(root: Value) returns (ghost piece: Text)
      requires Ready() && Valid(root)
      modifies this
      ensures Ready() && sout == old(sout) + piece
      ensures piece == Styled(Meaning(root), Settings(), Shape(), 0, true) + endingLineFeedSymbol
      ensures Lays(Tokens(Meaning(root), Settings()), piece)
    {
      hide Tokens, Lays, Meaning, Valid, Styled;
      addChildValues := false;
      indentString := [];
      indented := true;
      piece := TextAt(Meaning(root), 0, true);
      WriteValue(root, 0);
      StyledLays(Meaning(root), Settings(), Shape(), 0, true);
      LaysSpaceAfter(Tokens(Meaning(root), Settings()), piece, endingLineFeedSymbol);
      sout := sout + endingLineFeedSymbol;
      piece := piece + endingLineFeedSymbol;
    }

    method PushValue(value: Text)
      modifies this`childValues, this`sout
      ensures addChildValues ==> childValues == old(childValues) + [value] && sout == old(sout)
      ensures !addChildValues ==> sout == old(sout) + value && childValues == old(childValues)
    {
      if addChildValues {
        childValues := childValues + [value];
      } else {
        sout := sout + value;
      }
    }

    method WriteIndent()
      modifies this`sout
      ensures sout == old(sout) + if indentation == [] then [] else [LF] + indentString
    {
      if indentation != [] {
        sout := sout + [LF] + indentString;
      }
    }

    method WriteWithIndent(value: Text)
      modifies this`sout, this`indented
      ensures sout == old(sout) + (if old(indented) || indentation == [] then [] else [LF] + indentString) + value
      ensures !indented
    {
      if !indented {
        WriteIndent();
      }
      sout := sout + value;
      indented := false;
    }

    method Indent()
      modifies this`indentString
      ensures indentString == old(indentString) + indentation
    {
      indentString := indentString + indentation;
    }

    method Unindent()
      requires |indentString| >= |indentation|
      modifies this`indentString
      ensures indentString == old(indentString)[..|old(indentString)| - |indentation|]
    {
      indentString := indentString[..|indentString| - |indentation|];
    }

    /** `writeValue`: writes the text of the value or, while child texts are being collected,
        pushes it as one string. */
    method WriteValue(value: Value, ghost depth: nat)
      requires Working(depth) && Valid(value) && (addChildValues ==> Leaf(Meaning(value)))
      modifies this
      ensures Working(depth) && addChildValues == old(addChildValues) && (!old(indented) ==> !indented)
      ensures addChildValues ==>
                childValues == old(childValues) + [LeafText(Meaning(value), Settings())]
                && sout == old(sout) && indented == old(indented)
      ensures !addChildValues ==> sout == old(sout) + TextAt(Meaning(value), depth, old(indented))
      decreases Depth(Meaning(value)), 3
    {
      match value
      case Arr(nodes) =>
        WriteArrayValue(value, depth);
      case Obj(nodes) =>
        WriteObjectValue(value, depth);
      case _ =>
        WriteScalar(value, depth);
    }

    /** The cases of `writeValue` that are neither array nor object. */
    method WriteScalar(value: Value, ghost depth: nat)
      requires Working(depth) && Valid(value) && !IsContainer(value)
      modifies this`childValues, this`sout
      ensures Working(depth)
      ensures addChildValues ==>
                childValues == old(childValues) + [LeafText(Meaning(value), Settings())] && sout == old(sout)
      ensures !addChildValues ==>
                sout == old(sout) + TextAt(Meaning(value), depth, indented) && childValues == old(childValues)
    {
      hide Quoted, IntText, Copies;
      var t: Text;
      match value {
        case Null => t := nullSymbol;
        case Int(i) => t := ValueToString(i as Int64);
        case UInt(u) => t := ValueToStringUnsigned(u as UInt64);
        case Real(d) => t := realText(d);
        case Str(s) => t := ValueToQuotedStringN(s, emitUTF8);
        case Bool(b) => t := if b then TRUE_TEXT else FALSE_TEXT;
      }
      PushValue(t);
    }

    /** The object case of `writeValue`. */
    method WriteObjectValue(value: Value, ghost depth: nat)
      requires Working(depth) && Valid(value) && value.Obj? && (addChildValues ==> Leaf(Meaning(value)))
      modifies this
      ensures Working(depth) && addChildValues == old(addChildValues) && (!old(indented) ==> !indented)
      ensures addChildValues ==>
                childValues == old(childValues) + [LeafText(Meaning(value), Settings())]
                && sout == old(sout) && indented == old(indented)
      ensures !addChildValues ==> sout == old(sout) + TextAt(Meaning(value), depth, old(indented))
      decreases Depth(Meaning(value)), 2
    {
      hide Depth, Meaning, Valid, Copies, MemberLines, Styled, Comma;
      MeaningOfContainer(value);
      LeafOfValue(value);
      ghost var j, w, p := Meaning(value), Settings(), Shape();
      StyledIs(j, w, p, depth, indented);
      if value.nodes == [] {
        PushValue([LBRACE, RBRACE]);
        return;
      }
      ghost var before, inner := sout, indentString;
      WriteWithIndent([LBRACE]);
      Indent();
      OneCopyMore(indentation, depth);
      WriteMembers(value, depth + 1);
      Unindent();
      assert indentString == inner;
      WriteWithIndent([RBRACE]);
      Assemble(before, Start(p, depth, old(indented)), [LBRACE], MemberLines(j.members, w, p, depth + 1),
               NewLine(p, depth), [RBRACE]);
    }

    /** The member loop: the members of an object, each on its line. */
    method WriteMembers(value: Value, ghost depth: nat)
      requires Working(depth) && !addChildValues && !indented && Valid(value) && value.Obj? && value.nodes != []
      requires Meaning(value).JObject?
      modifies this
      ensures Working(depth) && !addChildValues && !indented
      ensures sout == old(sout) + MemberLines(Meaning(value).members, Settings(), Shape(), depth)
      decreases Depth(Meaning(value)), 1
    {
      hide Depth, Meaning, Valid, Lookup, Quoted, Copies, MemberLines, MemberText, NewLine, Styled, Comma;
      MeaningOfContainer(value);
      ghost var members, w, p := Meaning(value).members, Settings(), Shape();
      var names := seq(|value.nodes|, i requires 0 <= i < |value.nodes| => KeyText(value.nodes[i].key));
      NoLines(w, p, depth);
      CommaOf(members, 0);
      assert members[..0] == [];
      var i := 0;
      while true
        invariant 0 <= i < |names| == |members|
        invariant Working(depth) && !addChildValues && !indented
        invariant sout == old(sout) + (MemberLines(members[..i], w, p, depth) + Comma(members[..i]))
        decreases |names| - i
      {
        MeaningOfMember(value, i);
        OneMore(old(sout), MemberLines(members[..i], w, p, depth), Comma(members[..i]), NewLine(p, depth),
                MemberText(members[i], w, p, depth));
        WriteMember(names[i], Lookup(value.nodes, Name(names[i])), members[i], depth);
        MemberLinesPrefix(members, i, w, p, depth);
        i := i + 1;
        if i == |names| {
          break;
        }
        CommaOf(members, i);
        sout := sout + [COMMA];
      }
      assert members[..|names|] == members;
    }

    /** One turn of the member loop: name, colon and value. */
    method WriteMember(name: Text, child: Value, ghost m: Member, ghost depth: nat)
      requires Working(depth) && !addChildValues && !indented && Valid(child) && m == Member(name, Meaning(child))
      modifies this
      ensures Working(depth) && !addChildValues && !indented
      ensures sout == old(sout) + NewLine(Shape(), depth) + MemberText(m, Settings(), Shape(), depth)
      decreases Depth(Meaning(child)), 4
    {
      hide Meaning, Valid, Quoted, Styled, Copies;
      var quoted := ValueToQuotedStringN(name, emitUTF8);
      WriteWithIndent(quoted);
      sout := sout + colonSymbol;
      WriteValue(child, depth);
    }

    /** `writeArrayValue`. */
    method WriteArrayValue(value: Value, ghost depth: nat)
      requires Working(depth) && Valid(value) && value.Arr? && (addChildValues ==> Leaf(Meaning(value)))
      modifies this
      ensures Working(depth) && addChildValues == old(addChildValues) && (!old(indented) ==> !indented)
      ensures addChildValues ==>
                childValues == old(childValues) + [LeafText(Meaning(value), Settings())]
                && sout == old(sout) && indented == old(indented)
      ensures !addChildValues ==> sout == old(sout) + TextAt(Meaning(value), depth, old(indented))
      decreases Depth(Meaning(value)), 2
    {
      hide Depth, Meaning, Copies, Styled, OnOneLine, OneLineText, ItemLines;
      MeaningOfContainer(value);
      LeafOfValue(value);
      ghost var items := Meaning(value).items;
      StyledIs(Meaning(value), Settings(), Shape(), depth, indented);
      var size := ArraySize(value.nodes);
      if size == 0 {
        PushValue([LBRACKET, RBRACKET]);
        return;
      }
      var isMultiLine := true;
      if !keepComments {
        isMultiLine := IsMultilineArray(value, depth);
      } else {
        NeverOnOneLine(items, Settings(), Shape());
      }
      if isMultiLine {
        WriteLines(value, depth);
      } else {
        WriteOnOneLine(value, depth);
      }
    }

    /** The array on several lines. */
    method WriteLines(value: Value, ghost depth: nat)
      requires Working(depth) && Valid(value) && value.Arr? && !addChildValues && Meaning(value).JArray?
      requires Meaning(value).items != []
      requires childValues == [] || AreLeaves(Meaning(value).items, childValues, Settings())
      modifies this
      ensures Working(depth) && !addChildValues && !indented
      ensures sout == old(sout) + (Start(Shape(), depth, old(indented)) + [LBRACKET]
                                   + ItemLines(Meaning(value).items, Settings(), Shape(), depth + 1)
                                   + NewLine(Shape(), depth) + [RBRACKET])
      decreases Depth(Meaning(value)), 1
    {
      hide Depth, Meaning, Valid, Copies, ItemLines, Comma, AreLeaves;
      ghost var items, w, p := Meaning(value).items, Settings(), Shape();
      ghost var before, inner := sout, indentString;
      WriteWithIndent([LBRACKET]);
      Indent();
      OneCopyMore(indentation, depth);
      WriteElements(value, depth + 1);
      Unindent();
      assert indentString == inner;
      WriteWithIndent([RBRACKET]);
      Assemble(before, Start(p, depth, old(indented)), [LBRACKET], ItemLines(items, w, p, depth + 1),
               NewLine(p, depth), [RBRACKET]);
    }

    /** The loop over the elements, each on its line. */
    method WriteElements(value: Value, ghost depth: nat)
      requires Working(depth) && Valid(value) && value.Arr? && !addChildValues && !indented && Meaning(value).JArray?
      requires Meaning(value).items != []
      requires childValues == [] || AreLeaves(Meaning(value).items, childValues, Settings())
      modifies this
      ensures Working(depth) && !addChildValues && !indented
      ensures sout == old(sout) + ItemLines(Meaning(value).items, Settings(), Shape(), depth)
      decreases Depth(Meaning(value)), 0
    {
      hide Depth, Meaning, Valid, Lookup, Copies, ItemLines, Styled, NewLine, Comma, AreLeaves;
      MeaningOfContainer(value);
      ghost var items, w, p := Meaning(value).items, Settings(), Shape();
      var size := ArraySize(value.nodes);
      NoLines(w, p, depth);
      CommaOf(items, 0);
      assert items[..0] == [];
      var hasChildValue := childValues != [];
      var index := 0;
      while true
        invariant 0 <= index < size == |items|
        invariant Working(depth) && !addChildValues && !indented
        invariant hasChildValue ==> AreLeaves(items, childValues, w)
        invariant sout == old(sout) + (ItemLines(items[..index], w, p, depth) + Comma(items[..index]))
        decreases size - index
      {
        MeaningOfElement(value, index);
        OneMore(old(sout), ItemLines(items[..index], w, p, depth), Comma(items[..index]), NewLine(p, depth),
                Styled(items[index], w, p, depth, true));
        WriteElement(Lookup(value.nodes, Index(index)), hasChildValue, index, items, depth);
        ItemLinesPrefix(items, index, w, p, depth);
        index := index + 1;
        if index == size {
          break;
        }
        CommaOf(items, index);
        sout := sout + [COMMA];
      }
      assert items[..size] == items;
    }

    /** One turn of the loop over lines: the collected text of the child, or the child. */
    method WriteElement(child: Value, hasChildValue: bool, index: nat, ghost items: seq<Json>, ghost depth: nat)
      requires Working(depth) && !addChildValues && !indented && Valid(child)
      requires index < |items| && items[index] == Meaning(child)
      requires hasChildValue ==> AreLeaves(items, childValues, Settings())
      modifies this
      ensures Working(depth) && !addChildValues && !indented
      ensures hasChildValue ==> childValues == old(childValues)
      ensures sout == old(sout) + NewLine(Shape(), depth) + TextAt(items[index], depth, true)
      decreases Depth(Meaning(child)), 4
    {
      hide Meaning, Valid, Copies, Styled, LeafText;
      if hasChildValue {
        StyledIs(items[index], Settings(), Shape(), depth, true);
        WriteWithIndent(childValues[index]);
      } else {
        if !indented {
          WriteIndent();
        }
        indented := true;
        WriteValue(child, depth);
        indented := false;
      }
    }

    /** The array on one line, from the collected child texts. */
    method WriteOnOneLine(value: Value, ghost depth: nat)
      requires Working(depth) && Valid(value) && value.Arr? && !addChildValues && Meaning(value).JArray?
      requires AreLeaves(Meaning(value).items, childValues, Settings())
      modifies this`sout
      ensures Working(depth) && sout == old(sout) + OneLineText(Meaning(value).items, Settings(), Shape())
    {
      hide Meaning, Valid, Copies, OneLineItems, LeafText, CommaGap, AreLeaves, Leaf;
      LeavesAreAsMany(Meaning(value).items, childValues, Settings());
      MeaningOfContainer(value);
      ghost var items, w, p := Meaning(value).items, Settings(), Shape();
      var size := ArraySize(value.nodes);
      ghost var before := sout;
      NoLines(w, p, 0);
      assert items[..0] == [];
      ghost var open := [LBRACKET] + Gap(p);
      sout := sout + [LBRACKET];
      if indentation != [] {
        sout := sout + [SPACE];
      }
      for index := 0 to size
        invariant size == |items| && sout == before + (open + OneLineItems(items[..index], w, p))
      {
        CommaGapOf(items, index, p);
        OneMoreLeaf(before, open, OneLineItems(items[..index], w, p), CommaGap(items[..index], p), childValues[index]);
        LeafAt(items, childValues, w, index);
        if index > 0 {
          sout := sout + (if indentation != [] then [COMMA, SPACE] else [COMMA]);
        }
        OneLinePrefix(items, index, w, p);
        sout := sout + childValues[index];
      }
      assert items[..size] == items;
      if indentation != [] {
        sout := sout + [SPACE];
      }
      sout := sout + [RBRACKET];
    }

    /** `isMultilineArray`: collects the text of every child, one string each, unless the array is
        long or holds a container that is not empty. */
    method IsMultilineArray(value: Value, ghost depth: nat) returns (isMultiLine: bool)
      requires Working(depth) && Valid(value) && value.Arr? && !addChildValues && !keepComments
               && ArraySize(value.nodes) > 0
      modifies this
      ensures Working(depth) && !addChildValues && sout == old(sout) && indented == old(indented)
      ensures Meaning(value).JArray? && (isMultiLine <==> !OnOneLine(Meaning(value).items, Settings(), Shape()))
      ensures childValues == [] || AreLeaves(Meaning(value).items, childValues, Settings())
      ensures !isMultiLine ==> AreLeaves(Meaning(value).items, childValues, Settings())
      decreases Depth(Meaning(value)), 1
    {
      hide Depth, Meaning, Valid, Lookup, Copies, Leaf, LeafText, TotalLength;
      MeaningOfContainer(value);
      ghost var items, w := Meaning(value).items, Settings();
      var size := ArraySize(value.nodes);
      isMultiLine := size * 3 % UINT32 >= RIGHT_MARGIN;
      childValues := [];
      var index := 0;
      while index < size && !isMultiLine
        invariant 0 <= index <= size && childValues == []
        invariant Working(depth) && !addChildValues && sout == old(sout) && indented == old(indented)
        invariant !isMultiLine ==> size * 3 % UINT32 < RIGHT_MARGIN && forall k | 0 <= k < index :: Leaf(items[k])
        invariant isMultiLine ==> size * 3 % UINT32 >= RIGHT_MARGIN || exists k | 0 <= k < size :: !Leaf(items[k])
        decreases size - index
      {
        var child := Lookup(value.nodes, Index(index));
        MeaningOfElement(value, index);
        LeafOfValue(child);
        isMultiLine := IsContainer(child) && child.nodes != [];
        index := index + 1;
      }
      if !isMultiLine {
        var lineLength := CollectChildValues(value, depth);
        isMultiLine := lineLength >= RIGHT_MARGIN;
      }
    }

    /** The second part of `isMultilineArray`: collects the child texts and adds up their lengths. */
    method CollectChildValues(value: Value, ghost depth: nat) returns (lineLength: nat)
      requires Working(depth) && Valid(value) && value.Arr? && !addChildValues && !keepComments
      requires Meaning(value).JArray? && Meaning(value).items != [] && childValues == []
      requires forall k | 0 <= k < |Meaning(value).items| :: Leaf(Meaning(value).items[k])
      modifies this
      ensures Working(depth) && !addChildValues && sout == old(sout) && indented == old(indented)
      ensures AreLeaves(Meaning(value).items, childValues, Settings())
      ensures var items := Meaning(value).items;
              lineLength == (4 + (|items| - 1) * 2 + TotalLength(items, Settings())) % UINT32
      decreases Depth(Meaning(value)), 0
    {
      hide Depth, Meaning, Valid, Lookup, Copies, Leaf, LeafText, TotalLength, Styled;
      MeaningOfContainer(value);
      ghost var items, w := Meaning(value).items, Settings();
      var size := ArraySize(value.nodes);
      addChildValues := true;
      lineLength := (4 + (size - 1) * 2) % UINT32;
      NoLines(w, Shape(), 0);
      assert items[..0] == [];
      for k := 0 to size
        invariant Working(depth) && addChildValues && sout == old(sout) && indented == old(indented)
        invariant |childValues| == k && forall i | 0 <= i < k :: childValues[i] == LeafText(items[i], w)
        invariant lineLength == (4 + (size - 1) * 2 + TotalLength(items[..k], w)) % UINT32
      {
        MeaningOfElement(value, k);
        WriteValue(Lookup(value.nodes, Index(k)), depth);
        LengthStep(items, k, w, size);
        lineLength := (lineLength + |childValues[k]|) % UINT32;
      }
      assert items[..size] == items;
      addChildValues := false;
    }
  }

  /** The child texts are those of all items, none of which is a container with contents. */
  ghost predicate AreLeaves(items: seq<Json>, texts: seq<Text>, w: Style) {
    |texts| == |items| && forall i | 0 <= i < |items| :: Leaf(items[i]) && texts[i] == LeafText(items[i], w)
  }

  lemma Assemble(before: Text, start: Text, open: Text, lines: Text, last: Text, close: Text)
    ensures before + start + open + lines + last + close == before + (start + open + lines + last + close)
  {
  }

  lemma OneMore(before: Text, lines: Text, comma: Text, start: Text, line: Text)
    ensures before + (lines + comma) + start + line == before + (lines + comma + start + line)
    ensures before + (lines + comma + start + line) + [COMMA] == before + (lines + comma + start + line + [COMMA])
    ensures before + (lines + comma + start + line) == before + (lines + comma + start + line + [])
  {
  }

  lemma OneMoreLeaf(before: Text, open: Text, items: Text, comma: Text, leaf: Text)
    ensures before + (open + items) + comma + leaf == before + (open + (items + comma + leaf))
    ensures comma == [] ==> before + (open + items) + leaf == before + (open + (items + comma + leaf))
  {
  }

  lemma LeafAt(items: seq<Json>, texts: seq<Text>, w: Style, k: nat)
    requires AreLeaves(items, texts, w) && k < |items|
    ensures texts[k] == LeafText(items[k], w)
  {
  }

  lemma LeavesAreAsMany(items: seq<Json>, texts: seq<Text>, w: Style)
    requires AreLeaves(items, texts, w)
    ensures |texts| == |items|
  {
  }

  lemma LengthStep(items: seq<Json>, k: nat, w: Style, size: nat)
    requires k < |items| == size
    ensures ((4 + (size - 1) * 2 + TotalLength(items[..k], w)) % UINT32 + |LeafText(items[k], w)|) % UINT32
         == (4 + (size - 1) * 2 + TotalLength(items[..k + 1], w)) % UINT32
  {
    hide LeafText, TotalLength;
    OneLinePrefix(items, k, w, Form([], [], true));
    ModAdd(4 + (size - 1) * 2 + TotalLength(items[..k], w), |LeafText(items[k], w)|);
  }

  lemma OneCopyMore(t: Text, n: nat)
    ensures Copies(t, n + 1) == Copies(t, n) + t
  {
  }

  lemma NeverOnOneLine(items: seq<Json>, w: Style, p: Form)
    requires !p.oneLine
    ensures !OnOneLine(items, w, p)
  {
  }

  lemma CommaGapOf(items: seq<Json>, k: nat, p: Form)
    requires k <= |items|
    ensures CommaGap(items[..k], p)
         == if k == 0 then [] else if p.indentation != [] then [COMMA, SPACE] else [COMMA]
  {
  }
}
