/** A document written out in full: what the writers make of it, piece by piece. */
module Examples {
  import opened Chars
  import opened Decimal
  import opened Quoting
  import opened Documents
  import opened Layout
  import opened FastWriting
  import opened StyledTexts

  function Items(): seq<Json> {
    [JNull, JBool(true), JArray([])]
  }

  function Members(): seq<Member> {
    [Member(Ascii("sum"), JNumber(-12)), Member(Ascii("v"), JArray(Items()))]
  }

  lemma Scalars(w: Style)
    requires !w.dropNull
    ensures ScalarText(JNumber(-12), w) == Ascii("-12") && ScalarText(JBool(true), w) == Ascii("true")
    ensures ScalarText(JBool(false), w) == Ascii("false") && ScalarText(JNull, w) == Ascii("null")
  {
    assert Digits(12) == Digits(1) + [0x32];
  }

  lemma NameOf(w: Style)
    ensures Quoted(Ascii("sum"), w.emitUTF8) == Ascii("\"sum\"") && Quoted(Ascii("v"), w.emitUTF8) == Ascii("\"v\"")
  {
    hide Escape;
    EscapeOfPlainText(Ascii("sum"), w.emitUTF8);
    EscapeOfPlainText(Ascii("v"), w.emitUTF8);
  }

  lemma Signs()
    ensures [LBRACE] == Ascii("{") && [RBRACE] == Ascii("}") && [LBRACKET] == Ascii("[") && [RBRACKET] == Ascii("]")
    ensures [COMMA] == Ascii(",") && [COLON] == Ascii(":") && [COLON, SPACE] == Ascii(": ") && [LF] == Ascii("\n")
    ensures [SPACE] == Ascii(" ") && [COMMA] + [SPACE] == Ascii(", ") && [LBRACKET, RBRACKET] == Ascii("[]")
  {
  }

  // ---------- FastWriter ----------

  lemma FastScalars(w: Style, yaml: bool)
    requires !w.dropNull
    ensures FastText(JNull, w, yaml) == Ascii("null") && FastText(JBool(true), w, yaml) == Ascii("true")
    ensures FastText(JNumber(-12), w, yaml) == Ascii("-12") && FastText(JArray([]), w, yaml) == Ascii("[]")
  {
    hide ScalarText;
    Scalars(w);
  }

  /** `[null,true,[]]` */
  lemma FastItemsAre(w: Style, yaml: bool)
    requires !w.dropNull
    ensures FastText(JArray(Items()), w, yaml)
         == Ascii("[") + (Ascii("null") + Ascii(",") + Ascii("true") + Ascii(",") + Ascii("[]")) + Ascii("]")
  {
    hide FastText, FastItems, Ascii, FastWriting.Comma;
    var items := Items();
    Signs();
    FastScalars(w, yaml);
    FastArray(items, w, yaml);
    FastItemsPrefix(items, 0, w, yaml);
    FastWriting.CommaOf(items, 0);
    assert FastItems(items[..1], w, yaml) == Ascii("null");
    FastItemsPrefix(items, 1, w, yaml);
    FastWriting.CommaOf(items, 1);
    FastItemsPrefix(items, 2, w, yaml);
    FastWriting.CommaOf(items, 2);
    assert items[..3] == items;
  }

  /** `{"sum":-12,"v":[null,true,[]]}`, with a space behind the colons for YAML. */
  lemma FastResult(w: Style, yaml: bool)
    requires !w.dropNull
    ensures var colon := Ascii(if yaml then ": " else ":");
            FastText(JObject(Members()), w, yaml)
            == Ascii("{") + (Ascii("\"sum\"") + colon + Ascii("-12") + Ascii(",")
                            + (Ascii("\"v\"") + colon + FastText(JArray(Items()), w, yaml))) + Ascii("}")
  {
    hide FastText, FastMembers, Ascii;
    Signs();
    FastMembersAre(w, yaml);
    FastObject(Members(), w, yaml);
  }

  lemma FastMembersAre(w: Style, yaml: bool)
    requires !w.dropNull
    ensures var colon := Ascii(if yaml then ": " else ":");
            FastMembers(Members(), w, yaml)
            == Ascii("\"sum\"") + colon + Ascii("-12") + Ascii(",")
               + (Ascii("\"v\"") + colon + FastText(JArray(Items()), w, yaml))
  {
    hide FastText, FastMembers, Quoted, Ascii, FastWriting.Comma;
    var members := Members();
    Signs();
    NameOf(w);
    FastScalars(w, yaml);
    FastObject(members, w, yaml);
    FastMembersPrefix(members, 0, w, yaml);
    FastWriting.CommaOf(members, 0);
    assert members[..0] == [];
    assert FastMembers(members[..1], w, yaml) == Ascii("\"sum\"") + Colon(yaml) + Ascii("-12");
    FastMembersPrefix(members, 1, w, yaml);
    FastWriting.CommaOf(members, 1);
    assert members[..2] == members;
  }

  // ---------- BuiltStyledStreamWriter ----------

  /** The settings of the default builder: a tab, and comments kept. */
  const DEFAULT_FORM := Form(Ascii("\t"), Ascii(" : "), false)

  lemma Tabs()
    ensures DEFAULT_FORM.indentation != []
    ensures Copies(Ascii("\t"), 0) == [] && Copies(Ascii("\t"), 1) == Ascii("\t")
    ensures Copies(Ascii("\t"), 2) == Ascii("\t") + Ascii("\t")
  {
  }

  lemma StyledLeaves(w: Style, p: Form, depth: nat, begun: bool)
    requires !w.dropNull
    ensures Styled(JNull, w, p, depth, begun) == LeafText(JNull, w) == Ascii("null")
    ensures Styled(JBool(true), w, p, depth, begun) == LeafText(JBool(true), w) == Ascii("true")
    ensures Styled(JNumber(-12), w, p, depth, begun) == Ascii("-12")
    ensures Styled(JArray([]), w, p, depth, begun) == LeafText(JArray([]), w) == Ascii("[]")
  {
    hide ScalarText;
    Scalars(w);
  }

  /** The array behind a name takes five lines. */
  lemma StyledItemsAre(w: Style)
    requires !w.dropNull
    ensures var l1, l2 := Ascii("\n") + Ascii("\t"), Ascii("\n") + (Ascii("\t") + Ascii("\t"));
            Styled(JArray(Items()), w, DEFAULT_FORM, 1, false)
            == l1 + Ascii("[")
               + (l2 + Ascii("null") + Ascii(",") + l2 + Ascii("true") + Ascii(",") + l2 + Ascii("[]"))
               + l1 + Ascii("]")
  {
    hide Styled, ItemLines, OnOneLine, LeafText, Copies, Ascii, NewLine, StyledTexts.Comma;
    var items, p := Items(), DEFAULT_FORM;
    var l1, l2 := Ascii("\n") + Ascii("\t"), Ascii("\n") + (Ascii("\t") + Ascii("\t"));
    Signs();
    Lines();
    StyledLeaves(w, p, 2, true);
    StyledIs(JArray(items), w, p, 1, false);
    NeverOneLine(items, w);
    NoLines(w, p, 2);
    assert items[..0] == [];
    ItemLinesPrefix(items, 0, w, p, 2);
    StyledTexts.CommaOf(items, 0);
    assert ItemLines(items[..1], w, p, 2) == l2 + Ascii("null");
    ItemLinesPrefix(items, 1, w, p, 2);
    StyledTexts.CommaOf(items, 1);
    ItemLinesPrefix(items, 2, w, p, 2);
    StyledTexts.CommaOf(items, 2);
    assert items[..3] == items;
  }

  lemma Lines()
    ensures NewLine(DEFAULT_FORM, 0) == Ascii("\n") && NewLine(DEFAULT_FORM, 1) == Ascii("\n") + Ascii("\t")
    ensures NewLine(DEFAULT_FORM, 2) == Ascii("\n") + (Ascii("\t") + Ascii("\t"))
  {
    Signs();
    Tabs();
  }

  lemma NeverOneLine(items: seq<Json>, w: Style)
    ensures !OnOneLine(items, w, DEFAULT_FORM)
  {
  }

  /** The object takes a line for every name, and one for its closing brace. */
  lemma StyledResult(w: Style)
    requires !w.dropNull
    ensures var l1 := Ascii("\n") + Ascii("\t");
            Styled(JObject(Members()), w, DEFAULT_FORM, 0, true)
            == Ascii("{") + (l1 + (Ascii("\"sum\"") + Ascii(" : ") + Ascii("-12")) + Ascii(",")
                             + l1 + (Ascii("\"v\"") + Ascii(" : ")
                                     + Styled(JArray(Items()), w, DEFAULT_FORM, 1, false)))
               + Ascii("\n") + Ascii("}")
  {
    hide Styled, MemberLines, MemberText, Quoted, Copies, Ascii, NewLine;
    Signs();
    Lines();
    MemberLinesAre(w);
    StyledIs(JObject(Members()), w, DEFAULT_FORM, 0, true);
  }

  lemma MemberLinesAre(w: Style)
    requires !w.dropNull
    ensures var l1 := Ascii("\n") + Ascii("\t");
            MemberLines(Members(), w, DEFAULT_FORM, 1)
            == l1 + (Ascii("\"sum\"") + Ascii(" : ") + Ascii("-12")) + Ascii(",")
               + l1 + (Ascii("\"v\"") + Ascii(" : ") + Styled(JArray(Items()), w, DEFAULT_FORM, 1, false))
  {
    hide Styled, MemberLines, Quoted, Copies, Ascii, NewLine, StyledTexts.Comma;
    var members, p := Members(), DEFAULT_FORM;
    Signs();
    Lines();
    NameOf(w);
    StyledLeaves(w, p, 1, false);
    NoLines(w, p, 1);
    assert members[..0] == [];
    MemberLinesPrefix(members, 0, w, p, 1);
    StyledTexts.CommaOf(members, 0);
    assert MemberLines(members[..1], w, p, 1)
           == Ascii("\n") + Ascii("\t") + (Ascii("\"sum\"") + Ascii(" : ") + Ascii("-12"));
    MemberLinesPrefix(members, 1, w, p, 1);
    StyledTexts.CommaOf(members, 1);
    assert members[..2] == members;
  }

  /** With the comment style None the array stays on one line: `[ null, true, [] ]`. */
  lemma OneLineResult(w: Style)
    requires !w.dropNull
    ensures Styled(JArray(Items()), w, DEFAULT_FORM.(oneLine := true), 1, false)
         == Ascii("[") + Ascii(" ") + (Ascii("null") + Ascii(", ") + Ascii("true") + Ascii(", ") + Ascii("[]"))
            + Ascii(" ") + Ascii("]")
  {
    hide Styled, OneLineItems, OnOneLine, LeafText, Ascii, CommaGap;
    var items, p := Items(), DEFAULT_FORM.(oneLine := true);
    Signs();
    Gaps(items);
    ItemsFit(w);
    StyledLeaves(w, p, 1, false);
    NoLines(w, p, 1);
    assert items[..0] == [];
    OneLinePrefix(items, 0, w, p);
    assert OneLineItems(items[..1], w, p) == Ascii("null");
    OneLinePrefix(items, 1, w, p);
    OneLinePrefix(items, 2, w, p);
    assert items[..3] == items;
    StyledIs(JArray(items), w, p, 1, false);
  }

  lemma Gaps(items: seq<Json>)
    requires |items| == 3
    ensures var p := DEFAULT_FORM.(oneLine := true);
            && Gap(p) == Ascii(" ") && CommaGap(items[..0], p) == []
            && CommaGap(items[..1], p) == CommaGap(items[..2], p) == Ascii(", ")
  {
    Signs();
    Tabs();
  }

  lemma ItemsFit(w: Style)
    requires !w.dropNull
    ensures OnOneLine(Items(), w, DEFAULT_FORM.(oneLine := true))
  {
    hide TotalLength, LeafText, Ascii;
    var items, p := Items(), DEFAULT_FORM.(oneLine := true);
    StyledLeaves(w, p, 1, false);
    Lengths();
    NoLines(w, p, 1);
    assert items[..0] == [];
    OneLinePrefix(items, 0, w, p);
    OneLinePrefix(items, 1, w, p);
    OneLinePrefix(items, 2, w, p);
    assert items[..3] == items;
  }

  lemma Lengths()
    ensures |Ascii("null")| == 4 && |Ascii("true")| == 4 && |Ascii("[]")| == 2
  {
  }
}
