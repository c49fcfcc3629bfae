/** The writer and reader objects one after the other, as a program uses them. */
module EndToEnd {
  import opened Chars
  import opened Values
  import opened Documents
  import opened Layout
  import opened Outcomes
  import opened RoundTrip
  import opened Restoring
  import opened FastWriting
  import opened StyledWriting
  import opened Reader
  import JsonTheorems
  import Parsing

  /** How reading back the document `j` ends: as the verdict says, and with the document restored
      exactly when it is restorable; the node stack is empty again unless the reader throws. */
  ghost predicate ReadBack(reader: OurReader, o: Outcome, j: Json, w: Style)
    reads reader
  {
    && (match RootVerdict(reader.features, j, w)
        case Throws => o == Threw
        case Fails(m) => o == Returned(false) && reader.errors != [] && reader.errors[0].message == m
        case Fine =>
          reader.root == Built(reader.features, j, w) && reader.current == |reader.doc|
          && o == Returned(!reader.features.strictRoot || j.JArray? || j.JObject?))
    && (o != Threw ==> reader.nodes == [] && (o.ok <==> reader.errors == []))
    && (o == Returned(true) && Meaning(reader.root) == j <==> Restorable(reader.features, j, w))
  }

  lemma LayoutIsReadBack(reader: OurReader, o: Outcome, s: Text, root: Value, v: Value, w: Style)
    requires Valid(v) && RealsReadBack(reader.lib, Meaning(v), w) && Lays(Tokens(Meaning(v), w), s) && reader.doc == s
    requires ParsedTo(reader, o, Parsing.Parse(reader.features, reader.lib, s, root))
    ensures ReadBack(reader, o, Meaning(v), w)
  {
    hide Parsing.Parse, Writable, Tokens, Lays, Meaning, Valid, Built, Restorable, RootVerdict, Ordered, RealsReadBack;
    ValidIsWritable(reader.lib, v, w);
    MeaningIsOrdered(v);
    ParseOfLayout(reader.features, reader.lib, s, root, Meaning(v), w);
    RoundTripIff(reader.features, reader.lib, s, root, Meaning(v), w);
  }

  /** The reader object is as `r` says. */
  ghost predicate ParsedTo(reader: OurReader, o: Outcome, r: Parsing.Read)
    reads reader
  {
    match r
    case Thrown => o == Threw
    case Read(ok, value, pos, added) =>
      o == Returned(ok) && (ok <==> added == [])
      && reader.root == value && reader.current == pos && reader.errors == added && reader.nodes == []
  }

  /** Any reader and any `BuiltStyledStreamWriter`, on an empty stream: every indentation,
      colon, null symbol and `emitUTF8` setting. */
  method StyledThenRead(writer: BuiltStyledStreamWriter, reader: OurReader, value: Value, root: Value)
    returns (o: Outcome)
    requires writer.Ready() && writer.sout == [] && Valid(value)
    requires RealsReadBack(reader.lib, Meaning(value), writer.Settings())
    modifies writer, reader
    ensures ReadBack(reader, o, Meaning(value), writer.Settings())
  {
    hide Parsing.Parse, Writable, Tokens, Lays, Meaning, Valid, ReadBack, RealsReadBack;
    ghost var piece := writer.Write(value);
    assert writer.sout == piece;
    o := reader.Parse(writer.sout, root);
    LayoutIsReadBack(reader, o, writer.sout, root, value, writer.Settings());
  }

  /** Any reader and any `FastWriter`. */
  method FastThenRead(writer: FastWriter, reader: OurReader, value: Value, root: Value) returns (o: Outcome)
    requires Valid(value) && RealTextOk(writer.Settings())
    requires RealsReadBack(reader.lib, Meaning(value), writer.Settings())
    modifies writer, reader
    ensures ReadBack(reader, o, Meaning(value), writer.Settings())
  {
    hide Parsing.Parse, Writable, Tokens, Lays, Meaning, Valid, ReadBack, FastText, RealsReadBack;
    ghost var j, w := Meaning(value), writer.Settings();
    var text := writer.Write(value);
    FastTextLays(j, w, writer.yamlCompatibilityEnabled);
    JsonTheorems.EndingLays(writer.omitEndingLineFeed);
    LaysAppend(Tokens(j, w), [], FastText(j, w, writer.yamlCompatibilityEnabled),
               if writer.omitEndingLineFeed then [] else [LF]);
    assert Tokens(j, w) + [] == Tokens(j, w);
    o := reader.Parse(text, root);
    LayoutIsReadBack(reader, o, text, root, value, w);
  }
}
