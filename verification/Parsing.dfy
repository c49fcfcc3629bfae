/** What `OurReader` does to a document, as functions of the document and a position.
    The class in module Reader is proved to compute exactly these functions. */
module Parsing {
  import opened Chars
  import opened Decimal
  import opened Quoting
  import opened Values
  import opened Lexing

  /** Library behaviour the reader depends on: the text of a `double`, and the `double`
      that a stream extraction reads from a text (`None` when it reads none). */
  datatype Library = Library(realText: Double -> Text, parseReal: Text -> Option<Double>)

  datatype Message =
    | ValueExpected
    | MissingBraceOrName
    | MissingColon
    | MissingCommaOrBrace
    | MissingCommaOrBracket
    | DuplicateKey
    | NotANumber
    | BadString(error: EscapeError)
    | ExtraText
    | RootNotContainer

  datatype Error = Error(message: Message, token: Token)

  /** The outcome of reading: the value left behind, the position reached and the errors
      added; or an exception. */
  datatype Read = Read(ok: bool, value: Value, pos: nat, errors: seq<Error>) | Thrown

  const MAX_KEY_LENGTH: nat := 0x4000_0000

  function TextOf(s: Text, t: Token): Text
    requires t.start <= t.end <= |s|
  {
    s[t.start..t.end]
  }

  /** The bytes between the quotes of a string token. */
  function BodyOf(s: Text, t: Token): Text
    requires t.start + 2 <= t.end <= |s|
  {
    s[t.start + 1..t.end - 1]
  }

  /** `decodeNumber`: the exact integer if the token is one in range, a double otherwise. */
  function NumberOf(lib: Library, t: Text): Option<Value> {
    match DecodeInteger(t)
    case Some(n) => Some(if n <= MAX_INT64 then Int(n) else UInt(n))
    case None =>
      match lib.parseReal(t)
      case Some(d) => Some(Real(d))
      case None => None
  }

  /** `asString` of a decoded number. */
  function NumberText(lib: Library, v: Value): Text {
    match v
    case Int(i) => IntText(i)
    case UInt(u) => IntText(u)
    case Real(d) => lib.realText(d)
    case _ => []
  }

  /** `recoverFromError`: skip to a token of the given kind or to the end of the stream. */
  function Recover(f: Features, s: Text, p: nat, until: Kind): (q: nat)
    requires p <= |s|
    ensures p <= q <= |s|
    decreases |s| - p
  {
    var t := ReadToken(f, s, p);
    if t.kind == until || t.kind == EndOfStream then t.end else Recover(f, s, t.end, until)
  }

  /** `addErrorAndRecover`, leaving `value` behind. */
  function Fail(f: Features, s: Text, value: Value, message: Message, t: Token, until: Kind): (r: Read)
    requires t.end <= |s|
    ensures r.Read? && !r.ok && t.end <= r.pos <= |s| && r.errors != []
  {
    Read(false, value, Recover(f, s, t.end, until), [Error(message, t)])
  }

  /** The outcome of turning a name token into a member name. */
  datatype NameRead = MemberName(name: Text) | BadName(message: Message) | NoName

  function ReadName(f: Features, lib: Library, s: Text, t: Token): NameRead
    requires t.start <= t.end <= |s| && (t.kind == StringToken ==> t.start + 2 <= t.end)
  {
    if t.kind == StringToken then
      match Unescape(BodyOf(s, t))
      case Decoded(name) => MemberName(name)
      case Malformed(e) => BadName(BadString(e))
    else if t.kind == NumberToken && f.allowNumericKeys then
      match NumberOf(lib, TextOf(s, t))
      case Some(v) => MemberName(NumberText(lib, v))
      case None => BadName(NotANumber)
    else NoName
  }

  /** The cases of `readValue` that read no nested value. */
  function ReadScalar(f: Features, lib: Library, s: Text, t: Token, current: Value): (r: Read)
    requires t.start <= t.end <= |s| && (t.kind == StringToken ==> t.start + 2 <= t.end)
    requires t.start == t.end ==> t.kind == EndOfStream
    ensures r.Read? && t.start <= r.pos <= |s| && (r.ok <==> r.errors == [])
  {
    if t.kind == NumberToken then
      match NumberOf(lib, TextOf(s, t))
      case Some(v) => Read(true, v, t.end, [])
      case None => Read(false, current, t.end, [Error(NotANumber, t)])
    else if t.kind == StringToken then
      match Unescape(BodyOf(s, t))
      case Decoded(text) => Read(true, Str(text), t.end, [])
      case Malformed(e) => Read(false, current, t.end, [Error(BadString(e), t)])
    else if t.kind == TrueToken then Read(true, Bool(true), t.end, [])
    else if t.kind == FalseToken then Read(true, Bool(false), t.end, [])
    else if t.kind == NullToken then Read(true, Null, t.end, [])
    else if t.kind == NaNToken then Read(true, Real(NaN), t.end, [])
    else if t.kind == PosInfToken then Read(true, Real(PosInf), t.end, [])
    else if t.kind == NegInfToken then Read(true, Real(NegInf), t.end, [])
    else if (t.kind == ArraySeparator || t.kind == ObjectEnd || t.kind == ArrayEnd)
         && f.allowDroppedNullPlaceholders then
      Read(true, Null, t.end - 1, [])  // the token is un-read
    else Read(false, current, t.end, [Error(ValueExpected, t)])
  }

  /** `readValue` with `depth` pointers on the node stack and `current` under the top one. */
  function ReadValue(f: Features, lib: Library, s: Text, p: nat, depth: nat, current: Value): (r: Read)
    requires p <= |s|
    ensures r.Read? ==> p <= r.pos <= |s| && (r.ok <==> r.errors == [])
    decreases |s| - p, 0
  {
    if depth > f.stackLimit then Thrown
    else
      var t := SkipCommentTokens(f, s, p);
      match t.kind
      case ObjectBegin => ReadMembers(f, lib, s, t.end, depth, [], true)
      case ArrayBegin => ReadElements(f, lib, s, t.end, depth, [], 0)
      case _ => ReadScalar(f, lib, s, t, current)
  }

  /** The loop of `readObject`; `unnamed` says whether the last name read is empty. */
  function ReadMembers(f: Features, lib: Library, s: Text, p: nat, depth: nat, nodes: seq<Node>,
                       unnamed: bool): (r: Read)
    requires p <= |s|
    ensures r.Read? ==> p <= r.pos <= |s| && (r.ok <==> r.errors == [])
    decreases |s| - p, 1
  {
    var t := NonComment(f, s, p);
    if t.kind == ObjectEnd && (unnamed || f.allowTrailingCommas) then Read(true, Obj(nodes), t.end, [])
    else
      match ReadName(f, lib, s, t)
      case NoName => Fail(f, s, Obj(nodes), MissingBraceOrName, t, ObjectEnd)
      case BadName(message) => Fail(f, s, Obj(nodes), message, t, ObjectEnd)
      case MemberName(name) => NamedMember(f, lib, s, t, depth, nodes, name)
  }

  /** The rest of a turn of `readObject`, after the name token `t`. */
  function NamedMember(f: Features, lib: Library, s: Text, t: Token, depth: nat, nodes: seq<Node>,
                       name: Text): (r: Read)
    requires t.end <= |s|
    ensures r.Read? ==> t.end <= r.pos <= |s| && (r.ok <==> r.errors == [])
    decreases |s| - t.end, 2
  {
    if |name| >= MAX_KEY_LENGTH then Thrown
    else if f.rejectDupKeys && HasKey(nodes, Name(name)) then Fail(f, s, Obj(nodes), DuplicateKey, t, ObjectEnd)
    else
      var colon := ReadToken(f, s, t.end);
      if colon.kind != MemberSeparator then Fail(f, s, Obj(nodes), MissingColon, colon, ObjectEnd)
      else
        var r := ReadValue(f, lib, s, colon.end, depth + 1, Lookup(nodes, Name(name)));
        if r.Thrown? then Thrown else AfterMember(f, lib, s, depth, Put(nodes, Name(name), r.value), name == [], r)
  }

  /** The rest of a turn of `readObject`, after the member's value `r`. */
  function AfterMember(f: Features, lib: Library, s: Text, depth: nat, nodes: seq<Node>, unnamed: bool,
                       value: Read): (r: Read)
    requires value.Read? && value.pos <= |s| && (value.ok <==> value.errors == [])
    ensures r.Read? ==> value.pos <= r.pos <= |s| && (r.ok <==> r.errors == [])
    decreases |s| - value.pos, 0
  {
    if !value.ok then value.(value := Obj(nodes), pos := Recover(f, s, value.pos, ObjectEnd))
    else
      var comma := ReadToken(f, s, value.pos);
      if comma.kind != ObjectEnd && comma.kind != ArraySeparator && comma.kind != CommentToken then
        Fail(f, s, Obj(nodes), MissingCommaOrBrace, comma, ObjectEnd)
      else
        var last := if comma.kind == CommentToken then NonComment(f, s, comma.end) else comma;
        if last.kind == ObjectEnd then Read(true, Obj(nodes), last.end, [])
        else ReadMembers(f, lib, s, last.end, depth, nodes, unnamed)
  }

  /** The loop of `readArray`. */
  function ReadElements(f: Features, lib: Library, s: Text, p: nat, depth: nat, nodes: seq<Node>, index: nat): (r: Read)
    requires p <= |s|
    ensures r.Read? ==> p <= r.pos <= |s| && (r.ok <==> r.errors == [])
    decreases |s| - p, 1
  {
    var q := SkipSpaces(s, p);
    if q < |s| && s[q] == RBRACKET && (index == 0 || (f.allowTrailingCommas && !f.allowDroppedNullPlaceholders)) then
      Read(true, Arr(nodes), q + 1, [])
    else
      var r := ReadValue(f, lib, s, q, depth + 1, Lookup(nodes, Index(index)));
      if r.Thrown? then Thrown else AfterElement(f, lib, s, depth, Put(nodes, Index(index), r.value), index, r)
  }

  /** The rest of a turn of `readArray`, after the element `r`. */
  function AfterElement(f: Features, lib: Library, s: Text, depth: nat, nodes: seq<Node>, index: nat,
                        value: Read): (r: Read)
    requires value.Read? && value.pos <= |s| && (value.ok <==> value.errors == [])
    ensures r.Read? ==> value.pos <= r.pos <= |s| && (r.ok <==> r.errors == [])
    decreases |s| - value.pos, 0
  {
    if !value.ok then value.(value := Arr(nodes), pos := Recover(f, s, value.pos, ArrayEnd))
    else
      var t := NonComment(f, s, value.pos);
      if t.kind == ArrayEnd then Read(true, Arr(nodes), t.end, [])
      else if t.kind == ArraySeparator then ReadElements(f, lib, s, t.end, depth, nodes, index + 1)
      else Fail(f, s, Arr(nodes), MissingCommaOrBracket, t, ArrayEnd)
  }

  /** Where the text starts: after a byte order mark, if it is to be skipped. */
  function Begin(f: Features, s: Text): (p: nat)
    ensures p <= |s|
  {
    if f.skipBom && |s| >= 3 && s[0] == 0xEF && s[1] == 0xBB && s[2] == 0xBF then 3 else 0
  }

  /** The checks of `parse` after the root value. */
  function Finish(f: Features, s: Text, value: Read): (r: Read)
    requires value.Read? && value.pos <= |s| && (value.ok <==> value.errors == [])
    ensures r.Read? && value.pos <= r.pos <= |s| && (r.ok <==> r.errors == []) && r.value == value.value
  {
    var t := SkipCommentTokens(f, s, value.pos);
    if f.failIfExtra && t.kind != EndOfStream then
      Read(false, value.value, t.end, value.errors + [Error(ExtraText, t)])
    else if f.strictRoot && !IsContainer(value.value) then
      Read(false, value.value, t.end, value.errors + [Error(RootNotContainer, Token(ErrorToken, 0, |s|))])
    else value.(pos := t.end)
  }

  /** `parse`.  Whatever the bytes and the features, it ends inside the document and
      succeeds exactly when it adds no error, unless it throws. */
  function Parse(f: Features, lib: Library, s: Text, root: Value): (r: Read)
    ensures r.Read? ==> Begin(f, s) <= r.pos <= |s| && (r.ok <==> r.errors == [])
  {
    var r := ReadValue(f, lib, s, Begin(f, s), 1, root);
    if r.Thrown? then Thrown else Finish(f, s, r)
  }
}
