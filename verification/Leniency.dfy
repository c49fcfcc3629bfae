/** Texts that the reader accepts although section 2 of RFC 8259 does not: every set of features
    is meant unless the statement names one. */
module Leniency {
  import opened Chars
  import opened Decimal
  import opened Quoting
  import opened Values
  import opened Documents
  import opened Lexing
  import opened Parsing
  import opened Layout
  import opened Outcomes
  import opened RoundTrip

  /** A lone minus sign is the number 0. */
  lemma LoneMinus(f: Features, lib: Library, root: Value)
    requires f.stackLimit >= 1
    ensures var r := Parse(f, lib, [MINUS], root);
            r.Read? && r.value == Int(0) && r.pos == 1 && (r.ok <==> !f.strictRoot)
  {
    hide DecodeInteger, Unescape, ReadMembers, ReadElements, ReadToken, NonComment;
    var s: Text := [MINUS];
    MinusToken(f, s);
    MinusDecodes();
    EndToken(f, s, 1);
    assert TextOf(s, Token(NumberToken, 0, 1)) == [MINUS];
  }

  lemma MinusToken(f: Features, s: Text)
    requires s == [MINUS]
    ensures ReadToken(f, s, 0) == NonComment(f, s, 0) == Token(NumberToken, 0, 1)
  {
  }

  lemma MinusDecodes()
    ensures DecodeInteger([MINUS]) == Some(0)
  {
    assert [MINUS][1..] == [];
  }

  lemma EndToken(f: Features, s: Text, p: nat)
    requires p == |s|
    ensures ReadToken(f, s, p) == NonComment(f, s, p) == Token(EndOfStream, p, p)
  {
  }

  // ---------- Text after a NUL byte ----------

  lemma {:induction false} TrimRight(t: Text) returns (core: Text, spaces: Text)
    ensures t == core + spaces && AllSpace(spaces) && (core != [] ==> !IsSpace(core[|core| - 1]))
  {
    if t == [] || !IsSpace(t[|t| - 1]) {
      core, spaces := t, [];
    } else {
      core, spaces := TrimRight(t[..|t| - 1]);
      spaces := spaces + [t[|t| - 1]];
    }
  }

  /** A token that ends in no whitespace and has nothing but whitespace behind it stands at one
      place only. */
  lemma StandsOnce(a: Text, x: Text, spaces: Text, q: nat)
    requires x != [] && !IsSpace(x[|x| - 1]) && AllSpace(spaces)
    requires q <= |a + x + spaces| && SkipSpaces(a + x + spaces, q) == q && Spaced([x], a + x + spaces, q)
    ensures q == |a|
  {
    hide SkipSpaces;
    var s := a + x + spaces;
    assert s[|a| + |x| - 1] == x[|x| - 1];
    assert s[q + |x| - 1] == s[q..q + |x|][|x| - 1] == x[|x| - 1];
  }

  /** Behind any layout of any document a NUL byte ends the text: whatever bytes follow it, parsing
      comes out as the verdict on the document says, even where the features refuse extra text,
      and the cursor stops right behind the NUL byte. */
  lemma TextAfterNul(f: Features, lib: Library, s: Text, tail: Text, root: Value, j: Json, w: Style)
    requires Writable(lib, j, w) && Lays(Tokens(j, w), s)
    ensures var r := Parse(f, lib, s + [NUL] + tail, root);
            ParsedAs(r, f, j, w) && (RootVerdict(f, j, w).Fine? ==> r.pos == |s| + 1)
  {
    hide Writable, Tokens, Spaced, Parse, SkipSpaces, RootVerdict, Built;
    var core, spaces := TrimRight(tail);
    var x := [NUL] + core;
    var text := s + x + spaces;
    assert text == s + [NUL] + tail;
    LaysTerminated(Tokens(j, w), s, x, spaces);
    ParseOfEnding(f, lib, text, root, j, w, [x]);
    if RootVerdict(f, j, w).Fine? { StandsOnce(s, x, spaces, Parse(f, lib, text, root).pos - 1); }
  }

  lemma LaysTerminated(tokens: seq<Text>, s: Text, x: Text, spaces: Text)
    requires Lays(tokens, s) && x != [] && !IsSpace(x[0]) && AllSpace(spaces)
    ensures Spaced(tokens + [x], s + x + spaces, 0)
  {
    LaysOne(x);
    LaysNothing(spaces);
    LaysAppend3(tokens, [x], [], s, x, spaces);
    assert tokens + [x] + [] == tokens + [x];
  }

  /** A token of one byte that is no comment. */
  lemma TokenIs(f: Features, s: Text, p: nat, kind: Kind)
    requires p < |s| && !IsSpace(s[p]) && TokenAt(f, s, p) == Token(kind, p, p + 1) && kind != CommentToken
    ensures ReadToken(f, s, p) == NonComment(f, s, p) == Token(kind, p, p + 1)
  {
    hide TokenAt;
  }

  // ---------- A swallowed token ----------

  /** The token after which `readObject` goes on to the next member, having read a member's value
      up to `p`; none if the object ends there or is broken off. */
  function BeforeNextMember(f: Features, s: Text, p: nat): (t: Option<Token>)
    requires p <= |s|
    ensures t.Some? ==> p < t.value.end <= |s| || t.value.end == |s|
  {
    var comma := ReadToken(f, s, p);
    if comma.kind == ArraySeparator then Some(comma)
    else if comma.kind != CommentToken then None
    else
      var last := NonComment(f, s, comma.end);
      if last.kind == ObjectEnd then None else Some(last)
  }

  /** After a member's value the loop goes on behind that token, whatever the token is. */
  lemma GoesOnBehind(f: Features, lib: Library, s: Text, depth: nat, nodes: seq<Node>, unnamed: bool, value: Read)
    requires value.Read? && value.ok && value.errors == [] && value.pos <= |s|
    ensures var r := AfterMember(f, lib, s, depth, nodes, unnamed, value);
            match BeforeNextMember(f, s, value.pos)
            case Some(t) => r == ReadMembers(f, lib, s, t.end, depth, nodes, unnamed)
            case None => r.Read? && r.value == Obj(nodes)
  {
    hide ReadToken, NonComment, ReadMembers, Recover;
  }

  /** A token other than a comma is swallowed exactly when a comment follows the value and the next
      token that is no comment is neither a comma nor a closing brace. */
  lemma SwallowsIff(f: Features, s: Text, p: nat)
    requires p <= |s|
    ensures var t := BeforeNextMember(f, s, p);
            t.Some? && t.value.kind != ArraySeparator <==>
              var comma := ReadToken(f, s, p);
              comma.kind == CommentToken && NonComment(f, s, comma.end).kind !in {ArraySeparator, ObjectEnd}
  {
    hide ReadToken, NonComment;
  }

  // `{"":1/**/2}`
  const SWALLOWING: Text := [LBRACE, QUOTE, QUOTE, COLON, 0x31, SLASH, STAR, STAR, SLASH, 0x32, RBRACE]

  /** The 2 after the comment is swallowed, and the object is accepted. */
  lemma SwallowedNumber(f: Features, lib: Library, root: Value)
    requires f.stackLimit >= 2
    ensures Parse(f, lib, SWALLOWING, root) == Read(true, Obj([Node(Name([]), Int(1))]), 11, [])
    ensures BeforeNextMember(f, SWALLOWING, 5) == Some(Token(NumberToken, 9, 10))
  {
    hide ReadValue, ReadMembers, TokenAt, ReadToken, NonComment, Put, DecodeInteger;
    var s := SWALLOWING;
    SwallowingTokens(f);
    SwallowingMember(f, lib, root);
    assert ReadMembers(f, lib, s, 1, 1, [], true) == Read(true, Obj([Node(Name([]), Int(1))]), 11, []);
    RootOfObject(f, lib, s, root);
    EndToken(f, s, 11);
  }

  lemma RootOfObject(f: Features, lib: Library, s: Text, root: Value)
    requires f.stackLimit >= 1 && s != [] && s[0] == LBRACE
    requires NonComment(f, s, 0) == ReadToken(f, s, 0) == Token(ObjectBegin, 0, 1)
    ensures ReadValue(f, lib, s, 0, 1, root) == ReadMembers(f, lib, s, 1, 1, [], true) && Begin(f, s) == 0
  {
    hide ReadMembers, NonComment, ReadToken;
  }

  lemma SwallowingTokens(f: Features)
    ensures var s := SWALLOWING;
            && NonComment(f, s, 0) == ReadToken(f, s, 0) == Token(ObjectBegin, 0, 1)
            && NonComment(f, s, 1) == ReadToken(f, s, 1) == Token(StringToken, 1, 3)
            && ReadToken(f, s, 3) == Token(MemberSeparator, 3, 4)
            && NonComment(f, s, 4) == ReadToken(f, s, 4) == Token(NumberToken, 4, 5)
            && ReadToken(f, s, 5) == Token(CommentToken, 5, 9)
            && NonComment(f, s, 9) == Token(NumberToken, 9, 10)
            && NonComment(f, s, 10) == Token(ObjectEnd, 10, 11)
  {
    hide TokenAt, ReadToken, NonComment;
    var s := SWALLOWING;
    BracesAndColon(f);
    OneDigit(f, s, 4);
    OneDigit(f, s, 9);
    EmptyName(f);
    EmptyComment(f);
  }

  lemma BracesAndColon(f: Features)
    ensures var s := SWALLOWING;
            && NonComment(f, s, 0) == ReadToken(f, s, 0) == Token(ObjectBegin, 0, 1)
            && ReadToken(f, s, 3) == Token(MemberSeparator, 3, 4)
            && NonComment(f, s, 10) == Token(ObjectEnd, 10, 11)
  {
    hide NonComment, ReadToken;
    TokenIs(f, SWALLOWING, 0, ObjectBegin);
    TokenIs(f, SWALLOWING, 3, MemberSeparator);
    TokenIs(f, SWALLOWING, 10, ObjectEnd);
  }

  lemma EmptyName(f: Features)
    ensures NonComment(f, SWALLOWING, 1) == ReadToken(f, SWALLOWING, 1) == Token(StringToken, 1, 3)
  {
    assert ScanString(SWALLOWING, 2, QUOTE) == Scan(true, 3);
  }

  lemma EmptyComment(f: Features)
    ensures ReadToken(f, SWALLOWING, 5) == Token(CommentToken, 5, 9)
  {
    hide NonComment;
    assert ReadCStyleComment(SWALLOWING, 7) == Scan(true, 9);
  }

  lemma OneDigit(f: Features, s: Text, p: nat)
    requires p + 1 < |s| && IsDigit(s[p]) && s[p + 1] in {SLASH, RBRACE}
    ensures NonComment(f, s, p) == ReadToken(f, s, p) == Token(NumberToken, p, p + 1)
  {
    assert SkipDigits(s, p + 1) == p + 1;
  }

  lemma SwallowingMember(f: Features, lib: Library, root: Value)
    requires f.stackLimit >= 2
    ensures ReadMembers(f, lib, SWALLOWING, 1, 1, [], true) == Read(true, Obj([Node(Name([]), Int(1))]), 11, [])
  {
    hide ReadMembers, ReadValue, TokenAt, ReadToken, NonComment, AfterMember, Put, Lookup;
    var s := SWALLOWING;
    SwallowingTokens(f);
    NameOfNothing(f, lib, s);
    ReadsOne(f, lib, s, Lookup([], Name([])));
    PutAtEnd([], Name([]), Int(1));
    assert Put([], Name([]), Int(1)) == [Node(Name([]), Int(1))];
    assert BeforeNextMember(f, s, 5) == Some(Token(NumberToken, 9, 10));
    FirstMember(f, lib, s);
    var one := Read(true, Int(1), 5, []);
    GoesOnBehind(f, lib, s, 1, [Node(Name([]), Int(1))], true, one);
    ClosingBrace(f, lib, s, [Node(Name([]), Int(1))]);
  }

  lemma NameOfNothing(f: Features, lib: Library, s: Text)
    requires |s| >= 3
    ensures ReadName(f, lib, s, Token(StringToken, 1, 3)) == MemberName([])
  {
    assert BodyOf(s, Token(StringToken, 1, 3)) == [];
  }

  lemma ReadsOne(f: Features, lib: Library, s: Text, current: Value)
    requires f.stackLimit >= 2 && s == SWALLOWING
    requires NonComment(f, s, 4) == ReadToken(f, s, 4) == Token(NumberToken, 4, 5)
    ensures ReadValue(f, lib, s, 4, 2, current) == Read(true, Int(1), 5, [])
  {
    hide ReadToken, NonComment, DecodeInteger, ReadMembers, ReadElements;
    assert TextOf(s, Token(NumberToken, 4, 5)) == [0x31];
    OneDecodes();
  }

  lemma OneDecodes()
    ensures DecodeInteger([0x31]) == Some(1)
  {
    assert [0x31][..0] == [];
    assert DigitsValue([0x31]) == 1;
  }

  lemma FirstMember(f: Features, lib: Library, s: Text)
    requires s == SWALLOWING && ReadName(f, lib, s, Token(StringToken, 1, 3)) == MemberName([])
    requires NonComment(f, s, 1) == Token(StringToken, 1, 3) && ReadToken(f, s, 3) == Token(MemberSeparator, 3, 4)
    requires ReadValue(f, lib, s, 4, 2, Lookup([], Name([]))) == Read(true, Int(1), 5, [])
    ensures ReadMembers(f, lib, s, 1, 1, [], true)
         == AfterMember(f, lib, s, 1, Put([], Name([]), Int(1)), true, Read(true, Int(1), 5, []))
  {
    hide ReadValue, ReadToken, NonComment, AfterMember, Put, Lookup, ReadName;
    NoKeys(Name([]));
    assert NamedMember(f, lib, s, Token(StringToken, 1, 3), 1, [], [])
        == AfterMember(f, lib, s, 1, Put([], Name([]), Int(1)), true, Read(true, Int(1), 5, []));
  }

  lemma NoKeys(key: Key)
    ensures !HasKey([], key)
  {
  }

  lemma ClosingBrace(f: Features, lib: Library, s: Text, nodes: seq<Node>)
    requires |s| == 11 && NonComment(f, s, 10) == Token(ObjectEnd, 10, 11)
    ensures ReadMembers(f, lib, s, 10, 1, nodes, true) == Read(true, Obj(nodes), 11, [])
  {
    hide NonComment, NamedMember, ReadName;
  }
}
