/** What the features of the reader change, and where it reports which error: statements about
    every text in which the construct occurs. */
module Dialects {
  import opened Chars
  import opened Decimal
  import opened Quoting
  import opened Values
  import opened Documents
  import opened Lexing
  import opened Parsing
  import opened Layout
  import opened Outcomes
  import opened RoundTrip

  // ---------- In front of a document and behind it ----------

  /** A byte order mark in front of any layout of any document is passed over where `skipBom` is
      set, and an error where it is not. */
  lemma ByteOrderMark(f: Features, lib: Library, s: Text, root: Value, j: Json, w: Style)
    requires Writable(lib, j, w) && Lays(Tokens(j, w), s)
    ensures var r := Parse(f, lib, [0xEF, 0xBB, 0xBF] + s, root);
            && (f.skipBom ==> ParsedAs(r, f, j, w))
            && (!f.skipBom && f.stackLimit > 0 ==> r.Read? && r.errors != [] && r.errors[0].message == ValueExpected)
  {
    hide ReadValue, Writable, Tokens, Spaced, Parse, ParsedAs, Finish;
    var text := [0xEF, 0xBB, 0xBF] + s;
    ParseIs(f, lib, text, root);
    if f.skipBom {
      assert Begin(f, text) == 3;
      SpacedShift(Tokens(j, w), [0xEF, 0xBB, 0xBF], s, 0);
      assert Tokens(j, w) + [] == Tokens(j, w);
      RootOfEnding(f, lib, text, 3, root, j, w, []);
    } else if f.stackLimit > 0 {
      StrayByte(f, lib, text, root);
      FinishBad(f, text, ReadValue(f, lib, text, 0, 1, root));
    }
  }

  /** A byte that begins no token. */
  lemma StrayByte(f: Features, lib: Library, s: Text, root: Value)
    requires s != [] && s[0] == 0xEF && f.stackLimit > 0
    ensures ReadValue(f, lib, s, 0, 1, root) == Read(false, root, 1, [Error(ValueExpected, Token(ErrorToken, 0, 1))])
  {
    hide ReadMembers, ReadElements, Unescape, NumberOf;
    assert ReadToken(f, s, 0) == Token(ErrorToken, 0, 1);
    assert NonComment(f, s, 0) == Token(ErrorToken, 0, 1);
  }

  /** Any further token behind a document that reads well (for a scalar, one that cannot belong to it)
      is refused where `failIfExtra` is set and ignored where it is not. */
  lemma TextBehind(f: Features, lib: Library, s: Text, root: Value, j: Json, w: Style, rest: seq<Text>)
    requires Writable(lib, j, w) && !Dropped(j, w) && Spaced(Tokens(j, w) + rest, s, 0) && VerdictOf(f, j, w, 1) == Fine
    requires rest != [] && !Ends(rest) && Follow(rest)
    ensures var r := Parse(f, lib, s, root);
            && r.Read? && r.value == Built(f, j, w)
            && (f.failIfExtra ==> |r.errors| == 1 && r.errors[0].message == ExtraText)
            && (r.ok <==> !f.failIfExtra && (f.strictRoot ==> j.JArray? || j.JObject?))
  {
    hide ReadValue, Writable, Tokens, VerdictOf, Built, Spaced, Parse, Begin, SkipCommentTokens, NonComment, ReadToken;
    NothingSkipped(lib, f, s, j, w, rest);
    ParseIs(f, lib, s, root);
    ReadsValue(f, lib, s, 0, 1, root, j, w, rest);
    var r := ReadValue(f, lib, s, 0, 1, root);
    HeadToken(rest);
    ReadsPunctuation(f, s, r.pos, rest[0][0], rest[1..]);
    BuiltContainer(f, j, w);
  }

  lemma NothingSkipped(lib: Library, f: Features, s: Text, j: Json, w: Style, rest: seq<Text>)
    requires Writable(lib, j, w) && !Dropped(j, w) && Spaced(Tokens(j, w) + rest, s, 0)
    ensures Begin(f, s) == 0
  {
    hide Spaced;
    FirstByte(lib, j, w);
    FirstByteOf(s, Tokens(j, w) + rest);
  }

  // ---------- Comments ----------

  lemma CommentIsPassed(f: Features, s: Text, p: nat)
    requires p <= |s| && ReadToken(f, s, p).kind == CommentToken
    ensures NonComment(f, s, p) == NonComment(f, s, ReadToken(f, s, p).end)
    ensures SkipCommentTokens(f, s, p)
         == if f.allowComments then SkipCommentTokens(f, s, ReadToken(f, s, p).end) else ReadToken(f, s, p)
  {
    hide ReadToken;
  }

  /** In front of a value a comment is passed over where the features allow comments, and stands for
      a missing value where they do not. */
  lemma CommentBeforeValue(f: Features, lib: Library, s: Text, p: nat, depth: nat, current: Value)
    requires p <= |s| && ReadToken(f, s, p).kind == CommentToken
    ensures var t := ReadToken(f, s, p);
            && (f.allowComments ==>
                  ReadValue(f, lib, s, p, depth, current) == ReadValue(f, lib, s, t.end, depth, current))
            && (!f.allowComments && depth <= f.stackLimit ==>
                  ReadValue(f, lib, s, p, depth, current) == Read(false, current, t.end, [Error(ValueExpected, t)]))
  {
    hide ReadToken, NonComment, SkipCommentTokens, ReadMembers, ReadElements, Unescape, NumberOf;
    CommentIsPassed(f, s, p);
  }

  /** In front of a member's name and behind an element comments are passed over whatever the
      features say. */
  lemma CommentBeforeName(f: Features, lib: Library, s: Text, p: nat, depth: nat, nodes: seq<Node>, unnamed: bool)
    requires p <= |s| && ReadToken(f, s, p).kind == CommentToken
    ensures ReadMembers(f, lib, s, p, depth, nodes, unnamed)
            == ReadMembers(f, lib, s, ReadToken(f, s, p).end, depth, nodes, unnamed)
  {
    hide ReadToken, NonComment, ReadName, NamedMember, Fail;
    CommentIsPassed(f, s, p);
  }

  lemma CommentBehindElement(f: Features, lib: Library, s: Text, depth: nat, nodes: seq<Node>, index: nat, value: Read)
    requires value.Read? && value.ok && value.errors == [] && value.pos <= |s|
    requires ReadToken(f, s, value.pos).kind == CommentToken
    ensures AfterElement(f, lib, s, depth, nodes, index, value)
         == AfterElement(f, lib, s, depth, nodes, index, value.(pos := ReadToken(f, s, value.pos).end))
  {
    hide ReadToken, NonComment, ReadElements, Fail;
    CommentIsPassed(f, s, value.pos);
  }

  /** Behind a document comments are passed over where the features allow them, and are extra text
      where they do not. */
  lemma CommentBehindDocument(f: Features, s: Text, value: Read)
    requires value.Read? && value.ok && value.errors == [] && value.pos <= |s|
    requires ReadToken(f, s, value.pos).kind == CommentToken
    ensures var t := ReadToken(f, s, value.pos);
            && (f.allowComments ==> Finish(f, s, value) == Finish(f, s, value.(pos := t.end)))
            && (!f.allowComments && f.failIfExtra ==>
                  Finish(f, s, value) == Read(false, value.value, t.end, [Error(ExtraText, t)]))
  {
    hide ReadToken, NonComment, SkipCommentTokens;
    CommentIsPassed(f, s, value.pos);
  }

  /** A comment as the tokens have it, in front of any layout of any document. */
  lemma CommentedDocument(f: Features, lib: Library, c: Text, s: Text, root: Value, j: Json, w: Style)
    requires Writable(lib, j, w) && Lays(Tokens(j, w), s) && ReadToken(f, c + s, 0) == Token(CommentToken, 0, |c|)
    ensures var r := Parse(f, lib, c + s, root);
            && (f.allowComments ==> ParsedAs(r, f, j, w))
            && (!f.allowComments && f.stackLimit > 0
                ==> r.Read? && r.errors != [] && r.errors[0].message == ValueExpected)
  {
    hide ReadValue, Writable, Tokens, Spaced, Parse, ParsedAs, Finish, ReadToken;
    NoMarkBeforeComment(f, c + s);
    ParseIs(f, lib, c + s, root);
    CommentBeforeValue(f, lib, c + s, 0, 1, root);
    if f.allowComments {
      SpacedShift(Tokens(j, w), c, s, 0);
      assert Tokens(j, w) + [] == Tokens(j, w);
      RootOfEnding(f, lib, c + s, |c|, root, j, w, []);
    } else if f.stackLimit > 0 {
      FinishBad(f, c + s, ReadValue(f, lib, c + s, 0, 1, root));
    }
  }

  lemma NoMarkBeforeComment(f: Features, s: Text)
    requires ReadToken(f, s, 0).kind == CommentToken
    ensures Begin(f, s) == 0
  {
    hide ReadComment, ScanString, NumberEnd, StandsAt;
    assert s != [] ==> SkipSpaces(s, 0) == 0 || IsSpace(s[0]);
  }

  // ---------- Trailing commas ----------

  /** A closing brace in place of a member's name ends the object if trailing commas are allowed, and
      also if the last name read is empty: as it is before the first member, but a member of that
      name does it, too.  Otherwise a name is missing. */
  lemma BraceForName(f: Features, lib: Library, s: Text, p: nat, depth: nat, nodes: seq<Node>, unnamed: bool)
    requires p <= |s| && NonComment(f, s, p).kind == ObjectEnd
    ensures var t := NonComment(f, s, p);
            ReadMembers(f, lib, s, p, depth, nodes, unnamed)
            == if unnamed || f.allowTrailingCommas then Read(true, Obj(nodes), t.end, [])
               else Fail(f, s, Obj(nodes), MissingBraceOrName, t, ObjectEnd)
  {
    hide NonComment, NamedMember, Fail, Unescape, NumberOf;
  }

  /** The loop of `readObject` over the remaining members and a comma behind the last. */
  lemma {:induction false} ReadsUpToComma(f: Features, lib: Library, s: Text, p: nat, depth: nat,
                                          members: seq<Member>, k: nat, unnamed: bool, w: Style, rest: seq<Text>)
    returns (q: nat)
    requires p <= |s| && k < |members| && depth <= f.stackLimit && Writable(lib, JObject(members), w)
    requires Spaced(MemberTokens(members[k..], w) + ([[COMMA]] + rest), s, p)
    requires MembersVerdict(f, members, k, w, depth + 1) == Fine
    ensures q <= |s| && Spaced(rest, s, q)
    ensures ReadMembers(f, lib, s, p, depth, BuiltMembers(f, members, k, w), unnamed)
         == ReadMembers(f, lib, s, q, depth, BuiltMembers(f, members, |members|, w),
                        Normal(members[|members| - 1].name, w.emitUTF8) == [])
    decreases |members| - k
  {
    hide ReadMembers, ReadToken, NonComment, SkipCommentTokens, ReadValue, AfterMember, MembersVerdict, Tokens, Put,
         Normal;
    hide Spaced, SkipSpaces, LowerBound, Lookup, VerdictOf, Built, BuiltMembers, HasKey, Repeats, MemberTokens,
         Quoted, Unescape;
    hide Writable, ValueOfMember;
    var m := members[k];
    var more := if k + 1 == |members| then [[COMMA]] + rest
                else [[COMMA]] + (MemberTokens(members[k + 1..], w) + ([[COMMA]] + rest));
    TokensBeforeComma(members, k, w, rest);
    MembersVerdictAt(f, members, k, w, depth + 1);
    MemberBuilt(f, members, k, w);
    var nodes := BuiltMembers(f, members, k, w);
    var c := ReadsMemberName(f, lib, s, p, depth, m.name, nodes, unnamed, w, Tokens(m.value, w) + more);
    var name := Normal(m.name, w.emitUTF8);
    var current := Lookup(nodes, Name(name));
    MemberIsWritable(lib, members, k, w);
    ReadsValue(f, lib, s, c, depth + 1, current, m.value, w, more);
    var r := ReadValue(f, lib, s, c, depth + 1, current);
    ValueOfMemberIs(f, lib, s, c, depth, nodes, name);
    ReadsPunctuation(f, s, r.pos, COMMA, more[1..]);
    AfterMemberUnfold(f, lib, s, depth, Put(nodes, Name(name), r.value), name == [], r, ReadToken(f, s, r.pos));
    q := ReadToken(f, s, r.pos).end;
    if k + 1 < |members| {
      q := ReadsUpToComma(f, lib, s, q, depth, members, k + 1, name == [], w, rest);
    }
  }

  lemma TokensBeforeComma(members: seq<Member>, k: nat, w: Style, rest: seq<Text>)
    requires k < |members|
    ensures var more := if k + 1 == |members| then [[COMMA]] + rest
                        else [[COMMA]] + (MemberTokens(members[k + 1..], w) + ([[COMMA]] + rest));
            && MemberTokens(members[k..], w) + ([[COMMA]] + rest)
               == [Quoted(members[k].name, w.emitUTF8)] + ([[COLON]] + (Tokens(members[k].value, w) + more))
            && more == [[COMMA]] + more[1..] && Follow(more) && !Ends(more)
  {
    hide Quoted, Tokens;
    assert members[k..][1..] == members[k + 1..];
  }

  lemma MemberIsWritable(lib: Library, members: seq<Member>, k: nat, w: Style)
    requires Writable(lib, JObject(members), w) && k < |members|
    ensures Writable(lib, members[k].value, w)
  {
  }

  lemma ValueOfMemberIs(f: Features, lib: Library, s: Text, p: nat, depth: nat, nodes: seq<Node>, name: Text)
    requires p <= |s|
    ensures ValueOfMember(f, lib, s, p, depth, nodes, name)
         == var r := ReadValue(f, lib, s, p, depth + 1, Lookup(nodes, Name(name)));
            if r.Thrown? then Thrown else AfterMember(f, lib, s, depth, Put(nodes, Name(name), r.value), name == [], r)
  {
    hide ReadValue, AfterMember, Put, Lookup;
  }

  /** Any object that reads well, with a comma behind its last member: it is accepted exactly if
      trailing commas are allowed or the last member's name is read back as the empty one. */
  lemma TrailingCommaInObject(f: Features, lib: Library, s: Text, p: nat, depth: nat, current: Value,
                              members: seq<Member>, w: Style, rest: seq<Text>)
    requires p <= |s| && members != [] && Writable(lib, JObject(members), w)
    requires VerdictOf(f, JObject(members), w, depth) == Fine
    requires Spaced([[LBRACE]] + (MemberTokens(members, w) + ([[COMMA]] + ([[RBRACE]] + rest))), s, p)
    ensures var r := ReadValue(f, lib, s, p, depth, current);
            && r.Read? && r.value == Built(f, JObject(members), w)
            && (r.ok <==> f.allowTrailingCommas || Normal(members[|members| - 1].name, w.emitUTF8) == [])
            && (!r.ok ==> |r.errors| == 1 && r.errors[0].message == MissingBraceOrName)
            && (r.ok ==> Spaced(rest, s, r.pos))
  {
    hide ReadValue, ReadMembers, ReadToken, NonComment, SkipCommentTokens, MemberTokens, MembersVerdict,
         BuiltMembers, Normal;
    hide Spaced, SkipSpaces, Writable, Recover;
    ReadsPunctuation(f, s, p, LBRACE, MemberTokens(members, w) + ([[COMMA]] + ([[RBRACE]] + rest)));
    var t := ReadToken(f, s, p);
    ValueOfToken(f, lib, s, p, depth, current, t);
    assert members[0..] == members;
    NothingBuilt(f, [], members, w);
    var q := ReadsUpToComma(f, lib, s, t.end, depth, members, 0, true, w, [[RBRACE]] + rest);
    ReadsPunctuation(f, s, q, RBRACE, rest);
    BraceForName(f, lib, s, q, depth, BuiltMembers(f, members, |members|, w),
                 Normal(members[|members| - 1].name, w.emitUTF8) == []);
  }

  /** A closing bracket in place of an element ends the array before the first element, and behind a
      comma if trailing commas are allowed and dropped nulls are not. */
  lemma BracketForElement(f: Features, lib: Library, s: Text, p: nat, depth: nat, nodes: seq<Node>, index: nat)
    requires p <= |s| && SkipSpaces(s, p) < |s| && s[SkipSpaces(s, p)] == ']' as int && depth < f.stackLimit
    ensures var r, q := ReadElements(f, lib, s, p, depth, nodes, index), SkipSpaces(s, p);
            && (index == 0 || (f.allowTrailingCommas && !f.allowDroppedNullPlaceholders)
                ==> r == Read(true, Arr(nodes), q + 1, []))
            && (index > 0 && f.allowDroppedNullPlaceholders ==>
                  r == Read(true, Arr(Put(nodes, Index(index), Null)), q + 1, []))
            && (index > 0 && !f.allowTrailingCommas && !f.allowDroppedNullPlaceholders ==>
                  r.Read? && r.errors == [Error(ValueExpected, Token(ArrayEnd, q, q + 1))])
  {
    hide SkipSpaces, ReadValue, ReadElements, AfterElement, ReadScalar, Put, Lookup, Yields;
    var q := SkipSpaces(s, p);
    var t, current := Token(ArrayEnd, q, q + 1), Lookup(nodes, Index(index));
    SkipSpacesTwice(s, p);
    BracketToken(f, s, q);
    if index == 0 || (f.allowTrailingCommas && !f.allowDroppedNullPlaceholders) {
      ElementsEnd(f, lib, s, p, depth, nodes, index);
    } else {
      ElementsUnfold(f, lib, s, p, depth, nodes, index);
      ValueOfToken(f, lib, s, q, depth + 1, current, t);
      ScalarAtPunctuation(f, lib, s, t, current);
      var r := ReadValue(f, lib, s, q, depth + 1, current);
      if f.allowDroppedNullPlaceholders {
        AfterElementUnfold(f, lib, s, depth, Put(nodes, Index(index), r.value), index, r, t);
      } else {
        AfterElementFailed(f, lib, s, depth, Put(nodes, Index(index), r.value), index, r);
      }
    }
  }

  lemma BracketToken(f: Features, s: Text, q: nat)
    requires q < |s| && s[q] == RBRACKET && SkipSpaces(s, q) == q
    ensures Yields(f, s, q, Token(ArrayEnd, q, q + 1))
  {
    hide SkipSpaces;
  }

  // ---------- Names ----------

  /** A number in place of a member's name is accepted where numeric keys are allowed, and the member is
      named by its decimal notation; otherwise a name is missing. */
  lemma NumberForName(f: Features, lib: Library, s: Text, p: nat, depth: nat, nodes: seq<Node>, unnamed: bool, n: int)
    requires p <= |s| && NonComment(f, s, p).kind == NumberToken && MIN_INT64 <= n <= MAX_UINT64
    requires TextOf(s, NonComment(f, s, p)) == IntText(n)
    ensures var t, r := NonComment(f, s, p), ReadMembers(f, lib, s, p, depth, nodes, unnamed);
            r == if f.allowNumericKeys then NamedMember(f, lib, s, t, depth, nodes, IntText(n))
                 else Fail(f, s, Obj(nodes), MissingBraceOrName, t, ObjectEnd)
  {
    hide NonComment, NamedMember, Fail, Unescape, DecodeInteger, IntText;
    DecodeUndoesPrint(n);
  }

  /** Anything else in place of a name is an error, as is a string that cannot be decoded. */
  lemma NoName(f: Features, lib: Library, s: Text, p: nat, depth: nat, nodes: seq<Node>, unnamed: bool)
    requires p <= |s|
    ensures var t, r := NonComment(f, s, p), ReadMembers(f, lib, s, p, depth, nodes, unnamed);
            && (t.kind !in {StringToken, NumberToken, ObjectEnd}
                ==> r == Fail(f, s, Obj(nodes), MissingBraceOrName, t, ObjectEnd))
            && (t.kind == StringToken && Unescape(BodyOf(s, t)).Malformed? ==>
                  r == Fail(f, s, Obj(nodes), BadString(Unescape(BodyOf(s, t)).error), t, ObjectEnd))
            && (t.kind == StringToken && Unescape(BodyOf(s, t)).Decoded? ==>
                  r == NamedMember(f, lib, s, t, depth, nodes, Unescape(BodyOf(s, t)).text))
  {
    hide NonComment, NamedMember, Fail, Unescape, NumberOf;
  }

  /** A name of 2^30 bytes throws; a rejected duplicate is reported at the name, and anything but a
      colon behind it, a comment included, where it stands. */
  lemma BehindName(f: Features, lib: Library, s: Text, t: Token, depth: nat, nodes: seq<Node>, name: Text)
    requires t.end <= |s|
    ensures var r, colon := NamedMember(f, lib, s, t, depth, nodes, name), ReadToken(f, s, t.end);
            if |name| >= 1073741824 then r == Thrown
            else if f.rejectDupKeys && HasKey(nodes, Name(name)) then
              r == Fail(f, s, Obj(nodes), DuplicateKey, t, ObjectEnd)
            else if colon.kind != MemberSeparator then r == Fail(f, s, Obj(nodes), MissingColon, colon, ObjectEnd)
            else r == ValueOfMember(f, lib, s, colon.end, depth, nodes, name)
  {
    hide ReadToken, ReadValue, AfterMember, Put, Lookup, HasKey, Fail;
  }

  /** What may stand behind a member's value and behind an element. */
  lemma BehindValue(f: Features, lib: Library, s: Text, depth: nat, nodes: seq<Node>, unnamed: bool, index: nat,
                    value: Read)
    requires value.Read? && value.ok && value.errors == [] && value.pos <= |s|
    ensures var t, r := ReadToken(f, s, value.pos), AfterMember(f, lib, s, depth, nodes, unnamed, value);
            && (t.kind == ObjectEnd ==> r == Read(true, Obj(nodes), t.end, []))
            && (t.kind == ArraySeparator ==> r == ReadMembers(f, lib, s, t.end, depth, nodes, unnamed))
            && (t.kind !in {ObjectEnd, ArraySeparator, CommentToken} ==>
                  r == Fail(f, s, Obj(nodes), MissingCommaOrBrace, t, ObjectEnd))
    ensures var t, r := NonComment(f, s, value.pos), AfterElement(f, lib, s, depth, nodes, index, value);
            && (t.kind == ArrayEnd ==> r == Read(true, Arr(nodes), t.end, []))
            && (t.kind == ArraySeparator ==> r == ReadElements(f, lib, s, t.end, depth, nodes, index + 1))
            && (t.kind !in {ArrayEnd, ArraySeparator}
                ==> r == Fail(f, s, Arr(nodes), MissingCommaOrBracket, t, ArrayEnd))
  {
    hide ReadToken, NonComment, ReadMembers, ReadElements, Fail;
  }

  /** A failed value ends its container, which is recovered up to its own closing bracket. */
  lemma BehindFailure(f: Features, lib: Library, s: Text, depth: nat, nodes: seq<Node>, unnamed: bool, index: nat,
                      value: Read)
    requires value.Read? && !value.ok && value.errors != [] && value.pos <= |s|
    ensures AfterMember(f, lib, s, depth, nodes, unnamed, value)
         == Read(false, Obj(nodes), Recover(f, s, value.pos, ObjectEnd), value.errors)
    ensures AfterElement(f, lib, s, depth, nodes, index, value)
         == Read(false, Arr(nodes), Recover(f, s, value.pos, ArrayEnd), value.errors)
  {
    hide ReadMembers, ReadElements, Recover;
  }

  // ---------- Values ----------

  /** An integer is a signed one up to 2^63 - 1, and an unsigned one from there to 2^64 - 1; anything
      larger is left to the library, as is every number that is not all digits. */
  lemma NumberValue(lib: Library, n: int)
    ensures NumberOf(lib, IntText(n)) ==
              if -9223372036854775808 <= n <= 9223372036854775807 then Some(Int(n))
              else if 9223372036854775807 < n <= 18446744073709551615 then Some(UInt(n))
              else match lib.parseReal(IntText(n))
                case Some(d) => Some(Real(d))
                case None => None
  {
    hide IntText, DecodeInteger;
    DecodeUndoesPrint(n);
  }

  /** The special floats where they are allowed; a token that is no value is reported where it stands. */
  lemma SpecialValues(f: Features, lib: Library, s: Text, p: nat, depth: nat, current: Value)
    requires p <= |s| && depth <= f.stackLimit
    ensures var t, r := SkipCommentTokens(f, s, p), ReadValue(f, lib, s, p, depth, current);
            && (t.kind == NaNToken ==> r == Read(true, Real(NaN), t.end, []))
            && (t.kind == PosInfToken ==> r == Read(true, Real(PosInf), t.end, []))
            && (t.kind == NegInfToken ==> r == Read(true, Real(NegInf), t.end, []))
            && (t.kind in {EndOfStream, MemberSeparator, CommentToken, ErrorToken} ==>
                  r == Read(false, current, t.end, [Error(ValueExpected, t)]))
  {
    hide SkipCommentTokens, ReadMembers, ReadElements, Unescape, NumberOf;
  }

  /** A number or a string that cannot be decoded leaves the value as it was and is reported. */
  lemma DecodedValues(f: Features, lib: Library, s: Text, p: nat, depth: nat, current: Value)
    requires p <= |s| && depth <= f.stackLimit
    ensures var t, r := SkipCommentTokens(f, s, p), ReadValue(f, lib, s, p, depth, current);
            && (t.kind == NumberToken ==>
                  r == match NumberOf(lib, TextOf(s, t))
                    case Some(v) => Read(true, v, t.end, [])
                    case None => Read(false, current, t.end, [Error(NotANumber, t)]))
            && (t.kind == StringToken ==>
                  r == match Unescape(BodyOf(s, t))
                    case Decoded(text) => Read(true, Str(text), t.end, [])
                    case Malformed(e) => Read(false, current, t.end, [Error(BadString(e), t)]))
  {
    hide SkipCommentTokens, ReadMembers, ReadElements, Unescape, NumberOf;
  }

  // ---------- Recovery ----------

  /** The `n`-th token from `p` on. */
  function TokenAfter(f: Features, s: Text, p: nat, n: nat): (t: Token)
    requires p <= |s|
    ensures t.end <= |s|
  {
    if n == 0 then ReadToken(f, s, p) else ReadToken(f, s, TokenAfter(f, s, p, n - 1).end)
  }

  predicate StopsRecovery(t: Token, until: Kind) {
    t.kind == until || t.kind == EndOfStream
  }

  /** Recovery stops right behind the first token of the kind looked for, or behind the last token of
      the document. */
  lemma {:induction false} RecoverStopsBehind(f: Features, s: Text, p: nat, until: Kind) returns (n: nat)
    requires p <= |s|
    ensures StopsRecovery(TokenAfter(f, s, p, n), until) && Recover(f, s, p, until) == TokenAfter(f, s, p, n).end
    ensures forall m | 0 <= m < n :: !StopsRecovery(TokenAfter(f, s, p, m), until)
    decreases |s| - p
  {
    hide ReadToken;
    var t := ReadToken(f, s, p);
    if StopsRecovery(t, until) {
      n := 0;
    } else {
      var k := RecoverStopsBehind(f, s, t.end, until);
      n := k + 1;
      forall m | 0 <= m < n ensures !StopsRecovery(TokenAfter(f, s, p, m), until) {
        if m > 0 { TokenLater(f, s, p, m - 1); }
      }
      TokenLater(f, s, p, k);
    }
  }

  lemma {:induction false} TokenLater(f: Features, s: Text, p: nat, m: nat)
    requires p <= |s|
    ensures TokenAfter(f, s, p, m + 1) == TokenAfter(f, s, ReadToken(f, s, p).end, m)
  {
    hide ReadToken;
    if m == 0 {
      assert TokenAfter(f, s, p, 0) == ReadToken(f, s, p);
    } else {
      TokenLater(f, s, p, m - 1);
    }
  }

  /** An error leaves behind the value read so far, and the place that recovery has come to. */
  lemma FailIs(f: Features, s: Text, value: Value, message: Message, t: Token, until: Kind)
    requires t.end <= |s|
    ensures var r := Fail(f, s, value, message, t, until);
            r == Read(false, value, Recover(f, s, t.end, until), [Error(message, t)])
  {
  }
}
