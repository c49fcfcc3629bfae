/** `OurReader`: the tokenizer and recursive-descent reader as the C++ code runs them, on a
    cursor, a stack of pointers into the document under construction and a list of errors.
    Every method is proved to compute the functions of modules Lexing and Parsing. */
module Reader {
  import opened Chars
  import opened Decimal
  import opened Utf8
  import opened Quoting
  import opened Values
  import opened Lexing
  import opened Parsing

  /** How a call ended: with a result, or with an exception. */
  datatype Outcome = Returned(ok: bool) | Threw

  /** How a turn of a reading loop ended. */
  datatype Turn = NextTurn | Exit(outcome: Outcome)

  /** Entering a key and assigning below it is assigning the key. */
  lemma AssignBelow(root: Value, path: Path, key: Key, v: Value)
    requires Resolves(root, path) && IsContainer(At(root, path))
    ensures var here := At(root, path);
            var entered := Store(root, path, WithNodes(here, Demand(here.nodes, key)));
            Resolves(entered, path) && Resolves(entered, path + [key])
            && At(entered, path + [key]) == Lookup(here.nodes, key)
            && Store(entered, path + [key], v) == Store(root, path, WithNodes(here, Put(here.nodes, key, v)))
  {
    var here := At(root, path);
    var inner := WithNodes(here, Demand(here.nodes, key));
    StoreThenAt(root, path, inner);
    PutReads(here.nodes, key, v);
    StoreChild(Store(root, path, inner), path, key, v);
    StoreTwice(root, path, inner, WithNodes(here, Put(here.nodes, key, v)));
  }

  class OurReader {
    const features: Features
    const lib: Library
    var doc: Text
    var current: nat
    var nodes: seq<Path>
    var root: Value
    var errors: seq<Error>

    constructor (features: Features, lib: Library)
      ensures this.features == features && this.lib == lib
    {
      this.features := features;
      this.lib := lib;
      doc, current, nodes, root, errors := [], 0, [], Null, [];
    }

    // ---------- Tokens ----------

    method GetNextChar() returns (c: Byte)
      requires current <= |doc|
      modifies this`current
      ensures if old(current) == |doc| then c == NUL && current == old(current)
              else c == doc[old(current)] && current == old(current) + 1
    {
      if current == |doc| {
        return NUL;
      }
      c := doc[current];
      current := current + 1;
    }

    method SkipSpaces()
      requires current <= |doc|
      modifies this`current
      ensures current == Lexing.SkipSpaces(doc, old(current))
    {
      while current != |doc|
        invariant current <= |doc|
        invariant Lexing.SkipSpaces(doc, current) == Lexing.SkipSpaces(doc, old(current))
        decreases |doc| - current
      {
        var c := doc[current];
        if c == SPACE || c == TAB || c == CR || c == LF {
          current := current + 1;
        } else {
          break;
        }
      }
    }

    method Match(pattern: Text) returns (ok: bool)
      requires current <= |doc|
      modifies this`current
      ensures ok <==> StandsAt(doc, old(current), pattern)
      ensures current == old(current) + (if ok then |pattern| else 0)
    {
      if |doc| - current < |pattern| {
        return false;
      }
      ghost var here := doc[current..current + |pattern|];
      var index := |pattern|;
      while index > 0
        invariant 0 <= index <= |pattern| && current == old(current)
        invariant forall i | index <= i < |pattern| :: here[i] == pattern[i]
      {
        index := index - 1;
        assert here[index] == doc[current + index];
        if doc[current + index] != pattern[index] {
          return false;
        }
      }
      current := current + |pattern|;
      return true;
    }

    method ReadCStyleComment() returns (ok: bool)
      requires current <= |doc|
      modifies this`current
      ensures Scan(ok, current) == Lexing.ReadCStyleComment(doc, old(current))
    {
      while current + 1 < |doc|
        invariant current <= |doc|
        invariant Lexing.ReadCStyleComment(doc, current) == Lexing.ReadCStyleComment(doc, old(current))
        decreases |doc| - current
      {
        var c := GetNextChar();
        if c == STAR && doc[current] == SLASH {
          current := current + 1;
          return true;
        }
      }
      var c := GetNextChar();
      return c == SLASH;
    }

    method ReadCppStyleComment() returns (ok: bool)
      requires current <= |doc|
      modifies this`current
      ensures ok && current == CppCommentEnd(doc, old(current))
    {
      while current != |doc|
        invariant current <= |doc|
        invariant CppCommentEnd(doc, current) == CppCommentEnd(doc, old(current))
        decreases |doc| - current
      {
        var c := GetNextChar();
        if c == LF {
          break;
        }
        if c == CR {
          if current != |doc| && doc[current] == LF {
            var _ := GetNextChar();
          }
          break;
        }
      }
      return true;
    }

    method ReadComment() returns (ok: bool)
      requires current <= |doc|
      modifies this`current
      ensures Scan(ok, current) == Lexing.ReadComment(doc, old(current))
    {
      var c := GetNextChar();
      ok := false;
      if c == STAR {
        ok := ReadCStyleComment();
      } else if c == SLASH {
        ok := ReadCppStyleComment();
      }
    }

    /** `readString` and `readStringSingleQuote`, which differ only in the quote. */
    method ReadString(quote: Byte) returns (ok: bool)
      requires current <= |doc| && quote != BACKSLASH && quote != NUL
      modifies this`current
      ensures Scan(ok, current) == ScanString(doc, old(current), quote)
    {
      var c: Byte := NUL;
      while current != |doc|
        invariant current <= |doc| && c != quote
        invariant ScanString(doc, current, quote) == ScanString(doc, old(current), quote)
        decreases |doc| - current
      {
        c := GetNextChar();
        if c == BACKSLASH {
          var _ := GetNextChar();
        } else if c == quote {
          break;
        }
      }
      return c == quote;
    }

    /** `c` is the character under the cursor, or 0 at the end, and `p` the next position. */
    predicate Looking(c: Byte, p: nat)
      reads this
    {
      current <= |doc| && (if current < |doc| then c == doc[current] && p == current + 1 else c == NUL && p == current)
    }

    /** `c = (current_ = p) < end_ ? *p++ : 0`. */
    method Advance(p: nat) returns (c: Byte, next: nat)
      requires p <= |doc|
      modifies this`current
      ensures current == p && Looking(c, next)
    {
      current := p;
      if current < |doc| {
        return doc[p], p + 1;
      }
      return NUL, p;
    }

    /** A digit loop of `readNumber`, after a first character that is taken for a digit. */
    method AdvanceDigits(p0: nat) returns (c: Byte, p: nat)
      requires p0 <= |doc|
      modifies this`current
      ensures current == SkipDigits(doc, p0) && Looking(c, p)
    {
      c, p := 0x30, p0;
      while IsDigit(c)
        invariant p <= |doc|
        invariant IsDigit(c) ==> SkipDigits(doc, p) == SkipDigits(doc, p0)
        invariant !IsDigit(c) ==> current == SkipDigits(doc, p0) && Looking(c, p)
        decreases if IsDigit(c) then |doc| - p + 1 else 0
      {
        c, p := Advance(p);
      }
    }

    /** The fractional part of `readNumber`. */
    method ReadFraction(c0: Byte, p0: nat) returns (c: Byte, p: nat)
      requires Looking(c0, p0)
      modifies this`current
      ensures current == FractionEnd(doc, old(current)) && Looking(c, p)
    {
      c, p := c0, p0;
      if c == DOT {
        c, p := AdvanceDigits(p);
      }
    }

    /** The exponential part of `readNumber`. */
    method ReadExponent(c0: Byte, p0: nat)
      requires Looking(c0, p0)
      modifies this`current
      ensures current == ExponentEnd(doc, old(current))
    {
      var c, p := c0, p0;
      if c == 0x65 || c == 0x45 {
        c, p := Advance(p);
        if c == PLUS || c == MINUS {
          c, p := AdvanceDigits(p);
        } else {
          c, p := AdvanceDigits(current);
        }
      }
    }

    method ReadNumber(checkInf: bool) returns (ok: bool)
      requires current <= |doc|
      modifies this`current
      ensures ok <==> !(checkInf && old(current) < |doc| && doc[old(current)] == 0x49)
      ensures current == if ok then NumberEnd(doc, old(current)) else old(current) + 1
    {
      hide FractionEnd, ExponentEnd;
      var p := current;
      if checkInf && p != |doc| && doc[p] == 0x49 {
        p := p + 1;
        current := p;
        return false;
      }
      var c: Byte;
      c, p := AdvanceDigits(p);
      c, p := ReadFraction(c, p);
      ReadExponent(c, p);
      return true;
    }

    /** The keyword cases of `readToken`. */
    method ReadKeyword(start: nat, pattern: Text, kind: Kind) returns (ok: bool)
      requires start < current <= |doc| && pattern != [] && kind != ErrorToken
      modifies this`current
      ensures Token(if ok then kind else ErrorToken, start, current) == Keyword(doc, start, old(current), pattern, kind)
    {
      ok := Match(pattern);
    }

    /** The cases of `readToken` for a sign. */
    method ReadSigned(start: nat, infinity: Kind) returns (ok: bool, kind: Kind)
      requires current == start + 1 <= |doc| && infinity != ErrorToken
      modifies this`current
      ensures Token(if ok then kind else ErrorToken, start, current) == SignedToken(features, doc, start, infinity)
      ensures kind == NumberToken || kind == infinity
    {
      var number := ReadNumber(true);
      if number {
        return true, NumberToken;
      }
      kind := infinity;
      ok := features.allowSpecialFloats;
      if ok {
        ok := ReadKeyword(start, NFINITY, infinity);
      }
    }

    method ReadToken() returns (token: Token, ok: bool)
      requires current <= |doc|
      modifies this`current
      ensures token == Lexing.ReadToken(features, doc, old(current))
      ensures ok <==> token.kind != ErrorToken
      ensures current == token.end <= |doc|
    {
      hide NumberEnd, ScanString, Lexing.ReadComment, StandsAt, SignedToken, Keyword;
      SkipSpaces();
      var start := current;
      var c := GetNextChar();
      if start == |doc| {
        return Token(EndOfStream, start, current), true;
      }
      var kind: Kind;
      kind, ok := ReadTokenBody(c, start);
      if !ok {
        kind := ErrorToken;
      }
      token := Token(kind, start, current);
    }

    /** The switch of `readToken` on the first character. */
    method ReadTokenBody(c: Byte, start: nat) returns (kind: Kind, ok: bool)
      requires start < |doc| && c == doc[start] && current == start + 1
      modifies this`current
      ensures Token(if ok then kind else ErrorToken, start, current) == TokenAt(features, doc, start)
      ensures kind != ErrorToken
    {
      hide NumberEnd, ScanString, Lexing.ReadComment, StandsAt, SignedToken, Keyword;
      ok := true;
      kind := EndOfStream;
      if c == LBRACE {
        kind := ObjectBegin;
      } else if c == RBRACE {
        kind := Kind.ObjectEnd;
      } else if c == LBRACKET {
        kind := ArrayBegin;
      } else if c == RBRACKET {
        kind := Kind.ArrayEnd;
      } else if c == QUOTE {
        kind := StringToken;
        ok := ReadString(QUOTE);
      } else if c == APOSTROPHE {
        if features.allowSingleQuotes {
          kind := StringToken;
          ok := ReadString(APOSTROPHE);
        } else {
          ok := false;
        }
      } else if c == SLASH {
        kind := CommentToken;
        ok := ReadComment();
      } else if IsDigit(c) {
        kind := NumberToken;
        var _ := ReadNumber(false);
      } else if c == MINUS {
        ok, kind := ReadSigned(start, NegInfToken);
      } else if c == PLUS {
        ok, kind := ReadSigned(start, PosInfToken);
      } else if c == 0x74 {
        kind := TrueToken;
        ok := ReadKeyword(start, RUE, kind);
      } else if c == 0x66 {
        kind := FalseToken;
        ok := ReadKeyword(start, ALSE, kind);
      } else if c == 0x6E {
        kind := NullToken;
        ok := ReadKeyword(start, ULL, kind);
      } else if c == 0x4E {
        if features.allowSpecialFloats {
          kind := NaNToken;
          ok := ReadKeyword(start, AN, kind);
        } else {
          ok := false;
        }
      } else if c == 0x49 {
        if features.allowSpecialFloats {
          kind := PosInfToken;
          ok := ReadKeyword(start, NFINITY, kind);
        } else {
          ok := false;
        }
      } else if c == COMMA {
        kind := ArraySeparator;
      } else if c == COLON {
        kind := MemberSeparator;
      } else if c != NUL {
        ok := false;
      }
    }

    /** Reads tokens until one is no comment, as `readObject` and `readArray` do. */
    method ReadNonComment() returns (token: Token, ok: bool)
      requires current <= |doc|
      modifies this`current
      ensures token == NonComment(features, doc, old(current))
      ensures ok <==> token.kind != ErrorToken
      ensures current == token.end <= |doc|
    {
      hide Lexing.ReadToken;
      token, ok := ReadToken();
      while token.kind == CommentToken && ok
        invariant current == token.end <= |doc| && (ok <==> token.kind != ErrorToken)
        invariant NonComment(features, doc, old(current))
               == if token.kind == CommentToken then NonComment(features, doc, current) else token
        decreases |doc| - current, token.kind == CommentToken
      {
        token, ok := ReadToken();
      }
    }

    method SkipCommentTokens() returns (token: Token)
      requires current <= |doc|
      modifies this`current
      ensures token == Lexing.SkipCommentTokens(features, doc, old(current))
      ensures current == token.end <= |doc|
    {
      var ok;
      if features.allowComments {
        token, ok := ReadNonComment();
      } else {
        token, ok := ReadToken();
      }
    }

    // ---------- Errors ----------

    method AddError(message: Message, token: Token) returns (ok: bool)
      modifies this`errors
      ensures !ok && errors == old(errors) + [Error(message, token)]
    {
      errors := errors + [Error(message, token)];
      return false;
    }

    /** `recoverFromError`: it reads tokens only, so there is no error for it to discard. */
    method RecoverFromError(until: Kind) returns (ok: bool)
      requires current <= |doc|
      modifies this`current, this`errors
      ensures !ok && errors == old(errors)
      ensures current == Recover(features, doc, old(current), until) <= |doc|
    {
      hide Lexing.ReadToken;
      var errorCount := |errors|;
      while true
        invariant current <= |doc| && errors == old(errors)
        invariant Recover(features, doc, current, until) == Recover(features, doc, old(current), until)
        decreases |doc| - current
      {
        var skip, good := ReadToken();
        if !good {
          errors := errors[..errorCount];
        }
        if skip.kind == until || skip.kind == EndOfStream {
          break;
        }
      }
      errors := errors[..errorCount];
      return false;
    }

    method AddErrorAndRecover(message: Message, token: Token, until: Kind) returns (ok: bool)
      requires current <= |doc|
      modifies this`current, this`errors
      ensures !ok && errors == old(errors) + [Error(message, token)]
      ensures current == Recover(features, doc, old(current), until) <= |doc|
    {
      var _ := AddError(message, token);
      ok := RecoverFromError(until);
    }

    // ---------- Strings and numbers ----------

    /** `decodeUnicodeEscapeSequence` at position `k` of `b`. */
    method DecodeUnicodeEscapeSequence(b: Text, k: nat) returns (r: HexRead)
      requires k <= |b|
      ensures r == ReadHex4(b[k..])
    {
      if |b| - k < 4 {
        return HexError(FourDigitsExpected);
      }
      var unicode: nat := 0;
      ghost var t := b[k..];
      for index := 0 to 4
        invariant forall i | 0 <= i < index :: IsHexDigit(t[i])
        invariant index == 0 ==> unicode == 0
        invariant index == 1 ==> unicode == HexValue(t[0])
        invariant index == 2 ==> unicode == HexValue(t[0]) * 16 + HexValue(t[1])
        invariant index == 3 ==> unicode == (HexValue(t[0]) * 16 + HexValue(t[1])) * 16 + HexValue(t[2])
        invariant index == 4 ==>
                    unicode == ((HexValue(t[0]) * 16 + HexValue(t[1])) * 16 + HexValue(t[2])) * 16 + HexValue(t[3])
      {
        var c := b[k + index];
        assert c == t[index];
        if !IsHexDigit(c) {
          return HexError(HexDigitExpected);
        }
        unicode := unicode * 16 + HexValue(c);
      }
      return Hex(unicode);
    }

    /** `decodeUnicodeCodePoint` at position `k` of `b`. */
    method DecodeUnicodeCodePoint(b: Text, k: nat) returns (r: CodePointRead)
      requires k <= |b|
      ensures r == ReadCodePoint(b[k..])
    {
      hide ReadHex4;
      var first := DecodeUnicodeEscapeSequence(b, k);
      if first.HexError? {
        return CodePointError(first.error);
      }
      HexReadsFour(b[k..]);
      var current := k + 4;
      var unicode := first.unicode;
      if 0xD800 <= unicode <= 0xDBFF {
        if |b| - current < 6 {
          return CodePointError(SurrogateTooShort);
        }
        if b[current] != BACKSLASH || b[current + 1] != 0x75 {
          return CodePointError(SurrogateWithoutEscape);
        }
        current := current + 2;
        assert b[k..][6..] == b[current..];
        var second := DecodeUnicodeEscapeSequence(b, current);
        if second.HexError? {
          return CodePointError(second.error);
        }
        return CodePoint(0x10000 + unicode % 0x400 * 0x400 + second.unicode % 0x400, 10);
      }
      return CodePoint(unicode, 4);
    }

    /** `decodeString`: the text of a string token, or an error. */
    method DecodeString(token: Token) returns (ok: bool, decoded: Text)
      requires token.start + 2 <= token.end <= |doc|
      modifies this`errors
      ensures match Unescape(BodyOf(doc, token))
              case Decoded(text) => ok && decoded == text && errors == old(errors)
              case Malformed(e) => !ok && errors == old(errors) + [Error(BadString(e), token)]
    {
      hide Unescape, ReadCodePoint, CodePointToUTF8;
      var b := doc[token.start + 1..token.end - 1];
      decoded := [];
      var k := 0;
      NothingToPrepend(Unescape(b));
      assert b[0..] == b;
      while k != |b|
        invariant 0 <= k <= |b| && errors == old(errors)
        invariant Prepend(decoded, Unescape(b[k..])) == Unescape(b)
        decreases |b| - k
      {
        UnescapeStep(b, k, decoded);
        var c := b[k];
        k := k + 1;
        if c == QUOTE {
          return true, decoded;
        }
        if c != BACKSLASH {
          decoded := decoded + [c];
        } else {
          if k == |b| {
            ok := AddError(BadString(EmptyEscape), token);
            return;
          }
          var escape := b[k];
          k := k + 1;
          if Unescaped(escape) >= 0 {
            decoded := decoded + [Unescaped(escape)];
          } else if escape == 0x75 {
            var r := DecodeUnicodeCodePoint(b, k);
            if r.CodePointError? {
              ok := AddError(BadString(r.error), token);
              return;
            }
            decoded := decoded + CodePointToUTF8(r.unicode);
            k := k + r.width;
          } else {
            ok := AddError(BadString(BadEscape), token);
            return;
          }
        }
      }
      UnescapeNothing(b[k..]);
      ok := true;
    }

    /** `decodeNumber`: the value of a number token, or an error. */
    method DecodeNumberToken(token: Token) returns (ok: bool, decoded: Value)
      requires token.start < token.end <= |doc|
      modifies this`errors
      ensures match NumberOf(lib, TextOf(doc, token))
              case Some(v) => ok && decoded == v && errors == old(errors)
              case None => !ok && errors == old(errors) + [Error(NotANumber, token)]
    {
      hide DecodeInteger;
      decoded := Null;
      var t := doc[token.start..token.end];
      var n := DecodeNumber(t);
      if n.Some? {
        return true, if n.value <= MAX_INT64 then Int(n.value) else UInt(n.value);
      }
      var d := lib.parseReal(t);
      if d.None? {
        ok := AddError(NotANumber, token);
        return;
      }
      return true, Real(d.value);
    }

    // ---------- Values ----------

    function Top(): Path
      requires nodes != []
      reads this
    {
      nodes[|nodes| - 1]
    }

    /** The cursor is inside the document and the top of the stack points into it. */
    predicate Ready()
      reads this
    {
      current <= |doc| && nodes != [] && Resolves(root, Top())
    }

    function CurrentValue(): Value
      requires Ready()
      reads this
    {
      At(root, Top())
    }

    /** The state is what `r` says reading leaves behind, `root0` and `errors0` having been
        there before: only the value at `path` has changed. */
    ghost predicate Matches(o: Outcome, r: Read, root0: Value, path: Path, errors0: seq<Error>)
      requires Resolves(root0, path)
      reads this
    {
      match r
      case Thrown => o == Threw
      case Read(ok, value, pos, added) =>
        o == Returned(ok) && root == Store(root0, path, value) && current == pos && errors == errors0 + added
    }

    /** `currentValue().swapPayload(v)`. */
    method SetCurrent(v: Value)
      requires Ready()
      modifies this`root
      ensures root == Store(old(root), Top(), v) && Ready() && CurrentValue() == v
    {
      StoreThenAt(root, Top(), v);
      root := Store(root, Top(), v);
    }

    /** `nodes_.push(&currentValue()[key])`. */
    method PushChild(key: Key)
      requires Ready() && IsContainer(CurrentValue())
      modifies this`root, this`nodes
      ensures nodes == old(nodes) + [old(Top()) + [key]]
      ensures root == Store(old(root), old(Top()),
                            WithNodes(old(CurrentValue()), Demand(old(CurrentValue()).nodes, key)))
    {
      var here := CurrentValue();
      root := Store(root, Top(), WithNodes(here, Demand(here.nodes, key)));
      nodes := nodes + [Top() + [key]];
    }

    /** Push the child at `key`, read its value, pop: the container under the top pointer
        holds `members` before, and has the child assigned afterwards. */
    method ReadChild(key: Key, ghost root0: Value, ghost container: Value) returns (o: Outcome)
      requires Ready() && Resolves(root0, Top()) && IsContainer(container) && root == Store(root0, Top(), container)
      modifies this`current, this`nodes, this`root, this`errors
      ensures var r := Parsing.ReadValue(features, lib, doc, old(current), |old(nodes)| + 1,
                                         Lookup(container.nodes, key));
              if r.Thrown? then o == Threw
              else nodes == old(nodes)
                   && Matches(o, r.(value := WithNodes(container, Put(container.nodes, key, r.value))), root0,
                              old(Top()), old(errors))
      decreases |doc| - current, 1
    {
      hide Parsing.ReadValue, Put, Demand, Lookup, LowerBound, HasKey, Store, Resolves, At;
      StoreThenAt(root0, Top(), container);
      ghost var r := Parsing.ReadValue(features, lib, doc, current, |nodes| + 1, Lookup(container.nodes, key));
      ghost var child := if r.Read? then r.value else Null;
      AssignBelow(root, Top(), key, child);
      StoreTwice(root0, Top(), container, WithNodes(container, Put(container.nodes, key, child)));
      PushChild(key);
      o := ReadValue();
      if o == Threw {
        return;
      }
      nodes := nodes[..|nodes| - 1];
    }

    /** `readValue`. */
    method ReadValue() returns (o: Outcome)
      requires Ready()
      modifies this`current, this`nodes, this`root, this`errors
      ensures var r := Parsing.ReadValue(features, lib, doc, old(current), |old(nodes)|, old(CurrentValue()));
              if r.Thrown? then o == Threw else nodes == old(nodes) && Matches(o, r, old(root), old(Top()), old(errors))
      decreases |doc| - current, 0
    {
      hide ReadScalar, Parsing.ReadMembers, Parsing.ReadElements, Lexing.SkipCommentTokens, Store, Resolves, At;
      if |nodes| > features.stackLimit {
        return Threw;
      }
      var token := SkipCommentTokens();
      if token.kind == ObjectBegin {
        o := ReadObject();
      } else if token.kind == ArrayBegin {
        o := ReadArray();
      } else {
        o := ReadScalarValue(token);
      }
    }

    /** The cases of `readValue` that read no nested value. */
    method ReadScalarValue(token: Token) returns (o: Outcome)
      requires Ready() && token.start <= token.end == current
               && (token.start == token.end ==> token.kind == EndOfStream)
      requires token.kind == StringToken ==> token.start + 2 <= token.end
      modifies this`current, this`root, this`errors
      ensures Matches(o, ReadScalar(features, lib, doc, token, old(CurrentValue())), old(root), old(Top()), old(errors))
    {
      hide Unescape, NumberOf, Store, Resolves, At;
      KeepCurrent(root, Top());
      if token.kind == NumberToken {
        var ok, decoded := DecodeNumberToken(token);
        if ok {
          SetCurrent(decoded);
        }
        return Returned(ok);
      } else if token.kind == StringToken {
        var ok, decoded := DecodeString(token);
        if ok {
          SetCurrent(Str(decoded));
        }
        return Returned(ok);
      } else {
        o := ReadPlainValue(token);
      }
    }

    /** The cases of `readValue` in which the kind of the token alone decides. */
    method ReadPlainValue(token: Token) returns (o: Outcome)
      requires Ready() && token.start <= token.end == current
               && (token.start == token.end ==> token.kind == EndOfStream)
      requires token.kind != NumberToken && token.kind != StringToken
      modifies this`current, this`root, this`errors
      ensures Matches(o, ReadScalar(features, lib, doc, token, old(CurrentValue())), old(root), old(Top()), old(errors))
    {
      hide ReadScalar, Store, Resolves, At;
      PlainScalar(features, lib, doc, token, CurrentValue());
      var plain := Null;
      if token.kind == TrueToken {
        plain := Bool(true);
      } else if token.kind == FalseToken {
        plain := Bool(false);
      } else if token.kind == NaNToken {
        plain := Real(NaN);
      } else if token.kind == PosInfToken {
        plain := Real(PosInf);
      } else if token.kind == NegInfToken {
        plain := Real(NegInf);
      } else if token.kind != NullToken {
        o := ReadNoValue(token);
        return;
      }
      SetCurrent(plain);
      return Returned(true);
    }

    /** The cases of `readValue` in which no value stands where one is expected. */
    method ReadNoValue(token: Token) returns (o: Outcome)
      requires Ready() && token.start <= token.end == current
               && (token.start == token.end ==> token.kind == EndOfStream)
      requires token.kind != NumberToken && token.kind != StringToken && PlainValue(token.kind).None?
      modifies this`current, this`root, this`errors
      ensures Matches(o, ReadScalar(features, lib, doc, token, old(CurrentValue())), old(root), old(Top()), old(errors))
    {
      hide ReadScalar, Store, Resolves, At, PlainValue;
      PlainScalar(features, lib, doc, token, CurrentValue());
      KeepCurrent(root, Top());
      var ok := true;
      if (token.kind == ArraySeparator || token.kind == Kind.ObjectEnd || token.kind == Kind.ArrayEnd)
         && features.allowDroppedNullPlaceholders {
        current := current - 1;
        SetCurrent(Null);
      } else {
        ok := AddError(ValueExpected, token);
      }
      return Returned(ok);
    }

    // ---------- Objects ----------

    /** `readObject`, after the opening brace. */
    method ReadObject() returns (o: Outcome)
      requires Ready()
      modifies this`current, this`nodes, this`root, this`errors
      ensures var r := Parsing.ReadMembers(features, lib, doc, old(current), |old(nodes)|, [], true);
              if r.Thrown? then o == Threw else nodes == old(nodes) && Matches(o, r, old(root), old(Top()), old(errors))
      decreases |doc| - current, 4
    {
      hide NamedMember, Parsing.ReadMembers, Store, Resolves, At;
      var name: Text := [];
      ghost var members := [];
      SetCurrent(Obj([]));
      while true
        invariant Ready() && nodes == old(nodes) && errors == old(errors) && old(current) <= current
        invariant root == Store(old(root), Top(), Obj(members))
        invariant Parsing.ReadMembers(features, lib, doc, old(current), |nodes|, [], true)
               == Parsing.ReadMembers(features, lib, doc, current, |nodes|, members, name == [])
        decreases |doc| - current
      {
        var turn, tokenName, next := ReadMemberStart(name, old(root), members);
        if turn.Exit? {
          return turn.outcome;
        }
        name := next;
        turn, members := ReadMember(tokenName, name, old(root), members);
        if turn.Exit? {
          return turn.outcome;
        }
      }
    }

    /** The start of a turn of `readObject`: the closing brace, or the next member's name. */
    method ReadMemberStart(name: Text, ghost root0: Value, ghost members: seq<Node>)
      returns (turn: Turn, token: Token, next: Text)
      requires Ready() && Resolves(root0, Top()) && root == Store(root0, Top(), Obj(members))
      modifies this`current, this`errors
      ensures turn != Exit(Threw)
      ensures turn == NextTurn ==> old(current) < current == token.end <= |doc| && errors == old(errors)
      ensures var r := Parsing.ReadMembers(features, lib, doc, old(current), |nodes|, members, name == []);
              match turn
              case NextTurn => r == NamedMember(features, lib, doc, token, |nodes|, members, next)
              case Exit(o) => r.Read? && Matches(o, r, root0, old(Top()), old(errors))
    {
      hide NonComment, NamedMember, ReadName, Recover, Store, Resolves, At, Parsing.ReadMembers;
      next := [];
      MembersTurn(features, lib, doc, current, |nodes|, members, name == []);
      var good;
      token, good := ReadNonComment();
      if good && token.kind == Kind.ObjectEnd && (name == [] || features.allowTrailingCommas) {
        turn := Exit(Returned(true));
        return;
      }
      var read, names := ReadMemberName(token);
      NamesConsume(features, lib, doc, token);
      if !names {
        var _ := AddErrorAndRecover(MissingBraceOrName, token, Kind.ObjectEnd);
        turn := Exit(Returned(false));
      } else if read.BadName? {
        var _ := RecoverFromError(Kind.ObjectEnd);
        turn := Exit(Returned(false));
      } else {
        next := read.name;
        turn := NextTurn;
      }
    }

    /** The name a token stands for; `names` is false for a token that names nothing. */
    method ReadMemberName(token: Token) returns (read: NameRead, names: bool)
      requires token.start <= token.end <= |doc| && (token.kind == StringToken ==> token.start + 2 <= token.end)
      requires token.kind == NumberToken ==> token.start < token.end
      modifies this`errors
      ensures read == ReadName(features, lib, doc, token) && (names <==> !read.NoName?)
      ensures errors == old(errors) + (if read.BadName? then [Error(read.message, token)] else [])
    {
      hide Unescape, NumberOf, IntText;
      if token.kind == StringToken {
        var ok, text := DecodeString(token);
        if !ok {
          return BadName(errors[|errors| - 1].message), true;
        }
        return MemberName(text), true;
      } else if token.kind == NumberToken && features.allowNumericKeys {
        var ok, number := DecodeNumberToken(token);
        if !ok {
          return BadName(NotANumber), true;
        }
        return MemberName(NumberText(lib, number)), true;
      }
      return NoName, false;
    }

    /** A turn of `readObject`, after the member name. */
    method ReadMember(token: Token, name: Text, ghost root0: Value, ghost members: seq<Node>)
      returns (turn: Turn, ghost members': seq<Node>)
      requires Ready() && Resolves(root0, Top()) && root == Store(root0, Top(), Obj(members)) && current == token.end
      modifies this`current, this`nodes, this`root, this`errors
      ensures !(turn == Exit(Threw)) ==> nodes == old(nodes)
      ensures turn == NextTurn ==> MemberRead(root0, members', old(current), old(errors))
      ensures var r := NamedMember(features, lib, doc, token, |old(nodes)|, members, name);
              match turn
              case NextTurn => r == Parsing.ReadMembers(features, lib, doc, current, |nodes|, members', name == [])
              case Exit(o) =>
                if r.Thrown? then o == Threw else o != Threw && Matches(o, r, root0, old(Top()), old(errors))
      decreases |doc| - current, 3
    {
      hide MemberValue, Parsing.ReadMembers, Recover, Store, Resolves, At;
      members' := members;
      StoreThenAt(root0, Top(), Obj(members));
      NamedMemberIs(features, lib, doc, token, |nodes|, members, name);
      if |name| >= MAX_KEY_LENGTH {
        return Exit(Threw), members;
      }
      if features.rejectDupKeys && HasKey(CurrentValue().nodes, Name(name)) {
        var _ := AddErrorAndRecover(DuplicateKey, token, Kind.ObjectEnd);
        return Exit(Returned(false)), members;
      }
      turn, members' := ReadMemberValue(name, root0, members);
    }

    /** A turn of `readObject`, from the colon on. */
    method ReadMemberValue(name: Text, ghost root0: Value, ghost members: seq<Node>)
      returns (turn: Turn, ghost members': seq<Node>)
      requires Ready() && Resolves(root0, Top()) && root == Store(root0, Top(), Obj(members))
      modifies this`current, this`nodes, this`root, this`errors
      ensures !(turn == Exit(Threw)) ==> nodes == old(nodes)
      ensures turn == NextTurn ==> MemberRead(root0, members', old(current), old(errors))
      ensures var r := MemberValue(features, lib, doc, old(current), |old(nodes)|, members, name);
              match turn
              case NextTurn => r == Parsing.ReadMembers(features, lib, doc, current, |nodes|, members', name == [])
              case Exit(o) =>
                if r.Thrown? then o == Threw else o != Threw && Matches(o, r, root0, old(Top()), old(errors))
      decreases |doc| - current, 2
    {
      hide Lexing.ReadToken, Parsing.ReadValue, Parsing.ReadMembers, AfterMember, Recover, Store, Resolves;
      hide At, Put, Lookup;
      members' := members;
      StoreThenAt(root0, Top(), Obj(members));
      var colon, good := ReadToken();
      if !good || colon.kind != MemberSeparator {
        var _ := AddErrorAndRecover(MissingColon, colon, Kind.ObjectEnd);
        return Exit(Returned(false)), members;
      }
      ghost var r := Parsing.ReadValue(features, lib, doc, current, |nodes| + 1, Lookup(members, Name(name)));
      var o := ReadChild(Name(name), root0, Obj(members));
      if o == Threw {
        return Exit(Threw), members;
      }
      members' := Put(members, Name(name), r.value);
      StoreThenAt(root0, Top(), Obj(members'));
      turn := FinishMember(o.ok, name == [], root0, members', old(errors), r);
    }

    /** After a turn that goes on: the state of the loop of `readObject`. */
    ghost predicate MemberRead(root0: Value, members: seq<Node>, before: nat, errors0: seq<Error>)
      reads this
    {
      Ready() && Resolves(root0, Top()) && root == Store(root0, Top(), Obj(members)) && before < current
          && errors == errors0
    }

    /** The end of a turn of `readObject`, after the member's value. */
    method FinishMember(ok: bool, ghost unnamed: bool, ghost root0: Value, ghost members: seq<Node>,
                        ghost errors0: seq<Error>, ghost value: Read)
      returns (turn: Turn)
      requires Ready() && Resolves(root0, Top()) && root == Store(root0, Top(), Obj(members))
      requires value.Read? && value.ok == ok && value.pos == current && (ok <==> value.errors == [])
               && errors == errors0 + value.errors
      modifies this`current, this`errors
      ensures turn == NextTurn ==> MemberRead(root0, members, old(current), errors0)
      ensures turn != Exit(Threw)
      ensures var r := AfterMember(features, lib, doc, |nodes|, members, unnamed, value);
              match turn
              case NextTurn => r == Parsing.ReadMembers(features, lib, doc, current, |nodes|, members, unnamed)
              case Exit(o) => r.Read? && Matches(o, r, root0, old(Top()), errors0)
    {
      hide Lexing.ReadToken, NonComment, Parsing.ReadMembers, Recover, Store, Resolves, At;
      if !ok {
        var _ := RecoverFromError(Kind.ObjectEnd);
        return Exit(Returned(false));
      }
      var comma, good := ReadToken();
      if !good || (comma.kind != Kind.ObjectEnd && comma.kind != ArraySeparator && comma.kind != CommentToken) {
        var _ := AddErrorAndRecover(MissingCommaOrBrace, comma, Kind.ObjectEnd);
        return Exit(Returned(false));
      }
      if comma.kind == CommentToken {
        comma, good := ReadNonComment();
      }
      if comma.kind == Kind.ObjectEnd {
        return Exit(Returned(true));
      }
      return NextTurn;
    }

    // ---------- Arrays ----------

    /** `readArray`, after the opening bracket. */
    method ReadArray() returns (o: Outcome)
      requires Ready()
      modifies this`current, this`nodes, this`root, this`errors
      ensures var r := Parsing.ReadElements(features, lib, doc, old(current), |old(nodes)|, [], 0);
              if r.Thrown? then o == Threw else nodes == old(nodes) && Matches(o, r, old(root), old(Top()), old(errors))
      decreases |doc| - current, 3
    {
      hide Lexing.ReadToken, Lexing.SkipSpaces, Parsing.ReadElements, Element, Store, Resolves, At;
      ghost var items := [];
      SetCurrent(Arr([]));
      var index := 0;
      while true
        invariant Ready() && nodes == old(nodes) && errors == old(errors) && old(current) <= current
        invariant root == Store(old(root), Top(), Arr(items))
        invariant Parsing.ReadElements(features, lib, doc, old(current), |nodes|, [], 0)
               == Parsing.ReadElements(features, lib, doc, current, |nodes|, items, index)
        decreases |doc| - current
      {
        ElementsTurn(features, lib, doc, current, |nodes|, items, index);
        SkipSpaces();
        if current != |doc| && doc[current] == RBRACKET
           && (index == 0 || (features.allowTrailingCommas && !features.allowDroppedNullPlaceholders)) {
          ClosingBracket(features, doc, current);
          var _, _ := ReadToken();
          return Returned(true);
        }
        var turn;
        turn, items := ReadElement(index, old(root), items);
        if turn.Exit? {
          return turn.outcome;
        }
        index := index + 1;
      }
    }

    /** A turn of `readArray`, from the element on. */
    method ReadElement(index: nat, ghost root0: Value, ghost items: seq<Node>)
      returns (turn: Turn, ghost items': seq<Node>)
      requires Ready() && Resolves(root0, Top()) && root == Store(root0, Top(), Arr(items))
      modifies this`current, this`nodes, this`root, this`errors
      ensures !(turn == Exit(Threw)) ==> nodes == old(nodes)
      ensures turn == NextTurn ==>
                Ready() && root == Store(root0, Top(), Arr(items')) && old(current) < current && errors == old(errors)
      ensures var r := Element(features, lib, doc, old(current), |old(nodes)|, items, index);
              match turn
              case NextTurn => r == Parsing.ReadElements(features, lib, doc, current, |nodes|, items', index + 1)
              case Exit(o) =>
                if r.Thrown? then o == Threw else o != Threw && Matches(o, r, root0, old(Top()), old(errors))
      decreases |doc| - current, 2
    {
      hide Parsing.ReadValue, Parsing.ReadElements, AfterElement, Recover, Store, Resolves, At, Put, Lookup;
      items' := items;
      StoreThenAt(root0, Top(), Arr(items));
      ghost var r := Parsing.ReadValue(features, lib, doc, current, |nodes| + 1, Lookup(items, Index(index)));
      var o := ReadChild(Index(index), root0, Arr(items));
      if o == Threw {
        return Exit(Threw), items;
      }
      items' := Put(items, Index(index), r.value);
      StoreThenAt(root0, Top(), Arr(items'));
      turn := FinishElement(o.ok, index, root0, items', old(errors), r);
    }

    /** The end of a turn of `readArray`, after the element. */
    method FinishElement(ok: bool, ghost index: nat, ghost root0: Value, ghost items: seq<Node>,
                         ghost errors0: seq<Error>, ghost value: Read)
      returns (turn: Turn)
      requires Ready() && Resolves(root0, Top()) && root == Store(root0, Top(), Arr(items))
      requires value.Read? && value.ok == ok && value.pos == current && (ok <==> value.errors == [])
               && errors == errors0 + value.errors
      modifies this`current, this`errors
      ensures turn == NextTurn ==> Ready() && old(current) < current && errors == errors0
      ensures turn != Exit(Threw)
      ensures var r := AfterElement(features, lib, doc, |nodes|, items, index, value);
              match turn
              case NextTurn => r == Parsing.ReadElements(features, lib, doc, current, |nodes|, items, index + 1)
              case Exit(o) => r.Read? && Matches(o, r, root0, old(Top()), errors0)
    {
      hide Lexing.ReadToken, NonComment, Parsing.ReadElements, Recover, Store, Resolves, At;
      if !ok {
        var _ := RecoverFromError(Kind.ArrayEnd);
        return Exit(Returned(false));
      }
      var token, good := ReadNonComment();
      if !good || (token.kind != ArraySeparator && token.kind != Kind.ArrayEnd) {
        var _ := AddErrorAndRecover(MissingCommaOrBracket, token, Kind.ArrayEnd);
        return Exit(Returned(false));
      }
      if token.kind == Kind.ArrayEnd {
        return Exit(Returned(true));
      }
      return NextTurn;
    }

    // ---------- Documents ----------

    /** `parse`: the document is read into `root`; the stack and the errors of an earlier
        document are dropped. */
    method Parse(document: Text, root: Value) returns (o: Outcome)
      modifies this
      ensures doc == document
      ensures match Parsing.Parse(features, lib, document, root)
              case Thrown => o == Threw
              case Read(ok, value, pos, added) =>
                o == Returned(ok) && this.root == value && current == pos && errors == added && nodes == []
    {
      hide Parsing.ReadValue, Finish, Lexing.SkipCommentTokens;
      doc := document;
      errors := [];
      this.root := root;
      nodes := [[]];
      current := if features.skipBom && |doc| >= 3 && doc[0] == 0xEF && doc[1] == 0xBB && doc[2] == 0xBF then 3 else 0;
      o := ReadValue();
      if o == Threw {
        return;
      }
      nodes := nodes[..|nodes| - 1];
      o := CheckEnd(o.ok, Parsing.ReadValue(features, lib, document, Begin(features, document), 1, root));
    }

    /** The checks of `parse` after the root value. */
    method CheckEnd(ok: bool, ghost value: Read) returns (o: Outcome)
      requires value == Read(ok, root, current, errors) && current <= |doc| && (ok <==> errors == [])
      modifies this`current, this`errors
      ensures var r := Finish(features, doc, value);
              o == Returned(r.ok) && root == r.value && current == r.pos && errors == r.errors
    {
      hide Lexing.SkipCommentTokens;
      var token := SkipCommentTokens();
      if features.failIfExtra && token.kind != EndOfStream {
        var _ := AddError(ExtraText, token);
        return Returned(false);
      }
      if features.strictRoot && !IsContainer(root) {
        var _ := AddError(RootNotContainer, Token(ErrorToken, 0, |doc|));
        return Returned(false);
      }
      return Returned(ok);
    }
  }

  /** The value that a token stands for by its kind alone. */
  function PlainValue(kind: Kind): Option<Value> {
    match kind
    case TrueToken => Some(Bool(true))
    case FalseToken => Some(Bool(false))
    case NullToken => Some(Null)
    case NaNToken => Some(Real(NaN))
    case PosInfToken => Some(Real(PosInf))
    case NegInfToken => Some(Real(NegInf))
    case _ => None
  }

  lemma PlainScalar(f: Features, lib: Library, s: Text, t: Token, current: Value)
    requires t.start <= t.end <= |s| && (t.start == t.end ==> t.kind == EndOfStream)
    requires t.kind != NumberToken && t.kind != StringToken
    ensures ReadScalar(f, lib, s, t, current) ==
      if PlainValue(t.kind).Some? then Read(true, PlainValue(t.kind).value, t.end, [])
      else if (t.kind == ArraySeparator || t.kind == ObjectEnd || t.kind == ArrayEnd)
           && f.allowDroppedNullPlaceholders then
        Read(true, Null, t.end - 1, [])
      else Read(false, current, t.end, [Error(ValueExpected, t)])
  {
    hide NumberOf, Unescape;
  }

  lemma KeepCurrent(root: Value, path: Path)
    requires Resolves(root, path)
    ensures Store(root, path, At(root, path)) == root
    decreases |path|
  {
    if path != [] {
      KeepCurrent(Lookup(root.nodes, path[0]), path[1..]);
    }
  }

  /** What `readObject` makes of a member from its colon on. */
  ghost function MemberValue(f: Features, lib: Library, s: Text, p: nat, depth: nat, nodes: seq<Node>,
                             name: Text): (r: Read)
    requires p <= |s|
  {
    var colon := Lexing.ReadToken(f, s, p);
    if colon.kind != MemberSeparator then Fail(f, s, Obj(nodes), MissingColon, colon, Kind.ObjectEnd)
    else
      var r := Parsing.ReadValue(f, lib, s, colon.end, depth + 1, Lookup(nodes, Name(name)));
      if r.Thrown? then Thrown else AfterMember(f, lib, s, depth, Put(nodes, Name(name), r.value), name == [], r)
  }

  lemma NamedMemberIs(f: Features, lib: Library, s: Text, t: Token, depth: nat, nodes: seq<Node>, name: Text)
    requires t.end <= |s|
    ensures NamedMember(f, lib, s, t, depth, nodes, name) ==
      if |name| >= MAX_KEY_LENGTH then Thrown
      else if f.rejectDupKeys && HasKey(nodes, Name(name)) then Fail(f, s, Obj(nodes), DuplicateKey, t, Kind.ObjectEnd)
      else MemberValue(f, lib, s, t.end, depth, nodes, name)
  {
    hide Lexing.ReadToken, Parsing.ReadValue, AfterMember, Put, Lookup, HasKey, Fail;
  }

  /** What `readArray` makes of an element at `q` and of what follows it. */
  ghost function Element(f: Features, lib: Library, s: Text, q: nat, depth: nat, nodes: seq<Node>,
                         index: nat): (r: Read)
    requires q <= |s|
  {
    var r := Parsing.ReadValue(f, lib, s, q, depth + 1, Lookup(nodes, Index(index)));
    if r.Thrown? then Thrown else AfterElement(f, lib, s, depth, Put(nodes, Index(index), r.value), index, r)
  }

  /** What a turn of `readArray` starts with. */
  lemma ElementsTurn(f: Features, lib: Library, s: Text, p: nat, depth: nat, nodes: seq<Node>, index: nat)
    requires p <= |s|
    ensures var q := Lexing.SkipSpaces(s, p);
            Parsing.ReadElements(f, lib, s, p, depth, nodes, index) ==
              if q < |s| && s[q] == RBRACKET
                 && (index == 0 || (f.allowTrailingCommas && !f.allowDroppedNullPlaceholders)) then
                Read(true, Arr(nodes), q + 1, [])
              else Element(f, lib, s, q, depth, nodes, index)
  {
    hide Parsing.ReadValue, AfterElement, Put, Lookup, Lexing.SkipSpaces;
  }

  lemma ClosingBracket(f: Features, s: Text, q: nat)
    requires q < |s| && s[q] == RBRACKET
    ensures Lexing.ReadToken(f, s, q).end == q + 1
  {
  }

  lemma NamesConsume(f: Features, lib: Library, s: Text, t: Token)
    requires t.start <= t.end <= |s| && (t.kind == StringToken ==> t.start + 2 <= t.end)
    requires t.start == t.end ==> t.kind == EndOfStream
    ensures !ReadName(f, lib, s, t).NoName? ==> t.start < t.end
  {
  }

  /** What a turn of `readObject` starts with. */
  lemma MembersTurn(f: Features, lib: Library, s: Text, p: nat, depth: nat, nodes: seq<Node>, unnamed: bool)
    requires p <= |s|
    ensures var t := NonComment(f, s, p);
            Parsing.ReadMembers(f, lib, s, p, depth, nodes, unnamed) ==
              if t.kind == Kind.ObjectEnd && (unnamed || f.allowTrailingCommas) then Read(true, Obj(nodes), t.end, [])
              else match ReadName(f, lib, s, t)
                   case NoName => Fail(f, s, Obj(nodes), MissingBraceOrName, t, Kind.ObjectEnd)
                   case BadName(message) => Fail(f, s, Obj(nodes), message, t, Kind.ObjectEnd)
                   case MemberName(name) => NamedMember(f, lib, s, t, depth, nodes, name)
  {
  }

  lemma HexReadsFour(b: Text)
    ensures ReadHex4(b).Hex? ==> |b| >= 4
  {
  }

  lemma NothingToPrepend(d: Decoded)
    ensures Prepend([], d) == d
  {
  }

  lemma UnescapeNothing(b: Text)
    requires b == []
    ensures Unescape(b) == Decoded([])
  {
  }

  lemma PrependTwice(t: Text, u: Text, d: Decoded)
    ensures Prepend(t, Prepend(u, d)) == Prepend(t + u, d)
  {
  }

  /** One turn of the unescaping loop, on what is left of `b`. */
  lemma UnescapeStep(b: Text, k: nat, decoded: Text)
    requires k < |b|
    ensures Prepend(decoded, Unescape(b[k..])) ==
      if b[k] == QUOTE then Decoded(decoded)
      else if b[k] != BACKSLASH then Prepend(decoded + [b[k]], Unescape(b[k + 1..]))
      else if k + 1 == |b| then Malformed(EmptyEscape)
      else if Unescaped(b[k + 1]) >= 0 then Prepend(decoded + [Unescaped(b[k + 1])], Unescape(b[k + 2..]))
      else if b[k + 1] != 0x75 then Malformed(BadEscape)
      else
        var r := ReadCodePoint(b[k + 2..]);
        if r.CodePointError? then Malformed(r.error)
        else Prepend(decoded + CodePointToUTF8(r.unicode), Unescape(b[k + 2 + r.width..]))
  {
    hide ReadCodePoint, CodePointToUTF8;
    var t := b[k..];
    assert t[1..] == b[k + 1..];
    if b[k] != QUOTE && b[k] != BACKSLASH {
      PrependTwice(decoded, [b[k]], Unescape(b[k + 1..]));
    } else if b[k] == BACKSLASH && k + 1 < |b| {
      assert t[2..] == b[k + 2..];
      if Unescaped(b[k + 1]) >= 0 {
        PrependTwice(decoded, [Unescaped(b[k + 1])], Unescape(b[k + 2..]));
      } else if b[k + 1] == 0x75 && ReadCodePoint(t[2..]).CodePoint? {
        var r := ReadCodePoint(t[2..]);
        assert t[2 + r.width..] == b[k + 2 + r.width..];
        PrependTwice(decoded, CodePointToUTF8(r.unicode), Unescape(b[k + 2 + r.width..]));
      }
    }
  }
}
