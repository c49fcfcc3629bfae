/** The tokens of `OurReader`: what `readToken` yields at a position of a document. */
module Lexing {
  import opened Chars
  import opened Quoting

  datatype Features = Features(
    allowComments: bool,
    allowTrailingCommas: bool,
    strictRoot: bool,
    allowDroppedNullPlaceholders: bool,
    allowNumericKeys: bool,
    allowSingleQuotes: bool,
    failIfExtra: bool,
    rejectDupKeys: bool,
    allowSpecialFloats: bool,
    skipBom: bool,
    stackLimit: nat)

  datatype Kind =
    | EndOfStream | ObjectBegin | ObjectEnd | ArrayBegin | ArrayEnd | StringToken | NumberToken
    | TrueToken | FalseToken | NullToken | NaNToken | PosInfToken | NegInfToken
    | ArraySeparator | MemberSeparator | CommentToken | ErrorToken

  /** A token covers `start..end` of the document, and leaves the cursor at `end`. */
  datatype Token = Token(kind: Kind, start: nat, end: nat)

  function SkipSpaces(s: Text, p: nat): (q: nat)
    requires p <= |s|
    ensures p <= q <= |s|
    ensures q < |s| ==> !IsSpace(s[q])
    ensures forall i | p <= i < q :: IsSpace(s[i])
    decreases |s| - p
  {
    if p < |s| && IsSpace(s[p]) then SkipSpaces(s, p + 1) else p
  }

  function SkipDigits(s: Text, p: nat): (q: nat)
    requires p <= |s|
    ensures p <= q <= |s|
    ensures q < |s| ==> !IsDigit(s[q])
    ensures forall i | p <= i < q :: IsDigit(s[i])
    decreases |s| - p
  {
    if p < |s| && IsDigit(s[p]) then SkipDigits(s, p + 1) else p
  }

  function FractionEnd(s: Text, a: nat): (b: nat)
    requires a <= |s|
    ensures a <= b <= |s|
  {
    if a < |s| && s[a] == DOT then SkipDigits(s, a + 1) else a
  }

  function ExponentEnd(s: Text, b: nat): (e: nat)
    requires b <= |s|
    ensures b <= e <= |s|
  {
    if b < |s| && (s[b] == 0x65 || s[b] == 0x45) then
      SkipDigits(s, if b + 1 < |s| && (s[b + 1] == PLUS || s[b + 1] == MINUS) then b + 2 else b + 1)
    else b
  }

  /** `readNumber`: the end of a number whose integral digits start at `p`. */
  function NumberEnd(s: Text, p: nat): (q: nat)
    requires p <= |s|
    ensures p <= q <= |s|
  {
    ExponentEnd(s, FractionEnd(s, SkipDigits(s, p)))
  }

  /** `readCStyleComment`, from the position after the opening characters. */
  function ReadCStyleComment(s: Text, p: nat): (r: Scan)
    requires p <= |s|
    ensures p <= r.end <= |s|
    decreases |s| - p
  {
    if p + 1 < |s| then
      if s[p] == STAR && s[p + 1] == SLASH then Scan(true, p + 2) else ReadCStyleComment(s, p + 1)
    else if p < |s| then Scan(s[p] == SLASH, p + 1)
    else Scan(false, p)
  }

  /** `readCppStyleComment`: up to and including the end of the line. */
  function CppCommentEnd(s: Text, p: nat): (q: nat)
    requires p <= |s|
    ensures p <= q <= |s|
    decreases |s| - p
  {
    if p == |s| then p
    else if s[p] == LF then p + 1
    else if s[p] == CR then if p + 1 < |s| && s[p + 1] == LF then p + 2 else p + 1
    else CppCommentEnd(s, p + 1)
  }

  /** `readComment`, from the position after the slash. */
  function ReadComment(s: Text, p: nat): (r: Scan)
    requires p <= |s|
    ensures p <= r.end <= |s|
  {
    if p == |s| then Scan(false, p)
    else if s[p] == STAR then ReadCStyleComment(s, p + 1)
    else if s[p] == SLASH then Scan(true, CppCommentEnd(s, p + 1))
    else Scan(false, p + 1)
  }

  // "nfinity", "aN", "rue", "alse" and "ull"
  const NFINITY: Text := [0x6E, 0x66, 0x69, 0x6E, 0x69, 0x74, 0x79]
  const AN: Text := [0x61, 0x4E]
  const RUE: Text := [0x72, 0x75, 0x65]
  const ALSE: Text := [0x61, 0x6C, 0x73, 0x65]
  const ULL: Text := [0x75, 0x6C, 0x6C]

  /** A token of kind `kind` if `pattern` follows at `p`, and an error token otherwise. */
  function Keyword(s: Text, start: nat, p: nat, pattern: Text, kind: Kind): Token
    requires start < p <= |s|
  {
    if StandsAt(s, p, pattern) then Token(kind, start, p + |pattern|) else Token(ErrorToken, start, p)
  }

  /** After a sign: infinity if an `I` follows, a number otherwise. */
  function SignedToken(f: Features, s: Text, q: nat, infinity: Kind): Token
    requires q < |s|
  {
    if q + 1 < |s| && s[q + 1] == 0x49 then
      if f.allowSpecialFloats then Keyword(s, q, q + 2, NFINITY, infinity) else Token(ErrorToken, q, q + 2)
    else Token(NumberToken, q, NumberEnd(s, q + 1))
  }

  function OfScan(r: Scan, start: nat, kind: Kind): Token {
    Token(if r.ok then kind else ErrorToken, start, r.end)
  }

  /** The token that starts exactly at `q`. */
  function TokenAt(f: Features, s: Text, q: nat): (t: Token)
    requires q < |s|
    ensures t.start == q < t.end <= |s|
    ensures t.kind == StringToken ==> t.start + 2 <= t.end
  {
    var c := s[q];
    if c == LBRACE then Token(ObjectBegin, q, q + 1)
    else if c == RBRACE then Token(ObjectEnd, q, q + 1)
    else if c == LBRACKET then Token(ArrayBegin, q, q + 1)
    else if c == RBRACKET then Token(ArrayEnd, q, q + 1)
    else if c == QUOTE then OfScan(ScanString(s, q + 1, QUOTE), q, StringToken)
    else if c == APOSTROPHE then
      if f.allowSingleQuotes then OfScan(ScanString(s, q + 1, APOSTROPHE), q, StringToken)
      else Token(ErrorToken, q, q + 1)
    else if c == SLASH then OfScan(ReadComment(s, q + 1), q, CommentToken)
    else if IsDigit(c) then Token(NumberToken, q, NumberEnd(s, q + 1))
    else if c == MINUS then SignedToken(f, s, q, NegInfToken)
    else if c == PLUS then SignedToken(f, s, q, PosInfToken)
    else if c == 0x74 then Keyword(s, q, q + 1, RUE, TrueToken)
    else if c == 0x66 then Keyword(s, q, q + 1, ALSE, FalseToken)
    else if c == 0x6E then Keyword(s, q, q + 1, ULL, NullToken)
    else if c == 0x4E && f.allowSpecialFloats then Keyword(s, q, q + 1, AN, NaNToken)
    else if c == 0x49 && f.allowSpecialFloats then Keyword(s, q, q + 1, NFINITY, PosInfToken)
    else if c == COMMA then Token(ArraySeparator, q, q + 1)
    else if c == COLON then Token(MemberSeparator, q, q + 1)
    else if c == NUL then Token(EndOfStream, q, q + 1)
    else Token(ErrorToken, q, q + 1)
  }

  /** `readToken`: it returns true exactly when the token is no error token.  A NUL byte
      reads as the end of the stream but is consumed. */
  function ReadToken(f: Features, s: Text, p: nat): (t: Token)
    requires p <= |s|
    ensures p <= t.start <= t.end <= |s|
    ensures t.start == t.end ==> t.kind == EndOfStream && t.end == |s|
    ensures t.kind == StringToken ==> t.start + 2 <= t.end
  {
    var q := SkipSpaces(s, p);
    if q == |s| then Token(EndOfStream, q, q) else TokenAt(f, s, q)
  }

  /** The first token at or after `p` that is no comment. */
  function NonComment(f: Features, s: Text, p: nat): (t: Token)
    requires p <= |s|
    ensures p <= t.start <= t.end <= |s| && t.kind != CommentToken
    ensures t.start == t.end ==> t.kind == EndOfStream && t.end == |s|
    ensures t.kind == StringToken ==> t.start + 2 <= t.end
    decreases |s| - p
  {
    var t := ReadToken(f, s, p);
    if t.kind == CommentToken then NonComment(f, s, t.end) else t
  }

  /** `skipCommentTokens`: comments are passed over only where the features allow them. */
  function SkipCommentTokens(f: Features, s: Text, p: nat): (t: Token)
    requires p <= |s|
    ensures p <= t.start <= t.end <= |s|
    ensures t.start == t.end ==> t.kind == EndOfStream && t.end == |s|
    ensures t.kind == StringToken ==> t.start + 2 <= t.end
  {
    if f.allowComments then NonComment(f, s, p) else ReadToken(f, s, p)
  }

  // ---------- What the tokens are ----------

  /** The punctuation, and the NUL byte that ends the document. */
  lemma PunctuationTokens(f: Features, s: Text, q: nat)
    requires q < |s|
    ensures var t := TokenAt(f, s, q);
            && (t.kind == ObjectBegin <==> s[q] == '{' as int) && (t.kind == ObjectEnd <==> s[q] == '}' as int)
            && (t.kind == ArrayBegin <==> s[q] == '[' as int) && (t.kind == ArrayEnd <==> s[q] == ']' as int)
            && (t.kind == ArraySeparator <==> s[q] == ',' as int) && (t.kind == MemberSeparator <==> s[q] == ':' as int)
            && (t.kind == EndOfStream <==> s[q] == 0)
            && (s[q] in Ascii("{}[],:") + [0] ==> t.end == q + 1)
  {
    hide ReadComment, ScanString, NumberEnd, StandsAt;
    var p := Ascii("{}[],:") + [0];
  }

  /** The keywords, in full. */
  lemma KeywordTokens(f: Features, s: Text, q: nat)
    requires q < |s|
    ensures var t := TokenAt(f, s, q);
            && (t.kind == TrueToken <==> StandsAt(s, q, Ascii("true"))) && (t.kind == TrueToken ==> t.end == q + 4)
            && (t.kind == FalseToken <==> StandsAt(s, q, Ascii("false"))) && (t.kind == FalseToken ==> t.end == q + 5)
            && (t.kind == NullToken <==> StandsAt(s, q, Ascii("null"))) && (t.kind == NullToken ==> t.end == q + 4)
  {
    hide ReadComment, ScanString, NumberEnd, StandsAt, Ascii;
    KeywordStands(s, q, 0x74, RUE, Ascii("true"));
    KeywordStands(s, q, 0x66, ALSE, Ascii("false"));
    KeywordStands(s, q, 0x6E, ULL, Ascii("null"));
    KeywordTexts();
  }

  lemma KeywordTexts()
    ensures Ascii("true") == [0x74] + RUE && Ascii("false") == [0x66] + ALSE && Ascii("null") == [0x6E] + ULL
    ensures Ascii("NaN") == [0x4E] + AN && Ascii("Infinity") == [0x49] + NFINITY
    ensures Ascii("-Infinity") == [MINUS, 0x49] + NFINITY && Ascii("+Infinity") == [PLUS, 0x49] + NFINITY
  {
  }

  lemma KeywordStands(s: Text, q: nat, first: Byte, others: Text, whole: Text)
    requires q < |s|
    ensures whole == [first] + others ==> (StandsAt(s, q, whole) <==> s[q] == first && StandsAt(s, q + 1, others))
  {
    if whole == [first] + others && q + |whole| <= |s| {
      assert s[q..q + |whole|] == [s[q]] + s[q + 1..q + 1 + |others|];
      assert whole[1..] == others;
    }
  }

  /** The special floats, where the features allow them. */
  lemma SpecialTokens(f: Features, s: Text, q: nat)
    requires q < |s|
    ensures var t := TokenAt(f, s, q);
            && (t.kind == NaNToken <==> f.allowSpecialFloats && StandsAt(s, q, Ascii("NaN")))
            && (t.kind == NegInfToken <==> f.allowSpecialFloats && StandsAt(s, q, Ascii("-Infinity")))
            && (t.kind == PosInfToken <==>
                  f.allowSpecialFloats && (StandsAt(s, q, Ascii("Infinity")) || StandsAt(s, q, Ascii("+Infinity"))))
            && (t.kind == NaNToken ==> t.end == q + 3) && (t.kind == NegInfToken ==> t.end == q + 9)
            && (t.kind == PosInfToken ==> t.end == if s[q] == PLUS then q + 9 else q + 8)
  {
    hide ReadComment, ScanString, NumberEnd, StandsAt, Ascii;
    KeywordTexts();
    KeywordStands(s, q, 0x4E, AN, Ascii("NaN"));
    KeywordStands(s, q, 0x49, NFINITY, Ascii("Infinity"));
    SignedStands(s, q, MINUS, Ascii("-Infinity"));
    SignedStands(s, q, PLUS, Ascii("+Infinity"));
  }

  lemma SignedStands(s: Text, q: nat, sign: Byte, whole: Text)
    requires q < |s|
    ensures whole == [sign, 0x49] + NFINITY ==>
              (StandsAt(s, q, whole) <==>
                 s[q] == sign && q + 1 < |s| && s[q + 1] == 0x49 && StandsAt(s, q + 2, NFINITY))
  {
    if whole == [sign, 0x49] + NFINITY {
      assert whole == [sign] + ([0x49] + NFINITY);
      KeywordStands(s, q, sign, [0x49] + NFINITY, whole);
      if q + 1 < |s| { KeywordStands(s, q + 1, 0x49, NFINITY, [0x49] + NFINITY); }
    }
  }

  /** A number begins with a digit, or with a sign that no `I` follows. */
  lemma NumberTokens(f: Features, s: Text, q: nat)
    requires q < |s|
    ensures var t := TokenAt(f, s, q);
            && (t.kind == NumberToken <==>
                  IsDigit(s[q]) || (s[q] in Ascii("+-") && (q + 1 < |s| ==> s[q + 1] != 'I' as int)))
            && (t.kind == NumberToken ==> t.end == NumberEnd(s, q + 1))
  {
    hide ReadComment, ScanString, NumberEnd, StandsAt;
    assert Ascii("+-") == [PLUS, MINUS];
  }

  /** Strings, in single quotes where the features allow them, and comments. */
  lemma StringAndCommentTokens(f: Features, s: Text, q: nat)
    requires q < |s|
    ensures var t := TokenAt(f, s, q);
            && (t.kind == StringToken <==>
                  (s[q] == 0x22 || (s[q] == 0x27 && f.allowSingleQuotes)) && ScanString(s, q + 1, s[q]).ok)
            && (t.kind == StringToken ==> t.end == ScanString(s, q + 1, s[q]).end)
            && (t.kind == CommentToken <==> s[q] == '/' as int && ReadComment(s, q + 1).ok)
            && (t.kind == CommentToken ==> t.end == ReadComment(s, q + 1).end)
  {
    hide ReadComment, ScanString, NumberEnd, StandsAt;
  }

  /** Where a token that is none ends: at the end of the document if a string is not closed, behind
      what was taken for a comment, behind the `I` after a sign, and behind its first byte otherwise. */
  lemma ErrorTokens(f: Features, s: Text, q: nat)
    requires q < |s| && TokenAt(f, s, q).kind == ErrorToken
    ensures TokenAt(f, s, q).end ==
              if s[q] == 0x22 || (s[q] == 0x27 && f.allowSingleQuotes) then |s|
              else if s[q] == '/' as int then ReadComment(s, q + 1).end
              else if s[q] in Ascii("+-") then q + 2
              else q + 1
  {
    hide ReadComment, NumberEnd, StandsAt;
    assert Ascii("+-") == [PLUS, MINUS];
  }

  // ---------- Comments ----------

  /** A comment of two bytes `//` ends behind the first line end, which may be a line feed, a carriage
      return, or both in this order; or with the document. */
  lemma {:induction false} CppCommentIs(s: Text, p: nat, e: nat)
    requires p <= e <= |s| && forall i | p <= i < e :: s[i] != LF && s[i] != CR
    requires e < |s| ==> s[e] == LF || s[e] == CR
    ensures CppCommentEnd(s, p)
         == if e == |s| then e else if s[e] == CR && e + 1 < |s| && s[e + 1] == LF then e + 2 else e + 1
    decreases e - p
  {
    if p < e { CppCommentIs(s, p + 1, e); }
  }

  /** The first star with a slash behind it. */
  predicate ClosesAt(s: Text, p: nat, e: nat) {
    && p <= e && e + 1 < |s| && s[e] == STAR && s[e + 1] == SLASH
    && forall i | p <= i < e :: !(s[i] == STAR && s[i + 1] == SLASH)
  }

  /** A comment in stars and slashes ends behind the first closing mark. */
  lemma {:induction false} CStyleCommentIs(s: Text, p: nat, e: nat)
    requires ClosesAt(s, p, e)
    ensures ReadCStyleComment(s, p) == Scan(true, e + 2)
    decreases e - p
  {
    if p < e { CStyleCommentIs(s, p + 1, e); }
  }

  /** Without a closing mark it takes the whole document, and is accepted all the same if the
      document ends in a slash. */
  lemma {:induction false} UnclosedComment(s: Text, p: nat)
    requires p < |s| && forall i | p <= i < |s| - 1 :: !(s[i] == STAR && s[i + 1] == SLASH)
    ensures ReadCStyleComment(s, p) == Scan(s[|s| - 1] == SLASH, |s|)
    decreases |s| - p
  {
    if p + 1 < |s| { UnclosedComment(s, p + 1); }
  }

  /** What follows the first slash. */
  lemma CommentIs(s: Text, p: nat)
    requires p <= |s|
    ensures p < |s| && s[p] == '*' as int ==> ReadComment(s, p) == ReadCStyleComment(s, p + 1)
    ensures p < |s| && s[p] == '/' as int ==> ReadComment(s, p) == Scan(true, CppCommentEnd(s, p + 1))
    ensures p < |s| && s[p] !in Ascii("*/") ==> ReadComment(s, p) == Scan(false, p + 1)
    ensures p == |s| ==> !ReadComment(s, p).ok
  {
    hide ReadCStyleComment, CppCommentEnd;
    assert Ascii("*/") == [STAR, SLASH];
  }
}
