/** Reading what has been written: any layout of the tokens of a document is parsed with
    exactly the outcome that module Outcomes computes from the document. */
module RoundTrip {
  import opened Chars
  import opened Decimal
  import opened Quoting
  import opened Values
  import opened Documents
  import opened Lexing
  import opened Parsing
  import opened Layout
  import opened Outcomes

  /** The text of a number: whole digits, and what may follow them. */
  datatype Numeral = Numeral(minus: bool, whole: Text, fraction: Option<Text>, exponent: Option<Exponent>)

  /** An exponent: `e` or `E`, a sign or none, and digits. */
  datatype Exponent = Exponent(letter: Byte, sign: Text, digits: Text)

  predicate GoodNumeral(n: Numeral) {
    && n.whole != [] && AllDigits(n.whole)
    && (n.fraction.Some? ==> AllDigits(n.fraction.value))
    && (n.exponent.Some? ==> GoodExponent(n.exponent.value))
  }

  predicate GoodExponent(e: Exponent) {
    e.letter in {0x45, 0x65} && e.sign in {[], [PLUS], [MINUS]} && AllDigits(e.digits)
  }

  function FractionText(f: Option<Text>): Text {
    if f.Some? then [DOT] + f.value else []
  }

  function ExponentText(e: Option<Exponent>): Text {
    if e.Some? then [e.value.letter] + e.value.sign + e.value.digits else []
  }

  function NumeralText(n: Numeral): Text {
    (if n.minus then [MINUS] else []) + n.whole + FractionText(n.fraction) + ExponentText(n.exponent)
  }

  /** An optional minus sign, digits, an optional point with digits, and an optional exponent. */
  ghost predicate NumberShape(t: Text) {
    exists n: Numeral :: GoodNumeral(n) && t == NumeralText(n)
  }

  /** What must be true of the library for a `double` to survive printing and reading. */
  ghost predicate ReadsBack(lib: Library, t: Text, d: Double) {
    NumberShape(t) && DecodeInteger(t) == None && lib.parseReal(t) == Some(d)
  }

  /** Documents that a `Value` can hold, with reals that the library reads back. */
  ghost predicate Writable(lib: Library, j: Json, w: Style) {
    match j
    case JNumber(n) => MIN_INT64 <= n <= MAX_UINT64
    case JReal(d) => ReadsBack(lib, w.realText(d), d)
    case JArray(items) => forall i | 0 <= i < |items| :: Writable(lib, items[i], w)
    case JObject(members) => forall i | 0 <= i < |members| :: Writable(lib, members[i].value, w)
    case _ => true
  }

  // ---------- One token ----------

  /** The document ends here: nothing follows, or a NUL byte with any bytes behind it. */
  predicate Ends(rest: seq<Text>) {
    rest == [] || (rest[0] != [] && rest[0][0] == NUL)
  }

  /** What may follow a value: the end of the document, a comma or a closing bracket. */
  predicate Follow(rest: seq<Text>) {
    Ends(rest) || rest[0] in {[COMMA], [RBRACKET], [RBRACE]}
  }

  /** `readToken`, with or without passing over comments, yields `t`. */
  ghost predicate Yields(f: Features, s: Text, p: nat, t: Token)
    requires p <= |s|
  {
    ReadToken(f, s, p) == t && NonComment(f, s, p) == t && SkipCommentTokens(f, s, p) == t
  }

  function Punctuation(c: Byte): Kind {
    if c == LBRACE then ObjectBegin
    else if c == RBRACE then ObjectEnd
    else if c == LBRACKET then ArrayBegin
    else if c == RBRACKET then ArrayEnd
    else if c == COMMA then ArraySeparator
    else if c == COLON then MemberSeparator
    else ErrorToken
  }

  lemma ReadsPunctuation(f: Features, s: Text, p: nat, c: Byte, rest: seq<Text>)
    requires p <= |s| && Punctuation(c) != ErrorToken && Spaced([[c]] + rest, s, p)
    ensures var q := SkipSpaces(s, p);
            q < |s| && s[q] == c && Yields(f, s, p, Token(Punctuation(c), q, q + 1)) && Spaced(rest, s, q + 1)
  {
    var q := SkipSpaces(s, p);
    assert ([[c]] + rest)[1..] == rest;
    assert s[q] == s[q..q + 1][0];
  }

  lemma SliceOfSlice(s: Text, q: nat, t: Text, a: nat, b: nat)
    requires StandsAt(s, q, t) && a <= b <= |t|
    ensures s[q + a..q + b] == t[a..b]
  {
    forall i | 0 <= i < b - a ensures s[q + a..q + b][i] == t[a..b][i] {
      ByteWithin(s, q, t, a + i);
    }
  }

  lemma QuotedBody(s: Text, q: nat, text: Text, w: Style)
    requires StandsAt(s, q, Quoted(text, w.emitUTF8))
    ensures s[q + 1..q + |Quoted(text, w.emitUTF8)| - 1] == Escape(text, w.emitUTF8)
  {
    hide Escape, StandsAt;
    var quoted := Quoted(text, w.emitUTF8);
    SliceOfSlice(s, q, quoted, 1, |quoted| - 1);
    assert quoted[1..|quoted| - 1] == Escape(text, w.emitUTF8);
  }

  lemma YieldsString(f: Features, s: Text, p: nat, end: nat)
    requires p <= |s| && SkipSpaces(s, p) < |s| && s[SkipSpaces(s, p)] == QUOTE
    requires ScanString(s, SkipSpaces(s, p) + 1, QUOTE) == Scan(true, end)
    ensures Yields(f, s, p, Token(StringToken, SkipSpaces(s, p), end))
  {
  }

  lemma QuotedLength(text: Text, w: Style)
    ensures |Quoted(text, w.emitUTF8)| >= 2
  {
    hide Escape;
  }

  lemma SpacedAt(t: Text, rest: seq<Text>, s: Text, p: nat)
    requires p <= |s| && Spaced([t] + rest, s, p)
    ensures var q := SkipSpaces(s, p); StandsAt(s, q, t) && q + |t| <= |s| && Spaced(rest, s, q + |t|)
  {
    hide SkipSpaces;
    assert ([t] + rest)[1..] == rest;
  }

  lemma ReadsString(f: Features, s: Text, p: nat, text: Text, w: Style, rest: seq<Text>)
    requires p <= |s| && Spaced([Quoted(text, w.emitUTF8)] + rest, s, p)
    ensures var q := SkipSpaces(s, p);
            var t := Token(StringToken, q, q + |Quoted(text, w.emitUTF8)|);
            t.end <= |s| && q + 2 <= t.end && s[q] == QUOTE && Yields(f, s, p, t) && Spaced(rest, s, t.end)
            && Unescape(BodyOf(s, t)) == Decoded(Normal(text, w.emitUTF8))
  {
    hide TokenAt, NonComment, ScanString, Unescape, Escape, Normal, Yields, Quoted, SkipSpaces, StandsAt, Spaced;
    assert |Quoted(text, w.emitUTF8)| >= 2 by { QuotedLength(text, w); }
    SpacedAt(Quoted(text, w.emitUTF8), rest, s, p);
    var q := SkipSpaces(s, p);
    ScanFindsClosingQuote(s, q, text, w.emitUTF8);
    YieldsString(f, s, p, q + |Quoted(text, w.emitUTF8)|);
    QuotedBody(s, q, text, w);
    UnescapeUndoesEscape(text, w.emitUTF8);
  }

  /** The byte after a value ends any number before it. */
  predicate StopsNumber(s: Text, e: nat) {
    e < |s| ==> IsSpace(s[e]) || s[e] in {COMMA, RBRACKET, RBRACE, NUL}
  }

  lemma FollowStopsNumber(s: Text, e: nat, rest: seq<Text>)
    requires e <= |s| && Spaced(rest, s, e) && Follow(rest)
    ensures StopsNumber(s, e)
  {
    if e < |s| && !IsSpace(s[e]) {
      assert SkipSpaces(s, e) == e;
      assert s[e] == s[e..e + |rest[0]|][0];
    }
  }

  lemma {:induction false} SkipDigitsWithin(s: Text, q: nat, t: Text, i: nat)
    requires StandsAt(s, q, t) && StopsNumber(s, q + |t|) && i <= |t|
    ensures SkipDigits(s, q + i) == q + SkipDigits(t, i)
    decreases |t| - i
  {
    if i < |t| {
      assert s[q + i] == s[q..q + |t|][i];
      if IsDigit(t[i]) { SkipDigitsWithin(s, q, t, i + 1); }
    }
  }

  lemma ByteWithin(s: Text, q: nat, t: Text, i: nat)
    requires StandsAt(s, q, t) && i < |t|
    ensures s[q + i] == t[i]
  {
    assert s[q + i] == s[q..q + |t|][i];
  }

  lemma FractionEndWithin(s: Text, q: nat, t: Text, a: nat)
    requires StandsAt(s, q, t) && StopsNumber(s, q + |t|) && a <= |t|
    ensures FractionEnd(s, q + a) == q + FractionEnd(t, a)
  {
    if a < |t| {
      ByteWithin(s, q, t, a);
      SkipDigitsWithin(s, q, t, a + 1);
    }
  }

  lemma ExponentEndWithin(s: Text, q: nat, t: Text, b: nat)
    requires StandsAt(s, q, t) && StopsNumber(s, q + |t|) && b <= |t|
    ensures ExponentEnd(s, q + b) == q + ExponentEnd(t, b)
  {
    if b < |t| {
      ByteWithin(s, q, t, b);
      if b + 1 < |t| { ByteWithin(s, q, t, b + 1); }
      SkipDigitsWithin(s, q, t, b + 1);
      if b + 2 <= |t| { SkipDigitsWithin(s, q, t, b + 2); }
    }
  }

  /** The extent of a number does not depend on what stops it. */
  lemma NumberEndWithin(s: Text, q: nat, t: Text)
    requires StandsAt(s, q, t) && StopsNumber(s, q + |t|) && NumberShape(t)
    ensures NumberEnd(s, q + 1) == q + |t|
  {
    hide FractionEnd, ExponentEnd, NumberShape;
    NumeralIsCovered(t);
    SkipDigitsWithin(s, q, t, 1);
    FractionEndWithin(s, q, t, SkipDigits(t, 1));
    ExponentEndWithin(s, q, t, FractionEnd(t, SkipDigits(t, 1)));
  }

  lemma {:induction false} SkipsDigits(t: Text, p: nat, digits: Text)
    requires StandsAt(t, p, digits) && AllDigits(digits)
    requires p + |digits| < |t| ==> !IsDigit(t[p + |digits|])
    ensures SkipDigits(t, p) == p + |digits|
    decreases |digits|
  {
    if digits != [] {
      ByteWithin(t, p, digits, 0);
      assert t[p + 1..p + 1 + |digits[1..]|] == t[p..p + |digits|][1..] == digits[1..];
      SkipsDigits(t, p + 1, digits[1..]);
    }
  }

  lemma SkipsExponent(t: Text, b: nat, e: Exponent)
    requires GoodExponent(e) && StandsAt(t, b, ExponentText(Some(e))) && b + |ExponentText(Some(e))| == |t|
    ensures ExponentEnd(t, b) == |t|
  {
    var text := ExponentText(Some(e));
    var d := b + 1 + |e.sign|;
    ByteWithin(t, b, text, 0);
    if e.sign != [] { ByteWithin(t, b, text, 1); }
    assert t[d..] == text[1 + |e.sign|..] == e.digits;
    if e.sign == [] && e.digits != [] { assert t[b + 1] == e.digits[0]; }
    SkipsDigits(t, d, e.digits);
  }

  lemma SkipsFraction(t: Text, a: nat, f: Option<Text>)
    requires (f.Some? ==> AllDigits(f.value)) && StandsAt(t, a, FractionText(f))
    requires a + |FractionText(f)| < |t| ==> t[a + |FractionText(f)|] in {0x45, 0x65}
    ensures FractionEnd(t, a) == a + |FractionText(f)|
  {
    if f.Some? {
      ByteWithin(t, a, FractionText(f), 0);
      assert t[a + 1..a + 1 + |f.value|] == t[a..a + 1 + |f.value|][1..] == f.value;
      SkipsDigits(t, a + 1, f.value);
    }
  }

  /** Where the parts of a text stand. */
  lemma PartsStand(head: Byte, a: Text, b: Text, c: Text)
    ensures var t := [head] + a + b + c;
            && |t| == 1 + |a| + |b| + |c|
            && StandsAt(t, 1, a) && StandsAt(t, 1 + |a|, b) && StandsAt(t, 1 + |a| + |b|, c)
            && t[0] == head && (a != [] ==> t[1] == a[0])
            && (b != [] ==> t[1 + |a|] == b[0]) && (c != [] ==> t[1 + |a| + |b|] == c[0])
  {
    var t := [head] + a + b + c;
    assert t[1..1 + |a|] == a;
    assert t[1 + |a|..1 + |a| + |b|] == b;
    assert t[1 + |a| + |b|..] == c;
  }

  lemma PartsAreCovered(head: Byte, digits: Text, f: Option<Text>, e: Option<Exponent>)
    requires AllDigits(digits) && (f.Some? ==> AllDigits(f.value)) && (e.Some? ==> GoodExponent(e.value))
    ensures var t := [head] + digits + FractionText(f) + ExponentText(e); NumberEnd(t, 1) == |t|
  {
    hide SkipDigits, FractionEnd, ExponentEnd, FractionText, ExponentText, StandsAt;
    var ft, et := FractionText(f), ExponentText(e);
    var t := [head] + digits + ft + et;
    PartsStand(head, digits, ft, et);
    FirstOfParts(f, e);
    SkipsDigits(t, 1, digits);
    SkipsFraction(t, 1 + |digits|, f);
    if e.Some? {
      SkipsExponent(t, 1 + |digits| + |ft|, e.value);
    } else {
      ExponentNone(t, |t|);
    }
  }

  lemma FirstOfParts(f: Option<Text>, e: Option<Exponent>)
    requires e.Some? ==> GoodExponent(e.value)
    ensures FractionText(f) != [] ==> FractionText(f)[0] == DOT
    ensures if e.Some? then ExponentText(e) != [] && ExponentText(e)[0] in {0x45, 0x65} else ExponentText(e) == []
  {
  }

  /** `readNumber` covers every number in full. */
  lemma NumeralIsCovered(t: Text)
    requires NumberShape(t)
    ensures t != [] && (IsDigit(t[0]) || (t[0] == MINUS && |t| > 1 && IsDigit(t[1]))) && NumberEnd(t, 1) == |t|
  {
    hide NumberEnd, FractionText, ExponentText;
    var n :| GoodNumeral(n) && t == NumeralText(n);
    var head, digits := if n.minus then MINUS else n.whole[0], if n.minus then n.whole else n.whole[1..];
    assert (if n.minus then [MINUS] else []) + n.whole == [head] + digits;
    PartsStand(head, digits, FractionText(n.fraction), ExponentText(n.exponent));
    PartsAreCovered(head, digits, n.fraction, n.exponent);
  }

  lemma ExponentNone(t: Text, b: nat)
    requires b == |t|
    ensures ExponentEnd(t, b) == b
  {
  }

  /** It covers nothing else: a text that starts with a digit and is covered in full is a number. */
  lemma CoveredIsNumeral(t: Text)
    requires t != [] && IsDigit(t[0]) && NumberEnd(t, 1) == |t|
    ensures NumberShape(t)
  {
    hide SkipDigits, FractionEnd, ExponentEnd, FractionText, ExponentText;
    var a := SkipDigits(t, 1);
    var b := FractionEnd(t, a);
    ExponentWithin(t, b);
    var f := FractionOf(t, a);
    var e := if b == |t| then None else Some(ExponentOf(t, b));
    NoExponent();
    var n := Numeral(false, t[..a], f, e);
    assert t[..a] + t[a..b] + t[b..] == t;
    assert t[b..] == ExponentText(e);
    assert GoodNumeral(n) && t == NumeralText(n);
  }

  lemma NoExponent()
    ensures ExponentText(None) == []
  {
  }

  lemma ExponentWithin(t: Text, b: nat)
    requires b <= |t|
    ensures b == |t| ==> ExponentEnd(t, b) == b
  {
  }

  function FractionOf(t: Text, a: nat): (f: Option<Text>)
    requires a <= |t|
    ensures f.Some? ==> AllDigits(f.value)
    ensures t[a..FractionEnd(t, a)] == FractionText(f)
  {
    var b := FractionEnd(t, a);
    assert b > a ==> t[a..b] == [t[a]] + t[a + 1..b];
    if b == a then None else Some(t[a + 1..b])
  }

  function ExponentOf(t: Text, b: nat): (e: Exponent)
    requires b < |t| && ExponentEnd(t, b) == |t|
    ensures GoodExponent(e) && t[b..] == ExponentText(Some(e))
  {
    var signed := b + 1 < |t| && (t[b + 1] == PLUS || t[b + 1] == MINUS);
    var d := if signed then b + 2 else b + 1;
    assert signed ==> t[b..] == [t[b]] + [t[b + 1]] + t[d..];
    assert !signed ==> t[b..] == [t[b]] + [] + t[d..];
    Exponent(t[b], if signed then [t[b + 1]] else [], t[d..])
  }

  lemma YieldsNumber(f: Features, s: Text, p: nat, e: nat)
    requires p <= |s| && SkipSpaces(s, p) < |s|
    requires var q := SkipSpaces(s, p);
             || IsDigit(s[q])
             || (s[q] == MINUS && q + 1 < |s| && IsDigit(s[q + 1]))
    requires NumberEnd(s, SkipSpaces(s, p) + 1) == e
    ensures Yields(f, s, p, Token(NumberToken, SkipSpaces(s, p), e))
  {
    hide NumberEnd;
  }

  lemma IntTextShape(n: int)
    ensures NumberShape(IntText(n))
  {
    var m: nat := if n < 0 then -n else n;
    DigitsRoundTrip(m);
    var x := Numeral(n < 0, Digits(m), None, None);
    assert GoodNumeral(x) && IntText(n) == NumeralText(x);
  }

  lemma ReadsNumber(f: Features, s: Text, p: nat, text: Text, rest: seq<Text>)
    requires p <= |s| && NumberShape(text) && Spaced([text] + rest, s, p) && Follow(rest)
    ensures var q := SkipSpaces(s, p);
            var t := Token(NumberToken, q, q + |text|);
            t.end <= |s| && q < t.end && Yields(f, s, p, t) && Spaced(rest, s, t.end) && TextOf(s, t) == text
            && s[q] != RBRACKET
  {
    hide Yields, NumberEnd, NumberShape;
    NumeralIsCovered(text);
    var q := SkipSpaces(s, p);
    assert ([text] + rest)[1..] == rest;
    FollowStopsNumber(s, q + |text|, rest);
    assert s[q] == s[q..q + |text|][0] && (|text| > 1 ==> s[q + 1] == s[q..q + |text|][1]);
    NumberEndWithin(s, q, text);
    YieldsNumber(f, s, p, q + |text|);
  }

  lemma ReadsKeyword(f: Features, s: Text, p: nat, text: Text, rest: seq<Text>)
    requires p <= |s| && text in {NULL_TEXT, TRUE_TEXT, FALSE_TEXT} && Spaced([text] + rest, s, p)
    ensures var q := SkipSpaces(s, p);
            var kind := if text == NULL_TEXT then NullToken else if text == TRUE_TEXT then TrueToken else FalseToken;
            q + |text| <= |s| && Yields(f, s, p, Token(kind, q, q + |text|)) && Spaced(rest, s, q + |text|)
            && s[q] != RBRACKET
  {
    var q := SkipSpaces(s, p);
    assert ([text] + rest)[1..] == rest;
    assert s[q] == s[q..q + |text|][0] == text[0];
    assert s[q + 1..q + |text|] == s[q..q + |text|][1..] == text[1..];
  }

  // ---------- Whole values ----------

  /** What the verdict says of the outcome of reading a value: an exception; one error of the
      given kind; or `value`, no error, and the cursor in front of the remaining tokens. */
  ghost predicate Gives(r: Read, v: Verdict, value: Value, s: Text, rest: seq<Text>) {
    match v
    case Fine => r.Read? && r.pos <= |s| && r == Read(true, value, r.pos, []) && Spaced(rest, s, r.pos)
    case Throws => r.Thrown?
    case Fails(m) => r.Read? && !r.ok && |r.errors| == 1 && r.errors[0].message == m
  }

  /** The verdict on a document that is neither array nor object nor dropped. */
  function ScalarVerdict(f: Features, depth: nat): Verdict {
    if depth > f.stackLimit then Throws else Fine
  }

  lemma ValueTooDeep(f: Features, lib: Library, s: Text, p: nat, depth: nat, current: Value)
    requires p <= |s| && depth > f.stackLimit
    ensures ReadValue(f, lib, s, p, depth, current).Thrown?
  {
  }

  lemma ValueOfToken(f: Features, lib: Library, s: Text, p: nat, depth: nat, current: Value, t: Token)
    requires p <= |s| && Yields(f, s, p, t) && depth <= f.stackLimit
    ensures ReadValue(f, lib, s, p, depth, current) ==
      if t.kind == ObjectBegin then ReadMembers(f, lib, s, t.end, depth, [], true)
      else if t.kind == ArrayBegin then ReadElements(f, lib, s, t.end, depth, [], 0)
      else ReadScalar(f, lib, s, t, current)
  {
    hide ReadToken, NonComment, ReadScalar, ReadMembers, ReadElements;
  }

  lemma ScalarOfNumber(f: Features, lib: Library, s: Text, t: Token, current: Value, n: int)
    requires t.start < t.end <= |s| && t.kind == NumberToken && TextOf(s, t) == IntText(n)
    requires MIN_INT64 <= n <= MAX_UINT64
    ensures ReadScalar(f, lib, s, t, current) == Read(true, Embed(JNumber(n)), t.end, [])
  {
    hide IntText, DecodeInteger;
    DecodeUndoesPrint(n);
  }

  lemma ScalarOfString(f: Features, lib: Library, s: Text, t: Token, current: Value, text: Text)
    requires t.start + 2 <= t.end <= |s| && t.kind == StringToken && Unescape(BodyOf(s, t)) == Decoded(text)
    ensures ReadScalar(f, lib, s, t, current) == Read(true, Str(text), t.end, [])
  {
    hide Unescape;
  }

  lemma ScalarGives(f: Features, lib: Library, s: Text, p: nat, depth: nat, current: Value, t: Token, v: Value,
                    rest: seq<Text>)
    requires p <= |s| && Yields(f, s, p, t) && t.start < t.end <= |s|
             && (t.kind == StringToken ==> t.start + 2 <= t.end)
    requires t.kind != ObjectBegin && t.kind != ArrayBegin
    requires ReadScalar(f, lib, s, t, current) == Read(true, v, t.end, []) && Spaced(rest, s, t.end)
    ensures Gives(ReadValue(f, lib, s, p, depth, current), ScalarVerdict(f, depth), v, s, rest)
  {
    hide Yields, ReadScalar, Spaced, ReadValue;
    if depth <= f.stackLimit {
      ValueOfToken(f, lib, s, p, depth, current, t);
    } else {
      ValueTooDeep(f, lib, s, p, depth, current);
    }
  }

  lemma ReadsLiteral(f: Features, lib: Library, s: Text, p: nat, depth: nat, current: Value, text: Text,
                     rest: seq<Text>)
    requires p <= |s| && text in {NULL_TEXT, TRUE_TEXT, FALSE_TEXT} && Spaced([text] + rest, s, p)
    ensures var v := if text == NULL_TEXT then Null else Bool(text == TRUE_TEXT);
            Gives(ReadValue(f, lib, s, p, depth, current), ScalarVerdict(f, depth), v, s, rest)
    ensures SkipSpaces(s, p) < |s| && s[SkipSpaces(s, p)] != RBRACKET
  {
    hide ReadToken, NonComment, SkipCommentTokens, Yields, Gives, ReadValue, Spaced, SkipSpaces;
    hide Unescape, DecodeInteger;
    ReadsKeyword(f, s, p, text, rest);
    var kind := if text == NULL_TEXT then NullToken else if text == TRUE_TEXT then TrueToken else FalseToken;
    var q := SkipSpaces(s, p);
    ScalarGives(f, lib, s, p, depth, current, Token(kind, q, q + |text|),
                if text == NULL_TEXT then Null else Bool(text == TRUE_TEXT), rest);
  }

  lemma ReadsInteger(f: Features, lib: Library, s: Text, p: nat, depth: nat, current: Value, n: int, rest: seq<Text>)
    requires p <= |s| && MIN_INT64 <= n <= MAX_UINT64 && Spaced([IntText(n)] + rest, s, p) && Follow(rest)
    ensures Gives(ReadValue(f, lib, s, p, depth, current), ScalarVerdict(f, depth), Embed(JNumber(n)), s, rest)
    ensures SkipSpaces(s, p) < |s| && s[SkipSpaces(s, p)] != RBRACKET
  {
    hide ReadScalar, Yields, Gives, ReadValue, Spaced, SkipSpaces, IntText, NumberShape, Follow, Embed;
    IntTextShape(n);
    ReadsNumber(f, s, p, IntText(n), rest);
    var t := Token(NumberToken, SkipSpaces(s, p), SkipSpaces(s, p) + |IntText(n)|);
    ScalarOfNumber(f, lib, s, t, current, n);
    ScalarGives(f, lib, s, p, depth, current, t, Embed(JNumber(n)), rest);
  }

  lemma ReadsReal(f: Features, lib: Library, s: Text, p: nat, depth: nat, current: Value, text: Text, d: Double,
                  rest: seq<Text>)
    requires p <= |s| && ReadsBack(lib, text, d) && Spaced([text] + rest, s, p) && Follow(rest)
    ensures Gives(ReadValue(f, lib, s, p, depth, current), ScalarVerdict(f, depth), Real(d), s, rest)
    ensures SkipSpaces(s, p) < |s| && s[SkipSpaces(s, p)] != RBRACKET
  {
    hide Yields, Gives, ReadValue, Spaced, SkipSpaces, NumberShape, Follow, DecodeInteger, Unescape;
    ReadsNumber(f, s, p, text, rest);
    var t := Token(NumberToken, SkipSpaces(s, p), SkipSpaces(s, p) + |text|);
    ScalarGives(f, lib, s, p, depth, current, t, Real(d), rest);
  }

  lemma ReadsText(f: Features, lib: Library, s: Text, p: nat, depth: nat, current: Value, text: Text, w: Style,
                  rest: seq<Text>)
    requires p <= |s| && Spaced([Quoted(text, w.emitUTF8)] + rest, s, p)
    ensures Gives(ReadValue(f, lib, s, p, depth, current), ScalarVerdict(f, depth), Str(Normal(text, w.emitUTF8)), s,
                  rest)
    ensures SkipSpaces(s, p) < |s| && s[SkipSpaces(s, p)] != RBRACKET
  {
    hide ReadScalar, Yields, Gives, ReadValue, Spaced, SkipSpaces, Normal, Quoted, Unescape;
    ReadsString(f, s, p, text, w, rest);
    var t := Token(StringToken, SkipSpaces(s, p), SkipSpaces(s, p) + |Quoted(text, w.emitUTF8)|);
    ScalarOfString(f, lib, s, t, current, Normal(text, w.emitUTF8));
    ScalarGives(f, lib, s, p, depth, current, t, Str(Normal(text, w.emitUTF8)), rest);
  }

  lemma ReadsScalar(f: Features, lib: Library, s: Text, p: nat, depth: nat, current: Value, j: Json, w: Style,
                    rest: seq<Text>)
    requires p <= |s| && Writable(lib, j, w) && !j.JArray? && !j.JObject? && !Dropped(j, w)
    requires Spaced(Tokens(j, w) + rest, s, p) && Follow(rest)
    ensures Gives(ReadValue(f, lib, s, p, depth, current), VerdictOf(f, j, w, depth), Built(f, j, w), s, rest)
    ensures SkipSpaces(s, p) < |s| && s[SkipSpaces(s, p)] != RBRACKET
  {
    hide Gives, ReadValue, Spaced, SkipSpaces, Normal, Quoted, IntText, Follow, ReadsBack;
    assert VerdictOf(f, j, w, depth) == ScalarVerdict(f, depth);
    if j.JNull? || j.JBool? {
      ReadsLiteral(f, lib, s, p, depth, current, Tokens(j, w)[0], rest);
    } else if j.JNumber? {
      ReadsInteger(f, lib, s, p, depth, current, j.n, rest);
    } else if j.JReal? {
      ReadsReal(f, lib, s, p, depth, current, w.realText(j.d), j.d, rest);
    } else {
      ReadsText(f, lib, s, p, depth, current, j.s, w, rest);
    }
  }

  lemma HeadToken(rest: seq<Text>)
    requires !Ends(rest) && Follow(rest)
    ensures rest == [[rest[0][0]]] + rest[1..] && rest[0][0] in {COMMA, RBRACKET, RBRACE}
  {
    assert rest[0] == [rest[0][0]];
  }

  lemma ScalarAtPunctuation(f: Features, lib: Library, s: Text, t: Token, current: Value)
    requires t.start < t.end <= |s| && (t.kind == ArraySeparator || t.kind == ObjectEnd || t.kind == ArrayEnd)
    ensures ReadScalar(f, lib, s, t, current) ==
      if f.allowDroppedNullPlaceholders then Read(true, Null, t.end - 1, [])
      else Read(false, current, t.end, [Error(ValueExpected, t)])
  {
    hide Unescape, NumberOf;
  }

  /** In place of a dropped null the reader meets the separator or the bracket after it. */
  lemma ReadsDropped(f: Features, lib: Library, s: Text, p: nat, depth: nat, current: Value, w: Style, rest: seq<Text>)
    requires p <= |s| && w.dropNull && !Ends(rest) && Follow(rest) && Spaced(rest, s, p)
    ensures Gives(ReadValue(f, lib, s, p, depth, current), VerdictOf(f, JNull, w, depth), Null, s, rest)
  {
    hide ReadToken, NonComment, SkipCommentTokens, Spaced, SkipSpaces, ReadValue, ReadScalar, Yields, Follow, Ends,
         StandsAt;
    HeadToken(rest);
    var c := rest[0][0];
    ReadsPunctuation(f, s, p, c, rest[1..]);
    var q := SkipSpaces(s, p);
    SkipSpacesTwice(s, p);
    SpacedSkips(rest, s, q, p);
    if depth <= f.stackLimit {
      ScalarAtPunctuation(f, lib, s, Token(Punctuation(c), q, q + 1), current);
      ValueOfToken(f, lib, s, p, depth, current, Token(Punctuation(c), q, q + 1));
    } else {
      ValueTooDeep(f, lib, s, p, depth, current);
    }
  }

  /** `readValue` on any layout of a document's tokens. */
  lemma {:induction false} ReadsValue(f: Features, lib: Library, s: Text, p: nat, depth: nat, current: Value,
                                      j: Json, w: Style, rest: seq<Text>)
    requires p <= |s| && Writable(lib, j, w) && (Dropped(j, w) ==> !Ends(rest))
    requires Spaced(Tokens(j, w) + rest, s, p) && Follow(rest)
    ensures Gives(ReadValue(f, lib, s, p, depth, current), VerdictOf(f, j, w, depth), Built(f, j, w), s, rest)
    ensures !Dropped(j, w) ==> SkipSpaces(s, p) < |s| && s[SkipSpaces(s, p)] != RBRACKET
    decreases j
  {
    hide ReadToken, NonComment, SkipCommentTokens, ReadValue, ReadElements, ReadMembers, ItemTokens, MemberTokens;
    hide BuiltItems, BuiltMembers, ItemsVerdict, MembersVerdict, Spaced, SkipSpaces, ReadsBack, Normal, Quoted, IntText;
    if Dropped(j, w) {
      assert Tokens(j, w) + rest == rest;
      ReadsDropped(f, lib, s, p, depth, current, w, rest);
    } else if j.JArray? {
      ReadsArray(f, lib, s, p, depth, current, j.items, w, rest);
    } else if j.JObject? {
      ReadsObject(f, lib, s, p, depth, current, j.members, w, rest);
    } else {
      ReadsScalar(f, lib, s, p, depth, current, j, w, rest);
    }
  }

  lemma {:induction false} ReadsArray(f: Features, lib: Library, s: Text, p: nat, depth: nat, current: Value,
                                      items: seq<Json>, w: Style, rest: seq<Text>)
    requires p <= |s| && Writable(lib, JArray(items), w) && Spaced(Tokens(JArray(items), w) + rest, s, p)
    ensures Gives(ReadValue(f, lib, s, p, depth, current), VerdictOf(f, JArray(items), w, depth),
                  Built(f, JArray(items), w), s, rest)
    ensures SkipSpaces(s, p) < |s| && s[SkipSpaces(s, p)] != RBRACKET
    decreases items, |items| + 1, 0
  {
    hide ReadToken, NonComment, SkipCommentTokens, ReadValue, ReadElements, ReadMembers, ItemTokens, Gives;
    hide BuiltItems, ItemsVerdict, Spaced, SkipSpaces;
    var body := ItemTokens(items, w) + ([[RBRACKET]] + rest);
    assert Tokens(JArray(items), w) + rest == [[LBRACKET]] + body;
    ReadsPunctuation(f, s, p, LBRACKET, body);
    if depth <= f.stackLimit {
      var t := ReadToken(f, s, p);
      ValueOfToken(f, lib, s, p, depth, current, t);
      assert items[0..] == items;
      NothingBuilt(f, items, [], w);
      ReadsItems(f, lib, s, t.end, depth, items, 0, [], w, rest);
    } else {
      TooDeepGives(f, lib, s, p, depth, current, JArray(items), w, rest);
    }
  }

  lemma {:induction false} ReadsObject(f: Features, lib: Library, s: Text, p: nat, depth: nat, current: Value,
                                       members: seq<Member>, w: Style, rest: seq<Text>)
    requires p <= |s| && Writable(lib, JObject(members), w) && Spaced(Tokens(JObject(members), w) + rest, s, p)
    ensures Gives(ReadValue(f, lib, s, p, depth, current), VerdictOf(f, JObject(members), w, depth),
                  Built(f, JObject(members), w), s, rest)
    ensures SkipSpaces(s, p) < |s| && s[SkipSpaces(s, p)] != RBRACKET
    decreases members, |members| + 1, 0
  {
    hide ReadToken, NonComment, SkipCommentTokens, ReadValue, ReadElements, ReadMembers, MemberTokens, Gives;
    hide BuiltMembers, MembersVerdict, Spaced, SkipSpaces;
    var body := MemberTokens(members, w) + ([[RBRACE]] + rest);
    assert Tokens(JObject(members), w) + rest == [[LBRACE]] + body;
    ReadsPunctuation(f, s, p, LBRACE, body);
    if depth <= f.stackLimit {
      var t := ReadToken(f, s, p);
      ValueOfToken(f, lib, s, p, depth, current, t);
      assert members[0..] == members;
      NothingBuilt(f, [], members, w);
      ReadsMemberList(f, lib, s, t.end, depth, members, 0, [], true, w, rest);
    } else {
      TooDeepGives(f, lib, s, p, depth, current, JObject(members), w, rest);
    }
  }

  lemma TooDeepGives(f: Features, lib: Library, s: Text, p: nat, depth: nat, current: Value, j: Json, w: Style,
                     rest: seq<Text>)
    requires p <= |s| && depth > f.stackLimit
    ensures Gives(ReadValue(f, lib, s, p, depth, current), VerdictOf(f, j, w, depth), Built(f, j, w), s, rest)
  {
    hide Built, Spaced, ReadValue;
    ValueTooDeep(f, lib, s, p, depth, current);
  }

  lemma NothingBuilt(f: Features, items: seq<Json>, members: seq<Member>, w: Style)
    ensures BuiltItems(f, items, 0, w) == [] && BuiltMembers(f, members, 0, w) == []
  {
  }

  // ---------- Arrays ----------

  /** The tokens after item `k` of an array. */
  function AfterItem(items: seq<Json>, k: nat, w: Style, rest: seq<Text>): seq<Text>
    requires k < |items|
  {
    if k + 1 == |items| then [[RBRACKET]] + rest
    else [[COMMA]] + (ItemTokens(items[k + 1..], w) + ([[RBRACKET]] + rest))
  }

  lemma ItemTokensAt(items: seq<Json>, k: nat, w: Style, rest: seq<Text>)
    requires k < |items|
    ensures ItemTokens(items[k..], w) + ([[RBRACKET]] + rest) == Tokens(items[k], w) + AfterItem(items, k, w, rest)
  {
    assert items[k..][1..] == items[k + 1..];
  }

  /** Where the items end for the reader, the closing bracket follows. */
  lemma ItemTokensEnd(f: Features, items: seq<Json>, w: Style, rest: seq<Text>)
    ensures ItemTokens(items[KeptItems(f, items, w)..], w) + rest == rest
  {
    if LosesLast(f, items, w) {
      assert items[|items| - 1..] == [items[|items| - 1]];
    }
  }

  /** The loop of `readArray` goes on with an element, not with the closing bracket. */
  ghost predicate GoesOn(f: Features, s: Text, p: nat, index: nat)
    requires p <= |s|
  {
    var q := SkipSpaces(s, p);
    q < |s| && !(s[q] == RBRACKET && (index == 0 || (f.allowTrailingCommas && !f.allowDroppedNullPlaceholders)))
  }

  lemma ElementsUnfold(f: Features, lib: Library, s: Text, p: nat, depth: nat, nodes: seq<Node>, index: nat)
    requires p <= |s| && GoesOn(f, s, p, index)
    ensures ReadElements(f, lib, s, p, depth, nodes, index) ==
      var r := ReadValue(f, lib, s, SkipSpaces(s, p), depth + 1, Lookup(nodes, Index(index)));
      if r.Thrown? then Thrown else AfterElement(f, lib, s, depth, Put(nodes, Index(index), r.value), index, r)
  {
    hide ReadValue, AfterElement, SkipSpaces, Put, Lookup;
  }

  lemma ElementsEnd(f: Features, lib: Library, s: Text, p: nat, depth: nat, nodes: seq<Node>, index: nat)
    requires p <= |s| && SkipSpaces(s, p) < |s| && s[SkipSpaces(s, p)] == RBRACKET && !GoesOn(f, s, p, index)
    ensures ReadElements(f, lib, s, p, depth, nodes, index) == Read(true, Arr(nodes), SkipSpaces(s, p) + 1, [])
  {
    hide ReadValue, AfterElement, SkipSpaces, Put, Lookup;
  }

  lemma AfterElementUnfold(f: Features, lib: Library, s: Text, depth: nat, nodes: seq<Node>, index: nat, value: Read,
                           t: Token)
    requires value.Read? && value.pos <= |s| && value.ok && value.errors == [] && Yields(f, s, value.pos, t)
    ensures AfterElement(f, lib, s, depth, nodes, index, value) ==
      if t.kind == ArrayEnd then Read(true, Arr(nodes), t.end, [])
      else if t.kind == ArraySeparator then ReadElements(f, lib, s, t.end, depth, nodes, index + 1)
      else Fail(f, s, Arr(nodes), MissingCommaOrBracket, t, ArrayEnd)
  {
    hide ReadElements, Fail;
  }

  lemma AfterElementFailed(f: Features, lib: Library, s: Text, depth: nat, nodes: seq<Node>, index: nat, value: Read)
    requires value.Read? && value.pos <= |s| && !value.ok && value.errors != []
    ensures var r := AfterElement(f, lib, s, depth, nodes, index, value); r.Read? && !r.ok && r.errors == value.errors
  {
    hide ReadElements, Recover;
  }

  lemma SkipSpacesTwice(s: Text, p: nat)
    requires p <= |s|
    ensures SkipSpaces(s, SkipSpaces(s, p)) == SkipSpaces(s, p)
  {
  }

  /** Nothing is written for item `k`, and it is not lost: a comma follows, or a bracket that
      does not close the array yet. */
  lemma DroppedGoesOn(f: Features, s: Text, p: nat, items: seq<Json>, k: nat, w: Style, rest: seq<Text>)
    requires p <= |s| && k < KeptItems(f, items, w) && Dropped(items[k], w)
             && Spaced(AfterItem(items, k, w, rest), s, p)
    ensures GoesOn(f, s, p, k)
  {
    hide ReadToken, NonComment, SkipCommentTokens, Spaced, SkipSpaces, ItemTokens, Yields;
    if k + 1 == |items| {
      ReadsPunctuation(f, s, p, RBRACKET, rest);
    } else {
      ReadsPunctuation(f, s, p, COMMA, ItemTokens(items[k + 1..], w) + ([[RBRACKET]] + rest));
    }
  }

  /** The first problem from item `k` on, or that from item `k + 1` on. */
  lemma ItemsVerdictAt(f: Features, items: seq<Json>, k: nat, w: Style, depth: nat)
    requires k < KeptItems(f, items, w)
    ensures ItemsVerdict(f, items, k, w, depth) ==
      var v := VerdictOf(f, items[k], w, depth);
      if v != Fine then v else ItemsVerdict(f, items, k + 1, w, depth)
  {
    hide VerdictOf;
  }

  lemma ItemBuilt(f: Features, items: seq<Json>, k: nat, w: Style)
    requires k < |items|
    ensures Put(BuiltItems(f, items, k, w), Index(k), Built(f, items[k], w)) == BuiltItems(f, items, k + 1, w)
  {
    hide Built;
    PutAtEnd(BuiltItems(f, items, k, w), Index(k), Built(f, items[k], w));
  }

  lemma {:induction false} ReadsItems(f: Features, lib: Library, s: Text, p: nat, depth: nat, items: seq<Json>, k: nat,
                                      nodes: seq<Node>, w: Style, rest: seq<Text>)
    requires p <= |s| && k <= KeptItems(f, items, w) && (k == |items| ==> k == 0)
    requires forall i | 0 <= i < |items| :: Writable(lib, items[i], w)
    requires nodes == BuiltItems(f, items, k, w)
    requires Spaced(ItemTokens(items[k..], w) + ([[RBRACKET]] + rest), s, p)
    requires depth <= f.stackLimit
    ensures Gives(ReadElements(f, lib, s, p, depth, nodes, k), ItemsVerdict(f, items, k, w, depth + 1),
                  Built(f, JArray(items), w), s, rest)
    decreases items, |items| - k, 0
  {
    hide ReadToken, NonComment, SkipCommentTokens, ReadValue, AfterElement, ReadElements, ItemTokens, Tokens, Put;
    hide Spaced, SkipSpaces, Writable, LowerBound, Lookup, VerdictOf, BuiltItems, ItemsVerdict, KeptItems;
    BuiltArray(f, items, w);
    if k == KeptItems(f, items, w) {
      ItemsEnd(f, lib, s, p, depth, items, nodes, w, rest);
    } else {
      var q, more := SkipSpaces(s, p), AfterItem(items, k, w, rest);
      var current := Lookup(nodes, Index(k));
      ItemAt(f, lib, s, p, depth + 1, current, items, k, w, rest);
      ItemsVerdictAt(f, items, k, w, depth + 1);
      ElementsUnfold(f, lib, s, p, depth, nodes, k);
      ItemBuilt(f, items, k, w);
      var r := ReadValue(f, lib, s, q, depth + 1, current);
      if r.Read? && r.ok {
        ReadsAfterItem(f, lib, s, depth, items, k, r, w, rest);
      } else if r.Read? {
        AfterElementFailed(f, lib, s, depth, Put(nodes, Index(k), r.value), k, r);
      }
    }
  }

  lemma BuiltArray(f: Features, items: seq<Json>, w: Style)
    ensures Built(f, JArray(items), w) == Arr(BuiltItems(f, items, KeptItems(f, items, w), w))
  {
  }

  lemma ItemsEnd(f: Features, lib: Library, s: Text, p: nat, depth: nat, items: seq<Json>, nodes: seq<Node>,
                 w: Style, rest: seq<Text>)
    requires p <= |s|
    requires var k := KeptItems(f, items, w);
             (k == |items| ==> k == 0) && nodes == BuiltItems(f, items, k, w)
             && Spaced(ItemTokens(items[k..], w) + ([[RBRACKET]] + rest), s, p)
    ensures var k := KeptItems(f, items, w);
            Gives(ReadElements(f, lib, s, p, depth, nodes, k), ItemsVerdict(f, items, k, w, depth + 1), Arr(nodes),
                  s, rest)
  {
    hide ReadToken, NonComment, SkipCommentTokens, ReadElements, ItemTokens, Spaced, SkipSpaces, VerdictOf, BuiltItems;
    var k := KeptItems(f, items, w);
    ItemTokensEnd(f, items, w, [[RBRACKET]] + rest);
    ReadsPunctuation(f, s, p, RBRACKET, rest);
    ElementsEnd(f, lib, s, p, depth, nodes, k);
  }

  /** Item `k`, read from behind the whitespace in front of it. */
  lemma {:induction false} ItemAt(f: Features, lib: Library, s: Text, p: nat, depth: nat, current: Value,
                                  items: seq<Json>, k: nat, w: Style, rest: seq<Text>)
    requires p <= |s| && k < KeptItems(f, items, w) && forall i | 0 <= i < |items| :: Writable(lib, items[i], w)
    requires Spaced(ItemTokens(items[k..], w) + ([[RBRACKET]] + rest), s, p)
    ensures GoesOn(f, s, p, k)
    ensures Gives(ReadValue(f, lib, s, SkipSpaces(s, p), depth, current), VerdictOf(f, items[k], w, depth),
                  Built(f, items[k], w), s, AfterItem(items, k, w, rest))
    decreases items, |items| - k, 0, 0
  {
    hide ReadValue, ItemTokens, Tokens, Spaced, SkipSpaces, VerdictOf, Built, KeptItems, Gives, Writable;
    var q, more := SkipSpaces(s, p), AfterItem(items, k, w, rest);
    ItemTokensAt(items, k, w, rest);
    SkipSpacesTwice(s, p);
    SpacedSkips(Tokens(items[k], w) + more, s, q, p);
    if Dropped(items[k], w) {
      DroppedTokens(items[k], w, more);
      DroppedGoesOn(f, s, p, items, k, w, rest);
    }
    ReadsValue(f, lib, s, q, depth, current, items[k], w, more);
  }

  lemma DroppedTokens(j: Json, w: Style, more: seq<Text>)
    requires Dropped(j, w)
    ensures Tokens(j, w) + more == more
  {
  }

  lemma {:induction false} ReadsAfterItem(f: Features, lib: Library, s: Text, depth: nat, items: seq<Json>, k: nat,
                                          value: Read, w: Style, rest: seq<Text>)
    requires k < KeptItems(f, items, w) && value.Read? && value.ok && value.errors == [] && value.pos <= |s|
    requires forall i | 0 <= i < |items| :: Writable(lib, items[i], w)
    requires Spaced(AfterItem(items, k, w, rest), s, value.pos)
    requires depth <= f.stackLimit
    ensures Gives(AfterElement(f, lib, s, depth, BuiltItems(f, items, k + 1, w), k, value),
                  ItemsVerdict(f, items, k + 1, w, depth + 1), Built(f, JArray(items), w), s, rest)
    decreases items, |items| - k - 1, 1
  {
    hide ReadToken, NonComment, SkipCommentTokens, ReadValue, ReadElements, AfterElement, ItemTokens, Tokens, Spaced;
    hide SkipSpaces, VerdictOf, BuiltItems, Writable, Built;
    BuiltArray(f, items, w);
    var nodes := BuiltItems(f, items, k + 1, w);
    if k + 1 == |items| {
      ReadsPunctuation(f, s, value.pos, RBRACKET, rest);
    } else {
      ReadsPunctuation(f, s, value.pos, COMMA, ItemTokens(items[k + 1..], w) + ([[RBRACKET]] + rest));
      ReadsItems(f, lib, s, ReadToken(f, s, value.pos).end, depth, items, k + 1, nodes, w, rest);
    }
    AfterElementUnfold(f, lib, s, depth, nodes, k, value, ReadToken(f, s, value.pos));
  }

  // ---------- Objects ----------

  /** The tokens after member `k` of an object. */
  function AfterMemberTokens(members: seq<Member>, k: nat, w: Style, rest: seq<Text>): seq<Text>
    requires k < |members|
  {
    if k + 1 == |members| then [[RBRACE]] + rest
    else [[COMMA]] + (MemberTokens(members[k + 1..], w) + ([[RBRACE]] + rest))
  }

  lemma MemberTokensAt(members: seq<Member>, k: nat, w: Style, rest: seq<Text>)
    requires k < |members|
    ensures MemberTokens(members[k..], w) + ([[RBRACE]] + rest)
         == [Quoted(members[k].name, w.emitUTF8)]
            + ([[COLON]] + (Tokens(members[k].value, w) + AfterMemberTokens(members, k, w, rest)))
  {
    assert members[k..][1..] == members[k + 1..];
  }

  lemma MemberTokensEnd(members: seq<Member>, w: Style, rest: seq<Text>)
    ensures MemberTokens(members[|members|..], w) + rest == rest
  {
  }

  lemma MembersEnd(f: Features, lib: Library, s: Text, p: nat, depth: nat, nodes: seq<Node>, unnamed: bool, t: Token)
    requires p <= |s| && Yields(f, s, p, t) && t.kind == ObjectEnd && unnamed
    ensures ReadMembers(f, lib, s, p, depth, nodes, unnamed) == Read(true, Obj(nodes), t.end, [])
  {
  }

  /** The name token and the colon of a member, and the outcome of what follows. */
  lemma MembersUnfold(f: Features, lib: Library, s: Text, p: nat, depth: nat, nodes: seq<Node>, unnamed: bool,
                      t: Token, name: Text, colon: Token)
    requires p <= |s| && Yields(f, s, p, t) && t.kind == StringToken && Unescape(BodyOf(s, t)) == Decoded(name)
    requires ReadToken(f, s, t.end) == colon && colon.kind == MemberSeparator
    ensures ReadMembers(f, lib, s, p, depth, nodes, unnamed) ==
      if |name| >= MAX_KEY_LENGTH then Thrown
      else if f.rejectDupKeys && HasKey(nodes, Name(name)) then Fail(f, s, Obj(nodes), DuplicateKey, t, ObjectEnd)
      else ValueOfMember(f, lib, s, colon.end, depth, nodes, name)
  {
    hide ReadToken, NonComment, Unescape, ReadValue, AfterMember, Put, Lookup, HasKey, Fail;
  }

  /** What `readObject` makes of a member's value and what follows it. */
  ghost function ValueOfMember(f: Features, lib: Library, s: Text, p: nat, depth: nat, nodes: seq<Node>,
                               name: Text): Read
    requires p <= |s|
  {
    var r := ReadValue(f, lib, s, p, depth + 1, Lookup(nodes, Name(name)));
    if r.Thrown? then Thrown else AfterMember(f, lib, s, depth, Put(nodes, Name(name), r.value), name == [], r)
  }

  lemma AfterMemberUnfold(f: Features, lib: Library, s: Text, depth: nat, nodes: seq<Node>, unnamed: bool,
                          value: Read, t: Token)
    requires value.Read? && value.pos <= |s| && value.ok && value.errors == [] && Yields(f, s, value.pos, t)
    requires t.kind == ObjectEnd || t.kind == ArraySeparator
    ensures AfterMember(f, lib, s, depth, nodes, unnamed, value) ==
      if t.kind == ObjectEnd then Read(true, Obj(nodes), t.end, [])
      else ReadMembers(f, lib, s, t.end, depth, nodes, unnamed)
  {
  }

  lemma AfterMemberFailed(f: Features, lib: Library, s: Text, depth: nat, nodes: seq<Node>, unnamed: bool, value: Read)
    requires value.Read? && value.pos <= |s| && !value.ok && value.errors != []
    ensures var r := AfterMember(f, lib, s, depth, nodes, unnamed, value); r.Read? && !r.ok && r.errors == value.errors
  {
    hide ReadMembers, Recover;
  }

  /** Up to the colon of a member, and what is left to read after it. */
  lemma ReadsMemberName(f: Features, lib: Library, s: Text, p: nat, depth: nat, raw: Text, nodes: seq<Node>,
                        unnamed: bool, w: Style, after: seq<Text>) returns (c: nat)
    requires p <= |s| && Spaced([Quoted(raw, w.emitUTF8)] + ([[COLON]] + after), s, p)
    ensures c <= |s| && Spaced(after, s, c)
    ensures var r, name := ReadMembers(f, lib, s, p, depth, nodes, unnamed), Normal(raw, w.emitUTF8);
            if |name| >= MAX_KEY_LENGTH then r.Thrown?
            else if f.rejectDupKeys && HasKey(nodes, Name(name)) then
              r.Read? && !r.ok && |r.errors| == 1 && r.errors[0].message == DuplicateKey
            else r == ValueOfMember(f, lib, s, c, depth, nodes, name)
  {
    hide ReadToken, NonComment, SkipCommentTokens, ValueOfMember, ReadMembers, Unescape, Quoted, Normal, Spaced,
         SkipSpaces;
    hide HasKey, Recover;
    ReadsString(f, s, p, raw, w, [[COLON]] + after);
    var t := ReadToken(f, s, p);
    ReadsPunctuation(f, s, t.end, COLON, after);
    var colon := ReadToken(f, s, t.end);
    MembersUnfold(f, lib, s, p, depth, nodes, unnamed, t, Normal(raw, w.emitUTF8), colon);
    c := colon.end;
  }

  lemma MembersVerdictAt(f: Features, members: seq<Member>, k: nat, w: Style, depth: nat)
    requires k < |members|
    ensures MembersVerdict(f, members, k, w, depth) ==
      if |Normal(members[k].name, w.emitUTF8)| >= MAX_KEY_LENGTH then Throws
      else if f.rejectDupKeys && Repeats(members, k, w) then Fails(DuplicateKey)
      else
        var v := VerdictOf(f, members[k].value, w, depth);
        if v != Fine then v else MembersVerdict(f, members, k + 1, w, depth)
  {
    hide VerdictOf, Normal, Repeats;
  }

  lemma MemberBuilt(f: Features, members: seq<Member>, k: nat, w: Style)
    requires k < |members|
    ensures BuiltMembers(f, members, k + 1, w)
         == Put(BuiltMembers(f, members, k, w), Name(Normal(members[k].name, w.emitUTF8)),
                Built(f, members[k].value, w))
    ensures HasKey(BuiltMembers(f, members, k, w), Name(Normal(members[k].name, w.emitUTF8)))
            <==> Repeats(members, k, w)
    ensures Built(f, JObject(members), w) == Obj(BuiltMembers(f, members, |members|, w))
  {
    hide Normal, Put, HasKey;
    BuiltHas(f, members, k, w, Normal(members[k].name, w.emitUTF8));
  }

  lemma {:induction false} ReadsMemberList(f: Features, lib: Library, s: Text, p: nat, depth: nat,
                                           members: seq<Member>, k: nat, nodes: seq<Node>, unnamed: bool, w: Style,
                                           rest: seq<Text>)
    requires p <= |s| && k <= |members| && (k == |members| ==> k == 0) && (k == 0 ==> unnamed)
    requires Writable(lib, JObject(members), w)
    requires nodes == BuiltMembers(f, members, k, w)
    requires Spaced(MemberTokens(members[k..], w) + ([[RBRACE]] + rest), s, p)
    requires depth <= f.stackLimit
    ensures Gives(ReadMembers(f, lib, s, p, depth, nodes, unnamed), MembersVerdict(f, members, k, w, depth + 1),
                  Built(f, JObject(members), w), s, rest)
    decreases members, |members| - k, 0
  {
    hide ReadToken, NonComment, SkipCommentTokens, ReadValue, ReadMembers, MemberTokens, MembersVerdict, Tokens, Put;
    hide Unescape, Quoted, Normal, Spaced, SkipSpaces, LowerBound, Lookup, VerdictOf, Built, BuiltMembers, HasKey,
         Repeats;
    hide ValueOfMember;
    if k == |members| {
      MembersDone(f, lib, s, p, depth, members, nodes, unnamed, w, rest);
    } else {
      var m, more := members[k], AfterMemberTokens(members, k, w, rest);
      MemberTokensAt(members, k, w, rest);
      MembersVerdictAt(f, members, k, w, depth + 1);
      MemberBuilt(f, members, k, w);
      var c := ReadsMemberName(f, lib, s, p, depth, m.name, nodes, unnamed, w, Tokens(m.value, w) + more);
      ReadsMemberValue(f, lib, s, c, depth, members, k, nodes, w, rest);
    }
  }

  lemma MembersDone(f: Features, lib: Library, s: Text, p: nat, depth: nat, members: seq<Member>, nodes: seq<Node>,
                    unnamed: bool, w: Style, rest: seq<Text>)
    requires p <= |s| && members == [] && unnamed && nodes == BuiltMembers(f, members, 0, w)
    requires Spaced(MemberTokens(members[0..], w) + ([[RBRACE]] + rest), s, p)
    ensures Gives(ReadMembers(f, lib, s, p, depth, nodes, unnamed), MembersVerdict(f, members, 0, w, depth + 1),
                  Built(f, JObject(members), w), s, rest)
  {
    hide ReadToken, NonComment, SkipCommentTokens, ReadMembers, MemberTokens, Spaced, SkipSpaces;
    MemberTokensEnd(members, w, [[RBRACE]] + rest);
    ReadsPunctuation(f, s, p, RBRACE, rest);
    MembersEnd(f, lib, s, p, depth, nodes, unnamed, ReadToken(f, s, p));
  }

  /** The verdict on member `k`'s value, or that from member `k + 1` on. */
  function ValueVerdict(f: Features, members: seq<Member>, k: nat, w: Style, depth: nat): Verdict
    requires k < |members|
  {
    var v := VerdictOf(f, members[k].value, w, depth);
    if v != Fine then v else MembersVerdict(f, members, k + 1, w, depth)
  }

  lemma {:induction false} ReadsMemberValue(f: Features, lib: Library, s: Text, c: nat, depth: nat,
                                            members: seq<Member>, k: nat, nodes: seq<Node>, w: Style, rest: seq<Text>)
    requires k < |members| && c <= |s| && Writable(lib, JObject(members), w) && nodes == BuiltMembers(f, members, k, w)
    requires Spaced(Tokens(members[k].value, w) + AfterMemberTokens(members, k, w, rest), s, c)
    requires depth <= f.stackLimit
    ensures Gives(ValueOfMember(f, lib, s, c, depth, nodes, Normal(members[k].name, w.emitUTF8)),
                  ValueVerdict(f, members, k, w, depth + 1), Built(f, JObject(members), w), s, rest)
    decreases members, |members| - k, 0, 0
  {
    hide ReadValue, AfterMember, MembersVerdict, Tokens, Put, Normal, Spaced, LowerBound, Lookup, VerdictOf, Built;
    hide BuiltMembers, HasKey, Repeats, MemberTokens;
    var name, more := Normal(members[k].name, w.emitUTF8), AfterMemberTokens(members, k, w, rest);
    var current := Lookup(nodes, Name(name));
    MemberBuilt(f, members, k, w);
    ReadsValue(f, lib, s, c, depth + 1, current, members[k].value, w, more);
    var r := ReadValue(f, lib, s, c, depth + 1, current);
    if r.Read? && r.ok {
      ReadsAfterMember(f, lib, s, depth, members, k, name == [], r, w, rest);
    } else if r.Read? {
      AfterMemberFailed(f, lib, s, depth, Put(nodes, Name(name), r.value), name == [], r);
    }
  }

  lemma {:induction false} ReadsAfterMember(f: Features, lib: Library, s: Text, depth: nat, members: seq<Member>,
                                            k: nat, unnamed: bool, value: Read, w: Style, rest: seq<Text>)
    requires k < |members| && value.Read? && value.ok && value.errors == [] && value.pos <= |s|
    requires Writable(lib, JObject(members), w)
    requires Spaced(AfterMemberTokens(members, k, w, rest), s, value.pos)
    requires depth <= f.stackLimit
    ensures Gives(AfterMember(f, lib, s, depth, BuiltMembers(f, members, k + 1, w), unnamed, value),
                  MembersVerdict(f, members, k + 1, w, depth + 1), Built(f, JObject(members), w), s, rest)
    decreases members, |members| - k - 1, 1
  {
    hide ReadToken, NonComment, SkipCommentTokens, ReadValue, ReadMembers, AfterMember, MemberTokens, Tokens, Spaced;
    hide SkipSpaces, Writable, VerdictOf, BuiltMembers, Normal;
    MemberBuilt(f, members, k, w);
    var nodes := BuiltMembers(f, members, k + 1, w);
    if k + 1 == |members| {
      ReadsPunctuation(f, s, value.pos, RBRACE, rest);
    } else {
      ReadsPunctuation(f, s, value.pos, COMMA, MemberTokens(members[k + 1..], w) + ([[RBRACE]] + rest));
      ReadsMemberList(f, lib, s, ReadToken(f, s, value.pos).end, depth, members, k + 1, nodes, unnamed, w, rest);
    }
    AfterMemberUnfold(f, lib, s, depth, nodes, unnamed, value, ReadToken(f, s, value.pos));
  }

  // ---------- Documents ----------

  lemma FirstByte(lib: Library, j: Json, w: Style)
    requires Writable(lib, j, w) && !Dropped(j, w)
    ensures Tokens(j, w) != [] && Tokens(j, w)[0] != [] && Tokens(j, w)[0][0] < 0x80
  {
    if j.JNumber? { IntTextShape(j.n); }
  }

  lemma NoByteOrderMark(lib: Library, f: Features, s: Text, j: Json, w: Style, rest: seq<Text>)
    requires Writable(lib, j, w) && Spaced(Tokens(j, w) + rest, s, 0) && Ends(rest)
    ensures Begin(f, s) == 0
  {
    if !Dropped(j, w) { FirstByte(lib, j, w); }
    var tokens := Tokens(j, w) + rest;
    if tokens != [] { FirstByteOf(s, tokens); }
  }

  lemma FirstByteOf(s: Text, tokens: seq<Text>)
    requires tokens != [] && Spaced(tokens, s, 0)
    ensures s != [] && tokens[0] != [] && (IsSpace(s[0]) || s[0] == tokens[0][0])
  {
    var q := SkipSpaces(s, 0);
    assert s[q] == s[q..q + |tokens[0]|][0];
  }

  /** What the verdict on a document says of the outcome of parsing it: an exception or a failure
      of the given kind; otherwise the value built, refused exactly when the root is a scalar and
      the features want a container. */
  ghost predicate ParsedAs(r: Read, f: Features, j: Json, w: Style) {
    match RootVerdict(f, j, w)
    case Throws => r.Thrown?
    case Fails(m) => r.Read? && !r.ok && r.errors != [] && r.errors[0].message == m
    case Fine =>
      r.Read? && r.value == Built(f, j, w)
      && (r.ok <==> !f.strictRoot || j.JArray? || j.JObject?)
      && r.ok == (r.errors == []) && (r.errors != [] ==> r.errors[0].message == RootNotContainer)
  }

  /** Parsing any layout of a document, with any features and any previous root, comes out as the
      verdict says, at the end of the text. */
  lemma ParseOfLayout(f: Features, lib: Library, s: Text, root: Value, j: Json, w: Style)
    requires Writable(lib, j, w) && Lays(Tokens(j, w), s)
    ensures var r := Parse(f, lib, s, root);
            ParsedAs(r, f, j, w) && (RootVerdict(f, j, w).Fine? ==> r.pos == |s|)
  {
    hide Writable, Tokens, Spaced, Parse;
    assert Tokens(j, w) + [] == Tokens(j, w);
    ParseOfEnding(f, lib, s, root, j, w, []);
  }

  /** Parsing a document up to where it ends. */
  lemma ParseOfEnding(f: Features, lib: Library, s: Text, root: Value, j: Json, w: Style, rest: seq<Text>)
    requires Writable(lib, j, w) && Spaced(Tokens(j, w) + rest, s, 0) && Ends(rest)
    ensures var r := Parse(f, lib, s, root);
            ParsedAs(r, f, j, w) && (RootVerdict(f, j, w).Fine? ==> StopsAt(s, r.pos, rest))
  {
    hide ReadValue, Writable, Tokens, Finish, Spaced, RootVerdict, Parse, Begin, StopsAt, ParsedAs;
    NoByteOrderMark(lib, f, s, j, w, rest);
    ParseIs(f, lib, s, root);
    RootOfEnding(f, lib, s, 0, root, j, w, rest);
  }

  /** What `parse` makes of the root value read. */
  function Finished(f: Features, s: Text, value: Read): Read
    requires value.Read? ==> value.pos <= |s| && (value.ok <==> value.errors == [])
  {
    if value.Thrown? then Thrown else Finish(f, s, value)
  }

  /** The root value and what follows it, from any position on. */
  lemma RootOfEnding(f: Features, lib: Library, s: Text, p: nat, root: Value, j: Json, w: Style, rest: seq<Text>)
    requires p <= |s| && Writable(lib, j, w) && Spaced(Tokens(j, w) + rest, s, p) && Ends(rest)
    ensures var r := Finished(f, s, ReadValue(f, lib, s, p, 1, root));
            ParsedAs(r, f, j, w) && (RootVerdict(f, j, w).Fine? ==> StopsAt(s, r.pos, rest))
  {
    hide ReadValue, Writable, Tokens, VerdictOf, Built, Finish, Spaced, Dropped, RootVerdict, StopsAt;
    DroppedVerdict(f, j, w);
    if Dropped(j, w) {
      ReadsNothing(f, lib, s, p, root, j, w, rest);
    } else {
      ReadsValue(f, lib, s, p, 1, root, j, w, rest);
    }
    var r := ReadValue(f, lib, s, p, 1, root);
    if r.Read? && r.ok {
      FinishGood(f, s, r, rest);
      BuiltContainer(f, j, w);
    } else if r.Read? {
      FinishBad(f, s, r);
    }
  }

  /** The cursor stands at the end of the text, or behind the NUL byte that ends the document. */
  ghost predicate StopsAt(s: Text, p: nat, rest: seq<Text>) {
    if rest == [] then p == |s| else 0 < p <= |s| && SkipSpaces(s, p - 1) == p - 1 && Spaced(rest, s, p - 1)
  }

  lemma ParseIs(f: Features, lib: Library, s: Text, root: Value)
    ensures Parse(f, lib, s, root) == Finished(f, s, ReadValue(f, lib, s, Begin(f, s), 1, root))
  {
    hide ReadValue, Finish;
  }

  lemma BuiltContainer(f: Features, j: Json, w: Style)
    ensures IsContainer(Built(f, j, w)) <==> j.JArray? || j.JObject?
  {
  }

  lemma FinishGood(f: Features, s: Text, value: Read, rest: seq<Text>)
    requires value.Read? && value.ok && value.errors == [] && value.pos <= |s| && Spaced(rest, s, value.pos)
             && Ends(rest)
    ensures var r := Finish(f, s, value);
            r.value == value.value && StopsAt(s, r.pos, rest)
            && (r.ok <==> !f.strictRoot || IsContainer(value.value))
            && r.ok == (r.errors == []) && (r.errors != [] ==> r.errors[0].message == RootNotContainer)
  {
    hide SkipCommentTokens, ReadToken, NonComment, Spaced;
    var t := EndsStream(f, s, value.pos, rest);
  }

  lemma FinishBad(f: Features, s: Text, value: Read)
    requires value.Read? && !value.ok && value.errors != [] && value.pos <= |s|
    ensures var r := Finish(f, s, value); !r.ok && r.errors != [] && r.errors[0] == value.errors[0]
  {
    hide SkipCommentTokens;
  }

  lemma DroppedVerdict(f: Features, j: Json, w: Style)
    ensures RootVerdict(f, j, w)
         == if !Dropped(j, w) then VerdictOf(f, j, w, 1) else if f.stackLimit == 0 then Throws else Fails(ValueExpected)
  {
  }

  /** A dropped null at the root leaves a text without tokens. */
  lemma ReadsNothing(f: Features, lib: Library, s: Text, p: nat, root: Value, j: Json, w: Style, rest: seq<Text>)
    requires p <= |s| && Dropped(j, w) && Spaced(Tokens(j, w) + rest, s, p) && Ends(rest)
    ensures var r := ReadValue(f, lib, s, p, 1, root);
            if f.stackLimit == 0 then r.Thrown?
            else r.Read? && !r.ok && |r.errors| == 1 && r.errors[0].message == ValueExpected
  {
    hide ReadValue, SkipCommentTokens, ReadToken, NonComment, Unescape, NumberOf, Spaced;
    DroppedTokens(j, w, rest);
    var t := EndsStream(f, s, p, rest);
    if f.stackLimit == 0 {
      ValueTooDeep(f, lib, s, p, 1, root);
    } else {
      ValueOfToken(f, lib, s, p, 1, root, t);
    }
  }

  /** Where the document ends, the reader finds the end of the stream; a NUL byte it consumes. */
  lemma EndsStream(f: Features, s: Text, p: nat, rest: seq<Text>) returns (t: Token)
    requires p <= |s| && Spaced(rest, s, p) && Ends(rest)
    ensures t.kind == EndOfStream && t.start <= t.end <= |s| && Yields(f, s, p, t) && StopsAt(s, t.end, rest)
  {
    var q := SkipSpaces(s, p);
    if rest == [] {
      t := Token(EndOfStream, q, q);
    } else {
      assert s[q] == s[q..q + |rest[0]|][0];
      SkipSpacesTwice(s, p);
      t := Token(EndOfStream, q, q + 1);
    }
  }
}
