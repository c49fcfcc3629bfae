/** JSON strings: the writer's escaping, the reader's search for the closing quote, and
    the reader's unescaping (section 7 of RFC 8259), with the round trips between them. */
module Quoting {
  import opened Chars
  import opened Utf8

  // ---------- Writer: valueToQuotedStringN ----------

  predicate RequiresEscaping(c: Byte) {
    c == BACKSLASH || c == QUOTE || c < 0x20 || c > 0x7F
  }

  function HexDigit(d: nat): Byte
    requires d < 0x10
  {
    if d < 10 then 0x30 + d else 0x61 + (d - 10)
  }

  function ToHex16Bit(x: nat): Text
    requires x < 0x10000
  {
    [HexDigit(x / 0x1000), HexDigit(x / 0x100 % 0x10), HexDigit(x / 0x10 % 0x10), HexDigit(x % 0x10)]
  }

  /** `\u` and four hexadecimal digits. */
  function HexEscape(x: nat): Text
    requires x < 0x10000
  {
    [BACKSLASH, 0x75] + ToHex16Bit(x)
  }

  /** The letter of the two-character escape of `c`, or 0 if it has none. */
  function ShortEscape(c: Byte): Byte {
    if c == QUOTE then QUOTE
    else if c == BACKSLASH then BACKSLASH
    else if c == 0x08 then 0x62
    else if c == 0x0C then 0x66
    else if c == LF then 0x6E
    else if c == CR then 0x72
    else if c == TAB then 0x74
    else NUL
  }

  function EscapeCodePoint(cp: nat): Text
    requires cp <= 0x1FFFFF
  {
    if cp < 0x20 then HexEscape(cp)
    else if cp < 0x80 then [cp]
    else if cp < 0x10000 then HexEscape(cp)
    else HexEscape(0xD800 + (cp - 0x10000) / 0x400 % 0x400) + HexEscape(0xDC00 + (cp - 0x10000) % 0x400)
  }

  /** How many bytes of `s` one turn of the escaping loop reads. */
  function UnitWidth(s: Text, emitUTF8: bool): (w: nat)
    requires s != []
    ensures 1 <= w <= |s|
  {
    if ShortEscape(s[0]) != NUL || emitUTF8 then 1 else Utf8ToCodepoint(s).width
  }

  /** What one turn of the escaping loop appends. */
  function EscapeUnit(s: Text, emitUTF8: bool): Text
    requires s != []
  {
    if ShortEscape(s[0]) != NUL then [BACKSLASH, ShortEscape(s[0])]
    else if emitUTF8 then if s[0] < 0x20 then HexEscape(s[0]) else [s[0]]
    else EscapeCodePoint(Utf8ToCodepoint(s).codepoint)
  }

  function Escape(s: Text, emitUTF8: bool): Text {
    if s == [] then [] else EscapeUnit(s, emitUTF8) + Escape(s[UnitWidth(s, emitUTF8)..], emitUTF8)
  }

  function Quoted(s: Text, emitUTF8: bool): Text {
    [QUOTE] + Escape(s, emitUTF8) + [QUOTE]
  }

  lemma {:induction false} EscapeOfPlainText(s: Text, emitUTF8: bool)
    requires forall i | 0 <= i < |s| :: !RequiresEscaping(s[i])
    ensures Escape(s, emitUTF8) == s
  {
    if s == [] {
    } else {
      EscapeOfPlainText(s[1..], emitUTF8);
      assert s == [s[0]] + s[1..];
    }
  }

  method DoesAnyCharRequireEscaping(s: Text) returns (r: bool)
    ensures r <==> exists i | 0 <= i < |s| :: RequiresEscaping(s[i])
  {
    for k := 0 to |s|
      invariant forall i | 0 <= i < k :: !RequiresEscaping(s[i])
    {
      if RequiresEscaping(s[k]) {
        return true;
      }
    }
    return false;
  }

  /** One turn of the escaping loop: what it appends, and where it leaves the cursor
      (which `utf8ToCodepoint` also moves over the bytes of one character). */
  method EscapeOne(value: Text, c: nat, emitUTF8: bool) returns (unit: Text, next: nat)
    requires c < |value|
    ensures unit == EscapeUnit(value[c..], emitUTF8)
    ensures next == c + UnitWidth(value[c..], emitUTF8)
  {
    if ShortEscape(value[c]) != NUL {
      return [BACKSLASH, ShortEscape(value[c])], c + 1;
    } else if emitUTF8 {
      return if value[c] < 0x20 then HexEscape(value[c]) else [value[c]], c + 1;
    } else {
      var r := Utf8ToCodepoint(value[c..]);
      return EscapeCodePoint(r.codepoint), c + r.width;
    }
  }

  /** The writer's quoting: plain text is copied, anything else goes through the loop. */
  method ValueToQuotedStringN(value: Text, emitUTF8: bool) returns (result: Text)
    ensures result == Quoted(value, emitUTF8)
  {
    var escaping := DoesAnyCharRequireEscaping(value);
    if !escaping {
      EscapeOfPlainText(value, emitUTF8);
      return [QUOTE] + value + [QUOTE];
    }
    result := [QUOTE];
    var c := 0;
    while c != |value|
      invariant 0 <= c <= |value|
      invariant result + Escape(value[c..], emitUTF8) == [QUOTE] + Escape(value, emitUTF8)
      decreases |value| - c
    {
      EscapeStep(value, c, emitUTF8, result);
      var unit;
      unit, c := EscapeOne(value, c, emitUTF8);
      result := result + unit;
    }
    assert value[c..] == [];
    result := result + [QUOTE];
  }

  lemma EscapeStep(value: Text, c: nat, emitUTF8: bool, result: Text)
    requires c < |value|
    ensures result + Escape(value[c..], emitUTF8)
         == result + EscapeUnit(value[c..], emitUTF8) + Escape(value[c + UnitWidth(value[c..], emitUTF8)..], emitUTF8)
  {
    var s := value[c..];
    var w := UnitWidth(s, emitUTF8);
    assert s[w..] == value[c + w..];
    assert result + (EscapeUnit(s, emitUTF8) + Escape(s[w..], emitUTF8))
           == result + EscapeUnit(s, emitUTF8) + Escape(s[w..], emitUTF8);
  }

  // ---------- Reader: readString ----------

  /** The outcome of scanning for the closing quote, and the position after it. */
  datatype Scan = Scan(ok: bool, end: nat)

  /** `readString` and `readStringSingleQuote`, from the position after the opening quote. */
  function ScanString(s: Text, p: nat, quote: Byte): (r: Scan)
    requires p <= |s| && quote != BACKSLASH
    ensures p <= r.end <= |s|
    ensures r.ok ==> p < r.end && s[r.end - 1] == quote
    ensures !r.ok ==> r.end == |s|
    decreases |s| - p
  {
    if p == |s| then Scan(false, p)
    else if s[p] == BACKSLASH then
      if p + 1 == |s| then Scan(false, p + 1) else ScanString(s, p + 2, quote)
    else if s[p] == quote then Scan(true, p + 1)
    else ScanString(s, p + 1, quote)
  }

  /** Text in which every backslash is paired with the byte after it and no quote stands alone. */
  predicate StringBody(u: Text) {
    Body(u, QUOTE)
  }

  /** The same for either quote. */
  predicate Body(u: Text, quote: Byte) {
    if u == [] then true
    else if u[0] == BACKSLASH then |u| >= 2 && Body(u[2..], quote)
    else u[0] != quote && Body(u[1..], quote)
  }

  lemma {:induction false} StringBodyConcat(a: Text, b: Text)
    requires StringBody(a) && StringBody(b)
    ensures StringBody(a + b)
  {
    if a == [] {
      assert a + b == b;
    } else {
      var k := if a[0] == BACKSLASH then 2 else 1;
      StringBodyConcat(a[k..], b);
      assert (a + b)[k..] == a[k..] + b;
    }
  }

  lemma HexEscapeIsBody(x: nat)
    requires x < 0x10000
    ensures StringBody(HexEscape(x))
  {
    var t := ToHex16Bit(x);
    assert HexEscape(x)[2..] == t;
    assert StringBody(t[4..]) && StringBody(t[3..]) && StringBody(t[2..]) && StringBody(t[1..]);
  }

  lemma EscapeUnitIsBody(s: Text, emitUTF8: bool)
    requires s != []
    ensures StringBody(EscapeUnit(s, emitUTF8))
  {
    var cp := Utf8ToCodepoint(s).codepoint;
    if ShortEscape(s[0]) != NUL {
      assert EscapeUnit(s, emitUTF8)[2..] == [];
    } else if emitUTF8 {
      if s[0] < 0x20 { HexEscapeIsBody(s[0]); }
    } else if cp < 0x20 || 0x80 <= cp < 0x10000 {
      HexEscapeIsBody(cp);
    } else if 0x10000 <= cp {
      HexEscapeIsBody(0xD800 + (cp - 0x10000) / 0x400 % 0x400);
      HexEscapeIsBody(0xDC00 + (cp - 0x10000) % 0x400);
      StringBodyConcat(HexEscape(0xD800 + (cp - 0x10000) / 0x400 % 0x400), HexEscape(0xDC00 + (cp - 0x10000) % 0x400));
    }
  }

  lemma {:induction false} EscapeIsBody(s: Text, emitUTF8: bool)
    ensures StringBody(Escape(s, emitUTF8))
  {
    if s == [] {
    } else {
      EscapeUnitIsBody(s, emitUTF8);
      EscapeIsBody(s[UnitWidth(s, emitUTF8)..], emitUTF8);
      StringBodyConcat(EscapeUnit(s, emitUTF8), Escape(s[UnitWidth(s, emitUTF8)..], emitUTF8));
    }
  }

  lemma {:induction false} ScanOverBody(s: Text, p: nat, body: Text, quote: Byte)
    requires quote != BACKSLASH && Body(body, quote) && StandsAt(s, p, body + [quote])
    ensures ScanString(s, p, quote) == Scan(true, p + |body| + 1)
    decreases |body|
  {
    var t := s[p..p + |body| + 1];
    assert forall i | 0 <= i <= |body| :: s[p + i] == t[i] == (body + [quote])[i];
    if body != [] {
      assert s[p] == body[0];
      var k := if body[0] == BACKSLASH then 2 else 1;
      assert s[p + k..p + k + |body[k..]| + 1] == t[k..] == body[k..] + [quote];
      ScanOverBody(s, p + k, body[k..], quote);
    } else {
      assert s[p] == t[0];
    }
  }

  /** The scan succeeds exactly when a body and a closing quote follow, and stops right behind
      them, whichever the quote. */
  lemma ScanIff(s: Text, p: nat, quote: Byte, e: nat)
    requires p <= |s| && quote != BACKSLASH
    ensures ScanString(s, p, quote) == Scan(true, e)
            <==> p < e <= |s| && s[e - 1] == quote && Body(s[p..e - 1], quote)
  {
    if ScanString(s, p, quote) == Scan(true, e) { ScannedBody(s, p, quote); }
    if p < e <= |s| && s[e - 1] == quote && Body(s[p..e - 1], quote) {
      assert s[p..e] == s[p..e - 1] + [quote];
      ScanOverBody(s, p, s[p..e - 1], quote);
    }
  }

  lemma {:induction false} ScannedBody(s: Text, p: nat, quote: Byte)
    requires p <= |s| && quote != BACKSLASH && ScanString(s, p, quote).ok
    ensures Body(s[p..ScanString(s, p, quote).end - 1], quote)
    decreases |s| - p
  {
    var e := ScanString(s, p, quote).end - 1;
    var k := if s[p] == BACKSLASH then 2 else 1;
    if s[p] == BACKSLASH || s[p] != quote {
      ScannedBody(s, p + k, quote);
      assert s[p..e][k..] == s[p + k..e];
    }
  }

  /** `readString` stops exactly at the closing quote the writer put. */
  lemma ScanFindsClosingQuote(s: Text, p: nat, value: Text, emitUTF8: bool)
    requires StandsAt(s, p, Quoted(value, emitUTF8))
    ensures s[p] == QUOTE
    ensures ScanString(s, p + 1, QUOTE) == Scan(true, p + |Quoted(value, emitUTF8)|)
  {
    var q, e := Quoted(value, emitUTF8), Escape(value, emitUTF8);
    assert q[1..] == e + [QUOTE];
    assert s[p + 1..p + |q|] == s[p..p + |q|][1..];
    assert s[p] == s[p..p + |q|][0];
    EscapeIsBody(value, emitUTF8);
    ScanOverBody(s, p + 1, e, QUOTE);
  }

  // ---------- Reader: decodeString ----------

  datatype EscapeError = EmptyEscape | BadEscape | FourDigitsExpected | HexDigitExpected
                       | SurrogateTooShort | SurrogateWithoutEscape

  datatype Decoded = Decoded(text: Text) | Malformed(error: EscapeError)

  function Prepend(t: Text, d: Decoded): Decoded {
    if d.Decoded? then Decoded(t + d.text) else d
  }

  predicate IsHexDigit(c: Byte) {
    IsDigit(c) || 0x61 <= c <= 0x66 || 0x41 <= c <= 0x46
  }

  function HexValue(c: Byte): (r: nat)
    requires IsHexDigit(c)
    ensures r < 0x10
  {
    if IsDigit(c) then c - 0x30 else if c >= 0x61 then c - 0x61 + 10 else c - 0x41 + 10
  }

  datatype HexRead = Hex(unicode: nat) | HexError(error: EscapeError)

  /** `decodeUnicodeEscapeSequence`: the four hexadecimal digits `b` starts with. */
  function ReadHex4(b: Text): (r: HexRead)
    ensures r.Hex? ==> |b| >= 4 && r.unicode < 0x10000
  {
    if |b| < 4 then HexError(FourDigitsExpected)
    else if IsHexDigit(b[0]) && IsHexDigit(b[1]) && IsHexDigit(b[2]) && IsHexDigit(b[3]) then
      Hex(((HexValue(b[0]) * 16 + HexValue(b[1])) * 16 + HexValue(b[2])) * 16 + HexValue(b[3]))
    else HexError(HexDigitExpected)
  }

  datatype CodePointRead = CodePoint(unicode: nat, width: nat) | CodePointError(error: EscapeError)

  /** `decodeUnicodeCodePoint`: one escape, or a high surrogate and whatever escape follows it. */
  function ReadCodePoint(b: Text): (r: CodePointRead)
    ensures r.CodePoint? ==> 4 <= r.width <= |b| && r.unicode <= 0x10FFFF
  {
    var first := ReadHex4(b);
    if first.HexError? then CodePointError(first.error)
    else if !(0xD800 <= first.unicode <= 0xDBFF) then CodePoint(first.unicode, 4)
    else if |b| < 10 then CodePointError(SurrogateTooShort)
    else if b[4] != BACKSLASH || b[5] != 0x75 then CodePointError(SurrogateWithoutEscape)
    else
      var second := ReadHex4(b[6..]);
      if second.HexError? then CodePointError(second.error)
      else CodePoint(0x10000 + first.unicode % 0x400 * 0x400 + second.unicode % 0x400, 10)
  }

  /** The byte a two-character escape stands for, or -1. */
  function Unescaped(e: Byte): (c: int)
    ensures -1 <= c < 0x100
  {
    if e == QUOTE || e == SLASH || e == BACKSLASH then e
    else if e == 0x62 then 0x08
    else if e == 0x66 then 0x0C
    else if e == 0x6E then LF
    else if e == 0x72 then CR
    else if e == 0x74 then TAB
    else -1
  }

  /** `decodeString` on the bytes between the quotes. */
  function Unescape(b: Text): Decoded {
    if b == [] || b[0] == QUOTE then Decoded([])
    else if b[0] != BACKSLASH then Prepend([b[0]], Unescape(b[1..]))
    else if |b| == 1 then Malformed(EmptyEscape)
    else if Unescaped(b[1]) >= 0 then Prepend([Unescaped(b[1])], Unescape(b[2..]))
    else if b[1] != 0x75 then Malformed(BadEscape)
    else
      var r := ReadCodePoint(b[2..]);
      if r.CodePointError? then Malformed(r.error)
      else Prepend(CodePointToUTF8(r.unicode), Unescape(b[2 + r.width..]))
  }

  lemma HexOfDigit(d: nat)
    requires d < 0x10
    ensures IsHexDigit(HexDigit(d)) && HexValue(HexDigit(d)) == d
  {
  }

  lemma HexRoundTrip(x: nat, rest: Text)
    requires x < 0x10000
    ensures ReadHex4(ToHex16Bit(x) + rest) == Hex(x)
  {
    var d3, d2, d1, d0 := x / 0x1000, x / 0x100 % 0x10, x / 0x10 % 0x10, x % 0x10;
    FourDigits(x);
    ReadsDigits(d3, d2, d1, d0, rest);
  }

  lemma FourDigits(x: nat)
    requires x < 0x10000
    ensures x / 0x1000 < 0x10
    ensures ((x / 0x1000 * 16 + x / 0x100 % 0x10) * 16 + x / 0x10 % 0x10) * 16 + x % 0x10 == x
  {
    assert x == x / 0x10 * 0x10 + x % 0x10;
    assert x / 0x10 == x / 0x100 * 0x10 + x / 0x10 % 0x10;
    assert x / 0x100 == x / 0x1000 * 0x10 + x / 0x100 % 0x10;
  }

  lemma ReadsDigits(d3: nat, d2: nat, d1: nat, d0: nat, rest: Text)
    requires d3 < 0x10 && d2 < 0x10 && d1 < 0x10 && d0 < 0x10
    ensures ReadHex4([HexDigit(d3), HexDigit(d2), HexDigit(d1), HexDigit(d0)] + rest)
            == Hex(((d3 * 16 + d2) * 16 + d1) * 16 + d0)
  {
    hide HexDigit, HexValue, IsHexDigit;
    var b := [HexDigit(d3), HexDigit(d2), HexDigit(d1), HexDigit(d0)] + rest;
    assert b[0] == HexDigit(d3) && b[1] == HexDigit(d2) && b[2] == HexDigit(d1) && b[3] == HexDigit(d0);
    HexOfDigit(d3);
    HexOfDigit(d2);
    HexOfDigit(d1);
    HexOfDigit(d0);
  }

  // ---------- What reading back gives ----------

  /** A code point as a surrogate pair can carry it: twenty bits above 0x10000. */
  function Clip(cp: nat): (r: nat)
    ensures cp <= 0x10FFFF ==> r == cp
    ensures (cp < 0xD800 || 0xDFFF < cp) ==> IsScalar(r)
  {
    if cp < 0x10000 then cp else 0x10000 + (cp - 0x10000) % 0x100000
  }

  /** The bytes that one turn of the escaping loop is read back as. */
  function NormalUnit(s: Text, emitUTF8: bool): Text
    requires s != []
  {
    if emitUTF8 then [s[0]] else CodePointToUTF8(Clip(Utf8ToCodepoint(s).codepoint))
  }

  /** The text that quoting and unquoting turns `s` into. */
  function Normal(s: Text, emitUTF8: bool): Text {
    if s == [] then [] else NormalUnit(s, emitUTF8) + Normal(s[UnitWidth(s, emitUTF8)..], emitUTF8)
  }

  lemma UnescapeHexEscape(x: nat, rest: Text)
    requires x < 0x10000 && !(0xD800 <= x <= 0xDBFF)
    ensures Unescape(HexEscape(x) + rest) == Prepend(CodePointToUTF8(x), Unescape(rest))
  {
    var b := HexEscape(x) + rest;
    assert b[2..] == ToHex16Bit(x) + rest;
    HexRoundTrip(x, rest);
    assert b[6..] == rest;
  }

  lemma ReadSurrogates(b: Text, first: nat, second: nat)
    requires |b| >= 10 && 0xD800 <= first <= 0xDBFF
    requires ReadHex4(b) == Hex(first) && b[4] == BACKSLASH && b[5] == 0x75 && ReadHex4(b[6..]) == Hex(second)
    ensures ReadCodePoint(b) == CodePoint(0x10000 + first % 0x400 * 0x400 + second % 0x400, 10)
  {
  }

  lemma ReadSurrogatePair(x: nat, y: nat, rest: Text)
    requires 0xD800 <= x <= 0xDBFF && y < 0x10000
    ensures ReadCodePoint(ToHex16Bit(x) + (HexEscape(y) + rest))
         == CodePoint(0x10000 + x % 0x400 * 0x400 + y % 0x400, 10)
  {
    HexRoundTrip(x, HexEscape(y) + rest);
    HexRoundTrip(y, rest);
    SliceAfterHex(ToHex16Bit(x), ToHex16Bit(y), rest);
    ReadSurrogates(ToHex16Bit(x) + (HexEscape(y) + rest), x, y);
  }

  lemma SliceAfterHex(t0: Text, t1: Text, rest: Text)
    requires |t0| == |t1| == 4
    ensures var b := t0 + ([BACKSLASH, 0x75] + t1 + rest);
            b[4] == BACKSLASH && b[5] == 0x75 && b[6..] == t1 + rest
  {
  }

  lemma SliceAfterPair(t0: Text, t1: Text, rest: Text)
    requires |t0| == |t1| == 4
    ensures var b := [BACKSLASH, 0x75] + t0 + ([BACKSLASH, 0x75] + t1) + rest;
            b[0] == BACKSLASH && b[1] == 0x75 && b[2..] == t0 + ([BACKSLASH, 0x75] + t1 + rest) && b[12..] == rest
  {
  }

  lemma UnescapeSurrogates(x: nat, y: nat, rest: Text)
    requires 0xD800 <= x <= 0xDBFF && y < 0x10000
    ensures Unescape(HexEscape(x) + HexEscape(y) + rest)
         == Prepend(CodePointToUTF8(0x10000 + x % 0x400 * 0x400 + y % 0x400), Unescape(rest))
  {
    ReadSurrogatePair(x, y, rest);
    SliceAfterPair(ToHex16Bit(x), ToHex16Bit(y), rest);
    UnescapeUnicode(HexEscape(x) + HexEscape(y) + rest, 0x10000 + x % 0x400 * 0x400 + y % 0x400, 10);
  }

  /** The twenty bits of a surrogate pair. */
  lemma PairBits(c: nat)
    ensures (0xD800 + c / 0x400 % 0x400) % 0x400 * 0x400 + (0xDC00 + c % 0x400) % 0x400 == c % 0x100000
  {
    var high, low := c / 0x400 % 0x400, c % 0x400;
    assert (0xD800 + high) % 0x400 == high;
    assert (0xDC00 + low) % 0x400 == low;
  }

  lemma UnescapeUnicode(b: Text, unicode: nat, width: nat)
    requires |b| >= 2 && b[0] == BACKSLASH && b[1] == 0x75
    requires ReadCodePoint(b[2..]) == CodePoint(unicode, width)
    ensures Unescape(b) == Prepend(CodePointToUTF8(unicode), Unescape(b[2 + width..]))
  {
  }

  lemma UnescapeCodePoint(cp: nat, rest: Text)
    requires cp <= 0x1FFFFF && !(0xD800 <= cp <= 0xDFFF) && ShortEscape(if cp < 0x80 then cp else 0) == NUL
    ensures Unescape(EscapeCodePoint(cp) + rest) == Prepend(CodePointToUTF8(Clip(cp)), Unescape(rest))
  {
    if cp < 0x20 {
      UnescapeHexEscape(cp, rest);
    } else if cp < 0x80 {
      UnescapeRaw(cp, rest);
    } else if cp < 0x10000 {
      UnescapeHexEscape(cp, rest);
    } else {
      UnescapeAstral(cp, rest);
    }
  }

  lemma UnescapeAstral(cp: nat, rest: Text)
    requires 0x10000 <= cp <= 0x1FFFFF
    ensures Unescape(EscapeCodePoint(cp) + rest) == Prepend(CodePointToUTF8(Clip(cp)), Unescape(rest))
  {
    hide Unescape, CodePointToUTF8, HexEscape, Prepend;
    var c := cp - 0x10000;
    var x, y := 0xD800 + c / 0x400 % 0x400, 0xDC00 + c % 0x400;
    assert 0xD800 <= x <= 0xDBFF && y < 0x10000;
    PairBits(c);
    assert EscapeCodePoint(cp) == HexEscape(x) + HexEscape(y);
    UnescapeSurrogates(x, y, rest);
  }

  lemma UnescapeShort(c: Byte, rest: Text)
    requires ShortEscape(c) != NUL
    ensures Unescape([BACKSLASH, ShortEscape(c)] + rest) == Prepend([c], Unescape(rest))
  {
    var b := [BACKSLASH, ShortEscape(c)] + rest;
    assert Unescaped(b[1]) == c;
    assert b[2..] == rest;
  }

  lemma UnescapeRaw(c: Byte, rest: Text)
    requires c != QUOTE && c != BACKSLASH
    ensures Unescape([c] + rest) == Prepend([c], Unescape(rest))
  {
    assert ([c] + rest)[1..] == rest;
  }

  lemma UnescapeUndoesUnit(s: Text, emitUTF8: bool, rest: Text)
    requires s != []
    ensures Unescape(EscapeUnit(s, emitUTF8) + rest) == Prepend(NormalUnit(s, emitUTF8), Unescape(rest))
  {
    if ShortEscape(s[0]) != NUL {
      UnescapeShort(s[0], rest);
    } else if !emitUTF8 {
      UnescapeCodePoint(Utf8ToCodepoint(s).codepoint, rest);
    } else if s[0] < 0x20 {
      UnescapeHexEscape(s[0], rest);
    } else {
      UnescapeRaw(s[0], rest);
    }
  }

  /** Unescaping undoes escaping, up to the normal form, for every byte string. */
  lemma {:induction false} UnescapeUndoesEscape(s: Text, emitUTF8: bool)
    ensures Unescape(Escape(s, emitUTF8)) == Decoded(Normal(s, emitUTF8))
  {
    if s == [] {
    } else {
      var t := s[UnitWidth(s, emitUTF8)..];
      UnescapeUndoesEscape(t, emitUTF8);
      UnescapeUndoesUnit(s, emitUTF8, Escape(t, emitUTF8));
    }
  }

  /** With `emitUTF8` nothing is lost. */
  lemma {:induction false} NormalOfRawBytes(s: Text)
    ensures Normal(s, true) == s
  {
    if s == [] {
    } else {
      NormalOfRawBytes(s[1..]);
      assert s == [s[0]] + s[1..];
    }
  }

  /** Without it, well-formed UTF-8 is kept byte for byte. */
  lemma {:induction false} NormalOfWellFormed(s: Text)
    requires WellFormed(s)
    ensures Normal(s, false) == s
  {
    hide CharWidth, NormalUnit, UnitWidth;
    if s == [] {
    } else {
      var w := CharWidth(s);
      UnitOfWellFormed(s);
      NormalOfWellFormed(s[w..]);
      assert s == s[..w] + s[w..];
    }
  }

  /** One turn of the escaping loop keeps a well-formed character. */
  lemma UnitOfWellFormed(s: Text)
    requires s != [] && CharWidth(s) > 0
    ensures UnitWidth(s, false) == CharWidth(s) && NormalUnit(s, false) == s[..CharWidth(s)]
  {
    hide Utf8ToCodepoint, CodePointToUTF8;
    ScanUndoesEncode(s);
  }

  /** Whatever the input bytes, the normal form is well-formed UTF-8. */
  lemma {:induction false} NormalIsWellFormed(s: Text)
    ensures WellFormed(Normal(s, false))
  {
    hide Utf8ToCodepoint, CodePointToUTF8, CharWidth;
    if s == [] {
    } else {
      NormalIsWellFormed(s[UnitWidth(s, false)..]);
      EncodeIsWellFormed(Clip(Utf8ToCodepoint(s).codepoint), Normal(s[UnitWidth(s, false)..], false));
    }
  }

  /** `Normal` changes nothing exactly when the text is well-formed UTF-8. */
  lemma KeptIffWellFormed(s: Text)
    ensures Normal(s, false) == s <==> WellFormed(s)
  {
    NormalIsWellFormed(s);
    if WellFormed(s) { NormalOfWellFormed(s); }
  }

  /** Quoting and unquoting twice is the same as once. */
  lemma NormalIsIdempotent(s: Text, emitUTF8: bool)
    ensures Normal(Normal(s, emitUTF8), emitUTF8) == Normal(s, emitUTF8)
  {
    if emitUTF8 {
      NormalOfRawBytes(s);
    } else {
      NormalIsWellFormed(s);
      NormalOfWellFormed(Normal(s, false));
    }
  }

  predicate Printable(c: Byte) {
    0x20 <= c <= 0x7F
  }

  lemma EscapeUnitIsPrintable(s: Text)
    requires s != []
    ensures forall i | 0 <= i < |EscapeUnit(s, false)| :: Printable(EscapeUnit(s, false)[i])
  {
    var cp := Utf8ToCodepoint(s).codepoint;
    if 0x10000 <= cp {
      var a, b := HexEscape(0xD800 + (cp - 0x10000) / 0x400 % 0x400), HexEscape(0xDC00 + (cp - 0x10000) % 0x400);
      assert forall i | 0 <= i < 12 :: (a + b)[i] == if i < 6 then a[i] else b[i - 6];
    }
  }

  /** Without `emitUTF8` only bytes 0x20 to 0x7F are written, whatever the input bytes. */
  lemma {:induction false} QuotedIsPrintable(s: Text)
    ensures forall i | 0 <= i < |Quoted(s, false)| :: Printable(Quoted(s, false)[i])
  {
    if s == [] {
    } else {
      EscapeUnitIsPrintable(s);
      var t := s[UnitWidth(s, false)..];
      QuotedIsPrintable(t);
      assert forall i | 0 <= i < |Escape(t, false)| :: Escape(t, false)[i] == Quoted(t, false)[i + 1];
    }
  }

  // ---------- The tables of section 7 of RFC 8259 ----------

  lemma LowerDigits(d: nat)
    requires d < 0x10
    ensures Ascii("0123456789abcdef")[d] == if d < 10 then 0x30 + d else 0x57 + d
  {
  }

  lemma UpperDigits(d: nat)
    requires d < 0x10
    ensures Ascii("0123456789ABCDEF")[d] == if d < 10 then 0x30 + d else 0x37 + d
  {
  }

  /** Hexadecimal digits: the writer's are lower case, the reader's of either case. */
  lemma HexDigitsAre(d: nat)
    requires d < 0x10
    ensures HexDigit(d) == Ascii("0123456789abcdef")[d]
    ensures IsHexDigit(Ascii("0123456789ABCDEF")[d]) && HexValue(Ascii("0123456789ABCDEF")[d]) == d
    ensures IsHexDigit(Ascii("0123456789abcdef")[d]) && HexValue(Ascii("0123456789abcdef")[d]) == d
  {
    hide Ascii;
    LowerDigits(d);
    UpperDigits(d);
  }

  lemma HexDigitIff(c: Byte)
    ensures IsHexDigit(c) <==> c in Ascii("0123456789abcdef") || c in Ascii("0123456789ABCDEF")
  {
    hide Ascii;
    if IsHexDigit(c) {
      var d := HexValue(c);
      LowerDigits(d);
      UpperDigits(d);
    }
    forall d: nat | d < 0x10
      ensures IsHexDigit(Ascii("0123456789abcdef")[d]) && IsHexDigit(Ascii("0123456789ABCDEF")[d])
    {
      HexDigitsAre(d);
    }
  }

  /** The writer's escapes: a letter for the bytes that have one, four digits for the other control
      characters, and all other ASCII as it is. */
  lemma WritesAscii(c: Byte, rest: Text, emitUTF8: bool)
    requires c < 0x80
    ensures UnitWidth([c] + rest, emitUTF8) == 1
    ensures c == 0x08 ==> EscapeUnit([c] + rest, emitUTF8) == Ascii("\\b")
    ensures c == 0x09 ==> EscapeUnit([c] + rest, emitUTF8) == Ascii("\\t")
    ensures c == 0x0A ==> EscapeUnit([c] + rest, emitUTF8) == Ascii("\\n")
    ensures c == 0x0C ==> EscapeUnit([c] + rest, emitUTF8) == Ascii("\\f")
    ensures c == 0x0D ==> EscapeUnit([c] + rest, emitUTF8) == Ascii("\\r")
    ensures c == 0x22 ==> EscapeUnit([c] + rest, emitUTF8) == Ascii("\\\"")
    ensures c == 0x5C ==> EscapeUnit([c] + rest, emitUTF8) == Ascii("\\\\")
    ensures c < 0x20 && c !in {0x08, 0x09, 0x0A, 0x0C, 0x0D} ==>
              EscapeUnit([c] + rest, emitUTF8) == Ascii("\\u00") + [HexDigit(c / 0x10), HexDigit(c % 0x10)]
    ensures c >= 0x20 && c !in {0x22, 0x5C} ==> EscapeUnit([c] + rest, emitUTF8) == [c]
  {
    assert ([c] + rest)[0] == c;
  }

  /** With `emitUTF8` every byte beyond ASCII is written as it is, and no control character. */
  lemma {:induction false} NoControlCharacters(s: Text, emitUTF8: bool)
    ensures forall c | c in Escape(s, emitUTF8) :: c >= 0x20
  {
    if s == [] {
    } else {
      NoControlCharacters(s[UnitWidth(s, emitUTF8)..], emitUTF8);
      if emitUTF8 {
        assert forall c | c in EscapeUnit(s, emitUTF8) :: c >= 0x20;
      } else {
        EscapeUnitIsPrintable(s);
      }
    }
  }

  /** U+1F600 as a surrogate pair. */
  lemma WritesAstral()
    ensures EscapeCodePoint(0x1F600) == Ascii("\\ud83d") + Ascii("\\ude00")
  {
    hide HexEscape;
    HighHalf();
    LowHalf();
  }

  lemma HighHalf()
    ensures HexEscape(0xD83D) == Ascii("\\ud83d")
  {
  }

  lemma LowHalf()
    ensures HexEscape(0xDE00) == Ascii("\\ude00")
  {
  }

  /** The reader's escapes of one character. */
  lemma ReadsEscape(b: Text)
    requires b != [] && b[0] == 0x5C
    ensures |b| == 1 ==> Unescape(b) == Malformed(EmptyEscape)
    ensures |b| >= 2 && b[1] in Ascii("\"\\/") ==> Unescape(b) == Prepend([b[1]], Unescape(b[2..]))
    ensures |b| >= 2 && b[1] == 'b' as int ==> Unescape(b) == Prepend([0x08], Unescape(b[2..]))
    ensures |b| >= 2 && b[1] == 'f' as int ==> Unescape(b) == Prepend([0x0C], Unescape(b[2..]))
    ensures |b| >= 2 && b[1] == 'n' as int ==> Unescape(b) == Prepend([0x0A], Unescape(b[2..]))
    ensures |b| >= 2 && b[1] == 'r' as int ==> Unescape(b) == Prepend([0x0D], Unescape(b[2..]))
    ensures |b| >= 2 && b[1] == 't' as int ==> Unescape(b) == Prepend([0x09], Unescape(b[2..]))
    ensures |b| >= 2 && b[1] !in Ascii("\"\\/bfnrtu") ==> Unescape(b) == Malformed(BadEscape)
  {
    hide ReadCodePoint, CodePointToUTF8, Ascii;
    if |b| >= 2 { EscapeLetters(b[1]); }
  }

  lemma EscapeLetters(c: Byte)
    ensures c in Ascii("\"\\/") <==> c in {0x22, 0x5C, 0x2F}
    ensures c in Ascii("\"\\/bfnrtu") <==> c in {0x22, 0x5C, 0x2F, 0x62, 0x66, 0x6E, 0x72, 0x74, 0x75}
  {
    assert Ascii("\"\\/") == [0x22, 0x5C, 0x2F];
    assert Ascii("\"\\/bfnrtu") == [0x22, 0x5C, 0x2F, 0x62, 0x66, 0x6E, 0x72, 0x74, 0x75];
  }

  /** The value of four hexadecimal digits. */
  function HexValueOf(h: Text): nat
    requires |h| == 4 && forall i | 0 <= i < 4 :: IsHexDigit(h[i])
  {
    0x1000 * HexValue(h[0]) + 0x100 * HexValue(h[1]) + 0x10 * HexValue(h[2]) + HexValue(h[3])
  }

  predicate FourHexDigits(b: Text, k: nat) {
    k + 4 <= |b| && forall i | k <= i < k + 4 :: IsHexDigit(b[i])
  }

  /** The reader's Unicode escapes: four digits, and after a high surrogate another escape, whose low
      ten bits are taken whatever it is. */
  lemma ReadsUnicodeEscape(b: Text)
    requires |b| >= 2 && b[0] == 0x5C && b[1] == 'u' as int
    ensures |b| < 6 ==> Unescape(b) == Malformed(FourDigitsExpected)
    ensures |b| >= 6 && !FourHexDigits(b, 2) ==> Unescape(b) == Malformed(HexDigitExpected)
    ensures FourHexDigits(b, 2) ==>
              var x := HexValueOf(b[2..6]);
              if x < 0xD800 || 0xDBFF < x then Unescape(b) == Prepend(CodePointToUTF8(x), Unescape(b[6..]))
              else if |b| < 12 then Unescape(b) == Malformed(SurrogateTooShort)
              else if b[6..8] != Ascii("\\u") then Unescape(b) == Malformed(SurrogateWithoutEscape)
              else if !FourHexDigits(b, 8) then Unescape(b) == Malformed(HexDigitExpected)
              else
                Unescape(b) == Prepend(CodePointToUTF8(0x10000 + (x - 0xD800) * 0x400 + HexValueOf(b[8..12]) % 0x400),
                                       Unescape(b[12..]))
  {
    hide Unescape, HexValue, HexValueOf, IsHexDigit, CodePointToUTF8, ReadHex4, ReadCodePoint, Ascii;
    UnescapeUnicodeIs(b);
    FirstFour(b[2..]);
    SingleEscape(b);
    if FourHexDigits(b, 2) && 0xD800 <= HexValueOf(b[2..6]) <= 0xDBFF {
      assert b[2..][..4] == b[2..6];
      PairEscape(b);
    }
  }

  lemma SingleEscape(b: Text)
    requires |b| >= 2
    ensures FourHexDigits(b, 2) <==> FourHexDigits(b[2..], 0)
    ensures ReadHex4(b[2..]).HexError? ==> ReadCodePoint(b[2..]) == CodePointError(ReadHex4(b[2..]).error)
    ensures FourHexDigits(b, 2) ==> b[2..][..4] == b[2..6]
    ensures ReadHex4(b[2..]).Hex? && !(0xD800 <= ReadHex4(b[2..]).unicode <= 0xDBFF) ==>
              ReadCodePoint(b[2..]) == CodePoint(ReadHex4(b[2..]).unicode, 4)
  {
    hide ReadHex4, IsHexDigit;
    assert |b| >= 6 ==> forall i | 0 <= i < 4 :: b[2..][i] == b[i + 2];
    assert |b| >= 6 ==> forall i | 2 <= i < 6 :: b[2..][i - 2] == b[i];
  }

  lemma PairEscape(b: Text)
    requires FourHexDigits(b, 2) && 0xD800 <= HexValueOf(b[2..6]) <= 0xDBFF
    ensures var r, x := ReadCodePoint(b[2..]), HexValueOf(b[2..6]);
            if |b| < 12 then r == CodePointError(SurrogateTooShort)
            else if b[6..8] != Ascii("\\u") then r == CodePointError(SurrogateWithoutEscape)
            else if !FourHexDigits(b, 8) then r == CodePointError(HexDigitExpected)
            else r == CodePoint(0x10000 + (x - 0xD800) * 0x400 + HexValueOf(b[8..12]) % 0x400, 10)
  {
    hide HexValue, HexValueOf, IsHexDigit, ReadHex4, ReadCodePoint;
    FirstFour(b[2..]);
    SingleEscape(b);
    var x := HexValueOf(b[2..6]);
    assert x % 0x400 == x - 0xD800;
    PairIs(b[2..]);
    if |b| >= 12 {
      FirstFour(b[8..]);
      SecondEscape(b);
    }
  }

  lemma SecondEscape(b: Text)
    requires |b| >= 12
    ensures b[2..][6..] == b[8..] && b[8..][..4] == b[8..12] && (FourHexDigits(b, 8) <==> FourHexDigits(b[8..], 0))
    ensures b[6..8] == Ascii("\\u") <==> b[2..][4] == BACKSLASH && b[2..][5] == 0x75
  {
    hide IsHexDigit;
    assert forall i | 0 <= i < 4 :: b[8..][i] == b[i + 8];
    assert forall i | 8 <= i < 12 :: b[8..][i - 8] == b[i];
    assert b[6..8] == [b[6], b[7]] && Ascii("\\u") == [0x5C, 0x75];
  }

  /** What follows a high surrogate. */
  lemma PairIs(b: Text)
    requires ReadHex4(b).Hex? && 0xD800 <= ReadHex4(b).unicode <= 0xDBFF
    ensures ReadCodePoint(b) ==
              if |b| < 10 then CodePointError(SurrogateTooShort)
              else if b[4] != BACKSLASH || b[5] != 0x75 then CodePointError(SurrogateWithoutEscape)
              else if ReadHex4(b[6..]).HexError? then CodePointError(ReadHex4(b[6..]).error)
              else CodePoint(0x10000 + ReadHex4(b).unicode % 0x400 * 0x400 + ReadHex4(b[6..]).unicode % 0x400, 10)
  {
    hide ReadHex4;
  }

  lemma UnescapeUnicodeIs(b: Text)
    requires |b| >= 2 && b[0] == BACKSLASH && b[1] == 0x75
    ensures var r := ReadCodePoint(b[2..]);
            Unescape(b) == if r.CodePointError? then Malformed(r.error)
                           else Prepend(CodePointToUTF8(r.unicode), Unescape(b[2 + r.width..]))
  {
  }

  lemma FirstFour(b: Text)
    ensures |b| < 4 ==> ReadHex4(b) == HexError(FourDigitsExpected)
    ensures |b| >= 4 && !FourHexDigits(b, 0) ==> ReadHex4(b) == HexError(HexDigitExpected)
    ensures FourHexDigits(b, 0) ==> ReadHex4(b) == Hex(HexValueOf(b[..4]))
  {
    hide HexValue, IsHexDigit;
    assert |b| >= 4 ==> (FourHexDigits(b, 0)
                         <==> IsHexDigit(b[0]) && IsHexDigit(b[1]) && IsHexDigit(b[2]) && IsHexDigit(b[3]));
  }

  /** Any other byte stands for itself, but a double quote ends the text, even one that single quotes
      enclose. */
  lemma ReadsPlain(b: Text)
    requires b != [] && b[0] != 0x5C
    ensures Unescape(b) == if b[0] == 0x22 then Decoded([]) else Prepend([b[0]], Unescape(b[1..]))
    ensures Unescape([]) == Decoded([])
  {
    hide ReadCodePoint, CodePointToUTF8;
  }
}
