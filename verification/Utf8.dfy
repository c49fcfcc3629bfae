/** UTF-8: the encoder, the permissive decoder, and well-formedness as in
    sections 3 and 4 of RFC 3629.  Masks and shifts are written as `%` and `/`. */
module Utf8 {
  import opened Chars

  const REPLACEMENT: nat := 0xFFFD

  /** A code point together with the number of bytes it was read from. */
  datatype Scanned = Scanned(codepoint: nat, width: nat)

  predicate IsScalar(cp: nat) {
    cp < 0xD800 || 0xDFFF < cp <= 0x10FFFF
  }

  function CodePointToUTF8(cp: nat): (r: Text)
    ensures cp <= 0x10FFFF ==> 1 <= |r| <= 4
  {
    if cp <= 0x7F then [cp]
    else if cp <= 0x7FF then [0xC0 + cp / 0x40, 0x80 + cp % 0x40]
    else if cp <= 0xFFFF then [0xE0 + cp / 0x1000, 0x80 + cp / 0x40 % 0x40, 0x80 + cp % 0x40]
    else if cp <= 0x10FFFF then
      [0xF0 + cp / 0x40000, 0x80 + cp / 0x1000 % 0x40, 0x80 + cp / 0x40 % 0x40, 0x80 + cp % 0x40]
    else []
  }

  /** The six payload bits of a continuation byte. */
  function Low6(c: Byte): nat {
    c % 0x40
  }

  /** `utf8ToCodepoint`: a lead byte is followed by however many bytes it announces,
      whatever those bytes are; a lead byte too near the end stands alone. */
  function Utf8ToCodepoint(s: Text): (r: Scanned)
    requires s != []
    ensures 1 <= r.width <= |s|
    ensures r.codepoint < 0xD800 || 0xDFFF < r.codepoint <= 0x1FFFFF
    ensures s[0] < 0x80 <==> r.codepoint < 0x80
    ensures s[0] < 0x80 ==> r == Scanned(s[0], 1)
  {
    var b: nat := s[0];
    if b < 0x80 then Scanned(b, 1)
    else if b < 0xE0 then
      if |s| < 2 then Scanned(REPLACEMENT, 1)
      else
        var cp := b % 0x20 * 0x40 + Low6(s[1]);
        Scanned(if cp < 0x80 then REPLACEMENT else cp, 2)
    else if b < 0xF0 then
      if |s| < 3 then Scanned(REPLACEMENT, 1)
      else
        var cp := b % 0x10 * 0x1000 + Low6(s[1]) * 0x40 + Low6(s[2]);
        Scanned(if 0xD800 <= cp <= 0xDFFF || cp < 0x800 then REPLACEMENT else cp, 3)
    else if b < 0xF8 then
      if |s| < 4 then Scanned(REPLACEMENT, 1)
      else
        var cp := b % 0x08 * 0x40000 + Low6(s[1]) * 0x1000 + Low6(s[2]) * 0x40 + Low6(s[3]);
        Scanned(if cp < 0x10000 then REPLACEMENT else cp, 4)
    else Scanned(REPLACEMENT, 1)
  }

  predicate IsTail(c: Byte) {
    0x80 <= c <= 0xBF
  }

  /** The length of the UTF8-char of RFC 3629 section 4 that `s` starts with, or 0. */
  function CharWidth(s: Text): (w: nat)
    ensures w <= |s|
  {
    if s == [] then 0
    else if s[0] <= 0x7F then 1
    else if |s| >= 2 && 0xC2 <= s[0] <= 0xDF && IsTail(s[1]) then 2
    else if |s| >= 3 && 0xE0 <= s[0] <= 0xEF && IsTail(s[1]) && IsTail(s[2])
            && (s[0] == 0xE0 ==> 0xA0 <= s[1]) && (s[0] == 0xED ==> s[1] <= 0x9F) then 3
    else if |s| >= 4 && 0xF0 <= s[0] <= 0xF4 && IsTail(s[1]) && IsTail(s[2]) && IsTail(s[3])
            && (s[0] == 0xF0 ==> 0x90 <= s[1]) && (s[0] == 0xF4 ==> s[1] <= 0x8F) then 4
    else 0
  }

  predicate WellFormed(s: Text) {
    s == [] || (CharWidth(s) > 0 && WellFormed(s[CharWidth(s)..]))
  }

  lemma SplitBase64(high: nat, low: nat)
    requires low < 0x40
    ensures (high * 0x40 + low) / 0x40 == high && (high * 0x40 + low) % 0x40 == low
  {
  }

  /** On a well-formed character the permissive decoder reads exactly that character,
      and the encoder gives its bytes back. */
  lemma ScanUndoesEncode(s: Text)
    requires CharWidth(s) > 0
    ensures var r := Utf8ToCodepoint(s);
            r.width == CharWidth(s) && IsScalar(r.codepoint) && CodePointToUTF8(r.codepoint) == s[..r.width]
  {
    match CharWidth(s)
    case 1 =>
    case 2 => SplitBase64(s[0] - 0xC0, Low6(s[1]));
    case 3 => ScanWidth3(s);
    case 4 => ScanWidth4(s);
  }

  lemma ScanWidth3(s: Text)
    requires CharWidth(s) == 3
    ensures var r := Utf8ToCodepoint(s);
            r.width == 3 && IsScalar(r.codepoint) && CodePointToUTF8(r.codepoint) == s[..3]
  {
    hide CharWidth, CodePointToUTF8;
    Width3Bytes(s);
    var a: nat, b, c := s[0] - 0xE0, Low6(s[1]), Low6(s[2]);
    var cp := a * 0x1000 + b * 0x40 + c;
    assert Utf8ToCodepoint(s) == Scanned(cp, 3);
    EncodeWidth3(a, b, c);
    assert s[..3] == [s[0], s[1], s[2]];
  }

  /** The bytes of a well-formed character of three, and their payload. */
  lemma Width3Bytes(s: Text)
    requires CharWidth(s) == 3
    ensures |s| >= 3 && 0xE0 <= s[0] <= 0xEF && s[0] % 0x10 == s[0] - 0xE0
    ensures s[1] == 0x80 + Low6(s[1]) && s[2] == 0x80 + Low6(s[2])
    ensures var cp := (s[0] - 0xE0) * 0x1000 + Low6(s[1]) * 0x40 + Low6(s[2]);
            0x800 <= cp <= 0xFFFF && !(0xD800 <= cp <= 0xDFFF)
  {
    TailBits(s[1]);
    TailBits(s[2]);
  }

  lemma EncodeWidth3(a: nat, b: nat, c: nat)
    requires a < 0x10 && b < 0x40 && c < 0x40 && 0x800 <= a * 0x1000 + b * 0x40 + c
    ensures CodePointToUTF8(a * 0x1000 + b * 0x40 + c) == [0xE0 + a, 0x80 + b, 0x80 + c]
  {
    ScanUndoesEncode3(a, b, c);
  }

  lemma ScanWidth4(s: Text)
    requires CharWidth(s) == 4
    ensures var r := Utf8ToCodepoint(s);
            r.width == 4 && IsScalar(r.codepoint) && CodePointToUTF8(r.codepoint) == s[..4]
  {
    hide CharWidth, CodePointToUTF8;
    Width4Bytes(s);
    var a: nat, b, c, d := s[0] - 0xF0, Low6(s[1]), Low6(s[2]), Low6(s[3]);
    var cp := a * 0x40000 + b * 0x1000 + c * 0x40 + d;
    assert Utf8ToCodepoint(s) == Scanned(cp, 4);
    EncodeWidth4(a, b, c, d);
    assert s[..4] == [s[0], s[1], s[2], s[3]];
  }

  /** The bytes of a well-formed character of four, and their payload. */
  lemma Width4Bytes(s: Text)
    requires CharWidth(s) == 4
    ensures |s| >= 4 && 0xF0 <= s[0] <= 0xF4 && s[0] % 0x08 == s[0] - 0xF0
    ensures s[1] == 0x80 + Low6(s[1]) && s[2] == 0x80 + Low6(s[2]) && s[3] == 0x80 + Low6(s[3])
    ensures 0x10000 <= (s[0] - 0xF0) * 0x40000 + Low6(s[1]) * 0x1000 + Low6(s[2]) * 0x40 + Low6(s[3]) <= 0x10FFFF
  {
    TailBits(s[1]);
    TailBits(s[2]);
    TailBits(s[3]);
  }

  lemma EncodeWidth4(a: nat, b: nat, c: nat, d: nat)
    requires a <= 4 && b < 0x40 && c < 0x40 && d < 0x40
    requires 0x10000 <= a * 0x40000 + b * 0x1000 + c * 0x40 + d <= 0x10FFFF
    ensures CodePointToUTF8(a * 0x40000 + b * 0x1000 + c * 0x40 + d) == [0xF0 + a, 0x80 + b, 0x80 + c, 0x80 + d]
  {
    ScanUndoesEncode4(a, b, c, d);
  }

  lemma TailBits(c: Byte)
    requires IsTail(c)
    ensures 0x80 + Low6(c) == c
  {
  }

  lemma ScanUndoesEncode3(a: nat, b: nat, c: nat)
    requires a < 0x10 && b < 0x40 && c < 0x40
    ensures var cp := a * 0x1000 + b * 0x40 + c;
            cp / 0x1000 == a && cp / 0x40 % 0x40 == b && cp % 0x40 == c
  {
    SplitBase64(a * 0x40 + b, c);
    SplitBase64(a, b);
  }

  lemma ScanUndoesEncode4(a: nat, b: nat, c: nat, d: nat)
    requires a < 0x08 && b < 0x40 && c < 0x40 && d < 0x40
    ensures var cp := a * 0x40000 + b * 0x1000 + c * 0x40 + d;
            cp / 0x40000 == a && cp / 0x1000 % 0x40 == b && cp / 0x40 % 0x40 == c && cp % 0x40 == d
  {
    SplitBase64(a * 0x1000 + b * 0x40 + c, d);
    ScanUndoesEncode3(a, b, c);
    var cp := a * 0x40000 + b * 0x1000 + c * 0x40 + d;
    assert cp / 0x1000 == cp / 0x40 / 0x40;
    SplitBase64(a * 0x40 + b, c);
    SplitBase64(a, b);
  }

  /** Encoding a scalar value gives one well-formed character, whatever follows it. */
  lemma EncodeIsWellFormed(cp: nat, rest: Text)
    requires IsScalar(cp) && WellFormed(rest)
    ensures WellFormed(CodePointToUTF8(cp) + rest)
  {
    hide CharWidth;
    var e := CodePointToUTF8(cp);
    var t := e + rest;
    assert t[0] == e[0];
    assert |e| > 1 ==> t[1] == e[1];
    assert |e| > 2 ==> t[2] == e[2];
    assert |e| > 3 ==> t[3] == e[3];
    EncodedWidth(cp, t);
    assert t[|e|..] == rest;
  }

  lemma EncodedWidth(cp: nat, t: Text)
    requires IsScalar(cp) && |CodePointToUTF8(cp)| <= |t|
    requires forall i | 0 <= i < |CodePointToUTF8(cp)| :: t[i] == CodePointToUTF8(cp)[i]
    ensures CharWidth(t) == |CodePointToUTF8(cp)|
  {
    hide CharWidth;
    if cp <= 0x7F {
      WidthOne(t);
    } else if cp <= 0x7FF {
      WidthTwo(cp, t);
    } else if cp <= 0xFFFF {
      WidthThree(cp, t);
    } else {
      WidthFour(cp, t);
    }
  }

  lemma WidthOne(t: Text)
    requires t != [] && t[0] <= 0x7F
    ensures CharWidth(t) == 1
  {
  }

  lemma WidthTwo(cp: nat, t: Text)
    requires 0x80 <= cp <= 0x7FF && |t| >= 2 && t[0] == 0xC0 + cp / 0x40 && t[1] == 0x80 + cp % 0x40
    ensures CharWidth(t) == 2
  {
  }

  lemma WidthThree(cp: nat, t: Text)
    requires 0x800 <= cp <= 0xFFFF && IsScalar(cp) && |t| >= 3
    requires t[0] == 0xE0 + cp / 0x1000 && t[1] == 0x80 + cp / 0x40 % 0x40 && t[2] == 0x80 + cp % 0x40
    ensures CharWidth(t) == 3
  {
  }

  lemma WidthFour(cp: nat, t: Text)
    requires 0x10000 <= cp <= 0x10FFFF && |t| >= 4 && t[0] == 0xF0 + cp / 0x40000
    requires t[1] == 0x80 + cp / 0x1000 % 0x40 && t[2] == 0x80 + cp / 0x40 % 0x40 && t[3] == 0x80 + cp % 0x40
    ensures CharWidth(t) == 4
  {
  }

  /** The bytes that a lead byte announces, itself included. */
  function Announced(b: Byte): nat {
    if b < 0x80 then 1 else if b < 0xE0 then 2 else if b < 0xF0 then 3 else if b < 0xF8 then 4 else 1
  }

  /** Two texts carry the same payload: the lead bytes agree in the bits below the length mark, and
      the others in their low six. */
  predicate SamePayload(a: Text, b: Text) {
    && |a| == |b| && 2 <= |a| <= 4
    && a[0] % (if |a| == 2 then 0x20 else if |a| == 3 then 0x10 else 0x08)
       == b[0] % (if |a| == 2 then 0x20 else if |a| == 3 then 0x10 else 0x08)
    && forall i | 1 <= i < |a| :: a[i] % 0x40 == b[i] % 0x40
  }

  /** The decoder reads as many bytes as are announced, or one if there are not so many.  It accepts
      no overlong form: what it reads, and has not replaced, takes as many bytes to write, and they
      carry what was read. */
  lemma DecoderIsShortest(s: Text)
    requires s != []
    ensures Utf8ToCodepoint(s).width == if Announced(s[0]) <= |s| then Announced(s[0]) else 1
    ensures var r := Utf8ToCodepoint(s);
            (r.codepoint != 0xFFFD && r.width > 1 && r.codepoint <= 0x10FFFF ==>
                  SamePayload(CodePointToUTF8(r.codepoint), s[..r.width]))
  {
    var r := Utf8ToCodepoint(s);
    if r.codepoint == 0xFFFD || r.codepoint > 0x10FFFF {
    } else if r.width == 2 {
      ShortestTwo(s);
    } else if r.width == 3 {
      ShortestThree(s);
    } else if r.width == 4 {
      ShortestFour(s);
    }
  }

  lemma ShortestTwo(s: Text)
    requires s != [] && Utf8ToCodepoint(s).width == 2 && Utf8ToCodepoint(s).codepoint != 0xFFFD
    ensures SamePayload(CodePointToUTF8(Utf8ToCodepoint(s).codepoint), s[..2])
  {
    SplitBase64(s[0] % 0x20, Low6(s[1]));
  }

  lemma ShortestThree(s: Text)
    requires s != [] && Utf8ToCodepoint(s).width == 3 && Utf8ToCodepoint(s).codepoint != 0xFFFD
    ensures SamePayload(CodePointToUTF8(Utf8ToCodepoint(s).codepoint), s[..3])
  {
    hide CodePointToUTF8;
    EncodeWidth3(s[0] % 0x10, Low6(s[1]), Low6(s[2]));
  }

  lemma ShortestFour(s: Text)
    requires s != [] && Utf8ToCodepoint(s).width == 4 && 0xFFFD != Utf8ToCodepoint(s).codepoint <= 0x10FFFF
    ensures SamePayload(CodePointToUTF8(Utf8ToCodepoint(s).codepoint), s[..4])
  {
    hide CodePointToUTF8;
    EncodeWidth4(s[0] % 0x08, Low6(s[1]), Low6(s[2]), Low6(s[3]));
  }

  /** It reads every scalar value beyond ASCII, whatever the length marks of the bytes after the
      lead byte. */
  lemma DecoderReadsLoosely(cp: nat, s: Text)
    requires IsScalar(cp) && cp >= 0x80 && s != [] && |CodePointToUTF8(cp)| == Announced(s[0]) <= |s|
    requires SamePayload(CodePointToUTF8(cp), s[..Announced(s[0])])
    ensures Utf8ToCodepoint(s) == Scanned(cp, Announced(s[0]))
  {
    var e := CodePointToUTF8(cp);
    var t := s[..|e|];
    assert forall i | 1 <= i < |e| :: s[i] == t[i];
    if |e| == 2 {
      LooseTwo(cp, s);
    } else if |e| == 3 {
      LooseThree(cp, s);
    } else {
      LooseFour(cp, s);
    }
  }

  lemma LooseTwo(cp: nat, s: Text)
    requires 0x80 <= cp <= 0x7FF && |s| >= 2 && 0x80 <= s[0] < 0xE0
    requires s[0] % 0x20 == (0xC0 + cp / 0x40) % 0x20 && s[1] % 0x40 == (0x80 + cp % 0x40) % 0x40
    ensures Utf8ToCodepoint(s) == Scanned(cp, 2)
  {
  }

  lemma LooseThree(cp: nat, s: Text)
    requires 0x800 <= cp <= 0xFFFF && !(0xD800 <= cp <= 0xDFFF) && |s| >= 3 && 0xE0 <= s[0] < 0xF0
    requires s[0] % 0x10 == (0xE0 + cp / 0x1000) % 0x10
    requires s[1] % 0x40 == (0x80 + cp / 0x40 % 0x40) % 0x40 && s[2] % 0x40 == (0x80 + cp % 0x40) % 0x40
    ensures Utf8ToCodepoint(s) == Scanned(cp, 3)
  {
    var a, b, c := cp / 0x1000, cp / 0x40 % 0x40, cp % 0x40;
    ThreeParts(cp);
    assert s[0] % 0x10 == a && Low6(s[1]) == b && Low6(s[2]) == c;
  }

  lemma ThreeParts(cp: nat)
    ensures cp == cp / 0x1000 * 0x1000 + cp / 0x40 % 0x40 * 0x40 + cp % 0x40
  {
    assert cp == cp / 0x40 * 0x40 + cp % 0x40;
    assert cp / 0x40 == cp / 0x1000 * 0x40 + cp / 0x40 % 0x40;
  }

  lemma LooseFour(cp: nat, s: Text)
    requires 0x10000 <= cp <= 0x10FFFF && |s| >= 4 && 0xF0 <= s[0] < 0xF8
    requires s[0] % 0x08 == (0xF0 + cp / 0x40000) % 0x08
    requires s[1] % 0x40 == (0x80 + cp / 0x1000 % 0x40) % 0x40
    requires s[2] % 0x40 == (0x80 + cp / 0x40 % 0x40) % 0x40 && s[3] % 0x40 == (0x80 + cp % 0x40) % 0x40
    ensures Utf8ToCodepoint(s) == Scanned(cp, 4)
  {
    var a, b, c, d := cp / 0x40000, cp / 0x1000 % 0x40, cp / 0x40 % 0x40, cp % 0x40;
    FourParts(cp);
    LowBits(a, b);
    LowBits(a, c);
    LowBits(a, d);
    FourIs(s, a, b, c, d);
  }

  lemma LowBits(a: nat, b: nat)
    requires a < 0x08 && b < 0x40
    ensures (0xF0 + a) % 0x08 == a && (0x80 + b) % 0x40 == b
  {
  }

  lemma FourIs(s: Text, a: nat, b: nat, c: nat, d: nat)
    requires |s| >= 4 && 0xF0 <= s[0] < 0xF8
    requires s[0] % 0x08 == a && Low6(s[1]) == b && Low6(s[2]) == c && Low6(s[3]) == d
    requires 0x10000 <= a * 0x40000 + b * 0x1000 + c * 0x40 + d
    ensures Utf8ToCodepoint(s) == Scanned(a * 0x40000 + b * 0x1000 + c * 0x40 + d, 4)
  {
  }

  lemma FourParts(cp: nat)
    ensures cp == cp / 0x40000 * 0x40000 + cp / 0x1000 % 0x40 * 0x1000 + cp / 0x40 % 0x40 * 0x40 + cp % 0x40
  {
    assert cp == cp / 0x40 * 0x40 + cp % 0x40;
    assert cp / 0x40 == cp / 0x1000 * 0x40 + cp / 0x40 % 0x40;
    assert cp / 0x1000 == cp / 0x40000 * 0x40 + cp / 0x1000 % 0x40;
  }
}
