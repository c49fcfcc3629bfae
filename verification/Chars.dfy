/** Bytes and byte strings: what the C++ code calls `char` and `String`. */
module Chars {

  type Byte = b: int | 0 <= b < 0x100

  type Text = seq<Byte>

  const NUL: Byte := 0x00
  const TAB: Byte := 0x09
  const LF: Byte := 0x0A
  const CR: Byte := 0x0D
  const SPACE: Byte := 0x20
  const QUOTE: Byte := 0x22
  const APOSTROPHE: Byte := 0x27
  const STAR: Byte := 0x2A
  const PLUS: Byte := 0x2B
  const COMMA: Byte := 0x2C
  const MINUS: Byte := 0x2D
  const DOT: Byte := 0x2E
  const SLASH: Byte := 0x2F
  const COLON: Byte := 0x3A
  const LBRACKET: Byte := 0x5B
  const BACKSLASH: Byte := 0x5C
  const RBRACKET: Byte := 0x5D
  const LBRACE: Byte := 0x7B
  const RBRACE: Byte := 0x7D

  // The keyword texts "null", "true" and "false".
  const NULL_TEXT: Text := [0x6E, 0x75, 0x6C, 0x6C]
  const TRUE_TEXT: Text := [0x74, 0x72, 0x75, 0x65]
  const FALSE_TEXT: Text := [0x66, 0x61, 0x6C, 0x73, 0x65]

  predicate IsDigit(c: Byte) {
    0x30 <= c <= 0x39
  }

  predicate IsSpace(c: Byte) {
    c == SPACE || c == TAB || c == CR || c == LF
  }

  predicate AllSpace(t: Text) {
    forall i | 0 <= i < |t| :: IsSpace(t[i])
  }

  /** Does `pattern` stand in `s` at position `p`? */
  predicate StandsAt(s: Text, p: nat, pattern: Text) {
    p + |pattern| <= |s| && s[p..p + |pattern|] == pattern
  }

  /** The order of `memcmp` followed by a comparison of the lengths. */
  predicate TextLess(a: Text, b: Text) {
    if b == [] then false
    else if a == [] then true
    else a[0] < b[0] || (a[0] == b[0] && TextLess(a[1..], b[1..]))
  }

  /** The bytes of an ASCII string. */
  function Ascii(t: string): (r: Text)
    ensures |r| == |t|
    ensures forall i | 0 <= i < |t| :: r[i] == t[i] as int % 0x100
  {
    seq(|t|, i requires 0 <= i < |t| => t[i] as int % 0x100)
  }

  /** The named bytes are the characters they are named after. */
  lemma NamedBytes()
    ensures [QUOTE, APOSTROPHE, STAR, PLUS, COMMA, MINUS, DOT, SLASH, COLON] == Ascii("\"'*+,-./:")
    ensures [LBRACKET, BACKSLASH, RBRACKET, LBRACE, RBRACE] == Ascii("[\\]{}")
    ensures [SPACE, TAB, LF, CR, NUL] == Ascii(" \t\n\r\0")
    ensures NULL_TEXT == Ascii("null") && TRUE_TEXT == Ascii("true") && FALSE_TEXT == Ascii("false")
  {
  }

  /** Digits and whitespace, as sections 2 and 6 of RFC 8259 have them. */
  lemma CharacterClasses(c: Byte)
    ensures IsDigit(c) <==> c in Ascii("0123456789")
    ensures IsSpace(c) <==> c in Ascii(" \t\n\r")
  {
    if IsDigit(c) { assert Ascii("0123456789")[c - 0x30] == c; }
    NamedBytes();
    var t := Ascii(" \t\n\r");
    assert t[0] == SPACE && t[1] == TAB && t[2] == LF && t[3] == CR;
  }
}
