/** Integers as text: printing backwards into a fixed buffer, and decoding a number token
    with an overflow check before every step.  `UInt64` and `Int64` are range-checked, so
    every arithmetic step below is proved not to wrap around. */
module Decimal {
  import opened Chars

  const MAX_UINT64: int := 0xFFFF_FFFF_FFFF_FFFF
  const MAX_INT64: int := 0x7FFF_FFFF_FFFF_FFFF
  const MIN_INT64: int := -0x8000_0000_0000_0000

  newtype UInt64 = x: int | 0 <= x <= 0xFFFF_FFFF_FFFF_FFFF
  newtype Int64 = x: int | -0x8000_0000_0000_0000 <= x <= 0x7FFF_FFFF_FFFF_FFFF

  datatype Option<+T> = None | Some(value: T)

  function Digits(n: nat): (t: Text)
    ensures t != []
  {
    if n < 10 then [0x30 + n] else Digits(n / 10) + [0x30 + n % 10]
  }

  function IntText(n: int): Text {
    if n < 0 then [MINUS] + Digits(-n) else Digits(n)
  }

  predicate AllDigits(t: Text) {
    forall i | 0 <= i < |t| :: IsDigit(t[i])
  }

  function DigitsValue(t: Text): nat
    requires AllDigits(t)
  {
    if t == [] then 0 else DigitsValue(t[..|t| - 1]) * 10 + (t[|t| - 1] - 0x30)
  }

  /** The integer a number token stands for; `None` is the double path of the reader. */
  function DecodeInteger(t: Text): Option<int> {
    var negative := t != [] && t[0] == MINUS;
    var body := if negative then t[1..] else t;
    if !AllDigits(body) then None
    else if negative then if DigitsValue(body) <= -MIN_INT64 then Some(-(DigitsValue(body) as int)) else None
    else if DigitsValue(body) <= MAX_UINT64 then Some(DigitsValue(body)) else None
  }

  // ---------- Printing ----------

  function Pow10(k: nat): nat {
    if k == 0 then 1 else 10 * Pow10(k - 1)
  }

  lemma {:induction false} DigitsLength(n: nat, k: nat)
    requires k > 0
    ensures |Digits(n)| <= k <==> n < Pow10(k)
    decreases k
  {
    if n >= 10 && k > 1 {
      DigitsLength(n / 10, k - 1);
    } else if n >= 10 {
      assert Pow10(1) == 10;
      assert |Digits(n)| == |Digits(n / 10)| + 1;
    } else {
      Pow10Grows(k - 1);
    }
  }

  lemma {:induction false} Pow10Grows(k: nat)
    ensures Pow10(k) >= 1
  {
    if k == 0 {
    } else {
      Pow10Grows(k - 1);
    }
  }

  /** A 64-bit value, its sign and its terminator fit the 25-byte buffer. */
  lemma DigitsFit(n: nat)
    requires n <= MAX_UINT64
    ensures |Digits(n)| <= 20
  {
    assert Pow10(5) == 100000;
    assert Pow10(10) == 100000 * Pow10(5);
    assert Pow10(15) == 100000 * Pow10(10);
    assert Pow10(20) == 100000 * Pow10(15);
    DigitsLength(n, 20);
  }

  method UIntToString(value: UInt64, buffer: array<Byte>, start: nat) returns (current: nat)
    requires |Digits(value as nat)| + 1 <= start <= buffer.Length
    modifies buffer
    ensures current == start - 1 - |Digits(value as nat)|
    ensures buffer[start - 1] == NUL
    ensures buffer[current..start - 1] == Digits(value as nat)
    ensures forall i | 0 <= i < current || start <= i < buffer.Length :: buffer[i] == old(buffer[i])
  {
    current := start - 1;
    buffer[current] := NUL;
    var v := value;
    var more := true;
    while more
      invariant 0 <= current < start
      invariant !more ==> v == 0
      invariant more ==> current > 0
      invariant |Digits(v as nat)| <= if more then current else current + 1
      invariant (if more then Digits(v as nat) else []) + buffer[current..start - 1] == Digits(value as nat)
      invariant buffer[start - 1] == NUL
      invariant forall i | 0 <= i < current || start <= i < buffer.Length :: buffer[i] == old(buffer[i])
      decreases more, v
    {
      ghost var tail := buffer[current..start - 1];
      ghost var rest := if v < 10 then [] else Digits(v as nat / 10);
      var d: Byte := 0x30 + (v % 10) as int;
      assert Digits(v as nat) == rest + [d];
      current := current - 1;
      buffer[current] := d;
      assert buffer[current..start - 1] == [d] + tail;
      assert rest + [d] + tail == rest + ([d] + tail);
      v := v / 10;
      more := v != 0;
    }
  }

  method ValueToString(value: Int64) returns (text: Text)
    ensures text == IntText(value as int)
  {
    hide Digits;
    var buffer := new Byte[25](_ => NUL);
    var current := buffer.Length;
    if value == -0x8000_0000_0000_0000 {
      DigitsFit(0x8000_0000_0000_0000);
      current := UIntToString(0x7FFF_FFFF_FFFF_FFFF + 1, buffer, current);
      current := current - 1;
      buffer[current] := MINUS;
    } else if value < 0 {
      DigitsFit((-value) as nat);
      current := UIntToString((-value) as UInt64, buffer, current);
      current := current - 1;
      buffer[current] := MINUS;
    } else {
      DigitsFit(value as nat);
      current := UIntToString(value as UInt64, buffer, current);
    }
    text := buffer[current..24];
  }

  method ValueToStringUnsigned(value: UInt64) returns (text: Text)
    ensures text == IntText(value as int)
  {
    DigitsFit(value as nat);
    var buffer := new Byte[25](_ => NUL);
    var current := UIntToString(value, buffer, buffer.Length);
    text := buffer[current..24];
  }

  // ---------- Decoding ----------

  /** A digit string is worth at least ten to the number of dropped digits times any prefix. */
  lemma {:induction false} PrefixValue(t: Text, k: nat)
    requires AllDigits(t) && k <= |t|
    ensures DigitsValue(t) >= DigitsValue(t[..k])
    ensures k + 1 < |t| ==> DigitsValue(t) >= DigitsValue(t[..k]) * 100
    decreases |t|
  {
    if k == |t| {
      assert t[..k] == t;
    } else {
      var u := t[..|t| - 1];
      PrefixValue(u, k);
      assert u[..k] == t[..k];
      if k + 2 == |t| {
        assert u[..|u| - 1] == t[..k];
      }
    }
  }

  /** Where the loop gives up, the number is beyond the limit. */
  lemma TooLarge(body: Text, k: nat, threshold: nat, maxLastDigit: nat)
    requires 0 < k <= |body| && AllDigits(body[..k - 1]) && IsDigit(body[k - 1]) && maxLastDigit < 10
    requires DigitsValue(body[..k - 1]) >= threshold
    requires DigitsValue(body[..k - 1]) > threshold || k != |body| || body[k - 1] - 0x30 > maxLastDigit
    ensures AllDigits(body) && threshold > 0 ==> DigitsValue(body) > threshold * 10 + maxLastDigit
  {
    if AllDigits(body) {
      PrefixValue(body, k);
      PrefixValue(body, k - 1);
      assert body[..k][..k - 1] == body[..k - 1];
    }
  }

  /** `decodeNumber`: the loop decides to give up before a step that could overflow, and
      gives up exactly when the whole token is no integer or lies outside the range. */
  method DecodeNumber(t: Text) returns (decoded: Option<int>)
    requires t != []
    ensures decoded == DecodeInteger(t)
  {
    var negative := t[0] == MINUS;
    var current := if negative then 1 else 0;
    ghost var body := t[current..];
    var threshold: UInt64 := if negative then 922337203685477580 else 1844674407370955161;
    var maxLastDigit: UInt64 := if negative then 8 else 5;
    ghost var limit := threshold as int * 10 + maxLastDigit as int;
    var value: UInt64 := 0;
    ghost var skipped := current;
    while current < |t|
      invariant skipped <= current <= |t|
      invariant AllDigits(body[..current - skipped])
      invariant value as int == DigitsValue(body[..current - skipped]) <= limit
    {
      var c := t[current];
      assert body[current - skipped] == c;
      current := current + 1;
      if c < 0x30 || c > 0x39 {
        return None;
      }
      ghost var k := current - skipped;
      assert body[..k][..k - 1] == body[..k - 1];
      var digit := (c - 0x30) as UInt64;
      if value >= threshold {
        if value > threshold || current != |t| || digit > maxLastDigit {
          TooLarge(body, k, threshold as int, maxLastDigit as int);
          return None;
        }
      }
      value := value * 10 + digit;
    }
    assert body[..current - skipped] == body;
    if negative {
      var lastDigit := (value % 10) as Int64;
      var result: Int64 := -((value / 10) as Int64) * 10 - lastDigit;
      return Some(result as int);
    } else {
      return Some(value as int);
    }
  }

  // ---------- Round trip ----------

  lemma {:induction false} DigitsRoundTrip(n: nat)
    ensures AllDigits(Digits(n)) && DigitsValue(Digits(n)) == n
  {
    if n >= 10 {
      DigitsRoundTrip(n / 10);
      assert Digits(n)[..|Digits(n)| - 1] == Digits(n / 10);
    } else {
      assert Digits(n)[..0] == [];
    }
  }

  /** Decoding undoes printing on the whole range of both 64-bit types, and on nothing more. */
  lemma DecodeUndoesPrint(n: int)
    ensures DecodeInteger(IntText(n)) == if MIN_INT64 <= n <= MAX_UINT64 then Some(n) else None
  {
    if n < 0 {
      DigitsRoundTrip(-n);
      assert IntText(n)[1..] == Digits(-n);
    } else {
      DigitsRoundTrip(n);
      assert IntText(n)[0] != MINUS;
    }
  }

  /** The digits of a number are those of its decimal notation: the last one is the number of ones,
      the others those of the tens, and none leads with a zero. */
  lemma DigitsAre(n: nat)
    ensures n < 10 ==> Digits(n) == [Ascii("0123456789")[n]]
    ensures n >= 10 ==> Digits(n) == Digits(n / 10) + [Ascii("0123456789")[n % 10]]
    ensures n > 0 ==> Digits(n)[0] != 0x30
    decreases n
  {
    hide Ascii;
    DigitCharacter(n % 10);
    if n >= 10 { DigitsAre(n / 10); }
  }

  lemma DigitCharacter(d: nat)
    requires d < 10
    ensures Ascii("0123456789")[d] == 0x30 + d
  {
  }

  /** The limits of the two 64-bit types. */
  lemma Limits()
    ensures DecodeInteger(IntText(18446744073709551615)) == Some(18446744073709551615)
    ensures DecodeInteger(IntText(18446744073709551616)) == None
    ensures DecodeInteger(IntText(-9223372036854775808)) == Some(-9223372036854775808)
    ensures DecodeInteger(IntText(-9223372036854775809)) == None
  {
    hide IntText, DecodeInteger;
    DecodeUndoesPrint(18446744073709551615);
    DecodeUndoesPrint(18446744073709551616);
    DecodeUndoesPrint(-9223372036854775808);
    DecodeUndoesPrint(-9223372036854775809);
  }
}
