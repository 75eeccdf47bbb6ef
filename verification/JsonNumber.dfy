/** Integers as text: uintToString and valueToString on the writer's side,
    decodeNumber on the reader's side. */
module JsonNumber {
  import opened JsonScanner
  import opened JsonValue

  /** sizeof(UIntToStringBuffer) */
  const BUFFER_SIZE: nat := 25

  predicate AllDigits(s: string) { forall c :: c in s ==> IsDigit(c) }

  /** The mathematical value of a digit string, leading zeros included. */
  function DigitsValue(s: string): nat
    requires AllDigits(s)
  {
    if s == "" then 0
    else
      assert s[|s| - 1] in s;
      10 * DigitsValue(s[..|s| - 1]) + (s[|s| - 1] as int - '0' as int)
  }

  function DigitChar(d: nat): (c: char)
    requires d < 10
    ensures IsDigit(c) && c as int - '0' as int == d
  {
    ('0' as int + d) as char
  }

  /** Shortest decimal text of a natural number. */
  function Decimal(n: nat): (s: string)
    ensures s != "" && AllDigits(s)
  {
    if n < 10 then [DigitChar(n)] else Decimal(n / 10) + [DigitChar(n % 10)]
  }

  function SignedDecimal(i: int): string {
    if i < 0 then "-" + Decimal(-i) else Decimal(i)
  }

  lemma {:induction false} DecimalValue(n: nat)
    ensures DigitsValue(Decimal(n)) == n
  {
    var s := Decimal(n);
    if n < 10 {
      assert s[..0] == "";
    } else {
      assert s[..|s| - 1] == Decimal(n / 10);
      DecimalValue(n / 10);
    }
  }

  function Pow10(k: nat): nat { if k == 0 then 1 else 10 * Pow10(k - 1) }

  lemma {:induction false} DecimalLength(n: nat, k: nat)
    requires k >= 1 && n < Pow10(k)
    ensures |Decimal(n)| <= k
  {
    if n >= 10 {
      assert Pow10(1) == 10 * Pow10(0);
      DecimalLength(n / 10, k - 1);
    }
  }

  /** A 64-bit integer needs at most twenty digits. */
  lemma TwentyDigits(n: nat)
    requires n < TWO_64
    ensures |Decimal(n)| <= 20
  {
    assert Pow10(5) == 100000;
    assert Pow10(10) == 100000 * Pow10(5) by { assert Pow10(8) == 1000 * Pow10(5); }
    assert Pow10(15) == 100000 * Pow10(10) by { assert Pow10(13) == 1000 * Pow10(10); }
    assert Pow10(20) == 100000 * Pow10(15) by { assert Pow10(18) == 1000 * Pow10(15); }
    DecimalLength(n, 20);
  }

  /** uintToString: writes the terminator and the digits backwards from
      `current`; everything outside the written range is left alone and the
      caller's 25 free characters are never overrun. */
  method UintToString(value: nat, buffer: array<char>, current: nat) returns (first: nat)
    requires value < TWO_64
    requires BUFFER_SIZE <= current <= buffer.Length
    modifies buffer
    ensures current - 21 <= first < current
    ensures buffer[first..current] == Decimal(value) + [NUL]
    ensures buffer[..first] == old(buffer[..first]) && buffer[current..] == old(buffer[current..])
  {
    TwentyDigits(value);
    DecimalSplit(value);
    hide Decimal, Leading;
    var v := value;
    first := current - 1;
    buffer[first] := NUL;
    first := first - 1;
    buffer[first] := DigitChar(v % 10);
    v := v / 10;
    ghost var done := [DigitChar(value % 10)];
    while v != 0
      invariant Decimal(value) == Leading(v) + done
      invariant first == current - 1 - |done| && |done| >= 1
      invariant first >= current - 21
      invariant buffer[first..current] == done + [NUL]
      invariant buffer[..first] == old(buffer[..first]) && buffer[current..] == old(buffer[current..])
      decreases v
    {
      LeadingSplit(v, done);
      ghost var before := buffer[first..current];
      first := first - 1;
      buffer[first] := DigitChar(v % 10);
      assert buffer[first..current] == [DigitChar(v % 10)] + before;
      done := [DigitChar(v % 10)] + done;
      v := v / 10;
    }
    assert Leading(0) + done == done by { LeadingNone(); }
  }

  /** The digits still to be written. */
  function Leading(v: nat): string { if v == 0 then "" else Decimal(v) }

  lemma DecimalSplit(v: nat)
    ensures Decimal(v) == Leading(v / 10) + [DigitChar(v % 10)]
  {
  }

  lemma LeadingSplit(v: nat, done: string)
    requires v > 0
    ensures Leading(v) + done == Leading(v / 10) + ([DigitChar(v % 10)] + done)
    ensures Leading(v) != ""
  {
    DecimalSplit(v);
    hide Decimal;
  }

  lemma LeadingNone()
    ensures Leading(0) == ""
  {
  }

  /** valueToString(LargestInt) and valueToString(LargestUInt): the shortest
      decimal text, built without passing the start of the buffer. */
  method ValueToString(value: int) returns (text: string)
    requires -TWO_63 <= value < TWO_64
    ensures text == SignedDecimal(value)
  {
    hide Decimal;
    var buffer := new char[BUFFER_SIZE](_ => NUL);
    var current := BUFFER_SIZE;
    if value == -TWO_63 {
      current := WriteMagnitude(TWO_63, buffer);
      current := Prepend(buffer, current);
    } else if value < 0 {
      current := WriteMagnitude(-value, buffer);
      current := Prepend(buffer, current);
    } else {
      current := WriteMagnitude(value, buffer);
    }
    assert buffer[current..] == SignedDecimal(value) + [NUL];
    text := buffer[current..BUFFER_SIZE - 1];
    assert text == buffer[current..][..BUFFER_SIZE - 1 - current];
  }

  /** uintToString from the end of the buffer. */
  method WriteMagnitude(value: nat, buffer: array<char>) returns (current: nat)
    requires value < TWO_64 && buffer.Length == BUFFER_SIZE
    modifies buffer
    ensures 4 <= current < BUFFER_SIZE && buffer[current..] == Decimal(value) + [NUL]
  {
    hide Decimal;
    current := UintToString(value, buffer, BUFFER_SIZE);
    assert buffer[current..] == buffer[current..BUFFER_SIZE];
  }

  /** `*--current = '-'` */
  method Prepend(buffer: array<char>, current: nat) returns (first: nat)
    requires 1 <= current <= buffer.Length
    modifies buffer
    ensures first == current - 1
    ensures buffer[first..] == "-" + old(buffer[current..])
  {
    first := current - 1;
    buffer[first] := '-';
  }

  // ------------------------------------------------------------- decoding

  datatype Decoded = Integer(payload: Payload) | AsDouble

  predicate Negative(text: string) { text != "" && text[0] == '-' }
  function Magnitude(text: string): string { if Negative(text) then text[1..] else text }
  function MaxMagnitude(text: string): nat { if Negative(text) then TWO_63 else TWO_64 - 1 }

  /** The reader's normal form of an integer: signed when negative or at most
      2^31-1, unsigned otherwise. */
  function NormalInteger(i: int): Payload {
    if i < TWO_31 then Int(i) else UInt(i)
  }

  /** What decodeNumber answers: an exact integer precisely when the text is an
      optional minus and digits whose value fits the 64-bit range, and
      otherwise the floating-point path. */
  function DecodeNumber(text: string): Decoded {
    var m := Magnitude(text);
    if AllDigits(m) && DigitsValue(m) <= MaxMagnitude(text) then
      Integer(if Negative(text) then Int(-(DigitsValue(m) as int)) else NormalInteger(DigitsValue(m)))
    else AsDouble
  }

  lemma {:induction false} PrefixValue(s: string, k: nat)
    requires AllDigits(s) && k <= |s|
    ensures AllDigits(s[..k]) && DigitsValue(s[..k]) <= DigitsValue(s)
    ensures k < |s| ==> DigitsValue(s) >= 10 * DigitsValue(s[..k])
    ensures k + 1 < |s| ==> DigitsValue(s) >= 100 * DigitsValue(s[..k])
  {
    if k == |s| {
      assert s[..k] == s;
    } else {
      var t := s[..|s| - 1];
      assert s[|s| - 1] in s;
      assert t[..k] == s[..k];
      PrefixValue(t, k);
    }
  }

  /** One more digit overflows the limit exactly when the threshold test says
      so; a prefix at the threshold with two digits to come overflows too. */
  lemma ThresholdTest(m: string, k: nat, max: nat)
    requires AllDigits(m) && k < |m| && max >= 10
    requires DigitsValue(m[..k]) >= max / 10
    requires DigitsValue(m[..k]) > max / 10 || k + 1 != |m| || m[k] as int - '0' as int > max % 10
    ensures DigitsValue(m) > max
  {
    PrefixValue(m, k);
    PrefixValue(m, k + 1);
    NextDigit(m, k);
  }

  lemma NextDigit(m: string, k: nat)
    requires k < |m| && AllDigits(m[..k]) && IsDigit(m[k])
    ensures AllDigits(m[..k + 1])
    ensures DigitsValue(m[..k + 1]) == 10 * DigitsValue(m[..k]) + (m[k] as int - '0' as int)
  {
    assert m[..k + 1][..k] == m[..k];
    assert m[..k + 1] == m[..k] + [m[k]];
  }

  /** The digit loop of decodeNumber.  The accumulator equals the value of the
      prefix read so far and stays within the limit, so it never wraps; the
      threshold test gives up exactly on the texts that do not fit. */
  method DecodeDigits(m: string, max: nat) returns (fits: bool, value: nat)
    requires max >= 10
    ensures fits <==> AllDigits(m) && DigitsValue(m) <= max
    ensures fits ==> value == DigitsValue(m)
  {
    var threshold := max / 10;
    var current := 0;
    value := 0;
    while current < |m|
      invariant 0 <= current <= |m|
      invariant AllDigits(m[..current])
      invariant value == DigitsValue(m[..current]) <= max
    {
      var c := m[current];
      assert c in m;
      if c < '0' || c > '9' {
        return false, value;
      }
      NextDigit(m, current);
      var digit := c as int - '0' as int;
      current := current + 1;
      if value >= threshold {
        if value > threshold || current != |m| || digit > max % 10 {
          if AllDigits(m) {
            ThresholdTest(m, current - 1, max);
          }
          return false, value;
        }
      }
      value := value * 10 + digit;
    }
    assert m[..|m|] == m;
    fits := true;
  }

  /** decodeNumber */
  method DecodeNumberText(text: string) returns (decoded: Decoded)
    ensures decoded == DecodeNumber(text)
  {
    var isNegative := text != "" && text[0] == '-';
    var maxIntegerValue := if isNegative then TWO_63 else TWO_64 - 1;
    var fits, value := DecodeDigits(if isNegative then text[1..] else text, maxIntegerValue);
    if !fits {
      decoded := AsDouble;
    } else if isNegative && value == maxIntegerValue {
      decoded := Integer(Int(-TWO_63));
    } else if isNegative {
      decoded := Integer(Int(-value));
    } else if value <= TWO_31 - 1 {
      decoded := Integer(Int(value));
    } else {
      decoded := Integer(UInt(value));
    }
  }

  /** decodeNumber inverts valueToString on the whole 64-bit range. */
  lemma DecodeInvertsWrite(i: int)
    requires -TWO_63 <= i < TWO_64
    ensures DecodeNumber(SignedDecimal(i)) == Integer(NormalInteger(i))
  {
    if i < 0 {
      assert SignedDecimal(i)[1..] == Decimal(-i);
      DecimalValue(-i);
    } else {
      DecimalValue(i);
      assert SignedDecimal(i)[0] in SignedDecimal(i);
    }
  }

  /** An integer's text is a number token wherever a number may end. */
  lemma SignedDecimalIsToken(i: int, rest: string)
    requires EndsNumber(rest)
    ensures IsToken(Number, SignedDecimal(i), rest)
  {
    var text := SignedDecimal(i);
    if i < 0 {
      assert text[1..] == Decimal(-i);
    } else {
      assert text[0] in text;
      assert forall c :: c in text[1..] ==> c in text;
    }
    IntegerIsToken(text, rest);
  }
}
