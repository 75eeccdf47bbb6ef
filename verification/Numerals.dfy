/** Numbers written in digits, by place value. */
module Numerals {
  const LOWER := "0123456789abcdef"
  const UPPER := "0123456789ABCDEF"

  predicate DigitIs(c: char, d: nat) { d < 16 && (c == LOWER[d] || c == UPPER[d]) }

  /** The characters of a text are digits of a base. */
  predicate Numeral(s: string, ds: seq<nat>, base: nat) {
    |s| == |ds| && forall i :: 0 <= i < |s| ==> ds[i] < base && DigitIs(s[i], ds[i])
  }

  function Power(base: nat, k: nat): nat { if k == 0 then 1 else base * Power(base, k - 1) }

  function PlaceValue(ds: seq<nat>, base: nat): nat {
    if ds == [] then 0 else ds[0] * Power(base, |ds| - 1) + PlaceValue(ds[1..], base)
  }

  /** A text of one digit or more writes a number. */
  ghost predicate Writes(s: string, base: nat, n: nat) {
    s != "" && exists ds: seq<nat> :: Numeral(s, ds, base) && PlaceValue(ds, base) == n
  }

  /** The last digit counts once. */
  lemma {:induction false} LastPlace(ds: seq<nat>, base: nat)
    requires ds != []
    ensures PlaceValue(ds, base) == PlaceValue(ds[..|ds| - 1], base) * base + ds[|ds| - 1]
    decreases |ds|
  {
    if |ds| == 1 {
      assert ds[1..] == [] && ds[..0] == [];
    } else {
      var front, tail := ds[..|ds| - 1], ds[1..];
      LastPlace(tail, base);
      assert tail[..|tail| - 1] == front[1..] && tail[|tail| - 1] == ds[|ds| - 1];
      Shift(ds[0], base, Power(base, |ds| - 2), PlaceValue(front[1..], base), ds[|ds| - 1]);
    }
  }

  lemma Shift(a: nat, base: nat, p: nat, rest: nat, last: nat)
    ensures a * (base * p) + (rest * base + last) == (a * p + rest) * base + last
  {
  }

  lemma DigitUnique(c: char, d: nat, e: nat)
    requires DigitIs(c, d) && DigitIs(c, e)
    ensures d == e
  {
  }

  /** Four hexadecimal digits. */
  lemma FourPlaces(ds: seq<nat>)
    requires |ds| == 4
    ensures PlaceValue(ds, 16) == ds[0] * 4096 + ds[1] * 256 + ds[2] * 16 + ds[3]
  {
    LastPlace(ds, 16);
    LastPlace(ds[..3], 16);
    LastPlace(ds[..2], 16);
    LastPlace(ds[..1], 16);
    assert ds[..3][..2] == ds[..2] && ds[..2][..1] == ds[..1] && ds[..1][..0] == [];
  }
}
