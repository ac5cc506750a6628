/** The conversion of a 32-bit float to a double (src/io/typetree.c, where a float is assigned to a double) is exact.
    Magnitudes are counted in the smallest subnormal of each format, 2^-149 and 2^-1074. */
module FloatWidening {
  import opened Bytes
  import opened TypeTreeParser

  function Pow2(n: nat): (r: nat)
    ensures r >= 1
  {
    if n == 0 then 1 else 2 * Pow2(n - 1)
  }

  function ShortExponent(word: u32): nat {
    word / 0x80_0000 % 0x100
  }

  function ShortFraction(word: u32): nat {
    word % 0x80_0000
  }

  function LongExponent(bits: u64): nat {
    bits / 0x10_0000_0000_0000 % 0x800
  }

  function LongFraction(bits: u64): nat {
    bits % 0x10_0000_0000_0000
  }

  /** The magnitude of a finite float, in units of 2^-149. */
  function ShortUnits(word: u32): nat {
    var e, f := ShortExponent(word), ShortFraction(word);
    if e == 0 then f else (0x80_0000 + f) * Pow2(e - 1)
  }

  /** The magnitude of a finite double, in units of 2^-1074. */
  function LongUnits(bits: u64): nat {
    Units(LongExponent(bits), LongFraction(bits))
  }

  function Units(e: nat, f: nat): nat {
    if e == 0 then f else (0x10_0000_0000_0000 + f) * Pow2(e - 1)
  }

  // ----- Powers of two -----

  lemma {:induction false} PowersAdd(a: nat, b: nat)
    ensures Pow2(a) * Pow2(b) == Pow2(a + b)
  {
    if a > 0 {
      PowersAdd(a - 1, b);
      assert 2 * Pow2(a - 1) * Pow2(b) == 2 * (Pow2(a - 1) * Pow2(b));
    }
  }

  lemma PowerOf29()
    ensures Pow2(29) == 0x2000_0000
  {
    assert Pow2(5) == 32;
    assert Pow2(10) == 0x400 by {
      PowersAdd(5, 5);
    }
    assert Pow2(20) == 0x10_0000 by {
      PowersAdd(10, 10);
    }
    assert Pow2(9) == 0x200;
    PowersAdd(20, 9);
  }

  /** A fraction moved up by 29 places, at a power, is the fraction at a power 29 places higher. */
  lemma MovedUp(m: nat, n: nat)
    ensures m * 0x2000_0000 * Pow2(n) == m * Pow2(n + 29)
  {
    PowerOf29();
    PowersAdd(29, n);
    assert m * Pow2(29) * Pow2(n) == m * (Pow2(29) * Pow2(n));
  }

  lemma AtHigherPower(m: nat, a: nat, b: nat)
    ensures m * Pow2(a) * Pow2(b) == m * Pow2(a + b)
  {
    PowersAdd(a, b);
    assert m * Pow2(a) * Pow2(b) == m * (Pow2(a) * Pow2(b));
  }

  // ----- The fields of a double -----

  lemma Fields(sign: nat, e: nat, f: nat)
    requires sign <= 1 && e < 0x800 && f < 0x10_0000_0000_0000
    ensures var bits := sign * 0x8000_0000_0000_0000 + e * 0x10_0000_0000_0000 + f;
            && bits < 0x1_0000_0000_0000_0000 && bits / 0x8000_0000_0000_0000 == sign
            && bits / 0x10_0000_0000_0000 % 0x800 == e && bits % 0x10_0000_0000_0000 == f
  {
    var bits := sign * 0x8000_0000_0000_0000 + e * 0x10_0000_0000_0000 + f;
    assert bits / 0x10_0000_0000_0000 == sign * 0x800 + e;
  }

  lemma Doubled(m: nat, n: nat)
    ensures 2 * m * Pow2(n) == m * Pow2(n + 1)
  {
    assert 2 * m * Pow2(n) == m * (2 * Pow2(n));
  }

  /** Doubling a fraction until its leading bit is the implicit one keeps its magnitude. */
  lemma {:induction false} NormalisedKeepsUnits(fraction: nat, shift: nat) returns (e: nat, f: nat)
    requires shift <= 23 && Pow2(shift) <= fraction < 0x100_0000
    ensures Normalised(fraction, shift) == e * 0x10_0000_0000_0000 + f
    ensures 0 < e <= 897 && f < 0x10_0000_0000_0000 && Units(e, f) == fraction * Pow2(925 - shift)
    decreases 23 - shift
  {
    if fraction < 0x80_0000 && shift < 23 {
      e, f := NormalisedKeepsUnits(2 * fraction, shift + 1);
      Doubled(fraction, 924 - shift);
    } else {
      PowerOf23(shift);
      e, f := 897 - shift, (fraction - 0x80_0000) * 0x2000_0000;
      WithImplicitBit(fraction, shift);
    }
  }

  lemma WithImplicitBit(fraction: nat, shift: nat)
    requires shift <= 23 && 0x80_0000 <= fraction < 0x100_0000
    ensures fraction % 0x80_0000 == fraction - 0x80_0000
    ensures Units(897 - shift, (fraction - 0x80_0000) * 0x2000_0000) == fraction * Pow2(925 - shift)
  {
    MovedUp(fraction, 896 - shift);
  }

  lemma PowerOf23(shift: nat)
    requires shift <= 23
    ensures shift == 23 ==> Pow2(shift) == 0x80_0000
  {
    if shift == 23 {
      assert Pow2(3) == 8 && Pow2(5) == 32 && Pow2(10) == 0x400 by {
        PowersAdd(5, 5);
      }
      PowersAdd(10, 10);
      PowersAdd(20, 3);
    }
  }

  // ----- The conversion -----

  lemma NormalUnits(e: nat, f: nat)
    requires 0 < e < 0xFF && f < 0x80_0000
    ensures Units(e + 896, f * 0x2000_0000) == (0x80_0000 + f) * Pow2(e - 1) * Pow2(925)
  {
    MovedUp(0x80_0000 + f, e + 895);
    AtHigherPower(0x80_0000 + f, e - 1, 925);
  }

  /** The fields of the double from those of the float. */
  predicate Widened(e: nat, f: nat, le: nat, lf: nat) {
    if e == 0xFF then
      && le == 0x7FF
      && lf == (if f == 0 then 0 else if f < 0x40_0000 then f + 0x40_0000 else f) * 0x2000_0000
    else le < 0x7FF && Units(le, lf) == (if e == 0 then f else (0x80_0000 + f) * Pow2(e - 1)) * Pow2(925)
  }

  lemma WidenedFields(e: nat, f: nat) returns (le: nat, lf: nat)
    requires e <= 0xFF && f < 0x80_0000
    ensures le < 0x800 && lf < 0x10_0000_0000_0000 && Widened(e, f, le, lf)
    ensures le * 0x10_0000_0000_0000 + lf ==
      if e == 0xFF then
        0x7FF0_0000_0000_0000 + (if f == 0 then 0 else if f < 0x40_0000 then f + 0x40_0000 else f) * 0x2000_0000
      else if e > 0 then (e + 896) * 0x10_0000_0000_0000 + f * 0x2000_0000
      else if f == 0 then 0
      else Normalised(f, 0)
  {
    if e == 0xFF {
      le, lf := 0x7FF, (if f == 0 then 0 else if f < 0x40_0000 then f + 0x40_0000 else f) * 0x2000_0000;
    } else if e > 0 {
      le, lf := e + 896, f * 0x2000_0000;
      NormalUnits(e, f);
    } else if f == 0 {
      le, lf := 0, 0;
    } else {
      le, lf := NormalisedKeepsUnits(f, 0);
    }
  }

  /** The sign is kept; a finite number keeps its magnitude exactly, 2^-149 being 2^925 times 2^-1074; an infinity
      stays one; and a NaN keeps its payload and is quiet. */
  lemma WideningIsExact(word: u32)
    ensures WidenFloat(word) / 0x8000_0000_0000_0000 == word / 0x8000_0000
    ensures ShortExponent(word) != 0xFF ==>
              && LongExponent(WidenFloat(word)) != 0x7FF
              && LongUnits(WidenFloat(word)) == ShortUnits(word) * Pow2(925)
    ensures ShortExponent(word) == 0xFF ==>
              && LongExponent(WidenFloat(word)) == 0x7FF
              && LongFraction(WidenFloat(word)) ==
                (if ShortFraction(word) == 0 then 0
                 else if ShortFraction(word) < 0x40_0000 then ShortFraction(word) + 0x40_0000
                 else ShortFraction(word)) * 0x2000_0000
  {
    var le, lf := WidenedFields(ShortExponent(word), ShortFraction(word));
    Fields(word / 0x8000_0000, le, lf);
  }
}
