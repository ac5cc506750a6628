/** Numbers as a file spells them: least significant byte first, or the reverse. */
module WireWords {
  import opened Bytes

  function Reversed(s: seq<byte>): (r: seq<byte>)
    ensures |r| == |s|
  {
    if s == [] then [] else Reversed(s[1..]) + [s[0]]
  }

  /** The `n` bytes of `x` in the byte order of a file. */
  function Spelled(x: nat, n: nat, bigEndian: bool): (r: seq<byte>)
    ensures |r| == n
  {
    if bigEndian then Reversed(ToLittleEndian(x, n)) else ToLittleEndian(x, n)
  }

  // ----- The decoders read what is spelled -----

  lemma TwoBytes(x: u16)
    ensures ToLittleEndian(x, 2) == [(x % 0x100) as byte, (x / 0x100) as byte]
  {
    assert ToLittleEndian(x / 0x100, 1) == [(x / 0x100) as byte];
  }

  lemma FourBytes(low: u16, high: u16)
    ensures ToLittleEndian(low + 0x1_0000 * high, 4) == ToLittleEndian(low, 2) + ToLittleEndian(high, 2)
  {
    var x := low + 0x1_0000 * high;
    assert ToLittleEndian(x, 4) == [(x % 0x100) as byte] + ToLittleEndian(x / 0x100, 3);
    assert x / 0x100 == low / 0x100 + 0x100 * high;
    assert ToLittleEndian(x / 0x100, 3) == [(low / 0x100) as byte] + ToLittleEndian(high, 2);
    TwoBytes(low);
  }

  lemma EightBytes(low: u32, high: u32)
    ensures ToLittleEndian(low + 0x1_0000_0000 * high, 8) == ToLittleEndian(low, 4) + ToLittleEndian(high, 4)
  {
    LittleEndianInParts(low, high, 4, 4);
    PowersOf256();
  }

  /** A number below 256^n, then the rest of a longer one. */
  lemma {:induction false} LittleEndianInParts(low: nat, high: nat, n: nat, m: nat)
    requires low < Pow256(n)
    ensures ToLittleEndian(low + Pow256(n) * high, n + m) == ToLittleEndian(low, n) + ToLittleEndian(high, m)
  {
    if n > 0 {
      var x := low + Pow256(n) * high;
      SplitLowByte(low, high, Pow256(n - 1));
      LittleEndianInParts(low / 256, high, n - 1, m);
      Assoc([(low % 256) as byte], ToLittleEndian(low / 256, n - 1), ToLittleEndian(high, m));
    } else {
      assert [] + ToLittleEndian(high, m) == ToLittleEndian(high, m);
    }
  }

  lemma SplitLowByte(low: nat, high: nat, power: nat)
    ensures (low + 256 * power * high) % 256 == low % 256
    ensures (low + 256 * power * high) / 256 == low / 256 + power * high
  {
    assert 256 * power * high == 256 * (power * high);
  }

  lemma {:induction false} ReversedSum(a: seq<byte>, b: seq<byte>)
    ensures Reversed(a + b) == Reversed(b) + Reversed(a)
  {
    if a == [] {
      assert a + b == b && Reversed(b) + [] == Reversed(b);
    } else {
      assert (a + b)[1..] == a[1..] + b;
      ReversedSum(a[1..], b);
      Assoc(Reversed(b), Reversed(a[1..]), [a[0]]);
    }
  }

  lemma ReversedPair(a: byte, b: byte)
    ensures Reversed([a, b]) == [b, a]
  {
    assert [a, b][1..] == [b];
    assert Reversed([b]) == [b];
  }

  lemma Spells16(b: seq<byte>, bigEndian: bool)
    requires |b| == 2
    ensures Spelled(Decode16(b, bigEndian), 2, bigEndian) == b
  {
    TwoBytes(Decode16(b, bigEndian));
    ReversedPair(b[1], b[0]);
    ReversedPair(b[0], b[1]);
  }

  lemma Spells32(b: seq<byte>, bigEndian: bool)
    requires |b| == 4
    ensures Spelled(Decode32(b, bigEndian), 4, bigEndian) == b
  {
    var first, second := Decode16(b[..2], bigEndian), Decode16(b[2..], bigEndian);
    Spells16(b[..2], bigEndian);
    Spells16(b[2..], bigEndian);
    assert b == b[..2] + b[2..];
    if bigEndian {
      FourBytes(second, first);
      ReversedSum(ToLittleEndian(second, 2), ToLittleEndian(first, 2));
    } else {
      FourBytes(first, second);
    }
  }

  lemma Spells64(b: seq<byte>, bigEndian: bool)
    requires |b| == 8
    ensures Spelled(Decode64(b, bigEndian), 8, bigEndian) == b
  {
    var first, second := Decode32(b[..4], bigEndian), Decode32(b[4..], bigEndian);
    Spells32(b[..4], bigEndian);
    Spells32(b[4..], bigEndian);
    assert b == b[..4] + b[4..];
    if bigEndian {
      EightBytes(second, first);
      ReversedSum(ToLittleEndian(second, 4), ToLittleEndian(first, 4));
    } else {
      EightBytes(first, second);
    }
  }

  // ----- A spelling has one reading -----

  lemma {:induction false} ReversedTwice(s: seq<byte>)
    ensures Reversed(Reversed(s)) == s
  {
    if s != [] {
      ReversedSum(Reversed(s[1..]), [s[0]]);
      ReversedTwice(s[1..]);
      assert Reversed([s[0]]) == [s[0]] && s == [s[0]] + s[1..];
    }
  }

  lemma SpelledOnce(x: nat, y: nat, n: nat, bigEndian: bool)
    requires x < Pow256(n) && y < Pow256(n) && Spelled(x, n, bigEndian) == Spelled(y, n, bigEndian)
    ensures x == y
  {
    ReversedTwice(ToLittleEndian(x, n));
    ReversedTwice(ToLittleEndian(y, n));
    LittleEndianRoundTrip(x, n);
    LittleEndianRoundTrip(y, n);
  }
}
