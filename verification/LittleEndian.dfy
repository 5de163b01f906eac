/** Bytes, and fixed-width little-endian integers in them. */
module LittleEndian {
  type byte = b: nat | b < 256

  function Limit(width: nat): (n: nat)
    ensures n > 0
  {
    if width == 0 then 1 else 256 * Limit(width - 1)
  }

  /** The `width` bytes of v, lowest first; higher digits are lost, as in a store to a
      fixed-width integer. */
  function ToBytes(v: nat, width: nat): (bs: seq<byte>)
    ensures |bs| == width
  {
    if width == 0 then [] else [v % 256] + ToBytes(v / 256, width - 1)
  }

  function FromBytes(bs: seq<byte>): (v: nat)
    ensures v < Limit(|bs|)
  {
    if bs == [] then 0 else bs[0] + 256 * FromBytes(bs[1..])
  }

  lemma {:induction false} ReadWritten(v: nat, width: nat)
    requires v < Limit(width)
    ensures FromBytes(ToBytes(v, width)) == v
  {
    if width > 0 {
      ReadWritten(v / 256, width - 1);
      assert ToBytes(v, width)[1..] == ToBytes(v / 256, width - 1);
    }
  }

  lemma {:induction false} WriteRead(bs: seq<byte>)
    ensures ToBytes(FromBytes(bs), |bs|) == bs
  {
    if bs != [] {
      WriteRead(bs[1..]);
      assert FromBytes(bs) % 256 == bs[0] && FromBytes(bs) / 256 == FromBytes(bs[1..]);
    }
  }

  lemma Limits()
    ensures Limit(1) == 0x100 && Limit(2) == 0x1_0000
    ensures Limit(4) == 0x1_0000_0000 && Limit(8) == 0x1_0000_0000_0000_0000
  {
    assert Limit(3) == 0x100_0000;
    assert Limit(5) == 0x100_0000_0000;
    assert Limit(6) == 0x1_0000_0000_0000;
    assert Limit(7) == 0x100_0000_0000_0000;
  }

  /** The i-th digit of v to base 256, counted from the lowest. */
  function DigitOf(v: nat, i: nat): byte {
    v / Limit(i) % 256
  }

  /** Byte i of a number is its i-th digit. */
  lemma {:induction false} Digit(v: nat, width: nat, i: nat)
    requires i < width
    ensures ToBytes(v, width)[i] == DigitOf(v, i)
  {
    if i > 0 {
      Digit(v / 256, width - 1, i - 1);
      QuotientTwice(v, Limit(i - 1));
    }
  }

  lemma QuotientTwice(n: nat, b: nat)
    requires b > 0
    ensures n / 256 / b == n / (256 * b)
  {
    var q := n / 256;
    Remainder(q, b);
    Combine(b, q / b, q % b, n % 256);
    Quotient(n, 256 * b, q / b, 256 * (q % b) + n % 256);
  }

  lemma Remainder(n: nat, d: nat)
    requires d > 0
    ensures n == d * (n / d) + n % d && n % d < d
  {}

  lemma Combine(b: nat, s: nat, t: nat, r: nat)
    requires t < b && r < 256
    ensures 256 * (b * s + t) + r == 256 * b * s + (256 * t + r)
    ensures 256 * t + r < 256 * b
  {}

  lemma ProductGrows(p: nat, a: nat, b: nat)
    requires a <= b
    ensures p * a <= p * b
  {}

  /** Division with remainder is unique. */
  lemma Quotient(n: nat, d: nat, q: nat, r: nat)
    requires n == d * q + r && r < d
    ensures n / d == q
  {
    var p := n / d;
    assert n == d * p + n % d;
    if p < q {
      ProductGrows(d, p + 1, q);
    } else if q < p {
      ProductGrows(d, q + 1, p);
    }
  }

  /** The number v, lowest digit first, in the `width` bytes from `offset` on. */
  ghost predicate DigitsAt(b: seq<byte>, offset: nat, width: nat, v: nat) {
    && offset + width <= |b|
    && forall i :: 0 <= i < width ==> b[offset + i] == DigitOf(v, i)
  }

  lemma DigitsThere(b: seq<byte>, offset: nat, width: nat, v: nat)
    requires offset + width <= |b| && b[offset..offset + width] == ToBytes(v, width)
    ensures DigitsAt(b, offset, width, v)
  {
    forall i | 0 <= i < width ensures b[offset + i] == DigitOf(v, i) {
      Digit(v, width, i);
      assert b[offset + i] == b[offset..offset + width][i];
    }
  }

  lemma DigitsShift(b: seq<byte>, head: nat, offset: nat, width: nat, v: nat)
    requires head <= |b| && DigitsAt(b[head..], offset, width, v)
    ensures DigitsAt(b, head + offset, width, v)
  {
    forall i | 0 <= i < width ensures b[head + offset + i] == DigitOf(v, i) {
      assert b[head + offset + i] == b[head..][offset + i];
    }
  }

  /** Reading gives the one number in range with those digits. */
  lemma DigitsRead(b: seq<byte>, offset: nat, width: nat)
    requires offset + width <= |b|
    ensures DigitsAt(b, offset, width, FromBytes(b[offset..offset + width]))
  {
    WriteRead(b[offset..offset + width]);
    DigitsThere(b, offset, width, FromBytes(b[offset..offset + width]));
  }

  predicate Bit(b: byte, weight: nat)
    requires weight > 0
  {
    b / weight % 2 == 1
  }

  /** Overwrites part of a byte vector in place. */
  method WriteAt(bytes: array<byte>, offset: nat, value: seq<byte>)
    requires offset + |value| <= bytes.Length
    modifies bytes
    ensures bytes[..] == old(bytes[..offset]) + value + old(bytes[offset + |value|..])
  {
    for i := 0 to |value|
      invariant bytes[..offset] == old(bytes[..offset])
      invariant bytes[offset..offset + i] == value[..i]
      invariant bytes[offset + |value|..] == old(bytes[offset + |value|..])
    {
      bytes[offset + i] := value[i];
      assert bytes[offset..offset + i + 1] == bytes[offset..offset + i] + [value[i]];
    }
    assert bytes[..] == bytes[..offset] + bytes[offset..offset + |value|] + bytes[offset + |value|..];
  }
}
