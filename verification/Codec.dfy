/** Fixed-width big-endian integers and length-prefixed byte strings. */
module Codec {
  import opened DataOrder
  import opened Options

  const UINT8_RANGE := 0x100
  const UINT32_RANGE := 0x1_0000_0000
  const UINT64_RANGE := 0x1_0000_0000_0000_0000

  function Pow256(width: nat): (p: nat)
    ensures p > 0
  {
    if width == 0 then 1 else 256 * Pow256(width - 1)
  }

  /** The low `width` bytes of `v`, most significant first. */
  function BigEndian(v: nat, width: nat): (s: Bytes)
    ensures |s| == width
  {
    if width == 0 then [] else BigEndian(v / 256, width - 1) + [(v % 256) as byte]
  }

  function FromBigEndian(s: Bytes): nat {
    if s == [] then 0 else 256 * FromBigEndian(s[..|s| - 1]) + s[|s| - 1] as nat
  }

  /** Decoding inverts encoding for every value that fits the width. */
  lemma {:induction false} BigEndianRoundTrip(v: nat, width: nat)
    requires v < Pow256(width)
    ensures FromBigEndian(BigEndian(v, width)) == v
  {
    if width > 0 {
      BigEndianRoundTrip(v / 256, width - 1);
      var s := BigEndian(v, width);
      assert s[..|s| - 1] == BigEndian(v / 256, width - 1);
    }
  }

  /** Every byte string of the width is the encoding of the number it decodes to. */
  lemma {:induction false} BigEndianOnto(s: Bytes)
    ensures BigEndian(FromBigEndian(s), |s|) == s
  {
    if s != [] {
      var n, b := FromBigEndian(s[..|s| - 1]), s[|s| - 1];
      BigEndianOnto(s[..|s| - 1]);
      assert FromBigEndian(s) == 256 * n + b as nat;
      assert (256 * n + b as nat) / 256 == n && (256 * n + b as nat) % 256 == b as nat;
      assert BigEndian(256 * n + b as nat, |s|) == BigEndian(n, |s| - 1) + [b];
      assert s == s[..|s| - 1] + [b];
    }
  }

  lemma Widths()
    ensures Pow256(1) == UINT8_RANGE && Pow256(4) == UINT32_RANGE && Pow256(8) == UINT64_RANGE
  {
  }

  lemma DivMod(v: nat, p: nat)
    requires p > 0
    ensures v / (256 * p) == v / 256 / p
  {
    var q, r := v / 256, v % 256;
    var a, b := q / p, q % p;
    assert v == 256 * (p * a + b) + r;
    assert 256 * (p * a) == (256 * p) * a;
    assert v - (256 * p) * a == 256 * b + r;
    assert 256 * b + r < 256 * p by { assert 256 * (b + 1) <= 256 * p; }
    QuotientIs(v, 256 * p, a);
  }

  lemma QuotientIs(v: nat, d: nat, a: nat)
    requires d > 0 && d * a <= v < d * a + d
    ensures v / d == a
  {
    var q, r := v / d, v % d;
    assert v == d * q + r;
    if q < a { TimesAtMost(d, q + 1, a); }
    if q > a { TimesAtMost(d, a + 1, q); }
  }

  lemma TimesAtMost(d: nat, x: nat, y: nat)
    requires x <= y
    ensures d * x <= d * y
  {
  }

  /** Byte after byte: the quotients by the powers of 256. */
  lemma {:induction false} BigEndianBytes(v: nat, width: nat, i: nat)
    requires i < width
    ensures BigEndian(v, width)[i] as nat == v / Pow256(width - 1 - i) % 256
    decreases width
  {
    if i < width - 1 {
      BigEndianBytes(v / 256, width - 1, i);
      DivMod(v, Pow256(width - 2 - i));
    }
  }

  function CompareNat(a: nat, b: nat): CmpOpt {
    if a < b then Lt else if a == b then Eq else Gt
  }

  /** Comparing equally long strings is decided by the prefix, then by the last byte. */
  lemma {:induction false} CmpSnoc(x: Bytes, y: Bytes, p: byte, q: byte)
    requires |x| == |y|
    ensures DataCmp(x + [p], y + [q]) ==
            if DataCmp(x, y) == Eq then CompareNat(p as nat, q as nat) else DataCmp(x, y)
  {
    if x != [] {
      CmpSnoc(x[1..], y[1..], p, q);
      assert (x + [p])[1..] == x[1..] + [p];
      assert (y + [q])[1..] == y[1..] + [q];
    } else {
      assert x + [p] == [p] && y + [q] == [q];
      assert [p][1..] == [] && [q][1..] == [];
    }
  }

  /** The encoding of unsigned integers is an order isomorphism: byte strings compare
      as the numbers do. */
  lemma {:induction false} BigEndianOrder(a: nat, b: nat, width: nat)
    requires a < Pow256(width) && b < Pow256(width)
    ensures DataCmp(BigEndian(a, width), BigEndian(b, width)) == CompareNat(a, b)
  {
    if width > 0 {
      BigEndianOrder(a / 256, b / 256, width - 1);
      CmpSnoc(BigEndian(a / 256, width - 1), BigEndian(b / 256, width - 1),
              (a % 256) as byte, (b % 256) as byte);
    }
  }

  function EncodeUInt8(v: nat): Bytes { BigEndian(v, 1) }

  function EncodeUInt32(v: nat): Bytes { BigEndian(v, 4) }

  function EncodeUInt64(v: nat): Bytes { BigEndian(v, 8) }

  /** Length prefix (truncated to 32 bits) followed by the bytes. */
  function EncodeBytes(s: Bytes): Bytes { EncodeUInt32(|s|) + s }

  /** A string of any 32-bit length behind the four bytes of that length. */
  lemma EncodedBytes(s: Bytes)
    requires |s| < UINT32_RANGE
    ensures var r := EncodeBytes(s);
            && |r| == 4 + |s| && r[4..] == s
            && r[0] as nat == |s| / 0x100_0000 && r[1] as nat == |s| / 0x1_0000 % 0x100
            && r[2] as nat == |s| / 0x100 % 0x100 && r[3] as nat == |s| % 0x100
  {
    hide BigEndian;
    forall i | 0 <= i < 4 ensures EncodeBytes(s)[i] as nat == |s| / Pow256(3 - i) % 256 { BigEndianBytes(|s|, 4, i); }
    SmallPowers();
    assert |s| / 0x100_0000 % 0x100 == |s| / 0x100_0000;
  }

  lemma SmallPowers()
    ensures Pow256(0) == 1 && Pow256(1) == 0x100 && Pow256(2) == 0x1_0000 && Pow256(3) == 0x100_0000
  {
  }

  /** The string at the front of `input` and the number of bytes it takes;
      `None` when the input is too short for its own prefix. */
  function DecodeBytes(input: Bytes): (r: Option<(Bytes, nat)>)
    ensures r.Some? ==> 4 <= r.value.1 <= |input| && r.value.1 == 4 + |r.value.0|
  {
    if |input| < 4 then None
    else
      var len := FromBigEndian(input[..4]);
      if 4 + len <= |input| then Some((input[4..4 + len], 4 + len)) else None
  }

  /** A length-prefixed string is read back, and the reader stops right after it. */
  lemma DecodeBytesInverts(s: Bytes, rest: Bytes)
    requires |s| < UINT32_RANGE
    ensures DecodeBytes(EncodeBytes(s) + rest) == Some((s, 4 + |s|))
    ensures (EncodeBytes(s) + rest)[4 + |s|..] == rest
  {
    var input := EncodeBytes(s) + rest;
    Widths();
    BigEndianRoundTrip(|s|, 4);
    assert input[..4] == BigEndian(|s|, 4);
    assert input[4..4 + |s|] == s;
  }
}
