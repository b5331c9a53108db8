/** What cells, rows and keys are in bytes, written out: type codes, widths, two's complement
    and decimal notation, without the functions that encode them. */
module CellBytes {
  import opened DataOrder
  import opened Options
  import opened Codec
  import opened ScanSpec
  import opened RowCodec
  import KeySpace

  // ---- integers --------------------------------------------------------------

  /** Byte `k` from the right of an integer in two's complement. */
  ghost function ByteOf(v: int, k: nat): int { v / Pow256(k) % 256 }

  lemma PowersMultiply(a: nat, b: nat)
    ensures Pow256(a + b) == Pow256(a) * Pow256(b)
    decreases a
  {
    if a > 0 {
      PowersMultiply(a - 1, b);
      var x, y := Pow256(a - 1), Pow256(b);
      assert Pow256(a) == 256 * x && Pow256(a + b) == 256 * Pow256(a - 1 + b);
      assert 256 * (x * y) == (256 * x) * y;
    }
  }

  lemma QuotientShifts(v: int, p: int, q: int)
    requires p > 0
    ensures (v + p * q) / p == v / p + q
  {
    var r := v % p;
    assert v == p * (v / p) + r;
    assert v + p * q == p * (v / p + q) + r;
    RemainderUnique(v + p * q, p, v / p + q, r);
  }

  lemma RemainderUnique(v: int, p: int, q: int, r: int)
    requires p > 0 && v == p * q + r && 0 <= r < p
    ensures v / p == q && v % p == r
  {
    var d, m := v / p, v % p;
    assert p * (d - q) == p * d - p * q == r - m && p * (q - d) == m - r;
    if d > q { TimesAtLeast(p, d - q); }
    if d < q { TimesAtLeast(p, q - d); }
  }

  lemma TimesAtLeast(p: int, x: int)
    requires p > 0 && x >= 1
    ensures p * x >= p
  {
    assert p * x == p + p * (x - 1);
  }

  /** The payload of a value and the value agree below the width. */
  lemma BitsCongruent(ty: IntType, v: int)
    requires Fits(ty, v)
    ensures Bits(ty, v) % Pow256(Width(ty)) == v % Pow256(Width(ty))
    ensures forall k :: 0 <= k < Width(ty) ==> Bits(ty, v) / Pow256(k) % 256 == ByteOf(v, k)
  {
    var p := Pow256(Width(ty));
    if v < 0 {
      QuotientShifts(v, p, 1);
      forall k | 0 <= k < Width(ty) ensures Bits(ty, v) / Pow256(k) % 256 == ByteOf(v, k) {
        SameByte(v, Width(ty), k);
      }
    }
  }

  lemma SameByte(v: int, width: nat, k: nat)
    requires k < width
    ensures (v + Pow256(width)) / Pow256(k) % 256 == ByteOf(v, k)
  {
    PowersMultiply(k, width - k);
    QuotientShifts(v, Pow256(k), Pow256(width - k));
    var x, more := v / Pow256(k), Pow256(width - k - 1);
    assert Pow256(width - k) == 256 * more;
    RemainderUnique(x + 256 * more, 256, x / 256 + more, x % 256);
  }

  /** Every string of as many bytes as the type has is the payload of a value. */
  lemma PayloadIsValue(ty: IntType, u: nat)
    requires u < Pow256(Width(ty))
    ensures Fits(ty, FromBits(ty, u)) && Bits(ty, FromBits(ty, u)) == u
  {
    Widths();
  }

  /** An integer cell in bytes: the type code of C++, and the value in two's complement, the most
      significant byte first. */
  lemma IntegerInBytes(ty: IntType, v: int)
    requires Fits(ty, v)
    ensures var s := EncodeCell(Int(ty, v));
            && |s| == (match ty case Int8 => 2 case UInt8 => 2 case Int32 => 5 case UInt32 => 5 case Int64 => 9 case UInt64 => 9)
            && s[0] == (match ty case Int8 => 11 case UInt8 => 12 case Int32 => 15 case UInt32 => 16 case Int64 => 17 case UInt64 => 18)
            && forall i :: 1 <= i < |s| ==> s[i] as int == ByteOf(v, |s| - 1 - i)
  {
    hide BigEndian, Pow256, Bits, ByteOf;
    var s, w := EncodeCell(Int(ty, v)), Width(ty);
    KeySpace.OneByte(Code(ty) as nat);
    BitsCongruent(ty, v);
    forall i | 1 <= i < |s| ensures s[i] as int == ByteOf(v, |s| - 1 - i) {
      BigEndianBytes(Bits(ty, v), w, i - 1);
    }
  }

  /** The 64-bit -1 is a type code and eight bytes 0xFF, the 32-bit -2 ends in 0xFE. */
  lemma MinusOneInBytes()
    ensures EncodeCell(Int(Int64, -1)) == [17, 0xFF, 0xFF, 0xFF, 0xFF, 0xFF, 0xFF, 0xFF, 0xFF]
    ensures EncodeCell(Int(Int32, -2)) == [15, 0xFF, 0xFF, 0xFF, 0xFE]
  {
    hide EncodeCell;
    IntegerInBytes(Int64, -1);
    IntegerInBytes(Int32, -2);
    forall k | 0 <= k < 8 ensures ByteOf(-1, k) == 0xFF { MinusOneByte(k); }
    SmallPowers();
    var s := EncodeCell(Int(Int32, -2));
    assert s[1] as int == ByteOf(-2, 3) && s[2] as int == ByteOf(-2, 2) && s[3] as int == ByteOf(-2, 1) && s[4] as int == ByteOf(-2, 0);
    assert EncodeCell(Int(Int64, -1)) == [17, 0xFF, 0xFF, 0xFF, 0xFF, 0xFF, 0xFF, 0xFF, 0xFF];
  }

  lemma MinusOneByte(k: nat)
    ensures ByteOf(-1, k) == 0xFF
  {
    var p := Pow256(k);
    RemainderUnique(-1, p, -1, p - 1);
  }

  /** Index keys of one type: values of one sign compare as they are, and every negative one
      is above all others. */
  lemma KeysInValueOrder(ty: IntType, a: int, b: int)
    requires Fits(ty, a) && Fits(ty, b)
    ensures Less(EncodeCell(Int(ty, a)), EncodeCell(Int(ty, b))) <==>
              if a < 0 <==> b < 0 then a < b else b < 0
  {
    hide EncodeCell, DataCmp;
    IndexOrder(ty, a, b);
    FitsIs(ty, a);
    FitsIs(ty, b);
  }

  // ---- text and rows -----------------------------------------------------------

  lemma TextInBytes(s: Bytes)
    requires |s| < UINT32_RANGE
    ensures var r := EncodeCell(Text(s));
            && |r| == 5 + |s| && r[0] == 40 && r[5..] == s
            && r[1] as nat == |s| / 0x100_0000 && r[2] as nat == |s| / 0x1_0000 % 0x100
            && r[3] as nat == |s| / 0x100 % 0x100 && r[4] as nat == |s| % 0x100
  {
    hide EncodeBytes;
    KeySpace.OneByte(40);
    EncodedBytes(s);
    var r := EncodeBytes(s);
    assert EncodeCell(Text(s)) == [40] + r && ([40] + r)[5..] == r[4..];
  }

  /** The cells of a row are written one behind the other. */
  lemma {:induction false} RowInBytes(a: seq<Cell>, b: seq<Cell>)
    requires AllProper(a) && AllProper(b)
    ensures AllProper(a + b) && EncodeCells(a + b) == EncodeCells(a) + EncodeCells(b)
    ensures EncodeCells([]) == [] && forall c :: Proper(c) ==> EncodeCells([c]) == EncodeCell(c)
    decreases |a|
  {
    hide EncodeCell, Proper;
    forall c | Proper(c) ensures EncodeCells([c]) == EncodeCell(c) { assert [c][1..] == []; }
    if a == [] {
      assert a + b == b && EncodeCells(a) == [];
    } else {
      RowInBytes(a[1..], b);
      assert (a + b)[0] == a[0] && (a + b)[1..] == a[1..] + b;
    }
  }

  /** Only these six codes are read. */
  lemma OtherCodesUnread(input: Bytes)
    requires input != [] && input[0] !in {12, 15, 16, 17, 18, 40}
    ensures DecodeCell(input) == Some((Unset(input[0]), 1))
  {
  }

  // ---- record keys -------------------------------------------------------------

  /** Decimal notation: digits, no leading zero. */
  ghost predicate Decimal(s: Bytes, n: nat) {
    && s != [] && (forall i :: 0 <= i < |s| ==> 0x30 <= s[i] <= 0x39)
    && FromDigits(s) == n && (|s| > 1 ==> s[0] != 0x30)
  }

  lemma {:induction false} DigitsAreDecimal(n: nat)
    ensures Decimal(Digits(n), n)
  {
    DigitsRead(n);
    NoLeadingZero(n);
  }

  lemma {:induction false} NoLeadingZero(n: nat)
    ensures n > 0 ==> Digits(n)[0] != 0x30
    ensures n == 0 ==> |Digits(n)| == 1
  {
    if n >= 10 { NoLeadingZero(n / 10); }
  }

  /** A minus sign before negative numbers. */
  ghost predicate DecimalText(text: Bytes, v: int) {
    if v < 0 then text != [] && text[0] == 0x2D && Decimal(text[1..], -v) else Decimal(text, v)
  }

  /** The record of a row with an integer primary key: database and table as eight bytes each, the
      tag 1, and the value in decimal notation behind its length. */
  lemma RecordKeyInBytes(db: nat, table: nat, ty: IntType, v: int)
    ensures exists text :: DecimalText(text, v)
                           && DataKey(db, table, Int(ty, v)) == BigEndian(db, 8) + BigEndian(table, 8) + [1] + EncodeBytes(text)
  {
    hide Digits, Decimal, BigEndian;
    var text, n := ToText(Int(ty, v)), if v < 0 then -v else v;
    DigitsAreDecimal(n);
    if v < 0 { assert text[1..] == Digits(n); }
    assert DecimalText(text, v);
    KeySpace.OneByte(1);
    assert EncodeUInt8(1) == [1];
  }

  // ---- what a query sees ---------------------------------------------------------

  /** The range of a full-table query in bytes, for the two types a column can be planned for. */
  lemma FullRangeInBytes()
    ensures FullRange(Int64) == IteratorOptions([17, 0, 0, 0, 0, 0, 0, 0, 0],
                                                [17, 0x7F, 0xFF, 0xFF, 0xFF, 0xFF, 0xFF, 0xFF, 0xFF], false, true)
    ensures FullRange(Int32) == IteratorOptions([15, 0x80, 0, 0, 0], [15, 0x7F, 0xFF, 0xFF, 0xFF], false, true)
  {
    hide EncodeCell;
    FitsIs(Int64, 0x7FFF_FFFF_FFFF_FFFF);
    FitsIs(Int32, 0x7FFF_FFFF);
    FitsIs(Int32, -0x8000_0000);
    LargestBytes();
    PlannedFits(Int64);
    PlannedFits(Int32);
    LongCell(0);
    LongCell(0x7FFF_FFFF_FFFF_FFFF);
    IntCell(0x7FFF_FFFF);
    IntCell(-0x8000_0000);
    var a, b := EncodeCell(Int(Int64, 0)), EncodeCell(Int(Int64, 0x7FFF_FFFF_FFFF_FFFF));
    assert forall i :: 1 <= i <= 8 ==> a[i] == 0 && b[i] == if i == 1 then 0x7F else 0xFF;
    assert a == [17, 0, 0, 0, 0, 0, 0, 0, 0] && b == [17, 0x7F, 0xFF, 0xFF, 0xFF, 0xFF, 0xFF, 0xFF, 0xFF];
    var c, d := EncodeCell(Int(Int32, -0x8000_0000)), EncodeCell(Int(Int32, 0x7FFF_FFFF));
    assert forall i :: 1 <= i <= 4 ==> d[i] == (if i == 1 then 0x7F else 0xFF) && c[i] == if i == 1 then 0x80 else 0;
    assert c == [15, 0x80, 0, 0, 0] && d == [15, 0x7F, 0xFF, 0xFF, 0xFF];
    assert MaxOf(Int64) == 0x7FFF_FFFF_FFFF_FFFF && MaxOf(Int32) == 0x7FFF_FFFF && MinOf(Int32) == -0x8000_0000;
  }

  lemma LargestBytes()
    ensures forall k :: 0 <= k < 8 ==> ByteOf(0x7FFF_FFFF_FFFF_FFFF, k) == (if k == 7 then 0x7F else 0xFF) && ByteOf(0, k) == 0
    ensures forall k :: 0 <= k < 4 ==> ByteOf(0x7FFF_FFFF, k) == if k == 3 then 0x7F else 0xFF
    ensures forall k :: 0 <= k < 4 ==> ByteOf(-0x8000_0000, k) == if k == 3 then 0x80 else 0
  {
    hide ByteOf;
    forall k | 0 <= k < 8
      ensures ByteOf(0x7FFF_FFFF_FFFF_FFFF, k) == (if k == 7 then 0x7F else 0xFF) && ByteOf(0, k) == 0
    {
      LongByte(k);
    }
    IntBytes();
  }

  lemma LongByte(k: nat)
    requires k < 8
    ensures ByteOf(0x7FFF_FFFF_FFFF_FFFF, k) == (if k == 7 then 0x7F else 0xFF) && ByteOf(0, k) == 0
  {
    hide Pow256;
    Powers();
    if k < 4 { assert k == 0 || k == 1 || k == 2 || k == 3; } else { assert k == 4 || k == 5 || k == 6 || k == 7; }
  }

  lemma IntBytes()
    ensures forall k :: 0 <= k < 4 ==> ByteOf(0x7FFF_FFFF, k) == if k == 3 then 0x7F else 0xFF
    ensures forall k :: 0 <= k < 4 ==> ByteOf(-0x8000_0000, k) == if k == 3 then 0x80 else 0
  {
    hide Pow256;
    SmallPowers();
    forall k | 0 <= k < 4
      ensures ByteOf(0x7FFF_FFFF, k) == (if k == 3 then 0x7F else 0xFF) && ByteOf(-0x8000_0000, k) == if k == 3 then 0x80 else 0
    {
      assert k == 0 || k == 1 || k == 2 || k == 3;
    }
  }

  lemma Powers()
    ensures Pow256(0) == 1 && Pow256(1) == 0x100 && Pow256(2) == 0x1_0000 && Pow256(3) == 0x100_0000
    ensures Pow256(4) == 0x1_0000_0000 && Pow256(5) == 0x100_0000_0000 && Pow256(6) == 0x1_0000_0000_0000
    ensures Pow256(7) == 0x100_0000_0000_0000
  {
  }

  lemma LongCell(v: int)
    requires Fits(Int64, v)
    ensures var s := EncodeCell(Int(Int64, v));
            && s == [17, s[1], s[2], s[3], s[4], s[5], s[6], s[7], s[8]]
            && forall i :: 1 <= i <= 8 ==> s[i] as int == ByteOf(v, 8 - i)
  {
    hide EncodeCell, ByteOf;
    IntegerInBytes(Int64, v);
  }

  lemma IntCell(v: int)
    requires Fits(Int32, v)
    ensures var s := EncodeCell(Int(Int32, v));
            s == [15, s[1], s[2], s[3], s[4]] && forall i :: 1 <= i <= 4 ==> s[i] as int == ByteOf(v, 4 - i)
  {
    hide EncodeCell, ByteOf;
    IntegerInBytes(Int32, v);
  }
}
