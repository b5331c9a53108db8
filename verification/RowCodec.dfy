/** Rows and index keys as bytes, and which rows a full-table query can see. */
module RowCodec {
  import opened DataOrder
  import opened Options
  import opened Codec
  import opened OrderedMap
  import opened Forest
  import opened ScanSpec
  import KeySpace

  datatype IntType = Int8 | UInt8 | Int32 | UInt32 | Int64 | UInt64

  /** A cell; `Unset` is the cell of a type code the decoder cannot fill. */
  datatype Cell = Int(ty: IntType, v: int) | Text(s: Bytes) | Unset(code: byte)

  const TEXT_CODE: byte := 40

  function Code(ty: IntType): byte {
    match ty
    case Int8 => 11
    case UInt8 => 12
    case Int32 => 15
    case UInt32 => 16
    case Int64 => 17
    case UInt64 => 18
  }

  function TypeOf(code: byte): Option<IntType> {
    match code
    case 11 => Some(Int8)
    case 12 => Some(UInt8)
    case 15 => Some(Int32)
    case 16 => Some(UInt32)
    case 17 => Some(Int64)
    case 18 => Some(UInt64)
    case _ => None
  }

  function Width(ty: IntType): nat {
    match ty
    case Int8 => 1
    case UInt8 => 1
    case Int32 => 4
    case UInt32 => 4
    case Int64 => 8
    case UInt64 => 8
  }

  predicate Signed(ty: IntType) { ty.Int8? || ty.Int32? || ty.Int64? }

  /** Number of values of the type. */
  function Range(ty: IntType): (n: nat)
    ensures n == Pow256(Width(ty)) && n > 1 && n % 2 == 0
  {
    Widths();
    match Width(ty)
    case 1 => UINT8_RANGE
    case 4 => UINT32_RANGE
    case _ => UINT64_RANGE
  }

  function MinOf(ty: IntType): int { if Signed(ty) then -(Range(ty) / 2) else 0 }

  function MaxOf(ty: IntType): int { if Signed(ty) then Range(ty) / 2 - 1 else Range(ty) - 1 }

  predicate Fits(ty: IntType, v: int) { MinOf(ty) <= v <= MaxOf(ty) }

  /** The ranges of the integer types of C++. */
  lemma FitsIs(ty: IntType, v: int)
    ensures Fits(ty, v) <==>
              match ty
              case Int8 => -0x80 <= v <= 0x7F
              case UInt8 => 0 <= v <= 0xFF
              case Int32 => -0x8000_0000 <= v <= 0x7FFF_FFFF
              case UInt32 => 0 <= v <= 0xFFFF_FFFF
              case Int64 => -0x8000_0000_0000_0000 <= v <= 0x7FFF_FFFF_FFFF_FFFF
              case UInt64 => 0 <= v <= 0xFFFF_FFFF_FFFF_FFFF
  {
  }

  /** Two's complement: the unsigned number with the bits of `v`, and back. */
  function Bits(ty: IntType, v: int): nat
    requires Fits(ty, v)
  {
    if v < 0 then v + Range(ty) else v
  }

  function FromBits(ty: IntType, u: nat): int {
    if Signed(ty) && u > MaxOf(ty) then u - Range(ty) else u
  }

  ghost predicate Proper(c: Cell) {
    match c
    case Int(ty, v) => Fits(ty, v)
    case Text(s) => |s| < UINT32_RANGE
    case Unset(_) => false
  }

  // ---- cells ---------------------------------------------------------------

  /** The type code and the value: integers big-endian, strings behind their length. */
  function EncodeCell(c: Cell): Bytes
    requires Proper(c)
  {
    match c
    case Int(ty, v) => EncodeUInt8(Code(ty) as nat) + BigEndian(Bits(ty, v), Width(ty))
    case Text(s) => EncodeUInt8(TEXT_CODE as nat) + EncodeBytes(s)
    case Unset(_) => []
  }

  /** The cell at the front and the bytes it takes; `None` when the bytes end too early. There
      is no decoder for 8-bit signed integers: like an unknown type code, theirs is taken
      and no value is read. */
  function DecodeCell(input: Bytes): (r: Option<(Cell, nat)>)
    ensures r.Some? ==> 1 <= r.value.1 <= |input|
  {
    if input == [] then None
    else
      var code, rest := input[0], input[1..];
      var ty := TypeOf(code);
      if code == TEXT_CODE then
        match DecodeBytes(rest)
        case None => None
        case Some((s, n)) => Some((Text(s), 1 + n))
      else if ty == None || ty == Some(Int8) then Some((Unset(code), 1))
      else
        var w := Width(ty.value);
        if |rest| < w then None
        else Some((Int(ty.value, FromBits(ty.value, FromBigEndian(rest[..w]))), 1 + w))
  }

  predicate IsInt8(c: Cell) { c.Int? && c.ty == Int8 }

  /** Reading a cell back gives the cell, unless it is an 8-bit signed integer. */
  lemma CellRoundTrip(c: Cell, rest: Bytes)
    requires Proper(c)
    ensures if IsInt8(c) then DecodeCell(EncodeCell(c) + rest) == Some((Unset(11), 1))
            else DecodeCell(EncodeCell(c) + rest) == Some((c, |EncodeCell(c)|))
  {
    hide EncodeCell, DecodeCell;
    match c {
      case Int(ty, v) => IntRoundTrip(ty, v, rest);
      case Text(s) => TextRoundTrip(s, rest);
    }
  }

  lemma IntRoundTrip(ty: IntType, v: int, rest: Bytes)
    requires Fits(ty, v)
    ensures DecodeCell(EncodeCell(Int(ty, v)) + rest) ==
            if ty == Int8 then Some((Unset(11), 1)) else Some((Int(ty, v), |EncodeCell(Int(ty, v))|))
  {
    hide BigEndian, FromBigEndian, Bits, FromBits, Pow256;
    var input := EncodeCell(Int(ty, v)) + rest;
    KeySpace.OneByte(Code(ty) as nat);
    BitsBack(ty, v);
    var payload := BigEndian(Bits(ty, v), Width(ty));
    assert input[0] == Code(ty) && input[1..] == payload + rest;
    assert (payload + rest)[..Width(ty)] == payload;
    BigEndianRoundTrip(Bits(ty, v), Width(ty));
    CodesDiffer(ty);
  }

  lemma CodesDiffer(ty: IntType)
    ensures TypeOf(Code(ty)) == Some(ty) && Code(ty) != TEXT_CODE
  {
  }

  lemma TextRoundTrip(s: Bytes, rest: Bytes)
    requires |s| < UINT32_RANGE
    ensures DecodeCell(EncodeCell(Text(s)) + rest) == Some((Text(s), |EncodeCell(Text(s))|))
  {
    hide BigEndian, DecodeBytes, EncodeBytes;
    var input := EncodeCell(Text(s)) + rest;
    KeySpace.OneByte(TEXT_CODE as nat);
    assert input[0] == TEXT_CODE && input[1..] == EncodeBytes(s) + rest;
    DecodeBytesInverts(s, rest);
  }

  lemma BitsBack(ty: IntType, v: int)
    requires Fits(ty, v)
    ensures Bits(ty, v) < Pow256(Width(ty)) && FromBits(ty, Bits(ty, v)) == v
  {
  }

  // ---- row values ----------------------------------------------------------

  ghost predicate AllProper(cells: seq<Cell>) { forall i :: 0 <= i < |cells| ==> Proper(cells[i]) }

  ghost function EncodeCells(cells: seq<Cell>): Bytes
    requires AllProper(cells)
  {
    if cells == [] then [] else EncodeCell(cells[0]) + EncodeCells(cells[1..])
  }

  ghost function DecodeCells(value: Bytes, columns: nat): Option<seq<Cell>>
    decreases columns
  {
    if columns == 0 then Some([])
    else
      match DecodeCell(value)
      case None => None
      case Some((c, n)) =>
        match DecodeCells(value[n..], columns - 1)
        case None => None
        case Some(cells) => Some([c] + cells)
  }

  /** Writes the cells of a row one after the other. */
  method EncodeRowValue(cells: seq<Cell>) returns (value: Bytes)
    requires AllProper(cells)
    ensures value == EncodeCells(cells)
  {
    hide EncodeCell, Proper;
    value := [];
    var i := 0;
    assert cells[0..] == cells;
    while i < |cells|
      invariant 0 <= i <= |cells| && value + EncodeCells(cells[i..]) == EncodeCells(cells)
    {
      ghost var rest := cells[i..];
      assert rest[0] == cells[i] && rest[1..] == cells[i + 1..];
      assert value + (EncodeCell(cells[i]) + EncodeCells(rest[1..])) == (value + EncodeCell(cells[i])) + EncodeCells(rest[1..]);
      value := value + EncodeCell(cells[i]);
      i := i + 1;
    }
    assert cells[i..] == [] && value + [] == value;
  }

  ghost function After(front: seq<Cell>, rest: Option<seq<Cell>>): Option<seq<Cell>> {
    match rest
    case None => None
    case Some(cells) => Some(front + cells)
  }

  lemma AfterOne(front: seq<Cell>, c: Cell, rest: Option<seq<Cell>>)
    ensures After(front, After([c], rest)) == After(front + [c], rest)
  {
    if rest.Some? { assert front + ([c] + rest.value) == (front + [c]) + rest.value; }
  }

  lemma AfterNothing(rest: Option<seq<Cell>>)
    ensures After([], rest) == rest
  {
    if rest.Some? { assert [] + rest.value == rest.value; }
  }

  /** Reads as many cells as the table has columns, with a running offset. */
  method DecodeRowValue(value: Bytes, columns: nat) returns (cells: Option<seq<Cell>>)
    ensures cells == DecodeCells(value, columns)
  {
    hide DecodeCell;
    var offset, row := 0, [];
    AfterNothing(DecodeCells(value, columns));
    assert value[0..] == value;
    for k := 0 to columns
      invariant 0 <= offset <= |value|
      invariant DecodeCells(value, columns) == After(row, DecodeCells(value[offset..], columns - k))
    {
      ghost var rest := value[offset..];
      var cell := DecodeCell(value[offset..]);
      if cell == None { return None; }
      assert rest[cell.value.1..] == value[offset + cell.value.1..];
      AfterOne(row, cell.value.0, DecodeCells(rest[cell.value.1..], columns - k - 1));
      row := row + [cell.value.0];
      offset := offset + cell.value.1;
    }
    assert row + [] == row;
    cells := Some(row);
  }

  /** A row is read back as written exactly when it has no 8-bit signed integer. */
  lemma {:induction false} RowRoundTripIff(cells: seq<Cell>)
    requires AllProper(cells)
    ensures DecodeCells(EncodeCells(cells), |cells|) == Some(cells) <==> forall i :: 0 <= i < |cells| ==> !IsInt8(cells[i])
    decreases |cells|
  {
    hide EncodeCell, DecodeCell, Proper;
    if cells != [] {
      var c, rest := cells[0], cells[1..];
      CellRoundTrip(c, EncodeCells(rest));
      var value := EncodeCell(c) + EncodeCells(rest);
      if !IsInt8(c) {
        assert value[|EncodeCell(c)|..] == EncodeCells(rest);
        RowRoundTripIff(rest);
        assert cells == [c] + rest;
        Split(cells);
      }
    }
  }

  lemma Split(cells: seq<Cell>)
    requires cells != []
    ensures (forall i :: 0 <= i < |cells| ==> !IsInt8(cells[i]))
            <==> !IsInt8(cells[0]) && forall i :: 0 <= i < |cells[1..]| ==> !IsInt8(cells[1..][i])
  {
    assert forall i :: 1 <= i < |cells| ==> cells[i] == cells[1..][i - 1];
  }

  // ---- index keys and data keys --------------------------------------------

  /** The value of a single-column key: the type code, then as many bytes as the type has. */
  function DecodeIndexKey(key: Bytes): Option<Cell> {
    if key == [] then None
    else
      match TypeOf(key[0])
      case None => None
      case Some(ty) =>
        if |key| < 1 + Width(ty) then None
        else
          match DecodeCell(key[..1 + Width(ty)])
          case None => None
          case Some((c, _)) => Some(c)
  }

  function Digits(n: nat): (s: Bytes)
    ensures s != [] && forall i :: 0 <= i < |s| ==> 0x30 <= s[i] <= 0x39
  {
    if n < 10 then [(0x30 + n) as byte] else Digits(n / 10) + [(0x30 + n % 10) as byte]
  }

  /** Decimal notation, as the row keys use it. */
  function ToText(c: Cell): Bytes
    requires !c.Unset?
  {
    match c
    case Int(_, v) => if v < 0 then [0x2D] + Digits(-v) else Digits(v)
    case Text(s) => s
  }

  /** Where the row with this primary key is stored. */
  function DataKey(db: nat, table: nat, primary: Cell): Bytes
    requires !primary.Unset?
  {
    KeySpace.KeyOf(KeySpace.Row(db, table, ToText(primary)))
  }

  /** The entry of the primary index leads to the row, unless the key is an 8-bit signed
      integer: then no value is read. */
  lemma IndexLeadsToRow(db: nat, table: nat, primary: Cell)
    requires primary.Int? && Proper(primary)
    ensures var decoded := DecodeIndexKey(EncodeCell(primary));
            && decoded.Some? && (decoded.value == primary <==> primary.ty != Int8)
            && (primary.ty != Int8 ==> decoded.value.Int? && DataKey(db, table, decoded.value) == DataKey(db, table, primary))
  {
    hide BigEndian, DecodeCell, DataKey;
    var key, ty := EncodeCell(primary), primary.ty;
    KeySpace.OneByte(Code(ty) as nat);
    assert key[0] == Code(ty) && |key| == 1 + Width(ty);
    assert key[..1 + Width(ty)] == key && key + [] == key;
    CellRoundTrip(primary, []);
  }

  /** The key under which a row with several key columns is stored: one data key after the other. */
  function DataKeys(db: nat, table: nat, primary: seq<Cell>): Bytes
    requires forall i :: 0 <= i < |primary| ==> primary[i].Int?
  {
    if primary == [] then [] else DataKey(db, table, primary[0]) + DataKeys(db, table, primary[1..])
  }

  /** The value of a key with several columns: every column is read from the start of the key. */
  function DecodeIndexKeys(key: Bytes, columns: nat): (cells: seq<Option<Cell>>)
    ensures |cells| == columns && forall i :: 0 <= i < columns ==> cells[i] == DecodeIndexKey(key)
  {
    seq(columns, i => DecodeIndexKey(key))
  }

  /** The entry of the primary index is read as if every key column held what the first one does. It
      leads to the row exactly when that is so. */
  lemma IndexLeadsToRowIff(db: nat, table: nat, primary: seq<Cell>)
    requires 1 <= db < UINT64_RANGE && table < UINT64_RANGE && primary != []
    requires forall i :: 0 <= i < |primary| ==> primary[i].Int? && Proper(primary[i])
    requires primary[0].ty != Int8
    ensures var read := seq(|primary|, _ => primary[0]);
            && DecodeIndexKeys(EncodeCells(primary), |primary|) == seq(|primary|, i requires 0 <= i < |primary| => Some(read[i]))
            && (DataKeys(db, table, read) == DataKeys(db, table, primary) <==>
                  forall i :: 0 <= i < |primary| ==> primary[i].v == primary[0].v)
  {
    hide EncodeCell, DataKey, DecodeIndexKey, DataKeys;
    FirstCell(primary[0], EncodeCells(primary[1..]));
    SameDataKeysIff(db, table, seq(|primary|, _ => primary[0]), primary);
  }

  lemma FirstCell(c: Cell, rest: Bytes)
    requires c.Int? && Proper(c) && c.ty != Int8
    ensures DecodeIndexKey(EncodeCell(c) + rest) == Some(c)
  {
    hide BigEndian, DecodeCell;
    var key, n := EncodeCell(c) + rest, 1 + Width(c.ty);
    KeySpace.OneByte(Code(c.ty) as nat);
    assert key[0] == Code(c.ty) && key[..n] == EncodeCell(c) == EncodeCell(c) + [];
    CellRoundTrip(c, []);
  }

  lemma {:induction false} SameDataKeysIff(db: nat, table: nat, a: seq<Cell>, b: seq<Cell>)
    requires 1 <= db < UINT64_RANGE && table < UINT64_RANGE && |a| == |b|
    requires forall i :: 0 <= i < |a| ==> a[i].Int? && Proper(a[i]) && b[i].Int? && Proper(b[i])
    ensures DataKeys(db, table, a) == DataKeys(db, table, b) <==> forall i :: 0 <= i < |a| ==> a[i].v == b[i].v
    decreases |a|
  {
    hide DataKey;
    if a != [] {
      SameDataKeysIff(db, table, a[1..], b[1..]);
      FirstDataKey(db, table, a[0], b[0], DataKeys(db, table, a[1..]), DataKeys(db, table, b[1..]));
      if a[0].v == b[0].v && forall i :: 0 <= i < |a| - 1 ==> a[1..][i].v == b[1..][i].v {
        forall i | 0 <= i < |a| ensures a[i].v == b[i].v { assert i > 0 ==> a[i] == a[1..][i - 1] && b[i] == b[1..][i - 1]; }
      }
    }
  }

  /** A data key ends where its length says. */
  lemma FirstDataKey(db: nat, table: nat, a: Cell, b: Cell, more: Bytes, more': Bytes)
    requires 1 <= db < UINT64_RANGE && table < UINT64_RANGE && a.Int? && b.Int? && Proper(a) && Proper(b)
    ensures DataKey(db, table, a) + more == DataKey(db, table, b) + more' <==> a.v == b.v && more == more'
  {
    hide KeySpace.Head, EncodeBytes, DecodeBytes, ToText;
    TextShort(a);
    TextShort(b);
    NumbersDiffer(a, b);
    var head := KeySpace.Head(db, table) + EncodeUInt8(1);
    var x, y := EncodeBytes(ToText(a)) + more, EncodeBytes(ToText(b)) + more';
    assert DataKey(db, table, a) + more == head + x && DataKey(db, table, b) + more' == head + y;
    DecodeBytesInverts(ToText(a), more);
    DecodeBytesInverts(ToText(b), more');
    if head + x == head + y { assert (head + x)[|head|..] == x && (head + y)[|head|..] == y; }
  }

  lemma NumbersDiffer(a: Cell, b: Cell)
    requires a.Int? && b.Int?
    ensures ToText(a) == ToText(b) <==> a.v == b.v
  {
    TextsDiffer(Int(Int64, a.v), Int(Int64, b.v));
  }

  ghost function FromDigits(s: Bytes): nat
    requires forall i :: 0 <= i < |s| ==> 0x30 <= s[i]
  {
    if s == [] then 0 else 10 * FromDigits(s[..|s| - 1]) + (s[|s| - 1] as nat - 0x30)
  }

  lemma {:induction false} DigitsRead(n: nat)
    ensures FromDigits(Digits(n)) == n
  {
    var s := Digits(n);
    if n >= 10 {
      DigitsRead(n / 10);
      assert s[..|s| - 1] == Digits(n / 10);
    } else {
      assert s[..|s| - 1] == [];
    }
  }

  lemma {:induction false} DigitsShort(n: nat, width: nat)
    requires n < Pow256(width)
    ensures |Digits(n)| <= 3 * width + 1
    decreases width
  {
    if n >= 10 && width > 0 {
      var p := Pow256(width - 1);
      var s := n / 1000;
      assert s < p;
      DigitsShort(s, width - 1);
      assert n >= 100 ==> n / 10 / 10 == n / 100;
      assert n >= 1000 ==> n / 100 / 10 == s;
      assert |Digits(n)| <= |Digits(n / 10)| + 1;
      assert n >= 100 ==> |Digits(n / 10)| == |Digits(n / 100)| + 1;
      assert n >= 1000 ==> |Digits(n / 100)| == |Digits(s)| + 1;
    }
  }

  /** Different primary keys of a table have different data keys. */
  lemma RowsHaveOwnKeys(db: nat, table: nat, a: Cell, b: Cell)
    requires 1 <= db < UINT64_RANGE && table < UINT64_RANGE
    requires a.Int? && b.Int? && a.ty == b.ty && Proper(a) && Proper(b)
    ensures DataKey(db, table, a) == DataKey(db, table, b) <==> a == b
  {
    hide KeySpace.KeyOf, ToText, Digits;
    TextShort(a);
    TextShort(b);
    KeySpace.KeysDistinct(KeySpace.Row(db, table, ToText(a)), KeySpace.Row(db, table, ToText(b)));
    TextsDiffer(a, b);
  }

  lemma TextShort(c: Cell)
    requires c.Int? && Proper(c)
    ensures |ToText(c)| < UINT32_RANGE
  {
    hide Digits;
    DigitsShort(if c.v < 0 then -c.v else c.v, Width(c.ty));
  }

  lemma TextsDiffer(a: Cell, b: Cell)
    requires a.Int? && b.Int? && a.ty == b.ty
    ensures ToText(a) == ToText(b) <==> a == b
  {
    hide Digits, FromDigits;
    DigitsRead(if a.v < 0 then -a.v else a.v);
    DigitsRead(if b.v < 0 then -b.v else b.v);
    var x, y := Digits(if a.v < 0 then -a.v else a.v), Digits(if b.v < 0 then -b.v else b.v);
    assert x[0] >= 0x30 && y[0] >= 0x30;
    if a.v < 0 && b.v < 0 {
      assert ToText(a)[1..] == Digits(-a.v) && ToText(b)[1..] == Digits(-b.v);
    }
  }

  // ---- ranges of index keys --------------------------------------------------

  /** A range of the index as the planner gives it: the cells of its two ends. */
  datatype IndexRange = IndexRange(lower: seq<Cell>, lowerOpen: bool, upper: seq<Cell>, upperOpen: bool)

  ghost predicate RangeProper(r: IndexRange) { AllProper(r.lower) && AllProper(r.upper) }

  /** The ends as bytes. */
  ghost function OptionsOf(r: IndexRange): IteratorOptions
    requires RangeProper(r)
  {
    IteratorOptions(EncodeCells(r.lower), EncodeCells(r.upper), r.lowerOpen, r.upperOpen)
  }

  // ---- the ranges of full-table queries ------------------------------------

  /** What the planner takes for the smallest value: zero for 64-bit integers. */
  function PlannedMin(ty: IntType): int { if ty == Int64 then 0 else MinOf(ty) }

  lemma PlannedFits(ty: IntType)
    ensures Fits(ty, PlannedMin(ty)) && Fits(ty, MaxOf(ty))
  {
  }

  /** From the smallest value, included, to the largest, excluded. */
  ghost function FullRange(ty: IntType): IteratorOptions {
    PlannedFits(ty);
    IteratorOptions(EncodeCell(Int(ty, PlannedMin(ty))), EncodeCell(Int(ty, MaxOf(ty))), false, true)
  }

  /** Index keys of one type compare as their bits do, read as unsigned numbers. */
  lemma IndexOrder(ty: IntType, a: int, b: int)
    requires Fits(ty, a) && Fits(ty, b)
    ensures DataCmp(EncodeCell(Int(ty, a)), EncodeCell(Int(ty, b))) == CompareNat(Bits(ty, a), Bits(ty, b))
  {
    hide BigEndian;
    KeySpace.OneByte(Code(ty) as nat);
    BitsBack(ty, a);
    BitsBack(ty, b);
    BigEndianOrder(Bits(ty, a), Bits(ty, b), Width(ty));
    var x, y := EncodeCell(Int(ty, a)), EncodeCell(Int(ty, b));
    assert x[1..] == BigEndian(Bits(ty, a), Width(ty)) && y[1..] == BigEndian(Bits(ty, b), Width(ty));
  }

  /** The values a full-table query can return, by type of the primary key. */
  predicate Visible(ty: IntType, v: int) {
    match ty
    case Int64 => 0 <= v < 0x7FFF_FFFF_FFFF_FFFF
    case UInt64 => v < 0xFFFF_FFFF_FFFF_FFFF
    case UInt32 => v < 0xFFFF_FFFF
    case UInt8 => v < 0xFF
    case Int32 => false
    case Int8 => false
  }

  /** The range of the planner covers exactly these of its type: no negative 64-bit key, nothing
      at all of the shorter signed types, and never the largest value; and no key of another
      type. A description loaded from storage has lost the types of the columns, and the range is
      that of 64-bit integers. */
  lemma FullRangeSelects(planned: IntType, ty: IntType, v: int)
    requires Fits(ty, v)
    ensures var o, key := FullRange(planned), EncodeCell(Int(ty, v));
            AboveLower(o, key) && BelowUpper(o, !o.upperOpen, key) <==> ty == planned && Visible(ty, v)
  {
    hide EncodeCell, DataCmp;
    PlannedFits(planned);
    FitsIs(ty, v);
    if ty == planned {
      IndexOrder(ty, PlannedMin(ty), v);
      IndexOrder(ty, v, MaxOf(ty));
    } else {
      TypesApart(planned, PlannedMin(planned), ty, v);
      TypesApart(planned, MaxOf(planned), ty, v);
    }
  }

  /** Keys of different types compare as the type codes do. */
  lemma TypesApart(a: IntType, v: int, b: IntType, w: int)
    requires a != b && Fits(a, v) && Fits(b, w)
    ensures DataCmp(EncodeCell(Int(a, v)), EncodeCell(Int(b, w))) == if Code(a) < Code(b) then Lt else Gt
  {
    hide BigEndian;
    KeySpace.OneByte(Code(a) as nat);
    KeySpace.OneByte(Code(b) as nat);
    CodesDiffer(a);
    CodesDiffer(b);
  }

  /** A full-table scan of a tree over keys of one type returns the visible entries, all of
      them, and no others. */
  lemma FullScanReturns(vs: seq<LeafView>, planned: IntType, ty: IntType, e: Entry, v: int)
    requires ForestOk(vs) && Fits(ty, v) && e.key == EncodeCell(Int(ty, v))
    ensures e in Scan(vs, FullRange(planned)) <==> e in Flatten(vs) && ty == planned && Visible(ty, v)
  {
    hide EncodeCell, DataCmp, ForestOk, Flatten, Scan, Visible, Between;
    HalfOpenScan(vs, FullRange(planned));
    FullRangeSelects(planned, ty, v);
    BetweenHas(Flatten(vs), FullRange(planned), false, e);
  }

  lemma {:induction false} BetweenHas(s: seq<Entry>, o: IteratorOptions, inclusive: bool, e: Entry)
    ensures e in Between(s, o, inclusive) <==> e in s && AboveLower(o, e.key) && BelowUpper(o, inclusive, e.key)
  {
    hide DataCmp;
    if s != [] { BetweenHas(s[1..], o, inclusive, e); }
  }

  // ---- what a query misses ---------------------------------------------------

  /** A row whose one cell is an 8-bit signed 5 is read back without a value. */
  lemma Int8RowIsLost()
    ensures var row := [Int(Int8, 5)];
            AllProper(row) && EncodeCells(row) == [11, 5] && DecodeCells(EncodeCells(row), 1) == Some([Unset(11)])
  {
    var row := [Int(Int8, 5)];
    KeySpace.OneByte(11);
    KeySpace.OneByte(5);
    assert EncodeCell(row[0]) == [11] + BigEndian(5, 1) && BigEndian(5, 1) == [] + [5];
    assert EncodeCells(row) == EncodeCell(row[0]) + [];
    assert DecodeCell([11, 5]) == Some((Unset(11), 1));
    var read: Cell := Unset(11);
    assert DecodeCells([11, 5], 1) == Some([read] + []) by { assert DecodeCells([11, 5][1..], 0) == Some([]); }
    assert [read] + [] == [read];
  }

  /** A table that holds the 32-bit key 5 alone, or the 64-bit key -1 alone, looks empty to a
      full-table query. */
  lemma QueryMissesRow(value: Bytes)
    ensures forall c :: c == Int(Int32, 5) || c == Int(Int64, -1) ==>
              var e := Entry(EncodeCell(c), value);
              Scan([LeafView([e], e.key, e.key)], FullRange(c.ty)) == []
  {
    hide EncodeCell, DataCmp, FullRange;
    AloneIsMissed(Int(Int32, 5), value);
    AloneIsMissed(Int(Int64, -1), value);
  }

  lemma AloneIsMissed(c: Cell, value: Bytes)
    requires c == Int(Int32, 5) || c == Int(Int64, -1)
    ensures var e := Entry(EncodeCell(c), value); Scan([LeafView([e], e.key, e.key)], FullRange(c.ty)) == []
  {
    hide EncodeCell, DataCmp, Scan, Flatten;
    var e := Entry(EncodeCell(c), value);
    var vs := [LeafView([e], e.key, e.key)];
    FlattenSingle(vs[0]);
    HalfOpenScan(vs, FullRange(c.ty));
    FullRangeSelects(c.ty, c.ty, c.v);
    var o := FullRange(c.ty);
    assert !(AboveLower(o, e.key) && BelowUpper(o, !o.upperOpen, e.key));
    assert Between([e], o, !o.upperOpen) == [] + Between([e][1..], o, !o.upperOpen);
    assert [e][1..] == [];
  }
}
