/** The keys under which everything is kept in one key-value store. */
module KeySpace {
  import opened DataOrder
  import opened Options
  import opened Codec

  /** What a key can stand for. */
  datatype Item =
    | DatabaseCounter(bucket: nat)
    | TableCounter(bucket: nat)
    | ColumnCounter(bucket: nat)
    | DatabaseById(db: nat)
    | DatabaseByName(name: Bytes)
    | TableById(db: nat, table: nat)
    | TableByName(db: nat, name: Bytes)
    | TreeNode(db: nat, table: nat, index: nat, node: nat)
    | Row(db: nat, table: nat, key: Bytes)
    | TableStatistic(db: nat, table: nat)
    | ColumnStatistic(db: nat, table: nat, column: nat)

  /** The bytes an encoder appends for the item: owner ids, a tag, and the rest. The tags
      of the families overlap, and the last family has its tag at the end. */
  function KeyOf(item: Item): Bytes {
    match item
    case DatabaseCounter(bucket) => GlobalHead() + EncodeUInt8(2) + EncodeUInt64(bucket)
    case TableCounter(bucket) => GlobalHead() + EncodeUInt8(3) + EncodeUInt64(bucket)
    case ColumnCounter(bucket) => GlobalHead() + EncodeUInt8(4) + EncodeUInt64(bucket)
    case DatabaseById(db) => GlobalHead() + EncodeUInt8(1) + EncodeUInt64(db)
    case DatabaseByName(name) => GlobalHead() + EncodeUInt8(2) + EncodeBytes(name)
    case TableById(db, table) => GlobalHead() + EncodeUInt8(3) + EncodeUInt64(db) + EncodeUInt64(table)
    case TableByName(db, name) => GlobalHead() + EncodeUInt8(4) + EncodeUInt64(db) + EncodeBytes(name)
    case TreeNode(db, table, index, node) => Head(db, table) + EncodeUInt8(0) + EncodeUInt64(index) + EncodeUInt64(node)
    case Row(db, table, key) => Head(db, table) + EncodeUInt8(1) + EncodeBytes(key)
    case TableStatistic(db, table) => Head(db, table) + EncodeUInt8(5)
    case ColumnStatistic(db, table, column) => Head(db, table) + EncodeUInt64(column) + EncodeUInt8(6)
  }

  function Head(db: nat, table: nat): Bytes { EncodeUInt64(db) + EncodeUInt64(table) }

  /** Global items belong to database 0 and table 0. */
  function GlobalHead(): Bytes { Head(0, 0) }

  /** Fields fit their integer types, strings their length prefix, and databases have the
      ids the allocator gives out, which start at 1. */
  ghost predicate Proper(item: Item) {
    match item
    case DatabaseCounter(bucket) => bucket < UINT32_RANGE
    case TableCounter(bucket) => bucket < UINT32_RANGE
    case ColumnCounter(bucket) => bucket < UINT32_RANGE
    case DatabaseById(db) => db < UINT64_RANGE
    case DatabaseByName(name) => |name| < UINT32_RANGE
    case TableById(db, table) => db < UINT64_RANGE && table < UINT64_RANGE
    case TableByName(db, name) => db < UINT64_RANGE && |name| < UINT32_RANGE
    case TreeNode(db, table, index, node) =>
      1 <= db < UINT64_RANGE && table < UINT64_RANGE && index < UINT64_RANGE && node < UINT64_RANGE
    case Row(db, table, key) => 1 <= db < UINT64_RANGE && table < UINT64_RANGE && |key| < UINT32_RANGE
    case TableStatistic(db, table) => 1 <= db < UINT64_RANGE && table < UINT64_RANGE
    case ColumnStatistic(db, table, column) => 1 <= db < UINT64_RANGE && table < UINT64_RANGE && column < UINT64_RANGE
  }

  /** The one overlap: a column id whose leading bytes read as the tag of a row and the length
      four, and the row of the same table with the remaining bytes as its key. */
  ghost predicate Clash(column: Item, row: Item) {
    && column.ColumnStatistic? && row.Row? && column.db == row.db && column.table == row.table
    && column.column / Pow256(3) == UINT32_RANGE + 4
    && row.key == BigEndian(column.column, 3) + [6]
  }

  // ---- keys in a common shape ----------------------------------------------

  /** The two owner ids, the byte after them, and the rest. */
  datatype Shape = Shape(db: nat, table: nat, tag: byte, rest: Bytes)

  ghost function ShapeOf(item: Item): Shape {
    match item
    case DatabaseCounter(bucket) => Shape(0, 0, 2, EncodeUInt64(bucket))
    case TableCounter(bucket) => Shape(0, 0, 3, EncodeUInt64(bucket))
    case ColumnCounter(bucket) => Shape(0, 0, 4, EncodeUInt64(bucket))
    case DatabaseById(db) => Shape(0, 0, 1, EncodeUInt64(db))
    case DatabaseByName(name) => Shape(0, 0, 2, EncodeBytes(name))
    case TableById(db, table) => Shape(0, 0, 3, EncodeUInt64(db) + EncodeUInt64(table))
    case TableByName(db, name) => Shape(0, 0, 4, EncodeUInt64(db) + EncodeBytes(name))
    case TreeNode(db, table, index, node) => Shape(db, table, 0, EncodeUInt64(index) + EncodeUInt64(node))
    case Row(db, table, key) => Shape(db, table, 1, EncodeBytes(key))
    case TableStatistic(db, table) => Shape(db, table, 5, [])
    case ColumnStatistic(db, table, column) =>
      Shape(db, table, (column / Pow256(7) % 256) as byte, BigEndian(column, 7) + [6])
  }

  ghost function BytesOf(s: Shape): Bytes { Head(s.db, s.table) + [s.tag] + s.rest }

  lemma OneByte(v: nat)
    requires v < 256
    ensures EncodeUInt8(v) == [v as byte]
  {
  }

  /** The number without its low bytes. */
  ghost function High(v: nat, low: nat): nat { if low == 0 then v else High(v / 256, low - 1) }

  lemma {:induction false} HighIsQuotient(v: nat, low: nat)
    ensures High(v, low) == v / Pow256(low)
    decreases low
  {
    if low > 0 {
      HighIsQuotient(v / 256, low - 1);
      DivMod(v, Pow256(low - 1));
    }
  }

  /** The high bytes of a number and its low bytes. */
  lemma {:induction false} BigEndianSplit(v: nat, high: nat, low: nat)
    ensures BigEndian(v, high + low) == BigEndian(High(v, low), high) + BigEndian(v, low)
    decreases low
  {
    if low == 0 {
      assert BigEndian(v, high) + [] == BigEndian(v, high);
    } else {
      BigEndianSplit(v / 256, high, low - 1);
      assert BigEndian(High(v, low), high) + (BigEndian(v / 256, low - 1) + [(v % 256) as byte])
             == (BigEndian(High(v, low), high) + BigEndian(v / 256, low - 1)) + [(v % 256) as byte];
    }
  }

  lemma KeyHasShape(item: Item)
    requires Proper(item)
    ensures KeyOf(item) == BytesOf(ShapeOf(item))
  {
    hide BigEndian, Pow256;
    OneByte(0); OneByte(1); OneByte(2); OneByte(3); OneByte(4); OneByte(5); OneByte(6);
    if item.ColumnStatistic? {
      ColumnBytes(item.column);
      var h, c := Head(item.db, item.table), [(item.column / Pow256(7) % 256) as byte];
      assert h + (c + BigEndian(item.column, 7)) + [6] == h + c + (BigEndian(item.column, 7) + [6]);
    } else if item.TableStatistic? {
      assert KeyOf(item) + [] == KeyOf(item);
    }
  }

  lemma ColumnBytes(column: nat)
    ensures EncodeUInt64(column) == [(column / Pow256(7) % 256) as byte] + BigEndian(column, 7)
  {
    BigEndianSplit(column, 1, 7);
    HighIsQuotient(column, 7);
    assert BigEndian(column / Pow256(7) / 256, 0) == [];
  }

  /** Owner ids, tag and rest can be read off the key. */
  lemma ShapeRead(a: Shape, b: Shape)
    requires a.db < UINT64_RANGE && a.table < UINT64_RANGE && b.db < UINT64_RANGE && b.table < UINT64_RANGE
    requires BytesOf(a) == BytesOf(b)
    ensures a == b
  {
    hide BigEndian;
    var x, y := BytesOf(a), BytesOf(b);
    assert x[..8] == EncodeUInt64(a.db) && x[8..16] == EncodeUInt64(a.table) && x[16] == a.tag && x[17..] == a.rest;
    assert y[..8] == EncodeUInt64(b.db) && y[8..16] == EncodeUInt64(b.table) && y[16] == b.tag && y[17..] == b.rest;
    SameNumber(a.db, b.db);
    SameNumber(a.table, b.table);
  }

  lemma SameNumber(a: nat, b: nat)
    requires a < UINT64_RANGE && b < UINT64_RANGE && EncodeUInt64(a) == EncodeUInt64(b)
    ensures a == b
  {
    hide BigEndian, Pow256;
    Widths();
    BigEndianRoundTrip(a, 8);
    BigEndianRoundTrip(b, 8);
  }

  lemma SameBytes(s: Bytes, t: Bytes)
    requires |s| < UINT32_RANGE && |t| < UINT32_RANGE && EncodeBytes(s) == EncodeBytes(t)
    ensures s == t
  {
    hide DecodeBytes;
    DecodeBytesInverts(s, []);
    DecodeBytesInverts(t, []);
    assert EncodeBytes(s) + [] == EncodeBytes(s) && EncodeBytes(t) + [] == EncodeBytes(t);
  }

  // ---- keys in bytes ---------------------------------------------------------

  /** Every field can be read off the bytes of its key: the owner ids as two big-endian numbers, 0
      for global items, then the tag of the family and the fields; a column id comes before its tag. */
  lemma KeyInBytes(item: Item)
    requires Proper(item)
    ensures var k := KeyOf(item);
            && |k| >= 17
            && match item
               case DatabaseCounter(bucket) => Global(k, 2) && Number(k[17..], bucket)
               case TableCounter(bucket) => Global(k, 3) && Number(k[17..], bucket)
               case ColumnCounter(bucket) => Global(k, 4) && Number(k[17..], bucket)
               case DatabaseById(db) => Global(k, 1) && Number(k[17..], db)
               case DatabaseByName(name) => Global(k, 2) && Name(k[17..], name)
               case TableById(db, table) => Global(k, 3) && |k| == 33 && Number(k[17..25], db) && Number(k[25..], table)
               case TableByName(db, name) => Global(k, 4) && |k| >= 25 && Number(k[17..25], db) && Name(k[25..], name)
               case TreeNode(db, table, index, node) =>
                 Owned(k, db, table) && k[16] == 0 && |k| == 33 && Number(k[17..25], index) && Number(k[25..], node)
               case Row(db, table, key) => Owned(k, db, table) && k[16] == 1 && Name(k[17..], key)
               case TableStatistic(db, table) => Owned(k, db, table) && k[16] == 5 && |k| == 17
               case ColumnStatistic(db, table, column) =>
                 Owned(k, db, table) && |k| == 25 && Number(k[16..24], column) && k[24] == 6
  {
    hide BigEndian, Number, Name, EncodeBytes, Pow256;
    OneByte(0); OneByte(1); OneByte(2); OneByte(3); OneByte(4); OneByte(5); OneByte(6);
    var k := KeyOf(item);
    NumberRead(0);
    match item {
      case DatabaseCounter(bucket) => NumberRead(bucket); GlobalKey(k, 2, EncodeUInt64(bucket));
      case TableCounter(bucket) => NumberRead(bucket); GlobalKey(k, 3, EncodeUInt64(bucket));
      case ColumnCounter(bucket) => NumberRead(bucket); GlobalKey(k, 4, EncodeUInt64(bucket));
      case DatabaseById(db) => NumberRead(db); GlobalKey(k, 1, EncodeUInt64(db));
      case DatabaseByName(name) => NameRead(name); GlobalKey(k, 2, EncodeBytes(name));
      case TableById(db, table) =>
        NumberRead(db);
        NumberRead(table);
        GlobalKey(k, 3, EncodeUInt64(db) + EncodeUInt64(table));
      case TableByName(db, name) =>
        NumberRead(db);
        NameRead(name);
        GlobalKey(k, 4, EncodeUInt64(db) + EncodeBytes(name));
      case TreeNode(db, table, index, node) =>
        NumberRead(index);
        NumberRead(node);
        OwnedKey(k, db, table, [0] + (EncodeUInt64(index) + EncodeUInt64(node)));
      case Row(db, table, key) => NameRead(key); OwnedKey(k, db, table, [1] + EncodeBytes(key));
      case TableStatistic(db, table) => OwnedKey(k, db, table, [5]);
      case ColumnStatistic(db, table, column) =>
        NumberRead(column);
        OwnedKey(k, db, table, EncodeUInt64(column) + [6]);
    }
  }

  lemma NumberRead(n: nat)
    requires n < UINT64_RANGE
    ensures Number(EncodeUInt64(n), n)
  {
    hide BigEndian, FromBigEndian, Pow256;
    Widths();
    BigEndianRoundTrip(n, 8);
  }

  lemma NameRead(name: Bytes)
    requires |name| < UINT32_RANGE
    ensures Name(EncodeBytes(name), name)
  {
    hide DecodeBytes;
    DecodeBytesInverts(name, []);
    assert EncodeBytes(name) + [] == EncodeBytes(name);
  }

  lemma OwnedKey(k: Bytes, db: nat, table: nat, more: Bytes)
    requires db < UINT64_RANGE && table < UINT64_RANGE && more != [] && k == Head(db, table) + more
    ensures |k| >= 17 && Owned(k, db, table) && k[16..] == more
  {
    hide BigEndian, Number;
    NumberRead(db);
    NumberRead(table);
    assert k[..8] == EncodeUInt64(db) && k[8..16] == EncodeUInt64(table);
  }

  lemma GlobalKey(k: Bytes, tag: byte, more: Bytes)
    requires k == GlobalHead() + [tag] + more
    ensures |k| >= 17 && Global(k, tag) && k[17..] == more
  {
    hide Number;
    assert k == Head(0, 0) + ([tag] + more);
    OwnedKey(k, 0, 0, [tag] + more);
    assert k[16..][1..] == more;
  }

  ghost predicate Number(s: Bytes, n: nat) { |s| == 8 && FromBigEndian(s) == n }

  ghost predicate Name(s: Bytes, name: Bytes) { DecodeBytes(s) == Some((name, |s|)) }

  ghost predicate Owned(k: Bytes, db: nat, table: nat)
    requires |k| >= 17
  {
    Number(k[..8], db) && Number(k[8..16], table)
  }

  ghost predicate Global(k: Bytes, tag: byte)
    requires |k| >= 17
  {
    Owned(k, 0, 0) && k[16] == tag
  }

  // ---- families ------------------------------------------------------------

  /** A counter and a database name have the same tag, but a counter's key begins with four
      zero bytes, which as a length would be too short for it. */
  lemma CounterIsNoName(bucket: nat, name: Bytes)
    requires bucket < UINT32_RANGE && |name| < UINT32_RANGE
    ensures EncodeUInt64(bucket) != EncodeBytes(name)
  {
    hide BigEndian, Pow256;
    Widths();
    BigEndianSplit(bucket, 4, 4);
    HighIsQuotient(bucket, 4);
    assert bucket / UINT32_RANGE == 0;
    if EncodeUInt64(bucket) == EncodeBytes(name) {
      assert EncodeUInt64(bucket)[..4] == BigEndian(0, 4) && EncodeBytes(name)[..4] == BigEndian(|name|, 4);
      BigEndianRoundTrip(|name|, 4);
      BigEndianRoundTrip(0, 4);
      assert false;
    }
  }

  /** The leading bytes of a column id as the length of a row key. */
  lemma ColumnAsRow(column: nat, key: Bytes)
    requires column < UINT64_RANGE && |key| < UINT32_RANGE
    ensures ((column / Pow256(7) % 256) as byte == 1 && BigEndian(column, 7) + [6] == EncodeBytes(key))
            <==> column / Pow256(3) == UINT32_RANGE + 4 && key == BigEndian(column, 3) + [6]
  {
    hide BigEndian, Pow256;
    Widths();
    var top, mid := column / Pow256(7), column / Pow256(3);
    ColumnParts(column);
    BigEndianSplit(column, 4, 3);
    HighIsQuotient(column, 3);
    var low := BigEndian(column, 3) + [6];
    assert BigEndian(column, 7) + [6] == BigEndian(mid, 4) + low;
    if top == 1 && BigEndian(column, 7) + [6] == EncodeBytes(key) {
      assert (BigEndian(mid, 4) + low)[..4] == BigEndian(mid, 4) && EncodeBytes(key)[..4] == BigEndian(|key|, 4);
      assert (BigEndian(mid, 4) + low)[4..] == low && EncodeBytes(key)[4..] == key;
      LowBytes(mid, 4);
      BigEndianRoundTrip(mid % UINT32_RANGE, 4);
      BigEndianRoundTrip(|key|, 4);
    }
    if mid == UINT32_RANGE + 4 && key == low {
      LowBytes(mid, 4);
    }
  }

  /** The byte above seven bytes is the byte above four, above three. */
  lemma ColumnParts(column: nat)
    requires column < UINT64_RANGE
    ensures column / Pow256(7) < 256 && column / Pow256(3) / UINT32_RANGE == column / Pow256(7)
  {
  }

  lemma {:induction false} LowBytes(v: nat, width: nat)
    ensures BigEndian(v, width) == BigEndian(v % Pow256(width), width)
    decreases width
  {
    if width > 0 {
      var p := Pow256(width - 1);
      var a := v % (256 * p);
      ModParts(v, p);
      LowBytes(v / 256, width - 1);
      LowBytes(a / 256, width - 1);
    }
  }

  lemma ModParts(v: nat, p: nat)
    requires p > 0
    ensures v % (256 * p) % 256 == v % 256 && v % (256 * p) / 256 % p == v / 256 % p
  {
    DivMod(v, p);
    var q := v / (256 * p);
    var a := v - (256 * p) * q;
    assert a == v % (256 * p);
    assert (256 * p) * q == 256 * (p * q);
    assert v == 256 * (p * q) + a;
    assert v / 256 == p * q + a / 256 && v % 256 == a % 256;
    ModShift(a / 256, p, q);
  }

  lemma ModShift(x: nat, p: nat, q: nat)
    requires p > 0
    ensures (p * q + x) % p == x % p
  {
    var a, r := x / p, x % p;
    assert p * q + x == p * (q + a) + r by { assert p * (q + a) == p * q + p * a; }
    RemainderIs(p * q + x, p, q + a, r);
  }

  lemma RemainderIs(v: nat, p: nat, a: nat, r: nat)
    requires r < p && v == p * a + r
    ensures v % p == r
  {
    QuotientIs(v, p, a);
  }

  /** Distinct items never share a key, with that one exception. */
  lemma KeysDistinct(a: Item, b: Item)
    requires Proper(a) && Proper(b)
    ensures KeyOf(a) == KeyOf(b) <==> a == b || Clash(a, b) || Clash(b, a)
  {
    hide KeyOf, BytesOf, ShapeOf, Clash;
    KeyHasShape(a);
    KeyHasShape(b);
    OwnersFit(a);
    OwnersFit(b);
    if KeyOf(a) == KeyOf(b) { ShapeRead(ShapeOf(a), ShapeOf(b)); }
    ShapesDistinct(a, b);
  }

  lemma OwnersFit(a: Item)
    requires Proper(a)
    ensures ShapeOf(a).db < UINT64_RANGE && ShapeOf(a).table < UINT64_RANGE
  {
  }

  lemma ShapesDistinct(a: Item, b: Item)
    requires Proper(a) && Proper(b)
    ensures ShapeOf(a) == ShapeOf(b) <==> a == b || Clash(a, b) || Clash(b, a)
  {
    hide BigEndian, Pow256, EncodeBytes;
    if ShapeOf(a).db == 0 && ShapeOf(b).db == 0 {
      GlobalDistinct(a, b);
    } else if ShapeOf(a).db == ShapeOf(b).db && ShapeOf(a).table == ShapeOf(b).table {
      TableDistinct(a, b);
    }
  }

  ghost predicate IsGlobal(a: Item) {
    !a.TreeNode? && !a.Row? && !a.TableStatistic? && !a.ColumnStatistic?
  }

  lemma GlobalDistinct(a: Item, b: Item)
    requires Proper(a) && Proper(b) && IsGlobal(a) && IsGlobal(b)
    ensures ShapeOf(a) == ShapeOf(b) <==> a == b
  {
    hide BigEndian, Pow256, EncodeBytes;
    if ShapeOf(a) == ShapeOf(b) {
      var s := ShapeOf(a);
      LongEnough(a);
      LongEnough(b);
      match s.tag {
        case 1 => SameNumber(a.db, b.db);
        case 2 => DatabaseTags(a, b);
        case 3 => TableTags(a, b);
        case _ => ColumnTags(a, b);
      }
    }
  }

  lemma LongEnough(a: Item)
    ensures a.DatabaseByName? ==> |ShapeOf(a).rest| == 4 + |a.name|
    ensures a.TableByName? ==> |ShapeOf(a).rest| == 12 + |a.name|
    ensures a.Row? ==> |ShapeOf(a).rest| == 4 + |a.key|
  {
  }

  lemma DatabaseTags(a: Item, b: Item)
    requires Proper(a) && Proper(b) && ShapeOf(a).rest == ShapeOf(b).rest
    requires (a.DatabaseCounter? || a.DatabaseByName?) && (b.DatabaseCounter? || b.DatabaseByName?)
    ensures a == b
  {
    hide BigEndian, Pow256, EncodeBytes;
    if a.DatabaseCounter? {
      if b.DatabaseCounter? { SameNumber(a.bucket, b.bucket); } else { CounterIsNoName(a.bucket, b.name); }
    } else {
      if b.DatabaseCounter? { CounterIsNoName(b.bucket, a.name); } else { SameBytes(a.name, b.name); }
    }
  }

  lemma TableTags(a: Item, b: Item)
    requires Proper(a) && Proper(b) && ShapeOf(a).rest == ShapeOf(b).rest
    requires (a.TableCounter? || a.TableById?) && (b.TableCounter? || b.TableById?)
    ensures a == b
  {
    hide BigEndian, Pow256;
    if a.TableCounter? && b.TableCounter? { SameNumber(a.bucket, b.bucket); }
    if a.TableById? && b.TableById? {
      TwoNumbers(a.db, a.table, b.db, b.table);
    }
  }

  lemma TwoNumbers(a: nat, x: nat, b: nat, y: nat)
    requires a < UINT64_RANGE && b < UINT64_RANGE && x < UINT64_RANGE && y < UINT64_RANGE
    requires EncodeUInt64(a) + EncodeUInt64(x) == EncodeUInt64(b) + EncodeUInt64(y)
    ensures a == b && x == y
  {
    hide BigEndian;
    var s, t := EncodeUInt64(a) + EncodeUInt64(x), EncodeUInt64(b) + EncodeUInt64(y);
    assert s[..8] == EncodeUInt64(a) && t[..8] == EncodeUInt64(b) && s[8..] == EncodeUInt64(x) && t[8..] == EncodeUInt64(y);
    SameNumber(a, b);
    SameNumber(x, y);
  }

  lemma ColumnTags(a: Item, b: Item)
    requires Proper(a) && Proper(b) && ShapeOf(a).rest == ShapeOf(b).rest
    requires (a.ColumnCounter? || a.TableByName?) && (b.ColumnCounter? || b.TableByName?)
    ensures a == b
  {
    hide BigEndian, Pow256, EncodeBytes;
    LongEnough(a);
    LongEnough(b);
    if a.ColumnCounter? && b.ColumnCounter? { SameNumber(a.bucket, b.bucket); }
    if a.TableByName? && b.TableByName? {
      var s, t := ShapeOf(a).rest, ShapeOf(b).rest;
      assert s[..8] == EncodeUInt64(a.db) && t[..8] == EncodeUInt64(b.db);
      assert s[8..] == EncodeBytes(a.name) && t[8..] == EncodeBytes(b.name);
      SameNumber(a.db, b.db);
      SameBytes(a.name, b.name);
    }
  }

  lemma TableDistinct(a: Item, b: Item)
    requires Proper(a) && Proper(b) && !IsGlobal(a) && !IsGlobal(b) && a.db == b.db && a.table == b.table
    ensures ShapeOf(a) == ShapeOf(b) <==> a == b || Clash(a, b) || Clash(b, a)
  {
    hide BigEndian, Pow256, EncodeBytes;
    LongEnough(a);
    LongEnough(b);
    if a.TreeNode? && b.TreeNode? {
      if ShapeOf(a) == ShapeOf(b) { TwoNumbers(a.index, a.node, b.index, b.node); }
    } else if a.Row? && b.Row? {
      if ShapeOf(a) == ShapeOf(b) { SameBytes(a.key, b.key); }
    } else if a.ColumnStatistic? && b.ColumnStatistic? {
      if ShapeOf(a) == ShapeOf(b) {
        KeyHasShape(a);
        KeyHasShape(b);
        SameColumn(a, b);
      }
    } else if a.ColumnStatistic? && b.Row? {
      ColumnAsRow(a.column, b.key);
    } else if a.Row? && b.ColumnStatistic? {
      ColumnAsRow(b.column, a.key);
    }
  }

  lemma SameColumn(a: Item, b: Item)
    requires Proper(a) && Proper(b) && a.ColumnStatistic? && b.ColumnStatistic? && KeyOf(a) == KeyOf(b)
    ensures a.column == b.column
  {
    hide BigEndian, Pow256;
    var x, y := KeyOf(a), KeyOf(b);
    assert x[16..24] == EncodeUInt64(a.column) && y[16..24] == EncodeUInt64(b.column);
    SameNumber(a.column, b.column);
  }

  /** Column ids below 2^56 never clash. */
  lemma SmallColumnsNeverClash(a: Item, b: Item)
    requires Proper(a) && Proper(b)
    requires a.ColumnStatistic? ==> a.column < Pow256(7)
    requires b.ColumnStatistic? ==> b.column < Pow256(7)
    ensures KeyOf(a) == KeyOf(b) <==> a == b
  {
    hide KeyOf, Pow256, Clash, Proper;
    KeysDistinct(a, b);
    NoClash(a, b);
    NoClash(b, a);
  }

  lemma NoClash(column: Item, row: Item)
    requires Proper(column) && (column.ColumnStatistic? ==> column.column < Pow256(7))
    ensures !Clash(column, row)
  {
  }

  /** Larger ones can: the statistics of this column are where a row is. */
  lemma LargeColumnClashes(db: nat, table: nat)
    requires 1 <= db < UINT64_RANGE && table < UINT64_RANGE
    ensures var column := (UINT32_RANGE + 4) * Pow256(3);
            column < UINT64_RANGE && KeyOf(ColumnStatistic(db, table, column)) == KeyOf(Row(db, table, [0, 0, 0, 6]))
  {
    hide KeyOf, BigEndian;
    var column := (UINT32_RANGE + 4) * Pow256(3);
    ThreeZeros();
    LowBytes(column, 3);
    KeysDistinct(ColumnStatistic(db, table, column), Row(db, table, [0, 0, 0, 6]));
  }

  lemma ThreeZeros()
    ensures Pow256(3) == 0x100_0000 && BigEndian(0, 3) == [0, 0, 0]
  {
  }
}
