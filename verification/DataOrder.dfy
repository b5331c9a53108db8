/** Byte strings and the order in which every index key is kept. */
module DataOrder {

  newtype byte = x: int | 0 <= x < 256

  type Bytes = seq<byte>

  datatype CmpOpt = Lt | Eq | Gt

  /** Position of a byte string on the number line: a base-257 fraction.
      It turns reasoning about the lexicographic order into linear arithmetic. */
  ghost function Rank(s: Bytes): (r: real)
    ensures 0.0 <= r < 1.0
    ensures r == 0.0 <==> s == []
  {
    if s == [] then 0.0 else (s[0] as int as real + 1.0 + Rank(s[1..])) / 257.0
  }

  /** Three-way comparison of two byte strings, byte by byte; a proper prefix
      comes first. */
  function DataCmp(a: Bytes, b: Bytes): (c: CmpOpt)
    ensures c == Lt <==> Rank(a) < Rank(b)
    ensures c == Gt <==> Rank(b) < Rank(a)
    ensures c == Eq <==> a == b
  {
    if a == [] then (if b == [] then Eq else Lt)
    else if b == [] then Gt
    else if a[0] < b[0] then Lt
    else if a[0] > b[0] then Gt
    else
      assert a == [a[0]] + a[1..] && b == [b[0]] + b[1..];
      DataCmp(a[1..], b[1..])
  }

  /** The first byte in which two strings differ decides; without one, the shorter string. */
  lemma {:induction false} LexicographicIs(a: Bytes, b: Bytes)
    ensures DataCmp(a, b) == Lt <==>
              || (|a| < |b| && a == b[..|a|])
              || exists i :: 0 <= i < |a| && i < |b| && a[..i] == b[..i] && a[i] < b[i]
    decreases |a|
  {
    hide Rank;
    if a == [] {
    } else if b == [] {
    } else if a[0] != b[0] {
      if a[0] < b[0] { assert a[..0] == b[..0] && a[0] < b[0]; }
      assert |a| < |b| ==> b[..|a|][0] == b[0];
      forall i | 0 < i < |a| && i < |b| ensures a[..i] != b[..i] { assert a[..i][0] == a[0] && b[..i][0] == b[0]; }
    } else {
      var x, y := a[1..], b[1..];
      LexicographicIs(x, y);
      FirstDiffers(a, b);
    }
  }

  lemma FirstDiffers(a: Bytes, b: Bytes)
    requires a != [] && b != [] && a[0] == b[0]
    ensures var x, y := a[1..], b[1..];
            && ((|a| < |b| && a == b[..|a|]) <==> (|x| < |y| && x == y[..|x|]))
            && ((exists i :: 0 <= i < |a| && i < |b| && a[..i] == b[..i] && a[i] < b[i])
                <==> exists i :: 0 <= i < |x| && i < |y| && x[..i] == y[..i] && x[i] < y[i])
  {
    var x, y := a[1..], b[1..];
    assert a == [a[0]] + x && b == [b[0]] + y;
    if |a| < |b| { assert b[..|a|] == [b[0]] + y[..|x|]; }
    if i :| 0 <= i < |a| && i < |b| && a[..i] == b[..i] && a[i] < b[i] {
      assert i > 0;
      assert a[..i][1..] == x[..i - 1] && b[..i][1..] == y[..i - 1] && x[i - 1] < y[i - 1];
    }
    if i :| 0 <= i < |x| && i < |y| && x[..i] == y[..i] && x[i] < y[i] {
      assert a[..i + 1] == [a[0]] + x[..i] && b[..i + 1] == [b[0]] + y[..i] && a[i + 1] < b[i + 1];
    }
  }

  predicate Less(a: Bytes, b: Bytes) { DataCmp(a, b) == Lt }

  predicate LessEq(a: Bytes, b: Bytes) { DataCmp(a, b) != Gt }
}
