/** The stored form of tree nodes: the fields of the protobuf records. */
module LeafCodec {
  import opened DataOrder
  import opened OrderedMap
  import opened Codec

  type uint64 = x: nat | x < UINT64_RANGE

  datatype NodeStatistics = NodeStatistics(minKey: Bytes, maxKey: Bytes, count: nat, nodeSize: uint64)

  /** What an interior node stores about a child. */
  datatype NodeRef = NodeRef(id: nat, isLeaf: bool, stat: NodeStatistics)

  datatype NodeRecord =
    | LeafRecord(id: nat, keys: Bytes, values: Bytes)
    | InteriorRecord(id: nat, children: seq<NodeRef>)

  ghost predicate Encodable(es: seq<Entry>) {
    forall i :: 0 <= i < |es| ==> |es[i].key| < UINT32_RANGE && |es[i].value| < UINT32_RANGE
  }

  ghost function EncodeKeys(es: seq<Entry>): Bytes {
    if es == [] then [] else EncodeBytes(es[0].key) + EncodeKeys(es[1..])
  }

  ghost function EncodeValues(es: seq<Entry>): Bytes {
    if es == [] then [] else EncodeBytes(es[0].value) + EncodeValues(es[1..])
  }

  /** One string behind the other, in the order of the entries. */
  lemma {:induction false} StreamsInOrder(a: seq<Entry>, e: Entry)
    ensures EncodeKeys(a + [e]) == EncodeKeys(a) + EncodeBytes(e.key) && EncodeKeys([]) == []
    ensures EncodeValues(a + [e]) == EncodeValues(a) + EncodeBytes(e.value) && EncodeValues([]) == []
  {
    hide EncodeBytes;
    if a == [] {
      assert a + [e] == [e] && [e][1..] == [];
    } else {
      StreamsInOrder(a[1..], e);
      assert (a + [e])[1..] == a[1..] + [e];
    }
  }

  /** The entries two parallel streams of length-prefixed strings hold. */
  ghost function DecodeEntries(keys: Bytes, values: Bytes): seq<Entry>
    decreases |keys|
  {
    var k, v := DecodeBytes(keys), DecodeBytes(values);
    if k.Some? && v.Some? then
      [Entry(k.value.0, v.value.0)] + DecodeEntries(keys[k.value.1..], values[v.value.1..])
    else []
  }

  /** Both streams are well formed and hold the same number of strings. */
  ghost predicate Decodable(keys: Bytes, values: Bytes)
    decreases |keys|
  {
    var k, v := DecodeBytes(keys), DecodeBytes(values);
    if keys == [] then values == []
    else k.Some? && v.Some? && Decodable(keys[k.value.1..], values[v.value.1..])
  }

  /** Reading back what was written gives the same entries, whatever the strings hold. */
  lemma {:induction false} LeafRoundTrip(es: seq<Entry>)
    requires Encodable(es)
    ensures Decodable(EncodeKeys(es), EncodeValues(es))
    ensures DecodeEntries(EncodeKeys(es), EncodeValues(es)) == es
  {
    if es != [] {
      LeafRoundTrip(es[1..]);
      DecodeBytesInverts(es[0].key, EncodeKeys(es[1..]));
      DecodeBytesInverts(es[0].value, EncodeValues(es[1..]));
    }
  }

  /** The writing loop of a leaf. */
  method SerializeLeaf(id: nat, es: seq<Entry>) returns (r: NodeRecord)
    ensures r == LeafRecord(id, EncodeKeys(es), EncodeValues(es))
  {
    hide EncodeBytes;
    var keys, values: Bytes := [], [];
    for i := 0 to |es|
      invariant keys + EncodeKeys(es[i..]) == EncodeKeys(es)
      invariant values + EncodeValues(es[i..]) == EncodeValues(es)
    {
      keys := keys + EncodeBytes(es[i].key);
      values := values + EncodeBytes(es[i].value);
      assert es[i..][1..] == es[i + 1..];
    }
    r := LeafRecord(id, keys, values);
  }

  lemma DecodeStep(keys: Bytes, values: Bytes)
    requires keys != [] && values != [] && Decodable(keys, values)
    ensures var p, q := DecodeBytes(keys), DecodeBytes(values);
            && p.Some? && q.Some?
            && Decodable(keys[p.value.1..], values[q.value.1..])
            && DecodeEntries(keys, values) ==
               [Entry(p.value.0, q.value.0)] + DecodeEntries(keys[p.value.1..], values[q.value.1..])
  {
  }

  lemma DecodeEnd(keys: Bytes, values: Bytes)
    requires Decodable(keys, values) && (keys == [] || values == [])
    ensures DecodeEntries(keys, values) == []
  {
  }

  lemma EmplaceAllSnoc(kvs: seq<Entry>, es: seq<Entry>, e: Entry)
    ensures EmplaceAll(kvs, es + [e]) == Emplace(EmplaceAll(kvs, es), e)
  {
  }

  lemma EmplaceNothing(kvs: seq<Entry>)
    ensures EmplaceAll(kvs, []) == kvs
  {
  }

  /** The reading loop of a leaf: every stored entry is emplaced, so an entry whose
      key is already held in memory is kept and all others come back. */
  method DeserializeLeaf(kvs: seq<Entry>, keys: Bytes, values: Bytes) returns (merged: seq<Entry>)
    requires Decodable(keys, values)
    ensures merged == EmplaceAll(kvs, DecodeEntries(keys, values))
  {
    hide DecodeEntries, Decodable, EmplaceAll, Emplace, DecodeBytes;
    var kOffset, vOffset := 0, 0;
    ghost var done: seq<Entry> := [];
    ghost var keysLeft, valuesLeft := keys, values;
    merged := kvs;
    EmplaceNothing(kvs);
    while kOffset < |keys| && vOffset < |values|
      invariant 0 <= kOffset <= |keys| && keysLeft == keys[kOffset..]
      invariant 0 <= vOffset <= |values| && valuesLeft == values[vOffset..]
      invariant Decodable(keysLeft, valuesLeft)
      invariant DecodeEntries(keys, values) == done + DecodeEntries(keysLeft, valuesLeft)
      invariant merged == EmplaceAll(kvs, done)
      decreases |keys| - kOffset
    {
      DecodeStep(keysLeft, valuesLeft);
      var k, v := DecodeBytes(keys[kOffset..]).value, DecodeBytes(values[vOffset..]).value;
      var e := Entry(k.0, v.0);
      EmplaceAllSnoc(kvs, done, e);
      kOffset, vOffset, merged := kOffset + k.1, vOffset + v.1, Emplace(merged, e);
      keysLeft, valuesLeft, done := keysLeft[k.1..], valuesLeft[v.1..], done + [e];
    }
    DecodeEnd(keysLeft, valuesLeft);
    assert done + [] == done;
  }
}
