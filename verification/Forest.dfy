/** The leaves below the root, seen as values: what a well-formed row of leaves is,
    the entries it holds, and how replacing, splitting and unlinking a leaf act on it. */
module Forest {
  import opened DataOrder
  import opened OrderedMap

  /** A leaf's entries with the key range its statistics announce. */
  datatype LeafView = LeafView(entries: seq<Entry>, minKey: Bytes, maxKey: Bytes)

  ghost predicate LeafOk(v: LeafView) {
    && v.entries != []
    && Sorted(v.entries)
    && v.minKey == v.entries[0].key
    && v.maxKey == v.entries[|v.entries| - 1].key
  }

  /** Leaves are non-empty, announce their exact range, and their ranges are
      disjoint and strictly increasing from left to right. */
  ghost predicate ForestOk(vs: seq<LeafView>) {
    && (forall i :: 0 <= i < |vs| ==> LeafOk(vs[i]))
    && (forall i, j :: 0 <= i < j < |vs| ==> Less(vs[i].maxKey, vs[j].minKey))
  }

  ghost function Flatten(vs: seq<LeafView>): seq<Entry> {
    if vs == [] then [] else vs[0].entries + Flatten(vs[1..])
  }

  ghost function Contents(vs: seq<LeafView>): map<Bytes, Bytes> { ToMap(Flatten(vs)) }

  /** `key` lies strictly between the neighbours of leaf `i`. */
  ghost predicate Fits(vs: seq<LeafView>, i: nat, key: Bytes)
    requires i < |vs|
  {
    && (i > 0 ==> Less(vs[i - 1].maxKey, key))
    && (i + 1 < |vs| ==> Less(key, vs[i + 1].minKey))
  }

  lemma {:induction false} FlattenConcat(a: seq<LeafView>, b: seq<LeafView>)
    ensures Flatten(a + b) == Flatten(a) + Flatten(b)
  {
    if a == [] {
      assert a + b == b;
    } else {
      FlattenConcat(a[1..], b);
      assert (a + b)[0] == a[0] && (a + b)[1..] == a[1..] + b;
      Assoc(a[0].entries, Flatten(a[1..]), Flatten(b));
    }
  }

  lemma Assoc(a: seq<Entry>, b: seq<Entry>, c: seq<Entry>)
    ensures (a + b) + c == a + (b + c)
  {
  }

  lemma FlattenSingle(v: LeafView)
    ensures Flatten([v]) == v.entries
  {
  }

  lemma FlattenAround(vs: seq<LeafView>, i: nat, mid: seq<LeafView>)
    requires i < |vs|
    ensures Flatten(vs[..i] + mid + vs[i + 1..]) == Flatten(vs[..i]) + Flatten(mid) + Flatten(vs[i + 1..])
  {
    FlattenConcat(vs[..i] + mid, vs[i + 1..]);
    FlattenConcat(vs[..i], mid);
  }

  lemma FlattenAt(vs: seq<LeafView>, i: nat)
    requires i < |vs|
    ensures Flatten(vs) == Flatten(vs[..i]) + vs[i].entries + Flatten(vs[i + 1..])
  {
    FlattenAround(vs, i, [vs[i]]);
    FlattenSingle(vs[i]);
    Reassemble(vs, i);
  }

  lemma Reassemble(vs: seq<LeafView>, i: nat)
    requires i < |vs|
    ensures vs[..i] + [vs[i]] + vs[i + 1..] == vs
  {
  }

  lemma ContentsAround(vs: seq<LeafView>, i: nat, mid: seq<LeafView>)
    requires i < |vs|
    ensures Contents(vs[..i] + mid + vs[i + 1..]) == Contents(vs[..i]) + Contents(mid) + Contents(vs[i + 1..])
  {
    FlattenAround(vs, i, mid);
    ToMapConcat(Flatten(vs[..i]) + Flatten(mid), Flatten(vs[i + 1..]));
    ToMapConcat(Flatten(vs[..i]), Flatten(mid));
  }

  lemma ContentsAt(vs: seq<LeafView>, i: nat)
    requires i < |vs|
    ensures Contents(vs) == Contents(vs[..i]) + ToMap(vs[i].entries) + Contents(vs[i + 1..])
  {
    Reassemble(vs, i);
    ContentsAround(vs, i, [vs[i]]);
    FlattenSingle(vs[i]);
  }

  /** Every key of a leaf lies in its announced range. */
  lemma LeafRange(v: LeafView, k: Bytes)
    requires LeafOk(v) && k in ToMap(v.entries)
    ensures LessEq(v.minKey, k) && LessEq(k, v.maxKey)
  {
    KeysAreEntries(v.entries, k);
    var i :| 0 <= i < |v.entries| && v.entries[i].key == k;
    assert i > 0 ==> Less(v.entries[0].key, v.entries[i].key);
    assert i < |v.entries| - 1 ==> Less(v.entries[i].key, v.entries[|v.entries| - 1].key);
  }

  lemma LeafWithinModel(vs: seq<LeafView>, i: nat)
    requires i < |vs|
    ensures Keys(vs[i].entries) <= Contents(vs).Keys
  {
    hide Flatten, ToMap;
    ContentsAt(vs, i);
  }

  lemma {:induction false} KeyInSomeLeaf(vs: seq<LeafView>, k: Bytes)
    requires k in Contents(vs)
    ensures exists i :: 0 <= i < |vs| && k in ToMap(vs[i].entries)
  {
    if vs != [] {
      ToMapConcat(vs[0].entries, Flatten(vs[1..]));
      if k in Contents(vs[1..]) {
        KeyInSomeLeaf(vs[1..], k);
        var i :| 0 <= i < |vs[1..]| && k in ToMap(vs[1..][i].entries);
        assert k in ToMap(vs[i + 1].entries);
      } else {
        assert k in ToMap(vs[0].entries);
      }
    }
  }

  /** A key that fits leaf `i` can be in no other leaf. */
  lemma NotElsewhere(vs: seq<LeafView>, i: nat, k: Bytes)
    requires ForestOk(vs) && i < |vs| && Fits(vs, i, k)
    ensures k !in Contents(vs[..i]) && k !in Contents(vs[i + 1..])
  {
    if k in Contents(vs[..i]) {
      KeyInSomeLeaf(vs[..i], k);
      var j :| 0 <= j < i && k in ToMap(vs[..i][j].entries);
      LeafRange(vs[j], k);
      NeighboursBound(vs, i);
    }
    if k in Contents(vs[i + 1..]) {
      KeyInSomeLeaf(vs[i + 1..], k);
      var j :| 0 <= j < |vs[i + 1..]| && k in ToMap(vs[i + 1..][j].entries);
      LeafRange(vs[i + 1 + j], k);
      NeighboursBound(vs, i);
    }
  }

  lemma MinMax(v: LeafView)
    requires LeafOk(v)
    ensures LessEq(v.minKey, v.maxKey)
  {
  }

  /** A key that fits leaf `i` is in the tree exactly when it is in that leaf. */
  lemma RoutedLookup(vs: seq<LeafView>, i: nat, k: Bytes)
    requires ForestOk(vs) && i < |vs| && Fits(vs, i, k)
    ensures k in Contents(vs) <==> k in ToMap(vs[i].entries)
    ensures k in Contents(vs) ==> Contents(vs)[k] == ToMap(vs[i].entries)[k]
  {
    NotElsewhere(vs, i, k);
    ContentsAt(vs, i);
  }

  /** A key in no announced range is in no leaf. */
  lemma GapLookup(vs: seq<LeafView>, k: Bytes)
    requires ForestOk(vs)
    requires forall i :: 0 <= i < |vs| ==> !(LessEq(vs[i].minKey, k) && LessEq(k, vs[i].maxKey))
    ensures k !in Contents(vs)
  {
    if k in Contents(vs) {
      KeyInSomeLeaf(vs, k);
      var i :| 0 <= i < |vs| && k in ToMap(vs[i].entries);
      LeafRange(vs[i], k);
    }
  }

  /** The leaves, left to right, hold one sorted sequence. */
  lemma {:induction false} FlattenSorted(vs: seq<LeafView>)
    requires ForestOk(vs)
    ensures Sorted(Flatten(vs))
  {
    if vs != [] {
      FlattenSorted(vs[1..]);
      var a, b := vs[0].entries, Flatten(vs[1..]);
      forall i, j | 0 <= i < |a| && 0 <= j < |b| ensures Less(a[i].key, b[j].key) {
        MapAt(a, i);
        LeafRange(vs[0], a[i].key);
        MapAt(b, j);
        KeyInSomeLeaf(vs[1..], b[j].key);
        var n :| 0 <= n < |vs[1..]| && b[j].key in ToMap(vs[1..][n].entries);
        LeafRange(vs[1 + n], b[j].key);
        assert Less(vs[0].maxKey, vs[1 + n].minKey);
      }
      SortedConcat(a, b);
    }
  }

  lemma SortedConcat(a: seq<Entry>, b: seq<Entry>)
    requires Sorted(a) && Sorted(b)
    requires forall i, j :: 0 <= i < |a| && 0 <= j < |b| ==> Less(a[i].key, b[j].key)
    ensures Sorted(a + b)
  {
  }

  // ---- updates of one leaf -------------------------------------------------

  /** The new view of a leaf whose range stays between its neighbours. */
  lemma ReplaceLeafOk(vs: seq<LeafView>, i: nat, v: LeafView)
    requires ForestOk(vs) && i < |vs| && LeafOk(v)
    requires Fits(vs, i, v.minKey) && Fits(vs, i, v.maxKey)
    ensures ForestOk(vs[i := v])
  {
    NeighboursBound(vs, i);
    var ws := vs[i := v];
    forall a, b | 0 <= a < b < |ws| ensures Less(ws[a].maxKey, ws[b].minKey) {
      if b == i { assert ws[a] == vs[a]; }
      else if a == i { assert ws[b] == vs[b]; }
      else { assert ws[a] == vs[a] && ws[b] == vs[b]; }
    }
  }

  /** Nearest neighbours bound all leaves on their side. */
  lemma NeighboursBound(vs: seq<LeafView>, i: nat)
    requires ForestOk(vs) && i < |vs|
    ensures forall j :: 0 <= j < i ==> LessEq(vs[j].maxKey, vs[i - 1].maxKey)
    ensures forall j :: i < j < |vs| ==> LessEq(vs[i + 1].minKey, vs[j].minKey)
  {
    forall j | 0 <= j < i ensures LessEq(vs[j].maxKey, vs[i - 1].maxKey) {
      if j < i - 1 { MinMax(vs[i - 1]); assert Less(vs[j].maxKey, vs[i - 1].minKey); }
    }
    forall j | i < j < |vs| ensures LessEq(vs[i + 1].minKey, vs[j].minKey) {
      if i + 1 < j { MinMax(vs[i + 1]); assert Less(vs[i + 1].maxKey, vs[j].minKey); }
    }
  }

  /** Emplacing a fitting, absent key into leaf `i` adds exactly that entry to the tree. */
  lemma InsertIntoLeaf(vs: seq<LeafView>, i: nat, e: Entry, v: LeafView)
    requires ForestOk(vs) && i < |vs| && Fits(vs, i, e.key)
    requires e.key !in ToMap(vs[i].entries)
    requires v.entries == Emplace(vs[i].entries, e)
    requires v.minKey == (if Less(e.key, vs[i].minKey) then e.key else vs[i].minKey)
    requires v.maxKey == (if Less(vs[i].maxKey, e.key) then e.key else vs[i].maxKey)
    ensures ForestOk(vs[i := v])
    ensures Contents(vs[i := v]) == Contents(vs)[e.key := e.value]
  {
    EmplaceSpec(vs[i].entries, e);
    EmplaceRange(vs[i], e, v);
    MinMax(vs[i]);
    FitsOwnRange(vs, i);
    ReplaceLeafOk(vs, i, v);
    NotElsewhere(vs, i, e.key);
    ContentsAt(vs, i);
    ReplaceContents(vs, i, v);
    InsertBetween(Contents(vs[..i]), ToMap(vs[i].entries), Contents(vs[i + 1..]), e);
  }

  lemma FitsOwnRange(vs: seq<LeafView>, i: nat)
    requires ForestOk(vs) && i < |vs|
    ensures Fits(vs, i, vs[i].minKey) && Fits(vs, i, vs[i].maxKey)
  {
  }

  lemma EmplaceRange(u: LeafView, e: Entry, v: LeafView)
    requires LeafOk(u) && e.key !in ToMap(u.entries)
    requires v.entries == Emplace(u.entries, e)
    requires v.minKey == (if Less(e.key, u.minKey) then e.key else u.minKey)
    requires v.maxKey == (if Less(u.maxKey, e.key) then e.key else u.maxKey)
    ensures LeafOk(v)
  {
    EmplaceSpec(u.entries, e);
    HasIffKey(u.entries, e.key);
    var s, n := u.entries, LowerBound(u.entries, e.key);
    assert v.entries[0] == if n == 0 then e else s[0];
    assert v.entries[|s|] == if n == |s| then e else s[|s| - 1];
    assert n < |s| - 1 ==> Less(s[n].key, s[|s| - 1].key);
  }

  lemma InsertBetween(a: map<Bytes, Bytes>, m: map<Bytes, Bytes>, b: map<Bytes, Bytes>, e: Entry)
    requires e.key !in a && e.key !in b
    ensures a + m[e.key := e.value] + b == (a + m + b)[e.key := e.value]
  {
  }

  lemma ReplaceContents(vs: seq<LeafView>, i: nat, v: LeafView)
    requires i < |vs|
    ensures Contents(vs[i := v]) == Contents(vs[..i]) + ToMap(v.entries) + Contents(vs[i + 1..])
  {
    var ws := vs[i := v];
    ContentsAt(ws, i);
    assert ws[..i] == vs[..i] && ws[i + 1..] == vs[i + 1..];
  }

  /** Cutting leaf `i` in two keeps every entry in place. */
  lemma SplitLeaf(vs: seq<LeafView>, i: nat, l: LeafView, r: LeafView)
    requires ForestOk(vs) && i < |vs| && LeafOk(l) && LeafOk(r)
    requires l.entries + r.entries == vs[i].entries
    ensures ForestOk(vs[..i] + [l, r] + vs[i + 1..])
    ensures Flatten(vs[..i] + [l, r] + vs[i + 1..]) == Flatten(vs)
  {
    FlattenAround(vs, i, [l, r]);
    FlattenAt(vs, i);
    FlattenPair(l, r);
    SplitForestOk(vs, i, l, r);
  }

  lemma SplitForestOk(vs: seq<LeafView>, i: nat, l: LeafView, r: LeafView)
    requires ForestOk(vs) && i < |vs| && LeafOk(l) && LeafOk(r)
    requires l.entries + r.entries == vs[i].entries
    ensures ForestOk(vs[..i] + [l, r] + vs[i + 1..])
  {
    SplitRange(vs[i], l, r);
    MinMax(l);
    MinMax(r);
    var ws := vs[..i] + [l, r] + vs[i + 1..];
    forall a, b | 0 <= a < b < |ws| ensures Less(ws[a].maxKey, ws[b].minKey) {
      SplitOrder(vs, i, l, r, a, b);
    }
  }

  lemma SplitRange(v: LeafView, l: LeafView, r: LeafView)
    requires LeafOk(v) && LeafOk(l) && LeafOk(r) && l.entries + r.entries == v.entries
    ensures l.minKey == v.minKey && r.maxKey == v.maxKey && Less(l.maxKey, r.minKey)
  {
    var s, n := v.entries, |l.entries|;
    assert s[0] == l.entries[0] && s[|s| - 1] == r.entries[|r.entries| - 1];
    assert s[n - 1] == l.entries[n - 1] && s[n] == r.entries[0];
  }

  lemma FlattenPair(l: LeafView, r: LeafView)
    ensures Flatten([l, r]) == l.entries + r.entries
  {
    assert [l, r] == [l] + [r];
    FlattenConcat([l], [r]);
    FlattenSingle(l);
    FlattenSingle(r);
  }

  lemma SplitOrder(vs: seq<LeafView>, i: nat, l: LeafView, r: LeafView, a: nat, b: nat)
    requires ForestOk(vs) && i < |vs|
    requires l.minKey == vs[i].minKey && r.maxKey == vs[i].maxKey
    requires LessEq(l.minKey, l.maxKey) && Less(l.maxKey, r.minKey) && LessEq(r.minKey, r.maxKey)
    requires a < b < |vs| + 1
    ensures var ws := vs[..i] + [l, r] + vs[i + 1..]; Less(ws[a].maxKey, ws[b].minKey)
  {
    hide DataCmp, LeafOk;
    var ws := vs[..i] + [l, r] + vs[i + 1..];
    var a', b' := if a <= i then a else a - 1, if b <= i then b else b - 1;
    assert a < i || a > i + 1 ==> ws[a] == vs[a'];
    assert b < i || b > i + 1 ==> ws[b] == vs[b'];
    if a' < b' {
      assert Less(vs[a'].maxKey, vs[b'].minKey);
    }
  }

  /** Unlinking a leaf. */
  lemma DropLeaf(vs: seq<LeafView>, i: nat)
    requires ForestOk(vs) && i < |vs|
    ensures ForestOk(vs[..i] + vs[i + 1..])
    ensures Contents(vs[..i] + vs[i + 1..]) == Contents(vs[..i]) + Contents(vs[i + 1..])
  {
    hide DataCmp, LeafOk, ToMap;
    var ws := vs[..i] + vs[i + 1..];
    forall a, b | 0 <= a < b < |ws| ensures Less(ws[a].maxKey, ws[b].minKey) {
      var a', b' := if a < i then a else a + 1, if b < i then b else b + 1;
      assert ws[a] == vs[a'] && ws[b] == vs[b'];
    }
    FlattenConcat(vs[..i], vs[i + 1..]);
    ToMapConcat(Flatten(vs[..i]), Flatten(vs[i + 1..]));
  }

  /** Unlinking a leaf whose only key is `k` removes exactly `k`. */
  lemma DropSingletonLeaf(vs: seq<LeafView>, i: nat)
    requires ForestOk(vs) && i < |vs| && |vs[i].entries| == 1
    ensures ForestOk(vs[..i] + vs[i + 1..])
    ensures Contents(vs[..i] + vs[i + 1..]) == Contents(vs) - {vs[i].minKey}
  {
    var e := vs[i].entries[0];
    DropLeaf(vs, i);
    ContentsAt(vs, i);
    assert vs[i].entries == [e];
    ToMapSingle(e);
    FitsOwnRange(vs, i);
    NotElsewhere(vs, i, e.key);
    RemoveFromMiddle(Contents(vs[..i]), Contents(vs[i + 1..]), e);
  }

  /** Erasing one of several keys of leaf `i` removes exactly that key. */
  lemma DeleteFromLeaf(vs: seq<LeafView>, i: nat, k: Bytes, v: LeafView)
    requires ForestOk(vs) && i < |vs| && k in ToMap(vs[i].entries) && |vs[i].entries| > 1
    requires v.entries == Erase(vs[i].entries, k) && v.entries != []
    requires v.minKey == (if k == vs[i].minKey then v.entries[0].key else vs[i].minKey)
    requires v.maxKey == (if k == vs[i].maxKey then v.entries[|v.entries| - 1].key else vs[i].maxKey)
    ensures ForestOk(vs[i := v])
    ensures Contents(vs[i := v]) == Contents(vs) - {k}
  {
    EraseSpec(vs[i].entries, k);
    EraseRange(vs[i], k, v);
    LeafRange(vs[i], k);
    FitsOwnRange(vs, i);
    ReplaceLeafOk(vs, i, v);
    NotElsewhere(vs, i, k);
    ContentsAt(vs, i);
    ReplaceContents(vs, i, v);
    RemoveBetween(Contents(vs[..i]), ToMap(vs[i].entries), Contents(vs[i + 1..]), k);
  }

  lemma RemoveBetween(a: map<Bytes, Bytes>, m: map<Bytes, Bytes>, b: map<Bytes, Bytes>, k: Bytes)
    requires k !in a && k !in b
    ensures a + (m - {k}) + b == (a + m + b) - {k}
  {
  }

  lemma EraseRange(u: LeafView, k: Bytes, v: LeafView)
    requires LeafOk(u) && k in ToMap(u.entries) && |u.entries| > 1
    requires v.entries == Erase(u.entries, k) && v.entries != []
    requires v.minKey == (if k == u.minKey then v.entries[0].key else u.minKey)
    requires v.maxKey == (if k == u.maxKey then v.entries[|v.entries| - 1].key else u.maxKey)
    ensures LeafOk(v)
    ensures LessEq(u.minKey, v.minKey) && LessEq(v.maxKey, u.maxKey) && LessEq(v.minKey, v.maxKey)
  {
    EraseSpec(u.entries, k);
    HasIffKey(u.entries, k);
    var s, n := u.entries, LowerBound(u.entries, k);
    assert v.entries == s[..n] + s[n + 1..];
    assert v.entries[0] == if n == 0 then s[1] else s[0];
    assert v.entries[|v.entries| - 1] == if n == |s| - 1 then s[|s| - 2] else s[|s| - 1];
    assert n > 0 ==> Less(s[0].key, s[n].key);
    assert n < |s| - 1 ==> Less(s[n].key, s[|s| - 1].key);
    assert Less(s[0].key, s[|s| - 1].key);
    MinMax(v);
  }
}
