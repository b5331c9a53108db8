/** The size that is kept for a leaf, which decides when it is split, and what a split leaves
    behind. */
module LeafSizes {
  import opened DataOrder
  import opened OrderedMap
  import opened Codec
  import opened LeafCodec
  import opened Forest
  import opened TreeStates
  import opened TreeOps
  import opened UnsavedUpdates
  import opened NodeIds

  // ---- halves ------------------------------------------------------------------

  lemma HalvesAre(l: LeafState, id: nat)
    requires |l.kvs| >= 2
    ensures var a, b := LeftHalf(l).kvs, RightHalf(l, id).kvs;
            a + b == l.kvs && |b| <= |a| <= |b| + 1 && LeftHalf(l).entries == a && RightHalf(l, id).entries == b
  {
  }

  /** When an insertion splits a leaf, the two halves stand side by side, hold the old entries and
      the new one in order, and the left one has as many as the right one, or one more. */
  lemma InsertSplitsEvenly(st: TreeState, e: Entry)
    requires Intact(st) && e.key !in Model(st) && InsertReady(st, e.key) && |e.key| <= st.keyLimit && |e.value| < UINT32_RANGE
    requires st.leaves != [] && |AfterInsert(st, e).leaves| != |st.leaves|
    ensures var i, st' := Route(st.leaves, e.key), AfterInsert(st, e);
            && |st'.leaves| == |st.leaves| + 1
            && var a, b := st'.leaves[i].entries, st'.leaves[i + 1].entries;
               a + b == Emplace(st.leaves[i].entries, e) && |b| <= |a| <= |b| + 1
  {
    hide Intact, ForestOk, Emplace, Route, Contents, RangeStat, Placed, InsertReady, LeftHalf, RightHalf, SplitStep, SpliceTwo;
    var i, st1 := Route(st.leaves, e.key), Placed(st, e);
    PlacedShape(st, e);
    PlacedIsForest(st, e);
    SplitContent(st1, i);
    HalvesAre(st1.leaves[i], st1.maxId + 1);
    SplitStepIs(st1, i);
  }

  // ---- sizes -------------------------------------------------------------------

  ghost function ValuesSize(es: seq<Entry>): nat {
    if es == [] then 0 else |es[0].value| + ValuesSize(es[1..])
  }

  /** What a leaf of these entries weighs: its first and its last key, all values, and 20. */
  ghost function Weight(es: seq<Entry>): nat {
    if es == [] then 0 else |es[0].key| + |es[|es| - 1].key| + ValuesSize(es) + 20
  }

  lemma {:induction false} ValuesConcat(a: seq<Entry>, b: seq<Entry>)
    ensures ValuesSize(a + b) == ValuesSize(a) + ValuesSize(b)
  {
    if a == [] {
      assert a + b == b;
    } else {
      ValuesConcat(a[1..], b);
      assert (a + b)[1..] == a[1..] + b;
    }
  }

  lemma OneValue(e: Entry)
    ensures ValuesSize([e]) == |e.value|
  {
    assert [e][1..] == [];
  }

  lemma EmplacedValues(es: seq<Entry>, e: Entry)
    requires !Has(es, e.key)
    ensures ValuesSize(Emplace(es, e)) == ValuesSize(es) + |e.value| && |Emplace(es, e)| == |es| + 1
  {
    var n := LowerBound(es, e.key);
    assert es == es[..n] + es[n..];
    ValuesConcat(es[..n], es[n..]);
    ValuesConcat(es[..n] + [e], es[n..]);
    ValuesConcat(es[..n], [e]);
    OneValue(e);
  }

  lemma ErasedValues(es: seq<Entry>, key: Bytes)
    requires Has(es, key)
    ensures ValuesSize(es) == ValuesSize(Erase(es, key)) + |es[LowerBound(es, key)].value|
  {
    var n := LowerBound(es, key);
    assert es == es[..n] + [es[n]] + es[n + 1..];
    ValuesConcat(es[..n] + [es[n]], es[n + 1..]);
    ValuesConcat(es[..n], [es[n]]);
    ValuesConcat(es[..n], es[n + 1..]);
    OneValue(es[n]);
  }

  /** The statistics are those of the entries, and the size is their weight. */
  ghost predicate Weighed(es: seq<Entry>, stat: NodeStatistics) {
    if es == [] then stat == EMPTY_STAT
    else stat.minKey == es[0].key && stat.maxKey == es[|es| - 1].key && stat.nodeSize == Weight(es) % UINT64_RANGE
  }

  /** A new entry keeps them so. */
  lemma AddWeighs(es: seq<Entry>, stat: NodeStatistics, e: Entry)
    requires Sorted(es) && Weighed(es, stat) && !Has(es, e.key)
    ensures Weighed(Emplace(es, e), AddStat(stat, |es| + 1, e.key, e.value))
  {
    hide DataCmp, ValuesSize, Sorted;
    EmplacedValues(es, e);
    EmplacedEnds(es, e);
    if es == [] { OneValue(e); ValuesOfNone(); } else { SumsWrap(es, stat, e); }
  }

  lemma ValuesOfNone()
    ensures ValuesSize([]) == 0
  {
  }

  lemma EmplacedEnds(es: seq<Entry>, e: Entry)
    requires Sorted(es) && !Has(es, e.key)
    ensures var t := Emplace(es, e);
            && t != []
            && (es == [] ==> t == [e])
            && (es != [] ==> && t[0] == (if Less(e.key, es[0].key) then e else es[0])
                             && t[|t| - 1] == if Less(es[|es| - 1].key, e.key) then e else es[|es| - 1])
  {
    hide DataCmp;
  }

  lemma SumsWrap(es: seq<Entry>, stat: NodeStatistics, e: Entry)
    requires es != [] && Weighed(es, stat)
    ensures AddStat(stat, |es| + 1, e.key, e.value).nodeSize
            == (Weight(es) + |e.value|
                + (if Less(es[|es| - 1].key, e.key) then |e.key| - |es[|es| - 1].key| else 0)
                + (if Less(e.key, es[0].key) then |e.key| - |es[0].key| else 0)) % UINT64_RANGE
  {
    hide DataCmp, Weight, Wrap64;
    var w, n := Weight(es), |es| - 1;
    var high := if Less(es[n].key, e.key) then |e.key| - |es[n].key| else 0;
    var low := if Less(e.key, es[0].key) then |e.key| - |es[0].key| else 0;
    WrapIs(w);
    WrapWrap(w, |e.value|);
    WrapWrap(w + |e.value|, high);
    WrapWrap(w + |e.value| + high, low);
    WrapIs(w + |e.value| + high + low);
  }

  lemma WrapIs(x: int)
    ensures Wrap64(x) == x % UINT64_RANGE
  {
  }

  /** A deletion takes the length of the key off only when it was the first or the last one, does not
      add that of its successor, and never takes off the value: so far the size is off afterwards. */
  lemma DeletionDrifts(es: seq<Entry>, stat: NodeStatistics, key: Bytes)
    requires Sorted(es) && Weighed(es, stat) && Has(es, key) && |es| >= 2
    ensures var left, value := Erase(es, key), es[LowerBound(es, key)].value; var s, n := DelStat(stat, left, key), |left| - 1;
            && left != [] && s.minKey == left[0].key && s.maxKey == left[n].key
            && s.nodeSize == (Weight(left) + |value| - (if key == es[|es| - 1].key then |left[n].key| else 0)
                              - (if key == es[0].key then |left[0].key| else 0)) % UINT64_RANGE
  {
    hide DataCmp, ValuesSize, Wrap64, Sorted;
    var left, n := Erase(es, key), |es| - 1;
    ErasedValues(es, key);
    ErasedEnds(es, key);
    WrapIs(Weight(es));
    WrapWrap(Weight(es), -|key|);
    WrapIs(Weight(es) - |key|);
  }

  lemma ErasedEnds(es: seq<Entry>, key: Bytes)
    requires Sorted(es) && Has(es, key) && |es| >= 2
    ensures var left := Erase(es, key);
            && left != [] && es[0].key != es[|es| - 1].key
            && (key != es[0].key ==> left[0] == es[0]) && (key != es[|es| - 1].key ==> left[|left| - 1] == es[|es| - 1])
  {
    hide DataCmp;
    assert Less(es[0].key, es[|es| - 1].key);
  }

  // ---- when a leaf is split -------------------------------------------------------

  /** A leaf that weighs what its statistics say is split exactly when it then holds three entries or
      more and weighs more than 16384; otherwise its statistics stay right. */
  lemma InsertSplitsIff(st: TreeState, e: Entry)
    requires Intact(st) && e.key !in Model(st) && InsertReady(st, e.key) && |e.key| <= st.keyLimit && |e.value| < UINT32_RANGE
    requires st.leaves != []
    requires var l := st.leaves[Route(st.leaves, e.key)]; Weighed(l.entries, l.stat)
    ensures var i, st' := Route(st.leaves, e.key), AfterInsert(st, e); var es := Emplace(st.leaves[i].entries, e);
            && (|st'.leaves| == |st.leaves| + 1 <==> |es| >= 3 && Weight(es) % UINT64_RANGE > 16384)
            && (|st'.leaves| != |st.leaves| + 1 ==>
                  |st'.leaves| == |st.leaves| && st'.leaves[i].entries == es && Weighed(es, st'.leaves[i].stat))
  {
    hide Intact, ForestOk, Emplace, Route, Contents, RangeStat, Placed, InsertReady, AddStat, Weight, Weighed, SplitStep;
    var i := Route(st.leaves, e.key);
    var l := st.leaves[i];
    PlacedShape(st, e);
    RoutedAbsent(st, e);
    AddWeighs(l.entries, l.stat, e);
    EmplacedValues(l.entries, e);
    SizeOfWeighed(Emplace(l.entries, e), Placed(st, e).leaves[i].stat);
  }

  lemma SizeOfWeighed(es: seq<Entry>, stat: NodeStatistics)
    requires es != [] && Weighed(es, stat)
    ensures stat.nodeSize == Weight(es) % UINT64_RANGE
  {
  }

  lemma RoutedAbsent(st: TreeState, e: Entry)
    requires Intact(st) && e.key !in Model(st) && st.leaves != []
    ensures var es := st.leaves[Route(st.leaves, e.key)].entries; Sorted(es) && !Has(es, e.key)
  {
    hide DataCmp, ToMap, WellFormed, Backed, Contents, ForestOk, Route, Has;
    var i := Route(st.leaves, e.key);
    LoadedLeaf(st, i);
    RouteAbsent(st, e.key);
    HasIffKey(st.leaves[i].entries, e.key);
  }

  /** So do those of the first leaf. */
  lemma FirstLeafWeighs(st: TreeState, e: Entry)
    requires Intact(st) && st.leaves == [] && |e.key| <= st.keyLimit && |e.value| < UINT32_RANGE
    ensures var ls := AfterInsert(st, e).leaves; |ls| == 1 && ls[0].entries == [e] && Weighed([e], ls[0].stat)
  {
    hide Intact, DataCmp, RangeStat;
    FirstInsert(st, e);
    EmplaceIntoEmpty(e);
    OneValue(e);
    SmallWrap(2 * |e.key| + 20 + |e.value|);
  }

  lemma SmallWrap(n: nat)
    ensures n < UINT64_RANGE ==> n % UINT64_RANGE == n
  {
  }

  ghost function KeysSize(es: seq<Entry>): nat {
    if es == [] then 0 else |es[0].key| + KeysSize(es[1..])
  }

  lemma {:induction false} PayloadIs(es: seq<Entry>)
    ensures PayloadSize(es) == KeysSize(es) + ValuesSize(es)
  {
    if es != [] {
      var t, e := es[..|es| - 1], es[|es| - 1];
      PayloadIs(t);
      assert es == t + [e];
      ValuesConcat(t, [e]);
      KeysConcat(t, e);
      OneValue(e);
    }
  }

  lemma {:induction false} KeysConcat(a: seq<Entry>, e: Entry)
    ensures KeysSize(a + [e]) == KeysSize(a) + |e.key|
  {
    if a == [] {
      assert a + [e] == [e] && [e][1..] == [];
    } else {
      KeysConcat(a[1..], e);
      assert (a + [e])[1..] == a[1..] + [e];
    }
  }

  /** A new right half is given the size of all its keys and values, and they are taken off the left
      one; both have their first and last keys as range. */
  lemma HalvesSizes(l: LeafState, id: nat)
    requires |l.kvs| >= 2
    ensures var a, b := LeftHalf(l), RightHalf(l, id); var moved := KeysSize(b.kvs) + ValuesSize(b.kvs);
            && a.kvs != [] && b.kvs != []
            && b.stat.nodeSize == moved % UINT64_RANGE && a.stat.nodeSize == (l.stat.nodeSize - moved) % UINT64_RANGE
            && a.stat.minKey == a.kvs[0].key && a.stat.maxKey == a.kvs[|a.kvs| - 1].key
            && b.stat.minKey == b.kvs[0].key && b.stat.maxKey == b.kvs[|b.kvs| - 1].key
  {
    hide Wrap64, PayloadSize, KeysSize, ValuesSize;
    var b := RightHalf(l, id);
    PayloadIs(b.kvs);
    WrapIs(PayloadSize(b.kvs));
    TakenOff(l.stat.nodeSize, PayloadSize(b.kvs));
  }

  lemma TakenOff(x: int, y: nat)
    ensures Wrap64(x - Wrap64(y)) == (x - y) % UINT64_RANGE
  {
    var q := y / UINT64_RANGE;
    assert y == Wrap64(y) + q * UINT64_RANGE;
  }

  // ---- the root ---------------------------------------------------------------------

  /** The root counts the entries that came and went since it was opened. */
  lemma RootCountAfterInsert(st: TreeState, e: Entry)
    ensures AfterInsert(st, e).rootStat.count == (st.rootStat.count + 1) % UINT64_RANGE
  {
    hide Route, Reread, WithEntry, SplitStep, SplitDue, Wrap64;
    RootStatKept(st, e);
    WrapIs(st.rootStat.count + 1);
  }

  lemma RootStatKept(st: TreeState, e: Entry)
    ensures MaybeSplit(Placed(st, e), Touched(st, e.key)).rootStat == st.rootStat
  {
    hide Route, Reread, WithEntry, LeftHalf, RightHalf, FirstAbove;
  }

  lemma RootCountAfterDelete(st: TreeState, key: Bytes)
    requires Intact(st) && LookupReady(st, key) && LookupSaved(st, key) && key in Model(st)
    ensures var st' := AfterDelete(st, key);
            st'.rootStat.count == if st'.leaves == [] then 0 else (st.rootStat.count - 1) % UINT64_RANGE
  {
    hide Intact, Model, Find, Has, AfterGet, LeafShrunk, RootShrunk, LookupReady, LookupSaved;
    GetMeaning(st, key);
    var i, st1 := Find(st.leaves, key), AfterGet(st, key);
    SameRootStat(st, key, i);
    RootShrunkCount(LeafShrunk(st1, i, key));
  }

  lemma SameRootStat(st: TreeState, key: Bytes, i: nat)
    requires i < |AfterGet(st, key).leaves|
    ensures LeafShrunk(AfterGet(st, key), i, key).rootStat == st.rootStat
  {
    hide Find, Reread, Erase, DelStat, FirstMax;
  }

  lemma RootShrunkCount(st: TreeState)
    ensures RootShrunk(st).leaves == st.leaves
    ensures RootShrunk(st).rootStat.count == if st.leaves == [] then 0 else (st.rootStat.count - 1) % UINT64_RANGE
  {
    hide Wrap64;
    WrapIs(st.rootStat.count - 1);
  }
}
