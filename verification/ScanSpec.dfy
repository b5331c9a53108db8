/** What a range scan over the leaves returns, step by step and as a whole. */
module ScanSpec {
  import opened DataOrder
  import opened OrderedMap
  import opened Forest

  datatype IteratorOptions = IteratorOptions(lower: Bytes, upper: Bytes, lowerOpen: bool, upperOpen: bool)

  /** The iterator's test that an entry ends the scan; it looks at `lowerOpen`. */
  predicate PastKey(o: IteratorOptions, key: Bytes) {
    if o.lowerOpen then Less(o.upper, key) else !Less(key, o.upper)
  }

  /** The iterator's test that a further leaf, starting at `minKey`, ends the scan. */
  predicate PastLeaf(o: IteratorOptions, minKey: Bytes) {
    if !o.upperOpen then Less(o.upper, minKey) else !Less(minKey, o.upper)
  }

  predicate AboveLower(o: IteratorOptions, key: Bytes) {
    if o.lowerOpen then Less(o.lower, key) else LessEq(o.lower, key)
  }

  predicate BelowUpper(o: IteratorOptions, inclusive: bool, key: Bytes) {
    if inclusive then LessEq(key, o.upper) else Less(key, o.upper)
  }

  /** First leaf that can hold a key of the range; the leaf count when there is none. */
  ghost function StartLeaf(vs: seq<LeafView>, o: IteratorOptions): (i: nat)
    ensures i <= |vs|
    ensures forall j :: 0 <= j < i ==> !AboveLower(o, vs[j].maxKey)
    ensures i < |vs| ==> AboveLower(o, vs[i].maxKey)
  {
    if vs == [] || AboveLower(o, vs[0].maxKey) then 0 else 1 + StartLeaf(vs[1..], o)
  }

  function StartEntry(es: seq<Entry>, o: IteratorOptions): (n: nat)
    ensures n <= |es|
    ensures forall j :: 0 <= j < n ==> !AboveLower(o, es[j].key)
    ensures n < |es| ==> AboveLower(o, es[n].key)
  {
    if o.lowerOpen then UpperBound(es, o.lower) else LowerBound(es, o.lower)
  }

  /** What is still to come when the cursor stands at entry `n` of leaf `i`. */
  ghost function FromLeaf(vs: seq<LeafView>, i: nat, n: nat, o: IteratorOptions): seq<Entry>
    requires i < |vs| && n <= |vs[i].entries|
    decreases |vs| - i, |vs[i].entries| - n
  {
    if n < |vs[i].entries| then
      if PastKey(o, vs[i].entries[n].key) then [] else [vs[i].entries[n]] + FromLeaf(vs, i, n + 1, o)
    else if i + 1 == |vs| || PastLeaf(o, vs[i + 1].minKey) then []
    else FromLeaf(vs, i + 1, 0, o)
  }

  ghost function Scan(vs: seq<LeafView>, o: IteratorOptions): seq<Entry> {
    var i := StartLeaf(vs, o);
    if i == |vs| then [] else FromLeaf(vs, i, StartEntry(vs[i].entries, o), o)
  }

  /** The entries of `s` above the lower bound and below the upper one. */
  ghost function Between(s: seq<Entry>, o: IteratorOptions, inclusive: bool): seq<Entry> {
    if s == [] then []
    else (if AboveLower(o, s[0].key) && BelowUpper(o, inclusive, s[0].key) then [s[0]] else [])
         + Between(s[1..], o, inclusive)
  }

  /** The documented meaning of a range. */
  ghost function InRange(s: seq<Entry>, o: IteratorOptions): seq<Entry> { Between(s, o, !o.upperOpen) }

  /** A leaf behind the one the scan opens in starts exactly at the upper bound. */
  ghost predicate UpperStartsLeaf(vs: seq<LeafView>, o: IteratorOptions) {
    exists j :: StartLeaf(vs, o) < j < |vs| && vs[j].minKey == o.upper
  }

  /** Whether the scan as coded includes the upper bound. */
  ghost predicate Inclusive(vs: seq<LeafView>, o: IteratorOptions) {
    o.lowerOpen && !(o.upperOpen && UpperStartsLeaf(vs, o))
  }

  // ---- the scan is a cut of the sorted sequence -----------------------------

  ghost function Take(s: seq<Entry>, o: IteratorOptions, inclusive: bool): seq<Entry> {
    if s == [] || !BelowUpper(o, inclusive, s[0].key) then [] else [s[0]] + Take(s[1..], o, inclusive)
  }

  ghost function Rest(vs: seq<LeafView>, i: nat, n: nat): seq<Entry>
    requires i < |vs| && n <= |vs[i].entries|
  {
    vs[i].entries[n..] + Flatten(vs[i + 1..])
  }

  /** At a cursor position the scan can reach, the next entry ends it exactly when it is
      beyond the effective upper bound. */
  lemma PastIsBeyond(vs: seq<LeafView>, i: nat, n: nat, o: IteratorOptions)
    requires ForestOk(vs) && StartLeaf(vs, o) <= i < |vs| && n < |vs[i].entries|
    requires i == StartLeaf(vs, o) || !PastLeaf(o, vs[i].minKey)
    ensures PastKey(o, vs[i].entries[n].key) <==> !BelowUpper(o, Inclusive(vs, o), vs[i].entries[n].key)
  {
    hide DataCmp;
    var key := vs[i].entries[n].key;
    MapAt(vs[i].entries, n);
    LeafRange(vs[i], key);
    forall j | StartLeaf(vs, o) < j < |vs| && o.upperOpen && vs[j].minKey == o.upper ensures key != o.upper {
      NotAtStart(vs, i, j, o, key);
    }
  }

  lemma NotAtStart(vs: seq<LeafView>, i: nat, j: nat, o: IteratorOptions, key: Bytes)
    requires ForestOk(vs) && i < |vs| && j < |vs| && LessEq(vs[i].minKey, key) && LessEq(key, vs[i].maxKey)
    requires i < j || !PastLeaf(o, vs[i].minKey)
    requires o.upperOpen && vs[j].minKey == o.upper
    ensures key != o.upper
  {
    hide DataCmp, LeafOk;
    MinMax(vs[j]);
    assert i < j ==> Less(vs[i].maxKey, vs[j].minKey);
    if j < i { assert false; }
  }

  /** A further leaf ends the scan only when its first entry is beyond the effective bound. */
  lemma PastLeafIsBeyond(vs: seq<LeafView>, i: nat, o: IteratorOptions)
    requires ForestOk(vs) && StartLeaf(vs, o) < i < |vs| && PastLeaf(o, vs[i].minKey)
    ensures !BelowUpper(o, Inclusive(vs, o), vs[i].entries[0].key)
  {
  }

  lemma {:induction false} FromLeafIsTake(vs: seq<LeafView>, i: nat, n: nat, o: IteratorOptions)
    requires ForestOk(vs) && StartLeaf(vs, o) <= i < |vs| && n <= |vs[i].entries|
    requires i == StartLeaf(vs, o) || !PastLeaf(o, vs[i].minKey)
    ensures FromLeaf(vs, i, n, o) == Take(Rest(vs, i, n), o, Inclusive(vs, o))
    decreases |vs| - i, |vs[i].entries| - n
  {
    hide DataCmp, PastKey, PastLeaf, BelowUpper, Inclusive, StartLeaf, ForestOk;
    var es := vs[i].entries;
    if n < |es| {
      PastIsBeyond(vs, i, n, o);
      RestStep(vs, i, n);
      if !PastKey(o, es[n].key) { FromLeafIsTake(vs, i, n + 1, o); }
    } else {
      assert Rest(vs, i, n) == Flatten(vs[i + 1..]);
      if i + 1 < |vs| {
        RestNext(vs, i);
        if PastLeaf(o, vs[i + 1].minKey) { PastLeafIsBeyond(vs, i + 1, o); }
        else { FromLeafIsTake(vs, i + 1, 0, o); }
      } else {
        assert vs[i + 1..] == [];
      }
    }
  }

  lemma RestStep(vs: seq<LeafView>, i: nat, n: nat)
    requires i < |vs| && n < |vs[i].entries|
    ensures Rest(vs, i, n) == [vs[i].entries[n]] + Rest(vs, i, n + 1)
    ensures Rest(vs, i, n) != [] && Rest(vs, i, n)[0] == vs[i].entries[n] && Rest(vs, i, n)[1..] == Rest(vs, i, n + 1)
  {
  }

  lemma RestNext(vs: seq<LeafView>, i: nat)
    requires ForestOk(vs) && i + 1 < |vs|
    ensures Flatten(vs[i + 1..]) == Rest(vs, i + 1, 0)
    ensures Rest(vs, i + 1, 0) != [] && Rest(vs, i + 1, 0)[0] == vs[i + 1].entries[0]
  {
  }

  lemma {:induction false} TakeIsBetween(s: seq<Entry>, o: IteratorOptions, inclusive: bool)
    requires Sorted(s) && forall i :: 0 <= i < |s| ==> AboveLower(o, s[i].key)
    ensures Take(s, o, inclusive) == Between(s, o, inclusive)
  {
    hide DataCmp, AboveLower;
    if s != [] {
      if BelowUpper(o, inclusive, s[0].key) {
        TakeIsBetween(s[1..], o, inclusive);
      } else {
        NothingBetween(s, o, inclusive);
      }
    }
  }

  lemma {:induction false} NothingBetween(s: seq<Entry>, o: IteratorOptions, inclusive: bool)
    requires forall i :: 0 <= i < |s| ==> !(AboveLower(o, s[i].key) && BelowUpper(o, inclusive, s[i].key))
    ensures Between(s, o, inclusive) == []
  {
    hide AboveLower, BelowUpper;
    if s != [] { NothingBetween(s[1..], o, inclusive); }
  }

  lemma {:induction false} BetweenConcat(a: seq<Entry>, b: seq<Entry>, o: IteratorOptions, inclusive: bool)
    ensures Between(a + b, o, inclusive) == Between(a, o, inclusive) + Between(b, o, inclusive)
  {
    hide AboveLower, BelowUpper;
    if a == [] {
      assert a + b == b;
    } else {
      assert (a + b)[1..] == a[1..] + b;
      BetweenConcat(a[1..], b, o, inclusive);
    }
  }

  ghost function Before(vs: seq<LeafView>, i: nat, n: nat): seq<Entry>
    requires i < |vs| && n <= |vs[i].entries|
  {
    Flatten(vs[..i]) + vs[i].entries[..n]
  }

  lemma CutAt(vs: seq<LeafView>, i: nat, n: nat)
    requires i < |vs| && n <= |vs[i].entries|
    ensures Flatten(vs) == Before(vs, i, n) + Rest(vs, i, n)
  {
    FlattenAt(vs, i);
    Rejoin(Flatten(vs[..i]), vs[i].entries, Flatten(vs[i + 1..]), n);
  }

  lemma Rejoin(a: seq<Entry>, es: seq<Entry>, b: seq<Entry>, n: nat)
    requires n <= |es|
    ensures a + es + b == (a + es[..n]) + (es[n..] + b)
  {
    assert es == es[..n] + es[n..];
  }

  /** Everything before the opening position is below the range, everything from it on is not. */
  lemma OpensAtLowerBound(vs: seq<LeafView>, o: IteratorOptions)
    requires ForestOk(vs) && StartLeaf(vs, o) < |vs|
    ensures var i := StartLeaf(vs, o); var n := StartEntry(vs[i].entries, o);
            && n < |vs[i].entries|
            && (forall e :: e in Before(vs, i, n) ==> !AboveLower(o, e.key))
            && (forall e :: e in Rest(vs, i, n) ==> AboveLower(o, e.key))
  {
    hide DataCmp, StartEntry, StartLeaf, ForestOk;
    var i := StartLeaf(vs, o);
    var es := vs[i].entries;
    var n := StartEntry(es, o);
    assert LeafOk(vs[i]) by { LeafOfForest(vs, i); }
    assert vs[i].maxKey == es[|es| - 1].key;
    FlattenSorted(vs);
    CutAt(vs, i, n);
    var all, k := Flatten(vs), |Before(vs, i, n)|;
    forall e | e in Before(vs, i, n) ensures !AboveLower(o, e.key) {
      BeforeIsBelow(vs, o, e);
    }
    forall e | e in Rest(vs, i, n) ensures AboveLower(o, e.key) {
      var m :| 0 <= m < |Rest(vs, i, n)| && Rest(vs, i, n)[m] == e;
      assert all[k + m] == e && all[k] == es[n];
      assert m > 0 ==> Less(all[k].key, all[k + m].key);
    }
  }

  lemma LeafOfForest(vs: seq<LeafView>, i: nat)
    requires ForestOk(vs) && i < |vs|
    ensures LeafOk(vs[i])
  {
  }

  lemma BeforeIsBelow(vs: seq<LeafView>, o: IteratorOptions, e: Entry)
    requires ForestOk(vs) && StartLeaf(vs, o) < |vs|
    requires e in Before(vs, StartLeaf(vs, o), StartEntry(vs[StartLeaf(vs, o)].entries, o))
    ensures !AboveLower(o, e.key)
  {
    hide DataCmp, Flatten, ToMap, Sorted, LeafOk;
    var i := StartLeaf(vs, o);
    if e in Flatten(vs[..i]) { EarlierLeaf(vs, o, i, e); }
  }

  lemma EarlierLeaf(vs: seq<LeafView>, o: IteratorOptions, i: nat, e: Entry)
    requires ForestOk(vs) && i <= |vs| && e in Flatten(vs[..i])
    requires forall j :: 0 <= j < i ==> !AboveLower(o, vs[j].maxKey)
    ensures !AboveLower(o, e.key)
  {
    hide DataCmp, Flatten, ToMap, Sorted;
    var front := vs[..i];
    var m :| 0 <= m < |Flatten(front)| && Flatten(front)[m] == e;
    FlattenSorted(front);
    MapAt(Flatten(front), m);
    KeyInSomeLeaf(front, e.key);
    var j :| 0 <= j < i && e.key in ToMap(front[j].entries);
    LeafRange(vs[j], e.key);
  }

  /** For every kind of range, a scan returns exactly the entries between the bounds, in
      key order, with the upper bound taken in as `Inclusive` says. */
  lemma ScanIsBetween(vs: seq<LeafView>, o: IteratorOptions)
    requires ForestOk(vs)
    ensures Scan(vs, o) == Between(Flatten(vs), o, Inclusive(vs, o))
  {
    hide DataCmp, StartEntry, AboveLower, BelowUpper, Inclusive, FromLeaf, Take, Between, Sorted;
    var i, incl := StartLeaf(vs, o), Inclusive(vs, o);
    if i == |vs| {
      AllBelow(vs, o);
      NothingBetween(Flatten(vs), o, incl);
    } else {
      var n := StartEntry(vs[i].entries, o);
      OpensAtLowerBound(vs, o);
      FromLeafIsTake(vs, i, n, o);
      CutAt(vs, i, n);
      FlattenSorted(vs);
      SortedTail(Before(vs, i, n), Rest(vs, i, n));
      TakeIsBetween(Rest(vs, i, n), o, incl);
      BetweenConcat(Before(vs, i, n), Rest(vs, i, n), o, incl);
      NothingBetween(Before(vs, i, n), o, incl);
    }
  }

  lemma SortedTail(a: seq<Entry>, b: seq<Entry>)
    requires Sorted(a + b)
    ensures Sorted(b)
  {
    SortedSlice(a + b, |a|, |a + b|);
    assert (a + b)[|a|..|a + b|] == b;
  }

  lemma AllBelow(vs: seq<LeafView>, o: IteratorOptions)
    requires ForestOk(vs) && StartLeaf(vs, o) == |vs|
    ensures forall i :: 0 <= i < |Flatten(vs)| ==> !AboveLower(o, Flatten(vs)[i].key)
  {
    hide DataCmp;
    FlattenSorted(vs);
    forall i | 0 <= i < |Flatten(vs)| ensures !AboveLower(o, Flatten(vs)[i].key) {
      var key := Flatten(vs)[i].key;
      MapAt(Flatten(vs), i);
      KeyInSomeLeaf(vs, key);
      var j :| 0 <= j < |vs| && key in ToMap(vs[j].entries);
      LeafRange(vs[j], key);
    }
  }

  // ---- the documented meaning ----------------------------------------------

  /** Half-open ranges mean what the header documents. */
  lemma HalfOpenScan(vs: seq<LeafView>, o: IteratorOptions)
    requires ForestOk(vs) && o.lowerOpen != o.upperOpen
    ensures Scan(vs, o) == InRange(Flatten(vs), o)
  {
    ScanIsBetween(vs, o);
  }

  /** A scan returns its documented range exactly when the two ends are half-open, or
      the upper bound is no key of the range, or (both ends open) a leaf behind the
      opening one starts at the upper bound. */
  lemma ScanMeetsRangeIff(vs: seq<LeafView>, o: IteratorOptions)
    requires ForestOk(vs)
    ensures Scan(vs, o) == InRange(Flatten(vs), o) <==>
            || o.lowerOpen != o.upperOpen
            || o.upper !in Contents(vs)
            || !AboveLower(o, o.upper)
            || (o.lowerOpen && UpperStartsLeaf(vs, o))
  {
    hide DataCmp, AboveLower, UpperStartsLeaf;
    ScanIsBetween(vs, o);
    FlattenSorted(vs);
    BoundMatters(Flatten(vs), o);
  }

  /** The closed range of one key that is there, on a tree of one leaf, returns nothing. */
  lemma ClosedRangeMissesKey(e: Entry)
    ensures var vs, o := [LeafView([e], e.key, e.key)], IteratorOptions(e.key, e.key, false, false);
            ForestOk(vs) && InRange(Flatten(vs), o) == [e] && Scan(vs, o) == []
  {
    var vs, o := [LeafView([e], e.key, e.key)], IteratorOptions(e.key, e.key, false, false);
    FlattenSingle(vs[0]);
    assert InRange([e], o) == [e] + Between([e][1..], o, true);
  }

  /** The open range below a key that is there returns it. */
  lemma OpenRangeTakesBound(e: Entry)
    requires e.key != []
    ensures var vs, o := [LeafView([e], e.key, e.key)], IteratorOptions([], e.key, true, true);
            ForestOk(vs) && InRange(Flatten(vs), o) == [] && Scan(vs, o) == [e]
  {
    var vs, o := [LeafView([e], e.key, e.key)], IteratorOptions([], e.key, true, true);
    FlattenSingle(vs[0]);
    assert InRange([e], o) == Between([e][1..], o, false);
    assert Scan(vs, o) == FromLeaf(vs, 0, 0, o) == [e] + FromLeaf(vs, 0, 1, o);
  }

  /** Taking the upper bound in or leaving it out differs exactly when it is in range. */
  lemma {:induction false} BoundMatters(s: seq<Entry>, o: IteratorOptions)
    requires Sorted(s)
    ensures Between(s, o, true) == Between(s, o, false) <==> !(o.upper in ToMap(s) && AboveLower(o, o.upper))
  {
    hide DataCmp, ToMap, AboveLower;
    CountBetween(s, o);
    KeysAreEntries(s, o.upper);
    if !(exists i :: 0 <= i < |s| && s[i].key == o.upper && AboveLower(o, o.upper)) {
      SameBetween(s, o);
    }
  }

  lemma {:induction false} SameBetween(s: seq<Entry>, o: IteratorOptions)
    requires forall i :: 0 <= i < |s| ==> !(s[i].key == o.upper && AboveLower(o, o.upper))
    ensures Between(s, o, true) == Between(s, o, false)
  {
    hide DataCmp, AboveLower;
    if s != [] { SameBetween(s[1..], o); }
  }

  lemma {:induction false} CountBetween(s: seq<Entry>, o: IteratorOptions)
    ensures |Between(s, o, false)| <= |Between(s, o, true)|
    ensures (exists i :: 0 <= i < |s| && s[i].key == o.upper && AboveLower(o, o.upper)) ==>
              |Between(s, o, false)| < |Between(s, o, true)|
  {
    hide DataCmp, AboveLower;
    if s != [] {
      CountBetween(s[1..], o);
      if i :| 0 <= i < |s| && s[i].key == o.upper && AboveLower(o, o.upper) {
        if i > 0 { assert s[1..][i - 1].key == o.upper; }
      }
    }
  }
}
