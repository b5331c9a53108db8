/** The ordered key-value container of a leaf: entries in strictly increasing key
    order. `ToMap` gives the finite map such a container stands for. */
module OrderedMap {
  import opened DataOrder

  datatype Entry = Entry(key: Bytes, value: Bytes)

  ghost predicate Sorted(s: seq<Entry>) {
    forall i, j :: 0 <= i < j < |s| ==> Less(s[i].key, s[j].key)
  }

  ghost function ToMap(s: seq<Entry>): map<Bytes, Bytes> {
    if s == [] then map[] else ToMap(s[..|s| - 1])[s[|s| - 1].key := s[|s| - 1].value]
  }

  ghost function Keys(s: seq<Entry>): set<Bytes> { ToMap(s).Keys }

  lemma {:induction false} ToMapConcat(a: seq<Entry>, b: seq<Entry>)
    ensures ToMap(a + b) == ToMap(a) + ToMap(b)
    decreases |b|
  {
    if b == [] {
      assert a + b == a;
    } else {
      ToMapConcat(a, b[..|b| - 1]);
      assert (a + b)[..|a + b| - 1] == a + b[..|b| - 1];
    }
  }

  /** Membership in the map is membership in the sequence. */
  lemma {:induction false} KeysAreEntries(s: seq<Entry>, k: Bytes)
    ensures k in ToMap(s) <==> exists i :: 0 <= i < |s| && s[i].key == k
  {
    if s != [] {
      var t := s[..|s| - 1];
      KeysAreEntries(t, k);
      if k in ToMap(t) {
        var i :| 0 <= i < |t| && t[i].key == k;
        assert s[i].key == k;
      }
      if i :| 0 <= i < |s| && s[i].key == k {
        if i < |t| { assert t[i].key == k; }
      }
    }
  }

  /** In a sorted container every entry is the one the map returns for its key. */
  lemma {:induction false} MapAt(s: seq<Entry>, i: nat)
    requires Sorted(s) && i < |s|
    ensures s[i].key in ToMap(s) && ToMap(s)[s[i].key] == s[i].value
  {
    if i < |s| - 1 {
      MapAt(s[..|s| - 1], i);
      assert Less(s[i].key, s[|s| - 1].key);
    }
  }

  /** A sorted container is determined by the map it stands for. */
  lemma {:induction false} SortedUnique(s: seq<Entry>, t: seq<Entry>)
    requires Sorted(s) && Sorted(t) && ToMap(s) == ToMap(t)
    ensures s == t
  {
    hide DataCmp;
    if s == [] {
      if t != [] { MapAt(t, 0); }
    } else if t == [] {
      MapAt(s, 0);
    } else {
      LastIsLast(s, t);
      LastIsLast(t, s);
      LastKeyFresh(s);
      LastKeyFresh(t);
      SortedUnique(s[..|s| - 1], t[..|t| - 1]);
    }
  }

  /** The last entry of `s` is not beyond the last entry of `t`. */
  lemma LastIsLast(s: seq<Entry>, t: seq<Entry>)
    requires Sorted(s) && Sorted(t) && ToMap(s) == ToMap(t) && s != [] && t != []
    ensures LessEq(s[|s| - 1].key, t[|t| - 1].key)
    ensures ToMap(t)[s[|s| - 1].key] == s[|s| - 1].value
  {
    hide DataCmp;
    var a := s[|s| - 1];
    MapAt(s, |s| - 1);
    KeysAreEntries(t, a.key);
    var j :| 0 <= j < |t| && t[j].key == a.key;
    assert j < |t| - 1 ==> Less(t[j].key, t[|t| - 1].key);
  }

  lemma DropAdded(m: map<Bytes, Bytes>, e: Entry)
    requires e.key !in m
    ensures m == m[e.key := e.value] - {e.key}
  {
  }

  lemma LastKeyFresh(s: seq<Entry>)
    requires Sorted(s) && s != []
    ensures s[|s| - 1].key !in ToMap(s[..|s| - 1])
    ensures ToMap(s[..|s| - 1]) == ToMap(s) - {s[|s| - 1].key}
  {
    hide DataCmp;
    var t, e := s[..|s| - 1], s[|s| - 1];
    KeysAreEntries(t, e.key);
    assert ToMap(s) == ToMap(t)[e.key := e.value];
    hide ToMap;
    DropAdded(ToMap(t), e);
  }

  /** First position whose key is not below `key`. */
  function LowerBound(s: seq<Entry>, key: Bytes): (i: nat)
    ensures i <= |s|
    ensures forall j :: 0 <= j < i ==> Less(s[j].key, key)
    ensures i < |s| ==> !Less(s[i].key, key)
  {
    if s == [] || !Less(s[0].key, key) then 0 else 1 + LowerBound(s[1..], key)
  }

  /** First position whose key is above `key`. */
  function UpperBound(s: seq<Entry>, key: Bytes): (i: nat)
    ensures i <= |s|
    ensures forall j :: 0 <= j < i ==> LessEq(s[j].key, key)
    ensures i < |s| ==> Less(key, s[i].key)
  {
    if s == [] || Less(key, s[0].key) then 0 else 1 + UpperBound(s[1..], key)
  }

  predicate Has(s: seq<Entry>, key: Bytes) {
    var i := LowerBound(s, key);
    i < |s| && s[i].key == key
  }

  lemma HasIffKey(s: seq<Entry>, key: Bytes)
    requires Sorted(s)
    ensures Has(s, key) <==> key in ToMap(s)
    ensures Has(s, key) ==> ToMap(s)[key] == s[LowerBound(s, key)].value
  {
    hide DataCmp, ToMap;
    KeysAreEntries(s, key);
    var i := LowerBound(s, key);
    if key in ToMap(s) {
      var j :| 0 <= j < |s| && s[j].key == key;
      assert i <= j;
    }
    if Has(s, key) { MapAt(s, i); }
  }

  /** Adds the entry unless its key is present. */
  function Emplace(s: seq<Entry>, e: Entry): seq<Entry> {
    var i := LowerBound(s, e.key);
    if i < |s| && s[i].key == e.key then s else s[..i] + [e] + s[i..]
  }

  function Erase(s: seq<Entry>, key: Bytes): seq<Entry> {
    var i := LowerBound(s, key);
    if i < |s| && s[i].key == key then s[..i] + s[i + 1..] else s
  }

  lemma EmplaceSpec(s: seq<Entry>, e: Entry)
    requires Sorted(s)
    ensures Sorted(Emplace(s, e))
    ensures ToMap(Emplace(s, e)) == if e.key in ToMap(s) then ToMap(s) else ToMap(s)[e.key := e.value]
    ensures e.key !in ToMap(s) ==> |Emplace(s, e)| == |s| + 1
  {
    HasIffKey(s, e.key);
    if !Has(s, e.key) {
      var i := LowerBound(s, e.key);
      InsertSorted(s, i, e);
      ToMapSplice(s, i, i, [e]);
      ToMapSplit(s, i);
      ToMapSingle(e);
      InsertInMiddle(ToMap(s[..i]), ToMap(s[i..]), e);
    }
  }

  lemma ToMapSingle(e: Entry)
    ensures ToMap([e]) == map[e.key := e.value]
  {
  }

  lemma InsertInMiddle(a: map<Bytes, Bytes>, b: map<Bytes, Bytes>, e: Entry)
    requires e.key !in b
    ensures a + map[e.key := e.value] + b == (a + b)[e.key := e.value]
  {
  }

  lemma RemoveFromMiddle(a: map<Bytes, Bytes>, b: map<Bytes, Bytes>, e: Entry)
    requires e.key !in a && e.key !in b
    ensures a + b == (a + map[e.key := e.value] + b) - {e.key}
  {
  }

  lemma InsertSorted(s: seq<Entry>, i: nat, e: Entry)
    requires Sorted(s) && i <= |s|
    requires forall j :: 0 <= j < i ==> Less(s[j].key, e.key)
    requires i < |s| ==> Less(e.key, s[i].key)
    ensures Sorted(s[..i] + [e] + s[i..])
  {
    var t := s[..i] + [e] + s[i..];
    forall a, b | 0 <= a < b < |t| ensures Less(t[a].key, t[b].key) {
      if a < i < b {
        assert t[b] == s[b - 1];
      } else if a == i < b {
        assert t[b] == s[b - 1];
        assert i < b - 1 ==> Less(s[i].key, s[b - 1].key);
      } else if i < a {
        assert t[a] == s[a - 1] && t[b] == s[b - 1];
      }
    }
  }

  lemma ToMapSplit(s: seq<Entry>, i: nat)
    requires i <= |s|
    ensures ToMap(s) == ToMap(s[..i]) + ToMap(s[i..])
  {
    assert s == s[..i] + s[i..];
    ToMapConcat(s[..i], s[i..]);
  }

  lemma ToMapSplice(s: seq<Entry>, i: nat, j: nat, mid: seq<Entry>)
    requires i <= j <= |s|
    ensures ToMap(s[..i] + mid + s[j..]) == ToMap(s[..i]) + ToMap(mid) + ToMap(s[j..])
  {
    ToMapConcat(s[..i] + mid, s[j..]);
    ToMapConcat(s[..i], mid);
  }

  lemma EraseSpec(s: seq<Entry>, key: Bytes)
    requires Sorted(s)
    ensures Sorted(Erase(s, key))
    ensures ToMap(Erase(s, key)) == ToMap(s) - {key}
    ensures key in ToMap(s) ==> |Erase(s, key)| == |s| - 1
  {
    hide DataCmp, ToMap, LowerBound;
    HasIffKey(s, key);
    if Has(s, key) {
      RemoveSpec(s, LowerBound(s, key));
    }
  }

  lemma RemoveSorted(s: seq<Entry>, i: nat)
    requires Sorted(s) && i < |s|
    ensures Sorted(s[..i] + s[i + 1..])
  {
  }

  lemma KeyOnce(s: seq<Entry>, i: nat)
    requires Sorted(s) && i < |s|
    ensures s[i].key !in ToMap(s[..i]) && s[i].key !in ToMap(s[i + 1..])
  {
    KeysAreEntries(s[..i], s[i].key);
    KeysAreEntries(s[i + 1..], s[i].key);
  }

  lemma RemoveSpec(s: seq<Entry>, i: nat)
    requires Sorted(s) && i < |s|
    ensures Sorted(s[..i] + s[i + 1..])
    ensures ToMap(s[..i] + s[i + 1..]) == ToMap(s) - {s[i].key}
  {
    RemoveSorted(s, i);
    KeyOnce(s, i);
    ToMapConcat(s[..i], s[i + 1..]);
    ToMapAround(s, i);
    RemoveFromMiddle(ToMap(s[..i]), ToMap(s[i + 1..]), s[i]);
  }

  lemma ToMapAround(s: seq<Entry>, i: nat)
    requires i < |s|
    ensures ToMap(s) == ToMap(s[..i]) + map[s[i].key := s[i].value] + ToMap(s[i + 1..])
  {
    assert s[..i] + [s[i]] + s[i + 1..] == s;
    ToMapSplice(s, i, i + 1, [s[i]]);
    ToMapSingle(s[i]);
  }

  lemma SortedSlice(s: seq<Entry>, i: nat, j: nat)
    requires Sorted(s) && i <= j <= |s|
    ensures Sorted(s[i..j])
  {
  }

  /** Emplacing a whole list, one entry after the other. */
  function EmplaceAll(s: seq<Entry>, es: seq<Entry>): seq<Entry>
    decreases |es|
  {
    if es == [] then s else Emplace(EmplaceAll(s, es[..|es| - 1]), es[|es| - 1])
  }

  /** Loading a sorted list into an empty container yields the list. */
  lemma {:induction false} EmplaceAllIntoEmpty(es: seq<Entry>)
    requires Sorted(es)
    ensures EmplaceAll([], es) == es
  {
    if es != [] {
      var t := es[..|es| - 1];
      EmplaceAllIntoEmpty(t);
      var e := es[|es| - 1];
      var i := LowerBound(t, e.key);
      assert i == |t|;
      assert t[..i] + [e] + t[i..] == es;
    }
  }

  /** Merging is a no-op exactly when every loaded key is already present. */
  lemma {:induction false} MergeIsNoOpIff(s: seq<Entry>, es: seq<Entry>)
    requires Sorted(s)
    ensures EmplaceAll(s, es) == s <==> Keys(es) <= Keys(s)
  {
    MergeKeys(s, es);
    if Keys(es) <= Keys(s) { MergeKnown(s, es); }
  }

  lemma {:induction false} MergeKeys(s: seq<Entry>, es: seq<Entry>)
    requires Sorted(s)
    ensures Sorted(EmplaceAll(s, es))
    ensures Keys(EmplaceAll(s, es)) == Keys(s) + Keys(es)
    decreases |es|
  {
    if es != [] {
      var t, e := es[..|es| - 1], es[|es| - 1];
      MergeKeys(s, t);
      EmplaceSpec(EmplaceAll(s, t), e);
    }
  }

  /** A merge adds what is new and changes nothing that is held. */
  lemma {:induction false} MergeSpec(s: seq<Entry>, es: seq<Entry>)
    requires Sorted(s) && Sorted(es)
    ensures Sorted(EmplaceAll(s, es)) && ToMap(EmplaceAll(s, es)) == ToMap(es) + ToMap(s)
    decreases |es|
  {
    hide DataCmp, ToMap, Emplace;
    if es == [] {
      EmptyMap();
    } else {
      var t, e := es[..|es| - 1], es[|es| - 1];
      SortedPrefix(es);
      MergeSpec(s, t);
      LastKeyFresh(es);
      EmplaceSpec(EmplaceAll(s, t), e);
      AddUnderneath(ToMap(t), ToMap(s), e);
      LastEntry(es);
    }
  }

  lemma EmptyMap()
    ensures ToMap([]) == map[]
  {
  }

  lemma SortedPrefix(s: seq<Entry>)
    requires Sorted(s) && s != []
    ensures Sorted(s[..|s| - 1])
  {
  }

  lemma LastEntry(s: seq<Entry>)
    requires s != []
    ensures ToMap(s) == ToMap(s[..|s| - 1])[s[|s| - 1].key := s[|s| - 1].value]
  {
  }

  lemma AddUnderneath(a: map<Bytes, Bytes>, b: map<Bytes, Bytes>, e: Entry)
    requires e.key !in a
    ensures a[e.key := e.value] + b == if e.key in a + b then a + b else (a + b)[e.key := e.value]
  {
  }

  lemma {:induction false} MergeKnown(s: seq<Entry>, es: seq<Entry>)
    requires Sorted(s) && Keys(es) <= Keys(s)
    ensures EmplaceAll(s, es) == s
    decreases |es|
  {
    if es != [] {
      MergeKnown(s, es[..|es| - 1]);
      HasIffKey(s, es[|es| - 1].key);
    }
  }
}
