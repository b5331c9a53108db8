/** Allocation of database, table and column ids from counters in the store: no id is given
    out twice for a type, whatever is asked and however often the allocator is rebuilt. */
module IdAllocation {
  import opened DataOrder
  import opened Codec
  import opened KeySpace

  datatype IdType = DatabaseId | TableId | ColumnId

  datatype AllocInfo = AllocInfo(curId: nat, maxId: nat, leftNum: nat)

  const NOTHING_CACHED := AllocInfo(0, 0, 0)

  /** The store as far as counters are concerned; a missing counter is zero. */
  class CounterStore {
    var counters: map<Bytes, nat>

    constructor ()
      ensures counters == map[]
    {
      counters := map[];
    }

    method Incrby(key: Bytes, step: nat) returns (value: nat)
      modifies this
      ensures value == At(old(counters), key) + step && counters == old(counters)[key := value]
    {
      var current := 0;
      if key in counters { current := counters[key]; }
      value := current + step;
      counters := counters[key := value];
    }
  }

  ghost function At(counters: map<Bytes, nat>, key: Bytes): nat { if key in counters then counters[key] else 0 }

  function CounterItem(ty: IdType, bucket: nat): Item {
    match ty
    case DatabaseId => DatabaseCounter(bucket)
    case TableId => TableCounter(bucket)
    case ColumnId => ColumnCounter(bucket)
  }

  ghost function CounterOf(counters: map<Bytes, nat>, ty: IdType, bucket: nat): nat {
    At(counters, KeyOf(CounterItem(ty, bucket)))
  }

  /** Every counter counts in steps of the capacity. */
  ghost predicate InSteps(counters: map<Bytes, nat>, capacity: nat)
    requires capacity > 0
  {
    forall ty, bucket :: 0 <= bucket < capacity ==> CounterOf(counters, ty, bucket) % capacity == 0
  }

  /** The id lies below the counter of its bucket, which is its residue. */
  ghost predicate Used(counters: map<Bytes, nat>, capacity: nat, ty: IdType, id: nat)
    requires capacity > 0
  {
    id >= 1 && id - 1 < CounterOf(counters, ty, (id - 1) % capacity)
  }

  lemma CounterIs(counters: map<Bytes, nat>, ty: IdType, bucket: nat)
    ensures CounterOf(counters, ty, bucket) == At(counters, KeyOf(CounterItem(ty, bucket)))
  {
  }

  /** A counter after `n` more ids. */
  ghost function Ahead(counter: nat, n: nat, capacity: nat): nat { counter + n * capacity }

  function Min(a: nat, b: nat): nat { if a <= b then a else b }

  /** Counters have keys of their own. */
  lemma CounterKeys(ty: IdType, bucket: nat, ty': IdType, bucket': nat)
    requires bucket < UINT32_RANGE && bucket' < UINT32_RANGE
    ensures KeyOf(CounterItem(ty, bucket)) == KeyOf(CounterItem(ty', bucket')) <==> ty == ty' && bucket == bucket'
  {
    hide KeyOf;
    KeysDistinct(CounterItem(ty, bucket), CounterItem(ty', bucket'));
  }

  class IdAllocator {
    const capacity: nat
    const slotOf: Bytes -> nat
    const store: CounterStore
    var idInfo: map<IdType, seq<AllocInfo>>

    /** Any hash function will do that stays below the capacity. What was fetched is never
        remembered: the buckets keep the state they were made with. */
    ghost predicate Valid()
      reads this
    {
      && 0 < capacity < UINT32_RANGE && (forall key :: slotOf(key) < capacity)
      && forall ty :: ty in idInfo && |idInfo[ty]| == capacity
                      && forall i :: 0 <= i < capacity ==> idInfo[ty][i] == NOTHING_CACHED
    }

    constructor (capacity: nat, slotOf: Bytes -> nat, store: CounterStore)
      requires 0 < capacity < UINT32_RANGE && forall key :: slotOf(key) < capacity
      ensures Valid() && this.capacity == capacity && this.slotOf == slotOf && this.store == store
    {
      this.capacity, this.slotOf, this.store := capacity, slotOf, store;
      var empty := seq(capacity, _ => NOTHING_CACHED);
      idInfo := map[DatabaseId := empty, TableId := empty, ColumnId := empty];
      new;
      forall ty: IdType ensures ty in idInfo && idInfo[ty] == empty {
        match ty { case DatabaseId => case TableId => case ColumnId => }
      }
    }

    /** Fetches what is needed, at most the capacity, and gives out the ids of the key's
        bucket: new ones, all different, one for each asked for up to the capacity. They are the
        next ones of the bucket, none is skipped, and no other id is used up. */
    method BatchAllocateID(ty: IdType, key: Bytes, batch: nat) returns (ids: seq<nat>)
      requires Valid() && InSteps(store.counters, capacity)
      modifies store
      ensures InSteps(store.counters, capacity) && |ids| == Min(batch, capacity)
      ensures forall i :: 0 <= i < |ids| ==>
                && !Used(old(store.counters), capacity, ty, ids[i]) && Used(store.counters, capacity, ty, ids[i])
      ensures forall i, j :: 0 <= i < j < |ids| ==> ids[i] < ids[j]
      ensures var counter := CounterOf(old(store.counters), ty, slotOf(key));
              && (forall i :: 0 <= i < |ids| ==> ids[i] == counter + capacity * i + slotOf(key) + 1)
              && store.counters == old(store.counters)[KeyOf(CounterItem(ty, slotOf(key))) := Ahead(counter, |ids|, capacity)]
      ensures forall t, id :: Used(store.counters, capacity, t, id) <==>
                Used(old(store.counters), capacity, t, id) || (t == ty && id in ids)
    {
      hide InSteps, Used, KeyOf, CounterOf, CounterItem;
      CounterIs(store.counters, ty, slotOf(key));
      ghost var before, counter := store.counters, CounterOf(store.counters, ty, slotOf(key));
      ids := [];
      var buckets := idInfo[ty];
      var bucket := slotOf(key);
      var info := buckets[bucket];
      var needed := if batch > info.leftNum then batch - info.leftNum else 0;
      needed := if needed > capacity then capacity else needed;
      assert info == NOTHING_CACHED && needed == Min(batch, capacity);
      if needed == 0 {
        info, ids := TakeIds(info, bucket, batch, ids);
      }
      var step := needed * capacity;
      var newMax := store.Incrby(KeyOf(CounterItem(ty, bucket)), step);
      assert newMax - step == counter && ids == [];
      info := AllocInfo(newMax - step, newMax, needed);
      buckets := buckets[bucket := info];
      info, ids := TakeIds(info, bucket, batch, ids);
      Fetched(before, store.counters, capacity, ty, bucket, needed, ids);
    }

    method AllocateID(ty: IdType, key: Bytes) returns (id: nat)
      requires Valid() && InSteps(store.counters, capacity)
      modifies store
      ensures InSteps(store.counters, capacity) && Used(store.counters, capacity, ty, id)
      ensures !Used(old(store.counters), capacity, ty, id)
      ensures id == CounterOf(old(store.counters), ty, slotOf(key)) + slotOf(key) + 1
      ensures forall t, x :: Used(store.counters, capacity, t, x) <==>
                Used(old(store.counters), capacity, t, x) || (t == ty && x == id)
    {
      hide InSteps, Used;
      var ids := BatchAllocateID(ty, key, 1);
      id := ids[0];
    }

    /** Gives out ids of a bucket while some are left and wanted. */
    method TakeIds(info: AllocInfo, bucket: nat, batch: nat, given: seq<nat>) returns (left: AllocInfo, ids: seq<nat>)
      requires |given| <= batch
      ensures var n := Min(info.leftNum, batch - |given|);
              && |ids| == |given| + n && ids[..|given|] == given
              && (forall i :: 0 <= i < n ==> ids[|given| + i] == info.curId + capacity * i + bucket + 1)
              && left == AllocInfo(info.curId + capacity * n, info.maxId, info.leftNum - n)
    {
      left, ids := info, given;
      while left.leftNum > 0 && |ids| < batch
        invariant |given| <= |ids| <= batch && |ids| - |given| <= info.leftNum && ids[..|given|] == given
        invariant left == AllocInfo(info.curId + capacity * (|ids| - |given|), info.maxId, info.leftNum - (|ids| - |given|))
        invariant forall i :: 0 <= i < |ids| - |given| ==> ids[|given| + i] == info.curId + capacity * i + bucket + 1
      {
        ids := ids + [left.curId + bucket + 1];
        left := left.(curId := left.curId + capacity, leftNum := left.leftNum - 1);
      }
    }
  }

  // ---- what a fetch does ---------------------------------------------------

  /** Ids are counted within the residue class of their bucket. */
  lemma Residue(capacity: nat, q: nat, bucket: nat)
    requires bucket < capacity
    ensures (capacity * q + bucket) % capacity == bucket
  {
    RemainderIs(capacity * q + bucket, capacity, q, bucket);
  }

  lemma Multiple(capacity: nat, v: nat)
    requires capacity > 0 && v % capacity == 0
    ensures v == capacity * (v / capacity)
  {
  }

  lemma NextId(capacity: nat, counter: nat, i: nat, bucket: nat)
    requires bucket < capacity && counter % capacity == 0
    ensures (counter + capacity * i + bucket) % capacity == bucket
  {
    Multiple(capacity, counter);
    var q := counter / capacity;
    assert counter + capacity * i == capacity * (q + i);
    Residue(capacity, q + i, bucket);
  }

  lemma StepBelow(capacity: nat, i: nat, n: nat, bucket: nat)
    requires i < n && bucket < capacity
    ensures capacity * i + bucket < n * capacity
  {
    TimesAtMost(capacity, i + 1, n);
    assert capacity * (i + 1) == capacity * i + capacity && capacity * n == n * capacity;
  }

  lemma OtherCounters(before: map<Bytes, nat>, ty: IdType, bucket: nat, value: nat, t: IdType, b: nat)
    requires bucket < UINT32_RANGE && b < UINT32_RANGE
    ensures var after := before[KeyOf(CounterItem(ty, bucket)) := value];
            CounterOf(after, t, b) == if t == ty && b == bucket then value else CounterOf(before, t, b)
  {
    hide KeyOf;
    CounterKeys(ty, bucket, t, b);
  }

  lemma Fetched(before: map<Bytes, nat>, after: map<Bytes, nat>, capacity: nat, ty: IdType, bucket: nat, n: nat, ids: seq<nat>)
    requires bucket < capacity < UINT32_RANGE && InSteps(before, capacity) && |ids| == n
    requires after == before[KeyOf(CounterItem(ty, bucket)) := CounterOf(before, ty, bucket) + n * capacity]
    requires forall i :: 0 <= i < |ids| ==> ids[i] == CounterOf(before, ty, bucket) + capacity * i + bucket + 1
    ensures InSteps(after, capacity)
    ensures forall i :: 0 <= i < |ids| ==> !Used(before, capacity, ty, ids[i]) && Used(after, capacity, ty, ids[i])
    ensures forall i, j :: 0 <= i < j < |ids| ==> ids[i] < ids[j]
    ensures forall t, id :: Used(after, capacity, t, id) <==> Used(before, capacity, t, id) || (t == ty && id in ids)
  {
    hide KeyOf, CounterOf, CounterItem, Used, InSteps;
    StepsKept(before, after, capacity, ty, bucket, n);
    forall i | 0 <= i < |ids| ensures !Used(before, capacity, ty, ids[i]) && Used(after, capacity, ty, ids[i]) {
      FetchedIsNew(before, after, capacity, ty, bucket, n, i, ids[i]);
    }
    forall i, j | 0 <= i < j < |ids| ensures ids[i] < ids[j] { StepBelow(capacity, i, j, 0); }
    forall t, id ensures Used(after, capacity, t, id) <==> Used(before, capacity, t, id) || (t == ty && id in ids) {
      if Used(before, capacity, t, id) {
        UsedStays(before, after, capacity, ty, bucket, n, t, id);
      } else if Used(after, capacity, t, id) {
        OnlyFetched(before, after, capacity, ty, bucket, n, ids, t, id);
      }
    }
  }

  lemma FetchedIsNew(before: map<Bytes, nat>, after: map<Bytes, nat>, capacity: nat, ty: IdType, bucket: nat, n: nat,
                     i: nat, id: nat)
    requires bucket < capacity < UINT32_RANGE && InSteps(before, capacity) && i < n
    requires after == before[KeyOf(CounterItem(ty, bucket)) := CounterOf(before, ty, bucket) + n * capacity]
    requires id == CounterOf(before, ty, bucket) + capacity * i + bucket + 1
    ensures !Used(before, capacity, ty, id) && Used(after, capacity, ty, id)
  {
    hide KeyOf, CounterOf, CounterItem, Used, InSteps;
    var counter := CounterOf(before, ty, bucket);
    CounterInSteps(before, capacity, ty, bucket);
    OtherCounters(before, ty, bucket, counter + n * capacity, ty, bucket);
    NextId(capacity, counter, i, bucket);
    StepBelow(capacity, i, n, bucket);
    NewlyUsed(before, after, capacity, ty, id, bucket);
  }

  /** What was not used before and is now was given out. */
  lemma OnlyFetched(before: map<Bytes, nat>, after: map<Bytes, nat>, capacity: nat, ty: IdType, bucket: nat, n: nat,
                    ids: seq<nat>, t: IdType, id: nat)
    requires bucket < capacity < UINT32_RANGE && InSteps(before, capacity) && |ids| == n
    requires after == before[KeyOf(CounterItem(ty, bucket)) := CounterOf(before, ty, bucket) + n * capacity]
    requires forall i :: 0 <= i < |ids| ==> ids[i] == CounterOf(before, ty, bucket) + capacity * i + bucket + 1
    requires Used(after, capacity, t, id) && !Used(before, capacity, t, id)
    ensures t == ty && id in ids
  {
    hide KeyOf, CounterOf, CounterItem, InSteps;
    var counter, b := CounterOf(before, ty, bucket), (id - 1) % capacity;
    OtherCounters(before, ty, bucket, counter + n * capacity, t, b);
    CounterInSteps(before, capacity, ty, bucket);
    assert t == ty && b == bucket && counter <= id - 1 < counter + n * capacity;
    var i := PlaceOf(capacity, counter, id - 1, bucket, n);
    assert ids[i] == id;
  }

  lemma PlaceOf(capacity: nat, counter: nat, v: nat, bucket: nat, n: nat) returns (i: nat)
    requires capacity > 0 && counter % capacity == 0 && v % capacity == bucket
    requires counter <= v < counter + n * capacity
    ensures i < n && v == counter + capacity * i + bucket
  {
    Multiple(capacity, counter);
    var p, q := counter / capacity, v / capacity;
    assert v == capacity * q + bucket && counter == capacity * p;
    if q < p { TimesAtMost(capacity, q + 1, p); }
    i := q - p;
    assert capacity * q - capacity * p == capacity * i;
    if i >= n { TimesAtMost(capacity, n, i); }
  }

  /** The counters in bytes. */
  lemma CounterKeyInBytes(ty: IdType, bucket: nat)
    requires bucket < UINT32_RANGE
    ensures var k := KeyOf(CounterItem(ty, bucket));
            && |k| == 25 && Number(k[..8], 0) && Number(k[8..16], 0) && Number(k[17..], bucket)
            && k[16] == match ty case DatabaseId => 2 case TableId => 3 case ColumnId => 4
  {
    hide KeyOf, Number;
    KeyInBytes(CounterItem(ty, bucket));
    NumberSize(KeyOf(CounterItem(ty, bucket))[17..], bucket);
  }

  lemma NumberSize(s: Bytes, n: nat)
    requires Number(s, n)
    ensures |s| == 8
  {
  }

  lemma CounterInSteps(counters: map<Bytes, nat>, capacity: nat, ty: IdType, bucket: nat)
    requires bucket < capacity && InSteps(counters, capacity)
    ensures CounterOf(counters, ty, bucket) % capacity == 0
  {
  }

  lemma StepsKept(before: map<Bytes, nat>, after: map<Bytes, nat>, capacity: nat, ty: IdType, bucket: nat, n: nat)
    requires bucket < capacity < UINT32_RANGE && InSteps(before, capacity)
    requires after == before[KeyOf(CounterItem(ty, bucket)) := CounterOf(before, ty, bucket) + n * capacity]
    ensures InSteps(after, capacity)
  {
    hide CounterOf, KeyOf, CounterItem;
    var value := CounterOf(before, ty, bucket) + n * capacity;
    assert CounterOf(before, ty, bucket) % capacity == 0;
    NextId(capacity, CounterOf(before, ty, bucket), n, 0);
    assert n * capacity == capacity * n;
    forall t, b | 0 <= b < capacity ensures CounterOf(after, t, b) % capacity == 0 {
      OtherCounters(before, ty, bucket, value, t, b);
      assert CounterOf(before, t, b) % capacity == 0;
    }
  }

  lemma NewlyUsed(before: map<Bytes, nat>, after: map<Bytes, nat>, capacity: nat, ty: IdType, id: nat, bucket: nat)
    requires capacity > 0 && id >= 1 && (id - 1) % capacity == bucket
    requires CounterOf(before, ty, bucket) <= id - 1 < CounterOf(after, ty, bucket)
    ensures !Used(before, capacity, ty, id) && Used(after, capacity, ty, id)
  {
  }

  lemma UsedStays(before: map<Bytes, nat>, after: map<Bytes, nat>, capacity: nat, ty: IdType, bucket: nat, n: nat,
                  t: IdType, id: nat)
    requires bucket < capacity < UINT32_RANGE && Used(before, capacity, t, id)
    requires after == before[KeyOf(CounterItem(ty, bucket)) := CounterOf(before, ty, bucket) + n * capacity]
    ensures Used(after, capacity, t, id)
  {
  }

  // ---- whole runs ----------------------------------------------------------

  datatype Request = Allocate(ty: IdType, key: Bytes, batch: nat) | Restart

  /** Every id of a batch is used up for its type. */
  ghost predicate BatchUsed(counters: map<Bytes, nat>, capacity: nat, request: Request, ids: seq<nat>)
    requires capacity > 0
  {
    if request.Allocate? then forall a :: 0 <= a < |ids| ==> Used(counters, capacity, request.ty, ids[a]) else ids == []
  }

  ghost predicate AllUsed(counters: map<Bytes, nat>, capacity: nat, requests: seq<Request>, batches: seq<seq<nat>>)
    requires capacity > 0 && |batches| <= |requests|
  {
    forall i :: 0 <= i < |batches| ==> BatchUsed(counters, capacity, requests[i], batches[i])
  }

  /** No id occurs twice among the batches for one type. */
  ghost predicate NoneTwice(requests: seq<Request>, batches: seq<seq<nat>>)
    requires |batches| <= |requests|
  {
    forall i, j, a, b :: 0 <= i <= j < |batches| && 0 <= a < |batches[i]| && 0 <= b < |batches[j]|
                         && requests[i].Allocate? && requests[j].Allocate? && requests[i].ty == requests[j].ty
                         && (i, a) != (j, b) ==>
      batches[i][a] != batches[j][b]
  }

  /** How many ids of a type and a bucket the requests got. */
  ghost function Given(capacity: nat, slotOf: Bytes -> nat, requests: seq<Request>, ty: IdType, bucket: nat): nat {
    if requests == [] then 0
    else
      var r := requests[|requests| - 1];
      Given(capacity, slotOf, requests[..|requests| - 1], ty, bucket)
      + if r.Allocate? && r.ty == ty && slotOf(r.key) == bucket then Min(r.batch, capacity) else 0
  }

  /** The ids of a bucket behind its first `n`: the next one is `capacity` above the last. */
  ghost predicate InTurn(capacity: nat, bucket: nat, n: nat, ids: seq<nat>) {
    forall a :: 0 <= a < |ids| ==> ids[a] == capacity * (n + a) + bucket + 1
  }

  /** Every counter stands at what its bucket gave out. */
  ghost predicate CountersAre(counters: map<Bytes, nat>, capacity: nat, slotOf: Bytes -> nat, requests: seq<Request>) {
    forall t, b :: 0 <= b < capacity ==> CounterOf(counters, t, b) == capacity * Given(capacity, slotOf, requests, t, b)
  }

  lemma CountersAtStart(capacity: nat, slotOf: Bytes -> nat)
    ensures CountersAre(map[], capacity, slotOf, [])
  {
    hide KeyOf;
  }

  lemma Distribute(c: nat, n: nat, m: nat)
    ensures c * (n + m) == c * n + c * m && m * c == c * m
  {
  }

  lemma GivenStep(capacity: nat, slotOf: Bytes -> nat, requests: seq<Request>, k: nat, ty: IdType, bucket: nat)
    requires k < |requests|
    ensures var r := requests[k];
            Given(capacity, slotOf, requests[..k + 1], ty, bucket)
            == Given(capacity, slotOf, requests[..k], ty, bucket)
               + if r.Allocate? && r.ty == ty && slotOf(r.key) == bucket then Min(r.batch, capacity) else 0
  {
    assert requests[..k + 1][..k] == requests[..k];
  }

  /** What a request does to the counters, and which ids it gets. */
  ghost predicate Served(before: map<Bytes, nat>, after: map<Bytes, nat>, capacity: nat, slotOf: Bytes -> nat, r: Request, ids: seq<nat>) {
    if r.Allocate? then
      var counter := CounterOf(before, r.ty, slotOf(r.key));
      && |ids| == Min(r.batch, capacity)
      && (forall i :: 0 <= i < |ids| ==> ids[i] == counter + capacity * i + slotOf(r.key) + 1)
      && after == before[KeyOf(CounterItem(r.ty, slotOf(r.key))) := counter + |ids| * capacity]
    else after == before
  }

  lemma GivenMore(before: map<Bytes, nat>, after: map<Bytes, nat>, capacity: nat, slotOf: Bytes -> nat,
                  requests: seq<Request>, k: nat, ids: seq<nat>)
    requires 0 < capacity < UINT32_RANGE && k < |requests| && forall key :: slotOf(key) < capacity
    requires CountersAre(before, capacity, slotOf, requests[..k])
    requires Served(before, after, capacity, slotOf, requests[k], ids)
    ensures CountersAre(after, capacity, slotOf, requests[..k + 1])
    ensures var r := requests[k];
            r.Allocate? ==>
              InTurn(capacity, slotOf(r.key), Given(capacity, slotOf, requests[..k], r.ty, slotOf(r.key)), ids)
  {
    hide KeyOf, CounterOf, CounterItem, Given;
    var r, front := requests[k], requests[..k];
    forall t, b | 0 <= b < capacity
      ensures CounterOf(after, t, b) == capacity * Given(capacity, slotOf, requests[..k + 1], t, b)
    {
      GivenStep(capacity, slotOf, requests, k, t, b);
      Distribute(capacity, Given(capacity, slotOf, front, t, b), |ids|);
      assert CounterOf(before, t, b) == capacity * Given(capacity, slotOf, front, t, b);
      if r.Allocate? {
        var bucket := slotOf(r.key);
        OtherCounters(before, r.ty, bucket, CounterOf(before, r.ty, bucket) + |ids| * capacity, t, b);
      }
    }
    if r.Allocate? { TurnOf(before, capacity, slotOf, front, r, ids); }
  }

  lemma TurnOf(before: map<Bytes, nat>, capacity: nat, slotOf: Bytes -> nat, front: seq<Request>, r: Request, ids: seq<nat>)
    requires r.Allocate? && slotOf(r.key) < capacity && CountersAre(before, capacity, slotOf, front)
    requires forall i :: 0 <= i < |ids| ==>
               ids[i] == CounterOf(before, r.ty, slotOf(r.key)) + capacity * i + slotOf(r.key) + 1
    ensures InTurn(capacity, slotOf(r.key), Given(capacity, slotOf, front, r.ty, slotOf(r.key)), ids)
  {
    hide CounterOf, Given;
    var n := Given(capacity, slotOf, front, r.ty, slotOf(r.key));
    assert CounterOf(before, r.ty, slotOf(r.key)) == capacity * n;
    forall a | 0 <= a < |ids| ensures ids[a] == capacity * (n + a) + slotOf(r.key) + 1 { Distribute(capacity, n, a); }
  }

  /** Any sequence of requests on a new store, with the allocator rebuilt at every restart. The
      n-th id of a type that a bucket gives out is `capacity * (n - 1) + bucket + 1`. */
  method Serve(capacity: nat, slotOf: Bytes -> nat, requests: seq<Request>) returns (batches: seq<seq<nat>>)
    requires 0 < capacity < UINT32_RANGE && forall key :: slotOf(key) < capacity
    ensures |batches| == |requests|
    ensures forall i :: 0 <= i < |requests| ==>
              |batches[i]| == if requests[i].Allocate? then Min(requests[i].batch, capacity) else 0
    ensures forall i, a :: 0 <= i < |batches| && 0 <= a < |batches[i]| ==> batches[i][a] >= 1
    ensures NoneTwice(requests, batches)
    ensures forall i :: 0 <= i < |requests| && requests[i].Allocate? ==>
              InTurn(capacity, slotOf(requests[i].key),
                     Given(capacity, slotOf, requests[..i], requests[i].ty, slotOf(requests[i].key)), batches[i])
  {
    hide InSteps, Used, CounterOf, NoneTwice, AllUsed, Given, InTurn, KeyOf, CountersAre;
    CountersAtStart(capacity, slotOf);
    assert requests[..0] == [];
    var store := new CounterStore();
    var allocator := new IdAllocator(capacity, slotOf, store);
    batches := [];
    StartsInSteps(capacity, requests);
    for k := 0 to |requests|
      invariant |batches| == k
      invariant allocator.Valid() && allocator.capacity == capacity && allocator.slotOf == slotOf && allocator.store == store
      invariant fresh(store) && InSteps(store.counters, capacity)
      invariant forall i :: 0 <= i < k ==>
                  |batches[i]| == if requests[i].Allocate? then Min(requests[i].batch, capacity) else 0
      invariant AllUsed(store.counters, capacity, requests, batches) && NoneTwice(requests, batches)
      invariant CountersAre(store.counters, capacity, slotOf, requests[..k])
      invariant forall i :: 0 <= i < k && requests[i].Allocate? ==>
                  InTurn(capacity, slotOf(requests[i].key),
                         Given(capacity, slotOf, requests[..i], requests[i].ty, slotOf(requests[i].key)), batches[i])
    {
      ghost var before := store.counters;
      var ids := [];
      match requests[k] {
        case Allocate(ty, key, batch) => ids := allocator.BatchAllocateID(ty, key, batch);
        case Restart => allocator := new IdAllocator(capacity, slotOf, store);
      }
      OneMore(before, store.counters, capacity, requests, batches, ids);
      GivenMore(before, store.counters, capacity, slotOf, requests, k, ids);
      batches := batches + [ids];
    }
    UsedPositive(store.counters, capacity, requests, batches);
  }

  lemma StartsInSteps(capacity: nat, requests: seq<Request>)
    requires capacity > 0
    ensures InSteps(map[], capacity) && AllUsed(map[], capacity, requests, []) && NoneTwice(requests, [])
  {
    hide KeyOf;
  }

  lemma UsedPositive(counters: map<Bytes, nat>, capacity: nat, requests: seq<Request>, batches: seq<seq<nat>>)
    requires capacity > 0 && |batches| <= |requests| && AllUsed(counters, capacity, requests, batches)
    ensures forall i, a :: 0 <= i < |batches| && 0 <= a < |batches[i]| ==> batches[i][a] >= 1
  {
  }

  lemma OneMore(before: map<Bytes, nat>, after: map<Bytes, nat>, capacity: nat, requests: seq<Request>,
                batches: seq<seq<nat>>, ids: seq<nat>)
    requires capacity > 0 && |batches| < |requests|
    requires AllUsed(before, capacity, requests, batches) && NoneTwice(requests, batches)
    requires var r := requests[|batches|];
             if r.Allocate?
             then forall i :: 0 <= i < |ids| ==> !Used(before, capacity, r.ty, ids[i]) && Used(after, capacity, r.ty, ids[i])
             else ids == []
    requires forall i, j :: 0 <= i < j < |ids| ==> ids[i] < ids[j]
    requires forall t, id :: Used(before, capacity, t, id) ==> Used(after, capacity, t, id)
    ensures AllUsed(after, capacity, requests, batches + [ids]) && NoneTwice(requests, batches + [ids])
  {
    hide Used, AllUsed, NoneTwice;
    UsedMore(before, after, capacity, requests, batches, ids);
    NoneTwiceMore(before, capacity, requests, batches, ids);
  }

  lemma UsedMore(before: map<Bytes, nat>, after: map<Bytes, nat>, capacity: nat, requests: seq<Request>,
                 batches: seq<seq<nat>>, ids: seq<nat>)
    requires capacity > 0 && |batches| < |requests| && AllUsed(before, capacity, requests, batches)
    requires var r := requests[|batches|];
             if r.Allocate? then forall i :: 0 <= i < |ids| ==> Used(after, capacity, r.ty, ids[i]) else ids == []
    requires forall t, id :: Used(before, capacity, t, id) ==> Used(after, capacity, t, id)
    ensures AllUsed(after, capacity, requests, batches + [ids])
  {
  }

  lemma NoneTwiceMore(before: map<Bytes, nat>, capacity: nat, requests: seq<Request>, batches: seq<seq<nat>>, ids: seq<nat>)
    requires capacity > 0 && |batches| < |requests|
    requires AllUsed(before, capacity, requests, batches) && NoneTwice(requests, batches)
    requires var r := requests[|batches|];
             r.Allocate? ==> forall i :: 0 <= i < |ids| ==> !Used(before, capacity, r.ty, ids[i])
    requires forall i, j :: 0 <= i < j < |ids| ==> ids[i] < ids[j]
    ensures NoneTwice(requests, batches + [ids])
  {
    hide Used;
    var all, n := batches + [ids], |batches|;
    forall i, j, a, b | 0 <= i <= j < |all| && 0 <= a < |all[i]| && 0 <= b < |all[j]|
                        && requests[i].Allocate? && requests[j].Allocate? && requests[i].ty == requests[j].ty
                        && (i, a) != (j, b)
      ensures all[i][a] != all[j][b]
    {
      if j < n {
        assert batches[i][a] != batches[j][b];
      } else if i == n {
        assert ids[a] != ids[b];
      } else {
        assert BatchUsed(before, capacity, requests[i], batches[i]);
        assert Used(before, capacity, requests[i].ty, batches[i][a]) && !Used(before, capacity, requests[j].ty, ids[b]);
      }
    }
  }
}
