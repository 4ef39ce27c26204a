/** The invariant of the residency manager and its preservation by eviction. */
module ResidencyInvariant {
  import opened Sets
  import opened Options
  import opened ResidencySpec

  // ----- The log of device calls

  function Delta(c: Call, id: HeapId): int {
    match c
    case Created(x, resident) => if x == id && resident then 1 else 0
    case MadeResident(x) => if x == id then 1 else 0
    case Evicted(x, _, _, _) => if x == id then -1 else 0
    case Waited(_, _) => 0
    case Executed(_, _, _) => 0
    case Unlocked(_, _) => 0
  }

  /** The device's residency count of a heap after the first `k` calls. */
  function CountTo(log: seq<Call>, k: nat, id: HeapId): int
    requires k <= |log|
  {
    if k == 0 then 0 else CountTo(log, k - 1, id) + Delta(log[k - 1], id)
  }

  function Count(log: seq<Call>, id: HeapId): int { CountTo(log, |log|, id) }

  /** Call `k` was safe: a heap is made resident only when it is not, and evicted
      only when it is resident, unlocked and the GPU has reached its last-used
      fence value; the fence is waited on only for values already signaled. */
  predicate EntryOk(log: seq<Call>, k: nat, c: Call)
    requires k <= |log|
  {
    match c
    case Created(id, _) => CountTo(log, k, id) == 0
    case MadeResident(id) => CountTo(log, k, id) == 0
    case Evicted(id, locks, lastUsed, completed) => CountTo(log, k, id) == 1 && locks == 0 && lastUsed <= completed
    case Waited(value, signaled) => value <= signaled
    case Executed(_, listed, unlocked) => unlocked <= listed
    case Unlocked(_, _) => true
  }

  /** Every call was safe when it was made. */
  ghost predicate LogOk(log: seq<Call>) {
    forall k: nat {:trigger EntryOk(log, k, log[k])} :: k < |log| ==> EntryOk(log, k, log[k])
  }

  lemma {:induction false} CountPrefix(log: seq<Call>, c: Call, k: nat, id: HeapId)
    requires k <= |log|
    ensures CountTo(log + [c], k, id) == CountTo(log, k, id)
  {
    if k > 0 {
      CountPrefix(log, c, k - 1, id);
    }
  }

  lemma CountAppend(log: seq<Call>, c: Call, id: HeapId)
    ensures Count(log + [c], id) == Count(log, id) + Delta(c, id)
  {
    CountPrefix(log, c, |log|, id);
  }

  lemma LogAppend(log: seq<Call>, c: Call)
    requires LogOk(log) && EntryOk(log, |log|, c)
    ensures LogOk(log + [c])
  {
    var log' := log + [c];
    forall k: nat | k < |log'|
      ensures EntryOk(log', k, log'[k])
    {
      if k < |log| {
        assert EntryOk(log, k, log[k]);
      }
      if !log'[k].Waited? && !log'[k].Executed? {
        CountPrefix(log, c, k, log'[k].id);
      }
    }
  }

  /** In a safe log, the residency count of every heap is 0 or 1 at all times. */
  lemma {:induction false} CountIsZeroOrOne(log: seq<Call>, k: nat, id: HeapId)
    requires LogOk(log) && k <= |log|
    ensures CountTo(log, k, id) == 0 || CountTo(log, k, id) == 1
  {
    if k > 0 {
      CountIsZeroOrOne(log, k - 1, id);
      assert EntryOk(log, k - 1, log[k - 1]);
    }
  }

  // ----- Invariant

  lemma DistinctTail(c: seq<HeapId>)
    requires Distinct(c) && c != []
    ensures Distinct(c[1..]) && c[0] !in c[1..]
    ensures forall id :: id in c <==> id == c[0] || id in c[1..]
  {
    var t := c[1..];
    forall i: nat, j: nat | i < j < |t|
      ensures t[i] != t[j]
    {
      assert c[i + 1] != c[j + 1];
    }
    forall j: nat | j < |t|
      ensures t[j] != c[0]
    {
      assert c[0] != c[j + 1];
    }
  }

  lemma DistinctSnoc(c: seq<HeapId>, id: HeapId)
    requires Distinct(c) && id !in c
    ensures Distinct(c + [id])
  {
    var t := c + [id];
    forall i: nat, j: nat | i < j < |t|
      ensures t[i] != t[j]
    {
      assert j < |c| ==> c[i] != c[j];
      assert t[i] in c;
    }
  }

  ghost predicate FenceOk(f: Fence) {
    f.current == f.lastSignaled + 1 && f.lastCompleted <= f.completed <= f.lastSignaled
  }

  ghost predicate Known(s: State, g: Segment, id: HeapId) {
    id in s.heaps && s.heaps[id].segment == g
  }

  ghost predicate CacheOk(s: State, g: Segment) {
    && Distinct(Cache(s, g))
    && forall id {:trigger Known(s, g, id)} :: id in Cache(s, g) ==> Known(s, g, id)
  }

  /** `pend`: linked by the current submission but not resident yet.
      `out`: unlinked by the current eviction but not evicted yet. */
  ghost predicate HeapOk(s: State, pend: set<HeapId>, out: set<HeapId>, id: HeapId)
    requires id in s.heaps
  {
    var h := s.heaps[id];
    && h.size > 0 && h.lastUsed <= s.fence.current && (InCache(s, id) ==> h.locks == 0)
    && if id in pend then
         InCache(s, id) && id !in out && h.lastUsed == s.fence.current && h.status != Resident && Count(s.log, id) == 0
       else if id in out then
         !InCache(s, id) && h.locks == 0 && h.lastUsed <= s.fence.completed && h.status != Resident &&
             Count(s.log, id) == 1
       else
         && (h.status == Resident <==> InCache(s, id) || h.locks > 0)
         && Count(s.log, id) == if h.status == Resident then 1 else 0
  }

  ghost predicate HeapsOk(s: State, pend: set<HeapId>, out: set<HeapId>) {
    && pend <= s.heaps.Keys && out <= s.heaps.Keys
    && forall id {:trigger HeapOk(s, pend, out, id)} :: id in s.heaps ==> HeapOk(s, pend, out, id)
  }

  ghost predicate InvIn(s: State, pend: set<HeapId>, out: set<HeapId>) {
    FenceOk(s.fence) && CacheOk(s, Local) && CacheOk(s, NonLocal) && HeapsOk(s, pend, out) && LogOk(s.log)
  }

  /** What holds between calls. */
  ghost predicate Inv(s: State) { InvIn(s, {}, {}) }

  // ----- Eviction

  lemma WaitForOk(s: State, value: nat, reached: nat -> nat)
    requires FenceOk(s.fence) && LogOk(s.log) && value <= s.fence.lastSignaled
    ensures var s' := WaitFor(s, value, reached);
            && FenceOk(s'.fence) && LogOk(s'.log) && s'.fence.current == s.fence.current
            && s.fence.completed <= s'.fence.completed && value <= s'.fence.completed
            && s' == s.(fence := s'.fence, log := s'.log)
    ensures forall id :: Count(WaitFor(s, value, reached).log, id) == Count(s.log, id)
  {
    var c := Waited(value, s.fence.lastSignaled);
    LogAppend(s.log, c);
    forall id
      ensures Count(s.log + [c], id) == Count(s.log, id)
    {
      CountAppend(s.log, c, id);
    }
  }

  ghost function ToSet(c: seq<HeapId>): set<HeapId> { set id | id in c }

  lemma CacheTail(s: State, g: Segment, s': State)
    requires CacheOk(s, g) && Cache(s, g) != [] && Cache(s', g) == Cache(s, g)[1..]
    requires s'.heaps.Keys == s.heaps.Keys && forall id :: id in s.heaps ==> s'.heaps[id].segment == s.heaps[id].segment
    ensures CacheOk(s', g) && Cache(s, g)[0] !in Cache(s', g)
    ensures forall id :: id in Cache(s', g) <==> id in Cache(s, g) && id != Cache(s, g)[0]
  {
    DistinctTail(Cache(s, g));
    forall id | id in Cache(s', g)
      ensures Known(s', g, id)
    {
      assert Known(s, g, id);
    }
  }

  lemma OtherCache(s: State, g: Segment, id: HeapId)
    requires CacheOk(s, Local) && CacheOk(s, NonLocal) && id in Cache(s, g)
    ensures id !in Cache(s, if g == Local then NonLocal else Local) && InCache(s, id)
  {
    assert Known(s, g, id);
    var o := if g == Local then NonLocal else Local;
    if id in Cache(s, o) {
      CacheKnows(s, o, id);
    }
  }

  lemma CacheKnows(s: State, g: Segment, id: HeapId)
    requires CacheOk(s, g) && id in Cache(s, g)
    ensures id in s.heaps && s.heaps[id].segment == g
  {
    assert Known(s, g, id);
  }

  /** A change of heaps that keeps the segments keeps an untouched cache in order. */
  lemma CacheSame(s: State, g: Segment, s': State)
    requires CacheOk(s, g) && Cache(s', g) == Cache(s, g)
    requires forall id :: id in s.heaps ==> id in s'.heaps && s'.heaps[id].segment == s.heaps[id].segment
    ensures CacheOk(s', g)
  {
    forall id | id in Cache(s', g)
      ensures Known(s', g, id)
    {
      assert Known(s, g, id);
    }
  }

  /** Taking the head out of the cache: it is unlocked, resident, no longer in use. */
  lemma TakeHeadOk(s: State, g: Segment, pend: set<HeapId>, out: set<HeapId>, reached: nat -> nat, s': State)
    requires InvIn(s, pend, out) && Cache(s, g) != [] && Cache(s, g)[0] in s.heaps
    requires s.heaps[Cache(s, g)[0]].lastUsed != s.fence.current && s' == TakeHead(s, g, reached)
    ensures var id := Cache(s, g)[0]; InvIn(s', pend, out + {id}) && id !in out && id !in pend
  {
    var id := Cache(s, g)[0];
    var s1 := SetStatus(WithCache(s, g, Cache(s, g)[1..]), id, Pending);
    assert HeapOk(s, pend, out, id);
    WaitForOk(s1, s.heaps[id].lastUsed, reached);
    CacheTail(s, g, s');
    CacheSame(s, Other(g), s');
    OtherCache(s, g, id);
    forall x | x in s'.heaps
      ensures HeapOk(s', pend, out + {id}, x)
    {
      assert HeapOk(s, pend, out, x);
    }
  }

  lemma Snoc(batch: seq<HeapId>, id: HeapId)
    requires Distinct(batch) && id !in ToSet(batch)
    ensures Distinct(batch + [id]) && ToSet(batch + [id]) == ToSet(batch) + {id}
  {
    DistinctSnoc(batch, id);
  }

  /** The loop stops at the first heap at which one of its conditions holds. */
  lemma {:induction false} VictimCountMeaning(s: State, c: seq<HeapId>, need: nat, k: nat)
    requires k <= |c|
    ensures EvictionStops(s, c, need, VictimCount(s, c, need, k))
    ensures forall i: nat :: k <= i < VictimCount(s, c, need, k) ==> !EvictionStops(s, c, need, i)
    ensures forall i: nat {:trigger c[i]} :: k <= i < VictimCount(s, c, need, k) ==>
      c[i] in s.heaps && s.heaps[c[i]].lastUsed != s.fence.current
    decreases |c| - k
  {
    if !EvictionStops(s, c, need, k) {
      VictimCountMeaning(s, c, need, k + 1);
    }
  }

  /** None of the first `k` heaps of the cache belongs to the current submission. */
  ghost predicate Victims(s: State, g: Segment, k: nat) {
    && k <= |Cache(s, g)|
    && forall i: nat {:trigger Cache(s, g)[i]} :: i < k ==>
         Cache(s, g)[i] in s.heaps && s.heaps[Cache(s, g)[i]].lastUsed != s.fence.current
  }

  lemma {:induction false} TakeHeadsFrame(s: State, g: Segment, k: nat, reached: nat -> nat)
    requires Distinct(Cache(s, g)) && Victims(s, g, k)
    ensures EvictsFrom(s, TakeHeads(s, g, k, reached), g) && Distinct(Cache(TakeHeads(s, g, k, reached), g))
  {
    if k == 0 {
      EvictsNothing(s, g);
    } else {
      var s1, s2 := TakeHeads(s, g, k - 1, reached), TakeHeads(s, g, k, reached);
      TakeHeadsFrame(s, g, k - 1, reached);
      NextHead(s, s1, g, k - 1);
      TakeHeadFrame(s1, g, reached, s2);
      EvictsTwice(s, s1, s2, g);
    }
  }

  /** After `k` heaps are gone, the next head is element `k` of the original cache. */
  lemma NextHead(s: State, s1: State, g: Segment, k: nat)
    requires EvictsFrom(s, s1, g) && Victims(s, g, k + 1) && Cache(s1, g) == Cache(s, g)[k..]
    ensures Cache(s1, g) != [] && Cache(s1, g)[0] == Cache(s, g)[k] && Cache(s, g)[k] in s1.heaps
    ensures s1.heaps[Cache(s, g)[k]].lastUsed != s1.fence.current
  {
    assert HeapKept(s, s1, g, Cache(s, g)[k]);
  }

  lemma ToSetSnoc(c: seq<HeapId>, k: nat)
    requires k < |c| && Distinct(c[..k]) && c[k] !in ToSet(c[..k])
    ensures ToSet(c[..k + 1]) == ToSet(c[..k]) + {c[k]} && Distinct(c[..k + 1])
  {
    assert c[..k + 1] == c[..k] + [c[k]];
    Snoc(c[..k], c[k]);
  }

  /** Between the loop and the device call: what was taken out is unlocked,
      resident on the device and no longer in use. */
  lemma {:induction false} TakeHeadsOk(s: State, g: Segment, k: nat, pend: set<HeapId>, reached: nat -> nat, r: State)
    requires InvIn(s, pend, {}) && Victims(s, g, k) && r == TakeHeads(s, g, k, reached)
    ensures InvIn(r, pend, ToSet(Cache(s, g)[..k])) && Distinct(Cache(s, g)[..k])
  {
    if k == 0 {
      assert ToSet(Cache(s, g)[..0]) == {};
    } else {
      var s1 := TakeHeads(s, g, k - 1, reached);
      TakeHeadsOk(s, g, k - 1, pend, reached, s1);
      TakeHeadsFrame(s, g, k - 1, reached);
      NextHead(s, s1, g, k - 1);
      TakeHeadOk(s1, g, pend, ToSet(Cache(s, g)[..k - 1]), reached, r);
      ToSetSnoc(Cache(s, g), k - 1);
    }
  }

  /** The device call at the end of an eviction is safe for every heap of the batch. */
  lemma {:induction false} EvictBatchOk(s: State, batch: seq<HeapId>, pend: set<HeapId>)
    requires InvIn(s, pend, ToSet(batch)) && Distinct(batch)
    ensures InvIn(EvictBatch(s, batch), pend, {})
    decreases |batch|
  {
    if batch == [] {
      assert EvictBatch(s, batch) == s && ToSet(batch) == {};
    } else {
      var s1 := s.(log := s.log + [EvictCall(s, batch[0])]);
      EvictOneOk(s, batch, pend);
      DistinctTail(batch);
      EvictBatchOk(s1, batch[1..], pend);
      assert EvictBatch(s, batch).log == EvictBatch(s1, batch[1..]).log;
    }
  }

  /** Evicting the first heap of a batch. */
  lemma EvictOneOk(s: State, batch: seq<HeapId>, pend: set<HeapId>)
    requires InvIn(s, pend, ToSet(batch)) && Distinct(batch) && batch != []
    ensures InvIn(s.(log := s.log + [EvictCall(s, batch[0])]), pend, ToSet(batch[1..]))
  {
    var id, call := batch[0], EvictCall(s, batch[0]);
    var s' := s.(log := s.log + [call]);
    assert id in ToSet(batch);
    assert HeapOk(s, pend, ToSet(batch), id);
    LogAppend(s.log, call);
    DistinctTail(batch);
    assert ToSet(batch) == ToSet(batch[1..]) + {id};
    CacheSame(s, Local, s');
    CacheSame(s, NonLocal, s');
    forall x | x in s'.heaps
      ensures HeapOk(s', pend, ToSet(batch[1..]), x)
    {
      assert HeapOk(s, pend, ToSet(batch), x);
      CountAppend(s.log, call, x);
    }
  }

  // ----- What eviction leaves alone

  function Other(g: Segment): Segment { if g == Local then NonLocal else Local }

  /** Eviction changes at most the status of a heap, and only if it leaves the
      cache; a heap of the current submission stays in the cache. */
  ghost predicate HeapKept(s: State, s': State, g: Segment, id: HeapId)
    requires id in s.heaps && id in s'.heaps
  {
    && s'.heaps[id] == s.heaps[id].(status := s'.heaps[id].status)
    && (id in Cache(s', g) || id !in Cache(s, g) ==> s'.heaps[id].status == s.heaps[id].status)
    && (id in Cache(s, g) && s.heaps[id].lastUsed == s.fence.current ==> id in Cache(s', g))
  }

  ghost predicate EvictsFrom(s: State, s': State, g: Segment) {
    && s'.heaps.Keys == s.heaps.Keys && s'.stats == s.stats
    && s'.fence.current == s.fence.current && s'.fence.lastSignaled == s.fence.lastSignaled
    && Cache(s', Other(g)) == Cache(s, Other(g))
    && |Cache(s', g)| <= |Cache(s, g)| && Cache(s', g) == Cache(s, g)[|Cache(s, g)| - |Cache(s', g)|..]
    && forall id {:trigger HeapKept(s, s', g, id)} :: id in s.heaps ==> HeapKept(s, s', g, id)
  }

  lemma EvictsNothing(s: State, g: Segment)
    ensures EvictsFrom(s, s, g)
  {
  }

  lemma EvictsTwice(s: State, s1: State, s2: State, g: Segment)
    requires EvictsFrom(s, s1, g) && EvictsFrom(s1, s2, g)
    ensures EvictsFrom(s, s2, g)
  {
    forall id | id in s.heaps
      ensures HeapKept(s, s2, g, id)
    {
      assert HeapKept(s, s1, g, id) && HeapKept(s1, s2, g, id);
    }
  }

  lemma TakeHeadFrame(s: State, g: Segment, reached: nat -> nat, s': State)
    requires Cache(s, g) != [] && Cache(s, g)[0] in s.heaps && Distinct(Cache(s, g))
    requires s.heaps[Cache(s, g)[0]].lastUsed != s.fence.current && s' == TakeHead(s, g, reached)
    ensures EvictsFrom(s, s', g) && Distinct(Cache(s', g))
  {
    DistinctTail(Cache(s, g));
    TakeHeadShape(s, g, reached, s');
    forall id | id in s.heaps
      ensures HeapKept(s, s', g, id)
    {
    }
  }

  lemma TakeHeadShape(s: State, g: Segment, reached: nat -> nat, s': State)
    requires Cache(s, g) != [] && Cache(s, g)[0] in s.heaps && s' == TakeHead(s, g, reached)
    ensures s'.heaps == s.heaps[Cache(s, g)[0] := s.heaps[Cache(s, g)[0]].(status := Pending)] && s'.stats == s.stats
    ensures s'.fence.current == s.fence.current && s'.fence.lastSignaled == s.fence.lastSignaled
    ensures Cache(s', Other(g)) == Cache(s, Other(g)) && Cache(s', g) == Cache(s, g)[1..]
  {
  }

  // ----- What eviction records

  /** What eviction and paging between `s` and `s'` may record. */
  ghost predicate Recorded(s: State, s': State, c: Call) {
    match c
    case Evicted(id, locks, lastUsed, completed) =>
      && id in s.heaps && locks == s.heaps[id].locks && lastUsed == s.heaps[id].lastUsed
      && s.fence.completed <= completed <= s'.fence.completed
    case MadeResident(_) => true
    case Waited(_, _) => true
    case Created(_, _) => false
    case Executed(_, _, _) => false
    case Unlocked(_, _) => false
  }

  ghost predicate LogGrows(s: State, s': State) {
    && s.log <= s'.log && s.fence.completed <= s'.fence.completed
    && forall k: nat {:trigger s'.log[k]} :: |s.log| <= k < |s'.log| ==> Recorded(s, s', s'.log[k])
  }

  ghost predicate SameUse(s: State, s': State) {
    && s'.heaps.Keys == s.heaps.Keys
    && forall id {:trigger s'.heaps[id]} :: id in s.heaps ==>
         s'.heaps[id].lastUsed == s.heaps[id].lastUsed && s'.heaps[id].locks == s.heaps[id].locks
  }

  lemma GrowsTwice(s: State, s1: State, s2: State)
    requires SameUse(s, s1) && LogGrows(s, s1) && LogGrows(s1, s2)
    ensures LogGrows(s, s2)
  {
    forall k: nat | |s.log| <= k < |s2.log|
      ensures Recorded(s, s2, s2.log[k])
    {
      if k < |s1.log| {
        assert s2.log[k] == s1.log[k];
        assert Recorded(s, s1, s1.log[k]);
      } else {
        assert Recorded(s1, s2, s2.log[k]);
      }
    }
  }

  lemma EvictsSameUse(s: State, s': State, g: Segment)
    requires EvictsFrom(s, s', g)
    ensures SameUse(s, s')
  {
    forall id | id in s.heaps
      ensures s'.heaps[id].lastUsed == s.heaps[id].lastUsed && s'.heaps[id].locks == s.heaps[id].locks
    {
      assert HeapKept(s, s', g, id);
    }
  }

  lemma TakeHeadGrows(s: State, g: Segment, reached: nat -> nat, s': State)
    requires Cache(s, g) != [] && s' == TakeHead(s, g, reached)
    ensures SameUse(s, s') && LogGrows(s, s')
  {
  }

  lemma {:induction false} TakeHeadsGrows(s: State, g: Segment, k: nat, reached: nat -> nat, s': State)
    requires k <= |Cache(s, g)| && s' == TakeHeads(s, g, k, reached)
    ensures SameUse(s, s') && LogGrows(s, s')
  {
    if k > 0 {
      var s1 := TakeHeads(s, g, k - 1, reached);
      TakeHeadsGrows(s, g, k - 1, reached, s1);
      TakeHeadGrows(s1, g, reached, s');
      GrowsTwice(s, s1, s');
    }
  }

  lemma EvictHeadsGrows(s: State, g: Segment, k: nat, reached: nat -> nat, s': State)
    requires Victims(s, g, k) && s' == EvictHeads(s, g, k, reached)
    ensures LogGrows(s, s')
  {
    var s1, batch := TakeHeads(s, g, k, reached), Cache(s, g)[..k];
    TakeHeadsGrows(s, g, k, reached, s1);
    BatchGrows(s1, batch, s');
    GrowsTwice(s, s1, s');
  }

  lemma BatchGrows(s: State, batch: seq<HeapId>, s': State)
    requires (forall id :: id in batch ==> id in s.heaps) && s' == EvictBatch(s, batch)
    ensures LogGrows(s, s')
  {
    forall k: nat | |s.log| <= k < |s'.log|
      ensures Recorded(s, s', s'.log[k])
    {
      assert s'.log[k] == EvictCall(s, batch[k - |s.log|]);
    }
  }

  // ----- Whole evictions

  /** A whole eviction keeps the invariant, and what it may not touch. */
  lemma EvictOk(s: State, g: Segment, bytes: nat, info: Info, pend: set<HeapId>, reached: nat -> nat, s': State)
    requires InvIn(s, pend, {}) && s' == Evict(s, g, bytes, info, reached).0
    ensures InvIn(s', pend, {}) && EvictsFrom(s, s', g) && LogGrows(s, s')
  {
    if Shortfall(bytes, info) == 0 {
      EvictsNothing(s, g);
    } else {
      var k := VictimsFound(s, g, Shortfall(bytes, info));
      EvictForm(s, g, bytes, info, reached, k);
      EvictHeadsOk(s, g, k, pend, reached, s');
      EvictHeadsGrows(s, g, k, reached, s');
    }
  }

  lemma VictimsFound(s: State, g: Segment, need: nat) returns (k: nat)
    ensures k == VictimCount(s, Cache(s, g), need, 0) && Victims(s, g, k)
  {
    VictimCountMeaning(s, Cache(s, g), need, 0);
    k := VictimCount(s, Cache(s, g), need, 0);
  }

  lemma EvictHeadsOk(s: State, g: Segment, k: nat, pend: set<HeapId>, reached: nat -> nat, s': State)
    requires InvIn(s, pend, {}) && Victims(s, g, k)
    requires s' == EvictHeads(s, g, k, reached)
    ensures InvIn(s', pend, {}) && EvictsFrom(s, s', g)
  {
    var c, s1 := Cache(s, g), TakeHeads(s, g, k, reached);
    TakeHeadsOk(s, g, k, pend, reached, s1);
    TakeHeadsFrame(s, g, k, reached);
    EvictBatchOk(s1, c[..k], pend);
    LogFrame(s, s1, s', g);
  }

  lemma LogFrame(s: State, s1: State, s2: State, g: Segment)
    requires EvictsFrom(s, s1, g) && s2 == s1.(log := s2.log)
    ensures EvictsFrom(s, s2, g)
  {
    forall id | id in s.heaps
      ensures HeapKept(s, s2, g, id)
    {
      assert HeapKept(s, s1, g, id);
    }
  }

  /** The paging attempts: `s1` is the state in which the last attempt was made. */
  lemma {:induction false} RetryOk(s: State, g: Segment, ids: seq<HeapId>, evictSize: nat, env: Env, k: nat,
                                   pend: set<HeapId>) returns (s1: State)
    requires InvIn(s, pend, {})
    ensures InvIn(s1, pend, {}) && EvictsFrom(s, s1, g) && LogGrows(s, s1)
    ensures var (s', ok) := Retry(s, g, ids, evictSize, env, k);
            s' == if ok then s1.(log := s1.log + MakeCalls(ids)) else s1
    decreases |Cache(s, g)|
  {
    if env.succeeds(k) {
      s1 := s;
      EvictsNothing(s, g);
    } else {
      var (s2, evicted) := Evict(s, g, evictSize, env.info(k + 1), env.reached);
      EvictOk(s, g, evictSize, env.info(k + 1), pend, env.reached, s2);
      if evicted.None? || evicted.value == 0 {
        s1 := s2;
      } else {
        s1 := RetryOk(s2, g, ids, evictSize, env, k + 1, pend);
        EvictsTwice(s, s2, s1, g);
        EvictsSameUse(s, s2, g);
        GrowsTwice(s, s2, s1);
      }
    }
  }

  lemma MakeResidentOk(s: State, g: Segment, size: nat, ids: seq<HeapId>, evictSize: nat, env: Env, pend: set<HeapId>)
    returns (s1: State)
    requires InvIn(s, pend, {})
    ensures InvIn(s1, pend, {}) && EvictsFrom(s, s1, g) && LogGrows(s, s1)
    ensures var (s', ok) := MakeResident(s, g, size, ids, evictSize, env);
            s' == if ok then s1.(log := s1.log + MakeCalls(ids)) else s1
  {
    var s0 := Evict(s, g, size, env.info(0), env.reached).0;
    EvictOk(s, g, size, env.info(0), pend, env.reached, s0);
    s1 := RetryOk(s0, g, ids, evictSize, env, 0, pend);
    EvictsTwice(s, s0, s1, g);
    EvictsSameUse(s, s0, g);
    GrowsTwice(s, s0, s1);
  }
}
