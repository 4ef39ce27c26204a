/** The residency manager and its fence as objects that are updated in place:
    src/gpgmm/d3d12/ResidencyManagerD3D12.cpp, FenceD3D12.cpp. Every method is
    proved against the operation of ResidencySpec that it implements. */
module Residency {
  import opened Math
  import opened Options
  import opened ResidencySpec

  class FenceObject {
    var current: nat
    var lastSignaled: nat
    var lastCompleted: nat
    var completed: nat

    ghost function View(): Fence
      reads this
    {
      Fence(current, lastSignaled, lastCompleted, completed)
    }

    constructor (initial: nat)
      ensures View() == Fence(initial + 1, initial, initial, initial)
    {
      completed, lastCompleted, lastSignaled, current := initial, initial, initial, initial + 1;
    }

    method IsCompleted(value: nat) returns (done: bool)
      modifies this
      ensures current == old(current) && lastSignaled == old(lastSignaled) && completed == old(completed)
      ensures lastCompleted == if value <= old(lastCompleted) then old(lastCompleted) else completed
      ensures done == (value <= lastCompleted)
    {
      if value <= lastCompleted {
        return true;
      }
      lastCompleted := completed;
      return value <= lastCompleted;
    }

    /** `waited` tells whether the device had to be asked. */
    method WaitFor(value: nat, reached: nat -> nat) returns (waited: bool)
      modifies this
      ensures forall s: State :: s.fence == old(View()) ==>
        && View() == ResidencySpec.WaitFor(s, value, reached).fence
        && (waited <==> value > s.fence.lastCompleted && value > s.fence.completed)
    {
      var done := IsCompleted(value);
      if !done {
        completed := Max(value, Min(reached(value), lastSignaled));
        lastCompleted := completed;
      }
      return !done;
    }

    method Signal()
      modifies this
      ensures View() == ResidencySpec.Signal(old(View()))
    {
      lastSignaled := current;
      current := current + 1;
    }
  }

  class ResidencyManager {
    var heaps: map<HeapId, Heap>
    var local: seq<HeapId>
    var nonLocal: seq<HeapId>
    const fence: FenceObject
    var stats: Stats
    const evictSize: nat
    ghost var log: seq<Call>

    ghost function View(): State
      reads this, fence
    {
      State(heaps, local, nonLocal, fence.View(), stats, log)
    }

    constructor (fence: FenceObject, evictSize: nat)
      ensures this.fence == fence && this.evictSize == evictSize
      ensures View() == State(map[], [], [], fence.View(), Stats(0, 0), [])
    {
      this.fence, this.evictSize := fence, evictSize;
      heaps, local, nonLocal, stats, log := map[], [], [], Stats(0, 0), [];
    }

    // ----- The caches

    function CacheOf(g: Segment): seq<HeapId>
      reads this
    {
      if g == Local then local else nonLocal
    }

    predicate IsInList(id: HeapId)
      reads this
    {
      id in local || id in nonLocal
    }

    method SetCache(g: Segment, c: seq<HeapId>)
      modifies this
      ensures View() == WithCache(old(View()), g, c)
    {
      if g == Local { local := c; } else { nonLocal := c; }
    }

    method SetHeap(id: HeapId, h: Heap)
      modifies this
      ensures View() == old(View()).(heaps := old(heaps)[id := h])
    {
      heaps := heaps[id := h];
    }

    method RemoveFromList(id: HeapId)
      modifies this
      ensures View() == Unlink(old(View()), id)
    {
      local, nonLocal := Without(local, id), Without(nonLocal, id);
    }

    method InsertHeapInternal(id: HeapId) returns (ok: bool)
      requires id in heaps
      modifies this
      ensures ok <==> !InCache(old(View()), id)
      ensures View() == if ok then Insert(old(View()), id) else old(View())
    {
      if IsInList(id) {
        return false;
      }
      SetCache(heaps[id].segment, CacheOf(heaps[id].segment) + [id]);
      return true;
    }

    /** A heap enters the cache on creation unless its status is unknown. */
    method CreateHeap(id: HeapId, size: nat, g: Segment, status: Status)
      requires id !in heaps && !IsInList(id)
      modifies this
      ensures View() == ResidencySpec.CreateHeap(old(View()), id, size, g, status)
    {
      heaps := heaps[id := Heap(size, g, 0, 0, status)];
      log := log + [Created(id, status == Resident)];
      if status != Unknown {
        var ok := InsertHeapInternal(id);
      }
    }

    method DestroyHeap(id: HeapId)
      modifies this
      ensures View() == ResidencySpec.DestroyHeap(old(View()), id)
    {
      RemoveFromList(id);
      heaps := heaps - {id};
    }

    method WaitFor(value: nat, reached: nat -> nat)
      modifies this, fence
      ensures View() == ResidencySpec.WaitFor(old(View()), value, reached)
    {
      ghost var s := View();
      var waited := fence.WaitFor(value, reached);
      if waited {
        log := log + [Waited(value, fence.lastSignaled)];
      }
      assert fence.View() == ResidencySpec.WaitFor(s, value, reached).fence;
    }

    // ----- Eviction

    method TakeHead(g: Segment, reached: nat -> nat)
      requires CacheOf(g) != [] && CacheOf(g)[0] in heaps
      modifies this, fence
      ensures View() == ResidencySpec.TakeHead(old(View()), g, reached)
    {
      var id := CacheOf(g)[0];
      SetCache(g, CacheOf(g)[1..]);
      var h := heaps[id];
      SetHeap(id, h.(status := Pending));
      WaitFor(h.lastUsed, reached);
    }

    /** The source's loop, for a need that is known to be positive. */
    method EvictLoop(g: Segment, need: nat, reached: nat -> nat) returns (bytesEvicted: nat)
      modifies this, fence
      ensures var s := old(View()); var k := VictimCount(s, Cache(s, g), need, 0);
              View() == EvictHeads(s, g, k, reached) && bytesEvicted == PrefixSize(s, Cache(s, g), k)
    {
      var batch: seq<HeapId>;
      bytesEvicted, batch := TakeVictims(g, need, reached);
      EvictFromDevice(batch);
    }

    method TakeVictims(g: Segment, need: nat, reached: nat -> nat) returns (bytesEvicted: nat, batch: seq<HeapId>)
      modifies this, fence
      ensures var s := old(View());
              Taken(s, g, need, reached, VictimCount(s, Cache(s, g), need, 0), View(), bytesEvicted, batch)
    {
      ghost var s, v := View(), View();
      ghost var k: nat := 0;
      bytesEvicted, batch := 0, [];
      while bytesEvicted < need
        invariant v == View() && Taken(s, g, need, reached, k, v, bytesEvicted, batch)
        decreases |Cache(s, g)| - k
      {
        if CacheOf(g) == [] {
          break;
        }
        var id := CacheOf(g)[0];
        if id !in heaps || heaps[id].lastUsed == fence.current {
          break;
        }
        NextVictim(s, g, need, reached, k, v, bytesEvicted, batch);
        bytesEvicted := bytesEvicted + heaps[id].size;
        batch := batch + [id];
        TakeHead(g, reached);
        k, v := k + 1, View();
      }
      LastVictim(s, g, need, reached, k, v, bytesEvicted, batch);
    }

    /** The device evicts the whole batch in one call. */
    method EvictFromDevice(batch: seq<HeapId>)
      modifies this
      ensures View() == EvictBatch(old(View()), batch)
    {
      ghost var s := View();
      log := log + seq(|batch|, i requires 0 <= i < |batch| => EvictCall(s, batch[i]));
    }

    method EvictInternal(bytes: nat, g: Segment, info: Info, reached: nat -> nat) returns (evicted: Option<nat>)
      modifies this, fence
      ensures (View(), evicted) == Evict(old(View()), g, bytes, info, reached)
    {
      if info.budget == 0 {
        return None;
      }
      if bytes + info.usage < info.budget {
        return None;
      }
      var need := bytes + info.usage - info.budget;
      if need == 0 {
        return None;
      }
      ghost var s := View();
      var n := EvictLoop(g, need, reached);
      EvictForm(s, g, bytes, info, reached, VictimCount(s, Cache(s, g), need, 0));
      return Some(n);
    }

    method EnsureInBudget(bytes: nat, g: Segment, env: Env) returns (r: Outcome)
      modifies this, fence
      ensures (View(), r) == ResidencySpec.EnsureInBudget(old(View()), g, bytes, env)
    {
      var evicted := EvictInternal(bytes, g, env.info(0), env.reached);
      var bytesEvicted := if evicted.None? then bytes else evicted.value;
      return if bytesEvicted >= bytes then OK else Fail;
    }

    // ----- Making resident

    method MakeResident(g: Segment, size: nat, ids: seq<HeapId>, env: Env) returns (ok: bool)
      modifies this, fence
      ensures (View(), ok) == ResidencySpec.MakeResident(old(View()), g, size, ids, evictSize, env)
    {
      var ignored := EvictInternal(size, g, env.info(0), env.reached);
      ghost var result := Retry(View(), g, ids, evictSize, env, 0);
      var k: nat := 0;
      while !env.succeeds(k)
        invariant Retry(View(), g, ids, evictSize, env, k) == result
        decreases |Cache(View(), g)|
      {
        var evicted := EvictInternal(evictSize, g, env.info(k + 1), env.reached);
        if evicted.None? || evicted.value == 0 {
          return false;
        }
        k := k + 1;
      }
      log := log + MakeCalls(ids);
      return true;
    }

    method LockHeap(id: HeapId, env: Env) returns (r: Outcome)
      requires id in heaps
      modifies this, fence
      ensures (View(), r) == ResidencySpec.LockHeap(old(View()), id, evictSize, env)
    {
      if !IsInList(id) && heaps[id].locks == 0 {
        var ok := PageInForLock(id, env);
        if !ok {
          return OutOfMemory;
        }
      } else if IsInList(id) {
        Untrack(id);
      }
      SetHeap(id, heaps[id].(locks := heaps[id].locks + 1));
      return OK;
    }

    method PageInForLock(id: HeapId, env: Env) returns (ok: bool)
      requires id in heaps
      modifies this, fence
      ensures (View(), ok) == ResidencySpec.PageInForLock(old(View()), id, evictSize, env)
    {
      var h := heaps[id];
      ok := MakeResident(h.segment, h.size, [id], env);
      ok := ok && id in heaps;
      if ok {
        SetHeap(id, heaps[id].(status := Resident));
        stats := Stats(stats.count + 1, stats.usage + h.size);
      }
    }

    method Untrack(id: HeapId)
      requires id in heaps
      modifies this
      ensures View() == ResidencySpec.Untrack(old(View()), id)
    {
      RemoveFromList(id);
      if heaps[id].status == Resident {
        stats := Stats(stats.count + 1, stats.usage + heaps[id].size);
      }
    }

    method UnlockHeap(id: HeapId) returns (r: Outcome)
      requires id in heaps
      modifies this
      ensures (View(), r) == ResidencySpec.UnlockHeap(old(View()), id)
    {
      var h := heaps[id];
      if h.locks == 0 {
        return Fail;
      }
      if IsInList(id) {
        return Fail;
      }
      SetHeap(id, h.(locks := h.locks - 1));
      if h.locks > 1 {
        return OK;
      }
      log := log + [Unlocked(id, fence.completed)];
      var ok := InsertHeapInternal(id);
      stats := Stats(stats.count - 1, stats.usage - h.size);
      return OK;
    }

    // ----- Submissions

    method Touch(id: HeapId) returns (wasCached: bool)
      requires id in heaps
      modifies this
      ensures wasCached == InCache(old(View()), id)
      ensures View() == ResidencySpec.Touch(old(View()), id)
    {
      wasCached := IsInList(id);
      WithoutAbsent(local, id);
      WithoutAbsent(nonLocal, id);
      if wasCached {
        RemoveFromList(id);
      }
      SetHeap(id, heaps[id].(lastUsed := fence.current));
      var ok := InsertHeapInternal(id);
    }

    /** The first loop: which heaps to page in, and their total size. */
    method CollectHeaps(ids: seq<HeapId>)
      returns (localIds: seq<HeapId>, nonLocalIds: seq<HeapId>, touched: seq<HeapId>, localSize: nat, nonLocalSize: nat)
      requires forall id :: id in ids ==> id in heaps
      modifies this
      ensures Plan(View(), localIds, nonLocalIds, touched) == Collect(Plan(old(View()), [], [], []), ids)
      ensures localSize == SizeOf(View(), localIds) && nonLocalSize == SizeOf(View(), nonLocalIds)
    {
      ghost var r := Collect(Plan(View(), [], [], []), ids);
      localIds, nonLocalIds, touched, localSize, nonLocalSize := [], [], [], 0, 0;
      for i := 0 to |ids|
        invariant forall id :: id in ids ==> id in heaps
        invariant Collect(Plan(View(), localIds, nonLocalIds, touched), ids[i..]) == r
        invariant localSize == SizeOf(View(), localIds) && nonLocalSize == SizeOf(View(), nonLocalIds)
      {
        localIds, nonLocalIds, touched, localSize, nonLocalSize :=
          CollectHeap(ids[i], localIds, nonLocalIds, touched, localSize, nonLocalSize);
        assert ids[i..][1..] == ids[i + 1..];
      }
    }

    /** One round of that loop. */
    method CollectHeap(id: HeapId, l: seq<HeapId>, n: seq<HeapId>, t: seq<HeapId>, ls: nat, ns: nat)
      returns (localIds: seq<HeapId>, nonLocalIds: seq<HeapId>, touched: seq<HeapId>, localSize: nat, nonLocalSize: nat)
      requires id in heaps && ls == SizeOf(View(), l) && ns == SizeOf(View(), n)
      modifies this
      ensures Plan(View(), localIds, nonLocalIds, touched) == CollectOne(Plan(old(View()), l, n, t), id)
      ensures localSize == SizeOf(View(), localIds) && nonLocalSize == SizeOf(View(), nonLocalIds)
      ensures heaps.Keys == old(heaps).Keys
    {
      localIds, nonLocalIds, touched, localSize, nonLocalSize := l, n, t, ls, ns;
      if heaps[id].locks > 0 {
        return;
      }
      if heaps[id].lastUsed == fence.current {
        return;
      }
      ghost var s := View();
      var h := heaps[id];
      var wasCached := Touch(id);
      SizeOfSame(s, View(), l);
      SizeOfSame(s, View(), n);
      if !wasCached {
        if h.segment == Local {
          SizeOfSnoc(View(), l, id);
          localSize, localIds := ls + h.size, l + [id];
        } else {
          SizeOfSnoc(View(), n, id);
          nonLocalSize, nonLocalIds := ns + h.size, n + [id];
        }
      }
      touched := t + [id];
    }

    method PageIn(localIds: seq<HeapId>, nonLocalIds: seq<HeapId>, localSize: nat, nonLocalSize: nat, env: Env)
      returns (ok: bool)
      requires localSize == SizeOf(View(), localIds) && nonLocalSize == SizeOf(View(), nonLocalIds)
      modifies this, fence
      ensures (View(), ok) == ResidencySpec.PageIn(Plan(old(View()), localIds, nonLocalIds, []), evictSize, env)
    {
      if localSize > 0 {
        ok := MakeResident(Local, localSize, localIds, env);
      } else if nonLocalSize > 0 {
        ok := MakeResident(NonLocal, nonLocalSize, nonLocalIds, env);
      } else {
        ok := true;
      }
    }

    method MarkAllResident(touched: seq<HeapId>)
      modifies this
      ensures View() == MarkResident(old(View()), touched)
    {
      ghost var r := MarkResident(View(), touched);
      for i := 0 to |touched|
        invariant MarkResident(View(), touched[i..]) == r
      {
        if touched[i] in heaps {
          SetHeap(touched[i], heaps[touched[i]].(status := Resident));
        }
        assert touched[i..][1..] == touched[i + 1..];
      }
    }

    method ExecuteCommandLists(lists: seq<seq<HeapId>>, signal: bool, env: Env) returns (r: Outcome)
      requires forall l, id :: l in lists && id in l ==> id in heaps
      modifies this, fence
      ensures (View(), r) == ExecuteLists(old(View()), lists, signal, evictSize, env)
    {
      if |lists| == 0 {
        return InvalidArg;
      }
      if |lists| > 1 {
        return NotImplemented;
      }
      r := ExecuteList(lists[0], signal, env);
    }

    method ExecuteList(ids: seq<HeapId>, signal: bool, env: Env) returns (r: Outcome)
      requires forall id :: id in ids ==> id in heaps
      modifies this, fence
      ensures (View(), r) == Execute(old(View()), ids, signal, evictSize, env)
    {
      ghost var submission := ExecutedCall(View(), ids);
      var localIds, nonLocalIds, touched, localSize, nonLocalSize := CollectHeaps(ids);
      var ok := PageIn(localIds, nonLocalIds, localSize, nonLocalSize, env);
      if !ok {
        return OutOfMemory;
      }
      MarkAllResident(touched);
      if signal {
        fence.Signal();
        log := log + [submission];
      }
      return OK;
    }

    // ----- Statistics

    method GetStats() returns (info: Stats)
      ensures info == ResidencySpec.GetStats(View())
    {
      info := stats;
      for i := 0 to |local|
        invariant var c := CacheStats(View(), local, i); info == Stats(stats.count + c.count, stats.usage + c.usage)
      {
        if local[i] in heaps && heaps[local[i]].status == Resident {
          info := Stats(info.count + 1, info.usage + heaps[local[i]].size);
        }
      }
      var base := info;
      for i := 0 to |nonLocal|
        invariant var c := CacheStats(View(), nonLocal, i); info == Stats(base.count + c.count, base.usage + c.usage)
      {
        if nonLocal[i] in heaps && heaps[nonLocal[i]].status == Resident {
          info := Stats(info.count + 1, info.usage + heaps[nonLocal[i]].size);
        }
      }
    }
  }

  lemma {:induction false} SizeOfSame(s: State, s': State, ids: seq<HeapId>)
    requires s'.heaps.Keys == s.heaps.Keys && forall id :: id in s.heaps ==> s'.heaps[id].size == s.heaps[id].size
    ensures SizeOf(s', ids) == SizeOf(s, ids)
  {
    if ids != [] {
      SizeOfSame(s, s', ids[1..]);
    }
  }

  lemma {:induction false} SizeOfSnoc(s: State, ids: seq<HeapId>, id: HeapId)
    requires id in s.heaps
    ensures SizeOf(s, ids + [id]) == SizeOf(s, ids) + s.heaps[id].size
  {
    if ids != [] {
      SizeOfSnoc(s, ids[1..], id);
      assert (ids + [id])[1..] == ids[1..] + [id];
    }
  }

  /** Taking heads out leaves sizes, fence values and the current fence alone. */
  lemma {:induction false} TakeHeadsKeep(s: State, g: Segment, k: nat, reached: nat -> nat, r: State)
    requires k <= |Cache(s, g)| && r == TakeHeads(s, g, k, reached)
    ensures r.fence.current == s.fence.current && r.heaps.Keys == s.heaps.Keys
    ensures forall id {:trigger r.heaps[id]} ::
            id in s.heaps ==> r.heaps[id] == s.heaps[id].(status := r.heaps[id].status)
  {
    if k > 0 {
      var r1 := TakeHeads(s, g, k - 1, reached);
      TakeHeadsKeep(s, g, k - 1, reached, r1);
      TakeHeadKeeps(r1, g, reached, r);
    }
  }

  lemma TakeHeadKeeps(s: State, g: Segment, reached: nat -> nat, r: State)
    requires Cache(s, g) != [] && r == ResidencySpec.TakeHead(s, g, reached)
    ensures r.fence.current == s.fence.current && r.heaps.Keys == s.heaps.Keys
    ensures forall id {:trigger r.heaps[id]} ::
            id in s.heaps ==> r.heaps[id] == s.heaps[id].(status := r.heaps[id].status)
  {
  }

  /** The eviction loop after `k` heaps: `v` is its state. */
  ghost predicate Taken(s: State, g: Segment, need: nat, reached: nat -> nat,
                        k: nat, v: State, bytes: nat, batch: seq<HeapId>) {
    && k <= |Cache(s, g)| && v == TakeHeads(s, g, k, reached) && batch == Cache(s, g)[..k]
    && bytes == PrefixSize(s, Cache(s, g), k) &&
       VictimCount(s, Cache(s, g), need, k) == VictimCount(s, Cache(s, g), need, 0)
  }

  /** The loop's tests on the current state. */
  predicate NoVictim(v: State, g: Segment, need: nat, bytes: nat) {
    bytes >= need || Cache(v, g) == [] || Cache(v, g)[0] !in v.heaps ||
    v.heaps[Cache(v, g)[0]].lastUsed == v.fence.current
  }

  lemma LastVictim(s: State, g: Segment, need: nat, reached: nat -> nat,
                   k: nat, v: State, bytes: nat, batch: seq<HeapId>)
    requires Taken(s, g, need, reached, k, v, bytes, batch) && NoVictim(v, g, need, bytes)
    ensures k == VictimCount(s, Cache(s, g), need, 0)
  {
    TakeHeadsKeep(s, g, k, reached, v);
  }

  lemma NextVictim(s: State, g: Segment, need: nat, reached: nat -> nat,
                   k: nat, v: State, bytes: nat, batch: seq<HeapId>)
    requires Taken(s, g, need, reached, k, v, bytes, batch) && !NoVictim(v, g, need, bytes)
    ensures var id := Cache(v, g)[0];
            && k < |Cache(s, g)|
            && Taken(s, g, need, reached, k + 1, ResidencySpec.TakeHead(v, g, reached),
                     bytes + v.heaps[id].size, batch + [id])
  {
    var c := Cache(s, g);
    TakeHeadsKeep(s, g, k, reached, v);
    assert c[..k + 1] == c[..k] + [c[k]];
  }
}
