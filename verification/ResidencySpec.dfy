/** State and operations of the residency manager as values:
    src/gpgmm/d3d12/ResidencyManagerD3D12.cpp, HeapD3D12.cpp and FenceD3D12.cpp.

    The device is an environment: it may fail any MakeResident call, the GPU
    advances its fence as it likes, and the adapter reports any budget and
    usage. Every call made to the device is recorded in a log. */
module ResidencySpec {
  import opened Math
  import opened Options

  type HeapId = nat

  datatype Segment = Local | NonLocal

  datatype Status = Unknown | Pending | Resident

  datatype Heap = Heap(size: nat, segment: Segment, locks: nat, lastUsed: nat, status: Status)

  /** `completed` is the value the GPU has reached; `lastCompleted` caches it. */
  datatype Fence = Fence(current: nat, lastSignaled: nat, lastCompleted: nat, completed: nat)

  datatype Info = Info(budget: nat, usage: nat)

  datatype Stats = Stats(count: int, usage: int)

  /** Calls to the device, with what was true when they were made; submissions,
      with the fence value signaled for them, the heaps listed and those of them
      that were not locked; and the heaps whose last lock was dropped. */
  datatype Call =
    | Created(id: HeapId, resident: bool)
    | MadeResident(id: HeapId)
    | Evicted(id: HeapId, locks: nat, lastUsed: nat, completed: nat)
    | Waited(value: nat, signaled: nat)
    | Executed(value: nat, listed: set<HeapId>, unlocked: set<HeapId>)
    | Unlocked(id: HeapId, completed: nat)

  datatype State = State(
    heaps: map<HeapId, Heap>,
    local: seq<HeapId>,
    nonLocal: seq<HeapId>,
    fence: Fence,
    stats: Stats,
    log: seq<Call>)

  /** What the environment does during one call: the budget and usage seen by
      the k-th eviction, the outcome of the k-th MakeResident attempt, and how
      far the GPU gets while a fence value is waited for. */
  datatype Env = Env(info: nat -> Info, succeeds: nat -> bool, reached: nat -> nat)

  function Cache(s: State, g: Segment): seq<HeapId> {
    if g == Local then s.local else s.nonLocal
  }

  function WithCache(s: State, g: Segment, c: seq<HeapId>): State {
    if g == Local then s.(local := c) else s.(nonLocal := c)
  }

  predicate InCache(s: State, id: HeapId) {
    id in s.local || id in s.nonLocal
  }

  function Without(c: seq<HeapId>, id: HeapId): seq<HeapId> {
    if c == [] then [] else if c[0] == id then Without(c[1..], id) else [c[0]] + Without(c[1..], id)
  }

  lemma {:induction false} WithoutAbsent(c: seq<HeapId>, id: HeapId)
    ensures id !in Without(c, id) && (id !in c ==> Without(c, id) == c)
  {
    if c != [] {
      WithoutAbsent(c[1..], id);
    }
  }

  /** Unlinks a heap from the cache it is in. */
  function Unlink(s: State, id: HeapId): State {
    s.(local := Without(s.local, id), nonLocal := Without(s.nonLocal, id))
  }

  /** Links a heap at the most recently used end of its cache. */
  function Insert(s: State, id: HeapId): State
    requires id in s.heaps
  {
    WithCache(s, s.heaps[id].segment, Cache(s, s.heaps[id].segment) + [id])
  }

  // ----- Fence

  /** Waits until the GPU has reached `value`, asking the device only if needed. */
  function WaitFor(s: State, value: nat, reached: nat -> nat): State {
    if value <= s.fence.lastCompleted then s
    else if value <= s.fence.completed then s.(fence := s.fence.(lastCompleted := s.fence.completed))
    else
      var c := Max(value, Min(reached(value), s.fence.lastSignaled));
      s.(fence := s.fence.(lastCompleted := c, completed := c), log := s.log + [Waited(value, s.fence.lastSignaled)])
  }

  function Signal(f: Fence): Fence {
    f.(lastSignaled := f.current, current := f.current + 1)
  }

  // ----- Eviction

  function SetStatus(s: State, id: HeapId, status: Status): State
    requires id in s.heaps
  {
    s.(heaps := s.heaps[id := s.heaps[id].(status := status)])
  }

  /** Takes the least recently used heap of `g` out of the cache. */
  function TakeHead(s: State, g: Segment, reached: nat -> nat): State
    requires Cache(s, g) != []
  {
    var id := Cache(s, g)[0];
    var s1 := WithCache(s, g, Cache(s, g)[1..]);
    if id in s.heaps then WaitFor(SetStatus(s1, id, Pending), s.heaps[id].lastUsed, reached) else s1
  }

  /** Bytes of the first `k` heaps of a cache. */
  function PrefixSize(s: State, c: seq<HeapId>, k: nat): nat
    requires k <= |c|
  {
    if k == 0 then 0 else PrefixSize(s, c, k - 1) + (if c[k - 1] in s.heaps then s.heaps[c[k - 1]].size else 0)
  }

  /** The loop ends when enough is evicted, the cache is empty, or its least
      recently used heap belongs to the submission being prepared. */
  predicate EvictionStops(s: State, c: seq<HeapId>, need: nat, k: nat)
    requires k <= |c|
  {
    PrefixSize(s, c, k) >= need || k == |c| || c[k] !in s.heaps || s.heaps[c[k]].lastUsed == s.fence.current
  }

  /** How many heaps the loop takes out, having taken `k`. */
  function VictimCount(s: State, c: seq<HeapId>, need: nat, k: nat): (n: nat)
    requires k <= |c|
    ensures k <= n <= |c|
    decreases |c| - k
  {
    if EvictionStops(s, c, need, k) then k else VictimCount(s, c, need, k + 1)
  }

  /** The state after taking out the `k` least recently used heaps. */
  function TakeHeads(s: State, g: Segment, k: nat, reached: nat -> nat): (r: State)
    requires k <= |Cache(s, g)|
    ensures Cache(r, g) == Cache(s, g)[k..] && r.heaps.Keys == s.heaps.Keys
  {
    if k == 0 then s else TakeHead(TakeHeads(s, g, k - 1, reached), g, reached)
  }

  function EvictCall(s: State, id: HeapId): Call {
    if id in s.heaps then Evicted(id, s.heaps[id].locks, s.heaps[id].lastUsed, s.fence.completed)
    else Evicted(id, 0, 0, 0)
  }

  /** One device call that evicts all heaps of the batch. */
  function EvictBatch(s: State, batch: seq<HeapId>): State {
    s.(log := s.log + seq(|batch|, i requires 0 <= i < |batch| => EvictCall(s, batch[i])))
  }

  /** Takes out the `k` least recently used heaps and hands them to the device. */
  function EvictHeads(s: State, g: Segment, k: nat, reached: nat -> nat): (r: State)
    requires k <= |Cache(s, g)|
    ensures Cache(r, g) == Cache(s, g)[k..]
  {
    EvictBatch(TakeHeads(s, g, k, reached), Cache(s, g)[..k])
  }

  /** Bytes that must leave the cache for `bytes` more to fit the budget. */
  function Shortfall(bytes: nat, info: Info): nat {
    if info.budget == 0 || bytes + info.usage <= info.budget then 0 else bytes + info.usage - info.budget
  }

  /** Evicts until `bytes` more fit the budget. The second result is the number
      of bytes evicted, or None where the source leaves its out-parameter alone. */
  function Evict(s: State, g: Segment, bytes: nat, info: Info, reached: nat -> nat): (r: (State, Option<nat>))
    ensures |Cache(r.0, g)| <= |Cache(s, g)|
    ensures r.1.Some? && r.1.value > 0 ==> |Cache(r.0, g)| < |Cache(s, g)|
  {
    if info.budget == 0 then (s, None)
    else if bytes + info.usage < info.budget then (s, None)
    else if bytes + info.usage - info.budget == 0 then (s, None)
    else
      var c := Cache(s, g);
      var k := VictimCount(s, c, bytes + info.usage - info.budget, 0);
      (EvictHeads(s, g, k, reached), Some(PrefixSize(s, c, k)))
  }

  /** An eviction takes out some number of heads and hands them to the device. */
  lemma EvictForm(s: State, g: Segment, bytes: nat, info: Info, reached: nat -> nat, k: nat)
    requires Shortfall(bytes, info) > 0 && k == VictimCount(s, Cache(s, g), Shortfall(bytes, info), 0)
    ensures Evict(s, g, bytes, info, reached) == (EvictHeads(s, g, k, reached), Some(PrefixSize(s, Cache(s, g), k)))
  {
  }

  // ----- Making resident

  function MakeCalls(ids: seq<HeapId>): seq<Call> {
    seq(|ids|, i requires 0 <= i < |ids| => MadeResident(ids[i]))
  }

  /** Attempts `k`, `k + 1`, ... to page `ids` in, evicting `evictSize` bytes
      after each failure, until one succeeds or nothing is left to evict. */
  function Retry(s: State, g: Segment, ids: seq<HeapId>, evictSize: nat, env: Env, k: nat): (State, bool)
    decreases |Cache(s, g)|
  {
    if env.succeeds(k) then (s.(log := s.log + MakeCalls(ids)), true)
    else
      var (s1, evicted) := Evict(s, g, evictSize, env.info(k + 1), env.reached);
      if evicted.None? || evicted.value == 0 then (s1, false)
      else Retry(s1, g, ids, evictSize, env, k + 1)
  }

  function MakeResident(s: State, g: Segment, size: nat, ids: seq<HeapId>, evictSize: nat, env: Env): (State, bool) {
    Retry(Evict(s, g, size, env.info(0), env.reached).0, g, ids, evictSize, env, 0)
  }

  // ----- Operations

  datatype Outcome = OK | InvalidArg | NotImplemented | Fail | OutOfMemory

  function AddStats(s: State, count: int, usage: int): State {
    s.(stats := Stats(s.stats.count + count, s.stats.usage + usage))
  }

  function AddLock(s: State, id: HeapId): State
    requires id in s.heaps
  {
    s.(heaps := s.heaps[id := s.heaps[id].(locks := s.heaps[id].locks + 1)])
  }

  /** A new heap; resident and unresident heaps enter the cache, others do not. */
  function CreateHeap(s: State, id: HeapId, size: nat, g: Segment, status: Status): State
    requires id !in s.heaps
  {
    var s1 := s.(heaps := s.heaps[id := Heap(size, g, 0, 0, status)], log := s.log + [Created(id, status == Resident)]);
    if status == Unknown then s1 else Insert(s1, id)
  }

  function DestroyHeap(s: State, id: HeapId): State {
    Unlink(s, id).(heaps := s.heaps - {id})
  }

  /** Pages in a heap that is neither cached nor locked and accounts for it. */
  function PageInForLock(s: State, id: HeapId, evictSize: nat, env: Env): (r: (State, bool))
    requires id in s.heaps
    ensures r.1 ==> id in r.0.heaps
  {
    var h := s.heaps[id];
    var (s1, ok) := MakeResident(s, h.segment, h.size, [id], evictSize, env);
    if !ok || id !in s1.heaps then (s1, false)
    else (AddStats(SetStatus(s1, id, Resident), 1, h.size), true)
  }

  /** A heap that leaves the cache to be locked is accounted for if it is resident. */
  function Untrack(s: State, id: HeapId): State
    requires id in s.heaps
  {
    if s.heaps[id].status == Resident then AddStats(Unlink(s, id), 1, s.heaps[id].size) else Unlink(s, id)
  }

  function LockHeap(s: State, id: HeapId, evictSize: nat, env: Env): (State, Outcome)
    requires id in s.heaps
  {
    if !InCache(s, id) && s.heaps[id].locks == 0 then
      var (s1, ok) := PageInForLock(s, id, evictSize, env);
      if ok then (AddLock(s1, id), OK) else (s1, OutOfMemory)
    else if InCache(s, id) then (AddLock(Untrack(s, id), id), OK)
    else (AddLock(s, id), OK)
  }

  function UnlockHeap(s: State, id: HeapId): (State, Outcome)
    requires id in s.heaps
  {
    var h := s.heaps[id];
    if h.locks == 0 || InCache(s, id) then (s, Fail)
    else
      var s1 := s.(heaps := s.heaps[id := h.(locks := h.locks - 1)]);
      if h.locks > 1 then (s1, OK)
      else (AddStats(Insert(s1.(log := s1.log + [Unlocked(id, s1.fence.completed)]), id), -1, 0 - h.size), OK)
  }

  /** What the first loop of a submission has collected: the state, the heaps of
      each segment to page in, and all heaps it has touched. */
  datatype Plan = Plan(s: State, local: seq<HeapId>, nonLocal: seq<HeapId>, touched: seq<HeapId>)

  /** Moves a heap to the end of its cache and marks it as used by the current submission. */
  function Touch(s: State, id: HeapId): State
    requires id in s.heaps
  {
    Insert(Unlink(s, id).(heaps := s.heaps[id := s.heaps[id].(lastUsed := s.fence.current)]), id)
  }

  function CollectOne(p: Plan, id: HeapId): Plan
    requires id in p.s.heaps
  {
    var h := p.s.heaps[id];
    if h.locks > 0 || h.lastUsed == p.s.fence.current then p
    else
      var p1 := p.(s := Touch(p.s, id), touched := p.touched + [id]);
      if InCache(p.s, id) then p1
      else if h.segment == Local then p1.(local := p.local + [id])
      else p1.(nonLocal := p.nonLocal + [id])
  }

  function Collect(p: Plan, ids: seq<HeapId>): Plan
    requires forall id :: id in ids ==> id in p.s.heaps
    decreases |ids|
  {
    if ids == [] then p else Collect(CollectOne(p, ids[0]), ids[1..])
  }

  function SizeOf(s: State, ids: seq<HeapId>): nat {
    if ids == [] then 0 else (if ids[0] in s.heaps then s.heaps[ids[0]].size else 0) + SizeOf(s, ids[1..])
  }

  function MarkResident(s: State, ids: seq<HeapId>): State
    decreases |ids|
  {
    if ids == [] then s
    else MarkResident(if ids[0] in s.heaps then SetStatus(s, ids[0], Resident) else s, ids[1..])
  }

  function PageIn(p: Plan, evictSize: nat, env: Env): (State, bool) {
    var localSize, nonLocalSize := SizeOf(p.s, p.local), SizeOf(p.s, p.nonLocal);
    if localSize > 0 then MakeResident(p.s, Local, localSize, p.local, evictSize, env)
    else if nonLocalSize > 0 then MakeResident(p.s, NonLocal, nonLocalSize, p.nonLocal, evictSize, env)
    else (p.s, true)
  }

  /** The record of a submission of `ids` prepared in state `s`. */
  function ExecutedCall(s: State, ids: seq<HeapId>): Call
    requires forall id :: id in ids ==> id in s.heaps
  {
    Executed(s.fence.current, set id | id in ids, set id | id in ids && s.heaps[id].locks == 0)
  }

  /** The queue executes the commands and signals the current fence value. */
  function SignalFor(s: State, c: Call): State { s.(fence := Signal(s.fence), log := s.log + [c]) }

  /** One submission. Only one segment is paged in, the local one if it needs any. */
  function Execute(s: State, ids: seq<HeapId>, signal: bool, evictSize: nat, env: Env): (State, Outcome)
    requires forall id :: id in ids ==> id in s.heaps
  {
    var p := Collect(Plan(s, [], [], []), ids);
    var (s1, ok) := PageIn(p, evictSize, env);
    if !ok then (s1, OutOfMemory)
    else
      var s2 := MarkResident(s1, p.touched);
      (if signal then SignalFor(s2, ExecutedCall(s, ids)) else s2, OK)
  }

  /** A submission takes exactly one residency list; others are rejected before anything happens. */
  function ExecuteLists(s: State, lists: seq<seq<HeapId>>, signal: bool, evictSize: nat, env: Env): (State, Outcome)
    requires forall l, id :: l in lists && id in l ==> id in s.heaps
  {
    if |lists| == 0 then (s, InvalidArg)
    else if |lists| > 1 then (s, NotImplemented)
    else Execute(s, lists[0], signal, evictSize, env)
  }

  /** Makes room for `bytes` more, before creating a heap. */
  function EnsureInBudget(s: State, g: Segment, bytes: nat, env: Env): (State, Outcome) {
    var (s1, evicted) := Evict(s, g, bytes, env.info(0), env.reached);
    (s1, if evicted.None? || evicted.value >= bytes then OK else Fail)
  }

  /** Count and bytes of the resident heaps among the first `k` of a cache. */
  function CacheStats(s: State, c: seq<HeapId>, k: nat): Stats
    requires k <= |c|
  {
    if k == 0 then Stats(0, 0)
    else
      var r := CacheStats(s, c, k - 1);
      if c[k - 1] in s.heaps && s.heaps[c[k - 1]].status == Resident
      then Stats(r.count + 1, r.usage + s.heaps[c[k - 1]].size) else r
  }

  /** Locked heaps are accounted in `stats`, cached ones are added here. */
  function GetStats(s: State): Stats {
    var l, n := CacheStats(s, s.local, |s.local|), CacheStats(s, s.nonLocal, |s.nonLocal|);
    Stats(s.stats.count + l.count + n.count, s.stats.usage + l.usage + n.usage)
  }
}
