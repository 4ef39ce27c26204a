/** What the residency manager guarantees: how much an eviction takes, what the
    statistics report, and safety over every run. */
module ResidencyTheorems {
  import opened Sets
  import opened Options
  import opened ResidencySpec
  import opened ResidencyInvariant
  import opened ResidencyOperations
  import opened ResidencySubmission

  // ----- How much is evicted

  /** Eviction removes a prefix of the LRU order: the shortest one that covers the
      shortfall, unless the cache runs empty or a heap of the current submission is met. */
  lemma EvictsShortestPrefix(s: State, g: Segment, bytes: nat, info: Info, reached: nat -> nat,
                             s': State, evicted: Option<nat>) returns (k: nat)
    requires CacheOk(s, g) && (s', evicted) == Evict(s, g, bytes, info, reached)
    ensures k <= |Cache(s, g)| && Cache(s', g) == Cache(s, g)[k..]
    ensures evicted == if Shortfall(bytes, info) > 0 then Some(PrefixSize(s, Cache(s, g), k)) else None
    ensures ShortestPrefix(s, g, Shortfall(bytes, info), k)
  {
    var need := Shortfall(bytes, info);
    if need > 0 {
      k := VictimCount(s, Cache(s, g), need, 0);
      VictimsNeeded(s, g, need, k);
      EvictForm(s, g, bytes, info, reached, k);
    } else {
      k := 0;
    }
  }

  /** No shorter prefix of the LRU order covers `need`, and this one falls short
      only because it is the whole cache or ends before a heap in use. */
  ghost predicate ShortestPrefix(s: State, g: Segment, need: nat, k: nat)
    requires k <= |Cache(s, g)|
  {
    var c := Cache(s, g);
    && (forall i: nat :: i < k ==> PrefixSize(s, c, i) < need)
    && (PrefixSize(s, c, k) >= need || k == |c| || (c[k] in s.heaps && s.heaps[c[k]].lastUsed == s.fence.current))
  }

  lemma VictimsNeeded(s: State, g: Segment, need: nat, k: nat)
    requires CacheOk(s, g) && k == VictimCount(s, Cache(s, g), need, 0)
    ensures ShortestPrefix(s, g, need, k)
  {
    var c := Cache(s, g);
    VictimCountMeaning(s, c, need, 0);
    if k < |c| {
      CacheKnows(s, g, c[k]);
    }
    forall i: nat | i < k
      ensures PrefixSize(s, c, i) < need
    {
      assert !EvictionStops(s, c, need, i);
    }
  }

  /** Some heaps at the least recently used end, none of the current submission, cover `need`. */
  ghost predicate Coverable(s: State, g: Segment, need: nat) {
    exists j: nat :: Victims(s, g, j) && need <= PrefixSize(s, Cache(s, g), j)
  }

  /** The request fits the budget once `k` heads are evicted, exactly if the usage did
      not exceed the budget before or the shortfall could be covered. */
  ghost predicate FitsIffCoverable(s: State, g: Segment, bytes: nat, info: Info, k: nat)
    requires k <= |Cache(s, g)|
  {
    info.usage - PrefixSize(s, Cache(s, g), k) + bytes <= info.budget
    <==> info.usage <= info.budget || Coverable(s, g, Shortfall(bytes, info))
  }

  /** What a success tells about the request. Without a budget nothing is evicted. */
  lemma EnsureInBudgetMeaning(s: State, g: Segment, bytes: nat, env: Env, info: Info, s': State)
    requires env.info(0) == info && EnsureInBudget(s, g, bytes, env) == (s', OK)
    ensures info.budget == 0 ==> s' == s
    ensures |Cache(s', g)| <= |Cache(s, g)|
    ensures info.budget > 0 ==> FitsIffCoverable(s, g, bytes, info, |Cache(s, g)| - |Cache(s', g)|)
  {
    if Shortfall(bytes, info) == 0 {
      EvictsNothingThen(s, g, bytes, info, env.reached);
      if info.budget > 0 {
        FitsAlready(s, g, bytes, info);
      }
    } else {
      EnsureFits(s, g, bytes, env, info, s', Cache(s, g), Cache(s', g));
    }
  }

  lemma FitsAlready(s: State, g: Segment, bytes: nat, info: Info)
    requires Shortfall(bytes, info) == 0 && info.budget > 0
    ensures FitsIffCoverable(s, g, bytes, info, 0)
  {
    CoversNothing(s, g);
  }

  lemma EvictsNothingThen(s: State, g: Segment, bytes: nat, info: Info, reached: nat -> nat)
    requires Shortfall(bytes, info) == 0
    ensures Evict(s, g, bytes, info, reached) == (s, None)
  {
  }

  lemma CoversNothing(s: State, g: Segment)
    ensures PrefixSize(s, Cache(s, g), 0) == 0 && Coverable(s, g, 0)
  {
    var j: nat := 0;
    assert Victims(s, g, j);
  }

  lemma EnsureFits(s: State, g: Segment, bytes: nat, env: Env, info: Info, s': State, c: seq<HeapId>, c': seq<HeapId>)
    requires env.info(0) == info && Shortfall(bytes, info) > 0
    requires EnsureInBudget(s, g, bytes, env) == (s', OK) && c == Cache(s, g) && c' == Cache(s', g)
    ensures |c'| <= |c| && FitsIffCoverable(s, g, bytes, info, |c| - |c'|)
  {
    var need := Shortfall(bytes, info);
    var k := VictimsFound(s, g, need);
    EvictForm(s, g, bytes, info, env.reached, k);
    LengthsAfterSuffix(c, c', k);
    CoveredByVictims(s, g, need, k);
  }

  lemma CoveredByVictims(s: State, g: Segment, need: nat, k: nat)
    requires Victims(s, g, k) && k == VictimCount(s, Cache(s, g), need, 0)
    ensures Coverable(s, g, need) <==> need <= PrefixSize(s, Cache(s, g), k)
  {
    if j: nat :| Victims(s, g, j) && need <= PrefixSize(s, Cache(s, g), j) {
      GapIsMet(s, g, need, j, k);
    }
  }

  lemma LengthsAfterSuffix(c: seq<HeapId>, c': seq<HeapId>, k: nat)
    requires k <= |c| && c' == c[k..]
    ensures |c'| <= |c| && |c| - |c'| == k
  {
  }

  /** A resident heap of 10 bytes, after its creation. */
  const OneHeap := State(map[0 := Heap(10, Local, 0, 0, Resident)], [0], [], Fence(1, 0, 0, 0), Stats(0, 0),
                         [Created(0, true)])

  lemma OneHeapOk()
    ensures Inv(OneHeap)
  {
    var s := State(map[], [], [], Fence(1, 0, 0, 0), Stats(0, 0), []);
    assert Inv(s);
    CreateExact(s, 0, 10, Local, Resident);
    assert CreateHeap(s, 0, 10, Local, Resident) == OneHeap;
  }

  /** With a usage above the budget, success does not mean that the request fits. */
  lemma EnsureInBudgetAcceptsTooMuch()
    returns (s: State, env: Env, bytes: nat)
    ensures Inv(s) && EnsureInBudget(s, Local, bytes, env).1 == OK
    ensures Evict(s, Local, bytes, env.info(0), env.reached).1 == Some(10)
    ensures env.info(0).budget > 0 && env.info(0).usage - 10 + bytes > env.info(0).budget
  {
    OneHeapOk();
    s, env, bytes := OneHeap, Env(_ => Info(10, 30), _ => true, _ => 0), 5;
    assert PrefixSize(s, [0], 1) == 10 && PrefixSize(s, [0], 0) == 0;
    assert VictimCount(s, [0], 25, 0) == 1;
  }

  /** The converse fails: a request that fits after the eviction can be refused,
      because the source compares the evicted bytes with the request rather than
      with the shortfall. */
  lemma EnsureInBudgetRefusesFittingRequest()
    returns (s: State, env: Env, bytes: nat)
    ensures Inv(s) && EnsureInBudget(s, Local, bytes, env).1 == Fail
    ensures Evict(s, Local, bytes, env.info(0), env.reached).1 == Some(10)
    ensures env.info(0).usage <= env.info(0).budget && env.info(0).usage - 10 + bytes <= env.info(0).budget
  {
    OneHeapOk();
    s, env, bytes := OneHeap, Env(_ => Info(100, 90), _ => true, _ => 0), 20;
    assert PrefixSize(s, [0], 1) == 10 && PrefixSize(s, [0], 0) == 0;
    assert VictimCount(s, [0], 10, 0) == 1;
  }

  /** The least recently used heaps before the first one of the current submission
      can be cut so that they cover the shortfall but not the whole request. */
  ghost predicate EndsInGap(s: State, g: Segment, low: nat, high: nat, j: nat) {
    Victims(s, g, j) && low <= PrefixSize(s, Cache(s, g), j) < high
  }

  /** A request that fits the budget after the eviction is refused exactly when
      some prefix of the LRU order ends in the gap between shortfall and request. */
  lemma RefusesFittingRequestIff(s: State, g: Segment, bytes: nat, env: Env, info: Info)
    requires env.info(0) == info && Shortfall(bytes, info) > 0
    ensures var evicted := Evict(s, g, bytes, info, env.reached).1;
            && evicted.Some?
            && (EnsureInBudget(s, g, bytes, env).1 == Fail && info.usage - evicted.value + bytes <= info.budget
                <==> exists j: nat :: EndsInGap(s, g, Shortfall(bytes, info), bytes, j))
  {
    var need := Shortfall(bytes, info);
    var k := VictimsFound(s, g, need);
    EvictForm(s, g, bytes, info, env.reached, k);
    if j: nat :| EndsInGap(s, g, need, bytes, j) {
      GapIsMet(s, g, need, j, k);
    }
    if need <= PrefixSize(s, Cache(s, g), k) < bytes {
      assert EndsInGap(s, g, need, bytes, k);
    }
  }

  lemma GapIsMet(s: State, g: Segment, need: nat, j: nat, k: nat)
    requires Victims(s, g, j) && need <= PrefixSize(s, Cache(s, g), j) && k == VictimCount(s, Cache(s, g), need, 0)
    ensures need <= PrefixSize(s, Cache(s, g), k) <= PrefixSize(s, Cache(s, g), j)
  {
    var c := Cache(s, g);
    VictimCountMeaning(s, c, need, 0);
    assert EvictionStops(s, c, need, j);
    PrefixGrows(s, c, k, j);
  }

  lemma {:induction false} PrefixGrows(s: State, c: seq<HeapId>, i: nat, j: nat)
    requires i <= j <= |c|
    ensures PrefixSize(s, c, i) <= PrefixSize(s, c, j)
  {
    if i < j {
      PrefixGrows(s, c, i, j - 1);
    }
  }

  /** The cache lists the heaps of the current submission last. */
  ghost predicate OthersFirst(s: State, g: Segment, a: seq<HeapId>, b: seq<HeapId>) {
    && Cache(s, g) == a + b
    && (forall x :: x in a ==> x in s.heaps && s.heaps[x].lastUsed != s.fence.current)
    && (forall x :: x in b ==> x in s.heaps && s.heaps[x].lastUsed == s.fence.current)
  }

  lemma OwnFrom(s: State, g: Segment, a: seq<HeapId>, b: seq<HeapId>, k: nat)
    requires OthersFirst(s, g, a, b) && k <= |Cache(s, g)|
    requires k == |Cache(s, g)| || (Cache(s, g)[k] in s.heaps && s.heaps[Cache(s, g)[k]].lastUsed == s.fence.current)
    ensures |a| <= k
  {
    if k < |a| {
      ElementOfFirst(a, b, k);
    }
  }

  lemma ElementOfFirst(a: seq<HeapId>, b: seq<HeapId>, k: nat)
    requires k < |a|
    ensures (a + b)[k] in a
  {
  }

  /** If the cache lists the heaps of the submission last, an eviction that ends
      short of the need leaves only heaps of the submission in the cache. */
  lemma ShortEvictionLeavesOwnHeaps(s: State, g: Segment, bytes: nat, info: Info, reached: nat -> nat,
                                    a: seq<HeapId>, b: seq<HeapId>, id: HeapId)
    requires CacheOk(s, g) && OthersFirst(s, g, a, b)
    requires var (s', evicted) := Evict(s, g, bytes, info, reached);
             evicted.Some? && evicted.value < Shortfall(bytes, info) && id in Cache(s', g)
    ensures id in s.heaps && s.heaps[id].lastUsed == s.fence.current
  {
    var (s', evicted) := Evict(s, g, bytes, info, reached);
    var k := EvictsShortestPrefix(s, g, bytes, info, reached, s', evicted);
    OwnFrom(s, g, a, b, k);
    SuffixMember(a, b, k, id);
  }

  lemma SuffixMember(a: seq<HeapId>, b: seq<HeapId>, k: nat, id: HeapId)
    requires |a| <= k <= |a + b| && id in (a + b)[k..]
    ensures id in b
  {
    var j: nat :| j < |(a + b)[k..]| && (a + b)[k..][j] == id;
    assert (a + b)[k + j] == b[k + j - |a|];
  }

  lemma {:induction false} WithoutConcat(a: seq<HeapId>, b: seq<HeapId>, id: HeapId)
    requires id !in b
    ensures Without(a + b, id) == Without(a, id) + b
  {
    if a == [] {
      assert a + b == b;
      WithoutAbsent(b, id);
    } else {
      WithoutConcat(a[1..], b, id);
      assert (a + b)[1..] == a[1..] + b && (a + b)[0] == a[0];
      WithoutStep(a, id);
      WithoutStep(a + b, id);
    }
  }

  lemma WithoutStep(c: seq<HeapId>, id: HeapId)
    requires c != []
    ensures Without(c, id) == (if c[0] == id then [] else [c[0]]) + Without(c[1..], id)
  {
  }

  /** No heap is marked as used by a submission that has not been signaled. */
  ghost predicate Settled(s: State) {
    forall id {:trigger s.heaps[id]} :: id in s.heaps ==> s.heaps[id].lastUsed != s.fence.current
  }

  /** The heaps of `c` that are not in `b`, in their order. */
  ghost function Minus(c: seq<HeapId>, b: seq<HeapId>): seq<HeapId> {
    if c == [] then [] else (if c[0] in b then [] else [c[0]]) + Minus(c[1..], b)
  }

  lemma {:induction false} MinusNone(c: seq<HeapId>)
    ensures Minus(c, []) == c
  {
    if c != [] {
      MinusNone(c[1..]);
    }
  }

  lemma {:induction false} MinusOneMore(c: seq<HeapId>, b: seq<HeapId>, id: HeapId)
    ensures Without(Minus(c, b), id) == Minus(c, b + [id])
  {
    if c != [] {
      var rest := Minus(c[1..], b);
      MinusOneMore(c[1..], b, id);
      if c[0] in b {
        assert Minus(c, b) == rest;
      } else {
        var t := [c[0]] + rest;
        assert Minus(c, b) == t && t[0] == c[0] && t[1..] == rest;
        WithoutStep(t, id);
      }
    }
  }

  /** Preparing a submission puts its heaps last, in both caches; the others keep
      their order. */
  lemma {:induction false} CollectPutsOwnHeapsLast(p: Plan, ids: seq<HeapId>, r: Plan, g: Segment, a: seq<HeapId>,
                                                   b: seq<HeapId>, c: seq<HeapId>)
    returns (a': seq<HeapId>, b': seq<HeapId>)
    requires PlanOk(p) && (forall id :: id in ids ==> id in p.s.heaps) && r == Collect(p, ids)
    requires OthersFirst(p.s, g, a, b) && a == Minus(c, b)
    ensures OthersFirst(r.s, g, a', b') && a' == Minus(c, b')
    decreases |ids|
  {
    if ids == [] {
      a', b' := a, b;
    } else {
      var id, p' := ids[0], CollectOne(p, ids[0]);
      var a1, b1 := a, b;
      if p.s.heaps[id].locks == 0 && p.s.heaps[id].lastUsed != p.s.fence.current {
        TouchPlan(p, id, p');
        a1, b1 := Without(a, id), if p.s.heaps[id].segment == g then b + [id] else b;
        TouchLast(p.s, g, a, b, id, a1, b1, p'.s);
        TouchKeepsOrder(p.s, g, a, b, id, c);
      }
      a', b' := CollectPutsOwnHeapsLast(p', ids[1..], r, g, a1, b1, c);
    }
  }

  lemma TouchKeepsOrder(s: State, g: Segment, a: seq<HeapId>, b: seq<HeapId>, id: HeapId, c: seq<HeapId>)
    requires CacheOk(s, g) && OthersFirst(s, g, a, b) && id in s.heaps && a == Minus(c, b)
    ensures Without(a, id) == Minus(c, if s.heaps[id].segment == g then b + [id] else b)
  {
    if s.heaps[id].segment == g {
      MinusOneMore(c, b, id);
    } else {
      if id in a {
        assert id in Cache(s, g);
        CacheKnows(s, g, id);
      }
      WithoutAbsent(a, id);
    }
  }

  lemma TouchLast(s: State, g: Segment, a: seq<HeapId>, b: seq<HeapId>, id: HeapId, a1: seq<HeapId>, b1: seq<HeapId>,
                  s': State)
    requires CacheOk(s, g) && OthersFirst(s, g, a, b) && id in s.heaps
    requires s.heaps[id].lastUsed != s.fence.current && s' == Touch(s, id)
    requires a1 == Without(a, id) && b1 == if s.heaps[id].segment == g then b + [id] else b
    ensures OthersFirst(s', g, a1, b1)
  {
    UnlinkFirst(s, g, a, b, id);
    TouchForm(s, g, id, s');
    assert (a1 + b) + [id] == a1 + (b + [id]);
  }

  lemma TouchForm(s: State, g: Segment, id: HeapId, s': State)
    requires id in s.heaps && s' == Touch(s, id)
    ensures var u := Cache(Unlink(s, id), g); Cache(s', g) == if s.heaps[id].segment == g then u + [id] else u
    ensures s'.fence == s.fence && s'.heaps == s.heaps[id := s.heaps[id].(lastUsed := s.fence.current)]
  {
  }

  lemma UnlinkFirst(s: State, g: Segment, a: seq<HeapId>, b: seq<HeapId>, id: HeapId)
    requires CacheOk(s, g) && Cache(s, g) == a + b && id !in b
    ensures Cache(Unlink(s, id), g) == Without(a, id) + b
    ensures forall x :: x in Without(a, id) ==> x in a && x != id
  {
    WithoutConcat(a, b, id);
    WithoutSubset(a, id);
    WithoutMembers(a + b, id);
    forall x | x in Without(a, id)
      ensures x != id
    {
      assert x in Without(a, id) + b;
    }
  }

  lemma {:induction false} WithoutSubset(a: seq<HeapId>, id: HeapId)
    ensures forall x :: x in Without(a, id) ==> x in a
  {
    if a != [] {
      WithoutSubset(a[1..], id);
    }
  }

  lemma OthersFirstKept(s: State, s1: State, g: Segment, a: seq<HeapId>, b: seq<HeapId>) returns (a': seq<HeapId>)
    requires OthersFirst(s, g, a, b) && EvictsFrom(s, s1, g) && Distinct(Cache(s, g))
    ensures OthersFirst(s1, g, a', b) && |a'| <= |a| && a' == a[|a| - |a'|..]
  {
    var c, k: nat := Cache(s, g), |Cache(s, g)| - |Cache(s1, g)|;
    if b != [] {
      assert c[|a|] == b[0] && b[0] in b;
      OwnHeapStays(s, s1, g, |a|);
    }
    a' := a[k..];
    assert c[k..] == a' + b;
    forall x | x in a' + b
      ensures x in s1.heaps && s1.heaps[x].lastUsed == s.heaps[x].lastUsed
    {
      assert x in a + b;
      assert HeapKept(s, s1, g, x);
    }
    assert forall x :: x in a' ==> x in a && x in a' + b;
  }

  lemma DistinctIndex(c: seq<HeapId>, i: nat, j: nat)
    requires Distinct(c) && i < |c| && j < |c| && c[i] == c[j]
    ensures i == j
  {
  }

  /** A heap of the current submission is not in the evicted prefix. */
  lemma OwnHeapStays(s: State, s1: State, g: Segment, i: nat)
    requires EvictsFrom(s, s1, g) && Distinct(Cache(s, g)) && i < |Cache(s, g)| && Cache(s, g)[i] in s.heaps
    requires s.heaps[Cache(s, g)[i]].lastUsed == s.fence.current
    ensures |Cache(s, g)| - |Cache(s1, g)| <= i
  {
    var c, x := Cache(s, g), Cache(s, g)[i];
    assert HeapKept(s, s1, g, x);
    var j: nat :| j < |Cache(s1, g)| && Cache(s1, g)[j] == x;
    DistinctIndex(c, i, |c| - |Cache(s1, g)| + j);
  }

  /** In a run in which every submission signals its fence: while a submission is
      being prepared, an eviction ends short of its need only when every heap
      left in the cache belongs to the submission. `s1` is any state in which the
      submission tries to page in. */
  lemma SubmissionStopsShortOnlyAtOwnHeaps(s: State, ids: seq<HeapId>, g: Segment, s1: State, bytes: nat, info: Info,
                                           reached: nat -> nat, id: HeapId)
    requires Inv(s) && Settled(s) && forall x :: x in ids ==> x in s.heaps
    requires EvictsFrom(PlanOf(s, ids).s, s1, g) && CacheOk(s1, g)
    requires var (s', evicted) := Evict(s1, g, bytes, info, reached);
             evicted.Some? && evicted.value < Shortfall(bytes, info) && id in Cache(s', g)
    ensures id in PlanOf(s, ids).touched
  {
    var p := PlanOf(s, ids);
    var a, b := PlanPutsOwnHeapsLast(s, ids, g);
    var a' := OthersFirstKept(p.s, s1, g, a, b);
    ShortEvictionLeavesOwnHeaps(s1, g, bytes, info, reached, a', b, id);
    assert HeapKept(p.s, s1, g, id);
    CollectMarksTouched(Plan(s, [], [], []), ids, p, id);
  }

  lemma PlanPutsOwnHeapsLast(s: State, ids: seq<HeapId>, g: Segment) returns (a: seq<HeapId>, b: seq<HeapId>)
    requires Inv(s) && Settled(s) && forall x :: x in ids ==> x in s.heaps
    ensures OthersFirst(PlanOf(s, ids).s, g, a, b) && Distinct(Cache(PlanOf(s, ids).s, g))
    ensures a == Minus(Cache(s, g), b)
    ensures PlanOf(s, ids).s.heaps.Keys == s.heaps.Keys && PlanOf(s, ids).s.fence == s.fence
  {
    var p0 := Plan(s, [], [], []);
    PlanOfOk(s, ids);
    assert PendingOf(p0) == {};
    forall x | x in Cache(s, g)
      ensures x in s.heaps && s.heaps[x].lastUsed != s.fence.current
    {
      CacheKnows(s, g, x);
    }
    MinusNone(Cache(s, g));
    a, b := CollectPutsOwnHeapsLast(p0, ids, PlanOf(s, ids), g, Cache(s, g), [], Cache(s, g));
  }

  /** Locking takes a cached heap out of its cache and leaves all others in order. A
      heap that is not cached can make the least recently used ones of its segment
      go, unless it is locked already. */
  lemma LockKeepsOrder(s: State, id: HeapId, evictSize: nat, env: Env, g: Segment, s': State)
    requires Inv(s) && id in s.heaps && s' == LockHeap(s, id, evictSize, env).0
    ensures InCache(s, id) ==> Cache(s', g) == Minus(Cache(s, g), [id])
    ensures !InCache(s, id) ==> IsSuffix(Cache(s', g), Cache(s, g))
    ensures !InCache(s, id) && (s.heaps[id].locks > 0 || g != s.heaps[id].segment) ==> Cache(s', g) == Cache(s, g)
  {
    if InCache(s, id) {
      LockCachedCaches(s, id, evictSize, env, g);
      MinusOne(Cache(s, g), id);
    } else if s.heaps[id].locks == 0 {
      LockPagesIn(s, id, evictSize, env, g, s');
    } else {
      LockAgainCaches(s, id, evictSize, env, g);
    }
  }

  lemma LockPagesIn(s: State, id: HeapId, evictSize: nat, env: Env, g: Segment, s': State)
    requires Inv(s) && id in s.heaps && s' == LockHeap(s, id, evictSize, env).0
    requires !InCache(s, id) && s.heaps[id].locks == 0
    ensures IsSuffix(Cache(s', g), Cache(s, g))
    ensures g != s.heaps[id].segment ==> Cache(s', g) == Cache(s, g)
  {
    var h := s.heaps[id];
    var s1 := MakeResidentOk(s, h.segment, h.size, [id], evictSize, env, {});
    LockCaches(s, id, evictSize, env, s1, s', g);
    EvictsSuffix(s, s1, h.segment, g);
  }

  lemma EvictsSuffix(s: State, s1: State, e: Segment, g: Segment)
    requires EvictsFrom(s, s1, e)
    ensures IsSuffix(Cache(s1, g), Cache(s, g)) && (g != e ==> Cache(s1, g) == Cache(s, g))
  {
  }

  lemma LockCachedCaches(s: State, id: HeapId, evictSize: nat, env: Env, g: Segment)
    requires id in s.heaps && InCache(s, id)
    ensures Cache(LockHeap(s, id, evictSize, env).0, g) == Without(Cache(s, g), id)
  {
  }

  lemma LockAgainCaches(s: State, id: HeapId, evictSize: nat, env: Env, g: Segment)
    requires id in s.heaps && !InCache(s, id) && s.heaps[id].locks > 0
    ensures Cache(LockHeap(s, id, evictSize, env).0, g) == Cache(s, g)
    ensures IsSuffix(Cache(s, g), Cache(s, g))
  {
  }

  ghost predicate IsSuffix(a: seq<HeapId>, c: seq<HeapId>) {
    |a| <= |c| && a == c[|c| - |a|..]
  }

  lemma LockCaches(s: State, id: HeapId, evictSize: nat, env: Env, s1: State, s': State, g: Segment)
    requires id in s.heaps && !InCache(s, id) && s.heaps[id].locks == 0 && s' == LockHeap(s, id, evictSize, env).0
    requires var (r, ok) := MakeResident(s, s.heaps[id].segment, s.heaps[id].size, [id], evictSize, env);
             r == if ok then s1.(log := s1.log + MakeCalls([id])) else s1
    ensures Cache(s', g) == Cache(s1, g)
  {
  }

  lemma MinusOne(c: seq<HeapId>, id: HeapId)
    ensures Without(c, id) == Minus(c, [id])
  {
    MinusNone(c);
    MinusOneMore(c, [], id);
    assert [] + [id] == [id];
  }

  /** Destroying a heap takes it out of its cache, and changes nothing else. */
  lemma DestroyKeepsOrder(s: State, id: HeapId, g: Segment, s': State)
    requires Inv(s) && id in s.heaps && s' == DestroyHeap(s, id)
    ensures Cache(s', g) == Minus(Cache(s, g), [id]) && id !in s'.heaps
    ensures forall x :: x in s.heaps && x != id ==> x in s'.heaps && s'.heaps[x] == s.heaps[x]
    ensures s'.stats == s.stats && s'.fence == s.fence && s'.log == s.log
  {
    MinusOne(Cache(s, g), id);
  }

  /** After a submission its heaps are the last ones in their caches, if no earlier
      submission is left unsignaled; the others keep their order, less the least
      recently used ones that were evicted. */
  lemma SubmittedHeapsAreLast(s: State, ids: seq<HeapId>, signal: bool, evictSize: nat, env: Env, g: Segment, s': State)
    returns (a: seq<HeapId>, b: seq<HeapId>)
    requires Inv(s) && Settled(s) && (forall x :: x in ids ==> x in s.heaps)
    requires Execute(s, ids, signal, evictSize, env) == (s', OK)
    ensures Cache(s', g) == a + b
    ensures var others := Minus(Cache(s, g), b); |a| <= |others| && a == others[|others| - |a|..]
    ensures forall x :: x in a ==> x in s'.heaps && s'.heaps[x].lastUsed != s.fence.current
    ensures forall x :: x in b ==> x in s'.heaps && s'.heaps[x].lastUsed == s.fence.current
  {
    var e, s1 := SubmittedFrom(s, ids, signal, evictSize, env, s');
    var a0;
    a0, b := PlanPutsOwnHeapsLast(s, ids, g);
    a := OthersFirstAnyway(PlanOf(s, ids).s, s1, e, g, a0, b);
    SameOrder(s1, g, a, b, s');
  }

  /** A successful submission, seen from its caches: the plan, an eviction, and then
      only changes that leave the caches and fence values of the heaps alone. */
  lemma SubmittedFrom(s: State, ids: seq<HeapId>, signal: bool, evictSize: nat, env: Env, s': State)
    returns (e: Segment, s1: State)
    requires Inv(s) && (forall x :: x in ids ==> x in s.heaps) && Execute(s, ids, signal, evictSize, env) == (s', OK)
    ensures EvictsFrom(PlanOf(s, ids).s, s1, e) && s1.fence.current == s.fence.current
    ensures s'.local == s1.local && s'.nonLocal == s1.nonLocal && s'.heaps.Keys == s1.heaps.Keys
    ensures forall x {:trigger s'.heaps[x]} :: x in s1.heaps ==> s'.heaps[x].lastUsed == s1.heaps[x].lastUsed
  {
    var p := PlanOf(s, ids);
    var paged, r;
    s1, paged, r := ExecuteSteps(s, ids, signal, evictSize, env);
    PlanOfOk(s, ids);
    SubmittedCaches(p, s1, paged, r);
    e := if p.local != [] then Local else NonLocal;
  }

  /** Evicting from either cache leaves this one with its own heaps last. */
  lemma OthersFirstAnyway(s: State, s1: State, e: Segment, g: Segment, a: seq<HeapId>, b: seq<HeapId>)
    returns (a': seq<HeapId>)
    requires OthersFirst(s, g, a, b) && EvictsFrom(s, s1, e) && Distinct(Cache(s, g))
    ensures OthersFirst(s1, g, a', b) && |a'| <= |a| && a' == a[|a| - |a'|..]
  {
    if g == e {
      a' := OthersFirstKept(s, s1, g, a, b);
    } else {
      a' := a;
      EvictsSameUse(s, s1, e);
    }
  }

  lemma SameOrder(s1: State, g: Segment, a: seq<HeapId>, b: seq<HeapId>, s': State)
    requires OthersFirst(s1, g, a, b)
    requires s'.local == s1.local && s'.nonLocal == s1.nonLocal && s'.heaps.Keys == s1.heaps.Keys
    requires forall x {:trigger s'.heaps[x]} :: x in s1.heaps ==> s'.heaps[x].lastUsed == s1.heaps[x].lastUsed
    ensures Cache(s', g) == a + b
    ensures forall x :: x in a ==> x in s'.heaps && s'.heaps[x].lastUsed != s1.fence.current
    ensures forall x :: x in b ==> x in s'.heaps && s'.heaps[x].lastUsed == s1.fence.current
  {
  }

  lemma SubmittedCaches(p: Plan, s1: State, paged: seq<HeapId>, r: State)
    requires PlanOk(p) && s1.heaps.Keys == p.s.heaps.Keys
    requires r == MarkResident(s1.(log := s1.log + MakeCalls(paged)), p.touched)
    ensures r.local == s1.local && r.nonLocal == s1.nonLocal && r.fence == s1.fence && r.heaps.Keys == s1.heaps.Keys
    ensures forall x {:trigger r.heaps[x]} :: x in s1.heaps ==> r.heaps[x].lastUsed == s1.heaps[x].lastUsed
  {
    forall id | id in p.touched
      ensures id in s1.heaps
    {
      assert TouchedOk(p.s, id);
    }
    MarkResidentHeaps(s1.(log := s1.log + MakeCalls(paged)), p.touched, r);
  }

  /** A successful submission that signals is recorded with the fence value it
      signals, all heaps it lists and those of them that it found unlocked. */
  lemma SubmissionSignals(s: State, ids: seq<HeapId>, signal: bool, evictSize: nat, env: Env, s': State)
    requires Inv(s) && (forall x :: x in ids ==> x in s.heaps) && Execute(s, ids, signal, evictSize, env) == (s', OK)
    ensures signal ==>
              && s'.fence.lastSignaled == s.fence.current && s'.fence.current == s.fence.current + 1
              && s'.log != [] && s'.log[|s'.log| - 1].Executed?
              && var c := s'.log[|s'.log| - 1];
              && c.value == s.fence.current && (forall x :: x in c.listed <==> x in ids)
              && forall x :: x in c.unlocked <==> x in ids && s.heaps[x].locks == 0
    ensures !signal ==> s'.fence.lastSignaled == s.fence.lastSignaled && s'.fence.current == s.fence.current
  {
    var p := PlanOf(s, ids);
    var s1, paged, r := ExecuteSteps(s, ids, signal, evictSize, env);
    PlanOfOk(s, ids);
    SubmittedCaches(p, s1, paged, r);
  }
}
