/**
 One size class of the memory allocator (src/mem_pool.cc) as a value: the four
 byte counters of UcMemPool and its LIFO free list of holders, each with (true)
 or without (false) memory.  By module ObjPool, `pool.New()` takes the head of
 that list or makes an empty holder, and `pool.Delete(m)` puts m on top.
 */
module MemPool {
  /** The conditions the source reports as bugs. */
  datatype Bug = FreeBad1 | FreeBad2 | FreeBad3 | FreeBad4 | TotalBad | MaxBad

  datatype Pool = Pool(
    each: nat,          // sz_each
    total: nat,         // sz_total
    free: nat,          // sz_free
    max: nat,           // sz_max
    list: seq<bool>,    // the free list, top first: does the holder have memory?
    out: nat)           // holders handed out and not yet freed

  datatype Outcome = Got | Exceeded | NoMemory

  datatype Result = Result(pool: Pool, outcome: Outcome, bugs: set<Bug>)

  function Fresh(each: nat, max: nat): Pool {
    Pool(each, 0, 0, max, [], 0)
  }

  predicate Top(p: Pool) {
    p.list != [] && p.list[0]
  }

  function Rest(p: Pool): seq<bool> {
    if p.list == [] then [] else p.list[1..]
  }

  /** UcMemPool::Alloc; newOk and mallocOk say whether `new` and `malloc` succeed. */
  function Alloc(p: Pool, newOk: bool, mallocOk: bool): Result {
    if p.list == [] && !newOk then Result(p, NoMemory, {})
    else if !Top(p) then
      if p.total + p.each > p.max then Result(p.(list := [false] + Rest(p)), Exceeded, {})
      else if !mallocOk then Result(p.(list := [false] + Rest(p)), NoMemory, {})
      else Result(p.(list := Rest(p), total := p.total + p.each, out := p.out + 1), Got, {})
    else
      var bad := p.free < p.each;
      Result(p.(list := Rest(p), total := p.total + p.each, out := p.out + 1,
                free := if bad then p.free else p.free - p.each),
             Got, if bad then {FreeBad1} else {})
  }

  /** UcMemPool::Free of an outstanding holder. */
  function Free(p: Pool): Result
    requires p.out > 0
  {
    var bad := p.total < p.each;
    Result(p.(list := [true] + p.list, free := p.free + p.each, out := p.out - 1,
              total := if bad then p.total else p.total - p.each),
           Got, if bad then {TotalBad} else {})
  }

  datatype Shrunk = Shrunk(pool: Pool, shk: nat, bugs: set<Bug>)

  /** `x & ~(each - 1)`: every size class is a power of two, so the mask rounds down to a multiple. */
  function AlignDown(x: nat, each: nat): (r: nat)
    requires each > 0
    ensures r <= x < r + each
  {
    if x < each then 0 else each + AlignDown(x - each, each)
  }

  lemma {:induction false} AlignIsMultiple(x: nat, each: nat)
    requires each > 0
    ensures AlignDown(x, each) == x - x % each
  {
    if x >= each {
      AlignIsMultiple(x - each, each);
      assert (x - each) % each == x % each by { ModShift(x, each); }
    } else {
      assert x % each == x by { ModSmall(x, each); }
    }
  }

  lemma ModSmall(x: nat, m: nat)
    requires x < m
    ensures x % m == x
  {}

  lemma ModShift(x: nat, m: nat)
    requires 0 < m <= x
    ensures (x - m) % m == x % m
  {
    var d := (x - m) / m - (x / m - 1);
    assert m * d == x % m - (x - m) % m;
    assert d >= 1 ==> m * d >= m;
    assert d <= -1 ==> m * d <= -1 * m;
  }

  function Full(list: seq<bool>): (n: nat) {
    if list == [] then 0 else (if list[0] then 1 else 0) + Full(list[1..])
  }

  /** The release loop of UcMemPool::Shrink. */
  function Release(p: Pool, maxFree: nat, shk: nat, newOk: bool): Shrunk
    decreases Full(p.list)
  {
    if p.free <= maxFree then Shrunk(p, shk, {})
    else if p.list == [] && !newOk then Shrunk(p, shk, {FreeBad4})
    else if !Top(p) then Shrunk(p.(list := [false] + Rest(p)), shk, {FreeBad2})
    else
      assert Full([false] + Rest(p)) < Full(p.list) by { assert ([false] + Rest(p))[1..] == Rest(p); }
      var bad := p.free < p.each;
      var r := Release(p.(list := [false] + Rest(p), free := if bad then p.free else p.free - p.each),
                       maxFree, shk + p.each, newOk);
      if bad then r.(bugs := r.bugs + {FreeBad3}) else r
  }

  function MaxFree(p: Pool): nat {
    if p.max / 4 > p.total then p.total else p.max / 4
  }

  /** Half the quota that is not allocated, when that is more than half the quota. */
  function Spare(p: Pool): nat
    requires p.each > 0
  {
    if p.max > (p.total + p.free) * 2 then AlignDown((p.max - (p.total + p.free)) / 2, p.each) else 0
  }

  /** UcMemPool::Shrink: give up unallocated quota if there is plenty, else free a buffer. */
  function Shrink(p: Pool, newOk: bool): Shrunk
    requires p.each > 0
  {
    if Spare(p) > p.each then Shrunk(p.(max := p.max - Spare(p)), Spare(p), {})
    else
      var r := Release(p, MaxFree(p), 0, newOk);
      if r.pool.max < r.shk then r.(bugs := r.bugs + {MaxBad})
      else r.(pool := r.pool.(max := r.pool.max - r.shk))
  }

  // ---------- the counters agree with the holders ----------

  predicate Consistent(p: Pool) {
    && p.each > 0
    && p.total == Times(p.each, p.out)
    && p.free == Times(p.each, Full(p.list))
  }

  /** each * n, spelled as repeated addition to keep the proofs linear. */
  function Times(each: nat, n: nat): nat {
    if n == 0 then 0 else Times(each, n - 1) + each
  }

  lemma {:induction false} TimesIsProduct(each: nat, n: nat)
    ensures Times(each, n) == each * n
  {
    if n > 0 {
      TimesIsProduct(each, n - 1);
      assert each * n == each * (n - 1) + each;
    }
  }

  lemma FullCons(b: bool, list: seq<bool>)
    ensures Full([b] + list) == (if b then 1 else 0) + Full(list)
  {
    assert ([b] + list)[1..] == list;
  }

  lemma MulStep(e: nat, n: nat)
    ensures Times(e, n + 1) == Times(e, n) + e
    ensures n > 0 ==> Times(e, n) >= e && Times(e, n - 1) == Times(e, n) - e
  {}

  lemma AllocConsistent(p: Pool, newOk: bool, mallocOk: bool)
    requires Consistent(p)
    ensures Consistent(Alloc(p, newOk, mallocOk).pool) && Alloc(p, newOk, mallocOk).bugs == {}
  {
    FullCons(false, Rest(p));
    MulStep(p.each, p.out);
    MulStep(p.each, Full(p.list));
    if p.list != [] {
      assert p.list == [Top(p)] + Rest(p);
      FullCons(Top(p), Rest(p));
    }
  }

  lemma FreeConsistent(p: Pool)
    requires Consistent(p) && p.out > 0
    ensures Consistent(Free(p).pool) && Free(p).bugs == {}
  {
    FullCons(true, p.list);
    MulStep(p.each, p.out);
    MulStep(p.each, Full(p.list));
  }

  /** What the release loop does to any pool at all: it frees at most the top buffer. */
  lemma ReleaseAtMostOne(p: Pool, maxFree: nat, shk: nat, newOk: bool)
    ensures var r := Release(p, maxFree, shk, newOk);
            && r.pool.each == p.each && r.pool.max == p.max && r.pool.total == p.total && r.pool.out == p.out
            && (if p.free > maxFree && Top(p)
                then && r.shk == shk + p.each && r.pool.list == [false] + Rest(p)
                     && r.pool.free == (if p.free < p.each then p.free else p.free - p.each)
                else && r.shk == shk && Full(r.pool.list) == Full(p.list) && r.pool.free == p.free)
            && (FreeBad3 in r.bugs <==> p.free > maxFree && Top(p) && p.free < p.each)
            && (FreeBad4 in r.bugs <==> p.free > maxFree && p.list == [] && !newOk)
            && r.bugs <= {FreeBad2, FreeBad3, FreeBad4}
  {
    FullCons(false, Rest(p));
    if p.free > maxFree && Top(p) {
      var q := p.(list := [false] + Rest(p), free := if p.free < p.each then p.free else p.free - p.each);
      assert Rest(q) == Rest(p);
      var r := Release(q, maxFree, shk + p.each, newOk);
      assert r.pool == q;
    }
  }

  lemma ShrinkConsistent(p: Pool, newOk: bool)
    requires Consistent(p)
    ensures var r := Shrink(p, newOk);
            Consistent(r.pool) && r.bugs <= {FreeBad2, MaxBad}
  {
    ReleaseAtMostOne(p, MaxFree(p), 0, newOk);
    FullCons(false, Rest(p));
    MulStep(p.each, Full(p.list));
  }

  // ---------- what the operations do, in plain terms ----------

  /** There is a holder to use: on the free list, or a new one. */
  predicate HolderAvailable(p: Pool, newOk: bool) {
    p.list != [] || newOk
  }

  /**
   Alloc succeeds if and only if there is a holder, and it has a buffer or another
   fits the limit and malloc gives one; it reports the limit if and only if only
   that stands in the way.  One more buffer is out exactly when it succeeds.
   */
  lemma AllocSucceedsExactly(p: Pool, newOk: bool, mallocOk: bool)
    ensures var r := Alloc(p, newOk, mallocOk);
            && (r.outcome == Got <==> HolderAvailable(p, newOk) && (Top(p) || (p.total + p.each <= p.max && mallocOk)))
            && (r.outcome == Exceeded <==> HolderAvailable(p, newOk) && !Top(p) && p.total + p.each > p.max)
            && r.pool.out == p.out + (if r.outcome == Got then 1 else 0)
  {}

  lemma {:induction false} AlignedIsMultiple(x: nat, each: nat)
    requires each > 0
    ensures AlignDown(x, each) % each == 0
  {
    if x >= each {
      AlignedIsMultiple(x - each, each);
      ModShift(AlignDown(x, each), each);
    } else {
      ModSmall(0, each);
    }
  }

  /** More than half the quota is not allocated, and that is four buffers or more. */
  predicate RoomToSpare(p: Pool) {
    p.max > 2 * (p.total + p.free) && p.max - (p.total + p.free) >= 4 * p.each
  }

  /** The top holder has a buffer, and free buffers are more than a quarter of the quota or than those out. */
  predicate TooManyFree(p: Pool) {
    Top(p) && (4 * p.free > p.max || p.free > p.total)
  }

  /**
   Shrink, without its intermediate amounts: with room to spare it gives up the
   largest multiple of the buffer size that is at most half the unallocated quota;
   else with too many free it releases the top buffer and gives up its size; else
   it changes neither counters nor quota.
   */
  lemma ShrinkExactly(p: Pool, newOk: bool)
    requires Consistent(p)
    ensures var r := Shrink(p, newOk);
            if RoomToSpare(p) then
              var idle := p.max - (p.total + p.free);
              && r.shk % p.each == 0 && 2 * r.shk <= idle < 2 * (r.shk + p.each)
              && r.pool == p.(max := p.max - r.shk)
            else if TooManyFree(p) then
              && r.shk == p.each
              && r.pool == p.(list := [false] + Rest(p), free := p.free - p.each,
                              max := if p.max < p.each then p.max else p.max - p.each)
            else
              && r.shk == 0 && Full(r.pool.list) == Full(p.list)
              && r.pool == p.(list := r.pool.list)
  {
    ReleaseAtMostOne(p, MaxFree(p), 0, newOk);
    MulStep(p.each, Full(p.list));
    SpareExactly(p);
  }

  lemma SpareExactly(p: Pool)
    requires p.each > 0
    ensures Spare(p) > p.each <==> RoomToSpare(p)
    ensures RoomToSpare(p) ==>
              var idle := p.max - (p.total + p.free);
              Spare(p) % p.each == 0 && 2 * Spare(p) <= idle < 2 * (Spare(p) + p.each)
    ensures p.free > MaxFree(p) <==> 4 * p.free > p.max || p.free > p.total
  {
    if p.max > 2 * (p.total + p.free) {
      AlignedIsMultiple((p.max - (p.total + p.free)) / 2, p.each);
      AlignedAboveOne((p.max - (p.total + p.free)) / 2, p.each);
    }
  }

  lemma AlignedAboveOne(x: nat, each: nat)
    requires each > 0
    ensures AlignDown(x, each) > each <==> x >= 2 * each
  {
    if x >= each { assert AlignDown(x, each) == each + AlignDown(x - each, each); }
  }

  /** No holder is lost: those listed and those out are as many as before, and one more when New had to make one. */
  lemma HoldersKept(p: Pool, newOk: bool, mallocOk: bool)
    requires Consistent(p)
    ensures var q := Alloc(p, newOk, mallocOk).pool;
            |q.list| + q.out == |p.list| + p.out + (if p.list == [] && newOk then 1 else 0)
    ensures p.out > 0 ==> var q := Free(p).pool; |q.list| + q.out == |p.list| + p.out
    ensures var q := Shrink(p, newOk).pool; |q.list| + q.out == |p.list| + p.out
  {
    ReleaseKeepsHolders(p, MaxFree(p), newOk);
  }

  lemma ReleaseKeepsHolders(p: Pool, maxFree: nat, newOk: bool)
    requires Consistent(p)
    ensures var q := Release(p, maxFree, 0, newOk).pool; |q.list| == |p.list| && q.out == p.out
  {
    ReleaseAtMostOne(p, maxFree, 0, newOk);
    MulStep(p.each, Full(p.list));
  }

  // ---------- runs ----------

  datatype Op =
    | DoAlloc(newOk: bool, mallocOk: bool)
    | DoFree                      // of an outstanding holder; nothing happens when there is none
    | DoShrink(newOk: bool)
    | DoGrow(quota: nat)          // the manager moves quota here

  datatype State = State(pool: Pool, bugs: set<Bug>)

  function Step(s: State, op: Op): State
    requires s.pool.each > 0
  {
    match op
    case DoAlloc(n, m) => var r := Alloc(s.pool, n, m); State(r.pool, s.bugs + r.bugs)
    case DoFree => if s.pool.out == 0 then s else var r := Free(s.pool); State(r.pool, s.bugs + r.bugs)
    case DoShrink(n) => var r := Shrink(s.pool, n); State(r.pool, s.bugs + r.bugs)
    case DoGrow(q) => s.(pool := s.pool.(max := s.pool.max + q))
  }

  lemma StepKeepsEach(s: State, op: Op)
    requires s.pool.each > 0
    ensures Step(s, op).pool.each == s.pool.each
  {
    if op.DoShrink? { ReleaseAtMostOne(s.pool, MaxFree(s.pool), 0, op.newOk); }
  }

  function Run(s: State, ops: seq<Op>): State
    requires s.pool.each > 0
    decreases |ops|
  {
    StepKeepsEach(s, if ops == [] then DoFree else ops[0]);
    if ops == [] then s else Run(Step(s, ops[0]), ops[1..])
  }

  /**
   Over every run of Alloc, Free and Shrink from a fresh pool, with any failures
   of new and malloc, the counters are exact, and BAD1, BAD3, BAD4 and
   SZ_TOTAL_BAD are never reported.
   */
  lemma {:induction false} CountersExactOverRuns(s: State, ops: seq<Op>)
    requires Consistent(s.pool) && s.bugs <= {FreeBad2, MaxBad}
    ensures var r := Run(s, ops);
            Consistent(r.pool) && r.bugs <= {FreeBad2, MaxBad}
    decreases |ops|
  {
    if ops != [] {
      match ops[0] {
        case DoAlloc(n, m) => AllocConsistent(s.pool, n, m);
        case DoFree => if s.pool.out > 0 { FreeConsistent(s.pool); }
        case DoShrink(n) => ShrinkConsistent(s.pool, n);
        case DoGrow(_) =>
      }
      StepKeepsEach(s, ops[0]);
      CountersExactOverRuns(Step(s, ops[0]), ops[1..]);
    }
  }

  // ---------- quotas ----------

  predicate WithinQuota(p: Pool) {
    p.total + p.free <= p.max
  }

  /** Shrink will release the top buffer although its size is more than the quota that is left. */
  predicate Unbacked(p: Pool)
    requires p.each > 0
  {
    Spare(p) <= p.each && p.free > MaxFree(p) && Top(p) && p.max < p.each
  }

  /**
   Shrink hands over exactly the quota it gives up, if and only if the pool is
   not unbacked before the call; otherwise it hands over one buffer's size and
   gives up nothing.
   */
  lemma ShrinkReturnsDrop(p: Pool, newOk: bool)
    requires Consistent(p)
    ensures var r := Shrink(p, newOk);
            && (r.shk == p.max - r.pool.max <==> !Unbacked(p))
            && (MaxBad in r.bugs <==> Unbacked(p))
            && r.shk == p.max - r.pool.max + (if Unbacked(p) then p.each else 0)
            && (WithinQuota(p) ==> !Unbacked(p) && WithinQuota(r.pool))
  {
    ReleaseAtMostOne(p, MaxFree(p), 0, newOk);
    MulStep(p.each, Full(p.list));
    if Top(p) { assert p.list == [true] + Rest(p); FullCons(true, Rest(p)); }
  }

  /** Alloc mallocs although the buffers of the free list already fill the quota. */
  predicate Overdraws(p: Pool, newOk: bool, mallocOk: bool) {
    && (p.list != [] || newOk) && mallocOk && !Top(p)
    && p.total + p.each <= p.max < p.total + p.free + p.each
  }

  /** From a pool within quota, Alloc leaves it within quota exactly when it does not overdraw. */
  lemma AllocQuotaExactly(p: Pool, newOk: bool, mallocOk: bool)
    requires Consistent(p) && WithinQuota(p)
    ensures WithinQuota(Alloc(p, newOk, mallocOk).pool) <==> !Overdraws(p, newOk, mallocOk)
  {
    MulStep(p.each, Full(p.list));
    if Top(p) { assert p.list == [true] + Rest(p); FullCons(true, Rest(p)); }
  }

  /** Alloc hands out a buffer of the free list without looking at the limit. */
  predicate ReusesOverLimit(p: Pool) {
    Top(p) && p.total + p.each > p.max
  }

  /** Alloc takes the outstanding bytes over the limit exactly when it reuses a buffer at the limit. */
  lemma AllocLimitExactly(p: Pool, newOk: bool, mallocOk: bool)
    requires p.total <= p.max
    ensures var q := Alloc(p, newOk, mallocOk).pool;
            q.total <= q.max <==> !ReusesOverLimit(p)
  {}

  /** Shrink releases a buffer and lowers the limit by its size, below what is outstanding. */
  predicate ShrinksBelow(p: Pool)
    requires p.each > 0
  {
    Spare(p) <= p.each && p.free > MaxFree(p) && Top(p) && p.each <= p.max < p.total + p.each
  }

  /** Shrink takes the limit below the outstanding bytes exactly then. */
  lemma ShrinkLimitExactly(p: Pool, newOk: bool)
    requires Consistent(p) && p.total <= p.max
    ensures var q := Shrink(p, newOk).pool;
            q.total <= q.max <==> !ShrinksBelow(p)
  {
    ReleaseAtMostOne(p, MaxFree(p), 0, newOk);
    MulStep(p.each, Full(p.list));
  }

  // ---------- exactly which runs keep quota and limit ----------

  ghost predicate QuotaThroughout(s: State, ops: seq<Op>)
    requires s.pool.each > 0
    decreases |ops|
  {
    StepKeepsEach(s, if ops == [] then DoFree else ops[0]);
    WithinQuota(s.pool) && (ops != [] ==> QuotaThroughout(Step(s, ops[0]), ops[1..]))
  }

  ghost predicate NeverOverdraws(s: State, ops: seq<Op>)
    requires s.pool.each > 0
    decreases |ops|
  {
    StepKeepsEach(s, if ops == [] then DoFree else ops[0]);
    ops != [] ==>
      && !(ops[0].DoAlloc? && Overdraws(s.pool, ops[0].newOk, ops[0].mallocOk))
      && NeverOverdraws(Step(s, ops[0]), ops[1..])
  }

  lemma StepConsistent(s: State, op: Op)
    requires Consistent(s.pool)
    ensures Consistent(Step(s, op).pool)
  {
    match op
    case DoAlloc(n, m) => AllocConsistent(s.pool, n, m);
    case DoFree => if s.pool.out > 0 { FreeConsistent(s.pool); }
    case DoShrink(n) => ShrinkConsistent(s.pool, n);
    case DoGrow(_) =>
  }

  lemma StepQuotaExactly(s: State, op: Op)
    requires Consistent(s.pool) && WithinQuota(s.pool)
    ensures WithinQuota(Step(s, op).pool) <==> !(op.DoAlloc? && Overdraws(s.pool, op.newOk, op.mallocOk))
  {
    match op
    case DoAlloc(n, m) => AllocQuotaExactly(s.pool, n, m);
    case DoFree => MulStep(s.pool.each, s.pool.out);
    case DoShrink(n) => ShrinkReturnsDrop(s.pool, n);
    case DoGrow(_) =>
  }

  /**
   Over every run: outstanding and free bytes together stay within the quota
   throughout, if and only if no Alloc of the run overdraws.
   */
  lemma {:induction false} RunQuotaExactly(s: State, ops: seq<Op>)
    requires Consistent(s.pool) && WithinQuota(s.pool)
    ensures QuotaThroughout(s, ops) <==> NeverOverdraws(s, ops)
    decreases |ops|
  {
    if ops != [] {
      StepQuotaExactly(s, ops[0]);
      StepConsistent(s, ops[0]);
      if WithinQuota(Step(s, ops[0]).pool) { RunQuotaExactly(Step(s, ops[0]), ops[1..]); }
      assert QuotaThroughout(s, ops) <==> QuotaThroughout(Step(s, ops[0]), ops[1..]);
    }
  }

  /** The step breaks the limit on outstanding bytes: a reuse at the limit, or a release just above it. */
  predicate BreaksLimit(p: Pool, op: Op)
    requires p.each > 0
  {
    || (op.DoAlloc? && ReusesOverLimit(p))
    || (op.DoShrink? && ShrinksBelow(p))
  }

  ghost predicate LimitThroughout(s: State, ops: seq<Op>)
    requires s.pool.each > 0
    decreases |ops|
  {
    StepKeepsEach(s, if ops == [] then DoFree else ops[0]);
    s.pool.total <= s.pool.max && (ops != [] ==> LimitThroughout(Step(s, ops[0]), ops[1..]))
  }

  ghost predicate NeverBreaksLimit(s: State, ops: seq<Op>)
    requires s.pool.each > 0
    decreases |ops|
  {
    StepKeepsEach(s, if ops == [] then DoFree else ops[0]);
    ops != [] ==> !BreaksLimit(s.pool, ops[0]) && NeverBreaksLimit(Step(s, ops[0]), ops[1..])
  }

  lemma StepLimitExactly(s: State, op: Op)
    requires Consistent(s.pool) && s.pool.total <= s.pool.max
    ensures var q := Step(s, op).pool; q.total <= q.max <==> !BreaksLimit(s.pool, op)
  {
    match op
    case DoAlloc(n, m) => AllocLimitExactly(s.pool, n, m);
    case DoFree =>
    case DoShrink(n) => ShrinkLimitExactly(s.pool, n);
    case DoGrow(_) =>
  }

  /** Over every run: the outstanding bytes stay within the limit throughout, if and only if no step breaks it. */
  lemma {:induction false} RunLimitExactly(s: State, ops: seq<Op>)
    requires Consistent(s.pool) && s.pool.total <= s.pool.max
    ensures LimitThroughout(s, ops) <==> NeverBreaksLimit(s, ops)
    decreases |ops|
  {
    if ops != [] {
      StepLimitExactly(s, ops[0]);
      StepConsistent(s, ops[0]);
      var t := Step(s, ops[0]);
      if t.pool.total <= t.pool.max { RunLimitExactly(t, ops[1..]); }
      assert LimitThroughout(s, ops) <==> LimitThroughout(t, ops[1..]);
    }
  }

  /** Holders with memory lie above those without. */
  predicate Layered(list: seq<bool>) {
    list != [] ==> (list[0] || Full(list) == 0) && Layered(list[1..])
  }

  /** The release loop either does not run or empties the only buffer of the free list. */
  predicate LeavesNoneBelow(p: Pool)
    requires p.each > 0
  {
    Spare(p) > p.each || p.free <= MaxFree(p) || Full(p.list) <= 1
  }

  predicate Orderly(p: Pool) {
    Consistent(p) && WithinQuota(p) && Layered(p.list)
  }

  lemma OrderlyStep(s: State, op: Op)
    requires Orderly(s.pool) && (op.DoShrink? ==> LeavesNoneBelow(s.pool))
    ensures Orderly(Step(s, op).pool)
  {
    var p := s.pool;
    FullCons(false, Rest(p));
    FullCons(true, p.list);
    assert ([true] + p.list)[1..] == p.list && ([false] + Rest(p))[1..] == Rest(p);
    if p.list != [] { assert p.list == [p.list[0]] + Rest(p); FullCons(p.list[0], Rest(p)); }
    match op
    case DoAlloc(n, m) =>
      AllocConsistent(p, n, m);
      AllocQuotaExactly(p, n, m);
    case DoFree => if p.out > 0 { FreeConsistent(p); }
    case DoShrink(n) =>
      ShrinkConsistent(p, n);
      ShrinkReturnsDrop(p, n);
      ReleaseAtMostOne(p, MaxFree(p), 0, n);
    case DoGrow(q) =>
  }

  predicate OrderlyRun(s: State, ops: seq<Op>)
    requires s.pool.each > 0
    decreases |ops|
  {
    StepKeepsEach(s, if ops == [] then DoFree else ops[0]);
    ops == [] ||
    ((ops[0].DoShrink? ==> LeavesNoneBelow(s.pool)) && OrderlyRun(Step(s, ops[0]), ops[1..]))
  }

  /**
   As long as no Shrink empties a holder above ones that still have memory, every
   run keeps outstanding plus free bytes within the quota.
   */
  lemma {:induction false} OrderlyRunsStayWithinQuota(s: State, ops: seq<Op>)
    requires Orderly(s.pool) && OrderlyRun(s, ops)
    ensures Orderly(Run(s, ops).pool)
    decreases |ops|
  {
    if ops != [] {
      OrderlyStep(s, ops[0]);
      OrderlyRunsStayWithinQuota(Step(s, ops[0]), ops[1..]);
    }
  }

  // ---------- where the limit fails ----------

  ghost predicate Reaches(s: State, p: Pool) {
    s.pool.each > 0 && exists ops :: Run(s, ops).pool == p
  }

  lemma {:induction false} RunSnoc(s: State, ops: seq<Op>, op: Op)
    requires s.pool.each > 0
    ensures Run(s, ops).pool.each > 0 && Run(s, ops + [op]) == Step(Run(s, ops), op)
    decreases |ops|
  {
    StepKeepsEach(s, if ops == [] then op else ops[0]);
    if ops == [] {
      assert [] + [op] == [op] && [op][1..] == [];
      assert Run(s, [op]) == Run(Step(s, op), []);
    } else {
      assert (ops + [op])[1..] == ops[1..] + [op];
      RunSnoc(Step(s, ops[0]), ops[1..], op);
    }
  }

  /** One more operation: the next pool does not depend on which bugs were reported before. */
  lemma ReachesNext(s: State, p: Pool, op: Op, q: Pool)
    requires Reaches(s, p) && p.each > 0 && Step(State(p, {}), op).pool == q
    ensures Reaches(s, q)
  {
    var ops :| Run(s, ops).pool == p;
    RunSnoc(s, ops, op);
    assert Run(s, ops + [op]).pool == q;
  }

  const ALLOC := DoAlloc(true, true)
  const SHRINK := DoShrink(true)

  lemma ShrinkExample(p: Pool, q: Pool)
    requires p.each > 0 && Spare(p) <= p.each && p.free > MaxFree(p) && Top(p) && p.each <= p.free && p.each <= p.max
    requires q == p.(free := p.free - p.each, max := p.max - p.each, list := [false] + Rest(p))
    ensures Step(State(p, {}), SHRINK).pool == q
  {
    ReleaseAtMostOne(p, MaxFree(p), 0, true);
  }

  /** A run of one pool after which 128 bytes are outstanding under a limit of 64. */
  lemma LimitOverrun()
    ensures Reaches(State(Fresh(64, 128), {}), Pool(64, 128, 0, 64, [], 2))
  {
    var s := State(Fresh(64, 128), {});
    assert Run(s, []).pool == s.pool;
    ReachesNext(s, s.pool, ALLOC, Pool(64, 64, 0, 128, [], 1));
    ReachesNext(s, Pool(64, 64, 0, 128, [], 1), ALLOC, Pool(64, 128, 0, 128, [], 2));
    ReachesNext(s, Pool(64, 128, 0, 128, [], 2), DoFree, Pool(64, 64, 64, 128, [true], 1));
    ReachesNext(s, Pool(64, 64, 64, 128, [true], 1), DoFree, Pool(64, 0, 128, 128, [true, true], 0));
    ShrinkExample(Pool(64, 0, 128, 128, [true, true], 0), Pool(64, 0, 64, 64, [false, true], 0));
    ReachesNext(s, Pool(64, 0, 128, 128, [true, true], 0), SHRINK, Pool(64, 0, 64, 64, [false, true], 0));
    ReachesNext(s, Pool(64, 0, 64, 64, [false, true], 0), ALLOC, Pool(64, 64, 64, 64, [true], 1));
    ReachesNext(s, Pool(64, 64, 64, 64, [true], 1), ALLOC, Pool(64, 128, 0, 64, [], 2));
  }

  /** The run goes on until Shrink hands out 64 bytes of quota that the pool does not have. */
  lemma QuotaFromNothing()
    ensures var p := Pool(64, 0, 64, 0, [true, false], 0);
            && Reaches(State(Fresh(64, 128), {}), p)
            && Shrink(p, true).shk == 64 && Shrink(p, true).pool.max == p.max
  {
    LimitOverrun();
    var s := State(Fresh(64, 128), {});
    ReachesNext(s, Pool(64, 128, 0, 64, [], 2), DoFree, Pool(64, 64, 64, 64, [true], 1));
    ShrinkExample(Pool(64, 64, 64, 64, [true], 1), Pool(64, 64, 0, 0, [false], 1));
    ReachesNext(s, Pool(64, 64, 64, 64, [true], 1), SHRINK, Pool(64, 64, 0, 0, [false], 1));
    ReachesNext(s, Pool(64, 64, 0, 0, [false], 1), DoFree, Pool(64, 0, 64, 0, [true, false], 0));
    ReleaseAtMostOne(Pool(64, 0, 64, 0, [true, false], 0), 0, 0, true);
  }
}
