/**
 UcMemManager of src/mem_pool.cc as a value: ten pools, created on first use,
 whose quotas move when one of them runs out.
 */
module MemManager {
  import opened Bytes
  import opened MemPool
  import opened SizeClass

  datatype Manager = Manager(max: nat, pools: seq<Option<Pool>>)

  predicate WellFormed(m: Manager) {
    && |m.pools| == NR
    && forall i :: 0 <= i < NR && m.pools[i].Some? ==>
         m.pools[i].value.each == SizeOf(i) && Consistent(m.pools[i].value)
  }

  /** A pool that has not been created yet will start with a tenth of the manager's maximum. */
  function QuotaOf(max: nat, p: Option<Pool>): nat {
    if p.Some? then p.value.max else max / NR
  }

  function QuotaSum(max: nat, ps: seq<Option<Pool>>): nat {
    if ps == [] then 0 else QuotaOf(max, ps[0]) + QuotaSum(max, ps[1..])
  }

  /** GetPool(i), creatable being the set of pools for which `new UcMemPool` succeeds. */
  function GetPool(m: Manager, i: nat, creatable: set<nat>): Manager
    requires i < |m.pools| == NR
  {
    if m.pools[i].None? && i in creatable
    then m.(pools := m.pools[i := Some(Fresh(SizeOf(i), m.max / NR))])
    else m
  }

  /**
   Progress of a shrinking loop: shk is what the source adds up, excess the part
   of it that no pool gave up, and bad whether a Shrink reported SZ_MAX_BAD.
   */
  datatype Step = Step(m: Manager, shk: nat, excess: nat, bad: bool, done: bool)

  lemma ShrinkFacts(p: Pool)
    requires Consistent(p)
    ensures var h := Shrink(p, true);
            && h.pool.each == p.each && Consistent(h.pool) && h.pool.max <= p.max
            && h.shk == p.max - h.pool.max + (if Unbacked(p) then p.each else 0)
            && (MaxBad in h.bugs <==> Unbacked(p))
  {
    ShrinkConsistent(p, true);
    ShrinkReturnsDrop(p, true);
    ReleaseAtMostOne(p, MaxFree(p), 0, true);
  }

  /** GetPool(i) and, if there is one, its Shrink. */
  function ShrinkAt(s: Step, i: nat, creatable: set<nat>): (r: Step)
    requires WellFormed(s.m) && i < NR
    ensures WellFormed(r.m) && r.m.max == s.m.max
    ensures forall j :: 0 <= j < NR && j != i ==> r.m.pools[j] == s.m.pools[j]
  {
    var m1 := GetPool(s.m, i, creatable);
    if m1.pools[i].None? then s.(m := m1, done := false)
    else
      var p := m1.pools[i].value;
      ShrinkFacts(p);
      var h := Shrink(p, true);
      Step(m1.(pools := m1.pools[i := Some(h.pool)]), s.shk + h.shk, s.excess + (h.shk - (p.max - h.pool.max)),
           s.bad || MaxBad in h.bugs, true)
  }

  /** The first loop: pools larger than the one in need, until enough has been given up. */
  function ShrinkLarger(s: Step, magic: nat, i: nat, creatable: set<nat>): (r: Step)
    requires WellFormed(s.m) && magic <= i < NR
    ensures WellFormed(r.m) && r.m.max == s.m.max
    ensures forall j :: 0 <= j <= magic ==> r.m.pools[j] == s.m.pools[j]
    decreases i
  {
    if i == magic then s.(done := false)
    else
      var t := ShrinkAt(s, i, creatable);
      if t.done && t.shk >= SizeOf(magic) then t else ShrinkLarger(t, magic, i - 1, creatable)
  }

  lemma LargerUnfolds(s: Step, magic: nat, i: nat, creatable: set<nat>)
    requires WellFormed(s.m) && magic < i < NR
    ensures var t := ShrinkAt(s, i, creatable);
            ShrinkLarger(s, magic, i, creatable) ==
            if t.done && t.shk >= SizeOf(magic) then t else ShrinkLarger(t, magic, i - 1, creatable)
  {}

  /** The second loop: every smaller pool; i counts the pools still to visit. */
  function ShrinkSmaller(s: Step, i: nat, creatable: set<nat>): (r: Step)
    requires WellFormed(s.m) && i < NR
    ensures WellFormed(r.m) && r.m.max == s.m.max
    ensures forall j :: i <= j < NR ==> r.m.pools[j] == s.m.pools[j]
    decreases i
  {
    if i == 0 then s else ShrinkSmaller(ShrinkAt(s, i - 1, creatable), i - 1, creatable)
  }

  /** UcMemManager::Shrink: the pool in need is not touched. */
  function ShrinkOthers(m: Manager, magic: nat, creatable: set<nat>): (r: Step)
    requires WellFormed(m) && magic < NR
    ensures WellFormed(r.m) && r.m.max == m.max && r.m.pools[magic] == m.pools[magic]
  {
    var a := ShrinkLarger(Step(m, 0, 0, false, false), magic, NR - 1, creatable);
    if a.done then a else ShrinkSmaller(a, magic, creatable)
  }

  datatype Allocation = Allocation(m: Manager, got: bool, excess: nat, bad: bool)

  function WithPool(m: Manager, i: nat, p: Pool): Manager
    requires i < |m.pools|
  {
    m.(pools := m.pools[i := Some(p)])
  }

  /** What happens outside the program: does `new` of a holder, `malloc`, `new` of a pool succeed? */
  datatype Env = Env(newOk: bool, mallocOk: bool, creatable: set<nat>)

  /** Allocate again with the quota the other pools gave up, if any. */
  function Regrow(s: Step, magic: nat, env: Env): Allocation
    requires magic < |s.m.pools| && s.m.pools[magic].Some?
  {
    if s.shk == 0 then Allocation(s.m, false, s.excess, s.bad)
    else
      var p := s.m.pools[magic].value;
      var b := Alloc(p.(max := p.max + s.shk), env.newOk, env.mallocOk);
      Allocation(WithPool(s.m, magic, b.pool), b.outcome == Got, s.excess, s.bad)
  }

  /** Alloc's second attempt. */
  function Retry(m: Manager, magic: nat, env: Env): Allocation
    requires WellFormed(m) && magic < NR && m.pools[magic].Some?
  {
    Regrow(ShrinkOthers(m, magic, env.creatable), magic, env)
  }

  /** UcMemManager::Alloc for a request of size class magic. */
  function AllocClass(m: Manager, magic: nat, env: Env): Allocation
    requires WellFormed(m) && magic < NR
  {
    var m0 := GetPool(m, magic, env.creatable);
    if m0.pools[magic].None? then Allocation(m0, false, 0, false)
    else
      var a := Alloc(m0.pools[magic].value, env.newOk, env.mallocOk);
      AllocConsistent(m0.pools[magic].value, env.newOk, env.mallocOk);
      var m1 := WithPool(m0, magic, a.pool);
      if a.outcome != Exceeded then Allocation(m1, a.outcome == Got, 0, false) else Retry(m1, magic, env)
  }

  // ---------- conservation of the quotas ----------

  lemma {:induction false} SumUpdate(max: nat, ps: seq<Option<Pool>>, i: nat, p: Option<Pool>)
    requires i < |ps|
    ensures QuotaSum(max, ps[i := p]) + QuotaOf(max, ps[i]) == QuotaSum(max, ps) + QuotaOf(max, p)
  {
    if i == 0 {
      assert ps[0 := p][1..] == ps[1..];
    } else {
      assert ps[i := p][1..] == ps[1..][i - 1 := p];
      SumUpdate(max, ps[1..], i - 1, p);
    }
  }

  function Sum(m: Manager): nat {
    QuotaSum(m.max, m.pools)
  }

  lemma GetPoolKeepsSum(m: Manager, i: nat, creatable: set<nat>)
    requires i < |m.pools| == NR
    ensures Sum(GetPool(m, i, creatable)) == Sum(m)
  {
    SumUpdate(m.max, m.pools, i, Some(Fresh(SizeOf(i), m.max / NR)));
  }

  /** There is an excess exactly when SZ_MAX_BAD was reported. */
  predicate Tied(s: Step) {
    s.excess > 0 <==> s.bad
  }

  /** From s to r: what was counted is what the pools gave up, plus the excess. */
  predicate Balanced(s: Step, r: Step) {
    Sum(r.m) + r.shk + s.excess == Sum(s.m) + s.shk + r.excess && (Tied(s) ==> Tied(r))
  }

  /** One pool. */
  lemma ShrinkAtConserves(s: Step, i: nat, creatable: set<nat>)
    requires WellFormed(s.m) && i < NR
    ensures Balanced(s, ShrinkAt(s, i, creatable))
  {
    GetPoolKeepsSum(s.m, i, creatable);
    var m1 := GetPool(s.m, i, creatable);
    if m1.pools[i].Some? {
      ShrinkFacts(m1.pools[i].value);
      SumUpdate(m1.max, m1.pools, i, Some(Shrink(m1.pools[i].value, true).pool));
    }
  }

  lemma {:induction false} ShrinkLargerConserves(s: Step, magic: nat, i: nat, creatable: set<nat>)
    requires WellFormed(s.m) && magic <= i < NR
    ensures Balanced(s, ShrinkLarger(s, magic, i, creatable))
    decreases i
  {
    if i != magic {
      var t := ShrinkAt(s, i, creatable);
      ShrinkAtConserves(s, i, creatable);
      ShrinkLargerConserves(t, magic, i - 1, creatable);
      BalancedOnward(s, t, ShrinkLarger(t, magic, i - 1, creatable));
    }
  }

  lemma BalancedOnward(s: Step, t: Step, r: Step)
    requires Balanced(s, t) && Balanced(t, r)
    ensures Balanced(s, r)
  {}

  lemma {:induction false} ShrinkSmallerConserves(s: Step, i: nat, creatable: set<nat>)
    requires WellFormed(s.m) && i < NR
    ensures Balanced(s, ShrinkSmaller(s, i, creatable))
    decreases i
  {
    if i != 0 {
      var t := ShrinkAt(s, i - 1, creatable);
      ShrinkAtConserves(s, i - 1, creatable);
      ShrinkSmallerConserves(t, i - 1, creatable);
      BalancedOnward(s, t, ShrinkSmaller(t, i - 1, creatable));
    }
  }

  lemma ShrinkOthersConserves(m: Manager, magic: nat, creatable: set<nat>)
    requires WellFormed(m) && magic < NR
    ensures var r := ShrinkOthers(m, magic, creatable); Sum(r.m) + r.shk == Sum(m) + r.excess && Tied(r)
  {
    var s := Step(m, 0, 0, false, false);
    ShrinkLargerConserves(s, magic, NR - 1, creatable);
    ShrinkSmallerConserves(ShrinkLarger(s, magic, NR - 1, creatable), magic, creatable);
  }

  lemma RetryConserves(m: Manager, magic: nat, env: Env)
    requires WellFormed(m) && magic < NR && m.pools[magic].Some?
    ensures var r := Retry(m, magic, env); Sum(r.m) == Sum(m) + r.excess && (r.excess > 0 <==> r.bad)
  {
    ShrinkOthersConserves(m, magic, env.creatable);
    RegrowSum(ShrinkOthers(m, magic, env.creatable), magic, env);
  }

  lemma RegrowSum(s: Step, magic: nat, env: Env)
    requires magic < |s.m.pools| && s.m.pools[magic].Some?
    ensures var r := Regrow(s, magic, env); Sum(r.m) == Sum(s.m) + s.shk && r.excess == s.excess && r.bad == s.bad
  {
    GrownSum(s.m, magic, s.shk, env);
  }

  /** Quota added to a pool before it allocates is in the sum afterwards. */
  lemma GrownSum(m: Manager, i: nat, shk: nat, env: Env)
    requires i < |m.pools| && m.pools[i].Some?
    ensures var p := m.pools[i].value;
            Sum(WithPool(m, i, Alloc(p.(max := p.max + shk), env.newOk, env.mallocOk).pool)) == Sum(m) + shk
  {
    var p := m.pools[i].value;
    AllocKeepsQuota(p.(max := p.max + shk), env);
    ReplacedSum(m, i, Alloc(p.(max := p.max + shk), env.newOk, env.mallocOk).pool);
  }

  lemma AllocKeepsQuota(p: Pool, env: Env)
    ensures Alloc(p, env.newOk, env.mallocOk).pool.max == p.max
  {}

  lemma ReplacedSum(m: Manager, i: nat, q: Pool)
    requires i < |m.pools| && m.pools[i].Some?
    ensures Sum(WithPool(m, i, q)) + m.pools[i].value.max == Sum(m) + q.max
  {
    SumUpdate(m.max, m.pools, i, Some(q));
  }

  /**
   Alloc moves quota between pools and creates none, except for the excess: the
   sum of the ten quotas afterwards is the sum before plus exactly that, and
   there is one exactly when some Shrink reported SZ_MAX_BAD.
   */
  lemma AllocConservesQuotas(m: Manager, magic: nat, env: Env)
    requires WellFormed(m) && magic < NR
    ensures var r := AllocClass(m, magic, env); Sum(r.m) == Sum(m) + r.excess && (r.excess > 0 <==> r.bad)
  {
    var m0 := GetPool(m, magic, env.creatable);
    GetPoolKeepsSum(m, magic, env.creatable);
    if m0.pools[magic].Some? {
      var p0 := m0.pools[magic].value;
      var a := Alloc(p0, env.newOk, env.mallocOk);
      AllocConsistent(p0, env.newOk, env.mallocOk);
      AllocKeepsQuota(p0, env);
      ReplacedSum(m0, magic, a.pool);
      if a.outcome == Exceeded { RetryConserves(WithPool(m0, magic, a.pool), magic, env); }
    }
  }

  // ---------- no excess from pools within their quota ----------

  predicate Tight(p: Option<Pool>) {
    p.Some? ==> WithinQuota(p.value)
  }

  lemma ShrinkAtTight(s: Step, i: nat, creatable: set<nat>)
    requires WellFormed(s.m) && i < NR && Tight(s.m.pools[i])
    ensures ShrinkAt(s, i, creatable).excess == s.excess
  {
    var m1 := GetPool(s.m, i, creatable);
    if m1.pools[i].Some? { ShrinkReturnsDrop(m1.pools[i].value, true); }
  }

  lemma {:induction false} ShrinkLargerTight(s: Step, magic: nat, i: nat, creatable: set<nat>)
    requires WellFormed(s.m) && magic <= i < NR && forall j :: 0 <= j <= i ==> Tight(s.m.pools[j])
    ensures ShrinkLarger(s, magic, i, creatable).excess == s.excess
    decreases i
  {
    if i != magic {
      ShrinkAtTight(s, i, creatable);
      var t := ShrinkAt(s, i, creatable);
      forall j | 0 <= j < i ensures Tight(t.m.pools[j]) { assert t.m.pools[j] == s.m.pools[j]; }
      ShrinkLargerTight(t, magic, i - 1, creatable);
    }
  }

  lemma {:induction false} ShrinkSmallerTight(s: Step, i: nat, creatable: set<nat>)
    requires WellFormed(s.m) && i < NR && forall j :: 0 <= j < i ==> Tight(s.m.pools[j])
    ensures ShrinkSmaller(s, i, creatable).excess == s.excess
    decreases i
  {
    if i != 0 {
      ShrinkAtTight(s, i - 1, creatable);
      var t := ShrinkAt(s, i - 1, creatable);
      forall j | 0 <= j < i - 1 ensures Tight(t.m.pools[j]) { assert t.m.pools[j] == s.m.pools[j]; }
      ShrinkSmallerTight(t, i - 1, creatable);
    }
  }

  lemma RetryTight(m: Manager, magic: nat, env: Env)
    requires WellFormed(m) && magic < NR && m.pools[magic].Some?
    requires forall i :: 0 <= i < NR ==> Tight(m.pools[i])
    ensures Retry(m, magic, env).excess == 0
  {
    var s := Step(m, 0, 0, false, false);
    ShrinkLargerTight(s, magic, NR - 1, env.creatable);
    ShrinkSmallerTight(ShrinkLarger(s, magic, NR - 1, env.creatable), magic, env.creatable);
  }

  /** A pool that reports its limit as reached keeps its counters. */
  lemma ExceededKeepsTight(p: Pool, env: Env)
    requires WithinQuota(p)
    ensures var a := Alloc(p, env.newOk, env.mallocOk); a.outcome == Exceeded ==> WithinQuota(a.pool)
  {}

  /** When every pool is within its quota, Alloc leaves the sum of the ten quotas unchanged. */
  lemma QuotasConservedWithinQuota(m: Manager, magic: nat, env: Env)
    requires WellFormed(m) && magic < NR && forall i :: 0 <= i < NR ==> Tight(m.pools[i])
    ensures Sum(AllocClass(m, magic, env).m) == Sum(m)
  {
    AllocConservesQuotas(m, magic, env);
    var m0 := GetPool(m, magic, env.creatable);
    if m0.pools[magic].Some? {
      var p0 := m0.pools[magic].value;
      var a := Alloc(p0, env.newOk, env.mallocOk);
      ExceededKeepsTight(p0, env);
      AllocConsistent(p0, env.newOk, env.mallocOk);
      if a.outcome == Exceeded { RetryTight(WithPool(m0, magic, a.pool), magic, env); }
    }
  }

  // ---------- every run of the manager ----------

  datatype Call =
    | Ask(magic: nat, env: Env)     // Alloc of a size in the class
    | Return(magic: nat)            // Free of an outstanding buffer of the class; nothing happens when there is none

  lemma ReplacedWellFormed(m: Manager, i: nat, q: Pool)
    requires WellFormed(m) && i < NR && q.each == SizeOf(i) && Consistent(q)
    ensures WellFormed(WithPool(m, i, q))
  {}

  lemma AllocKeepsClass(p: Pool, env: Env)
    requires Consistent(p)
    ensures var q := Alloc(p, env.newOk, env.mallocOk).pool; q.each == p.each && Consistent(q)
  {
    AllocConsistent(p, env.newOk, env.mallocOk);
  }

  lemma GrownWellFormed(m: Manager, i: nat, shk: nat, env: Env)
    requires WellFormed(m) && i < NR && m.pools[i].Some?
    ensures var p := m.pools[i].value;
            WellFormed(WithPool(m, i, Alloc(p.(max := p.max + shk), env.newOk, env.mallocOk).pool))
  {
    var p := m.pools[i].value;
    var grown := p.(max := p.max + shk);
    AllocKeepsClass(grown, env);
    ReplacedWellFormed(m, i, Alloc(grown, env.newOk, env.mallocOk).pool);
  }

  lemma RegrowWellFormed(s: Step, magic: nat, env: Env)
    requires WellFormed(s.m) && magic < NR && s.m.pools[magic].Some?
    ensures WellFormed(Regrow(s, magic, env).m)
  {
    GrownWellFormed(s.m, magic, s.shk, env);
  }

  lemma RetryWellFormed(m: Manager, magic: nat, env: Env)
    requires WellFormed(m) && magic < NR && m.pools[magic].Some?
    ensures WellFormed(Retry(m, magic, env).m)
  {
    RegrowWellFormed(ShrinkOthers(m, magic, env.creatable), magic, env);
  }

  lemma AllocWellFormed(m: Manager, magic: nat, env: Env)
    requires WellFormed(m) && magic < NR
    ensures WellFormed(AllocClass(m, magic, env).m)
  {
    var m0 := GetPool(m, magic, env.creatable);
    if m0.pools[magic].Some? {
      var p := m0.pools[magic].value;
      AllocKeepsClass(p, env);
      var a := Alloc(p, env.newOk, env.mallocOk);
      ReplacedWellFormed(m0, magic, a.pool);
      if a.outcome == Exceeded { RetryWellFormed(WithPool(m0, magic, a.pool), magic, env); }
    }
  }

  /** One call, and the quota it made out of nothing. */
  function Apply(m: Manager, op: Call): (r: Allocation)
    requires WellFormed(m) && op.magic < NR
    ensures WellFormed(r.m)
  {
    if op.Ask? then
      AllocWellFormed(m, op.magic, op.env);
      AllocClass(m, op.magic, op.env)
    else if m.pools[op.magic].Some? && m.pools[op.magic].value.out > 0 then
      var p := m.pools[op.magic].value;
      FreeConsistent(p);
      ReplacedWellFormed(m, op.magic, Free(p).pool);
      Allocation(WithPool(m, op.magic, Free(p).pool), true, 0, false)
    else Allocation(m, false, 0, false)
  }

  predicate Classes(ops: seq<Call>) {
    forall k :: 0 <= k < |ops| ==> ops[k].magic < NR
  }

  /** The manager after some calls, and all the quota they made out of nothing. */
  function Run(m: Manager, ops: seq<Call>): (r: Allocation)
    requires WellFormed(m) && Classes(ops)
    ensures WellFormed(r.m)
  {
    if ops == [] then Allocation(m, true, 0, false)
    else
      var front := Run(m, ops[..|ops| - 1]);
      var r := Apply(front.m, ops[|ops| - 1]);
      r.(excess := front.excess + r.excess, bad := front.bad || r.bad)
  }

  lemma ApplyConserves(m: Manager, op: Call)
    requires WellFormed(m) && op.magic < NR
    ensures var r := Apply(m, op); Sum(r.m) == Sum(m) + r.excess && (r.excess > 0 <==> r.bad)
  {
    if op.Ask? {
      AllocConservesQuotas(m, op.magic, op.env);
    } else if m.pools[op.magic].Some? && m.pools[op.magic].value.out > 0 {
      ReplacedSum(m, op.magic, Free(m.pools[op.magic].value).pool);
    }
  }

  /**
   Over every run of Alloc and Free, whatever fails on the way, the ten quotas
   add up to what they were plus exactly the quota that Shrink handed out
   without having it, which is none exactly when SZ_MAX_BAD was never reported;
   each pool keeps exact counters throughout.
   */
  lemma {:induction false} RunConservesQuotas(m: Manager, ops: seq<Call>)
    requires WellFormed(m) && Classes(ops)
    ensures var r := Run(m, ops); WellFormed(r.m) && Sum(r.m) == Sum(m) + r.excess && (r.excess > 0 <==> r.bad)
  {
    if ops != [] {
      var front := ops[..|ops| - 1];
      RunConservesQuotas(m, front);
      ApplyConserves(Run(m, front).m, ops[|ops| - 1]);
    }
  }
}
