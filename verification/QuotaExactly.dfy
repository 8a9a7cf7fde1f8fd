/**
 UcMemManager::Alloc in terms of the pools before the call: exactly when it
 succeeds, and exactly when, and by how much, it makes quota out of nothing.
 */
module QuotaExactly {
  import opened Bytes
  import opened SizeClass
  import opened MemPool
  import MM = MemManager

  // ---------- reckoning with ten numbers ----------

  type Ten = s: seq<nat> | |s| == NR witness [0, 0, 0, 0, 0, 0, 0, 0, 0, 0]

  /** The sum of the numbers above i. */
  function Above(g: Ten, i: nat): nat
    requires i < NR
    decreases NR - i
  {
    if i == NR - 1 then 0 else g[i + 1] + Above(g, i + 1)
  }

  function Below(g: Ten, i: nat): nat
    requires i <= NR
  {
    if i == 0 then 0 else g[i - 1] + Below(g, i - 1)
  }

  /** The sum of o over the classes above magic, up to i, that are reached before g adds up to need. */
  function LargerSum(g: Ten, o: Ten, magic: nat, need: nat, i: nat): nat
    requires magic <= i < NR
    decreases i
  {
    if i == magic then 0
    else (if Above(g, i) < need then o[i] else 0) + LargerSum(g, o, magic, need, i - 1)
  }

  /** The sum of o over all classes that are reached: the smaller ones when the larger do not give enough. */
  function ReachedSum(g: Ten, o: Ten, magic: nat, need: nat): nat
    requires magic < NR
  {
    LargerSum(g, o, magic, need, NR - 1) + if Above(g, magic) < need then Below(o, magic) else 0
  }

  lemma {:induction false} NothingBelow(g: Ten, o: Ten, magic: nat, need: nat, i: nat)
    requires magic <= i < NR && Above(g, i) >= need
    ensures LargerSum(g, o, magic, need, i) == 0 && Above(g, magic) >= need
    decreases i
  {
    if i > magic { NothingBelow(g, o, magic, need, i - 1); }
  }

  /** Only the numbers of other classes matter. */
  predicate SameOff(g: Ten, h: Ten, magic: nat) {
    forall j :: 0 <= j < NR && j != magic ==> g[j] == h[j]
  }

  lemma {:induction false} AboveSame(g: Ten, h: Ten, magic: nat, i: nat)
    requires SameOff(g, h, magic) && magic <= i < NR
    ensures Above(g, i) == Above(h, i)
    decreases NR - i
  {
    if i < NR - 1 { AboveSame(g, h, magic, i + 1); }
  }

  lemma {:induction false} BelowSame(o: Ten, p: Ten, magic: nat, i: nat)
    requires SameOff(o, p, magic) && i <= magic < NR
    ensures Below(o, i) == Below(p, i)
  {
    if i > 0 { BelowSame(o, p, magic, i - 1); }
  }

  lemma {:induction false} LargerSame(g: Ten, h: Ten, o: Ten, p: Ten, magic: nat, need: nat, i: nat)
    requires SameOff(g, h, magic) && SameOff(o, p, magic) && magic <= i < NR
    ensures LargerSum(g, o, magic, need, i) == LargerSum(h, p, magic, need, i)
    decreases i
  {
    if i > magic {
      AboveSame(g, h, magic, i);
      LargerSame(g, h, o, p, magic, need, i - 1);
    }
  }

  lemma ReachedSame(g: Ten, h: Ten, o: Ten, p: Ten, magic: nat, need: nat)
    requires SameOff(g, h, magic) && SameOff(o, p, magic) && magic < NR
    ensures ReachedSum(g, o, magic, need) == ReachedSum(h, p, magic, need)
  {
    AboveSame(g, h, magic, magic);
    BelowSame(o, p, magic, magic);
    LargerSame(g, h, o, p, magic, need, NR - 1);
  }

  // ---------- what the pools give up and owe ----------

  /** What Shrink of pool i adds to the sum; c says which pools can be created. */
  function Gives(m: MM.Manager, i: nat, c: set<nat>): nat
    requires MM.WellFormed(m) && i < NR
  {
    var p := MM.GetPool(m, i, c).pools[i];
    if p.None? then 0 else Shrink(p.value, true).shk
  }

  /** Pool i would hand over a buffer's size that is not in its quota. */
  predicate OwesAt(m: MM.Manager, i: nat)
    requires MM.WellFormed(m) && i < NR
  {
    m.pools[i].Some? && Unbacked(m.pools[i].value)
  }

  function Owes(m: MM.Manager, i: nat): nat
    requires MM.WellFormed(m) && i < NR
  {
    if OwesAt(m, i) then SizeOf(i) else 0
  }

  function AllGive(m: MM.Manager, c: set<nat>): (g: Ten)
    requires MM.WellFormed(m)
    ensures forall i :: 0 <= i < NR ==> g[i] == Gives(m, i, c)
  {
    seq(NR, i requires 0 <= i < NR => Gives(m, i, c))
  }

  function AllOwe(m: MM.Manager): (o: Ten)
    requires MM.WellFormed(m)
    ensures forall i :: 0 <= i < NR ==> o[i] == Owes(m, i)
  {
    seq(NR, i requires 0 <= i < NR => Owes(m, i))
  }

  /** The quota that shrinking the others for class magic makes out of nothing. */
  function Debt(m: MM.Manager, magic: nat, c: set<nat>): nat
    requires MM.WellFormed(m) && magic < NR
  {
    ReachedSum(AllGive(m, c), AllOwe(m), magic, SizeOf(magic))
  }

  /** What the others give up for class magic: the larger ones until it is enough, else all. */
  function Given(m: MM.Manager, magic: nat, c: set<nat>): nat
    requires MM.WellFormed(m) && magic < NR
  {
    ReachedSum(AllGive(m, c), AllGive(m, c), magic, SizeOf(magic))
  }

  // ---------- the shrinking loops ----------

  /** One pool that has not been touched since the call began. */
  lemma ShrinkAtExactly(s: MM.Step, m: MM.Manager, i: nat, c: set<nat>)
    requires MM.WellFormed(s.m) && MM.WellFormed(m) && i < NR && s.m.max == m.max && s.m.pools[i] == m.pools[i]
    ensures var r := MM.ShrinkAt(s, i, c);
            r.shk == s.shk + Gives(m, i, c) && r.excess == s.excess + Owes(m, i) && (!r.done ==> r.shk == s.shk)
  {
    var p := MM.GetPool(m, i, c).pools[i];
    if p.Some? { MM.ShrinkFacts(p.value); }
  }

  /** The pools below i are as before the call, in which they give g and owe o. */
  predicate SameBelow(s: MM.Step, m: MM.Manager, i: nat, c: set<nat>, g: Ten, o: Ten) {
    && MM.WellFormed(s.m) && MM.WellFormed(m) && i <= NR && s.m.max == m.max
    && g == AllGive(m, c) && o == AllOwe(m)
    && forall j :: 0 <= j < i ==> s.m.pools[j] == m.pools[j]
  }

  lemma UntouchedBelow(s: MM.Step, m: MM.Manager, k: nat, c: set<nat>, g: Ten, o: Ten, t: MM.Step)
    requires SameBelow(s, m, k + 1, c, g, o) && MM.WellFormed(t.m) && t.m.max == s.m.max
    requires forall j :: 0 <= j < NR && j != k ==> t.m.pools[j] == s.m.pools[j]
    ensures SameBelow(t, m, k, c, g, o)
  {}

  /** Shrink of pool k, as numbers. */
  lemma VisitNext(s: MM.Step, m: MM.Manager, k: nat, c: set<nat>, g: Ten, o: Ten)
    requires SameBelow(s, m, k + 1, c, g, o)
    ensures var t := MM.ShrinkAt(s, k, c);
            && SameBelow(t, m, k, c, g, o) && t.shk == s.shk + g[k] && t.excess == s.excess + o[k]
            && (!t.done ==> t.shk == s.shk)
  {
    ShrinkAtExactly(s, m, k, c);
    UntouchedBelow(s, m, k, c, g, o, MM.ShrinkAt(s, k, c));
  }

  /** What the first loop makes of s from pool i on. */
  predicate LargerResult(r: MM.Step, s: MM.Step, g: Ten, o: Ten, magic: nat, i: nat)
    requires magic <= i < NR
  {
    && r.shk == s.shk + LargerSum(g, g, magic, SizeOf(magic), i)
    && r.excess == s.excess + LargerSum(g, o, magic, SizeOf(magic), i)
    && (r.done <==> Above(g, magic) >= SizeOf(magic))
  }

  lemma LargerStops(t: MM.Step, s: MM.Step, g: Ten, o: Ten, magic: nat, i: nat)
    requires magic < i < NR && Above(g, i) < SizeOf(magic) <= Above(g, i - 1)
    requires t.done && t.shk == s.shk + g[i] && t.excess == s.excess + o[i]
    ensures LargerResult(t, s, g, o, magic, i)
  {
    NothingBelow(g, o, magic, SizeOf(magic), i - 1);
    NothingBelow(g, g, magic, SizeOf(magic), i - 1);
  }

  lemma LargerGoesOn(r: MM.Step, t: MM.Step, s: MM.Step, g: Ten, o: Ten, magic: nat, i: nat)
    requires magic < i < NR && Above(g, i) < SizeOf(magic) && t.shk == s.shk + g[i] && t.excess == s.excess + o[i]
    requires LargerResult(r, t, g, o, magic, i - 1)
    ensures LargerResult(r, s, g, o, magic, i)
  {}

  lemma {:induction false} LargerExactly(s: MM.Step, m: MM.Manager, magic: nat, i: nat, c: set<nat>, g: Ten, o: Ten)
    requires magic <= i < NR && SameBelow(s, m, i + 1, c, g, o) && s.shk == Above(g, i) < SizeOf(magic)
    ensures LargerResult(MM.ShrinkLarger(s, magic, i, c), s, g, o, magic, i)
    decreases i
  {
    if i > magic {
      VisitNext(s, m, i, c, g, o);
      MM.LargerUnfolds(s, magic, i, c);
      var t := MM.ShrinkAt(s, i, c);
      if t.shk >= SizeOf(magic) {
        LargerStops(t, s, g, o, magic, i);
      } else {
        LargerExactly(t, m, magic, i - 1, c, g, o);
        LargerGoesOn(MM.ShrinkLarger(t, magic, i - 1, c), t, s, g, o, magic, i);
      }
    }
  }

  lemma {:induction false} SmallerExactly(s: MM.Step, m: MM.Manager, i: nat, c: set<nat>, g: Ten, o: Ten)
    requires SameBelow(s, m, i, c, g, o) && i < NR
    ensures MM.ShrinkSmaller(s, i, c).excess == s.excess + Below(o, i)
    ensures MM.ShrinkSmaller(s, i, c).shk == s.shk + Below(g, i)
    decreases i
  {
    if i > 0 {
      VisitNext(s, m, i - 1, c, g, o);
      SmallerExactly(MM.ShrinkAt(s, i - 1, c), m, i - 1, c, g, o);
    }
  }

  lemma OthersExactly(m: MM.Manager, magic: nat, c: set<nat>)
    requires MM.WellFormed(m) && magic < NR
    ensures MM.ShrinkOthers(m, magic, c).excess == Debt(m, magic, c)
    ensures MM.ShrinkOthers(m, magic, c).shk == Given(m, magic, c)
  {
    var s, g, o := MM.Step(m, 0, 0, false, false), AllGive(m, c), AllOwe(m);
    LargerExactly(s, m, magic, NR - 1, c, g, o);
    var r := MM.ShrinkLarger(s, magic, NR - 1, c);
    assert SameBelow(r, m, magic, c, g, o);
    SmallerExactly(r, m, magic, c, g, o);
  }

  // ---------- when there is a debt ----------

  function Larger(i: nat, j: nat): nat {
    if i < j then j else i
  }

  /** Pool i owes and is reached: the pools above it, and above magic, do not give up enough. */
  predicate Reached(m: MM.Manager, magic: nat, i: nat, c: set<nat>)
    requires MM.WellFormed(m) && magic < NR && i < NR
  {
    i != magic && OwesAt(m, i) && Above(AllGive(m, c), Larger(i, magic)) < SizeOf(magic)
  }

  lemma {:induction false} LargerPositive(g: Ten, o: Ten, magic: nat, need: nat, i: nat)
    requires magic <= i < NR
    ensures LargerSum(g, o, magic, need, i) > 0 <==> exists j :: magic < j <= i && o[j] > 0 && Above(g, j) < need
    decreases i
  {
    if i > magic {
      LargerPositive(g, o, magic, need, i - 1);
      if j :| magic < j <= i && o[j] > 0 && Above(g, j) < need { assert j == i || j <= i - 1; }
    }
  }

  lemma {:induction false} BelowPositive(o: Ten, i: nat)
    requires i <= NR
    ensures Below(o, i) > 0 <==> exists j :: 0 <= j < i && o[j] > 0
  {
    if i > 0 { BelowPositive(o, i - 1); }
  }

  /** There is a debt if and only if some pool other than magic owes and is reached. */
  lemma DebtExactly(m: MM.Manager, magic: nat, c: set<nat>)
    requires MM.WellFormed(m) && magic < NR
    ensures Debt(m, magic, c) > 0 <==> exists i :: 0 <= i < NR && Reached(m, magic, i, c)
  {
    var g, o, need := AllGive(m, c), AllOwe(m), SizeOf(magic);
    LargerPositive(g, o, magic, need, NR - 1);
    BelowPositive(o, magic);
    if j :| magic < j <= NR - 1 && o[j] > 0 && Above(g, j) < need { assert Reached(m, magic, j, c); }
    if Above(g, magic) < need && Below(o, magic) > 0 {
      var j :| 0 <= j < magic && o[j] > 0;
      assert Reached(m, magic, j, c);
    }
    if i :| 0 <= i < NR && Reached(m, magic, i, c) { assert o[i] > 0; }
  }

  // ---------- Alloc ----------

  /** The first attempt in class magic will find the limit reached. */
  predicate Starved(m: MM.Manager, magic: nat, env: MM.Env)
    requires MM.WellFormed(m) && magic < NR
  {
    var p := MM.GetPool(m, magic, env.creatable).pools[magic];
    && p.Some? && (p.value.list != [] || env.newOk) && !Top(p.value)
    && p.value.total + p.value.each > p.value.max
  }

  /** What one call of Alloc makes out of nothing. */
  function AllocDebt(m: MM.Manager, magic: nat, env: MM.Env): nat
    requires MM.WellFormed(m) && magic < NR
  {
    if Starved(m, magic, env) then Debt(m, magic, env.creatable) else 0
  }

  /** Two managers that differ in the pool in need alone. */
  predicate SameOthers(m: MM.Manager, n: MM.Manager, magic: nat) {
    && MM.WellFormed(m) && MM.WellFormed(n) && magic < NR && m.max == n.max
    && forall j :: 0 <= j < NR && j != magic ==> m.pools[j] == n.pools[j]
  }

  lemma SameNumbers(m: MM.Manager, n: MM.Manager, magic: nat, c: set<nat>)
    requires SameOthers(m, n, magic)
    ensures SameOff(AllGive(m, c), AllGive(n, c), magic) && SameOff(AllOwe(m), AllOwe(n), magic)
  {
    forall j | 0 <= j < NR && j != magic
      ensures AllGive(m, c)[j] == AllGive(n, c)[j] && AllOwe(m)[j] == AllOwe(n)[j]
    {
      assert m.pools[j] == n.pools[j];
      SameAt(m, n, j, c);
    }
  }

  lemma SameAt(m: MM.Manager, n: MM.Manager, j: nat, c: set<nat>)
    requires MM.WellFormed(m) && MM.WellFormed(n) && j < NR && m.max == n.max && m.pools[j] == n.pools[j]
    ensures Gives(m, j, c) == Gives(n, j, c) && Owes(m, j) == Owes(n, j)
  {}

  /** Neither the debt nor what is given up depends on the pool in need. */
  lemma SameDebt(m: MM.Manager, n: MM.Manager, magic: nat, c: set<nat>)
    requires SameOthers(m, n, magic)
    ensures Debt(m, magic, c) == Debt(n, magic, c) && Given(m, magic, c) == Given(n, magic, c)
  {
    SameNumbers(m, n, magic, c);
    ReachedSame(AllGive(m, c), AllGive(n, c), AllOwe(m), AllOwe(n), magic, SizeOf(magic));
    ReachedSame(AllGive(m, c), AllGive(n, c), AllGive(m, c), AllGive(n, c), magic, SizeOf(magic));
  }

  lemma StarvedExactly(p: Pool, env: MM.Env)
    ensures Alloc(p, env.newOk, env.mallocOk).outcome == Exceeded <==>
            (p.list != [] || env.newOk) && !Top(p) && p.total + p.each > p.max
  {}

  /** The manager in which the second attempt is made. */
  lemma SecondAttempt(m: MM.Manager, magic: nat, env: MM.Env) returns (m1: MM.Manager, p: Pool)
    requires MM.WellFormed(m) && magic < NR && Starved(m, magic, env)
    ensures MM.GetPool(m, magic, env.creatable).pools[magic] == Some(p) && p.each == SizeOf(magic)
    ensures SameOthers(m, m1, magic) && m1.pools[magic] == Some(p.(list := [false] + Rest(p)))
    ensures MM.AllocClass(m, magic, env) == MM.Retry(m1, magic, env)
  {
    var m0 := MM.GetPool(m, magic, env.creatable);
    p := m0.pools[magic].value;
    StarvedExactly(p, env);
    MM.AllocKeepsClass(p, env);
    var a := Alloc(p, env.newOk, env.mallocOk);
    m1 := MM.WithPool(m0, magic, a.pool);
    MM.ReplacedWellFormed(m0, magic, a.pool);
  }

  /**
   Alloc of a class succeeds if and only if the class has a pool or can get one,
   there is a holder, and it has a buffer, or malloc gives one and another buffer
   fits the limit, raised by what the other pools give up when the class is at it.
   */
  predicate Succeeds(m: MM.Manager, magic: nat, env: MM.Env)
    requires MM.WellFormed(m) && magic < NR
  {
    var p := MM.GetPool(m, magic, env.creatable).pools[magic];
    && p.Some? && HolderAvailable(p.value, env.newOk)
    && (|| Top(p.value)
        || (env.mallocOk && p.value.total + p.value.each <=
              p.value.max + if Starved(m, magic, env) then Given(m, magic, env.creatable) else 0))
  }

  lemma RetrySucceeds(m: MM.Manager, magic: nat, env: MM.Env, p: Pool)
    requires MM.WellFormed(m) && magic < NR && m.pools[magic] == Some(p) && p.list != [] && !Top(p)
    requires p.total + p.each > p.max
    ensures MM.Retry(m, magic, env).got <==>
            env.mallocOk && p.total + p.each <= p.max + Given(m, magic, env.creatable)
  {
    OthersExactly(m, magic, env.creatable);
    var s := MM.ShrinkOthers(m, magic, env.creatable);
    AllocSucceedsExactly(p.(max := p.max + s.shk), env.newOk, env.mallocOk);
  }

  lemma AllocGotExactly(m: MM.Manager, magic: nat, env: MM.Env)
    requires MM.WellFormed(m) && magic < NR
    ensures MM.AllocClass(m, magic, env).got <==> Succeeds(m, magic, env)
  {
    var p := MM.GetPool(m, magic, env.creatable).pools[magic];
    if Starved(m, magic, env) {
      var m1, q := SecondAttempt(m, magic, env);
      SameDebt(m, m1, magic, env.creatable);
      RetrySucceeds(m1, magic, env, q.(list := [false] + Rest(q)));
    } else if p.Some? {
      AllocSucceedsExactly(p.value, env.newOk, env.mallocOk);
    }
  }

  // ---------- what is outstanding ----------

  function OutOf(m: MM.Manager, j: nat): nat
    requires j < |m.pools|
  {
    if m.pools[j].Some? then m.pools[j].value.out else 0
  }

  /** No call of Shrink takes a buffer away from its user, or hands one out. */
  predicate SameOut(m: MM.Manager, n: MM.Manager) {
    |m.pools| == |n.pools| == NR && forall j :: 0 <= j < NR ==> OutOf(m, j) == OutOf(n, j)
  }

  lemma ShrinkAtOut(s: MM.Step, i: nat, c: set<nat>)
    requires MM.WellFormed(s.m) && i < NR
    ensures SameOut(s.m, MM.ShrinkAt(s, i, c).m)
  {
    var p := MM.GetPool(s.m, i, c).pools[i];
    if p.Some? { ReleaseAtMostOne(p.value, MaxFree(p.value), 0, true); }
  }

  lemma {:induction false} LargerOut(s: MM.Step, magic: nat, i: nat, c: set<nat>)
    requires MM.WellFormed(s.m) && magic <= i < NR
    ensures SameOut(s.m, MM.ShrinkLarger(s, magic, i, c).m)
    decreases i
  {
    if i > magic {
      ShrinkAtOut(s, i, c);
      MM.LargerUnfolds(s, magic, i, c);
      LargerOut(MM.ShrinkAt(s, i, c), magic, i - 1, c);
    }
  }

  lemma {:induction false} SmallerOut(s: MM.Step, i: nat, c: set<nat>)
    requires MM.WellFormed(s.m) && i < NR
    ensures SameOut(s.m, MM.ShrinkSmaller(s, i, c).m)
    decreases i
  {
    if i > 0 {
      ShrinkAtOut(s, i - 1, c);
      SmallerOut(MM.ShrinkAt(s, i - 1, c), i - 1, c);
    }
  }

  lemma OthersOut(m: MM.Manager, magic: nat, c: set<nat>)
    requires MM.WellFormed(m) && magic < NR
    ensures SameOut(m, MM.ShrinkOthers(m, magic, c).m)
  {
    var s := MM.Step(m, 0, 0, false, false);
    LargerOut(s, magic, NR - 1, c);
    SmallerOut(MM.ShrinkLarger(s, magic, NR - 1, c), magic, c);
  }

  /** Class magic has one more buffer out if got, and every other class as many as before. */
  predicate OutGrows(m: MM.Manager, n: MM.Manager, magic: nat, got: bool) {
    && |m.pools| == |n.pools| == NR
    && forall j :: 0 <= j < NR ==> OutOf(n, j) == OutOf(m, j) + if j == magic && got then 1 else 0
  }

  lemma RetryOut(m: MM.Manager, magic: nat, env: MM.Env)
    requires MM.WellFormed(m) && magic < NR && m.pools[magic].Some?
    ensures OutGrows(m, MM.Retry(m, magic, env).m, magic, MM.Retry(m, magic, env).got)
  {
    OthersOut(m, magic, env.creatable);
    var s := MM.ShrinkOthers(m, magic, env.creatable);
    var p := s.m.pools[magic].value;
    AllocSucceedsExactly(p.(max := p.max + s.shk), env.newOk, env.mallocOk);
  }

  /** One more buffer of the class is outstanding exactly when the call succeeds, and nothing else changes there. */
  lemma AllocOutExactly(m: MM.Manager, magic: nat, env: MM.Env)
    requires MM.WellFormed(m) && magic < NR
    ensures OutGrows(m, MM.AllocClass(m, magic, env).m, magic, MM.AllocClass(m, magic, env).got)
  {
    if Starved(m, magic, env) {
      var m1, p := SecondAttempt(m, magic, env);
      RetryOut(m1, magic, env);
    } else {
      var m0 := MM.GetPool(m, magic, env.creatable);
      if m0.pools[magic].Some? { AllocSucceedsExactly(m0.pools[magic].value, env.newOk, env.mallocOk); }
    }
  }

  // ---------- the sum of the quotas ----------

  /**
   One call of Alloc changes the sum of the ten quotas by exactly its debt, which
   is known before the call.
   */
  lemma AllocDebtExactly(m: MM.Manager, magic: nat, env: MM.Env)
    requires MM.WellFormed(m) && magic < NR
    ensures MM.AllocClass(m, magic, env).excess == AllocDebt(m, magic, env)
    ensures MM.Sum(MM.AllocClass(m, magic, env).m) == MM.Sum(m) + AllocDebt(m, magic, env)
  {
    MM.AllocConservesQuotas(m, magic, env);
    if Starved(m, magic, env) {
      var m1, p := SecondAttempt(m, magic, env);
      OthersExactly(m1, magic, env.creatable);
      SameDebt(m, m1, magic, env.creatable);
    } else {
      var p := MM.GetPool(m, magic, env.creatable).pools[magic];
      if p.Some? { StarvedExactly(p.value, env); }
    }
  }

  /**
   Alloc leaves the sum of the ten quotas unchanged if and only if its first
   attempt does not find the limit reached, or no pool owes and is reached.
   */
  lemma AllocConservesExactly(m: MM.Manager, magic: nat, env: MM.Env)
    requires MM.WellFormed(m) && magic < NR
    ensures MM.Sum(MM.AllocClass(m, magic, env).m) == MM.Sum(m) <==>
            !(Starved(m, magic, env) && exists i :: 0 <= i < NR && Reached(m, magic, i, env.creatable))
  {
    AllocDebtExactly(m, magic, env);
    DebtExactly(m, magic, env.creatable);
  }

  // ---------- runs ----------

  function CallDebt(m: MM.Manager, op: MM.Call): nat
    requires MM.WellFormed(m) && op.magic < NR
  {
    if op.Ask? then AllocDebt(m, op.magic, op.env) else 0
  }

  /** The debts of the calls of a run, each in the state before it. */
  function RunDebt(m: MM.Manager, ops: seq<MM.Call>): nat
    requires MM.WellFormed(m) && MM.Classes(ops)
  {
    if ops == [] then 0
    else
      var front := ops[..|ops| - 1];
      RunDebt(m, front) + CallDebt(MM.Run(m, front).m, ops[|ops| - 1])
  }

  lemma CallDebtExactly(m: MM.Manager, op: MM.Call)
    requires MM.WellFormed(m) && op.magic < NR
    ensures MM.Apply(m, op).excess == CallDebt(m, op)
  {
    if op.Ask? { AllocDebtExactly(m, op.magic, op.env); }
  }

  /** Over every run the sum of the quotas grows by exactly those debts. */
  lemma {:induction false} RunDebtExactly(m: MM.Manager, ops: seq<MM.Call>)
    requires MM.WellFormed(m) && MM.Classes(ops)
    ensures MM.Run(m, ops).excess == RunDebt(m, ops)
    ensures MM.Sum(MM.Run(m, ops).m) == MM.Sum(m) + RunDebt(m, ops)
  {
    MM.RunConservesQuotas(m, ops);
    if ops != [] {
      var front := ops[..|ops| - 1];
      RunDebtExactly(m, front);
      CallDebtExactly(MM.Run(m, front).m, ops[|ops| - 1]);
    }
  }

  /** The call finds its class starved and a pool that owes within reach. */
  predicate Overdraws(m: MM.Manager, op: MM.Call)
    requires MM.WellFormed(m) && op.magic < NR
  {
    && op.Ask? && Starved(m, op.magic, op.env)
    && exists i :: 0 <= i < NR && Reached(m, op.magic, i, op.env.creatable)
  }

  predicate NeverOverdraws(m: MM.Manager, ops: seq<MM.Call>)
    requires MM.WellFormed(m) && MM.Classes(ops)
  {
    ops != [] ==>
      var front := ops[..|ops| - 1];
      NeverOverdraws(m, front) && !Overdraws(MM.Run(m, front).m, ops[|ops| - 1])
  }

  lemma OverdrawsExactly(m: MM.Manager, op: MM.Call)
    requires MM.WellFormed(m) && op.magic < NR
    ensures CallDebt(m, op) > 0 <==> Overdraws(m, op)
  {
    if op.Ask? { DebtExactly(m, op.magic, op.env.creatable); }
  }

  lemma {:induction false} NoDebtExactly(m: MM.Manager, ops: seq<MM.Call>)
    requires MM.WellFormed(m) && MM.Classes(ops)
    ensures RunDebt(m, ops) == 0 <==> NeverOverdraws(m, ops)
  {
    if ops != [] {
      var front := ops[..|ops| - 1];
      NoDebtExactly(m, front);
      OverdrawsExactly(MM.Run(m, front).m, ops[|ops| - 1]);
    }
  }

  /**
   Over every run of Alloc and Free, whatever fails on the way, the sum of the ten
   quotas is unchanged if and only if no call of the run overdraws.
   */
  lemma RunConservesExactly(m: MM.Manager, ops: seq<MM.Call>)
    requires MM.WellFormed(m) && MM.Classes(ops)
    ensures MM.Sum(MM.Run(m, ops).m) == MM.Sum(m) <==> NeverOverdraws(m, ops)
  {
    RunDebtExactly(m, ops);
    NoDebtExactly(m, ops);
  }
}
