/** A run of the allocator that makes quota out of nothing, on two of its size classes. */
module QuotaSample {
  import opened Bytes
  import opened SizeClass
  import opened MemPool
  import opened MM = MemManager

  /** Nothing fails. */
  const ENV := Env(true, true, {0, 1, 2, 3, 4, 5, 6, 7, 8, 9})

  /** Pool j is p; one that is not there yet counts as it will be created. */
  predicate PoolIs(m: Manager, j: nat, p: Pool)
    requires j < |m.pools|
  {
    m.pools[j] == Some(p) || (m.pools[j] == None && p == Fresh(SizeOf(j), 128))
  }

  predicate Untouched(m: Manager, j: nat)
    requires j < |m.pools|
  {
    PoolIs(m, j, Fresh(SizeOf(j), 128))
  }

  /** The first pool is p, the second q, and no other has been used. */
  predicate TwoPoolsUsed(m: Manager, p: Pool, q: Pool) {
    && WellFormed(m) && m.max == 1280 && PoolIs(m, 0, p) && PoolIs(m, 1, q)
    && forall j :: 2 <= j < NR ==> Untouched(m, j)
  }

  /** A pool of a class above its quota gives nothing up. */
  lemma FreshGivesNothing(each: nat)
    requires each > 64
    ensures Shrink(Fresh(each, 128), true) == Shrunk(Fresh(each, 128), 0, {})
  {}

  lemma LargeClass(j: nat)
    requires 2 <= j < NR
    ensures SizeOf(j) > 64
  {
    if j > 2 { LargeClass(j - 1); } else { assert SizeOf(2) == 4 * SizeOf(1) && SizeOf(1) == 4 * SizeOf(0); }
  }

  lemma UntouchedShrink(s: MM.Step, i: nat)
    requires WellFormed(s.m) && s.m.max == 1280 && 2 <= i < NR && Untouched(s.m, i)
    ensures var r := ShrinkAt(s, i, ENV.creatable);
            r.shk == s.shk && r.excess == s.excess && r.bad == s.bad && Untouched(r.m, i)
  {
    LargeClass(i);
    FreshGivesNothing(SizeOf(i));
    assert i in ENV.creatable;
  }

  lemma {:induction false} UntouchedLarger(s: MM.Step, i: nat)
    requires WellFormed(s.m) && s.m.max == 1280 && 1 <= i < NR && s.shk == 0
    requires forall j :: 2 <= j < NR ==> Untouched(s.m, j)
    ensures var r := ShrinkLarger(s, 1, i, ENV.creatable);
            && !r.done && r.shk == 0 && r.excess == s.excess && r.bad == s.bad
            && forall j :: 2 <= j < NR ==> Untouched(r.m, j)
    decreases i
  {
    if i > 1 {
      UntouchedShrink(s, i);
      var t := ShrinkAt(s, i, ENV.creatable);
      forall j | 2 <= j < NR ensures Untouched(t.m, j) {
        if j != i { assert t.m.pools[j] == s.m.pools[j] && Untouched(s.m, j); }
      }
      UntouchedLarger(t, i - 1);
    }
  }

  /** When the second class is in need, only the first has anything to give. */
  lemma OnlyFirstShrinks(m: Manager, p: Pool, q: Pool)
    requires TwoPoolsUsed(m, p, q)
    ensures var r := ShrinkOthers(m, 1, ENV.creatable);
            var h := Shrink(p, true);
            && r.shk == h.shk && r.excess == h.shk - (p.max - h.pool.max)
            && TwoPoolsUsed(r.m, h.pool, q) && r.m.pools[1] == m.pools[1]
  {
    var s := MM.Step(m, 0, 0, false, false);
    UntouchedLarger(s, NR - 1);
    var a := ShrinkLarger(s, 1, NR - 1, ENV.creatable);
    assert a.m.pools[0] == m.pools[0];
    var z := ShrinkAt(a, 0, ENV.creatable);
    assert ShrinkSmaller(a, 1, ENV.creatable) == ShrinkSmaller(z, 0, ENV.creatable) == z;
    forall j | 2 <= j < NR ensures Untouched(z.m, j) {
      assert z.m.pools[j] == a.m.pools[j] && Untouched(a.m, j);
    }
  }

  /** The first attempt in the second class finds the limit reached. */
  lemma FirstTryFails(m: Manager, p: Pool, q: Pool, q1: Pool) returns (m1: Manager)
    requires TwoPoolsUsed(m, p, q)
    requires q.total + q.each > q.max && !Top(q) && q1 == q.(list := [false] + Rest(q))
    ensures TwoPoolsUsed(m1, p, q1) && m1.pools[1] == Some(q1)
    ensures AllocClass(m, 1, ENV) == Retry(m1, 1, ENV)
  {
    assert SizeOf(1) == 4 * SizeOf(0);
    var m0 := GetPool(m, 1, ENV.creatable);
    assert m0.pools[1] == Some(q);
    AllocKeepsClass(q, ENV);
    assert Alloc(q, true, true) == Result(q1, Exceeded, {});
    m1 := WithPool(m0, 1, q1);
    ReplacedWellFormed(m0, 1, q1);
    forall j | 2 <= j < NR ensures Untouched(m1, j) { assert Untouched(m, j); }
  }

  lemma RegrowLeaves(s: MM.Step, p: Pool, q: Pool, q2: Pool)
    requires TwoPoolsUsed(s.m, p, q) && s.m.pools[1] == Some(q) && s.shk > 0
    requires q2 == Alloc(q.(max := q.max + s.shk), true, true).pool
    ensures TwoPoolsUsed(Regrow(s, 1, ENV).m, p, q2)
  {
    RegrowWellFormed(s, 1, ENV);
    var m := Regrow(s, 1, ENV).m;
    forall j | 2 <= j < NR ensures Untouched(m, j) { assert Untouched(s.m, j); }
  }

  lemma RetryLeaves(m: Manager, p: Pool, q: Pool, h: Shrunk, q2: Pool)
    requires TwoPoolsUsed(m, p, q) && m.pools[1] == Some(q) && h == Shrink(p, true) && h.shk > 0
    requires q2 == Alloc(q.(max := q.max + h.shk), true, true).pool
    ensures var r := Retry(m, 1, ENV);
            TwoPoolsUsed(r.m, h.pool, q2) && r.excess == h.shk - (p.max - h.pool.max)
  {
    OnlyFirstShrinks(m, p, q);
    RegrowLeaves(ShrinkOthers(m, 1, ENV.creatable), h.pool, q, q2);
  }

  /** Asking the second class for more than its quota shrinks the first and tries again. */
  lemma Squeeze(m: Manager, p: Pool, q: Pool, h: Shrunk, q1: Pool, q2: Pool)
    requires TwoPoolsUsed(m, p, q) && h == Shrink(p, true) && h.shk > 0
    requires q.total + q.each > q.max && !Top(q) && q1 == q.(list := [false] + Rest(q))
    requires q2 == Alloc(q1.(max := q1.max + h.shk), true, true).pool
    ensures var r := AllocClass(m, 1, ENV);
            TwoPoolsUsed(r.m, h.pool, q2) && r.excess == h.shk - (p.max - h.pool.max)
  {
    var m1 := FirstTryFails(m, p, q, q1);
    RetryLeaves(m1, p, q1, h, q2);
  }

  lemma ApplyAsk(m: Manager, magic: nat)
    requires WellFormed(m) && magic < NR
    ensures Apply(m, Ask(magic, ENV)) == AllocClass(m, magic, ENV)
  {}

  /** An allocation in the first class that succeeds at once, or a free. */
  lemma FirstClassCall(m: Manager, p: Pool, q: Pool, op: Call, p': Pool) returns (r: Allocation)
    requires TwoPoolsUsed(m, p, q) && op.magic == 0 && (op.Ask? ==> op.env == ENV)
    requires op.Ask? ==> Alloc(p, true, true) == Result(p', Got, {})
    requires op.Return? ==> p.out > 0 && Free(p).pool == p'
    ensures r == Apply(m, op) && TwoPoolsUsed(r.m, p', q) && r.excess == 0
  {
    r := Apply(m, op);
    forall j | 2 <= j < NR ensures Untouched(r.m, j) { assert Untouched(m, j); }
  }

  function Empty(): Manager {
    Manager(1280, [None, None, None, None, None, None, None, None, None, None])
  }

  /** Some run from the start shows p and q and has made the excess. */
  ghost predicate Reached(p: Pool, q: Pool, excess: nat) {
    && WellFormed(Empty())
    && exists ops :: Classes(ops) && TwoPoolsUsed(MM.Run(Empty(), ops).m, p, q) && MM.Run(Empty(), ops).excess == excess
  }

  lemma Extend(ops: seq<Call>, op: Call)
    requires WellFormed(Empty()) && Classes(ops) && op.magic < NR
    ensures Classes(ops + [op])
    ensures MM.Run(Empty(), ops + [op]).m == Apply(MM.Run(Empty(), ops).m, op).m
    ensures MM.Run(Empty(), ops + [op]).excess == MM.Run(Empty(), ops).excess + Apply(MM.Run(Empty(), ops).m, op).excess
  {
    assert (ops + [op])[..|ops|] == ops;
  }

  lemma ReachesByFirstClass(p: Pool, q: Pool, excess: nat, op: Call, p': Pool)
    requires Reached(p, q, excess) && op.magic == 0 && (op.Ask? ==> op.env == ENV)
    requires op.Ask? ==> Alloc(p, true, true) == Result(p', Got, {})
    requires op.Return? ==> p.out > 0 && Free(p).pool == p'
    ensures Reached(p', q, excess)
  {
    var ops :| Classes(ops) && TwoPoolsUsed(MM.Run(Empty(), ops).m, p, q) && MM.Run(Empty(), ops).excess == excess;
    Extend(ops, op);
    var r := FirstClassCall(MM.Run(Empty(), ops).m, p, q, op, p');
    assert TwoPoolsUsed(MM.Run(Empty(), ops + [op]).m, p', q);
  }

  lemma ReachesBySqueeze(p: Pool, q: Pool, excess: nat, h: Shrunk, q1: Pool, q2: Pool)
    requires Reached(p, q, excess) && p.each > 0 && h == Shrink(p, true) && h.shk > 0
    requires q.total + q.each > q.max && !Top(q) && q1 == q.(list := [false] + Rest(q))
    requires q2 == Alloc(q1.(max := q1.max + h.shk), true, true).pool
    ensures h.pool.max <= p.max ==> h.shk >= p.max - h.pool.max
    ensures Reached(h.pool, q2, excess + (h.shk - (p.max - h.pool.max)))
  {
    var ops :| Classes(ops) && TwoPoolsUsed(MM.Run(Empty(), ops).m, p, q) && MM.Run(Empty(), ops).excess == excess;
    var m := MM.Run(Empty(), ops).m;
    Extend(ops, Ask(1, ENV));
    ApplyAsk(m, 1);
    Squeeze(m, p, q, h, q1, q2);
    assert TwoPoolsUsed(MM.Run(Empty(), ops + [Ask(1, ENV)]).m, h.pool, q2);
  }

  lemma EmptyReached()
    ensures Reached(Fresh(64, 128), Fresh(256, 128), 0)
  {
    assert SizeOf(1) == 4 * SizeOf(0);
    assert Classes([]);
    assert TwoPoolsUsed(MM.Run(Empty(), []).m, Fresh(64, 128), Fresh(256, 128));
  }

  /** The first class hands out two buffers and gets them back. */
  lemma Filled()
    ensures Reached(Pool(64, 0, 128, 128, [true, true], 0), Fresh(256, 128), 0)
  {
    EmptyReached();
    var q := Fresh(256, 128);
    ReachesByFirstClass(Fresh(64, 128), q, 0, Ask(0, ENV), Pool(64, 64, 0, 128, [], 1));
    ReachesByFirstClass(Pool(64, 64, 0, 128, [], 1), q, 0, Ask(0, ENV), Pool(64, 128, 0, 128, [], 2));
    ReachesByFirstClass(Pool(64, 128, 0, 128, [], 2), q, 0, Return(0), Pool(64, 64, 64, 128, [true], 1));
    ReachesByFirstClass(Pool(64, 64, 64, 128, [true], 1), q, 0, Return(0), Pool(64, 0, 128, 128, [true, true], 0));
  }

  /** Then it is shrunk, and hands out a buffer although another is still free. */
  lemma FirstHalf()
    ensures Reached(Pool(64, 64, 64, 64, [true], 1), Pool(256, 0, 0, 192, [false], 0), 0)
  {
    Filled();
    var p, h := Pool(64, 0, 128, 128, [true, true], 0), Pool(64, 0, 64, 64, [false, true], 0);
    var q, q2 := Fresh(256, 128), Pool(256, 0, 0, 192, [false], 0);
    ShrinkOne(p, h);
    ReachesBySqueeze(p, q, 0, Shrink(p, true), q.(list := [false]), q2);
    ReachesByFirstClass(h, q2, 0, Ask(0, ENV), Pool(64, 64, 64, 64, [true], 1));
  }

  /** Shrink releases the top buffer and gives up its quota. */
  lemma ShrinkOne(p: Pool, h: Pool)
    requires p.each == 64 && Spare(p) <= p.each && p.free > MaxFree(p) && Top(p) && p.each <= p.free && p.each <= p.max
    requires h == p.(free := p.free - p.each, max := p.max - p.each, list := [false] + Rest(p))
    ensures Shrink(p, true).pool == h && Shrink(p, true).shk == 64
  {
    ReleaseAtMostOne(p, MaxFree(p), 0, true);
  }

  /** Then it is shrunk to a quota of nothing, and gets its last buffer back. */
  lemma QuotaGone()
    ensures Reached(Pool(64, 0, 64, 0, [true, false], 0), Pool(256, 256, 0, 256, [], 1), 0)
  {
    FirstHalf();
    var p, h := Pool(64, 64, 64, 64, [true], 1), Pool(64, 64, 0, 0, [false], 1);
    var q, q2 := Pool(256, 0, 0, 192, [false], 0), Pool(256, 256, 0, 256, [], 1);
    ShrinkOne(p, h);
    ReachesBySqueeze(p, q, 0, Shrink(p, true), q, q2);
    ReachesByFirstClass(h, q2, 0, Return(0), Pool(64, 0, 64, 0, [true, false], 0));
  }

  /** Shrunk once more, it hands over a buffer's size that it does not have. */
  lemma ShrinkWithoutQuota()
    ensures var h := Shrink(Pool(64, 0, 64, 0, [true, false], 0), true);
            h.shk == 64 && h.pool == Pool(64, 0, 0, 0, [false, false], 0)
  {
    ReleaseAtMostOne(Pool(64, 0, 64, 0, [true, false], 0), 0, 0, true);
  }

  lemma ExcessReached()
    ensures Reached(Pool(64, 0, 0, 0, [false, false], 0), Pool(256, 256, 0, 320, [false], 1), 64)
  {
    QuotaGone();
    ShrinkWithoutQuota();
    var p, q := Pool(64, 0, 64, 0, [true, false], 0), Pool(256, 256, 0, 256, [], 1);
    ReachesBySqueeze(p, q, 0, Shrink(p, true), Pool(256, 256, 0, 256, [false], 1), Pool(256, 256, 0, 320, [false], 1));
  }

  /** A run of Alloc and Free alone after which the quotas sum to 64 bytes more than at the start. */
  lemma RunMakesQuota()
    ensures WellFormed(Empty())
    ensures exists ops :: Classes(ops) && MM.Run(Empty(), ops).bad && Sum(MM.Run(Empty(), ops).m) == Sum(Empty()) + 64
  {
    ExcessReached();
    var ops :| Classes(ops) && MM.Run(Empty(), ops).excess == 64;
    RunConservesQuotas(Empty(), ops);
  }
}
