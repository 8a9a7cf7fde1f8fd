/**
 UcMemManager of src/mem_pool.cc over the pools of module MemHeap: the table of
 pools, the two shrinking loops and Alloc/Free, proved against module MemManager.
 */
module Allocator {
  import opened Bytes
  import opened SizeClass
  import opened MemHeap
  import MemPool
  import MM = MemManager
  import QE = QuotaExactly

  lemma {:induction false} SameSize(a: set<UcMem>, b: set<UcMem>)
    requires a <= b && |a| == |b|
    ensures a == b
  {
    if x :| x in b && x !in a {
      assert |a + {x}| == |a| + 1 && a + {x} <= b;
      SubsetSize(a + {x}, b);
    }
  }

  lemma {:induction false} SubsetSize(a: set<UcMem>, b: set<UcMem>)
    requires a <= b
    ensures |a| <= |b|
  {
    if x :| x in a { SubsetSize(a - {x}, b - {x}); }
  }

  /** A set that contains another and one element more, and has that size, has nothing else. */
  lemma GrownSet(a: set<UcMem>, b: set<UcMem>, grown: bool, m: UcMem?)
    requires a <= b && |b| == |a| + (if grown then 1 else 0) && (grown ==> m != null && m in b && m !in a)
    ensures b == a + (if grown then {m} else {})
  {
    SameSize(a + (if grown then {m} else {}), b);
  }

  class UcMemManager {
    var szMax: nat
    var pools: seq<UcMemPool?>      // magics[].pool
    ghost var model: MM.Manager
    ghost var Repr: set<object>     // this, the pools and their holders

    constructor (max: nat)
      ensures Valid() && model == MM.Manager(max, seq(NR, i => None))
    {
      szMax, pools := max, seq(NR, i => null);
      model, Repr := MM.Manager(max, seq(NR, i => None)), {this};
    }

    ghost predicate PoolOk(i: nat)
      requires i < |pools| == |model.pools| && this in Repr
      reads this, Repr
    {
      var p := pools[i];
      if p == null then model.pools[i].None?
      else
        && p in Repr && (forall h :: h in p.holders ==> h in Repr)
        && p.Valid() && p.szEach == SizeOf(i)
        && model.pools[i] == Some(p.Abs())
    }

    ghost predicate Apart(i: nat, j: nat)
      requires i < |pools| && j < |pools|
      reads this, Repr
    {
      var p, q := pools[i], pools[j];
      p != null && q != null && p in Repr && q in Repr ==>
        p != q && p.holders !! q.holders
    }

    ghost predicate Valid()
      reads this, Repr
    {
      && this in Repr
      && |pools| == NR == |model.pools| && model.max == szMax
      && (forall i :: 0 <= i < NR ==> PoolOk(i))
      && (forall i, j :: 0 <= i < NR && 0 <= j < NR && i != j ==> Apart(i, j))
    }

    lemma ModelWellFormed()
      requires Valid()
      ensures MM.WellFormed(model)
    {
      forall i | 0 <= i < NR && model.pools[i].Some?
        ensures model.pools[i].value.each == SizeOf(i) && MemPool.Consistent(model.pools[i].value)
      {
        assert PoolOk(i);
      }
    }

    method GetPool(i: nat, creatable: set<nat>) returns (p: UcMemPool?)
      requires Valid() && i < NR
      modifies this
      ensures Valid() && fresh(Repr - old(Repr)) && old(Repr) <= Repr
      ensures model == MM.GetPool(old(model), i, creatable) && p == pools[i]
      ensures forall j :: 0 <= j < NR && old(pools[j]) != null ==> pools[j] == old(pools[j])
    {
      p := pools[i];
      if p == null && i in creatable {
        assert PoolOk(i);
        p := new UcMemPool(SizeOf(i), szMax / NR);
        pools := pools[i := p];
        model := model.(pools := model.pools[i := Some(p.Abs())]);
        Repr := Repr + {p};
        forall j | 0 <= j < NR ensures PoolOk(j) { assert old(PoolOk(j)); }
        forall j, k | 0 <= j < NR && 0 <= k < NR && j != k ensures Apart(j, k) { assert old(Apart(j, k)); }
      }
      assert PoolOk(i);
    }

    /** Outstanding holders stay outstanding, with their buffers. */
    twostate predicate Kept()
      requires old(Valid())
      reads *
    {
      |pools| == NR &&
      forall j :: 0 <= j < NR && old(pools[j]) != null ==>
        && pools[j] == old(pools[j])
        && forall h :: h in old(pools[j].out) ==> h in pools[j].out && h.mem == old(h.mem) && h.asked == old(h.asked)
    }

    /** Exactly m, if it is not null, is outstanding in class magic besides what was, and nothing else has changed. */
    twostate predicate OutExactly(magic: int, new m: UcMem?)
      requires old(Valid())
      reads *
    {
      |pools| == NR &&
      forall j :: 0 <= j < NR && pools[j] != null ==>
        pools[j].out == (if old(pools[j]) != null then old(pools[j].out) else {}) +
                        (if j == magic && m != null then {m} else {})
    }

    /** Shrink of pool i; the other pools are not touched. */
    method ShrinkPool(i: nat) returns (shk: nat)
      requires Valid() && i < NR && pools[i] != null && model.pools[i].Some? && model.pools[i].value.each > 0
      modifies Repr
      ensures Valid() && Repr == old(Repr) && pools == old(pools) && Kept()
      ensures var r := MemPool.Shrink(old(model).pools[i].value, true);
              shk == r.shk && model == old(model).(pools := old(model).pools[i := Some(r.pool)])
    {
      var p := pools[i];
      assert PoolOk(i);
      shk := p.Shrink(true);
      model := model.(pools := model.pools[i := Some(p.Abs())]);
      forall j | 0 <= j < NR ensures PoolOk(j) {
        assert old(PoolOk(j));
        if j != i { assert old(Apart(i, j)); }
      }
      forall j, k | 0 <= j < NR && 0 <= k < NR && j != k ensures Apart(j, k) { assert old(Apart(j, k)); }
      forall j | 0 <= j < NR && old(pools[j]) != null
        ensures forall h :: h in old(pools[j].out) ==>
                  h in pools[j].out && h.mem == old(h.mem) && h.asked == old(h.asked)
      {
        assert old(PoolOk(j));
        if j != i { assert old(Apart(i, j)); }
      }
    }

    /** The table entry i is a pool in order. */
    ghost predicate Created(i: nat)
      requires i < |pools|
      reads this, Repr
    {
      pools[i] != null && pools[i] in Repr && (forall h :: h in pools[i].holders ==> h in Repr) && pools[i].Valid()
    }

    /** Alloc of pool i on the objects: the other pools and their holders are not touched. */
    method AllocOnly(i: nat, env: MM.Env, ghost size: nat) returns (m: UcMem?, exceed: bool)
      requires this in Repr && i < |pools| == NR && Created(i) && size <= pools[i].szEach
      requires forall j :: 0 <= j < NR && j != i && pools[j] != null ==> Created(j) && Apart(i, j)
      modifies pools[i], pools[i].Idle()
      ensures pools[i].Valid()
      ensures old(pools[i].holders) <= pools[i].holders && fresh(pools[i].holders - old(pools[i].holders))
      ensures var r := MemPool.Alloc(old(pools[i].Abs()), env.newOk, env.mallocOk);
              && pools[i].Abs() == r.pool
              && (m != null <==> r.outcome == MemPool.Got)
              && (exceed <==> r.outcome == MemPool.Exceeded)
      ensures m == null ==> pools[i].out == old(pools[i].out)
      ensures m != null ==> m !in old(pools[i].out) && pools[i].out == old(pools[i].out) + {m} && m.asked == size
      ensures forall j :: 0 <= j < NR && j != i && pools[j] != null ==>
                && Created(j) && pools[j].Abs() == old(pools[j].Abs())
                && pools[j].holders == old(pools[j].holders) && pools[j].out == old(pools[j].out)
      ensures forall j, h :: 0 <= j < NR && pools[j] != null && h in old(pools[j].out) ==>
                h.mem == old(h.mem) && h.asked == old(h.asked)
    {
      m, exceed := pools[i].Alloc(env.newOk, env.mallocOk, size);
      forall j | 0 <= j < NR && j != i && pools[j] != null
        ensures Created(j) && pools[j].Abs() == old(pools[j].Abs())
        ensures pools[j].holders == old(pools[j].holders) && pools[j].out == old(pools[j].out)
      {
        assert old(Created(j)) && old(Apart(i, j));
      }
      forall j, h | 0 <= j < NR && pools[j] != null && h in old(pools[j].out)
        ensures h.mem == old(h.mem) && h.asked == old(h.asked)
      {
        if j != i { assert old(Created(j)) && old(Apart(i, j)); }
      }
    }

    /** Alloc of pool i, kept in step with the model. */
    method AllocPool(i: nat, env: MM.Env, ghost size: nat) returns (m: UcMem?, exceed: bool)
      requires Valid() && i < NR && pools[i] != null && model.pools[i].Some? && size <= SizeOf(i)
      modifies Repr
      ensures Valid() && fresh(Repr - old(Repr)) && old(Repr) <= Repr && pools == old(pools) && Kept()
      ensures var r := MemPool.Alloc(old(model).pools[i].value, env.newOk, env.mallocOk);
              && (m != null <==> r.outcome == MemPool.Got)
              && (exceed <==> r.outcome == MemPool.Exceeded)
              && model == MM.WithPool(old(model), i, r.pool)
      ensures m != null ==> m in pools[i].out && m !in old(pools[i].out) && m.asked == size
    {
      assert PoolOk(i);
      forall j | 0 <= j < NR && j != i && pools[j] != null ensures Created(j) && Apart(i, j) {
        assert PoolOk(j);
      }
      m, exceed := AllocOnly(i, env, size);
      model := MM.WithPool(model, i, pools[i].Abs());
      Repr := Repr + pools[i].holders;
      forall j | 0 <= j < NR ensures PoolOk(j) {
        assert old(PoolOk(j));
      }
      forall j, k | 0 <= j < NR && 0 <= k < NR && j != k ensures Apart(j, k) {
        assert old(Apart(j, k)) && old(PoolOk(j)) && old(PoolOk(k));
      }
    }

    /** `pool->sz_max += shk`. */
    method GrowPool(i: nat, shk: nat)
      requires Valid() && i < NR && pools[i] != null && model.pools[i].Some?
      modifies Repr
      ensures Valid() && Repr == old(Repr) && pools == old(pools) && Kept()
      ensures var p := old(model).pools[i].value;
              model == MM.WithPool(old(model), i, p.(max := p.max + shk))
    {
      var p := pools[i];
      assert PoolOk(i);
      p.szMax := p.szMax + shk;
      model := model.(pools := model.pools[i := Some(p.Abs())]);
      forall j | 0 <= j < NR ensures PoolOk(j) {
        assert old(PoolOk(j));
        if j != i { assert old(Apart(i, j)); }
      }
      forall j, k | 0 <= j < NR && 0 <= k < NR && j != k ensures Apart(j, k) { assert old(Apart(j, k)); }
    }

    /** GetPool(i) and, if there is one, its Shrink. */
    method ShrinkAt(i: nat, creatable: set<nat>, ghost s: MM.Step) returns (shk: nat, done: bool)
      requires Valid() && i < NR && s.m == model && MM.WellFormed(model)
      modifies Repr
      ensures Valid() && fresh(Repr - old(Repr)) && old(Repr) <= Repr && Kept()
      ensures var r := MM.ShrinkAt(s, i, creatable);
              model == r.m && s.shk + shk == r.shk && done == r.done
    {
      var p := GetPool(i, creatable);
      assert PoolOk(i);
      if p == null {
        return 0, false;
      }
      shk := ShrinkPool(i);
      done := true;
    }

    /** The first loop of Shrink: larger pools, until enough was given up. */
    method ShrinkLarger(magic: nat, creatable: set<nat>) returns (shk: nat, done: bool)
      requires Valid() && magic < NR && MM.WellFormed(model)
      modifies Repr
      ensures Valid() && fresh(Repr - old(Repr)) && old(Repr) <= Repr && Kept()
      ensures var r := MM.ShrinkLarger(MM.Step(old(model), 0, 0, false, false), magic, NR - 1, creatable);
              model == r.m && shk == r.shk && done == r.done
    {
      ghost var s := MM.Step(model, 0, 0, false, false);
      ghost var all := MM.ShrinkLarger(s, magic, NR - 1, creatable);
      shk, done := 0, false;
      var i := NR - 1;
      while i > magic && !done
        invariant magic <= i < NR && Valid() && fresh(Repr - old(Repr)) && old(Repr) <= Repr && Kept()
        invariant s.m == model && s.shk == shk && MM.WellFormed(model)
        invariant all == if done then s else MM.ShrinkLarger(s, magic, i, creatable)
        invariant done ==> s.done
        decreases i, !done
      {
        MM.LargerUnfolds(s, magic, i, creatable);
        ghost var t := MM.ShrinkAt(s, i, creatable);
        var d, there := ShrinkAt(i, creatable, s);
        s, shk := t, shk + d;
        done := there && shk >= SizeOf(magic);
        if !done { i := i - 1; }
      }
    }

    /** The second loop: every smaller pool. */
    method ShrinkSmaller(magic: nat, creatable: set<nat>, ghost from: MM.Step) returns (shk: nat)
      requires Valid() && magic < NR && MM.WellFormed(model) && from.m == model
      modifies Repr
      ensures Valid() && fresh(Repr - old(Repr)) && old(Repr) <= Repr && Kept()
      ensures var r := MM.ShrinkSmaller(from, magic, creatable); model == r.m && from.shk + shk == r.shk
    {
      ghost var s := from;
      shk := 0;
      var i := magic;
      while i > 0
        invariant 0 <= i <= magic && Valid() && fresh(Repr - old(Repr)) && old(Repr) <= Repr && Kept()
        invariant s.m == model && s.shk == from.shk + shk && MM.WellFormed(model)
        invariant MM.ShrinkSmaller(from, magic, creatable) == MM.ShrinkSmaller(s, i, creatable)
      {
        i := i - 1;
        ghost var t := MM.ShrinkAt(s, i, creatable);
        var d, done := ShrinkAt(i, creatable, s);
        s, shk := t, shk + d;
      }
    }

    /** UcMemManager::Shrink: larger pools until enough was given up, then all smaller ones. */
    method Shrink(magic: nat, creatable: set<nat>) returns (shk: nat)
      requires Valid() && magic < NR && MM.WellFormed(model)
      modifies Repr
      ensures Valid() && fresh(Repr - old(Repr)) && old(Repr) <= Repr && Kept()
      ensures var r := MM.ShrinkOthers(old(model), magic, creatable); model == r.m && shk == r.shk
    {
      ghost var all := MM.ShrinkLarger(MM.Step(model, 0, 0, false, false), magic, NR - 1, creatable);
      var done;
      shk, done := ShrinkLarger(magic, creatable);
      if !done {
        var more := ShrinkSmaller(magic, creatable, all);
        shk := shk + more;
      }
    }

    method AllocGrown(i: nat, shk: nat, env: MM.Env, ghost size: nat) returns (m: UcMem?)
      requires Valid() && i < NR && pools[i] != null && model.pools[i].Some? && size <= SizeOf(i)
      modifies Repr
      ensures Valid() && fresh(Repr - old(Repr)) && old(Repr) <= Repr && pools == old(pools) && Kept()
      ensures var p := old(model).pools[i].value;
              var r := MemPool.Alloc(p.(max := p.max + shk), env.newOk, env.mallocOk);
              (m != null <==> r.outcome == MemPool.Got) && model == MM.WithPool(old(model), i, r.pool)
      ensures m != null ==> m in pools[i].out && m !in old(pools[i].out) && m.asked == size
    {
      GrowPool(i, shk);
      var exceed;
      m, exceed := AllocPool(i, env, size);
    }

    /** The second attempt of Alloc, with the quota the other pools gave up. */
    method Retry(magic: nat, env: MM.Env, ghost size: nat) returns (m: UcMem?)
      requires Valid() && magic < NR && MM.WellFormed(model) && size <= SizeOf(magic)
      requires pools[magic] != null && model.pools[magic].Some?
      modifies Repr
      ensures Valid() && fresh(Repr - old(Repr)) && old(Repr) <= Repr && Kept()
      ensures var r := MM.Retry(old(model), magic, env); model == r.m && (m != null <==> r.got)
      ensures m != null ==> m in pools[magic].out && m !in old(pools[magic].out) && m.asked == size
    {
      var shk := Shrink(magic, env.creatable);
      if shk == 0 {
        m := null;
      } else {
        m := AllocGrown(magic, shk, env, size);
      }
    }

    /** UcMemManager::Alloc once the size class is known. */
    method AllocClass(magic: nat, env: MM.Env, ghost size: nat) returns (m: UcMem?)
      requires Valid() && magic < NR && MM.WellFormed(model) && size <= SizeOf(magic)
      modifies Repr
      ensures Valid() && fresh(Repr - old(Repr)) && old(Repr) <= Repr && Kept() && OutExactly(magic, m)
      ensures var r := MM.AllocClass(old(model), magic, env); model == r.m && (m != null <==> r.got)
      ensures m != null ==>
                pools[magic] != null && m in pools[magic].out && m.asked == size &&
                (old(pools[magic]) != null ==> m !in old(pools[magic].out))
    {
      QE.AllocOutExactly(model, magic, env);
      m := FirstAndSecond(magic, env, size);
      forall j | 0 <= j < NR && pools[j] != null
        ensures pools[j].out == (if old(pools[j]) != null then old(pools[j].out) else {}) +
                                (if j == magic && m != null then {m} else {})
      {
        assert old(PoolOk(j)) && PoolOk(j);
        ghost var before := if old(pools[j]) != null then old(pools[j].out) else {};
        assert |before| == QE.OutOf(old(model), j) && |pools[j].out| == QE.OutOf(model, j);
        GrownSet(before, pools[j].out, j == magic && m != null, m);
      }
    }

    /** The first attempt, and the second when the class is at its limit. */
    method FirstAndSecond(magic: nat, env: MM.Env, ghost size: nat) returns (m: UcMem?)
      requires Valid() && magic < NR && MM.WellFormed(model) && size <= SizeOf(magic)
      modifies Repr
      ensures Valid() && fresh(Repr - old(Repr)) && old(Repr) <= Repr && Kept()
      ensures var r := MM.AllocClass(old(model), magic, env); model == r.m && (m != null <==> r.got)
      ensures m != null ==>
                pools[magic] != null && m in pools[magic].out && m.asked == size &&
                (old(pools[magic]) != null ==> m !in old(pools[magic].out))
    {
      var p := GetPool(magic, env.creatable);
      assert PoolOk(magic);
      if p == null { return null; }
      var exceed;
      m, exceed := AllocPool(magic, env, size);
      if m == null && exceed {
        ModelWellFormed();
        m := Retry(magic, env, size);
      }
    }

    /** A request above the largest class: a holder of no pool. */
    method AllocDirect(size: nat, env: MM.Env) returns (m: UcMem?)
      ensures m != null <==> env.newOk
      ensures m != null ==>
                && m.pool == null && fresh(m) && (m.mem != null <==> env.mallocOk)
                && (m.mem != null ==> m.mem.size == size)
    {
      if !env.newOk { return null; }
      m := new UcMem();
      if env.mallocOk { m.mem := new Block(size, m); }
    }

    /**
     UcMemManager::Alloc.  A pooled result is newly outstanding, from the least
     class that holds the request, and its block has at least the size asked for;
     requests above the largest class bypass the pools, whose holder may be missing
     (new fails) or come without a block (malloc fails).
     */
    method Alloc(size: nat, env: MM.Env) returns (m: UcMem?, magic: int)
      requires Valid()
      modifies Repr
      ensures Valid() && fresh(Repr - old(Repr)) && old(Repr) <= Repr && Kept() && OutExactly(magic, m)
      ensures magic == -1 <==> size > SizeOf(NR - 1)
      ensures magic == -1 ==> model == old(model) && (m != null <==> env.newOk)
      ensures magic == -1 && m != null ==>
                && m.pool == null && fresh(m) && (m.mem != null <==> env.mallocOk)
                && (m.mem != null ==> m.mem.size == size)
      ensures magic != -1 ==>
                && 0 <= magic < NR && size <= SizeOf(magic) && (forall j :: 0 <= j < magic ==> SizeOf(j) < size)
                && MM.WellFormed(old(model))
                && model == MM.AllocClass(old(model), magic, env).m
                && (m != null <==> QE.Succeeds(old(model), magic, env))
      ensures magic != -1 && m != null ==>
                && pools[magic] != null && m in pools[magic].out && m.pool == pools[magic]
                && m.mem != null && m.mem.size >= size && m.mem.holder == m
                && (old(pools[magic]) != null ==> m !in old(pools[magic].out))
    {
      TableIsPowers();
      SizesIncreasing();
      magic := GetMagic(SIZES, size);
      if magic == -1 {
        m := AllocDirect(size, env);
      } else {
        ModelWellFormed();
        QE.AllocGotExactly(model, magic, env);
        m := AllocClass(magic, env, size);
        assert PoolOk(magic);
      }
    }

    /** UcMemManager::Free of an outstanding holder (or of one allocated directly, or NULL). */
    method Free(m: UcMem?, ghost k: nat)
      requires Valid()
      requires m != null && m.pool != null ==> k < NR && pools[k] == m.pool && m in pools[k].out
      modifies this`model, if m != null && m.pool != null then {m.pool} else {}
      ensures Valid()
      ensures m != null && old(m.pool) != null ==>
                && old(model).pools[k].Some? && old(model).pools[k].value.out > 0
                && model == MM.WithPool(old(model), k, MemPool.Free(old(model).pools[k].value).pool)
                && pools[k].out == old(pools[k].out) - {m}
      ensures m == null || old(m.pool) == null ==> model == old(model)
    {
      if m != null && m.pool != null {
        var p := m.pool;
        assert PoolOk(k);
        p.Free(m);
        model := model.(pools := model.pools[k := Some(p.Abs())]);
        forall j | 0 <= j < NR ensures PoolOk(j) {
          assert old(PoolOk(j));
          if j != k { assert old(Apart(k, j)); }
        }
        forall i, j | 0 <= i < NR && 0 <= j < NR && i != j ensures Apart(i, j) { assert old(Apart(i, j)); }
      }
    }

    /**
     In every reachable state, any two outstanding holders have different blocks,
     each at least as large as its user asked for.
     */
    lemma BuffersApart(i: nat, a: UcMem, j: nat, b: UcMem)
      requires Valid() && i < NR && j < NR && pools[i] != null && pools[j] != null
      requires a in pools[i].out && b in pools[j].out
      ensures a.mem != null && a.asked <= a.mem.size
      ensures a != b ==> a.mem != b.mem
      ensures i != j ==> a != b
    {
      assert PoolOk(i) && PoolOk(j);
      if i != j { assert Apart(i, j); }
    }
  }
}
