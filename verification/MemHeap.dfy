/**
 The allocator's objects (src/mem_pool.h, src/mem_pool.cc): memory holders and
 the pool of one size class, updated in place.  Every method is proved against
 the value model of module MemPool.
 */
module MemHeap {
  import opened Bytes
  import MemPool

  /** A block that malloc returned; `holder` is the UcMem it was allocated for. */
  class Block {
    const size: nat
    ghost const holder: UcMem

    constructor (size: nat, ghost holder: UcMem)
      ensures this.size == size && this.holder == holder
    {
      this.size := size;
      this.holder := holder;
    }
  }

  class UcMem {
    var mem: Block?
    var pool: UcMemPool?
    ghost var asked: nat          // the size the current user asked for

    constructor ()
      ensures mem == null && pool == null
    {
      mem, pool, asked := null, null, 0;
    }
  }

  class UcMemPool {
    const szEach: nat
    var szTotal: nat
    var szFree: nat
    var szMax: nat
    var list: seq<UcMem>          // the free list of ObjPool<UcMem>, top first
    ghost var flags: seq<bool>    // which listed holders have memory
    ghost var out: set<UcMem>     // handed out and not freed
    ghost var lent: nat           // how many those are
    ghost var holders: set<UcMem> // every holder of this pool

    constructor (each: nat, max: nat)
      requires each > 0
      ensures Valid() && szEach == each && holders == {} && out == {} && Abs() == MemPool.Fresh(each, max)
    {
      szEach, szTotal, szFree, szMax, list := each, 0, 0, max, [];
      flags, out, lent, holders := [], {}, 0, {};
    }

    ghost function Abs(): MemPool.Pool
      reads this
    {
      MemPool.Pool(szEach, szTotal, szFree, szMax, flags, lent)
    }

    /** A holder of this pool; its block, if any, has the class size and belongs to it alone. */
    ghost predicate Owns(m: UcMem)
      reads m
    {
      && m.pool == this
      && (m.mem != null ==> m.mem.size == szEach && m.mem.holder == m)
    }

    /** Outstanding holders have memory, listed ones are distinct, and none is both. */
    ghost predicate Shape()
      reads this`out, this`lent, this`list, this`flags, this`holders, holders
    {
      && lent == |out|
      && (forall m :: m in out ==> m in holders && m !in list && Owns(m) && m.mem != null && m.asked <= szEach)
      && (forall i :: 0 <= i < |list| ==> list[i] in holders && Owns(list[i]))
      && Distinct(list)
      && |flags| == |list|
      && forall i :: 0 <= i < |list| ==> flags[i] == (list[i].mem != null)
    }

    ghost predicate Valid()
      reads this, holders
    {
      Shape() && MemPool.Consistent(Abs())
    }

    /** A holder the pool is working on: neither listed nor outstanding. */
    ghost predicate InHand(m: UcMem)
      reads this`out, this`list, this`holders
    {
      m in holders && m !in list && m !in out
    }

    /** pool.New(): the top of the free list, or a new holder without memory. */
    method Take(newOk: bool) returns (m: UcMem?)
      requires Shape()
      modifies this`list, this`flags, this`holders
      ensures Shape() && old(holders) <= holders && fresh(holders - old(holders))
      ensures old(list) != [] ==> holders == old(holders)
      ensures m == null <==> old(list) == [] && !newOk
      ensures m == null ==> list == old(list) && flags == old(flags)
      ensures m != null ==> InHand(m) && (m.mem != null ==> m.mem.size == szEach && m.mem.holder == m)
      ensures m != null ==> flags == MemPool.Rest(old(Abs())) && (m.mem != null) == MemPool.Top(old(Abs()))
      ensures m != null && old(list) != [] ==> m == old(list[0]) && Owns(m)
      ensures m != null ==> m in old(Idle()) || fresh(m)
    {
      if list != [] {
        var rest := list[1..];
        assert forall i :: 0 <= i < |rest| ==> rest[i] == list[i + 1];
        m, list := list[0], rest;
        flags := flags[1..];
      } else if newOk {
        m := new UcMem();
        holders := holders + {m};
      } else {
        m := null;
      }
    }

    /** pool.Delete(m): onto the top of the free list. */
    method Put(m: UcMem)
      requires Shape() && InHand(m) && Owns(m)
      modifies this`list, this`flags
      ensures Shape() && list == [m] + old(list) && flags == [m.mem != null] + old(flags)
    {
      var longer := [m] + list;
      assert forall i :: 0 < i < |longer| ==> longer[i] == list[i - 1];
      list := longer;
      flags := [m.mem != null] + flags;
    }

    /** The holder in hand becomes this pool's. */
    method Claim(m: UcMem)
      requires Shape() && InHand(m) && (m.mem != null ==> m.mem.size == szEach && m.mem.holder == m)
      modifies m`pool
      ensures Shape() && Owns(m)
    {
      m.pool := this;
    }

    /** malloc: the holder in hand gets a block of the class size. */
    method Fill(m: UcMem)
      requires Shape() && InHand(m) && Owns(m) && m.mem == null
      modifies m`mem
      ensures Shape() && Owns(m) && m.mem != null
    {
      m.mem := new Block(szEach, m);
    }

    /** free: the holder in hand loses its block. */
    method Empty(m: UcMem)
      requires Shape() && InHand(m) && Owns(m)
      modifies m`mem
      ensures Shape() && Owns(m) && m.mem == null
    {
      m.mem := null;
    }

    /** The holder in hand goes to the caller. */
    ghost method HandOut(m: UcMem, size: nat)
      requires Shape() && InHand(m) && Owns(m) && m.mem != null && size <= szEach
      modifies this`out, this`lent, m`asked
      ensures Shape() && out == old(out) + {m} && lent == old(lent) + 1 && m.asked == size
    {
      m.asked := size;
      out, lent := out + {m}, lent + 1;
    }

    /** The holders an operation may write: all but the outstanding ones. */
    ghost function Idle(): set<UcMem>
      reads this`holders, this`out
    {
      holders - out
    }

    /** Alloc on the pointers and counters; BAD1 must not be about to happen. */
    method AllocRaw(newOk: bool, mallocOk: bool, ghost size: nat) returns (m: UcMem?, exceed: bool)
      requires Shape() && size <= szEach && (flags != [] && flags[0] ==> szFree >= szEach)
      modifies this, Idle()
      ensures Shape() && fresh(holders - old(holders)) && old(holders) <= holders && szMax == old(szMax)
      ensures var p := old(Abs());
              if p.list == [] && !newOk then
                m == null && !exceed && flags == []
              else if MemPool.Top(p) || (p.total + p.each <= p.max && mallocOk) then
                m != null && !exceed && flags == MemPool.Rest(p)
              else
                m == null && exceed == (p.total + p.each > p.max) && flags == [false] + MemPool.Rest(p)
      ensures m == null ==> out == old(out) && lent == old(lent) && szTotal == old(szTotal) && szFree == old(szFree)
      ensures m != null ==> m !in old(out) && out == old(out) + {m} && m.asked == size
      ensures m != null ==> lent == old(lent) + 1 && szTotal == old(szTotal) + szEach
      ensures m != null ==> szFree == old(szFree) - if MemPool.Top(old(Abs())) then szEach else 0
    {
      m := Take(newOk);
      if m == null { return m, false; }
      Claim(m);
      if m.mem == null {
        var got;
        got, exceed := Provide(m, mallocOk, size);
        if !got { m := null; }
      } else {
        exceed := false;
        Reuse(m, size);
      }
    }

    /** Alloc when the holder it took has memory: only the counters move, without a limit check. */
    method Reuse(m: UcMem, ghost size: nat)
      requires size <= szEach && Shape() && InHand(m) && Owns(m) && m.mem != null && szFree >= szEach
      modifies this`out, this`lent, this`szFree, this`szTotal, m`asked
      ensures Shape() && m.asked == size && out == old(out) + {m} && lent == old(lent) + 1
      ensures szFree == old(szFree) - szEach && szTotal == old(szTotal) + szEach
    {
      szFree := szFree - szEach;
      szTotal := szTotal + szEach;
      HandOut(m, size);
    }

    /** Alloc when the holder it took has no memory: check the limit, then malloc. */
    method Provide(m: UcMem, mallocOk: bool, ghost size: nat) returns (got: bool, exceed: bool)
      requires size <= szEach && Shape() && InHand(m) && Owns(m) && m.mem == null
      modifies this`list, this`flags, this`out, this`lent, this`szTotal, m`mem, m`asked
      ensures Shape()
      ensures exceed == (szMax < old(szTotal) + szEach) && got == (!exceed && mallocOk)
      ensures got ==> m.asked == size && out == old(out) + {m} && lent == old(lent) + 1
      ensures got ==> szTotal == old(szTotal) + szEach && list == old(list) && flags == old(flags)
      ensures !got ==> out == old(out) && lent == old(lent) && szTotal == old(szTotal) && flags == [false] + old(flags)
    {
      exceed := szTotal + szEach > szMax;
      got := !exceed && mallocOk;
      if got {
        Fill(m);
        szTotal := szTotal + szEach;
        HandOut(m, size);
      } else {
        Put(m);
      }
    }

    method Alloc(newOk: bool, mallocOk: bool, ghost size: nat) returns (m: UcMem?, exceed: bool)
      requires Valid() && size <= szEach
      modifies this, Idle()
      ensures Valid() && fresh(holders - old(holders)) && old(holders) <= holders
      ensures var r := MemPool.Alloc(old(Abs()), newOk, mallocOk);
              && Abs() == r.pool
              && (m != null <==> r.outcome == MemPool.Got)
              && (exceed <==> r.outcome == MemPool.Exceeded)
      ensures m == null ==> out == old(out)
      ensures m != null ==> m !in old(out) && out == old(out) + {m} && m.asked == size
    {
      MemPool.AllocConsistent(Abs(), newOk, mallocOk);
      if MemPool.Top(Abs()) { FreeMeansListed(Abs()); }
      m, exceed := AllocRaw(newOk, mallocOk, size);
    }

    method Free(m: UcMem)
      requires Valid() && m in out
      modifies this
      ensures Valid() && holders == old(holders) && out == old(out) - {m}
      ensures Abs() == MemPool.Free(old(Abs())).pool
    {
      MemPool.FreeConsistent(Abs());
      FreeRaw(m);
    }

    method FreeRaw(m: UcMem)
      requires Shape() && m in out && szTotal >= szEach
      modifies this
      ensures Shape() && holders == old(holders) && out == old(out) - {m}
      ensures Abs() == MemPool.Free(old(Abs())).pool
    {
      out, lent := out - {m}, lent - 1;
      Put(m);
      szFree := szFree + szEach;
      szTotal := szTotal - szEach;
    }

    /** One turn of the release loop: empty the top holder and put it back, unless it is empty already. */
    method ReleaseTop() returns (freed: bool)
      requires Shape() && list != [] && (flags[0] ==> szFree >= szEach)
      modifies this`list, this`flags, this`holders, this`szFree, Idle()
      ensures Shape() && holders == old(holders) && freed == old(flags)[0]
      ensures flags == [false] + old(flags)[1..]
      ensures szFree == old(szFree) - if freed then szEach else 0
    {
      var m := Take(true);
      freed := m.mem != null;
      if freed {
        Empty(m);
        szFree := szFree - szEach;
      }
      Put(m);
    }

    /**
     The release loop of Shrink.  Neither BAD4 (free bytes but no holder) nor BAD3
     (fewer free bytes than a buffer) can occur; BAD2, an emptied holder on top,
     ends the loop.
     */
    method ReleaseLoop(maxFree: nat, newOk: bool) returns (shk: nat)
      requires Valid()
      modifies this`list, this`flags, this`holders, this`szFree, Idle()
      ensures Valid() && holders == old(holders)
      ensures var r := MemPool.Release(old(Abs()), maxFree, 0, newOk);
              Abs() == r.pool && shk == r.shk
    {
      shk := 0;
      ghost var r := MemPool.Release(Abs(), maxFree, 0, newOk);
      var running := true;
      while running && szFree > maxFree
        invariant Valid() && holders == old(holders)
        invariant MemPool.Release(Abs(), maxFree, shk, newOk).pool == r.pool
        invariant MemPool.Release(Abs(), maxFree, shk, newOk).shk == r.shk
        invariant !running ==> Abs() == r.pool && shk == r.shk
        decreases running, MemPool.Full(flags)
      {
        ReleaseTurn(Abs(), maxFree, shk, newOk);
        running := ReleaseTop();
        if running { shk := shk + szEach; }
      }
    }

    /** `sz_max -= shk`. */
    method LowerMax(shk: nat)
      requires Valid() && shk <= szMax
      modifies this`szMax
      ensures Valid() && Abs() == old(Abs()).(max := old(szMax) - shk)
    {
      szMax := szMax - shk;
    }

    /** The unallocated quota Shrink would give up; zero when there is little of it. */
    method SpareQuota() returns (shk: nat)
      requires Valid()
      ensures shk == MemPool.Spare(Abs())
    {
      shk := 0;
      var inUse := szTotal + szFree;
      if szMax > inUse * 2 {
        shk := MemPool.AlignDown((szMax - inUse) / 2, szEach);
      }
    }

    /** UcMemPool::Shrink. */
    method Shrink(newOk: bool) returns (shk: nat)
      requires Valid()
      modifies this, Idle()
      ensures Valid() && holders == old(holders) && out == old(out)
      ensures var r := MemPool.Shrink(old(Abs()), newOk); Abs() == r.pool && shk == r.shk
    {
      shk := SpareQuota();
      if shk > szEach {
        LowerMax(shk);
        return;
      }
      var maxFree := szMax / 4;
      if maxFree > szTotal { maxFree := szTotal; }
      shk := ReleaseLoop(maxFree, newOk);
      if szMax >= shk { LowerMax(shk); }
    }
  }

  lemma FreeMeansListed(p: MemPool.Pool)
    requires MemPool.Consistent(p) && (p.free > 0 || MemPool.Top(p))
    ensures p.list != []
    ensures MemPool.Top(p) ==> p.free >= p.each && MemPool.Full(p.list) == 1 + MemPool.Full(MemPool.Rest(p))
  {
    MemPool.MulStep(p.each, MemPool.Full(p.list));
  }

  /** One turn of the loop on values. */
  lemma ReleaseTurn(p: MemPool.Pool, maxFree: nat, shk: nat, newOk: bool)
    requires MemPool.Consistent(p) && p.free > maxFree
    ensures p.list != [] && (p.list[0] ==> p.free >= p.each)
    ensures var q := p.(list := [false] + p.list[1..], free := p.free - if p.list[0] then p.each else 0);
            var r := MemPool.Release(p, maxFree, shk, newOk);
            && MemPool.Consistent(q)
            && MemPool.Full(q.list) == MemPool.Full(p.list) - (if p.list[0] then 1 else 0)
            && (p.list[0] ==>
                  var t := MemPool.Release(q, maxFree, shk + p.each, newOk);
                  t.pool == r.pool && t.shk == r.shk)
            && (!p.list[0] ==>
                  var t := MemPool.Release(q, maxFree, shk, newOk);
                  q == r.pool == t.pool && shk == r.shk == t.shk)
  {
    FreeMeansListed(p);
    MemPool.FullCons(false, MemPool.Rest(p));
    MemPool.MulStep(p.each, MemPool.Full(p.list));
    var q := p.(list := [false] + p.list[1..], free := p.free - if p.list[0] then p.each else 0);
    assert MemPool.Rest(q) == MemPool.Rest(p);
  }
}
