/**
 The single-threaded object pool of src/obj_pool.h.  Objects are linked through
 their own next and prev pointers; in a list, the prev of the first object is
 the last one.  Deleted objects go on a free list linked through next.

 A ghost `World` names the mathematical sequences those pointers stand for: the
 free list, every live list, and the objects outside any list.
 */
module ObjPool {
  import opened Bytes

  /** s without the (first) occurrence of x. */
  ghost function Minus<T>(s: seq<T>, x: T): seq<T> {
    if s == [] then [] else if s[0] == x then s[1..] else [s[0]] + Minus(s[1..], x)
  }

  lemma {:induction false} MinusAt<T>(s: seq<T>, k: nat)
    requires k < |s| && Distinct(s)
    ensures Minus(s, s[k]) == s[..k] + s[k + 1..]
  {
    if k > 0 {
      assert s[1..][k - 1] == s[k];
      MinusAt(s[1..], k - 1);
      assert s[..k] + s[k + 1..] == [s[0]] + (s[1..][..k - 1] + s[1..][k..]);
    }
  }

  // ---------- pointers ----------

  class Obj {
    var next: Obj?
    var prev: Obj?
    var releases: nat       // how often ReleaseObject has run

    constructor ()
      ensures next == null && prev == null && releases == 0
    {
      next, prev, releases := null, null, 0;
    }

    /** ReleaseObject frees resources and must not touch the pointers. */
    method ReleaseObject()
      modifies this`releases
      ensures releases == old(releases) + 1
    {
      releases := releases + 1;
    }
  }

  /** The caller's variable `first` that a list operation takes by reference. */
  class List {
    var first: Obj?

    constructor ()
      ensures first == null
    {
      first := null;
    }
  }

  /** first points at the head, next and prev run along s, and first->prev is the tail. */
  ghost predicate ListOk(h: List, s: seq<Obj>)
    reads h, s`next, s`prev
  {
    && h.first == (if s == [] then null else s[0])
    && (forall i {:trigger s[i].next} :: 0 <= i < |s| ==>
          s[i].next == if i + 1 < |s| then s[i + 1] else null)
    && (forall i {:trigger s[i].prev} :: 0 <= i < |s| ==>
          s[i].prev == if i == 0 then s[|s| - 1] else s[i - 1])
  }

  /** A chain of next pointers from p along s to NULL. */
  ghost predicate ChainOk(p: Obj?, s: seq<Obj>)
    reads s`next
  {
    && p == (if s == [] then null else s[0])
    && forall i {:trigger s[i].next} :: 0 <= i < |s| ==>
         s[i].next == if i + 1 < |s| then s[i + 1] else null
  }

  /** The pointer updates of New(first): append. */
  method LinkBack(h: List, o: Obj, ghost s: seq<Obj>)
    requires ListOk(h, s) && Distinct(s) && o !in s
    modifies h, o`next, o`prev, s`next, s`prev
    ensures ListOk(h, s + [o])
  {
    o.next := null;
    if h.first != null {
      var lst := h.first.prev;
      lst.next := o;
      o.prev := lst;
      h.first.prev := o;
    } else {
      h.first := o;
      o.prev := o;
    }
  }

  /** The pointer updates of NewFront(first): prepend. */
  method LinkFront(h: List, o: Obj, ghost s: seq<Obj>)
    requires ListOk(h, s) && Distinct(s) && o !in s
    modifies h, o`next, o`prev, s`next, s`prev
    ensures ListOk(h, [o] + s)
  {
    o.next := h.first;
    if h.first != null {
      o.prev := h.first.prev;
      h.first.prev := o;
    } else {
      o.prev := o;
    }
    h.first := o;
    ghost var t := [o] + s;
    assert forall i :: 0 < i < |t| ==> t[i] == s[i - 1];
  }

  method UnlinkFirst(h: List, obj: Obj, ghost s: seq<Obj>)
    requires ListOk(h, s) && Distinct(s) && s != [] && obj == s[0]
    modifies h, s`prev
    ensures ListOk(h, s[1..])
  {
    if obj.next != null {
      obj.next.prev := h.first.prev;
    }
    h.first := obj.next;
    ghost var t := s[1..];
    assert forall i :: 0 <= i < |t| ==> t[i] == s[i + 1];
  }

  method UnlinkInner(h: List, obj: Obj, ghost s: seq<Obj>, ghost k: nat)
    requires ListOk(h, s) && Distinct(s) && 0 < k < |s| && obj == s[k]
    modifies h, s`next, s`prev
    ensures ListOk(h, s[..k] + s[k + 1..])
  {
    var p, n := obj.prev, obj.next;
    assert p == s[k - 1] && n == if k + 1 < |s| then s[k + 1] else null;
    p.next := n;
    if n != null {
      n.prev := p;
    } else {
      h.first.prev := p;
    }
    ghost var t := s[..k] + s[k + 1..];
    assert |t| == |s| - 1;
    assert forall i :: 0 <= i < k ==> t[i] == s[i];
    assert forall i :: k <= i < |t| ==> t[i] == s[i + 1];
    assert forall i {:trigger s[i].next} :: 0 <= i < |s| && i != k - 1 ==>
             s[i].next == if i + 1 < |s| then s[i + 1] else null;
    assert forall i {:trigger t[i].next} :: 0 <= i < |t| ==> t[i].next == if i + 1 < |t| then t[i + 1] else null;
  }

  /** The pointer updates shared by Delete(first, obj) and Detach(first, obj): removal. */
  method Unlink(h: List, obj: Obj, ghost s: seq<Obj>)
    requires ListOk(h, s) && Distinct(s) && obj in s
    modifies h, s`next, s`prev
    ensures ListOk(h, Minus(s, obj))
  {
    ghost var k :| 0 <= k < |s| && s[k] == obj;
    MinusAt(s, k);
    if obj == h.first {
      assert k == 0 && s[..0] + s[1..] == s[1..];
      UnlinkFirst(h, obj, s);
    } else {
      UnlinkInner(h, obj, s, k);
    }
  }

  /** The pointer update of AddToFreeList: the chain s, followed by the old free list. */
  method Splice(obj: Obj, freelist: Obj?, ghost h: List, ghost s: seq<Obj>, ghost free: seq<Obj>)
    requires ListOk(h, s) && ChainOk(freelist, free) && Distinct(s)
    requires s != [] && obj == s[0] && forall i :: 0 <= i < |free| ==> free[i] !in s
    modifies s`next
    ensures ChainOk(obj, s + free)
  {
    var lst := obj.prev;
    lst.next := freelist;
    ghost var f := s + free;
    assert forall i :: 0 <= i < |s| ==> f[i] == s[i];
    assert forall i :: |s| <= i < |f| ==> f[i] == free[i - |s|];
  }

  /** The loop of DeleteAll: it walks the list and releases each object exactly once. */
  method ReleaseAll(h: List, ghost s: seq<Obj>)
    requires ListOk(h, s) && Distinct(s)
    modifies s`releases
    ensures forall x :: x in s ==> x.releases == old(x.releases) + 1
  {
    var o := h.first;
    ghost var i := 0;
    while o != null
      invariant 0 <= i <= |s| && o == if i < |s| then s[i] else null
      invariant forall j :: 0 <= j < |s| ==> s[j].releases == old(s[j].releases) + if j < i then 1 else 0
      decreases |s| - i
    {
      o.ReleaseObject();
      o := o.next;
      i := i + 1;
    }
  }

  // ---------- the sequences the pointers stand for ----------

  datatype World = World(free: seq<Obj>, lists: map<List, seq<Obj>>, loose: set<Obj>, objs: set<Obj>)

  /** No object is in two places, or twice in one; objs has every object the pool created. */
  ghost predicate Apart(w: World) {
    && w.loose <= w.objs
    && (forall x :: x in w.free ==> x in w.objs)
    && (forall h, x :: h in w.lists && x in w.lists[h] ==> x in w.objs)
    && Distinct(w.free)
    && (forall h :: h in w.lists ==> Distinct(w.lists[h]))
    && (forall x :: x in w.free ==> x !in w.loose)
    && (forall h, x :: h in w.lists && x in w.lists[h] ==> x !in w.free && x !in w.loose)
    && (forall h, g, x :: h in w.lists && g in w.lists && x in w.lists[h] && x in w.lists[g] ==> h == g)
  }

  /** New(): o is the head of the free list, or a new object when that is empty. */
  ghost function Fetched(w: World, o: Obj): World {
    w.(free := if w.free == [] then [] else w.free[1..], loose := w.loose + {o}, objs := w.objs + {o})
  }

  ghost predicate CanFetch(w: World, o: Obj) {
    if w.free != [] then o == w.free[0] else o !in w.objs
  }

  /** A loose object becomes part of list h, whose sequence is now s. */
  ghost function Enlisted(w: World, h: List, o: Obj, s: seq<Obj>): World {
    w.(lists := w.lists[h := s], loose := w.loose - {o})
  }

  /** An object is removed from list h. */
  ghost function Detached(w: World, h: List, o: Obj): World
    requires h in w.lists
  {
    w.(lists := w.lists[h := Minus(w.lists[h], o)], loose := w.loose + {o})
  }

  /** Delete(obj): a loose object goes on top of the free list. */
  ghost function Released(w: World, o: Obj): World {
    w.(free := [o] + w.free, loose := w.loose - {o})
  }

  /** DeleteAll(first): a whole list goes, in order, on top of the free list. */
  ghost function Spliced(w: World, h: List): World
    requires h in w.lists
  {
    w.(free := w.lists[h] + w.free, lists := w.lists[h := []])
  }

  lemma FetchedApart(w: World, o: Obj)
    requires Apart(w) && CanFetch(w, o)
    ensures Apart(Fetched(w, o)) && o !in Fetched(w, o).free
    ensures forall h :: h in w.lists ==> o !in w.lists[h]
  {
    if w.free != [] {
      assert forall i :: 0 <= i < |w.free[1..]| ==> w.free[1..][i] == w.free[i + 1];
      assert o in w.free;
    }
  }

  lemma EnlistedApart(w: World, h: List, o: Obj, s: seq<Obj>)
    requires Apart(w) && h in w.lists && o in w.loose
    requires s == w.lists[h] + [o] || s == [o] + w.lists[h]
    ensures Apart(Enlisted(w, h, o, s))
  {
    assert o !in w.lists[h];
    assert forall x :: x in s <==> x == o || x in w.lists[h];
  }

  lemma {:induction false} MinusContents<T>(s: seq<T>, o: T)
    requires Distinct(s)
    ensures Distinct(Minus(s, o)) && o !in Minus(s, o)
    ensures forall x :: x in s && x != o ==> x in Minus(s, o)
    ensures forall x :: x in Minus(s, o) ==> x in s
  {
    if k :| 0 <= k < |s| && s[k] == o {
      MinusAt(s, k);
      var t := s[..k] + s[k + 1..];
      assert forall i :: 0 <= i < |t| ==> t[i] == if i < k then s[i] else s[i + 1];
      forall x | x in s && x != o ensures x in t {
        var i :| 0 <= i < |s| && s[i] == x;
        assert t[if i < k then i else i - 1] == x;
      }
    } else {
      MinusAbsent(s, o);
    }
  }

  lemma {:induction false} MinusAbsent<T>(s: seq<T>, o: T)
    requires o !in s
    ensures Minus(s, o) == s
  {
    if s != [] { MinusAbsent(s[1..], o); }
  }

  lemma DetachedApart(w: World, h: List, o: Obj)
    requires Apart(w) && h in w.lists && o in w.lists[h]
    ensures Apart(Detached(w, h, o))
  {
    MinusContents(w.lists[h], o);
  }

  lemma ReleasedApart(w: World, o: Obj)
    requires Apart(w) && o in w.loose
    ensures Apart(Released(w, o))
  {
    assert forall x :: x in [o] + w.free <==> x == o || x in w.free;
  }

  lemma SplicedApart(w: World, h: List)
    requires Apart(w) && h in w.lists
    ensures Apart(Spliced(w, h)) && Apart(Spliced(w, h).(lists := w.lists - {h}))
  {
    var s, f := w.lists[h], w.lists[h] + w.free;
    assert forall x :: x in f <==> x in s || x in w.free;
    forall i, j | 0 <= i < j < |f| ensures f[i] != f[j] {
      if i < |s| <= j { assert f[i] in s && f[j] in w.free; }
    }
  }

  // ---------- the pool ----------

  /** Objects of the free list and of other lists are not the ones an operation on h and o writes. */
  ghost predicate Separate(w: World, h: List, o: Obj)
    requires h in w.lists
  {
    && (forall i :: 0 <= i < |w.free| ==> w.free[i] !in w.lists[h] && w.free[i] != o)
    && (forall g, i :: g in w.lists && g != h && 0 <= i < |w.lists[g]| ==>
          w.lists[g][i] !in w.lists[h] && w.lists[g][i] != o)
  }

  lemma OthersApart(w: World, h: List, o: Obj)
    requires Apart(w) && h in w.lists && (o in w.loose || o in w.lists[h])
    ensures Separate(w, h, o)
  {
    assert forall i :: 0 <= i < |w.free| ==> w.free[i] in w.free;
    forall g, i | g in w.lists && g != h && 0 <= i < |w.lists[g]|
      ensures w.lists[g][i] !in w.lists[h] && w.lists[g][i] != o
    {
      assert w.lists[g][i] in w.lists[g];
    }
  }

  class ObjPool {
    var freelist: Obj?
    ghost var w: World

    ghost predicate Valid()
      reads this, w.objs, w.lists.Keys
    {
      && Apart(w)
      && ChainOk(freelist, w.free)
      && forall h :: h in w.lists ==> ListOk(h, w.lists[h])
    }

    /** The pointers stand for the sequences. */
    ghost predicate Linked()
      reads *
    {
      ChainOk(freelist, w.free) && forall h :: h in w.lists ==> ListOk(h, w.lists[h])
    }

    /** So do those of the lists other than h. */
    ghost predicate OthersLinked(h: List)
      reads *
    {
      forall g :: g in w.lists && g != h ==> ListOk(g, w.lists[g])
    }

    /** The object the free list would hand out next, if any. */
    ghost function Top(): set<Obj>
      reads this
    {
      if w.free == [] then {} else {w.free[0]}
    }

    constructor ()
      ensures Valid() && w == World([], map[], {}, {})
    {
      freelist, w := null, World([], map[], {}, {});
    }

    /** A list variable initialised to NULL is an empty list. */
    ghost method Adopt(h: List)
      requires Valid() && h !in w.lists && h.first == null
      modifies this`w
      ensures Valid() && w == old(w).(lists := old(w).lists[h := []])
    {
      w := w.(lists := w.lists[h := []]);
    }

    /** The code the three allocators share: the head of the free list, or a new object. */
    method Fetch(canNew: bool) returns (o: Obj?)
      requires Valid()
      modifies this`freelist, this`w
      ensures Valid()
      ensures o == null <==> old(w).free == [] && !canNew
      ensures o == null ==> w == old(w)
      ensures o != null ==> CanFetch(old(w), o) && w == Fetched(old(w), o) && (old(w).free == [] ==> fresh(o))
    {
      if freelist != null {
        o := freelist;
        freelist := o.next;
        ghost var rest := w.free[1..];
        assert forall i :: 0 <= i < |rest| ==> rest[i] == w.free[i + 1];
      } else if canNew {
        o := new Obj();
      } else {
        return null;
      }
      FetchedApart(w, o);
      w := Fetched(w, o);
    }

    /** New(): a standalone object, linked to itself. */
    method New(canNew: bool) returns (o: Obj?)
      requires Valid()
      modifies this`freelist, this`w, Top()
      ensures Valid()
      ensures o == null <==> old(w).free == [] && !canNew
      ensures o == null ==> w == old(w)
      ensures o != null ==>
                && CanFetch(old(w), o) && w == Fetched(old(w), o) && (old(w).free == [] ==> fresh(o))
                && o.next == null && o.prev == o
    {
      o := Fetch(canNew);
      if o != null {
        FetchedApart(old(w), o);
        o.next := null;
        o.prev := o;
      }
    }

    /** Delete(obj): a standalone object goes on top of the free list, released once. */
    method Delete(obj: Obj)
      requires Valid() && obj in w.loose
      modifies this`freelist, this`w, obj
      ensures Valid() && w == Released(old(w), obj)
      ensures obj.releases == old(obj.releases) + 1
    {
      obj.ReleaseObject();
      obj.next := freelist;
      freelist := obj;
      ReleasedApart(w, obj);
      ghost var f := [obj] + w.free;
      assert forall i :: 0 < i < |f| ==> f[i] == w.free[i - 1];
      w := Released(w, obj);
    }

    /** Append o to h and leave the pointers of every other list alone. */
    method LinkLast(h: List, o: Obj)
      requires h in w.lists && Distinct(w.lists[h]) && o !in w.lists[h]
      requires Separate(w, h, o) && Linked()
      modifies h, w.lists[h]`next, w.lists[h]`prev, o`next, o`prev
      ensures ListOk(h, w.lists[h] + [o]) && ChainOk(freelist, w.free) && OthersLinked(h)
    {
      LinkBack(h, o, w.lists[h]);
      forall g | g in w.lists && g != h ensures ListOk(g, w.lists[g]) {
        ghost var t := w.lists[g];
        assert forall i :: 0 <= i < |t| ==> t[i].next == old(t[i].next) && t[i].prev == old(t[i].prev);
        assert old(ListOk(g, t));
      }
      assert forall i :: 0 <= i < |w.free| ==> w.free[i].next == old(w.free[i].next);
    }

    method PutBack(h: List, o: Obj)
      requires Valid() && h in w.lists && o in w.loose
      modifies this`w, h, w.lists[h], o
      ensures Valid() && w == Enlisted(old(w), h, o, old(w).lists[h] + [o])
    {
      ghost var enlisted := Enlisted(w, h, o, w.lists[h] + [o]);
      assert Apart(enlisted) by { EnlistedApart(w, h, o, w.lists[h] + [o]); }
      OthersApart(w, h, o);
      LinkLast(h, o);
      w := enlisted;
    }

    /** Prepend o to h and leave the pointers of every other list alone. */
    method LinkFirst(h: List, o: Obj)
      requires h in w.lists && Distinct(w.lists[h]) && o !in w.lists[h]
      requires Separate(w, h, o) && Linked()
      modifies h, w.lists[h]`next, w.lists[h]`prev, o`next, o`prev
      ensures ListOk(h, [o] + w.lists[h]) && ChainOk(freelist, w.free) && OthersLinked(h)
    {
      LinkFront(h, o, w.lists[h]);
      forall g | g in w.lists && g != h ensures ListOk(g, w.lists[g]) {
        ghost var t := w.lists[g];
        assert forall i :: 0 <= i < |t| ==> t[i].next == old(t[i].next) && t[i].prev == old(t[i].prev);
        assert old(ListOk(g, t));
      }
      assert forall i :: 0 <= i < |w.free| ==> w.free[i].next == old(w.free[i].next);
    }

    method PutFront(h: List, o: Obj)
      requires Valid() && h in w.lists && o in w.loose
      modifies this`w, h, w.lists[h], o
      ensures Valid() && w == Enlisted(old(w), h, o, [o] + old(w).lists[h])
    {
      ghost var enlisted := Enlisted(w, h, o, [o] + w.lists[h]);
      assert Apart(enlisted) by { EnlistedApart(w, h, o, [o] + w.lists[h]); }
      OthersApart(w, h, o);
      LinkFirst(h, o);
      w := enlisted;
    }

    /** New(first): append. */
    method NewBack(h: List, canNew: bool) returns (o: Obj?)
      requires Valid() && h in w.lists
      modifies this, h, w.lists[h], Top()
      ensures Valid()
      ensures o == null <==> old(w).free == [] && !canNew
      ensures o == null ==> w == old(w)
      ensures o != null ==>
                && CanFetch(old(w), o) && (old(w).free == [] ==> fresh(o))
                && w == Enlisted(Fetched(old(w), o), h, o, old(w).lists[h] + [o])
    {
      o := Fetch(canNew);
      if o != null {
        FetchedApart(old(w), o);
        PutBack(h, o);
      }
    }

    /** NewFront(first): prepend. */
    method NewFront(h: List, canNew: bool) returns (o: Obj?)
      requires Valid() && h in w.lists
      modifies this, h, w.lists[h], Top()
      ensures Valid()
      ensures o == null <==> old(w).free == [] && !canNew
      ensures o == null ==> w == old(w)
      ensures o != null ==>
                && CanFetch(old(w), o) && (old(w).free == [] ==> fresh(o))
                && w == Enlisted(Fetched(old(w), o), h, o, [o] + old(w).lists[h])
    {
      o := Fetch(canNew);
      if o != null {
        FetchedApart(old(w), o);
        PutFront(h, o);
      }
    }

    /** Take obj out of h and leave the pointers of every other list alone. */
    method UnlinkOnly(h: List, obj: Obj)
      requires h in w.lists && Distinct(w.lists[h]) && obj in w.lists[h]
      requires Separate(w, h, obj) && Linked()
      modifies h, w.lists[h]`next, w.lists[h]`prev
      ensures ListOk(h, Minus(w.lists[h], obj)) && ChainOk(freelist, w.free) && OthersLinked(h)
    {
      Unlink(h, obj, w.lists[h]);
      forall g | g in w.lists && g != h ensures ListOk(g, w.lists[g]) {
        ghost var t := w.lists[g];
        assert forall i :: 0 <= i < |t| ==> t[i].next == old(t[i].next) && t[i].prev == old(t[i].prev);
        assert old(ListOk(g, t));
      }
      assert forall i :: 0 <= i < |w.free| ==> w.free[i].next == old(w.free[i].next);
    }

    /** The removal that Detach and Delete share. */
    method TakeOut(h: List, obj: Obj)
      requires Valid() && h in w.lists && obj in w.lists[h]
      modifies this`w, h, w.lists[h]`next, w.lists[h]`prev
      ensures Valid() && w == Detached(old(w), h, obj)
    {
      ghost var detached := Detached(w, h, obj);
      assert Apart(detached) by { DetachedApart(w, h, obj); }
      OthersApart(w, h, obj);
      UnlinkOnly(h, obj);
      w := detached;
    }

    /** Detach(first, obj): removal; the object is left with NULL pointers. */
    method Detach(h: List, obj: Obj)
      requires Valid() && h in w.lists && obj in w.lists[h]
      modifies this`w, h, w.lists[h]
      ensures Valid() && w == Detached(old(w), h, obj)
      ensures obj.next == null && obj.prev == null
    {
      TakeOut(h, obj);
      assert obj in w.loose;
      obj.next := null;
      obj.prev := null;
    }

    /** Delete(first, obj): removal, then onto the free list, released once. */
    method DeleteFrom(h: List, obj: Obj)
      requires Valid() && h in w.lists && obj in w.lists[h]
      modifies this`freelist, this`w, h, w.lists[h]
      ensures Valid() && w == Released(Detached(old(w), h, obj), obj)
      ensures obj.releases == old(obj.releases) + 1
    {
      TakeOut(h, obj);
      Delete(obj);
    }

    /** Splicing the objects of h onto the free list leaves the pointers of every other list alone. */
    method SpliceOnly(obj: Obj, ghost h: List)
      requires h in w.lists && w.lists[h] != [] && obj == w.lists[h][0] && Distinct(w.lists[h])
      requires Separate(w, h, obj) && Linked()
      modifies this`freelist, w.lists[h]`next
      ensures ChainOk(freelist, w.lists[h] + w.free) && OthersLinked(h)
    {
      Splice(obj, freelist, h, w.lists[h], w.free);
      freelist := obj;
      forall g | g in w.lists && g != h ensures ListOk(g, w.lists[g]) {
        ghost var t := w.lists[g];
        assert forall i :: 0 <= i < |t| ==> t[i].next == old(t[i].next) && t[i].prev == old(t[i].prev);
        assert old(ListOk(g, t));
      }
    }

    /** AddToFreeList(first): the last object, found through prev, links to the old free list. */
    method AddToFreeList(obj: Obj, ghost h: List)
      requires Valid() && h in w.lists && w.lists[h] != [] && obj == w.lists[h][0]
      modifies this`freelist, this`w, w.lists[h]`next
      ensures Valid()
      ensures w == old(w).(free := old(w).lists[h] + old(w).free, lists := old(w).lists - {h})
    {
      OthersApart(w, h, obj);
      ghost var spliced := w.(free := w.lists[h] + w.free, lists := w.lists - {h});
      assert Apart(spliced) by { SplicedApart(w, h); }
      SpliceOnly(obj, h);
      w := spliced;
    }

    /** DeleteAll(first): every object is released once, and the list goes in order onto the free list. */
    method DeleteAll(h: List)
      requires Valid() && h in w.lists && w.lists[h] != []
      modifies this`freelist, this`w, h, w.lists[h]
      ensures Valid() && w == Spliced(old(w), h) && h.first == null
      ensures forall x :: x in old(w).lists[h] ==> x.releases == old(x.releases) + 1
    {
      ReleaseAll(h, w.lists[h]);
      AddToFreeList(h.first, h);
      h.first := null;
      assert w.lists[h := []] == old(w).lists[h := []];
      Adopt(h);
    }
  }
}
