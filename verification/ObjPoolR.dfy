/**
 The thread-safe object pool of src/obj_pool_r.h as a state machine of atomic
 steps: each read of `obj_freelist` or of a `next` pointer, each write of a
 `next` pointer and each compare-and-swap is one step, and the steps of any
 number of threads interleave in any order (sequentially consistent memory).

 An object may be given back by any thread: clients hand the objects they hold to
 each other.  Delete pushes one object; AddToFreeList (DeleteAll) pushes a whole
 list, whose last element it finds through `first->prev`.  Both push a chain.
 */
module ObjPoolR {
  import opened Bytes

  type Obj = nat
  type Tid = nat
  datatype Ptr = Null | At(obj: Obj)

  /** Where a thread stands inside New, Delete or AddToFreeList. */
  datatype Pc =
    | Idle
    | PushRead(chain: seq<Obj>)             // about to read the list head
    | PushLink(chain: seq<Obj>, seen: Ptr)   // about to write last->next
    | PushCas(chain: seq<Obj>, seen: Ptr)    // about to swap the head
    | PopRead                               // about to read the list head
    | PopNext(top: Obj)                     // about to read top->next
    | PopCas(top: Obj, next: Ptr)           // about to swap the head
    | PopNew                                // the list was empty: about to call new
    | PopInit(got: Obj)                     // about to write next and prev of the result

  /** Who may touch an object: an auxiliary record that no step of the source reads. */
  datatype Owner = Pool | Held(holder: Tid)

  datatype State = State(head: Ptr, next: map<Obj, Ptr>, owner: map<Obj, Owner>, pc: map<Tid, Pc>)

  datatype Step =
    | BeginPush(t: Tid, list: seq<Obj>)
    | BeginPop(t: Tid)
    | Advance(t: Tid)
    | Create(t: Tid, made: Obj)            // new succeeds
    | FailNew(t: Tid)                       // new throws
    | Use(t: Tid, o: Obj, p: Ptr)           // a client links objects it holds
    | Give(t: Tid, o: Obj, to: Tid)         // a client hands an object it holds to another thread

  // ---------- the steps ----------

  /** A list the caller holds: distinct objects linked through next. */
  predicate HeldChain(s: State, t: Tid, c: seq<Obj>) {
    && c != [] && Distinct(c)
    && (forall i :: 0 <= i < |c| ==> c[i] in s.next && c[i] in s.owner && s.owner[c[i]] == Held(t))
    && (forall i :: 0 <= i < |c| - 1 ==> s.next[c[i]] == At(c[i + 1]))
  }

  function GiveBack(owner: map<Obj, Owner>, c: seq<Obj>): map<Obj, Owner> {
    map o | o in owner :: if o in c then Pool else owner[o]
  }

  /** One atomic action of thread t, as its program counter says; None when t cannot move. */
  function AdvanceThread(s: State, t: Tid): Option<State>
    requires t in s.pc
  {
    match s.pc[t]
    case PushRead(c) =>
      Some(s.(pc := s.pc[t := PushLink(c, s.head)]))
    case PushLink(c, o) =>
      if c == [] then None
      else Some(s.(next := s.next[c[|c| - 1] := o], pc := s.pc[t := PushCas(c, o)]))
    case PushCas(c, o) =>
      if c == [] then None
      else if s.head == o then
        Some(s.(head := At(c[0]), owner := GiveBack(s.owner, c), pc := s.pc[t := Idle]))
      else
        Some(s.(pc := s.pc[t := PushRead(c)]))
    case PopRead =>
      Some(s.(pc := s.pc[t := if s.head == Null then PopNew else PopNext(s.head.obj)]))
    case PopNext(o) =>
      if o !in s.next then None else Some(s.(pc := s.pc[t := PopCas(o, s.next[o])]))
    case PopCas(o, n) =>
      if s.head == At(o) then
        Some(s.(head := n, owner := s.owner[o := Held(t)], pc := s.pc[t := PopInit(o)]))
      else
        Some(s.(pc := s.pc[t := PopRead]))
    case PopInit(o) =>
      Some(s.(next := s.next[o := Null], pc := s.pc[t := Idle]))
    case Idle => None
    case PopNew => None
  }

  function Apply(s: State, step: Step): Option<State> {
    if step.t !in s.pc then None else
    match step
    case BeginPush(t, c) =>
      if s.pc[t] == Idle && HeldChain(s, t, c) then Some(s.(pc := s.pc[t := PushRead(c)])) else None
    case BeginPop(t) =>
      if s.pc[t] == Idle then Some(s.(pc := s.pc[t := PopRead])) else None
    case Advance(t) => AdvanceThread(s, t)
    case Create(t, o) =>
      if s.pc[t] == PopNew && o !in s.next && o !in s.owner then
        Some(s.(next := s.next[o := Null], owner := s.owner[o := Held(t)], pc := s.pc[t := PopInit(o)]))
      else None
    case FailNew(t) =>
      if s.pc[t] == PopNew then Some(s.(pc := s.pc[t := Idle])) else None
    case Use(t, o, p) =>
      if s.pc[t] == Idle && o in s.next && o in s.owner && s.owner[o] == Held(t)
      then Some(s.(next := s.next[o := p])) else None
    case Give(t, o, u) =>
      if s.pc[t] == Idle && u in s.pc && o in s.owner && s.owner[o] == Held(t)
      then Some(s.(owner := s.owner[o := Held(u)])) else None
  }

  function Start(threads: set<Tid>): State {
    State(Null, map[], map[], map t | t in threads :: Idle)
  }

  /** The state after the steps, or None when one of them is not possible. */
  function Run(s: State, steps: seq<Step>): Option<State>
    decreases |steps|
  {
    if steps == [] then Some(s)
    else match Apply(s, steps[0])
      case None => None
      case Some(s') => Run(s', steps[1..])
  }

  // ---------- the single-popper condition ----------

  predicate Popping(pc: Pc) {
    pc.PopNext? || pc.PopCas?
  }

  /** At most one thread is between reading the head in New and its compare-and-swap. */
  predicate SinglePopper(s: State) {
    forall t, u :: t in s.pc && u in s.pc && Popping(s.pc[t]) && Popping(s.pc[u]) ==> t == u
  }

  predicate SinglePopperRun(s: State, steps: seq<Step>)
    decreases |steps|
  {
    && SinglePopper(s)
    && (steps != [] ==>
          match Apply(s, steps[0])
          case None => true
          case Some(s') => SinglePopperRun(s', steps[1..]))
  }

  // ---------- the abstract stack ----------

  predicate CasWins(s: State, step: Step) {
    && step.Advance? && step.t in s.pc
    && var pc := s.pc[step.t];
       || (pc.PushCas? && s.head == pc.seen)
       || (pc.PopCas? && s.head == At(pc.top))
  }

  /** A winning swap pushes its chain or pops the top; every other step leaves the stack alone. */
  function StackAfter(stack: seq<Obj>, s: State, step: Step): seq<Obj> {
    if !CasWins(s, step) then stack
    else match s.pc[step.t]
      case PushCas(c, _) => c + stack
      case PopCas(_, _) => if stack == [] then [] else stack[1..]
      case _ => stack
  }

  function StackOfRun(stack: seq<Obj>, s: State, steps: seq<Step>): seq<Obj>
    decreases |steps|
  {
    if steps == [] then stack
    else match Apply(s, steps[0])
      case None => stack
      case Some(s') => StackOfRun(StackAfter(stack, s, steps[0]), s', steps[1..])
  }

  // ---------- the invariant ----------

  /** The pointer to element i of a list, Null past its end. */
  function PtrAt(c: seq<Obj>, i: nat): Ptr {
    if i < |c| then At(c[i]) else Null
  }

  /** The free list in memory is exactly the abstract stack, hence finite and acyclic. */
  predicate Linked(s: State, stack: seq<Obj>) {
    && s.head == PtrAt(stack, 0)
    && Distinct(stack)
    && forall i :: 0 <= i < |stack| ==> stack[i] in s.next && s.next[stack[i]] == PtrAt(stack, i + 1)
  }

  /** Every object is on the stack or held by one thread, never both and never neither. */
  predicate Conserved(s: State, stack: seq<Obj>) {
    && s.owner.Keys == s.next.Keys
    && forall o :: o in s.owner ==> (s.owner[o] == Pool <==> o in stack)
  }

  /** What thread t relies on: the chain it pushes, or the object it was given, is its own, and objects last. */
  predicate ThreadOk(s: State, t: Tid, pc: Pc) {
    match pc
    case PushRead(c) => HeldChain(s, t, c)
    case PushLink(c, _) => HeldChain(s, t, c)
    case PushCas(c, o) => HeldChain(s, t, c) && s.next[c[|c| - 1]] == o
    case PopNext(o) => o in s.next
    case PopInit(o) => o in s.owner && s.owner[o] == Held(t)
    case _ => true
  }

  predicate Inv(s: State, stack: seq<Obj>) {
    && Linked(s, stack)
    && Conserved(s, stack)
    && forall t :: t in s.pc ==> ThreadOk(s, t, s.pc[t])
  }

  // ---------- preservation, step by step ----------

  /** Writing the next pointer of a held object disturbs neither the stack nor any other thread. */
  lemma HeldWrite(s: State, stack: seq<Obj>, t: Tid, o: Obj, p: Ptr)
    requires Inv(s, stack) && o in s.owner && s.owner[o] == Held(t)
    ensures var s' := s.(next := s.next[o := p]);
            && Linked(s', stack) && Conserved(s', stack)
            && forall u :: u in s.pc && u != t ==> ThreadOk(s', u, s.pc[u])
  {
    var s' := s.(next := s.next[o := p]);
    assert forall i :: 0 <= i < |stack| ==> stack[i] in s.owner && stack[i] != o;
    forall u | u in s.pc && u != t ensures ThreadOk(s', u, s.pc[u]) {
      assert ThreadOk(s, u, s.pc[u]);
    }
  }

  lemma DistinctConcat(c: seq<Obj>, d: seq<Obj>)
    requires Distinct(c) && Distinct(d) && forall i :: 0 <= i < |c| ==> c[i] !in d
    ensures Distinct(c + d)
  {
    var e := c + d;
    forall i, j | 0 <= i < j < |e| ensures e[i] != e[j] {
      if i < |c| <= j { assert e[j] in d; }
    }
  }

  lemma PushKeepsLinked(s: State, stack: seq<Obj>, t: Tid)
    requires Linked(s, stack) && Conserved(s, stack)
    requires t in s.pc && s.pc[t].PushCas? && s.head == s.pc[t].seen
    requires ThreadOk(s, t, s.pc[t])
    ensures var c := s.pc[t].chain; Linked(s.(head := At(c[0])), c + stack)
  {
    var c := s.pc[t].chain;
    DistinctConcat(c, stack);
    var all := c + stack;
    forall i | 0 <= i < |all| ensures all[i] in s.next && s.next[all[i]] == PtrAt(all, i + 1) {
      if i >= |c| { assert all[i] == stack[i - |c|]; }
    }
  }

  lemma PushKeepsConserved(s: State, stack: seq<Obj>, c: seq<Obj>)
    requires Conserved(s, stack)
    ensures Conserved(s.(owner := GiveBack(s.owner, c)), c + stack)
  {
    assert GiveBack(s.owner, c).Keys == s.owner.Keys;
  }

  lemma PushKeepsThread(s: State, c: seq<Obj>, t: Tid, u: Tid, pc: Pc)
    requires ThreadOk(s, u, pc) && HeldChain(s, t, c) && u != t
    ensures ThreadOk(s.(head := At(c[0]), owner := GiveBack(s.owner, c)), u, pc)
  {
    assert forall o :: o in s.owner && s.owner[o] == Held(u) ==> o !in c;
  }

  lemma PushWins(s: State, stack: seq<Obj>, t: Tid)
    requires Inv(s, stack) && t in s.pc && s.pc[t].PushCas? && s.head == s.pc[t].seen
    ensures AdvanceThread(s, t).Some? && Inv(AdvanceThread(s, t).value, s.pc[t].chain + stack)
  {
    assert ThreadOk(s, t, s.pc[t]);
    var c := s.pc[t].chain;
    PushKeepsLinked(s, stack, t);
    PushKeepsConserved(s, stack, c);
    var s' := AdvanceThread(s, t).value;
    forall u | u in s'.pc ensures ThreadOk(s', u, s'.pc[u]) {
      if u != t { PushKeepsThread(s, c, t, u, s.pc[u]); }
    }
  }

  /** If the step is a winning pop, the `next` it swaps in is still that of the top. */
  predicate FreshSwap(s: State, step: Step) {
    CasWins(s, step) && s.pc[step.t].PopCas? ==>
      var PopCas(o, n) := s.pc[step.t];
      o in s.next && s.next[o] == n
  }

  lemma PopKeepsLinked(s: State, stack: seq<Obj>, n: Ptr)
    requires Linked(s, stack) && stack != [] && s.next[stack[0]] == n
    ensures Linked(s.(head := n), stack[1..])
  {
    var rest := stack[1..];
    forall i | 0 <= i < |rest| ensures rest[i] in s.next && s.next[rest[i]] == PtrAt(rest, i + 1) {
      assert rest[i] == stack[i + 1];
    }
  }

  lemma PopKeepsConserved(s: State, stack: seq<Obj>, t: Tid)
    requires Conserved(s, stack) && Distinct(stack) && stack != [] && stack[0] in s.owner
    ensures Conserved(s.(owner := s.owner[stack[0] := Held(t)]), stack[1..])
  {
    assert stack == [stack[0]] + stack[1..];
    assert forall p :: p in stack <==> p == stack[0] || p in stack[1..];
  }

  /** Taking an object of the pool out of it does not concern what other threads hold. */
  lemma PopKeepsThread(s: State, o: Obj, t: Tid, head: Ptr, u: Tid, pc: Pc)
    requires ThreadOk(s, u, pc) && o in s.owner && s.owner[o] == Pool
    ensures ThreadOk(s.(head := head, owner := s.owner[o := Held(t)]), u, pc)
  {
    if HeldChainPc(pc) { assert o !in pc.chain; }
  }

  lemma PopWins(s: State, stack: seq<Obj>, t: Tid)
    requires Inv(s, stack) && FreshSwap(s, Advance(t))
    requires t in s.pc && s.pc[t].PopCas? && s.head == At(s.pc[t].top)
    ensures stack != [] && stack[0] == s.pc[t].top
    ensures s.pc[t].top in s.owner && s.owner[s.pc[t].top] == Pool
    ensures AdvanceThread(s, t).Some? && Inv(AdvanceThread(s, t).value, stack[1..])
  {
    var PopCas(o, n) := s.pc[t];
    assert o == stack[0] && o in stack;
    PopKeepsLinked(s, stack, n);
    PopKeepsConserved(s, stack, t);
    var s' := AdvanceThread(s, t).value;
    forall u | u in s'.pc ensures ThreadOk(s', u, s'.pc[u]) {
      if u != t { PopKeepsThread(s, o, t, n, u, s.pc[u]); }
    }
  }

  predicate HeldChainPc(pc: Pc) {
    pc.PushRead? || pc.PushLink? || pc.PushCas?
  }

  /** A step that changes only the program counter of t keeps everything but what t's new counter claims. */
  lemma OnlyPc(s: State, stack: seq<Obj>, t: Tid, pc: Pc)
    requires Inv(s, stack) && t in s.pc && ThreadOk(s, t, pc)
    ensures Inv(s.(pc := s.pc[t := pc]), stack)
  {
    var s' := s.(pc := s.pc[t := pc]);
    forall u | u in s'.pc ensures ThreadOk(s', u, s'.pc[u]) {
      assert ThreadOk(s, u, if u == t then pc else s.pc[u]);
    }
  }

  lemma LinkKeepsInv(s: State, stack: seq<Obj>, t: Tid)
    requires Inv(s, stack) && t in s.pc && s.pc[t].PushLink?
    ensures AdvanceThread(s, t).Some? && Inv(AdvanceThread(s, t).value, stack)
  {
    assert ThreadOk(s, t, s.pc[t]);
    var PushLink(c, o) := s.pc[t];
    HeldWrite(s, stack, t, c[|c| - 1], o);
    var w := s.(next := s.next[c[|c| - 1] := o]);
    assert HeldChain(w, t, c);
    var s' := AdvanceThread(s, t).value;
    forall u | u in s'.pc ensures ThreadOk(s', u, s'.pc[u]) {
      assert ThreadOk(w, u, s'.pc[u]);
    }
  }

  lemma InitKeepsInv(s: State, stack: seq<Obj>, t: Tid)
    requires Inv(s, stack) && t in s.pc && s.pc[t].PopInit?
    ensures AdvanceThread(s, t).Some? && Inv(AdvanceThread(s, t).value, stack)
  {
    assert ThreadOk(s, t, s.pc[t]);
    var o := s.pc[t].got;
    HeldWrite(s, stack, t, o, Null);
    var w := s.(next := s.next[o := Null]);
    var s' := AdvanceThread(s, t).value;
    forall u | u in s'.pc ensures ThreadOk(s', u, s'.pc[u]) {
      assert ThreadOk(w, u, s'.pc[u]);
    }
  }

  lemma AdvanceKeepsInv(s: State, stack: seq<Obj>, t: Tid)
    requires Inv(s, stack) && FreshSwap(s, Advance(t)) && t in s.pc && AdvanceThread(s, t).Some?
    ensures Inv(AdvanceThread(s, t).value, StackAfter(stack, s, Advance(t)))
  {
    assert ThreadOk(s, t, s.pc[t]);
    match s.pc[t]
    case PushRead(c) => OnlyPc(s, stack, t, PushLink(c, s.head));
    case PushLink(c, o) => LinkKeepsInv(s, stack, t);
    case PushCas(c, o) =>
      if s.head == o { PushWins(s, stack, t); } else { OnlyPc(s, stack, t, PushRead(c)); }
    case PopRead => OnlyPc(s, stack, t, if s.head == Null then PopNew else PopNext(s.head.obj));
    case PopNext(o) => OnlyPc(s, stack, t, PopCas(o, s.next[o]));
    case PopCas(o, n) =>
      if s.head == At(o) { PopWins(s, stack, t); } else { OnlyPc(s, stack, t, PopRead); }
    case PopInit(o) => InitKeepsInv(s, stack, t);
    case _ =>
  }

  lemma CreateKeepsThread(s: State, t: Tid, o: Obj, u: Tid, pc: Pc)
    requires ThreadOk(s, u, pc) && o !in s.next && o !in s.owner
    ensures ThreadOk(s.(next := s.next[o := Null], owner := s.owner[o := Held(t)]), u, pc)
  {
    if HeldChainPc(pc) { assert o !in pc.chain; }
  }

  lemma CreateKeepsInv(s: State, stack: seq<Obj>, t: Tid, o: Obj)
    requires Inv(s, stack) && Apply(s, Create(t, o)).Some?
    ensures Inv(Apply(s, Create(t, o)).value, stack)
  {
    var s' := Apply(s, Create(t, o)).value;
    forall u | u in s'.pc ensures ThreadOk(s', u, s'.pc[u]) {
      if u != t { CreateKeepsThread(s, t, o, u, s.pc[u]); }
    }
  }

  lemma GiveKeepsThread(s: State, t: Tid, o: Obj, u: Tid, v: Tid, pc: Pc)
    requires ThreadOk(s, v, pc) && o in s.owner && s.owner[o] == Held(t) && (v == t ==> pc == Idle)
    ensures ThreadOk(s.(owner := s.owner[o := Held(u)]), v, pc)
  {
    if HeldChainPc(pc) { assert o !in pc.chain; }
  }

  lemma GiveKeepsStack(s: State, stack: seq<Obj>, o: Obj, u: Tid)
    requires Linked(s, stack) && Conserved(s, stack) && o in s.owner && s.owner[o] != Pool
    ensures var s' := s.(owner := s.owner[o := Held(u)]); Linked(s', stack) && Conserved(s', stack)
  {
    var s' := s.(owner := s.owner[o := Held(u)]);
    assert s'.owner.Keys == s.owner.Keys;
  }

  /** An idle thread relies on nothing it holds, so it may hand any of it over. */
  lemma GiveKeepsInv(s: State, stack: seq<Obj>, t: Tid, o: Obj, u: Tid)
    requires Inv(s, stack) && t in s.pc && s.pc[t] == Idle && o in s.owner && s.owner[o] == Held(t)
    ensures Inv(s.(owner := s.owner[o := Held(u)]), stack)
  {
    var s' := s.(owner := s.owner[o := Held(u)]);
    GiveKeepsStack(s, stack, o, u);
    forall v | v in s'.pc ensures ThreadOk(s', v, s'.pc[v]) {
      GiveKeepsThread(s, t, o, u, v, s.pc[v]);
    }
  }

  /** Every step but a stale pop keeps the invariant, and changes the stack exactly by a winning swap. */
  lemma StepKeepsInv(s: State, stack: seq<Obj>, step: Step)
    requires Inv(s, stack) && FreshSwap(s, step) && Apply(s, step).Some?
    ensures Inv(Apply(s, step).value, StackAfter(stack, s, step))
  {
    match step
    case BeginPush(t, c) => OnlyPc(s, stack, t, PushRead(c));
    case BeginPop(t) => OnlyPc(s, stack, t, PopRead);
    case Advance(t) => AdvanceKeepsInv(s, stack, t);
    case Create(t, o) => CreateKeepsInv(s, stack, t, o);
    case FailNew(t) => OnlyPc(s, stack, t, Idle);
    case Use(t, o, p) => HeldWrite(s, stack, t, o, p);
    case Give(t, o, u) => GiveKeepsInv(s, stack, t, o, u);
  }

  // ---------- exactly which runs keep the list ----------

  /**
   A winning pop takes exactly the top off the list if and only if the `next` it
   read earlier is still that of the top; the swap compares the head alone.
   */
  lemma PopSwapExactly(s: State, stack: seq<Obj>, t: Tid)
    requires Linked(s, stack) && CasWins(s, Advance(t)) && s.pc[t].PopCas?
    ensures stack != [] && stack[0] == s.pc[t].top && s.pc[t].top in s.next
    ensures Linked(AdvanceThread(s, t).value, stack[1..]) <==> s.pc[t].next == s.next[s.pc[t].top]
  {
    var rest := stack[1..];
    assert forall i :: 0 <= i < |rest| ==> rest[i] == stack[i + 1];
    assert PtrAt(rest, 0) == PtrAt(stack, 1);
  }

  predicate FreshRun(s: State, steps: seq<Step>)
    decreases |steps|
  {
    steps != [] ==>
      && FreshSwap(s, steps[0])
      && match Apply(s, steps[0])
         case None => true
         case Some(s') => FreshRun(s', steps[1..])
  }

  /** After every step of the run the list in memory is the stack of the winning swaps. */
  predicate LinkedThroughout(s: State, stack: seq<Obj>, steps: seq<Step>)
    decreases |steps|
  {
    && Linked(s, stack)
    && (steps != [] ==>
          match Apply(s, steps[0])
          case None => true
          case Some(s') => LinkedThroughout(s', StackAfter(stack, s, steps[0]), steps[1..]))
  }

  /**
   Over every run of any number of threads, poppers included: the list in memory
   is throughout the stack that the winning swaps build one atomic push or pop at
   a time, if and only if no pop wins with a stale `next`.
   */
  lemma {:induction false} ListIsStackExactly(s: State, stack: seq<Obj>, steps: seq<Step>)
    requires Inv(s, stack) && Run(s, steps).Some?
    ensures LinkedThroughout(s, stack, steps) <==> FreshRun(s, steps)
    ensures FreshRun(s, steps) ==> Inv(Run(s, steps).value, StackOfRun(stack, s, steps))
    decreases |steps|
  {
    if steps != [] {
      var step := steps[0];
      if FreshSwap(s, step) {
        StepKeepsInv(s, stack, step);
        ListIsStackExactly(Apply(s, step).value, StackAfter(stack, s, step), steps[1..]);
      } else {
        PopSwapExactly(s, stack, step.t);
      }
    }
  }

  // ---------- calls run to their end ----------

  /** The thread is inside Delete or AddToFreeList with the chain c. */
  predicate Pushing(pc: Pc, c: seq<Obj>) {
    HeldChainPc(pc) && pc.chain == c
  }

  predicate Inside(pc: Pc) {
    pc.PopRead? || pc.PopNext? || pc.PopCas? || pc.PopNew? || pc.PopInit?
  }

  predicate AllKnown(s: State, c: seq<Obj>) {
    c != [] && forall i :: 0 <= i < |c| ==> c[i] in s.owner
  }

  predicate AllPooled(s: State, c: seq<Obj>) {
    forall i :: 0 <= i < |c| ==> c[i] in s.owner && s.owner[c[i]] == Pool
  }

  /**
   One step of any thread: a thread that pushes goes on pushing the same chain,
   unless the step is its own winning swap, which makes the chain the pool's.
   */
  lemma PushGoesOn(s: State, step: Step, t: Tid, c: seq<Obj>)
    requires t in s.pc && Pushing(s.pc[t], c) && AllKnown(s, c) && Apply(s, step).Some?
    ensures var s' := Apply(s, step).value;
            && t in s'.pc && AllKnown(s', c)
            && (Pushing(s'.pc[t], c) <==> !(step == Advance(t) && CasWins(s, step)))
            && (step == Advance(t) && CasWins(s, step) ==> s'.pc[t] == Idle && AllPooled(s', c))
  {
    var s' := Apply(s, step).value;
    assert s.owner.Keys <= s'.owner.Keys;
  }

  /** Over the run, thread t leaves its push of c only by its own winning swap, and then c is the pool's. */
  predicate PushCall(s: State, steps: seq<Step>, t: Tid, c: seq<Obj>)
    decreases |steps|
  {
    steps == [] || Apply(s, steps[0]).None? ||
    var s' := Apply(s, steps[0]).value;
    t in s'.pc &&
    if Pushing(s'.pc[t], c) then PushCall(s', steps[1..], t, c)
    else t in s.pc && steps[0] == Advance(t) && CasWins(s, steps[0]) && AllPooled(s', c)
  }

  /**
   Over every run of any threads, a call of Delete or AddToFreeList that has begun
   ends only by a winning swap of its thread, after which all its objects are the
   pool's: however often its swap loses, no object is dropped.
   */
  lemma {:induction false} PushEndsByWinning(s: State, steps: seq<Step>, t: Tid, c: seq<Obj>)
    requires t in s.pc && Pushing(s.pc[t], c) && AllKnown(s, c)
    ensures PushCall(s, steps, t, c)
    decreases |steps|
  {
    if steps != [] && Apply(s, steps[0]).Some? {
      PushGoesOn(s, steps[0], t, c);
      var s' := Apply(s, steps[0]).value;
      if Pushing(s'.pc[t], c) { PushEndsByWinning(s', steps[1..], t, c); }
    }
  }

  /** Every push begins with a chain of known objects, so this holds of every call from its start. */
  lemma EveryPushWins(s: State, t: Tid, c: seq<Obj>, steps: seq<Step>)
    requires Apply(s, BeginPush(t, c)).Some?
    ensures PushCall(Apply(s, BeginPush(t, c)).value, steps, t, c)
  {
    PushEndsByWinning(Apply(s, BeginPush(t, c)).value, steps, t, c);
  }

  /**
   One step of any thread: a thread inside New stays inside, unless new fails it or
   it returns the object it has; it has one only by its own winning swap of that
   object or by creating it, and creates one only when it read an empty list.
   */
  lemma NewGoesOn(s: State, step: Step, t: Tid)
    requires t in s.pc && Inside(s.pc[t]) && Apply(s, step).Some?
    ensures var s' := Apply(s, step).value;
            && t in s'.pc
            && (Inside(s'.pc[t]) || s'.pc[t] == Idle)
            && (s'.pc[t] == Idle <==>
                (step == FailNew(t) && s.pc[t] == PopNew) || (step == Advance(t) && s.pc[t].PopInit?))
            && (step == Advance(t) && s.pc[t].PopInit? ==>
                  s.pc[t].got in s'.next && s'.next[s.pc[t].got] == Null)
            && (s'.pc[t].PopInit? && !s.pc[t].PopInit? ==>
                  || (step == Advance(t) && CasWins(s, step) && s'.pc[t].got == s.pc[t].top)
                  || step == Create(t, s'.pc[t].got))
            && (s'.pc[t] == PopNew && s.pc[t] != PopNew ==> s.head == Null)
  {}

  predicate NewCall(s: State, steps: seq<Step>, t: Tid)
    decreases |steps|
  {
    steps == [] || Apply(s, steps[0]).None? ||
    var s' := Apply(s, steps[0]).value;
    t in s.pc && t in s'.pc &&
    if Inside(s'.pc[t]) then NewCall(s', steps[1..], t)
    else (steps[0] == FailNew(t) && s.pc[t] == PopNew) || (steps[0] == Advance(t) && s.pc[t].PopInit?)
  }

  /** Over every run, a call of New ends only with the object it got, or because new failed on an empty list. */
  lemma {:induction false} NewEndsWithObject(s: State, steps: seq<Step>, t: Tid)
    requires t in s.pc && Inside(s.pc[t])
    ensures NewCall(s, steps, t)
    decreases |steps|
  {
    if steps != [] && Apply(s, steps[0]).Some? {
      NewGoesOn(s, steps[0], t);
      var s' := Apply(s, steps[0]).value;
      if Inside(s'.pc[t]) { NewEndsWithObject(s', steps[1..], t); }
    }
  }

  /** A thread becomes busy only by its own calls. */
  lemma IdleStays(s: State, step: Step, t: Tid)
    requires t in s.pc && s.pc[t] == Idle && Apply(s, step).Some?
    ensures var s' := Apply(s, step).value;
            && t in s'.pc
            && (s'.pc[t] == Idle <==> !(step.t == t && (step.BeginPush? || step.BeginPop?)))
            && (step.t == t && step.BeginPush? ==> Pushing(s'.pc[t], step.list))
            && (step.t == t && step.BeginPop? ==> s'.pc[t] == PopRead)
  {}

  // ---------- a thread alone finishes ----------

  /** Thread t takes n steps of its call while the others stand still, or fewer when it cannot go on. */
  function Alone(s: State, t: Tid, n: nat): State
    requires t in s.pc
    decreases n
  {
    if n == 0 || AdvanceThread(s, t).None? then s else Alone(AdvanceThread(s, t).value, t, n - 1)
  }

  /** Its call is over, or it has seen an empty list and is about to call new. */
  predicate Finished(s: State, t: Tid) {
    t in s.pc && (s.pc[t] == Idle || (s.pc[t] == PopNew && s.head == Null))
  }

  lemma AloneFinished(s: State, t: Tid, n: nat)
    requires Finished(s, t)
    ensures Alone(s, t, n) == s
  {}

  lemma AloneOn(s: State, t: Tid, n: nat, s': State)
    requires t in s.pc && AdvanceThread(s, t) == Some(s') && n > 0
    ensures t in s'.pc && Alone(s, t, n) == Alone(s', t, n - 1)
  {}

  lemma SwapAlone(s: State, t: Tid, n: nat, c: seq<Obj>)
    requires t in s.pc && s.pc[t] == PushCas(c, s.head) && c != [] && n >= 1
    ensures Finished(Alone(s, t, n), t)
  {
    var s' := AdvanceThread(s, t).value;
    AloneOn(s, t, n, s');
    AloneFinished(s', t, n - 1);
  }

  lemma PushAlone(s: State, t: Tid, n: nat, c: seq<Obj>)
    requires t in s.pc && s.pc[t] == PushRead(c) && c != [] && n >= 3
    ensures Finished(Alone(s, t, n), t)
  {
    var s1 := AdvanceThread(s, t).value;
    var s2 := AdvanceThread(s1, t).value;
    AloneOn(s, t, n, s1);
    AloneOn(s1, t, n - 1, s2);
    SwapAlone(s2, t, n - 2, c);
  }

  lemma InitAlone(s: State, t: Tid, n: nat)
    requires t in s.pc && s.pc[t].PopInit? && n >= 1
    ensures Finished(Alone(s, t, n), t)
  {
    var s' := AdvanceThread(s, t).value;
    AloneOn(s, t, n, s');
    AloneFinished(s', t, n - 1);
  }

  lemma PopAlone(s: State, t: Tid, n: nat)
    requires t in s.pc && s.pc[t] == PopRead && (s.head == Null || s.head.obj in s.next) && n >= 4
    ensures Finished(Alone(s, t, n), t)
  {
    var s1 := AdvanceThread(s, t).value;
    AloneOn(s, t, n, s1);
    if s.head == Null {
      AloneFinished(s1, t, n - 1);
    } else {
      var s2 := AdvanceThread(s1, t).value;
      AloneOn(s1, t, n - 1, s2);
      var s3 := AdvanceThread(s2, t).value;
      AloneOn(s2, t, n - 2, s3);
      InitAlone(s3, t, n - 3);
    }
  }

  lemma PopSwapAlone(s: State, t: Tid, n: nat)
    requires t in s.pc && s.pc[t].PopCas? && (s.head == Null || s.head.obj in s.next) && n >= 5
    ensures Finished(Alone(s, t, n), t)
  {
    var s' := AdvanceThread(s, t).value;
    AloneOn(s, t, n, s');
    if s.head == At(s.pc[t].top) { InitAlone(s', t, n - 1); } else { PopAlone(s', t, n - 1); }
  }

  lemma PushSwapAlone(s: State, t: Tid, n: nat, c: seq<Obj>)
    requires t in s.pc && s.pc[t].PushCas? && s.pc[t].chain == c && c != [] && n >= 4
    ensures Finished(Alone(s, t, n), t)
  {
    if s.pc[t].seen == s.head {
      SwapAlone(s, t, n, c);
    } else {
      var s' := AdvanceThread(s, t).value;
      AloneOn(s, t, n, s');
      PushAlone(s', t, n - 1, c);
    }
  }

  /**
   From any state that a run without stale pops reaches, a thread that runs alone
   finishes its call within six steps: no swap loses for ever.
   */
  lemma AloneFinishes(s: State, stack: seq<Obj>, t: Tid)
    requires Inv(s, stack) && t in s.pc && s.pc[t] != PopNew
    ensures Finished(Alone(s, t, 6), t)
  {
    assert ThreadOk(s, t, s.pc[t]);
    assert s.head == Null || s.head.obj in s.next;
    match s.pc[t]
    case Idle => AloneFinished(s, t, 6);
    case PushRead(c) => PushAlone(s, t, 6, c);
    case PushLink(c, o) =>
      var s' := AdvanceThread(s, t).value;
      AloneOn(s, t, 6, s');
      PushSwapAlone(s', t, 5, c);
    case PushCas(c, o) => PushSwapAlone(s, t, 6, c);
    case PopRead => PopAlone(s, t, 6);
    case PopNext(o) =>
      var s' := AdvanceThread(s, t).value;
      AloneOn(s, t, 6, s');
      PopSwapAlone(s', t, 5);
    case PopCas(o, n) => PopSwapAlone(s, t, 6);
    case PopInit(o) => InitAlone(s, t, 6);
  }

  // ---------- one popper at a time ----------

  /** What a popping thread has read is still true. */
  predicate PopperOk(s: State, stack: seq<Obj>, pc: Pc) {
    match pc
    case PopNext(o) => o in stack
    case PopCas(o, n) => o in stack && o in s.next && s.next[o] == n
    case _ => true
  }

  predicate PoppersOk(s: State, stack: seq<Obj>) {
    forall t :: t in s.pc ==> PopperOk(s, stack, s.pc[t])
  }

  lemma StepKeepsPoppers(s: State, stack: seq<Obj>, step: Step)
    requires Inv(s, stack) && PoppersOk(s, stack) && SinglePopper(s) && Apply(s, step).Some?
    ensures FreshSwap(s, step) && PoppersOk(Apply(s, step).value, StackAfter(stack, s, step))
  {
    var s', stack' := Apply(s, step).value, StackAfter(stack, s, step);
    assert PopperOk(s, stack, s.pc[step.t]);
    assert ThreadOk(s, step.t, s.pc[step.t]);
    forall u | u in s'.pc ensures PopperOk(s', stack', s'.pc[u]) {
      assert PopperOk(s, stack, s.pc[u]);
      if u != step.t && Popping(s.pc[u]) { KeepsPopper(s, stack, step, s.pc[u]); }
    }
  }

  /** What another thread does to a popper: only a pop of its own could harm it. */
  lemma KeepsPopper(s: State, stack: seq<Obj>, step: Step, pc: Pc)
    requires Inv(s, stack) && PopperOk(s, stack, pc) && Popping(pc) && Apply(s, step).Some?
    requires !Popping(s.pc[step.t])
    ensures PopperOk(Apply(s, step).value, StackAfter(stack, s, step), pc)
  {
    var o := pc.top;
    assert ThreadOk(s, step.t, s.pc[step.t]);
    assert o in s.owner && s.owner[o] == Pool;
    if step.Advance? && s.pc[step.t].PushCas? { assert o in s.pc[step.t].chain + stack; }
  }

  lemma {:induction false} RunKeepsInv(s: State, stack: seq<Obj>, steps: seq<Step>)
    requires Inv(s, stack) && PoppersOk(s, stack) && SinglePopperRun(s, steps) && Run(s, steps).Some?
    ensures FreshRun(s, steps)
    ensures Inv(Run(s, steps).value, StackOfRun(stack, s, steps))
    ensures PoppersOk(Run(s, steps).value, StackOfRun(stack, s, steps)) && SinglePopper(Run(s, steps).value)
    decreases |steps|
  {
    if steps != [] {
      StepKeepsPoppers(s, stack, steps[0]);
      StepKeepsInv(s, stack, steps[0]);
      RunKeepsInv(Apply(s, steps[0]).value, StackAfter(stack, s, steps[0]), steps[1..]);
    }
  }

  /**
   Over every single-popper run of any number of threads, the free list in
   memory is the stack that the winning swaps build one atomic push or pop at a
   time, and every object ever created is either on it or held by one thread.
   */
  lemma PoolIsLinearizableStack(threads: set<Tid>, steps: seq<Step>)
    requires SinglePopperRun(Start(threads), steps) && Run(Start(threads), steps).Some?
    ensures var s := Run(Start(threads), steps).value;
            var stack := StackOfRun([], Start(threads), steps);
            Linked(s, stack) && Conserved(s, stack)
    ensures LinkedThroughout(Start(threads), [], steps)
  {
    RunKeepsInv(Start(threads), [], steps);
    ListIsStackExactly(Start(threads), [], steps);
  }

  /** After every single-popper run, a winning pop hands out the top of the stack, which nobody holds. */
  lemma PopHandsOutFreeObject(threads: set<Tid>, steps: seq<Step>, t: Tid)
    requires SinglePopperRun(Start(threads), steps) && Run(Start(threads), steps).Some?
    requires var s := Run(Start(threads), steps).value;
             CasWins(s, Advance(t)) && s.pc[t].PopCas?
    ensures var s := Run(Start(threads), steps).value;
            var stack := StackOfRun([], Start(threads), steps);
            && stack != [] && s.pc[t].top == stack[0]
            && s.pc[t].top in s.owner && s.owner[s.pc[t].top] == Pool
  {
    RunKeepsInv(Start(threads), [], steps);
    var s, stack := Run(Start(threads), steps).value, StackOfRun([], Start(threads), steps);
    assert PopperOk(s, stack, s.pc[t]);
    PopWins(s, stack, t);
  }

  // ---------- why the condition is needed ----------

  ghost predicate Reaches(s: State, s': State) {
    exists steps :: Run(s, steps) == Some(s')
  }

  lemma {:induction false} RunAppend(s: State, a: seq<Step>, b: seq<Step>)
    requires Run(s, a).Some?
    ensures Run(s, a + b) == Run(Run(s, a).value, b)
    decreases |a|
  {
    if a == [] {
      assert a + b == b;
    } else {
      assert (a + b)[1..] == a[1..] + b;
      RunAppend(Apply(s, a[0]).value, a[1..], b);
    }
  }

  lemma ReachesOnward(s: State, s': State, s'': State)
    requires Reaches(s, s') && Reaches(s', s'')
    ensures Reaches(s, s'')
  {
    var a :| Run(s, a) == Some(s');
    var b :| Run(s', b) == Some(s'');
    RunAppend(s, a, b);
  }

  /** Three steps that leave s1, s2 and s3 behind. */
  lemma Steps(s: State, a: Step, s1: State, b: Step, s2: State, c: Step, s3: State)
    requires Apply(s, a) == Some(s1) && Apply(s1, b) == Some(s2) && Apply(s2, c) == Some(s3)
    ensures Reaches(s, s3)
  {
    assert Run(s3, []) == Some(s3);
    assert [c][1..] == [] && [b, c][1..] == [c] && [a, b, c][1..] == [b, c];
    assert Run(s2, [c]) == Some(s3);
    assert Run(s1, [b, c]) == Some(s3);
    assert Run(s, [a, b, c]) == Some(s3);
  }

  lemma OneStep(s: State, a: Step, s1: State)
    requires Apply(s, a) == Some(s1)
    ensures Reaches(s, s1)
  {
    assert [a][1..] == [];
    assert Run(s1, []) == Some(s1);
    assert Run(s, [a]) == Some(s1);
  }

  lemma Overwrite(m: map<Tid, Pc>, t: Tid)
    requires t in m
    ensures forall a: Pc, b: Pc {:trigger m[t := a][t := b]} :: m[t := a][t := b] == m[t := b]
    ensures m[t := m[t]] == m
  {}

  /** An undisturbed Delete is one push. */
  lemma ReturnRun(s: State, t: Tid, o: Obj, s': State)
    requires t in s.pc && s.pc[t] == Idle && o in s.next && o in s.owner && s.owner[o] == Held(t)
    requires s' == s.(head := At(o), next := s.next[o := s.head], owner := s.owner[o := Pool])
    ensures Reaches(s, s')
  {
    var s1 := s.(pc := s.pc[t := PushRead([o])]);
    var s2 := s.(pc := s.pc[t := PushLink([o], s.head)]);
    var s3 := s.(next := s.next[o := s.head], pc := s.pc[t := PushCas([o], s.head)]);
    assert HeldChain(s, t, [o]);
    assert GiveBack(s3.owner, [o]) == s.owner[o := Pool];
    Overwrite(s.pc, t);
    Steps(s, BeginPush(t, [o]), s1, Advance(t), s2, Advance(t), s3);
    OneStep(s3, Advance(t), s');
    ReachesOnward(s, s3, s');
  }

  /** An undisturbed New on an empty list creates an object. */
  lemma CreateRun(s: State, t: Tid, o: Obj, s': State)
    requires t in s.pc && s.pc[t] == Idle && o !in s.next && o !in s.owner && s.head == Null
    requires s' == s.(next := s.next[o := Null], owner := s.owner[o := Held(t)])
    ensures Reaches(s, s')
  {
    var s1 := s.(pc := s.pc[t := PopRead]);
    var s2 := s.(pc := s.pc[t := PopNew]);
    var s3 := s'.(pc := s.pc[t := PopInit(o)]);
    Overwrite(s.pc, t);
    assert s3.next[o := Null] == s'.next;
    Steps(s, BeginPop(t), s1, Advance(t), s2, Create(t, o), s3);
    OneStep(s3, Advance(t), s');
    ReachesOnward(s, s3, s');
  }

  /** A thread that has never called New gives back what another one got from it. */
  lemma OtherThreadFrees(t: Tid, u: Tid, o: Obj) returns (s: State)
    requires t != u
    ensures Reaches(Start({t, u}), s) && s.head == At(o) && o in s.owner && s.owner[o] == Pool
  {
    var s0 := Start({t, u});
    var s1 := s0.(next := s0.next[o := Null], owner := s0.owner[o := Held(t)]);
    CreateRun(s0, t, o, s1);
    var s2 := s1.(owner := s1.owner[o := Held(u)]);
    OneStep(s1, Give(t, o, u), s2);
    s := s2.(head := At(o), next := s2.next[o := Null], owner := s2.owner[o := Pool]);
    ReturnRun(s2, u, o, s);
    ReachesOnward(s0, s1, s2);
    ReachesOnward(s0, s2, s);
  }

  /** New up to its compare-and-swap. */
  lemma StartTakeRun(s: State, t: Tid, o: Obj, s': State)
    requires t in s.pc && s.pc[t] == Idle && o in s.next && s.head == At(o)
    requires s' == s.(pc := s.pc[t := PopCas(o, s.next[o])])
    ensures Reaches(s, s')
  {
    var s1 := s.(pc := s.pc[t := PopRead]);
    var s2 := s.(pc := s.pc[t := PopNext(o)]);
    Overwrite(s.pc, t);
    Steps(s, BeginPop(t), s1, Advance(t), s2, Advance(t), s');
  }

  /** The winning swap of New and the initialisation after it. */
  lemma EndTakeRun(s: State, t: Tid, o: Obj, n: Ptr, s': State)
    requires t in s.pc && s.pc[t] == PopCas(o, n) && s.head == At(o)
    requires s' == s.(head := n, next := s.next[o := Null], owner := s.owner[o := Held(t)], pc := s.pc[t := Idle])
    ensures Reaches(s, s')
  {
    var s1 := s.(head := n, owner := s.owner[o := Held(t)], pc := s.pc[t := PopInit(o)]);
    Overwrite(s.pc, t);
    OneStep(s, Advance(t), s1);
    OneStep(s1, Advance(t), s');
    ReachesOnward(s, s1, s');
  }

  /** An undisturbed New on a non-empty list is one pop. */
  lemma TakeRun(s: State, t: Tid, o: Obj, s': State)
    requires t in s.pc && s.pc[t] == Idle && o in s.next && s.head == At(o)
    requires s' == s.(head := s.next[o], next := s.next[o := Null], owner := s.owner[o := Held(t)])
    ensures Reaches(s, s')
  {
    var s1 := s.(pc := s.pc[t := PopCas(o, s.next[o])]);
    Overwrite(s.pc, t);
    StartTakeRun(s, t, o, s1);
    EndTakeRun(s1, t, o, s.next[o], s');
    ReachesOnward(s, s1, s');
  }

  /** What two threads and two objects look like in a state. */
  predicate TwoObjects(s: State, u: Tid, t: Tid, a: Obj, b: Obj,
                       head: Ptr, na: Ptr, nb: Ptr, oa: Owner, ob: Owner, pc: Pc)
  {
    && s.head == head
    && a in s.next && b in s.next && s.next[a] == na && s.next[b] == nb
    && a in s.owner && b in s.owner && s.owner[a] == oa && s.owner[b] == ob
    && u in s.pc && t in s.pc && s.pc[u] == pc && s.pc[t] == Idle
  }

  /** Thread t stocks the pool with a and b, a on top. */
  lemma StockRun(u: Tid, t: Tid, a: Obj, b: Obj) returns (s4: State)
    requires u != t && a != b
    ensures Reaches(Start({u, t}), s4) && TwoObjects(s4, u, t, a, b, At(a), At(b), Null, Pool, Pool, Idle)
  {
    var s0 := Start({u, t});
    var s1 := s0.(next := s0.next[a := Null], owner := s0.owner[a := Held(t)]);
    CreateRun(s0, t, a, s1);
    var s2 := s1.(next := s1.next[b := Null], owner := s1.owner[b := Held(t)]);
    CreateRun(s1, t, b, s2);
    assert TwoObjects(s2, u, t, a, b, Null, Null, Null, Held(t), Held(t), Idle);
    ReachesOnward(s0, s1, s2);
    s4 := PutBackBoth(s2, u, t, a, b);
    ReachesOnward(s0, s2, s4);
  }

  lemma PutBackBoth(s2: State, u: Tid, t: Tid, a: Obj, b: Obj) returns (s4: State)
    requires u != t && a != b && TwoObjects(s2, u, t, a, b, Null, Null, Null, Held(t), Held(t), Idle)
    ensures Reaches(s2, s4) && TwoObjects(s4, u, t, a, b, At(a), At(b), Null, Pool, Pool, Idle)
  {
    var s3 := s2.(head := At(b), next := s2.next[b := Null], owner := s2.owner[b := Pool]);
    ReturnRun(s2, t, b, s3);
    assert TwoObjects(s3, u, t, a, b, At(b), Null, Null, Held(t), Pool, Idle);
    s4 := s3.(head := At(a), next := s3.next[a := At(b)], owner := s3.owner[a := Pool]);
    ReturnRun(s3, t, a, s4);
    ReachesOnward(s2, s3, s4);
  }

  /** Thread u reads a and its next, b; thread t takes a. */
  lemma RaceStart(s0: State, u: Tid, t: Tid, a: Obj, b: Obj) returns (s2: State)
    requires u != t && a != b && TwoObjects(s0, u, t, a, b, At(a), At(b), Null, Pool, Pool, Idle)
    ensures Reaches(s0, s2) && TwoObjects(s2, u, t, a, b, At(b), Null, Null, Held(t), Pool, PopCas(a, At(b)))
  {
    var s1 := s0.(pc := s0.pc[u := PopCas(a, At(b))]);
    StartTakeRun(s0, u, a, s1);
    assert TwoObjects(s1, u, t, a, b, At(a), At(b), Null, Pool, Pool, PopCas(a, At(b)));
    s2 := s1.(head := At(b), next := s1.next[a := Null], owner := s1.owner[a := Held(t)]);
    TakeRun(s1, t, a, s2);
    ReachesOnward(s0, s1, s2);
  }

  /** Thread t takes b too, and puts a back. */
  lemma RaceEnd(s2: State, u: Tid, t: Tid, a: Obj, b: Obj, pc: Pc) returns (s4: State)
    requires u != t && a != b && TwoObjects(s2, u, t, a, b, At(b), Null, Null, Held(t), Pool, pc)
    ensures Reaches(s2, s4) && TwoObjects(s4, u, t, a, b, At(a), Null, Null, Pool, Held(t), pc)
  {
    var s3 := s2.(head := Null, next := s2.next[b := Null], owner := s2.owner[b := Held(t)]);
    TakeRun(s2, t, b, s3);
    assert TwoObjects(s3, u, t, a, b, Null, Null, Null, Held(t), Held(t), pc);
    s4 := s3.(head := At(a), next := s3.next[a := Null], owner := s3.owner[a := Pool]);
    ReturnRun(s3, t, a, s4);
    ReachesOnward(s2, s3, s4);
  }

  /** Thread u's stale swap wins, and its next New stops before its swap. */
  lemma LateSwap(s0: State, u: Tid, t: Tid, a: Obj, b: Obj) returns (s: State)
    requires u != t && a != b && TwoObjects(s0, u, t, a, b, At(a), Null, Null, Pool, Held(t), PopCas(a, At(b)))
    ensures Reaches(s0, s) && TwoObjects(s, u, t, a, b, At(b), Null, Null, Held(u), Held(t), PopCas(b, Null))
  {
    var s1 := s0.(head := At(b), next := s0.next[a := Null], owner := s0.owner[a := Held(u)], pc := s0.pc[u := Idle]);
    EndTakeRun(s0, u, a, At(b), s1);
    assert TwoObjects(s1, u, t, a, b, At(b), Null, Null, Held(u), Held(t), Idle);
    s := s1.(pc := s1.pc[u := PopCas(b, Null)]);
    StartTakeRun(s1, u, b, s);
    ReachesOnward(s0, s1, s);
  }

  /**
   Without the condition the pool breaks: any two threads and objects have a run
   after which thread u's swap is about to win and hand out an object that
   thread t still holds.  The `next` that u swapped in just before was read
   before t popped twice and pushed the first object back.
   */
  lemma TwoPoppersHandOutTwice(u: Tid, t: Tid, a: Obj, b: Obj) returns (s: State)
    requires u != t && a != b
    ensures Reaches(Start({u, t}), s)
    ensures CasWins(s, Advance(u)) && s.pc[u] == PopCas(b, Null)
    ensures b in s.owner && s.owner[b] == Held(t)
  {
    var s0 := Start({u, t});
    var s1 := StockRun(u, t, a, b);
    var s2 := RaceStart(s1, u, t, a, b);
    var s3 := RaceEnd(s2, u, t, a, b, PopCas(a, At(b)));
    s := LateSwap(s3, u, t, a, b);
    ReachesOnward(s0, s1, s2);
    ReachesOnward(s0, s2, s3);
    ReachesOnward(s0, s3, s);
  }
}
