/**
 The receiver of a split message: which parts it holds after any run of
 deliveries, and what it becomes when the last one arrives.
 */
module Reassembly {
  import opened Bytes
  import opened Wire
  import opened Packet

  /** The contents of one message, cut into parts. */
  predicate Message(slices: seq<seq<Byte>>) {
    && 2 <= |slices| <= 255
    && (forall i :: 0 <= i < |slices| ==> |slices[i]| > 0)
    && |Concat(slices)| < TWO_31
  }

  function Concat(slices: seq<seq<Byte>>): seq<Byte> {
    if slices == [] then [] else slices[0] + Concat(slices[1..])
  }

  function PartField(slices: seq<seq<Byte>>, i: nat): Field
    requires i < |slices| <= 255
  {
    Field(PART + i, Str(slices[i]))
  }

  /** The packet that carries part i: a header of its own and the part, nothing else. */
  predicate IsPart(q: Proto, slices: seq<seq<Byte>>, i: nat)
    requires i < |slices| <= 255
  {
    && q.tree.Some? && |q.tree.value| == 2
    && q.tree.value[0].tag == HDR && q.tree.value[1] == PartField(slices, i)
    && q.total == |slices| && q.curr == i && q.retcode == 0 && !q.body
  }

  predicate AreParts(qs: seq<Proto>, slices: seq<seq<Byte>>) {
    && |qs| == |slices| <= 255
    && forall i :: 0 <= i < |qs| ==> IsPart(qs[i], slices, i)
  }

  /** Fields of the parts ds, in that order. */
  function PartList(slices: seq<seq<Byte>>, ds: seq<nat>): seq<Field>
    requires |slices| <= 255 && forall k :: 0 <= k < |ds| ==> ds[k] < |slices|
  {
    if ds == [] then [] else [PartField(slices, ds[0])] + PartList(slices, ds[1..])
  }

  /** The indices in the order of their first arrival. */
  function Arrived(ds: seq<nat>): (u: seq<nat>)
    ensures forall d :: d in u <==> d in ds
  {
    if ds == [] then []
    else
      var u := Arrived(ds[..|ds| - 1]);
      assert ds == ds[..|ds| - 1] + [ds[|ds| - 1]];
      if ds[|ds| - 1] in u then u else u + [ds[|ds| - 1]]
  }

  /** The receiver holds exactly the parts ds, each with its bytes, behind the first header. */
  predicate Holds(r: Proto, h: Field, slices: seq<seq<Byte>>, ds: seq<nat>)
    requires |slices| <= 255 && forall k :: 0 <= k < |ds| ==> ds[k] < |slices|
  {
    && h.tag == HDR && r.tree == Some([h] + PartList(slices, ds))
    && r.total == |slices| && r.retcode == 0 && !r.body
  }

  predicate Indices(ds: seq<nat>, n: nat) {
    forall k :: 0 <= k < |ds| ==> ds[k] < n
  }

  /** The receiver after the deliveries ds, starting from r; mem says at which of them there is memory to merge. */
  function Receive(r: Proto, qs: seq<Proto>, ds: seq<nat>, mem: seq<bool>): Proto
    requires Indices(ds, |qs|) && |mem| == |ds|
  {
    if ds == [] then r
    else
      var k := |ds| - 1;
      AddPartial(Receive(r, qs, ds[..k], mem[..k]), qs[ds[k]], mem[k]).proto
  }

  // ---------- looking parts up ----------

  lemma {:induction false} FindInList(slices: seq<seq<Byte>>, ds: seq<nat>, i: nat)
    requires |slices| <= 255 && Indices(ds, |slices|) && i < |slices|
    ensures Find(PartList(slices, ds), PART + i) == if i in ds then Some(PartField(slices, i)) else None
  {
    if ds != [] {
      var rest := ds[1..];
      FindInList(slices, rest, i);
      FindCons(PartField(slices, ds[0]), PartList(slices, rest), PART + i);
      InCons(ds, i);
    }
  }

  lemma FindCons(f: Field, fs: seq<Field>, tag: U32)
    ensures Find([f] + fs, tag) == if f.tag == tag then Some(f) else Find(fs, tag)
  {
    assert ([f] + fs)[1..] == fs;
  }

  lemma InCons(ds: seq<nat>, i: nat)
    requires ds != []
    ensures i in ds <==> i == ds[0] || i in ds[1..]
  {
    assert ds == [ds[0]] + ds[1..];
  }

  lemma FindHeld(r: Proto, h: Field, slices: seq<seq<Byte>>, ds: seq<nat>, i: nat)
    requires |slices| <= 255 && Indices(ds, |slices|) && Holds(r, h, slices, ds) && i < |slices|
    ensures Find(r.tree.value, PART + i) == if i in ds then Some(PartField(slices, i)) else None
  {
    FindInList(slices, ds, i);
    FindCons(h, PartList(slices, ds), PART + i);
  }

  lemma {:induction false} ListSnoc(slices: seq<seq<Byte>>, ds: seq<nat>, d: nat)
    requires |slices| <= 255 && Indices(ds, |slices|) && d < |slices|
    ensures PartList(slices, ds + [d]) == PartList(slices, ds) + [PartField(slices, d)]
  {
    if ds == [] {
      assert [d][1..] == [];
    } else {
      assert (ds + [d])[1..] == ds[1..] + [d];
      ListSnoc(slices, ds[1..], d);
    }
  }

  // ---------- one delivery ----------

  /** A part's own packet, looked up. */
  lemma PartLookup(q: Proto, slices: seq<seq<Byte>>, i: nat)
    requires i < |slices| <= 255 && IsPart(q, slices, i)
    ensures Find(q.tree.value, PART + i) == Some(PartField(slices, i)) && Find(q.tree.value, BDY) == None
  {
    var t := q.tree.value;
    assert t[1..][0] == t[1] && t[1..][1..] == [];
  }

  /** A receiver that has nothing of a message of n parts: empty, complete, or with another count. */
  predicate Unrelated(r: Proto, n: nat) {
    r.tree.None? || IsComplete(r) || r.total != n
  }

  /** A complete packet is taken by every receiver, whatever it holds. */
  lemma CompletePacketTaken(r: Proto, q: Proto, allocOk: bool)
    requires q.tree.Some? && IsComplete(q)
    ensures var o := AddPartial(r, q, allocOk);
            && o.code == 0 && o.proto.tree == q.tree
            && o.proto == q.(body := Find(q.tree.value, BDY).Some?)
  {}

  /** The first part of a message is taken by every unrelated receiver. */
  lemma FirstDelivery(r: Proto, q: Proto, slices: seq<seq<Byte>>, i: nat)
    requires Message(slices) && i < |slices| && IsPart(q, slices, i) && Unrelated(r, |slices|)
    ensures forall mem :: AddPartial(r, q, mem) == Outcome(q, 0)
    ensures Holds(q, q.tree.value[0], slices, [i]) && !IsComplete(q)
  {
    PartLookup(q, slices, i);
    assert PartList(slices, [i]) == [PartField(slices, i)] by { assert [i][1..] == []; }
    assert q.tree.value == [q.tree.value[0]] + [PartField(slices, i)];
  }

  /**
   When AddPartial refuses a packet for what it is: an invalid one with -1; else,
   when both sides are incomplete with one count and the index is below it, one
   without the part it announces with -2, one whose part is no string with -3, and
   one whose part is there already with -4.  The receiver then stays as it was.
   */
  lemma RefusedExactly(r: Proto, q: Proto, allocOk: bool)
    ensures q.tree.None? ==> AddPartial(r, q, allocOk) == Outcome(r, -1)
    ensures q.tree.Some? && (Unrelated(r, q.total) || IsComplete(q) || q.curr >= q.total) ==>
              AddPartial(r, q, allocOk) == Outcome(Assign(q), 0)
    ensures q.tree.Some? && !Unrelated(r, q.total) && !IsComplete(q) && q.curr < q.total ==>
              var p := Find(q.tree.value, PART + q.curr);
              && (p.None? ==> AddPartial(r, q, allocOk) == Outcome(r, -2))
              && (p.Some? && !p.value.val.Str? ==> AddPartial(r, q, allocOk) == Outcome(r, -3))
              && (p.Some? && p.value.val.Str? && Find(r.tree.value, PART + q.curr).Some? ==>
                    AddPartial(r, q, allocOk) == Outcome(r, -4))
  {}

  /** A part that is already there is refused with -4 and changes nothing. */
  lemma RepeatRefused(r: Proto, h: Field, slices: seq<seq<Byte>>, ds: seq<nat>, q: Proto, i: nat, allocOk: bool)
    requires Message(slices) && Indices(ds, |slices|) && Holds(r, h, slices, ds)
    requires i in ds && i < |slices| && IsPart(q, slices, i)
    ensures AddPartial(r, q, allocOk) == Outcome(r, -4)
  {
    PartLookup(q, slices, i);
    FindHeld(r, h, slices, ds, i);
  }

  lemma {:induction false} ScanMissing(tree: seq<Field>, slices: seq<seq<Byte>>, i: nat, acc: int, k: nat)
    requires Message(slices) && i <= k < |slices|
    requires forall j :: i <= j < |slices| ==> Find(tree, PART + j) in {None, Some(PartField(slices, j))}
    requires Find(tree, PART + k) == None
    ensures ScanParts(tree, i, |slices|, acc) == Missing
    decreases k - i
  {
    if Find(tree, PART + i).Some? {
      assert Find(tree, PART + i) == Some(PartField(slices, i));
      ScanMissing(tree, slices, i + 1, ToInt32(acc + |slices[i]|), k);
    }
  }

  /** A new part is put into the tree, and then AddPartial tries to merge. */
  lemma NewPartInserted(r: Proto, h: Field, slices: seq<seq<Byte>>, ds: seq<nat>, q: Proto, i: nat, allocOk: bool)
    requires Message(slices) && Indices(ds, |slices|) && Holds(r, h, slices, ds)
    requires i !in ds && i < |slices| && IsPart(q, slices, i)
    ensures var r1 := r.(tree := Some(r.tree.value + [PartField(slices, i)]));
            AddPartial(r, q, allocOk) == Merge(r1, allocOk) && Holds(r1, h, slices, ds + [i])
  {
    PartLookup(q, slices, i);
    FindHeld(r, h, slices, ds, i);
    HoldsOneMore(r, h, slices, ds, i);
    AddPartialInserts(r, q, PartField(slices, i), allocOk);
  }

  lemma HoldsOneMore(r: Proto, h: Field, slices: seq<seq<Byte>>, ds: seq<nat>, i: nat)
    requires |slices| <= 255 && Indices(ds, |slices|) && Holds(r, h, slices, ds) && i < |slices|
    ensures Holds(r.(tree := Some(r.tree.value + [PartField(slices, i)])), h, slices, ds + [i])
  {
    ListSnoc(slices, ds, i);
    assert r.tree.value + [PartField(slices, i)] == [h] + PartList(slices, ds + [i]);
  }

  /** AddPartial of an incomplete part that the incomplete receiver does not have. */
  lemma AddPartialInserts(r: Proto, q: Proto, f: Field, allocOk: bool)
    requires r.tree.Some? && q.tree.Some? && !IsComplete(r) && !IsComplete(q) && q.curr < q.total == r.total
    requires Find(q.tree.value, PART + q.curr) == Some(f) && f.val.Str? && Find(r.tree.value, PART + q.curr) == None
    ensures AddPartial(r, q, allocOk) == Merge(r.(tree := Some(r.tree.value + [f])), allocOk)
  {}

  lemma MergeWaits(r: Proto, h: Field, slices: seq<seq<Byte>>, ds: seq<nat>, k: nat, allocOk: bool)
    requires Message(slices) && Indices(ds, |slices|) && Holds(r, h, slices, ds)
    requires k < |slices| && k !in ds
    ensures Merge(r, allocOk) == Outcome(r, 0)
  {
    forall j | 0 <= j < |slices| ensures Find(r.tree.value, PART + j) in {None, Some(PartField(slices, j))} {
      FindHeld(r, h, slices, ds, j);
    }
    FindHeld(r, h, slices, ds, k);
    ScanMissing(r.tree.value, slices, 0, 0, k);
  }

  /** A new part that is not the last missing one is added and the receiver stays incomplete. */
  lemma NewPart(r: Proto, h: Field, slices: seq<seq<Byte>>, ds: seq<nat>, q: Proto, i: nat, k: nat, allocOk: bool)
    requires Message(slices) && Indices(ds, |slices|) && Holds(r, h, slices, ds)
    requires i !in ds && i < |slices| && IsPart(q, slices, i)
    requires k < |slices| && k !in ds && k != i
    ensures var o := AddPartial(r, q, allocOk);
            o.code == 0 && Holds(o.proto, h, slices, ds + [i])
  {
    NewPartInserted(r, h, slices, ds, q, i, allocOk);
    var r1 := r.(tree := Some(r.tree.value + [PartField(slices, i)]));
    MergeWaits(r1, h, slices, ds + [i], k, allocOk);
  }

  /** A delivery while part k is missing, of a part that is new or not. */
  lemma AnyPart(r: Proto, h: Field, slices: seq<seq<Byte>>, u: seq<nat>, q: Proto, i: nat, k: nat, allocOk: bool)
    requires Message(slices) && Indices(u, |slices|) && Holds(r, h, slices, u) && k < |slices| && k !in u && k != i
    requires i < |slices| && IsPart(q, slices, i)
    ensures Indices(u + [i], |slices|)
    ensures var r' := AddPartial(r, q, allocOk).proto;
            Holds(r', h, slices, if i in u then u else u + [i]) && !IsComplete(r')
  {
    if i in u {
      RepeatRefused(r, h, slices, u, q, i, allocOk);
    } else {
      NewPart(r, h, slices, u, q, i, k, allocOk);
    }
  }

  // ---------- every run before completion ----------

  /**
   Over every run of deliveries, with repeats, in which some part k has not
   arrived: the receiver holds exactly the distinct parts received, each once and
   with its original bytes, and is not complete.  Memory does not matter yet.
   */
  lemma {:induction false} RunHoldsArrived(qs: seq<Proto>, slices: seq<seq<Byte>>, ds: seq<nat>, mem: seq<bool>, k: nat)
      returns (h: Field)
    requires Message(slices) && AreParts(qs, slices)
    requires ds != [] && |mem| == |ds| && Indices(ds, |slices|) && k < |slices| && k !in ds
    ensures Indices(Arrived(ds), |slices|)
    ensures var r := Receive(Invalid(), qs, ds, mem);
            Holds(r, h, slices, Arrived(ds)) && !IsComplete(r)
  {
    var n := |ds| - 1;
    var last, front := ds[n], ds[..n];
    assert ds == front + [last];
    if front == [] {
      FirstDelivery(Invalid(), qs[last], slices, last);
      h := qs[last].tree.value[0];
      assert Arrived(ds) == [last];
    } else {
      h := RunHoldsArrived(qs, slices, front, mem[..n], k);
      AnyPart(Receive(Invalid(), qs, front, mem[..n]), h, slices, Arrived(front), qs[last], last, k, mem[n]);
    }
  }

  // ---------- completion ----------

  /** From part i on, every part is in the tree with its bytes. */
  ghost predicate Has(tree: seq<Field>, slices: seq<seq<Byte>>, i: nat)
    requires |slices| <= 255
  {
    forall j :: i <= j < |slices| ==> Find(tree, PART + j) == Some(PartField(slices, j))
  }

  lemma {:induction false} ScanAll(tree: seq<Field>, slices: seq<seq<Byte>>, i: nat, acc: nat)
    requires |slices| <= 255 && i <= |slices| && Has(tree, slices, i)
    requires forall j :: 0 <= j < |slices| ==> |slices[j]| > 0
    requires acc + |Concat(slices[i..])| < TWO_31
    ensures ScanParts(tree, i, |slices|, acc) == Sum(acc + |Concat(slices[i..])|)
    decreases |slices| - i
  {
    if i < |slices| {
      assert Find(tree, PART + i) == Some(PartField(slices, i));
      assert slices[i..][1..] == slices[i + 1..];
      var acc' := acc + |slices[i]|;
      assert ToInt32(acc') == acc' by { assert (acc' + TWO_31) % TWO_32 == acc' + TWO_31; }
      ScanAll(tree, slices, i + 1, acc');
    }
  }

  lemma {:induction false} FindAfterRemove(tree: seq<Field>, t: U32, u: U32)
    requires t != u
    ensures Find(RemoveFirst(tree, t), u) == Find(tree, u)
  {
    if tree != [] && tree[0].tag != t {
      assert RemoveFirst(tree, t)[1..] == RemoveFirst(tree[1..], t);
      FindAfterRemove(tree[1..], t, u);
    }
  }

  lemma {:induction false} ConcatSnoc(s: seq<seq<Byte>>, x: seq<Byte>)
    ensures Concat(s + [x]) == Concat(s) + x
  {
    if s == [] {
      assert [x][1..] == [] && s + [x] == [x];
    } else {
      assert (s + [x])[1..] == s[1..] + [x];
      ConcatSnoc(s[1..], x);
    }
  }

  lemma {:induction false} ConcatPrefix(slices: seq<seq<Byte>>, i: nat)
    requires i <= |slices|
    ensures |Concat(slices[..i])| <= |Concat(slices)|
    decreases |slices| - i
  {
    if i < |slices| {
      ConcatPrefix(slices, i + 1);
      assert slices[..i + 1] == slices[..i] + [slices[i]];
      ConcatSnoc(slices[..i], slices[i]);
    } else {
      assert slices[..i] == slices;
    }
  }

  /** One turn with every part from i on in the tree: the bytes grow by that part. */
  lemma GatherOne(tree: seq<Field>, slices: seq<seq<Byte>>, i: nat, bytes: seq<Byte>, total: nat)
    requires i < |slices| <= 255 && Has(tree, slices, i) && |bytes| + |slices[i]| <= total < TWO_31
    ensures var g := GatherTurn(tree, i, bytes, total);
            g.ok && g.bytes == bytes + slices[i] && Has(g.tree, slices, i + 1)
  {
    assert Find(tree, PART + i) == Some(PartField(slices, i));
    NoWrap(|bytes|, |slices[i]|, total);
    forall j | i + 1 <= j < |slices| ensures Find(RemoveFirst(tree, PART + i), PART + j) == Some(PartField(slices, j)) {
      FindAfterRemove(tree, PART + i, PART + j);
    }
  }

  lemma {:induction false} GatherAll(tree: seq<Field>, slices: seq<seq<Byte>>, i: nat, total: nat)
    requires i <= |slices| <= 255 && Has(tree, slices, 0) && |Concat(slices)| == total < TWO_31
    ensures var g := GatherParts(tree, i, total);
            g.ok && g.bytes == Concat(slices[..i]) && Has(g.tree, slices, i)
  {
    if i > 0 {
      GatherAll(tree, slices, i - 1, total);
      var g := GatherParts(tree, i - 1, total);
      assert slices[..i] == slices[..i - 1] + [slices[i - 1]];
      ConcatSnoc(slices[..i - 1], slices[i - 1]);
      ConcatPrefix(slices, i);
      GatherOne(g.tree, slices, i - 1, g.bytes, total);
    }
  }

  lemma {:induction false} ConcatLonger(slices: seq<seq<Byte>>)
    requires slices != [] && |slices[0]| > 0
    ensures |Concat(slices)| > 0
  {}

  /** Both loops, with every part in the tree. */
  lemma ScanAndGather(tree: seq<Field>, slices: seq<seq<Byte>>)
    requires 0 < |slices| <= 255 && (forall j :: 0 <= j < |slices| ==> |slices[j]| > 0)
    requires |Concat(slices)| < TWO_31 && Has(tree, slices, 0)
    ensures var all := Concat(slices);
            var g := GatherParts(tree, |slices|, |all|);
            |all| > 0 && ScanParts(tree, 0, |slices|, 0) == Sum(|all|) && g.ok && g.bytes == all
  {
    assert slices[0..] == slices;
    ConcatLonger(slices);
    ScanAll(tree, slices, 0, 0);
    GatherAll(tree, slices, |slices|, |Concat(slices)|);
    assert slices[..|slices|] == slices;
  }

  /** With every part in the tree, the merge hands exactly the concatenated bytes to assign, if it has memory. */
  lemma MergeCompletes(r: Proto, slices: seq<seq<Byte>>)
    requires Message(slices) && r.tree.Some? && r.total == |slices| && Has(r.tree.value, slices, 0)
    requires DecodeField(Concat(slices)).FOk?
    ensures Merge(r, true) == Outcome(Decode(Concat(slices)), 0)
    ensures Merge(r, false) == Outcome(r, -9)
  {
    ScanAndGather(r.tree.value, slices);
    MergeOf(r, Concat(slices));
  }

  /** Merge, once the scan and the copying loop are known. */
  lemma MergeOf(r: Proto, all: seq<Byte>)
    requires r.tree.Some? && |all| > 0 && ScanParts(r.tree.value, 0, r.total, 0) == Sum(|all|)
    requires var g := GatherParts(r.tree.value, r.total, |all|); g.ok && g.bytes == all
    requires DecodeField(all).FOk?
    ensures Merge(r, true) == Outcome(Decode(all), 0) && Merge(r, false) == Outcome(r, -9)
  {}

  /** Every part but k is among the deliveries. */
  predicate OnlyMissing(ds: seq<nat>, k: nat, n: nat) {
    k < n && k !in ds && forall j :: 0 <= j < n && j != k ==> j in ds
  }

  /** All but one of the parts have arrived, and then that one is put into the tree. */
  lemma Filled(qs: seq<Proto>, slices: seq<seq<Byte>>, ds: seq<nat>, mem: seq<bool>, k: nat)
      returns (h: Field, r1: Proto)
    requires Message(slices) && AreParts(qs, slices)
    requires Indices(ds, |slices|) && |mem| == |ds| && OnlyMissing(ds, k, |slices|)
    ensures Indices(Arrived(ds) + [k], |slices|) && Holds(r1, h, slices, Arrived(ds) + [k])
    ensures r1.tree.Some? && Has(r1.tree.value, slices, 0)
    ensures forall ok :: AddPartial(Receive(Invalid(), qs, ds, mem), qs[k], ok) == Merge(r1, ok)
  {
    var other := if k == 0 then 1 else 0;
    assert other in ds;
    h := RunHoldsArrived(qs, slices, ds, mem, k);
    var r, u := Receive(Invalid(), qs, ds, mem), Arrived(ds);
    NewPartInserted(r, h, slices, u, qs[k], k, true);
    NewPartInserted(r, h, slices, u, qs[k], k, false);
    r1 := r.(tree := Some(r.tree.value + [PartField(slices, k)]));
    forall j | 0 <= j < |slices| ensures Find(r1.tree.value, PART + j) == Some(PartField(slices, j)) {
      FindHeld(r1, h, slices, u + [k], j);
    }
  }

  /**
   The delivery that brings the last missing part k, after any run ds of the
   others in any order and with any repeats.  With memory it completes the
   receiver, which becomes the protocol decoded from exactly the bytes that were
   cut up; without memory it returns -9 and leaves a receiver with every part.
   */
  lemma LastPart(qs: seq<Proto>, slices: seq<seq<Byte>>, ds: seq<nat>, mem: seq<bool>, k: nat)
      returns (h: Field, u: seq<nat>)
    requires Message(slices) && AreParts(qs, slices) && DecodeField(Concat(slices)).FOk?
    requires Indices(ds, |slices|) && |mem| == |ds| && OnlyMissing(ds, k, |slices|)
    ensures var r := Receive(Invalid(), qs, ds, mem);
            && AddPartial(r, qs[k], true) == Outcome(Decode(Concat(slices)), 0)
            && AddPartial(r, qs[k], false).code == -9
            && Full(AddPartial(r, qs[k], false).proto, h, slices, u)
  {
    var r1;
    h, r1 := Filled(qs, slices, ds, mem, k);
    MergeCompletes(r1, slices);
    u := Arrived(ds) + [k];
  }

  // ---------- when there was no memory for the last part ----------

  /** The receiver holds every part and is not merged. */
  predicate Full(r: Proto, h: Field, slices: seq<seq<Byte>>, u: seq<nat>) {
    && 2 <= |slices| <= 255 && Indices(u, |slices|) && (forall j :: 0 <= j < |slices| ==> j in u)
    && Holds(r, h, slices, u)
  }

  /** Such a receiver refuses every further part with -4: it never completes from this message. */
  lemma {:induction false} StuckForever(r: Proto, h: Field, slices: seq<seq<Byte>>, u: seq<nat>,
                                        qs: seq<Proto>, ds: seq<nat>, mem: seq<bool>)
    requires Message(slices) && AreParts(qs, slices) && Full(r, h, slices, u)
    requires Indices(ds, |slices|) && |mem| == |ds|
    ensures !IsComplete(r) && Receive(r, qs, ds, mem) == r
    ensures forall i, ok :: 0 <= i < |qs| ==> AddPartial(r, qs[i], ok) == Outcome(r, -4)
  {
    forall i, ok | 0 <= i < |qs| ensures AddPartial(r, qs[i], ok) == Outcome(r, -4) {
      RepeatRefused(r, h, slices, u, qs[i], i, ok);
    }
    if ds != [] {
      var n := |ds| - 1;
      StuckForever(r, h, slices, u, qs, ds[..n], mem[..n]);
    }
  }

  // ---------- after completion ----------

  /** After completion a late part is not recognised: it replaces the merged message. */
  lemma LatePartReplaces(r: Proto, slices: seq<seq<Byte>>, q: Proto, i: nat, allocOk: bool)
    requires Message(slices) && i < |slices| && IsPart(q, slices, i) && IsComplete(r)
    ensures AddPartial(r, q, allocOk) == Outcome(q, 0) && !IsComplete(q)
  {
    PartLookup(q, slices, i);
  }

  /**
   Whatever an unrelated receiver held, of a complete message or of one with another
   count, it forgets at the first part of the message: after any deliveries it is
   what a new receiver would be after those alone.
   */
  lemma {:induction false} RunStartsAfresh(r: Proto, slices: seq<seq<Byte>>,
                                           qs: seq<Proto>, ds: seq<nat>, mem: seq<bool>)
    requires Message(slices) && AreParts(qs, slices) && Unrelated(r, |slices|)
    requires ds != [] && Indices(ds, |slices|) && |mem| == |ds|
    ensures Receive(r, qs, ds, mem) == Receive(Invalid(), qs, ds, mem)
  {
    var n := |ds| - 1;
    if n == 0 {
      FirstDelivery(r, qs[ds[0]], slices, ds[0]);
      FirstDelivery(Invalid(), qs[ds[0]], slices, ds[0]);
      assert ds[..0] == [] && mem[..0] == [];
    } else {
      RunStartsAfresh(r, slices, qs, ds[..n], mem[..n]);
    }
  }

  // ---------- two messages of one count ----------

  /** The old message's parts that are held, and the new message's others. */
  function Mixed(held: seq<seq<Byte>>, more: seq<seq<Byte>>, u: seq<nat>): (s: seq<seq<Byte>>)
    requires |held| == |more|
    ensures |s| == |held|
  {
    seq(|held|, i requires 0 <= i < |held| => if i in u then held[i] else more[i])
  }

  lemma {:induction false} SamePartList(a: seq<seq<Byte>>, b: seq<seq<Byte>>, u: seq<nat>)
    requires |a| == |b| <= 255 && Indices(u, |a|) && forall i :: 0 <= i < |a| && i in u ==> a[i] == b[i]
    ensures PartList(a, u) == PartList(b, u)
  {
    if u != [] {
      assert u[0] in u;
      assert forall i :: i in u[1..] ==> i in u;
      SamePartList(a, b, u[1..]);
    }
  }

  /**
   Parts carry no sign of their message: a receiver that holds parts u of one takes
   the others from any message of the same count, and is then in every respect the
   receiver of the mixture.
   */
  lemma MessagesMix(r: Proto, h: Field, held: seq<seq<Byte>>, more: seq<seq<Byte>>, u: seq<nat>, q: Proto, k: nat)
    requires 2 <= |held| == |more| <= 255 && Indices(u, |held|) && Holds(r, h, held, u)
    requires k < |more| && k !in u && IsPart(q, more, k)
    ensures Holds(r, h, Mixed(held, more, u), u) && IsPart(q, Mixed(held, more, u), k)
  {
    SamePartList(held, Mixed(held, more, u), u);
  }

  /** So one part of another message, when it is the last missing, completes the receiver with the mixture. */
  lemma MixtureCompletes(r: Proto, h: Field, held: seq<seq<Byte>>, more: seq<seq<Byte>>, u: seq<nat>, q: Proto, k: nat)
    requires |held| == |more| && Message(Mixed(held, more, u)) && Indices(u, |held|) && Holds(r, h, held, u)
    requires OnlyMissing(u, k, |held|) && IsPart(q, more, k)
    requires DecodeField(Concat(held[k := more[k]])).FOk?
    ensures AddPartial(r, q, true) == Outcome(Decode(Concat(held[k := more[k]])), 0)
  {
    var mix := Mixed(held, more, u);
    assert mix == held[k := more[k]];
    MessagesMix(r, h, held, more, u, q, k);
    NewPartInserted(r, h, mix, u, q, k, true);
    var r1 := r.(tree := Some(r.tree.value + [PartField(mix, k)]));
    forall j | 0 <= j < |mix| ensures Find(r1.tree.value, PART + j) == Some(PartField(mix, j)) {
      FindHeld(r1, h, mix, u + [k], j);
    }
    MergeCompletes(r1, mix);
  }

  // ---------- exactly which runs complete ----------

  /** One delivery more. */
  lemma ReceiveOne(r: Proto, qs: seq<Proto>, ds: seq<nat>, mem: seq<bool>, d: nat, ok: bool)
    requires Indices(ds, |qs|) && |mem| == |ds| && d < |qs|
    ensures Indices(ds + [d], |qs|)
    ensures Receive(r, qs, ds + [d], mem + [ok]) == AddPartial(Receive(r, qs, ds, mem), qs[d], ok).proto
  {
    assert (ds + [d])[..|ds|] == ds && (mem + [ok])[..|ds|] == mem;
  }

  lemma {:induction false} ReceiveAppend(r: Proto, qs: seq<Proto>, ds: seq<nat>, mem: seq<bool>,
                                         es: seq<nat>, more: seq<bool>)
    requires Indices(ds, |qs|) && |mem| == |ds| && Indices(es, |qs|) && |more| == |es|
    ensures Indices(ds + es, |qs|)
    ensures Receive(r, qs, ds + es, mem + more) == Receive(Receive(r, qs, ds, mem), qs, es, more)
  {
    if es == [] {
      assert ds + es == ds && mem + more == mem;
    } else {
      var n := |es| - 1;
      var front, front', d, ok := es[..n], more[..n], es[n], more[n];
      ReceiveAppend(r, qs, ds, mem, front, front');
      assert ds + es == (ds + front) + [d] && mem + more == (mem + front') + [ok];
      ReceiveOne(r, qs, ds + front, mem + front', d, ok);
    }
  }

  /** Delivery t brings the last missing part. */
  predicate Completing(ds: seq<nat>, t: nat, n: nat)
    requires t < |ds|
  {
    OnlyMissing(ds[..t], ds[t], n)
  }

  function After(qs: seq<Proto>, ds: seq<nat>, mem: seq<bool>, m: nat): Proto
    requires Indices(ds, |qs|) && |mem| == |ds| && m <= |ds|
  {
    Receive(Invalid(), qs, ds[..m], mem[..m])
  }

  ghost predicate EverComplete(qs: seq<Proto>, ds: seq<nat>, mem: seq<bool>)
    requires Indices(ds, |qs|) && |mem| == |ds|
  {
    exists m: nat :: m <= |ds| && IsComplete(After(qs, ds, mem, m))
  }

  ghost predicate MemoryAtLast(ds: seq<nat>, mem: seq<bool>, n: nat)
    requires |mem| == |ds|
  {
    exists t: nat :: t < |ds| && Completing(ds, t, n) && mem[t]
  }

  /** Where all parts have arrived, one of the deliveries was the last to be missing. */
  lemma {:induction false} FindCompleting(ds: seq<nat>, m: nat, n: nat) returns (t: nat)
    requires m <= |ds| && 0 < n && Indices(ds, n) && forall j :: 0 <= j < n ==> j in ds[..m]
    ensures t < m && Completing(ds, t, n)
  {
    assert m > 0 by { assert 0 in ds[..m]; }
    var k := m - 1;
    assert ds[..m] == ds[..k] + [ds[k]];
    if forall j :: 0 <= j < n ==> j in ds[..k] {
      t := FindCompleting(ds, k, n);
    } else {
      t := k;
      forall j | 0 <= j < n && j != ds[k] ensures j in ds[..k] { assert j in ds[..m]; }
    }
  }

  /** While a part is missing the receiver is not complete. */
  lemma MissingMeansIncomplete(qs: seq<Proto>, slices: seq<seq<Byte>>, ds: seq<nat>, mem: seq<bool>, m: nat, k: nat)
    requires Message(slices) && AreParts(qs, slices) && Indices(ds, |slices|) && |mem| == |ds|
    requires m <= |ds| && k < |slices| && k !in ds[..m]
    ensures !IsComplete(After(qs, ds, mem, m))
  {
    if m > 0 { var h := RunHoldsArrived(qs, slices, ds[..m], mem[..m], k); }
  }

  /** One delivery more. */
  lemma AfterNext(qs: seq<Proto>, ds: seq<nat>, mem: seq<bool>, t: nat)
    requires Indices(ds, |qs|) && |mem| == |ds| && t < |ds|
    ensures After(qs, ds, mem, t + 1) == AddPartial(After(qs, ds, mem, t), qs[ds[t]], mem[t]).proto
  {
    assert ds[..t + 1][..t] == ds[..t] && mem[..t + 1][..t] == mem[..t];
  }

  /** The run from delivery t on. */
  lemma AfterMore(qs: seq<Proto>, ds: seq<nat>, mem: seq<bool>, t: nat, m: nat)
    requires Indices(ds, |qs|) && |mem| == |ds| && t <= m <= |ds|
    ensures Indices(ds[t..m], |qs|)
    ensures After(qs, ds, mem, m) == Receive(After(qs, ds, mem, t), qs, ds[t..m], mem[t..m])
  {
    assert ds[..m] == ds[..t] + ds[t..m] && mem[..m] == mem[..t] + mem[t..m];
    ReceiveAppend(Invalid(), qs, ds[..t], mem[..t], ds[t..m], mem[t..m]);
  }

  /** Without memory at the last missing part, the receiver stays incomplete from then on. */
  lemma NeverAfterFailure(qs: seq<Proto>, slices: seq<seq<Byte>>, ds: seq<nat>, mem: seq<bool>, t: nat, m: nat)
    requires Message(slices) && AreParts(qs, slices) && DecodeField(Concat(slices)).FOk?
    requires Indices(ds, |slices|) && |mem| == |ds| && t < m <= |ds| && Completing(ds, t, |slices|) && !mem[t]
    ensures !IsComplete(After(qs, ds, mem, m))
  {
    var h, u := LastPart(qs, slices, ds[..t], mem[..t], ds[t]);
    AfterNext(qs, ds, mem, t);
    AfterMore(qs, ds, mem, t + 1, m);
    StuckForever(After(qs, ds, mem, t + 1), h, slices, u, qs, ds[t + 1..m], mem[t + 1..m]);
  }

  /**
   Over every run of deliveries of one message's parts, in any order, with any
   repeats and any failures of the allocator: the receiver is complete at some
   point if and only if there was memory when the last missing part arrived.
   */
  lemma CompletesExactly(qs: seq<Proto>, slices: seq<seq<Byte>>, ds: seq<nat>, mem: seq<bool>)
    requires Message(slices) && AreParts(qs, slices)
    requires DecodeField(Concat(slices)).FOk? && IsComplete(Decode(Concat(slices)))
    requires Indices(ds, |slices|) && |mem| == |ds|
    ensures EverComplete(qs, ds, mem) <==> MemoryAtLast(ds, mem, |slices|)
  {
    if EverComplete(qs, ds, mem) {
      var m: nat :| m <= |ds| && IsComplete(After(qs, ds, mem, m));
      forall j | 0 <= j < |slices| ensures j in ds[..m] {
        if j !in ds[..m] { MissingMeansIncomplete(qs, slices, ds, mem, m, j); }
      }
      var t := FindCompleting(ds, m, |slices|);
      if !mem[t] { NeverAfterFailure(qs, slices, ds, mem, t, m); }
    }
    if MemoryAtLast(ds, mem, |slices|) {
      var t: nat :| t < |ds| && Completing(ds, t, |slices|) && mem[t];
      var h, u := LastPart(qs, slices, ds[..t], mem[..t], ds[t]);
      AfterNext(qs, ds, mem, t);
      assert IsComplete(After(qs, ds, mem, t + 1));
    }
  }

  // ---------- any tree at all ----------

  predicate There(tree: seq<Field>, j: U8) {
    var p := Find(tree, PART + j);
    p.Some? && p.value.val.Str? && p.value.val.data != []
  }

  /** What the first loop of AddPartial has seen when it gets to its end. */
  predicate AllThere(tree: seq<Field>, i: nat, n: U8) {
    forall j: nat :: i <= j < n ==> There(tree, j)
  }

  lemma {:induction false} ScannedAll(tree: seq<Field>, i: nat, n: U8, acc: int)
    requires i <= n
    ensures ScanParts(tree, i, n, acc).Sum? <==> AllThere(tree, i, n)
    decreases n - i
  {
    if i < n {
      var p := Find(tree, PART + i);
      if p.Some? && p.value.val.Str? { ScannedAll(tree, i + 1, n, ToInt32(acc + |p.value.val.data|)); }
      assert AllThere(tree, i, n) <==> There(tree, i) && AllThere(tree, i + 1, n);
    }
  }

  function PartData(tree: seq<Field>, j: U8): seq<Byte> {
    if There(tree, j) then Find(tree, PART + j).value.val.data else []
  }

  /**
   Where the first loop stops: at the first index that has no non-empty string.  It
   waits when nothing has that tag, refuses an empty value with -6, and another that
   is no string with -7.
   */
  lemma {:induction false} ScanStops(tree: seq<Field>, i: nat, n: U8, acc: int, j: U8)
    requires i <= j < n && !There(tree, j) && forall k: nat :: i <= k < j ==> There(tree, k)
    ensures var p := Find(tree, PART + j);
            ScanParts(tree, i, n, acc) ==
            if p.None? then Missing else if LowWord(p.value.val) == 0 then Bad(-6) else Bad(-7)
    decreases j - i
  {
    if i < j {
      assert There(tree, i);
      ScanStops(tree, i + 1, n, ToInt32(acc + |Find(tree, PART + i).value.val.data|), j);
    }
  }

  /** The contents of the parts in a tree, whoever sent them. */
  function Contents(tree: seq<Field>, n: U8): (s: seq<seq<Byte>>)
    requires AllThere(tree, 0, n)
    ensures |s| == n
  {
    seq(n, j requires 0 <= j < n => PartData(tree, j))
  }

  lemma ContentsHeld(tree: seq<Field>, n: U8)
    requires AllThere(tree, 0, n)
    ensures Has(tree, Contents(tree, n), 0)
    ensures forall j :: 0 <= j < n ==> |Contents(tree, n)[j]| > 0
  {
    var slices := Contents(tree, n);
    forall j | 0 <= j < |slices|
      ensures Find(tree, PART + j) == Some(PartField(slices, j)) && |slices[j]| > 0
    {
      assert There(tree, j);
      assert slices[j] == PartData(tree, j);
    }
  }

  /**
   Whatever parts a tree holds, of one message or of several: when the first loop
   finds one for every index and their lengths add up to an int, the copying loop
   finds them all again and never runs out of buffer, and the merge can only lack
   memory or meet bytes that are no field.
   */
  lemma MergeOfAnyParts(r: Proto)
    requires r.tree.Some? && r.total > 0 && AllThere(r.tree.value, 0, r.total)
    requires |Concat(Contents(r.tree.value, r.total))| < TWO_31
    ensures var all := Concat(Contents(r.tree.value, r.total));
            var g := GatherParts(r.tree.value, r.total, |all|);
            && |all| > 0 && ScanParts(r.tree.value, 0, r.total, 0) == Sum(|all|)
            && g.ok && g.bytes == all
    ensures var all := Concat(Contents(r.tree.value, r.total));
            && (if DecodeField(all).FOk? then Merge(r, true) == Outcome(Decode(all), 0) else Merge(r, true).code == -13)
            && Merge(r, false) == Outcome(r, -9)
  {
    var tree, n := r.tree.value, r.total;
    ContentsHeld(tree, n);
    ScanAndGather(tree, Contents(tree, n));
  }

  // ---------- parts of 2 GiB and more ----------

  lemma WrapAgain(acc: int, more: nat, rest: nat)
    ensures ToInt32(ToInt32(acc + more) + rest) == ToInt32(acc + (more + rest))
  {}

  /** The first loop adds the lengths up in an int. */
  lemma {:induction false} ScanSum(tree: seq<Field>, slices: seq<seq<Byte>>, i: nat, acc: int)
    requires i <= |slices| <= 255 && Has(tree, slices, i) && (forall j :: 0 <= j < |slices| ==> |slices[j]| > 0)
    requires -TWO_31 <= acc < TWO_31
    ensures ScanParts(tree, i, |slices|, acc) == Sum(ToInt32(acc + |Concat(slices[i..])|))
    decreases |slices| - i
  {
    if i < |slices| {
      assert Find(tree, PART + i) == Some(PartField(slices, i));
      assert slices[i..][1..] == slices[i + 1..];
      ScanSum(tree, slices, i + 1, ToInt32(acc + |slices[i]|));
      WrapAgain(acc, |slices[i]|, |Concat(slices[i + 1..])|);
    }
  }

  predicate BufferSized(slices: seq<seq<Byte>>) {
    forall j :: 0 <= j < |slices| ==> 0 < |slices[j]| < TWO_31
  }

  /** One turn, whether or not the part fits. */
  lemma TurnWithin(tree: seq<Field>, slices: seq<seq<Byte>>, i: nat, bytes: seq<Byte>, total: nat)
    requires i < |slices| <= 255 && Has(tree, slices, i) && |bytes| <= total < TWO_31 && |slices[i]| < TWO_31
    ensures var g := GatherTurn(tree, i, bytes, total);
            && |g.bytes| <= total && (g.ok <==> |bytes| + |slices[i]| <= total)
            && (g.ok ==> g.bytes == bytes + slices[i] && Has(g.tree, slices, i + 1))
  {
    assert Find(tree, PART + i) == Some(PartField(slices, i));
    NoWrap(|bytes|, |slices[i]|, total);
    if |bytes| + |slices[i]| <= total { GatherOne(tree, slices, i, bytes, total); }
  }

  /** The copying loop never writes more than it has room for, whatever the sum was. */
  lemma {:induction false} GatherWithin(tree: seq<Field>, slices: seq<seq<Byte>>, i: nat, total: nat)
    requires i <= |slices| <= 255 && Has(tree, slices, 0) && BufferSized(slices) && total < TWO_31
    ensures var g := GatherParts(tree, i, total);
            && |g.bytes| <= total && (g.ok <==> |Concat(slices[..i])| <= total)
            && (g.ok ==> g.bytes == Concat(slices[..i]) && Has(g.tree, slices, i))
  {
    if i > 0 {
      GatherWithin(tree, slices, i - 1, total);
      var g := GatherParts(tree, i - 1, total);
      assert slices[..i] == slices[..i - 1] + [slices[i - 1]];
      ConcatSnoc(slices[..i - 1], slices[i - 1]);
      if g.ok {
        TurnWithin(g.tree, slices, i - 1, g.bytes, total);
      }
    }
  }

  /**
   Parts that are longer together than an int can say are never merged: their sum
   wraps around, and either is not positive, which gives -8, or is too small for the
   copying loop, which stops with -12 before it overruns the buffer; the j parts that
   fitted are then out of the tree.
   */
  lemma WrappedSumFails(r: Proto, j: nat)
    requires r.tree.Some? && r.total > 0 && AllThere(r.tree.value, 0, r.total)
    requires var slices := Contents(r.tree.value, r.total); BufferSized(slices) && |Concat(slices)| >= TWO_31
    requires j <= r.total
    ensures var len := ToInt32(|Concat(Contents(r.tree.value, r.total))|);
            && (len <= 0 ==> forall mem :: Merge(r, mem) == Outcome(r, -8))
            && (len > 0 ==>
                  && Merge(r, true).code == -12 && Merge(r, false) == Outcome(r, -9)
                  && (|Concat(Contents(r.tree.value, r.total)[..j])| <= len ==>
                        Merge(r, true).proto.tree.Some? &&
                        |Merge(r, true).proto.tree.value| <= |r.tree.value| - j))
  {
    var tree, n := r.tree.value, r.total;
    var slices := Contents(tree, n);
    var len := ToInt32(|Concat(slices)|);
    ContentsHeld(tree, n);
    assert slices[0..] == slices && slices[..n] == slices;
    ScanSum(tree, slices, 0, 0);
    if len > 0 {
      GatherWithin(tree, slices, n, len);
      GatherWithin(tree, slices, j, len);
      GatherTakesOut(tree, j, len, HDR);
      GatherGoesOn(tree, j, n, len);
    }
  }

  // ---------- the end of a run ----------

  /**
   The last missing part of the run came when there was memory, and it was the
   last delivery, or the same is true of the deliveries after it.
   */
  ghost predicate EndsComplete(ds: seq<nat>, mem: seq<bool>, n: nat)
    requires |mem| == |ds|
    decreases |ds|
  {
    exists t: nat ::
      && t < |ds| && Completing(ds, t, n) && mem[t]
      && (t == |ds| - 1 || EndsComplete(ds[t + 1..], mem[t + 1..], n))
  }

  lemma CompletingUnique(ds: seq<nat>, t: nat, u: nat, n: nat)
    requires t < |ds| && u < |ds| && Indices(ds, n) && Completing(ds, t, n) && Completing(ds, u, n)
    ensures t == u
  {
    if t < u { LaterRepeats(ds, t, u, n); }
    if u < t { LaterRepeats(ds, u, t, n); }
  }

  /** After the last missing part every delivery is a repeat. */
  lemma LaterRepeats(ds: seq<nat>, t: nat, u: nat, n: nat)
    requires t < u < |ds| && Indices(ds, n) && Completing(ds, t, n)
    ensures ds[u] in ds[..u]
  {
    if ds[u] == ds[t] {
      assert ds[..u][t] == ds[u];
    } else {
      assert ds[u] in ds[..t];
      var k :| 0 <= k < t && ds[..t][k] == ds[u];
      assert ds[..u][k] == ds[u];
    }
  }

  lemma AtCompletion(qs: seq<Proto>, slices: seq<seq<Byte>>, ds: seq<nat>, mem: seq<bool>, t: nat)
    requires Message(slices) && AreParts(qs, slices) && DecodeField(Concat(slices)).FOk?
    requires Indices(ds, |slices|) && |mem| == |ds| && t < |ds| && Completing(ds, t, |slices|) && mem[t]
    ensures After(qs, ds, mem, t + 1) == Decode(Concat(slices))
  {
    var h, u := LastPart(qs, slices, ds[..t], mem[..t], ds[t]);
    AfterNext(qs, ds, mem, t);
  }

  lemma AfterRest(qs: seq<Proto>, ds: seq<nat>, mem: seq<bool>, t: nat)
    requires Indices(ds, |qs|) && |mem| == |ds| && t <= |ds|
    ensures Indices(ds[t..], |qs|)
    ensures Receive(Invalid(), qs, ds, mem) == Receive(After(qs, ds, mem, t), qs, ds[t..], mem[t..])
  {
    AfterMore(qs, ds, mem, t, |ds|);
    assert ds[..|ds|] == ds && mem[..|ds|] == mem && ds[t..|ds|] == ds[t..] && mem[t..|ds|] == mem[t..];
  }

  /** The receiver after the whole run, when there was memory at its last missing part t. */
  lemma AfterCompletion(qs: seq<Proto>, slices: seq<seq<Byte>>, ds: seq<nat>, mem: seq<bool>, t: nat)
    requires Message(slices) && AreParts(qs, slices)
    requires DecodeField(Concat(slices)).FOk? && IsComplete(Decode(Concat(slices)))
    requires Indices(ds, |slices|) && |mem| == |ds| && t < |ds| && Completing(ds, t, |slices|) && mem[t]
    ensures Receive(Invalid(), qs, ds, mem) ==
            if t == |ds| - 1 then Decode(Concat(slices)) else Receive(Invalid(), qs, ds[t + 1..], mem[t + 1..])
  {
    AtCompletion(qs, slices, ds, mem, t);
    AfterRest(qs, ds, mem, t + 1);
    if t < |ds| - 1 {
      RunStartsAfresh(Decode(Concat(slices)), slices, qs, ds[t + 1..], mem[t + 1..]);
    }
  }

  /** Over every run of deliveries: the receiver is complete at its end if and only if EndsComplete holds. */
  lemma {:induction false} EndsCompleteExactly(qs: seq<Proto>, slices: seq<seq<Byte>>, ds: seq<nat>, mem: seq<bool>)
    requires Message(slices) && AreParts(qs, slices)
    requires DecodeField(Concat(slices)).FOk? && IsComplete(Decode(Concat(slices)))
    requires Indices(ds, |slices|) && |mem| == |ds|
    ensures IsComplete(Receive(Invalid(), qs, ds, mem)) <==> EndsComplete(ds, mem, |slices|)
    decreases |ds|
  {
    var n := |slices|;
    assert ds[..|ds|] == ds && mem[..|ds|] == mem;
    if j :| 0 <= j < n && j !in ds {
      MissingMeansIncomplete(qs, slices, ds, mem, |ds|, j);
      if EndsComplete(ds, mem, n) { NeverMissing(ds, mem, j, n); }
    } else {
      var t := FindCompleting(ds, |ds|, n);
      EndsAt(ds, mem, t, n);
      if mem[t] {
        AfterCompletion(qs, slices, ds, mem, t);
        if t < |ds| - 1 { EndsCompleteExactly(qs, slices, ds[t + 1..], mem[t + 1..]); }
      } else {
        NeverAfterFailure(qs, slices, ds, mem, t, |ds|);
      }
    }
  }

  /** There is only one delivery of the last missing part. */
  lemma EndsAt(ds: seq<nat>, mem: seq<bool>, t: nat, n: nat)
    requires |mem| == |ds| && t < |ds| && Completing(ds, t, n) && Indices(ds, n)
    ensures EndsComplete(ds, mem, n) <==> mem[t] && (t == |ds| - 1 || EndsComplete(ds[t + 1..], mem[t + 1..], n))
  {
    forall u: nat | u < |ds| && Completing(ds, u, n) ensures u == t { CompletingUnique(ds, t, u, n); }
  }

  lemma NeverMissing(ds: seq<nat>, mem: seq<bool>, j: nat, n: nat)
    requires |mem| == |ds| && EndsComplete(ds, mem, n) && j < n
    ensures j in ds
  {
    var t: nat :| t < |ds| && Completing(ds, t, n) && mem[t];
    if j != ds[t] { assert j in ds[..t]; }
  }

  // ---------- parts that do not make a message ----------

  /** Every child with a part tag is that part. */
  predicate Genuine(tree: seq<Field>, slices: seq<seq<Byte>>)
    requires |slices| <= 255
  {
    forall k :: 0 <= k < |tree| && PART <= tree[k].tag < PART + |slices| ==>
      tree[k] == PartField(slices, tree[k].tag - PART)
  }

  /** A receiver that has some of the parts and nothing else that matters. */
  predicate Gathering(r: Proto, slices: seq<seq<Byte>>)
    requires |slices| <= 255
  {
    r.tree.Some? ==> Genuine(r.tree.value, slices) && r.total == |slices| && r.retcode == 0 && !r.body
  }

  lemma FindGenuine(tree: seq<Field>, slices: seq<seq<Byte>>, j: nat)
    requires j < |slices| <= 255 && Genuine(tree, slices)
    ensures Find(tree, PART + j) == None || Find(tree, PART + j) == Some(PartField(slices, j))
  {
    var p := Find(tree, PART + j);
    if p.Some? {
      var k :| 0 <= k < |tree| && tree[k] == p.value;
    }
  }

  lemma {:induction false} RemoveGenuine(tree: seq<Field>, tag: U32, slices: seq<seq<Byte>>)
    requires |slices| <= 255 && Genuine(tree, slices)
    ensures Genuine(RemoveFirst(tree, tag), slices)
  {
    if tree != [] && tree[0].tag != tag {
      RemoveGenuine(tree[1..], tag, slices);
      var r := RemoveFirst(tree[1..], tag);
      var s := [tree[0]] + r;
      assert forall k :: 1 <= k < |s| ==> s[k] == r[k - 1];
    }
  }

  lemma {:induction false} GatherGenuine(tree: seq<Field>, n: U8, total: int, slices: seq<seq<Byte>>)
    requires |slices| <= 255 && Genuine(tree, slices)
    ensures Genuine(GatherParts(tree, n, total).tree, slices)
  {
    if n > 0 {
      GatherGenuine(tree, n - 1, total, slices);
      RemoveGenuine(GatherParts(tree, n - 1, total).tree, PART + (n - 1), slices);
    }
  }

  /** When all genuine parts are there, the copying loop yields their concatenation. */
  lemma GenuineMerge(tree: seq<Field>, slices: seq<seq<Byte>>)
    requires Message(slices) && Genuine(tree, slices) && ScanParts(tree, 0, |slices|, 0).Sum?
    ensures var all := Concat(slices);
            ScanParts(tree, 0, |slices|, 0) == Sum(|all|) && GatherParts(tree, |slices|, |all|).bytes == all
  {
    ScannedAll(tree, 0, |slices|, 0);
    forall j | 0 <= j < |slices| ensures Find(tree, PART + j) == Some(PartField(slices, j)) {
      assert There(tree, j);
      FindGenuine(tree, slices, j);
    }
    ScanAndGather(tree, slices);
  }

  lemma MergeKeepsGathering(r: Proto, slices: seq<seq<Byte>>, allocOk: bool)
    requires Message(slices) && DecodeField(Concat(slices)).FFail?
    requires r.tree.Some? && Gathering(r, slices)
    ensures Gathering(Merge(r, allocOk).proto, slices)
  {
    var s := ScanParts(r.tree.value, 0, r.total, 0);
    if s.Sum? {
      GenuineMerge(r.tree.value, slices);
      GatherGenuine(r.tree.value, r.total, s.len, slices);
    }
  }

  lemma PartIsGathering(q: Proto, slices: seq<seq<Byte>>, i: nat)
    requires i < |slices| <= 255 && IsPart(q, slices, i)
    ensures Gathering(q, slices)
  {
    assert q.tree.value == [q.tree.value[0], PartField(slices, i)];
  }

  lemma OneMoreGathering(r: Proto, slices: seq<seq<Byte>>, i: nat)
    requires i < |slices| <= 255 && r.tree.Some? && Gathering(r, slices)
    ensures Gathering(r.(tree := Some(r.tree.value + [PartField(slices, i)])), slices)
  {}

  /** AddPartial of a part that an incomplete receiver has already. */
  lemma AddPartialRefuses(r: Proto, q: Proto, f: Field, allocOk: bool)
    requires r.tree.Some? && q.tree.Some? && !IsComplete(r) && !IsComplete(q) && q.curr < q.total == r.total
    requires Find(q.tree.value, PART + q.curr) == Some(f) && f.val.Str? && Find(r.tree.value, PART + q.curr).Some?
    ensures AddPartial(r, q, allocOk) == Outcome(r, -4)
  {}

  lemma DeliveryKeepsGathering(r: Proto, q: Proto, slices: seq<seq<Byte>>, i: nat, allocOk: bool)
    requires Message(slices) && DecodeField(Concat(slices)).FFail?
    requires i < |slices| && IsPart(q, slices, i) && Gathering(r, slices)
    ensures Gathering(AddPartial(r, q, allocOk).proto, slices)
  {
    var f := PartField(slices, i);
    PartLookup(q, slices, i);
    if r.tree.None? {
      assert AddPartial(r, q, allocOk) == Outcome(q, 0);
      PartIsGathering(q, slices, i);
    } else if Find(r.tree.value, PART + i).None? {
      AddPartialInserts(r, q, f, allocOk);
      OneMoreGathering(r, slices, i);
      MergeKeepsGathering(r.(tree := Some(r.tree.value + [f])), slices, allocOk);
    } else {
      AddPartialRefuses(r, q, f, allocOk);
    }
  }

  /**
   Parts whose concatenation does not start with a field never complete a
   receiver, over any run of their deliveries: every merge fails.
   */
  lemma {:induction false} NeverCompletes(qs: seq<Proto>, slices: seq<seq<Byte>>, ds: seq<nat>, mem: seq<bool>)
    requires Message(slices) && AreParts(qs, slices) && DecodeField(Concat(slices)).FFail?
    requires Indices(ds, |slices|) && |mem| == |ds|
    ensures Gathering(Receive(Invalid(), qs, ds, mem), slices) && !IsComplete(Receive(Invalid(), qs, ds, mem))
  {
    if ds != [] {
      var n := |ds| - 1;
      NeverCompletes(qs, slices, ds[..n], mem[..n]);
      DeliveryKeepsGathering(Receive(Invalid(), qs, ds[..n], mem[..n]), qs[ds[n]], slices, ds[n], mem[n]);
    }
  }

  // ---------- what a failed assign leaves ----------

  lemma {:induction false} RemoveFirstShorter(tree: seq<Field>, tag: U32)
    requires Find(tree, tag).Some?
    ensures |RemoveFirst(tree, tag)| == |tree| - 1
  {
    if tree[0].tag != tag { RemoveFirstShorter(tree[1..], tag); }
  }

  lemma TurnTakesOut(tree: seq<Field>, i: U8, bytes: seq<Byte>, total: int, t: U32)
    requires t != PART + i
    ensures var g := GatherTurn(tree, i, bytes, total);
            |g.tree| == (if g.ok then |tree| - 1 else |tree|) && Find(g.tree, t) == Find(tree, t)
  {
    FindAfterRemove(tree, PART + i, t);
    if Find(tree, PART + i).Some? { RemoveFirstShorter(tree, PART + i); }
  }

  /** The copying loop takes as many children out of the tree as it copies parts, and none with another tag. */
  lemma {:induction false} GatherTakesOut(tree: seq<Field>, n: U8, total: int, t: U32)
    requires t < PART || PART + n <= t
    ensures var g := GatherParts(tree, n, total);
            (g.ok ==> |g.tree| == |tree| - n) && Find(g.tree, t) == Find(tree, t)
  {
    if n > 0 {
      GatherTakesOut(tree, n - 1, total, t);
      var g := GatherParts(tree, n - 1, total);
      TurnTakesOut(g.tree, n - 1, g.bytes, total, t);
    }
  }

  lemma {:induction false} GatherGoesOn(tree: seq<Field>, j: nat, n: U8, total: int)
    requires j <= n
    ensures |GatherParts(tree, n, total).tree| <= |GatherParts(tree, j, total).tree|
    decreases n - j
  {
    if j < n {
      GatherGoesOn(tree, j, n - 1, total);
      var g := GatherParts(tree, n - 1, total);
      TurnTakesOut(g.tree, n - 1, g.bytes, total, HDR);
    }
  }

  /** Merge, when the bytes are no field. */
  lemma MergeOfNoField(r: Proto, slices: seq<seq<Byte>>)
    requires Message(slices) && r.tree.Some? && r.total == |slices| && Has(r.tree.value, slices, 0)
    requires DecodeField(Concat(slices)).FFail?
    ensures var o := Merge(r, true);
            && o.code == -13 && o.proto.tree.Some? && o.proto == r.(tree := o.proto.tree)
            && |o.proto.tree.value| == |r.tree.value| - |slices|
            && Find(o.proto.tree.value, HDR) == Find(r.tree.value, HDR)
  {
    ScanAndGather(r.tree.value, slices);
    GatherTakesOut(r.tree.value, r.total, |Concat(slices)|, HDR);
  }

  lemma {:induction false} ArrivedDistinct(ds: seq<nat>)
    ensures Distinct(Arrived(ds))
  {
    if ds != [] { ArrivedDistinct(ds[..|ds| - 1]); }
  }

  /** Distinct numbers that are all the numbers below n are n of them. */
  lemma {:induction false} AllBelow(s: seq<nat>, n: nat)
    requires Distinct(s) && forall x: nat :: x in s <==> x < n
    ensures |s| == n
    decreases n
  {
    if n > 0 {
      assert n - 1 in s;
      var i :| 0 <= i < |s| && s[i] == n - 1;
      var t := s[..i] + s[i + 1..];
      forall x: nat ensures x in t <==> x < n - 1 {
        if x in s && x != n - 1 {
          var j :| 0 <= j < |s| && s[j] == x;
          assert t[if j < i then j else j - 1] == x;
        }
      }
      AllBelow(t, n - 1);
    }
    assert |s| > 0 ==> s[0] in s;
  }

  /** Every part arrived once. */
  lemma ArrivedAll(ds: seq<nat>, k: nat, n: nat)
    requires OnlyMissing(ds, k, n) && Indices(ds, n)
    ensures |Arrived(ds) + [k]| == n
  {
    ArrivedDistinct(ds);
    var u := Arrived(ds) + [k];
    forall x: nat ensures x in u <==> x < n {
      assert x in u <==> x in ds || x == k;
      if x in ds { var i :| 0 <= i < |ds| && ds[i] == x; }
      if x < n && x != k { assert x in ds; }
    }
    AllBelow(u, n);
  }

  lemma {:induction false} PartListLength(slices: seq<seq<Byte>>, ds: seq<nat>)
    requires |slices| <= 255 && Indices(ds, |slices|)
    ensures |PartList(slices, ds)| == |ds|
  {
    if ds != [] { PartListLength(slices, ds[1..]); }
  }

  /** A receiver with every part, once as many children as there are parts have been taken out. */
  lemma HoldsNone(r: Proto, h: Field, slices: seq<seq<Byte>>, u: seq<nat>, tree: seq<Field>)
    requires |slices| <= 255 && Indices(u, |slices|) && Holds(r, h, slices, u) && |u| == |slices|
    requires |tree| == |r.tree.value| - |slices| && Find(tree, HDR) == Find(r.tree.value, HDR)
    ensures Holds(r.(tree := Some(tree)), h, slices, [])
  {
    PartListLength(slices, u);
    assert tree == [h] && [h] + PartList(slices, []) == [h];
  }

  /**
   When the bytes of the parts are no field, the last missing part gives -13 and
   leaves the receiver with its header and none of the parts, each of which it can
   be given again.
   */
  lemma FailedAssignEmpties(qs: seq<Proto>, slices: seq<seq<Byte>>, ds: seq<nat>, mem: seq<bool>, k: nat)
      returns (h: Field)
    requires Message(slices) && AreParts(qs, slices) && DecodeField(Concat(slices)).FFail?
    requires Indices(ds, |slices|) && |mem| == |ds| && OnlyMissing(ds, k, |slices|)
    ensures var o := AddPartial(Receive(Invalid(), qs, ds, mem), qs[k], true);
            o.code == -13 && Holds(o.proto, h, slices, [])
  {
    var r1;
    h, r1 := Filled(qs, slices, ds, mem, k);
    MergeOfNoField(r1, slices);
    ArrivedAll(ds, k, |slices|);
    HoldsNone(r1, h, slices, Arrived(ds) + [k], Merge(r1, true).proto.tree.value);
  }
}
