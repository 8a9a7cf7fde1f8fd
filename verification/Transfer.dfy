/**
 A split message on its way: the packets a sender makes of its parts after any
 calls, what a receiver becomes after any deliveries of them, and how large they
 are.
 */
module Transfer {
  import opened Bytes
  import opened Wire
  import opened Packet
  import opened Fields
  import opened Reassembly
  import opened Splitting
  import Varint

  // ---------- any run of EncodePart calls ----------

  /** A call of EncodePart, and whether the allocator has memory for it. */
  datatype Call = Call(index: Int32, allocOk: bool)

  /** The sender after some calls, which may repeat, skip or misnumber parts, with negative numbers too. */
  function SendRun(s: Proto, calls: seq<Call>): (s': Proto)
    requires Sound(s)
    ensures Sound(s')
  {
    if calls == [] then s
    else
      var c := calls[|calls| - 1];
      EncodePart(SendRun(s, calls[..|calls| - 1]), c.index, c.allocOk).proto
  }

  /** Memory decides only whether the packet is returned, and a bad index changes nothing. */
  lemma EncodePartProto(s: Proto, index: Int32, allocOk: bool)
    requires Sound(s)
    ensures EncodePart(s, index, allocOk).proto == EncodePart(s, index, true).proto
    ensures index >= s.total ==> EncodePart(s, index, allocOk) == PartOutcome(s, -1, [])
  {}

  lemma {:induction false} RunStaysReady(s: Proto, core: seq<Field>, n: U64, slices: seq<seq<Byte>>, calls: seq<Call>)
      returns (core': seq<Field>, last: Option<U64>)
    requires Ready(s, core, n, None, slices)
    ensures Ready(SendRun(s, calls), core', n, last, slices)
    ensures Cleared(SendRun(s, calls), core') == Cleared(s, core)
  {
    if calls == [] {
      return core, None;
    }
    core', last := RunStaysReady(s, core, n, slices, calls[..|calls| - 1]);
    var s' := SendRun(s, calls[..|calls| - 1]);
    var c := calls[|calls| - 1];
    EncodePartProto(s', c.index, c.allocOk);
    if c.index < |slices| {
      EncodePartAny(s', core', n, last, slices, c.index);
      if Find(s'.tree.value, PartTag(c.index)).Some? {
        core', last := Cleared(s', core'), Some(AsU64(c.index));
      }
    }
  }

  /** Whatever was encoded before, part i of a split sender is always the same packet. */
  lemma PartIndependentOfHistory(s: Proto, core: seq<Field>, n: U64, slices: seq<seq<Byte>>, calls: seq<Call>, i: U8)
    requires Ready(s, core, n, None, slices) && i < |slices|
    ensures var o := EncodePart(SendRun(s, calls), i, true);
            o.bytes == PartPacket(Cleared(s, core), slices, n, i) && o.code == |o.bytes|
  {
    var core', last := RunStaysReady(s, core, n, slices, calls);
    EncodePartMakesPacket(SendRun(s, calls), core', n, last, slices, i);
  }

  // ---------- over the wire ----------

  /** What the receiver decodes: part i is encoded after the calls hist[i]. */
  function OverTheWire(s: Proto, hist: seq<seq<Call>>): (qs: seq<Proto>)
    requires Sound(s) && |hist| <= 255
    ensures |qs| == |hist|
  {
    seq(|hist|, i requires 0 <= i < |hist| => Decode(EncodePart(SendRun(s, hist[i]), i, true).bytes))
  }

  lemma PartsArrive(s: Proto, core: seq<Field>, n: U64, slices: seq<seq<Byte>>, hist: seq<seq<Call>>)
    requires Ready(s, core, n, None, slices) && |hist| == |slices|
    requires forall i :: 0 <= i < |slices| ==> 0 < |slices[i]| < DEFAULT_MAX
    ensures AreParts(OverTheWire(s, hist), slices)
  {
    var qs := OverTheWire(s, hist);
    forall i | 0 <= i < |qs| ensures IsPart(qs[i], slices, i) {
      PartIndependentOfHistory(s, core, n, slices, hist[i], i);
      ClearedPlain(s, core);
      PartPacketDecodes(Cleared(s, core), slices, n, i);
    }
  }

  // ---------- shipments ----------

  /** What Split leaves: the sender, its header fields, the slices, the header bytes and the sizes it reckoned with. */
  datatype Shipment = Shipment(sender: Proto, core: seq<Field>, slices: seq<seq<Byte>>, data: nat, sz: nat, max: nat)

  ghost predicate Ships(g: Shipment) {
    && Message(g.slices) && Ready(g.sender, g.core, |g.slices|, None, g.slices)
    && |EncodeFields(g.core)| <= g.data && g.max <= DEFAULT_MAX && Chosen(g.max, 3 + Varint.Len(g.data) + g.data, g.sz)
    && (forall i :: 0 <= i < |g.slices| ==> |g.slices[i]| <= g.sz)
    && (forall i :: 0 <= i < |g.slices| - 1 ==> |g.slices[i]| == g.sz)
    && DecodeField(Concat(g.slices)).FOk?
  }

  /** The packets as the receiver decodes them, part i encoded after the calls hist[i]. */
  ghost function Packets(g: Shipment, hist: seq<seq<Call>>): (qs: seq<Proto>)
    requires Ships(g) && |hist| == |g.slices|
    ensures |qs| == |hist| && AreParts(qs, g.slices)
  {
    PartsArrive(g.sender, g.core, |g.slices|, g.slices, hist);
    OverTheWire(g.sender, hist)
  }

  /** A run of deliveries of the shipment's parts, with a flag for memory at each. */
  ghost predicate Deliveries(g: Shipment, hist: seq<seq<Call>>, ds: seq<nat>, mem: seq<bool>) {
    Ships(g) && |hist| == |g.slices| && Indices(ds, |hist|) && |mem| == |ds|
  }

  /**
   The law of the splitting protocol, for a receiver r0 that is empty, complete or
   has parts of a message of another count: as long as part k is missing the
   receiver is not complete and holds each distinct part received exactly once;
   when k arrives as the last one and there is memory, the receiver becomes the
   protocol decoded from exactly the concatenated slices, and otherwise -9 is
   returned.
   */
  lemma SendReassemble(g: Shipment, hist: seq<seq<Call>>, r0: Proto, ds: seq<nat>, mem: seq<bool>, k: nat)
    requires Deliveries(g, hist, ds, mem) && ds != [] && k < |hist| && k !in ds && Unrelated(r0, |hist|)
    ensures var qs := Packets(g, hist);
            var r := Receive(r0, qs, ds, mem);
            && !IsComplete(r)
            && Indices(Arrived(ds), |hist|) && (exists h :: Holds(r, h, g.slices, Arrived(ds)))
            && (OnlyMissing(ds, k, |hist|) ==>
                  && AddPartial(r, qs[k], true) == Outcome(Decode(Concat(g.slices)), 0)
                  && AddPartial(r, qs[k], false).code == -9)
  {
    var qs := Packets(g, hist);
    RunStartsAfresh(r0, g.slices, qs, ds, mem);
    var h := RunHoldsArrived(qs, g.slices, ds, mem, k);
    assert Holds(Receive(Invalid(), qs, ds, mem), h, g.slices, Arrived(ds));
    if OnlyMissing(ds, k, |hist|) {
      var h, u := LastPart(qs, g.slices, ds, mem, k);
    }
  }

  /**
   When there is no memory for the last missing part, the message is lost: every
   part delivered from then on is refused with -4, and nothing changes any more.
   */
  lemma FailedMergeIsFinal(g: Shipment, hist: seq<seq<Call>>, ds: seq<nat>, mem: seq<bool>, k: nat,
                           more: seq<nat>, mem': seq<bool>)
    requires Deliveries(g, hist, ds, mem) && OnlyMissing(ds, k, |hist|) && Deliveries(g, hist, more, mem')
    ensures var qs := Packets(g, hist);
            var r := AddPartial(Receive(Invalid(), qs, ds, mem), qs[k], false).proto;
            && !IsComplete(r) && Receive(r, qs, more, mem') == r
            && forall i, ok :: 0 <= i < |hist| ==> AddPartial(r, qs[i], ok) == Outcome(r, -4)
  {
    var qs := Packets(g, hist);
    var h, u := LastPart(qs, g.slices, ds, mem, k);
    StuckForever(AddPartial(Receive(Invalid(), qs, ds, mem), qs[k], false).proto, h, g.slices, u, qs, more, mem');
  }

  /**
   After completion the message is lost at the first part that comes again: from
   then on the receiver is what a new one would be after the late parts alone,
   and after a single late part it is incomplete.
   */
  lemma LatePartsLoseMessage(g: Shipment, hist: seq<seq<Call>>, late: seq<nat>, mem: seq<bool>)
    requires Deliveries(g, hist, late, mem) && late != [] && IsComplete(Decode(Concat(g.slices)))
    ensures var qs := Packets(g, hist);
            var r := Receive(Decode(Concat(g.slices)), qs, late, mem);
            && r == Receive(Invalid(), qs, late, mem)
            && (|late| == 1 ==> r == qs[late[0]] && !IsComplete(r))
  {
    var qs, done := Packets(g, hist), Decode(Concat(g.slices));
    RunStartsAfresh(done, g.slices, qs, late, mem);
    if |late| == 1 {
      LatePartReplaces(done, g.slices, qs[late[0]], late[0], mem[0]);
      assert late[..0] == [] && mem[..0] == [];
    }
  }

  // ---------- how large the packets are ----------

  /** Part i of the shipment on the wire. */
  lemma SentPart(g: Shipment, calls: seq<Call>, i: nat)
    requires Ships(g) && i < |g.slices|
    ensures EncodePart(SendRun(g.sender, calls), i, true).bytes ==
            PartPacket(Cleared(g.sender, g.core), g.slices, |g.slices|, i)
    ensures |EncodeFields(Cleared(g.sender, g.core))| <= g.data
  {
    PartIndependentOfHistory(g.sender, g.core, |g.slices|, g.slices, calls, i);
    RemoveAllFacts(g.core, ERR);
  }

  /** The condition under which part i fits, in numbers known before it is sent. */
  ghost predicate SentFits(g: Shipment, i: nat)
    requires Ships(g) && i < |g.slices|
  {
    PartFits(Cleared(g.sender, g.core), |g.slices|, i, |g.slices[i]|, g.data, g.sz)
  }

  /**
   Every packet sent exceeds the size limit by at most four bytes, not at all up
   to 127 parts and a limit of 16383, and exactly when SentFits does not hold.
   */
  lemma SentPartFits(g: Shipment, calls: seq<Call>, i: nat)
    requires Ships(g) && i < |g.slices|
    ensures var sent := EncodePart(SendRun(g.sender, calls), i, true).bytes;
            && |sent| <= g.max + 4
            && (g.max <= 16383 && |g.slices| <= 127 ==> |sent| <= g.max)
            && (|sent| <= g.max <==> SentFits(g, i))
  {
    SentPart(g, calls, i);
    PartPacketsFit(Cleared(g.sender, g.core), g.slices, i, g.max, g.data, g.sz);
    PartFitsExactly(Cleared(g.sender, g.core), g.slices, i, g.max, g.data, g.sz);
  }

  /** Every full part of 16384 bytes or more is a packet over the limit, when the header was in shortest form. */
  lemma LargePartOverruns(g: Shipment, calls: seq<Call>, i: nat)
    requires Ships(g) && i < |g.slices| && |g.slices[i]| == g.sz >= 16384
    requires |EncodeFields(Cleared(g.sender, g.core))| == g.data
    ensures |EncodePart(SendRun(g.sender, calls), i, true).bytes| > g.max
  {
    SentPart(g, calls, i);
    StringLength(Fold(HDR, Cleared(g.sender, g.core)));
    KnownTags(0);
    LargePartsOverrun(Cleared(g.sender, g.core), g.slices, i, g.max, g.sz);
  }
}
