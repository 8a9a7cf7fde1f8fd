/**
 What becomes of a packet that is cut into more parts than the eight bits of the
 part count can hold.  Only as many parts as the count modulo 256 can be encoded,
 and the receiver expects no more.
 */
module WrappedCount {
  import opened Bytes
  import opened Wire
  import opened Packet
  import opened Fields
  import opened Reassembly
  import opened Splitting
  import opened Transfer
  import opened EndToEnd
  import Varint

  // ---------- two parts or more are left ----------

  predicate AllSmall(slices: seq<seq<Byte>>) {
    forall i :: 0 <= i < |slices| ==> 0 < |slices[i]| < DEFAULT_MAX
  }

  lemma SlicesSmall(enc: seq<Byte>, sz: nat, n: nat, k: nat)
    requires 0 < sz < DEFAULT_MAX && k <= n && 0 < n && Offset(sz, n - 1) < |enc| <= Offset(sz, n)
    ensures AllSmall(Slices(enc, sz, n, k))
  {
    var slices := Slices(enc, sz, n, k);
    forall i | 0 <= i < |slices| ensures 0 < |slices[i]| < DEFAULT_MAX {
      SlicesAt(enc, sz, n, k, i);
      SliceLength(enc, sz, n, i);
    }
  }

  /** The sender within the count it keeps. */
  lemma KeptReady(s: Proto, core: seq<Field>, enc: seq<Byte>, sz: nat, n: nat, k: nat)
    requires Plain(core) && 2 <= k == n % 0x100 && 2 <= n <= HDR_PART && Offset(sz, n - 1) <= |enc|
    requires Leaves(s, core, enc, sz, n) && s.retcode == 0 && PartsIn(s.tree.value, enc, sz, n)
    ensures k <= n && Ready(s, core, n, None, Slices(enc, sz, n, k))
  {
    var slices := Slices(enc, sz, n, k);
    forall i | 0 <= i < k ensures Find(s.tree.value, PART + i) == Some(PartField(slices, i)) {
      SlicesAt(enc, sz, n, k, i);
    }
  }

  lemma FrontIsPrefix(enc: seq<Byte>, sz: nat, n: nat, k: nat)
    requires 0 < k < n && Offset(sz, n - 1) < |enc|
    ensures Offset(sz, k) < |enc| && Concat(Slices(enc, sz, n, k)) == enc[..Offset(sz, k)]
  {
    SlicesCover(enc, sz, n, k);
    OffsetMono(sz, k, n - 1);
  }

  /** The parts that can be sent are the front of the encoded packet, which is no field any more. */
  lemma FrontFails(children: seq<Field>, len: nat)
    requires len < |EncodeTree(children)| < TWO_31
    ensures DecodeField(EncodeTree(children)[..len]).FFail?
  {
    var f := Fold(PKG, children);
    StringLength(f);
    TruncatedFails(f, len);
  }

  /** The parts that can be sent, as a receiver would have them. */
  lemma KeptSlices(children: seq<Field>, enc: seq<Byte>, sz: nat, n: nat, k: nat)
    requires enc == EncodeTree(children) && 0 < sz < DEFAULT_MAX && sz < |enc| < TWO_31
    requires n == CeilDiv(|enc|, sz) && 2 <= k == n % 0x100 && k <= n && 0 < n && Offset(sz, n - 1) <= |enc|
    ensures var slices := Slices(enc, sz, n, k);
            && AllSmall(slices)
            && (n > 255 ==> Message(slices) && DecodeField(Concat(slices)).FFail?)
  {
    CeilDivBounds(|enc|, sz);
    SlicesSmall(enc, sz, n, k);
    if n > 255 {
      FrontIsPrefix(enc, sz, n, k);
      FrontFails(children, Offset(sz, k));
    }
  }

  /** What Split leaves when it makes more parts than it can count, but can send two or more. */
  lemma WrappedReady(p: Proto, b: Option<Field>) returns (s: Proto, core: seq<Field>, slices: seq<seq<Byte>>)
    requires Sender(p) && Splits(p, b) && PartCount(p, b) <= HDR_PART && PartCount(p, b) % 0x100 >= 2
    ensures |EncodedForSplit(p, b).bytes| < TWO_31 && Split(p, b, true) == Outcome(s, 0)
    ensures |slices| == PartCount(p, b) % 0x100 && Ready(s, core, PartCount(p, b), None, slices)
    ensures AllSmall(slices)
    ensures PartCount(p, b) > 255 ==> Message(slices) && DecodeField(Concat(slices)).FFail?
  {
    FewPartsSmall(p, b);
    var e, sz, n;
    s, core, e, sz, n := SplitHeaderExactly(p, b);
    SplitCorePlain(p, b);
    SplitIsCut(p, b, e, sz, n);
    var children := EncodedChildren(p, b, e);
    slices := KeptShipment(s, core, children, e.bytes, sz, n);
  }

  lemma KeptShipment(s: Proto, core: seq<Field>, children: seq<Field>, enc: seq<Byte>, sz: nat, n: nat)
      returns (slices: seq<seq<Byte>>)
    requires enc == EncodeTree(children) && 0 < sz < DEFAULT_MAX && sz < |enc| < TWO_31
    requires n == CeilDiv(|enc|, sz) && 2 <= n <= HDR_PART && n % 0x100 >= 2 && Offset(sz, n - 1) <= |enc|
    requires Plain(core) && Leaves(s, core, enc, sz, n) && s.retcode == 0 && PartsIn(s.tree.value, enc, sz, n)
    ensures |slices| == n % 0x100 && Ready(s, core, n, None, slices)
    ensures AllSmall(slices)
    ensures n > 255 ==> Message(slices) && DecodeField(Concat(slices)).FFail?
  {
    var k := n % 0x100;
    KeptReady(s, core, enc, sz, n, k);
    KeptSlices(children, enc, sz, n, k);
    slices := Slices(enc, sz, n, k);
  }

  lemma EncodedChildren(p: Proto, b: Option<Field>, e: Encoded) returns (children: seq<Field>)
    requires Sender(p) && Splits(p, b) && e == EncodedForSplit(p, b)
    ensures e.bytes == EncodeTree(children)
  {
    EncodedIsTree(p, b);
    children := if b.None? then Stripped(p).tree.value else [Header(e.proto.tree.value), b.value];
  }

  /**
   More than 255 parts are never reassembled, when two or more can be sent at all:
   whatever is encoded before each, and in whatever order and however often they
   are delivered, the receiver is never complete.
   */
  lemma WrappedNeverCompletes(p: Proto, b: Option<Field>, hist: seq<seq<Call>>, ds: seq<nat>, mem: seq<bool>)
      returns (s: Proto)
    requires Sender(p) && Splits(p, b) && 255 < PartCount(p, b) <= HDR_PART
    requires 2 <= |hist| == PartCount(p, b) % 0x100 && Indices(ds, |hist|) && |mem| == |ds|
    ensures |EncodedForSplit(p, b).bytes| < TWO_31 && Split(p, b, true) == Outcome(s, 0) && Sound(s)
    ensures !IsComplete(Receive(Invalid(), OverTheWire(s, hist), ds, mem))
  {
    var core, slices;
    s, core, slices := WrappedReady(p, b);
    PartsArrive(s, core, PartCount(p, b), slices, hist);
    NeverCompletes(OverTheWire(s, hist), slices, ds, mem);
  }

  // ---------- one part is left ----------

  /** A sender that counts one part takes its first slice for a body. */
  ghost predicate CountsOne(s: Proto, core: seq<Field>, n: U64, d: seq<Byte>) {
    && s.total == 1 == n % 0x100 && s.retcode == 0 && Plain(core) && 0 < |d| < DEFAULT_MAX
    && s.tree.Some? && Find(s.tree.value, HDR) == Some(Fold(HDR, Current(core, n, None)))
    && Find(s.tree.value, PART) == Some(Field(PART, Str(d)))
  }

  lemma OneHeader(s: Proto, core: seq<Field>, n: U64, d: seq<Byte>)
    requires CountsOne(s, core, n, d)
    ensures ClearReturn(s, Fold(HDR, Current(core, n, None))) == Fold(HDR, Current(Cleared(s, core), n, None))
  {
    CurrentEncodable(core, n, None);
    ClearedPlain(s, core);
    CurrentEncodable(Cleared(s, core), n, None);
    RemoveAllAppend(core, [CountField(n)], ERR);
    KeepsOne(CountField(n), ERR);
    RefoldCanonical(Current(core, n, None), Current(Cleared(s, core), n, None));
  }

  /** The header with the count alone, as the receiver reads it. */
  lemma CountReads(core: seq<Field>, n: U64)
    requires Plain(core)
    ensures var fs := core + [CountField(n)];
            && AllEncodable(fs) && RetCode(fs) == 0 && IntChild(fs, TOTAL_COUNT) == n
            && |EncodeFields(fs)| < DEFAULT_MAX + 24
  {
    FindAbsent(core, TOTAL_COUNT);
    FindSnoc(core, CountField(n), TOTAL_COUNT);
    FindSnoc(core, CountField(n), RET);
    EncodeConcat(core, [CountField(n)]);
    EncodeOne(CountField(n));
    Varint.LenU64(n);
    LenSteps(16032);
  }

  /** EncodePart(0) then sends the first slice as a body, and the receiver takes that for a complete message. */
  lemma FragmentPasses(s: Proto, core: seq<Field>, n: U64, d: seq<Byte>)
    requires CountsOne(s, core, n, d)
    ensures var r := Decode(EncodePart(s, 0, true).bytes);
            IsComplete(r) && r.tree.Some? && Find(r.tree.value, BDY) == Some(Field(BDY, Str(d)))
  {
    OneHeader(s, core, n, d);
    var fs, f := Current(Cleared(s, core), n, None), Field(BDY, Str(d));
    assert EncodePart(s, 0, true).bytes == EncodeTree([Fold(HDR, fs), f]);
    ClearedPlain(s, core);
    CountReads(Cleared(s, core), n);
    PairDecodes(fs, f);
    FindInPair(Fold(HDR, fs), f);
  }

  /**
   The first packet of a split message decodes as complete, carrying a fragment,
   if and only if the number of parts is one more than a multiple of 256.
   */
  lemma FirstPacketExactly(p: Proto, b: Option<Field>) returns (s: Proto)
    requires Sender(p) && Splits(p, b) && PartCount(p, b) <= HDR_PART
    ensures |EncodedForSplit(p, b).bytes| < TWO_31 && Split(p, b, true) == Outcome(s, 0) && Sound(s)
    ensures IsComplete(Decode(EncodePart(s, 0, true).bytes)) <==> PartCount(p, b) % 0x100 == 1
    ensures PartCount(p, b) % 0x100 == 1 ==>
              var r := Decode(EncodePart(s, 0, true).bytes);
              && PartSize(EncodedForSplit(p, b).proto) <= |EncodedForSplit(p, b).bytes|
              && Find(r.tree.value, BDY) ==
                 Some(Field(BDY, Str(EncodedForSplit(p, b).bytes[..PartSize(EncodedForSplit(p, b).proto)])))
  {
    FewPartsSmall(p, b);
    var k := PartCount(p, b) % 0x100;
    if k >= 2 {
      var core, slices;
      s, core, slices := WrappedReady(p, b);
      FirstOfMany(s, core, PartCount(p, b), slices);
    } else {
      s := FirstOfFew(p, b);
    }
  }

  lemma FirstOfMany(s: Proto, core: seq<Field>, n: U64, slices: seq<seq<Byte>>)
    requires Ready(s, core, n, None, slices) && |slices[0]| < DEFAULT_MAX
    ensures !IsComplete(Decode(EncodePart(s, 0, true).bytes))
  {
    PartIndependentOfHistory(s, core, n, slices, [], 0);
    ClearedPlain(s, core);
    PartPacketDecodes(Cleared(s, core), slices, n, 0);
  }

  lemma FirstOfFew(p: Proto, b: Option<Field>) returns (s: Proto)
    requires Sender(p) && Splits(p, b) && PartCount(p, b) <= HDR_PART && PartCount(p, b) % 0x100 < 2
    ensures |EncodedForSplit(p, b).bytes| < TWO_31 && Split(p, b, true) == Outcome(s, 0) && Sound(s)
    ensures IsComplete(Decode(EncodePart(s, 0, true).bytes)) <==> PartCount(p, b) % 0x100 == 1
    ensures PartCount(p, b) % 0x100 == 1 ==>
              var r := Decode(EncodePart(s, 0, true).bytes);
              && PartSize(EncodedForSplit(p, b).proto) <= |EncodedForSplit(p, b).bytes|
              && Find(r.tree.value, BDY) ==
                 Some(Field(BDY, Str(EncodedForSplit(p, b).bytes[..PartSize(EncodedForSplit(p, b).proto)])))
  {
    FewPartsSmall(p, b);
    var core, e, sz, n;
    s, core, e, sz, n := SplitHeaderExactly(p, b);
    if n % 0x100 == 1 {
      SplitCorePlain(p, b);
      FirstSlice(e.bytes, sz, n);
      assert Find(s.tree.value, PART + 0) == Some(Field(PART, Str(e.bytes[..sz])));
      FragmentPasses(s, core, n, e.bytes[..sz]);
    } else {
      EncodePartProto(s, 0, true);
    }
  }

  lemma FirstSlice(enc: seq<Byte>, sz: nat, n: nat)
    requires 2 <= n && Offset(sz, n - 1) <= |enc|
    ensures sz <= |enc| && Slice(enc, sz, n, 0) == enc[..sz]
  {
    OffsetMono(sz, 1, n - 1);
    assert Offset(sz, 1) == sz;
  }
}
