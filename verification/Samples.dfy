/** Senders for which Split does what the theorems of module EndToEnd speak of. */
module Samples {
  import opened Bytes
  import opened Wire
  import opened Packet
  import opened Fields
  import opened Splitting
  import opened Transfer
  import opened EndToEnd
  import opened WrappedCount
  import opened Unsplit
  import Varint

  /** A request with an empty header and one body; a limit of 0 stands for the default of 64000. */
  function Sample(data: seq<Byte>, limit: U16): Proto {
    Proto(Some([Field(HDR, Str([])), Field(BDY, Str(data))]), true, 0, false, true, limit, 0, 0)
  }

  lemma SampleHeader(data: seq<Byte>, limit: U16)
    ensures var p := Sample(data, limit);
            && Sender(p) && Header(p.tree.value) == Field(HDR, Str([])) && Expand(Header(p.tree.value)) == []
            && Stripped(p).tree == p.tree
            && |EncodeField(Header(p.tree.value))| == 4
  {
    MessageRoundTrip([]);
    assert EncodeFields([]) == [];
    KnownTags(0);
    var tree := Sample(data, limit).tree.value;
    assert WithHeader(tree, Field(HDR, Str([]))) == tree;
  }

  function SampleInner(n: nat): nat {
    7 + Varint.Len(n) + n
  }

  lemma SampleSize(data: seq<Byte>, limit: U16)
    ensures var inner := SampleInner(|data|);
            |EncodeTree(Sample(data, limit).tree.value)| == 3 + Varint.Len(inner) + inner
  {
    var h, b := Field(HDR, Str([])), Field(BDY, Str(data));
    KnownTags(0);
    assert Key(STRING, BDY) == 28010;
    LenSteps(28010);
    EncodeTwo(h, b);
    StringLength(h);
    StringLength(b);
    StringLength(Fold(PKG, [h, b]));
  }

  /** How the samples are cut: twenty bytes of the limit are not for contents. */
  lemma SampleParts(data: seq<Byte>, limit: U16, size: nat)
    requires |EncodeTree(Sample(data, limit).tree.value)| == size
    requires MaxSize(Sample(data, limit)) < size < TWO_31
    ensures var p := Sample(data, limit);
            && Sender(p) && Splits(p, None) && SplitCore(p, None) == []
            && EncodedForSplit(p, None).bytes == EncodeTree(p.tree.value)
            && Header(EncodedForSplit(p, None).proto.tree.value) == Field(HDR, Str([]))
            && PartSize(EncodedForSplit(p, None).proto) == MaxSize(p) - 20
            && PartCount(p, None) == (size + MaxSize(p) - 21) / (MaxSize(p) - 20)
  {
    SampleHeader(data, limit);
    CeilDivIsQuotient(size, MaxSize(Sample(data, limit)) - 20);
  }

  /** 300 bytes under a limit of 128 make three parts: the theorems above are about something. */
  lemma SampleSplits(data: seq<Byte>)
    requires |data| == 300
    ensures var p := Sample(data, 128);
            Sender(p) && Splits(p, None) && PartCount(p, None) == 3 && AllEncodable(Intended(p, None))
  {
    SampleHeader(data, 128);
    SampleSize(data, 128);
    LenSteps(300);
    LenSteps(309);
    SampleParts(data, 128, 314);
  }

  /** 30000 bytes under that limit make 278 parts. */
  lemma ManyParts(data: seq<Byte>)
    requires |data| == 30000
    ensures var p := Sample(data, 128);
            Sender(p) && Splits(p, None) && PartCount(p, None) == 278 && |EncodedForSplit(p, None).bytes| < TWO_31
  {
    SampleSize(data, 128);
    LenSteps(30000);
    LenSteps(30010);
    SampleParts(data, 128, 30016);
  }

  lemma LastOfMany(data: seq<Byte>) returns (last: Int32)
    requires |data| == 30000
    ensures var p := Sample(data, 128);
            && Sender(p) && Splits(p, None) && |EncodedForSplit(p, None).bytes| < TWO_31
            && last == PartCount(p, None) - 1 >= 255 && (last + 1) % 0x100 == 22
  {
    ManyParts(data);
    last := 277;
  }

  /** The count is kept as 22, and the last part cannot be encoded. */
  lemma TooManyParts(data: seq<Byte>) returns (s: Proto, last: Int32)
    requires |data| == 30000
    ensures var p := Sample(data, 128);
            && Sender(p) && Splits(p, None) && last == PartCount(p, None) - 1
            && |EncodedForSplit(p, None).bytes| < TWO_31 && Split(p, None, true) == Outcome(s, 0)
    ensures Sound(s) && s.total == 22 && EncodePart(s, last, true).code == -1
  {
    last := LastOfMany(data);
    s := CountWraps(Sample(data, 128), last);
  }

  lemma CountWraps(p: Proto, last: Int32) returns (s: Proto)
    requires Sender(p) && Splits(p, None) && |EncodedForSplit(p, None).bytes| < TWO_31
    requires last == PartCount(p, None) - 1 >= 255
    ensures Split(p, None, true) == Outcome(s, 0) && Sound(s) && s.total == (last + 1) % 0x100
    ensures EncodePart(s, last, true).code == -1
  {
    var core, e, sz, n;
    s, core, e, sz, n := SplitHeaderExactly(p, None);
    EncodePartProto(s, last, true);
  }

  /** 27660 bytes under that limit make 257 parts. */
  lemma OneTooMany(data: seq<Byte>)
    requires |data| == 27660
    ensures var p := Sample(data, 128);
            Sender(p) && Splits(p, None) && PartCount(p, None) == 257
  {
    SampleSize(data, 128);
    LenSteps(27660);
    LenSteps(27670);
    SampleParts(data, 128, 27676);
  }

  lemma CountsAsOne(data: seq<Byte>)
    requires |data| == 27660
    ensures var p := Sample(data, 128);
            Sender(p) && Splits(p, None) && PartCount(p, None) <= HDR_PART && PartCount(p, None) % 0x100 == 1
  {
    OneTooMany(data);
  }

  /** And the receiver takes the first of them for a complete message. */
  lemma FragmentTaken(data: seq<Byte>) returns (s: Proto)
    requires |data| == 27660
    ensures var p := Sample(data, 128);
            && Sender(p) && Splits(p, None)
            && |EncodedForSplit(p, None).bytes| < TWO_31 && Split(p, None, true) == Outcome(s, 0)
    ensures Sound(s) && IsComplete(Decode(EncodePart(s, 0, true).bytes))
  {
    CountsAsOne(data);
    s := FirstPacketExactly(Sample(data, 128), None);
  }

  lemma FarTooMany(data: seq<Byte>)
    requires |data| == 270000
    ensures var p := Sample(data, 128);
            && Sender(p) && Splits(p, None) && PartCount(p, None) == 2501 && SplitCore(p, None) == []
            && |EncodedForSplit(p, None).bytes| < TWO_31 && PartSize(EncodedForSplit(p, None).proto) == 108
  {
    SampleSize(data, 128);
    LenSteps(270000);
    LenSteps(270010);
    SampleParts(data, 128, 270016);
  }

  /** 270000 bytes under that limit make 2501 parts, and the tree loses its header to one of them. */
  lemma HeaderLost(data: seq<Byte>) returns (s: Proto)
    requires |data| == 270000
    ensures var p := Sample(data, 128);
            && Sender(p) && Splits(p, None) && PartCount(p, None) == 2501
            && |EncodedForSplit(p, None).bytes| < TWO_31 && Split(p, None, true) == Outcome(s, 0)
    ensures s.tree.Some? && Find(s.tree.value, HDR).Some?
    ensures Find(s.tree.value, HDR) != Some(Fold(HDR, [CountField(2501)]))
  {
    FarTooMany(data);
    s := HeaderReplaced(Sample(data, 128), 2501);
  }

  /** The slice in the header's place is longer than the numbered header of a sender without fields. */
  lemma HeaderReplaced(p: Proto, n: nat) returns (s: Proto)
    requires Sender(p) && Splits(p, None) && |EncodedForSplit(p, None).bytes| < TWO_31
    requires PartCount(p, None) == n > HDR_PART + 1 && n < TWO_31 && SplitCore(p, None) == []
    requires PartSize(EncodedForSplit(p, None).proto) > 20
    ensures Split(p, None, true) == Outcome(s, 0)
    ensures s.tree.Some? && Find(s.tree.value, HDR).Some?
    ensures Find(s.tree.value, HDR) != Some(Fold(HDR, [CountField(n)]))
  {
    var core, e, sz, n';
    s, core, e, sz, n' := SplitHeaderExactly(p, None);
    SplitIsCut(p, None, e, sz, n);
    SliceInstead(s, e.bytes, sz, n);
  }

  lemma SliceInstead(s: Proto, enc: seq<Byte>, sz: nat, n: nat)
    requires 20 < sz < |enc| && HDR_PART + 1 < n == CeilDiv(|enc|, sz) && n < TWO_31 && Offset(sz, n - 1) <= |enc|
    requires Leaves(s, [], enc, sz, n)
    ensures Find(s.tree.value, HDR).Some? && Find(s.tree.value, HDR) != Some(Fold(HDR, [CountField(n)]))
  {
    CeilDivBounds(|enc|, sz);
    SliceLength(enc, sz, n, HDR_PART);
    EncodeOne(CountField(n));
    LenSteps(16032);
    Varint.LenU64(n);
  }

  /** 100000 bytes under the default limit of 64000 make two parts, the first a packet of 64001 bytes. */
  lemma OversizedPacket(data: seq<Byte>) returns (g: Shipment)
    requires |data| == 100000
    ensures Shipped(Sample(data, 0), None, g) && g.max == 64000 && |g.slices| == 2
    ensures |EncodePart(g.sender, 0, true).bytes| == 64001 && !SentFits(g, 0)
  {
    SampleSize(data, 0);
    LenSteps(100000);
    LenSteps(100010);
    SampleParts(data, 0, 100016);
    var p := Sample(data, 0);
    g := SplitShips(p, None);
    FullEmptyPart(g);
  }

  /** A full part under an empty header and the default limit. */
  lemma FullEmptyPart(g: Shipment)
    requires Ships(g) && g.max == 64000 && |g.slices| == 2 && g.core == [] && g.data == 0
    ensures |EncodePart(g.sender, 0, true).bytes| == 64001 && !SentFits(g, 0)
  {
    SentPart(g, [], 0);
    SentPartFits(g, [], 0);
    var core := Cleared(g.sender, g.core);
    assert core == [] && EncodeFields(core) == [];
    assert |g.slices[0]| == g.sz == 63980;
    PartPacketLength(core, g.slices, 0);
    LenSteps(63980);
    LenSteps(63995);
  }

  /** A request that was kept whole with the body x before, and is now to be sent with the body in its tree. */
  function Reused(data: seq<Byte>, x: seq<Byte>): Proto {
    Proto(Some([Field(HDR, Str([])), Field(BDY, Str(data)), Field(PART, Str(x))]), true, 0, false, false, 0, 1, 0)
  }

  lemma ReusedHeader(data: seq<Byte>, x: seq<Byte>)
    ensures var p := Reused(data, x);
            && Sender(p) && Stripped(p).tree == p.tree && Find(p.tree.value, PART) == Some(Field(PART, Str(x)))
            && Stale(p) == [Field(HDR, Str([])), Field(BDY, Str(x))]
  {
    MessageRoundTrip([]);
    assert EncodeFields([]) == [];
    var tree := Reused(data, x).tree.value;
    assert WithHeader(tree, Field(HDR, Str([]))) == tree;
    var f := Field(PART, Str(x));
    FindSnoc([Field(HDR, Str([])), Field(BDY, Str(data))], f, PART);
    assert tree == [Field(HDR, Str([])), Field(BDY, Str(data))] + [f];
    assert Without([Field(HDR, Str([])), Field(BDY, Str(data))], PART);
    FindAbsent([Field(HDR, Str([])), Field(BDY, Str(data))], PART);
  }

  /** It is sent with the old body, whatever the new one is. */
  lemma OldBodySent(data: seq<Byte>, x: seq<Byte>)
    requires |EncodeTree(Reused(data, x).tree.value)| < TWO_31
    ensures var p := Reused(data, x);
            && Sender(p) && |EncodedForSplit(p, None).bytes| < TWO_31 && Split(p, None, true).code == 0
            && Sound(Split(p, None, true).proto)
            && EncodePart(Split(p, None, true).proto, 0, true).bytes ==
               EncodeTree([Field(HDR, Str([])), Field(BDY, Str(x))])
  {
    ReusedHeader(data, x);
    KeptAsItIs(Reused(data, x));
    StaleSent(Reused(data, x));
  }
}
