/**
 Splitting, sending and reassembling put together: any packet that Split cuts
 into 2 to 255 parts is rebuilt exactly, in whatever order the parts travel.
 */
module EndToEnd {
  import opened Bytes
  import opened Wire
  import opened Packet
  import opened Fields
  import opened Reassembly
  import opened Splitting
  import opened Transfer
  import Varint

  /** A protocol that can send: a message header with fields that survive encoding, and its return code in step. */
  predicate Sender(p: Proto) {
    && p.tree.Some? && Find(p.tree.value, HDR).Some?
    && var h := Find(p.tree.value, HDR).value;
       && h.val.Str? && |h.val.data| < TWO_31
       && AllEncodable(Expand(h)) && p.retcode == RetCode(Expand(h))
  }

  /** The header after Split has encoded the packet, as fields. */
  function SplitCore(p: Proto, b: Option<Field>): seq<Field>
    requires Sender(p)
  {
    Expand(Header(EncodedForSplit(p, b).proto.tree.value))
  }

  // ---------- the header along the way ----------

  /** An expanded header is no longer than its bytes. */
  lemma ExpandShrinks(h: Field)
    requires h.val.Str? && |h.val.data| < TWO_31 && AllEncodable(Expand(h))
    ensures |EncodeFields(Expand(h))| <= |h.val.data|
  {
    if ReadFields(h.val.data).eom { NormaliseMessage(h.val.data); }
  }

  /** Folding fewer bytes back keeps a header within its size. */
  predicate Smaller(h: Field, g: Field) {
    && g.tag == h.tag && h.val.Str? && g.val.Str? && AllEncodable(Expand(g))
    && |EncodeFields(Expand(g))| <= |g.val.data|
  }

  lemma RefoldSmaller(h: Field, fs: seq<Field>)
    requires h.val.Str? && |h.val.data| < TWO_31 && AllEncodable(Expand(h)) && AllEncodable(fs)
    ensures Smaller(h, Refold(h, fs)) && Expand(Refold(h, fs)) == fs
  {
    RefoldExpands(h, fs);
    ExpandShrinks(h);
    ExpandFold(h.tag, fs);
  }

  lemma StrippedHeader(p: Proto)
    requires Sender(p)
    ensures var h0 := Header(p.tree.value);
            var h := WithoutSplitFields(h0);
            && Smaller(h0, h) && |h.val.data| < TWO_31
            && Without(Expand(h), TOTAL_COUNT) && Without(Expand(h), CURR_INDEX)
            && RetCode(Expand(h)) == p.retcode
            && Find(Stripped(p).tree.value, HDR) == Some(h)
  {
    var h0 := Header(p.tree.value);
    var fs := Expand(h0);
    var a := RemoveAll(fs, TOTAL_COUNT);
    var c := RemoveAll(a, CURR_INDEX);
    RemoveAllFacts(fs, TOTAL_COUNT);
    RemoveAllFacts(a, CURR_INDEX);
    FindAfterRemoveAll(fs, TOTAL_COUNT, RET);
    FindAfterRemoveAll(a, CURR_INDEX, RET);
    RefoldSmaller(h0, c);
    ExpandShrinks(h0);
    FindWithHeader(p.tree.value, WithoutSplitFields(h0), HDR);
  }

  /** Clearing the return code and message leaves a header that reads as no error. */
  lemma ClearedHeader(p: Proto, h: Field)
    requires h.val.Str? && |h.val.data| < TWO_31 && AllEncodable(Expand(h)) && p.retcode == RetCode(Expand(h))
    requires Without(Expand(h), TOTAL_COUNT) && Without(Expand(h), CURR_INDEX)
    ensures var g := ClearReturn(p, h);
            && Smaller(h, g) && RetCode(Expand(g)) == 0
            && Without(Expand(g), TOTAL_COUNT) && Without(Expand(g), CURR_INDEX)
  {
    var fs := Expand(h);
    var a := if p.retcode != 0 then SetMetaInt(fs, RET, 0) else fs;
    SetMetaFacts(fs, RET, 0);
    RemoveAllFacts(a, ERR);
    FindAfterRemoveAll(a, ERR, RET);
    RefoldSmaller(h, if p.errmsg then RemoveAll(a, ERR) else a);
  }

  /**
   A header whose code and message the protocol object holds is cleared of both,
   and no other field of it reads differently.
   */
  lemma ClearReturnExactly(p: Proto, h: Field, t: U32)
    requires h.val.Str? && |h.val.data| < TWO_31 && AllEncodable(Expand(h))
    requires p.retcode == RetCode(Expand(h)) && p.errmsg == HasError(Expand(h)) && t != RET && t != ERR
    ensures var fs, gs := Expand(h), Expand(ClearReturn(p, h));
            && RetCode(gs) == 0 && !HasError(gs)
            && Find(gs, t) == Find(fs, t) && FindMeta(gs, t) == FindMeta(fs, t)
  {
    var fs := Expand(h);
    var a := if p.retcode != 0 then SetMetaInt(fs, RET, 0) else fs;
    SetMetaFacts(fs, RET, 0);
    SetMetaKeeps(fs, RET, 0, t);
    SetMetaKeeps(fs, RET, 0, ERR);
    RemoveAllFacts(a, ERR);
    FindAbsent(RemoveAll(a, ERR), ERR);
    FindAfterRemoveAll(a, ERR, t);
    FindAfterRemoveAll(a, ERR, RET);
    RefoldSmaller(h, if p.errmsg then RemoveAll(a, ERR) else a);
  }

  /** A packet with the header alone is not larger than the header by the allowance of Split. */
  lemma ErrorPacketSmall(h: Field)
    requires |EncodeField(h)| < TWO_31
    ensures |EncodeTree([h])| < |EncodeField(h)| + 16
  {
    EncodeOne(h);
    StringLength(Fold(PKG, [h]));
    KnownTags(0);
    Varint.LenU64(|EncodeField(h)|);
  }

  /** The header Split leaves: no split fields, encodable, no larger than its bytes. */
  lemma EncodedHeader(p: Proto, b: Option<Field>)
    requires Sender(p)
    ensures var e := EncodedForSplit(p, b);
            var h := Header(e.proto.tree.value);
            && h.tag == HDR && h.val.Str? && AllEncodable(Expand(h))
            && |EncodeFields(Expand(h))| <= |h.val.data|
            && Without(Expand(h), TOTAL_COUNT) && Without(Expand(h), CURR_INDEX)
            && e.proto.retcode == RetCode(Expand(h))
            && (b.Some? ==> e.proto.retcode == 0)
  {
    StrippedHeader(p);
    var p1 := Stripped(p);
    var h1 := Header(p1.tree.value);
    if b.Some? {
      ClearedHeader(p1, h1);
      FindWithHeader(p1.tree.value, ClearReturn(p1, h1), HDR);
    }
  }

  // ---------- Split ----------

  function StrippedSize(p: Proto, b: Option<Field>): nat
    requires Sender(p)
  {
    FindWithHeader(p.tree.value, WithoutSplitFields(Header(p.tree.value)), HDR);
    EvaluatedSize(Stripped(p), b)
  }

  /** The packet may be split and is over the limit. */
  predicate TooLarge(p: Proto, b: Option<Field>)
    requires Sender(p)
  {
    p.allowSplit && (b.Some? || p.body) && |EncodedForSplit(p, b).bytes| > MaxSize(p)
  }

  /** The length of a packet with two children, over that of the children. */
  lemma PairPacketLength(h: Field, b: Field)
    requires |EncodeTree([h, b])| < TWO_31
    ensures |EncodeTree([h, b])| <= |EncodeField(h)| + |EncodeField(b)| + 13
  {
    EncodeTwo(h, b);
    StringLength(Fold(PKG, [h, b]));
    KnownTags(0);
    Varint.LenU64(|EncodeField(h)| + |EncodeField(b)|);
  }

  lemma {:induction false} FieldWithin(fs: seq<Field>, tag: U32)
    requires Find(fs, tag).Some?
    ensures |EncodeField(Find(fs, tag).value)| <= |EncodeFields(fs)|
  {
    if fs[0].tag != tag { FieldWithin(fs[1..], tag); }
  }

  /** Clearing the return code and message makes a header at most 16 bytes larger. */
  lemma ClearedGrowth(p: Proto, h: Field)
    requires h.val.Str? && |h.val.data| < TWO_31 && AllEncodable(Expand(h))
    ensures |EncodeField(ClearReturn(p, h))| <= |EncodeField(h)| + 16
  {
    var fs := Expand(h);
    var a := if p.retcode != 0 then SetMetaInt(fs, RET, 0) else fs;
    SetMetaFacts(fs, RET, 0);
    RemoveAllFacts(a, ERR);
    ExpandShrinks(h);
    var g := ClearReturn(p, h);
    if g != h {
      StringLength(h);
      StringLength(g);
      LenGrows(|h.val.data|, |h.val.data| + 15);
      Varint.LenMonotone(|g.val.data|, |h.val.data| + 15);
    }
  }

  /** The size that Split evaluates, with its allowance of 32 bytes, is never below that of the packet. */
  lemma EvaluationSafe(p: Proto, b: Option<Field>)
    requires Sender(p) && |EncodedForSplit(p, b).bytes| < TWO_31
    ensures |EncodedForSplit(p, b).bytes| <= StrippedSize(p, b)
  {
    StrippedHeader(p);
    var p1 := Stripped(p);
    var h1 := Header(p1.tree.value);
    if b.Some? {
      ClearedGrowth(p1, h1);
      PairPacketLength(ClearReturn(p1, h1), b.value);
    } else if p.retcode != 0 {
      FieldWithin(p1.tree.value, HDR);
      StringLength(Fold(PKG, [h1]));
      EncodeOne(h1);
      ErrorPacketSmall(h1);
    }
  }

  /** Split gets as far as cutting the packet. */
  predicate Splits(p: Proto, b: Option<Field>)
    requires Sender(p)
  {
    var e := EncodedForSplit(p, b);
    TooLarge(p, b) && PartSize(e.proto) > 0
  }

  function PartCount(p: Proto, b: Option<Field>): nat
    requires Sender(p)
  {
    var e := EncodedForSplit(p, b);
    Parts(e.proto, e.bytes)
  }

  /** The tree after the Split loop: the header it had, and every part. */
  lemma PartsInserted(tree: seq<Field>, enc: seq<Byte>, sz: nat)
    requires 0 < sz < |enc| && CeilDiv(|enc|, sz) <= 255
    ensures var n := CeilDiv(|enc|, sz);
            && 2 <= n && Offset(sz, n - 1) <= |enc|
            && var done := InsertParts(tree, enc, sz, n, 0);
               && Find(done, HDR) == Find(tree, HDR)
               && forall i :: 0 <= i < n ==> Find(done, PART + i) == Some(PartField(AllSlices(enc, sz), i))
  {
    CeilDivBounds(|enc|, sz);
    var n := CeilDiv(|enc|, sz);
    InsertPartsKeeps(tree, enc, sz, n, 0, HDR);
    forall i | 0 <= i < n
      ensures Find(InsertParts(tree, enc, sz, n, 0), PART + i) == Some(PartField(AllSlices(enc, sz), i))
    {
      InsertPartsFinds(tree, enc, sz, n, 0, i);
      SlicesAt(enc, sz, n, n, i);
    }
  }

  /** The header Split stores: its fields and the number of parts. */
  lemma CountedHeader(h: Field, n: U64)
    requires h.tag == HDR && Without(Expand(h), TOTAL_COUNT)
    ensures SetChildInt(Expand(h), TOTAL_COUNT, n) == Some(Expand(h) + [CountField(n)])
    ensures Refold(h, Expand(h) + [CountField(n)]) == Fold(HDR, Current(Expand(h), n, None))
  {
    SetChildAppends(Expand(h), TOTAL_COUNT, n);
  }

  /** The tree with the numbered header, before the parts go in. */
  function Numbered(tree: seq<Field>, core: seq<Field>, n: U64): seq<Field> {
    WithHeader(tree, Fold(HDR, Current(core, n, None)))
  }

  /** Cut, once the packet is too large and the header small enough. */
  lemma CutUnfolds(p: Proto, enc: seq<Byte>, sz: nat, n: nat, h: Field, core: seq<Field>)
    requires p.tree.Some? && Find(p.tree.value, HDR) == Some(h) && core == Expand(h)
    requires 0 < n < TWO_31 && Offset(sz, n - 1) <= |enc| && h.val.Str? && Without(core, TOTAL_COUNT)
    ensures var tree := InsertParts(Numbered(p.tree.value, core, n), enc, sz, n, 0);
            CutParts(p, enc, sz, n) == Outcome(p.(total := n % 0x100, tree := Some(tree)), 0)
  {
    CountedHeader(h, n);
  }

  /** The tree and count that cutting leaves, for up to 255 parts. */
  lemma CutMakesReady(p: Proto, enc: seq<Byte>, sz: nat, n: nat, h: Field, core: seq<Field>)
    requires p.tree.Some? && Find(p.tree.value, HDR) == Some(h) && core == Expand(h) && 0 < sz < |enc| < TWO_31
    requires n == CeilDiv(|enc|, sz) <= 255 && p.retcode == 0 && h.val.Str? && Plain(core)
    ensures 0 < n && Offset(sz, n - 1) <= |enc|
    ensures var o := CutParts(p, enc, sz, n);
            o.code == 0 && Ready(o.proto, core, n, None, AllSlices(enc, sz))
  {
    PartNumbers(|enc|, sz, n);
    CutUnfolds(p, enc, sz, n, h, core);
    NumberedTree(p.tree.value, enc, sz, n, core);
    InsertedReady(p, InsertParts(Numbered(p.tree.value, core, n), enc, sz, n, 0), core, AllSlices(enc, sz));
  }

  lemma NumberedTree(tree: seq<Field>, enc: seq<Byte>, sz: nat, n: nat, core: seq<Field>)
    requires Find(tree, HDR).Some? && 0 < sz < |enc| && n == CeilDiv(|enc|, sz) <= 255
    requires 2 <= n && Offset(sz, n - 1) <= |enc|
    ensures var done := InsertParts(Numbered(tree, core, n), enc, sz, n, 0);
            && Find(done, HDR) == Some(Fold(HDR, Current(core, n, None)))
            && forall i :: 0 <= i < n ==> Find(done, PART + i) == Some(PartField(AllSlices(enc, sz), i))
  {
    PartsInserted(Numbered(tree, core, n), enc, sz);
    FindWithHeader(tree, Fold(HDR, Current(core, n, None)), HDR);
  }

  lemma InsertedReady(p: Proto, tree: seq<Field>, core: seq<Field>, slices: seq<seq<Byte>>)
    requires 2 <= |slices| <= 255 && p.retcode == 0 && Plain(core)
    requires Find(tree, HDR) == Some(Fold(HDR, Current(core, |slices|, None)))
    requires forall i :: 0 <= i < |slices| ==> Find(tree, PART + i) == Some(PartField(slices, i))
    ensures Ready(p.(total := |slices| % 0x100, tree := Some(tree)), core, |slices|, None, slices)
  {}

  /** The header fields that go into every part are plain. */
  lemma SplitCorePlain(p: Proto, b: Option<Field>)
    requires Sender(p) && Splits(p, b)
    ensures var e := EncodedForSplit(p, b);
            e.proto.retcode == 0 && Plain(SplitCore(p, b)) && Header(e.proto.tree.value).val.Str?
  {
    EncodedHeader(p, b);
    var e := EncodedForSplit(p, b);
    var h := Header(e.proto.tree.value);
    StringLength(h);
    if e.proto.retcode != 0 {
      ErrorPacketSmall(h);
    }
  }

  /** 2495 parts cannot hold 2 GiB. */
  lemma FewPartsSmall(p: Proto, b: Option<Field>)
    requires Sender(p) && Splits(p, b) && PartCount(p, b) <= HDR_PART
    ensures |EncodedForSplit(p, b).bytes| < TWO_31
  {
    var e := EncodedForSplit(p, b);
    CeilDivBounds(|e.bytes|, PartSize(e.proto));
    OffsetMono(PartSize(e.proto), PartCount(p, b), HDR_PART);
    OffsetIsProduct(PartSize(e.proto), HDR_PART);
  }

  lemma PartNumbers(len: nat, sz: nat, n: nat)
    requires 0 < sz < len < TWO_31 && n == CeilDiv(len, sz)
    ensures 2 <= n < TWO_31 && Offset(sz, n - 1) <= len
  {
    CeilDivBounds(len, sz);
    CeilDivAtMost(len, sz);
  }

  /** Cut, for a packet over the limit and a header that leaves room. */
  lemma CutIs(p: Proto, b: Option<Field>, enc: seq<Byte>, sz: nat, n: nat)
    requires p.tree.Some? && Find(p.tree.value, HDR).Some?
    requires MaxSize(p) < |enc| < TWO_31 && 0 < sz == PartSize(p) && n == CeilDiv(|enc|, sz)
    ensures 2 <= n < TWO_31 && sz < |enc| && Offset(sz, n - 1) <= |enc|
    ensures Cut(p, b, enc) == CutParts(p, enc, sz, n)
  {
    PartNumbers(|enc|, sz, n);
  }

  lemma SplitUnfolds(p: Proto, b: Option<Field>)
    requires Sender(p) && Splits(p, b) && |EncodedForSplit(p, b).bytes| < TWO_31
    ensures var e := EncodedForSplit(p, b); Split(p, b, true) == Cut(e.proto, b, e.bytes)
  {
    EvaluationSafe(p, b);
  }

  /** Split, once it gets as far as cutting. */
  lemma SplitIsCut(p: Proto, b: Option<Field>, e: Encoded, sz: nat, n: nat)
    requires Sender(p) && Splits(p, b) && e == EncodedForSplit(p, b) && |e.bytes| < TWO_31
    requires sz == PartSize(e.proto) && n == PartCount(p, b)
    ensures 2 <= n < TWO_31 && n == CeilDiv(|e.bytes|, sz) && 0 < sz < |e.bytes| && Offset(sz, n - 1) <= |e.bytes|
    ensures Split(p, b, true) == CutParts(e.proto, e.bytes, sz, n)
  {
    SplitUnfolds(p, b);
    CutIs(e.proto, b, e.bytes, sz, n);
  }

  /** What Split encodes is one field with the packet's tag. */
  lemma EncodedIsTree(p: Proto, b: Option<Field>)
    requires Sender(p) && Splits(p, b)
    ensures var e := EncodedForSplit(p, b);
            e.bytes == EncodeTree(if b.None? then Stripped(p).tree.value else [Header(e.proto.tree.value), b.value])
  {
    SplitCorePlain(p, b);
    if b.Some? {
      var p1 := Stripped(p);
      FindWithHeader(p.tree.value, WithoutSplitFields(Header(p.tree.value)), HDR);
      FindWithHeader(p1.tree.value, ClearReturn(p1, Header(p1.tree.value)), HDR);
    }
  }

  lemma EncodedStarts(children: seq<Field>)
    requires |EncodeTree(children)| < TWO_31
    ensures DecodeField(EncodeTree(children)).FOk?
  {
    var f := Fold(PKG, children);
    StringLength(f);
    FieldRoundTripExactly(f, []);
    assert EncodeField(f) + [] == EncodeField(f);
  }

  lemma EncodedDecodes(p: Proto, b: Option<Field>)
    requires Sender(p) && Splits(p, b) && |EncodedForSplit(p, b).bytes| < TWO_31
    ensures DecodeField(EncodedForSplit(p, b).bytes).FOk?
  {
    EncodedIsTree(p, b);
    var h := Header(EncodedForSplit(p, b).proto.tree.value);
    EncodedStarts(if b.None? then Stripped(p).tree.value else [h, b.value]);
  }

  // ---------- what Split ships ----------

  lemma SmallSlices(slices: seq<seq<Byte>>, sz: nat)
    requires 2 <= |slices| <= 255 && |Concat(slices)| < TWO_31
    requires forall i :: 0 <= i < |slices| ==> 0 < |slices[i]| <= sz
    ensures Message(slices)
  {}

  /**
   Every sender that Split cuts into at most 255 parts ships them: Split succeeds
   and leaves each slice under its part tag and the count in the header; the
   slices are not empty, all but the last have the size that the limit leaves,
   and together they are the encoded packet.
   */
  lemma SplitShips(p: Proto, b: Option<Field>) returns (g: Shipment)
    requires Sender(p) && Splits(p, b) && PartCount(p, b) <= 255
    ensures |EncodedForSplit(p, b).bytes| < TWO_31 && Split(p, b, true) == Outcome(g.sender, 0)
    ensures Ships(g) && |g.slices| == PartCount(p, b) && g.max == MaxSize(p)
    ensures Concat(g.slices) == EncodedForSplit(p, b).bytes && g.core == SplitCore(p, b)
    ensures var h := Header(EncodedForSplit(p, b).proto.tree.value); h.val.Str? && g.data == |h.val.data|
  {
    FewPartsSmall(p, b);
    var e, n := EncodedForSplit(p, b), PartCount(p, b);
    var h, sz := Header(e.proto.tree.value), PartSize(e.proto);
    SplitIsCut(p, b, e, sz, n);
    SplitCorePlain(p, b);
    EncodedHeader(p, b);
    EncodedDecodes(p, b);
    g := ShipmentOf(e.proto, e.bytes, h, sz, MaxSize(p));
  }

  /** The same from the encoded packet on. */
  lemma ShipmentOf(p: Proto, enc: seq<Byte>, h: Field, sz: nat, max: nat) returns (g: Shipment)
    requires p.tree.Some? && Find(p.tree.value, HDR) == Some(h) && p.retcode == 0
    requires h.tag == HDR && h.val.Str? && Plain(Expand(h)) && |EncodeFields(Expand(h))| <= |h.val.data|
    requires 0 < sz < |enc| < TWO_31 && CeilDiv(|enc|, sz) <= 255
    requires max <= DEFAULT_MAX && |EncodeField(h)| + 16 + sz == max
    requires DecodeField(enc).FOk?
    ensures var n := CeilDiv(|enc|, sz);
            && 0 < n && Offset(sz, n - 1) <= |enc| && CutParts(p, enc, sz, n) == Outcome(g.sender, 0)
    ensures Ships(g) && |g.slices| == CeilDiv(|enc|, sz) && g.max == max
    ensures Concat(g.slices) == enc && g.core == Expand(h) && g.data == |h.val.data|
  {
    CutMakesReady(p, enc, sz, CeilDiv(|enc|, sz), h, Expand(h));
    SlicesAreThePacket(enc, sz);
    StringLength(h);
    KnownTags(0);
    var slices := AllSlices(enc, sz);
    SmallSlices(slices, sz);
    g := Shipment(CutParts(p, enc, sz, CeilDiv(|enc|, sz)).proto, Expand(h), slices, |h.val.data|, sz, max);
  }

  /** The packet the sender meant: its children, or its header and the body given to Split. */
  function Intended(p: Proto, b: Option<Field>): seq<Field>
    requires Sender(p)
  {
    if b.None? then WithHeader(p.tree.value, WithoutSplitFields(Header(p.tree.value)))
    else [Header(EncodedForSplit(p, b).proto.tree.value), b.value]
  }

  lemma IntendedHeader(p: Proto, b: Option<Field>)
    requires Sender(p)
    ensures Find(Intended(p, b), HDR) == Some(Header(EncodedForSplit(p, b).proto.tree.value))
  {
    EncodedHeader(p, b);
    FindWithHeader(p.tree.value, WithoutSplitFields(Header(p.tree.value)), HDR);
  }

  /** A packet whose header has no split fields and no error is complete. */
  lemma InitComplete(children: seq<Field>, core: seq<Field>)
    requires Find(children, HDR).Some? && Expand(Find(children, HDR).value) == core
    requires RetCode(core) == 0 && Without(core, TOTAL_COUNT)
    ensures var r := Init(children);
            r.tree == Some(children) && IsComplete(r) && r.total == 0 && r.retcode == 0
  {
    FindAbsent(core, TOTAL_COUNT);
  }

  lemma DecodeIntended(children: seq<Field>)
    requires AllEncodable(children) && |EncodeTree(children)| < TWO_31
    ensures Decode(EncodeTree(children)) == Init(children)
  {
    StringLength(Fold(PKG, children));
    DecodeTree(children, []);
    assert EncodeTree(children) + [] == EncodeTree(children);
  }

  /** And those bytes decode to the packet the sender meant, as a complete protocol. */
  lemma ReassembledIsIntended(p: Proto, b: Option<Field>)
    requires Sender(p) && Splits(p, b) && PartCount(p, b) <= 255 && AllEncodable(Intended(p, b))
    ensures var r := Decode(EncodedForSplit(p, b).bytes);
            && r == Init(Intended(p, b)) && r.tree == Some(Intended(p, b))
            && IsComplete(r) && r.total == 0 && r.retcode == 0
  {
    EncodedIsTree(p, b);
    FewPartsSmall(p, b);
    DecodeIntended(Intended(p, b));
    SplitCorePlain(p, b);
    IntendedHeader(p, b);
    InitComplete(Intended(p, b), SplitCore(p, b));
  }

  // ---------- the theorems, from a sender to a receiver ----------

  /** The sender p, cut by Split, is the shipment g. */
  ghost predicate Shipped(p: Proto, b: Option<Field>, g: Shipment) {
    && Sender(p) && Splits(p, b) && |EncodedForSplit(p, b).bytes| < TWO_31
    && Split(p, b, true) == Outcome(g.sender, 0)
    && Ships(g) && |g.slices| == PartCount(p, b) && g.max == MaxSize(p)
    && Concat(g.slices) == EncodedForSplit(p, b).bytes
  }

  /**
   The law of the splitting protocol.  For every packet that Split cuts into at
   most 255 parts, each part encoded after any history of EncodePart calls, every
   receiver that is empty, complete or has parts of a message of another count, and
   the parts delivered in any order with any repeats and with or without memory:
   as long as part k is missing the receiver is not complete and holds each
   distinct part received exactly once; when k arrives as the last one and there
   is memory, the receiver becomes the protocol decoded from exactly the bytes
   that Split encoded, and otherwise -9 is returned.
   */
  lemma SplitSendReassemble(p: Proto, b: Option<Field>, hist: seq<seq<Call>>, r0: Proto,
                            ds: seq<nat>, mem: seq<bool>, k: nat) returns (g: Shipment)
    requires Sender(p) && Splits(p, b) && |hist| == PartCount(p, b) <= 255 && Unrelated(r0, |hist|)
    requires ds != [] && Indices(ds, |hist|) && |mem| == |ds| && k < |hist| && k !in ds
    ensures Shipped(p, b, g)
    ensures var qs := Packets(g, hist);
            var r := Receive(r0, qs, ds, mem);
            && !IsComplete(r)
            && Indices(Arrived(ds), |hist|) && (exists h :: Holds(r, h, g.slices, Arrived(ds)))
            && (OnlyMissing(ds, k, |hist|) ==>
                  && AddPartial(r, qs[k], true) == Outcome(Decode(EncodedForSplit(p, b).bytes), 0)
                  && AddPartial(r, qs[k], false).code == -9)
  {
    g := SplitShips(p, b);
    SendReassemble(g, hist, r0, ds, mem, k);
  }

  /**
   Over every run of deliveries of the parts, in any order, with any repeats and
   any failures of the allocator: the receiver is complete at some point if and
   only if there was memory when the last missing part arrived.
   */
  lemma DeliveryCompletesExactly(p: Proto, b: Option<Field>, hist: seq<seq<Call>>, ds: seq<nat>, mem: seq<bool>)
      returns (g: Shipment)
    requires Sender(p) && Splits(p, b) && |hist| == PartCount(p, b) <= 255 && AllEncodable(Intended(p, b))
    requires Indices(ds, |hist|) && |mem| == |ds|
    ensures Shipped(p, b, g)
    ensures EverComplete(Packets(g, hist), ds, mem) <==> MemoryAtLast(ds, mem, |hist|)
  {
    g := SplitShips(p, b);
    ReassembledIsIntended(p, b);
    CompletesExactly(Packets(g, hist), g.slices, ds, mem);
  }

  /**
   Without that memory the message is lost: whatever parts are delivered from
   then on, each is refused with -4 and the receiver stays as it is, incomplete.
   */
  lemma FailedMergeLosesMessage(p: Proto, b: Option<Field>, hist: seq<seq<Call>>, ds: seq<nat>, mem: seq<bool>, k: nat,
                                more: seq<nat>, mem': seq<bool>) returns (g: Shipment)
    requires Sender(p) && Splits(p, b) && |hist| == PartCount(p, b) <= 255
    requires Indices(ds, |hist|) && |mem| == |ds| && OnlyMissing(ds, k, |hist|)
    requires Indices(more, |hist|) && |mem'| == |more|
    ensures Shipped(p, b, g)
    ensures var qs := Packets(g, hist);
            var r := AddPartial(Receive(Invalid(), qs, ds, mem), qs[k], false).proto;
            && !IsComplete(r) && Receive(r, qs, more, mem') == r
            && forall i, ok :: 0 <= i < |hist| ==> AddPartial(r, qs[i], ok) == Outcome(r, -4)
  {
    g := SplitShips(p, b);
    FailedMergeIsFinal(g, hist, ds, mem, k, more, mem');
  }

  /**
   And it is complete at the end of the run if and only if there was memory when
   the last missing part arrived, and that was the last delivery or the same is
   true of the deliveries after it.
   */
  lemma DeliveryEndsCompleteExactly(p: Proto, b: Option<Field>, hist: seq<seq<Call>>, ds: seq<nat>, mem: seq<bool>)
      returns (g: Shipment)
    requires Sender(p) && Splits(p, b) && |hist| == PartCount(p, b) <= 255 && AllEncodable(Intended(p, b))
    requires Indices(ds, |hist|) && |mem| == |ds|
    ensures Shipped(p, b, g)
    ensures IsComplete(Receive(Invalid(), Packets(g, hist), ds, mem)) <==> EndsComplete(ds, mem, |hist|)
  {
    g := SplitShips(p, b);
    ReassembledIsIntended(p, b);
    EndsCompleteExactly(Packets(g, hist), g.slices, ds, mem);
  }

  /** After completion, the message is lost at the first part that comes again. */
  lemma LateDeliveryLosesMessage(p: Proto, b: Option<Field>, hist: seq<seq<Call>>, late: seq<nat>, mem: seq<bool>)
      returns (g: Shipment)
    requires Sender(p) && Splits(p, b) && |hist| == PartCount(p, b) <= 255 && AllEncodable(Intended(p, b))
    requires late != [] && Indices(late, |hist|) && |mem| == |late|
    ensures Shipped(p, b, g)
    ensures var qs := Packets(g, hist);
            var r := Receive(Decode(EncodedForSplit(p, b).bytes), qs, late, mem);
            r == Receive(Invalid(), qs, late, mem) && (|late| == 1 ==> r == qs[late[0]] && !IsComplete(r))
  {
    g := SplitShips(p, b);
    ReassembledIsIntended(p, b);
    LatePartsLoseMessage(g, hist, late, mem);
  }

  /**
   Every packet sent exceeds the size limit by at most four bytes, not at all up
   to 127 parts and a limit of 16383, and exactly when SentFits does not hold.
   */
  lemma SentPartsFit(p: Proto, b: Option<Field>, calls: seq<Call>, i: nat) returns (g: Shipment)
    requires Sender(p) && Splits(p, b) && i < PartCount(p, b) <= 255
    ensures Shipped(p, b, g)
    ensures var sent := EncodePart(SendRun(g.sender, calls), i, true).bytes;
            && |sent| <= MaxSize(p) + 4
            && (MaxSize(p) <= 16383 && PartCount(p, b) <= 127 ==> |sent| <= MaxSize(p))
            && (|sent| <= MaxSize(p) <==> SentFits(g, i))
  {
    g := SplitShips(p, b);
    SentPartFits(g, calls, i);
  }

  // ---------- how many parts ----------

  /** The child with the header's tag after cutting: part 2495, if there is one, has that tag too. */
  function HeaderLeft(core: seq<Field>, enc: seq<Byte>, sz: nat, n: nat): Field
    requires 0 < n < TWO_31 && Offset(sz, n - 1) <= |enc|
  {
    if n <= HDR_PART then Fold(HDR, Current(core, n, None)) else Field(HDR, Str(Slice(enc, sz, n, HDR_PART)))
  }

  /** What cutting leaves of the count and the header. */
  predicate Leaves(s: Proto, core: seq<Field>, enc: seq<Byte>, sz: nat, n: nat)
    requires 0 < n < TWO_31 && Offset(sz, n - 1) <= |enc|
  {
    s.tree.Some? && s.total == n % 0x100 && Find(s.tree.value, HDR) == Some(HeaderLeft(core, enc, sz, n))
  }

  /** Every part is in the tree with its slice. */
  ghost predicate PartsIn(tree: seq<Field>, enc: seq<Byte>, sz: nat, n: nat)
    requires 0 < n < TWO_31 && Offset(sz, n - 1) <= |enc|
  {
    forall j :: 0 <= j < n ==> Find(tree, PART + j) == Some(Field(PART + j, Str(Slice(enc, sz, n, j))))
  }

  lemma CutParted(p: Proto, enc: seq<Byte>, h: Field, sz: nat, n: nat, s: Proto)
    requires p.tree.Some? && Find(p.tree.value, HDR) == Some(h) && 0 < n < TWO_31 && Offset(sz, n - 1) <= |enc|
    requires h.tag == HDR && h.val.Str? && Without(Expand(h), TOTAL_COUNT) && CutParts(p, enc, sz, n) == Outcome(s, 0)
    ensures s.retcode == p.retcode && s.tree.Some? && PartsIn(s.tree.value, enc, sz, n)
  {
    CutUnfolds(p, enc, sz, n, h, Expand(h));
    var tree := Numbered(p.tree.value, Expand(h), n);
    forall j | 0 <= j < n
      ensures Find(InsertParts(tree, enc, sz, n, 0), PART + j) == Some(Field(PART + j, Str(Slice(enc, sz, n, j))))
    {
      InsertPartsFinds(tree, enc, sz, n, 0, j);
    }
  }

  lemma CutHeader(p: Proto, enc: seq<Byte>, h: Field, sz: nat, n: nat) returns (s: Proto)
    requires p.tree.Some? && Find(p.tree.value, HDR) == Some(h) && 0 < n < TWO_31 && Offset(sz, n - 1) <= |enc|
    requires h.tag == HDR && h.val.Str? && Without(Expand(h), TOTAL_COUNT)
    ensures CutParts(p, enc, sz, n) == Outcome(s, 0) && Leaves(s, Expand(h), enc, sz, n)
  {
    CutUnfolds(p, enc, sz, n, h, Expand(h));
    FindWithHeader(p.tree.value, Fold(HDR, Current(Expand(h), n, None)), HDR);
    HeaderAfterParts(Numbered(p.tree.value, Expand(h), n), enc, sz, n);
    s := p.(total := n % 0x100, tree := Some(InsertParts(Numbered(p.tree.value, Expand(h), n), enc, sz, n, 0)));
  }

  /**
   The header that Split leaves in the tree is the sender's, numbered, up to 2495
   parts; with more, part 2495 takes its place.
   */
  lemma SplitHeaderExactly(p: Proto, b: Option<Field>)
      returns (s: Proto, core: seq<Field>, e: Encoded, sz: nat, n: nat)
    requires Sender(p) && Splits(p, b) && |EncodedForSplit(p, b).bytes| < TWO_31
    ensures e == EncodedForSplit(p, b) && sz == PartSize(e.proto) && n == PartCount(p, b) && core == SplitCore(p, b)
    ensures Split(p, b, true) == Outcome(s, 0)
    ensures 2 <= n < TWO_31 && Offset(sz, n - 1) <= |e.bytes| && Leaves(s, core, e.bytes, sz, n)
    ensures s.retcode == 0 && PartsIn(s.tree.value, e.bytes, sz, n)
  {
    e, n, core := EncodedForSplit(p, b), PartCount(p, b), SplitCore(p, b);
    sz := PartSize(e.proto);
    SplitIsCut(p, b, e, sz, n);
    SplitCorePlain(p, b);
    s := CutHeader(e.proto, e.bytes, Header(e.proto.tree.value), sz, n);
    CutParted(e.proto, e.bytes, Header(e.proto.tree.value), sz, n, s);
  }

  /**
   The part count is kept in eight bits: every part can be encoded if and only if
   there are at most 255 of them.
   */
  lemma AllPartsSendableExactly(p: Proto, b: Option<Field>) returns (s: Proto)
    requires Sender(p) && Splits(p, b) && |EncodedForSplit(p, b).bytes| < TWO_31
    ensures Split(p, b, true) == Outcome(s, 0) && Sound(s) && s.total == PartCount(p, b) % 0x100
    ensures (forall i: Int32 :: 0 <= i < PartCount(p, b) ==> EncodePart(s, i, true).code >= 0) <==>
            PartCount(p, b) <= 255
  {
    var core, e, sz, n;
    s, core, e, sz, n := SplitHeaderExactly(p, b);
    if n <= 255 {
      var g := SplitShips(p, b);
      forall i: Int32 | 0 <= i < n ensures EncodePart(s, i, true).code >= 0 {
        PartIndependentOfHistory(s, g.core, n, g.slices, [], i);
      }
    } else {
      EncodePartProto(s, n - 1, true);
    }
  }
}
