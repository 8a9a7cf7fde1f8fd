/**
 The sender of a split message: the slices Split cuts, the packets EncodePart
 makes of them, and how large those are.
 */
module Splitting {
  import opened Bytes
  import opened Wire
  import opened Packet
  import opened Fields
  import opened Reassembly
  import Varint

  // ---------- the slices ----------

  function Slices(enc: seq<Byte>, sz: nat, n: nat, k: nat): (s: seq<seq<Byte>>)
    requires k <= n && 0 < n && Offset(sz, n - 1) <= |enc|
    ensures |s| == k
  {
    if k == 0 then [] else Slices(enc, sz, n, k - 1) + [Slice(enc, sz, n, k - 1)]
  }

  lemma {:induction false} SlicesAt(enc: seq<Byte>, sz: nat, n: nat, k: nat, i: nat)
    requires i < k <= n && Offset(sz, n - 1) <= |enc|
    ensures Slices(enc, sz, n, k)[i] == Slice(enc, sz, n, i)
  {
    if i < k - 1 { SlicesAt(enc, sz, n, k - 1, i); }
  }

  lemma {:induction false} SlicesCover(enc: seq<Byte>, sz: nat, n: nat, k: nat)
    requires k <= n && 0 < n && Offset(sz, n - 1) <= |enc|
    ensures k < n ==> Offset(sz, k) <= |enc| && Concat(Slices(enc, sz, n, k)) == enc[..Offset(sz, k)]
    ensures k == n ==> Concat(Slices(enc, sz, n, k)) == enc
  {
    if k < n { OffsetMono(sz, k, n - 1); }
    if k > 0 {
      SlicesCover(enc, sz, n, k - 1);
      ConcatSnoc(Slices(enc, sz, n, k - 1), Slice(enc, sz, n, k - 1));
      Joined(enc, Offset(sz, k - 1), if k < n then Offset(sz, k) else |enc|);
    }
  }

  lemma Joined(s: seq<Byte>, a: nat, b: nat)
    requires a <= b <= |s|
    ensures s[..a] + s[a..b] == s[..b]
    ensures b == |s| ==> s[..a] + s[a..] == s
  {}

  lemma SliceLength(enc: seq<Byte>, sz: nat, n: nat, i: nat)
    requires i < n && Offset(sz, n - 1) < |enc| <= Offset(sz, n) && sz > 0
    ensures i < n - 1 ==> |Slice(enc, sz, n, i)| == sz
    ensures 0 < |Slice(enc, sz, n, i)| <= sz
  {
    OffsetMono(sz, i, n - 1);
    if i < n - 1 {
      OffsetMono(sz, i + 1, n - 1);
      assert Offset(sz, i + 1) == Offset(sz, i) + sz;
    } else {
      assert Offset(sz, n) == Offset(sz, n - 1) + sz;
    }
  }

  /**
   The slices of a packet longer than one part: none is empty, all but the last
   have the part size, the last has at most that, and together they are the packet.
   */
  lemma SlicesAreThePacket(enc: seq<Byte>, sz: nat)
    requires 0 < sz < |enc|
    ensures var n := CeilDiv(|enc|, sz);
            && n >= 2 && Offset(sz, n - 1) <= |enc|
            && var s := Slices(enc, sz, n, n);
               && Concat(s) == enc
               && (forall i :: 0 <= i < n - 1 ==> |s[i]| == sz)
               && (forall i :: 0 <= i < n ==> 0 < |s[i]| <= sz)
  {
    CeilDivBounds(|enc|, sz);
    var n := CeilDiv(|enc|, sz);
    SlicesCover(enc, sz, n, n);
    var s := Slices(enc, sz, n, n);
    forall i | 0 <= i < n ensures 0 < |s[i]| <= sz && (i < n - 1 ==> |s[i]| == sz) {
      SlicesAt(enc, sz, n, n, i);
      SliceLength(enc, sz, n, i);
    }
  }

  /** All the slices of a packet, for a given part size. */
  function AllSlices(enc: seq<Byte>, sz: nat): (s: seq<seq<Byte>>)
    requires 0 < sz < |enc|
    ensures |s| == CeilDiv(|enc|, sz)
  {
    CeilDivBounds(|enc|, sz);
    Slices(enc, sz, CeilDiv(|enc|, sz), CeilDiv(|enc|, sz))
  }

  // ---------- the tree Split leaves behind ----------

  /** One turn of the Split loop: the part replaces whatever had its tag. */
  lemma InsertOne(tree: seq<Field>, f: Field, tag: U32)
    ensures Find(RemoveAll(tree, f.tag) + [f], tag) == if tag == f.tag then Some(f) else Find(tree, tag)
  {
    FindAppend(RemoveAll(tree, f.tag), [f], tag);
    assert [f][1..] == [];
    if tag == f.tag {
      RemoveAllFacts(tree, tag);
      FindAbsent(RemoveAll(tree, tag), tag);
    } else {
      FindAfterRemoveAll(tree, f.tag, tag);
    }
  }

  lemma {:induction false} InsertPartsKeeps(tree: seq<Field>, enc: seq<Byte>, sz: nat, n: nat, i: nat, tag: U32)
    requires i <= n < TWO_31 && 0 < n && Offset(sz, n - 1) <= |enc|
    requires tag < PART + i || PART + n <= tag
    ensures Find(InsertParts(tree, enc, sz, n, i), tag) == Find(tree, tag)
    decreases n - i
  {
    if i < n {
      var f := Field(PART + i, Str(Slice(enc, sz, n, i)));
      InsertOne(tree, f, tag);
      InsertPartsKeeps(RemoveAll(tree, PART + i) + [f], enc, sz, n, i + 1, tag);
    }
  }

  /** Each part is in the tree with its slice, whatever the tree held before. */
  lemma {:induction false} InsertPartsFinds(tree: seq<Field>, enc: seq<Byte>, sz: nat, n: nat, i: nat, j: nat)
    requires i <= j < n < TWO_31 && Offset(sz, n - 1) <= |enc|
    ensures Find(InsertParts(tree, enc, sz, n, i), PART + j) == Some(Field(PART + j, Str(Slice(enc, sz, n, j))))
    decreases n - i
  {
    var f := Field(PART + i, Str(Slice(enc, sz, n, i)));
    var tree' := RemoveAll(tree, PART + i) + [f];
    assert InsertParts(tree, enc, sz, n, i) == InsertParts(tree', enc, sz, n, i + 1);
    if i < j {
      InsertPartsFinds(tree', enc, sz, n, i + 1, j);
    } else {
      InsertOne(tree, f, PART + i);
      InsertPartsKeeps(tree', enc, sz, n, i + 1, PART + i);
    }
  }

  /** The header child survives the loop exactly up to 2495 parts: part 2495 has its tag and replaces it. */
  lemma HeaderAfterParts(tree: seq<Field>, enc: seq<Byte>, sz: nat, n: nat)
    requires 0 < n < TWO_31 && Offset(sz, n - 1) <= |enc|
    ensures var done := InsertParts(tree, enc, sz, n, 0);
            if n <= HDR_PART then Find(done, HDR) == Find(tree, HDR)
            else Find(done, HDR) == Some(Field(HDR, Str(Slice(enc, sz, n, HDR_PART))))
  {
    if n <= HDR_PART {
      InsertPartsKeeps(tree, enc, sz, n, 0, HDR);
    } else {
      InsertPartsFinds(tree, enc, sz, n, 0, HDR_PART);
    }
  }

  // ---------- encoding one part ----------

  function CountField(n: U64): Field {
    Field(TOTAL_COUNT, Vint(n))
  }

  function IndexField(i: U64): Field {
    Field(CURR_INDEX, Vint(i))
  }

  /** The header fields of a packet that carries part i of n. */
  function PartHeader(core: seq<Field>, n: U64, i: U64): seq<Field> {
    core + [CountField(n)] + [IndexField(i)]
  }

  /** The packet of part i: the header with both split fields, counting n parts, and the slice. */
  function PartPacket(core: seq<Field>, slices: seq<seq<Byte>>, n: U64, i: nat): seq<Byte>
    requires i < |slices| <= 255
  {
    EncodeTree([Fold(HDR, PartHeader(core, n, i)), PartField(slices, i)])
  }

  /** Header fields that carry no split fields and no error, and are small. */
  predicate Plain(core: seq<Field>) {
    && AllEncodable(core) && Without(core, TOTAL_COUNT) && Without(core, CURR_INDEX)
    && RetCode(core) == 0 && |EncodeFields(core)| < DEFAULT_MAX
  }

  /** The header fields while parts are being sent: the index of the last one sent, if any. */
  function Current(core: seq<Field>, n: U64, last: Option<U64>): seq<Field> {
    if last.None? then core + [CountField(n)] else PartHeader(core, n, last.value)
  }

  /**
   A sender that has been split into n parts and from which any may have been
   encoded; the slices are those within the count it keeps, n modulo 256.
   */
  ghost predicate Ready(s: Proto, core: seq<Field>, n: U64, last: Option<U64>, slices: seq<seq<Byte>>) {
    && 2 <= |slices| <= 255 && s.total == |slices| == n % 0x100 && s.retcode == 0
    && s.tree.Some? && Find(s.tree.value, HDR) == Some(Fold(HDR, Current(core, n, last)))
    && Plain(core)
    && forall i :: 0 <= i < |slices| ==> Find(s.tree.value, PART + i) == Some(PartField(slices, i))
  }

  /** Encoding with a body drops the return message. */
  function Cleared(s: Proto, core: seq<Field>): seq<Field> {
    if s.errmsg then RemoveAll(core, ERR) else core
  }

  lemma CurrentEncodable(core: seq<Field>, n: U64, last: Option<U64>)
    requires AllEncodable(core)
    ensures AllEncodable(Current(core, n, last)) && Expand(Fold(HDR, Current(core, n, last))) == Current(core, n, last)
  {
    ExpandFold(HDR, Current(core, n, last));
  }

  /** Setting the part index leaves the index of this part, whichever was there before. */
  lemma SetIndex(core: seq<Field>, n: U64, last: Option<U64>, i: U64)
    requires Without(core, CURR_INDEX)
    ensures SetChildInt(Current(core, n, last), CURR_INDEX, i) == Some(PartHeader(core, n, i))
  {
    var k := core + [CountField(n)];
    assert Without(k, CURR_INDEX);
    if last.None? {
      SetChildAppends(k, CURR_INDEX, i);
    } else {
      SetChildReplaces(k, CURR_INDEX, last.value, i);
    }
  }

  lemma ClearedPlain(s: Proto, core: seq<Field>)
    requires Plain(core)
    ensures Plain(Cleared(s, core))
  {
    RemoveAllFacts(core, ERR);
    FindAfterRemoveAll(core, ERR, RET);
  }

  /** The split fields survive the removal of the return message. */
  lemma ClearedHeaderFields(core: seq<Field>, n: U64, i: U64)
    ensures RemoveAll(PartHeader(core, n, i), ERR) == PartHeader(RemoveAll(core, ERR), n, i)
  {
    RemoveAllAppend(core + [CountField(n)], [IndexField(i)], ERR);
    RemoveAllAppend(core, [CountField(n)], ERR);
    KeepsOne(CountField(n), ERR);
    KeepsOne(IndexField(i), ERR);
  }

  lemma KeepsOne(f: Field, tag: U32)
    requires f.tag != tag
    ensures RemoveAll([f], tag) == [f]
  {
    assert [f][1..] == [];
  }

  /** Folding the fields a canonical header already has, or new ones, gives the canonical header. */
  lemma RefoldCanonical(fs: seq<Field>, gs: seq<Field>)
    requires AllEncodable(fs) && AllEncodable(gs)
    ensures Refold(Fold(HDR, fs), gs) == Fold(HDR, gs)
  {
    ExpandFold(HDR, fs);
  }

  /** The header that EncodePart leaves and sends, for the number v stored as the part index. */
  lemma PartHeaderMade(s: Proto, core: seq<Field>, n: U64, last: Option<U64>, slices: seq<seq<Byte>>, v: U64)
    requires Ready(s, core, n, last, slices)
    ensures var h := Header(s.tree.value);
            && h.val.Str? && SetChildInt(Expand(h), CURR_INDEX, v) == Some(PartHeader(core, n, v))
            && var h1 := Refold(h, PartHeader(core, n, v));
               ClearReturn(s, h1) == Fold(HDR, PartHeader(Cleared(s, core), n, v))
  {
    CurrentEncodable(core, n, last);
    CurrentEncodable(core, n, Some(v));
    SetIndex(core, n, last, v);
    RefoldCanonical(Current(core, n, last), PartHeader(core, n, v));
    ClearedPlain(s, core);
    ClearedHeaderFields(core, n, v);
    CurrentEncodable(Cleared(s, core), n, Some(v));
    RefoldCanonical(PartHeader(core, n, v), PartHeader(Cleared(s, core), n, v));
  }

  /** EncodePart on a split protocol, given the header it makes. */
  lemma EncodePartUnfolds(s: Proto, i: Int32, b: Field, fs: seq<Field>)
    requires s.tree.Some? && Find(s.tree.value, HDR).Some? && 1 < s.total && i < s.total
    requires Find(s.tree.value, PartTag(i)) == Some(b) && Header(s.tree.value).val.Str?
    requires SetChildInt(Expand(Header(s.tree.value)), CURR_INDEX, AsU64(i)) == Some(fs)
    ensures var h1 := Refold(Header(s.tree.value), fs);
            var h2 := ClearReturn(s, h1);
            var o := EncodePart(s, i, true);
            && o.bytes == EncodeTree([h2, b]) && o.code == |o.bytes|
            && o.proto == s.(tree := Some(WithHeader(WithHeader(s.tree.value, h1), h2)), retcode := 0, errmsg := false)
  {
    FindWithHeader(s.tree.value, Refold(Header(s.tree.value), fs), HDR);
  }

  lemma FindWithHeaders(tree: seq<Field>, h1: Field, h2: Field, tag: U32)
    requires h1.tag == HDR && h2.tag == HDR && Find(tree, HDR).Some?
    ensures Find(WithHeader(WithHeader(tree, h1), h2), tag) == if tag == HDR then Some(h2) else Find(tree, tag)
  {
    FindWithHeader(tree, h1, tag);
    FindWithHeader(tree, h1, HDR);
    FindWithHeader(WithHeader(tree, h1), h2, tag);
  }

  /** Replacing the header keeps every part where it is. */
  lemma HeadersKeepReady(s: Proto, core: seq<Field>, n: U64, last: Option<U64>, slices: seq<seq<Byte>>,
                         h1: Field, core': seq<Field>, v: U64)
    requires Ready(s, core, n, last, slices) && h1.tag == HDR && Plain(core')
    ensures var h2 := Fold(HDR, PartHeader(core', n, v));
            var tree := WithHeader(WithHeader(s.tree.value, h1), h2);
            Ready(s.(tree := Some(tree), retcode := 0, errmsg := false), core', n, Some(v), slices)
  {
    var h2 := Fold(HDR, PartHeader(core', n, v));
    var tree := WithHeader(WithHeader(s.tree.value, h1), h2);
    forall j | 0 <= j < |slices| ensures Find(tree, PART + j) == Some(PartField(slices, j)) {
      FindWithHeaders(s.tree.value, h1, h2, PART + j);
      assert Find(s.tree.value, PART + j) == Some(PartField(slices, j));
    }
    FindWithHeaders(s.tree.value, h1, h2, HDR);
  }

  /**
   EncodePart of a split sender with any index that is not too large, negative
   ones included: it needs a child with the tag that the index gives, sends it
   under the header, and leaves the sender ready for any part.
   */
  lemma EncodePartAny(s: Proto, core: seq<Field>, n: U64, last: Option<U64>, slices: seq<seq<Byte>>, i: Int32)
    requires Ready(s, core, n, last, slices) && i < |slices|
    ensures var b := Find(s.tree.value, PartTag(i));
            var o := EncodePart(s, i, true);
            if b.None? then o == PartOutcome(s, -2, [])
            else
              && o.bytes == EncodeTree([Fold(HDR, PartHeader(Cleared(s, core), n, AsU64(i))), b.value])
              && o.code == |o.bytes|
              && Ready(o.proto, Cleared(s, core), n, Some(AsU64(i)), slices)
              && Cleared(o.proto, Cleared(s, core)) == Cleared(s, core)
  {
    var b := Find(s.tree.value, PartTag(i));
    if b.Some? {
      var fs := PartHeader(core, n, AsU64(i));
      PartHeaderMade(s, core, n, last, slices, AsU64(i));
      ClearedPlain(s, core);
      EncodePartUnfolds(s, i, b.value, fs);
      HeadersKeepReady(s, core, n, last, slices, Refold(Header(s.tree.value), fs), Cleared(s, core), AsU64(i));
    }
  }

  /**
   EncodePart of a split sender yields the packet of that part, which does not
   depend on the parts encoded before, and leaves the sender ready for any other.
   */
  lemma EncodePartMakesPacket(s: Proto, core: seq<Field>, n: U64, last: Option<U64>, slices: seq<seq<Byte>>, i: U8)
    requires Ready(s, core, n, last, slices) && i < |slices|
    ensures var o := EncodePart(s, i, true);
            && o.bytes == PartPacket(Cleared(s, core), slices, n, i) && o.code == |o.bytes|
            && Ready(o.proto, Cleared(s, core), n, Some(i), slices)
            && Cleared(o.proto, Cleared(s, core)) == Cleared(s, core)
  {
    assert Find(s.tree.value, PART + i) == Some(PartField(slices, i));
    EncodePartAny(s, core, n, last, slices, i);
  }

  // ---------- what a part packet decodes to ----------

  /** Lookups in a header with one field more. */
  lemma FindSnoc(fs: seq<Field>, f: Field, tag: U32)
    ensures Find(fs + [f], tag) == if Find(fs, tag).Some? then Find(fs, tag) else if f.tag == tag then Some(f) else None
    ensures f.tag != tag ==> FindMeta(fs + [f], tag) == FindMeta(fs, tag)
  {
    FindAppend(fs, [f], tag);
    assert [f][1..] == [];
  }

  lemma PartHeaderReads(core: seq<Field>, n: U64, i: U64)
    requires Plain(core)
    ensures var fs := PartHeader(core, n, i);
            && AllEncodable(fs) && RetCode(fs) == 0
            && IntChild(fs, TOTAL_COUNT) == n && IntChild(fs, CURR_INDEX) == i
  {
    var a := core + [CountField(n)];
    FindAbsent(core, TOTAL_COUNT);
    FindAbsent(core, CURR_INDEX);
    FindSnoc(core, CountField(n), TOTAL_COUNT); FindSnoc(a, IndexField(i), TOTAL_COUNT);
    FindSnoc(core, CountField(n), CURR_INDEX);  FindSnoc(a, IndexField(i), CURR_INDEX);
    FindSnoc(core, CountField(n), RET);         FindSnoc(a, IndexField(i), RET);
  }

  lemma {:induction false} HeaderGrowth(core: seq<Field>, n: U64, i: U64)
    ensures |EncodeFields(PartHeader(core, n, i))| ==
            |EncodeFields(core)| + |EncodeField(CountField(n))| + |EncodeField(IndexField(i))|
    ensures |EncodeField(CountField(n))| == 2 + Varint.Len(n)
    ensures |EncodeField(IndexField(i))| == 2 + Varint.Len(i)
  {
    EncodeConcat(core + [CountField(n)], [IndexField(i)]);
    EncodeConcat(core, [CountField(n)]);
    EncodeOne(CountField(n));
    EncodeOne(IndexField(i));
    assert Varint.Len(16032) == 2 && Varint.Len(16040) == 2;
  }

  /** A packet of a small header and one string child decodes to exactly those. */
  lemma PairDecodes(fs: seq<Field>, f: Field)
    requires AllEncodable(fs) && |EncodeFields(fs)| < DEFAULT_MAX + 24
    requires Encodable(f) && f.val.Str? && |f.val.data| < DEFAULT_MAX
    ensures Expand(Fold(HDR, fs)) == fs
    ensures Decode(EncodeTree([Fold(HDR, fs), f])) == Init([Fold(HDR, fs), f])
  {
    var children := [Fold(HDR, fs), f];
    ExpandFold(HDR, fs);
    EncodeTwo(Fold(HDR, fs), f);
    FieldSize(Fold(HDR, fs));
    FieldSize(f);
    DecodeTree(children, []);
    assert EncodeTree(children) + [] == EncodeTree(children);
  }

  lemma InitOfPart(h: Field, slices: seq<seq<Byte>>, i: nat)
    requires i < |slices| <= 255 && h.tag == HDR
    requires var fs := Expand(h);
             RetCode(fs) == 0 && IntChild(fs, TOTAL_COUNT) % 0x100 == |slices| && IntChild(fs, CURR_INDEX) == i
    ensures IsPart(Init([h, PartField(slices, i)]), slices, i)
  {
    FindInPair(h, PartField(slices, i));
  }

  lemma FindInPair(h: Field, p: Field)
    requires h.tag == HDR && p.tag != HDR
    ensures Find([h, p], HDR) == Some(h) && Find([h, p], BDY) == if p.tag == BDY then Some(p) else None
  {
    assert [h, p][1..] == [p] && [p][1..] == [];
  }

  /** A part packet, decoded, is that part of a message of as many parts as the count modulo 256. */
  lemma PartPacketDecodes(core: seq<Field>, slices: seq<seq<Byte>>, n: U64, i: nat)
    requires Plain(core) && i < |slices| <= 255 && |slices[i]| < DEFAULT_MAX && n % 0x100 == |slices|
    ensures IsPart(Decode(PartPacket(core, slices, n, i)), slices, i)
  {
    var fs := PartHeader(core, n, i);
    PartHeaderReads(core, n, i);
    HeaderGrowth(core, n, i);
    Varint.LenU64(n);
    Varint.LenU64(i);
    PairDecodes(fs, PartField(slices, i));
    InitOfPart(Fold(HDR, fs), slices, i);
  }

  lemma FieldSize(f: Field)
    requires f.val.Str? && |f.val.data| < TWO_31
    ensures |EncodeField(f)| <= 20 + |f.val.data|
  {
    Varint.LenU64(Key(STRING, f.tag));
    Varint.LenU64(|f.val.data|);
  }

  // ---------- how large part packets are ----------

  /** The bytes of a string field besides its contents. */
  function HeadLength(tag: U32, len: nat): nat {
    EvalTagLength(STRING, tag) + Varint.Len(len)
  }

  lemma StringLength(f: Field)
    requires f.val.Str?
    ensures |EncodeField(f)| == HeadLength(f.tag, |f.val.data|) + |f.val.data|
  {}

  lemma KnownTags(i: U8)
    ensures EvalTagLength(STRING, PKG) == 3 && EvalTagLength(STRING, HDR) == 3 && EvalTagLength(STRING, PART + i) == 2
  {
    assert Key(STRING, PKG) == 28058 && Varint.Len(28058) == 3;
    assert Key(STRING, HDR) == 23914 && Varint.Len(23914) == 3;
    var k := Key(STRING, PART + i);
    assert 0x80 <= k < 0x4000;
    assert Varint.Len(k) == 1 + Varint.Len(k / 0x80) && k / 0x80 < 0x80;
  }

  /** The header bytes of part i of n. */
  function HeaderBytes(core: seq<Field>, n: nat, i: nat): nat {
    |EncodeFields(core)| + 4 + Varint.Len(n) + Varint.Len(i)
  }

  /** The contents of the packet: the header field and the part field. */
  function InnerBytes(core: seq<Field>, n: nat, i: nat, part: nat): nat {
    3 + Varint.Len(HeaderBytes(core, n, i)) + HeaderBytes(core, n, i) + 2 + Varint.Len(part) + part
  }

  /** The exact length of a part packet. */
  lemma PartPacketLength(core: seq<Field>, slices: seq<seq<Byte>>, i: nat)
    requires i < |slices| <= 255
    ensures var inner := InnerBytes(core, |slices|, i, |slices[i]|);
            |PartPacket(core, slices, |slices|, i)| == 3 + Varint.Len(inner) + inner
  {
    var fs := PartHeader(core, |slices|, i);
    var h, p := Fold(HDR, fs), PartField(slices, i);
    HeaderGrowth(core, |slices|, i);
    KnownTags(i);
    StringLength(h);
    StringLength(p);
    EncodeTwo(h, p);
    StringLength(Fold(PKG, [h, p]));
  }

  lemma LenSteps(v: nat)
    ensures v < 0x80 ==> Varint.Len(v) == 1
    ensures 0x80 <= v < 0x4000 ==> Varint.Len(v) == 2
    ensures 0x4000 <= v < 0x20_0000 ==> Varint.Len(v) == 3
  {
    if 0x80 <= v < 0x20_0000 { assert Varint.Len(v) == 1 + Varint.Len(v / 0x80); }
  }

  /** Adding at most 127 to a number lengthens its varint by at most one byte. */
  lemma {:induction false} LenGrows(a: nat, b: nat)
    requires a <= b <= a + 0x7F
    ensures Varint.Len(a) <= Varint.Len(b) <= Varint.Len(a) + 1
  {
    Varint.LenMonotone(a, b);
    if b >= 0x80 {
      if a >= 0x80 { LenGrows(a / 0x80, b / 0x80); } else { assert b / 0x80 <= 1; }
    }
  }

  /** The part size Split chooses for a header field of the given encoded length. */
  predicate Chosen(max: nat, header: nat, sz: nat) {
    0 < sz && header + 16 + sz == max
  }

  /** The bound in plain numbers: the l's are varint lengths of n, i, the header, the part and the contents. */
  lemma FitArithmetic(max: nat, data: nat, ld: nat, sz: nat, d: nat, ln: nat, li: nat,
                      lh: nat, lp: nat, part: nat, lx: nat)
    requires max <= DEFAULT_MAX && Chosen(max, 3 + ld + data, sz) && d <= data && part <= sz
    requires 1 <= ln <= 2 && 1 <= li <= 2 && lh <= ld + 1 && lp <= 3 && (part < 0x4000 ==> lp <= 2)
    requires var inner := 3 + lh + (d + 4 + ln + li) + 2 + lp + part;
             (inner < 0x4000 ==> lx <= 2) && (inner < 0x20_0000 ==> lx <= 3)
    ensures var inner := 3 + lh + (d + 4 + ln + li) + 2 + lp + part;
            && 3 + lx + inner <= max + 4
            && (max <= 16383 && ln == 1 && li == 1 ==> 3 + lx + inner <= max)
  {}

  lemma HeaderLens(d: nat, data: nat, n: U8, i: U8)
    requires d <= data
    ensures 1 <= Varint.Len(n) <= 2 && 1 <= Varint.Len(i) <= 2
    ensures n <= 127 ==> Varint.Len(n) == 1
    ensures i <= 127 ==> Varint.Len(i) == 1
    ensures Varint.Len(d + 4 + Varint.Len(n) + Varint.Len(i)) <= Varint.Len(data) + 1
  {
    LenSteps(n);
    LenSteps(i);
    var more := 4 + Varint.Len(n) + Varint.Len(i);
    LenGrows(data, data + more);
    Varint.LenMonotone(d + more, data + more);
  }

  /**
   Whatever the number of parts and the allowed maximum, a part packet exceeds
   the maximum by at most four bytes; up to 127 parts and a maximum of 16383
   bytes it does not exceed it at all.
   */
  lemma PartPacketsFit(core: seq<Field>, slices: seq<seq<Byte>>, i: nat, max: nat, data: nat, sz: nat)
    requires i < |slices| <= 255 && max <= DEFAULT_MAX && |EncodeFields(core)| <= data
    requires Chosen(max, 3 + Varint.Len(data) + data, sz) && |slices[i]| <= sz
    ensures |PartPacket(core, slices, |slices|, i)| <= max + 4
    ensures max <= 16383 && |slices| <= 127 ==> |PartPacket(core, slices, |slices|, i)| <= max
  {
    var n, d, part := |slices|, |EncodeFields(core)|, |slices[i]|;
    PartPacketLength(core, slices, i);
    HeaderLens(d, data, n, i);
    LenSteps(part);
    LenSteps(InnerBytes(core, n, i, part));
    FitArithmetic(max, data, Varint.Len(data), sz, d, Varint.Len(n), Varint.Len(i),
                  Varint.Len(HeaderBytes(core, n, i)), Varint.Len(part), part,
                  Varint.Len(InnerBytes(core, n, i, part)));
  }

  /**
   The exact condition: the varint lengths of the count, the index, the part, the
   header and the contents take at most seven bytes more than the length of the
   old header, plus what the header lost and what the part leaves free.
   */
  predicate PartFits(core: seq<Field>, n: nat, i: nat, part: nat, data: nat, sz: nat) {
    Varint.Len(n) + Varint.Len(i) + Varint.Len(part) + Varint.Len(HeaderBytes(core, n, i))
      + Varint.Len(InnerBytes(core, n, i, part)) + |EncodeFields(core)| + part
    <= 7 + Varint.Len(data) + data + sz
  }

  /** A part packet is within the maximum if and only if that holds. */
  lemma PartFitsExactly(core: seq<Field>, slices: seq<seq<Byte>>, i: nat, max: nat, data: nat, sz: nat)
    requires i < |slices| <= 255 && Chosen(max, 3 + Varint.Len(data) + data, sz)
    ensures |PartPacket(core, slices, |slices|, i)| <= max <==> PartFits(core, |slices|, i, |slices[i]|, data, sz)
  {
    PartPacketLength(core, slices, i);
  }

  /** Among parts of one size, the later ones are no smaller packets. */
  lemma LaterPartsLarger(core: seq<Field>, slices: seq<seq<Byte>>, i: nat, j: nat)
    requires i <= j < |slices| <= 255 && |slices[i]| == |slices[j]|
    ensures |PartPacket(core, slices, |slices|, i)| <= |PartPacket(core, slices, |slices|, j)|
  {
    var n, part := |slices|, |slices[i]|;
    PartPacketLength(core, slices, i);
    PartPacketLength(core, slices, j);
    Varint.LenMonotone(i, j);
    Varint.LenMonotone(HeaderBytes(core, n, i), HeaderBytes(core, n, j));
    Varint.LenMonotone(InnerBytes(core, n, i, part), InnerBytes(core, n, j, part));
  }

  /** But every full part of 16384 bytes or more does exceed it, even with an empty header. */
  lemma LargePartsOverrun(core: seq<Field>, slices: seq<seq<Byte>>, i: nat, max: nat, sz: nat)
    requires 2 <= |slices| <= 255 && i < |slices| && |slices[i]| == sz && 16384 <= sz < 64000
    requires Chosen(max, |EncodeField(Fold(HDR, core))|, sz)
    ensures |PartPacket(core, slices, |slices|, i)| > max
  {
    var n, d := |slices|, |EncodeFields(core)|;
    PartPacketLength(core, slices, i);
    KnownTags(i);
    StringLength(Fold(HDR, core));
    LenSteps(n); LenSteps(i);
    Varint.LenMonotone(d, HeaderBytes(core, n, i));
    LenSteps(sz);
    Varint.LenMonotone(16384, InnerBytes(core, n, i, sz));
    LenSteps(16384);
  }
}
