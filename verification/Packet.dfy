/**
 KNV packets (src/protocol.h, src/protocol.cc) as values: a packet is one string
 field tagged KNV_PKG_TAG whose contents are its children, the first child
 tagged KNV_PKG_HDR_TAG being the header.  A node is the sequence of its fields;
 it is expanded from, and folded back to, the bytes of module Wire.
 */
module Packet {
  import opened Bytes
  import opened Wire

  const PKG: U32 := 0xdb3
  const HDR: U32 := 0xbad
  const BDY: U32 := 0xdad
  const PART: U32 := 0x1ee
  const RET: U32 := 7
  const ERR: U32 := 8
  const ALLOW_SPLIT: U32 := 2002
  const MAX_PKG_SIZE: U32 := 2003
  const TOTAL_COUNT: U32 := 2004
  const CURR_INDEX: U32 := 2005
  const MAX_META: U32 := 10
  const DEFAULT_MAX: U16 := 64000

  // ---------- nodes ----------

  /** The children of a node: none when its bytes do not end as a message. */
  function Expand(f: Field): seq<Field> {
    if !f.val.Str? then []
    else var r := ReadFields(f.val.data); if r.eom then r.fields else []
  }

  function Fold(tag: U32, fs: seq<Field>): Field {
    Field(tag, Str(EncodeFields(fs)))
  }

  function Find(fs: seq<Field>, tag: U32): (r: Option<Field>)
    ensures r.Some? ==> r.value in fs && r.value.tag == tag
  {
    if fs == [] then None else if fs[0].tag == tag then Some(fs[0]) else Find(fs[1..], tag)
  }

  /** metas[tag] holds the last field read with a tag up to 10. */
  function FindMeta(fs: seq<Field>, tag: U32): Option<Field> {
    if fs == [] then None
    else var r := FindMeta(fs[1..], tag);
         if r.Some? then r else if fs[0].tag == tag then Some(fs[0]) else None
  }

  function RemoveAll(fs: seq<Field>, tag: U32): seq<Field> {
    if fs == [] then []
    else if fs[0].tag == tag then RemoveAll(fs[1..], tag)
    else [fs[0]] + RemoveAll(fs[1..], tag)
  }

  /** Remove the first field with the tag. */
  function RemoveFirst(fs: seq<Field>, tag: U32): seq<Field> {
    if fs == [] then []
    else if fs[0].tag == tag then fs[1..]
    else [fs[0]] + RemoveFirst(fs[1..], tag)
  }

  /** SetChildInt: an existing number keeps its type, an existing string is refused. */
  function SetChildInt(fs: seq<Field>, tag: U32, v: U64): Option<seq<Field>> {
    if fs == [] then Some([Field(tag, Vint(v))])
    else if fs[0].tag == tag then
      match fs[0].val
      case Vint(_) => Some([Field(tag, Vint(v))] + fs[1..])
      case Fixed64(_) => Some([Field(tag, Fixed64(v))] + fs[1..])
      case Fixed32(_) => Some([Field(tag, Fixed32(v % TWO_32))] + fs[1..])
      case Str(_) => None
    else
      var r := SetChildInt(fs[1..], tag, v);
      if r.None? then None else Some([fs[0]] + r.value)
  }

  predicate HasMeta(fs: seq<Field>) {
    fs != [] && (fs[0].tag <= MAX_META || HasMeta(fs[1..]))
  }

  /** SetMeta: change the last field with the tag, or add one behind the last meta. */
  function SetMetaInt(fs: seq<Field>, tag: U32, v: U64): seq<Field> {
    if FindMeta(fs, tag).Some? then
      if FindMeta(fs[1..], tag).Some? then [fs[0]] + SetMetaInt(fs[1..], tag, v)
      else [Field(tag, Vint(v))] + fs[1..]
    else if HasMeta(fs) then [fs[0]] + SetMetaInt(fs[1..], tag, v)
    else [Field(tag, Vint(v))] + fs
  }

  // ---------- the protocol object ----------

  /** The state of a KnvProtocol; tree has the children of the packet, None standing for NULL. */
  datatype Proto = Proto(
    tree: Option<seq<Field>>,
    body: bool,               // is there a current body?
    retcode: U32,
    errmsg: bool,             // is there a return message?
    allowSplit: bool,
    maxPkg: U16,
    total: U8,
    curr: U8)

  function Invalid(): Proto {
    Proto(None, false, 0, false, false, 0, 0, 0)
  }

  /** The value of a header child, zero unless it is a varint. */
  function IntChild(fs: seq<Field>, tag: U32): U64 {
    var m := Find(fs, tag);
    if m.Some? && m.value.val.Vint? then m.value.val.i64 else 0
  }

  function RetCode(fs: seq<Field>): U32 {
    var m := FindMeta(fs, RET);
    if m.Some? && m.value.val.Vint? then m.value.val.i64 % TWO_32 else 0
  }

  predicate HasError(fs: seq<Field>) {
    var m := FindMeta(fs, ERR);
    m.Some? && m.value.val.Str?
  }

  /** InitProtocol on the children of a packet. */
  function Init(children: seq<Field>): Proto {
    var h := Find(children, HDR);
    if h.None? then Invalid()
    else
      var fs := Expand(h.value);
      Proto(Some(children), Find(children, BDY).Some?, RetCode(fs), HasError(fs),
            IntChild(fs, ALLOW_SPLIT) != 0, IntChild(fs, MAX_PKG_SIZE) % 0x1_0000,
            IntChild(fs, TOTAL_COUNT) % 0x100, IntChild(fs, CURR_INDEX) % 0x100)
  }

  /** A protocol built from the first field of some bytes. */
  function FromField(f: Field): Proto {
    if f.tag == PKG then Init(Expand(f)) else Invalid()
  }

  /** KnvProtocol(buf, len): what is behind the first field is ignored. */
  function Decode(buf: seq<Byte>): Proto {
    match DecodeField(buf)
    case FOk(f, _) => FromField(f)
    case FFail(_, _, _) => Invalid()
  }

  function EncodeTree(children: seq<Field>): seq<Byte> {
    EncodeField(Fold(PKG, children))
  }

  predicate IsComplete(p: Proto) {
    p.tree.Some? && (p.retcode != 0 || p.total == 0 || p.body)
  }

  function MaxSize(p: Proto): U16 {
    if p.maxPkg < 128 || p.maxPkg > DEFAULT_MAX then DEFAULT_MAX else p.maxPkg
  }

  // ---------- receiving parts ----------

  /** assign(part): the receiver becomes a copy of the part. */
  function Assign(part: Proto): Proto {
    if part.tree.None? then part else part.(body := Find(part.tree.value, BDY).Some?)
  }

  datatype Outcome = Outcome(proto: Proto, code: int)

  /** The low word of a value that is no string, read through the union as a length. */
  function LowWord(v: Value): nat {
    match v
    case Vint(i) => i % TWO_32
    case Fixed64(i) => i % TWO_32
    case Fixed32(i) => i
    case Str(d) => |d|
  }

  datatype Scan = Missing | Bad(code: int) | Sum(len: int)

  /** The first loop of AddPartial: are all parts here, and how long are they together? */
  function ScanParts(tree: seq<Field>, i: nat, n: U8, acc: int): Scan
    requires i <= n
    decreases n - i
  {
    if i == n then Sum(acc)
    else
      var p := Find(tree, PART + i);
      if p.None? then Missing
      else if LowWord(p.value.val) == 0 then Bad(-6)
      else if !p.value.val.Str? then Bad(-7)
      else ScanParts(tree, i + 1, n, ToInt32(acc + |p.value.val.data|))
  }

  datatype Gather = Gather(tree: seq<Field>, bytes: seq<Byte>, ok: bool)

  /** The value of an unsigned variable: x modulo 2^32, by repeated subtraction. */
  function Unsigned(x: nat): nat {
    if x < TWO_32 then x else Unsigned(x - TWO_32)
  }

  lemma {:induction false} UnsignedIsMod(x: nat)
    ensures Unsigned(x) == x % TWO_32
  {
    if x >= TWO_32 { UnsignedIsMod(x - TWO_32); }
  }

  /** The bytes do not fit behind those copied already; the sum is an unsigned one. */
  predicate Overflows(have: nat, more: nat, total: int) {
    Unsigned(have + more) > total
  }

  lemma NoWrap(have: nat, more: nat, total: int)
    requires have < TWO_31 && more < TWO_31
    ensures Overflows(have, more, total) <==> have + more > total
  {}

  /** One turn of the second loop: copy part i behind the others and remove it from the tree. */
  function GatherTurn(tree: seq<Field>, i: U8, bytes: seq<Byte>, total: int): Gather {
    var p := Find(tree, PART + i);
    if p.None? || !p.value.val.Str? || Overflows(|bytes|, |p.value.val.data|, total)
    then Gather(tree, bytes, false)
    else Gather(RemoveFirst(tree, PART + i), bytes + p.value.val.data, true)
  }

  /** The second loop after n turns, or after the one that failed. */
  function GatherParts(tree: seq<Field>, n: U8, total: int): Gather {
    if n == 0 then Gather(tree, [], true)
    else
      var g := GatherParts(tree, n - 1, total);
      if g.ok then GatherTurn(g.tree, n - 1, g.bytes, total) else g
  }

  /** assign(buf, len): refused, changing nothing, when the bytes do not start with a field. */
  function AssignBytes(r: Proto, buf: seq<Byte>): Outcome {
    match DecodeField(buf)
    case FOk(f, _) => Outcome(FromField(f), 0)
    case FFail(_, _, _) => Outcome(r, -1)
  }

  /** AddPartial once the new part is in the tree. */
  function Merge(r: Proto, allocOk: bool): Outcome
    requires r.tree.Some?
  {
    match ScanParts(r.tree.value, 0, r.total, 0)
    case Missing => Outcome(r, 0)
    case Bad(c) => Outcome(r, c)
    case Sum(len) =>
      if len <= 0 then Outcome(r, -8)
      else if !allocOk then Outcome(r, -9)
      else
        var g := GatherParts(r.tree.value, r.total, len);
        var r' := r.(tree := Some(g.tree));
        if !g.ok then Outcome(r', -12)
        else
          var a := AssignBytes(r', g.bytes);
          if a.code != 0 then Outcome(r', -13) else a
  }

  /** KnvProtocol::AddPartial. */
  function AddPartial(r: Proto, part: Proto, allocOk: bool): Outcome {
    if part.tree.None? then Outcome(r, -1)
    else if r.tree.None? then Outcome(Assign(part), 0)
    else if IsComplete(r) || IsComplete(part) || r.total != part.total || part.curr >= r.total then
      Outcome(Assign(part), 0)
    else
      var p := Find(part.tree.value, PART + part.curr);
      if p.None? then Outcome(r, -2)
      else if !p.value.val.Str? then Outcome(r, -3)
      else if Find(r.tree.value, PART + part.curr).Some? then Outcome(r, -4)
      else Merge(r.(tree := Some(r.tree.value + [p.value])), allocOk)
  }

  // ---------- asking for parts ----------

  function Reheaded(p: Proto, fs: seq<Field>): (q: Proto)
    requires p.tree.Some? && Find(p.tree.value, HDR).Some?
    ensures Sound(q)
  {
    var h := Refold(Header(p.tree.value), fs);
    FindWithHeader(p.tree.value, h, HDR);
    p.(tree := Some(WithHeader(p.tree.value, h)))
  }

  datatype FieldsOutcome = FieldsOutcome(fields: seq<Field>, code: int)

  /**
   SetReqSplit on the fields of the header: the permission is set or removed, then
   the limit set.  Removal returns the number of fields removed, which is taken for
   an error; a header that is no node can be given no field.
   */
  function ReqSplitFields(fs: seq<Field>, node: bool, allow: bool, sz: U32): FieldsOutcome {
    var a := if allow then SetChildInt(fs, ALLOW_SPLIT, 1) else Some(RemoveAll(fs, ALLOW_SPLIT));
    if a.None? || (allow && !node) then FieldsOutcome(fs, -2)
    else if !allow && Find(fs, ALLOW_SPLIT).Some? then FieldsOutcome(a.value, -2)
    else if sz == 0 then FieldsOutcome(a.value, 0)
    else
      var c := SetChildInt(a.value, MAX_PKG_SIZE, sz);
      if c.None? || !node then FieldsOutcome(a.value, -3) else FieldsOutcome(c.value, 0)
  }

  /** KnvProtocol::SetReqSplit tells the peer whether and how it may split the reply. */
  function SetReqSplit(p: Proto, allow: bool, sz: U32): (o: Outcome)
    requires Sound(p)
    ensures Sound(o.proto)
  {
    if p.tree.None? then Outcome(p, -1)
    else
      var h := Header(p.tree.value);
      var r := ReqSplitFields(Expand(h), h.val.Str?, allow, sz);
      Outcome(Reheaded(p, r.fields), r.code)
  }

  // ---------- sending parts ----------

  /** The header child, and the tree with another one in its place. */
  function Header(tree: seq<Field>): Field
    requires Find(tree, HDR).Some?
  {
    Find(tree, HDR).value
  }

  function WithHeader(tree: seq<Field>, h: Field): seq<Field> {
    if tree == [] then []
    else if tree[0].tag == HDR then [h] + tree[1..]
    else [tree[0]] + WithHeader(tree[1..], h)
  }

  /** Fold a changed header back; an unchanged one keeps its bytes. */
  function Refold(h: Field, fs: seq<Field>): Field {
    if fs == Expand(h) then h else Fold(h.tag, fs)
  }

  function WithoutSplitFields(h: Field): Field {
    Refold(h, RemoveAll(RemoveAll(Expand(h), TOTAL_COUNT), CURR_INDEX))
  }

  /** Encode(mem, 0, NULL, 0, b) first clears the return code and message of the header. */
  function ClearReturn(p: Proto, h: Field): Field {
    var fs := if p.retcode != 0 then SetMetaInt(Expand(h), RET, 0) else Expand(h);
    Refold(h, if p.errmsg then RemoveAll(fs, ERR) else fs)
  }

  datatype Encoded = Encoded(proto: Proto, bytes: seq<Byte>)

  /** EncodeWithBody(b): the header and b alone. */
  function EncodeWithBody(p: Proto, b: Field): (e: Encoded)
    requires p.tree.Some? && Find(p.tree.value, HDR).Some?
    ensures Sound(e.proto)
  {
    var h := ClearReturn(p, Header(p.tree.value));
    FindWithHeader(p.tree.value, h, HDR);
    Encoded(p.(tree := Some(WithHeader(p.tree.value, h)), retcode := 0, errmsg := false),
            EncodeTree([h, b]))
  }

  /** Encode(mem): the whole tree, or only the header when it carries an error. */
  function EncodeAll(p: Proto): seq<Byte>
    requires p.tree.Some? && Find(p.tree.value, HDR).Some?
  {
    if p.retcode != 0 then EncodeTree([Header(p.tree.value)]) else EncodeTree(p.tree.value)
  }

  /** The no_need_split exit: an external body waits in the tree under the part tag. */
  function KeepWhole(p: Proto, b: Option<Field>): Outcome
    requires p.tree.Some?
  {
    Outcome(if b.None? then p else p.(tree := Some(p.tree.value + [Field(PART, b.value.val)])), 0)
  }

  /** (a + b - 1) / b by repeated subtraction, which keeps the proofs linear. */
  function CeilDiv(a: nat, b: nat): nat
    requires b > 0
  {
    if a == 0 then 0 else if a <= b then 1 else 1 + CeilDiv(a - b, b)
  }

  lemma {:induction false} CeilDivIsQuotient(a: nat, b: nat)
    requires b > 0
    ensures CeilDiv(a, b) == (a + b - 1) / b
  {
    if a > b {
      CeilDivIsQuotient(a - b, b);
      var q := (a - 1) / b;
      assert (a + b - 1) == b * (q + 1) + (a - 1) % b;
      QuotientUnique(a + b - 1, b, q + 1, (a - 1) % b);
    } else if a > 0 {
      QuotientUnique(a + b - 1, b, 1, a - 1);
    } else {
      QuotientUnique(b - 1, b, 0, b - 1);
    }
  }

  lemma QuotientUnique(x: nat, b: nat, q: nat, r: nat)
    requires b > 0 && x == b * q + r && r < b
    ensures x / b == q
  {
    var d := x / b - q;
    assert b * d == r - x % b;
    assert d >= 1 ==> b * d >= b;
    assert d <= -1 ==> b * d <= -1 * b;
  }

  /** i * sz, the position of part i, spelled as repeated addition to keep the proofs linear. */
  function Offset(sz: nat, i: nat): nat {
    if i == 0 then 0 else Offset(sz, i - 1) + sz
  }

  lemma {:induction false} OffsetIsProduct(sz: nat, i: nat)
    ensures Offset(sz, i) == i * sz
  {
    if i > 0 {
      OffsetIsProduct(sz, i - 1);
      assert i * sz == (i - 1) * sz + sz;
    }
  }

  lemma {:induction false} OffsetMono(sz: nat, i: nat, j: nat)
    requires i <= j
    ensures Offset(sz, i) <= Offset(sz, j)
    decreases j - i
  {
    if i < j { OffsetMono(sz, i, j - 1); }
  }

  /** Part i of n: sz bytes from its position, the last one taking what is left. */
  function Slice(enc: seq<Byte>, sz: nat, n: nat, i: nat): seq<Byte>
    requires i < n && Offset(sz, n - 1) <= |enc|
  {
    OffsetMono(sz, i, n - 1);
    if i == n - 1 then enc[Offset(sz, i)..]
    else
      OffsetMono(sz, i + 1, n - 1);
      enc[Offset(sz, i)..Offset(sz, i + 1)]
  }

  /** The Split loop from part i on: drop stale children with the part tag, append the part. */
  function InsertParts(tree: seq<Field>, enc: seq<Byte>, sz: nat, n: nat, i: nat): seq<Field>
    requires i <= n < TWO_31 && 0 < n && Offset(sz, n - 1) <= |enc|
    decreases n - i
  {
    if i == n then tree
    else InsertParts(RemoveAll(tree, PART + i) + [Field(PART + i, Str(Slice(enc, sz, n, i)))], enc, sz, n, i + 1)
  }

  /** Part 2495 has the header's own tag. */
  const HDR_PART := 2495

  /** Number the parts in the header and put them into the tree. */
  function CutParts(p: Proto, enc: seq<Byte>, sz: nat, n: nat): Outcome
    requires p.tree.Some? && Find(p.tree.value, HDR).Some?
    requires 0 < n < TWO_31 && Offset(sz, n - 1) <= |enc|
  {
    var h := Header(p.tree.value);
    var fs := SetChildInt(Expand(h), TOTAL_COUNT, n);
    if !h.val.Str? || fs.None? then Outcome(p.(total := n % 0x100), -7)
    else
      var tree' := WithHeader(p.tree.value, Refold(h, fs.value));
      Outcome(p.(total := n % 0x100, tree := Some(InsertParts(tree', enc, sz, n, 0))), 0)
  }

  /** What Split does once it has the encoded packet. */
  function Cut(p: Proto, b: Option<Field>, enc: seq<Byte>): Outcome
    requires p.tree.Some? && Find(p.tree.value, HDR).Some?
    requires |enc| < TWO_31
  {
    if |enc| <= MaxSize(p) then KeepWhole(p, b)
    else if PartSize(p) == 0 then Outcome(p, -6)
    else
      CeilDivBounds(|enc|, PartSize(p));
      CeilDivAtMost(|enc|, PartSize(p));
      CutParts(p, enc, PartSize(p), Parts(p, enc))
  }

  /** The room for contents in each part, zero when the header leaves none. */
  function PartSize(p: Proto): nat
    requires p.tree.Some? && Find(p.tree.value, HDR).Some?
  {
    var h := |EncodeField(Header(p.tree.value))| + 16;
    if h >= MaxSize(p) then 0 else MaxSize(p) - h
  }

  function Parts(p: Proto, enc: seq<Byte>): nat
    requires p.tree.Some? && Find(p.tree.value, HDR).Some?
  {
    if PartSize(p) == 0 then 0 else CeilDiv(|enc|, PartSize(p))
  }

  /** n parts of b bytes are enough for a bytes, and n - 1 are not. */
  lemma {:induction false} CeilDivBounds(a: nat, b: nat)
    requires b > 0
    ensures var n := CeilDiv(a, b);
            && a <= Offset(b, n)
            && (a > 0 ==> n > 0 && Offset(b, n - 1) < a)
            && (a > b ==> n >= 2)
  {
    if a > b {
      CeilDivBounds(a - b, b);
    } else if a > 0 {
      assert Offset(b, 1) == b;
    }
  }

  lemma {:induction false} CeilDivAtMost(a: nat, b: nat)
    requires b > 0
    ensures CeilDiv(a, b) <= a
  {
    if a > b { CeilDivAtMost(a - b, b); }
  }

  /** A valid protocol always has a header child. */
  predicate Sound(p: Proto) {
    p.tree.Some? ==> Find(p.tree.value, HDR).Some?
  }

  /** Split up to the point where the packet is encoded. */
  function Stripped(p: Proto): Proto
    requires p.tree.Some? && Find(p.tree.value, HDR).Some?
  {
    p.(total := 1, tree := Some(WithHeader(p.tree.value, WithoutSplitFields(Header(p.tree.value)))))
  }

  lemma {:induction false} FindWithHeader(tree: seq<Field>, h: Field, tag: U32)
    requires h.tag == HDR && Find(tree, HDR).Some?
    ensures Find(WithHeader(tree, h), tag) == if tag == HDR then Some(h) else Find(tree, tag)
  {
    if tree[0].tag != HDR {
      assert WithHeader(tree, h)[1..] == WithHeader(tree[1..], h);
      FindWithHeader(tree[1..], h, tag);
    } else {
      assert WithHeader(tree, h)[1..] == tree[1..];
    }
  }

  /** The bytes Split cuts, and the protocol after encoding them. */
  function EncodedForSplit(p: Proto, b: Option<Field>): (e: Encoded)
    requires p.tree.Some? && Find(p.tree.value, HDR).Some?
    ensures e.proto.tree.Some? && Find(e.proto.tree.value, HDR).Some?
    ensures e.proto.maxPkg == p.maxPkg
  {
    var p1 := Stripped(p);
    FindWithHeader(p.tree.value, WithoutSplitFields(Header(p.tree.value)), HDR);
    if b.None? then Encoded(p1, EncodeAll(p1))
    else
      FindWithHeader(p1.tree.value, ClearReturn(p1, Header(p1.tree.value)), HDR);
      EncodeWithBody(p1, b.value)
  }

  /** The evaluated size that decides whether to try splitting at all. */
  function EvaluatedSize(p: Proto, b: Option<Field>): nat
    requires p.tree.Some? && Find(p.tree.value, HDR).Some?
  {
    if b.None? then |EncodeTree(p.tree.value)| + 32
    else |EncodeField(Header(p.tree.value))| + |EncodeField(b.value)| + 32
  }

  /** KnvProtocol::Split; the length of the encoded packet is an int. */
  function Split(p: Proto, b: Option<Field>, allocOk: bool): Outcome
    requires Sound(p)
    requires p.tree.Some? ==> |EncodedForSplit(p, b).bytes| < TWO_31
  {
    if p.tree.None? then Outcome(p, -1)
    else
      var p1 := Stripped(p);
      FindWithHeader(p.tree.value, WithoutSplitFields(Header(p.tree.value)), HDR);
      if !p.allowSplit || (b.None? && !p.body) || EvaluatedSize(p1, b) <= MaxSize(p) then KeepWhole(p1, b)
      else
        var e := EncodedForSplit(p, b);
        if !allocOk then Outcome(e.proto, -5) else Cut(e.proto, b, e.bytes)
  }

  /** The result of EncodePart: a negative code, or the length of the bytes. */
  datatype PartOutcome = PartOutcome(proto: Proto, code: int, bytes: seq<Byte>)

  function Finish(e: Encoded, allocOk: bool, failure: int): PartOutcome {
    if allocOk then PartOutcome(e.proto, |e.bytes|, e.bytes) else PartOutcome(e.proto, failure, [])
  }

  /** The tag of a part; a negative index gives a smaller one, or wraps around. */
  function PartTag(index: Int32): U32 {
    if PART + index >= 0 then PART + index else PART + index + TWO_32
  }

  /** An int stored as a 64-bit number. */
  function AsU64(index: Int32): U64 {
    if index >= 0 then index else index + TWO_64
  }

  /** KnvProtocol::EncodePart: only an index that is too large is refused. */
  function EncodePart(p: Proto, index: Int32, allocOk: bool): (o: PartOutcome)
    requires Sound(p)
    ensures Sound(o.proto)
  {
    if p.tree.None? || index >= p.total then PartOutcome(p, -1, [])
    else if p.total == 1 then
      var b := Find(p.tree.value, PART);
      if b.Some? then Finish(EncodeWithBody(p, b.value.(tag := BDY)), allocOk, -6)
      else Finish(Encoded(p, EncodeAll(p)), allocOk, if p.retcode != 0 then -6 else -2)
    else
      var b := Find(p.tree.value, PartTag(index));
      if b.None? then PartOutcome(p, -2, [])
      else
        var h := Header(p.tree.value);
        var fs := SetChildInt(Expand(h), CURR_INDEX, AsU64(index));
        if !h.val.Str? || fs.None? then PartOutcome(p, -3, [])
        else
          FindWithHeader(p.tree.value, Refold(h, fs.value), HDR);
          var p1 := p.(tree := Some(WithHeader(p.tree.value, Refold(h, fs.value))));
          Finish(EncodeWithBody(p1, b.value), allocOk, -6)
  }
}
