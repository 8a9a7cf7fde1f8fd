/**
 KnvProtocol as the object it is in src/protocol.h: its fields, updated in place
 by the loops of AddPartial and Split.  Each method is proved against the
 function of module Packet that the theorems are about.
 */
module Protocol {
  import opened Bytes
  import opened Wire
  import opened Packet
  import opened Fields
  import opened Reassembly
  import opened Splitting

  /** Strings come from buffers whose lengths are ints. */
  predicate Short(fs: seq<Field>) {
    forall i :: 0 <= i < |fs| && fs[i].val.Str? ==> |fs[i].val.data| < TWO_31
  }

  predicate ShortTree(p: Proto) {
    p.tree.Some? ==> Short(p.tree.value)
  }

  // ---------- what the updates keep ----------

  lemma {:induction false} ReadShort(s: seq<Byte>)
    requires |s| < TWO_31
    ensures Short(ReadFields(s).fields)
    decreases |s|
  {
    match DecodeField(s)
    case FOk(f, n) => ReadShort(s[n..]);
    case FFail(_, _, _) =>
  }

  /** A protocol decoded from fewer than 2^31 bytes. */
  lemma DecodedShort(buf: seq<Byte>)
    requires |buf| < TWO_31
    ensures Sound(Decode(buf)) && ShortTree(Decode(buf))
  {
    var r := DecodeField(buf);
    if r.FOk? && r.field.val.Str? { ReadShort(r.field.val.data); }
  }

  lemma {:induction false} RemoveFirstKeeps(fs: seq<Field>, tag: U32)
    ensures Short(fs) ==> Short(RemoveFirst(fs, tag))
  {
    if fs != [] && fs[0].tag != tag {
      RemoveFirstKeeps(fs[1..], tag);
      assert Short(fs) ==> Short(fs[1..]);
      var r := RemoveFirst(fs[1..], tag);
      assert forall i :: 1 <= i < |[fs[0]] + r| ==> ([fs[0]] + r)[i] == r[i - 1];
    }
  }

  /** Taking a part out of the tree keeps its header. */
  lemma RemovePartKeeps(tree: seq<Field>, i: U8)
    requires Short(tree)
    ensures var t := RemoveFirst(tree, PART + i);
            Short(t) && Find(t, HDR) == Find(tree, HDR)
  {
    RemoveFirstKeeps(tree, PART + i);
    FindAfterRemove(tree, PART + i, HDR);
  }

  /** What the copying loop keeps: the header of the tree, and bytes within the buffer. */
  predicate InOrder(g: Gather, tree: seq<Field>, total: nat) {
    Short(g.tree) && Find(g.tree, HDR) == Find(tree, HDR) && |g.bytes| <= total
  }

  lemma TurnKeeps(g: Gather, i: U8, tree: seq<Field>, total: nat)
    requires InOrder(g, tree, total) && total < TWO_31
    ensures InOrder(GatherTurn(g.tree, i, g.bytes, total), tree, total)
  {
    RemovePartKeeps(g.tree, i);
    var p := Find(g.tree, PART + i);
    if p.Some? && p.value.val.Str? {
      assert p.value in g.tree;
      NoWrap(|g.bytes|, |p.value.val.data|, total);
    }
  }

  lemma {:induction false} TurnsKeep(tree: seq<Field>, n: U8, total: nat)
    requires Short(tree) && total < TWO_31
    ensures InOrder(GatherParts(tree, n, total), tree, total)
  {
    if n > 0 {
      TurnsKeep(tree, n - 1, total);
      TurnKeeps(GatherParts(tree, n - 1, total), n - 1, tree, total);
    }
  }

  /** A failed turn ends the loop. */
  lemma {:induction false} FailedTurnIsLast(tree: seq<Field>, i: nat, n: U8, total: int)
    requires i <= n && !GatherParts(tree, i, total).ok
    ensures GatherParts(tree, n, total) == GatherParts(tree, i, total)
    decreases n - i
  {
    if i < n { FailedTurnIsLast(tree, i + 1, n, total); }
  }

  class KnvProtocol {
    var tree: Option<seq<Field>>
    var body: bool
    var retcode: U32
    var retmsg: bool
    var allowSplit: bool
    var maxPkg: U16
    var total: U8
    var curr: U8

    function State(): Proto
      reads this
    {
      Proto(tree, body, retcode, retmsg, allowSplit, maxPkg, total, curr)
    }

    predicate Valid()
      reads this
    {
      Sound(State())
    }

    constructor ()
      ensures State() == Invalid() && Valid()
    {
      tree, body, retcode, retmsg, allowSplit, maxPkg, total, curr := None, false, 0, false, false, 0, 0, 0;
    }

    method Become(p: Proto)
      modifies this
      ensures State() == p
    {
      tree, body, retcode, retmsg := p.tree, p.body, p.retcode, p.errmsg;
      allowSplit, maxPkg, total, curr := p.allowSplit, p.maxPkg, p.total, p.curr;
    }

    /** assign(prot): a copy of another protocol, with its body looked up afresh. */
    method Assign(prot: KnvProtocol)
      requires prot != this && prot.Valid() && prot.tree.Some?
      modifies this
      ensures State() == Packet.Assign(old(prot.State())) && Valid()
    {
      retcode, retmsg, allowSplit, maxPkg := prot.retcode, prot.retmsg, prot.allowSplit, prot.maxPkg;
      total, curr := prot.total, prot.curr;
      tree := prot.tree;
      body := Find(tree.value, BDY).Some?;
    }

    /** assign(buf, len): the protocol decoded from a buffer, or no change when it does not start with a field. */
    method AssignBytes(buf: seq<Byte>) returns (code: int)
      requires Valid() && |buf| < TWO_31
      modifies this
      ensures Outcome(State(), code) == Packet.AssignBytes(old(State()), buf)
      ensures Valid() && (old(ShortTree(State())) ==> ShortTree(State()))
    {
      var r := DecodeField(buf);
      if r.FFail? { return -1; }
      DecodedShort(buf);
      Become(FromField(r.field));
      code := 0;
    }

    /** The first loop of AddPartial. */
    method TotalLength() returns (s: Scan)
      requires tree.Some?
      ensures s == ScanParts(tree.value, 0, total, 0)
    {
      var len := 0;
      var i := 0;
      while i < total
        invariant 0 <= i <= total
        invariant ScanParts(tree.value, 0, total, 0) == ScanParts(tree.value, i, total, len)
      {
        var p := Find(tree.value, PART + i);
        if p.None? { return Missing; }
        if LowWord(p.value.val) == 0 { return Bad(-6); }
        if !p.value.val.Str? { return Bad(-7); }
        len := ToInt32(len + |p.value.val.data|);
        i := i + 1;
      }
      s := Sum(len);
    }

    /** One turn of the second loop: copy part i behind the others and take it out of the tree. */
    method TakePart(i: nat, m: array<Byte>, curLen: nat) returns (ok: bool, newLen: nat)
      requires tree.Some? && Short(tree.value) && i < total && curLen <= m.Length < TWO_31
      modifies this`tree, m
      ensures newLen <= m.Length && tree.Some?
      ensures Gather(tree.value, m[..newLen], ok) == GatherTurn(old(tree.value), i, old(m[..curLen]), m.Length)
    {
      TurnKeeps(Gather(tree.value, m[..curLen], true), i, tree.value, m.Length);
      var p := Find(tree.value, PART + i);
      if p.None? || !p.value.val.Str? || Overflows(curLen, |p.value.val.data|, m.Length) {
        return false, curLen;
      }
      newLen := curLen + |p.value.val.data|;
      Copy(m, curLen, p.value.val.data);
      tree := Some(RemoveFirst(tree.value, PART + i));
      ok := true;
    }

    /** The second loop of AddPartial. */
    method GatherInto(m: array<Byte>) returns (ok: bool, curLen: nat)
      requires tree.Some? && Valid() && Short(tree.value) && m.Length < TWO_31
      modifies this`tree, m
      ensures curLen <= m.Length && tree.Some? && Valid() && Short(tree.value)
      ensures Gather(tree.value, m[..curLen], ok) == GatherParts(old(tree.value), total, m.Length)
    {
      curLen, ok := 0, true;
      ghost var t := tree.value;
      var i := 0;
      while ok && i < total
        invariant 0 <= i <= total && curLen <= m.Length && tree.Some?
        invariant GatherParts(t, i, m.Length) == Gather(tree.value, m[..curLen], ok)
        decreases total - i
      {
        TurnsKeep(t, i, m.Length);
        ok, curLen := TakePart(i, m, curLen);
        i := i + 1;
      }
      TurnsKeep(t, i, m.Length);
      if !ok { FailedTurnIsLast(t, i, total, m.Length); }
    }

    /** AddPartial: take a part, and become the whole message when it was the last one. */
    method AddPartial(part: KnvProtocol, allocOk: bool) returns (code: int)
      requires part != this && Valid() && ShortTree(State()) && part.Valid() && ShortTree(part.State())
      modifies this
      ensures Outcome(State(), code) == Packet.AddPartial(old(State()), old(part.State()), allocOk)
      ensures Valid() && ShortTree(State())
    {
      if part.tree.None? { return -1; }
      if tree.None? || IsComplete(State()) || IsComplete(part.State()) || total != part.total || part.curr >= total {
        Assign(part);
        return 0;
      }
      var p := Find(part.tree.value, PART + part.curr);
      if p.None? { return -2; }
      if !p.value.val.Str? { return -3; }
      if Find(tree.value, PART + part.curr).Some? { return -4; }
      FindAppend(tree.value, [p.value], HDR);
      tree := Some(tree.value + [p.value]);
      code := Merge(allocOk);
    }

    /** AddPartial from the first loop on. */
    method Merge(allocOk: bool) returns (code: int)
      requires tree.Some? && Valid() && ShortTree(State())
      modifies this
      ensures Outcome(State(), code) == Packet.Merge(old(State()), allocOk)
      ensures Valid() && ShortTree(State())
    {
      var s := TotalLength();
      if s.Missing? { return 0; }
      if s.Bad? { return s.code; }
      if s.len <= 0 { return -8; }
      if !allocOk { return -9; }
      SumBound(tree.value, 0, total, 0);
      var m := new Byte[s.len](_ => 0);
      var ok, curLen := GatherInto(m);
      if !ok { return -12; }
      var a := AssignBytes(m[..curLen]);
      code := if a == 0 then 0 else -13;
    }

    /** EncodeWithBody: clear the return code and message in the header, and encode it with b. */
    method EncodeWithBody(b: Field) returns (bytes: seq<Byte>)
      requires Valid() && tree.Some?
      modifies this
      ensures Encoded(State(), bytes) == Packet.EncodeWithBody(old(State()), b) && Valid()
    {
      var h := Header(tree.value);
      var fs := Expand(h);
      if retcode != 0 {
        fs := SetMetaInt(fs, RET, 0);
        retcode := 0;
      }
      if retmsg {
        fs := RemoveAll(fs, ERR);
        retmsg := false;
      }
      FindWithHeader(tree.value, Refold(h, fs), HDR);
      tree := Some(WithHeader(tree.value, Refold(h, fs)));
      bytes := EncodeTree([Refold(h, fs), b]);
    }

    /** The no_need_split exit of Split. */
    method KeepWhole(b: Option<Field>)
      requires Valid() && tree.Some?
      modifies this`tree
      ensures State() == Packet.KeepWhole(old(State()), b).proto && Valid()
    {
      if b.Some? {
        FindAppend(tree.value, [Field(PART, b.value.val)], HDR);
        tree := Some(tree.value + [Field(PART, b.value.val)]);
      }
    }

    /** The loop of Split: part i is sz bytes from position i * sz, the last one what is left. */
    method InsertParts(enc: seq<Byte>, sz: nat, n: nat)
      requires Valid() && tree.Some? && 0 < n < TWO_31 && Offset(sz, n - 1) <= |enc|
      modifies this`tree
      ensures tree == Some(Packet.InsertParts(old(tree.value), enc, sz, n, 0)) && Valid()
    {
      var last := n - 1;
      OffsetIsProduct(sz, last);
      var szLast := |enc| - last * sz;
      var i := 0;
      while i < n
        invariant 0 <= i <= n && tree.Some?
        invariant Packet.InsertParts(old(tree.value), enc, sz, n, 0) == Packet.InsertParts(tree.value, enc, sz, n, i)
      {
        SlicePosition(enc, sz, n, i);
        var len := if i == last then szLast else sz;
        var part := enc[i * sz..i * sz + len];
        tree := Some(RemoveAll(tree.value, PART + i) + [Field(PART + i, Str(part))]);
        i := i + 1;
      }
      HeaderAfterParts(old(tree.value), enc, sz, n);
    }

    /** Split from the part count on. */
    method CutParts(enc: seq<Byte>, sz: nat) returns (code: int)
      requires Valid() && tree.Some? && 0 < sz && 0 < CeilDiv(|enc|, sz) && |enc| < TWO_31
      modifies this
      ensures Offset(sz, CeilDiv(|enc|, sz) - 1) <= |enc| && CeilDiv(|enc|, sz) < TWO_31
      ensures Outcome(State(), code) == Packet.CutParts(old(State()), enc, sz, CeilDiv(|enc|, sz)) && Valid()
    {
      CeilDivIsQuotient(|enc|, sz);
      CeilDivBounds(|enc|, sz);
      CeilDivAtMost(|enc|, sz);
      var n := (|enc| + sz - 1) / sz;
      total := n % 0x100;
      var h := Header(tree.value);
      var fs := SetChildInt(Expand(h), TOTAL_COUNT, n);
      if !h.val.Str? || fs.None? { return -7; }
      FindWithHeader(tree.value, Refold(h, fs.value), HDR);
      tree := Some(WithHeader(tree.value, Refold(h, fs.value)));
      InsertParts(enc, sz, n);
      code := 0;
    }

    /** SetReqSplit: the permission first, then the limit. */
    method SetReqSplit(allow: bool, sz: U32) returns (code: int)
      requires Valid()
      modifies this
      ensures Outcome(State(), code) == Packet.SetReqSplit(old(State()), allow, sz) && Valid()
    {
      if tree.None? { return -1; }
      var h := Header(tree.value);
      var fs := Expand(h);
      code := 0;
      if allow {
        var a := SetChildInt(fs, ALLOW_SPLIT, 1);
        if a.None? || !h.val.Str? { code := -2; } else { fs := a.value; }
      } else {
        if Find(fs, ALLOW_SPLIT).Some? { code := -2; }
        fs := RemoveAll(fs, ALLOW_SPLIT);
      }
      if code == 0 && sz != 0 {
        var c := SetChildInt(fs, MAX_PKG_SIZE, sz);
        if c.None? || !h.val.Str? { code := -3; } else { fs := c.value; }
      }
      Become(Reheaded(State(), fs));
    }

    /** Split first drops the split fields of the header. */
    method Strip()
      requires Valid() && tree.Some?
      modifies this
      ensures State() == Stripped(old(State())) && Valid()
    {
      total := 1;
      var h := WithoutSplitFields(Header(tree.value));
      FindWithHeader(tree.value, h, HDR);
      tree := Some(WithHeader(tree.value, h));
    }

    /** Split: leave the encoded packet in the tree as parts, or the body whole when it fits. */
    method Split(b: Option<Field>, allocOk: bool) returns (code: int)
      requires Valid()
      requires tree.Some? ==> |EncodedForSplit(State(), b).bytes| < TWO_31
      modifies this
      ensures Outcome(State(), code) == Packet.Split(old(State()), b, allocOk) && Valid()
    {
      if tree.None? { return -1; }
      Strip();
      if !allowSplit || (b.None? && !body) || EvaluatedSize(State(), b) <= MaxSize(State()) {
        KeepWhole(b);
        return 0;
      }
      var enc;
      if b.Some? {
        enc := EncodeWithBody(b.value);
      } else {
        enc := EncodeAll(State());
      }
      if !allocOk { return -5; }
      code := Cut(b, enc);
    }

    /** Split once the packet is encoded; a packet over the limit always needs two parts or more. */
    method Cut(b: Option<Field>, enc: seq<Byte>) returns (code: int)
      requires Valid() && tree.Some? && |enc| < TWO_31
      modifies this
      ensures Outcome(State(), code) == Packet.Cut(old(State()), b, enc) && Valid()
    {
      var max := MaxSize(State());
      if |enc| <= max {
        KeepWhole(b);
        return 0;
      }
      var header := |EncodeField(Header(tree.value))| + 16;
      if header >= max { return -6; }
      CeilDivBounds(|enc|, max - header);
      code := CutParts(enc, max - header);
    }

    /** EncodePart: the packet of one part, the header now carrying its index. */
    method EncodePart(index: Int32, allocOk: bool) returns (code: int, bytes: seq<Byte>)
      requires Valid()
      modifies this
      ensures PartOutcome(State(), code, bytes) == Packet.EncodePart(old(State()), index, allocOk) && Valid()
    {
      bytes := [];
      if tree.None? || index >= total { return -1, []; }
      var failure := -6;
      if total == 1 {
        var b := Find(tree.value, PART);
        if b.Some? {
          bytes := EncodeWithBody(b.value.(tag := BDY));
        } else {
          bytes := EncodeAll(State());
          if retcode == 0 { failure := -2; }
        }
      } else {
        var b := Find(tree.value, PartTag(index));
        if b.None? { return -2, []; }
        var h := Header(tree.value);
        var fs := SetChildInt(Expand(h), CURR_INDEX, AsU64(index));
        if !h.val.Str? || fs.None? { return -3, []; }
        FindWithHeader(tree.value, Refold(h, fs.value), HDR);
        tree := Some(WithHeader(tree.value, Refold(h, fs.value)));
        bytes := EncodeWithBody(b.value);
      }
      if !allocOk { return failure, []; }
      code := |bytes|;
    }
  }

  /** Where part i lies in the encoded packet. */
  lemma SlicePosition(enc: seq<Byte>, sz: nat, n: nat, i: nat)
    requires i < n && Offset(sz, n - 1) <= |enc|
    ensures var len := if i == n - 1 then |enc| - (n - 1) * sz else sz;
            0 <= i * sz <= i * sz + len <= |enc| && enc[i * sz..i * sz + len] == Slice(enc, sz, n, i)
  {
    OffsetIsProduct(sz, i);
    OffsetIsProduct(sz, n - 1);
    OffsetMono(sz, i, n - 1);
    if i < n - 1 {
      OffsetMono(sz, i + 1, n - 1);
    }
  }

  /** memcpy. */
  method Copy(m: array<Byte>, at: nat, d: seq<Byte>)
    requires at + |d| <= m.Length
    modifies m
    ensures m[..at + |d|] == old(m[..at]) + d
  {
    forall j | 0 <= j < |d| {
      m[at + j] := d[j];
    }
  }

  lemma {:induction false} SumBound(tree: seq<Field>, i: nat, n: U8, acc: int)
    requires i <= n && acc < TWO_31
    ensures var s := ScanParts(tree, i, n, acc); s.Sum? ==> s.len < TWO_31
    decreases n - i
  {
    if i < n {
      var p := Find(tree, PART + i);
      if p.Some? && p.value.val.Str? { SumBound(tree, i + 1, n, ToInt32(acc + |p.value.val.data|)); }
    }
  }
}
