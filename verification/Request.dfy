/** How a request tells its peer to split the reply: SetReqSplit, encoding and decoding. */
module Request {
  import opened Bytes
  import opened Wire
  import opened Packet
  import opened Fields
  import opened EndToEnd

  /** The tag has a string, which SetChildInt refuses. */
  predicate StringAt(fs: seq<Field>, tag: U32) {
    Find(fs, tag).Some? && Find(fs, tag).value.val.Str?
  }

  /** The tag has a fixed-size number, which is set but never read. */
  predicate FixedAt(fs: seq<Field>, tag: U32) {
    Find(fs, tag).Some? && (Find(fs, tag).value.val.Fixed64? || Find(fs, tag).value.val.Fixed32?)
  }

  /** When SetReqSplit succeeds. */
  predicate Accepted(fs: seq<Field>, allow: bool, sz: U32) {
    && (if allow then !StringAt(fs, ALLOW_SPLIT) else Find(fs, ALLOW_SPLIT).None?)
    && (sz != 0 ==> !StringAt(fs, MAX_PKG_SIZE))
  }

  lemma ReheadedExpands(p: Proto, fs: seq<Field>)
    requires Sender(p) && AllEncodable(fs)
    ensures var q := Reheaded(p, fs); Find(q.tree.value, HDR).Some? && Expand(Header(q.tree.value)) == fs
  {
    var h := Header(p.tree.value);
    RefoldExpands(h, fs);
    FindWithHeader(p.tree.value, Refold(h, fs), HDR);
  }

  /** The fields after the first step, which sets or removes the permission. */
  function Permitted(fs: seq<Field>, allow: bool): (a: Option<seq<Field>>)
  {
    if allow then SetChildInt(fs, ALLOW_SPLIT, 1) else Some(RemoveAll(fs, ALLOW_SPLIT))
  }

  lemma PermittedFacts(fs: seq<Field>, allow: bool, t: U32)
    requires AllEncodable(fs)
    ensures var a := Permitted(fs, allow);
            && (a.None? <==> allow && StringAt(fs, ALLOW_SPLIT))
            && (a.Some? ==> AllEncodable(a.value))
            && (a.Some? && t != ALLOW_SPLIT ==>
                  Find(a.value, t) == Find(fs, t) && FindMeta(a.value, t) == FindMeta(fs, t))
            && (a.Some? ==> (IntChild(a.value, ALLOW_SPLIT) != 0 <==> allow && !FixedAt(fs, ALLOW_SPLIT)))
  {
    if allow {
      SetChildExactly(fs, ALLOW_SPLIT, 1, t);
    } else {
      RemoveAllFacts(fs, ALLOW_SPLIT);
      FindAbsent(RemoveAll(fs, ALLOW_SPLIT), ALLOW_SPLIT);
      if t != ALLOW_SPLIT { FindAfterRemoveAll(fs, ALLOW_SPLIT, t); }
    }
  }

  /**
   SetReqSplit succeeds if and only if no string has one of the tags it sets and,
   to withdraw a permission, there was none: withdrawing one that is there removes
   it and still fails with -2.  Where it succeeds, both fields are as asked for
   unless a fixed-size number had the tag, and no other field reads differently.
   */
  lemma ReqSplitExactly(fs: seq<Field>, allow: bool, sz: U32, t: U32)
    requires AllEncodable(fs) && t != ALLOW_SPLIT && t != MAX_PKG_SIZE
    ensures var r := ReqSplitFields(fs, true, allow, sz);
            && (r.code == 0 <==> Accepted(fs, allow, sz)) && AllEncodable(r.fields)
            && (!allow && Find(fs, ALLOW_SPLIT).Some? ==> r.code == -2 && IntChild(r.fields, ALLOW_SPLIT) == 0)
            && (r.code == 0 ==> (IntChild(r.fields, ALLOW_SPLIT) != 0 <==> allow && !FixedAt(fs, ALLOW_SPLIT)))
            && (r.code == 0 ==> IntChild(r.fields, MAX_PKG_SIZE) == LimitAfter(fs, sz))
            && Find(r.fields, t) == Find(fs, t) && FindMeta(r.fields, t) == FindMeta(fs, t)
  {
    var a := Permitted(fs, allow);
    PermittedFacts(fs, allow, t);
    PermittedFacts(fs, allow, MAX_PKG_SIZE);
    if a.Some? {
      SetChildExactly(a.value, MAX_PKG_SIZE, sz, t);
      SetChildExactly(a.value, MAX_PKG_SIZE, sz, ALLOW_SPLIT);
    }
  }

  /** The limit that is read afterwards: the one asked for, unless it cannot be read or none was asked for. */
  function LimitAfter(fs: seq<Field>, sz: U32): U64 {
    if sz == 0 then IntChild(fs, MAX_PKG_SIZE) else if FixedAt(fs, MAX_PKG_SIZE) then 0 else sz
  }

  /** What decoding reads from a header whose fields are gs. */
  lemma ReadsRequest(tree: seq<Field>, gs: seq<Field>)
    requires Find(tree, HDR).Some? && Expand(Find(tree, HDR).value) == gs
    ensures var r := Init(tree);
            && r.tree == Some(tree) && r.retcode == RetCode(gs) && r.allowSplit == (IntChild(gs, ALLOW_SPLIT) != 0)
            && r.maxPkg == IntChild(gs, MAX_PKG_SIZE) % 0x1_0000
  {}

  lemma LimitKept(r: Proto, sz: U32)
    requires r.maxPkg == sz % 0x1_0000
    ensures MaxSize(r) == sz <==> 128 <= sz <= 64000
  {}

  /**
   The request reaches the peer: the packet decodes to a protocol that may split
   exactly when that was asked for, with the limit modulo 2^16, which is the one
   asked for if and only if that lies between 128 and 64000.
   */
  lemma RequestReaches(p: Proto, allow: bool, sz: U32)
    requires Sender(p) && sz != 0
    requires var fs := Expand(Header(p.tree.value));
             Accepted(fs, allow, sz) && !FixedAt(fs, ALLOW_SPLIT) && !FixedAt(fs, MAX_PKG_SIZE)
    requires var tree := SetReqSplit(p, allow, sz).proto.tree;
             tree.Some? && AllEncodable(tree.value) && |EncodeTree(tree.value)| < TWO_31
    ensures var tree := SetReqSplit(p, allow, sz).proto.tree.value;
            var r := Decode(EncodeTree(tree));
            && r.tree == Some(tree) && r.retcode == p.retcode
            && r.allowSplit == allow && r.maxPkg == sz % 0x1_0000
            && (MaxSize(r) == sz <==> 128 <= sz <= 64000)
  {
    var fs := Expand(Header(p.tree.value));
    ReqSplitExactly(fs, allow, sz, RET);
    ReheadedExpands(p, ReqSplitFields(fs, true, allow, sz).fields);
    Reaches(p, SetReqSplit(p, allow, sz).proto.tree.value, ReqSplitFields(fs, true, allow, sz).fields, allow, sz);
  }

  lemma Reaches(p: Proto, tree: seq<Field>, gs: seq<Field>, allow: bool, sz: U32)
    requires Sender(p) && AllEncodable(tree) && |EncodeTree(tree)| < TWO_31
    requires Find(tree, HDR).Some? && Expand(Find(tree, HDR).value) == gs
    requires FindMeta(gs, RET) == FindMeta(Expand(Header(p.tree.value)), RET)
    requires (IntChild(gs, ALLOW_SPLIT) != 0 <==> allow) && IntChild(gs, MAX_PKG_SIZE) == sz
    ensures var r := Decode(EncodeTree(tree));
            && r.tree == Some(tree) && r.retcode == p.retcode
            && r.allowSplit == allow && r.maxPkg == sz % 0x1_0000
            && (MaxSize(r) == sz <==> 128 <= sz <= 64000)
  {
    DecodeIntended(tree);
    ReadsRequest(tree, gs);
    LimitKept(Init(tree), sz);
  }
}
