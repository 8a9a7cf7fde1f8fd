/**
 What Split decides for every sender, and the packets it keeps whole: EncodePart
 sends one packet, and every receiver takes that for the whole message.
 */
module Unsplit {
  import opened Bytes
  import opened Wire
  import opened Packet
  import opened Fields
  import opened Reassembly
  import opened Splitting
  import opened Transfer
  import opened EndToEnd

  // ---------- what Split decides ----------

  /**
   Every sender: Split keeps the packet as one part unless it may be split and is
   over the limit; then it fails with -6, changing no count, if and only if the
   header leaves no room, and otherwise cuts the packet and keeps the number of
   parts modulo 256.
   */
  lemma SplitExactly(p: Proto, b: Option<Field>)
    requires Sender(p) && |EncodedForSplit(p, b).bytes| < TWO_31
    ensures var e := EncodedForSplit(p, b);
            var o := Split(p, b, true);
            && (o.code == -6 <==> TooLarge(p, b) && |EncodeField(Header(e.proto.tree.value))| + 16 >= MaxSize(p))
            && (o.code == 0 <==> !TooLarge(p, b) || Splits(p, b))
            && (o.code == 0 || o.code == -6)
            && (Splits(p, b) ==> o.proto.total == PartCount(p, b) % 0x100)
            && (!Splits(p, b) ==> o.proto.total == 1)
    ensures 128 <= MaxSize(p) <= 64000 && (128 <= p.maxPkg <= 64000 ==> MaxSize(p) == p.maxPkg)
  {
    if Splits(p, b) {
      var s, core, e, sz, n := SplitHeaderExactly(p, b);
    } else if !TooLarge(p, b) {
      KeptHow(p, b);
    } else {
      EvaluationSafe(p, b);
    }
  }

  /** Without memory, Split fails with -5 or keeps the packet whole, and never cuts it. */
  lemma SplitWithoutMemory(p: Proto, b: Option<Field>)
    requires Sender(p) && |EncodedForSplit(p, b).bytes| < TWO_31
    ensures var o := Split(p, b, false);
            && (TooLarge(p, b) ==> o.code == -5)
            && (o.code != -5 ==> o == Split(p, b, true) && o.code == 0)
            && o.proto.total == 1
  {
    EvaluationSafe(p, b);
  }

  lemma KeptHow(p: Proto, b: Option<Field>)
    requires Sender(p) && |EncodedForSplit(p, b).bytes| < TWO_31 && !TooLarge(p, b)
    ensures var o := Split(p, b, true);
            o == KeepWhole(Stripped(p), b) || o == KeepWhole(EncodedForSplit(p, b).proto, b)
  {}

  // ---------- headers that cannot be numbered ----------

  /** A number can be put under the tag in the header: it is a node, and no string has the tag. */
  predicate Numberable(h: Field, tag: U32) {
    h.val.Str? && !(Find(Expand(h), tag).Some? && Find(Expand(h), tag).value.val.Str?)
  }

  /** Cutting fails with -7 exactly when the count cannot go into the header; the object has it by then. */
  lemma CutRefusedExactly(p: Proto, enc: seq<Byte>, sz: nat, n: nat)
    requires p.tree.Some? && Find(p.tree.value, HDR).Some? && 0 < n < TWO_31 && Offset(sz, n - 1) <= |enc|
    ensures var h, o := Header(p.tree.value), CutParts(p, enc, sz, n);
            && o.code == (if Numberable(h, TOTAL_COUNT) then 0 else -7) && o.proto.total == n % 0x100
            && (o.code == -7 ==> o.proto.tree == p.tree)
  {
    SetChildExactly(Expand(Header(p.tree.value)), TOTAL_COUNT, n, TOTAL_COUNT);
  }

  /** Sending one of several parts fails with -2 exactly without that part, and with -3 exactly for the header. */
  lemma PartRefusedExactly(p: Proto, i: Int32, allocOk: bool)
    requires Sound(p) && p.tree.Some? && i < p.total && p.total != 1
    ensures var part, ok := Find(p.tree.value, PartTag(i)).Some?, Numberable(Header(p.tree.value), CURR_INDEX);
            && (!part ==> EncodePart(p, i, allocOk) == PartOutcome(p, -2, []))
            && (part && !ok ==> EncodePart(p, i, allocOk) == PartOutcome(p, -3, []))
            && (part && ok && !allocOk ==> EncodePart(p, i, allocOk).code == -6 && EncodePart(p, i, false).bytes == [])
            && (part && ok && allocOk ==> EncodePart(p, i, allocOk).code >= 0)
  {
    SetChildExactly(Expand(Header(p.tree.value)), CURR_INDEX, AsU64(i), CURR_INDEX);
  }

  // ---------- what is sent then ----------

  /** The packet that is to be sent: the children, the header alone if it carries an error, or the header and b. */
  function Whole(p: Proto, b: Option<Field>): seq<Field>
    requires Sender(p)
  {
    var e := EncodedForSplit(p, b);
    if b.Some? then [Header(e.proto.tree.value), b.value.(tag := BDY)]
    else if p.retcode != 0 then [Header(e.proto.tree.value)]
    else Stripped(p).tree.value
  }

  /** A sender that counts one part and has the value v for its body, h being the header it will send. */
  predicate Waiting(s: Proto, h: Field, v: Value) {
    && s.total == 1 && s.tree.Some? && Find(s.tree.value, HDR).Some?
    && Find(s.tree.value, PART) == Some(Field(PART, v)) && ClearReturn(s, Header(s.tree.value)) == h
  }

  /** A header whose return code and message are cleared is cleared already. */
  lemma ClearedStays(p: Proto, h: Field)
    requires p.retcode == 0 && !p.errmsg
    ensures ClearReturn(p, h) == h
  {}

  /** It sends that header and the body under the body tag, whatever the index, and goes on waiting. */
  lemma WaitingSends(s: Proto, h: Field, v: Value, i: Int32, allocOk: bool)
    requires Waiting(s, h, v) && h.tag == HDR
    ensures var o := EncodePart(s, i, allocOk);
            && Waiting(o.proto, h, v)
            && (i >= 1 ==> o.code == -1 && o.bytes == [])
            && (i < 1 && !allocOk ==> o.code == -6 && o.bytes == [])
            && (i < 1 && allocOk ==> o.bytes == EncodeTree([h, Field(BDY, v)]) && o.code == |o.bytes|)
  {
    if i < 1 {
      FindWithHeader(s.tree.value, h, HDR);
      FindWithHeader(s.tree.value, h, PART);
      ClearedStays(EncodePart(s, i, allocOk).proto, h);
    }
  }

  lemma {:induction false} StillWaiting(s: Proto, h: Field, v: Value, calls: seq<Call>)
    requires Waiting(s, h, v) && h.tag == HDR
    ensures Waiting(SendRun(s, calls), h, v)
  {
    if calls != [] {
      var before, c := calls[..|calls| - 1], calls[|calls| - 1];
      StillWaiting(s, h, v, before);
      WaitingSends(SendRun(s, before), h, v, c.index, c.allocOk);
    }
  }

  /** A body given to Split waits under the part tag, whether or not the packet was encoded before. */
  lemma KeptWaits(p: Proto, b: Field, h: Field)
    requires p.tree.Some? && Find(p.tree.value, HDR) == Some(h) && Find(p.tree.value, PART).None? && p.total == 1
    ensures Waiting(KeepWhole(p, Some(b)).proto, ClearReturn(p, h), b.val)
  {
    FindSnoc(p.tree.value, Field(PART, b.val), HDR);
    FindSnoc(p.tree.value, Field(PART, b.val), PART);
  }

  lemma KeptWithBody(p: Proto, b: Field)
    requires Sender(p) && |EncodedForSplit(p, Some(b)).bytes| < TWO_31 && !TooLarge(p, Some(b))
    requires Find(p.tree.value, PART).None?
    ensures Split(p, Some(b), true).code == 0
    ensures Waiting(Split(p, Some(b), true).proto, Header(EncodedForSplit(p, Some(b)).proto.tree.value), b.val)
  {
    StrippedHeader(p);
    var p1 := Stripped(p);
    var h1 := Header(p1.tree.value);
    FindWithHeader(p.tree.value, h1, PART);
    KeptWaits(p1, b, h1);
    var h2 := ClearReturn(p1, h1);
    FindWithHeader(p1.tree.value, h2, HDR);
    FindWithHeader(p1.tree.value, h2, PART);
    var p2 := EncodedForSplit(p, Some(b)).proto;
    ClearedStays(p2, h2);
    KeptWaits(p2, b, h2);
    KeptHow(p, Some(b));
  }

  /** A sender that counts one part and has no child with the part tag. */
  predicate Bare(s: Proto) {
    && s.total == 1 && s.tree.Some? && Find(s.tree.value, HDR).Some? && Find(s.tree.value, PART).None?
  }

  /** It sends itself, whatever the index, and does not change. */
  lemma {:induction false} BareSends(s: Proto, calls: seq<Call>, i: Int32)
    requires Bare(s)
    ensures SendRun(s, calls) == s
    ensures i >= 1 ==> forall ok :: EncodePart(s, i, ok) == PartOutcome(s, -1, [])
    ensures i < 1 ==> EncodePart(s, i, true) == PartOutcome(s, |EncodeAll(s)|, EncodeAll(s))
    ensures i < 1 ==> EncodePart(s, i, false) == PartOutcome(s, if s.retcode != 0 then -6 else -2, [])
  {
    if calls != [] {
      BareSends(s, calls[..|calls| - 1], calls[|calls| - 1].index);
    }
  }

  lemma KeptAsItIs(p: Proto)
    requires Sender(p) && |EncodedForSplit(p, None).bytes| < TWO_31 && !TooLarge(p, None)
    ensures Split(p, None, true) == Outcome(Stripped(p), 0)
    ensures Find(Stripped(p).tree.value, HDR).Some? && EncodeAll(Stripped(p)) == EncodeTree(Whole(p, None))
    ensures EncodedForSplit(p, None) == Encoded(Stripped(p), EncodeAll(Stripped(p)))
    ensures Find(Stripped(p).tree.value, PART) == Find(p.tree.value, PART)
  {
    StrippedHeader(p);
    FindWithHeader(p.tree.value, WithoutSplitFields(Header(p.tree.value)), PART);
  }

  /** What is sent after any calls: always the same packet, within the limit where there is one. */
  lemma WholeSent(p: Proto, b: Option<Field>, calls: seq<Call>, i: Int32) returns (s: Proto)
    requires Sender(p) && |EncodedForSplit(p, b).bytes| < TWO_31 && !TooLarge(p, b)
    requires Find(p.tree.value, PART).None? && i < 1
    ensures Split(p, b, true) == Outcome(s, 0) && Sound(s)
    ensures var bytes := EncodeTree(Whole(p, b));
            && EncodePart(SendRun(s, calls), i, true).bytes == bytes
            && EncodePart(SendRun(s, calls), i, true).code == |bytes|
            && EncodePart(SendRun(s, calls), i, false).code < 0
            && (p.allowSplit && (b.None? ==> p.body) && (b.Some? ==> b.value.tag == BDY) ==> |bytes| <= MaxSize(p))
  {
    s := Split(p, b, true).proto;
    EncodedHeader(p, b);
    if b.Some? {
      var h := Header(EncodedForSplit(p, b).proto.tree.value);
      KeptWithBody(p, b.value);
      StillWaiting(s, h, b.value.val, calls);
      WaitingSends(SendRun(s, calls), h, b.value.val, i, true);
      WaitingSends(SendRun(s, calls), h, b.value.val, i, false);
      PairEncoded(p, b.value);
    } else {
      KeptAsItIs(p);
      BareSends(s, calls, i);
    }
  }

  lemma PairEncoded(p: Proto, b: Field)
    requires Sender(p)
    ensures var e := EncodedForSplit(p, Some(b)); e.bytes == EncodeTree([Header(e.proto.tree.value), b])
  {
    StrippedHeader(p);
    var p1 := Stripped(p);
    FindWithHeader(p1.tree.value, ClearReturn(p1, Header(p1.tree.value)), HDR);
  }

  // ---------- what the receiver makes of it ----------

  lemma WholeHeader(p: Proto, b: Option<Field>)
    requires Sender(p)
    ensures Find(Whole(p, b), HDR) == Some(Header(EncodedForSplit(p, b).proto.tree.value))
  {
    EncodedHeader(p, b);
    StrippedHeader(p);
  }

  /** A packet whose header has no count is complete, whether or not it carries an error. */
  lemma UncountedComplete(children: seq<Field>, h: Field)
    requires Find(children, HDR) == Some(h) && Without(Expand(h), TOTAL_COUNT)
    ensures var r := Init(children);
            r.tree == Some(children) && IsComplete(r) && r.total == 0 && r.retcode == RetCode(Expand(h))
  {
    FindAbsent(Expand(h), TOTAL_COUNT);
  }

  /** The protocol that the whole packet stands for. */
  lemma WholeReads(p: Proto, b: Option<Field>)
    requires Sender(p)
    ensures var r := Init(Whole(p, b));
            && r.tree == Some(Whole(p, b)) && IsComplete(r) && r.total == 0
            && r.retcode == if b.Some? then 0 else p.retcode
  {
    EncodedHeader(p, b);
    WholeHeader(p, b);
    UncountedComplete(Whole(p, b), Header(EncodedForSplit(p, b).proto.tree.value));
  }

  /**
   The law of the path that does not split.  For every sender that Split keeps
   whole, after any calls of EncodePart and for any index that is not too large,
   the packet of EncodePart decodes to the protocol of the sender's children, of
   its header alone when that carries an error, or of its header and the body
   given to Split under the body tag; that is complete, and every receiver,
   whatever it holds, becomes it with code 0.
   */
  lemma WholeRoundTrip(p: Proto, b: Option<Field>, calls: seq<Call>, i: Int32, r0: Proto, mem: bool)
      returns (s: Proto)
    requires Sender(p) && |EncodedForSplit(p, b).bytes| < TWO_31 && !TooLarge(p, b)
    requires Find(p.tree.value, PART).None? && i < 1
    requires AllEncodable(Whole(p, b)) && |EncodeTree(Whole(p, b))| < TWO_31
    ensures Split(p, b, true) == Outcome(s, 0) && Sound(s)
    ensures var r := Decode(EncodePart(SendRun(s, calls), i, true).bytes);
            && r == Init(Whole(p, b)) && r.tree == Some(Whole(p, b)) && IsComplete(r)
            && r.retcode == (if b.Some? then 0 else p.retcode)
            && AddPartial(r0, r, mem) == Outcome(r, 0)
  {
    s := WholeSent(p, b, calls, i);
    DecodeIntended(Whole(p, b));
    WholeReads(p, b);
    CompletePacketTaken(r0, Init(Whole(p, b)), mem);
  }

  /** SetRetCode: the code goes into the header and the object. */
  function WithRetCode(p: Proto, c: U32): (q: Proto)
    requires p.tree.Some? && Find(p.tree.value, HDR).Some?
    ensures Sound(q) && q.tree.Some?
  {
    Reheaded(p, SetMetaInt(Expand(Header(p.tree.value)), RET, c)).(retcode := c)
  }

  /**
   An error reply: whatever the code and whatever else is in the tree, the packet
   that Encode makes has the header alone and decodes to a complete protocol with
   that code and without a body.
   */
  lemma ErrorReplyReaches(p: Proto, c: U32)
    requires Sender(p) && c != 0 && |EncodeAll(WithRetCode(p, c))| < TWO_31
    ensures var r := Decode(EncodeAll(WithRetCode(p, c)));
            && r.tree == Some([Header(WithRetCode(p, c).tree.value)])
            && r.retcode == c && IsComplete(r) && !r.body
  {
    CodeHeader(p, c);
    HeaderAloneReads(Header(WithRetCode(p, c).tree.value), SetMetaInt(Expand(Header(p.tree.value)), RET, c));
  }

  lemma CodeHeader(p: Proto, c: U32)
    requires Sender(p)
    ensures var h, fs := Header(WithRetCode(p, c).tree.value), SetMetaInt(Expand(Header(p.tree.value)), RET, c);
            h.tag == HDR && h.val.Str? && Expand(h) == fs && RetCode(fs) == c
  {
    var h := Header(p.tree.value);
    var fs := SetMetaInt(Expand(h), RET, c);
    SetMetaFacts(Expand(h), RET, c);
    RefoldExpands(h, fs);
    FindWithHeader(p.tree.value, Refold(h, fs), HDR);
  }

  lemma HeaderAloneReads(h: Field, fs: seq<Field>)
    requires h.tag == HDR && h.val.Str? && Expand(h) == fs && RetCode(fs) != 0 && |EncodeTree([h])| < TWO_31
    ensures var r := Decode(EncodeTree([h]));
            r.tree == Some([h]) && r.retcode == RetCode(fs) && IsComplete(r) && !r.body
  {
    EncodeOne(h);
    StringLength(Fold(PKG, [h]));
    StringLength(h);
    DecodeIntended([h]);
    assert [h][1..] == [];
  }

  // ---------- a child that has the part tag already ----------

  lemma {:induction false} TwoWithin(fs: seq<Field>, t: U32, u: U32)
    requires t != u && Find(fs, t).Some? && Find(fs, u).Some?
    ensures |EncodeField(Find(fs, t).value)| + |EncodeField(Find(fs, u).value)| <= |EncodeFields(fs)|
  {
    if fs[0].tag == t {
      FieldWithin(fs[1..], u);
    } else if fs[0].tag == u {
      FieldWithin(fs[1..], t);
    } else {
      TwoWithin(fs[1..], t, u);
    }
  }

  /** The packet sent when the tree has a child with the part tag: that child goes for the body. */
  function Stale(p: Proto): seq<Field>
    requires Sender(p) && Find(p.tree.value, PART).Some?
  {
    [ClearReturn(p, WithoutSplitFields(Header(p.tree.value))), Find(p.tree.value, PART).value.(tag := BDY)]
  }

  lemma StaleSent(p: Proto)
    requires Sender(p) && |EncodedForSplit(p, None).bytes| < TWO_31 && !TooLarge(p, None)
    requires Find(p.tree.value, PART).Some?
    ensures Find(Stripped(p).tree.value, HDR).Some?
    ensures EncodePart(Stripped(p), 0, true).bytes == EncodeTree(Stale(p))
  {
    StrippedHeader(p);
    KeptAsItIs(p);
    var v := Find(p.tree.value, PART).value.val;
    WaitingSends(Stripped(p), Stale(p)[0], v, 0, true);
  }

  /** A field under the body tag is at most five bytes longer. */
  lemma RetaggedLength(f: Field)
    ensures |EncodeField(f.(tag := BDY))| <= |EncodeField(f)| + 5
  {
    var ty := TypeOf(f.val);
    assert 0 <= Key(ty, BDY) < 0x20_0000;
    LenSteps(Key(ty, BDY));
  }

  /** A header that has grown a little, and another child under the body tag, still make a packet. */
  lemma PairFits(tree: seq<Field>, h: Field, f: Field, g: Field)
    requires Find(tree, HDR) == Some(h) && Find(tree, PART) == Some(f) && AllEncodable(tree)
    requires |EncodeTree(tree)| < TWO_31 && g.tag == HDR && g.val.Str? && |EncodeField(g)| <= |EncodeField(h)| + 16
    ensures var pair := [g, f.(tag := BDY)];
            AllEncodable(pair) && |EncodeFields(pair)| < TWO_32 && Find(pair, HDR) == Some(g)
  {
    TwoWithin(tree, HDR, PART);
    StringLength(Fold(PKG, tree));
    RetaggedLength(f);
    EncodeTwo(g, f.(tag := BDY));
    StringLength(g);
    assert Encodable(f);
  }

  lemma StaleFits(p: Proto)
    requires Sender(p) && Find(p.tree.value, PART).Some? && AllEncodable(Stripped(p).tree.value)
    requires |EncodeTree(Stripped(p).tree.value)| < TWO_31
    ensures AllEncodable(Stale(p)) && |EncodeFields(Stale(p))| < TWO_32 && Find(Stale(p), HDR) == Some(Stale(p)[0])
  {
    StrippedHeader(p);
    var p1, h1 := Stripped(p), WithoutSplitFields(Header(p.tree.value));
    FindWithHeader(p.tree.value, h1, PART);
    ClearedGrowth(p1, h1);
    PairFits(p1.tree.value, h1, Find(p.tree.value, PART).value, ClearReturn(p1, h1));
  }

  /** That is never the packet that was to be sent. */
  lemma StaleDiffers(p: Proto)
    requires Sender(p) && Find(p.tree.value, PART).Some? && Find(Stale(p), HDR).Some?
    ensures Init(Stale(p)) != Init(Whole(p, None))
  {
    WholeReads(p, None);
    StrippedHeader(p);
    var h := Stale(p)[0];
    FindWithHeader(p.tree.value, WithoutSplitFields(Header(p.tree.value)), PART);
    assert Stale(p)[1..] == [Stale(p)[1]];
    assert Find(Stale(p), PART).None?;
  }

  /**
   Split without a body does not remove a child with the part tag, which an earlier
   call may have left there, and EncodePart sends that child for the body: the
   packet sent for a sender kept whole decodes to its children if and only if none
   of them has that tag.
   */
  lemma SentWholeExactly(p: Proto)
    requires Sender(p) && |EncodedForSplit(p, None).bytes| < TWO_31 && !TooLarge(p, None)
    requires AllEncodable(Stripped(p).tree.value) && |EncodeTree(Stripped(p).tree.value)| < TWO_31
    ensures var s := Split(p, None, true).proto;
            && Sound(s)
            && (Decode(EncodePart(s, 0, true).bytes) == Init(Whole(p, None)) <==> Find(p.tree.value, PART).None?)
  {
    KeptAsItIs(p);
    if Find(p.tree.value, PART).None? {
      WholeHeader(p, None);
      var s := WholeRoundTrip(p, None, [], 0, Invalid(), true);
    } else {
      StaleSent(p);
      StaleFits(p);
      DecodeTree(Stale(p), []);
      assert EncodeTree(Stale(p)) + [] == EncodeTree(Stale(p));
      StaleDiffers(p);
    }
  }
}
