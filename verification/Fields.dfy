/** How the node operations of module Packet act on lookups, encodability and size. */
module Fields {
  import opened Bytes
  import opened Wire
  import opened Packet
  import Varint

  // ---------- folding and expanding ----------

  /** A node folded from encodable fields expands to exactly those fields. */
  lemma ExpandFold(tag: U32, fs: seq<Field>)
    requires AllEncodable(fs)
    ensures Expand(Fold(tag, fs)) == fs
  {
    MessageRoundTrip(fs);
  }

  /** A node whose bytes are cut short: nothing if the cut is inside a value, else the fields before it. */
  lemma ExpandCut(tag: U32, fs: seq<Field>, n: nat)
    requires AllEncodable(fs) && n <= |EncodeFields(fs)|
    ensures Expand(Field(tag, Str(EncodeFields(fs)[..n]))) == if InsideValue(fs, n) then [] else WholeFields(fs, n)
  {
    CutMessage(fs, n);
  }

  /** Decoding an encoded tree initialises a protocol from exactly its children. */
  lemma DecodeTree(children: seq<Field>, rest: seq<Byte>)
    requires AllEncodable(children) && |EncodeFields(children)| < TWO_32
    ensures DecodeField(EncodeTree(children) + rest) == FOk(Fold(PKG, children), |EncodeTree(children)|)
    ensures Decode(EncodeTree(children) + rest) == Init(children)
  {
    FieldRoundTripExactly(Fold(PKG, children), rest);
    ExpandFold(PKG, children);
  }

  /** Bytes make a protocol if and only if they start with a packet that has a header. */
  lemma DecodeExactly(buf: seq<Byte>)
    ensures var f, r := DecodeField(buf), Decode(buf);
            && (r.tree.Some? <==> f.FOk? && f.field.tag == PKG && !Without(Expand(f.field), HDR))
            && (r.tree.None? ==> r == Invalid())
            && (r.tree.Some? ==> r.tree.value == Expand(f.field))
  {
    var f := DecodeField(buf);
    if f.FOk? { FindAbsent(Expand(f.field), HDR); }
  }

  lemma RefoldExpands(h: Field, fs: seq<Field>)
    requires AllEncodable(fs)
    ensures Expand(Refold(h, fs)) == fs
  {
    ExpandFold(h.tag, fs);
  }

  lemma {:induction false} EncodeConcat(a: seq<Field>, b: seq<Field>)
    ensures EncodeFields(a + b) == EncodeFields(a) + EncodeFields(b)
  {
    if a == [] {
      assert a + b == b;
    } else {
      assert (a + b)[1..] == a[1..] + b;
      EncodeConcat(a[1..], b);
    }
  }

  lemma EncodeOne(f: Field)
    ensures EncodeFields([f]) == EncodeField(f)
  {
    assert [f][1..] == [];
  }

  lemma EncodeTwo(f: Field, g: Field)
    ensures EncodeFields([f, g]) == EncodeField(f) + EncodeField(g)
  {
    assert [f, g][1..] == [g];
    EncodeOne(g);
  }

  // ---------- removal ----------

  predicate Without(fs: seq<Field>, tag: U32) {
    forall i :: 0 <= i < |fs| ==> fs[i].tag != tag
  }

  lemma {:induction false} RemoveAllFacts(fs: seq<Field>, tag: U32)
    ensures Without(RemoveAll(fs, tag), tag)
    ensures forall t :: Without(fs, t) ==> Without(RemoveAll(fs, tag), t)
    ensures AllEncodable(fs) ==> AllEncodable(RemoveAll(fs, tag))
    ensures |EncodeFields(RemoveAll(fs, tag))| <= |EncodeFields(fs)|
    ensures Without(fs, tag) ==> RemoveAll(fs, tag) == fs
  {
    if fs != [] {
      var r := RemoveAll(fs[1..], tag);
      RemoveAllFacts(fs[1..], tag);
      assert forall t :: Without(fs, t) ==> Without(fs[1..], t);
      if fs[0].tag != tag {
        var s := [fs[0]] + r;
        assert s[1..] == r;
        assert forall i :: 1 <= i < |s| ==> s[i] == r[i - 1];
      }
    }
  }

  lemma {:induction false} RemoveAllAppend(a: seq<Field>, b: seq<Field>, tag: U32)
    ensures RemoveAll(a + b, tag) == RemoveAll(a, tag) + RemoveAll(b, tag)
  {
    if a == [] {
      assert a + b == b;
    } else {
      assert (a + b)[1..] == a[1..] + b;
      RemoveAllAppend(a[1..], b, tag);
    }
  }

  lemma {:induction false} FindAfterRemoveAll(fs: seq<Field>, t: U32, u: U32)
    requires t != u
    ensures Find(RemoveAll(fs, t), u) == Find(fs, u)
    ensures FindMeta(RemoveAll(fs, t), u) == FindMeta(fs, u)
  {
    if fs != [] {
      FindAfterRemoveAll(fs[1..], t, u);
      if fs[0].tag != t { assert RemoveAll(fs, t)[1..] == RemoveAll(fs[1..], t); }
    }
  }

  // ---------- lookups in concatenations ----------

  lemma {:induction false} FindAppend(a: seq<Field>, b: seq<Field>, tag: U32)
    ensures Find(a + b, tag) == if Find(a, tag).Some? then Find(a, tag) else Find(b, tag)
    ensures FindMeta(a + b, tag) == if FindMeta(b, tag).Some? then FindMeta(b, tag) else FindMeta(a, tag)
  {
    if a == [] {
      assert a + b == b;
    } else {
      assert (a + b)[1..] == a[1..] + b;
      FindAppend(a[1..], b, tag);
    }
  }

  lemma {:induction false} FindAbsent(fs: seq<Field>, tag: U32)
    ensures Without(fs, tag) <==> Find(fs, tag) == None
    ensures Without(fs, tag) <==> FindMeta(fs, tag) == None
  {
    if fs != [] {
      FindAbsent(fs[1..], tag);
      assert Without(fs, tag) <==> fs[0].tag != tag && Without(fs[1..], tag);
    }
  }

  // ---------- setting numbers ----------

  lemma {:induction false} SetChildAppends(fs: seq<Field>, tag: U32, v: U64)
    requires Without(fs, tag)
    ensures SetChildInt(fs, tag, v) == Some(fs + [Field(tag, Vint(v))])
  {
    if fs == [] {
      assert fs + [Field(tag, Vint(v))] == [Field(tag, Vint(v))];
    } else {
      assert Without(fs[1..], tag);
      SetChildAppends(fs[1..], tag, v);
      assert [fs[0]] + (fs[1..] + [Field(tag, Vint(v))]) == fs + [Field(tag, Vint(v))];
    }
  }

  lemma {:induction false} SetChildReplaces(fs: seq<Field>, tag: U32, w: U64, v: U64)
    requires Without(fs, tag)
    ensures SetChildInt(fs + [Field(tag, Vint(w))], tag, v) == Some(fs + [Field(tag, Vint(v))])
  {
    var old' := fs + [Field(tag, Vint(w))];
    if fs == [] {
      assert [Field(tag, Vint(v))] + old'[1..] == fs + [Field(tag, Vint(v))];
    } else {
      assert old'[1..] == fs[1..] + [Field(tag, Vint(w))];
      assert Without(fs[1..], tag);
      SetChildReplaces(fs[1..], tag, w, v);
      assert [fs[0]] + (fs[1..] + [Field(tag, Vint(v))]) == fs + [Field(tag, Vint(v))];
    }
  }

  /** What SetChildInt makes of the value found: a number of the same type. */
  function Renumbered(m: Option<Field>, v: U64): Value {
    if m.Some? && m.value.val.Fixed64? then Fixed64(v)
    else if m.Some? && m.value.val.Fixed32? then Fixed32(v % TWO_32)
    else Vint(v)
  }

  /**
   SetChildInt is refused if and only if a string has the tag; otherwise the tag
   finds the new number, in the type that was there, and no other tag is affected.
   */
  lemma {:induction false} SetChildExactly(fs: seq<Field>, tag: U32, v: U64, t: U32)
    ensures var m, r := Find(fs, tag), SetChildInt(fs, tag, v);
            && (r.None? <==> m.Some? && m.value.val.Str?)
            && (r.Some? ==> Find(r.value, tag) == Some(Field(tag, Renumbered(m, v))))
            && (r.Some? && t != tag ==> Find(r.value, t) == Find(fs, t) && FindMeta(r.value, t) == FindMeta(fs, t))
            && (r.Some? && AllEncodable(fs) && 0 < tag < TWO_29 ==> AllEncodable(r.value))
  {
    var r := SetChildInt(fs, tag, v);
    if fs == [] {
      assert r.value[1..] == [];
    } else if fs[0].tag == tag {
      if r.Some? { assert r.value[1..] == fs[1..]; }
    } else {
      SetChildExactly(fs[1..], tag, v, t);
      var r1 := SetChildInt(fs[1..], tag, v);
      if r.Some? {
        assert r.value[1..] == r1.value;
        assert forall i :: 1 <= i < |r.value| ==> r.value[i] == r1.value[i - 1];
      }
    }
  }

  /** SetMeta touches no lookup of another tag. */
  lemma {:induction false} SetMetaKeeps(fs: seq<Field>, tag: U32, v: U64, t: U32)
    requires t != tag
    ensures Find(SetMetaInt(fs, tag, v), t) == Find(fs, t)
    ensures FindMeta(SetMetaInt(fs, tag, v), t) == FindMeta(fs, t)
  {
    var r := SetMetaInt(fs, tag, v);
    if fs == [] {
      assert r[1..] == [];
    } else if FindMeta(fs[1..], tag).Some? || (FindMeta(fs, tag).None? && HasMeta(fs)) {
      SetMetaKeeps(fs[1..], tag, v, t);
      assert r[1..] == SetMetaInt(fs[1..], tag, v);
    } else if FindMeta(fs, tag).Some? {
      assert r[1..] == fs[1..];
    } else {
      assert r[1..] == fs;
    }
  }

  /** SetRetCode(0) leaves a header whose return code reads as zero, and touches nothing else. */
  lemma {:induction false} SetMetaFacts(fs: seq<Field>, tag: U32, v: U64)
    requires tag < TWO_29 && tag != 0
    ensures FindMeta(SetMetaInt(fs, tag, v), tag) == Some(Field(tag, Vint(v)))
    ensures AllEncodable(fs) ==> AllEncodable(SetMetaInt(fs, tag, v))
    ensures forall t :: t != tag && Without(fs, t) ==> Without(SetMetaInt(fs, tag, v), t)
    ensures |EncodeFields(SetMetaInt(fs, tag, v))| <= |EncodeFields(fs)| + 15
  {
    var r := SetMetaInt(fs, tag, v);
    var f := Field(tag, Vint(v));
    Varint.LenU64(v);
    Varint.LenBound(Key(VARINT, tag), 5) by {
      assert Varint.Pow128(5) == 0x80 * Varint.Pow128(4) && Varint.Pow128(4) == 0x80 * Varint.Pow128(3);
    }
    if fs == [] {
      assert r == [f] && r[1..] == [];
    } else if FindMeta(fs[1..], tag).Some? || (FindMeta(fs, tag).None? && HasMeta(fs)) {
      SetMetaFacts(fs[1..], tag, v);
      var s := SetMetaInt(fs[1..], tag, v);
      assert r == [fs[0]] + s && r[1..] == s;
      assert forall t :: Without(fs, t) ==> Without(fs[1..], t);
      assert forall i :: 1 <= i < |r| ==> r[i] == s[i - 1];
    } else if FindMeta(fs, tag).Some? {
      assert r == [f] + fs[1..] && r[1..] == fs[1..];
    } else {
      assert r == [f] + fs && r[1..] == fs;
      assert FindMeta(fs, tag) == None;
    }
  }

  // ---------- completeness ----------

  /** The last field with the tag is the return code or message; another type than expected counts as none. */
  lemma LastMetaCounts(fs: seq<Field>, v: Value)
    ensures RetCode(fs + [Field(RET, v)]) == if v.Vint? then v.i64 % TWO_32 else 0
    ensures HasError(fs + [Field(ERR, v)]) <==> v.Str?
  {
    FindAppend(fs, [Field(RET, v)], RET);
    FindAppend(fs, [Field(ERR, v)], ERR);
  }

  /** A packet is complete if and only if it carries an error, no count modulo 256, or a body. */
  lemma CompleteExactly(children: seq<Field>, h: Field)
    requires Find(children, HDR) == Some(h)
    ensures IsComplete(Init(children)) <==>
            || RetCode(Expand(h)) != 0
            || IntChild(Expand(h), TOTAL_COUNT) % 0x100 == 0
            || (exists i :: 0 <= i < |children| && children[i].tag == BDY)
  {
    FindAbsent(children, BDY);
  }
}
