/**
 The bounded output buffer of src/pb.c.  Each operation appends to what has
 been written so far or reports that it does not fit; a field that does not fit
 may leave its tag, or its tag and length, behind.
 */
module PbWriter {
  import opened Bytes
  import opened Wire
  import Varint

  // The scratch bytes of pb_add_vint before the top bit of the last one is cleared.
  ghost function Continued(v: nat): seq<Byte> {
    if v == 0 then [] else [v % 0x80 + 0x80] + Continued(v / 0x80)
  }

  lemma {:induction false} ContinuedIsEncode(v: nat)
    requires v > 0
    ensures var c := Continued(v);
            && |c| == Varint.Len(v)
            && c[|c| - 1] >= 0x80
            && Varint.Encode(v) == c[|c| - 1 := c[|c| - 1] - 0x80]
  {
    var c := Continued(v);
    if v < 0x80 {
      assert Continued(v / 0x80) == [];
    } else {
      ContinuedIsEncode(v / 0x80);
      var d := Continued(v / 0x80);
      assert c == [v % 0x80 + 0x80] + d;
      assert c[|c| - 1] == d[|d| - 1];
    }
  }

  lemma ContinuedStep(v: nat, all: seq<Byte>, n: nat)
    requires v > 0 && n <= |all| && Continued(v) == all[n..]
    ensures n < |all| && all[n] == v % 0x80 + 0x80 && Continued(v / 0x80) == all[n + 1..]
  {
    assert all[n..][0] == all[n];
    assert all[n..][1..] == all[n + 1..];
  }

  method EvalVintLength(value: U64) returns (n: nat)
    ensures n == Varint.Len(value)
  {
    if value == 0 { return 1; }
    n := 0;
    var v := value;
    while v != 0
      invariant v >= 0
      invariant v != 0 ==> n + Varint.Len(v) == Varint.Len(value)
      invariant v == 0 ==> n == Varint.Len(value)
    {
      v := v / 0x80;
      n := n + 1;
    }
  }

  /** The scratch buffer of pb_add_vint: filled low group first, never overrun, n bytes used. */
  method FillScratch(value: U64) returns (scratch: array<Byte>, n: nat)
    requires value > 0
    ensures fresh(scratch) && scratch.Length == 10 && n <= 10
    ensures scratch[..n] == Varint.Encode(value)
  {
    scratch := new Byte[10];
    n := 0;
    var v := value;
    ContinuedIsEncode(value);
    Varint.LenU64(value);
    ghost var all := Continued(value);
    while v != 0
      invariant v >= 0 && 0 <= n <= |all| && Continued(v) == all[n..]
      invariant forall j :: 0 <= j < n ==> scratch[j] == all[j]
    {
      ContinuedStep(v, all, n);
      scratch[n] := v % 0x80 + 0x80;
      v := v / 0x80;
      n := n + 1;
    }
    scratch[n - 1] := scratch[n - 1] - 0x80;
    assert scratch[..n] == all[n - 1 := all[n - 1] - 0x80];
  }

  /** What the value part appends when `left` bytes remain: all of it, a lone string length, or nothing. */
  function EmittedValue(left: int, v: Value): seq<Byte> {
    if |Payload(v)| <= left then Payload(v)
    else if v.Str? && Varint.Len(|v.data|) <= left then Varint.Encode(|v.data|)
    else []
  }

  function ValueCode(left: int, v: Value): int {
    if |Payload(v)| <= left then 0
    else if v.Str? && Varint.Len(|v.data|) > left then -2
    else -1
  }

  /** What pb_add_field_val appends when `left` bytes remain. */
  function Emitted(left: int, f: Field): seq<Byte> {
    var key := Varint.Encode(Key(TypeOf(f.val), f.tag));
    if |key| > left then [] else key + EmittedValue(left - |key|, f.val)
  }

  /** A field that does not fit leaves a proper prefix of its encoding, within the buffer. */
  lemma EmittedIsPrefix(left: nat, f: Field)
    ensures Emitted(left, f) <= EncodeField(f) && |Emitted(left, f)| <= left
    ensures Emitted(left, f) == EncodeField(f) <==> |EncodeField(f)| <= left
  {
    var n := EvalTagLength(TypeOf(f.val), f.tag);
    if n <= left {
      var e := EmittedValue(left - n, f.val);
      assert e <= Payload(f.val);
      assert (Varint.Encode(Key(TypeOf(f.val), f.tag)) + e)[n..] == e;
      assert EncodeField(f)[n..] == Payload(f.val);
    }
  }

  function ReturnCode(left: int, f: Field): int {
    var n := EvalTagLength(TypeOf(f.val), f.tag);
    if n > left then -1 else ValueCode(left - n, f.val)
  }

  /** The return code, the evaluated length and the bytes written agree. */
  lemma FitsExactly(left: nat, f: Field)
    requires Writable(f.val) && |EncodeField(f)| < TWO_31
    ensures ReturnCode(left, f) == 0 <==> EvalFieldLength(f) <= left
    ensures ReturnCode(left, f) == 0 ==> Emitted(left, f) == EncodeField(f)
  {
    PredictionMatchesWriter(f);
    EmittedIsPrefix(left, f);
  }

  lemma Joined(a: seq<Byte>, b: seq<Byte>, c: seq<Byte>)
    ensures a + b + c == a + (b + c)
    ensures a + b + [] == a + b
  {}

  /**
   What a field that does not fit leaves: the longest of its key, its key with a
   string's length, and nothing, that does; the code tells whether the key and a
   string's length were written.
   */
  lemma EmittedExactly(left: nat, f: Field)
    requires |EncodeField(f)| > left
    ensures var k := EvalTagLength(TypeOf(f.val), f.tag);
            var l := if f.val.Str? then k + Varint.Len(|f.val.data|) else k;
            && Emitted(left, f) == EncodeField(f)[..|Emitted(left, f)|]
            && |Emitted(left, f)| == (if l <= left then l else if k <= left then k else 0)
            && ReturnCode(left, f) == if k <= left < l then -2 else -1
  {
    EmittedIsPrefix(left, f);
  }

  class PbBuff {
    const buf: array<Byte>
    var ptr: nat
    var left: int

    constructor (b: array<Byte>)
      requires b.Length < TWO_31
      ensures Valid() && buf == b && Written() == [] && left == b.Length
    {
      buf, ptr, left := b, 0, b.Length;
    }

    ghost predicate Valid()
      reads this
    {
      0 <= left && ptr + left == buf.Length < TWO_31
    }

    ghost function Written(): seq<Byte>
      requires Valid()
      reads this, buf
    {
      buf[..ptr]
    }

    method Add(src: seq<Byte>) returns (ret: int)
      requires Valid()
      modifies this, buf
      ensures Valid()
      ensures ret == if |src| <= old(left) then 0 else -1
      ensures Written() == old(Written()) + if ret == 0 then src else []
    {
      if left < |src| { return -1; }
      ghost var w := Written();
      forall i | 0 <= i < |src| { buf[ptr + i] := src[i]; }
      ptr, left := ptr + |src|, left - |src|;
      assert buf[..ptr] == w + src;
      ret := 0;
    }

    method AddVint(value: U64) returns (ret: int)
      requires Valid()
      modifies this, buf
      ensures Valid()
      ensures ret == if Varint.Len(value) <= old(left) then 0 else -1
      ensures Written() == old(Written()) + if ret == 0 then Varint.Encode(value) else []
    {
      if value == 0 {
        ret := Add([0]);
      } else {
        var scratch, n := FillScratch(value);
        ret := Add(scratch[..n]);
      }
    }

    method AddTag(ty: WireType, tag: U32) returns (ret: int)
      requires Valid()
      modifies this, buf
      ensures Valid()
      ensures ret == if EvalTagLength(ty, tag) <= old(left) then 0 else -1
      ensures Written() == old(Written()) + if ret == 0 then Varint.Encode(Key(ty, tag)) else []
    {
      ret := AddVint(Key(ty, tag));
    }

    method AddString(d: seq<Byte>) returns (ret: int)
      requires Valid() && |d| < TWO_32
      modifies this, buf
      ensures Valid()
      ensures ret == ValueCode(old(left), Str(d))
      ensures Written() == old(Written()) + EmittedValue(old(left), Str(d))
    {
      ghost var w, space := Written(), left;
      ret := AddVint(|d|);
      if ret != 0 { return -2; }
      assert left == space - Varint.Len(|d|);
      ret := Add(d);
      Joined(w, Varint.Encode(|d|), d);
    }

    method AddValue(v: Value) returns (ret: int)
      requires Valid() && Writable(v)
      modifies this, buf
      ensures Valid()
      ensures ret == ValueCode(old(left), v)
      ensures Written() == old(Written()) + EmittedValue(old(left), v)
    {
      match v {
        case Vint(i) => ret := AddVint(i);
        case Fixed64(i) => ret := Add(WordBytes(i, 8));
        case Str(d) => ret := AddString(d);
        case Fixed32(i) => ret := Add(WordBytes(i, 4));
      }
    }

    /** A field is written whole exactly when its evaluated length is at most what is left. */
    method AddFieldVal(f: Field) returns (ret: int)
      requires Valid() && Writable(f.val) && |EncodeField(f)| < TWO_31
      modifies this, buf
      ensures Valid()
      ensures ret == 0 <==> EvalFieldLength(f) <= old(left)
      ensures ret == ReturnCode(old(left), f)
      ensures Written() == old(Written()) + Emitted(old(left), f)
      ensures ret == 0 ==> Written() == old(Written()) + EncodeField(f)
    {
      ghost var w, space := Written(), left;
      FitsExactly(space, f);
      ghost var key := Varint.Encode(Key(TypeOf(f.val), f.tag));
      ret := AddTag(TypeOf(f.val), f.tag);
      if ret != 0 { return -1; }
      assert Written() == w + key && left == space - |key|;
      ret := AddValue(f.val);
      Joined(w, key, EmittedValue(space - |key|, f.val));
    }
  }

  lemma EncodeHead(w: seq<Byte>, fs: seq<Field>, i: nat)
    requires i < |fs|
    ensures |EncodeFields(fs[i..])| == |EncodeField(fs[i])| + |EncodeFields(fs[i + 1..])|
    ensures w + EncodeFields(fs[i..]) == w + EncodeField(fs[i]) + EncodeFields(fs[i + 1..])
  {
    assert fs[i..][1..] == fs[i + 1..];
  }

  /** What a field that does not fit leaves is still a prefix of the whole message. */
  lemma PartlyWritten(w: seq<Byte>, left: nat, fs: seq<Field>, i: nat)
    requires i < |fs|
    ensures w + Emitted(left, fs[i]) <= w + EncodeFields(fs[i..])
  {
    EncodeHead(w, fs, i);
    EmittedIsPrefix(left, fs[i]);
    PrefixBetween(w, Emitted(left, fs[i]), EncodeField(fs[i]), EncodeFields(fs[i + 1..]));
  }

  lemma PrefixBetween(w: seq<Byte>, e: seq<Byte>, all: seq<Byte>, rest: seq<Byte>)
    requires e <= all
    ensures w + e <= w + all + rest
  {}

  /**
   Writing a list of fields until one does not fit.  It succeeds exactly when the
   whole list fits, and then the buffer holds a message whose iteration is that
   list (with Wire.MessageRoundTrip); otherwise it holds a prefix of the message.
   */
  method WriteMessage(b: PbBuff, fs: seq<Field>) returns (ok: bool)
    requires b.Valid()
    requires forall i :: 0 <= i < |fs| ==> Writable(fs[i].val) && |EncodeField(fs[i])| < TWO_31
    modifies b, b.buf
    ensures b.Valid()
    ensures ok <==> |EncodeFields(fs)| <= old(b.left)
    ensures ok ==> b.Written() == old(b.Written()) + EncodeFields(fs)
    ensures b.Written() <= old(b.Written()) + EncodeFields(fs)
  {
    var i := 0;
    ok := true;
    ghost var w0 := b.Written();
    assert fs[0..] == fs;
    while ok && i < |fs|
      invariant 0 <= i <= |fs| && b.Valid()
      invariant ok ==> b.Written() + EncodeFields(fs[i..]) == w0 + EncodeFields(fs)
      invariant !ok ==> |EncodeFields(fs)| > old(b.left) && b.Written() <= w0 + EncodeFields(fs)
      decreases |fs| - i
    {
      ghost var w, left := b.Written(), b.left;
      EncodeHead(w, fs, i);
      PartlyWritten(w, left, fs, i);
      PredictionMatchesWriter(fs[i]);
      assert |w| + |EncodeFields(fs[i..])| == |w0| + |EncodeFields(fs)|;
      var ret := b.AddFieldVal(fs[i]);
      ok := ret == 0;
      i := i + 1;
    }
    assert i == |fs| ==> fs[i..] == [];
  }
}
