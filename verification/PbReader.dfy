/**
 The field iterator of src/pb.c: a cursor (`ptr`, `left`) over a message that
 the decoders advance byte by byte.  Every method is tied to the window function
 of module Wire for the bytes between the cursor and the end of the message.
 */
module PbReader {
  import opened Bytes
  import opened Wire
  import Varint

  class PbField {
    var tag: U32
    var eom: bool
    var kind: WireType
    var num: U64            // val.i64, also the scratch result of a varint
    var val: Value          // the value of the field just read
    var strAt: nat          // where val.str.data points, for a string

    var data: seq<Byte>     // the message passed to begin
    var ptr: nat
    var left: int

    constructor ()
      ensures Valid() && data == [] && !eom
    {
      tag, eom, kind, num, val, strAt := 0, false, VARINT, 0, Vint(0), 0;
      data, ptr, left := [], 0, 0;
    }

    /** Lengths are ints in the source, so a message is shorter than 2^31 bytes; a caller may pass a negative one. */
    ghost predicate Valid()
      reads this
    {
      ptr <= |data| < TWO_31 && ptr + left <= |data|
    }

    /** The bytes still to be read: none after a negative length. */
    ghost function Window(): seq<Byte>
      requires Valid()
      reads this
    {
      if left < 0 then [] else data[ptr..ptr + left]
    }

    /** The cursor moved n bytes forward and nothing else about the message changed. */
    twostate predicate Advanced(n: nat)
      requires old(Valid())
      reads this
    {
      && Valid()
      && data == old(data)
      && ptr == old(ptr) + n
      && left == old(left) - n
    }

    method GetByte() returns (ret: int, b: Byte)
      requires Valid()
      modifies this`ptr, this`left
      ensures ret == if old(left) < 1 then -1 else 0
      ensures Advanced(if ret == 0 then 1 else 0)
      ensures ret == 0 ==> b == old(Window())[0]
    {
      if left < 1 { return -1, 0; }
      b := data[ptr];
      ptr, left := ptr + 1, left - 1;
      ret := 0;
    }

    method GetWord(count: nat) returns (ret: int, w: nat)
      requires Valid() && (count == 4 || count == 8)
      modifies this`ptr, this`left
      ensures ret == if old(left) < count then -1 else 0
      ensures Advanced(if ret == 0 then count else 0)
      ensures ret == 0 ==> w == LoadWord(old(Window()), count)
    {
      if left < count { return -1, 0; }
      assert Window()[..count] == data[ptr..ptr + count];
      w := WordOf(data[ptr..ptr + count]);
      ptr, left := ptr + count, left - count;
      ret := 0;
    }

    method DecodeVarint() returns (ret: int)
      requires Valid()
      modifies this`ptr, this`left, this`num
      ensures var r := Varint.Decode(old(Window()));
              && Advanced(VintBytesRead(r, old(Window())))
              && (r.Ok? ==> ret == 0 && num == r.val)
              && (r.Overflow? ==> ret == -1)
              && (r.Truncated? ==> ret == -2)
    {
      ghost var s := Window();
      var bitpos, k, result, more := 0, 0, 0, true;
      while more
        invariant 0 <= result < TWO_64
        invariant Advanced(k) && k <= |s| && k <= 10 && bitpos == 7 * k
        invariant more ==> Varint.Decode(s) == Varint.DecodeFrom(s, k, result)
        invariant !more ==> Varint.Decode(s) == Varint.Ok(result, k)
        decreases more, |s| - k
      {
        if bitpos >= 64 { return -1; }
        var got, b := GetByte();
        if got != 0 { return -2; }
        DecodeTurn(s, k, result);
        result := Varint.Accumulate(result, b, k);
        bitpos := bitpos + 7;
        more := b >= 0x80;
        k := k + 1;
      }
      num := result;
      ret := 0;
    }

    method DecodeString() returns (ret: int)
      requires Valid()
      modifies this`ptr, this`left, this`num, this`val, this`strAt
      ensures Decoded(STRING, old(Window()), ret)
    {
      ghost var s := Window();
      var got := DecodeVarint();
      if got != 0 { return -1; }
      if num > left { return -2; }
      val, strAt := Str(data[ptr..ptr + num]), ptr;
      ghost var n := Varint.Decode(s).len;
      SubWindow(data, old(ptr), old(left), n, num);
      ptr, left := ptr + num, left - num;
      ret := 0;
    }

    /** The value decoder for ty ran over the window s and returned ret. */
    twostate predicate Decoded(ty: WireType, s: seq<Byte>, ret: int)
      requires old(Valid()) && s == old(Window())
      reads this
    {
      var r := DecodeValue(ty, s);
      && Advanced(r.len)
      && match r {
           case VOk(v, _) => ret == 0 && val == v && InMessage()
           case VFail(c, _) => ret == c
         }
    }

    /** A string value is the slice of the message that ends at the cursor. */
    ghost predicate InMessage()
      reads this
    {
      val.Str? ==>
        strAt + |val.data| == ptr <= |data| && val.data == data[strAt..ptr]
    }

    method DecodeTag() returns (ret: int)
      requires Valid()
      modifies this
      ensures var r := DecodeField(old(Window()));
              && Advanced(r.len)
              && match r {
                   case FOk(f, _) => ret == 0 && tag == f.tag && val == f.val && eom == old(eom) && InMessage()
                   case FFail(c, _, e) => ret != 0 && eom == (old(eom) || (e && old(left) >= 0))
                 }
    {
      ghost var s := Window();
      var got := DecodeVarint();
      if got != 0 {
        if left == 0 { eom := true; }
        return -1;
      }
      if num == 0 {
        eom := true;
        return -2;
      }
      tag := num / 8 % TWO_32;
      kind := num % TWO_32 % 8;
      LowBits(num);
      ghost var n := Varint.Decode(s).len;
      assert Window() == s[n..];
      ret := DecodeByKind();
    }

    method DecodeByKind() returns (ret: int)
      requires Valid()
      modifies this`ptr, this`left, this`num, this`val, this`strAt
      ensures Decoded(kind, old(Window()), ret)
    {
      if kind == VARINT {
        ret := DecodeVarint();
        if ret == 0 { val := Vint(num); }
      } else if kind == FIXED64 {
        var w;
        ret, w := GetWord(8);
        if ret == 0 { val := Fixed64(w); }
      } else if kind == STRING {
        ret := DecodeString();
      } else if kind == FIXED32 {
        var w;
        ret, w := GetWord(4);
        if ret == 0 { val := Fixed32(w); }
      } else {
        ret := -3;
      }
    }

    /** What one call of pb_begin, pb_begin_delimited or pb_next did to a message window s. */
    ghost predicate Delivered(s: seq<Byte>, from: nat, eom0: bool, ok: bool)
      reads this
    {
      DeliveredResult(DecodeField(s), s, from, eom0, ok)
    }

    ghost predicate DeliveredResult(r: FieldResult, s: seq<Byte>, from: nat, eom0: bool, ok: bool)
      requires r.len <= |s|
      reads this
    {
      && Valid()
      && ptr == from + r.len && left == |s| - r.len
      && Window() == s[r.len..]
      && ok == r.FOk?
      && (ok ==> r.len >= 2 && Field(tag, val) == r.field && eom == eom0 && InMessage() && (val.Str? ==> from < strAt))
      && (!ok ==> eom == (eom0 || r.eom))
    }

    /** The first dlen bytes are the message; a negative length delivers nothing and signals no end. */
    method Begin(message: seq<Byte>, dlen: int) returns (ok: bool)
      requires dlen <= |message| < TWO_31
      modifies this
      ensures data == message && Valid()
      ensures dlen >= 0 ==> Delivered(message[..dlen], 0, false, ok)
      ensures dlen < 0 ==> !ok && !eom && ptr == 0 && left == dlen
    {
      data, ptr, left, eom := message, 0, dlen, false;
      ghost var s := Window();
      assert dlen >= 0 ==> s == message[..dlen];
      var ret := DecodeTag();
      ok := ret == 0;
      StringPastTag(s);
      NothingToRead();
    }

    /** The length prefix of pb_begin_delimited: the message then ends behind as many bytes. */
    method ReadPrefix(message: seq<Byte>, dlen: int) returns (ok: bool)
      requires dlen <= |message| < TWO_31
      modifies this
      ensures data == message && Valid() && !eom
      ensures var s := Prefix(message, dlen);
              var r := Varint.Decode(s);
              && ok == (r.Ok? && r.val <= dlen - r.len)
              && ptr == VintBytesRead(r, s) && left == if ok then r.val else dlen - ptr
    {
      data, ptr, left, eom := message, 0, dlen, false;
      ghost var s := Window();
      assert s == Prefix(message, dlen);
      var got := DecodeVarint();
      if got != 0 { return false; }
      if num > left { return false; }
      left := num;
      ok := true;
    }

    /**
     The length prefix becomes the end of the message, unless it points outside or
     is no varint: then nothing is delivered, the end is not signalled, and the
     cursor is behind what was read of the prefix.
     */
    method BeginDelimited(message: seq<Byte>, dlen: int) returns (ok: bool)
      requires dlen <= |message| < TWO_31
      modifies this
      ensures data == message && Valid()
      ensures var s := Prefix(message, dlen);
              var r := Varint.Decode(s);
              if r.Ok? && r.val <= dlen - r.len then
                Delivered(message[r.len..r.len + r.val], r.len, false, ok)
              else
                !ok && !eom && ptr == VintBytesRead(r, s) && left == dlen - ptr
    {
      ok := ReadPrefix(message, dlen);
      if ok {
        assert Window() == message[ptr..ptr + left];
        ok := Next();
      }
    }

    /** The next field; after a negative length there is never one. */
    method Next() returns (ok: bool)
      requires Valid()
      modifies this
      ensures data == old(data) && Valid()
      ensures old(left) >= 0 ==> Delivered(old(Window()), old(ptr), old(eom), ok)
      ensures old(left) < 0 ==> !ok && eom == old(eom) && ptr == old(ptr) && left == old(left)
    {
      ghost var s := Window();
      var ret := DecodeTag();
      ok := ret == 0;
      StringPastTag(s);
      NothingToRead();
    }

    /** pb_skip_varint: up to a byte without the top bit, or the end. */
    method SkipBytes()
      requires Valid()
      modifies this`ptr, this`left
      ensures Advanced(SkipVarint(old(Window())))
    {
      ghost var s := Window();
      ghost var k := 0;
      var more := true;
      while more
        invariant k <= |s| && Advanced(k)
        invariant SkipVarint(s) == k + if more then SkipVarint(s[k..]) else 0
        decreases more, |s| - k
      {
        assert k < |s| ==> s[k..][1..] == s[k + 1..];
        var got, b := GetByte();
        if got != 0 { return; }
        more, k := b >= 0x80, k + 1;
      }
    }

    method SkipField(ty: WireType) returns (ret: int)
      requires Valid()
      modifies this`ptr, this`left, this`num
      ensures var r := SkipValue(ty, old(Window()));
              && Advanced(r.len)
              && ret == if r.SOk? then 0 else r.code
    {
      if ty == VARINT {
        SkipBytes();
        ret := 0;
      } else if ty == FIXED64 {
        var w;
        ret, w := GetWord(8);
      } else if ty == STRING {
        ret := DecodeVarint();
        if ret != 0 { return -1; }
        var count := num % TWO_32;
        if left < count { return -1; }
        ptr, left := ptr + count, left - count;
        ret := 0;
      } else if ty == FIXED32 {
        var w;
        ret, w := GetWord(4);
      } else {
        ret := -1;
      }
    }
  }

  lemma SubWindow(data: seq<Byte>, p: nat, l: nat, n: nat, m: nat)
    requires p + l <= |data| && n + m <= l
    ensures data[p..p + l][n..n + m] == data[p + n..p + n + m]
  {
    var a, b := data[p..p + l][n..n + m], data[p + n..p + n + m];
    assert |a| == |b|;
    assert forall i :: 0 <= i < m ==> a[i] == data[p + (n + i)] == b[i];
  }

  /** The bytes a caller passes: none of a negative length. */
  function Prefix(message: seq<Byte>, dlen: int): seq<Byte>
    requires dlen <= |message|
  {
    if dlen < 0 then [] else message[..dlen]
  }

  /** One turn of the varint loop. */
  lemma DecodeTurn(s: seq<Byte>, k: nat, acc: U64)
    requires k < |s| && k < 10
    ensures var acc' := Varint.Accumulate(acc, s[k], k);
            Varint.DecodeFrom(s, k, acc) ==
            if s[k] < 0x80 then Varint.Ok(acc', k + 1) else Varint.DecodeFrom(s, k + 1, acc')
  {}

  lemma LowBits(x: nat)
    ensures x % TWO_32 % 8 == x % 8
  {
    MultipleOf8(x % TWO_32, TWO_29 * (x / TWO_32));
  }

  lemma MultipleOf8(y: nat, k: nat)
    ensures (y + 8 * k) % 8 == y % 8
  {}

  function Prepend(fs: seq<Field>, r: Reading): Reading {
    r.(fields := fs + r.fields)
  }

  lemma ReadingStep(all: Reading, fs: seq<Field>, s: seq<Byte>)
    requires all == Prepend(fs, ReadFields(s))
    ensures var r := DecodeField(s);
            all == if r.FOk? then Prepend(fs + [r.field], ReadFields(s[r.len..])) else Reading(fs, r.eom)
  {
    var r := DecodeField(s);
    if r.FOk? {
      assert ReadFields(s).fields == [r.field] + ReadFields(s[r.len..]).fields;
    }
  }

  lemma NothingToRead()
    ensures DecodeField([]) == FFail(-1, 0, true)
  {}

  lemma StringPastTag(s: seq<Byte>)
    ensures var r := DecodeField(s); r.FOk? && r.field.val.Str? ==> |r.field.val.data| < r.len
  {}

  /**
   The iteration every caller of the reader performs (KnvNode::InnerExpand): it
   collects the fields one by one and ends with the reader's `eom`.
   */
  method ReadMessage(message: seq<Byte>) returns (fields: seq<Field>, eom: bool)
    requires |message| < TWO_31
    ensures Reading(fields, eom) == ReadFields(message)
  {
    var f := new PbField();
    fields := [];
    assert message[..|message|] == message;
    var ok := f.Begin(message, |message|);
    ghost var w := f.Window();
    ReadingStep(ReadFields(message), [], message);
    while ok
      invariant f.Valid() && f.left >= 0 && fresh(f) && w == f.Window()
      invariant ok ==> !f.eom && ReadFields(message) == Prepend(fields + [Field(f.tag, f.val)], ReadFields(w))
      invariant !ok ==> ReadFields(message) == Reading(fields, f.eom)
      decreases ok, f.left
    {
      fields := fields + [Field(f.tag, f.val)];
      ReadingStep(ReadFields(message), fields, w);
      ok := f.Next();
      w := f.Window();
    }
    eom := f.eom;
  }
}
