/**
 The protobuf wire format of src/pb.c and src/pb.h as functions of byte windows:
 what the writer emits for a field, what the reader makes of a window, and how
 the two fit together.  Windows are the `left` bytes at `ptr`; bitwise or of
 disjoint bits is written as addition.
 */
module Wire {
  import opened Bytes
  import Varint

  datatype Value =
    | Vint(i64: U64)
    | Fixed64(i64: U64)
    | Str(data: seq<Byte>)
    | Fixed32(i32: U32)

  datatype Field = Field(tag: U32, val: Value)

  const VARINT := 0
  const FIXED64 := 1
  const STRING := 2
  const FIXED32 := 5

  type WireType = x: int | 0 <= x < 8

  function TypeOf(v: Value): WireType {
    match v
    case Vint(_) => VARINT
    case Fixed64(_) => FIXED64
    case Str(_) => STRING
    case Fixed32(_) => FIXED32
  }

  /** String lengths are 32-bit in the source. */
  predicate Writable(v: Value) {
    v.Str? ==> |v.data| < TWO_32
  }

  // ---------- writing ----------

  /** `wiretype | (field_number << 3)`, the shift being a 32-bit one. */
  function Key(ty: WireType, tag: U32): (k: U32)
    ensures k % 8 == ty
    ensures tag < TWO_29 ==> k == 8 * tag + ty
  {
    tag * 8 % TWO_32 + ty
  }

  function Payload(v: Value): seq<Byte> {
    match v
    case Vint(i) => Varint.Encode(i)
    case Fixed64(i) => WordBytes(i, 8)
    case Str(d) => Varint.Encode(|d|) + d
    case Fixed32(i) => WordBytes(i, 4)
  }

  function EncodeField(f: Field): (s: seq<Byte>)
    ensures |s| >= 2
  {
    Varint.Encode(Key(TypeOf(f.val), f.tag)) + Payload(f.val)
  }

  function EncodeFields(fs: seq<Field>): seq<Byte> {
    if fs == [] then [] else EncodeField(fs[0]) + EncodeFields(fs[1..])
  }

  // ---------- length prediction (pb.h) ----------

  function EvalTagLength(ty: WireType, tag: U32): nat {
    Varint.Len(Key(ty, tag))
  }

  /** `pb_eval_field_length`, an `int` computed in 32-bit arithmetic. */
  function EvalFieldLength(f: Field): int {
    ToInt32(EvalTagLength(TypeOf(f.val), f.tag) +
            match f.val
            case Vint(i) => Varint.Len(i)
            case Fixed64(_) => 8
            case Fixed32(_) => 4
            case Str(d) => Varint.Len(|d| % TWO_32) + |d| % TWO_32)
  }

  /** The prediction is the number of bytes written, whenever that number fits an int. */
  lemma PredictionMatchesWriter(f: Field)
    requires Writable(f.val) && |EncodeField(f)| < TWO_31
    ensures EvalFieldLength(f) == |EncodeField(f)|
  {
    var n := |EncodeField(f)|;
    assert (n + TWO_31) % TWO_32 == n + TWO_31;
  }

  // ---------- reading ----------

  datatype ValueResult = VOk(val: Value, len: nat) | VFail(code: int, len: nat)

  function VintBytesRead(r: Varint.Result, s: seq<Byte>): (n: nat)
    requires r == Varint.Decode(s)
    ensures n <= |s|
  {
    match r
    case Ok(_, n) => n
    case Overflow => 10
    case Truncated => |s|
  }

  /** The value decoders selected by the wire type; `len` is how far the cursor moves. */
  function DecodeValue(ty: WireType, s: seq<Byte>): (r: ValueResult)
    ensures r.len <= |s|
    ensures r.VOk? ==> 1 <= r.len && TypeOf(r.val) == ty
    ensures r.VOk? && ty == STRING ==>
              |r.val.data| <= r.len && r.val.data == s[r.len - |r.val.data|..r.len]
  {
    if ty == VARINT then
      var v := Varint.Decode(s);
      match v
      case Ok(i, n) => VOk(Vint(i), n)
      case Overflow => VFail(-1, VintBytesRead(v, s))
      case Truncated => VFail(-2, VintBytesRead(v, s))
    else if ty == FIXED64 then
      if |s| < 8 then VFail(-1, 0) else VOk(Fixed64(LoadWord(s, 8)), 8)
    else if ty == STRING then
      var v := Varint.Decode(s);
      match v
      case Ok(z, n) =>
        if z > |s| - n then VFail(-2, n) else VOk(Str(s[n..n + z]), n + z)
      case _ => VFail(-1, VintBytesRead(v, s))
    else if ty == FIXED32 then
      if |s| < 4 then VFail(-1, 0) else VOk(Fixed32(LoadWord(s, 4)), 4)
    else
      VFail(-3, 0)
  }

  function LoadWord(s: seq<Byte>, n: nat): (v: nat)
    requires n <= |s| && (n == 4 || n == 8)
    ensures v < if n == 4 then TWO_32 else TWO_64
  {
    PowValues();
    WordBound(s[..n]);
    WordOf(s[..n])
  }

  datatype FieldResult =
    | FOk(field: Field, len: nat)
    | FFail(code: int, len: nat, eom: bool)   // eom: end-of-message is signalled

  /** `pb_decode_tag`: one whole field, or why there is none. */
  function DecodeField(s: seq<Byte>): (r: FieldResult)
    ensures r.len <= |s|
    ensures r.FOk? ==> r.len >= 2
  {
    var k := Varint.Decode(s);
    match k
    case Truncated => FFail(-1, |s|, true)
    case Overflow => FFail(-1, 10, |s| == 10)
    case Ok(key, n) =>
      if key == 0 then FFail(-2, n, true)
      else
        match DecodeValue(key % 8, s[n..])
        case VOk(v, m) => FOk(Field(key / 8 % TWO_32, v), n + m)
        case VFail(c, m) => FFail(c, n + m, false)
  }

  datatype Reading = Reading(fields: seq<Field>, eom: bool)

  /** The fields `pb_begin` and then `pb_next` deliver, and `eom` when they return NULL. */
  function ReadFields(s: seq<Byte>): Reading
    decreases |s|
  {
    match DecodeField(s)
    case FOk(f, n) => var r := ReadFields(s[n..]); r.(fields := [f] + r.fields)
    case FFail(_, _, e) => Reading([], e)
  }

  // ---------- round trips ----------

  /** The fields that survive the 32-bit shift and are not the end-of-message byte. */
  predicate Encodable(f: Field) {
    && Writable(f.val)
    && f.tag < TWO_29
    && !(f.tag == 0 && f.val.Vint?)
  }

  predicate AllEncodable(fs: seq<Field>) {
    forall i :: 0 <= i < |fs| ==> Encodable(fs[i])
  }

  lemma Middle(a: seq<Byte>, b: seq<Byte>, c: seq<Byte>)
    ensures a + b + c == a + (b + c) && (a + b + c)[|a|..|a| + |b|] == b
  {}

  /** A string is read once its length is known. */
  lemma StringBehind(s: seq<Byte>, z: U64, n: nat)
    requires Varint.Decode(s) == Varint.Ok(z, n) && n + z <= |s|
    ensures DecodeValue(STRING, s) == VOk(Str(s[n..n + z]), n + z)
  {}

  lemma StringOf(k: seq<Byte>, d: seq<Byte>, rest: seq<Byte>)
    requires |d| < TWO_32 && Varint.Decode(k + (d + rest)) == Varint.Ok(|d|, |k|)
    ensures DecodeValue(STRING, k + d + rest) == VOk(Str(d), |k| + |d|)
  {
    Middle(k, d, rest);
    StringBehind(k + d + rest, |d|, |k|);
  }

  lemma FixedRoundTrip(i: nat, n: nat, rest: seq<Byte>)
    requires (n == 4 && i < TWO_32) || (n == 8 && i < TWO_64)
    ensures LoadWord(WordBytes(i, n) + rest, n) == i
  {
    PowValues();
    WordRoundTrip(i, n);
    assert (WordBytes(i, n) + rest)[..n] == WordBytes(i, n);
  }

  lemma PayloadRoundTrip(v: Value, rest: seq<Byte>)
    requires Writable(v)
    ensures DecodeValue(TypeOf(v), Payload(v) + rest) == VOk(v, |Payload(v)|)
  {
    match v
    case Vint(i) => Varint.RoundTrip(i, rest);
    case Fixed64(i) => FixedRoundTrip(i, 8, rest);
    case Fixed32(i) => FixedRoundTrip(i, 4, rest);
    case Str(d) =>
      Varint.RoundTrip(|d|, d + rest);
      StringOf(Varint.Encode(|d|), d, rest);
  }

  lemma DecodeWritten(f: Field, rest: seq<Byte>)
    requires Writable(f.val)
    ensures var key := Key(TypeOf(f.val), f.tag);
            DecodeField(EncodeField(f) + rest) ==
            if key == 0 then FFail(-2, 1, true)
            else FOk(f.(tag := key / 8), |EncodeField(f)|)
  {
    var key := Key(TypeOf(f.val), f.tag);
    var s := EncodeField(f) + rest;
    var n := Varint.Len(key);
    assert s == Varint.Encode(key) + (Payload(f.val) + rest);
    Varint.RoundTrip(key, Payload(f.val) + rest);
    assert s[n..] == Payload(f.val) + rest;
    PayloadRoundTrip(f.val, rest);
    assert key / 8 % TWO_32 == key / 8;
  }

  /** A written field reads back as itself exactly when it is encodable. */
  lemma FieldRoundTripExactly(f: Field, rest: seq<Byte>)
    requires Writable(f.val)
    ensures DecodeField(EncodeField(f) + rest) == FOk(f, |EncodeField(f)|) <==> Encodable(f)
  {
    DecodeWritten(f, rest);
    KeyLosesHighBits(TypeOf(f.val), f.tag);
  }

  lemma KeyLosesHighBits(ty: WireType, tag: U32)
    ensures Key(ty, tag) / 8 == tag % TWO_29
  {
    assert tag * 8 % TWO_32 == (tag % TWO_29) * 8;
  }

  /** Writing any list of encodable fields and iterating over it yields that list, then end-of-message. */
  lemma {:induction false} MessageRoundTrip(fs: seq<Field>)
    requires AllEncodable(fs)
    ensures ReadFields(EncodeFields(fs)) == Reading(fs, true)
  {
    if fs == [] {
      assert Varint.Decode([]) == Varint.Truncated;
    } else {
      var rest := EncodeFields(fs[1..]);
      FieldRoundTripExactly(fs[0], rest);
      assert (EncodeField(fs[0]) + rest)[|EncodeField(fs[0])|..] == rest;
      MessageRoundTrip(fs[1..]);
    }
  }

  /** The written form is no longer than any window part the same value was read from. */
  lemma PayloadShortest(ty: WireType, s: seq<Byte>)
    ensures var r := DecodeValue(ty, s); r.VOk? ==> |Payload(r.val)| <= r.len
  {
    Varint.Shortest(s);
  }

  /**
   Re-encoding a decoded field takes no more bytes than it was read from, and
   decodes to the same field exactly when that field is encodable.
   */
  lemma Normalisation(s: seq<Byte>, rest: seq<Byte>)
    requires |s| < TWO_31 && DecodeField(s).FOk?
    ensures var FOk(f, n) := DecodeField(s);
            && |EncodeField(f)| <= n
            && (DecodeField(EncodeField(f) + rest) == FOk(f, |EncodeField(f)|) <==> Encodable(f))
  {
    FieldRoundTripExactly(DecodeField(s).field, rest);
    FieldShortest(s);
  }

  /** Even where the writer drops high bits of the number, it does not write a longer key. */
  lemma FieldShortest(s: seq<Byte>)
    requires DecodeField(s).FOk?
    ensures |EncodeField(DecodeField(s).field)| <= DecodeField(s).len
  {
    var f := DecodeField(s).field;
    var Ok(key, m) := Varint.Decode(s);
    Varint.Shortest(s);
    PayloadShortest(key % 8, s[m..]);
    KeyNotLarger(key);
    Varint.LenMonotone(Key(TypeOf(f.val), f.tag), key);
  }

  lemma KeyNotLarger(key: U64)
    ensures Key(key % 8, key / 8 % TWO_32) <= key
  {
    var tag := key / 8 % TWO_32;
    KeyLosesHighBits(key % 8, tag);
    assert Key(key % 8, tag) == 8 * (tag % TWO_29) + key % 8;
    assert tag % TWO_29 <= tag <= key / 8;
  }

  /** Decode-then-encode of a whole message is never longer than its input. */
  lemma {:induction false} NormalisedShorter(s: seq<Byte>)
    ensures |EncodeFields(ReadFields(s).fields)| <= |s|
    decreases |s|
  {
    var fs := ReadFields(s).fields;
    match DecodeField(s)
    case FOk(f, n) =>
      assert fs[0] == f && fs[1..] == ReadFields(s[n..]).fields;
      NormalisedShorter(s[n..]);
      FieldShortest(s);
    case FFail(_, _, _) =>
  }

  /** And it is idempotent when the fields are encodable. */
  lemma NormaliseMessage(s: seq<Byte>)
    ensures var t := EncodeFields(ReadFields(s).fields);
            |t| <= |s| && (AllEncodable(ReadFields(s).fields) ==> ReadFields(t) == Reading(ReadFields(s).fields, true))
  {
    NormalisedShorter(s);
    if AllEncodable(ReadFields(s).fields) { MessageRoundTrip(ReadFields(s).fields); }
  }

  // ---------- truncation ----------

  /** A value that is read from the front of a window is read from the whole window too. */
  lemma ValuePrefix(ty: WireType, t: seq<Byte>, s: seq<Byte>)
    requires t <= s && DecodeValue(ty, t).VOk?
    ensures DecodeValue(ty, s) == DecodeValue(ty, t)
  {
    if ty == VARINT || ty == STRING {
      Varint.DecodePrefix(t, s);
    } else if ty == FIXED64 {
      assert s[..8] == t[..8];
    } else {
      assert s[..4] == t[..4];
    }
  }

  lemma FieldPrefix(t: seq<Byte>, s: seq<Byte>)
    requires t <= s && DecodeField(t).FOk?
    ensures DecodeField(s) == DecodeField(t)
  {
    Varint.DecodePrefix(t, s);
    var Ok(key, n) := Varint.Decode(t);
    assert t[n..] <= s[n..];
    ValuePrefix(key % 8, t[n..], s[n..]);
  }

  /** No proper prefix of a written field reads as a field. */
  lemma TruncatedFails(f: Field, n: nat)
    requires Encodable(f) && n < |EncodeField(f)|
    ensures DecodeField(EncodeField(f)[..n]).FFail?
  {
    var s := EncodeField(f);
    FieldRoundTripExactly(f, []);
    assert s + [] == s;
    if DecodeField(s[..n]).FOk? { FieldPrefix(s[..n], s); }
  }

  // ---------- end of message ----------

  /** What is left where the iteration stops. */
  function Unread(s: seq<Byte>): (t: seq<Byte>)
    ensures |t| <= |s| && DecodeField(t).FFail?
    decreases |s|
  {
    match DecodeField(s)
    case FOk(_, n) => Unread(s[n..])
    case FFail(_, _, _) => s
  }

  /** A key that is a varint of value zero. */
  ghost predicate ZeroKey(t: seq<Byte>) {
    exists n :: 0 <= n <= |t| && n <= 10 && Varint.Terminated(t[..n]) && Varint.Groups(t[..n]) % TWO_64 == 0
  }

  /** At most ten bytes that all continue: nothing at all, or a key cut short. */
  predicate CutKey(t: seq<Byte>) {
    |t| <= 10 && forall i :: 0 <= i < |t| ==> t[i] >= 0x80
  }

  lemma ZeroKeyExactly(t: seq<Byte>)
    ensures ZeroKey(t) <==> Varint.Decode(t).Ok? && Varint.Decode(t).val == 0
  {
    var r := Varint.Decode(t);
    if r.Ok? { Varint.DecodeMeetsReference(t, r.len, r.val); }
    if n :| 0 <= n <= |t| && n <= 10 && Varint.Terminated(t[..n]) && Varint.Groups(t[..n]) % TWO_64 == 0 {
      Varint.DecodeMeetsReference(t, n, 0);
    }
  }

  lemma CutKeyExactly(t: seq<Byte>)
    ensures CutKey(t) <==> !Varint.Decode(t).Ok? && |t| <= 10
  {
    var r := Varint.Decode(t);
    if r.Ok? {
      Varint.DecodeMeetsReference(t, r.len, r.val);
      assert t[..r.len][r.len - 1] == t[r.len - 1];
    } else if |t| <= 10 {
      forall i | 0 <= i < |t| ensures t[i] >= 0x80 { Varint.NotOkContinues(t, i); }
    }
  }

  /** One decoding signals the end of the message if and only if it meets a cut key or a zero key. */
  lemma EndExactly(t: seq<Byte>)
    ensures DecodeField(t).FFail? && DecodeField(t).eom <==> CutKey(t) || ZeroKey(t)
  {
    ZeroKeyExactly(t);
    CutKeyExactly(t);
  }

  /**
   An iteration ends with the end of the message signalled if and only if what is
   left of the bytes is a cut key (or nothing), or starts with a zero key; never
   when a value is cut short.
   */
  lemma {:induction false} EomExactly(s: seq<Byte>)
    ensures ReadFields(s).eom <==> CutKey(Unread(s)) || ZeroKey(Unread(s))
    decreases |s|
  {
    var r := DecodeField(s);
    if r.FOk? { EomExactly(s[r.len..]); } else { EndExactly(s); }
  }

  /** How far an unfinished varint is read: to the end, but not further than ten bytes. */
  function VarintReach(s: seq<Byte>): nat {
    if |s| < 10 then |s| else 10
  }

  /**
   Where a decoding that fails leaves the cursor, and its code: an unfinished key is
   read as far as a varint goes, a zero key wholly; behind a good key a fixed or
   unknown value is not touched, an unfinished varint or string length is read as
   far as it goes, and a string that is too long leaves the cursor behind its length.
   */
  lemma FailureExactly(s: seq<Byte>)
    requires DecodeField(s).FFail?
    ensures var r, k := DecodeField(s), Varint.Decode(s);
            if !k.Ok? then r.code == -1 && r.len == VarintReach(s)
            else if k.val == 0 then r.code == -2 && r.len == k.len
            else
              var t := s[k.len..];
              var v := Varint.Decode(t);
              if k.val % 8 == STRING && v.Ok? then r.code == -2 && r.len == k.len + v.len && v.val > |t| - v.len
              else if k.val % 8 == STRING || k.val % 8 == VARINT then
                && !v.Ok? && r.len == k.len + VarintReach(t)
                && r.code == if k.val % 8 == VARINT && |t| < 10 then -2 else -1
              else
                && r.len == k.len && (k.val % 8 == FIXED64 ==> |t| < 8) && (k.val % 8 == FIXED32 ==> |t| < 4)
                && r.code == if k.val % 8 == FIXED64 || k.val % 8 == FIXED32 then -1 else -3
  {}

  /** The fields that lie wholly in the first n bytes of a written message. */
  function WholeFields(fs: seq<Field>, n: nat): seq<Field> {
    if fs == [] || n < |EncodeField(fs[0])| then []
    else [fs[0]] + WholeFields(fs[1..], n - |EncodeField(fs[0])|)
  }

  /** Byte n of a written message lies behind a key and before the end of its value. */
  predicate InsideValue(fs: seq<Field>, n: nat) {
    fs != [] &&
    if n >= |EncodeField(fs[0])| then InsideValue(fs[1..], n - |EncodeField(fs[0])|)
    else n >= EvalTagLength(TypeOf(fs[0].val), fs[0].tag)
  }

  /** A key cut short signals the end. */
  lemma KeyCut(key: U64, n: nat)
    requires n < Varint.Len(key)
    ensures CutKey(Varint.Encode(key)[..n])
  {
    Varint.LenU64(key);
    Varint.EncodeGroups(key);
  }

  /** Behind a key that is not zero the end is not signalled. */
  lemma KeyWhole(key: U64, t: seq<Byte>)
    requires key != 0
    ensures var r := DecodeField(Varint.Encode(key) + t); r.FFail? ==> !r.eom
  {
    Varint.RoundTrip(key, t);
  }

  /** A written field cut short: the end is signalled exactly when the cut is within the key. */
  lemma CutField(f: Field, n: nat)
    requires Encodable(f) && n < |EncodeField(f)|
    ensures var r := DecodeField(EncodeField(f)[..n]);
            r.FFail? && (r.eom <==> n < EvalTagLength(TypeOf(f.val), f.tag))
  {
    TruncatedFails(f, n);
    var key := Key(TypeOf(f.val), f.tag);
    PrefixOfTwo(Varint.Encode(key), Payload(f.val), n);
    if n < Varint.Len(key) {
      KeyCut(key, n);
      EndExactly(EncodeField(f)[..n]);
    } else {
      KeyWhole(key, Payload(f.val)[..n - Varint.Len(key)]);
    }
  }

  lemma ReadsOn(f: Field, t: seq<Byte>)
    requires Encodable(f)
    ensures var r := ReadFields(t); ReadFields(EncodeField(f) + t) == Reading([f] + r.fields, r.eom)
  {
    FieldRoundTripExactly(f, t);
    assert (EncodeField(f) + t)[|EncodeField(f)|..] == t;
  }

  lemma ReadsCut(f: Field, n: nat)
    requires Encodable(f) && n < |EncodeField(f)|
    ensures ReadFields(EncodeField(f)[..n]) == Reading([], n < EvalTagLength(TypeOf(f.val), f.tag))
  {
    CutField(f, n);
  }

  lemma PrefixOfTwo(a: seq<Byte>, b: seq<Byte>, n: nat)
    requires n <= |a| + |b|
    ensures (a + b)[..n] == if n >= |a| then a + b[..n - |a|] else a[..n]
  {}

  /** What iterating over the first n bytes of a written message must yield. */
  function CutReading(fs: seq<Field>, n: nat): Reading {
    Reading(WholeFields(fs, n), !InsideValue(fs, n))
  }

  lemma CutBehindFirst(fs: seq<Field>, n: nat, t: seq<Byte>)
    requires fs != [] && Encodable(fs[0]) && n >= |EncodeField(fs[0])|
    requires ReadFields(t) == CutReading(fs[1..], n - |EncodeField(fs[0])|)
    ensures ReadFields(EncodeField(fs[0]) + t) == CutReading(fs, n)
  {
    ReadsOn(fs[0], t);
  }

  lemma CutWithinFirst(fs: seq<Field>, n: nat)
    requires fs != [] && Encodable(fs[0]) && n < |EncodeField(fs[0])|
    ensures ReadFields(EncodeField(fs[0])[..n]) == CutReading(fs, n)
  {
    ReadsCut(fs[0], n);
  }

  /**
   A written message cut at n bytes: its whole fields are read, and the end of the
   message is signalled exactly when the cut is not inside a value.
   */
  lemma {:induction false} CutMessage(fs: seq<Field>, n: nat)
    requires AllEncodable(fs) && n <= |EncodeFields(fs)|
    ensures ReadFields(EncodeFields(fs)[..n]) == CutReading(fs, n)
  {
    if fs == [] {
      MessageRoundTrip([]);
      assert EncodeFields(fs)[..n] == [];
    } else {
      var rest, k := EncodeFields(fs[1..]), |EncodeField(fs[0])|;
      PrefixOfTwo(EncodeField(fs[0]), rest, n);
      if n >= k {
        CutMessage(fs[1..], n - k);
        CutBehindFirst(fs, n, rest[..n - k]);
      } else {
        CutWithinFirst(fs, n);
      }
    }
  }

  // ---------- skipping ----------

  function SkipVarint(s: seq<Byte>): (n: nat)
    ensures n <= |s|
  {
    if s == [] then 0 else if s[0] < 0x80 then 1 else 1 + SkipVarint(s[1..])
  }

  datatype Skip = SOk(len: nat) | SFail(code: int, len: nat)

  /** `pb_skip_field`: no overflow check, and only the low 32 bits of a string length. */
  function SkipValue(ty: WireType, s: seq<Byte>): (r: Skip)
    ensures r.len <= |s|
  {
    if ty == VARINT then SOk(SkipVarint(s))
    else if ty == FIXED64 then if |s| < 8 then SFail(-1, 0) else SOk(8)
    else if ty == STRING then
      var v := Varint.Decode(s);
      match v
      case Ok(z, n) => if |s| - n < z % TWO_32 then SFail(-1, n) else SOk(n + z % TWO_32)
      case _ => SFail(-1, VintBytesRead(v, s))
    else if ty == FIXED32 then if |s| < 4 then SFail(-1, 0) else SOk(4)
    else SFail(-1, 0)
  }

  lemma {:induction false} SkipVarintTerminated(s: seq<Byte>, n: nat)
    requires n <= |s| && Varint.Terminated(s[..n])
    ensures SkipVarint(s) == n
  {
    assert s[0] == s[..n][0];
    if n > 1 {
      assert s[1..][..n - 1] == s[..n][1..];
      SkipVarintTerminated(s[1..], n - 1);
    }
  }

  /**
   Wherever a value decodes, skipping it succeeds and stops at the same place;
   and a skip that succeeds where decoding fails is one of exactly two kinds: an
   unterminated or overlong varint, or a string length of 2^32 or more.
   */
  lemma SkipAgreesWithDecode(ty: WireType, s: seq<Byte>)
    requires |s| < TWO_31
    ensures DecodeValue(ty, s).VOk? ==> SkipValue(ty, s) == SOk(DecodeValue(ty, s).len)
    ensures SkipValue(ty, s).SOk? && DecodeValue(ty, s).VFail? <==>
            var v := Varint.Decode(s);
            || (ty == VARINT && !v.Ok?)
            || (ty == STRING && v.Ok? && v.val >= TWO_32 && v.val % TWO_32 <= |s| - v.len)
  {
    SkipDecodedVarint(s);
  }

  /** Where skipping and decoding both fail, the cursor is left at the same place. */
  lemma FailedSkip(ty: WireType, s: seq<Byte>)
    requires SkipValue(ty, s).SFail?
    ensures DecodeValue(ty, s).VFail? && SkipValue(ty, s).code == -1
    ensures SkipValue(ty, s).len == DecodeValue(ty, s).len
  {}

  lemma SkipDecodedVarint(s: seq<Byte>)
    ensures Varint.Decode(s).Ok? ==> SkipVarint(s) == Varint.Decode(s).len
  {
    var v := Varint.Decode(s);
    if v.Ok? {
      Varint.DecodeMeetsReference(s, v.len, v.val);
      SkipVarintTerminated(s, v.len);
    }
  }
}
