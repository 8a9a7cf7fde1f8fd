/**
 Base 128 varints as src/pb.c reads and writes them.  `Encode` is the writer,
 `Decode` the reader with its 64-bit accumulator, and `Groups` the reference
 reading of the Protocol Buffers encoding ("Base 128 Varints"): seven bits a
 byte, least significant group first.
 */
module Varint {
  import opened Bytes

  function Len(v: nat): (n: nat)
    ensures n >= 1
  {
    if v < 0x80 then 1 else 1 + Len(v / 0x80)
  }

  function Encode(v: nat): (s: seq<Byte>)
    ensures |s| == Len(v)
  {
    if v < 0x80 then [v] else [v % 0x80 + 0x80] + Encode(v / 0x80)
  }

  datatype Result =
    | Ok(val: U64, len: nat)
    | Overflow                // ten bytes read and the tenth still continues
    | Truncated               // the window ended inside the varint

  function Pow128(n: nat): (p: nat)
    ensures p >= 1
  {
    if n == 0 then 1 else 0x80 * Pow128(n - 1)
  }

  /** x << 7k. */
  function Shift(x: nat, k: nat): nat {
    if k == 0 then x else 0x80 * Shift(x, k - 1)
  }

  /**
   The accumulator after byte number k: the byte's low seven bits go in at bit
   7k, and what does not fit 64 bits is lost.  The bits are disjoint, so the
   source's bitwise or is an addition.
   */
  function Accumulate(acc: U64, b: Byte, k: nat): U64 {
    (acc + Shift(b % 0x80, k)) % TWO_64
  }

  /** The decoder loop after k bytes, holding the accumulator acc. */
  function DecodeFrom(s: seq<Byte>, k: nat, acc: U64): (r: Result)
    requires k <= |s|
    ensures r.Ok? ==> k < r.len <= |s| && r.len <= 10
    ensures r.Overflow? ==> |s| >= 10 || k >= 10
    ensures r.Truncated? ==> |s| < 10
    decreases |s| - k
  {
    if k >= 10 then Overflow
    else if k == |s| then Truncated
    else
      var acc' := Accumulate(acc, s[k], k);
      if s[k] < 0x80 then Ok(acc', k + 1) else DecodeFrom(s, k + 1, acc')
  }

  function Decode(s: seq<Byte>): (r: Result)
    ensures r.Ok? ==> 1 <= r.len <= |s| && r.len <= 10
    ensures r.Overflow? ==> |s| >= 10
  {
    DecodeFrom(s, 0, 0)
  }

  /** Exactly one varint: every byte but the last has its top bit set. */
  ghost predicate Terminated(s: seq<Byte>) {
    && s != []
    && s[|s| - 1] < 0x80
    && forall i :: 0 <= i < |s| - 1 ==> s[i] >= 0x80
  }

  /** The number the seven-bit groups of s stand for, without any width limit. */
  ghost function Groups(s: seq<Byte>): nat {
    if s == [] then 0 else s[0] % 0x80 + 0x80 * Groups(s[1..])
  }

  lemma {:induction false} GroupsSnoc(s: seq<Byte>, b: Byte)
    ensures Groups(s + [b]) == Groups(s) + Shift(b % 0x80, |s|)
  {
    if s == [] {
      assert [b][1..] == [];
    } else {
      assert (s + [b])[1..] == s[1..] + [b];
      GroupsSnoc(s[1..], b);
    }
  }

  lemma AccumulateGroups(s: seq<Byte>, k: nat, acc: U64)
    requires k < |s| && acc == Groups(s[..k]) % TWO_64
    ensures Accumulate(acc, s[k], k) == Groups(s[..k + 1]) % TWO_64
  {
    GroupsSnoc(s[..k], s[k]);
    assert s[..k] + [s[k]] == s[..k + 1];
    ModAdd(Groups(s[..k]), Shift(s[k] % 0x80, k));
  }

  lemma ModAdd(a: nat, b: nat)
    ensures (a % TWO_64 + b) % TWO_64 == (a + b) % TWO_64
  {}

  lemma {:induction false} GroupsBound(s: seq<Byte>)
    ensures Groups(s) < Pow128(|s|)
  {
    if s != [] { GroupsBound(s[1..]); }
  }

  /** One varint of at most ten bytes at the front of s decodes to its groups modulo 2^64. */
  lemma {:induction false} DecodeFromTerminated(s: seq<Byte>, k: nat, acc: U64, n: nat)
    requires k < n <= |s| && n <= 10 && Terminated(s[..n])
    requires acc == Groups(s[..k]) % TWO_64
    ensures DecodeFrom(s, k, acc) == Ok(Groups(s[..n]) % TWO_64, n)
    decreases n - k
  {
    AccumulateGroups(s, k, acc);
    assert s[k] == s[..n][k];
    if k + 1 < n {
      DecodeFromTerminated(s, k + 1, Accumulate(acc, s[k], k), n);
    }
  }

  /** A decoding that succeeds found one terminated varint and returned its groups modulo 2^64. */
  lemma {:induction false} DecodeFromSound(s: seq<Byte>, k: nat, acc: U64)
    requires k <= |s| && acc == Groups(s[..k]) % TWO_64
    requires forall i :: 0 <= i < k ==> s[i] >= 0x80
    ensures var r := DecodeFrom(s, k, acc);
            r.Ok? ==> Terminated(s[..r.len]) && r.val == Groups(s[..r.len]) % TWO_64
    decreases |s| - k
  {
    if k < 10 && k < |s| {
      AccumulateGroups(s, k, acc);
      if s[k] >= 0x80 {
        DecodeFromSound(s, k + 1, Accumulate(acc, s[k], k));
      }
    }
  }

  /**
   The decoder meets the reference reading in both directions: it succeeds on n
   bytes with value v exactly when those n <= 10 bytes are one terminated varint
   and v is what its groups stand for modulo 2^64.
   */
  lemma DecodeMeetsReference(s: seq<Byte>, n: nat, v: U64)
    ensures Decode(s) == Ok(v, n) <==>
            n <= |s| && n <= 10 && Terminated(s[..n]) && v == Groups(s[..n]) % TWO_64
  {
    assert s[..0] == [];
    DecodeFromSound(s, 0, 0);
    if n <= |s| && n <= 10 && Terminated(s[..n]) {
      DecodeFromTerminated(s, 0, 0, n);
    }
  }

  lemma {:induction false} EncodeGroups(v: nat)
    ensures Terminated(Encode(v)) && Groups(Encode(v)) == v
  {
    if v < 0x80 {
      assert Encode(v)[1..] == [];
    } else {
      EncodeGroups(v / 0x80);
      ConsGroup(v % 0x80 + 0x80, Encode(v / 0x80));
    }
  }

  lemma ConsGroup(b: Byte, t: seq<Byte>)
    requires b >= 0x80 && Terminated(t)
    ensures Terminated([b] + t) && Groups([b] + t) == b - 0x80 + 0x80 * Groups(t)
  {
    var s := [b] + t;
    assert s[1..] == t;
    assert forall i :: 1 <= i < |s| ==> s[i] == t[i - 1];
  }

  lemma {:induction false} LenBound(v: nat, n: nat)
    requires n >= 1 && v < Pow128(n)
    ensures Len(v) <= n
  {
    if v >= 0x80 {
      assert Pow128(1) == 0x80;
      LenBound(v / 0x80, n - 1);
    }
  }

  lemma {:induction false} LenMonotone(v: nat, w: nat)
    requires v <= w
    ensures Len(v) <= Len(w)
  {
    if v >= 0x80 { LenMonotone(v / 0x80, w / 0x80); }
  }

  /** No 64-bit value needs more than the ten bytes of the writer's scratch buffer. */
  lemma LenU64(v: U64)
    ensures Len(v) <= 10
  {
    Pow128Ten();
    LenBound(v, 10);
  }

  lemma Pow128Ten()
    ensures Pow128(10) == 0x40 * TWO_64
  {
    assert Pow128(2) == 0x80 * Pow128(1) == 0x4000;
    assert Pow128(4) == 0x80 * Pow128(3) == 0x1000_0000;
    assert Pow128(6) == 0x80 * Pow128(5);
    assert Pow128(8) == 0x80 * Pow128(7);
    assert Pow128(10) == 0x80 * Pow128(9);
  }

  /** Reading back what was written, with anything behind it, gives the value and its length. */
  lemma RoundTrip(v: U64, rest: seq<Byte>)
    ensures Decode(Encode(v) + rest) == Ok(v, Len(v))
  {
    var s := Encode(v) + rest;
    LenU64(v);
    EncodeGroups(v);
    assert s[..Len(v)] == Encode(v);
    DecodeMeetsReference(s, Len(v), v);
  }

  /** The written form is the shortest that decodes to the value. */
  lemma Shortest(s: seq<Byte>)
    ensures Decode(s).Ok? ==> Len(Decode(s).val) <= Decode(s).len
  {
    if Decode(s).Ok? {
      var n := Decode(s).len;
      DecodeMeetsReference(s, n, Decode(s).val);
      GroupsBound(s[..n]);
      LenBound(Decode(s).val, n);
    }
  }

  /** Decoding looks only at the bytes it consumes. */
  lemma DecodePrefix(s: seq<Byte>, t: seq<Byte>)
    requires Decode(s).Ok? && Decode(s).len <= |t| && t[..Decode(s).len] == s[..Decode(s).len]
    ensures Decode(t) == Decode(s)
  {
    var Ok(v, n) := Decode(s);
    DecodeMeetsReference(s, n, v);
    DecodeMeetsReference(t, n, v);
  }

  /** Where nothing decodes, the first ten bytes all continue. */
  lemma NotOkContinues(s: seq<Byte>, i: nat)
    requires !Decode(s).Ok? && i < |s| && i < 10
    ensures s[i] >= 0x80
  {
    if s[i] < 0x80 {
      var k := FirstEnd(s, i);
      assert forall j :: 0 <= j < k ==> s[..k + 1][j] == s[j];
      DecodeMeetsReference(s, k + 1, Groups(s[..k + 1]) % TWO_64);
    }
  }

  lemma {:induction false} FirstEnd(s: seq<Byte>, i: nat) returns (k: nat)
    requires i < |s| && s[i] < 0x80
    ensures k <= i && s[k] < 0x80 && forall j :: 0 <= j < k ==> s[j] >= 0x80
    decreases i
  {
    if j :| 0 <= j < i && s[j] < 0x80 {
      k := FirstEnd(s, j);
    } else {
      k := i;
    }
  }
}
