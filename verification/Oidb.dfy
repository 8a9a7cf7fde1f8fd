/**
 OIDB frames (src/protocol.cc): STX, the header and body lengths in network
 order, the header, the body, ETX.  EncodeCompatOidb writes one and
 InitFromOidbPkg takes it apart.
 */
module Oidb {
  import opened Bytes
  import opened Wire
  import opened Packet
  import opened Protocol
  import Varint

  const STX: Byte := 0x28
  const ETX: Byte := 0x29

  // ---------- network order ----------

  /** htonl: the word's bytes, most significant first. */
  function Net(v: U32): (s: seq<Byte>)
    ensures |s| == 4
  {
    [v / 0x100_0000, v / 0x1_0000 % 0x100, v / 0x100 % 0x100, v % 0x100]
  }

  /** ntohl. */
  function Host(s: seq<Byte>): U32
    requires |s| == 4
  {
    s[0] as int * 0x100_0000 + s[1] as int * 0x1_0000 + s[2] as int * 0x100 + s[3]
  }

  lemma NetRoundTrip(v: U32, s: seq<Byte>)
    requires |s| == 4
    ensures Host(Net(v)) == v
    ensures Net(Host(s)) == s
  {
    Digits(v / 0x1_0000, v / 0x100);
    HostDigits(s[0], s[1], s[2], s[3]);
  }

  /** Splitting a word byte by byte loses nothing. */
  lemma Digits(high: nat, mid: nat)
    ensures high == high / 0x100 * 0x100 + high % 0x100
    ensures mid == mid / 0x100 * 0x100 + mid % 0x100
  {}

  lemma HostDigits(a: Byte, b: Byte, c: Byte, d: Byte)
    ensures var w := a as int * 0x100_0000 + b as int * 0x1_0000 + c as int * 0x100 + d;
            w / 0x100_0000 == a && w / 0x1_0000 % 0x100 == b && w / 0x100 % 0x100 == c && w % 0x100 == d
  {
    var w := a as int * 0x100_0000 + b as int * 0x1_0000 + c as int * 0x100 + d;
    assert w / 0x100 == a as int * 0x1_0000 + b as int * 0x100 + c;
    assert w / 0x1_0000 == a as int * 0x100 + b;
  }

  // ---------- frames ----------

  function Frame(header: seq<Byte>, body: seq<Byte>): (s: seq<Byte>)
    requires |header| + |body| + 10 < TWO_31
    ensures |s| == |header| + |body| + 10
  {
    [STX] + Net(|header|) + Net(|body|) + header + body + [ETX]
  }

  lemma FrameLayout(header: seq<Byte>, body: seq<Byte>)
    requires |header| + |body| + 10 < TWO_31
    ensures var s := Frame(header, body);
            && s[0] == STX && s[1..5] == Net(|header|) && s[5..9] == Net(|body|)
            && s[9..9 + |header|] == header && s[9 + |header|..9 + |header| + |body|] == body
            && s[9 + |header| + |body|] == ETX
  {}

  /** The start marker and the two lengths. */
  function Head(hlen: U32, blen: U32): (s: seq<Byte>)
    ensures |s| == 9
  {
    [STX] + Net(hlen) + Net(blen)
  }

  method WriteHead(buf: array<Byte>, hlen: U32, blen: U32)
    requires buf.Length >= 9
    modifies buf
    ensures buf[..9] == Head(hlen, blen)
  {
    buf[0] := STX;
    assert buf[..1] == [STX];
    Copy(buf, 1, Net(hlen));
    Copy(buf, 5, Net(blen));
  }

  lemma FrameIsHead(header: seq<Byte>, body: seq<Byte>)
    requires |header| + |body| + 10 < TWO_31
    ensures Frame(header, body) == Head(|header|, |body|) + header + body + [ETX]
  {}

  /** EncodeCompatOidb: the contents of the header node and of the body node, if there is one. */
  method EncodeCompat(header: seq<Byte>, body: Option<seq<Byte>>) returns (buf: array<Byte>)
    requires |header| + (if body.Some? then |body.value| else 0) + 10 < TWO_31
    ensures buf[..] == Frame(header, if body.Some? then body.value else [])
  {
    var bodySize := if body.Some? then |body.value| else 0;
    buf := new Byte[|header| + bodySize + 10](_ => 0);
    WriteHead(buf, |header|, bodySize);
    Copy(buf, 9, header);
    if bodySize > 0 {
      Copy(buf, 9 + |header|, body.value);
    }
    ghost var front := buf[..buf.Length - 1];
    buf[buf.Length - 1] := ETX;
    assert buf[..] == front + [ETX];
    FrameIsHead(header, if body.Some? then body.value else []);
  }

  // ---------- taking a frame apart ----------

  datatype Parsed =
    | Rejected                                          // too short, or the end marker is missing
    | Undefined                                         // the lengths overflow and the code reads outside
    | Compat(header: seq<Byte>, body: seq<Byte>)        // one body that is not KNV style
    | Collection(header: seq<Byte>, bodies: seq<Byte>)  // the body is a list of KNV bodies

  /** A byte of the buffer, or whatever memory holds behind it. */
  function At(buf: seq<Byte>, beyond: Byte, i: nat): Byte {
    if i < |buf| then buf[i] else beyond
  }

  /** The body starts with the key of a KNV body; up to two bytes are looked at whatever its length. */
  predicate KnvBody(buf: seq<Byte>, beyond: Byte, i: nat) {
    At(buf, beyond, i) == 0xEA && At(buf, beyond, i + 1) == 0xDA
  }

  /** InitFromOidbPkg; total_len is an int computed from unsigned lengths. */
  function Parse(buf: seq<Byte>, beyond: Byte): Parsed
    requires |buf| < TWO_31
  {
    if |buf| < 10 then Rejected
    else
      var hlen := Host(buf[1..5]);
      var blen := Host(buf[5..9]);
      var total := ToInt32(hlen + blen + 10);
      if total > |buf| then Rejected
      else if total <= 0 then Undefined
      else if buf[total - 1] != ETX then Rejected
      else if hlen + blen + 10 != total then Undefined
      else
        var header, body := buf[9..9 + hlen], buf[9 + hlen..9 + hlen + blen];
        if KnvBody(buf, beyond, 9 + hlen) then Collection(header, body) else Compat(header, body)
  }

  predicate StartsKnv(body: seq<Byte>) {
    |body| >= 2 && body[0] == 0xEA && body[1] == 0xDA
  }

  /** The lengths and slices Parse sees in a frame with anything behind it. */
  lemma FrameSlices(header: seq<Byte>, body: seq<Byte>, rest: seq<Byte>)
    requires |header| + |body| + 10 < TWO_31
    ensures var buf := Frame(header, body) + rest;
            && Host(buf[1..5]) == |header| && Host(buf[5..9]) == |body|
            && buf[9..9 + |header|] == header && buf[9 + |header|..9 + |header| + |body|] == body
            && buf[9 + |header| + |body|] == ETX
  {
    var s := Frame(header, body);
    var buf := s + rest;
    FrameLayout(header, body);
    NetRoundTrip(|header|, s[1..5]);
    NetRoundTrip(|body|, s[5..9]);
    assert buf[1..5] == s[1..5] && buf[5..9] == s[5..9];
    assert buf[9..9 + |header|] == s[9..9 + |header|];
    assert buf[9 + |header|..9 + |header| + |body|] == s[9 + |header|..9 + |header| + |body|];
  }

  /** The two bytes looked at decide as the body alone does: the end marker is no KNV byte. */
  lemma KnvBodyOfFrame(header: seq<Byte>, body: seq<Byte>, rest: seq<Byte>, beyond: Byte)
    requires |header| + |body| + 10 < TWO_31
    ensures KnvBody(Frame(header, body) + rest, beyond, 9 + |header|) <==> StartsKnv(body)
  {
    var buf := Frame(header, body) + rest;
    FrameSlices(header, body, rest);
    var at := 9 + |header|;
    var slice := buf[at..at + |body|];
    assert |body| >= 1 ==> buf[at] == slice[0];
    assert |body| >= 2 ==> buf[at + 1] == slice[1];
  }

  /** Lengths that end at an end marker within the buffer. */
  lemma ParseAccepts(buf: seq<Byte>, beyond: Byte, h: nat, b: nat)
    requires h + b + 10 <= |buf| < TWO_31 && Host(buf[1..5]) == h && Host(buf[5..9]) == b && buf[9 + h + b] == ETX
    ensures Parse(buf, beyond) ==
            if KnvBody(buf, beyond, 9 + h) then Collection(buf[9..9 + h], buf[9 + h..9 + h + b])
            else Compat(buf[9..9 + h], buf[9 + h..9 + h + b])
  {
    var total := h + b + 10;
    assert (total + TWO_31) % TWO_32 == total + TWO_31;
  }

  /**
   Every frame, whatever lies behind it in the buffer or in memory, comes apart
   into exactly its header and body, as one compatible body if and only if the
   body does not start with EA DA.  This holds for empty headers and bodies too.
   */
  lemma FrameRoundTrip(header: seq<Byte>, body: seq<Byte>, rest: seq<Byte>, beyond: Byte)
    requires |header| + |body| + 10 + |rest| < TWO_31
    ensures Parse(Frame(header, body) + rest, beyond) ==
            if StartsKnv(body) then Collection(header, body) else Compat(header, body)
  {
    FrameSlices(header, body, rest);
    KnvBodyOfFrame(header, body, rest, beyond);
    ParseAccepts(Frame(header, body) + rest, beyond, |header|, |body|);
  }

  /** What an accepted buffer contains. */
  lemma AcceptedLayout(buf: seq<Byte>, beyond: Byte)
    requires |buf| < TWO_31 && (Parse(buf, beyond).Compat? || Parse(buf, beyond).Collection?)
    ensures var r := Parse(buf, beyond);
            var h, b := |r.header|, |BodyOf(r)|;
            && h + b + 10 <= |buf| && h == Host(buf[1..5]) && b == Host(buf[5..9])
            && r.header == buf[9..9 + h] && BodyOf(r) == buf[9 + h..9 + h + b] && buf[9 + h + b] == ETX
  {}

  function BodyOf(r: Parsed): seq<Byte>
    requires r.Compat? || r.Collection?
  {
    if r.Compat? then r.body else r.bodies
  }

  /** Buffers that agree on every piece of the layout agree. */
  lemma SamePieces(s: seq<Byte>, t: seq<Byte>, h: nat, b: nat)
    requires |s| == |t| == h + b + 10
    requires s[1..5] == t[1..5] && s[5..9] == t[5..9]
    requires s[9..9 + h] == t[9..9 + h] && s[9 + h..9 + h + b] == t[9 + h..9 + h + b] && s[9 + h + b] == t[9 + h + b]
    ensures s[1..] == t[1..]
  {
    Pieces(s, h, b);
    Pieces(t, h, b);
  }

  lemma Pieces(s: seq<Byte>, h: nat, b: nat)
    requires |s| == h + b + 10
    ensures s[1..] == s[1..5] + s[5..9] + s[9..9 + h] + s[9 + h..9 + h + b] + [s[9 + h + b]]
  {}

  lemma SliceOfFront(s: seq<Byte>, n: nat, i: nat, j: nat)
    requires i <= j <= n <= |s|
    ensures s[..n][i..j] == s[i..j]
  {}

  /** The other way round: what is accepted is a frame of the slices it yields, up to its first byte. */
  lemma AcceptedIsFrame(buf: seq<Byte>, beyond: Byte)
    requires |buf| < TWO_31 && (Parse(buf, beyond).Compat? || Parse(buf, beyond).Collection?)
    ensures var r := Parse(buf, beyond);
            var n := |r.header| + |BodyOf(r)| + 10;
            n <= |buf| && buf[1..n] == Frame(r.header, BodyOf(r))[1..]
  {
    var r := Parse(buf, beyond);
    AcceptedLayout(buf, beyond);
    var h, b := |r.header|, |BodyOf(r)|;
    NetRoundTrip(0, buf[1..5]);
    NetRoundTrip(0, buf[5..9]);
    FrameLayout(r.header, BodyOf(r));
    var t := buf[..h + b + 10];
    SliceOfFront(buf, h + b + 10, 1, 5);
    SliceOfFront(buf, h + b + 10, 5, 9);
    SliceOfFront(buf, h + b + 10, 9, 9 + h);
    SliceOfFront(buf, h + b + 10, 9 + h, 9 + h + b);
    SliceOfFront(buf, h + b + 10, 1, h + b + 10);
    SamePieces(t, Frame(r.header, BodyOf(r)), h, b);
  }

  /**
   The sum of the two lengths is stored in an int without a check: the code
   reads outside the buffer exactly when the true total is not that int, and the
   int is not positive or has an end marker before it.
   */
  lemma UndefinedExactly(buf: seq<Byte>, beyond: Byte)
    requires |buf| < TWO_31
    ensures Parse(buf, beyond) == Undefined <==>
            && |buf| >= 10
            && var sum := Host(buf[1..5]) + Host(buf[5..9]) + 10;
               var total := ToInt32(sum);
               sum >= TWO_31 && total <= |buf| && (total <= 0 || buf[total - 1] == ETX)
  {
    if |buf| >= 10 {
      var sum := Host(buf[1..5]) + Host(buf[5..9]) + 10;
      assert sum < TWO_31 ==> (sum + TWO_31) % TWO_32 == sum + TWO_31;
    }
  }

  /** A buffer is accepted if and only if the lengths in it, added without wrapping, end at an end marker within it. */
  lemma AcceptedExactly(buf: seq<Byte>, beyond: Byte)
    requires |buf| < TWO_31
    ensures Parse(buf, beyond).Compat? || Parse(buf, beyond).Collection? <==>
            && |buf| >= 10
            && var sum := Host(buf[1..5]) + Host(buf[5..9]) + 10;
               sum <= |buf| && buf[sum - 1] == ETX
  {
    if |buf| >= 10 {
      var sum := Host(buf[1..5]) + Host(buf[5..9]) + 10;
      assert sum < TWO_31 ==> (sum + TWO_31) % TWO_32 == sum + TWO_31;
    }
  }

  /** A frame of ten bytes that announces a header of 2^31 bytes. */
  lemma UndefinedFrame(beyond: Byte)
    ensures Parse([STX, 0x80, 0, 0, 0, 0, 0, 0, 0, ETX], beyond) == Undefined
  {
    var buf: seq<Byte> := [STX, 0x80, 0, 0, 0, 0, 0, 0, 0, ETX];
    assert buf[1..5] == [0x80, 0, 0, 0] && buf[5..9] == [0, 0, 0, 0];
    UndefinedExactly(buf, beyond);
  }

  // ---------- choosing the format ----------

  /** An encoded KNV packet is never mistaken for an OIDB frame, nor a frame for a packet. */
  lemma FormatsApart(children: seq<Field>, header: seq<Byte>, body: seq<Byte>)
    requires |header| + |body| + 10 < TWO_31
    ensures EncodeTree(children)[0] != STX
    ensures Decode(Frame(header, body)) == Invalid()
  {
    assert Key(STRING, PKG) == 28058;
    assert Varint.Encode(28058)[0] == 0x9A;
    var s := Frame(header, body);
    assert s[0] == 0x28;
    assert Varint.Decode(s) == Varint.Ok(0x28, 1);
  }
}
