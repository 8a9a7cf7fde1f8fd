/** Machine-word vocabulary shared by every component. */
module Bytes {

  const TWO_29: int := 0x2000_0000
  const TWO_31: int := 0x8000_0000
  const TWO_32: int := 0x1_0000_0000
  const TWO_64: int := 0x1_0000_0000_0000_0000

  type Byte = x: int | 0 <= x < 0x100
  type U8 = x: int | 0 <= x < 0x100
  type U16 = x: int | 0 <= x < 0x1_0000
  type U32 = x: int | 0 <= x < 0x1_0000_0000
  type U64 = x: int | 0 <= x < 0x1_0000_0000_0000_0000

  type Int32 = x: int | -0x8000_0000 <= x < 0x8000_0000

  datatype Option<+T> = None | Some(value: T)

  /** No element occurs twice. */
  predicate Distinct<T(==)>(s: seq<T>) {
    forall i, j :: 0 <= i < j < |s| ==> s[i] != s[j]
  }

  /** The value an `int` variable holds after a 32-bit pattern is stored in it. */
  function ToInt32(x: int): (r: int)
    ensures -TWO_31 <= r < TWO_31
    ensures (r - x) % TWO_32 == 0
  {
    (x + TWO_31) % TWO_32 - TWO_31
  }

  /** A host word of |s| bytes, least significant byte first. */
  function WordOf(s: seq<Byte>): (v: nat)
  {
    if s == [] then 0 else s[0] + 0x100 * WordOf(s[1..])
  }

  /** The n bytes a host word is stored as, least significant byte first. */
  function WordBytes(v: nat, n: nat): (s: seq<Byte>)
    ensures |s| == n
  {
    if n == 0 then [] else [v % 0x100] + WordBytes(v / 0x100, n - 1)
  }

  function Pow256(n: nat): (p: nat)
    ensures p >= 1
  {
    if n == 0 then 1 else 0x100 * Pow256(n - 1)
  }

  /** Storing a word and loading it back is the identity. */
  lemma {:induction false} WordRoundTrip(v: nat, n: nat)
    requires v < Pow256(n)
    ensures WordOf(WordBytes(v, n)) == v
  {
    if n > 0 {
      WordRoundTrip(v / 0x100, n - 1);
      assert WordBytes(v, n)[1..] == WordBytes(v / 0x100, n - 1);
    }
  }

  /** A loaded word fits its width. */
  lemma {:induction false} WordBound(s: seq<Byte>)
    ensures WordOf(s) < Pow256(|s|)
  {
    if s != [] { WordBound(s[1..]); }
  }

  lemma PowValues()
    ensures Pow256(4) == TWO_32
    ensures Pow256(8) == TWO_64
  {
    assert Pow256(4) == 0x100 * Pow256(3);
    assert Pow256(3) == 0x100 * Pow256(2);
    assert Pow256(8) == 0x100 * Pow256(7);
    assert Pow256(7) == 0x100 * Pow256(6);
    assert Pow256(6) == 0x100 * Pow256(5);
  }
}
