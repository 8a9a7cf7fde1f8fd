/** The size classes of the allocator and the search for one (get_magic in src/mem_pool.cc). */
module SizeClass {

  const SIZES: seq<nat> :=
    [64, 256, 1024, 4096, 16384, 65536, 262144, 1048576, 4194304, 16777216]

  const NR := 10

  /** The table in closed form: each class is four times the one before. */
  function SizeOf(i: nat): (n: nat)
    ensures n > 0
  {
    if i == 0 then 64 else 4 * SizeOf(i - 1)
  }

  lemma TableIsPowers()
    ensures |SIZES| == NR && forall i :: 0 <= i < NR ==> SIZES[i] == SizeOf(i)
  {
    assert SizeOf(3) == 4096 && SizeOf(6) == 64 * SizeOf(3) && SizeOf(9) == 64 * SizeOf(6);
  }

  predicate Increasing(t: seq<nat>) {
    forall i, j :: 0 <= i < j < |t| ==> t[i] < t[j]
  }

  lemma SizesIncreasing()
    ensures |SIZES| == 10 && Increasing(SIZES)
  {}

  /**
   The search ends, and finds the least class that holds the request, for any
   increasing table; only a request above the largest class is refused.
   */
  method GetMagic(t: seq<nat>, size: nat) returns (k: int)
    requires t != [] && Increasing(t)
    ensures k == -1 <==> size > t[|t| - 1]
    ensures k != -1 ==> 0 <= k < |t| && size <= t[k] && forall j :: 0 <= j < k ==> t[j] < size
  {
    if size > t[|t| - 1] { return -1; }
    var low, high := 0, |t| - 1;
    while low < high
      invariant 0 <= low <= high < |t|
      invariant size <= t[high]
      invariant forall j :: 0 <= j < low ==> t[j] < size
      decreases high - low
    {
      var mid := (low + high) / 2;
      if size == t[mid] { return mid; }
      if size > t[mid] {
        if low < mid { low := mid; } else { low := low + 1; }
      } else {
        if high > mid { high := mid; } else { high := high - 1; }
      }
    }
    k := low;
  }
}
