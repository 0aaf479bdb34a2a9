/**
 * `bytesSum` (src/packet_reading.cpp:16-23): the checksum every benchmark
 * takes over each packet's captured bytes so that the bytes are actually
 * read. C's fixed-width unsigned integers are written out as ranges, and
 * their wrap-around as arithmetic modulo the width.
 */
module ByteSum {

  const TWO_TO_THE_32: int := 0x1_0000_0000
  const TWO_TO_THE_56: int := 0x100_0000_0000_0000
  const TWO_TO_THE_64: int := 0x1_0000_0000_0000_0000

  type uint8 = x: int | 0 <= x < 0x100
  type uint32 = x: int | 0 <= x < 0x1_0000_0000
  type uint64 = x: int | 0 <= x < 0x1_0000_0000_0000_0000

  /** The mathematical sum of the bytes, without wrap-around. */
  function Sum(s: seq<uint8>): nat
  {
    if s == [] then 0 else Sum(s[..|s| - 1]) + s[|s| - 1]
  }

  /** Each byte adds at most 255. */
  lemma {:induction false} SumBound(s: seq<uint8>)
    ensures Sum(s) <= 255 * |s|
  {
    if s != [] {
      SumBound(s[..|s| - 1]);
    }
  }

  /** The sum of a concatenation is the sum of the sums. */
  lemma {:induction false} SumAppend(a: seq<uint8>, b: seq<uint8>)
    ensures Sum(a + b) == Sum(a) + Sum(b)
  {
    if b != [] {
      var b' := b[..|b| - 1];
      assert (a + b)[..|a + b| - 1] == a + b';
      assert (a + b)[|a + b| - 1] == b[|b| - 1];
      SumAppend(a, b');
    } else {
      assert a + b == a;
    }
  }

  /** Below 2^56 bytes the 64-bit sum cannot wrap around, as 255 * 2^56 < 2^64. */
  lemma NoWrapBelow(s: seq<uint8>)
    requires |s| < TWO_TO_THE_56
    ensures Sum(s) < TWO_TO_THE_64
    ensures Sum(s) % TWO_TO_THE_64 == Sum(s)
  {
    SumBound(s);
  }

  /** `sum += x` on a `uint64_t`. */
  function AddWrap64(sum: uint64, x: uint8): (r: uint64)
    ensures r == (sum + x) % TWO_TO_THE_64
  {
    if sum + x < TWO_TO_THE_64 then sum + x else sum + x - TWO_TO_THE_64
  }

  /** Reducing before adding gives the same residue as adding and then reducing. */
  lemma ModAdd(a: nat, x: nat)
    ensures (a % TWO_TO_THE_64 + x) % TWO_TO_THE_64 == (a + x) % TWO_TO_THE_64
  {
    var q := a / TWO_TO_THE_64;
    assert a == q * TWO_TO_THE_64 + a % TWO_TO_THE_64;
    assert a + x == (a % TWO_TO_THE_64 + x) + q * TWO_TO_THE_64;
  }

  /**
   * `bytesSum(data, length)` with a counter as wide as `length`: the sum of
   * the first `length` bytes modulo 2^64, so 0 for an empty buffer. It
   * reads the buffer and leaves it unchanged (it has no `modifies` clause).
   */
  method BytesSum(data: array<uint8>, length: uint64) returns (sum: uint64)
    requires length <= data.Length
    ensures sum == Sum(data[..length]) % TWO_TO_THE_64
    ensures length < TWO_TO_THE_56 ==> sum == Sum(data[..length])
  {
    sum := 0;
    var i: uint64 := 0;
    while i < length
      invariant i <= length
      invariant sum == Sum(data[..i]) % TWO_TO_THE_64
    {
      assert data[..i + 1][..i] == data[..i];
      ModAdd(Sum(data[..i]), data[i]);
      sum := AddWrap64(sum, data[i]);
      i := i + 1;
    }
    if length < TWO_TO_THE_56 {
      NoWrapBelow(data[..length]);
    }
  }

  /** `++i` on the `unsigned int` counter of the loop. */
  function Increment32(i: uint32): (r: uint32)
    ensures r == (i + 1) % TWO_TO_THE_32
  {
    if i + 1 < TWO_TO_THE_32 then i + 1 else 0
  }

  /**
   * `bytesSum` as written: `auto i = 0u` makes the counter a 32-bit
   * `unsigned int` while `length` is a 64-bit `size_t`. The loop ends only
   * when `length` is below 2^32, which this method demands.
   */
  method BytesSumAsWritten(data: array<uint8>, length: uint64) returns (sum: uint64)
    requires length <= data.Length
    requires length < TWO_TO_THE_32
    ensures sum == Sum(data[..length]) % TWO_TO_THE_64
  {
    sum := 0;
    var i: uint32 := 0;
    while i < length
      invariant i <= length
      invariant sum == Sum(data[..i]) % TWO_TO_THE_64
    {
      assert data[..i + 1][..i] == data[..i];
      ModAdd(Sum(data[..i]), data[i]);
      sum := AddWrap64(sum, data[i]);
      i := Increment32(i);
    }
  }

  /** The 32-bit counter after `k` increments from 0. */
  function CounterAfter(k: nat): uint32
  {
    if k == 0 then 0 else Increment32(CounterAfter(k - 1))
  }

  /** The counter cycles through 0 .. 2^32 - 1. */
  lemma {:induction false} CounterCycles(k: nat)
    ensures CounterAfter(k) == k % TWO_TO_THE_32
  {
    if k > 0 {
      CounterCycles(k - 1);
      ModAdd32(k - 1);
    }
  }

  lemma ModAdd32(a: nat)
    ensures (a % TWO_TO_THE_32 + 1) % TWO_TO_THE_32 == (a + 1) % TWO_TO_THE_32
  {
    var q := a / TWO_TO_THE_32;
    assert a == q * TWO_TO_THE_32 + a % TWO_TO_THE_32;
    assert a + 1 == (a % TWO_TO_THE_32 + 1) + q * TWO_TO_THE_32;
  }

  /**
   * With `length` at least 2^32 the as-written loop never stops: after any
   * number of iterations the counter is still below `length` and the guard
   * `i < length` still holds; the counter returns to 0 after 2^32 steps.
   */
  lemma AsWrittenNeverStops(length: uint64, k: nat)
    requires TWO_TO_THE_32 <= length
    ensures CounterAfter(k) < length
    ensures CounterAfter(k + TWO_TO_THE_32) == CounterAfter(k)
  {
    CounterCycles(k);
    CounterCycles(k + TWO_TO_THE_32);
    assert (k + TWO_TO_THE_32) % TWO_TO_THE_32 == k % TWO_TO_THE_32;
  }
}
