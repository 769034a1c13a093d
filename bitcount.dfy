/**
 * The bit counter of the parallel bit-count tool: `intBitCounter` counts
 * the 1 bits of an `int` by repeated halving, and `bitCounter` adds that
 * count over every byte of a file. The file is the sequence of bytes
 * `fgetc` returns before `EOF`.
 */
module BitCount {
  import opened CStrings

  /** The number of 1 bits in the binary representation of `n`. */
  function Popcount(n: nat): nat
  {
    if n == 0 then 0 else n % 2 + Popcount(n / 2)
  }

  /** `2` to the power `k`. */
  function Pow2(k: nat): (p: nat)
    ensures p >= 1
  {
    if k == 0 then 1 else 2 * Pow2(k - 1)
  }

  /** C's `i / 2` on an `int`: the quotient is truncated toward zero. */
  function CHalf(i: int): (q: int)
    ensures i >= 0 ==> q == i / 2
    ensures i < 0 ==> i < q <= 0
  {
    if i >= 0 then i / 2 else -((-i) / 2)
  }

  /** C's `i % 2 == 1` on an `int`: true only for odd non-negative `i`. */
  function COddTest(i: int): (b: bool)
    ensures b <==> i >= 0 && i % 2 == 1
  {
    if i >= 0 then i % 2 == 1 else -((-i) % 2) == 1
  }

  /**
   * `intBitCounter`: while `i` is nonzero, count it when `i % 2 == 1` and
   * halve it. For a negative `i` the C remainder is never 1, so the
   * count stays 0.
   */
  method IntBitCounter(i: int) returns (count: int)
    ensures i >= 0 ==> count == Popcount(i)
    ensures i < 0 ==> count == 0
  {
    count := 0;
    var n := i;
    while n != 0
      invariant i >= 0 ==> n >= 0 && count + Popcount(n) == Popcount(i)
      invariant i < 0 ==> n <= 0 && count == 0
      decreases if n >= 0 then n else -n
    {
      if COddTest(n) {
        count := count + 1;
      }
      n := CHalf(n);
    }
  }

  /** Appending bit `b` to the binary representation of `i` adds `b` ones. */
  lemma PopcountAppendBit(i: nat, b: nat)
    requires b <= 1
    ensures Popcount(2 * i + b) == Popcount(i) + b
  {
    if 2 * i + b != 0 {
      assert (2 * i + b) / 2 == i && (2 * i + b) % 2 == b;
    }
  }

  /** A number below `2^k` has at most `k` ones. */
  lemma {:induction false} PopcountBound(n: nat, k: nat)
    requires n < Pow2(k)
    ensures Popcount(n) <= k
  {
    if n != 0 {
      PopcountBound(n / 2, k - 1);
    }
  }

  /** A byte, as `fgetc` returns it, has at most 8 ones. */
  lemma PopcountByte(b: Byte)
    ensures Popcount(b) <= 8
  {
    assert Pow2(8) == 256;
    PopcountBound(b, 8);
  }

  /** The ones in all the bytes of `s`. */
  function SumPopcount(s: seq<Byte>): nat
  {
    if s == [] then 0 else SumPopcount(s[..|s| - 1]) + Popcount(s[|s| - 1])
  }

  /**
   * `bitCounter`: read the bytes one at a time and add up their
   * `intBitCounter` counts.
   */
  method BitCounter(bytes: seq<Byte>) returns (bits: int)
    ensures bits == SumPopcount(bytes)
  {
    bits := 0;
    var k := 0;
    while k < |bytes|
      invariant k <= |bytes|
      invariant bits == SumPopcount(bytes[..k])
    {
      assert bytes[..k + 1][..k] == bytes[..k];
      var tmp := IntBitCounter(bytes[k]);
      bits := bits + tmp;
      k := k + 1;
    }
    assert bytes[..k] == bytes;
  }

  /** Counting two pieces of a file separately and adding gives the count of the whole. */
  lemma {:induction false} SumPopcountAppend(a: seq<Byte>, b: seq<Byte>)
    ensures SumPopcount(a + b) == SumPopcount(a) + SumPopcount(b)
  {
    if b != [] {
      assert (a + b)[..|a + b| - 1] == a + b[..|b| - 1];
      SumPopcountAppend(a, b[..|b| - 1]);
    } else {
      assert a + b == a;
    }
  }

  /** A file of `n` bytes has at most `8 n` ones. */
  lemma {:induction false} SumPopcountBound(s: seq<Byte>)
    ensures SumPopcount(s) <= 8 * |s|
  {
    if s != [] {
      SumPopcountBound(s[..|s| - 1]);
      PopcountByte(s[|s| - 1]);
    }
  }
}
