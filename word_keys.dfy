/**
 * The bucket function `keyGen` shared by the two word counters: the sum
 * of a word's characters, reduced modulo the number of buckets. In the
 * source each character is read through a plain `char`, which is signed
 * on x86-64, and the reduction is C's `%`, which truncates toward zero;
 * a word with bytes of 128 or more then gets a negative "bucket". The
 * tables use `KeyGen`, which reads the bytes as unsigned.
 */
module WordKeys {
  import opened CStrings

  /** `BUCKETS`: the number of lists in each hash table. */
  const BUCKETS: int := 256

  /** C's `a % BUCKETS`: the remainder takes the sign of `a`. */
  function CRem(a: int): (r: int)
    ensures -BUCKETS < r < BUCKETS
    ensures a >= 0 ==> r == a % BUCKETS
    ensures a < 0 ==> r <= 0
    ensures r % BUCKETS == a % BUCKETS
  {
    if a >= 0 then a % BUCKETS else -((-a) % BUCKETS)
  }

  /** The sum of the bytes of `s`, each read as a signed `char`. */
  function SignedSum(s: CStr): (n: int)
    ensures -128 * |s| <= n <= 127 * |s|
  {
    if s == [] then 0 else SignedSum(s[..|s| - 1]) + SignedChar(s[|s| - 1])
  }

  /** The sum of the bytes of `s`, each read as an `unsigned char`. */
  function ByteSum(s: CStr): (n: nat)
    ensures s != [] ==> n > 0
  {
    if s == [] then 0 else ByteSum(s[..|s| - 1]) + s[|s| - 1]
  }

  /** The bucket a word belongs in. */
  function Bucket(s: CStr): (b: int)
    ensures 0 <= b < BUCKETS
  {
    ByteSum(s) % BUCKETS
  }

  /**
   * `keyGen` as the source writes it: a signed-`char` sum, then C's `%`.
   */
  method KeyGenAsWritten(key: CStr) returns (bucket: int)
    ensures bucket == CRem(SignedSum(key))
  {
    var count := 0;
    var i := 0;
    while i < |key|
      invariant i <= |key|
      invariant count == SignedSum(key[..i])
    {
      assert key[..i + 1][..i] == key[..i];
      count := count + SignedChar(key[i]);
      i := i + 1;
    }
    assert key[..i] == key;
    bucket := CRem(count);
  }

  /**
   * `keyGen` with the characters read as unsigned bytes: always a valid
   * index into the 256 lists.
   */
  method KeyGen(key: CStr) returns (bucket: int)
    ensures 0 <= bucket < BUCKETS
    ensures bucket == Bucket(key)
  {
    var count := 0;
    var i := 0;
    while i < |key|
      invariant i <= |key|
      invariant count == ByteSum(key[..i])
    {
      assert key[..i + 1][..i] == key[..i];
      count := count + key[i];
      i := i + 1;
    }
    assert key[..i] == key;
    bucket := count % BUCKETS;
  }

  /** The word "é" in UTF-8 (bytes 0xC3 0xA9) gets bucket -148 from the source's `keyGen`. */
  lemma KeyGenNegativeBucket()
    ensures CRem(SignedSum([0xC3, 0xA9])) == -148
  {
    var s: CStr := [0xC3, 0xA9];
    assert s[..1] == [0xC3];
    assert [0xC3][..0] == [];
    assert SignedSum([0xC3]) == -61;
    assert SignedSum(s) == -148;
  }

  /** The signed and unsigned sums agree on words of 7-bit characters. */
  lemma {:induction false} SignedSumAscii(s: CStr)
    requires forall i :: 0 <= i < |s| ==> s[i] < 128
    ensures SignedSum(s) == ByteSum(s)
  {
    if s != [] {
      SignedSumAscii(s[..|s| - 1]);
    }
  }

  /**
   * On words of 7-bit characters the source's `keyGen` is the corrected
   * one: a bucket in [0, 256) equal to the byte sum modulo 256.
   */
  lemma KeyGenAscii(s: CStr)
    requires forall i :: 0 <= i < |s| ==> s[i] < 128
    ensures CRem(SignedSum(s)) == Bucket(s)
  {
    SignedSumAscii(s);
  }

  /** The number of bytes of `s` that a signed `char` reads as negative. */
  function HighBytes(s: CStr): nat
  {
    if s == [] then 0 else HighBytes(s[..|s| - 1]) + (if s[|s| - 1] >= 128 then 1 else 0)
  }

  /** Each byte of 128 or more contributes 256 less to the signed sum. */
  lemma {:induction false} SignedSumHigh(s: CStr)
    ensures SignedSum(s) == ByteSum(s) - BUCKETS * HighBytes(s)
  {
    if s != [] {
      SignedSumHigh(s[..|s| - 1]);
    }
  }

  lemma ModSubMultiple(x: int, k: int)
    ensures (x - BUCKETS * k) % BUCKETS == x % BUCKETS
  {
  }

  /** The signed and unsigned sums agree modulo 256. */
  lemma SignedSumCongruent(s: CStr)
    ensures SignedSum(s) % BUCKETS == ByteSum(s) % BUCKETS
  {
    SignedSumHigh(s);
    ModSubMultiple(ByteSum(s), HighBytes(s));
  }

  /**
   * Even where it goes wrong, the source's value is congruent to the
   * corrected bucket modulo 256: it differs from it only by being
   * negative, never by landing in another valid bucket.
   */
  lemma KeyGenCongruent(s: CStr)
    ensures CRem(SignedSum(s)) % BUCKETS == Bucket(s)
    ensures CRem(SignedSum(s)) >= 0 ==> CRem(SignedSum(s)) == Bucket(s)
  {
    SignedSumCongruent(s);
  }
}
