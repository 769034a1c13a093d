/**
 * C strings as the programs see them: a sequence of bytes with no NUL
 * inside (the terminator is implicit), compared byte-wise as `strcmp`
 * does, i.e. as unsigned char values, with a proper prefix ordered first.
 */
module CStrings {

  /** A byte as stored in memory (the value of an `unsigned char`). */
  type Byte = b: int | 0 <= b < 256

  /** One more than the largest value of a 32-bit unsigned integer (`uint32_t`, `unsigned int`). */
  const U32_LIMIT: int := 0x1_0000_0000
  /** One more than the largest value of a 64-bit unsigned integer (`unsigned long`, an address). */
  const U64_LIMIT: int := 0x1_0000_0000_0000_0000

  /** The contents of a NUL-terminated string, without its terminator. */
  type CStr = s: seq<Byte> | 0 !in s

  /** The value of a byte read through a plain `char` on x86-64, where `char` is signed. */
  function SignedChar(b: Byte): (c: int)
    ensures -128 <= c < 128
    ensures c % 256 == b
    ensures b < 128 ==> c == b
  {
    if b < 128 then b else b - 256
  }

  /**
   * The sign of `strcmp(a, b)`. The terminator compares as 0, below
   * every byte of the other string, so a proper prefix sorts first.
   */
  function StrCmp(a: CStr, b: CStr): (r: int)
    ensures -1 <= r <= 1
  {
    if a == [] && b == [] then 0
    else if a == [] then -1
    else if b == [] then 1
    else if a[0] < b[0] then -1
    else if a[0] > b[0] then 1
    else StrCmp(a[1..], b[1..])
  }

  /** `strcmp` reports 0 exactly for equal strings. */
  lemma {:induction false} StrCmpZeroIff(a: CStr, b: CStr)
    ensures StrCmp(a, b) == 0 <==> a == b
  {
    if a != [] && b != [] && a[0] == b[0] {
      StrCmpZeroIff(a[1..], b[1..]);
      assert a == [a[0]] + a[1..] && b == [b[0]] + b[1..];
    }
  }

  /** Swapping the arguments of `strcmp` flips the sign of its result. */
  lemma {:induction false} StrCmpAntisymmetric(a: CStr, b: CStr)
    ensures StrCmp(a, b) == -StrCmp(b, a)
  {
    if a != [] && b != [] && a[0] == b[0] {
      StrCmpAntisymmetric(a[1..], b[1..]);
    }
  }

  /** The order `strcmp(a, b) <= 0` is transitive. */
  lemma {:induction false} StrCmpTransitive(a: CStr, b: CStr, c: CStr)
    requires StrCmp(a, b) <= 0 && StrCmp(b, c) <= 0
    ensures StrCmp(a, c) <= 0
  {
    if a != [] && b != [] && c != [] && a[0] == b[0] == c[0] {
      StrCmpTransitive(a[1..], b[1..], c[1..]);
    }
  }

  /** The order `strcmp(a, b) <= 0` is total. */
  lemma StrCmpTotal(a: CStr, b: CStr)
    ensures StrCmp(a, b) <= 0 || StrCmp(b, a) <= 0
  {
    StrCmpAntisymmetric(a, b);
  }
}
