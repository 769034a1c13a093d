/**
 * The unique-word counter: a chained hash table of 256 buckets holding
 * `int` keys. A word goes to bucket `keyGen(word)` under the key
 * `hash(word)` (djb2), and a key already in its bucket is not added
 * again, so the table is a set of (bucket, key) pairs whose size is the
 * reported number of unique words.
 *
 * Each bucket's linked list is the sequence of its keys from the head
 * node onwards; prepending a node is `[key] + list`. The ghost set
 * `Pairs` is the abstract content of the table.
 */
module UniqueWords {
  import opened CStrings
  import opened WordKeys

  /**
   * djb2 as `hash` computes it in an `unsigned long`: start from 5381 and
   * for every character `c` (a signed `char` widened to `int`) take
   * `h * 33 + c` modulo 2^64.
   */
  function Djb2(s: CStr): (h: int)
    ensures 0 <= h < U64_LIMIT
  {
    if s == [] then 5381 else (33 * Djb2(s[..|s| - 1]) + SignedChar(s[|s| - 1])) % U64_LIMIT
  }

  /** The same recurrence carried out in a 32-bit `unsigned int`. */
  function Djb2Low(s: CStr): (h: int)
    ensures 0 <= h < U32_LIMIT
  {
    if s == [] then 5381 else (33 * Djb2Low(s[..|s| - 1]) + SignedChar(s[|s| - 1])) % U32_LIMIT
  }

  /** The conversion of an `unsigned int` to `int` (two's complement). */
  function AsInt32(u: int): (i: int)
    requires 0 <= u < U32_LIMIT
    ensures -U32_LIMIT / 2 <= i < U32_LIMIT / 2
    ensures i % U32_LIMIT == u
  {
    if u < U32_LIMIT / 2 then u else u - U32_LIMIT
  }

  /** The key `Hash_Insert` and `Hash_Lookup` use for a word. */
  function Key(word: CStr): (k: int)
    ensures -U32_LIMIT / 2 <= k < U32_LIMIT / 2
  {
    AsInt32(Djb2(word) % U32_LIMIT)
  }

  lemma ModAddMultiple64(k: int, x: int)
    ensures (U64_LIMIT * k + x) % U64_LIMIT == x % U64_LIMIT
  {
  }

  lemma ModAddMultiple32(k: int, x: int)
    ensures (U32_LIMIT * k + x) % U32_LIMIT == x % U32_LIMIT
  {
  }

  /** Reducing an addend modulo 2^64 first does not change a sum modulo 2^64. */
  lemma ModAddLeft64(x: int, y: int)
    ensures (x % U64_LIMIT + y) % U64_LIMIT == (x + y) % U64_LIMIT
  {
    ModAddMultiple64(x / U64_LIMIT, x % U64_LIMIT + y);
  }

  /** `(hash << 5) + hash + c` in `unsigned long` is `33 hash + c` modulo 2^64. */
  lemma ShiftAddStep(h: int, c: int)
    ensures (((h * 32) % U64_LIMIT + h) % U64_LIMIT + c) % U64_LIMIT == (33 * h + c) % U64_LIMIT
  {
    ModAddLeft64(h * 32, h);
    ModAddLeft64(h * 32 + h, c);
  }

  /**
   * `hash`: djb2 over the characters up to the terminating NUL, computed
   * in an `unsigned long` and returned as an `unsigned int`.
   */
  method Hash(str: CStr) returns (h: int)
    ensures 0 <= h < U32_LIMIT
    ensures h == Djb2(str) % U32_LIMIT
  {
    var acc := 5381;
    var i := 0;
    while i < |str|
      invariant i <= |str|
      invariant acc == Djb2(str[..i])
    {
      assert str[..i + 1][..i] == str[..i];
      var c := SignedChar(str[i]);
      ShiftAddStep(acc, c);
      acc := (((acc * 32) % U64_LIMIT + acc) % U64_LIMIT + c) % U64_LIMIT;
      i := i + 1;
    }
    assert str[..i] == str;
    h := acc % U32_LIMIT;
  }

  /** Reducing modulo 2^64 first leaves the low 32 bits alone. */
  lemma LowBitsOfWide(x: int)
    ensures (x % U64_LIMIT) % U32_LIMIT == x % U32_LIMIT
  {
    var q := x / U64_LIMIT;
    assert x % U64_LIMIT == U32_LIMIT * (-U32_LIMIT * q) + x;
    ModAddMultiple32(-U32_LIMIT * q, x);
  }

  /**
   * Although `hash` computes in 64 bits, only the low 32 bits survive the
   * return as `unsigned int`, and those are what a 32-bit computation of
   * djb2 gives.
   */
  lemma {:induction false} Djb2LowBits(s: CStr)
    ensures Djb2(s) % U32_LIMIT == Djb2Low(s)
  {
    if s != [] {
      var p := s[..|s| - 1];
      var c := SignedChar(s[|s| - 1]);
      var a := Djb2(p);
      Djb2LowBits(p);
      LowBitsOfWide(33 * a + c);
      assert 33 * a + c == U32_LIMIT * (33 * (a / U32_LIMIT)) + (33 * (a % U32_LIMIT) + c);
      ModAddMultiple32(33 * (a / U32_LIMIT), 33 * (a % U32_LIMIT) + c);
    }
  }

  lemma Djb2Snoc(s: CStr, c: Byte)
    requires c != 0
    ensures Djb2(s + [c]) == (33 * Djb2(s) + SignedChar(c)) % U64_LIMIT
    ensures ByteSum(s + [c]) == ByteSum(s) + c
  {
    assert (s + [c])[..|s|] == s;
  }

  /**
   * Two different words with the same bucket and the same key: the table
   * stores one pair for both, so `Hash_Size` counts them as one word.
   */
  lemma KeyCollision()
    ensures var w1: CStr, w2: CStr := [65, 122, 65], [66, 88, 98];
      w1 != w2 && Bucket(w1) == Bucket(w2) && Key(w1) == Key(w2)
  {
    HashOfAzA();
    HashOfBXb();
  }

  /** djb2 and the byte sum of the word "AzA". */
  lemma HashOfAzA()
    ensures Djb2([65, 122, 65]) == 193451873 && ByteSum([65, 122, 65]) == 252
  {
    Djb2Snoc([], 65);
    assert [] + [65] == [65];
    assert Djb2([65]) == 177638;
    Djb2Snoc([65], 122);
    assert [65] + [122] == [65, 122];
    assert Djb2([65, 122]) == 5862176;
    Djb2Snoc([65, 122], 65);
    assert [65, 122] + [65] == [65, 122, 65];
  }

  /** djb2 and the byte sum of the word "BXb". */
  lemma HashOfBXb()
    ensures Djb2([66, 88, 98]) == 193451873 && ByteSum([66, 88, 98]) == 252
  {
    Djb2Snoc([], 66);
    assert [] + [66] == [66];
    assert Djb2([66]) == 177639;
    Djb2Snoc([66], 88);
    assert [66] + [88] == [66, 88];
    assert Djb2([66, 88]) == 5862175;
    Djb2Snoc([66, 88], 98);
    assert [66, 88] + [98] == [66, 88, 98];
  }

  /** No key occurs twice in a bucket list. */
  predicate Distinct(l: seq<int>)
  {
    forall i, j :: 0 <= i < j < |l| ==> l[i] != l[j]
  }

  /** The (bucket, key) pairs of list `l` filed under bucket `b`. */
  ghost function BucketPairs(l: seq<int>, b: int): set<(int, int)>
  {
    if l == [] then {} else {(b, l[0])} + BucketPairs(l[1..], b)
  }

  /** The (bucket, key) pairs of the first `n` buckets. */
  ghost function PairsUpTo(ls: seq<seq<int>>, n: nat): set<(int, int)>
    requires n <= |ls|
  {
    if n == 0 then {} else PairsUpTo(ls, n - 1) + BucketPairs(ls[n - 1], n - 1)
  }

  lemma {:induction false} BucketPairsMember(l: seq<int>, b: int, p: (int, int))
    ensures p in BucketPairs(l, b) <==> p.0 == b && p.1 in l
  {
    if l != [] {
      BucketPairsMember(l[1..], b, p);
      assert l == [l[0]] + l[1..];
    }
  }

  /** A list of distinct keys contributes as many pairs as it has nodes. */
  lemma {:induction false} BucketPairsSize(l: seq<int>, b: int)
    requires Distinct(l)
    ensures |BucketPairs(l, b)| == |l|
  {
    if l != [] {
      BucketPairsSize(l[1..], b);
      BucketPairsMember(l[1..], b, (b, l[0]));
    }
  }

  lemma {:induction false} PairsUpToMember(ls: seq<seq<int>>, n: nat, p: (int, int))
    requires n <= |ls|
    ensures p in PairsUpTo(ls, n) <==> 0 <= p.0 < n && p.1 in ls[p.0]
  {
    if n > 0 {
      PairsUpToMember(ls, n - 1, p);
      BucketPairsMember(ls[n - 1], n - 1, p);
    }
  }

  /** Adding bucket `n` adds its number of nodes to the number of pairs. */
  lemma PairsUpToStep(ls: seq<seq<int>>, n: nat)
    requires n < |ls| && Distinct(ls[n])
    ensures |PairsUpTo(ls, n + 1)| == |PairsUpTo(ls, n)| + |ls[n]|
  {
    var a := PairsUpTo(ls, n);
    var c := BucketPairs(ls[n], n);
    forall p | p in a * c
      ensures false
    {
      PairsUpToMember(ls, n, p);
      BucketPairsMember(ls[n], n, p);
    }
    assert a * c == {};
    BucketPairsSize(ls[n], n);
  }

  /** A hash table of `BUCKETS` lists of `int` keys (`hash_t`). */
  class WordSet {
    /** `lists[b]`: the keys of bucket `b`, head first. */
    const lists: array<seq<int>>
    /** The (bucket, key) pairs the table holds. */
    ghost var Pairs: set<(int, int)>

    ghost predicate Valid()
      reads this, lists
    {
      && lists.Length == BUCKETS
      && (forall b :: 0 <= b < BUCKETS ==> Distinct(lists[b]))
      && (forall p :: p in Pairs ==> 0 <= p.0 < BUCKETS && p.1 in lists[p.0])
      && (forall b, k :: 0 <= b < BUCKETS && k in lists[b] ==> (b, k) in Pairs)
    }

    /** `Hash_Init`: every bucket starts empty. */
    constructor ()
      ensures Valid() && fresh(lists)
      ensures Pairs == {}
      ensures forall b :: 0 <= b < BUCKETS ==> lists[b] == []
    {
      lists := new seq<int>[BUCKETS](_ => []);
      Pairs := {};
    }

    /** `List_Lookup`: 0 when `key` is in bucket `b`, -1 otherwise; reads only. */
    method ListLookup(b: int, key: int) returns (rc: int)
      requires 0 <= b < lists.Length
      ensures rc == 0 || rc == -1
      ensures rc == 0 <==> key in lists[b]
    {
      var l := lists[b];
      var i := 0;
      while i < |l|
        invariant i <= |l|
        invariant key !in l[..i]
      {
        if l[i] == key {
          return 0;
        }
        assert l[..i + 1] == l[..i] + [l[i]];
        i := i + 1;
      }
      assert l[..i] == l;
      return -1;
    }

    /**
     * `List_Insert`: a key already in bucket `b` is refused with -1 and
     * nothing changes; otherwise a node for it becomes the new head.
     */
    method ListInsert(b: int, key: int) returns (rc: int)
      requires 0 <= b < lists.Length
      modifies lists
      ensures rc == 0 || rc == -1
      ensures rc == 0 <==> key !in old(lists[b])
      ensures lists[..] == old(lists[..])[b := if rc == 0 then [key] + old(lists[b]) else old(lists[b])]
      ensures Distinct(old(lists[b])) ==> Distinct(lists[b])
    {
      var found := ListLookup(b, key);
      if found == 0 {
        return -1;
      }
      lists[b] := [key] + lists[b];
      return 0;
    }

    /** `List_Size`: the number of nodes in bucket `b`. */
    method ListSize(b: int) returns (count: int)
      requires 0 <= b < lists.Length
      ensures count == |lists[b]|
    {
      // `curr` is the list from the current node on; [] is the null pointer.
      var curr := lists[b];
      count := 0;
      while curr != []
        invariant count + |curr| == |lists[b]|
      {
        count := count + 1;
        curr := curr[1..];
      }
    }

    /**
     * `Hash_Insert`: the word's key goes into the word's bucket unless the
     * pair is already there; 0 reports a new pair, -1 a repeated one.
     */
    method HashInsert(word: CStr) returns (rc: int)
      requires Valid()
      modifies this, lists
      ensures Valid()
      ensures rc == 0 || rc == -1
      ensures rc == 0 <==> (Bucket(word), Key(word)) !in old(Pairs)
      ensures Pairs == old(Pairs) + {(Bucket(word), Key(word))}
    {
      var position := KeyGen(word);
      var h := Hash(word);
      var key := AsInt32(h);
      rc := ListInsert(position, key);
      Pairs := Pairs + {(position, key)};
      forall b, k | 0 <= b < BUCKETS && k in lists[b]
        ensures (b, k) in Pairs
      {
        assert lists[b] == old(lists[..])[b] || lists[b] == [key] + old(lists[..])[b];
      }
    }

    /** `Hash_Lookup`: 0 exactly when the word's pair is in the table. */
    method HashLookup(word: CStr) returns (rc: int)
      requires Valid()
      ensures rc == 0 || rc == -1
      ensures rc == 0 <==> (Bucket(word), Key(word)) in Pairs
    {
      var position := KeyGen(word);
      var h := Hash(word);
      rc := ListLookup(position, AsInt32(h));
    }

    /**
     * `Hash_Size`: the sum of the bucket sizes, which is the number of
     * distinct (bucket, key) pairs inserted.
     */
    method HashSize() returns (count: int)
      requires Valid()
      ensures count == |Pairs|
    {
      count := 0;
      var i := 0;
      while i < BUCKETS
        invariant i <= BUCKETS
        invariant count == |PairsUpTo(lists[..], i)|
        invariant Valid()
      {
        var n := ListSize(i);
        PairsUpToStep(lists[..], i);
        count := count + n;
        i := i + 1;
      }
      forall p
        ensures p in Pairs <==> p in PairsUpTo(lists[..], BUCKETS)
      {
        PairsUpToMember(lists[..], BUCKETS, p);
        if 0 <= p.0 < BUCKETS {
          assert lists[..][p.0] == lists[p.0];
          if p.1 in lists[p.0] {
            var b, k := p.0, p.1;
            assert (b, k) in Pairs;
          }
        }
      }
      assert Pairs == PairsUpTo(lists[..], BUCKETS);
    }
  }
}
