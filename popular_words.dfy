/**
 * The popular-word counter: a chained hash table of 256 buckets whose
 * nodes carry a word and the number of times it was seen, a FIFO queue
 * of words, and `Hash_Occurance`, which finds the largest count and
 * queues every word that has it.
 *
 * Each bucket's linked list is the sequence of its nodes from the head
 * onwards; prepending a node is `[node] + list` and `curr->count += 1`
 * replaces one element. The ghost multiset `Inserted` holds every word
 * the table has recorded, as often as it was recorded.
 */
module PopularWords {
  import opened CStrings
  import opened WordKeys

  /** A node of a bucket list: a word and its number of occurrences. */
  datatype WordNode = WordNode(key: CStr, count: int)

  /** The words of a bucket list. */
  function Keys(l: seq<WordNode>): set<CStr>
  {
    if l == [] then {} else {l[0].key} + Keys(l[1..])
  }

  /** The count of the first node holding `w`, or 0 when there is none. */
  function CountOf(l: seq<WordNode>, w: CStr): int
  {
    if l == [] then 0 else if l[0].key == w then l[0].count else CountOf(l[1..], w)
  }

  /**
   * The list after `List_Lookup(l, w)`: the first node holding `w` has its
   * count raised by one; without such a node the list is unchanged.
   */
  function Bump(l: seq<WordNode>, w: CStr): (r: seq<WordNode>)
    ensures |r| == |l|
    ensures forall i :: 0 <= i < |l| ==> r[i].key == l[i].key && r[i].count >= l[i].count
    ensures Keys(r) == Keys(l)
  {
    if l == [] then []
    else if l[0].key == w then [l[0].(count := l[0].count + 1)] + l[1..]
    else [l[0]] + Bump(l[1..], w)
  }

  /** The list after `List_Insert(l, w)`: bumped when `w` is there, else a new head with count 1. */
  function Recorded(l: seq<WordNode>, w: CStr): (r: seq<WordNode>)
    ensures w in Keys(r)
    ensures |r| == if w in Keys(l) then |l| else |l| + 1
  {
    if w in Keys(l) then Bump(l, w) else [WordNode(w, 1)] + l
  }

  /** Bucket `b` holds only words that hash to `b`, each once and with a positive count. */
  ghost predicate BucketOk(l: seq<WordNode>, b: int)
  {
    && (forall i :: 0 <= i < |l| ==> Bucket(l[i].key) == b && l[i].count >= 1)
    && (forall i, j :: 0 <= i < j < |l| ==> l[i].key != l[j].key)
  }

  /**
   * The table holds, for every word, a node whose count is the number of
   * times the word was recorded, in the word's bucket.
   */
  ghost predicate TableOk(ls: seq<seq<WordNode>>, ins: multiset<CStr>)
  {
    && |ls| == BUCKETS
    && (forall b :: 0 <= b < BUCKETS ==> BucketOk(ls[b], b))
    && (forall w: CStr :: CountOf(ls[Bucket(w)], w) == ins[w])
  }

  lemma {:induction false} KeysMember(l: seq<WordNode>, w: CStr)
    ensures w in Keys(l) <==> exists i :: 0 <= i < |l| && l[i].key == w
  {
    if l != [] {
      KeysMember(l[1..], w);
      if w in Keys(l[1..]) {
        var i :| 0 <= i < |l[1..]| && l[1..][i].key == w;
        assert l[i + 1].key == w;
      }
      if exists i :: 0 <= i < |l| && l[i].key == w {
        var i :| 0 <= i < |l| && l[i].key == w;
        if i > 0 {
          assert l[1..][i - 1].key == w;
        }
      }
    }
  }

  /** `CountOf` finds the first node holding the word. */
  lemma {:induction false} CountOfAt(l: seq<WordNode>, i: int)
    requires 0 <= i < |l|
    requires forall j :: 0 <= j < i ==> l[j].key != l[i].key
    ensures CountOf(l, l[i].key) == l[i].count
  {
    if i > 0 {
      CountOfAt(l[1..], i - 1);
    }
  }

  /** A word with no node has count 0. */
  lemma {:induction false} CountOfAbsent(l: seq<WordNode>, w: CStr)
    requires w !in Keys(l)
    ensures CountOf(l, w) == 0
  {
    if l != [] {
      CountOfAbsent(l[1..], w);
    }
  }

  /** A nonzero count belongs to a node holding the word. */
  lemma {:induction false} CountOfNode(l: seq<WordNode>, w: CStr)
    requires CountOf(l, w) != 0
    ensures WordNode(w, CountOf(l, w)) in l
  {
    if l[0].key != w {
      CountOfNode(l[1..], w);
      assert l == [l[0]] + l[1..];
    }
  }

  /** Bumping raises exactly the bumped word's count, by one, and only when it is present. */
  lemma {:induction false} BumpCount(l: seq<WordNode>, w: CStr, v: CStr)
    ensures CountOf(Bump(l, w), v) == CountOf(l, v) + (if v == w && w in Keys(l) then 1 else 0)
  {
    if l != [] && l[0].key != w {
      BumpCount(l[1..], w, v);
    }
  }

  /** Bumping an absent word changes nothing. */
  lemma {:induction false} BumpAbsent(l: seq<WordNode>, w: CStr)
    requires w !in Keys(l)
    ensures Bump(l, w) == l
  {
    if l != [] {
      BumpAbsent(l[1..], w);
    }
  }

  /** Bumping the first node holding `w` is updating that one element. */
  lemma {:induction false} BumpAt(l: seq<WordNode>, w: CStr, i: int)
    requires 0 <= i < |l| && l[i].key == w
    requires forall j :: 0 <= j < i ==> l[j].key != w
    ensures Bump(l, w) == l[i := l[i].(count := l[i].count + 1)]
  {
    if i > 0 {
      BumpAt(l[1..], w, i - 1);
      assert l[1..][i - 1 := l[i].(count := l[i].count + 1)] == l[i := l[i].(count := l[i].count + 1)][1..];
    }
  }

  /** In a valid bucket a word has a node exactly when its count is positive. */
  lemma KeysCount(l: seq<WordNode>, b: int, w: CStr)
    requires BucketOk(l, b)
    ensures w in Keys(l) <==> CountOf(l, w) > 0
  {
    KeysMember(l, w);
    if w in Keys(l) {
      var i :| 0 <= i < |l| && l[i].key == w;
      CountOfAt(l, i);
    } else {
      CountOfAbsent(l, w);
    }
  }

  /** A new head for an absent word of the bucket keeps the bucket valid. */
  lemma PrependKeepsBucket(l: seq<WordNode>, b: int, w: CStr)
    requires BucketOk(l, b) && Bucket(w) == b && w !in Keys(l)
    ensures BucketOk([WordNode(w, 1)] + l, b)
  {
    KeysMember(l, w);
  }

  /**
   * Recording `w` in a valid bucket of its own keeps the bucket valid and
   * raises the count of `w`, and no other, by one.
   */
  lemma RecordInBucket(l: seq<WordNode>, b: int, w: CStr, v: CStr)
    requires BucketOk(l, b) && Bucket(w) == b
    ensures BucketOk(Recorded(l, w), b)
    ensures CountOf(Recorded(l, w), v) == CountOf(l, v) + (if v == w then 1 else 0)
  {
    if w in Keys(l) {
      BumpCount(l, w, v);
    } else {
      PrependKeepsBucket(l, b, w);
      CountOfAbsent(l, w);
      assert Recorded(l, w)[1..] == l;
    }
  }

  /**
   * Recording `w` in its bucket keeps the table valid and adds one
   * occurrence of `w` and nothing else.
   */
  lemma RecordKeepsTable(ls: seq<seq<WordNode>>, ins: multiset<CStr>, w: CStr)
    requires TableOk(ls, ins)
    ensures TableOk(ls[Bucket(w) := Recorded(ls[Bucket(w)], w)], ins + multiset{w})
  {
    var b := Bucket(w);
    var ls' := ls[b := Recorded(ls[b], w)];
    RecordInBucket(ls[b], b, w, w);
    forall v: CStr
      ensures CountOf(ls'[Bucket(v)], v) == (ins + multiset{w})[v]
    {
      if Bucket(v) == b {
        RecordInBucket(ls[b], b, w, v);
      }
    }
  }

  /** The largest count in a list, or 0 for an empty list. */
  function MaxCount(l: seq<WordNode>): (m: int)
    ensures m >= 0
    ensures forall i :: 0 <= i < |l| ==> l[i].count <= m
    ensures m == 0 || exists i :: 0 <= i < |l| && l[i].count == m
  {
    if l == [] then 0
    else
      var m := MaxCount(l[..|l| - 1]);
      if l[|l| - 1].count > m then l[|l| - 1].count else m
  }

  /** The words of the nodes whose count is `m`, in list order. */
  function WithCount(l: seq<WordNode>, m: int): seq<CStr>
  {
    if l == [] then []
    else WithCount(l[..|l| - 1], m) + (if l[|l| - 1].count == m then [l[|l| - 1].key] else [])
  }

  /** All bucket lists one after the other, in bucket order. */
  function Flatten(ls: seq<seq<WordNode>>): seq<WordNode>
  {
    if ls == [] then [] else Flatten(ls[..|ls| - 1]) + ls[|ls| - 1]
  }

  /** Scanning one more node: how the maximum and the nodes with count `m` change. */
  lemma ScanStep(seen: seq<WordNode>, n: WordNode, m: int)
    ensures MaxCount(seen + [n]) == if n.count > MaxCount(seen) then n.count else MaxCount(seen)
    ensures WithCount(seen + [n], m) == WithCount(seen, m) + (if n.count == m then [n.key] else [])
  {
    assert (seen + [n])[..|seen|] == seen;
  }

  lemma SnocSlice(done: seq<WordNode>, l: seq<WordNode>, c: int)
    requires 0 <= c < |l|
    ensures done + l[..c + 1] == (done + l[..c]) + [l[c]]
  {
    assert l[..c + 1] == l[..c] + [l[c]];
  }

  /** The first `i + 1` buckets are the first `i` followed by bucket `i`. */
  lemma FlattenStep(ls: seq<seq<WordNode>>, i: int)
    requires 0 <= i < |ls|
    ensures Flatten(ls[..i + 1]) == Flatten(ls[..i]) + ls[i]
  {
    assert ls[..i + 1][..i] == ls[..i];
  }

  /** No node has a count above the maximum. */
  lemma {:induction false} WithCountAbove(l: seq<WordNode>, m: int)
    requires m > MaxCount(l)
    ensures WithCount(l, m) == []
  {
    if l != [] {
      WithCountAbove(l[..|l| - 1], m);
    }
  }

  lemma {:induction false} WithCountMember(l: seq<WordNode>, m: int, w: CStr)
    ensures w in WithCount(l, m) <==> WordNode(w, m) in l
  {
    if l != [] {
      var p := l[..|l| - 1];
      WithCountMember(p, m, w);
      assert l == p + [l[|l| - 1]];
    }
  }

  lemma {:induction false} FlattenMember(ls: seq<seq<WordNode>>, n: WordNode)
    ensures n in Flatten(ls) <==> exists b :: 0 <= b < |ls| && n in ls[b]
  {
    if ls != [] {
      var p := ls[..|ls| - 1];
      FlattenMember(p, n);
      if exists b :: 0 <= b < |ls| && n in ls[b] {
        var b :| 0 <= b < |ls| && n in ls[b];
        if b < |p| {
          assert n in p[b];
        }
      }
    }
  }

  /** Every node of a valid table carries its word's multiplicity. */
  lemma NodeIsMultiplicity(ls: seq<seq<WordNode>>, ins: multiset<CStr>, n: WordNode)
    requires TableOk(ls, ins) && n in Flatten(ls)
    ensures ins[n.key] == n.count >= 1
  {
    FlattenMember(ls, n);
    var b :| 0 <= b < |ls| && n in ls[b];
    var i :| 0 <= i < |ls[b]| && ls[b][i] == n;
    CountOfAt(ls[b], i);
  }

  /** Every recorded word has a node carrying its multiplicity. */
  lemma MultiplicityIsNode(ls: seq<seq<WordNode>>, ins: multiset<CStr>, w: CStr)
    requires TableOk(ls, ins) && ins[w] > 0
    ensures WordNode(w, ins[w]) in Flatten(ls)
  {
    CountOfNode(ls[Bucket(w)], w);
    FlattenMember(ls, WordNode(w, ins[w]));
  }

  /**
   * In a valid table the maximum that `Hash_Occurance` reports is the
   * largest multiplicity of any recorded word, and 0 only for an empty
   * table.
   */
  lemma MaximumIsLargestMultiplicity(ls: seq<seq<WordNode>>, ins: multiset<CStr>)
    requires TableOk(ls, ins)
    ensures forall w :: ins[w] <= MaxCount(Flatten(ls))
    ensures MaxCount(Flatten(ls)) == 0 <==> ins == multiset{}
  {
    var f := Flatten(ls);
    forall w | ins[w] > 0
      ensures ins[w] <= MaxCount(f)
    {
      MultiplicityIsNode(ls, ins, w);
    }
    if MaxCount(f) != 0 {
      var i :| 0 <= i < |f| && f[i].count == MaxCount(f);
      NodeIsMultiplicity(ls, ins, f[i]);
      assert ins[f[i].key] > 0;
    }
    if ins != multiset{} {
      var w :| w in ins;
      MultiplicityIsNode(ls, ins, w);
    }
  }

  /**
   * In a valid table the queue `Hash_Occurance` builds holds exactly the
   * recorded words whose multiplicity is the maximum.
   */
  lemma QueuedAreMostFrequent(ls: seq<seq<WordNode>>, ins: multiset<CStr>, w: CStr)
    requires TableOk(ls, ins)
    ensures w in WithCount(Flatten(ls), MaxCount(Flatten(ls))) <==> ins[w] > 0 && ins[w] == MaxCount(Flatten(ls))
  {
    var f := Flatten(ls);
    var m := MaxCount(f);
    WithCountMember(f, m, w);
    if WordNode(w, m) in f {
      NodeIsMultiplicity(ls, ins, WordNode(w, m));
    }
    if ins[w] > 0 && ins[w] == m {
      MultiplicityIsNode(ls, ins, w);
    }
  }

  /** A FIFO queue of words (`queue_t`); `items` are the nodes after the dummy head. */
  class WordQueue {
    var items: seq<CStr>

    /** `Queue_Init`: only the dummy node, so no items. */
    constructor ()
      ensures items == []
    {
      items := [];
    }

    /** `Queue_Enqueue`: a copy of `value` joins at the tail. */
    method Enqueue(value: CStr)
      modifies this
      ensures items == old(items) + [value]
    {
      items := items + [value];
    }

    /**
     * `Queue_Dequeue`: -1 and no change when only the dummy node is
     * left; otherwise 0, the oldest item, and that item leaves the queue.
     */
    method Dequeue() returns (rc: int, value: CStr)
      modifies this
      ensures old(items) == [] ==> rc == -1 && items == old(items)
      ensures old(items) != [] ==> rc == 0 && value == old(items[0]) && items == old(items[1..])
    {
      if items == [] {
        return -1, [];
      }
      value := items[0];
      items := items[1..];
      rc := 0;
    }
  }

  /** A hash table of `BUCKETS` lists of word nodes (`hash_t`). */
  class WordTable {
    /** `lists[b]`: the nodes of bucket `b`, head first. */
    const lists: array<seq<WordNode>>
    /** Every word recorded so far, with its multiplicity. */
    ghost var Inserted: multiset<CStr>

    ghost predicate Valid()
      reads this, lists
    {
      lists.Length == BUCKETS && TableOk(lists[..], Inserted)
    }

    /** `Hash_Init`: every bucket starts empty. */
    constructor ()
      ensures Valid() && fresh(lists)
      ensures Inserted == multiset{}
      ensures forall b :: 0 <= b < BUCKETS ==> lists[b] == []
    {
      lists := new seq<WordNode>[BUCKETS](_ => []);
      Inserted := multiset{};
    }

    /**
     * `List_Lookup`: 0 and one more occurrence on the first node holding
     * `key`; -1 and no change when there is none.
     */
    method ListLookup(b: int, key: CStr) returns (rc: int)
      requires 0 <= b < lists.Length
      modifies lists
      ensures rc == 0 || rc == -1
      ensures rc == 0 <==> key in Keys(old(lists[b]))
      ensures lists[..] == old(lists[..])[b := Bump(old(lists[b]), key)]
    {
      var l := lists[b];
      var i := 0;
      while i < |l|
        invariant i <= |l|
        invariant forall j :: 0 <= j < i ==> l[j].key != key
        invariant unchanged(lists)
      {
        StrCmpZeroIff(l[i].key, key);
        if StrCmp(l[i].key, key) == 0 {
          BumpAt(l, key, i);
          KeysMember(l, key);
          lists[b] := l[i := l[i].(count := l[i].count + 1)];
          return 0;
        }
        i := i + 1;
      }
      KeysMember(l, key);
      BumpAbsent(l, key);
      return -1;
    }

    /**
     * `List_Insert`: a word already in bucket `b` gets one more occurrence
     * and -1; a new word becomes the head with count 1, and 0.
     */
    method ListInsert(b: int, key: CStr) returns (rc: int)
      requires 0 <= b < lists.Length
      modifies lists
      ensures rc == 0 || rc == -1
      ensures rc == 0 <==> key !in Keys(old(lists[b]))
      ensures lists[..] == old(lists[..])[b := Recorded(old(lists[b]), key)]
    {
      ghost var l0 := lists[b];
      var found := ListLookup(b, key);
      if found == 0 {
        return -1;
      }
      BumpAbsent(l0, key);
      lists[b] := [WordNode(key, 1)] + lists[b];
      return 0;
    }

    /** `List_Size`: the largest count in bucket `b`, 0 for an empty bucket. */
    method ListSize(b: int) returns (listMax: int)
      requires 0 <= b < lists.Length
      ensures listMax == MaxCount(lists[b])
    {
      var l := lists[b];
      listMax := 0;
      var i := 0;
      while i < |l|
        invariant i <= |l|
        invariant listMax == MaxCount(l[..i])
      {
        assert l[..i + 1][..i] == l[..i];
        if l[i].count > listMax {
          listMax := l[i].count;
        }
        i := i + 1;
      }
      assert l[..i] == l;
    }

    /**
     * `Hash_Insert`: records one occurrence of `word` in its bucket; 0 for
     * a word not seen before, -1 for a repeated one.
     */
    method HashInsert(word: CStr) returns (rc: int)
      requires Valid()
      modifies this, lists
      ensures Valid()
      ensures rc == 0 || rc == -1
      ensures rc == 0 <==> word !in old(Inserted)
      ensures Inserted == old(Inserted) + multiset{word}
      ensures lists[..] == old(lists[..])[Bucket(word) := Recorded(old(lists[Bucket(word)]), word)]
    {
      var position := KeyGen(word);
      KeysCount(lists[position], position, word);
      RecordKeepsTable(lists[..], Inserted, word);
      rc := ListInsert(position, word);
      Inserted := Inserted + multiset{word};
    }

    /**
     * `Hash_Lookup`: 0 when `word` was recorded before, and like
     * `List_Lookup` it then counts one more occurrence; -1 and no change
     * otherwise.
     */
    method HashLookup(word: CStr) returns (rc: int)
      requires Valid()
      modifies this, lists
      ensures Valid()
      ensures rc == 0 || rc == -1
      ensures rc == 0 <==> word in old(Inserted)
      ensures Inserted == if rc == 0 then old(Inserted) + multiset{word} else old(Inserted)
      ensures lists[..] == old(lists[..])[Bucket(word) := Bump(old(lists[Bucket(word)]), word)]
    {
      var position := KeyGen(word);
      KeysCount(lists[position], position, word);
      RecordKeepsTable(lists[..], Inserted, word);
      ghost var absent := word !in Keys(lists[position]);
      if absent {
        BumpAbsent(lists[position], word);
      }
      rc := ListLookup(position, word);
      if rc == 0 {
        Inserted := Inserted + multiset{word};
      }
    }

    /**
     * `Hash_Occurance`: walks every bucket in order, keeping the largest
     * count seen and a queue of the words with that count; a larger count
     * empties the queue first.
     */
    method HashOccurrence() returns (maximum: int, words: WordQueue)
      requires lists.Length == BUCKETS
      ensures fresh(words)
      ensures maximum == MaxCount(Flatten(lists[..]))
      ensures words.items == WithCount(Flatten(lists[..]), maximum)
    {
      maximum := 0;
      words := new WordQueue();
      var j := 0;
      var i := 0;
      while i < BUCKETS
        invariant i <= BUCKETS
        invariant fresh(words)
        invariant maximum == MaxCount(Flatten(lists[..i]))
        invariant words.items == WithCount(Flatten(lists[..i]), maximum)
        invariant j == |words.items|
      {
        var curr := lists[i];
        ghost var done := Flatten(lists[..i]);
        ghost var seen := done;
        var c := 0;
        assert done + curr[..c] == done;
        while c < |curr|
          invariant c <= |curr|
          invariant seen == done + curr[..c]
          invariant maximum == MaxCount(seen)
          invariant words.items == WithCount(seen, maximum)
          invariant j == |words.items|
        {
          var node := curr[c];
          SnocSlice(done, curr, c);
          ScanStep(seen, node, if node.count > maximum then node.count else maximum);
          if node.count == maximum {
            words.Enqueue(node.key);
            j := j + 1;
          } else if node.count > maximum {
            var k := 0;
            label Clear:
            while k < j
              invariant k <= j
              invariant words.items == old@Clear(words.items)[k..]
            {
              var _, _ := words.Dequeue();
              k := k + 1;
            }
            WithCountAbove(seen, node.count);
            words.Enqueue(node.key);
            j := 1;
            maximum := node.count;
          }
          seen := seen + [node];
          c := c + 1;
        }
        assert curr[..c] == curr;
        FlattenStep(lists[..], i);
        i := i + 1;
      }
      assert lists[..i] == lists[..];
    }
  }
}
