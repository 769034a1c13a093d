/**
 * The bag store: the header of a mapped bag file and its records, updated
 * in place by `addElement` and `deleteElement` and read by `checkElement`
 * and `listElements`. Every pointer of the source is an offset here;
 * `entry_addr` yields null exactly for offset 0 and distinct offsets give
 * distinct pointers (BagAddressing), so the tests `!front` and
 * `back == front` are tests on offsets. Messages the source prints become
 * results.
 */
module BigBagStore {
  import opened CStrings
  import opened BagLayout
  import opened SortedList
  import opened BagState

  /** "added <s>" or "out of space". */
  datatype AddOutcome = Added | OutOfSpace
  /** "deleted <s>" or "no <s>". */
  datatype DeleteOutcome = Deleted | NotFound
  /** "empty bag", or the strings printed one per line. */
  datatype Listing = EmptyBag | Listed(items: seq<CStr>)

  class BigBag {
    var magic: U32
    /** `hdr->first_free`: the offset of the free block. */
    var firstFree: U32
    /** `hdr->first_element`: the offset of the first record on the list, or 0. */
    var firstElement: U32
    /** The records of the buffer, by offset. */
    var records: map<U32, Entry>

    /** The offsets of the list's records, from `firstElement` on. */
    ghost var order: seq<U32>
    /** The strings on the list, in list order. */
    ghost var Contents: seq<CStr>

    ghost predicate Valid()
      reads this
    {
      Inv(magic, firstFree, firstElement, records, order, Contents)
    }

    /**
     * A bag file seen empty for the first time: the header, an empty list,
     * and one FREE record right after the header whose payload runs to the
     * end of the 64 KiB file.
     */
    constructor Fresh()
      ensures Valid()
      ensures magic == BIGBAG_MAGIC && firstElement == 0 && firstFree == HEADER_SIZE
      ensures records == map[HEADER_SIZE := Entry(0, FREE_TAG, BIGBAG_SIZE - HEADER_SIZE - PREFIX_SIZE, [])]
      ensures FreeEnd(records, firstFree) == BIGBAG_SIZE
      ensures Contents == []
    {
      firstElement := 0;
      magic := BIGBAG_MAGIC;
      firstFree := HEADER_SIZE;
      records := map[HEADER_SIZE := Entry(0, FREE_TAG, 65536 - HEADER_SIZE - PREFIX_SIZE, [])];
      order := [];
      Contents := [];
    }

    /**
     * `addElement`: carve a record for `element` from the free block, or
     * report "out of space" and change nothing; then splice the record in
     * before the first string that is not smaller.
     */
    method Add(element: CStr) returns (outcome: AddOutcome)
      requires Valid()
      requires EntrySize(element) < U32_LIMIT
      modifies this
      ensures Valid()
      ensures outcome == Added <==> old(records[firstFree].len) >= EntrySize(element)
      ensures outcome == OutOfSpace ==> unchanged(this)
      ensures outcome == Added ==>
        var k := InsertPos(old(Contents), element);
        && magic == old(magic)
        && firstFree == AdvancedFree(old(firstFree), element)
        && records == Splice(Allocate(old(records), old(firstFree), element), old(order), k, old(firstFree))
        && firstElement == (if k == 0 then old(firstFree) else old(firstElement))
        && order == old(order)[..k] + [old(firstFree)] + old(order)[k..]
        && Contents == InsertBefore(old(Contents), element)
    {
      var first_free := firstFree;
      var elementEntrySize := MIN_ENTRY_SIZE + |element| + 1;
      var oldLength := records[first_free].len;
      if oldLength < elementEntrySize {
        return OutOfSpace;
      }
      var newFirstFree: U32 := first_free + POINTER_SIZE + |element| + 1;
      ghost var k;
      records, firstElement, k := CarveAndLink(records, first_free, firstElement, element, magic, order, Contents);
      firstFree := newFirstFree;
      order := order[..k] + [first_free] + order[k..];
      Contents := InsertBefore(Contents, element);
      outcome := Added;
    }

    /**
     * `checkElement`: walk the list and report whether some record holds
     * a string equal to `element`. Nothing changes.
     */
    method Check(element: CStr) returns (found: bool)
      requires Valid()
      ensures found <==> element in Contents
    {
      found := false;
      var entry := firstElement;
      ghost var i := 0;
      while entry != 0
        invariant i <= |order| && (order != [] ==> i < |order|)
        invariant entry == (if i < |order| then order[i] else 0)
        invariant forall j :: 0 <= j < i ==> Contents[j] != element
        invariant !found
        decreases |order| - i
      {
        assert ChainEntry(records, order, Contents, i);
        StrCmpZeroIff(records[entry].str, element);
        if StrCmp(records[entry].str, element) == 0 {
          found := true;
          break;
        }
        var nextOffset := records[entry].next;
        if nextOffset == 0 {
          break;
        }
        entry := nextOffset;
        i := i + 1;
      }
    }

    /**
     * `listElements`: "empty bag" when `first_element` is 0, otherwise the
     * strings in `next` order. Nothing changes.
     */
    method List() returns (listing: Listing)
      requires Valid()
      ensures listing == EmptyBag <==> firstElement == 0
      ensures listing == EmptyBag <==> Contents == []
      ensures listing.Listed? ==> listing.items == Contents
    {
      var entry := firstElement;
      if entry == 0 {
        return EmptyBag;
      }
      var items: seq<CStr> := [];
      ghost var i := 0;
      while true
        invariant i < |order| && entry == order[i]
        invariant items == Contents[..i]
        decreases |order| - i
      {
        assert ChainEntry(records, order, Contents, i);
        items := items + [records[entry].str];
        var nextOffset := records[entry].next;
        if nextOffset == 0 {
          break;
        }
        entry := nextOffset;
        i := i + 1;
      }
      assert items == Contents;
      listing := Listed(items);
    }

    /**
     * `deleteElement`: unlink the first record equal to `element`, tag it
     * FREE and clear its `next`; its space stays lost. When no record
     * matches, report "no <element>" and change nothing.
     */
    method Delete(element: CStr) returns (outcome: DeleteOutcome)
      requires Valid()
      modifies this
      ensures Valid()
      ensures outcome == Deleted <==> element in old(Contents)
      ensures outcome == NotFound ==> unchanged(this)
      ensures outcome == Deleted ==>
        var k := IndexOf(old(Contents), element);
        && magic == old(magic) && firstFree == old(firstFree)
        && records == Unlink(old(records), old(order), k)
        && firstElement == (if k == 0 then old(records[order[0]].next) else old(firstElement))
        && order == old(order)[..k] + old(order)[k + 1..]
        && Contents == RemoveFirst(old(Contents), element)
    {
      var found, recs', first';
      ghost var k;
      found, recs', first', k := UnlinkFrom(records, firstElement, element, order, Contents);
      if !found {
        RemoveFirstAbsent(Contents, element);
        return NotFound;
      }
      DeleteKeepsInv(magic, firstFree, firstElement, records, order, Contents, k);
      RemoveFirstAt(Contents, element);
      records, firstElement := recs', first';
      order := order[..k] + order[k + 1..];
      Contents := Contents[..k] + Contents[k + 1..];
      return Deleted;
    }
  }

  /**
   * `addElement` on the records as values, once the free record is known
   * to be large enough: carve the new record and the free record after
   * it, then walk the list and splice the new record in.
   */
  method CarveAndLink(recs: map<U32, Entry>, ff: U32, first: U32, element: CStr,
                      ghost magic: U32, ghost order: seq<U32>, ghost contents: seq<CStr>)
    returns (recs': map<U32, Entry>, first': U32, ghost k: nat)
    requires Inv(magic, ff, first, recs, order, contents)
    requires recs[ff].len >= EntrySize(element)
    ensures k == InsertPos(contents, element)
    ensures recs' == Splice(Allocate(recs, ff, element), order, k, ff)
    ensures first' == if k == 0 then ff else first
    ensures Inv(magic, AdvancedFree(ff, element) as U32, first', recs',
                order[..k] + [ff] + order[k..], InsertBefore(contents, element))
  {
    var elementEntrySize := MIN_ENTRY_SIZE + |element| + 1;
    var oldLength := recs[ff].len;
    // The new record at the old free offset, and the free block after it.
    var newFirstFree: U32 := ff + POINTER_SIZE + |element| + 1;
    var carved := recs[ff := Entry(0, USED_TAG, |element| + 1, element)];
    carved := carved[newFirstFree := Entry(0, FREE_TAG, oldLength - elementEntrySize, [])];
    assert carved == Allocate(recs, ff, element);
    AllocateChain(ff, first, recs, order, contents, element);
    recs', first', k := LinkIn(carved, first, ff, element, order, contents);
    AddKeepsInv(magic, ff, first, recs, order, contents, element, k);
  }

  /**
   * The walk of `addElement` on the records as values: two runners from
   * `first`; the record at `x` goes before the first string that is not
   * smaller than `element`, or at the end. Returns the records and the
   * first offset after the splice, and (ghost) the position `k` it took.
   */
  method LinkIn(recs: map<U32, Entry>, first: U32, x: U32, element: CStr,
                ghost order: seq<U32>, ghost contents: seq<CStr>)
    returns (recs': map<U32, Entry>, first': U32, ghost k: nat)
    requires Chain(recs, first, order, contents)
    requires x != 0 && x in recs && x !in order
    ensures k == InsertPos(contents, element)
    ensures recs' == Splice(recs, order, k, x)
    ensures first' == if k == 0 then x else first
  {
    recs', first' := recs, first;
    var front := first;
    var back := front;
    ghost var i := 0;
    k := 0;
    if front == 0 {
      recs' := recs'[x := recs'[x].(next := first')];
      first' := x;
    }
    while front != 0
      invariant i <= |order| && (order != [] ==> i < |order|)
      invariant front == (if i < |order| then order[i] else 0)
      invariant back == (if i == 0 then front else order[i - 1])
      invariant i <= InsertPos(contents, element)
      invariant order != [] ==> recs' == recs && first' == first
      invariant order == [] ==> recs' == Splice(recs, order, 0, x) && first' == x && k == 0
      decreases |order| - i
    {
      assert ChainEntry(recs, order, contents, i);
      if i > 0 {
        assert ChainEntry(recs, order, contents, i - 1);
      }
      if StrCmp(element, recs'[front].str) <= 0 {
        if back == front {
          recs' := recs'[x := recs'[x].(next := first')];
          first' := x;
        } else {
          recs' := recs'[x := recs'[x].(next := recs'[back].next)];
          recs' := recs'[back := recs'[back].(next := x)];
        }
        k := i;
        break;
      }
      var nextOffset := recs'[front].next;
      back := front;
      front := nextOffset;
      i := i + 1;
      if front == 0 {
        recs' := recs'[x := recs'[x].(next := 0)];
        recs' := recs'[back := recs'[back].(next := x)];
        k := i;
        break;
      }
    }
  }

  /**
   * The walk of `deleteElement` on the records as values: two runners from
   * `first` until a string equal to `element`, which is unlinked. `found`
   * is false, and nothing changes, when the walk runs off the end.
   */
  method UnlinkFrom(recs: map<U32, Entry>, first: U32, element: CStr,
                    ghost order: seq<U32>, ghost contents: seq<CStr>)
    returns (found: bool, recs': map<U32, Entry>, first': U32, ghost k: nat)
    requires Chain(recs, first, order, contents)
    ensures found <==> element in contents
    ensures !found ==> recs' == recs && first' == first
    ensures found ==>
      && k == IndexOf(contents, element)
      && recs' == Unlink(recs, order, k)
      && first' == (if k == 0 then recs[order[0]].next else first)
  {
    recs', first' := recs, first;
    var front := first;
    var back := front;
    ghost var i := 0;
    k := 0;
    while front != 0
      invariant i <= |order|
      invariant front == (if i < |order| then order[i] else 0)
      invariant back == (if i == 0 then front else order[i - 1])
      invariant element !in contents[..i]
      invariant recs' == recs && first' == first
      decreases |order| - i
    {
      assert ChainEntry(recs, order, contents, i);
      StrCmpZeroIff(element, recs'[front].str);
      if StrCmp(element, recs'[front].str) == 0 {
        if back == front {
          first' := recs'[front].next;
          recs' := recs'[front := recs'[front].(tag := FREE_TAG, next := 0)];
        } else {
          recs' := recs'[back := recs'[back].(next := recs'[front].next)];
          recs' := recs'[front := recs'[front].(tag := FREE_TAG, next := 0)];
        }
        k := i;
        break;
      }
      var nextOffset := recs'[front].next;
      back := front;
      front := nextOffset;
      i := i + 1;
    }
    found := front != 0;
  }
}
