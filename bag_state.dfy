/**
 * The invariant of a bag file, stated on the values of its header fields
 * and its records, and the three record-level steps the operations take:
 * carving a record from the free block, splicing it into the list and
 * unlinking a record from the list. Records are keyed by their offset; the
 * layout invariant keeps every record but the free block wholly below the
 * free block and no two records overlapping, so a write to one record's
 * fields leaves the bytes of every other record as they were.
 */
module BagState {
  import opened CStrings
  import opened BagLayout
  import opened SortedList

  /** The `next` a list record holds: the offset of its successor, 0 for the last one. */
  function NextOf(order: seq<U32>, i: nat): U32
    requires i < |order|
  {
    if i + 1 < |order| then order[i + 1] else 0
  }

  /**
   * The list: starting from `first`, the records at the offsets `order`
   * are USED, each `next` leads to the following one and the last `next`
   * is 0; no offset repeats and none is 0; `contents` are their strings.
   * The facts about position `i` are `ChainEntry(recs, order, contents, i)`.
   */
  ghost predicate Chain(recs: map<U32, Entry>, first: U32, order: seq<U32>, contents: seq<CStr>)
  {
    && |contents| == |order|
    && first == (if order == [] then 0 else order[0])
    && (forall i :: 0 <= i < |order| ==> order[i] != 0 && order[i] in recs)
    && (forall i :: 0 <= i < |order| ==> ChainEntry(recs, order, contents, i))
    && (forall i, j :: 0 <= i < j < |order| ==> order[i] != order[j])
  }

  /**
   * Position `i` of the list `o` with strings `c` is as `Chain` requires:
   * a nonzero offset of a USED record holding `c[i]` and leading to the
   * next position.
   */
  ghost predicate ChainEntry(r: map<U32, Entry>, o: seq<U32>, c: seq<CStr>, i: nat)
    requires i < |o| && |c| == |o|
  {
    && o[i] != 0 && o[i] in r
    && r[o[i]].next == NextOf(o, i) && r[o[i]].tag == USED_TAG
    && r[o[i]].len == |c[i]| + 1 && r[o[i]].str == c[i]
  }

  /** The record at `o` ends at or before the record at `p` starts, when `o` comes first. */
  ghost predicate Apart(recs: map<U32, Entry>, o: U32, p: U32)
  {
    o in recs && p in recs && o < p ==> o + PREFIX_SIZE + recs[o].len <= p
  }

  /** No two records overlap. */
  ghost predicate Disjoint(recs: map<U32, Entry>)
  {
    forall o, p :: Apart(recs, o, p)
  }

  /**
   * The free block at `ff` is tagged FREE and ends inside the file; every
   * other record starts after the header and ends at or below `ff`; and
   * no two records overlap.
   */
  ghost predicate Layout(recs: map<U32, Entry>, ff: U32)
  {
    && ff in recs
    && recs[ff].tag == FREE_TAG
    && HEADER_SIZE <= ff
    && ff + PREFIX_SIZE + recs[ff].len <= BIGBAG_SIZE
    && (forall o :: o in recs && o != ff ==> HEADER_SIZE <= o && o + PREFIX_SIZE + recs[o].len <= ff)
    && Disjoint(recs)
  }

  /**
   * The offsets of a list, as a set built element by element. `UsedListed`
   * is stated with it rather than with `o in order`: sequence membership
   * hides an existential over positions in every proof that unfolds the
   * invariant, while this set is opened only where `OffsetsIn` is called,
   * which keeps the proofs of `BigBag.Add` and `BigBag.Delete` cheap.
   */
  ghost function Offsets(order: seq<U32>): set<U32>
  {
    if order == [] then {} else {order[0]} + Offsets(order[1..])
  }

  /** `Offsets` holds exactly the offsets on the list. */
  lemma {:induction false} OffsetsIn(order: seq<U32>, o: U32)
    ensures o in Offsets(order) <==> o in order
  {
    if order != [] {
      OffsetsIn(order[1..], o);
      assert order == [order[0]] + order[1..];
    }
  }

  /** A record is USED only while it is on the list. */
  ghost predicate UsedListed(recs: map<U32, Entry>, order: seq<U32>)
  {
    forall o :: o in recs && recs[o].tag == USED_TAG ==> o in Offsets(order)
  }

  /** Everything a bag file keeps true between operations. */
  ghost predicate Inv(magic: U32, ff: U32, first: U32, recs: map<U32, Entry>,
                      order: seq<U32>, contents: seq<CStr>)
  {
    && magic == BIGBAG_MAGIC
    && Layout(recs, ff)
    && Chain(recs, first, order, contents)
    && UsedListed(recs, order)
    && Sorted(contents)
  }

  /** `element_entry_size`: what the free block must hold for `s` to be added. */
  function EntrySize(s: CStr): int
  {
    MIN_ENTRY_SIZE + |s| + 1
  }

  /** `new_first_free`: the cursor advanced by a pointer's size and the string with its terminator. */
  function AdvancedFree(ff: U32, s: CStr): int
  {
    ff + POINTER_SIZE + |s| + 1
  }

  /** Where the free block recorded at `ff` ends. */
  function FreeEnd(recs: map<U32, Entry>, ff: U32): int
    requires ff in recs
  {
    ff + PREFIX_SIZE + recs[ff].len
  }

  /**
   * The allocation step of `addElement`: a USED record for `s` at the old
   * free offset, and a FREE record after it whose length is the old one
   * less `element_entry_size`. The new record's `next` is still 0 here.
   */
  function Allocate(recs: map<U32, Entry>, ff: U32, s: CStr): (r: map<U32, Entry>)
    requires Layout(recs, ff) && recs[ff].len >= EntrySize(s)
    ensures AdvancedFree(ff, s) < BIGBAG_SIZE
    ensures r.Keys == recs.Keys + {AdvancedFree(ff, s) as U32}
    ensures FreeEnd(r, AdvancedFree(ff, s) as U32) == FreeEnd(recs, ff) - (MIN_ENTRY_SIZE - POINTER_SIZE)
  {
    var nff: U32 := AdvancedFree(ff, s);
    recs[ff := Entry(0, USED_TAG, |s| + 1, s)]
        [nff := Entry(0, FREE_TAG, recs[ff].len - EntrySize(s), [])]
  }

  /**
   * Splicing the record at `x` into the list at position `k`: its `next`
   * becomes the record that was at `k` (0 at the end), and the record
   * before it, if any, now leads to `x`.
   */
  function Splice(recs: map<U32, Entry>, order: seq<U32>, k: nat, x: U32): map<U32, Entry>
    requires k <= |order| && x in recs
    requires forall i :: 0 <= i < |order| ==> order[i] in recs
  {
    var linked := recs[x := recs[x].(next := if k < |order| then order[k] else 0)];
    if k == 0 then linked else linked[order[k - 1] := linked[order[k - 1]].(next := x)]
  }

  /**
   * Unlinking the record at position `k`: the record before it, if any,
   * takes over its `next`; the record itself is tagged FREE with `next` 0.
   */
  function Unlink(recs: map<U32, Entry>, order: seq<U32>, k: nat): map<U32, Entry>
    requires k < |order|
    requires forall i :: 0 <= i < |order| ==> order[i] in recs
  {
    var bypassed := if k == 0 then recs
                    else recs[order[k - 1] := recs[order[k - 1]].(next := recs[order[k]].next)];
    bypassed[order[k] := bypassed[order[k]].(tag := FREE_TAG, next := 0)]
  }

  /** Writing records that are not on the list leaves the list as it was. */
  lemma ChainFrame(recs: map<U32, Entry>, recs': map<U32, Entry>, first: U32, order: seq<U32>, contents: seq<CStr>)
    requires Chain(recs, first, order, contents)
    requires forall i :: 0 <= i < |order| ==> order[i] in recs' && recs'[order[i]] == recs[order[i]]
    ensures Chain(recs', first, order, contents)
  {
    forall i | 0 <= i < |order| ensures ChainEntry(recs', order, contents, i) {
      assert ChainEntry(recs, order, contents, i);
    }
  }

  /** What `Splice` leaves in each record of the list and in the spliced one. */
  lemma SpliceValues(recs: map<U32, Entry>, first: U32, order: seq<U32>, contents: seq<CStr>, k: nat, x: U32)
    requires Chain(recs, first, order, contents)
    requires k <= |order| && x in recs && x !in order
    ensures Splice(recs, order, k, x).Keys == recs.Keys
    ensures Splice(recs, order, k, x)[x] == recs[x].(next := if k < |order| then order[k] else 0)
    ensures k > 0 ==> Splice(recs, order, k, x)[order[k - 1]] == recs[order[k - 1]].(next := x)
    ensures forall i :: 0 <= i < |order| && i + 1 != k ==>
              Splice(recs, order, k, x)[order[i]] == recs[order[i]]
  {
  }

  /** One record of the list after `Splice`. */
  lemma SpliceEntry(recs: map<U32, Entry>, first: U32, order: seq<U32>, contents: seq<CStr>,
                    k: nat, x: U32, s: CStr, i: nat)
    requires Chain(recs, first, order, contents)
    requires k <= |order| && x != 0 && x in recs && x !in order
    requires recs[x].tag == USED_TAG && recs[x].len == |s| + 1 && recs[x].str == s
    requires i <= |order|
    ensures ChainEntry(Splice(recs, order, k, x), order[..k] + [x] + order[k..], contents[..k] + [s] + contents[k..], i)
  {
    SpliceValues(recs, first, order, contents, k, x);
    if i < k {
      SpliceEntryBefore(recs, first, order, contents, k, x, s, i);
    } else if i == k {
      SpliceEntryAt(recs, first, order, contents, k, x, s);
    } else {
      SpliceEntryAfter(recs, first, order, contents, k, x, s, i);
    }
  }

  /** A record before the spliced one. */
  lemma SpliceEntryBefore(recs: map<U32, Entry>, first: U32, order: seq<U32>, contents: seq<CStr>,
                          k: nat, x: U32, s: CStr, i: nat)
    requires Chain(recs, first, order, contents)
    requires k <= |order| && x in recs && x !in order && i < k
    requires Splice(recs, order, k, x)[order[k - 1]] == recs[order[k - 1]].(next := x)
    requires forall i :: 0 <= i < |order| && i + 1 != k ==>
               Splice(recs, order, k, x)[order[i]] == recs[order[i]]
    ensures ChainEntry(Splice(recs, order, k, x), order[..k] + [x] + order[k..], contents[..k] + [s] + contents[k..], i)
  {
    var o := order[..k] + [x] + order[k..];
    assert ChainEntry(recs, order, contents, i);
    assert o[i] == order[i] && (contents[..k] + [s] + contents[k..])[i] == contents[i];
    if i + 1 < k {
      assert o[i + 1] == order[i + 1];
    } else {
      assert o[i + 1] == x;
    }
  }

  /** The spliced record. */
  lemma SpliceEntryAt(recs: map<U32, Entry>, first: U32, order: seq<U32>, contents: seq<CStr>,
                      k: nat, x: U32, s: CStr)
    requires Chain(recs, first, order, contents)
    requires k <= |order| && x != 0 && x in recs && x !in order
    requires recs[x].tag == USED_TAG && recs[x].len == |s| + 1 && recs[x].str == s
    requires Splice(recs, order, k, x)[x] == recs[x].(next := if k < |order| then order[k] else 0)
    ensures ChainEntry(Splice(recs, order, k, x), order[..k] + [x] + order[k..], contents[..k] + [s] + contents[k..], k)
  {
    var o := order[..k] + [x] + order[k..];
    assert o[k] == x && (contents[..k] + [s] + contents[k..])[k] == s;
    if k < |order| {
      assert o[k + 1] == order[k];
    }
  }

  /** A record after the spliced one. */
  lemma SpliceEntryAfter(recs: map<U32, Entry>, first: U32, order: seq<U32>, contents: seq<CStr>,
                         k: nat, x: U32, s: CStr, i: nat)
    requires Chain(recs, first, order, contents)
    requires k < i <= |order| && x in recs && x !in order
    requires forall i :: 0 <= i < |order| && i + 1 != k ==>
               Splice(recs, order, k, x)[order[i]] == recs[order[i]]
    ensures ChainEntry(Splice(recs, order, k, x), order[..k] + [x] + order[k..], contents[..k] + [s] + contents[k..], i)
  {
    var o := order[..k] + [x] + order[k..];
    assert ChainEntry(recs, order, contents, i - 1);
    assert o[i] == order[i - 1] && (contents[..k] + [s] + contents[k..])[i] == contents[i - 1];
    if i + 1 < |o| {
      assert o[i + 1] == order[i];
    }
  }

  /** Offsets that do not repeat still do not after a new one is inserted. */
  lemma DistinctInsertAt(order: seq<U32>, k: nat, x: U32)
    requires k <= |order| && x !in order
    requires forall i, j :: 0 <= i < j < |order| ==> order[i] != order[j]
    ensures var o := order[..k] + [x] + order[k..];
            forall i, j :: 0 <= i < j < |o| ==> o[i] != o[j]
  {
    var o := order[..k] + [x] + order[k..];
    forall i, j | 0 <= i < j < |o| ensures o[i] != o[j] {
      var i' := if i < k then i else i - 1;
      var j' := if j < k then j else j - 1;
      if i != k && j != k {
        assert o[i] == order[i'] && o[j] == order[j'];
      } else if i == k {
        assert o[j] == order[j'];
      } else {
        assert o[i] == order[i'];
      }
    }
  }

  /** Splicing a USED record for `s` in at position `k` puts `s` at position `k` of the list. */
  lemma ChainSplice(recs: map<U32, Entry>, first: U32, order: seq<U32>, contents: seq<CStr>,
                    k: nat, x: U32, s: CStr)
    requires Chain(recs, first, order, contents)
    requires k <= |order| && x != 0 && x in recs && x !in order
    requires recs[x].tag == USED_TAG && recs[x].len == |s| + 1 && recs[x].str == s
    ensures Chain(Splice(recs, order, k, x), if k == 0 then x else first,
                  order[..k] + [x] + order[k..], contents[..k] + [s] + contents[k..])
  {
    var r := Splice(recs, order, k, x);
    var o := order[..k] + [x] + order[k..];
    var c := contents[..k] + [s] + contents[k..];
    forall i | 0 <= i < |o| ensures ChainEntry(r, o, c, i) {
      SpliceEntry(recs, first, order, contents, k, x, s, i);
    }
    DistinctInsertAt(order, k, x);
    if k > 0 {
      assert o[0] == order[0];
    }
  }

  /** What `Unlink` leaves in each record of the list. */
  lemma UnlinkValues(recs: map<U32, Entry>, order: seq<U32>, contents: seq<CStr>, first: U32, k: nat)
    requires Chain(recs, first, order, contents)
    requires k < |order|
    ensures Unlink(recs, order, k).Keys == recs.Keys
    ensures Unlink(recs, order, k)[order[k]] == recs[order[k]].(tag := FREE_TAG, next := 0)
    ensures k > 0 ==> Unlink(recs, order, k)[order[k - 1]] == recs[order[k - 1]].(next := NextOf(order, k))
    ensures forall i :: 0 <= i < |order| && i != k && i + 1 != k ==>
              Unlink(recs, order, k)[order[i]] == recs[order[i]]
  {
    assert ChainEntry(recs, order, contents, k);
  }

  /** Unlinking the record at position `k` removes position `k` from the list. */
  lemma ChainUnlink(recs: map<U32, Entry>, first: U32, order: seq<U32>, contents: seq<CStr>, k: nat)
    requires Chain(recs, first, order, contents)
    requires k < |order|
    ensures Chain(Unlink(recs, order, k), if k == 0 then recs[order[0]].next else first,
                  order[..k] + order[k + 1..], contents[..k] + contents[k + 1..])
  {
    var r := Unlink(recs, order, k);
    var o := order[..k] + order[k + 1..];
    var c := contents[..k] + contents[k + 1..];
    forall i | 0 <= i < |o| ensures ChainEntry(r, o, c, i) {
      UnlinkEntry(recs, first, order, contents, k, i);
    }
    DistinctRemoveAt(order, k);
    if k == 0 {
      assert ChainEntry(recs, order, contents, 0);
      if |o| > 0 {
        assert o[0] == order[1];
      }
    }
  }

  /** Offsets that do not repeat still do not after one is removed. */
  lemma DistinctRemoveAt(order: seq<U32>, k: nat)
    requires k < |order|
    requires forall i, j :: 0 <= i < j < |order| ==> order[i] != order[j]
    ensures var o := order[..k] + order[k + 1..];
            forall i, j :: 0 <= i < j < |o| ==> o[i] != o[j]
  {
    var o := order[..k] + order[k + 1..];
    forall i, j | 0 <= i < j < |o| ensures o[i] != o[j] {
      var i' := if i < k then i else i + 1;
      var j' := if j < k then j else j + 1;
      assert o[i] == order[i'] && o[j] == order[j'];
    }
  }

  /** One record of the list after `Unlink`. */
  lemma UnlinkEntry(recs: map<U32, Entry>, first: U32, order: seq<U32>, contents: seq<CStr>, k: nat, i: nat)
    requires Chain(recs, first, order, contents)
    requires k < |order| && i < |order| - 1
    ensures ChainEntry(Unlink(recs, order, k), order[..k] + order[k + 1..], contents[..k] + contents[k + 1..], i)
  {
    UnlinkValues(recs, order, contents, first, k);
    if i + 1 < k {
      UnlinkEntryBefore(recs, first, order, contents, k, i);
    } else if i + 1 == k {
      UnlinkEntryBypass(recs, first, order, contents, k);
    } else {
      UnlinkEntryAfter(recs, first, order, contents, k, i);
    }
  }

  /** A record before the one that leads to the unlinked one. */
  lemma UnlinkEntryBefore(recs: map<U32, Entry>, first: U32, order: seq<U32>, contents: seq<CStr>, k: nat, i: nat)
    requires Chain(recs, first, order, contents)
    requires k < |order| && i + 1 < k
    requires forall i :: 0 <= i < |order| && i != k && i + 1 != k ==>
               Unlink(recs, order, k)[order[i]] == recs[order[i]]
    ensures ChainEntry(Unlink(recs, order, k), order[..k] + order[k + 1..], contents[..k] + contents[k + 1..], i)
  {
    var o := order[..k] + order[k + 1..];
    assert ChainEntry(recs, order, contents, i);
    assert o[i] == order[i] && o[i + 1] == order[i + 1];
    assert (contents[..k] + contents[k + 1..])[i] == contents[i];
  }

  /** The record that led to the unlinked one now leads past it. */
  lemma UnlinkEntryBypass(recs: map<U32, Entry>, first: U32, order: seq<U32>, contents: seq<CStr>, k: nat)
    requires Chain(recs, first, order, contents)
    requires 0 < k < |order|
    requires Unlink(recs, order, k)[order[k - 1]] == recs[order[k - 1]].(next := NextOf(order, k))
    ensures ChainEntry(Unlink(recs, order, k), order[..k] + order[k + 1..], contents[..k] + contents[k + 1..], k - 1)
  {
    var o := order[..k] + order[k + 1..];
    assert ChainEntry(recs, order, contents, k - 1);
    assert o[k - 1] == order[k - 1];
    assert (contents[..k] + contents[k + 1..])[k - 1] == contents[k - 1];
    if k + 1 < |order| {
      assert o[k] == order[k + 1];
    }
  }

  /** A record after the unlinked one. */
  lemma UnlinkEntryAfter(recs: map<U32, Entry>, first: U32, order: seq<U32>, contents: seq<CStr>, k: nat, i: nat)
    requires Chain(recs, first, order, contents)
    requires k <= i < |order| - 1
    requires forall i :: 0 <= i < |order| && i != k && i + 1 != k ==>
               Unlink(recs, order, k)[order[i]] == recs[order[i]]
    ensures ChainEntry(Unlink(recs, order, k), order[..k] + order[k + 1..], contents[..k] + contents[k + 1..], i)
  {
    var o := order[..k] + order[k + 1..];
    assert ChainEntry(recs, order, contents, i + 1);
    assert o[i] == order[i + 1];
    assert (contents[..k] + contents[k + 1..])[i] == contents[i + 1];
    if i + 1 < |o| {
      assert o[i + 1] == order[i + 2];
    }
  }

  /** A fresh file: the header and one FREE record spanning the rest of the 64 KiB. */
  lemma FreshInv()
    ensures Inv(BIGBAG_MAGIC, HEADER_SIZE, 0,
                map[HEADER_SIZE := Entry(0, FREE_TAG, BIGBAG_SIZE - HEADER_SIZE - PREFIX_SIZE, [])], [], [])
  {
  }

  /** Splicing rewrites `next` fields only. */
  lemma SpliceOnlyLinks(recs: map<U32, Entry>, order: seq<U32>, k: nat, x: U32)
    requires k <= |order| && x in recs
    requires forall i :: 0 <= i < |order| ==> order[i] in recs
    ensures Splice(recs, order, k, x).Keys == recs.Keys
    ensures forall p :: p in recs ==> Splice(recs, order, k, x)[p].(next := 0) == recs[p].(next := 0)
  {
  }

  /** Unlinking rewrites `next` fields, and the tag of the unlinked record only. */
  lemma UnlinkOnlyLinks(recs: map<U32, Entry>, order: seq<U32>, k: nat)
    requires k < |order|
    requires forall i :: 0 <= i < |order| ==> order[i] in recs
    ensures Unlink(recs, order, k).Keys == recs.Keys
    ensures forall p :: p in recs ==> Unlink(recs, order, k)[p].len == recs[p].len
    ensures forall p :: p in recs && p != order[k] ==> Unlink(recs, order, k)[p].tag == recs[p].tag
    ensures Unlink(recs, order, k)[order[k]].tag == FREE_TAG
    ensures forall p :: p in recs ==> Unlink(recs, order, k)[p].str == recs[p].str
  {
  }

  /** The layout only depends on the keys, lengths and tags of the records. */
  lemma LayoutIgnoresLinks(recs: map<U32, Entry>, recs': map<U32, Entry>, ff: U32)
    requires Layout(recs, ff)
    requires recs'.Keys == recs.Keys
    requires forall p :: p in recs ==> recs'[p].len == recs[p].len
    requires recs'[ff].tag == FREE_TAG
    ensures Layout(recs', ff)
  {
    forall o, p ensures Apart(recs', o, p) {
      assert Apart(recs, o, p);
    }
  }

  /**
   * Carving a record leaves the new free block above every other record and
   * inside the file, and the records disjoint: the carved record ends
   * exactly where the new free block starts.
   */
  lemma AllocateLayout(recs: map<U32, Entry>, ff: U32, s: CStr)
    requires Layout(recs, ff) && recs[ff].len >= EntrySize(s)
    ensures Layout(Allocate(recs, ff, s), AdvancedFree(ff, s) as U32)
    ensures Disjoint(Allocate(recs, ff, s))
  {
    var a := Allocate(recs, ff, s);
    var nff: U32 := AdvancedFree(ff, s);
    forall p | p in a && p != nff ensures HEADER_SIZE <= p && p + PREFIX_SIZE + a[p].len <= nff {
      if p != ff {
        assert a[p] == recs[p];
      }
    }
    forall o, p ensures Apart(a, o, p) {
      assert Apart(recs, o, p);
      if o in a && p in a && o < p && o != ff && o != nff {
        assert a[o] == recs[o];
      }
    }
  }

  /** After a splice of `x` at `k`, every USED record is on the longer list. */
  lemma SpliceUsedListed(recs: map<U32, Entry>, order: seq<U32>, k: nat, x: U32, r: map<U32, Entry>)
    requires UsedListed(recs, order) && k <= |order| && recs.Keys <= r.Keys
    requires forall p :: p in r && p !in recs ==> r[p].tag != USED_TAG
    requires forall p :: p in recs && p != x ==> r[p].tag == recs[p].tag
    ensures UsedListed(r, order[..k] + [x] + order[k..])
  {
    var o := order[..k] + [x] + order[k..];
    forall p | p in r && r[p].tag == USED_TAG ensures p in Offsets(o) {
      OffsetsIn(o, p);
      if p != x {
        OffsetsIn(order, p);
        var m :| 0 <= m < |order| && order[m] == p;
        if m < k {
          assert o[m] == p;
        } else {
          assert o[m + 1] == p;
        }
      } else {
        assert o[k] == x;
      }
    }
  }

  /** After unlinking position `k`, every USED record is on the shorter list. */
  lemma UnlinkUsedListed(recs: map<U32, Entry>, order: seq<U32>, k: nat, r: map<U32, Entry>)
    requires UsedListed(recs, order) && k < |order|
    requires r.Keys == recs.Keys && order[k] in recs
    requires forall p :: p in recs && p != order[k] ==> r[p].tag == recs[p].tag
    requires r[order[k]].tag == FREE_TAG
    ensures UsedListed(r, order[..k] + order[k + 1..])
  {
    var o := order[..k] + order[k + 1..];
    forall p | p in r && r[p].tag == USED_TAG ensures p in Offsets(o) {
      OffsetsIn(o, p);
      OffsetsIn(order, p);
      var m :| 0 <= m < |order| && order[m] == p;
      assert m != k;
      if m < k {
        assert o[m] == p;
      } else {
        assert o[m - 1] == p;
      }
    }
  }

  /** The list after a successful add: `s` at position `k`. */
  lemma AddChain(ff: U32, first: U32, recs: map<U32, Entry>,
                 order: seq<U32>, contents: seq<CStr>, s: CStr, k: nat)
    requires Layout(recs, ff) && Chain(recs, first, order, contents)
    requires recs[ff].len >= EntrySize(s)
    requires k <= |order|
    ensures Chain(Splice(Allocate(recs, ff, s), order, k, ff), if k == 0 then ff else first,
                  order[..k] + [ff] + order[k..], contents[..k] + [s] + contents[k..])
  {
    var a := Allocate(recs, ff, s);
    assert AdvancedFree(ff, s) !in recs;
    forall i | 0 <= i < |order| ensures order[i] in a && a[order[i]] == recs[order[i]] {
      assert ChainEntry(recs, order, contents, i);
    }
    ChainFrame(recs, a, first, order, contents);
    ChainSplice(a, first, order, contents, k, ff, s);
  }

  /** The layout after a successful add: the new free block is above every other record. */
  lemma AddLayout(ff: U32, recs: map<U32, Entry>, order: seq<U32>, s: CStr, k: nat)
    requires Layout(recs, ff) && recs[ff].len >= EntrySize(s)
    requires k <= |order|
    requires forall i :: 0 <= i < |order| ==> order[i] in recs && order[i] != ff
    ensures Layout(Splice(Allocate(recs, ff, s), order, k, ff), AdvancedFree(ff, s) as U32)
  {
    var a := Allocate(recs, ff, s);
    AllocateLayout(recs, ff, s);
    SpliceOnlyLinks(a, order, k, ff);
    LayoutIgnoresLinks(a, Splice(a, order, k, ff), AdvancedFree(ff, s) as U32);
  }

  /** After a successful add, the USED records are those of the longer list. */
  lemma AddUsedListed(ff: U32, recs: map<U32, Entry>, order: seq<U32>, s: CStr, k: nat)
    requires Layout(recs, ff) && recs[ff].len >= EntrySize(s) && UsedListed(recs, order)
    requires k <= |order|
    requires forall i :: 0 <= i < |order| ==> order[i] in recs && order[i] != ff
    ensures UsedListed(Splice(Allocate(recs, ff, s), order, k, ff), order[..k] + [ff] + order[k..])
  {
    var a := Allocate(recs, ff, s);
    SpliceOnlyLinks(a, order, k, ff);
    SpliceUsedListed(recs, order, k, ff, Splice(a, order, k, ff));
  }

  /**
   * A successful add keeps the invariant: the string goes to the position
   * `k` the walk stops at, which is where `InsertBefore` puts it.
   */
  lemma AddKeepsInv(magic: U32, ff: U32, first: U32, recs: map<U32, Entry>,
                    order: seq<U32>, contents: seq<CStr>, s: CStr, k: nat)
    requires Inv(magic, ff, first, recs, order, contents)
    requires recs[ff].len >= EntrySize(s)
    requires k == InsertPos(contents, s)
    ensures Inv(magic, AdvancedFree(ff, s) as U32, if k == 0 then ff else first,
                Splice(Allocate(recs, ff, s), order, k, ff),
                order[..k] + [ff] + order[k..], InsertBefore(contents, s))
  {
    forall i | 0 <= i < |order| ensures order[i] in recs && order[i] != ff {
      assert ChainEntry(recs, order, contents, i);
    }
    AddChain(ff, first, recs, order, contents, s, k);
    InsertBeforeAt(contents, s, k);
    InsertBeforeSorted(contents, s);
    AddLayout(ff, recs, order, s, k);
    AddUsedListed(ff, recs, order, s, k);
  }

  /** A successful delete keeps the invariant. */
  lemma DeleteKeepsInv(magic: U32, ff: U32, first: U32, recs: map<U32, Entry>,
                       order: seq<U32>, contents: seq<CStr>, k: nat)
    requires Inv(magic, ff, first, recs, order, contents)
    requires k < |order|
    ensures Inv(magic, ff, if k == 0 then recs[order[0]].next else first,
                Unlink(recs, order, k), order[..k] + order[k + 1..], contents[..k] + contents[k + 1..])
  {
    ChainUnlink(recs, first, order, contents, k);
    RemoveAtSorted(contents, k);
    UnlinkOnlyLinks(recs, order, k);
    var r := Unlink(recs, order, k);
    assert ChainEntry(recs, order, contents, k);
    LayoutIgnoresLinks(recs, r, ff);
    UnlinkUsedListed(recs, order, k, r);
  }

  /** Carving leaves the list where it was: the two written offsets are not on it. */
  lemma AllocateChain(ff: U32, first: U32, recs: map<U32, Entry>,
                      order: seq<U32>, contents: seq<CStr>, s: CStr)
    requires Layout(recs, ff) && Chain(recs, first, order, contents)
    requires recs[ff].len >= EntrySize(s)
    ensures Chain(Allocate(recs, ff, s), first, order, contents)
    ensures ff != 0 && ff in Allocate(recs, ff, s) && ff !in order
  {
    var a := Allocate(recs, ff, s);
    assert AdvancedFree(ff, s) !in recs;
    forall i | 0 <= i < |order| ensures order[i] in a && a[order[i]] == recs[order[i]] {
      assert ChainEntry(recs, order, contents, i);
    }
    ChainFrame(recs, a, first, order, contents);
  }

  /**
   * What a successful add writes: the new USED record at the old cursor,
   * a FREE block after it, `next` fields of list records, and nothing else.
   */
  lemma AddEffect(ff: U32, recs: map<U32, Entry>, order: seq<U32>, s: CStr, k: nat)
    requires Layout(recs, ff) && recs[ff].len >= EntrySize(s)
    requires k <= |order|
    requires forall i :: 0 <= i < |order| ==> order[i] in recs && order[i] != ff
    ensures var r := Splice(Allocate(recs, ff, s), order, k, ff);
            var nff := AdvancedFree(ff, s) as U32;
            && r[ff].tag == USED_TAG && r[ff].len == |s| + 1 && r[ff].str == s
            && r[nff].tag == FREE_TAG && r[nff].len == recs[ff].len - EntrySize(s)
            && FreeEnd(r, nff) == FreeEnd(recs, ff) - (MIN_ENTRY_SIZE - POINTER_SIZE)
            && r.Keys == recs.Keys + {nff}
            && (forall o :: o in recs && o != ff ==> r[o].(next := 0) == recs[o].(next := 0))
            && (forall o :: o in recs && o != ff && o !in order ==> r[o] == recs[o])
  {
    var a := Allocate(recs, ff, s);
    assert AdvancedFree(ff, s) !in recs;
    SpliceOnlyLinks(a, order, k, ff);
  }

  /** What a successful delete writes: the unlinked record, a `next` before it, nothing else. */
  lemma DeleteEffect(recs: map<U32, Entry>, first: U32, order: seq<U32>, contents: seq<CStr>, k: nat)
    requires Chain(recs, first, order, contents) && k < |order|
    ensures var r := Unlink(recs, order, k);
            && r[order[k]] == recs[order[k]].(tag := FREE_TAG, next := 0)
            && r.Keys == recs.Keys
            && (forall o :: o in recs && o != order[k] ==> r[o].(next := 0) == recs[o].(next := 0))
            && (forall o :: o in recs && o !in order ==> r[o] == recs[o])
  {
    UnlinkValues(recs, order, contents, first, k);
  }
}
