/**
 * What the bag's list holds, as a sequence of strings in list order:
 * non-decreasing under `strcmp`, with duplicates kept. `InsertBefore` is
 * the insertion rule of `addElement` and `RemoveFirst` the removal rule of
 * `deleteElement`, both stated on the sequence alone.
 */
module SortedList {
  import opened CStrings

  /** Non-decreasing under `strcmp`. */
  ghost predicate Sorted(s: seq<CStr>)
  {
    forall i, j {:trigger StrCmp(s[i], s[j])} :: 0 <= i < j < |s| ==> StrCmp(s[i], s[j]) <= 0
  }

  /**
   * `x` placed before the first element `e` with `strcmp(x, e) <= 0`, or
   * at the end when there is none; an equal element already present stays
   * after the new one.
   */
  function InsertBefore(s: seq<CStr>, x: CStr): (r: seq<CStr>)
    ensures |r| == |s| + 1
  {
    if s == [] then [x]
    else if StrCmp(x, s[0]) <= 0 then [x] + s
    else [s[0]] + InsertBefore(s[1..], x)
  }

  /**
   * Where `InsertBefore` puts `x`: after every element that sorts strictly
   * below it, and before the first one that does not.
   */
  function InsertPos(s: seq<CStr>, x: CStr): (k: nat)
    ensures k <= |s|
    ensures forall j :: 0 <= j < k ==> StrCmp(x, s[j]) > 0
    ensures k < |s| ==> StrCmp(x, s[k]) <= 0
  {
    if s == [] || StrCmp(x, s[0]) <= 0 then 0 else 1 + InsertPos(s[1..], x)
  }

  /** The index of the first occurrence of `x` in `s`. */
  function IndexOf(s: seq<CStr>, x: CStr): (k: nat)
    requires x in s
    ensures k < |s| && s[k] == x
    ensures forall j :: 0 <= j < k ==> s[j] != x
  {
    if s[0] == x then 0 else 1 + IndexOf(s[1..], x)
  }

  /** `s` without its first occurrence of `x`, or `s` itself when `x` is absent. */
  function RemoveFirst(s: seq<CStr>, x: CStr): (r: seq<CStr>)
    ensures x in s ==> |r| == |s| - 1
    ensures x !in s ==> |r| == |s|
  {
    if s == [] then []
    else if s[0] == x then s[1..]
    else [s[0]] + RemoveFirst(s[1..], x)
  }

  /**
   * The position the two-runner walk of `addElement` stops at is the one
   * `InsertBefore` chooses: every element before it sorts strictly below
   * `x`, and the element at it (if any) does not.
   */
  lemma {:induction false} InsertBeforeAt(s: seq<CStr>, x: CStr, k: nat)
    requires k <= |s|
    requires forall j :: 0 <= j < k ==> StrCmp(x, s[j]) > 0
    requires k < |s| ==> StrCmp(x, s[k]) <= 0
    ensures InsertBefore(s, x) == s[..k] + [x] + s[k..]
  {
    if k == 0 {
      assert s[..0] + [x] + s[0..] == [x] + s;
    } else {
      InsertBeforeAt(s[1..], x, k - 1);
      assert s[..k] + [x] + s[k..] == [s[0]] + (s[1..][..k - 1] + [x] + s[1..][k - 1..]);
    }
  }

  /** Inserting adds exactly one copy of `x` and loses nothing. */
  lemma {:induction false} InsertBeforeMultiset(s: seq<CStr>, x: CStr)
    ensures multiset(InsertBefore(s, x)) == multiset(s) + multiset{x}
  {
    if s != [] && StrCmp(x, s[0]) > 0 {
      InsertBeforeMultiset(s[1..], x);
      assert s == [s[0]] + s[1..];
    }
  }

  /** A string no greater than every element of a sorted list may go in front of it. */
  lemma SortedCons(h: CStr, t: seq<CStr>)
    requires Sorted(t)
    requires forall j :: 0 <= j < |t| ==> StrCmp(h, t[j]) <= 0
    ensures Sorted([h] + t)
  {
    var r := [h] + t;
    forall i, j | 0 <= i < j < |r| ensures StrCmp(r[i], r[j]) <= 0 {
      assert r[j] == t[j - 1];
      if i > 0 {
        assert r[i] == t[i - 1];
      }
    }
  }

  /** Inserting into a sorted list keeps it sorted. */
  lemma {:induction false} InsertBeforeSorted(s: seq<CStr>, x: CStr)
    requires Sorted(s)
    ensures Sorted(InsertBefore(s, x))
  {
    if s == [] {
    } else if StrCmp(x, s[0]) <= 0 {
      forall j | 0 <= j < |s| ensures StrCmp(x, s[j]) <= 0 {
        if j > 0 {
          StrCmpTransitive(x, s[0], s[j]);
        }
      }
      SortedCons(x, s);
    } else {
      var t := InsertBefore(s[1..], x);
      InsertBeforeSorted(s[1..], x);
      InsertBeforeMultiset(s[1..], x);
      forall j | 0 <= j < |t| ensures StrCmp(s[0], t[j]) <= 0 {
        assert t[j] in multiset(t);
        assert t[j] in multiset(s[1..]) || t[j] == x;
        if t[j] == x {
          StrCmpAntisymmetric(x, s[0]);
        } else {
          var m :| 0 <= m < |s[1..]| && s[1..][m] == t[j];
          assert StrCmp(s[0], s[m + 1]) <= 0;
        }
      }
      SortedCons(s[0], t);
    }
  }

  /** Removing the first occurrence of `x` loses exactly one copy of it. */
  lemma {:induction false} RemoveFirstMultiset(s: seq<CStr>, x: CStr)
    ensures multiset(RemoveFirst(s, x)) == multiset(s) - multiset{x}
  {
    if s != [] {
      assert s == [s[0]] + s[1..];
      if s[0] != x {
        RemoveFirstMultiset(s[1..], x);
      }
    }
  }

  /** Removing from a list unlinks the first equal element and keeps the rest in order. */
  lemma {:induction false} RemoveFirstAt(s: seq<CStr>, x: CStr)
    requires x in s
    ensures RemoveFirst(s, x) == s[..IndexOf(s, x)] + s[IndexOf(s, x) + 1..]
  {
    if s[0] != x {
      RemoveFirstAt(s[1..], x);
      var k := IndexOf(s, x);
      assert s[..k] + s[k + 1..] == [s[0]] + (s[1..][..k - 1] + s[1..][k..]);
    }
  }

  /** Removing an absent string changes nothing. */
  lemma {:induction false} RemoveFirstAbsent(s: seq<CStr>, x: CStr)
    requires x !in s
    ensures RemoveFirst(s, x) == s
  {
    if s != [] {
      RemoveFirstAbsent(s[1..], x);
    }
  }

  /** Removing an element from a sorted list keeps it sorted. */
  lemma RemoveAtSorted(s: seq<CStr>, k: nat)
    requires Sorted(s) && k < |s|
    ensures Sorted(s[..k] + s[k + 1..])
  {
    var r := s[..k] + s[k + 1..];
    forall i, j | 0 <= i < j < |r| ensures StrCmp(r[i], r[j]) <= 0 {
      var i' := if i < k then i else i + 1;
      var j' := if j < k then j else j + 1;
      assert r[i] == s[i'] && r[j] == s[j'];
    }
  }
}
