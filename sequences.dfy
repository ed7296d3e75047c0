/** The operations of the id lists (System.Collections.Generic.List<string>)
    that a room node relies on, written over Dafny sequences. */
module Sequences {

  /** No element occurs twice. */
  predicate NoDuplicates<T(==)>(s: seq<T>) {
    forall i, j :: 0 <= i < j < |s| ==> s[i] != s[j]
  }

  /** The position of the first occurrence of x; a helper that the proofs
      use to locate a node or an id, not an operation of the source. */
  function IndexOf<T(==)>(s: seq<T>, x: T): (i: nat)
    requires x in s
    ensures i < |s| && s[i] == x && x !in s[..i]
  {
    if s[0] == x then 0
    else
      var j := IndexOf(s[1..], x);
      assert s[..j + 1] == [s[0]] + s[1..][..j];
      j + 1
  }

  /** List.Remove: drop the first occurrence of x; a list without x is
      returned as it is. */
  function RemoveFirst<T(==)>(s: seq<T>, x: T): (r: seq<T>)
    ensures x !in s ==> r == s
    ensures |r| == if x in s then |s| - 1 else |s|
  {
    if s == [] then []
    else if s[0] == x then s[1..]
    else [s[0]] + RemoveFirst(s[1..], x)
  }

  /** RemoveFirst applied n times. */
  function RemoveN<T(==)>(s: seq<T>, x: T, n: nat): seq<T> {
    if n == 0 then s else RemoveFirst(RemoveN(s, x, n - 1), x)
  }

  /** The elements of s that are not in ids, in their original order. */
  function KeepAbsent<T(==,!new)>(s: seq<T>, ids: seq<T>): (r: seq<T>)
    ensures forall y :: y in r <==> y in s && y !in ids
    ensures |r| <= |s|
  {
    if s == [] then []
    else if s[0] in ids then KeepAbsent(s[1..], ids)
    else [s[0]] + KeepAbsent(s[1..], ids)
  }

  /** Removing one occurrence of x takes exactly one x out of the multiset
      and leaves every other element as often as it was. */
  lemma {:induction false} RemoveFirstMultiset<T>(s: seq<T>, x: T)
    requires x in s
    ensures multiset(RemoveFirst(s, x)) == multiset(s) - multiset{x}
  {
    assert s == [s[0]] + s[1..];
    if s[0] != x {
      RemoveFirstMultiset(s[1..], x);
    }
  }

  /** Removing an id that is present in ids does not disturb the absent
      ones. */
  lemma {:induction false} KeepAbsentRemoveFirst<T(!new)>(s: seq<T>, x: T, ids: seq<T>)
    requires x in ids
    ensures KeepAbsent(RemoveFirst(s, x), ids) == KeepAbsent(s, ids)
  {
    if s != [] && s[0] != x {
      KeepAbsentRemoveFirst(s[1..], x, ids);
      assert RemoveFirst(s, x) == [s[0]] + RemoveFirst(s[1..], x);
      assert RemoveFirst(s, x)[1..] == RemoveFirst(s[1..], x);
    }
  }

  /** A list made only of absent ids is kept whole. */
  lemma {:induction false} KeepAbsentAll<T(!new)>(s: seq<T>, ids: seq<T>)
    requires forall m :: 0 <= m < |s| ==> s[m] !in ids
    ensures KeepAbsent(s, ids) == s
  {
    if s != [] {
      KeepAbsentAll(s[1..], ids);
    }
  }

  /** A list made only of present ids keeps nothing. */
  lemma KeepAbsentNone<T(!new)>(s: seq<T>, ids: seq<T>)
    requires forall y :: y in s ==> y in ids
    ensures KeepAbsent(s, ids) == []
  {
  }

  /** Removing n occurrences from the empty list leaves it empty. */
  lemma {:induction false} RemoveNEmpty<T>(x: T, n: nat)
    ensures RemoveN([], x, n) == []
  {
    if n > 0 {
      RemoveNEmpty(x, n - 1);
    }
  }

  /** In a list without duplicates an element occurs once or not at all. */
  lemma {:induction false} NoDuplicatesCount<T>(s: seq<T>, x: T)
    requires NoDuplicates(s)
    ensures multiset(s)[x] == if x in s then 1 else 0
  {
    if s != [] {
      assert s == [s[0]] + s[1..];
      NoDuplicatesCount(s[1..], x);
    }
  }

  /** Appending an element that was absent and then removing it gives back the
      original list: Remove undoes Add. */
  lemma {:induction false} RemoveFirstAfterAppend<T>(s: seq<T>, x: T)
    requires x !in s
    ensures RemoveFirst(s + [x], x) == s
  {
    if s != [] {
      assert (s + [x])[1..] == s[1..] + [x];
      RemoveFirstAfterAppend(s[1..], x);
    }
  }

  /** Position m of RemoveFirst(s, x): the entries before the first x stay
      where they were, the later ones move one place to the front. */
  lemma {:induction false} RemoveFirstAt<T>(s: seq<T>, x: T, m: nat)
    requires x in s && m < |s| - 1
    ensures RemoveFirst(s, x)[m] == if m < IndexOf(s, x) then s[m] else s[m + 1]
  {
    if s[0] != x && m > 0 {
      RemoveFirstAt(s[1..], x, m - 1);
    }
  }

  /** Removing an element keeps a list free of duplicates. */
  lemma RemoveFirstNoDuplicates<T>(s: seq<T>, x: T)
    requires NoDuplicates(s)
    ensures NoDuplicates(RemoveFirst(s, x))
    ensures x !in RemoveFirst(s, x)
  {
    if x in s {
      var r := RemoveFirst(s, x);
      forall a, b | 0 <= a < b < |r| ensures r[a] != r[b] {
        RemoveFirstAt(s, x, a);
        RemoveFirstAt(s, x, b);
      }
      forall m | 0 <= m < |r| ensures r[m] != x {
        RemoveFirstAt(s, x, m);
      }
    }
  }

  /** Removing s[i] (by value) from a list whose tail after i holds only
      absent ids leaves a list whose tail from i on holds only absent ids. */
  lemma RemoveFirstSuffix<T>(s: seq<T>, i: nat, ids: seq<T>)
    requires i < |s| && forall m :: i < m < |s| ==> s[m] !in ids
    ensures |RemoveFirst(s, s[i])| == |s| - 1
    ensures forall m :: i <= m < |RemoveFirst(s, s[i])| ==> RemoveFirst(s, s[i])[m] !in ids
  {
    var q := IndexOf(s, s[i]);
    assert q <= i;
    var r := RemoveFirst(s, s[i]);
    forall m | i <= m < |r| ensures r[m] !in ids {
      RemoveFirstAt(s, s[i], m);
    }
  }
}
