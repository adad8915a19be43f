/** A bounded list of the best-scoring entries seen so far (buccaneer-lib.h,
    class Score_list).  Entries are (score, data) pairs kept in ascending order
    of score, so the best (lowest) score comes first; when the list is full a
    better entry evicts the current worst, which is always the last one. */
module ScoreList {

  /** Scores never decrease along the list. */
  ghost predicate Sorted<T>(l: seq<(real, T)>) {
    forall i, j :: 0 <= i < j < |l| ==> l[i].0 <= l[j].0
  }

  /** Whether a score is good enough to enter a list of capacity `max`: there is
      room, or it beats the worst stored score; on a full sorted list that is
      the same as beating some stored score.  (On an empty list of capacity 0
      the source reads the last element of an empty vector; here that score is
      simply not admitted.) */
  predicate AddableTo<T>(l: seq<(real, T)>, max: nat, scr: real): (b: bool)
    ensures |l| < max ==> b
    ensures Sorted(l) && max <= |l| ==> (b <==> exists i :: 0 <= i < |l| && scr < l[i].0)
  {
    |l| < max || (|l| > 0 && scr < l[|l| - 1].0)
  }

  /** The slot where the backward scan of `add` inserts a new score: just after
      the last entry whose score is strictly smaller, so a new score goes in
      front of every entry with an equal score. */
  function Slot<T>(l: seq<(real, T)>, scr: real): (k: nat)
    ensures k <= |l|
    ensures forall j :: k <= j < |l| ==> scr <= l[j].0
    ensures k > 0 ==> l[k - 1].0 < scr
  {
    if |l| == 0 then 0
    else if scr > l[|l| - 1].0 then |l|
    else Slot(l[..|l| - 1], scr)
  }

  /** The list that remains once the worst entry has made room, if it had to. */
  function Kept<T>(l: seq<(real, T)>, max: nat): seq<(real, T)>
    requires |l| <= max
    requires |l| == max ==> |l| > 0
  {
    if |l| >= max then l[..|l| - 1] else l
  }

  /** The list after an admitted `add`. */
  function Admitted<T>(l: seq<(real, T)>, max: nat, scr: real, data: T): seq<(real, T)>
    requires |l| <= max && AddableTo(l, max, scr)
  {
    var kept := Kept(l, max);
    var k := Slot(kept, scr);
    kept[..k] + [(scr, data)] + kept[k..]
  }

  /** The backward scan of `add`: the index of the last entry whose score is
      strictly below `scr`, or -1 when there is none. */
  method ScanDown<T>(l: seq<(real, T)>, scr: real) returns (i: int)
    ensures -1 <= i < |l|
    ensures i >= 0 ==> l[i].0 < scr
    ensures forall j :: i < j < |l| ==> scr <= l[j].0
  {
    i := |l| - 1;
    while i >= 0
      invariant -1 <= i < |l|
      invariant forall j :: i < j < |l| ==> scr <= l[j].0
    {
      if scr > l[i].0 {
        break;
      }
      i := i - 1;
    }
  }

  /** The scan stops exactly at the slot `Admitted` uses. */
  lemma ScanDownIsSlot<T>(l: seq<(real, T)>, scr: real, i: int)
    requires -1 <= i < |l|
    requires i >= 0 ==> l[i].0 < scr
    requires forall j :: i < j < |l| ==> scr <= l[j].0
    ensures Slot(l, scr) == i + 1
  {
  }

  /** Inserting x at a slot that sits after every smaller score and before
      every score at least as large keeps a sorted list sorted. */
  lemma SortedInsert<T>(l: seq<(real, T)>, k: nat, x: (real, T))
    requires Sorted(l) && k <= |l|
    requires k > 0 ==> l[k - 1].0 < x.0
    requires forall j :: k <= j < |l| ==> x.0 <= l[j].0
    ensures Sorted(l[..k] + [x] + l[k..])
  {
    var r := l[..k] + [x] + l[k..];
    forall i, j | 0 <= i < j < |r| ensures r[i].0 <= r[j].0 {
      if j < k {
        assert r[i] == l[i] && r[j] == l[j];
      } else if j == k {
        assert r[i] == l[i];
        assert l[i].0 <= l[k - 1].0;
      } else if i < k {
        assert r[i] == l[i] && r[j] == l[j - 1];
      } else if i == k {
        assert r[j] == l[j - 1];
      } else {
        assert r[i] == l[i - 1] && r[j] == l[j - 1];
      }
    }
  }

  /** An admitted add keeps the scores in order. */
  lemma AdmittedSorted<T>(l: seq<(real, T)>, max: nat, scr: real, data: T)
    requires |l| <= max && AddableTo(l, max, scr) && Sorted(l)
    ensures Sorted(Admitted(l, max, scr, data))
  {
    var kept := Kept(l, max);
    assert Sorted(kept);
    SortedInsert(kept, Slot(kept, scr), (scr, data));
  }

  /** An admitted add never takes the list past its capacity: it grows by one
      while there is room and otherwise keeps its length. */
  lemma AdmittedLength<T>(l: seq<(real, T)>, max: nat, scr: real, data: T)
    requires |l| <= max && AddableTo(l, max, scr)
    ensures |Admitted(l, max, scr, data)| == if |l| < max then |l| + 1 else |l|
    ensures |Admitted(l, max, scr, data)| <= max
  {
  }

  /** Inserting x anywhere adds exactly x to the multiset of entries. */
  lemma InsertMultiset<T>(l: seq<(real, T)>, k: nat, x: (real, T))
    requires k <= |l|
    ensures multiset(l[..k] + [x] + l[k..]) == multiset(l) + multiset{x}
  {
    assert l == l[..k] + l[k..];
  }

  /** As a multiset, an admitted add inserts the new pair and, on a full list,
      removes the previous last (worst) pair. */
  lemma AdmittedContents<T>(l: seq<(real, T)>, max: nat, scr: real, data: T)
    requires |l| <= max && AddableTo(l, max, scr)
    ensures |l| == max ==>
      multiset(Admitted(l, max, scr, data)) == multiset(l) - multiset{l[|l| - 1]} + multiset{(scr, data)}
    ensures |l| < max ==>
      multiset(Admitted(l, max, scr, data)) == multiset(l) + multiset{(scr, data)}
  {
    var kept := Kept(l, max);
    InsertMultiset(kept, Slot(kept, scr), (scr, data));
    if |l| == max {
      assert l == kept + [l[|l| - 1]];
    }
  }

  /** Where each entry ends up when x is inserted at slot k. */
  lemma InsertIndexing<T>(l: seq<(real, T)>, k: nat, x: (real, T))
    requires k <= |l|
    ensures var r := l[..k] + [x] + l[k..];
      |r| == |l| + 1 && r[k] == x &&
      (forall j :: 0 <= j < k ==> r[j] == l[j]) &&
      (forall j :: k < j < |r| ==> r[j] == l[j - 1])
  {
  }

  /** The new entry lands in front of every stored entry with an equal or larger
      score, and behind every entry with a strictly smaller one. */
  lemma AdmittedPlacesNewFirstAmongEquals<T>(l: seq<(real, T)>, max: nat, scr: real, data: T)
    requires |l| <= max && AddableTo(l, max, scr) && Sorted(l)
    ensures var r := Admitted(l, max, scr, data);
      exists k :: 0 <= k < |r| && r[k] == (scr, data) &&
        (forall j :: 0 <= j < k ==> r[j].0 < scr) &&
        (forall j :: k < j < |r| ==> scr <= r[j].0)
  {
    var kept := Kept(l, max);
    var k := Slot(kept, scr);
    var r := Admitted(l, max, scr, data);
    InsertIndexing(kept, k, (scr, data));
    assert Sorted(kept);
    forall j | 0 <= j < k ensures r[j].0 < scr {
      assert kept[j].0 <= kept[k - 1].0;
    }
    assert r[k] == (scr, data);
  }

  /** The steps of `add` (evict, scan, insert) build exactly `Admitted`, and
      the result is again a valid list. */
  lemma AddIsAdmitted<T>(l: seq<(real, T)>, max: nat, scr: real, data: T, kept: seq<(real, T)>, i: int)
    requires |l| <= max && AddableTo(l, max, scr) && Sorted(l)
    requires kept == if |l| >= max then l[..|l| - 1] else l
    requires -1 <= i < |kept|
    requires i >= 0 ==> kept[i].0 < scr
    requires forall j :: i < j < |kept| ==> scr <= kept[j].0
    ensures kept[..i + 1] + [(scr, data)] + kept[i + 1..] == Admitted(l, max, scr, data)
    ensures |Admitted(l, max, scr, data)| <= max && Sorted(Admitted(l, max, scr, data))
  {
    ScanDownIsSlot(kept, scr, i);
    AdmittedSorted(l, max, scr, data);
    AdmittedLength(l, max, scr, data);
  }

  class ScoreList<T> {
    var max: nat
    var list: seq<(real, T)>

    /** The list never holds more than `max` entries and is kept in order. */
    ghost predicate Valid()
      reads this
    {
      |list| <= max && Sorted(list)
    }

    /** A list of capacity n (the sized constructor). */
    constructor (n: nat)
      ensures Valid() && max == n && list == []
    {
      max := n;
      list := [];
    }

    /** Empties the list and sets its capacity. */
    method Init(n: nat)
      modifies this
      ensures Valid() && max == n && list == []
    {
      max := n;
      list := [];
    }

    /** Is a score good enough to be added?  Always when there is room; on a
        full list exactly when it beats the last stored score, which
        (AddableTo) on a sorted list is the same as beating any of them. */
    predicate Addable(scr: real): (b: bool)
      reads this
      ensures |list| < max ==> b
      ensures max <= |list| ==> (b <==> |list| > 0 && scr < list[|list| - 1].0)
    {
      AddableTo(list, max, scr)
    }

    /** Adds a score and its data if the score is good enough, evicting the
        worst entry when the list is full. */
    method Add(scr: real, data: T)
      requires Valid()
      modifies this
      ensures Valid() && max == old(max)
      ensures old(Addable(scr)) ==> list == Admitted(old(list), max, scr, data)
      ensures !old(Addable(scr)) ==> list == old(list)
    {
      if Addable(scr) {
        var kept := list;
        if |kept| >= max {
          kept := kept[..|kept| - 1];
        }
        var i := ScanDown(kept, scr);
        AddIsAdmitted(list, max, scr, data, kept, i);
        list := kept[..i + 1] + [(scr, data)] + kept[i + 1..];
      }
    }

    /** Deletes entry i, keeping the others in order. */
    method Del(i: nat)
      requires Valid() && i < |list|
      modifies this
      ensures Valid() && max == old(max)
      ensures list == old(list)[..i] + old(list)[i + 1..]
    {
      ghost var before := list;
      list := list[..i] + list[i + 1..];
      forall a, b | 0 <= a < b < |list| ensures list[a].0 <= list[b].0 {
        var a' := if a < i then a else a + 1;
        var b' := if b < i then b else b + 1;
        assert list[a] == before[a'] && list[b] == before[b'];
      }
    }

    /** The score of entry i: no entry after it scores lower. */
    function Score(i: nat): (s: real)
      reads this
      requires i < |list|
      ensures Valid() ==> forall j :: i <= j < |list| ==> s <= list[j].0
    {
      list[i].0
    }

    /** The data stored with the score of entry i. */
    function Get(i: nat): (d: T)
      reads this
      requires i < |list|
      ensures (Score(i), d) == list[i]
    {
      list[i].1
    }

    /** The number of entries, never above the capacity. */
    function Size(): (n: nat)
      reads this
      ensures Valid() ==> n <= max
      ensures n == |list|
    {
      |list|
    }
  }
}
