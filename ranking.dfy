/** Stable ascending sort by a key, as Python's `sorted(xs, key=k)` does it:
    positions are ordered by key, and positions with equal keys keep their
    original order. The sort is stated on positions 0..n-1 of a key list;
    `Permute` then reorders the list itself. */
module Ranking {

  /** Position a comes before position b in the stable ascending order. */
  predicate Before(keys: seq<real>, a: nat, b: nat)
  {
    a < |keys| && b < |keys| && (keys[a] < keys[b] || (keys[a] == keys[b] && a < b))
  }

  predicate InRange(keys: seq<real>, r: seq<nat>)
  {
    forall i :: 0 <= i < |r| ==> r[i] < |keys|
  }

  /** r lists positions in the stable ascending order, stated on
      neighbours: keys never decrease and equal keys appear in position
      order. */
  predicate Ranked(keys: seq<real>, r: seq<nat>)
  {
    InRange(keys, r) && forall i, j :: 0 <= i && j == i + 1 < |r| ==> Before(keys, r[i], r[j])
  }

  /** Inserts position x in front of the first entry of r it comes before. */
  function Insert(keys: seq<real>, r: seq<nat>, x: nat): seq<nat>
  {
    if r == [] then [x]
    else if Before(keys, x, r[0]) then [x] + r
    else [r[0]] + Insert(keys, r[1..], x)
  }

  /** The stable ascending order of positions 0..n-1, built by inserting
      each position in turn. */
  function SortIndices(keys: seq<real>, n: nat): seq<nat>
  {
    if n == 0 then [] else Insert(keys, SortIndices(keys, n - 1), n - 1)
  }

  /** The inserted position lands between two unchanged parts of r. */
  lemma {:induction false} InsertPosition(keys: seq<real>, r: seq<nat>, x: nat) returns (k: nat)
    ensures k <= |r| && Insert(keys, r, x) == r[..k] + [x] + r[k..]
  {
    if r == [] || Before(keys, x, r[0]) {
      k := 0;
    } else {
      var k' := InsertPosition(keys, r[1..], x);
      k := k' + 1;
      SpliceBehindHead(r, k', x);
    }
  }

  /** Splicing x into the tail of r at k is splicing it into r at k+1. */
  lemma SpliceBehindHead(r: seq<nat>, k: nat, x: nat)
    requires k < |r|
    ensures [r[0]] + (r[1..][..k] + [x] + r[1..][k..]) == r[..k + 1] + [x] + r[k + 1..]
  {
    assert r[..k + 1] == [r[0]] + r[1..][..k];
    assert r[1..][k..] == r[k + 1..];
  }

  lemma RankedTail(keys: seq<real>, r: seq<nat>)
    requires Ranked(keys, r) && r != []
    ensures Ranked(keys, r[1..])
  {
    var t := r[1..];
    forall i, j | 0 <= i && j == i + 1 < |t|
      ensures Before(keys, t[i], t[j])
    {
      assert t[i] == r[i + 1] && t[j] == r[j + 1];
    }
  }

  lemma RankedCons(keys: seq<real>, x: nat, t: seq<nat>)
    requires Ranked(keys, t) && x < |keys| && (t != [] ==> Before(keys, x, t[0]))
    ensures Ranked(keys, [x] + t)
  {
    var s := [x] + t;
    forall i, j | 0 <= i && j == i + 1 < |s|
      ensures Before(keys, s[i], s[j])
    {
      if i > 0 {
        assert s[i] == t[i - 1] && s[j] == t[j - 1];
      }
    }
  }

  /** Insertion adds exactly x, one entry longer, and puts at the front
      either x or the old front. */
  lemma {:induction false} InsertContents(keys: seq<real>, r: seq<nat>, x: nat)
    ensures |Insert(keys, r, x)| == |r| + 1
    ensures forall k :: k in Insert(keys, r, x) <==> k in r || k == x
    ensures Insert(keys, r, x)[0] == x || (r != [] && Insert(keys, r, x)[0] == r[0])
  {
    if r != [] && !Before(keys, x, r[0]) {
      InsertContents(keys, r[1..], x);
      assert r == [r[0]] + r[1..];
    }
  }

  /** Inserting a new position into a ranked list keeps it ranked. */
  lemma {:induction false} InsertRanked(keys: seq<real>, r: seq<nat>, x: nat)
    requires Ranked(keys, r) && x < |keys| && x !in r
    ensures Ranked(keys, Insert(keys, r, x))
  {
    if r == [] {
    } else if Before(keys, x, r[0]) {
      RankedCons(keys, x, r);
    } else {
      var u := r[1..];
      RankedTail(keys, r);
      InsertRanked(keys, u, x);
      var t := Insert(keys, u, x);
      InsertContents(keys, u, x);
      assert Before(keys, r[0], t[0]) by {
        if t[0] != x {
          assert t[0] == r[1];
        }
      }
      RankedCons(keys, r[0], t);
    }
  }

  /** The sort lists every position below n exactly once, in the stable
      ascending order. */
  lemma {:induction false} SortIndicesRanked(keys: seq<real>, n: nat)
    requires n <= |keys|
    ensures |SortIndices(keys, n)| == n && Ranked(keys, SortIndices(keys, n))
    ensures forall k :: k in SortIndices(keys, n) <==> 0 <= k < n
  {
    if n > 0 {
      var t := SortIndices(keys, n - 1);
      var last: nat := n - 1;
      SortIndicesRanked(keys, n - 1);
      InsertRanked(keys, t, last);
      InsertContents(keys, t, last);
    }
  }

  /** The sort only lists positions of keys. */
  lemma SortIndicesInRange(keys: seq<real>, n: nat)
    requires n <= |keys|
    ensures InRange(keys, SortIndices(keys, n))
  {
    SortIndicesRanked(keys, n);
  }

  /** Ordering neighbours orders every pair, since Before is transitive. */
  lemma {:induction false} RankedPairwise(keys: seq<real>, r: seq<nat>)
    requires Ranked(keys, r)
    ensures forall i, j :: 0 <= i < j < |r| ==> Before(keys, r[i], r[j])
  {
    if |r| > 1 {
      var t := r[1..];
      RankedTail(keys, r);
      RankedPairwise(keys, t);
      forall i, j | 0 <= i < j < |r|
        ensures Before(keys, r[i], r[j])
      {
        if 0 < i {
          assert r[i] == t[i - 1] && r[j] == t[j - 1];
        } else if 1 < j {
          assert r[1] == t[0] && r[j] == t[j - 1];
        }
      }
    }
  }

  /** The sort is the stable ascending sort: every position below n appears
      exactly once, keys never decrease along the result, and positions with
      equal keys keep their original order. */
  lemma SortIndicesStable(keys: seq<real>, n: nat)
    requires n <= |keys|
    ensures var r := SortIndices(keys, n);
      && |r| == n && InRange(keys, r)
      && (forall k :: k in r <==> 0 <= k < n)
      && (forall i, j :: 0 <= i < j < n ==> keys[r[i]] <= keys[r[j]])
      && (forall i, j :: 0 <= i < j < n && keys[r[i]] == keys[r[j]] ==> r[i] < r[j])
  {
    SortIndicesRanked(keys, n);
    RankedPairwise(keys, SortIndices(keys, n));
  }

  /** Entry i of the result is s[order[i]]. */
  function Permute<T>(s: seq<T>, order: seq<nat>): seq<T>
    requires forall i :: 0 <= i < |order| ==> order[i] < |s|
  {
    seq(|order|, i requires 0 <= i < |order| => s[order[i]])
  }

  lemma PermuteAppend<T>(s: seq<T>, a: seq<nat>, b: seq<nat>)
    requires forall i :: 0 <= i < |a| ==> a[i] < |s|
    requires forall i :: 0 <= i < |b| ==> b[i] < |s|
    ensures Permute(s, a + b) == Permute(s, a) + Permute(s, b)
  {
  }

  /** Sorting n positions places position n-1 somewhere inside the sort
      of the first n-1 positions. */
  lemma SortIndicesSplit(keys: seq<real>, n: nat) returns (a: seq<nat>, b: seq<nat>)
    requires 0 < n <= |keys|
    ensures SortIndices(keys, n - 1) == a + b
    ensures SortIndices(keys, n) == a + [n - 1] + b
    ensures InRange(keys, a) && InRange(keys, b)
  {
    var t := SortIndices(keys, n - 1);
    var k := InsertPosition(keys, t, n - 1);
    SortIndicesRanked(keys, n - 1);
    a, b := t[..k], t[k..];
    SlicesInRange(keys, t, k);
    assert t == a + b;
  }

  lemma SlicesInRange(keys: seq<real>, t: seq<nat>, k: nat)
    requires InRange(keys, t) && k <= |t|
    ensures InRange(keys, t[..k]) && InRange(keys, t[k..])
  {
    assert forall i :: 0 <= i < |t| - k ==> t[k..][i] == t[k + i];
  }

  /** Sorting the first n positions of s reorders exactly s[..n]. */
  lemma {:induction false} SortedPermutation<T>(s: seq<T>, keys: seq<real>, n: nat)
    requires |keys| == |s| && n <= |s|
    ensures InRange(keys, SortIndices(keys, n))
    ensures multiset(Permute(s, SortIndices(keys, n))) == multiset(s[..n])
  {
    SortIndicesRanked(keys, n);
    if n > 0 {
      var front := s[..n - 1];
      assert s[..n] == front + [s[n - 1]];
      var a, b := SortIndicesSplit(keys, n);
      var last := [n - 1];
      PermuteAppend(s, a + last, b);
      PermuteAppend(s, a, last);
      PermuteAppend(s, a, b);
      assert Permute(s, last) == [s[n - 1]];
      SortedPermutation(s, keys, n - 1);
    }
  }
}
