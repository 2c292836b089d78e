/** Sequence operations behind parent selection: order-preserving
    deduplication (`list(dict.fromkeys(s))`), the slice `s[-n:]`, and the
    backfill loop that walks further down a ranking until the parent set
    has the requested size. */
module Selection {
  import opened Wrappers
  import opened Graph

  predicate Distinct<T(==)>(s: seq<T>)
  {
    forall i, j :: 0 <= i < j < |s| ==> s[i] != s[j]
  }

  function Elements<T>(s: seq<T>): set<T>
  {
    set x | x in s
  }

  /** A duplicate-free sequence has as many elements as entries. */
  lemma {:induction false} DistinctCard<T>(s: seq<T>)
    requires Distinct(s)
    ensures |Elements(s)| == |s|
  {
    if s != [] {
      var t := s[..|s| - 1];
      DistinctCard(t);
      assert Elements(s) == Elements(t) + {s[|s| - 1]};
      assert s[|s| - 1] !in Elements(t);
    }
  }

  /** A sequence has at most as many distinct elements as entries. */
  lemma {:induction false} ElementsCard<T>(s: seq<T>)
    ensures |Elements(s)| <= |s|
  {
    if s != [] {
      var t := s[..|s| - 1];
      ElementsCard(t);
      assert Elements(s) == Elements(t) + {s[|s| - 1]};
    }
  }

  lemma SubsetCard<T>(a: set<T>, b: set<T>)
    requires a <= b
    ensures |a| <= |b|
  {
    assert b == a + (b - a);
  }

  /** The first occurrence of an element of a prefix lies in that prefix. */
  lemma {:induction false} FirstIndexPrefix<T>(s: seq<T>, m: nat, x: T)
    requires m <= |s| && x in s[..m]
    ensures x in s && FirstIndex(s, x) == FirstIndex(s[..m], x)
  {
    var pre := s[..m];
    var k := FirstIndex(pre, x);
    assert pre[k] == s[k];
    var k' := FirstIndex(s, x);
    assert pre[k'] == s[k'];
  }

  /** Order-preserving deduplication (`list(dict.fromkeys(s))`): every
      element of s exactly once. */
  function Dedup<T(==)>(s: seq<T>): (r: seq<T>)
    ensures Distinct(r)
    ensures Elements(r) == Elements(s)
  {
    if s == [] then []
    else
      var t := s[..|s| - 1];
      var d := Dedup(t);
      assert Elements(s) == Elements(t) + {s[|s| - 1]};
      if s[|s| - 1] in d then d else d + [s[|s| - 1]]
  }

  /** Deduplication keeps first occurrences in their original order. */
  lemma {:induction false} DedupFirstOccurrenceOrder<T>(s: seq<T>)
    ensures forall i :: 0 <= i < |Dedup(s)| ==> Dedup(s)[i] in Elements(s)
    ensures forall i, j :: 0 <= i < j < |Dedup(s)| ==> FirstIndex(s, Dedup(s)[i]) < FirstIndex(s, Dedup(s)[j])
  {
    var r := Dedup(s);
    assert forall i :: 0 <= i < |r| ==> r[i] in Elements(r);
    if s != [] {
      var t := s[..|s| - 1];
      var d := Dedup(t);
      DedupFirstOccurrenceOrder(t);
      forall x | x in Elements(d)
        ensures x in s && FirstIndex(s, x) == FirstIndex(t, x) && FirstIndex(t, x) < |s| - 1
      {
        FirstIndexPrefix(s, |s| - 1, x);
      }
      if s[|s| - 1] !in d {
        var last := s[|s| - 1];
        assert FirstIndex(s, last) == |s| - 1;
        assert r == d + [last];
        forall i, j | 0 <= i < j < |r|
          ensures FirstIndex(s, r[i]) < FirstIndex(s, r[j])
        {
          assert r[i] == d[i] && r[i] in Elements(d);
          if j < |d| {
            assert r[j] == d[j] && r[j] in Elements(d);
          }
        }
      } else {
        forall i, j | 0 <= i < j < |r|
          ensures FirstIndex(s, r[i]) < FirstIndex(s, r[j])
        {
          assert r[i] in Elements(d) && r[j] in Elements(d);
        }
      }
    }
  }

  /** Deduplication never lengthens a sequence. */
  lemma DedupLength<T>(s: seq<T>)
    ensures |Dedup(s)| <= |s|
  {
    DistinctCard(Dedup(s));
    ElementsCard(s);
  }

  /** A duplicate-free sequence is its own deduplication. */
  lemma {:induction false} DedupOfDistinct<T>(s: seq<T>)
    requires Distinct(s)
    ensures Dedup(s) == s
  {
    if s != [] {
      var t := s[..|s| - 1];
      DedupOfDistinct(t);
      assert s == t + [s[|s| - 1]];
    }
  }

  /** Appending one element to a duplicate-free sequence and deduplicating
      adds the element at the end unless it is already present. */
  lemma DedupAppend<T>(s: seq<T>, x: T)
    requires Distinct(s)
    ensures Dedup(s + [x]) == if x in s then s else s + [x]
  {
    assert (s + [x])[..|s|] == s;
    DedupOfDistinct(s);
  }

  /** Python's s[-n:]: the last n entries, or all of s when it is shorter
      than n; for n = 0 the slice s[-0:] is s[0:], the whole of s. */
  function TopSlice<T>(s: seq<T>, n: nat): (r: seq<T>)
    ensures |r| == if 0 < n <= |s| then n else |s|
    ensures r == s[|s| - |r|..]
  {
    if 0 < n <= |s| then s[|s| - n..] else s
  }

  /** The slice holds entries of s only. */
  lemma TopSliceMembers<T>(s: seq<T>, n: nat)
    ensures forall x :: x in TopSlice(s, n) ==> x in s
  {
    var r := TopSlice(s, n);
    assert forall i :: 0 <= i < |r| ==> r[i] == s[|s| - |r| + i];
  }

  /** The backfill loop: while the parent set is short of the target,
      step one place further down the ranking (from the end) and add that
      entry unless it is already present. None when the step runs past the
      start of the ranking, where the program raises IndexError. */
  function Backfill<T(==)>(parentSet: seq<T>, ranking: seq<T>, newParent: nat, target: nat): Option<seq<T>>
    decreases |ranking| - newParent
  {
    if |parentSet| >= target then Some(parentSet)
    else if newParent + 1 > |ranking| then None
    else Backfill(Dedup(parentSet + [ranking[|ranking| - (newParent + 1)]]), ranking, newParent + 1, target)
  }

  /** One step of the backfill loop. */
  lemma BackfillStep<T>(parentSet: seq<T>, ranking: seq<T>, newParent: nat, target: nat)
    requires |parentSet| < target
    ensures newParent + 1 > |ranking| ==> Backfill(parentSet, ranking, newParent, target) == None
    ensures newParent + 1 <= |ranking| ==>
      Backfill(parentSet, ranking, newParent, target)
        == Backfill(Dedup(parentSet + [ranking[|ranking| - (newParent + 1)]]), ranking, newParent + 1, target)
  {
  }

  /** The backfill loop as the program runs it: step newParent forward and
      index the ranking from the end, failing once the step passes its
      start. */
  method BackfillLoop<T(==)>(parentSet: seq<T>, ranking: seq<T>, newParent: nat, target: nat)
    returns (r: Option<seq<T>>)
    ensures r == Backfill(parentSet, ranking, newParent, target)
  {
    var ps, np := parentSet, newParent;
    while |ps| < target
      invariant Backfill(ps, ranking, np, target) == Backfill(parentSet, ranking, newParent, target)
      decreases |ranking| - np
    {
      BackfillStep(ps, ranking, np, target);
      np := np + 1;
      if np > |ranking| {
        return None;
      }
      ps := Dedup(ps + [ranking[|ranking| - np]]);
    }
    r := Some(ps);
  }

  /** A backfilled parent set extends the starting set, stays duplicate
      free, draws only from the ranking, and has exactly the target size. */
  lemma {:induction false} BackfillShape<T>(parentSet: seq<T>, ranking: seq<T>, newParent: nat, target: nat)
    requires Distinct(parentSet) && |parentSet| <= target
    requires Backfill(parentSet, ranking, newParent, target).Some?
    ensures var r := Backfill(parentSet, ranking, newParent, target).value;
      && Distinct(r)
      && |r| == target
      && r[..|parentSet|] == parentSet
      && forall x :: x in r ==> x in parentSet || x in ranking
    decreases |ranking| - newParent
  {
    if |parentSet| < target {
      var x := ranking[|ranking| - (newParent + 1)];
      DedupAppend(parentSet, x);
      var next := Dedup(parentSet + [x]);
      BackfillShape(next, ranking, newParent + 1, target);
      var r := Backfill(next, ranking, newParent + 1, target).value;
      assert r[..|next|] == next;
      assert next[..|parentSet|] == parentSet;
      assert r[..|parentSet|] == r[..|next|][..|parentSet|];
    }
  }

  /** Starting from a duplicate-free set drawn from the ranking that already
      holds the top newParent entries, backfilling succeeds exactly when the
      ranking holds at least target distinct entries. */
  lemma {:induction false} BackfillSucceedsIff<T>(parentSet: seq<T>, ranking: seq<T>, newParent: nat, target: nat)
    requires Distinct(parentSet) && |parentSet| <= target
    requires forall x :: x in parentSet ==> x in ranking
    requires forall i :: 0 <= i < |ranking| && |ranking| - newParent <= i ==> ranking[i] in parentSet
    ensures Backfill(parentSet, ranking, newParent, target).Some? <==> target <= |Elements(ranking)|
    decreases |ranking| - newParent
  {
    if |parentSet| >= target {
      DistinctCard(parentSet);
      SubsetCard(Elements(parentSet), Elements(ranking));
    } else if newParent + 1 > |ranking| {
      DistinctCard(parentSet);
      assert Elements(ranking) <= Elements(parentSet);
      SubsetCard(Elements(ranking), Elements(parentSet));
    } else {
      var next := BackfillNext(parentSet, ranking, newParent, target);
      BackfillSucceedsIff(next, ranking, newParent + 1, target);
    }
  }

  /** One step of the backfill keeps the conditions of BackfillSucceedsIff. */
  lemma BackfillNext<T>(parentSet: seq<T>, ranking: seq<T>, newParent: nat, target: nat) returns (next: seq<T>)
    requires Distinct(parentSet) && |parentSet| < target && newParent + 1 <= |ranking|
    requires forall x :: x in parentSet ==> x in ranking
    requires forall i :: 0 <= i < |ranking| && |ranking| - newParent <= i ==> ranking[i] in parentSet
    ensures Backfill(parentSet, ranking, newParent, target) == Backfill(next, ranking, newParent + 1, target)
    ensures Distinct(next) && |next| <= target
    ensures forall x :: x in next ==> x in ranking
    ensures forall i :: 0 <= i < |ranking| && |ranking| - (newParent + 1) <= i ==> ranking[i] in next
  {
    var x := ranking[|ranking| - (newParent + 1)];
    DedupAppend(parentSet, x);
    BackfillStep(parentSet, ranking, newParent, target);
    next := if x in parentSet then parentSet else parentSet + [x];
    forall y | y in next
      ensures y in ranking
    {
      if y != x {
        assert y in parentSet;
      }
    }
    forall i | 0 <= i < |ranking| && |ranking| - (newParent + 1) <= i
      ensures ranking[i] in next
    {
      if i != |ranking| - (newParent + 1) {
        assert ranking[i] in parentSet;
      }
    }
  }

  /** A parent set that backfilling returns is never short of the target. */
  lemma {:induction false} BackfillAtLeast<T>(parentSet: seq<T>, ranking: seq<T>, newParent: nat, target: nat)
    requires Backfill(parentSet, ranking, newParent, target).Some?
    ensures |Backfill(parentSet, ranking, newParent, target).value| >= target
    decreases |ranking| - newParent
  {
    if |parentSet| < target {
      var x := ranking[|ranking| - (newParent + 1)];
      BackfillAtLeast(Dedup(parentSet + [x]), ranking, newParent + 1, target);
    }
  }

  /** Backfilling only adds entries of the ranking. */
  lemma {:induction false} BackfillMembers<T>(parentSet: seq<T>, ranking: seq<T>, newParent: nat, target: nat)
    requires Backfill(parentSet, ranking, newParent, target).Some?
    ensures forall x :: x in Backfill(parentSet, ranking, newParent, target).value ==> x in parentSet || x in ranking
    decreases |ranking| - newParent
  {
    if |parentSet| < target {
      var x := ranking[|ranking| - (newParent + 1)];
      var next := Dedup(parentSet + [x]);
      BackfillMembers(next, ranking, newParent + 1, target);
      assert forall y :: y in next ==> y in Elements(parentSet + [x]);
    }
  }
}
