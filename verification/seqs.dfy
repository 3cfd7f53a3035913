/**
 * The shape shared by `search` and `filter_by`: walk a list in order and keep
 * the items a predicate accepts. `Keep` is that loop's meaning; the lemmas say
 * it keeps exactly the accepted items, in their original order.
 */
module Seqs {

  /** The items of `s` that `p` accepts, in the order they appear in `s`. */
  function Keep<T>(s: seq<T>, p: T -> bool): (r: seq<T>)
    ensures |r| <= |s|
  {
    if s == [] then [] else Keep(s[..|s| - 1], p) + (if p(s[|s| - 1]) then [s[|s| - 1]] else [])
  }

  /** One more step of the scan: the next item is appended exactly when it is accepted. */
  lemma KeepSnoc<T>(s: seq<T>, i: nat, p: T -> bool)
    requires i < |s|
    ensures Keep(s[..i + 1], p) == Keep(s[..i], p) + (if p(s[i]) then [s[i]] else [])
  {
    assert s[..i + 1][..i] == s[..i];
  }

  /** The scan's end: the prefix of full length is the whole list. */
  lemma KeepWhole<T>(s: seq<T>, p: T -> bool)
    ensures Keep(s[..|s|], p) == Keep(s, p)
  {
    assert s[..|s|] == s;
  }

  /** `idx` lists strictly increasing positions of `b` that spell `a`. */
  ghost predicate Embeds<T>(idx: seq<nat>, a: seq<T>, b: seq<T>)
  {
    && |idx| == |a|
    && (forall i :: 0 <= i < |idx| ==> idx[i] < |b| && a[i] == b[idx[i]])
    && (forall i, j :: 0 <= i < j < |idx| ==> idx[i] < idx[j])
  }

  /** `a` is an order-preserving subsequence of `b`. */
  ghost predicate IsSubsequence<T>(a: seq<T>, b: seq<T>)
  {
    exists idx: seq<nat> :: Embeds(idx, a, b)
  }

  /** Keeping from a concatenation keeps from each part. */
  lemma {:induction false} KeepConcat<T>(a: seq<T>, b: seq<T>, p: T -> bool)
    ensures Keep(a + b, p) == Keep(a, p) + Keep(b, p)
    decreases |b|
  {
    if b == [] {
      assert a + b == a;
    } else {
      var n := |b| - 1;
      assert (a + b)[..|a + b| - 1] == a + b[..n];
      KeepConcat(a, b[..n], p);
    }
  }

  /** An item is kept exactly when it occurs in the input and is accepted. */
  lemma {:induction false} KeepMembership<T>(s: seq<T>, p: T -> bool, x: T)
    ensures x in Keep(s, p) <==> x in s && p(x)
    decreases |s|
  {
    if s != [] {
      var n := |s| - 1;
      KeepMembership(s[..n], p, x);
      assert s == s[..n] + [s[n]];
    }
  }

  /** Multiplicities: an accepted item is kept as often as it occurs, any other never. */
  lemma {:induction false} KeepMultiset<T>(s: seq<T>, p: T -> bool, x: T)
    ensures multiset(Keep(s, p))[x] == if p(x) then multiset(s)[x] else 0
    decreases |s|
  {
    if s != [] {
      var n := |s| - 1;
      KeepMultiset(s[..n], p, x);
      assert s == s[..n] + [s[n]];
    }
  }

  /** The positions of `s` that `Keep` takes, as a witness of order preservation. */
  lemma {:induction false} KeepEmbedding<T>(s: seq<T>, p: T -> bool) returns (idx: seq<nat>)
    ensures Embeds(idx, Keep(s, p), s)
    ensures forall i :: 0 <= i < |idx| ==> p(s[idx[i]])
    decreases |s|
  {
    if s == [] {
      idx := [];
    } else {
      var n := |s| - 1;
      var rest := KeepEmbedding(s[..n], p);
      idx := if p(s[n]) then rest + [n] else rest;
    }
  }

  /** `Keep` preserves order: its result is a subsequence of its input. */
  lemma KeepIsSubsequence<T>(s: seq<T>, p: T -> bool)
    ensures IsSubsequence(Keep(s, p), s)
  {
    var idx := KeepEmbedding(s, p);
  }

  /** When everything is accepted nothing is dropped. */
  lemma {:induction false} KeepAll<T>(s: seq<T>, p: T -> bool)
    requires forall i :: 0 <= i < |s| ==> p(s[i])
    ensures Keep(s, p) == s
    decreases |s|
  {
    if s != [] {
      KeepAll(s[..|s| - 1], p);
    }
  }

  /** Two predicates that agree on every item keep the same items. */
  lemma {:induction false} KeepCongruent<T>(s: seq<T>, p: T -> bool, q: T -> bool)
    requires forall i :: 0 <= i < |s| ==> p(s[i]) == q(s[i])
    ensures Keep(s, p) == Keep(s, q)
    decreases |s|
  {
    if s != [] {
      KeepCongruent(s[..|s| - 1], p, q);
    }
  }

  /** The set of values occurring in `s`. */
  function Elements<T>(s: seq<T>): set<T>
  {
    set x | x in s
  }

  /** No value occurs twice in `s`. */
  ghost predicate Distinct<T>(s: seq<T>)
  {
    forall i, j :: 0 <= i < j < |s| ==> s[i] != s[j]
  }

  /** A list without repetitions has as many elements as distinct values. */
  lemma {:induction false} DistinctCardinality<T>(s: seq<T>)
    requires Distinct(s)
    ensures |Elements(s)| == |s|
    decreases |s|
  {
    if s != [] {
      var n := |s| - 1;
      DistinctCardinality(s[..n]);
      assert Elements(s) == Elements(s[..n]) + {s[n]};
      assert s[n] !in Elements(s[..n]);
    }
  }

  /** Keeping items from a list without repetitions yields a list without repetitions. */
  lemma {:induction false} KeepDistinct<T>(s: seq<T>, p: T -> bool)
    requires Distinct(s)
    ensures Distinct(Keep(s, p))
    decreases |s|
  {
    if s != [] {
      var n := |s| - 1;
      KeepDistinct(s[..n], p);
      KeepMembership(s[..n], p, s[n]);
    }
  }
}
