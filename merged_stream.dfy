/** The merged answer stream of lib/atm/parties.ts, seen only by what it preserves. `merge`
    from `ix` interleaves the per-party iterators in arrival order; that scheduling is not
    modelled. A merged sequence is described by its `origin`: for every merged position, the
    producer it came from. The merge is faithful when, producer by producer, the positions it
    owns spell out that producer's own sequence in its own order. */
module MergedStream {

  /** The elements of `merged` that came from producer `p`, in merged order. */
  function Project<T>(merged: seq<T>, origin: seq<nat>, p: nat): (r: seq<T>)
    requires |origin| == |merged|
    ensures |r| <= |merged|
    decreases |merged|
  {
    if |merged| == 0 then []
    else
      var n := |merged| - 1;
      Project(merged[..n], origin[..n], p) + (if origin[n] == p then [merged[n]] else [])
  }

  /** `merged` interleaves `producers`, each in its own order, and nothing else. */
  ghost predicate IsMergeOf<T>(merged: seq<T>, origin: seq<nat>, producers: seq<seq<T>>) {
    && |origin| == |merged|
    && (forall i :: 0 <= i < |origin| ==> origin[i] < |producers|)
    && (forall p :: 0 <= p < |producers| ==> Project(merged, origin, p) == producers[p])
  }

  /** How many elements of `s` satisfy `f`. */
  function Count<T>(s: seq<T>, f: T -> bool): (n: nat)
    ensures n <= |s|
    decreases |s|
  {
    if |s| == 0 then 0 else Count(s[..|s| - 1], f) + (if f(s[|s| - 1]) then 1 else 0)
  }

  lemma {:induction false} CountAppend<T>(a: seq<T>, b: seq<T>, f: T -> bool)
    ensures Count(a + b, f) == Count(a, f) + Count(b, f)
    decreases |b|
  {
    if |b| == 0 {
      assert a + b == a;
    } else {
      var n := |b| - 1;
      assert (a + b)[..|a + b| - 1] == a + b[..n];
      CountAppend(a, b[..n], f);
    }
  }

  /** No element satisfies `f` exactly when the count is zero. */
  lemma {:induction false} CountZero<T>(s: seq<T>, f: T -> bool)
    ensures Count(s, f) == 0 <==> forall i :: 0 <= i < |s| ==> !f(s[i])
    decreases |s|
  {
    if |s| > 0 {
      var n := |s| - 1;
      CountZero(s[..n], f);
      assert forall i :: 0 <= i < n ==> s[..n][i] == s[i];
    }
  }

  /** The sum of a sequence of counts. */
  function Sum(s: seq<nat>): nat
    decreases |s|
  {
    if |s| == 0 then 0 else Sum(s[..|s| - 1]) + s[|s| - 1]
  }

  /** Raising one count by one raises the sum by one. */
  lemma {:induction false} SumBump(s: seq<nat>, q: nat)
    requires q < |s|
    ensures Sum(s[q := s[q] + 1]) == Sum(s) + 1
    decreases |s|
  {
    var n := |s| - 1;
    var t := s[q := s[q] + 1];
    if q < n {
      assert t[..n] == s[..n][q := s[q] + 1];
      SumBump(s[..n], q);
    } else {
      assert t[..n] == s[..n];
    }
  }

  /** `|s|` counts of `c` each add up to `|s| * c`. */
  lemma {:induction false} SumEach(s: seq<nat>, c: nat)
    requires forall i :: 0 <= i < |s| ==> s[i] == c
    ensures Sum(s) == |s| * c
    decreases |s|
  {
    if |s| > 0 {
      SumEach(s[..|s| - 1], c);
    }
  }

  /** Producer by producer (the first `k`), how many of the elements it contributed to
      `merged` satisfy `f`, tallied along the merge. */
  function Shares<T>(merged: seq<T>, origin: seq<nat>, k: nat, f: T -> bool): (r: seq<nat>)
    requires |origin| == |merged|
    ensures |r| == k
    decreases |merged|
  {
    if |merged| == 0 then seq(k, p => 0)
    else
      var n := |merged| - 1;
      var s := Shares(merged[..n], origin[..n], k, f);
      if origin[n] < k && f(merged[n]) then s[origin[n] := s[origin[n]] + 1] else s
  }

  /** Producer by producer, how many of its own elements satisfy `f`. */
  function Tallies<T>(producers: seq<seq<T>>, f: T -> bool): (r: seq<nat>)
    ensures |r| == |producers|
  {
    seq(|producers|, p requires 0 <= p < |producers| => Count(producers[p], f))
  }

  /** The last element of a merge counts towards its own producer's share only. */
  lemma ProjectLastCount<T>(merged: seq<T>, origin: seq<nat>, p: nat, f: T -> bool)
    requires |origin| == |merged| > 0
    ensures var n := |merged| - 1;
      Count(Project(merged, origin, p), f) ==
        Count(Project(merged[..n], origin[..n], p), f) + (if origin[n] == p && f(merged[n]) then 1 else 0)
  {
    var n := |merged| - 1;
    var tail := if origin[n] == p then [merged[n]] else [];
    CountAppend(Project(merged[..n], origin[..n], p), tail, f);
    assert Count(tail, f) == (if origin[n] == p && f(merged[n]) then 1 else 0);
  }

  /** A producer's share tallied along the merge is the count of what projects onto it. */
  lemma {:induction false} SharesAreProjectedCounts<T>(merged: seq<T>, origin: seq<nat>, k: nat, f: T -> bool, p: nat)
    requires |origin| == |merged| && p < k
    ensures Shares(merged, origin, k, f)[p] == Count(Project(merged, origin, p), f)
    decreases |merged|
  {
    if |merged| > 0 {
      var n := |merged| - 1;
      SharesAreProjectedCounts(merged[..n], origin[..n], k, f, p);
      ProjectLastCount(merged, origin, p, f);
    }
  }

  /** Counting in the merge is tallying each producer's share and adding up. */
  lemma {:induction false} CountSplits<T>(merged: seq<T>, origin: seq<nat>, k: nat, f: T -> bool)
    requires |origin| == |merged|
    requires forall i :: 0 <= i < |origin| ==> origin[i] < k
    ensures Count(merged, f) == Sum(Shares(merged, origin, k, f))
    decreases |merged|
  {
    if |merged| == 0 {
      SumEach(Shares(merged, origin, k, f), 0);
    } else {
      var n := |merged| - 1;
      CountSplits(merged[..n], origin[..n], k, f);
      if f(merged[n]) {
        SumBump(Shares(merged[..n], origin[..n], k, f), origin[n]);
      }
    }
  }

  /** When no element strictly inside a sequence of at least two satisfies `f`, only the two
      ends can count. */
  lemma CountEnds<T>(s: seq<T>, f: T -> bool)
    requires |s| >= 2
    requires forall i :: 0 < i < |s| - 1 ==> !f(s[i])
    ensures Count(s, f) == (if f(s[0]) then 1 else 0) + (if f(s[|s| - 1]) then 1 else 0)
  {
    var n := |s| - 1;
    var middle := s[1..n];
    assert s == [s[0]] + middle + [s[n]];
    forall i | 0 <= i < |middle| ensures !f(middle[i]) {
      assert middle[i] == s[i + 1];
    }
    CountZero(middle, f);
    CountAppend([s[0]] + middle, [s[n]], f);
    CountAppend([s[0]], middle, f);
  }

  /** Interleaving neither loses nor invents elements: any property is satisfied as many times
      in the merge as in all producers together. */
  lemma MergePreservesCounts<T>(merged: seq<T>, origin: seq<nat>, producers: seq<seq<T>>, f: T -> bool)
    requires IsMergeOf(merged, origin, producers)
    ensures Count(merged, f) == Sum(Tallies(producers, f))
  {
    var k := |producers|;
    CountSplits(merged, origin, k, f);
    forall p | 0 <= p < k
      ensures Shares(merged, origin, k, f)[p] == Tallies(producers, f)[p]
    {
      SharesAreProjectedCounts(merged, origin, k, f, p);
      assert Project(merged, origin, p) == producers[p];
    }
    assert Shares(merged, origin, k, f) == Tallies(producers, f);
  }

  /** Every element of a merge belongs to the producer its origin names. */
  lemma {:induction false} MergedElementFromOrigin<T>(merged: seq<T>, origin: seq<nat>, i: nat)
    requires |origin| == |merged| && i < |merged|
    ensures merged[i] in Project(merged, origin, origin[i])
    decreases |merged|
  {
    var n := |merged| - 1;
    if i < n {
      MergedElementFromOrigin(merged[..n], origin[..n], i);
    }
  }

  /** What one producer contributed is drawn from the merged stream. */
  lemma {:induction false} ProjectedElementInMerge<T>(merged: seq<T>, origin: seq<nat>, p: nat, x: T)
    requires |origin| == |merged| && x in Project(merged, origin, p)
    ensures x in merged
    decreases |merged|
  {
    var n := |merged| - 1;
    if x in Project(merged[..n], origin[..n], p) {
      ProjectedElementInMerge(merged[..n], origin[..n], p, x);
    }
  }

  /** Every element of a producer appears in the merge. */
  lemma ProducerElementInMerge<T>(merged: seq<T>, origin: seq<nat>, producers: seq<seq<T>>, p: nat, x: T)
    requires IsMergeOf(merged, origin, producers)
    requires p < |producers| && x in producers[p]
    ensures x in merged
  {
    ProjectedElementInMerge(merged, origin, p, x);
  }
}
