/** Thresholds on the merge distances of a hierarchical clustering, and the brute-force
    search of mapper/hierarchical_clustering.py for the clustering a statistic rates best.
    Cutting the dendrogram (`fcluster`) and the statistic are parameters. */
module Hierarchical {
  import opened Graphs

  /** A cut height: a merge distance, or -infinity. */
  datatype Threshold = NegInf | At(d: real)

  /** Order on thresholds, -infinity lowest. */
  predicate AtMost(a: Threshold, b: Threshold)
  {
    a.NegInf? || (b.At? && a.d <= b.d)
  }

  /** Every consecutive difference is non-negative (`np.diff(s) >= 0`). */
  predicate NonDecreasing(s: seq<real>)
  {
    forall i :: 0 <= i < |s| - 1 ==> s[i] <= s[i + 1]
  }

  lemma {:induction false} NonDecreasingPairs(s: seq<real>, i: nat, j: nat)
    requires NonDecreasing(s) && i <= j < |s|
    ensures s[i] <= s[j]
    decreases j - i
  {
    if i < j {
      NonDecreasingPairs(s, i + 1, j);
    }
  }

  /** `cluster_number_to_threshold(k, merge_distances)`: the k-th distance from the end
      reading `merge_distances[-k]` as Python does, -infinity when k exceeds the number
      of merges. None stands for the two ways the call raises: the AssertionError for
      distances that go down somewhere, and the IndexError for k <= -len. */
  function ClusterNumberToThreshold(k: int, mergeDistances: seq<real>): (r: Option<Threshold>)
    ensures r.None? <==> !NonDecreasing(mergeDistances) || k <= -|mergeDistances|
    ensures NonDecreasing(mergeDistances) && 1 <= k <= |mergeDistances| ==>
              r == Some(At(mergeDistances[|mergeDistances| - k]))
    ensures NonDecreasing(mergeDistances) && -|mergeDistances| < k <= 0 ==>
              r == Some(At(mergeDistances[-k]))
    ensures NonDecreasing(mergeDistances) && k > |mergeDistances| ==> r == Some(NegInf)
  {
    if !NonDecreasing(mergeDistances) then None
    else if k <= |mergeDistances| then
      match PySlot(-k, |mergeDistances|)
      case None => None
      case Some(i) => Some(At(mergeDistances[i]))
    else Some(NegInf)
  }

  function Reverse<T>(s: seq<T>): seq<T>
  {
    if s == [] then [] else [s[|s| - 1]] + Reverse(s[..|s| - 1])
  }

  lemma {:induction false} ReverseIndex<T>(s: seq<T>, i: nat)
    requires i < |s|
    ensures |Reverse(s)| == |s|
    ensures Reverse(s)[i] == s[|s| - 1 - i]
  {
    ReverseLength(s);
    if i > 0 {
      ReverseIndex(s[..|s| - 1], i - 1);
    }
  }

  lemma {:induction false} ReverseLength<T>(s: seq<T>)
    ensures |Reverse(s)| == |s|
  {
    if s != [] {
      ReverseLength(s[..|s| - 1]);
    }
  }

  /** Asking for i + 1 clusters gives the i-th distance of the reversed list. */
  lemma ThresholdOfReversed(mergeDistances: seq<real>, i: nat)
    requires NonDecreasing(mergeDistances) && i < |mergeDistances|
    ensures |Reverse(mergeDistances)| == |mergeDistances|
    ensures ClusterNumberToThreshold(i + 1, mergeDistances) == Some(At(Reverse(mergeDistances)[i]))
  {
    ReverseIndex(mergeDistances, i);
  }

  /** More clusters never need a higher threshold. */
  lemma ThresholdMonotone(mergeDistances: seq<real>, k1: int, k2: int)
    requires NonDecreasing(mergeDistances) && 1 <= k1 <= k2
    ensures ClusterNumberToThreshold(k1, mergeDistances).Some?
    ensures ClusterNumberToThreshold(k2, mergeDistances).Some?
    ensures AtMost(ClusterNumberToThreshold(k2, mergeDistances).value, ClusterNumberToThreshold(k1, mergeDistances).value)
  {
    var n := |mergeDistances|;
    if k2 <= n {
      NonDecreasingPairs(mergeDistances, n - k2, n - k1);
    }
  }

  predicate StrictlyDescending(s: seq<real>)
  {
    forall i, j :: 0 <= i < j < |s| ==> s[i] > s[j]
  }

  /** Inserts `x` into a strictly descending list unless it is already there. */
  function InsertDescending(t: seq<real>, x: real): seq<real>
  {
    if t == [] then [x]
    else if x > t[0] then [x] + t
    else if x == t[0] then t
    else [t[0]] + InsertDescending(t[1..], x)
  }

  lemma {:induction false} InsertDescendingSpec(t: seq<real>, x: real)
    requires StrictlyDescending(t)
    ensures StrictlyDescending(InsertDescending(t, x))
    ensures forall y :: y in InsertDescending(t, x) <==> y in t || y == x
  {
    if t != [] && x != t[0] {
      TailDescending(t);
      if x > t[0] {
        var r := [x] + t;
        assert r[1..] == t;
        RestBelow(r, x);
      } else {
        InsertDescendingSpec(t[1..], x);
        var r := [t[0]] + InsertDescending(t[1..], x);
        assert r[1..] == InsertDescending(t[1..], x);
        RestBelow(r, t[0]);
      }
    }
  }

  /** The tail of a strictly descending list is strictly descending and below its head. */
  lemma TailDescending(t: seq<real>)
    requires StrictlyDescending(t) && t != []
    ensures StrictlyDescending(t[1..])
    ensures forall y :: y in t[1..] ==> y < t[0]
    ensures forall y :: y in t <==> y == t[0] || y in t[1..]
  {
    assert t == [t[0]] + t[1..];
    forall i, j | 0 <= i < j < |t[1..]| ensures t[1..][i] > t[1..][j] {
      assert t[1..][i] == t[i + 1] && t[1..][j] == t[j + 1];
    }
    forall y | y in t[1..] ensures y < t[0] {
      var i :| 0 <= i < |t[1..]| && t[1..][i] == y;
      assert t[i + 1] == y;
    }
  }

  /** A head above a strictly descending tail keeps the list strictly descending. */
  lemma RestBelow(r: seq<real>, h: real)
    requires |r| >= 1 && r[0] == h
    requires StrictlyDescending(r[1..])
    requires forall y :: y in r[1..] ==> y < h
    ensures StrictlyDescending(r)
  {
    forall i, j | 0 <= i < j < |r| ensures r[i] > r[j] {
      assert r[j] == r[1..][j - 1];
      assert r[1..][j - 1] in r[1..];
      if i > 0 { assert r[i] == r[1..][i - 1]; }
    }
  }

  /** The distinct merge distances, highest first
      (`reversed(np.sort(np.unique(merge_distances)))`). */
  function DescendingUnique(s: seq<real>): seq<real>
  {
    if s == [] then [] else InsertDescending(DescendingUnique(s[..|s| - 1]), s[|s| - 1])
  }

  /** The thresholds visited are the distinct merge distances, each once, highest first. */
  lemma {:induction false} DescendingUniqueSpec(s: seq<real>)
    ensures StrictlyDescending(DescendingUnique(s))
    ensures forall y :: y in DescendingUnique(s) <==> y in s
  {
    if s != [] {
      DescendingUniqueSpec(s[..|s| - 1]);
      InsertDescendingSpec(DescendingUnique(s[..|s| - 1]), s[|s| - 1]);
      assert s == s[..|s| - 1] + [s[|s| - 1]];
    }
  }

  /** The number of distinct labels (`len(np.unique(labels))`). */
  function Count(labels: seq<int>): nat
  {
    |set l | l in labels|
  }

  /** The default labelling: everything in cluster 1. */
  function Ones(n: nat): seq<int>
  {
    seq(n, _ => 1)
  }

  lemma CountOnes(n: nat)
    requires n >= 1
    ensures Count(Ones(n)) == 1
  {
    assert (set l | l in Ones(n)) == {1} by {
      assert Ones(n)[0] == 1;
    }
  }

  /** The thresholds from position `i` on whose labellings the search scores, in
      visiting order: those with at least two clusters, up to the first with more
      than `kMax` or `n - 1`. */
  function Accepted(ts: seq<real>, i: nat, n: nat, kMax: int, fcluster: real -> seq<int>): seq<real>
    decreases |ts| - i
  {
    if i >= |ts| then []
    else
      var c := Count(fcluster(ts[i]));
      if c < 2 then Accepted(ts, i + 1, n, kMax, fcluster)
      else if c > kMax || c > n - 1 then []
      else [ts[i]] + Accepted(ts, i + 1, n, kMax, fcluster)
  }

  /** Every scored threshold is visited and cuts into between 2 and
      min(kMax, n - 1) clusters. */
  lemma {:induction false} AcceptedBounds(ts: seq<real>, i: nat, n: nat, kMax: int, fcluster: real -> seq<int>)
    ensures forall t :: t in Accepted(ts, i, n, kMax, fcluster) ==> t in ts[i..]
    ensures forall t :: t in Accepted(ts, i, n, kMax, fcluster) ==>
      2 <= Count(fcluster(t)) && Count(fcluster(t)) <= kMax && Count(fcluster(t)) <= n - 1
    decreases |ts| - i
  {
    if i < |ts| {
      AcceptedBounds(ts, i + 1, n, kMax, fcluster);
    }
  }

  /** Nothing at or after the first labelling with too many clusters is scored. */
  lemma {:induction false} AcceptedStops(ts: seq<real>, i: nat, n: nat, kMax: int, fcluster: real -> seq<int>, j: nat)
    requires i <= j < |ts|
    requires var c := Count(fcluster(ts[j])); 2 <= c && (c > kMax || c > n - 1)
    ensures forall t :: t in Accepted(ts, i, n, kMax, fcluster) ==> t in ts[i..j]
    decreases j - i
  {
    if i < j {
      var c := Count(fcluster(ts[i]));
      if c < 2 || !(c > kMax || c > n - 1) {
        AcceptedStops(ts, i + 1, n, kMax, fcluster, j);
      }
    }
  }

  /** The statistic of each scored threshold's labelling. */
  function Scores(acc: seq<real>, fcluster: real -> seq<int>, statistic: seq<int> -> ExtReal): (r: seq<ExtReal>)
    ensures |r| == |acc|
    ensures forall q :: 0 <= q < |acc| ==> r[q] == statistic(fcluster(acc[q]))
  {
    if acc == [] then [] else Scores(acc[..|acc| - 1], fcluster, statistic) + [statistic(fcluster(acc[|acc| - 1]))]
  }

  /** The thresholds scored for these merge distances: the distinct distances visited
      highest first, for N = |mergeDistances| + 1 data points. */
  function Scored(mergeDistances: seq<real>, kMax: int, fcluster: real -> seq<int>): seq<real>
  {
    Accepted(DescendingUnique(mergeDistances), 0, |mergeDistances| + 1, kMax, fcluster)
  }

  /** `statistic_heuristic_hierarchical` over the merge distances: the labelling of the
      first scored threshold whose statistic is strictly smallest, or the all-ones
      labelling with k = 1 when no scored statistic is below infinity; k always counts
      the returned labels. */
  method StatisticHeuristic(mergeDistances: seq<real>, kMax: int,
                            fcluster: real -> seq<int>, statistic: seq<int> -> ExtReal)
    returns (labels: seq<int>, k: nat)
    ensures k == Count(labels)
    ensures var acc := Scored(mergeDistances, kMax, fcluster);
            var scores := Scores(acc, fcluster, statistic);
            (forall q :: 0 <= q < |scores| ==> scores[q].Infinite?) ==> labels == Ones(|mergeDistances| + 1) && k == 1
    ensures var acc := Scored(mergeDistances, kMax, fcluster);
            var scores := Scores(acc, fcluster, statistic);
            forall q :: 0 <= q < |scores| && scores[q].Finite? ==>
              exists p: nat :: FirstLeast(scores, p) && labels == fcluster(acc[p])
  {
    ghost var p: int, best: ExtReal;
    labels, k, p, best := Search(DescendingUnique(mergeDistances), |mergeDistances| + 1, kMax, fcluster, statistic);
    ghost var scores := Scores(Scored(mergeDistances, kMax, fcluster), fcluster, statistic);
    assert scores == Scores(Accepted(DescendingUnique(mergeDistances), 0, |mergeDistances| + 1, kMax, fcluster), fcluster, statistic);
    assert ScanState(scores, p, best);
    if p >= 0 {
      assert scores[p].Finite?;
    }
  }

  /** The loop of the search over thresholds `ts` for `n` data points: `p` is the position
      of the kept labelling among the scored thresholds, -1 for the default. */
  method Search(ts: seq<real>, n: nat, kMax: int, fcluster: real -> seq<int>, statistic: seq<int> -> ExtReal)
    returns (labels: seq<int>, k: nat, ghost p: int, ghost best: ExtReal)
    requires n >= 1
    ensures k == Count(labels)
    ensures ScanState(Scores(Accepted(ts, 0, n, kMax, fcluster), fcluster, statistic), p, best)
    ensures p == -1 ==> labels == Ones(n) && k == 1
    ensures p >= 0 ==> labels == fcluster(Accepted(ts, 0, n, kMax, fcluster)[p])
  {
    ghost var all := Accepted(ts, 0, n, kMax, fcluster);
    var optimalStat := Infinite;
    labels, k := Ones(n), 1;
    CountOnes(n);
    ghost var acc: seq<real> := [];
    ghost var scores: seq<ExtReal> := [];
    p := -1;
    var idx := 0;
    while idx < |ts|
      invariant 0 <= idx <= |ts|
      invariant acc + Accepted(ts, idx, n, kMax, fcluster) == all
      invariant scores == Scores(acc, fcluster, statistic)
      invariant ScanState(scores, p, optimalStat)
      invariant k == Count(labels)
      invariant p == -1 ==> labels == Ones(n) && k == 1
      invariant p >= 0 ==> labels == fcluster(acc[p])
    {
      var threshold := ts[idx];
      var cur := fcluster(threshold);
      var curK := Count(cur);
      if curK >= 2 {
        if curK > kMax || curK > n - 1 {
          AcceptedStep(ts, idx, n, kMax, fcluster, acc, all);
          break;
        }
        var curStat := statistic(cur);
        optimalStat, labels, k, p := Keep(scores, p, optimalStat, labels, k, cur, curK, curStat);
        ScoresSnoc(acc, threshold, fcluster, statistic);
        AcceptedStep(ts, idx, n, kMax, fcluster, acc, all);
        acc := acc + [threshold];
        scores := scores + [curStat];
      } else {
        AcceptedStep(ts, idx, n, kMax, fcluster, acc, all);
      }
      idx := idx + 1;
    }
    assert acc == all;
    best := optimalStat;
  }

  /** The update of the best result so far (`if cur_stat < optimal_stat`): the new
      labelling is kept exactly when its statistic is strictly below the best. */
  method Keep(ghost scores: seq<ExtReal>, ghost p: int, best: ExtReal, labels: seq<int>, k: nat,
              cur: seq<int>, curK: nat, curStat: ExtReal)
    returns (best': ExtReal, labels': seq<int>, k': nat, ghost p': int)
    requires ScanState(scores, p, best)
    ensures ScanState(scores + [curStat], p', best')
    ensures Below(curStat, best) ==> p' == |scores| && labels' == cur && k' == curK
    ensures !Below(curStat, best) ==> p' == p && labels' == labels && k' == k
  {
    ScanStep(scores, p, best, curStat);
    if Below(curStat, best) {
      best', labels', k', p' := curStat, cur, curK, |scores|;
    } else {
      best', labels', k', p' := best, labels, k, p;
    }
  }

  /** How one visited threshold extends the scored list seen so far. */
  lemma AcceptedStep(ts: seq<real>, i: nat, n: nat, kMax: int, fcluster: real -> seq<int>,
                     acc: seq<real>, all: seq<real>)
    requires i < |ts| && acc + Accepted(ts, i, n, kMax, fcluster) == all
    ensures var c := Count(fcluster(ts[i]));
            && (c < 2 ==> acc + Accepted(ts, i + 1, n, kMax, fcluster) == all)
            && (2 <= c && (c > kMax || c > n - 1) ==> acc == all)
            && (2 <= c <= kMax && c <= n - 1 ==> (acc + [ts[i]]) + Accepted(ts, i + 1, n, kMax, fcluster) == all)
  {
    var c := Count(fcluster(ts[i]));
    if 2 <= c <= kMax && c <= n - 1 {
      assert (acc + [ts[i]]) + Accepted(ts, i + 1, n, kMax, fcluster)
          == acc + ([ts[i]] + Accepted(ts, i + 1, n, kMax, fcluster));
    }
  }

  lemma ScoresSnoc(acc: seq<real>, t: real, fcluster: real -> seq<int>, statistic: seq<int> -> ExtReal)
    ensures Scores(acc + [t], fcluster, statistic) == Scores(acc, fcluster, statistic) + [statistic(fcluster(t))]
  {
    assert (acc + [t])[..|acc|] == acc;
  }
}
