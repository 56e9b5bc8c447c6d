/** Labels for a clustering, as mapper/clustering.py writes them: one string per data
    index, naming the last cluster that contains the index. */
module Clustering {
  import opened Graphs

  function Pow10(w: nat): (r: nat)
    ensures r >= 1
  {
    if w == 0 then 1 else 10 * Pow10(w - 1)
  }

  /** The zero-padding width for `n` clusters, computed on integers: ceil(log10 n),
      the least `w` with `n <= 10^w`. */
  function Width(n: nat): (w: nat)
    ensures n <= Pow10(w)
    ensures w > 0 ==> Pow10(w - 1) < n
    decreases n
  {
    if n <= 1 then 0
    else
      var m := (n + 9) / 10;
      var v := Width(m);
      assert n <= 10 * m <= n + 9;
      assert v > 0 ==> 10 * Pow10(v - 1) <= 10 * m - 10;
      1 + v
  }

  predicate IsDigit(c: char)
  {
    '0' <= c <= '9'
  }

  predicate AllDigits(s: string)
  {
    forall k :: 0 <= k < |s| ==> IsDigit(s[k])
  }

  function DigitChar(d: nat): (c: char)
    requires d < 10
    ensures IsDigit(c) && (c as int) - ('0' as int) == d
  {
    (('0' as int) + d) as char
  }

  /** The decimal numeral of `i` without leading zeros (`str(i)`). */
  function Decimal(i: nat): (s: string)
    ensures |s| >= 1 && AllDigits(s)
  {
    if i < 10 then [DigitChar(i)] else Decimal(i / 10) + [DigitChar(i % 10)]
  }

  /** The number a string of decimal digits denotes (leading zeros allowed). */
  function ParseDecimal(s: string): nat
    requires AllDigits(s)
  {
    if s == [] then 0 else 10 * ParseDecimal(s[..|s| - 1]) + ((s[|s| - 1] as int) - ('0' as int))
  }

  function Zeros(k: nat): (s: string)
    ensures |s| == k && AllDigits(s)
  {
    if k == 0 then [] else Zeros(k - 1) + ['0']
  }

  /** `s` left-padded with zeros to width `w` (Python's `{:0wd}` on a numeral). */
  function ZeroPad(s: string, w: nat): string
  {
    if |s| >= w then s else Zeros(w - |s|) + s
  }

  /** Python's `str.format` leaves a prefix alone when it holds no replacement field. */
  predicate NoBraces(prefix: string)
  {
    forall k :: 0 <= k < |prefix| ==> prefix[k] != '{' && prefix[k] != '}'
  }

  /** The label of cluster `i` among `n`: `prefix_` when the prefix is non-empty,
      then the cluster number zero-padded to `Width(n)` digits. */
  function ClusterLabel(prefix: string, n: nat, i: nat): string
  {
    (if prefix != "" then prefix + "_" else "") + ZeroPad(Decimal(i), Width(n))
  }

  /** Reading the numeral back gives the number. */
  lemma {:induction false} ParseDecimalOf(i: nat)
    ensures ParseDecimal(Decimal(i)) == i
  {
    if i >= 10 {
      var s := Decimal(i);
      assert s[..|s| - 1] == Decimal(i / 10);
      ParseDecimalOf(i / 10);
    }
  }

  /** Leading zeros do not change the number a numeral denotes. */
  lemma {:induction false} ParseDecimalZeros(k: nat, s: string)
    requires AllDigits(s)
    ensures ParseDecimal(Zeros(k) + s) == ParseDecimal(s)
    decreases |s|, k
  {
    if s == [] {
      assert Zeros(k) + s == Zeros(k);
      if k > 0 {
        assert Zeros(k)[..k - 1] == Zeros(k - 1) + [];
        ParseDecimalZeros(k - 1, []);
      }
    } else {
      var t := Zeros(k) + s;
      assert t[..|t| - 1] == Zeros(k) + s[..|s| - 1];
      ParseDecimalZeros(k, s[..|s| - 1]);
    }
  }

  /** The padded numeral of a cluster number still denotes that number. */
  lemma PaddedValue(i: nat, w: nat)
    ensures AllDigits(ZeroPad(Decimal(i), w))
    ensures ParseDecimal(ZeroPad(Decimal(i), w)) == i
  {
    ParseDecimalOf(i);
    var s := Decimal(i);
    if |s| < w {
      ParseDecimalZeros(w - |s|, s);
    }
  }

  /** A numeral has at most `w` digits when the number is below 10^w. */
  lemma {:induction false} DecimalLength(i: nat, w: nat)
    requires w >= 1 && i < Pow10(w)
    ensures |Decimal(i)| <= w
  {
    if i >= 10 {
      assert w >= 2;
      assert i / 10 < Pow10(w - 1);
      DecimalLength(i / 10, w - 1);
    }
  }

  /** Distinct clusters of one clustering get distinct labels. */
  lemma LabelsDistinct(prefix: string, n: nat, i: nat, j: nat)
    requires ClusterLabel(prefix, n, i) == ClusterLabel(prefix, n, j)
    ensures i == j
  {
    var head := if prefix != "" then prefix + "_" else "";
    var a := ZeroPad(Decimal(i), Width(n));
    var b := ZeroPad(Decimal(j), Width(n));
    assert ClusterLabel(prefix, n, i)[|head|..] == a;
    assert ClusterLabel(prefix, n, j)[|head|..] == b;
    PaddedValue(i, Width(n));
    PaddedValue(j, Width(n));
  }

  /** With at least two clusters, every cluster number is written with exactly
      ceil(log10 n) digits, so all labels of a clustering have one length. */
  lemma LabelWidth(prefix: string, n: nat, i: nat)
    requires 2 <= n && i < n
    ensures |ClusterLabel(prefix, n, i)| == |prefix| + (if prefix != "" then 1 else 0) + Width(n)
  {
    DecimalLength(i, Width(n));
  }

  /** The total number of entries over all clusters (`n_points`). */
  function TotalSize(clusters: seq<seq<int>>): nat
  {
    if clusters == [] then 0 else TotalSize(clusters[..|clusters| - 1]) + |clusters[|clusters| - 1]|
  }

  /** Every entry of every cluster is a valid Python index into `total` labels. */
  predicate AllInRange(clusters: seq<seq<int>>, total: nat)
  {
    forall i, k :: 0 <= i < |clusters| && 0 <= k < |clusters[i]| ==> PySlot(clusters[i][k], total).Some?
  }

  /** Cluster `c` assigns label slot `p` (through a plain or negative index). */
  ghost predicate Holds(c: seq<int>, total: nat, p: nat)
  {
    exists k :: 0 <= k < |c| && PySlot(c[k], total) == Some(p)
  }

  /** The last cluster that assigns slot `p`, if any. */
  ghost function LastHolding(clusters: seq<seq<int>>, total: nat, p: nat): (r: Option<nat>)
    ensures r.Some? ==> r.value < |clusters| && Holds(clusters[r.value], total, p)
    ensures r.Some? ==> forall j :: r.value < j < |clusters| ==> !Holds(clusters[j], total, p)
    ensures r.None? ==> forall j :: 0 <= j < |clusters| ==> !Holds(clusters[j], total, p)
  {
    if clusters == [] then None
    else if Holds(clusters[|clusters| - 1], total, p) then Some(|clusters| - 1)
    else LastHolding(clusters[..|clusters| - 1], total, p)
  }

  /** The label slot `p` ends with after the first `m` clusters are written. */
  ghost function LabelAfter(clusters: seq<seq<int>>, m: nat, prefix: string, total: nat, p: nat): string
    requires m <= |clusters|
  {
    match LastHolding(clusters[..m], total, p)
    case None => "none"
    case Some(i) => ClusterLabel(prefix, |clusters|, i)
  }

  /** The label of data index `p`: the last cluster containing it, or "none". */
  ghost function ExpectedLabel(clusters: seq<seq<int>>, prefix: string, p: nat): string
  {
    LabelAfter(clusters, |clusters|, prefix, TotalSize(clusters), p)
  }

  /** `_clusters_to_labels`: None when some entry is out of range for the label list
      (IndexError); otherwise one label per index, the last containing cluster's. */
  method ClustersToLabels(clusters: seq<seq<int>>, prefix: string) returns (r: Option<seq<string>>)
    requires NoBraces(prefix)
    ensures r.None? <==> !AllInRange(clusters, TotalSize(clusters))
    ensures r.Some? ==> |r.value| == TotalSize(clusters)
    ensures r.Some? ==> forall p :: 0 <= p < |r.value| ==> r.value[p] == ExpectedLabel(clusters, prefix, p)
  {
    var n := |clusters|;
    if n == 0 {
      return Some([]);
    }
    var total := TotalSize(clusters);
    var labels := new string[total](_ => "none");
    for i := 0 to n
      invariant labels.Length == total
      invariant forall a, k :: 0 <= a < i && 0 <= k < |clusters[a]| ==> PySlot(clusters[a][k], total).Some?
      invariant forall p :: 0 <= p < total ==> labels[p] == LabelAfter(clusters, i, prefix, total, p)
    {
      var name := ClusterLabel(prefix, n, i);
      var cluster := clusters[i];
      for j := 0 to |cluster|
        invariant forall k :: 0 <= k < j ==> PySlot(cluster[k], total).Some?
        invariant forall p :: 0 <= p < total ==>
          labels[p] == (if Holds(cluster[..j], total, p) then name else LabelAfter(clusters, i, prefix, total, p))
      {
        var slot := PySlot(cluster[j], total);
        if slot.None? {
          assert !AllInRange(clusters, total) by {
            assert clusters[i][j] == cluster[j];
          }
          return None;
        }
        labels[slot.value] := name;
        forall p | 0 <= p < total
          ensures Holds(cluster[..j + 1], total, p) <==> Holds(cluster[..j], total, p) || p == slot.value
        {
          HoldsExtend(cluster, j, total, p);
        }
      }
      assert cluster[..|cluster|] == cluster;
      forall p | 0 <= p < total
        ensures labels[p] == LabelAfter(clusters, i + 1, prefix, total, p)
      {
        LabelAfterStep(clusters, i, prefix, total, p);
      }
    }
    assert clusters[..n] == clusters;
    r := Some(labels[..]);
  }

  /** One more entry of a cluster assigns one more slot. */
  lemma HoldsExtend(c: seq<int>, j: nat, total: nat, p: nat)
    requires j < |c|
    ensures Holds(c[..j + 1], total, p) <==> Holds(c[..j], total, p) || PySlot(c[j], total) == Some(p)
  {
    if Holds(c[..j + 1], total, p) {
      var k :| 0 <= k < j + 1 && PySlot(c[..j + 1][k], total) == Some(p);
      if k < j {
        assert c[..j][k] == c[..j + 1][k];
      }
    }
    if Holds(c[..j], total, p) {
      var k :| 0 <= k < j && PySlot(c[..j][k], total) == Some(p);
      assert c[..j + 1][k] == c[..j][k];
    }
    if PySlot(c[j], total) == Some(p) {
      assert c[..j + 1][j] == c[j];
    }
  }

  /** Writing cluster `i` relabels exactly the slots it holds. */
  lemma LabelAfterStep(clusters: seq<seq<int>>, i: nat, prefix: string, total: nat, p: nat)
    requires i < |clusters|
    ensures LabelAfter(clusters, i + 1, prefix, total, p)
         == if Holds(clusters[i], total, p) then ClusterLabel(prefix, |clusters|, i) else LabelAfter(clusters, i, prefix, total, p)
  {
    assert clusters[..i + 1][..i] == clusters[..i];
  }

  /** The last cluster containing an index is the one `LastHolding` finds. */
  lemma {:induction false} LastHoldingIs(clusters: seq<seq<int>>, total: nat, p: nat, i: nat)
    requires i < |clusters| && Holds(clusters[i], total, p)
    requires forall j :: i < j < |clusters| ==> !Holds(clusters[j], total, p)
    ensures LastHolding(clusters, total, p) == Some(i)
  {
    if i < |clusters| - 1 {
      var front := clusters[..|clusters| - 1];
      assert front[i] == clusters[i];
      forall j | i < j < |front|
        ensures !Holds(front[j], total, p)
      {
        assert front[j] == clusters[j];
      }
      LastHoldingIs(front, total, p, i);
    }
  }

  /** Indices of cluster `i` that no later cluster contains all get cluster `i`'s
      label; so the members of a cluster overlapping no later one share a label. */
  lemma SharedLabel(clusters: seq<seq<int>>, prefix: string, i: nat, p: nat)
    requires i < |clusters| && Holds(clusters[i], TotalSize(clusters), p)
    requires forall j :: i < j < |clusters| ==> !Holds(clusters[j], TotalSize(clusters), p)
    ensures ExpectedLabel(clusters, prefix, p) == ClusterLabel(prefix, |clusters|, i)
  {
    assert clusters[..|clusters|] == clusters;
    LastHoldingIs(clusters, TotalSize(clusters), p, i);
  }

  /** An index that no cluster contains keeps the label "none". */
  lemma UnassignedLabel(clusters: seq<seq<int>>, prefix: string, p: nat)
    requires forall j :: 0 <= j < |clusters| ==> !Holds(clusters[j], TotalSize(clusters), p)
    ensures ExpectedLabel(clusters, prefix, p) == "none"
  {
    assert clusters[..|clusters|] == clusters;
  }
}
