/** Shared vocabulary: the Mapper graph as the flare code reads it, walks in it,
    and small facts about sequences used by several modules. */
module Graphs {

  /** Node identifiers of a Mapper graph. */
  type Node = nat

  /** Entity identifiers (the names kept in a node's membership attribute). */
  type Entity = string

  /** A graph as the feature code sees it: the node iteration order, the neighbour
      list of each node (in iteration order) and each node's membership set
      (the `query_data` attribute, `unique_members` by default). */
  datatype Graph = Graph(nodes: seq<Node>, adj: map<Node, seq<Node>>, members: map<Node, set<Entity>>)

  /** A value that may be absent (Python's None). */
  datatype Option<T> = None | Some(value: T)

  /** Naturals extended with infinity (numpy's inf for an unreached distance). */
  datatype Ext = Fin(n: nat) | PosInf

  predicate LessEq(a: Ext, b: Ext)
  {
    b.PosInf? || (a.Fin? && a.n <= b.n)
  }

  /** The smaller of two extended values: one of them, below both. */
  function Min(a: Ext, b: Ext): (r: Ext)
    ensures r == a || r == b
    ensures LessEq(r, a) && LessEq(r, b)
  {
    if LessEq(a, b) then a else b
  }

  lemma LessEqTrans(a: Ext, b: Ext, c: Ext)
    requires LessEq(a, b) && LessEq(b, c)
    ensures LessEq(a, c)
  {
  }

  /** Reals extended with +infinity (numpy's inf used as a float). */
  datatype ExtReal = Finite(x: real) | Infinite

  /** Python's `<` on such values: nothing is below infinity except finite values. */
  predicate Below(a: ExtReal, b: ExtReal)
  {
    a.Finite? && (b.Infinite? || a.x < b.x)
  }

  /** Position `p` is where a scan that keeps the first strictly smaller value,
      starting from infinity, ends: a finite value strictly below everything before
      it, with nothing after it strictly below it. */
  predicate FirstLeast(xs: seq<ExtReal>, p: nat)
  {
    && p < |xs|
    && xs[p].Finite?
    && (forall k :: 0 <= k < p ==> Below(xs[p], xs[k]))
    && (forall k :: p <= k < |xs| ==> !Below(xs[k], xs[p]))
  }

  /** At most one position is a first strict minimum. */
  lemma FirstLeastUnique(xs: seq<ExtReal>, p: nat, q: nat)
    requires FirstLeast(xs, p) && FirstLeast(xs, q)
    ensures p == q
  {
  }

  /** The state of such a scan after reading `xs`: `best` is the value kept and `p` its
      position, or -1 while every value read is infinite and `best` is still infinity. */
  predicate ScanState(xs: seq<ExtReal>, p: int, best: ExtReal)
  {
    && -1 <= p < |xs|
    && (p == -1 ==> best == Infinite && forall k :: 0 <= k < |xs| ==> xs[k].Infinite?)
    && (p >= 0 ==> FirstLeast(xs, p) && best == xs[p])
  }

  /** Reading one more value `x` keeps the scan state, moving to `x` exactly when it is
      strictly below the value kept. */
  lemma ScanStep(xs: seq<ExtReal>, p: int, best: ExtReal, x: ExtReal)
    requires ScanState(xs, p, best)
    ensures Below(x, best) ==> ScanState(xs + [x], |xs|, x)
    ensures !Below(x, best) ==> ScanState(xs + [x], p, best)
  {
    var ys := xs + [x];
    if Below(x, best) && p >= 0 {
      forall k | 0 <= k < |xs|
        ensures Below(x, ys[k])
      {
        assert ys[k] == xs[k];
      }
    }
  }

  /** Python list indexing: a non-negative index addresses that slot, a negative one
      counts from the end; None stands for IndexError. */
  function PySlot(i: int, n: nat): (r: Option<nat>)
    ensures r.Some? <==> 0 <= i + n && i < n
    ensures r.Some? ==> r.value < n
  {
    if 0 <= i < n then Some(i as nat) else if 0 <= i + n && i < 0 then Some((n + i) as nat) else None
  }

  /** The neighbours of `x` in iteration order; a node without an adjacency entry has none. */
  function Neighbors(g: Graph, x: Node): seq<Node>
  {
    if x in g.adj then g.adj[x] else []
  }

  /** The elements of a sequence, as a set. */
  function Elems<T>(s: seq<T>): set<T>
  {
    set x | x in s
  }

  predicate Distinct<T(==)>(s: seq<T>)
  {
    forall i, j :: 0 <= i < j < |s| ==> s[i] != s[j]
  }

  /** Well-formedness of a graph value: nodes are listed once, every node carries the
      membership attribute, and adjacency only mentions nodes of the graph. */
  ghost predicate ValidGraph(g: Graph)
  {
    && Distinct(g.nodes)
    && (forall x :: x in g.nodes ==> x in g.members)
    && AdjKeysAreNodes(g)
    && (forall x, y :: x in g.adj && y in g.adj[x] ==> y in g.nodes)
  }

  /** Only listed nodes carry an adjacency entry. */
  ghost predicate AdjKeysAreNodes(g: Graph)
  {
    forall x :: x in g.adj ==> x in g.nodes
  }

  /** `p` follows edges of `g` and stays inside the node set `h`. */
  ghost predicate IsWalkIn(g: Graph, h: set<Node>, p: seq<Node>)
  {
    && |p| >= 1
    && (forall i :: 0 <= i < |p| ==> p[i] in h)
    && (forall i :: 0 <= i < |p| - 1 ==> p[i + 1] in Neighbors(g, p[i]))
  }

  /** `r` is obtained from `s` by deleting elements, keeping the order of the rest. */
  ghost predicate IsSubsequence<T>(r: seq<T>, s: seq<T>)
    decreases |s|
  {
    if r == [] then true
    else if s == [] then false
    else (r[|r| - 1] == s[|s| - 1] && IsSubsequence(r[..|r| - 1], s[..|s| - 1]))
         || IsSubsequence(r, s[..|s| - 1])
  }

  /** The elements of a sequence without repetitions are counted by its length. */
  lemma {:induction false} DistinctCard<T>(s: seq<T>)
    requires Distinct(s)
    ensures |set x | x in s| == |s|
  {
    if s != [] {
      var t := s[..|s| - 1];
      assert Distinct(t);
      DistinctCard(t);
      assert (set x | x in s) == (set x | x in t) + {s[|s| - 1]};
      assert s[|s| - 1] !in (set x | x in t);
    }
  }

  /** A sequence longer than the set it lives in repeats an element (pigeonhole). */
  lemma Pigeonhole<T>(s: seq<T>, h: set<T>)
    requires forall i :: 0 <= i < |s| ==> s[i] in h
    requires |s| > |h|
    ensures !Distinct(s)
  {
    if Distinct(s) {
      DistinctCard(s);
      assert (set x | x in s) <= h;
      SubsetCard((set x | x in s), h);
    }
  }

  lemma SubsetCard<T>(a: set<T>, b: set<T>)
    requires a <= b
    ensures |a| <= |b|
  {
    assert b == a + (b - a);
  }
}
