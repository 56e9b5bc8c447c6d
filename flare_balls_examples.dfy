/** The flareness examples of the test suite (tests/test_flare_balls.py). They run on
    path_graph(6) and on the disjoint union of path_graph(6) and path_graph(4), whose
    second path networkx relabels 6, ..., 9. Both are a line of nodes 0, ..., n - 1 cut
    before node `cut`: node i touches i + 1 unless i + 1 is `cut` (a single path has its
    cut at n). Node 0 holds one entity and every other node another. */
module FlareBallsExamples {
  import opened Graphs
  import opened CoreShell
  import opened Components
  import opened ShortestPaths
  import opened FlareBalls

  /** The nodes lo, ..., hi - 1, ascending. */
  function Seg(lo: nat, hi: nat): (r: seq<Node>)
    ensures forall x :: x in r <==> lo <= x < hi
    ensures |r| == if lo <= hi then hi - lo else 0
    decreases hi - lo
  {
    if lo >= hi then [] else [lo] + Seg(lo + 1, hi)
  }

  lemma {:induction false} SegSnoc(lo: nat, hi: nat)
    requires lo <= hi
    ensures Seg(lo, hi + 1) == Seg(lo, hi) + [hi]
    decreases hi - lo
  {
    if lo < hi {
      SegSnoc(lo + 1, hi);
    }
  }

  lemma {:induction false} SegAt(lo: nat, hi: nat, i: nat)
    requires lo + i < hi
    ensures |Seg(lo, hi)| == hi - lo && Seg(lo, hi)[i] == lo + i
    decreases hi - lo
  {
    if i > 0 {
      SegAt(lo + 1, hi, i - 1);
    } else if lo + 1 < hi {
      SegAt(lo + 1, hi, 0);
    }
  }

  lemma SegDistinct(lo: nat, hi: nat)
    ensures Distinct(Seg(lo, hi))
  {
    forall i, j | 0 <= i < j < |Seg(lo, hi)|
      ensures Seg(lo, hi)[i] != Seg(lo, hi)[j]
    {
      SegAt(lo, hi, i);
      SegAt(lo, hi, j);
    }
  }

  /** The edges of the line cut before `cut`: consecutive nodes below n, except the
      pair cut - 1, cut. */
  predicate Edge(n: nat, cut: nat, x: Node, y: Node)
  {
    x < n && y < n && ((y == x + 1 && y != cut) || (x == y + 1 && x != cut))
  }

  /** networkx's adjacency of such a line: the lower neighbour, then the upper one. */
  function LineNeighbors(n: nat, cut: nat, i: Node): seq<Node>
  {
    (if 0 < i && i != cut then [i - 1] else []) + (if i + 1 < n && i + 1 != cut then [i + 1] else [])
  }

  /** The line of n nodes cut before `cut`, node 0 holding `first` and every other node
      holding `rest`. */
  function Line(n: nat, cut: nat, first: Entity, rest: Entity): Graph
  {
    var nodes := Seg(0, n);
    Graph(nodes, map i | i in Elems(nodes) :: LineNeighbors(n, cut, i),
          map i | i in Elems(nodes) :: if i == 0 then {first} else {rest})
  }

  /** The adjacency of `g` is that of the line. */
  ghost predicate LineEdges(g: Graph, n: nat, cut: nat)
  {
    forall x, y :: y in Neighbors(g, x) <==> Edge(n, cut, x, y)
  }

  /** Every node below n carries a membership set, which holds `rest` except at node 0
      when `first` differs from it. */
  ghost predicate LineHolding(g: Graph, n: nat, first: Entity, rest: Entity)
  {
    forall x: Node :: x < n ==> x in g.members && (rest in g.members[x] <==> x != 0 || first == rest)
  }

  /** What the examples use of such a graph. */
  ghost predicate LineLike(g: Graph, n: nat, cut: nat, first: Entity, rest: Entity)
  {
    ValidGraph(g) && g.nodes == Seg(0, n) && LineEdges(g, n, cut) && LineHolding(g, n, first, rest)
  }

  lemma LineIsLineLike(n: nat, cut: nat, first: Entity, rest: Entity)
    ensures LineLike(Line(n, cut, first, rest), n, cut, first, rest)
  {
    SegDistinct(0, n);
    LineHasEdges(n, cut, first, rest);
    LineHasHolding(n, cut, first, rest);
  }

  lemma LineHasEdges(n: nat, cut: nat, first: Entity, rest: Entity)
    ensures LineEdges(Line(n, cut, first, rest), n, cut)
  {
    var g := Line(n, cut, first, rest);
    forall x: Node, y: Node
      ensures y in Neighbors(g, x) <==> Edge(n, cut, x, y)
    {
      if x < n {
        assert x in Elems(g.nodes);
        assert Neighbors(g, x) == LineNeighbors(n, cut, x);
      } else {
        assert x !in Elems(g.nodes);
      }
    }
  }

  lemma LineHasHolding(n: nat, cut: nat, first: Entity, rest: Entity)
    ensures LineHolding(Line(n, cut, first, rest), n, first, rest)
  {
    var g := Line(n, cut, first, rest);
    forall x: Node | x < n
      ensures x in g.members && (rest in g.members[x] <==> x != 0 || first == rest)
    {
      assert x in Elems(g.nodes);
    }
  }

  /** The nodes holding `rest`: all of them when node 0 holds it too, else all but 0. */
  lemma {:induction false} LineHolders(g: Graph, n: nat, first: Entity, rest: Entity, k: nat)
    requires LineHolding(g, n, first, rest) && k <= n
    ensures Containing(g, rest, Seg(0, k)) == Seg(if first == rest then 0 else 1, k)
  {
    var s := if first == rest then 0 else 1;
    if k > 0 {
      LineHolders(g, n, first, rest, k - 1);
      SegSnoc(0, k - 1);
      ContainingSnoc(g, rest, Seg(0, k - 1), k - 1);
      assert rest in g.members[k - 1] <==> k - 1 >= s;
      if k - 1 >= s {
        SegSnoc(s, k - 1);
      }
    }
  }

  lemma ContainingSnoc(g: Graph, e: Entity, xs: seq<Node>, x: Node)
    requires forall y :: y in xs + [x] ==> y in g.members
    ensures Containing(g, e, xs + [x]) == Containing(g, e, xs) + (if e in g.members[x] then [x] else [])
  {
    assert (xs + [x])[..|xs|] == xs;
  }

  /** Node x of the holders Seg(s, n) is core exactly when it is not node 1 of a line
      whose node 0 does not hold the entity. */
  lemma LineCore(g: Graph, n: nat, cut: nat, s: nat, x: Node)
    requires LineEdges(g, n, cut) && 2 <= cut && s <= 1 && s <= x < n
    ensures IsCore(g, Seg(s, n), x) <==> s == 0 || x >= 2
  {
    if s == 1 && x == 1 {
      assert Edge(n, cut, 1, 0);
      assert 0 in Neighbors(g, 1);
    }
  }

  /** The core and shell of the holders Seg(s, n) as scanned up to k. */
  lemma LineCoreShell(g: Graph, n: nat, cut: nat, s: nat, k: nat)
    requires LineEdges(g, n, cut) && 2 <= cut && s <= 1 && s <= k <= n
    ensures CoreOf(g, Seg(s, n), Seg(s, k)) == Seg(if s == 0 then 0 else 2, k)
    ensures ShellOf(g, Seg(s, n), Seg(s, k)) == if s == 1 && k >= 2 then [1] else []
  {
    var h := Seg(s, n);
    var c0 := if s == 0 then 0 else 2;
    if c0 < k {
      var xs := Seg(c0, k);
      forall i | 0 <= i < |xs|
        ensures IsCore(g, h, xs[i])
      {
        assert xs[i] in xs;
        LineCore(g, n, cut, s, xs[i]);
      }
      ScanAllCore(g, h, xs);
    }
    if s == 1 && k >= 2 {
      assert Seg(1, k) == [1] + Seg(2, k);
      LineCore(g, n, cut, 1, 1);
      assert [1][..0] == [];
      ScanConcat(g, h, [1], Seg(2, k));
    }
  }

  /** A scan over core nodes only puts all of them in the core. */
  lemma {:induction false} ScanAllCore(g: Graph, h: seq<Node>, xs: seq<Node>)
    requires forall i :: 0 <= i < |xs| ==> IsCore(g, h, xs[i])
    ensures CoreOf(g, h, xs) == xs && ShellOf(g, h, xs) == []
    decreases |xs|
  {
    if xs != [] {
      var init := xs[..|xs| - 1];
      ScanAllCore(g, h, init);
      assert xs == init + [xs[|xs| - 1]];
    }
  }

  /** Scanning two lists one after the other. */
  lemma ScanConcat(g: Graph, h: seq<Node>, xs: seq<Node>, ys: seq<Node>)
    ensures CoreOf(g, h, xs + ys) == CoreOf(g, h, xs) + CoreOf(g, h, ys)
    ensures ShellOf(g, h, xs + ys) == ShellOf(g, h, xs) + ShellOf(g, h, ys)
  {
    CoreConcat(g, h, xs, ys);
    ShellConcat(g, h, xs, ys);
  }

  lemma {:induction false} CoreConcat(g: Graph, h: seq<Node>, xs: seq<Node>, ys: seq<Node>)
    ensures CoreOf(g, h, xs + ys) == CoreOf(g, h, xs) + CoreOf(g, h, ys)
    decreases |ys|
  {
    if ys == [] {
      assert xs + ys == xs;
    } else {
      var init, y := ys[..|ys| - 1], ys[|ys| - 1];
      var t := if IsCore(g, h, y) then [y] else [];
      CoreConcat(g, h, xs, init);
      var zs := xs + ys;
      assert zs[..|zs| - 1] == xs + init && zs[|zs| - 1] == y;
      assert CoreOf(g, h, zs) == CoreOf(g, h, xs + init) + t;
      assert CoreOf(g, h, ys) == CoreOf(g, h, init) + t;
      assert (CoreOf(g, h, xs) + CoreOf(g, h, init)) + t == CoreOf(g, h, xs) + (CoreOf(g, h, init) + t);
    }
  }

  lemma {:induction false} ShellConcat(g: Graph, h: seq<Node>, xs: seq<Node>, ys: seq<Node>)
    ensures ShellOf(g, h, xs + ys) == ShellOf(g, h, xs) + ShellOf(g, h, ys)
    decreases |ys|
  {
    if ys == [] {
      assert xs + ys == xs;
    } else {
      var init, y := ys[..|ys| - 1], ys[|ys| - 1];
      var t := if IsCore(g, h, y) then [] else [y];
      ShellConcat(g, h, xs, init);
      var zs := xs + ys;
      assert zs[..|zs| - 1] == xs + init && zs[|zs| - 1] == y;
      assert ShellOf(g, h, zs) == ShellOf(g, h, xs + init) + t;
      assert ShellOf(g, h, ys) == ShellOf(g, h, init) + t;
      assert (ShellOf(g, h, xs) + ShellOf(g, h, init)) + t == ShellOf(g, h, xs) + (ShellOf(g, h, init) + t);
    }
  }

  /** A walk never crosses the cut. */
  lemma {:induction false} WalkSide(g: Graph, n: nat, cut: nat, h: set<Node>, p: seq<Node>, i: nat)
    requires LineEdges(g, n, cut)
    requires IsWalkIn(g, h, p) && i < |p|
    ensures p[i] < cut <==> p[0] < cut
  {
    if i > 0 {
      WalkSide(g, n, cut, h, p, i - 1);
      assert Edge(n, cut, p[i - 1], p[i]);
    }
  }

  /** A unit-weight walk along the line gains at most one node per edge. */
  lemma {:induction false} WalkSpan(g: Graph, n: nat, cut: nat, h: set<Node>, p: seq<Node>)
    requires LineEdges(g, n, cut)
    requires IsWalkIn(g, h, p)
    ensures p[|p| - 1] <= p[0] + WalkWeight(UnitWeight(), p)
    decreases |p|
  {
    if |p| > 1 {
      var q := p[1..];
      assert IsWalkIn(g, h, q) by {
        forall i | 0 <= i < |q| - 1
          ensures q[i + 1] in Neighbors(g, q[i])
        {
          assert q[i] == p[i + 1] && q[i + 1] == p[i + 2];
        }
      }
      WalkSpan(g, n, cut, h, q);
      assert Edge(n, cut, p[0], p[1]);
    }
  }

  /** The straight walk lo, ..., hi - 1 below the cut, or from the cut upwards. */
  lemma SegWalk(g: Graph, n: nat, cut: nat, h: set<Node>, lo: nat, hi: nat)
    requires LineEdges(g, n, cut)
    requires lo < hi <= n && (hi <= cut || cut <= lo)
    requires forall x :: lo <= x < hi ==> x in h
    ensures IsWalkIn(g, h, Seg(lo, hi)) && Seg(lo, hi)[0] == lo && Seg(lo, hi)[hi - lo - 1] == hi - 1
    ensures WalkWeight(UnitWeight(), Seg(lo, hi)) == hi - lo - 1
  {
    var p := Seg(lo, hi);
    SegAt(lo, hi, 0);
    SegAt(lo, hi, hi - lo - 1);
    forall i | 0 <= i < |p|
      ensures p[i] in h
    {
      SegAt(lo, hi, i);
    }
    forall i | 0 <= i < |p| - 1
      ensures p[i + 1] in Neighbors(g, p[i])
    {
      SegAt(lo, hi, i);
      SegAt(lo, hi, i + 1);
      assert Edge(n, cut, lo + i, lo + i + 1);
    }
    SegWeight(lo, hi);
  }

  /** Each of the hi - lo - 1 steps of the straight walk weighs one. */
  lemma {:induction false} SegWeight(lo: nat, hi: nat)
    requires lo < hi
    ensures WalkWeight(UnitWeight(), Seg(lo, hi)) == hi - lo - 1
    decreases hi - lo
  {
    if lo + 1 < hi {
      SegWeight(lo + 1, hi);
      SegAt(lo + 1, hi, 0);
      assert Seg(lo, hi) == [lo] + Seg(lo + 1, hi);
      assert Seg(lo, hi)[1..] == Seg(lo + 1, hi);
    }
  }

  /** The component of a seed in the induced line Seg(lo, n) with lo < cut: the nodes
      of the seed's side of the cut. */
  lemma LineComponent(g: Graph, n: nat, cut: nat, lo: nat, seed: Node, y: Node)
    requires LineEdges(g, n, cut)
    requires lo <= seed < n && (seed == lo || seed == cut) && lo < cut
    ensures y in Closure(g, Elems(Seg(lo, n)), {seed}) <==>
      if seed < cut then lo <= y < cut && y < n else cut <= y < n
  {
    ReachIffClosure(g, Elems(Seg(lo, n)), seed, y);
    if seed < cut {
      if lo <= y < cut && y < n {
        SideConnected(g, n, cut, lo, seed, y);
      }
    } else if cut <= y < n {
      SideConnected(g, n, cut, lo, seed, y);
    }
    if Connected(g, Elems(Seg(lo, n)), seed, y) {
      ConnectedSide(g, n, cut, Elems(Seg(lo, n)), seed, y);
    }
  }

  /** The straight walk from the seed reaches every node above it on its side. */
  lemma SideConnected(g: Graph, n: nat, cut: nat, lo: nat, seed: Node, y: Node)
    requires LineEdges(g, n, cut)
    requires lo <= seed <= y < n && (y < cut || cut <= seed)
    ensures Connected(g, Elems(Seg(lo, n)), seed, y)
  {
    SegWalk(g, n, cut, Elems(Seg(lo, n)), seed, y + 1);
  }

  /** Nodes connected to each other lie on the same side of the cut. */
  lemma ConnectedSide(g: Graph, n: nat, cut: nat, w: set<Node>, x: Node, y: Node)
    requires LineEdges(g, n, cut)
    requires Connected(g, w, x, y)
    ensures y < cut <==> x < cut
  {
    var p :| IsWalkIn(g, w, p) && p[0] == x && p[|p| - 1] == y;
    WalkSide(g, n, cut, w, p, |p| - 1);
  }

  /** Dropping the nodes of a component: those of Seg(lo, hi) below m lie in `c`, the
      others do not. */
  lemma {:induction false} WithoutSeg(lo: nat, hi: nat, m: nat, c: set<Node>)
    requires lo <= m <= hi
    requires forall x :: lo <= x < m ==> x in c
    requires forall x :: m <= x < hi ==> x !in c
    ensures Without(Seg(lo, hi), c) == Seg(m, hi)
    decreases hi - lo
  {
    if lo < hi {
      var s := Seg(lo, hi);
      assert s[0] == lo && s[1..] == Seg(lo + 1, hi);
      if lo < m {
        WithoutSeg(lo + 1, hi, m, c);
      } else {
        WithoutSeg2(lo, hi, c);
      }
    }
  }

  /** A run none of whose nodes lies in `c` is kept whole. */
  lemma {:induction false} WithoutSeg2(lo: nat, hi: nat, c: set<Node>)
    requires forall x :: lo <= x < hi ==> x !in c
    ensures Without(Seg(lo, hi), c) == Seg(lo, hi)
    decreases hi - lo
  {
    if lo < hi {
      var s := Seg(lo, hi);
      assert s[0] == lo && s[1..] == Seg(lo + 1, hi);
      WithoutSeg2(lo + 1, hi, c);
    }
  }

  /** The closure of a seed in the induced line Seg(lo, n) is the run of its side of
      the cut, ending at `hi`. */
  lemma LineClosure(g: Graph, n: nat, cut: nat, lo: nat, seed: Node, hi: nat)
    requires LineEdges(g, n, cut) && lo < cut <= n
    requires (seed == lo && hi == cut) || (seed == cut && cut < n && hi == n)
    ensures Closure(g, Elems(Seg(lo, n)), {seed}) == Elems(Seg(seed, hi))
  {
    forall y: Node
      ensures y in Closure(g, Elems(Seg(lo, n)), {seed}) <==> y in Elems(Seg(seed, hi))
    {
      LineComponent(g, n, cut, lo, seed, y);
    }
  }

  /** One step of ComponentsFrom: the first closure, then the scan of what is left. */
  lemma ComponentsStep(g: Graph, w: set<Node>, todo: seq<Node>, c: set<Node>, rest: seq<Node>)
    requires todo != [] && forall x :: x in todo ==> x in w
    requires Closure(g, w, {todo[0]}) == c && Without(todo[1..], c) == rest
    ensures ComponentsFrom(g, w, todo) == [c] + ComponentsFrom(g, w, rest)
  {
  }

  /** One step of ComponentsFrom on a run Seg(lo, hi) whose first closure is
      Seg(lo, m): the rest of the scan starts at m. */
  lemma ComponentsRun(g: Graph, w: set<Node>, lo: nat, m: nat, hi: nat)
    requires lo < m <= hi
    requires forall x :: lo <= x < hi ==> x in w
    requires Closure(g, w, {lo}) == Elems(Seg(lo, m))
    ensures ComponentsFrom(g, w, Seg(lo, hi)) == [Elems(Seg(lo, m))] + ComponentsFrom(g, w, Seg(m, hi))
  {
    var s := Seg(lo, hi);
    assert s[0] == lo && s[1..] == Seg(lo + 1, hi);
    WithoutSeg(lo + 1, hi, m, Elems(Seg(lo, m)));
    ComponentsStep(g, w, s, Elems(Seg(lo, m)), Seg(m, hi));
  }

  /** The components of the induced line Seg(lo, n), lo < cut <= n, in networkx's
      order: the part below the cut, then the part from the cut on when there is one. */
  lemma LineComponents(g: Graph, n: nat, cut: nat, lo: nat)
    requires LineEdges(g, n, cut) && lo < cut <= n
    ensures |ComponentsOf(g, Seg(lo, n))| == if cut < n then 2 else 1
    ensures ComponentsOf(g, Seg(lo, n))[0] == Elems(Seg(lo, cut))
    ensures cut < n ==> ComponentsOf(g, Seg(lo, n))[1] == Elems(Seg(cut, n))
  {
    var w := Elems(Seg(lo, n));
    LineClosure(g, n, cut, lo, lo, cut);
    ComponentsRun(g, w, lo, cut, n);
    if cut < n {
      LineClosure(g, n, cut, lo, cut, n);
      ComponentsRun(g, w, cut, n, n);
    }
  }

  /** From the shell {1} inside the holders 1, ..., n - 1, every node below the cut is
      at most its position minus one away. */
  lemma LineDistanceBelow(g: Graph, n: nat, cut: nat, h: set<Node>, src: set<Node>, x: Node)
    requires ValidGraph(g) && LineEdges(g, n, cut) && 1 <= x < cut <= n
    requires (forall y :: y in h <==> 1 <= y < n) && 1 in src
    ensures x in ShellDistances(g, h, src, UnitWeight()) && ShellDistances(g, h, src, UnitWeight())[x] <= x - 1
  {
    SegWalk(g, n, cut, h, 1, x + 1);
    DistanceOptimal(g, h, src, UnitWeight(), Seg(1, x + 1), x);
  }

  /** A node reached from the shell {1} lies below the cut, at least its position minus
      one away. */
  lemma LineDistanceAbove(g: Graph, n: nat, cut: nat, h: set<Node>, src: set<Node>, x: Node)
    requires LineEdges(g, n, cut) && 1 < cut
    requires forall y :: y in src <==> y == 1
    requires x in ShellDistances(g, h, src, UnitWeight())
    ensures x < cut && ShellDistances(g, h, src, UnitWeight())[x] >= x - 1
  {
    DistanceSound(g, h, src, UnitWeight(), x);
    var p :| WalkFrom(g, h, src, p, x) && WalkWeight(UnitWeight(), p) == ShellDistances(g, h, src, UnitWeight())[x];
    WalkSide(g, n, cut, h, p, |p| - 1);
    WalkSpan(g, n, cut, h, p);
  }

  /** The component below the cut reaches the shell in at most cut - 2 steps, and its
      top node needs all of them; the component from the cut on never reaches it. */
  lemma LineValues(g: Graph, n: nat, cut: nat, h: set<Node>, src: set<Node>)
    requires ValidGraph(g) && LineEdges(g, n, cut) && 3 <= cut <= n
    requires h == Elems(Seg(1, n)) && src == Elems([1])
    ensures cut - 1 in Elems(Seg(2, cut)) &&
      ComponentValue(Elems(Seg(2, cut)), ShellDistances(g, h, src, UnitWeight())) == Fin(cut - 2)
    ensures cut < n ==> (cut in Elems(Seg(cut, n)) &&
      ComponentValue(Elems(Seg(cut, n)), ShellDistances(g, h, src, UnitWeight())) == PosInf)
  {
    var d := ShellDistances(g, h, src, UnitWeight());
    forall x: Node | 2 <= x < cut
      ensures x in d && d[x] == x - 1
    {
      LineDistanceBelow(g, n, cut, h, src, x);
      LineDistanceAbove(g, n, cut, h, src, x);
    }
    assert cut - 1 in Elems(Seg(2, cut));
    if cut < n {
      if cut in d {
        LineDistanceAbove(g, n, cut, h, src, cut);
      }
      assert cut in Elems(Seg(cut, n));
    }
  }

  /** FlarenessOf assembled from its parts. */
  lemma FlarenessFromParts(g: Graph, e: Entity, w: Weight, h: seq<Node>, shell: seq<Node>,
                           cs: seq<set<Node>>, d: map<Node, nat>)
    requires ValidGraph(g)
    requires NodesContaining(g, e) == h && |h| > 0
    requires ShellOf(g, h, h) == shell && ComponentsOf(g, CoreOf(g, h, h)) == cs
    requires MemberDistances(g, h, shell, w) == d
    requires forall k :: 0 <= k < |cs| ==> cs[k] != {}
    ensures FlarenessOf(g, e, w) == Some(ComponentValues(cs, d))
  {
  }

  /** The holders, core and shell of the flare case: Seg(1, n), Seg(2, n) and [1]. */
  lemma LineFlareParts(g: Graph, n: nat, cut: nat, first: Entity, rest: Entity)
    requires LineLike(g, n, cut, first, rest) && first != rest && 2 <= cut <= n
    ensures NodesContaining(g, rest) == Seg(1, n)
    ensures CoreOf(g, Seg(1, n), Seg(1, n)) == Seg(2, n) && ShellOf(g, Seg(1, n), Seg(1, n)) == [1]
  {
    LineHolders(g, n, first, rest, n);
    LineCoreShell(g, n, cut, 1, n);
  }

  /** The holders, core and shell of the island case: Seg(0, n) twice and []. */
  lemma LineIslandParts(g: Graph, n: nat, cut: nat, e: Entity)
    requires LineLike(g, n, cut, e, e) && 2 <= cut <= n
    ensures NodesContaining(g, e) == Seg(0, n)
    ensures CoreOf(g, Seg(0, n), Seg(0, n)) == Seg(0, n) && ShellOf(g, Seg(0, n), Seg(0, n)) == []
  {
    LineHolders(g, n, e, e, n);
    LineCoreShell(g, n, cut, 0, n);
  }

  /** The flare case: node 0 alone holds another entity, so the shell is {1}, the
      core is Seg(2, n), and the entries are cut - 2 for the part below the cut and
      infinity for the part above it, if any. */
  lemma LineFlareness(g: Graph, n: nat, cut: nat, first: Entity, rest: Entity)
    requires LineLike(g, n, cut, first, rest) && first != rest && 3 <= cut <= n
    ensures FlarenessOf(g, rest, UnitWeight()) ==
      Some(if cut < n then [Fin(cut - 2), PosInf] else [Fin(cut - 2)])
  {
    LineFlareParts(g, n, cut, first, rest);
    FlareOfParts(g, n, cut, rest);
  }

  lemma FlareOfParts(g: Graph, n: nat, cut: nat, e: Entity)
    requires ValidGraph(g) && LineEdges(g, n, cut) && 3 <= cut <= n
    requires NodesContaining(g, e) == Seg(1, n)
    requires CoreOf(g, Seg(1, n), Seg(1, n)) == Seg(2, n) && ShellOf(g, Seg(1, n), Seg(1, n)) == [1]
    ensures FlarenessOf(g, e, UnitWeight()) ==
      Some(if cut < n then [Fin(cut - 2), PosInf] else [Fin(cut - 2)])
  {
    var d := ShellDistances(g, Elems(Seg(1, n)), Elems([1]), UnitWeight());
    var cs := ComponentsOf(g, Seg(2, n));
    FlareEntries(g, n, cut);
    if cut < n {
      FlareValues(g, e, Seg(1, n), [1], cs, d, [Fin(cut - 2), PosInf]);
    } else {
      FlareValues(g, e, Seg(1, n), [1], cs, d, [Fin(cut - 2)]);
    }
  }

  /** The components of the core Seg(2, n) and their entries. */
  lemma FlareEntries(g: Graph, n: nat, cut: nat)
    requires ValidGraph(g) && LineEdges(g, n, cut) && 3 <= cut <= n
    ensures var cs := ComponentsOf(g, Seg(2, n));
      var d := ShellDistances(g, Elems(Seg(1, n)), Elems([1]), UnitWeight());
      && |cs| == (if cut < n then 2 else 1)
      && cs[0] != {} && ComponentValue(cs[0], d) == Fin(cut - 2)
      && (|cs| == 2 ==> cs[1] != {} && ComponentValue(cs[1], d) == PosInf)
  {
    LineComponents(g, n, cut, 2);
    LineValues(g, n, cut, Elems(Seg(1, n)), Elems([1]));
  }

  /** FlarenessOf assembled from its parts, for one or two components. */
  lemma FlareValues(g: Graph, e: Entity, h: seq<Node>, shell: seq<Node>, cs: seq<set<Node>>,
                    d: map<Node, nat>, vs: seq<Ext>)
    requires ValidGraph(g)
    requires NodesContaining(g, e) == h && |h| > 0
    requires ShellOf(g, h, h) == shell && ComponentsOf(g, CoreOf(g, h, h)) == cs && |shell| > 0
    requires ShellDistances(g, Elems(h), Elems(shell), UnitWeight()) == d
    requires 1 <= |cs| <= 2 && |vs| == |cs|
    requires cs[0] != {} && vs[0] == ComponentValue(cs[0], d)
    requires |cs| == 2 ==> cs[1] != {} && vs[1] == ComponentValue(cs[1], d)
    ensures FlarenessOf(g, e, UnitWeight()) == Some(vs)
  {
    forall k | 0 <= k < |cs|
      ensures cs[k] != {} && vs[k] == ComponentValue(cs[k], d)
    {
      assert k == 0 || k == 1;
    }
    ValuesFromParts(g, e, h, shell, cs, d, vs);
  }

  lemma ValuesFromParts(g: Graph, e: Entity, h: seq<Node>, shell: seq<Node>, cs: seq<set<Node>>,
                        d: map<Node, nat>, vs: seq<Ext>)
    requires ValidGraph(g)
    requires NodesContaining(g, e) == h && |h| > 0
    requires ShellOf(g, h, h) == shell && ComponentsOf(g, CoreOf(g, h, h)) == cs && |shell| > 0
    requires ShellDistances(g, Elems(h), Elems(shell), UnitWeight()) == d
    requires |vs| == |cs| && forall k :: 0 <= k < |cs| ==> cs[k] != {} && vs[k] == ComponentValue(cs[k], d)
    ensures FlarenessOf(g, e, UnitWeight()) == Some(vs)
  {
    FlarenessFromParts(g, e, UnitWeight(), h, shell, cs, d);
    assert ComponentValues(cs, d) == vs;
  }

  /** The island case: every node holds the entity, so the shell is empty, the core is
      the whole line, and every part of it is infinitely far from the (empty) shell. */
  lemma LineIsland(g: Graph, n: nat, cut: nat, e: Entity)
    requires LineLike(g, n, cut, e, e) && 2 <= cut <= n
    ensures FlarenessOf(g, e, UnitWeight()) ==
      Some(if cut < n then [PosInf, PosInf] else [PosInf])
  {
    LineIslandParts(g, n, cut, e);
    IslandOfParts(g, n, cut, e);
  }

  lemma IslandOfParts(g: Graph, n: nat, cut: nat, e: Entity)
    requires ValidGraph(g) && LineEdges(g, n, cut) && 2 <= cut <= n
    requires NodesContaining(g, e) == Seg(0, n)
    requires CoreOf(g, Seg(0, n), Seg(0, n)) == Seg(0, n) && ShellOf(g, Seg(0, n), Seg(0, n)) == []
    ensures FlarenessOf(g, e, UnitWeight()) ==
      Some(if cut < n then [PosInf, PosInf] else [PosInf])
  {
    LineComponentsCount(g, n, cut, 0);
    if cut < n {
      IslandValues(g, e, Seg(0, n), ComponentsOf(g, Seg(0, n)), [PosInf, PosInf]);
    } else {
      IslandValues(g, e, Seg(0, n), ComponentsOf(g, Seg(0, n)), [PosInf]);
    }
  }

  /** The line Seg(lo, n) has one or two components, none of them empty. */
  lemma LineComponentsCount(g: Graph, n: nat, cut: nat, lo: nat)
    requires LineEdges(g, n, cut) && lo < cut <= n
    ensures |ComponentsOf(g, Seg(lo, n))| == if cut < n then 2 else 1
    ensures ComponentsOf(g, Seg(lo, n))[0] != {}
    ensures cut < n ==> ComponentsOf(g, Seg(lo, n))[1] != {}
  {
    LineComponents(g, n, cut, lo);
    assert lo in Elems(Seg(lo, cut));
    if cut < n {
      assert cut in Elems(Seg(cut, n));
    }
  }

  /** With an empty shell, every component is infinitely far away. */
  lemma IslandValues(g: Graph, e: Entity, h: seq<Node>, cs: seq<set<Node>>, vs: seq<Ext>)
    requires ValidGraph(g)
    requires NodesContaining(g, e) == h && |h| > 0
    requires ShellOf(g, h, h) == [] && ComponentsOf(g, CoreOf(g, h, h)) == cs
    requires 1 <= |cs| <= 2 && |vs| == |cs| && cs[0] != {} && vs[0] == PosInf
    requires |cs| == 2 ==> cs[1] != {} && vs[1] == PosInf
    ensures FlarenessOf(g, e, UnitWeight()) == Some(vs)
  {
    forall k | 0 <= k < |cs|
      ensures cs[k] != {} && vs[k] == PosInf
    {
      assert k == 0 || k == 1;
    }
    FlarenessFromParts(g, e, UnitWeight(), h, [], cs, map[]);
    assert ComponentValues(cs, map[]) == vs;
  }

  /** The flare case on the line graph itself. */
  lemma LineGraphFlareness(n: nat, cut: nat, first: Entity, rest: Entity)
    requires first != rest && 3 <= cut <= n
    ensures ValidGraph(Line(n, cut, first, rest))
    ensures FlarenessOf(Line(n, cut, first, rest), rest, UnitWeight()) ==
      Some(if cut < n then [Fin(cut - 2), PosInf] else [Fin(cut - 2)])
  {
    LineIsLineLike(n, cut, first, rest);
    LineFlareness(Line(n, cut, first, rest), n, cut, first, rest);
  }

  /** The island case on the line graph itself. */
  lemma LineGraphIsland(n: nat, cut: nat, e: Entity)
    requires 2 <= cut <= n
    ensures ValidGraph(Line(n, cut, e, e))
    ensures FlarenessOf(Line(n, cut, e, e), e, UnitWeight()) ==
      Some(if cut < n then [PosInf, PosInf] else [PosInf])
  {
    LineIsLineLike(n, cut, e, e);
    LineIsland(Line(n, cut, e, e), n, cut, e);
  }

  /** test_flareness: path_graph(6), node 0 holding 'bar' and the rest 'foo'; the core
      2, ..., 5 is four steps from the shell node 1 at its far end. */
  lemma FlarenessPath()
    ensures ValidGraph(Line(6, 6, "bar", "foo"))
    ensures FlarenessOf(Line(6, 6, "bar", "foo"), "foo", UnitWeight()) == Some([Fin(4)])
  {
    assert "bar"[0] != "foo"[0];
    LineGraphFlareness(6, 6, "bar", "foo");
  }

  /** test_island: path_graph(6), every node holding 'foo'; with no shell the single
      component is infinitely far. */
  lemma FlarenessIsland()
    ensures ValidGraph(Line(6, 6, "foo", "foo"))
    ensures FlarenessOf(Line(6, 6, "foo", "foo"), "foo", UnitWeight()) == Some([PosInf])
  {
    LineGraphIsland(6, 6, "foo");
  }

  /** test_flare_and_island: path_graph(6) beside path_graph(4) (nodes 6, ..., 9), node 0
      holding 'bar' and the rest 'foo': the flare of the first path, then the cut-off
      second path as an island. */
  lemma FlarenessFlareAndIsland()
    ensures ValidGraph(Line(10, 6, "bar", "foo"))
    ensures FlarenessOf(Line(10, 6, "bar", "foo"), "foo", UnitWeight()) == Some([Fin(4), PosInf])
  {
    assert "bar"[0] != "foo"[0];
    LineGraphFlareness(10, 6, "bar", "foo");
  }
}
