/** Multi-source shortest path lengths, the role networkx's
    `multi_source_dijkstra_path_length` plays in features/flare_balls.py.
    The distances are computed by rounds of relaxation (the value after `k` rounds is
    the least weight of a walk with at most `k` edges) and proved to be the least weight
    of any walk from a source. */
module ShortestPaths {
  import opened Graphs

  /** An edge weight: the weight of stepping from the first node to the second. */
  type Weight = (Node, Node) -> nat

  /** The default weight of compute_flareness: every edge costs 1. */
  function UnitWeight(): Weight
  {
    (u: Node, v: Node) => 1
  }

  /** Total weight of the edges along a walk. */
  function WalkWeight(w: Weight, p: seq<Node>): nat
    decreases |p|
  {
    if |p| <= 1 then 0 else w(p[0], p[1]) + WalkWeight(w, p[1..])
  }

  /** `p` is a walk inside `h` from one of `src` to `x`. */
  ghost predicate WalkFrom(g: Graph, h: set<Node>, src: set<Node>, p: seq<Node>, x: Node)
  {
    IsWalkIn(g, h, p) && p[0] in src && p[|p| - 1] == x
  }

  /** The value a table holds for `x`; a node without an entry is unreached. */
  function Val(m: map<Node, Ext>, x: Node): Ext
  {
    if x in m then m[x] else PosInf
  }

  /** Round zero: sources at distance 0, every other node of `h` unreached. */
  function Initial(h: set<Node>, src: set<Node>): map<Node, Ext>
  {
    map x | x in h :: if x in src then Fin(0) else PosInf
  }

  /** The value offered to `x` by its predecessor `y` in the previous round. */
  function Via(g: Graph, h: set<Node>, w: Weight, prev: map<Node, Ext>, x: Node, y: Node): Ext
  {
    if y in h && x in Neighbors(g, y) && Val(prev, y).Fin? then Fin(Val(prev, y).n + w(y, x))
    else PosInf
  }

  /** The best offer to `x` from the candidates `ys`. */
  function BestVia(g: Graph, h: set<Node>, w: Weight, prev: map<Node, Ext>, x: Node, ys: seq<Node>): Ext
  {
    if ys == [] then PosInf
    else Min(Via(g, h, w, prev, x, ys[0]), BestVia(g, h, w, prev, x, ys[1..]))
  }

  /** The best offer is no worse than any single candidate's offer. */
  lemma {:induction false} BestViaLower(g: Graph, h: set<Node>, w: Weight, prev: map<Node, Ext>, x: Node, ys: seq<Node>, y: Node)
    requires y in ys
    ensures LessEq(BestVia(g, h, w, prev, x, ys), Via(g, h, w, prev, x, y))
    decreases |ys|
  {
    var r := BestVia(g, h, w, prev, x, ys);
    if ys[0] != y {
      BestViaLower(g, h, w, prev, x, ys[1..], y);
      LessEqTrans(r, BestVia(g, h, w, prev, x, ys[1..]), Via(g, h, w, prev, x, y));
    }
  }

  /** The candidate whose offer is the best one (the first on ties). */
  function BestPred(g: Graph, h: set<Node>, w: Weight, prev: map<Node, Ext>, x: Node, ys: seq<Node>): Node
    requires ys != []
    decreases |ys|
  {
    if |ys| == 1 then ys[0]
    else if LessEq(Via(g, h, w, prev, x, ys[0]), BestVia(g, h, w, prev, x, ys[1..])) then ys[0]
    else BestPred(g, h, w, prev, x, ys[1..])
  }

  /** A finite best offer is made by the candidate BestPred names. */
  lemma {:induction false} BestPredAttains(g: Graph, h: set<Node>, w: Weight, prev: map<Node, Ext>, x: Node, ys: seq<Node>)
    requires BestVia(g, h, w, prev, x, ys).Fin?
    ensures ys != []
    ensures BestPred(g, h, w, prev, x, ys) in ys
    ensures Via(g, h, w, prev, x, BestPred(g, h, w, prev, x, ys)) == BestVia(g, h, w, prev, x, ys)
    decreases |ys|
  {
    if |ys| > 1 && !LessEq(Via(g, h, w, prev, x, ys[0]), BestVia(g, h, w, prev, x, ys[1..])) {
      BestPredAttains(g, h, w, prev, x, ys[1..]);
    }
  }

  /** The value of `x` after a round: its old value or its best offer, whichever is smaller. */
  function Relax(g: Graph, h: set<Node>, w: Weight, prev: map<Node, Ext>, x: Node): Ext
  {
    Min(Val(prev, x), BestVia(g, h, w, prev, x, g.nodes))
  }

  /** One round of relaxation over every node of `h`. */
  function Round(g: Graph, h: set<Node>, w: Weight, prev: map<Node, Ext>): map<Node, Ext>
  {
    map x | x in h :: Relax(g, h, w, prev, x)
  }

  /** The values after `k` further rounds starting from `m`. */
  function Rounds(g: Graph, h: set<Node>, w: Weight, m: map<Node, Ext>, k: nat): map<Node, Ext>
    decreases k
  {
    if k == 0 then m else Rounds(g, h, w, Round(g, h, w, m), k - 1)
  }

  /** The distances from `src` inside `h` (enough rounds for a walk through every node). */
  function Distance(g: Graph, h: set<Node>, src: set<Node>, w: Weight): map<Node, Ext>
  {
    Rounds(g, h, w, Initial(h, src), |h|)
  }

  /** The result of `multi_source_dijkstra_path_length`: the reached nodes of `h` with
      their distance from the nearest source. */
  function ShellDistances(g: Graph, h: set<Node>, src: set<Node>, w: Weight): map<Node, nat>
  {
    var d := Distance(g, h, src, w);
    map x | x in h && Val(d, x).Fin? :: Val(d, x).n
  }

  /** The weight of a walk splits at any of its nodes. */
  lemma {:induction false} WeightSplit(w: Weight, p: seq<Node>, i: nat)
    requires i < |p|
    ensures WalkWeight(w, p) == WalkWeight(w, p[..i + 1]) + WalkWeight(w, p[i..])
    decreases i
  {
    if i > 0 {
      WeightSplit(w, p[1..], i - 1);
      assert p[1..][..i] == p[..i + 1][1..];
      assert p[1..][i - 1..] == p[i..];
    } else {
      assert p[0..] == p;
    }
  }

  /** Extending a walk by one edge adds that edge's weight. */
  lemma {:induction false} WeightSnoc(w: Weight, p: seq<Node>, x: Node)
    requires |p| >= 1
    ensures WalkWeight(w, p + [x]) == WalkWeight(w, p) + w(p[|p| - 1], x)
  {
    var q := p + [x];
    WeightSplit(w, q, |p| - 1);
    assert q[..|p|] == p;
    assert q[|p| - 1..] == [p[|p| - 1], x];
  }

  /** Appending a neighbour inside `h` extends a walk. */
  lemma {:induction false} WalkSnoc(g: Graph, h: set<Node>, src: set<Node>, p: seq<Node>, y: Node, x: Node)
    requires WalkFrom(g, h, src, p, y)
    requires x in h && x in Neighbors(g, y)
    ensures WalkFrom(g, h, src, p + [x], x)
  {
    var q := p + [x];
    forall i | 0 <= i < |q| - 1
      ensures q[i + 1] in Neighbors(g, q[i])
    {
      if i < |p| - 1 {
        assert q[i] == p[i] && q[i + 1] == p[i + 1];
      }
    }
  }

  /** Dropping the last node of a walk of two or more nodes leaves a walk to its
      predecessor. */
  lemma {:induction false} WalkInit(g: Graph, h: set<Node>, src: set<Node>, p: seq<Node>, x: Node)
    requires WalkFrom(g, h, src, p, x) && |p| >= 2
    ensures WalkFrom(g, h, src, p[..|p| - 1], p[|p| - 2])
    ensures x in Neighbors(g, p[|p| - 2]) && p[|p| - 2] in h
    ensures p == p[..|p| - 1] + [x]
  {
    var init := p[..|p| - 1];
    forall i | 0 <= i < |init| - 1
      ensures init[i + 1] in Neighbors(g, init[i])
    {
      assert init[i] == p[i] && init[i + 1] == p[i + 1];
    }
    assert p[|p| - 1 - 1 + 1] in Neighbors(g, p[|p| - 2]);
  }

  /** A node with a neighbour lies in the node list. */
  lemma {:induction false} HasNeighborIsNode(g: Graph, y: Node, x: Node)
    requires AdjKeysAreNodes(g)
    requires x in Neighbors(g, y)
    ensures y in g.nodes
  {
  }

  /** A round's table: the relaxed value on `h`, unreached elsewhere. */
  lemma {:induction false} RoundVal(g: Graph, h: set<Node>, w: Weight, prev: map<Node, Ext>, x: Node)
    ensures Val(Round(g, h, w, prev), x) == if x in h then Relax(g, h, w, prev, x) else PosInf
  {
  }

  /** `ws` holds, for every finite value of `m`, a walk through at most `bound` nodes
      with that weight. */
  ghost predicate WitnessedBy(g: Graph, h: set<Node>, src: set<Node>, w: Weight, bound: nat,
                              m: map<Node, Ext>, ws: map<Node, seq<Node>>)
  {
    forall y {:trigger Val(m, y)} :: Val(m, y).Fin? ==>
      y in ws && WalkFrom(g, h, src, ws[y], y) && |ws[y]| <= bound && WalkWeight(w, ws[y]) == Val(m, y).n
  }

  /** No walk through at most `bound` nodes is lighter than the value `m` holds for its end. */
  ghost predicate AllBounded(g: Graph, h: set<Node>, src: set<Node>, w: Weight, bound: nat, m: map<Node, Ext>)
  {
    forall p, y {:trigger WalkFrom(g, h, src, p, y)} :: WalkFrom(g, h, src, p, y) && |p| <= bound ==>
      LessEq(Val(m, y), Fin(WalkWeight(w, p)))
  }

  /** The one-node walks of round zero. */
  ghost function InitialWalks(h: set<Node>): map<Node, seq<Node>>
  {
    map x | x in h :: [x]
  }

  /** The walk recorded for `x`, empty when there is none. */
  ghost function WalkOf(ws: map<Node, seq<Node>>, x: Node): seq<Node>
  {
    if x in ws then ws[x] else []
  }

  /** The walk behind the value of `x` after one round: the old walk when the value is
      kept, else the best predecessor's walk extended by `x`. */
  ghost function NextWalk(g: Graph, h: set<Node>, w: Weight, prev: map<Node, Ext>, ws: map<Node, seq<Node>>, x: Node): seq<Node>
  {
    if Relax(g, h, w, prev, x) == Val(prev, x) || g.nodes == [] then WalkOf(ws, x)
    else WalkOf(ws, BestPred(g, h, w, prev, x, g.nodes)) + [x]
  }

  ghost function NextWalks(g: Graph, h: set<Node>, w: Weight, prev: map<Node, Ext>, ws: map<Node, seq<Node>>): map<Node, seq<Node>>
  {
    map x | x in h :: NextWalk(g, h, w, prev, ws, x)
  }

  /** The walks behind the values after `k` further rounds. */
  ghost function RoundsWalks(g: Graph, h: set<Node>, w: Weight, m: map<Node, Ext>, ws: map<Node, seq<Node>>, k: nat): map<Node, seq<Node>>
    decreases k
  {
    if k == 0 then ws else RoundsWalks(g, h, w, Round(g, h, w, m), NextWalks(g, h, w, m, ws), k - 1)
  }

  /** A value taken from an offer extends the offering predecessor's walk by one edge. */
  lemma {:induction false} OfferSound(g: Graph, h: set<Node>, src: set<Node>, w: Weight, bound: nat, prev: map<Node, Ext>,
                                      ws: map<Node, seq<Node>>, x: Node)
    requires x in h
    requires WitnessedBy(g, h, src, w, bound, prev, ws)
    requires Relax(g, h, w, prev, x).Fin? && Relax(g, h, w, prev, x) != Val(prev, x)
    ensures var p := NextWalk(g, h, w, prev, ws, x);
      WalkFrom(g, h, src, p, x) && |p| <= bound + 1 && WalkWeight(w, p) == Relax(g, h, w, prev, x).n
  {
    var best := BestVia(g, h, w, prev, x, g.nodes);
    assert Relax(g, h, w, prev, x) == best;
    BestPredAttains(g, h, w, prev, x, g.nodes);
    var y := BestPred(g, h, w, prev, x, g.nodes);
    assert Via(g, h, w, prev, x, y) == best;
    assert Val(prev, y).Fin?;
    var p := ws[y];
    WeightSnoc(w, p, x);
    WalkSnoc(g, h, src, p, y, x);
  }

  /** One round keeps every finite value witnessed, with one more node allowed. */
  lemma {:induction false} RoundSound(g: Graph, h: set<Node>, src: set<Node>, w: Weight, bound: nat, prev: map<Node, Ext>,
                                      ws: map<Node, seq<Node>>)
    requires WitnessedBy(g, h, src, w, bound, prev, ws)
    ensures WitnessedBy(g, h, src, w, bound + 1, Round(g, h, w, prev), NextWalks(g, h, w, prev, ws))
  {
    var cur := Round(g, h, w, prev);
    var next := NextWalks(g, h, w, prev, ws);
    forall x: Node | Val(cur, x).Fin?
      ensures x in next && WalkFrom(g, h, src, next[x], x) && |next[x]| <= bound + 1
           && WalkWeight(w, next[x]) == Val(cur, x).n
    {
      RoundVal(g, h, w, prev, x);
      if Relax(g, h, w, prev, x) == Val(prev, x) {
        assert Val(prev, x).Fin?;
      } else {
        OfferSound(g, h, src, w, bound, prev, ws, x);
      }
    }
  }

  /** Round zero witnesses its finite values by one-node walks from the sources. */
  lemma {:induction false} InitialSound(g: Graph, h: set<Node>, src: set<Node>, w: Weight)
    ensures WitnessedBy(g, h, src, w, 1, Initial(h, src), InitialWalks(h))
  {
    forall x: Node | Val(Initial(h, src), x).Fin?
      ensures x in InitialWalks(h) && WalkFrom(g, h, src, InitialWalks(h)[x], x)
    {
      assert InitialWalks(h)[x] == [x];
    }
  }

  /** Rounds keep every finite value witnessed, one more node per round. */
  lemma {:induction false} RoundsSound(g: Graph, h: set<Node>, src: set<Node>, w: Weight, m: map<Node, Ext>,
                                       ws: map<Node, seq<Node>>, b: nat, k: nat)
    requires WitnessedBy(g, h, src, w, b, m, ws)
    ensures WitnessedBy(g, h, src, w, b + k, Rounds(g, h, w, m, k), RoundsWalks(g, h, w, m, ws, k))
    decreases k
  {
    if k > 0 {
      RoundSound(g, h, src, w, b, m, ws);
      RoundsSound(g, h, src, w, Round(g, h, w, m), NextWalks(g, h, w, m, ws), b + 1, k - 1);
    }
  }

  /** The best offer is no worse than the offer of any reached neighbour. */
  lemma {:induction false} OfferBound(g: Graph, h: set<Node>, w: Weight, prev: map<Node, Ext>, x: Node, y: Node)
    requires y in h && y in g.nodes && x in Neighbors(g, y)
    requires Val(prev, y).Fin?
    ensures LessEq(Relax(g, h, w, prev, x), Fin(Val(prev, y).n + w(y, x)))
  {
    BestViaLower(g, h, w, prev, x, g.nodes, y);
    LessEqTrans(Relax(g, h, w, prev, x), BestVia(g, h, w, prev, x, g.nodes), Via(g, h, w, prev, x, y));
  }

  /** The walk's last edge carries the bound of its predecessor into the next round. */
  lemma {:induction false} RoundOptimalWalk(g: Graph, h: set<Node>, src: set<Node>, w: Weight, bound: nat,
                                            prev: map<Node, Ext>, p: seq<Node>, x: Node)
    requires AdjKeysAreNodes(g)
    requires AllBounded(g, h, src, w, bound, prev)
    requires WalkFrom(g, h, src, p, x) && 2 <= |p| <= bound + 1
    ensures LessEq(Relax(g, h, w, prev, x), Fin(WalkWeight(w, p)))
  {
    var init, y := p[..|p| - 1], p[|p| - 2];
    WalkInit(g, h, src, p, x);
    assert WalkFrom(g, h, src, init, y) && |init| <= bound;
    HasNeighborIsNode(g, y, x);
    WeightSnoc(w, init, x);
    OfferBound(g, h, w, prev, x, y);
  }

  /** One round keeps every value a lower bound, for walks through one more node. */
  lemma {:induction false} RoundOptimal(g: Graph, h: set<Node>, src: set<Node>, w: Weight, bound: nat, prev: map<Node, Ext>)
    requires AdjKeysAreNodes(g)
    requires bound >= 1
    requires AllBounded(g, h, src, w, bound, prev)
    ensures AllBounded(g, h, src, w, bound + 1, Round(g, h, w, prev))
  {
    var cur := Round(g, h, w, prev);
    forall p: seq<Node>, x: Node | WalkFrom(g, h, src, p, x) && |p| <= bound + 1
      ensures LessEq(Val(cur, x), Fin(WalkWeight(w, p)))
    {
      RoundVal(g, h, w, prev, x);
      if |p| <= bound {
        LessEqTrans(Relax(g, h, w, prev, x), Val(prev, x), Fin(WalkWeight(w, p)));
      } else {
        RoundOptimalWalk(g, h, src, w, bound, prev, p, x);
      }
    }
  }

  /** Round zero bounds every one-node walk: its node is a source. */
  lemma {:induction false} InitialOptimal(g: Graph, h: set<Node>, src: set<Node>, w: Weight)
    ensures AllBounded(g, h, src, w, 1, Initial(h, src))
  {
    forall p: seq<Node>, x: Node | WalkFrom(g, h, src, p, x) && |p| <= 1
      ensures LessEq(Val(Initial(h, src), x), Fin(WalkWeight(w, p)))
    {
      assert p[0] == x && x in h && x in src;
    }
  }

  /** Rounds keep every value a lower bound, one more node per round. */
  lemma {:induction false} RoundsOptimal(g: Graph, h: set<Node>, src: set<Node>, w: Weight, m: map<Node, Ext>, b: nat, k: nat)
    requires AdjKeysAreNodes(g)
    requires b >= 1
    requires AllBounded(g, h, src, w, b, m)
    ensures AllBounded(g, h, src, w, b + k, Rounds(g, h, w, m, k))
    decreases k
  {
    if k > 0 {
      RoundOptimal(g, h, src, w, b, m);
      RoundsOptimal(g, h, src, w, Round(g, h, w, m), b + 1, k - 1);
    }
  }

  /** Cutting the closed stretch between two visits of one node keeps a walk. */
  lemma {:induction false} WalkCut(g: Graph, h: set<Node>, src: set<Node>, p: seq<Node>, x: Node, i: nat, j: nat)
    requires WalkFrom(g, h, src, p, x)
    requires i < j < |p| && p[i] == p[j]
    ensures WalkFrom(g, h, src, p[..i] + p[j..], x)
  {
    var q := p[..i] + p[j..];
    forall k | 0 <= k < |q| - 1
      ensures q[k + 1] in Neighbors(g, q[k])
    {
      if k < i {
        assert q[k] == p[k];
        if k + 1 < i {
          assert q[k + 1] == p[k + 1];
        } else {
          assert q[k + 1] == p[j] == p[k + 1];
        }
      } else {
        assert q[k] == p[k + j - i] && q[k + 1] == p[k + j - i + 1];
      }
    }
    forall k | 0 <= k < |q|
      ensures q[k] in h
    {
      if k < i { assert q[k] == p[k]; } else { assert q[k] == p[k + j - i]; }
    }
    if i == 0 {
      assert q[0] == p[j] == p[0];
    } else {
      assert q[0] == p[0];
    }
  }

  /** A walk through more nodes than `h` has can be shortened without getting heavier. */
  lemma {:induction false} CutCycle(g: Graph, h: set<Node>, src: set<Node>, w: Weight, p: seq<Node>, x: Node)
    returns (q: seq<Node>)
    requires WalkFrom(g, h, src, p, x) && |p| > |h|
    ensures WalkFrom(g, h, src, q, x) && |q| < |p| && WalkWeight(w, q) <= WalkWeight(w, p)
  {
    Pigeonhole(p, h);
    var i, j :| 0 <= i < j < |p| && p[i] == p[j];
    q := p[..i] + p[j..];
    WalkCut(g, h, src, p, x, i, j);
    CutWeight(w, p, i, j);
  }

  lemma {:induction false} CutWeight(w: Weight, p: seq<Node>, i: nat, j: nat)
    requires i < j < |p| && p[i] == p[j]
    ensures WalkWeight(w, p[..i] + p[j..]) <= WalkWeight(w, p)
  {
    var q := p[..i] + p[j..];
    assert q[..i + 1] == p[..i + 1];
    assert q[i..] == p[j..];
    WeightSplit(w, q, i);
    WeightSplit(w, p, i);
    WeightSplit(w, p[i..], j - i);
    assert p[i..][j - i..] == p[j..];
  }

  /** Every walk can be replaced by one through at most `|h|` nodes that is no heavier. */
  lemma {:induction false} ShortWalk(g: Graph, h: set<Node>, src: set<Node>, w: Weight, p: seq<Node>, x: Node)
    returns (q: seq<Node>)
    requires WalkFrom(g, h, src, p, x)
    ensures WalkFrom(g, h, src, q, x) && |q| <= |h| && WalkWeight(w, q) <= WalkWeight(w, p)
    decreases |p|
  {
    if |p| <= |h| {
      q := p;
    } else {
      var r := CutCycle(g, h, src, w, p, x);
      q := ShortWalk(g, h, src, w, r, x);
    }
  }

  /** A reached node's distance is the weight of some walk to it from a source. */
  lemma {:induction false} DistanceSound(g: Graph, h: set<Node>, src: set<Node>, w: Weight, x: Node)
    requires x in ShellDistances(g, h, src, w)
    ensures exists p :: WalkFrom(g, h, src, p, x) && WalkWeight(w, p) == ShellDistances(g, h, src, w)[x]
  {
    InitialSound(g, h, src, w);
    RoundsSound(g, h, src, w, Initial(h, src), InitialWalks(h), 1, |h|);
    var p := RoundsWalks(g, h, w, Initial(h, src), InitialWalks(h), |h|)[x];
    assert WalkFrom(g, h, src, p, x) && WalkWeight(w, p) == Val(Distance(g, h, src, w), x).n;
  }

  /** No walk from a source is lighter than the distance of its end, which it reaches. */
  lemma {:induction false} DistanceOptimal(g: Graph, h: set<Node>, src: set<Node>, w: Weight, p: seq<Node>, x: Node)
    requires AdjKeysAreNodes(g)
    requires WalkFrom(g, h, src, p, x)
    ensures x in ShellDistances(g, h, src, w) && ShellDistances(g, h, src, w)[x] <= WalkWeight(w, p)
  {
    InitialOptimal(g, h, src, w);
    RoundsOptimal(g, h, src, w, Initial(h, src), 1, |h|);
    var q := ShortWalk(g, h, src, w, p, x);
    assert WalkFrom(g, h, src, q, x) && |q| <= |h| + 1;
    LessEqTrans(Val(Distance(g, h, src, w), x), Fin(WalkWeight(w, q)), Fin(WalkWeight(w, p)));
  }

  /** The distances are exactly the least walk weights: a node is reached iff some walk
      inside `h` leads to it from a source, its distance is the weight of such a walk,
      and no walk is lighter. */
  lemma {:induction false} DistanceIsShortest(g: Graph, h: set<Node>, src: set<Node>, w: Weight, x: Node)
    requires ValidGraph(g)
    requires x in h
    ensures x in ShellDistances(g, h, src, w) <==> exists p :: WalkFrom(g, h, src, p, x)
    ensures x in ShellDistances(g, h, src, w) ==>
      (exists p :: WalkFrom(g, h, src, p, x) && WalkWeight(w, p) == ShellDistances(g, h, src, w)[x])
    ensures forall p :: WalkFrom(g, h, src, p, x) ==>
      x in ShellDistances(g, h, src, w) && ShellDistances(g, h, src, w)[x] <= WalkWeight(w, p)
  {
    if x in ShellDistances(g, h, src, w) {
      DistanceSound(g, h, src, w, x);
    }
    forall p: seq<Node> | WalkFrom(g, h, src, p, x)
      ensures x in ShellDistances(g, h, src, w) && ShellDistances(g, h, src, w)[x] <= WalkWeight(w, p)
    {
      DistanceOptimal(g, h, src, w, p, x);
    }
  }

  /** Sources are at distance 0. */
  lemma {:induction false} SourceAtZero(g: Graph, h: set<Node>, src: set<Node>, w: Weight, x: Node)
    requires ValidGraph(g)
    requires x in h && x in src
    ensures x in ShellDistances(g, h, src, w) && ShellDistances(g, h, src, w)[x] == 0
  {
    assert WalkFrom(g, h, src, [x], x);
    DistanceIsShortest(g, h, src, w, x);
  }
}
