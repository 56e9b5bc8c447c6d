/** Connected components of the subgraph induced on a node list, as networkx's
    `connected_components(G.subgraph(core))` yields them to features/flare_balls.py. */
module Components {
  import opened Graphs

  /** Every edge can be followed both ways (an undirected networkx graph). */
  ghost predicate Undirected(g: Graph)
  {
    forall x, y :: y in Neighbors(g, x) ==> x in Neighbors(g, y)
  }

  /** `y` can be reached from `x` by a walk that stays inside `within`. */
  ghost predicate Connected(g: Graph, within: set<Node>, x: Node, y: Node)
  {
    exists p :: IsWalkIn(g, within, p) && p[0] == x && p[|p| - 1] == y
  }

  /** The neighbours of `s` that lie in `within`. */
  function Step(g: Graph, within: set<Node>, s: set<Node>): set<Node>
  {
    set x, y | x in s && y in Neighbors(g, x) && y in within :: y
  }

  /** The least superset of `s` inside `within` that is closed under `Step`. */
  function Closure(g: Graph, within: set<Node>, s: set<Node>): (r: set<Node>)
    requires s <= within
    ensures s <= r <= within
    ensures Step(g, within, r) <= r
    decreases |within - s|
  {
    var next := s + Step(g, within, s);
    if next == s then s
    else
      assert |within - next| < |within - s| by {
        assert within - s == (within - next) + (next - s);
        assert next - s != {};
      }
      Closure(g, within, next)
  }

  /** Everything in the closure of `{x}` is connected to `x`. */
  lemma {:induction false} ClosureSound(g: Graph, within: set<Node>, x: Node, s: set<Node>, y: Node)
    requires s <= within
    requires forall z :: z in s ==> Connected(g, within, x, z)
    requires y in Closure(g, within, s)
    ensures Connected(g, within, x, y)
    decreases |within - s|
  {
    var next := s + Step(g, within, s);
    if next != s {
      assert |within - next| < |within - s| by {
        assert within - s == (within - next) + (next - s);
        assert next - s != {};
      }
      forall z | z in next
        ensures Connected(g, within, x, z)
      {
        if z !in s {
          StepConnected(g, within, x, s, z);
        }
      }
      ClosureSound(g, within, x, next, y);
    }
  }

  /** One `Step` keeps nodes connected to `x`. */
  lemma StepConnected(g: Graph, within: set<Node>, x: Node, s: set<Node>, z: Node)
    requires forall u :: u in s ==> Connected(g, within, x, u)
    requires z in Step(g, within, s)
    ensures Connected(g, within, x, z)
  {
    var u :| u in s && z in Neighbors(g, u) && z in within;
    var p :| IsWalkIn(g, within, p) && p[0] == x && p[|p| - 1] == u;
    var q := p + [z];
    assert IsWalkIn(g, within, q);
  }

  /** A walk inside `within` that starts in a `Step`-closed set never leaves it. */
  lemma WalkStaysInClosed(g: Graph, within: set<Node>, r: set<Node>, p: seq<Node>)
    requires IsWalkIn(g, within, p)
    requires Step(g, within, r) <= r
    requires p[0] in r
    ensures forall i :: 0 <= i < |p| ==> p[i] in r
  {
    var i := 0;
    while i < |p| - 1
      invariant 0 <= i <= |p| - 1
      invariant forall j :: 0 <= j <= i ==> p[j] in r
    {
      assert p[i] in r && p[i + 1] in Neighbors(g, p[i]) && p[i + 1] in within;
      assert p[i + 1] in Step(g, within, r);
      i := i + 1;
    }
  }

  /** The closure of `{x}` is exactly the set of nodes connected to `x`. */
  lemma ReachIffClosure(g: Graph, within: set<Node>, x: Node, y: Node)
    requires x in within
    ensures y in Closure(g, within, {x}) <==> Connected(g, within, x, y)
  {
    var r := Closure(g, within, {x});
    if y in r {
      assert IsWalkIn(g, within, [x]);
      ClosureSound(g, within, x, {x}, y);
    }
    if Connected(g, within, x, y) {
      var p :| IsWalkIn(g, within, p) && p[0] == x && p[|p| - 1] == y;
      WalkStaysInClosed(g, within, r, p);
    }
  }

  /** Walks can be reversed in an undirected graph. */
  lemma ConnectedSymmetric(g: Graph, within: set<Node>, x: Node, y: Node)
    requires Undirected(g)
    requires Connected(g, within, x, y)
    ensures Connected(g, within, y, x)
  {
    var p :| IsWalkIn(g, within, p) && p[0] == x && p[|p| - 1] == y;
    var q := seq(|p|, i requires 0 <= i < |p| => p[|p| - 1 - i]);
    forall i | 0 <= i < |q| - 1
      ensures q[i + 1] in Neighbors(g, q[i])
    {
      assert p[|p| - 1 - i] in Neighbors(g, p[|p| - 2 - i]);
    }
    assert IsWalkIn(g, within, q);
  }

  /** Walks can be joined end to start. */
  lemma ConnectedTransitive(g: Graph, within: set<Node>, x: Node, y: Node, z: Node)
    requires Connected(g, within, x, y) && Connected(g, within, y, z)
    ensures Connected(g, within, x, z)
  {
    var p :| IsWalkIn(g, within, p) && p[0] == x && p[|p| - 1] == y;
    var q :| IsWalkIn(g, within, q) && q[0] == y && q[|q| - 1] == z;
    var pq := p + q[1..];
    forall i | 0 <= i < |pq| - 1
      ensures pq[i + 1] in Neighbors(g, pq[i])
    {
      if i < |p| - 1 {
        assert pq[i] == p[i] && pq[i + 1] == p[i + 1];
      } else {
        assert pq[i] == q[i - |p| + 1] && pq[i + 1] == q[i - |p| + 2];
      }
    }
    assert IsWalkIn(g, within, pq);
  }

  /** The elements of `xs` outside `c`, in order. */
  function Without(xs: seq<Node>, c: set<Node>): (r: seq<Node>)
    ensures forall x :: x in r <==> x in xs && x !in c
    ensures |r| <= |xs|
  {
    if xs == [] then []
    else (if xs[0] in c then [] else [xs[0]]) + Without(xs[1..], c)
  }

  /** The components of the subgraph induced on `within`, seeded in the order of
      `todo`: the first node of `todo` not yet placed starts the next component. */
  function ComponentsFrom(g: Graph, within: set<Node>, todo: seq<Node>): seq<set<Node>>
    requires forall x :: x in todo ==> x in within
    decreases |todo|
  {
    if todo == [] then []
    else
      var c := Closure(g, within, {todo[0]});
      [c] + ComponentsFrom(g, within, Without(todo[1..], c))
  }

  /** networkx's connected components of `G.subgraph(core)`. */
  function ComponentsOf(g: Graph, core: seq<Node>): seq<set<Node>>
  {
    ComponentsFrom(g, Elems(core), core)
  }

  /** Every component is non-empty, closed under edges inside `within`, and made of
      nodes connected to one of its members. */
  lemma {:induction false} ComponentsShape(g: Graph, within: set<Node>, todo: seq<Node>, k: nat)
    requires forall x :: x in todo ==> x in within
    requires k < |ComponentsFrom(g, within, todo)|
    ensures var c := ComponentsFrom(g, within, todo)[k];
      && c != {} && c <= within
      && Step(g, within, c) <= c
      && exists s :: s in c && forall y :: y in c <==> Connected(g, within, s, y)
    decreases |todo|
  {
    var c := Closure(g, within, {todo[0]});
    if k == 0 {
      forall y ensures y in c <==> Connected(g, within, todo[0], y) {
        ReachIffClosure(g, within, todo[0], y);
      }
    } else {
      ComponentsShape(g, within, Without(todo[1..], c), k - 1);
    }
  }

  /** Every node still to place lies in some component. */
  lemma {:induction false} ComponentsCover(g: Graph, within: set<Node>, todo: seq<Node>, x: Node)
    requires forall y :: y in todo ==> y in within
    requires x in todo
    ensures exists k :: 0 <= k < |ComponentsFrom(g, within, todo)| && x in ComponentsFrom(g, within, todo)[k]
    decreases |todo|
  {
    var c := Closure(g, within, {todo[0]});
    var cs := ComponentsFrom(g, within, todo);
    if x in c {
      assert x in cs[0];
    } else {
      assert x in todo[1..];
      var rest := Without(todo[1..], c);
      ComponentsCover(g, within, rest, x);
      var k :| 0 <= k < |ComponentsFrom(g, within, rest)| && x in ComponentsFrom(g, within, rest)[k];
      assert x in cs[k + 1];
    }
  }

  /** In an undirected graph two nodes of `todo` share a component exactly when they
      are connected inside `within`, and distinct components are disjoint. */
  lemma {:induction false} ComponentsSeparate(g: Graph, within: set<Node>, todo: seq<Node>, i: nat, j: nat)
    requires Undirected(g)
    requires forall y :: y in todo ==> y in within
    requires i < j < |ComponentsFrom(g, within, todo)|
    ensures ComponentsFrom(g, within, todo)[i] !! ComponentsFrom(g, within, todo)[j]
    decreases |todo|
  {
    var c := Closure(g, within, {todo[0]});
    var rest := Without(todo[1..], c);
    var cs := ComponentsFrom(g, within, todo);
    if i == 0 {
      SeedsOutside(g, within, rest, c, j - 1);
    } else {
      ComponentsSeparate(g, within, rest, i - 1, j - 1);
    }
  }

  /** A component seeded outside a closed, edge-closed set `c` of an undirected graph
      stays outside it. */
  lemma {:induction false} SeedsOutside(g: Graph, within: set<Node>, todo: seq<Node>, c: set<Node>, k: nat)
    requires Undirected(g)
    requires forall y :: y in todo ==> y in within && y !in c
    requires c <= within && Step(g, within, c) <= c
    requires k < |ComponentsFrom(g, within, todo)|
    ensures ComponentsFrom(g, within, todo)[k] !! c
    decreases |todo|
  {
    var c0 := Closure(g, within, {todo[0]});
    if k == 0 {
      forall y | y in c0
        ensures y !in c
      {
        ReachIffClosure(g, within, todo[0], y);
        if y in c {
          ConnectedSymmetric(g, within, todo[0], y);
          var p :| IsWalkIn(g, within, p) && p[0] == y && p[|p| - 1] == todo[0];
          WalkStaysInClosed(g, within, c, p);
        }
      }
    } else {
      SeedsOutside(g, within, Without(todo[1..], c0), c, k - 1);
    }
  }

  /** Two nodes of one component are connected; two connected nodes share every
      component either meets. */
  lemma SameComponentIffConnected(g: Graph, core: seq<Node>, k: nat, x: Node, y: Node)
    requires Undirected(g)
    requires k < |ComponentsOf(g, core)|
    requires x in ComponentsOf(g, core)[k]
    ensures y in ComponentsOf(g, core)[k] <==> Connected(g, Elems(core), x, y)
  {
    var within := Elems(core);
    var c := ComponentsOf(g, core)[k];
    ComponentsShape(g, within, core, k);
    var s :| s in c && forall z :: z in c <==> Connected(g, within, s, z);
    ConnectedSymmetric(g, within, s, x);
    if y in c {
      ConnectedTransitive(g, within, x, s, y);
    }
    if Connected(g, within, x, y) {
      ConnectedTransitive(g, within, s, x, y);
    }
  }

  /** The components partition the node list: each node lies in exactly one of them. */
  lemma ComponentsPartition(g: Graph, core: seq<Node>, x: Node)
    requires Undirected(g)
    requires x in core
    ensures exists k :: 0 <= k < |ComponentsOf(g, core)| && x in ComponentsOf(g, core)[k]
    ensures forall k, l :: 0 <= k < l < |ComponentsOf(g, core)| ==>
      ComponentsOf(g, core)[k] !! ComponentsOf(g, core)[l]
  {
    var within := Elems(core);
    assert ComponentsOf(g, core) == ComponentsFrom(g, within, core);
    ComponentsCover(g, within, core, x);
    forall k, l | 0 <= k < l < |ComponentsOf(g, core)|
      ensures ComponentsOf(g, core)[k] !! ComponentsOf(g, core)[l]
    {
      ComponentsSeparate(g, within, core, k, l);
    }
  }

  /** Every component is drawn from the node list; an empty list has no components. */
  lemma ComponentsWithin(g: Graph, core: seq<Node>, k: nat)
    requires k < |ComponentsOf(g, core)|
    ensures ComponentsOf(g, core)[k] != {}
    ensures forall y :: y in ComponentsOf(g, core)[k] ==> y in core
  {
    ComponentsShape(g, Elems(core), core, k);
  }
}
