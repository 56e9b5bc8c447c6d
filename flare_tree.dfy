/** The persistence flare forest of features/flare_tree.py. Trees and their flares are
    kept in one arena: tree `i` carries flare `i`, and links between trees are indices. */
module FlareTree {
  import opened Graphs
  import opened Sorting
  import CoreShell

  /** A (centrality, node) pair: the birth or the death of a flare. */
  datatype Stamp = Stamp(value: real, node: Node)

  /** A Flare object: its node set, its birth and its death (`(None, None)` is None). */
  datatype Flare = Flare(nodes: set<Node>, birth: Stamp, death: Option<Stamp>)

  /** The arena: the flares, the FlareTree links (`parent`, `children`) and the current
      root trees (the set `flare_trees` of flare_detect, kept in insertion order). */
  class Forest {
    var flares: seq<Flare>
    var parent: seq<Option<nat>>
    var children: seq<seq<nat>>
    var roots: seq<nat>

    /** One parent entry and one child list per flare. */
    ghost predicate Shaped()
      reads this
    {
      |parent| == |flares| && |children| == |flares|
    }

    /** The links form a forest: a parent is older than its child, and child lists and
        parent pointers agree. */
    ghost predicate Links()
      reads this
    {
      && Shaped()
      && (forall i :: 0 <= i < |flares| && parent[i].Some? ==>
            parent[i].value < i && i in children[parent[i].value])
      && (forall p, k :: 0 <= p < |flares| && 0 <= k < |children[p]| ==>
            p < children[p][k] < |flares| && parent[children[p][k]] == Some(p))
      && (forall p :: 0 <= p < |flares| ==> Distinct(children[p]))
    }

    /** A forest whose roots are `roots`: the trees without a parent, listed once in
        ascending order. */
    ghost predicate Valid()
      reads this
    {
      && Links()
      && Ascending(roots)
      && (forall r :: r in roots <==> 0 <= r < |flares| && parent[r].None?)
    }

    /** Every root is a tree of the arena. */
    lemma RootsBounded()
      requires Valid()
      ensures forall k :: 0 <= k < |roots| ==> roots[k] < |flares|
    {
      forall k | 0 <= k < |roots|
        ensures roots[k] < |flares|
      {
        assert roots[k] in roots;
      }
    }

    constructor ()
      ensures Valid()
      ensures flares == [] && parent == [] && children == [] && roots == []
    {
      flares, parent, children, roots := [], [], [], [];
    }

    /** FlareTree.__iter__: the tree itself, then the iteration of each child in turn. */
    function Iter(i: nat): (r: seq<nat>)
      reads this
      requires Links() && i < |flares|
      ensures forall k :: 0 <= k < |r| ==> r[k] < |flares|
      decreases |flares| - i, 1
    {
      [i] + IterAll(children[i], i)
    }

    /** The chained iterations of a list of children of `p`. */
    function IterAll(cs: seq<nat>, p: nat): (r: seq<nat>)
      reads this
      requires Links() && p < |flares|
      requires forall k :: 0 <= k < |cs| ==> p < cs[k] < |flares|
      ensures forall k :: 0 <= k < |r| ==> r[k] < |flares|
      decreases |flares| - p, 0, |cs|
    {
      if cs == [] then [] else Iter(cs[0]) + IterAll(cs[1..], p)
    }

    /** Tree `j` lies below tree `a`: `a` is `j` or an ancestor of it. */
    ghost predicate Descends(j: nat, a: nat)
      reads this
      requires Links() && j < |flares|
      decreases j
    {
      j == a || (parent[j].Some? && Descends(parent[j].value, a))
    }

    /** An ancestor is never younger than its descendant. */
    lemma {:induction false} DescendsOlder(j: nat, a: nat)
      requires Links() && j < |flares|
      requires Descends(j, a)
      ensures a <= j
      ensures a != j ==> parent[j].Some? && a <= parent[j].value
      decreases j
    {
      if j != a {
        DescendsOlder(parent[j].value, a);
      }
    }

    /** The iteration of a tree yields exactly the trees below it. */
    lemma {:induction false} IterMembers(i: nat, j: nat)
      requires Links() && i < |flares|
      ensures j in Iter(i) <==> j < |flares| && Descends(j, i)
      decreases |flares| - i, 1
    {
      IterAllMembers(children[i], i, j);
      if j < |flares| && Descends(j, i) && j != i {
        DescendsChild(j, i);
      }
      if j < |flares| && exists c :: c in children[i] && Descends(j, c) {
        var c :| c in children[i] && Descends(j, c);
        DescendsParent(j, c);
      }
    }

    /** Whatever lies below a child lies below its parent. */
    lemma {:induction false} DescendsParent(j: nat, c: nat)
      requires Links() && j < |flares| && c < |flares|
      requires Descends(j, c) && parent[c].Some?
      ensures Descends(j, parent[c].value)
      decreases j
    {
      if j != c {
        DescendsParent(parent[j].value, c);
      }
    }

    /** The chained iterations yield exactly the trees below one of the children. */
    lemma {:induction false} IterAllMembers(cs: seq<nat>, p: nat, j: nat)
      requires Links() && p < |flares|
      requires forall k :: 0 <= k < |cs| ==> p < cs[k] < |flares|
      ensures j in IterAll(cs, p) <==> j < |flares| && exists c :: c in cs && Descends(j, c)
      decreases |flares| - p, 0, |cs|
    {
      if cs != [] {
        IterMembers(cs[0], j);
        IterAllMembers(cs[1..], p, j);
        if j < |flares| && exists c :: c in cs && Descends(j, c) {
          var c :| c in cs && Descends(j, c);
          if c != cs[0] {
            assert c in cs[1..];
          }
        }
      }
    }

    /** A proper descendant of `i` lies below one of the children of `i`. */
    lemma {:induction false} DescendsChild(j: nat, i: nat)
      requires Links() && j < |flares| && i < |flares|
      requires Descends(j, i) && j != i
      ensures exists c :: c in children[i] && Descends(j, c)
      decreases j
    {
      var p := parent[j].value;
      if p == i {
        assert j in children[i];
      } else {
        DescendsChild(p, i);
        var c :| c in children[i] && Descends(p, c);
        assert Descends(j, c);
      }
    }

    /** Two trees above the same tree are above one another. */
    lemma {:induction false} DescendsChain(j: nat, a: nat, b: nat)
      requires Links() && j < |flares|
      requires Descends(j, a) && Descends(j, b)
      ensures a < |flares| && b < |flares|
      ensures Descends(a, b) || Descends(b, a)
      decreases j
    {
      DescendsOlder(j, a);
      DescendsOlder(j, b);
      if j != a && j != b {
        DescendsChain(parent[j].value, a, b);
      }
    }

    /** Below two different children of one tree lie different trees. */
    lemma SiblingsApart(j: nat, a: nat, b: nat, p: nat)
      requires Links() && j < |flares| && a < |flares| && b < |flares|
      requires a != b && parent[a] == Some(p) && parent[b] == Some(p)
      requires Descends(j, a)
      ensures !Descends(j, b)
    {
      if Descends(j, b) {
        DescendsChain(j, a, b);
        if Descends(a, b) {
          DescendsOlder(a, b);
        } else {
          DescendsOlder(b, a);
        }
      }
    }

    /** The iteration of a tree lists every tree below it exactly once, starting with it. */
    lemma {:induction false} IterDistinct(i: nat)
      requires Links() && i < |flares|
      ensures Distinct(Iter(i)) && Iter(i)[0] == i
      decreases |flares| - i, 1
    {
      IterAllDistinct(children[i], i);
      if i in IterAll(children[i], i) {
        IterAllMembers(children[i], i, i);
        var c :| c in children[i] && Descends(i, c);
        DescendsOlder(i, c);
      }
    }

    /** The chained iterations of distinct children of `p` never repeat a tree. */
    lemma {:induction false} IterAllDistinct(cs: seq<nat>, p: nat)
      requires Links() && p < |flares|
      requires forall k :: 0 <= k < |cs| ==> p < cs[k] < |flares| && parent[cs[k]] == Some(p)
      requires Distinct(cs)
      ensures Distinct(IterAll(cs, p))
      decreases |flares| - p, 0, |cs|
    {
      if cs != [] {
        IterDistinct(cs[0]);
        IterAllDistinct(cs[1..], p);
        var u, v := Iter(cs[0]), IterAll(cs[1..], p);
        forall x, y | 0 <= x < |u| && 0 <= y < |v|
          ensures u[x] != v[y]
        {
          IterMembers(cs[0], u[x]);
          IterAllMembers(cs[1..], p, v[y]);
          if u[x] == v[y] {
            var c :| c in cs[1..] && Descends(v[y], c);
            SiblingsApart(v[y], cs[0], c, p);
          }
        }
        assert IterAll(cs, p) == u + v;
      }
    }

    /** `item in tree` (FlareTree.__contains__): some flare of the tree holds the node. */
    ghost predicate InTree(i: nat, item: Node)
      reads this
      requires Links() && i < |flares|
    {
      exists k :: 0 <= k < |Iter(i)| && item in flares[Iter(i)[k]].nodes
    }

    /** `tree.intersects(items)`: some of the items lies in the tree. */
    ghost predicate Touches(i: nat, items: seq<Node>)
      reads this
      requires Links() && i < |flares|
    {
      exists k :: 0 <= k < |items| && InTree(i, items[k])
    }

    /** FlareTree.__contains__: walks the tree and stops at the first flare holding `item`. */
    method Contains(i: nat, item: Node) returns (b: bool)
      requires Links() && i < |flares|
      ensures b <==> InTree(i, item)
    {
      var trees := Iter(i);
      var k := 0;
      while k < |trees|
        invariant 0 <= k <= |trees|
        invariant forall m :: 0 <= m < k ==> item !in flares[trees[m]].nodes
      {
        if item in flares[trees[k]].nodes {
          return true;
        }
        k := k + 1;
      }
      return false;
    }

    /** FlareTree.intersects: asks `Contains` for each item in turn. */
    method Intersects(i: nat, items: seq<Node>) returns (b: bool)
      requires Links() && i < |flares|
      ensures b <==> Touches(i, items)
    {
      var k := 0;
      while k < |items|
        invariant 0 <= k <= |items|
        invariant forall m :: 0 <= m < k ==> !InTree(i, items[m])
      {
        b := Contains(i, items[k]);
        if b {
          return;
        }
        k := k + 1;
      }
      return false;
    }

    /** The trees of `rs` touching `items`, in the order of `rs`. */
    ghost function TouchingRoots(rs: seq<nat>, items: seq<Node>): (r: seq<nat>)
      reads this
      requires Links()
    {
      if rs == [] then []
      else
        var t := rs[|rs| - 1];
        TouchingRoots(rs[..|rs| - 1], items) + (if t < |flares| && Touches(t, items) then [t] else [])
    }

    /** The candidates are the trees of `rs` touching the items. */
    lemma {:induction false} TouchingRootsMembers(rs: seq<nat>, items: seq<Node>)
      requires Links()
      ensures forall t :: t in TouchingRoots(rs, items) <==> t in rs && t < |flares| && Touches(t, items)
    {
      if rs != [] {
        var init := rs[..|rs| - 1];
        TouchingRootsMembers(init, items);
        assert rs == init + [rs[|rs| - 1]];
      }
    }

    /** The candidates keep the order of `rs`: an ascending list stays ascending. */
    lemma {:induction false} TouchingRootsOrder(rs: seq<nat>, items: seq<Node>)
      requires Links()
      ensures forall t :: t in TouchingRoots(rs, items) ==> t in rs && t < |flares|
      ensures Ascending(rs) ==> Ascending(TouchingRoots(rs, items))
    {
      if rs != [] {
        var init := rs[..|rs| - 1];
        var t := rs[|rs| - 1];
        TouchingRootsOrder(init, items);
        assert rs == init + [t];
        var r0 := TouchingRoots(init, items);
        if Ascending(rs) {
          assert Ascending(init);
          forall y | y in r0
            ensures y < t
          {
            var q :| 0 <= q < |init| && init[q] == y;
          }
          var r := r0 + [t];
          forall a, b | 0 <= a < b < |r|
            ensures r[a] < r[b]
          {
            if b == |r0| {
              assert r[a] in r0;
            }
          }
        }
      }
    }

    /** The death candidates: the root trees that hold one of `items`, in root order. */
    method Candidates(items: seq<Node>) returns (cands: seq<nat>)
      requires Valid()
      ensures cands == TouchingRoots(roots, items)
    {
      RootsBounded();
      cands := [];
      var k := 0;
      while k < |roots|
        invariant 0 <= k <= |roots|
        invariant cands == TouchingRoots(roots[..k], items)
      {
        var r := roots[k];
        var b := Intersects(r, items);
        assert roots[..k + 1][..k] == roots[..k];
        if b {
          cands := cands + [r];
        }
        k := k + 1;
      }
      assert roots[..k] == roots;
    }

    /** Python's `min(candidates, key=birth value)`: the first candidate of least birth. */
    method Elder(cands: seq<nat>) returns (e: nat)
      requires Links() && cands != []
      requires forall k :: 0 <= k < |cands| ==> cands[k] < |flares|
      ensures e < |flares|
      ensures exists p :: (0 <= p < |cands| && cands[p] == e &&
        forall m :: 0 <= m < p ==> flares[cands[m]].birth.value > flares[e].birth.value)
      ensures forall m :: 0 <= m < |cands| ==> flares[e].birth.value <= flares[cands[m]].birth.value
    {
      e := cands[0];
      ghost var p := 0;
      var k := 1;
      while k < |cands|
        invariant 1 <= k <= |cands|
        invariant 0 <= p < k && cands[p] == e
        invariant forall m :: 0 <= m < p ==> flares[cands[m]].birth.value > flares[e].birth.value
        invariant forall m :: 0 <= m < k ==> flares[e].birth.value <= flares[cands[m]].birth.value
      {
        if flares[cands[k]].birth.value < flares[e].birth.value {
          e, p := cands[k], k;
        }
        k := k + 1;
      }
    }

    /** When births grow with the index and the candidates are ascending, the elder is the
        first candidate: the oldest tree wins every tie. */
    lemma FirstIsOldest(cands: seq<nat>)
      requires Links() && cands != []
      requires forall k :: 0 <= k < |cands| ==> cands[k] < |flares|
      requires Ascending(cands)
      requires forall i, j :: 0 <= i < j < |flares| ==> flares[i].birth.value <= flares[j].birth.value
      ensures forall m :: 0 <= m < |cands| ==> flares[cands[0]].birth.value <= flares[cands[m]].birth.value
    {
      forall m | 0 < m < |cands|
        ensures flares[cands[0]].birth.value <= flares[cands[m]].birth.value
      {
        assert cands[0] < cands[m];
      }
    }

    /** FlareTree.add_subtree: a tree that already has a parent raises (and nothing
        changes); otherwise it becomes a child of `p`. */
    method AddSubtree(p: nat, t: nat) returns (raised: bool)
      requires Shaped() && p < |flares| && t < |flares|
      modifies this
      ensures raised <==> old(parent[t]).Some?
      ensures flares == old(flares) && roots == old(roots)
      ensures raised ==> parent == old(parent) && children == old(children)
      ensures !raised ==> parent == old(parent)[t := Some(p)]
      ensures !raised ==> children == old(children)[p := old(children[p]) + [t]]
    {
      if parent[t].Some? {
        return true;
      }
      parent := parent[t := Some(p)];
      children := children[p := children[p] + [t]];
      return false;
    }

    /** A new root tree holding a new flare (FlareTree(flare=Flare(node, birth)) added to
        the roots). */
    method NewTree(node: Node, birth: real) returns (id: nat)
      requires Valid()
      modifies this
      ensures Valid() && id == |old(flares)|
      ensures flares == old(flares) + [Flare({node}, Stamp(birth, node), None)]
      ensures parent == old(parent) + [None] && children == old(children) + [[]]
      ensures roots == old(roots) + [id]
    {
      id := |flares|;
      assert forall a :: 0 <= a < |roots| ==> roots[a] < id by {
        forall a | 0 <= a < |roots|
          ensures roots[a] < id
        {
          assert roots[a] in roots;
        }
      }
      flares := flares + [Flare({node}, Stamp(birth, node), None)];
      parent := parent + [None];
      children := children + [[]];
      roots := roots + [id];
    }

    /** The root above tree `j`. */
    ghost function RootOf(j: nat): (r: nat)
      reads this
      requires Valid() && j < |flares|
      ensures r in roots && Descends(j, r)
      decreases j
    {
      if parent[j].None? then j else RootOf(parent[j].value)
    }

    /** The only root above a tree is its RootOf. */
    lemma RootUnique(j: nat, r: nat)
      requires Valid() && j < |flares| && r in roots && Descends(j, r)
      ensures r == RootOf(j)
    {
      var q := RootOf(j);
      DescendsChain(j, r, q);
    }

    /** The trees of `rs`, each iterated in turn. */
    function Unpacked(rs: seq<nat>): (r: seq<nat>)
      reads this
      requires Links() && forall k :: 0 <= k < |rs| ==> rs[k] < |flares|
      ensures forall k :: 0 <= k < |r| ==> r[k] < |flares|
    {
      if rs == [] then [] else Iter(rs[0]) + Unpacked(rs[1..])
    }

    /** Unpacking distinct roots lists once each tree lying below one of them. */
    lemma {:induction false} UnpackedTrees(rs: seq<nat>)
      requires Valid() && Distinct(rs) && forall k :: 0 <= k < |rs| ==> rs[k] in roots
      ensures forall k :: 0 <= k < |rs| ==> rs[k] < |flares|
      ensures Distinct(Unpacked(rs))
      ensures forall j: nat :: j in Unpacked(rs) <==> j < |flares| && RootOf(j) in rs
    {
      if rs != [] {
        UnpackedTrees(rs[1..]);
        IterDistinct(rs[0]);
        var u, v := Iter(rs[0]), Unpacked(rs[1..]);
        forall j: nat | true
          ensures j in u + v <==> j < |flares| && RootOf(j) in rs
        {
          IterMembers(rs[0], j);
          if j < |flares| && Descends(j, rs[0]) {
            RootUnique(j, rs[0]);
          }
          if j < |flares| && RootOf(j) == rs[0] {
            assert Descends(j, rs[0]);
          }
          if j < |flares| && RootOf(j) in rs && RootOf(j) != rs[0] {
            assert RootOf(j) in rs[1..];
          }
        }
        forall x, y | 0 <= x < |u| && 0 <= y < |v|
          ensures u[x] != v[y]
        {
          IterMembers(rs[0], u[x]);
          RootUnique(u[x], rs[0]);
          assert RootOf(v[y]) in rs[1..];
        }
        assert Unpacked(rs) == u + v;
      }
    }

    /** unpack_flares: the flares of every tree of every root, tree by tree. Each flare of
        the arena appears, and as many entries as there are flares. */
    function UnpackFlares(): (r: seq<Flare>)
      reads this
      requires Valid()
      ensures |r| == |flares|
      ensures forall i :: 0 <= i < |flares| ==> flares[i] in r
    {
      var ix, fs := Unpack(), flares;
      var r := seq(|ix|, k requires 0 <= k < |ix| => fs[ix[k]]);
      assert forall i :: 0 <= i < |fs| ==> fs[i] in r by {
        forall i | 0 <= i < |fs|
          ensures fs[i] in r
        {
          assert i in ix;
          var k :| 0 <= k < |ix| && ix[k] == i;
          assert r[k] == fs[ix[k]];
        }
      }
      r
    }

    /** The unpacking order: every tree index exactly once. */
    function Unpack(): (ix: seq<nat>)
      reads this
      requires Valid()
      ensures Distinct(ix) && |ix| == |flares|
      ensures forall j :: j in ix <==> 0 <= j < |flares|
      ensures forall k :: 0 <= k < |ix| ==> ix[k] < |flares|
    {
      UnpackedTrees(roots);
      var ix := Unpacked(roots);
      assert forall j :: j in ix <==> 0 <= j < |flares| by {
        forall j: nat | j < |flares|
          ensures j in ix
        {
          assert RootOf(j) in roots;
        }
      }
      DistinctCard(ix);
      DistinctCard(Range(|flares|));
      assert Elems(ix) == Elems(Range(|flares|));
      ix
    }

    /** The first flare unpacked is the flare of the first root, which is alive. */
    lemma FirstUnpackedAlive()
      requires Valid() && flares != []
      requires forall i :: 0 <= i < |flares| ==> (flares[i].death.None? <==> i in roots)
      ensures UnpackFlares()[0].death.None?
    {
      RootsBounded();
      assert RootOf(0) in roots;
      IterDistinct(roots[0]);
      assert Unpacked(roots) == Iter(roots[0]) + Unpacked(roots[1..]);
      assert Unpack()[0] == roots[0];
      assert roots[0] in roots;
    }

    /** What flare_detect returns after a complete sweep over `order`: unpacking keeps the
        partition, the death bounds and the tally, and lists a live flare first. */
    lemma Reported(g: Graph, cen: map<Node, real>, order: seq<Node>)
      requires Valid() && Partition(flares, cen, cen.Keys) && NoEarlyDeath(flares)
      requires forall i :: 0 <= i < |flares| ==> (flares[i].death.None? <==> i in roots)
      requires Tally(flares, g, cen, order)
      ensures Partition(UnpackFlares(), cen, cen.Keys) && NoEarlyDeath(UnpackFlares())
      ensures |UnpackFlares()| == |BirthNodes(g, order)|
      ensures forall b :: b in BirthNodes(g, order) <==>
        exists i :: 0 <= i < |UnpackFlares()| && UnpackFlares()[i].birth.node == b
      ensures forall i :: 0 <= i < |UnpackFlares()| && UnpackFlares()[i].death.Some? ==>
        DiedAt(UnpackFlares()[i].death.value, g, cen, order)
      ensures UnpackFlares() != [] ==> UnpackFlares()[0].death.None?
    {
      UnpackKeeps(cen, cen.Keys);
      TallyReordered(flares, Unpack(), UnpackFlares(), g, cen, order);
      if flares != [] {
        FirstUnpackedAlive();
      }
    }

    /** Unpacking keeps the partition of the swept nodes and the death bounds. */
    lemma UnpackKeeps(cen: map<Node, real>, done: set<Node>)
      requires Valid() && Partition(flares, cen, done) && NoEarlyDeath(flares)
      ensures Partition(UnpackFlares(), cen, done) && NoEarlyDeath(UnpackFlares())
    {
      var ix, r := Unpack(), UnpackFlares();
      assert forall k :: 0 <= k < |ix| ==> r[k] == flares[ix[k]];
      Reordered(flares, ix, r, cen, done);
    }

    /** The state of the sweep after the nodes `done`: a valid forest, flares laid out as
        `Layout` says and deaths matching the links as `Deaths` says. */
    ghost predicate Swept(cen: map<Node, real>, done: set<Node>)
      reads this
    {
      Valid() && Layout(flares, cen, done) && Deaths(flares, parent)
    }

    /** One absorption of the merge loop: `t` leaves the roots, dies at `stamp` and becomes
        a subtree of `e`. */
    method Absorb(e: nat, t: nat, stamp: Stamp)
      requires Valid() && e in roots && t in roots && e < t
      modifies this
      ensures Valid()
      ensures flares == old(flares)[t := old(flares[t]).(death := Some(stamp))]
      ensures parent == old(parent)[t := Some(e)]
      ensures children == old(children)[e := old(children[e]) + [t]]
      ensures roots == Remove(old(roots), t)
    {
      assert forall p, k :: 0 <= p < |flares| && 0 <= k < |children[p]| ==> children[p][k] != t;
      RemoveAscending(roots, t);
      roots := Remove(roots, t);
      flares := flares[t := flares[t].(death := Some(stamp))];
      var raised := AddSubtree(e, t);
      assert !raised;
    }

    /** The merge loop of flare_detect: every candidate other than the elder leaves the
        roots, dies at `stamp` and becomes a subtree of the elder. */
    method Merge(cands: seq<nat>, elder: nat, stamp: Stamp, ghost cen: map<Node, real>, ghost done: set<Node>)
      requires Swept(cen, done)
      requires cands != [] && elder == cands[0] && Ascending(cands)
      requires forall m :: 0 <= m < |cands| ==> cands[m] in roots
      requires forall i :: 0 <= i < |flares| ==> flares[i].birth.value <= stamp.value
      modifies this
      ensures Swept(cen, done)
      ensures flares == Killed(old(flares), Elems(cands) - {elder}, stamp)
      ensures parent == Adopted(old(parent), Elems(cands) - {elder}, elder)
      ensures forall r :: r in roots <==> r in old(roots) && (r !in cands || r == elder)
    {
      ghost var fs0, parent0 := flares, parent;
      ghost var absorbed: set<nat> := {};
      assert flares == Killed(fs0, {}, stamp);
      assert parent == Adopted(parent0, {}, elder);
      var k := 0;
      while k < |cands|
        invariant 0 <= k <= |cands|
        invariant Valid() && elder in roots
        invariant forall m :: k <= m < |cands| ==> cands[m] in roots
        invariant forall m :: 0 <= m < k ==> cands[m] == elder || cands[m] in absorbed
        invariant forall t :: t in absorbed ==> t in cands && t != elder
        invariant flares == Killed(fs0, absorbed, stamp)
        invariant parent == Adopted(parent0, absorbed, elder)
        invariant forall r :: r in roots <==> r in old(roots) && r !in absorbed
      {
        var tree := cands[k];
        if tree != elder {
          assert elder < tree;
          KilledStep(fs0, absorbed, tree, stamp);
          AdoptedStep(parent0, absorbed, tree, elder);
          Absorb(elder, tree, stamp);
          absorbed := absorbed + {tree};
        }
        k := k + 1;
      }
      assert absorbed == Elems(cands) - {elder};
      LayoutKilled(fs0, cen, done, absorbed, stamp);
      DeathsKilled(fs0, parent0, absorbed, elder, stamp);
    }

    /** `elder_tree.flare.nodes.add(node)`: the elder takes the swept node. */
    method Grow(e: nat, node: Node, ghost cen: map<Node, real>, ghost done: set<Node>)
      requires Swept(cen, done) && e < |flares|
      requires node in cen && node !in done
      requires forall x :: x in done ==> x in cen && cen[x] <= cen[node]
      modifies this
      ensures Swept(cen, done + {node})
      ensures flares == old(flares)[e := old(flares[e]).(nodes := old(flares[e].nodes) + {node})]
      ensures parent == old(parent) && children == old(children) && roots == old(roots)
    {
      LayoutGrow(flares, cen, done, e, node);
      DeathsGrow(flares, parent, e, node);
      flares := flares[e := flares[e].(nodes := flares[e].nodes + {node})];
    }

    /** The loop of flare_detect over the sorted nodes, stopping at the first failed
        lookup. When every lookup succeeds, the sweep covers all of `order`. */
    method Sweep(g: Graph, cen: map<Node, real>, order: seq<Node>) returns (ok: bool)
      requires Valid() && flares == []
      requires Distinct(order) && forall x :: x in order <==> x in cen
      requires forall k :: 0 <= k < |order| - 1 ==> cen[order[k]] <= cen[order[k + 1]]
      modifies this
      ensures ok <==> forall m :: 0 <= m < |order| ==> NeighborsKnown(g, cen, order[m])
      ensures ok ==> Valid() && Partition(flares, cen, cen.Keys) && NoEarlyDeath(flares)
      ensures ok ==> forall i :: 0 <= i < |flares| ==> (flares[i].death.None? <==> i in roots)
      ensures ok ==> Tally(flares, g, cen, order)
    {
      ghost var done: set<Node> := {};
      var k := 0;
      while k < |order|
        invariant SweptPrefix(g, cen, order, k, done)
        invariant Swept(cen, done) && Tally(flares, g, cen, order[..k])
      {
        if !NeighborsKnown(g, cen, order[k]) {
          return false;
        }
        Advance(g, cen, order, k, done);
        done := done + {order[k]};
        k := k + 1;
      }
      assert order[..k] == order;
      assert done == cen.Keys;
      AliveIffRoot(cen, done);
      return true;
    }

    /** One turn of the loop: the pass for the next node of `order`. */
    method Advance(g: Graph, cen: map<Node, real>, order: seq<Node>, k: nat, ghost done: set<Node>)
      requires Distinct(order) && forall x :: x in order <==> x in cen
      requires forall k :: 0 <= k < |order| - 1 ==> cen[order[k]] <= cen[order[k + 1]]
      requires SweptPrefix(g, cen, order, k, done) && k < |order| && NeighborsKnown(g, cen, order[k])
      requires Swept(cen, done) && Tally(flares, g, cen, order[..k])
      modifies this
      ensures SweptPrefix(g, cen, order, k + 1, done + {order[k]})
      ensures Swept(cen, done + {order[k]}) && Tally(flares, g, cen, order[..k + 1])
    {
      SweptPrefixStep(g, cen, order, k, done);
      Visit(g, cen, order[k], done, order[..k]);
    }

    /** The pass for `node` (Step), seen from the sweep over the nodes `seen`: the state
        after one more node, with a birth exactly when no neighbour was swept before. */
    method Visit(g: Graph, cen: map<Node, real>, node: Node, ghost done: set<Node>, ghost seen: seq<Node>)
      requires Swept(cen, done) && Tally(flares, g, cen, seen)
      requires forall x :: x in done <==> x in seen
      requires node in cen && node !in done && NeighborsKnown(g, cen, node)
      requires forall x :: x in done ==> x in cen && cen[x] <= cen[node]
      modifies this
      ensures Swept(cen, done + {node}) && Tally(flares, g, cen, seen + [node])
    {
      SweptTouching(g, cen, node, done, seen);
      ghost var fs := flares;
      var cands := Step(g, cen, node, done);
      if cands == [] {
        TallyBirth(fs, g, cen, seen, node);
      } else {
        KilledGrown(fs, Elems(cands) - {cands[0]}, Stamp(cen[node], node), cands[0], node);
        TallyMerge(fs, flares, g, cen, seen, node, Elems(cands) - {cands[0]});
      }
    }

    /** The lower neighbours touch no root tree exactly when no neighbour has been swept:
        every swept node lies in the tree of some root, and only swept nodes do. */
    lemma SweptTouching(g: Graph, cen: map<Node, real>, node: Node, done: set<Node>, seen: seq<Node>)
      requires Swept(cen, done)
      requires forall x :: x in done <==> x in seen
      requires node in cen && NeighborsKnown(g, cen, node)
      requires forall x :: x in done ==> x in cen && cen[x] <= cen[node]
      ensures TouchingRoots(roots, LowerNeighbors(g, cen, node)) == [] <==> Isolated(g, node, seen)
    {
      var items := LowerNeighbors(g, cen, node);
      if !Isolated(g, node, seen) {
        var y :| y in Neighbors(g, node) && y in seen;
        var m :| 0 <= m < |items| && items[m] == y;
        SweptInRoot(cen, done, y);
        var t :| t in roots && InTree(t, y);
        TouchingRootsMembers(roots, items);
        assert Touches(t, items);
        assert t in TouchingRoots(roots, items);
      }
      if TouchingRoots(roots, items) != [] {
        var t := TouchingRoots(roots, items)[0];
        TouchingRootsMembers(roots, items);
        assert t in TouchingRoots(roots, items);
        var m :| 0 <= m < |items| && InTree(t, items[m]);
        InTreeSwept(cen, done, t, items[m]);
      }
    }

    /** A swept node lies in the tree of some root. */
    lemma SweptInRoot(cen: map<Node, real>, done: set<Node>, y: Node)
      requires Valid() && Layout(flares, cen, done) && y in done
      ensures exists t :: t in roots && t < |flares| && InTree(t, y)
    {
      CoveredIff(flares, y);
      var i :| 0 <= i < |flares| && y in flares[i].nodes;
      var t := RootOf(i);
      IterMembers(t, i);
      var k :| 0 <= k < |Iter(t)| && Iter(t)[k] == i;
      assert InTree(t, y);
    }

    /** Only swept nodes lie in a tree. */
    lemma InTreeSwept(cen: map<Node, real>, done: set<Node>, t: nat, y: Node)
      requires Valid() && Layout(flares, cen, done) && t < |flares| && InTree(t, y)
      ensures y in done
    {
      var k :| 0 <= k < |Iter(t)| && y in flares[Iter(t)[k]].nodes;
      BirthsDone(flares, cen, done);
    }

    /** During the sweep a flare is alive exactly when its tree is a root. */
    lemma AliveIffRoot(cen: map<Node, real>, done: set<Node>)
      requires Swept(cen, done)
      ensures forall i :: 0 <= i < |flares| ==> (flares[i].death.None? <==> i in roots)
    {
    }

    /** One pass of the loop of flare_detect for `node`: the death candidates are the root
        trees touching the lower neighbours. Without candidates a flare is born; otherwise
        the oldest candidate absorbs the others, which die at this node, and takes the node. */
    method Step(g: Graph, cen: map<Node, real>, node: Node, ghost done: set<Node>)
        returns (cands: seq<nat>)
      requires Swept(cen, done)
      requires node in cen && node !in done && NeighborsKnown(g, cen, node)
      requires forall x :: x in done ==> x in cen && cen[x] <= cen[node]
      modifies this
      ensures Swept(cen, done + {node})
      ensures cands == old(TouchingRoots(roots, LowerNeighbors(g, cen, node)))
      ensures cands == [] ==> flares == old(flares) + [Flare({node}, Stamp(cen[node], node), None)]
      ensures cands == [] ==> roots == old(roots) + [|old(flares)|]
      ensures cands == [] ==> parent == old(parent) + [None] && children == old(children) + [[]]
      ensures cands != [] ==> (cands[0] < |old(flares)| &&
        var dead := Killed(old(flares), Elems(cands) - {cands[0]}, Stamp(cen[node], node));
        flares == dead[cands[0] := dead[cands[0]].(nodes := dead[cands[0]].nodes + {node})])
      ensures cands != [] ==> parent == Adopted(old(parent), Elems(cands) - {cands[0]}, cands[0])
      ensures cands != [] ==> forall r :: r in roots <==> r in old(roots) && (r !in cands || r == cands[0])
    {
      var nbrs := LowerNeighbors(g, cen, node);
      cands := Candidates(nbrs);
      if cands == [] {
        var id := Birth(node, cen[node], cen, done);
      } else {
        TouchingRootsOrder(roots, nbrs);
        var elder := Absorption(cands, node, cen[node], cen, done);
      }
    }

    /** The birth branch: a new root tree holding a new flare for `node`. */
    method Birth(node: Node, cur: real, ghost cen: map<Node, real>, ghost done: set<Node>)
        returns (id: nat)
      requires Swept(cen, done)
      requires node in cen && node !in done && cur == cen[node]
      requires forall x :: x in done ==> x in cen && cen[x] <= cur
      modifies this
      ensures Swept(cen, done + {node}) && id == |old(flares)|
      ensures flares == old(flares) + [Flare({node}, Stamp(cur, node), None)]
      ensures parent == old(parent) + [None] && children == old(children) + [[]]
      ensures roots == old(roots) + [id]
    {
      LayoutBirth(flares, cen, done, node);
      id := NewTree(node, cur);
    }

    /** The merge branch: the elder is the first candidate; it absorbs the others and
        takes `node`. */
    method Absorption(cands: seq<nat>, node: Node, cur: real, ghost cen: map<Node, real>, ghost done: set<Node>)
        returns (elder: nat)
      requires Swept(cen, done)
      requires node in cen && node !in done && cur == cen[node]
      requires forall x :: x in done ==> x in cen && cen[x] <= cur
      requires cands != [] && Ascending(cands)
      requires forall t :: t in cands ==> t in roots && t < |flares|
      modifies this
      ensures elder == cands[0] && elder < |old(flares)|
      ensures Swept(cen, done + {node})
      ensures var dead := Killed(old(flares), Elems(cands) - {elder}, Stamp(cur, node));
        flares == dead[elder := dead[elder].(nodes := dead[elder].nodes + {node})]
      ensures parent == Adopted(old(parent), Elems(cands) - {elder}, elder)
      ensures forall r :: r in roots <==> r in old(roots) && (r !in cands || r == elder)
    {
      assert forall m :: 0 <= m < |cands| ==> cands[m] in cands;
      elder := Elder(cands);
      FirstIsOldest(cands);
      assert elder == cands[0];
      BirthsDone(flares, cen, done);
      Merge(cands, elder, Stamp(cur, node), cen, done);
      Grow(elder, node, cen, done);
    }
  }

  /** The first `k` nodes of `order` have been swept: they are the nodes `done`, none lies
      above the next node, and the lookups of their passes succeeded. */
  ghost predicate SweptPrefix(g: Graph, cen: map<Node, real>, order: seq<Node>, k: nat, done: set<Node>)
  {
    && k <= |order|
    && (forall x :: x in done <==> x in order[..k])
    && (forall x :: x in done ==> x in cen && (k < |order| ==> order[k] in cen && cen[x] <= cen[order[k]]))
    && (forall m :: 0 <= m < k ==> NeighborsKnown(g, cen, order[m]))
  }

  /** Sweeping the next node of a sorted order extends the swept prefix by it. */
  lemma SweptPrefixStep(g: Graph, cen: map<Node, real>, order: seq<Node>, k: nat, done: set<Node>)
    requires Distinct(order) && forall x :: x in order <==> x in cen
    requires forall k :: 0 <= k < |order| - 1 ==> cen[order[k]] <= cen[order[k + 1]]
    requires SweptPrefix(g, cen, order, k, done) && k < |order| && NeighborsKnown(g, cen, order[k])
    ensures order[k] in cen && order[k] !in done
    ensures forall x :: x in done ==> cen[x] <= cen[order[k]]
    ensures order[..k + 1] == order[..k] + [order[k]]
    ensures SweptPrefix(g, cen, order, k + 1, done + {order[k]})
  {
    var node := order[k];
    assert node in order;
    assert order[..k + 1] == order[..k] + [node];
  }

  /** The indices below `n`, ascending. */
  function Range(n: nat): (r: seq<nat>)
    ensures |r| == n && Distinct(r)
    ensures forall j :: j in r <==> 0 <= j < n
  {
    if n == 0 then []
    else
      var a := Range(n - 1);
      assert forall i :: 0 <= i < |a| ==> a[i] != n - 1 by {
        forall i | 0 <= i < |a|
          ensures a[i] != n - 1
        {
          assert a[i] in a;
        }
      }
      a + [n - 1]
  }

  /** `s` without `x` (set.remove on the root trees), order kept. */
  function Remove(s: seq<nat>, x: nat): (r: seq<nat>)
    ensures forall y :: y in r <==> y in s && y != x
  {
    if s == [] then []
    else
      var rest := Remove(s[1..], x);
      assert forall y :: y in s <==> y == s[0] || y in s[1..];
      if s[0] == x then rest else [s[0]] + rest
  }

  predicate Ascending(s: seq<nat>)
  {
    forall a, b :: 0 <= a < b < |s| ==> s[a] < s[b]
  }

  /** Removing an entry keeps a list ascending. */
  lemma {:induction false} RemoveAscending(s: seq<nat>, x: nat)
    requires Ascending(s)
    ensures Ascending(Remove(s, x))
  {
    if s != [] {
      RemoveAscending(s[1..], x);
      var rest := Remove(s[1..], x);
      forall y | y in rest
        ensures s[0] < y
      {
        var b :| 0 <= b < |s[1..]| && s[1..][b] == y;
        assert s[b + 1] == y;
      }
      if s[0] != x {
        var r := [s[0]] + rest;
        forall a, b | 0 <= a < b < |r|
          ensures r[a] < r[b]
        {
          assert r[b] == rest[b - 1];
          if a > 0 {
            assert r[a] == rest[a - 1];
          } else {
            assert r[b] in rest;
          }
        }
      }
    }
  }

  /** Every lookup of the pass for `x` succeeds: `G.adj[x]`, which needs `x` to be a node
      of the graph, and `centrality[nbr]` for each of its neighbours. */
  predicate NeighborsKnown(g: Graph, cen: map<Node, real>, x: Node)
  {
    x in g.nodes && forall nbr :: nbr in Neighbors(g, x) ==> nbr in cen
  }

  /** The neighbours of `node`, in adjacency order, whose centrality is at most its own. */
  function LowerNeighbors(g: Graph, cen: map<Node, real>, node: Node): (r: seq<Node>)
    requires node in cen && NeighborsKnown(g, cen, node)
    ensures forall nbr :: nbr in r <==> nbr in Neighbors(g, node) && cen[nbr] <= cen[node]
  {
    AtMost(Neighbors(g, node), cen, cen[node])
  }

  /** The entries of `ns` whose centrality is at most `cur`. */
  function AtMost(ns: seq<Node>, cen: map<Node, real>, cur: real): (r: seq<Node>)
    requires forall nbr :: nbr in ns ==> nbr in cen
    ensures forall nbr :: nbr in r <==> nbr in ns && cen[nbr] <= cur
  {
    if ns == [] then []
    else
      var rest := AtMost(ns[1..], cen, cur);
      assert forall nbr :: nbr in ns <==> nbr == ns[0] || nbr in ns[1..];
      if cen[ns[0]] <= cur then [ns[0]] + rest else rest
  }

  /** A flare born at its lowest node: the birth node is a member, the birth value is its
      centrality, and no member lies lower. */
  ghost predicate BornAtLowest(f: Flare, cen: map<Node, real>)
  {
    && f.birth.node in f.nodes
    && (forall x :: x in f.nodes ==> x in cen)
    && f.birth.node in cen && f.birth.value == cen[f.birth.node]
    && (forall x :: x in f.nodes ==> f.birth.value <= cen[x])
  }

  /** The flares split the nodes `done`: each is born at its lowest node, no two share a
      node, and together they hold exactly `done`. */
  ghost predicate Partition(fs: seq<Flare>, cen: map<Node, real>, done: set<Node>)
  {
    && (forall i :: 0 <= i < |fs| ==> BornAtLowest(fs[i], cen))
    && (forall i, j :: 0 <= i < j < |fs| ==> fs[i].nodes !! fs[j].nodes)
    && Covered(fs) == done
  }

  /** The nodes of all the flares. */
  ghost function Covered(fs: seq<Flare>): set<Node>
  {
    if fs == [] then {} else Covered(fs[..|fs| - 1]) + fs[|fs| - 1].nodes
  }

  /** A node is covered exactly when some flare holds it. */
  lemma {:induction false} CoveredIff(fs: seq<Flare>, x: Node)
    ensures x in Covered(fs) <==> exists i :: 0 <= i < |fs| && x in fs[i].nodes
  {
    if fs != [] {
      var init := fs[..|fs| - 1];
      CoveredIff(init, x);
      if exists i :: 0 <= i < |init| && x in init[i].nodes {
        var i :| 0 <= i < |init| && x in init[i].nodes;
        assert fs[i] == init[i];
      }
      if exists i :: 0 <= i < |fs| && x in fs[i].nodes {
        var i :| 0 <= i < |fs| && x in fs[i].nodes;
        if i < |init| {
          assert fs[i] == init[i];
        }
      }
    }
  }

  /** Covering looks at the node sets only. */
  lemma {:induction false} CoveredSameNodes(fs: seq<Flare>, fs': seq<Flare>)
    requires |fs| == |fs'| && forall i :: 0 <= i < |fs| ==> fs[i].nodes == fs'[i].nodes
    ensures Covered(fs) == Covered(fs')
  {
    if fs != [] {
      CoveredSameNodes(fs[..|fs| - 1], fs'[..|fs| - 1]);
    }
  }

  /** Adding a node to one flare adds it to the cover. */
  lemma {:induction false} CoveredGrow(fs: seq<Flare>, e: nat, node: Node)
    requires e < |fs|
    ensures Covered(fs[e := fs[e].(nodes := fs[e].nodes + {node})]) == Covered(fs) + {node}
  {
    var fs' := fs[e := fs[e].(nodes := fs[e].nodes + {node})];
    var n := |fs| - 1;
    if e == n {
      assert fs'[..n] == fs[..n];
    } else {
      CoveredGrow(fs[..n], e, node);
      assert fs'[..n] == fs[..n][e := fs[e].(nodes := fs[e].nodes + {node})];
    }
  }

  /** A covered node lies in one of the flares, hence has been swept. */
  lemma CoveredMember(fs: seq<Flare>, i: nat, x: Node)
    requires i < |fs| && x in fs[i].nodes
    ensures x in Covered(fs)
  {
    CoveredIff(fs, x);
  }

  /** The arena layout during the sweep: a partition whose births grow with the index. */
  ghost predicate Layout(fs: seq<Flare>, cen: map<Node, real>, done: set<Node>)
  {
    && Partition(fs, cen, done)
    && (forall i, j :: 0 <= i < j < |fs| ==> fs[i].birth.value <= fs[j].birth.value)
  }

  /** A flare has died exactly when its tree has a parent, and never before its birth. */
  ghost predicate Deaths(fs: seq<Flare>, parent: seq<Option<nat>>)
  {
    && |parent| == |fs|
    && (forall i :: 0 <= i < |fs| ==> (fs[i].death.None? <==> parent[i].None?))
    && NoEarlyDeath(fs)
  }

  /** No flare dies below its birth. */
  ghost predicate NoEarlyDeath(fs: seq<Flare>)
  {
    forall i :: 0 <= i < |fs| && fs[i].death.Some? ==> fs[i].birth.value <= fs[i].death.value.value
  }

  /** No neighbour of `x` lies in `seen`: the pass for `x` after the nodes `seen` finds no
      death candidate. */
  ghost predicate Isolated(g: Graph, x: Node, seen: seq<Node>)
  {
    forall y :: y in Neighbors(g, x) ==> y !in seen
  }

  /** The nodes of `order` with no neighbour before them, in order: where the sweep over
      `order` gives birth to a flare. */
  ghost function BirthNodes(g: Graph, order: seq<Node>): seq<Node>
  {
    if order == [] then []
    else
      var init := order[..|order| - 1];
      BirthNodes(g, init) + (if Isolated(g, order[|order| - 1], init) then [order[|order| - 1]] else [])
  }

  /** Sweeping one more node adds it to the births exactly when it is isolated from the
      nodes before it. */
  lemma BirthNodesSnoc(g: Graph, seen: seq<Node>, x: Node)
    ensures BirthNodes(g, seen + [x]) == BirthNodes(g, seen) + (if Isolated(g, x, seen) then [x] else [])
  {
    assert (seen + [x])[..|seen|] == seen;
  }

  /** A node with no neighbour before it in the order is a birth. */
  lemma {:induction false} BirthNodeAt(g: Graph, order: seq<Node>, k: nat)
    requires k < |order| && Isolated(g, order[k], order[..k])
    ensures order[k] in BirthNodes(g, order)
  {
    var n := |order| - 1;
    var init := order[..n];
    BirthNodesSnoc(g, init, order[n]);
    assert order == init + [order[n]];
    if k < n {
      assert init[..k] == order[..k];
      BirthNodeAt(g, init, k);
    }
  }

  /** A birth has no neighbour before it in the order. */
  lemma {:induction false} BirthNodeIsolated(g: Graph, order: seq<Node>, y: Node)
    requires y in BirthNodes(g, order)
    ensures exists k :: 0 <= k < |order| && order[k] == y && Isolated(g, y, order[..k])
  {
    var n := |order| - 1;
    var init := order[..n];
    BirthNodesSnoc(g, init, order[n]);
    assert order == init + [order[n]];
    if y in BirthNodes(g, init) {
      BirthNodeIsolated(g, init, y);
      var k :| 0 <= k < |init| && init[k] == y && Isolated(g, y, init[..k]);
      assert init[..k] == order[..k];
    } else {
      assert order[n] == y && order[..n] == init;
    }
  }

  /** An order listing each node once lists each birth once. */
  lemma {:induction false} BirthNodesDistinct(g: Graph, order: seq<Node>)
    requires Distinct(order)
    ensures Distinct(BirthNodes(g, order))
  {
    if order != [] {
      var n := |order| - 1;
      var init, x := order[..n], order[n];
      assert Distinct(init) by {
        forall i, j | 0 <= i < j < |init|
          ensures init[i] != init[j]
        {
          assert init[i] == order[i] && init[j] == order[j];
        }
      }
      BirthNodesDistinct(g, init);
      BirthNodesSnoc(g, init, x);
      assert order == init + [x];
      var b := BirthNodes(g, init);
      if Isolated(g, x, init) {
        BirthNodesWithin(g, init, x);
        forall i, j | 0 <= i < j < |b| + 1
          ensures (b + [x])[i] != (b + [x])[j]
        {
          if j == |b| {
            assert b[i] in b;
          }
        }
      }
    }
  }

  /** A death at a swept node where no flare was born, at that node's centrality: the
      pass of a node that merged trees. */
  ghost predicate DiedAt(d: Stamp, g: Graph, cen: map<Node, real>, seen: seq<Node>)
  {
    d.node in seen && d.node !in BirthNodes(g, seen) && d.node in cen && d.value == cen[d.node]
  }

  /** The arena after sweeping `seen`: flare `i` was born at the i-th birth node, and every
      death happened at a merging pass. */
  ghost predicate Tally(fs: seq<Flare>, g: Graph, cen: map<Node, real>, seen: seq<Node>)
  {
    && |fs| == |BirthNodes(g, seen)|
    && (forall i :: 0 <= i < |fs| ==> fs[i].birth.node == BirthNodes(g, seen)[i])
    && (forall i :: 0 <= i < |fs| && fs[i].death.Some? ==> DiedAt(fs[i].death.value, g, cen, seen))
  }

  /** The births are among the swept nodes. */
  lemma BirthNodesWithin(g: Graph, seen: seq<Node>, x: Node)
    requires x !in seen
    ensures x !in BirthNodes(g, seen)
    decreases |seen|
  {
    if seen != [] {
      var init := seen[..|seen| - 1];
      assert seen == init + [seen[|seen| - 1]];
      BirthNodesWithin(g, init, x);
    }
  }

  /** A birth pass appends the flare of the new birth node. */
  lemma TallyBirth(fs: seq<Flare>, g: Graph, cen: map<Node, real>, seen: seq<Node>, node: Node)
    requires Tally(fs, g, cen, seen) && node !in seen && Isolated(g, node, seen) && node in cen
    ensures Tally(fs + [Flare({node}, Stamp(cen[node], node), None)], g, cen, seen + [node])
  {
    BirthNodesSnoc(g, seen, node);
    var fs' := fs + [Flare({node}, Stamp(cen[node], node), None)];
    forall i | 0 <= i < |fs'| && fs'[i].death.Some?
      ensures DiedAt(fs'[i].death.value, g, cen, seen + [node])
    {
      assert fs'[i] == fs[i];
    }
  }

  /** A merging pass keeps every birth; the flares it kills die at this node. */
  lemma TallyMerge(fs: seq<Flare>, fs': seq<Flare>, g: Graph, cen: map<Node, real>, seen: seq<Node>,
                   node: Node, ts: set<nat>)
    requires Tally(fs, g, cen, seen) && node !in seen && !Isolated(g, node, seen) && node in cen
    requires |fs'| == |fs|
    requires forall i :: 0 <= i < |fs| ==>
      fs'[i].birth == fs[i].birth && fs'[i].death == if i in ts then Some(Stamp(cen[node], node)) else fs[i].death
    ensures Tally(fs', g, cen, seen + [node])
  {
    BirthNodesSnoc(g, seen, node);
    BirthNodesWithin(g, seen, node);
    forall i | 0 <= i < |fs'| && fs'[i].death.Some?
      ensures DiedAt(fs'[i].death.value, g, cen, seen + [node])
    {
      if i !in ts {
        assert DiedAt(fs[i].death.value, g, cen, seen);
      }
    }
  }

  /** Killing the flares `ts` and growing flare `e` keep every birth; exactly the flares
      `ts` get the new death. */
  lemma KilledGrown(fs: seq<Flare>, ts: set<nat>, stamp: Stamp, e: nat, node: Node)
    requires e < |fs|
    ensures var dead := Killed(fs, ts, stamp);
      var fs' := dead[e := dead[e].(nodes := dead[e].nodes + {node})];
      |fs'| == |fs| &&
      forall i :: 0 <= i < |fs| ==>
        fs'[i].birth == fs[i].birth && fs'[i].death == if i in ts then Some(stamp) else fs[i].death
  {
  }

  /** The tally read through a reordering of the flares: as many flares as births, one
      born at each birth node, and every death at a merging pass. */
  lemma TallyReordered(fs: seq<Flare>, ix: seq<nat>, r: seq<Flare>, g: Graph, cen: map<Node, real>,
                       seen: seq<Node>)
    requires Tally(fs, g, cen, seen)
    requires |ix| == |r| == |fs|
    requires forall k :: 0 <= k < |ix| ==> ix[k] < |fs| && r[k] == fs[ix[k]]
    requires forall i :: 0 <= i < |fs| ==> i in ix
    ensures |r| == |BirthNodes(g, seen)|
    ensures forall b :: b in BirthNodes(g, seen) <==> exists k :: 0 <= k < |r| && r[k].birth.node == b
    ensures forall k :: 0 <= k < |r| && r[k].death.Some? ==> DiedAt(r[k].death.value, g, cen, seen)
  {
    var bs := BirthNodes(g, seen);
    forall b | b in bs
      ensures exists k :: 0 <= k < |r| && r[k].birth.node == b
    {
      var i :| 0 <= i < |bs| && bs[i] == b;
      assert i in ix;
      var k :| 0 <= k < |ix| && ix[k] == i;
      assert r[k].birth.node == b;
    }
    forall k | 0 <= k < |r|
      ensures r[k].birth.node in bs
    {
      assert r[k].birth.node == bs[ix[k]];
    }
  }

  /** Every member, and so every birth node, has been swept. */
  lemma BirthsDone(fs: seq<Flare>, cen: map<Node, real>, done: set<Node>)
    requires Layout(fs, cen, done)
    ensures forall i :: 0 <= i < |fs| ==> fs[i].birth.node in done
    ensures forall i, x :: 0 <= i < |fs| && x in fs[i].nodes ==> x in done
  {
    forall i, x | 0 <= i < |fs| && x in fs[i].nodes
      ensures x in done
    {
      CoveredMember(fs, i, x);
    }
    forall i | 0 <= i < |fs|
      ensures fs[i].birth.node in done
    {
      assert BornAtLowest(fs[i], cen);
    }
  }

  /** A birth at a node above every swept node keeps the layout. */
  lemma LayoutBirth(fs: seq<Flare>, cen: map<Node, real>, done: set<Node>, node: Node)
    requires Layout(fs, cen, done)
    requires node in cen && node !in done
    requires forall x :: x in done ==> x in cen && cen[x] <= cen[node]
    ensures Layout(fs + [Flare({node}, Stamp(cen[node], node), None)], cen, done + {node})
  {
    var f := Flare({node}, Stamp(cen[node], node), None);
    var fs' := fs + [f];
    BirthsDone(fs, cen, done);
    assert fs'[..|fs|] == fs;
    assert BornAtLowest(f, cen);
    forall i | 0 <= i < |fs|
      ensures fs[i].birth.value <= f.birth.value
    {
      assert BornAtLowest(fs[i], cen);
    }
  }

  /** The flares `ts` dead at `stamp`, the others as they were. */
  ghost function Killed(fs: seq<Flare>, ts: set<nat>, stamp: Stamp): (r: seq<Flare>)
    ensures |r| == |fs|
  {
    seq(|fs|, i requires 0 <= i < |fs| => if i in ts then fs[i].(death := Some(stamp)) else fs[i])
  }

  /** The trees `ts` children of `e`, the other parent links as they were. */
  ghost function Adopted(parent: seq<Option<nat>>, ts: set<nat>, e: nat): (r: seq<Option<nat>>)
    ensures |r| == |parent|
  {
    seq(|parent|, i requires 0 <= i < |parent| => if i in ts then Some(e) else parent[i])
  }

  /** Killing one more flare is one more update. */
  lemma KilledStep(fs: seq<Flare>, ts: set<nat>, t: nat, stamp: Stamp)
    requires t < |fs| && t !in ts
    ensures Killed(fs, ts + {t}, stamp) == Killed(fs, ts, stamp)[t := fs[t].(death := Some(stamp))]
  {
  }

  /** Adopting one more tree is one more update. */
  lemma AdoptedStep(parent: seq<Option<nat>>, ts: set<nat>, t: nat, e: nat)
    requires t < |parent| && t !in ts
    ensures Adopted(parent, ts + {t}, e) == Adopted(parent, ts, e)[t := Some(e)]
  {
  }

  /** Deaths change no node set and no birth. */
  lemma LayoutKilled(fs: seq<Flare>, cen: map<Node, real>, done: set<Node>, ts: set<nat>, stamp: Stamp)
    requires Layout(fs, cen, done)
    ensures Layout(Killed(fs, ts, stamp), cen, done)
  {
    var fs' := Killed(fs, ts, stamp);
    CoveredSameNodes(fs, fs');
    forall i | 0 <= i < |fs'|
      ensures BornAtLowest(fs'[i], cen)
    {
      assert BornAtLowest(fs[i], cen);
    }
  }

  /** Root trees dying no lower than their births, each becoming a child, keep the deaths
      consistent. */
  lemma DeathsKilled(fs: seq<Flare>, parent: seq<Option<nat>>, ts: set<nat>, e: nat, stamp: Stamp)
    requires Deaths(fs, parent)
    requires forall t :: t in ts ==> t < |fs| && parent[t].None? && fs[t].birth.value <= stamp.value
    ensures Deaths(Killed(fs, ts, stamp), Adopted(parent, ts, e))
  {
  }

  /** The elder taking a node above every swept node keeps the layout. */
  lemma LayoutGrow(fs: seq<Flare>, cen: map<Node, real>, done: set<Node>, e: nat, node: Node)
    requires Layout(fs, cen, done) && e < |fs|
    requires node in cen && node !in done
    requires forall x :: x in done ==> x in cen && cen[x] <= cen[node]
    ensures Layout(fs[e := fs[e].(nodes := fs[e].nodes + {node})], cen, done + {node})
  {
    var fs' := fs[e := fs[e].(nodes := fs[e].nodes + {node})];
    BirthsDone(fs, cen, done);
    CoveredGrow(fs, e, node);
    assert BornAtLowest(fs[e], cen);
    assert BornAtLowest(fs'[e], cen);
  }

  /** Adding a node to a flare leaves the deaths alone. */
  lemma DeathsGrow(fs: seq<Flare>, parent: seq<Option<nat>>, e: nat, node: Node)
    requires Deaths(fs, parent) && e < |fs|
    ensures Deaths(fs[e := fs[e].(nodes := fs[e].nodes + {node})], parent)
  {
  }

  /** Listing the flares in another order keeps a partition and the death bounds. */
  lemma Reordered(fs: seq<Flare>, ix: seq<nat>, r: seq<Flare>, cen: map<Node, real>, done: set<Node>)
    requires Partition(fs, cen, done) && NoEarlyDeath(fs)
    requires |ix| == |r| && Distinct(ix)
    requires forall k :: 0 <= k < |ix| ==> ix[k] < |fs| && r[k] == fs[ix[k]]
    requires forall i :: 0 <= i < |fs| ==> i in ix
    ensures Partition(r, cen, done) && NoEarlyDeath(r)
  {
    forall a, b | 0 <= a < b < |r|
      ensures r[a].nodes !! r[b].nodes
    {
      if ix[a] > ix[b] {
        assert fs[ix[b]].nodes !! fs[ix[a]].nodes;
      }
    }
    forall x: Node | true
      ensures x in Covered(r) <==> x in Covered(fs)
    {
      CoveredIff(r, x);
      CoveredIff(fs, x);
      if exists i :: 0 <= i < |fs| && x in fs[i].nodes {
        var i :| 0 <= i < |fs| && x in fs[i].nodes;
        assert i in ix;
        var k :| 0 <= k < |ix| && ix[k] == i;
        assert x in r[k].nodes;
      }
    }
  }

  /** The centrality of a node, as the sort key of flare_detect. */
  function CenKey(cen: map<Node, real>): Node -> real
  {
    x => if x in cen then cen[x] else 0.0
  }

  /** `sorted(centrality.items(), key=itemgetter(1))`, as nodes: each node once, in
      ascending centrality. */
  function SweepOrder(cen: map<Node, real>, keys: seq<Node>): (order: seq<Node>)
    requires Distinct(keys) && forall x :: x in keys <==> x in cen
    ensures Distinct(order) && forall x :: x in order <==> x in cen
    ensures forall k :: 0 <= k < |order| - 1 ==> cen[order[k]] <= cen[order[k + 1]]
  {
    var order := SortBy(keys, CenKey(cen));
    CoreShell.MultisetDistinct(order, keys, multiset{});
    assert forall x :: x in order <==> x in cen by {
      forall x
        ensures x in order <==> x in cen
      {
        assert x in order <==> x in multiset(order);
        assert x in keys <==> x in multiset(keys);
      }
    }
    assert forall k :: 0 <= k < |order| - 1 ==> cen[order[k]] <= cen[order[k + 1]] by {
      forall k | 0 <= k < |order| - 1
        ensures cen[order[k]] <= cen[order[k + 1]]
      {
        assert CenKey(cen)(order[k]) <= CenKey(cen)(order[k + 1]);
      }
    }
    order
  }

  /** The sweep order is sorted by centrality, any two positions apart. */
  lemma SweepOrderSorted(cen: map<Node, real>, keys: seq<Node>)
    requires Distinct(keys) && forall x :: x in keys <==> x in cen
    ensures SortedBy(SweepOrder(cen, keys), CenKey(cen))
  {
    assert SweepOrder(cen, keys) == SortBy(keys, CenKey(cen));
  }

  /** flare_detect: the nodes are swept by ascending centrality (ties in dictionary
      order), each pass a `Step`, and the result lists the flares of the final forest
      tree by tree. It is None when a lookup of the sweep fails: a node that is not in
      the graph, or a neighbour without a centrality. Otherwise the flares split the
      nodes, each is born at its lowest node, and none dies below its birth; there is
      one flare per node of the sweep with no neighbour swept before it, born there;
      every death happens at a node of the sweep where no flare was born, at its
      centrality; and the first flare listed, that of the first root tree, is alive. */
  method FlareDetect(g: Graph, cen: map<Node, real>, keys: seq<Node>) returns (r: Option<seq<Flare>>)
    requires Distinct(keys) && forall x :: x in keys <==> x in cen
    ensures r.None? <==> exists x :: x in cen && !NeighborsKnown(g, cen, x)
    ensures r.Some? ==> Partition(r.value, cen, cen.Keys) && NoEarlyDeath(r.value)
    ensures r.Some? ==> |r.value| == |BirthNodes(g, SweepOrder(cen, keys))|
    ensures r.Some? ==> forall b :: b in BirthNodes(g, SweepOrder(cen, keys)) <==>
      exists i :: 0 <= i < |r.value| && r.value[i].birth.node == b
    ensures r.Some? ==> forall i :: 0 <= i < |r.value| && r.value[i].death.Some? ==>
      DiedAt(r.value[i].death.value, g, cen, SweepOrder(cen, keys))
    ensures r.Some? && r.value != [] ==> r.value[0].death.None?
  {
    var order := SweepOrder(cen, keys);
    var forest := new Forest();
    var ok := forest.Sweep(g, cen, order);
    OrderKnown(g, cen, order);
    if !ok {
      return None;
    }
    forest.Reported(g, cen, order);
    r := Some(forest.UnpackFlares());
  }

  /** Every lookup along the order succeeds iff every lookup over the keys does. */
  lemma OrderKnown(g: Graph, cen: map<Node, real>, order: seq<Node>)
    requires forall x :: x in order <==> x in cen
    ensures (forall m :: 0 <= m < |order| ==> NeighborsKnown(g, cen, order[m])) <==>
            (forall x :: x in cen ==> NeighborsKnown(g, cen, x))
  {
    if forall m :: 0 <= m < |order| ==> NeighborsKnown(g, cen, order[m]) {
      forall x | x in cen
        ensures NeighborsKnown(g, cen, x)
      {
        var m :| 0 <= m < |order| && order[m] == x;
      }
    }
  }

  /** networkx's path_graph(n): the nodes 0, ..., n - 1 in order, node i adjacent to
      i - 1 and then to i + 1. */
  function PathGraph(n: nat): Graph
  {
    Graph(Range(n), map i | i in Elems(Range(n)) :: PathNeighbors(i, n), map i | i in Elems(Range(n)) :: {})
  }

  function PathNeighbors(i: nat, n: nat): seq<Node>
  {
    (if i > 0 then [i - 1] else []) + (if i + 1 < n then [i + 1] else [])
  }

  /** networkx's star_graph(n): the hub 0 adjacent to the leaves 1, ..., n in order, each
      leaf adjacent to the hub only. */
  function StarGraph(n: nat): Graph
  {
    var m := n + 1;
    Graph(Range(m), map i | i in Elems(Range(m)) :: if i == 0 then Range(m)[1..] else [0],
          map i | i in Elems(Range(m)) :: {})
  }

  /** The same centrality for the nodes 0, ..., n - 1 (`{n: 1 for n in G.nodes}`). */
  function Uniform(n: nat, c: real): map<Node, real>
  {
    map i | i in Elems(Range(n)) :: c
  }

  /** The harmonic numbers 1 + 1/2 + ... + 1/m. */
  function Harmonic(m: nat): real
  {
    if m == 0 then 0.0 else Harmonic(m - 1) + 1.0 / (m as real)
  }

  /** The harmonic centrality of path_graph(n): node i lies at distance d from i - d and
      from i + d, so it sums 1/d over the i nodes on its left and the n - 1 - i on its right. */
  function PathHarmonic(n: nat): map<Node, real>
  {
    map i | i in Elems(Range(n)) :: Harmonic(i) + Harmonic(n - 1 - i)
  }

  /** The harmonic centrality of star_graph(n): the hub is at distance 1 from every leaf,
      a leaf at distance 1 from the hub and 2 from the other n - 1 leaves. */
  function StarHarmonic(n: nat): map<Node, real>
  {
    var m := n + 1;
    map i | i in Elems(Range(m)) :: if i == 0 then n as real else 1.0 + (n - 1) as real / 2.0
  }

  /** In an order sorted by centrality, a node whose neighbours all lie strictly higher
      has none of them before it, and a node with a strictly lower neighbour has one. */
  lemma SortedIsolation(g: Graph, cen: map<Node, real>, order: seq<Node>, k: nat)
    requires forall x :: x in order <==> x in cen
    requires SortedBy(order, CenKey(cen)) && k < |order|
    ensures (forall y :: y in Neighbors(g, order[k]) ==> y in cen && cen[order[k]] < cen[y]) ==>
      Isolated(g, order[k], order[..k])
    ensures (exists y :: y in Neighbors(g, order[k]) && y in cen && cen[y] < cen[order[k]]) ==>
      !Isolated(g, order[k], order[..k])
  {
    assert order[k] in order;
    if forall y :: y in Neighbors(g, order[k]) ==> y in cen && cen[order[k]] < cen[y] {
      forall y | y in Neighbors(g, order[k])
        ensures y !in order[..k]
      {
      }
    }
    if exists y :: y in Neighbors(g, order[k]) && y in cen && cen[y] < cen[order[k]] {
      var y :| y in Neighbors(g, order[k]) && y in cen && cen[y] < cen[order[k]];
      assert y in order;
      var j :| 0 <= j < |order| && order[j] == y;
      assert y in order[..k];
    }
  }

  /** The births of a sweep in centrality order: a node whose neighbours all lie strictly
      higher gives birth, a node with a strictly lower neighbour does not. */
  lemma SortedBirths(g: Graph, cen: map<Node, real>, order: seq<Node>, y: Node)
    requires forall x :: x in order <==> x in cen
    requires SortedBy(order, CenKey(cen)) && y in order
    ensures (forall z :: z in Neighbors(g, y) ==> z in cen && cen[y] < cen[z]) ==> y in BirthNodes(g, order)
    ensures (exists z :: z in Neighbors(g, y) && z in cen && cen[z] < cen[y]) ==> y !in BirthNodes(g, order)
  {
    var k :| 0 <= k < |order| && order[k] == y;
    SortedIsolation(g, cen, order, k);
    if forall z :: z in Neighbors(g, y) ==> z in cen && cen[y] < cen[z] {
      BirthNodeAt(g, order, k);
    }
    if y in BirthNodes(g, order) {
      BirthNodeIsolated(g, order, y);
      var j :| 0 <= j < |order| && order[j] == y && Isolated(g, y, order[..j]);
      SortedIsolation(g, cen, order, j);
    }
  }

  /** Counting the births of an order that lists each node once. */
  lemma BirthCount(g: Graph, order: seq<Node>, s: set<Node>)
    requires Distinct(order) && forall y :: y in BirthNodes(g, order) <==> y in s
    ensures |BirthNodes(g, order)| == |s|
  {
    var b := BirthNodes(g, order);
    BirthNodesDistinct(g, order);
    DistinctCard(b);
    assert (set y: Node | y in b) == s;
  }

  /** The births along the first k nodes of path_graph(n) in node order: node 0 only. */
  lemma {:induction false} PathBirths(n: nat, k: nat)
    requires k <= n
    ensures BirthNodes(PathGraph(n), Range(k)) == if k == 0 then [] else [0]
  {
    if k > 0 {
      PathBirths(n, k - 1);
      assert Range(k) == Range(k - 1) + [k - 1];
      BirthNodesSnoc(PathGraph(n), Range(k - 1), k - 1);
      if k > 1 {
        PathAdjacent(n, k - 1);
        assert k - 2 in Range(k - 1);
      }
    }
  }

  /** On path_graph(n) node x is adjacent to x - 1 and to x + 1 where they exist, and to
      nothing else. */
  lemma PathAdjacent(n: nat, x: nat)
    requires x < n
    ensures forall y: Node :: y in Neighbors(PathGraph(n), x) <==> (y + 1 == x || y == x + 1) && y < n
  {
    assert x in Elems(Range(n));
    var ns := PathNeighbors(x, n);
    assert Neighbors(PathGraph(n), x) == ns;
    forall y: Node
      ensures y in ns <==> (y + 1 == x || y == x + 1) && y < n
    {
      var lo: seq<Node> := if x > 0 then [x - 1] else [];
      var hi: seq<Node> := if x + 1 < n then [x + 1] else [];
      assert ns == lo + hi;
      assert y in lo <==> y + 1 == x;
      assert y in hi <==> y == x + 1 && y < n;
    }
  }

  /** test_path_flares with the trivial centrality: on path_graph(n) with every node at
      centrality 1 every lookup succeeds, the sort keeps the node order, and only node 0
      has no neighbour before it. So flare_detect returns one flare, and it holds all n
      nodes. */
  lemma UniformPathFlares(n: nat)
    requires n >= 1
    ensures forall x :: x in Uniform(n, 1.0) ==> NeighborsKnown(PathGraph(n), Uniform(n, 1.0), x)
    ensures SweepOrder(Uniform(n, 1.0), Range(n)) == Range(n)
    ensures |BirthNodes(PathGraph(n), SweepOrder(Uniform(n, 1.0), Range(n)))| == 1
    ensures forall fs: seq<Flare> :: Partition(fs, Uniform(n, 1.0), Uniform(n, 1.0).Keys) && |fs| == 1 ==>
      |fs[0].nodes| == n
  {
    UniformLookups(n);
    UniformOrder(n, 1.0);
    UniformBirths(n);
    UniformSoleFlare(n);
  }

  /** Every lookup of the sweep succeeds on path_graph(n) under the uniform centrality. */
  lemma UniformLookups(n: nat)
    ensures forall x :: x in Uniform(n, 1.0) ==> NeighborsKnown(PathGraph(n), Uniform(n, 1.0), x)
  {
    UniformKeys(n, 1.0);
    PathLookups(n, Uniform(n, 1.0));
  }

  /** Under the uniform centrality only node 0 of path_graph(n) gives birth. */
  lemma UniformBirths(n: nat)
    requires n >= 1
    ensures |BirthNodes(PathGraph(n), SweepOrder(Uniform(n, 1.0), Range(n)))| == 1
  {
    UniformOrder(n, 1.0);
    PathBirths(n, n);
  }

  /** A single flare over the uniform centrality of n nodes holds all of them. */
  lemma UniformSoleFlare(n: nat)
    ensures forall fs: seq<Flare> :: Partition(fs, Uniform(n, 1.0), Uniform(n, 1.0).Keys) && |fs| == 1 ==>
      |fs[0].nodes| == n
  {
    UniformKeys(n, 1.0);
    forall fs: seq<Flare> | Partition(fs, Uniform(n, 1.0), Uniform(n, 1.0).Keys) && |fs| == 1
      ensures |fs[0].nodes| == n
    {
      SoleFlare(fs, Uniform(n, 1.0), Uniform(n, 1.0).Keys);
    }
  }

  /** With one centrality for every node the sweep keeps the node order. */
  lemma UniformOrder(n: nat, c: real)
    ensures SweepOrder(Uniform(n, c), Range(n)) == Range(n)
  {
    SortByUniform(Range(n), CenKey(Uniform(n, c)), c);
  }

  /** The uniform centrality has the n nodes as keys. */
  lemma UniformKeys(n: nat, c: real)
    ensures forall x: Node :: x in Uniform(n, c) <==> x < n
    ensures |Uniform(n, c).Keys| == n
  {
    forall x: Node
      ensures x in Uniform(n, c) <==> x < n
    {
      assert x in Uniform(n, c) <==> x in Elems(Range(n));
    }
    RangeCard(n);
    assert Uniform(n, c).Keys == Elems(Range(n));
  }

  /** Every lookup of the sweep succeeds on path_graph(n) when the centrality covers its
      nodes. */
  lemma PathLookups(n: nat, cen: map<Node, real>)
    requires forall x: Node :: x in cen <==> x < n
    ensures forall x :: x in cen ==> NeighborsKnown(PathGraph(n), cen, x)
  {
    forall x | x in cen
      ensures NeighborsKnown(PathGraph(n), cen, x)
    {
      assert x in Elems(Range(n));
      assert Neighbors(PathGraph(n), x) == PathNeighbors(x, n);
    }
  }

  /** A partition into one flare puts every node in it. */
  lemma SoleFlare(fs: seq<Flare>, cen: map<Node, real>, done: set<Node>)
    requires Partition(fs, cen, done) && |fs| == 1
    ensures fs[0].nodes == done
  {
    assert fs[..0] == [];
    assert Covered(fs) == Covered(fs[..0]) + fs[0].nodes;
  }

  /** Range(n) lists index j at position j. */
  lemma {:induction false} RangeAt(n: nat, j: nat)
    requires j < n
    ensures Range(n)[j] == j
  {
    if j < n - 1 {
      RangeAt(n - 1, j);
    }
  }

  /** The indices below n are n many. */
  lemma RangeCard(n: nat)
    ensures |Elems(Range(n))| == n
  {
    DistinctCard(Range(n));
  }

  /** 1/b < 1/a for 0 < a < b. */
  lemma ReciprocalLess(a: real, b: real)
    requires 0.0 < a < b
    ensures 1.0 / b < 1.0 / a
  {
    assert 1.0 / b * b == 1.0 && 1.0 / a * a == 1.0;
    assert 1.0 / b * a < 1.0 / b * b;
  }

  /** Along path_graph(n) the harmonic centrality climbs strictly from each end towards
      the middle. */
  lemma PathHarmonicClimbs(n: nat, x: nat)
    requires x < n
    ensures 1 <= x && 2 * x < n ==> PathHarmonic(n)[x - 1] < PathHarmonic(n)[x]
    ensures x + 1 < n && 2 * x > n - 2 ==> PathHarmonic(n)[x + 1] < PathHarmonic(n)[x]
  {
    var cen := PathHarmonic(n);
    assert x in Elems(Range(n));
    if 1 <= x && 2 * x < n {
      assert x - 1 in Elems(Range(n));
      assert Harmonic(n - x) == Harmonic(n - 1 - x) + 1.0 / ((n - x) as real);
      ReciprocalLess(x as real, (n - x) as real);
    }
    if x + 1 < n && 2 * x > n - 2 {
      assert x + 1 in Elems(Range(n));
      assert Harmonic(n - 1 - x) == Harmonic(n - 2 - x) + 1.0 / ((n - 1 - x) as real);
      ReciprocalLess((n - 1 - x) as real, (x + 1) as real);
    }
  }

  /** test_path_flares with harmonic centrality: on path_graph(n), n >= 3, the two ends
      are the only nodes without a lower neighbour, whatever order the ties take; so
      flare_detect returns two flares. */
  lemma HarmonicPathFlares(n: nat)
    requires n >= 3
    ensures forall x :: x in PathHarmonic(n) ==> NeighborsKnown(PathGraph(n), PathHarmonic(n), x)
    ensures |BirthNodes(PathGraph(n), SweepOrder(PathHarmonic(n), Range(n)))| == 2
  {
    PathHarmonicPeaks(n);
    PathLookups(n, PathHarmonic(n));
    PeakedPathFlares(n, PathHarmonic(n));
  }

  /** On path_graph(n), n >= 3, under a centrality over its nodes that climbs strictly
      from each end towards the middle, the two ends are the only births. */
  lemma PeakedPathFlares(n: nat, cen: map<Node, real>)
    requires n >= 3
    requires forall x: Node :: x in cen <==> x < n
    requires forall x: Node, y: Node :: y + 1 == x && 2 * x < n ==> cen[y] < cen[x]
    requires forall x: Node, y: Node :: y == x + 1 && y < n && 2 * x > n - 2 ==> cen[y] < cen[x]
    ensures |BirthNodes(PathGraph(n), SweepOrder(cen, Range(n)))| == 2
  {
    PathShape(n);
    var order := SweepOrder(cen, Range(n));
    SweepOrderSorted(cen, Range(n));
    PeakedBirths(n, cen, order, PathGraph(n));
  }

  /** The harmonic centrality of path_graph(n) covers its nodes and climbs strictly from
      each end towards the middle. */
  lemma PathHarmonicPeaks(n: nat)
    ensures forall x: Node :: x in PathHarmonic(n) <==> x < n
    ensures forall x: Node, y: Node :: y + 1 == x && 2 * x < n ==> PathHarmonic(n)[y] < PathHarmonic(n)[x]
    ensures forall x: Node, y: Node :: y == x + 1 && y < n && 2 * x > n - 2 ==>
      PathHarmonic(n)[y] < PathHarmonic(n)[x]
  {
    var cen := PathHarmonic(n);
    forall x: Node
      ensures x in cen <==> x < n
    {
      assert x in cen <==> x in Elems(Range(n));
    }
    forall x: Node, y: Node | y + 1 == x && 2 * x < n
      ensures cen[y] < cen[x]
    {
      PathHarmonicClimbs(n, x);
    }
    forall x: Node, y: Node | y == x + 1 && y < n && 2 * x > n - 2
      ensures cen[y] < cen[x]
    {
      PathHarmonicClimbs(n, x);
    }
  }

  /** Nodes 0, ..., n - 1 of `g` form a path in node order. */
  ghost predicate PathShaped(g: Graph, n: nat)
  {
    forall x: Node, y: Node :: x < n ==> (y in Neighbors(g, x) <==> (y + 1 == x || y == x + 1) && y < n)
  }

  /** The adjacency of path_graph(n), node by node. */
  lemma PathShape(n: nat)
    ensures PathShaped(PathGraph(n), n)
  {
    forall x: Node | x < n
      ensures forall y: Node :: y in Neighbors(PathGraph(n), x) <==> (y + 1 == x || y == x + 1) && y < n
    {
      PathAdjacent(n, x);
    }
  }

  /** The births of a sweep in centrality order over a path of n >= 3 nodes, for a
      centrality that climbs strictly from each end towards the middle: the two ends. */
  lemma PeakedBirths(n: nat, cen: map<Node, real>, order: seq<Node>, g: Graph)
    requires n >= 3
    requires PathShaped(g, n)
    requires forall x: Node :: x in cen <==> x < n
    requires forall x: Node, y: Node :: y + 1 == x && 2 * x < n ==> cen[y] < cen[x]
    requires forall x: Node, y: Node :: y == x + 1 && y < n && 2 * x > n - 2 ==> cen[y] < cen[x]
    requires Distinct(order) && (forall x :: x in order <==> x in cen) && SortedBy(order, CenKey(cen))
    ensures |BirthNodes(g, order)| == 2
  {
    PeakedEnds(n, cen, order, g);
    BirthCount(g, order, {0, n - 1});
  }

  lemma PeakedEnds(n: nat, cen: map<Node, real>, order: seq<Node>, g: Graph)
    requires n >= 3
    requires PathShaped(g, n)
    requires forall x: Node :: x in cen <==> x < n
    requires forall x: Node, y: Node :: y + 1 == x && 2 * x < n ==> cen[y] < cen[x]
    requires forall x: Node, y: Node :: y == x + 1 && y < n && 2 * x > n - 2 ==> cen[y] < cen[x]
    requires (forall x :: x in order <==> x in cen) && SortedBy(order, CenKey(cen))
    ensures forall y :: y in BirthNodes(g, order) <==> y in {0, n - 1}
  {
    forall y
      ensures y in BirthNodes(g, order) <==> y in {0, n - 1}
    {
      PeakedPathBirth(n, cen, order, g, y);
    }
  }

  /** One node of a path under a centrality that peaks inside it: it gives birth
      exactly when it is an end of the path. */
  lemma PeakedPathBirth(n: nat, cen: map<Node, real>, order: seq<Node>, g: Graph, y: Node)
    requires n >= 3
    requires PathShaped(g, n)
    requires forall x: Node :: x in cen <==> x < n
    requires forall x: Node, y: Node :: y + 1 == x && 2 * x < n ==> cen[y] < cen[x]
    requires forall x: Node, y: Node :: y == x + 1 && y < n && 2 * x > n - 2 ==> cen[y] < cen[x]
    requires (forall x :: x in order <==> x in cen) && SortedBy(order, CenKey(cen))
    ensures y in BirthNodes(g, order) <==> y == 0 || y == n - 1
  {
    if y !in order {
      BirthNodesWithin(g, order, y);
    } else if y == 0 || y == n - 1 {
      forall z | z in Neighbors(g, y)
        ensures z in cen && cen[y] < cen[z]
      {
        assert z == 1 - y || z == n - 2;
      }
      SortedBirths(g, cen, order, y);
    } else {
      var z := if 2 * y < n then y - 1 else y + 1;
      assert z in Neighbors(g, y) && z in cen && cen[z] < cen[y];
      SortedBirths(g, cen, order, y);
    }
  }

  /** test_star_flares: on star_graph(n), n >= 2, with harmonic centrality every leaf lies
      below the hub, so each leaf gives birth and the hub does not; flare_detect returns
      n flares. */
  lemma HarmonicStarFlares(n: nat)
    requires n >= 2
    ensures forall x :: x in StarHarmonic(n) ==> NeighborsKnown(StarGraph(n), StarHarmonic(n), x)
    ensures |BirthNodes(StarGraph(n), SweepOrder(StarHarmonic(n), Range(n + 1)))| == n
  {
    var cen := StarHarmonic(n);
    StarLookups(n);
    StarHarmonicPeaks(n);
    StarShape(n);
    var order := SweepOrder(cen, Range(n + 1));
    SweepOrderSorted(cen, Range(n + 1));
    HubBirths(n, cen, order, StarGraph(n));
  }

  /** Every lookup of the sweep succeeds on star_graph(n) under its harmonic centrality. */
  lemma StarLookups(n: nat)
    ensures forall x :: x in StarHarmonic(n) ==> NeighborsKnown(StarGraph(n), StarHarmonic(n), x)
  {
    forall x | x in StarHarmonic(n)
      ensures NeighborsKnown(StarGraph(n), StarHarmonic(n), x)
    {
      assert x in Elems(Range(n + 1));
    }
  }

  /** The harmonic centrality of star_graph(n), n >= 2, covers its nodes and puts every
      leaf strictly below the hub. */
  lemma StarHarmonicPeaks(n: nat)
    requires n >= 2
    ensures forall x: Node :: x in StarHarmonic(n) <==> x <= n
    ensures forall x: Node :: 1 <= x <= n ==> StarHarmonic(n)[x] < StarHarmonic(n)[0]
  {
    var cen := StarHarmonic(n);
    forall x: Node
      ensures x in cen <==> x <= n
    {
      assert x in cen <==> x in Elems(Range(n + 1));
    }
    assert 0 in cen;
    forall x: Node | 1 <= x <= n
      ensures cen[x] < cen[0]
    {
      assert (n - 1) as real / 2.0 < (n - 1) as real;
    }
  }

  /** The adjacency of star_graph(n), node by node: the hub touches every leaf, a leaf
      only the hub. */
  lemma StarShape(n: nat)
    ensures forall x: Node, y: Node :: x <= n ==>
      (y in Neighbors(StarGraph(n), x) <==> if x == 0 then 1 <= y <= n else y == 0)
  {
    var g := StarGraph(n);
    forall x: Node, y: Node | x <= n
      ensures y in Neighbors(g, x) <==> if x == 0 then 1 <= y <= n else y == 0
    {
      assert x in Elems(Range(n + 1));
      if x == 0 {
        var leaves := Range(n + 1)[1..];
        assert Neighbors(g, 0) == leaves;
        if 1 <= y <= n {
          RangeAt(n + 1, y);
          assert leaves[y - 1] == y;
        }
        if y in leaves {
          var j :| 0 <= j < |leaves| && leaves[j] == y;
          RangeAt(n + 1, j + 1);
        }
      }
    }
  }

  /** The births of a sweep in centrality order over a star with n >= 1 leaves, for a
      centrality that puts every leaf strictly below the hub: the n leaves. */
  lemma HubBirths(n: nat, cen: map<Node, real>, order: seq<Node>, g: Graph)
    requires n >= 1
    requires forall x: Node, y: Node :: x <= n ==>
      (y in Neighbors(g, x) <==> if x == 0 then 1 <= y <= n else y == 0)
    requires forall x: Node :: x in cen <==> x <= n
    requires forall x: Node :: 1 <= x <= n ==> cen[x] < cen[0]
    requires Distinct(order) && (forall x :: x in order <==> x in cen) && SortedBy(order, CenKey(cen))
    ensures |BirthNodes(g, order)| == n
  {
    var leaves := Elems(Range(n + 1)) - {0};
    forall y
      ensures y in BirthNodes(g, order) <==> y in leaves
    {
      HubStarBirth(n, cen, order, g, y);
    }
    DistinctCard(Range(n + 1));
    assert 0 in Elems(Range(n + 1));
    BirthCount(g, order, leaves);
  }

  /** One node of a star under a centrality peaked at the hub: it gives birth exactly
      when it is a leaf. */
  lemma HubStarBirth(n: nat, cen: map<Node, real>, order: seq<Node>, g: Graph, y: Node)
    requires n >= 1
    requires forall x: Node, y: Node :: x <= n ==>
      (y in Neighbors(g, x) <==> if x == 0 then 1 <= y <= n else y == 0)
    requires forall x: Node :: x in cen <==> x <= n
    requires forall x: Node :: 1 <= x <= n ==> cen[x] < cen[0]
    requires (forall x :: x in order <==> x in cen) && SortedBy(order, CenKey(cen))
    ensures y in BirthNodes(g, order) <==> y in Elems(Range(n + 1)) - {0}
  {
    if y !in order {
      BirthNodesWithin(g, order, y);
    } else {
      SortedBirths(g, cen, order, y);
      if y == 0 {
        assert 1 in Neighbors(g, 0);
      } else {
        assert forall z :: z in Neighbors(g, y) ==> z == 0;
      }
    }
  }
}
