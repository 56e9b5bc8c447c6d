/** Entity lookup and the core/shell decomposition of a node subset
    (features/core.py; features/flare_balls.py carries an identical copy). */
module CoreShell {
  import opened Graphs

  /** The nodes among `xs` whose membership contains `e`, in the order of `xs`. */
  function Containing(g: Graph, e: Entity, xs: seq<Node>): (r: seq<Node>)
    requires forall x :: x in xs ==> x in g.members
    ensures forall x :: x in r <==> x in xs && e in g.members[x]
    ensures IsSubsequence(r, xs)
    decreases |xs|
  {
    if xs == [] then []
    else
      var last := xs[|xs| - 1];
      var rest := Containing(g, e, xs[..|xs| - 1]);
      if e in g.members[last] then rest + [last] else rest
  }

  /** The nodes of `g` containing entity `e`, in graph iteration order. */
  function NodesContaining(g: Graph, e: Entity): (r: seq<Node>)
    requires ValidGraph(g)
    ensures forall x :: x in r <==> x in g.nodes && e in g.members[x]
    ensures IsSubsequence(r, g.nodes)
  {
    Containing(g, e, g.nodes)
  }

  /** `x` is a core node of `h` when every neighbour of `x` lies in `h`. */
  predicate IsCore(g: Graph, h: seq<Node>, x: Node)
  {
    forall y :: y in Neighbors(g, x) ==> y in h
  }

  /** The core nodes among `xs`, in the order of `xs`. */
  function CoreOf(g: Graph, h: seq<Node>, xs: seq<Node>): seq<Node>
    decreases |xs|
  {
    if xs == [] then []
    else
      var last := xs[|xs| - 1];
      CoreOf(g, h, xs[..|xs| - 1]) + (if IsCore(g, h, last) then [last] else [])
  }

  /** The shell nodes among `xs`, in the order of `xs`. */
  function ShellOf(g: Graph, h: seq<Node>, xs: seq<Node>): seq<Node>
    decreases |xs|
  {
    if xs == [] then []
    else
      var last := xs[|xs| - 1];
      ShellOf(g, h, xs[..|xs| - 1]) + (if IsCore(g, h, last) then [] else [last])
  }

  /** compute_core_shell: one pass over `h`; for each node the scan of its neighbours
      stops at the first one outside `h` (shell), and a scan that finishes puts the node
      in the core (Python's for-else). */
  method ComputeCoreShell(g: Graph, h: seq<Node>) returns (core: seq<Node>, shell: seq<Node>)
    ensures core == CoreOf(g, h, h)
    ensures shell == ShellOf(g, h, h)
  {
    core, shell := [], [];
    for i := 0 to |h|
      invariant core == CoreOf(g, h, h[..i])
      invariant shell == ShellOf(g, h, h[..i])
    {
      var x := h[i];
      var nbrs := Neighbors(g, x);
      var escapes := false;
      var j := 0;
      while j < |nbrs|
        invariant 0 <= j <= |nbrs|
        invariant forall k :: 0 <= k < j ==> nbrs[k] in h
      {
        if nbrs[j] !in h {
          escapes := true;
          break;
        }
        j := j + 1;
      }
      assert escapes <==> !IsCore(g, h, x);
      assert h[..i + 1][..i] == h[..i];
      if escapes {
        shell := shell + [x];
      } else {
        core := core + [x];
      }
    }
    assert h[..|h|] == h;
  }

  /** A node of `xs` is core or shell according to its neighbours, never both. */
  lemma {:induction false} CoreShellMembership(g: Graph, h: seq<Node>, xs: seq<Node>, x: Node)
    ensures x in CoreOf(g, h, xs) <==> x in xs && IsCore(g, h, x)
    ensures x in ShellOf(g, h, xs) <==> x in xs && !IsCore(g, h, x)
    decreases |xs|
  {
    if xs != [] {
      CoreShellMembership(g, h, xs[..|xs| - 1], x);
      assert xs == xs[..|xs| - 1] + [xs[|xs| - 1]];
    }
  }

  /** Core and shell together list every element of `xs` exactly as often as `xs` does. */
  lemma {:induction false} CoreShellCover(g: Graph, h: seq<Node>, xs: seq<Node>)
    ensures multiset(CoreOf(g, h, xs)) + multiset(ShellOf(g, h, xs)) == multiset(xs)
    decreases |xs|
  {
    if xs != [] {
      CoreShellCover(g, h, xs[..|xs| - 1]);
      assert xs == xs[..|xs| - 1] + [xs[|xs| - 1]];
    }
  }

  /** Each list keeps the relative order of `xs`. */
  lemma {:induction false} CoreShellOrder(g: Graph, h: seq<Node>, xs: seq<Node>)
    ensures IsSubsequence(CoreOf(g, h, xs), xs)
    ensures IsSubsequence(ShellOf(g, h, xs), xs)
    decreases |xs|
  {
    if xs != [] {
      var init := xs[..|xs| - 1];
      CoreShellOrder(g, h, init);
      var last := xs[|xs| - 1];
      assert xs == init + [last];
      var c := CoreOf(g, h, init);
      var s := ShellOf(g, h, init);
      SubsequenceSnoc(c, init, last);
      SubsequenceSnoc(s, init, last);
      if IsCore(g, h, last) {
        assert CoreOf(g, h, xs) == c + [last];
        assert ShellOf(g, h, xs) == s;
      } else {
        assert CoreOf(g, h, xs) == c;
        assert ShellOf(g, h, xs) == s + [last];
      }
    }
  }

  /** Extending the longer sequence keeps a subsequence, and so does extending both. */
  lemma SubsequenceSnoc<T>(r: seq<T>, s: seq<T>, x: T)
    requires IsSubsequence(r, s)
    ensures IsSubsequence(r, s + [x])
    ensures IsSubsequence(r + [x], s + [x])
  {
    assert (s + [x])[..|s + [x]| - 1] == s;
    assert (r + [x])[..|r + [x]| - 1] == r;
  }

  /** Without duplicates in `xs`, neither list has duplicates, and the two are disjoint. */
  lemma CoreShellDisjoint(g: Graph, h: seq<Node>, xs: seq<Node>)
    requires Distinct(xs)
    ensures Distinct(CoreOf(g, h, xs)) && Distinct(ShellOf(g, h, xs))
    ensures forall x :: x in CoreOf(g, h, xs) ==> x !in ShellOf(g, h, xs)
  {
    CoreShellCover(g, h, xs);
    forall x | x in CoreOf(g, h, xs)
      ensures x !in ShellOf(g, h, xs)
    {
      CoreShellMembership(g, h, xs, x);
    }
    MultisetDistinct(CoreOf(g, h, xs), xs, multiset(ShellOf(g, h, xs)));
    MultisetDistinct(ShellOf(g, h, xs), xs, multiset(CoreOf(g, h, xs)));
  }

  lemma MultisetDistinct(a: seq<Node>, s: seq<Node>, m: multiset<Node>)
    requires Distinct(s)
    requires multiset(a) + m == multiset(s)
    ensures Distinct(a)
  {
    forall i, j | 0 <= i < j < |a|
      ensures a[i] != a[j]
    {
      if a[i] == a[j] {
        RepeatCounted(a, i, j);
        DistinctCount(s, a[i]);
      }
    }
  }

  lemma RepeatCounted(a: seq<Node>, i: nat, j: nat)
    requires i < j < |a| && a[i] == a[j]
    ensures multiset(a)[a[i]] >= 2
  {
    assert a == a[..j] + a[j..];
    assert a[i] in multiset(a[..j]);
    assert a[j] in multiset(a[j..]);
  }

  lemma {:induction false} DistinctCount(s: seq<Node>, x: Node)
    requires Distinct(s)
    ensures multiset(s)[x] <= 1
    decreases |s|
  {
    if s != [] {
      var init := s[..|s| - 1];
      assert Distinct(init);
      DistinctCount(init, x);
      assert s == init + [s[|s| - 1]];
      assert s[|s| - 1] !in init;
    }
  }

  /** A node with no neighbours is core (the for-else branch runs). */
  lemma IsolatedIsCore(g: Graph, h: seq<Node>, x: Node)
    requires x in h
    requires Neighbors(g, x) == []
    ensures x in CoreOf(g, h, h) && x !in ShellOf(g, h, h)
  {
    CoreShellMembership(g, h, h, x);
  }

  /** With `h` the whole node list of a well-formed graph nothing is shell. */
  lemma {:induction false} FullSubsetHasNoShell(g: Graph, xs: seq<Node>)
    requires ValidGraph(g)
    requires forall x :: x in xs ==> x in g.nodes
    ensures ShellOf(g, g.nodes, xs) == []
    ensures CoreOf(g, g.nodes, xs) == xs
    decreases |xs|
  {
    if xs != [] {
      var init := xs[..|xs| - 1];
      FullSubsetHasNoShell(g, init);
      var last := xs[|xs| - 1];
      assert IsCore(g, g.nodes, last);
      assert xs == init + [last];
    }
  }

  /** The path graph 0-1-2-3-4. */
  function PathGraph5(): Graph
  {
    Graph([0, 1, 2, 3, 4],
          map[0 := [1], 1 := [0, 2], 2 := [1, 3], 3 := [2, 4], 4 := [3]],
          map[0 := {}, 1 := {}, 2 := {}, 3 := {}, 4 := {}])
  }

  /** On the 5-path with H = {0, 1, 2}: core {0, 1} and shell {2}. */
  lemma PathGraphCoreShell()
    ensures CoreOf(PathGraph5(), [0, 1, 2], [0, 1, 2]) == [0, 1]
    ensures ShellOf(PathGraph5(), [0, 1, 2], [0, 1, 2]) == [2]
  {
    var g := PathGraph5();
    var h := [0, 1, 2];
    assert IsCore(g, h, 0);
    assert IsCore(g, h, 1);
    assert !IsCore(g, h, 2) by { assert 3 in Neighbors(g, 2); }
    assert h[..2] == [0, 1];
    assert [0, 1][..1] == [0];
    assert [0][..0] == [];
    assert CoreOf(g, h, [0]) == [0];
    assert CoreOf(g, h, [0, 1]) == [0, 1];
    assert ShellOf(g, h, [0]) == [];
    assert ShellOf(g, h, [0, 1]) == [];
  }
}
