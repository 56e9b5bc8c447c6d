/** Per-entity flareness (features/flare_balls.py): how far the core components of the
    nodes holding an entity lie from the shell of that node set, and the classification
    of the resulting vectors. */
module FlareBalls {
  import opened Graphs
  import opened CoreShell
  import opened Components
  import opened ShortestPaths
  import opened Sorting

  /** The largest distance over a non-empty set of reached nodes. */
  ghost function SetMax(c: set<Node>, d: map<Node, nat>): (r: nat)
    requires c != {} && c <= d.Keys
    ensures exists x :: x in c && d[x] == r
    ensures forall x :: x in c ==> d[x] <= r
    decreases |c|
  {
    var x :| x in c;
    if c == {x} then d[x]
    else
      var m := SetMax(c - {x}, d);
      if d[x] >= m then d[x] else m
  }

  /** The entry of one core component: infinite when some node of it has no distance,
      else the largest distance over it. */
  ghost function ComponentValue(c: set<Node>, d: map<Node, nat>): (v: Ext)
    requires c != {}
    ensures v.PosInf? <==> exists x :: x in c && x !in d
    ensures v.Fin? ==> ((exists x :: x in c && x in d && d[x] == v.n)
                        && (forall x :: x in c ==> x in d && d[x] <= v.n))
  {
    if c <= d.Keys then Fin(SetMax(c, d)) else PosInf
  }

  /** The inner loop of compute_flareness over one component: a running maximum that
      starts below every distance (`-inf`, here None) and is set to infinity, ending the
      loop, at the first node without a distance. The set is visited in an arbitrary
      order, as Python iterates a set. */
  method ComputeComponentValue(c: set<Node>, d: map<Node, nat>) returns (v: Ext)
    requires c != {}
    ensures v == ComponentValue(c, d)
  {
    var best: Option<nat> := None;
    var rest := c;
    while rest != {}
      invariant rest <= c
      invariant forall x :: x in c - rest ==> x in d
      invariant best.None? <==> c - rest == {}
      invariant best.Some? ==> ((exists x :: x in c - rest && d[x] == best.value)
                                && (forall x :: x in c - rest ==> d[x] <= best.value))
      decreases |rest|
    {
      var x :| x in rest;
      if x in d && (best.None? || d[x] > best.value) {
        best := Some(d[x]);
      } else if x !in d {
        return PosInf;
      }
      rest := rest - {x};
    }
    var m := SetMax(c, d);
    assert m <= best.value && best.value <= m;
    v := Fin(best.value);
  }

  /** Every component of a node list is non-empty. */
  lemma ComponentsNonEmpty(g: Graph, core: seq<Node>)
    ensures forall k :: 0 <= k < |ComponentsOf(g, core)| ==> ComponentsOf(g, core)[k] != {}
  {
    forall k | 0 <= k < |ComponentsOf(g, core)|
      ensures ComponentsOf(g, core)[k] != {}
    {
      ComponentsWithin(g, core, k);
    }
  }

  /** The distances compute_flareness works with: shortest distances from the shell
      inside the subgraph induced on `h`, or none at all when the shell is empty. */
  function MemberDistances(g: Graph, h: seq<Node>, shell: seq<Node>, w: Weight): (d: map<Node, nat>)
    ensures shell == [] ==> d == map[]
  {
    if |shell| > 0 then ShellDistances(g, Elems(h), Elems(shell), w) else map[]
  }

  /** One entry per component, in component order. */
  ghost function ComponentValues(cs: seq<set<Node>>, d: map<Node, nat>): (r: seq<Ext>)
    requires forall k :: 0 <= k < |cs| ==> cs[k] != {}
  {
    seq(|cs|, k requires 0 <= k < |cs| => ComponentValue(cs[k], d))
  }

  /** What compute_flareness returns for entity `e`: None when no node holds it, else one
      entry per connected component of the core. */
  ghost function FlarenessOf(g: Graph, e: Entity, w: Weight): Option<seq<Ext>>
    requires ValidGraph(g)
  {
    var h := NodesContaining(g, e);
    if |h| == 0 then None
    else
      var core := CoreOf(g, h, h);
      ComponentsNonEmpty(g, core);
      Some(ComponentValues(ComponentsOf(g, core), MemberDistances(g, h, ShellOf(g, h, h), w)))
  }

  /** compute_flareness. */
  method ComputeFlareness(g: Graph, e: Entity, w: Weight) returns (k: Option<seq<Ext>>)
    requires ValidGraph(g)
    ensures k == FlarenessOf(g, e, w)
  {
    var h := NodesContaining(g, e);
    var core, shell := ComputeCoreShell(g, h);
    if |h| == 0 {
      return None;
    }
    var distances := MemberDistances(g, h, shell, w);
    var cs := ComponentsOf(g, core);
    ComponentsNonEmpty(g, core);
    var ks := ComputeComponentValues(cs, distances);
    k := Some(ks);
  }

  /** The outer loop of compute_flareness: one value per component, in component order. */
  method ComputeComponentValues(cs: seq<set<Node>>, distances: map<Node, nat>) returns (ks: seq<Ext>)
    requires forall j :: 0 <= j < |cs| ==> cs[j] != {}
    ensures ks == ComponentValues(cs, distances)
  {
    ks := [];
    for i := 0 to |cs|
      invariant |ks| == i
      invariant forall j :: 0 <= j < i ==> ks[j] == ComponentValue(cs[j], distances)
    {
      var kl := ComputeComponentValue(cs[i], distances);
      ks := ks + [kl];
    }
  }

  /** `x` can be reached inside `h` from a node of `src`. */
  ghost predicate Reachable(g: Graph, h: set<Node>, src: set<Node>, x: Node)
  {
    exists p :: WalkFrom(g, h, src, p, x)
  }

  /** The result is None exactly when no node holds the entity. */
  lemma FlarenessNotFound(g: Graph, e: Entity, w: Weight)
    requires ValidGraph(g)
    ensures FlarenessOf(g, e, w).None? <==> forall x :: x in g.nodes ==> e !in g.members[x]
  {
    var h := NodesContaining(g, e);
    if |h| > 0 {
      assert h[0] in h;
    }
  }

  /** There is one entry per connected component of the core, so an empty core gives
      an empty list. */
  lemma FlarenessLength(g: Graph, e: Entity, w: Weight)
    requires ValidGraph(g)
    requires FlarenessOf(g, e, w).Some?
    ensures var h := NodesContaining(g, e);
      |FlarenessOf(g, e, w).value| == |ComponentsOf(g, CoreOf(g, h, h))|
    ensures var h := NodesContaining(g, e);
      CoreOf(g, h, h) == [] ==> FlarenessOf(g, e, w).value == []
  {
  }

  /** The nodes of a component belong to the entity's node list. */
  lemma ComponentInMembers(g: Graph, h: seq<Node>, k: nat, x: Node)
    requires k < |ComponentsOf(g, CoreOf(g, h, h))|
    requires x in ComponentsOf(g, CoreOf(g, h, h))[k]
    ensures x in h
  {
    ComponentsWithin(g, CoreOf(g, h, h), k);
    CoreShellMembership(g, h, h, x);
  }

  /** A node of `h` has a distance exactly when it can be reached from the shell. */
  lemma DistanceIffReachable(g: Graph, h: seq<Node>, w: Weight, x: Node)
    requires ValidGraph(g)
    requires x in h
    ensures x in MemberDistances(g, h, ShellOf(g, h, h), w) <==> Reachable(g, Elems(h), Elems(ShellOf(g, h, h)), x)
  {
    var shell := ShellOf(g, h, h);
    if |shell| > 0 {
      DistanceIsShortest(g, Elems(h), Elems(shell), w, x);
    }
  }

  /** A component's entry is infinite exactly when one of its nodes cannot be reached
      from the shell inside the entity's subgraph; otherwise it is the largest shortest
      distance from the shell over the component. */
  lemma FlarenessEntry(g: Graph, e: Entity, w: Weight, k: nat)
    requires ValidGraph(g)
    requires FlarenessOf(g, e, w).Some? && k < |FlarenessOf(g, e, w).value|
    ensures var h := NodesContaining(g, e);
      var c := ComponentsOf(g, CoreOf(g, h, h))[k];
      FlarenessOf(g, e, w).value[k].PosInf? <==>
        exists x :: x in c && !Reachable(g, Elems(h), Elems(ShellOf(g, h, h)), x)
    ensures var h := NodesContaining(g, e);
      var c := ComponentsOf(g, CoreOf(g, h, h))[k];
      var d := MemberDistances(g, h, ShellOf(g, h, h), w);
      var v := FlarenessOf(g, e, w).value[k];
      v.Fin? ==> (exists x :: x in c && x in d && d[x] == v.n) && (forall x :: x in c ==> x in d && d[x] <= v.n)
  {
    var h := NodesContaining(g, e);
    var c := ComponentsOf(g, CoreOf(g, h, h))[k];
    forall x | x in c
      ensures x in MemberDistances(g, h, ShellOf(g, h, h), w) <==> Reachable(g, Elems(h), Elems(ShellOf(g, h, h)), x)
    {
      ComponentInMembers(g, h, k, x);
      DistanceIffReachable(g, h, w, x);
    }
  }

  /** With an empty shell nothing has a distance and every entry is infinite. */
  lemma EmptyShellAllInfinite(g: Graph, e: Entity, w: Weight)
    requires ValidGraph(g)
    requires FlarenessOf(g, e, w).Some?
    requires var h := NodesContaining(g, e); ShellOf(g, h, h) == []
    ensures forall k :: 0 <= k < |FlarenessOf(g, e, w).value| ==> FlarenessOf(g, e, w).value[k] == PosInf
  {
  }

  /** has_island: some entry is infinite. */
  function HasIsland(k: seq<Ext>): (r: bool)
    ensures r <==> exists i :: 0 <= i < |k| && k[i].PosInf?
  {
    if k == [] then false else k[0].PosInf? || HasIsland(k[1..])
  }

  /** has_flare: some entry is finite. */
  function HasFlare(k: seq<Ext>): (r: bool)
    ensures r <==> exists i :: 0 <= i < |k| && k[i].Fin?
  {
    if k == [] then false else k[0].Fin? || HasFlare(k[1..])
  }

  /** Every entry is infinite (numpy's alltrue, true on an empty list). */
  function AllInfinite(k: seq<Ext>): (r: bool)
    ensures r <==> forall i :: 0 <= i < |k| ==> k[i].PosInf?
  {
    if k == [] then true else k[0].PosInf? && AllInfinite(k[1..])
  }

  /** is_pure_island: a non-empty list whose entries are all infinite. */
  function IsPureIsland(k: seq<Ext>): (r: bool)
    ensures r <==> |k| > 0 && !HasFlare(k)
  {
    |k| > 0 && AllInfinite(k)
  }

  /** The three outcomes compute_all_flareness sorts an entity into. */
  datatype Outcome = NotFound | NotFlareNorIsland | Flareness

  function OutcomeOf(k: Option<seq<Ext>>): Outcome
  {
    match k
    case None => NotFound
    case Some(ks) => if |ks| == 0 then NotFlareNorIsland else Flareness
  }

  /** The outcome of entity `e`, read off the core directly: not found without nodes,
      neither flare nor island without core nodes (hence without components). */
  ghost function OutcomeFor(g: Graph, e: Entity): Outcome
    requires ValidGraph(g)
  {
    var h := NodesContaining(g, e);
    if |h| == 0 then NotFound
    else if CoreOf(g, h, h) == [] then NotFlareNorIsland
    else Flareness
  }

  /** A node list has no components exactly when it is empty. */
  lemma ComponentsEmpty(g: Graph, core: seq<Node>)
    ensures ComponentsOf(g, core) == [] <==> core == []
  {
  }

  /** OutcomeFor is the outcome of compute_flareness's result. */
  lemma OutcomeOfFlareness(g: Graph, e: Entity, w: Weight)
    requires ValidGraph(g)
    ensures OutcomeOf(FlarenessOf(g, e, w)) == OutcomeFor(g, e)
  {
    var h := NodesContaining(g, e);
    ComponentsEmpty(g, CoreOf(g, h, h));
  }

  /** The entities of `members` with outcome `o`, in order and with repetitions. */
  ghost function WithOutcome(g: Graph, members: seq<Entity>, o: Outcome): (r: seq<Entity>)
    requires ValidGraph(g)
    ensures |r| <= |members|
    decreases |members|
  {
    if members == [] then []
    else
      var init := members[..|members| - 1];
      var last := members[|members| - 1];
      var rest := WithOutcome(g, init, o);
      if OutcomeFor(g, last) == o then rest + [last] else rest
  }

  /** An entity is listed under outcome `o` exactly when it is one of `members` and
      compute_flareness gives it that outcome. */
  lemma {:induction false} WithOutcomeMembers(g: Graph, members: seq<Entity>, o: Outcome, e: Entity)
    requires ValidGraph(g)
    ensures e in WithOutcome(g, members, o) <==> e in members && OutcomeFor(g, e) == o
    decreases |members|
  {
    if members != [] {
      var init := members[..|members| - 1];
      WithOutcomeMembers(g, init, o, e);
      assert members == init + [members[|members| - 1]];
    }
  }

  /** The listing keeps the order of `members`. */
  lemma {:induction false} WithOutcomeOrder(g: Graph, members: seq<Entity>, o: Outcome)
    requires ValidGraph(g)
    ensures IsSubsequence(WithOutcome(g, members, o), members)
    decreases |members|
  {
    if members != [] {
      var init := members[..|members| - 1];
      var last := members[|members| - 1];
      WithOutcomeOrder(g, init, o);
      assert members == init + [last];
      SubsequenceSnoc(WithOutcome(g, init, o), init, last);
    }
  }

  /** Each entity once, at its first occurrence: the key order of a Python dict filled
      from `s`. */
  function FirstSeen(s: seq<Entity>): (r: seq<Entity>)
    ensures forall e :: e in r <==> e in s
    ensures Distinct(r)
    decreases |s|
  {
    if s == [] then []
    else
      var rest := FirstSeen(s[..|s| - 1]);
      var last := s[|s| - 1];
      assert s == s[..|s| - 1] + [last];
      if last in rest then rest else rest + [last]
  }

  /** Extending the entity list extends an outcome list by at most that entity. */
  lemma WithOutcomeSnoc(g: Graph, s: seq<Entity>, e: Entity)
    requires ValidGraph(g)
    ensures forall o :: (WithOutcome(g, s + [e], o) ==
                         WithOutcome(g, s, o) + (if OutcomeFor(g, e) == o then [e] else []))
  {
    assert (s + [e])[..|s|] == s;
  }

  /** One more element of a prefix. */
  lemma PrefixSnoc<T>(s: seq<T>, i: nat)
    requires i < |s|
    ensures s[..i + 1] == s[..i] + [s[i]]
  {
  }

  lemma FirstSeenSnoc(s: seq<Entity>, e: Entity)
    ensures FirstSeen(s + [e]) == if e in s then FirstSeen(s) else FirstSeen(s) + [e]
  {
    assert (s + [e])[..|s|] == s;
  }

  /** The three lists of compute_all_flareness after the entities of `prefix`. */
  ghost predicate Listed(g: Graph, prefix: seq<Entity>, order: seq<Entity>,
                         notFlareNorIsland: seq<Entity>, notFound: seq<Entity>)
    requires ValidGraph(g)
  {
    && notFound == WithOutcome(g, prefix, NotFound)
    && notFlareNorIsland == WithOutcome(g, prefix, NotFlareNorIsland)
    && order == FirstSeen(WithOutcome(g, prefix, Flareness))
  }

  /** The flareness dictionary: its keys are those of `order`, each holding its result. */
  ghost predicate Keyed(g: Graph, w: Weight, flareness: map<Entity, seq<Ext>>, order: seq<Entity>)
    requires ValidGraph(g)
  {
    && (forall x :: x in flareness <==> x in order)
    && (forall x :: x in flareness ==> FlarenessOf(g, x, w) == Some(flareness[x]))
  }

  /** One more entity goes to the list its outcome picks. */
  lemma ListedStep(g: Graph, prefix: seq<Entity>, order: seq<Entity>,
                   notFlareNorIsland: seq<Entity>, notFound: seq<Entity>, e: Entity)
    requires ValidGraph(g) && Listed(g, prefix, order, notFlareNorIsland, notFound)
    ensures OutcomeFor(g, e) == NotFound ==>
      Listed(g, prefix + [e], order, notFlareNorIsland, notFound + [e])
    ensures OutcomeFor(g, e) == NotFlareNorIsland ==>
      Listed(g, prefix + [e], order, notFlareNorIsland + [e], notFound)
    ensures OutcomeFor(g, e) == Flareness ==>
      Listed(g, prefix + [e], if e in order then order else order + [e], notFlareNorIsland, notFound)
  {
    WithOutcomeSnoc(g, prefix, e);
    FirstSeenSnoc(WithOutcome(g, prefix, Flareness), e);
  }

  /** Recording one more result keeps the dictionary in step with its key order. */
  lemma KeyedStep(g: Graph, w: Weight, flareness: map<Entity, seq<Ext>>, order: seq<Entity>,
                  e: Entity, v: seq<Ext>)
    requires ValidGraph(g) && Keyed(g, w, flareness, order) && FlarenessOf(g, e, w) == Some(v)
    ensures Keyed(g, w, flareness[e := v], if e in flareness then order else order + [e])
  {
  }

  /** compute_all_flareness: one call of compute_flareness per entity, sorting each
      into not found, neither flare nor island (no core component), or the flareness
      dictionary (returned as a map together with its key order). */
  method ComputeAllFlareness(g: Graph, members: seq<Entity>, w: Weight)
    returns (flareness: map<Entity, seq<Ext>>, order: seq<Entity>,
             notFlareNorIsland: seq<Entity>, notFound: seq<Entity>)
    requires ValidGraph(g)
    ensures notFound == WithOutcome(g, members, NotFound)
    ensures notFlareNorIsland == WithOutcome(g, members, NotFlareNorIsland)
    ensures order == FirstSeen(WithOutcome(g, members, Flareness))
    ensures forall x :: x in flareness <==> x in order
    ensures forall x :: x in flareness ==> FlarenessOf(g, x, w) == Some(flareness[x])
  {
    flareness, order, notFlareNorIsland, notFound := map[], [], [], [];
    for i := 0 to |members|
      invariant Listed(g, members[..i], order, notFlareNorIsland, notFound)
      invariant Keyed(g, w, flareness, order)
    {
      var e := members[i];
      PrefixSnoc(members, i);
      var k := ComputeFlareness(g, e, w);
      OutcomeOfFlareness(g, e, w);
      ListedStep(g, members[..i], order, notFlareNorIsland, notFound, e);
      if k.None? {
        notFound := notFound + [e];
      } else if |k.value| == 0 {
        notFlareNorIsland := notFlareNorIsland + [e];
      } else {
        KeyedStep(g, w, flareness, order, e, k.value);
        assert e in flareness <==> e in order;
        if e !in flareness {
          order := order + [e];
        }
        flareness := flareness[e := k.value];
      }
    }
    assert members[..|members|] == members;
  }

  /** The classes flareness_report sorts a dictionary entry into. */
  datatype Class = PureIsland | FlareAndIsland | FlareOnly | Unclassified

  /** The branch of flareness_report an entry takes: pure island first, then flare and
      island or flare only; only an empty list falls through every branch. */
  function ClassOf(k: seq<Ext>): (c: Class)
    ensures c == PureIsland <==> |k| > 0 && forall i :: 0 <= i < |k| ==> k[i].PosInf?
    ensures c == FlareAndIsland <==> HasFlare(k) && HasIsland(k)
    ensures c == FlareOnly <==> |k| > 0 && forall i :: 0 <= i < |k| ==> k[i].Fin?
    ensures c == Unclassified <==> k == []
  {
    if IsPureIsland(k) then PureIsland
    else if HasFlare(k) then (if HasIsland(k) then FlareAndIsland else FlareOnly)
    else Unclassified
  }

  /** The entities of `order` whose entry has class `c`, in order. */
  function WithClass(order: seq<Entity>, flareness: map<Entity, seq<Ext>>, c: Class): (r: seq<Entity>)
    requires forall e :: e in order ==> e in flareness
    ensures |r| <= |order|
    decreases |order|
  {
    if order == [] then []
    else
      var last := order[|order| - 1];
      var rest := WithClass(order[..|order| - 1], flareness, c);
      if ClassOf(flareness[last]) == c then rest + [last] else rest
  }

  lemma WithClassSnoc(order: seq<Entity>, flareness: map<Entity, seq<Ext>>, e: Entity)
    requires forall x :: x in order ==> x in flareness
    requires e in flareness
    ensures forall c :: (WithClass(order + [e], flareness, c) ==
                         WithClass(order, flareness, c) + (if ClassOf(flareness[e]) == c then [e] else []))
  {
    assert (order + [e])[..|order|] == order;
  }

  /** An entity is listed under class `c` exactly when it is in `order` and its entry
      has that class. */
  lemma {:induction false} WithClassMembers(order: seq<Entity>, flareness: map<Entity, seq<Ext>>, c: Class, e: Entity)
    requires forall x :: x in order ==> x in flareness
    ensures e in WithClass(order, flareness, c) <==> e in order && ClassOf(flareness[e]) == c
    decreases |order|
  {
    if order != [] {
      var init := order[..|order| - 1];
      WithClassMembers(init, flareness, c, e);
      assert order == init + [order[|order| - 1]];
    }
  }

  /** The listing keeps the order of the dictionary. */
  lemma {:induction false} WithClassOrder(order: seq<Entity>, flareness: map<Entity, seq<Ext>>, c: Class)
    requires forall x :: x in order ==> x in flareness
    ensures IsSubsequence(WithClass(order, flareness, c), order)
    decreases |order|
  {
    if order != [] {
      var init := order[..|order| - 1];
      var last := order[|order| - 1];
      WithClassOrder(init, flareness, c);
      assert order == init + [last];
      SubsequenceSnoc(WithClass(init, flareness, c), init, last);
    }
  }

  /** The largest finite entry (Python's `max` on a list of finite values), 0 when
      there is none. */
  function MaxFinite(k: seq<Ext>): (r: nat)
    ensures forall i :: 0 <= i < |k| && k[i].Fin? ==> k[i].n <= r
    ensures HasFlare(k) ==> exists i :: 0 <= i < |k| && k[i] == Fin(r)
    ensures !HasFlare(k) ==> r == 0
  {
    if k == [] then 0
    else
      var m := MaxFinite(k[1..]);
      if k[0].Fin? && k[0].n >= m then k[0].n
      else
        assert HasFlare(k) ==> HasFlare(k[1..]);
        assert HasFlare(k[1..]) ==> exists i :: 1 <= i < |k| && k[i] == Fin(m) by {
          if HasFlare(k[1..]) {
            var j :| 0 <= j < |k[1..]| && k[1..][j] == Fin(m);
            assert k[j + 1] == Fin(m);
          }
        }
        m
  }

  /** The sort key of the flare list: the largest entry of an entity. */
  function FlareKey(flareness: map<Entity, seq<Ext>>): Entity -> real
  {
    e => if e in flareness then MaxFinite(flareness[e]) as real else 0.0
  }

  /** The classification part of flareness_report: one pass over the dictionary in key
      order, then the flare-only list sorted by largest entry. */
  method ClassifyFlareness(order: seq<Entity>, flareness: map<Entity, seq<Ext>>)
    returns (pureIsland: seq<Entity>, both: seq<Entity>, flare: seq<Entity>)
    requires forall e :: e in order ==> e in flareness
    ensures pureIsland == WithClass(order, flareness, PureIsland)
    ensures both == WithClass(order, flareness, FlareAndIsland)
    ensures flare == SortBy(WithClass(order, flareness, FlareOnly), FlareKey(flareness))
  {
    pureIsland, both, flare := [], [], [];
    for i := 0 to |order|
      invariant pureIsland == WithClass(order[..i], flareness, PureIsland)
      invariant both == WithClass(order[..i], flareness, FlareAndIsland)
      invariant flare == WithClass(order[..i], flareness, FlareOnly)
    {
      var e := order[i];
      var k := flareness[e];
      assert order[..i + 1] == order[..i] + [e];
      WithClassSnoc(order[..i], flareness, e);
      if IsPureIsland(k) {
        pureIsland := pureIsland + [e];
      } else if HasFlare(k) {
        if HasIsland(k) {
          both := both + [e];
        } else {
          flare := flare + [e];
        }
      }
    }
    assert order[..|order|] == order;
    flare := SortBy(flare, FlareKey(flareness));
  }

  /** Every entity with a non-empty entry ends in exactly one of the three report lists. */
  lemma ReportPartition(order: seq<Entity>, flareness: map<Entity, seq<Ext>>, e: Entity)
    requires forall x :: x in order ==> x in flareness
    requires e in order && flareness[e] != []
    ensures var p := e in WithClass(order, flareness, PureIsland);
      var b := e in WithClass(order, flareness, FlareAndIsland);
      var f := e in SortBy(WithClass(order, flareness, FlareOnly), FlareKey(flareness));
      (p || b || f) && !(p && b) && !(p && f) && !(b && f)
  {
    WithClassMembers(order, flareness, PureIsland, e);
    WithClassMembers(order, flareness, FlareAndIsland, e);
    WithClassMembers(order, flareness, FlareOnly, e);
    var fl := WithClass(order, flareness, FlareOnly);
    var sorted := SortBy(fl, FlareKey(flareness));
    assert e in sorted <==> e in multiset(sorted);
    assert e in fl <==> e in multiset(fl);
  }
}
