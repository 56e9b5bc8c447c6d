/** The graph utilities of outputs/text_dump.py and text_dump.py: removing small
    clusters from a Kepler Mapper graph dictionary, and annotating the nodes and edges
    of a networkx Mapper graph with data derived from their membership lists. */
module TextDump {
  import opened Graphs

  /** The elements of `xs` that lie in `s`, each once, in order of first occurrence:
      a list built from a Python set operation. */
  function Select<T(==)>(xs: seq<T>, s: set<T>): seq<T>
  {
    if xs == [] then []
    else
      var r0 := Select(xs[..|xs| - 1], s);
      var x := xs[|xs| - 1];
      if x !in s || x in r0 then r0 else r0 + [x]
  }

  /** The selection lists each element of `xs` in `s` exactly once. */
  lemma {:induction false} SelectSpec<T>(xs: seq<T>, s: set<T>)
    ensures Distinct(Select(xs, s))
    ensures Elems(Select(xs, s)) == Elems(xs) * s
  {
    if xs != [] {
      var front := xs[..|xs| - 1];
      var x := xs[|xs| - 1];
      SelectSpec(front, s);
      assert xs == front + [x];
      assert Elems(xs) == Elems(front) + {x};
      var r0 := Select(front, s);
      assert Elems(r0 + [x]) == Elems(r0) + {x};
    }
  }

  // ---------------------------------------------------------------------------
  // kmapper_clean_graph
  // ---------------------------------------------------------------------------

  /** A Kepler Mapper graph dictionary: the members of each cluster (`graph['nodes']`)
      and the clusters each cluster links to (`graph['links']`). */
  datatype KGraph = KGraph(nodes: map<string, seq<int>>, links: map<string, seq<string>>)

  /** The clusters with fewer than `minMembers` members. */
  ghost function Deleted(g: KGraph, minMembers: int): set<string>
  {
    set c | c in g.nodes && !(|g.nodes[c]| >= minMembers)
  }

  /** `ans` is a cleaning of `g`: exactly the clusters with at least `minMembers` members
      remain, with their members; link entries of deleted clusters are gone; every other
      link entry lists, once each, exactly its original targets that were not deleted. */
  ghost predicate IsCleaning(g: KGraph, minMembers: int, ans: KGraph)
  {
    && ans.nodes == (map c | c in g.nodes && |g.nodes[c]| >= minMembers :: g.nodes[c])
    && ans.links.Keys == g.links.Keys - Deleted(g, minMembers)
    && (forall c :: c in ans.links ==>
          Distinct(ans.links[c]) && Elems(ans.links[c]) == Elems(g.links[c]) - Deleted(g, minMembers))
  }

  /** `kmapper_clean_graph(graph, min_num_members)`. The graph is a value, so the
      argument is left as it was, as the deep copy in the source ensures. */
  method CleanGraph(graph: KGraph, minMembers: int) returns (ans: KGraph)
    ensures IsCleaning(graph, minMembers, ans)
  {
    ans := graph;
    var deleted: set<string> := {};
    var todo := graph.nodes.Keys;
    while todo != {}
      invariant todo <= graph.nodes.Keys
      invariant ans.links == graph.links
      invariant deleted == set c | c in graph.nodes && c !in todo && !(|graph.nodes[c]| >= minMembers)
      invariant ans.nodes == (map c | c in graph.nodes && (c in todo || |graph.nodes[c]| >= minMembers) :: graph.nodes[c])
      decreases todo
    {
      var node :| node in todo;
      if !(|graph.nodes[node]| >= minMembers) {
        ans := ans.(nodes := ans.nodes - {node});
        deleted := deleted + {node};
      }
      todo := todo - {node};
    }
    assert deleted == Deleted(graph, minMembers);
    var rest := graph.links.Keys;
    while rest != {}
      invariant rest <= graph.links.Keys
      invariant ans.nodes == (map c | c in graph.nodes && |graph.nodes[c]| >= minMembers :: graph.nodes[c])
      invariant forall c :: c in ans.links <==> c in graph.links && (c in rest || c !in deleted)
      invariant forall c :: c in ans.links && c in rest ==> ans.links[c] == graph.links[c]
      invariant forall c :: c in ans.links && c !in rest ==>
        Distinct(ans.links[c]) && Elems(ans.links[c]) == Elems(graph.links[c]) - deleted
      decreases rest
    {
      var node :| node in rest;
      if node in deleted {
        ans := ans.(links := ans.links - {node});
      } else {
        var kept := Select(ans.links[node], Elems(ans.links[node]) - deleted);
        SelectSpec(ans.links[node], Elems(ans.links[node]) - deleted);
        ans := ans.(links := ans.links[node := kept]);
      }
      rest := rest - {node};
    }
  }

  /** Every link target is a cluster of the graph. */
  ghost predicate LinksClosed(g: KGraph)
  {
    forall c, t :: c in g.links && t in g.links[c] ==> t in g.nodes
  }

  /** Cleaning keeps links pointing at clusters: in a graph whose links only name its
      clusters, the cleaned links only name surviving clusters. */
  lemma CleanKeepsLinksClosed(g: KGraph, minMembers: int, ans: KGraph)
    requires IsCleaning(g, minMembers, ans) && LinksClosed(g)
    ensures LinksClosed(ans)
  {
    forall c, t | c in ans.links && t in ans.links[c]
      ensures t in ans.nodes
    {
      assert t in Elems(ans.links[c]);
    }
  }

  /** A surviving link entry whose targets were all deleted stays, with an empty list. */
  lemma CleanEmptiedLinks(g: KGraph, minMembers: int, ans: KGraph, c: string)
    requires IsCleaning(g, minMembers, ans)
    requires c in g.links && c !in Deleted(g, minMembers)
    requires forall t :: t in g.links[c] ==> t in Deleted(g, minMembers)
    ensures c in ans.links && ans.links[c] == []
  {
    assert Elems(ans.links[c]) == {};
    DistinctCard(ans.links[c]);
  }

  /** Nothing is left to delete: a cleaned graph has no cluster below the bound, so
      cleaning it again keeps all its clusters and link sets. */
  lemma CleanIdempotent(g: KGraph, minMembers: int, ans: KGraph, again: KGraph)
    requires IsCleaning(g, minMembers, ans) && IsCleaning(ans, minMembers, again)
    ensures Deleted(ans, minMembers) == {}
    ensures again.nodes == ans.nodes
    ensures again.links.Keys == ans.links.Keys
    ensures forall c :: c in again.links ==> Elems(again.links[c]) == Elems(ans.links[c])
  {
    assert Deleted(ans, minMembers) == {} by {
      forall c | c in ans.nodes
        ensures |ans.nodes[c]| >= minMembers
      {
        assert ans.nodes[c] == g.nodes[c];
      }
    }
  }

  // ---------------------------------------------------------------------------
  // networkx attribute annotation
  // ---------------------------------------------------------------------------

  /** Attribute values held by the nodes and edges of a networkx Mapper graph. */
  datatype Value = Int(i: int) | Num(r: real) | Str(s: string) | List(items: seq<Value>)

  /** One attribute dictionary, of a node or of an edge. */
  type Attrs = map<string, Value>

  /** An edge is kept under the endpoint pair networkx reports it with. */
  type Edge = (Node, Node)

  /** A list of integers as an attribute value. */
  function IntList(xs: seq<int>): Value
  {
    List(seq(|xs|, i requires 0 <= i < |xs| => Int(xs[i])))
  }

  /** The value is a list of integers. */
  predicate IsIntList(v: Value)
  {
    v.List? && forall i :: 0 <= i < |v.items| ==> v.items[i].Int?
  }

  /** The integers of a list value. */
  function Ints(v: Value): seq<int>
    requires IsIntList(v)
  {
    seq(|v.items|, i requires 0 <= i < |v.items| => v.items[i].i)
  }

  /** Writing a list of integers and reading it back give the list, in both orders. */
  lemma IntListRoundTrip(xs: seq<int>, v: Value)
    ensures IsIntList(IntList(xs)) && Ints(IntList(xs)) == xs
    ensures IsIntList(v) ==> IntList(Ints(v)) == v
  {
    if IsIntList(v) {
      assert IntList(Ints(v)).items == v.items;
    }
  }

  /** The dictionary carries a `membership` list of data indices. */
  predicate HasMembership(a: Attrs)
  {
    "membership" in a && IsIntList(a["membership"])
  }

  /** The `membership` list of data indices. */
  function Membership(a: Attrs): seq<int>
    requires HasMembership(a)
  {
    Ints(a["membership"])
  }

  /** The data of each member in membership order (`[data_map[k] for k in membership]`). */
  function Gather(dataMap: map<int, Value>, membership: seq<int>): Value
    requires forall i :: 0 <= i < |membership| ==> membership[i] in dataMap
  {
    List(seq(|membership|, i requires 0 <= i < |membership| => dataMap[membership[i]]))
  }

  /** The transform for `key`, the identity when none is given. */
  function Transform(transforms: map<string, Value -> Value>, key: string): Value -> Value
  {
    if key in transforms then transforms[key] else (x: Value) => x
  }

  /** The keys of the extra data. */
  function KeySet(extraData: seq<(string, map<int, Value>)>): set<string>
  {
    set j | 0 <= j < |extraData| :: extraData[j].0
  }

  /** The extra data comes from a dictionary: no key occurs twice. */
  predicate DistinctKeys(extraData: seq<(string, map<int, Value>)>)
  {
    forall i, j :: 0 <= i < j < |extraData| ==> extraData[i].0 != extraData[j].0
  }

  /** Every member index of the dictionary has an entry in `dataMap`. */
  predicate Fits(a: Attrs, dataMap: map<int, Value>)
  {
    HasMembership(a) && forall i :: 0 <= i < |Membership(a)| ==> Membership(a)[i] in dataMap
  }

  /** Attribute `key` set to the transformed data of the members
      (`attrs[key] = fun([data_map[k] for k in membership])`). */
  function Put(a: Attrs, key: string, dataMap: map<int, Value>, fun: Value -> Value): Attrs
    requires Fits(a, dataMap)
  {
    a[key := fun(Gather(dataMap, Membership(a)))]
  }

  /** Extra data the dictionary's membership can be looked up in: every member index
      has an entry in every data map, and no key overwrites the membership itself. */
  ghost predicate Annotatable(a: Attrs, extraData: seq<(string, map<int, Value>)>)
  {
    && HasMembership(a)
    && (forall j :: 0 <= j < |extraData| ==> extraData[j].0 != "membership" && Fits(a, extraData[j].1))
  }

  /** A prefix of annotatable extra data is annotatable. */
  lemma AnnotatablePrefix(a: Attrs, extraData: seq<(string, map<int, Value>)>, n: nat)
    requires Annotatable(a, extraData) && n <= |extraData|
    ensures Annotatable(a, extraData[..n])
  {
    forall j | 0 <= j < n
      ensures extraData[..n][j].0 != "membership" && Fits(a, extraData[..n][j].1)
    {
      assert extraData[..n][j] == extraData[j];
    }
  }

  /** The dictionary after the attributes for all extra-data keys were written, in order. */
  ghost function Annotate(a: Attrs, extraData: seq<(string, map<int, Value>)>,
                          transforms: map<string, Value -> Value>): (r: Attrs)
    requires Annotatable(a, extraData)
    ensures HasMembership(r) && r["membership"] == a["membership"]
  {
    if extraData == [] then a
    else
      var n := |extraData| - 1;
      AnnotatablePrefix(a, extraData, n);
      var b := Annotate(a, extraData[..n], transforms);
      var (key, dataMap) := extraData[n];
      assert Membership(b) == Membership(a);
      Put(b, key, dataMap, Transform(transforms, key))
  }

  /** The annotated dictionary holds the original keys and the extra-data keys. */
  lemma {:induction false} AnnotateKeys(a: Attrs, extraData: seq<(string, map<int, Value>)>,
                                        transforms: map<string, Value -> Value>)
    requires Annotatable(a, extraData)
    ensures Annotate(a, extraData, transforms).Keys == a.Keys + KeySet(extraData)
  {
    if extraData != [] {
      var n := |extraData| - 1;
      AnnotatablePrefix(a, extraData, n);
      AnnotateKeys(a, extraData[..n], transforms);
      assert KeySet(extraData) == KeySet(extraData[..n]) + {extraData[n].0} by {
        assert forall j :: 0 <= j < n ==> extraData[..n][j] == extraData[j];
      }
    }
  }

  /** Each extra-data key ends up holding its transformed member data, in membership
      order (`fun([data_map[k] for k in membership])`). */
  lemma {:induction false} AnnotateWritten(a: Attrs, extraData: seq<(string, map<int, Value>)>,
                                           transforms: map<string, Value -> Value>, j: nat)
    requires Annotatable(a, extraData) && DistinctKeys(extraData) && j < |extraData|
    ensures extraData[j].0 in Annotate(a, extraData, transforms)
    ensures Annotate(a, extraData, transforms)[extraData[j].0]
         == Transform(transforms, extraData[j].0)(Gather(extraData[j].1, Membership(a)))
  {
    var n := |extraData| - 1;
    AnnotatablePrefix(a, extraData, n);
    var b := Annotate(a, extraData[..n], transforms);
    assert Membership(b) == Membership(a);
    if j < n {
      assert DistinctKeys(extraData[..n]);
      assert extraData[..n][j] == extraData[j];
      AnnotateWritten(a, extraData[..n], transforms, j);
      assert extraData[j].0 != extraData[n].0;
    }
  }

  /** Attributes that are not extra-data keys are left as they were. */
  lemma {:induction false} AnnotateUntouched(a: Attrs, extraData: seq<(string, map<int, Value>)>,
                                             transforms: map<string, Value -> Value>, key: string)
    requires Annotatable(a, extraData) && key in a && key !in KeySet(extraData)
    ensures key in Annotate(a, extraData, transforms)
    ensures Annotate(a, extraData, transforms)[key] == a[key]
  {
    if extraData != [] {
      var n := |extraData| - 1;
      AnnotatablePrefix(a, extraData, n);
      assert extraData[n].0 in KeySet(extraData);
      assert KeySet(extraData[..n]) <= KeySet(extraData) by {
        assert forall j :: 0 <= j < n ==> extraData[..n][j] == extraData[j];
      }
      AnnotateUntouched(a, extraData[..n], transforms, key);
    }
  }

  /** One more key: the annotation of a prefix fits the next data map, and extending
      the prefix by one key puts that key's data. */
  lemma AnnotateStep(a: Attrs, extraData: seq<(string, map<int, Value>)>,
                     transforms: map<string, Value -> Value>, j: nat)
    requires Annotatable(a, extraData) && j < |extraData|
    ensures Annotatable(a, extraData[..j]) && Annotatable(a, extraData[..j + 1])
    ensures Fits(Annotate(a, extraData[..j], transforms), extraData[j].1)
    ensures Annotate(a, extraData[..j + 1], transforms)
         == Put(Annotate(a, extraData[..j], transforms), extraData[j].0, extraData[j].1,
                Transform(transforms, extraData[j].0))
  {
    AnnotatablePrefix(a, extraData, j);
    AnnotatablePrefix(a, extraData, j + 1);
    assert extraData[..j + 1][..j] == extraData[..j];
    assert extraData[..j + 1][j] == extraData[j];
    assert Fits(a, extraData[j].1);
    assert Membership(Annotate(a, extraData[..j], transforms)) == Membership(a);
  }

  /** Annotation never touches the membership, so the next data map fits an annotated
      dictionary exactly when it fits the original. */
  lemma FitsKept(a: Attrs, extraData: seq<(string, map<int, Value>)>,
                 transforms: map<string, Value -> Value>, dataMap: map<int, Value>)
    requires Annotatable(a, extraData)
    ensures Fits(Annotate(a, extraData, transforms), dataMap) <==> Fits(a, dataMap)
  {
    assert Membership(Annotate(a, extraData, transforms)) == Membership(a);
  }

  /** A dictionary the first j keys fit, and the next one too, fits the first j + 1. */
  lemma AnnotatableSnoc(a: Attrs, extraData: seq<(string, map<int, Value>)>, j: nat)
    requires j < |extraData| && extraData[j].0 != "membership"
    requires Annotatable(a, extraData[..j]) && Fits(a, extraData[j].1)
    ensures Annotatable(a, extraData[..j + 1])
  {
    forall i | 0 <= i < j + 1
      ensures extraData[i].0 != "membership" && Fits(a, extraData[i].1)
    {
      if i < j {
        assert extraData[..j][i] == extraData[i];
      }
    }
  }

  /** A key whose data map misses a member index makes the whole extra data unfit. */
  lemma UnfitKey(a: Attrs, extraData: seq<(string, map<int, Value>)>, j: nat)
    requires j < |extraData| && !Fits(a, extraData[j].1)
    ensures !Annotatable(a, extraData)
  {
  }

  /** One more key when only a prefix of the extra data is known to fit: AnnotateStep on
      the prefix of length j + 1. */
  lemma AnnotatePrefixStep(a: Attrs, extraData: seq<(string, map<int, Value>)>,
                           transforms: map<string, Value -> Value>, j: nat)
    requires j < |extraData| && Annotatable(a, extraData[..j + 1])
    ensures Annotatable(a, extraData[..j])
    ensures Fits(Annotate(a, extraData[..j], transforms), extraData[j].1)
    ensures Annotate(a, extraData[..j + 1], transforms)
         == Put(Annotate(a, extraData[..j], transforms), extraData[j].0, extraData[j].1,
                Transform(transforms, extraData[j].0))
  {
    var e := extraData[..j + 1];
    AnnotateStep(a, e, transforms, j);
    assert e[..j] == extraData[..j] && e[..j + 1] == e && e[j] == extraData[j];
  }

  /** A networkx Mapper graph: an attribute dictionary per node and per edge. */
  class NxGraph {
    var nodeAttrs: map<Node, Attrs>
    var edgeAttrs: map<Edge, Attrs>

    /** Every node carries its membership and every edge joins two nodes of the graph. */
    ghost predicate Valid()
      reads this
    {
      WellFormed(nodeAttrs, edgeAttrs)
    }

    constructor (nodes: map<Node, Attrs>, edges: map<Edge, Attrs>)
      requires WellFormed(nodes, edges)
      ensures Valid() && nodeAttrs == nodes && edgeAttrs == edges
    {
      nodeAttrs := nodes;
      edgeAttrs := edges;
    }

    /** The pass over the nodes for one extra-data key. */
    method PutNodes(key: string, dataMap: map<int, Value>, fun: Value -> Value)
      requires forall n :: n in nodeAttrs ==> Fits(nodeAttrs[n], dataMap)
      modifies this
      ensures edgeAttrs == old(edgeAttrs) && nodeAttrs.Keys == old(nodeAttrs).Keys
      ensures forall n :: n in nodeAttrs ==> nodeAttrs[n] == Put(old(nodeAttrs)[n], key, dataMap, fun)
    {
      var attrs := nodeAttrs;
      var todo := attrs.Keys;
      while todo != {}
        invariant todo <= nodeAttrs.Keys && attrs.Keys == nodeAttrs.Keys
        invariant forall n :: n in attrs ==>
          attrs[n] == if n in todo then nodeAttrs[n] else Put(nodeAttrs[n], key, dataMap, fun)
        decreases todo
      {
        var node :| node in todo;
        var membership := Membership(attrs[node]);
        attrs := attrs[node := attrs[node][key := fun(Gather(dataMap, membership))]];
        todo := todo - {node};
      }
      nodeAttrs := attrs;
    }

    /** `nxmapper_append_node_member_data`: for each extra-data key in order, every node's
        attribute `key` becomes the transform of its members' data. False where Python
        raises `KeyError`: some member index of some node is missing from a data map. */
    method AppendNodeMemberData(extraData: seq<(string, map<int, Value>)>,
                                transforms: map<string, Value -> Value>) returns (ok: bool)
      requires forall n :: n in nodeAttrs ==> HasMembership(nodeAttrs[n])
      requires forall j :: 0 <= j < |extraData| ==> extraData[j].0 != "membership"
      modifies this
      ensures ok <==> forall n :: n in old(nodeAttrs) ==> Annotatable(old(nodeAttrs)[n], extraData)
      ensures edgeAttrs == old(edgeAttrs)
      ensures nodeAttrs.Keys == old(nodeAttrs).Keys
      ensures ok ==> forall n :: n in nodeAttrs ==> nodeAttrs[n] == Annotate(old(nodeAttrs)[n], extraData, transforms)
    {
      for j := 0 to |extraData|
        invariant edgeAttrs == old(edgeAttrs)
        invariant nodeAttrs.Keys == old(nodeAttrs).Keys
        invariant forall n :: n in nodeAttrs ==>
          Annotatable(old(nodeAttrs)[n], extraData[..j])
          && nodeAttrs[n] == Annotate(old(nodeAttrs)[n], extraData[..j], transforms)
      {
        if !(forall n :: n in nodeAttrs ==> Fits(nodeAttrs[n], extraData[j].1)) {
          ghost var n :| n in nodeAttrs && !Fits(nodeAttrs[n], extraData[j].1);
          FitsKept(old(nodeAttrs)[n], extraData[..j], transforms, extraData[j].1);
          UnfitKey(old(nodeAttrs)[n], extraData, j);
          return false;
        }
        forall n | n in nodeAttrs
          ensures Annotatable(old(nodeAttrs)[n], extraData[..j + 1])
        {
          FitsKept(old(nodeAttrs)[n], extraData[..j], transforms, extraData[j].1);
          AnnotatableSnoc(old(nodeAttrs)[n], extraData, j);
        }
        PutNodes(extraData[j].0, extraData[j].1, Transform(transforms, extraData[j].0));
        forall n | n in nodeAttrs
          ensures nodeAttrs[n] == Annotate(old(nodeAttrs)[n], extraData[..j + 1], transforms)
        {
          AnnotatePrefixStep(old(nodeAttrs)[n], extraData, transforms, j);
        }
      }
      assert extraData[..|extraData|] == extraData;
      ok := true;
    }

    /** The pass over the edges for one extra-data key. */
    method PutEdges(key: string, dataMap: map<int, Value>, fun: Value -> Value)
      requires forall e :: e in edgeAttrs ==> Fits(edgeAttrs[e], dataMap)
      modifies this
      ensures nodeAttrs == old(nodeAttrs) && edgeAttrs.Keys == old(edgeAttrs).Keys
      ensures forall e :: e in edgeAttrs ==> edgeAttrs[e] == Put(old(edgeAttrs)[e], key, dataMap, fun)
    {
      var attrs := edgeAttrs;
      var todo := attrs.Keys;
      while todo != {}
        invariant todo <= edgeAttrs.Keys && attrs.Keys == edgeAttrs.Keys
        invariant forall e :: e in attrs ==>
          attrs[e] == if e in todo then edgeAttrs[e] else Put(edgeAttrs[e], key, dataMap, fun)
        decreases todo
      {
        var edge :| edge in todo;
        var membership := Membership(attrs[edge]);
        attrs := attrs[edge := attrs[edge][key := fun(Gather(dataMap, membership))]];
        todo := todo - {edge};
      }
      edgeAttrs := attrs;
    }

    /** `nxmapper_append_edge_member_data`: the same annotation, per edge, from the edge's
        own membership; false where Python raises `KeyError`. */
    method AppendEdgeMemberData(extraData: seq<(string, map<int, Value>)>,
                                transforms: map<string, Value -> Value>) returns (ok: bool)
      requires forall e :: e in edgeAttrs ==> HasMembership(edgeAttrs[e])
      requires forall j :: 0 <= j < |extraData| ==> extraData[j].0 != "membership"
      modifies this
      ensures ok <==> forall e :: e in old(edgeAttrs) ==> Annotatable(old(edgeAttrs)[e], extraData)
      ensures nodeAttrs == old(nodeAttrs)
      ensures edgeAttrs.Keys == old(edgeAttrs).Keys
      ensures ok ==> forall e :: e in edgeAttrs ==> edgeAttrs[e] == Annotate(old(edgeAttrs)[e], extraData, transforms)
    {
      for j := 0 to |extraData|
        invariant nodeAttrs == old(nodeAttrs)
        invariant edgeAttrs.Keys == old(edgeAttrs).Keys
        invariant forall e :: e in edgeAttrs ==>
          Annotatable(old(edgeAttrs)[e], extraData[..j])
          && edgeAttrs[e] == Annotate(old(edgeAttrs)[e], extraData[..j], transforms)
      {
        if !(forall e :: e in edgeAttrs ==> Fits(edgeAttrs[e], extraData[j].1)) {
          ghost var e :| e in edgeAttrs && !Fits(edgeAttrs[e], extraData[j].1);
          FitsKept(old(edgeAttrs)[e], extraData[..j], transforms, extraData[j].1);
          UnfitKey(old(edgeAttrs)[e], extraData, j);
          return false;
        }
        forall e | e in edgeAttrs
          ensures Annotatable(old(edgeAttrs)[e], extraData[..j + 1])
        {
          FitsKept(old(edgeAttrs)[e], extraData[..j], transforms, extraData[j].1);
          AnnotatableSnoc(old(edgeAttrs)[e], extraData, j);
        }
        PutEdges(extraData[j].0, extraData[j].1, Transform(transforms, extraData[j].0));
        forall e | e in edgeAttrs
          ensures edgeAttrs[e] == Annotate(old(edgeAttrs)[e], extraData[..j + 1], transforms)
        {
          AnnotatePrefixStep(old(edgeAttrs)[e], extraData, transforms, j);
        }
      }
      assert extraData[..|extraData|] == extraData;
      ok := true;
    }

    /** `nxmapper_append_basic_data` without the flare numbers: edge membership, counts
        and weights, then node counts; false where the source raises. */
    method AppendBasicData(counts: bool, weights: bool) returns (ok: bool)
      requires Valid()
      modifies this
      ensures ok <==> forall e :: e in old(edgeAttrs) ==> EdgeResult(old(nodeAttrs), old(edgeAttrs), e, counts, weights).Some?
      ensures edgeAttrs.Keys == old(edgeAttrs).Keys
      ensures ok ==> forall e :: e in edgeAttrs ==> Some(edgeAttrs[e]) == EdgeResult(old(nodeAttrs), old(edgeAttrs), e, counts, weights)
      ensures ok ==> nodeAttrs.Keys == old(nodeAttrs).Keys
      ensures ok ==> forall n :: n in nodeAttrs ==> nodeAttrs[n] == NodeBasic(old(nodeAttrs)[n], counts)
    {
      var nodes, edges := nodeAttrs, edgeAttrs;
      ok, edgeAttrs := EdgePass(edges, (e: Edge) => if e in edges then EdgeResult(nodes, edges, e, counts, weights) else None);
      if ok && counts {
        nodeAttrs := CountNodes(nodeAttrs);
      }
    }
  }

  /** The edge pass of `nxmapper_append_basic_data`: each edge's dictionary replaced by
      `step` of it, edge by edge; false at the first edge where `step` raises, with the
      edges updated so far. */
  method EdgePass(edges: map<Edge, Attrs>, step: Edge -> Option<Attrs>)
    returns (ok: bool, updated: map<Edge, Attrs>)
    ensures updated.Keys == edges.Keys
    ensures ok <==> forall e :: e in edges ==> step(e).Some?
    ensures ok ==> forall e :: e in updated ==> Some(updated[e]) == step(e)
  {
    updated := edges;
    var todo := edges.Keys;
    while todo != {}
      invariant todo <= edges.Keys && updated.Keys == edges.Keys
      invariant forall e :: e in updated && e !in todo ==> step(e) == Some(updated[e])
      decreases todo
    {
      var edge :| edge in todo;
      var attrs := step(edge);
      if attrs.None? {
        return false, updated;
      }
      updated := updated[edge := attrs.value];
      todo := todo - {edge};
    }
    ok := true;
  }

  /** The node pass of `nxmapper_append_basic_data` with counts on. */
  method CountNodes(nodes: map<Node, Attrs>) returns (counted: map<Node, Attrs>)
    requires forall n :: n in nodes ==> HasMembership(nodes[n])
    ensures counted.Keys == nodes.Keys
    ensures forall n :: n in counted ==> counted[n] == NodeBasic(nodes[n], true)
  {
    counted := nodes;
    var todo := nodes.Keys;
    while todo != {}
      invariant todo <= nodes.Keys && counted.Keys == nodes.Keys
      invariant forall n :: n in counted ==> counted[n] == if n in todo then nodes[n] else NodeBasic(nodes[n], true)
      decreases todo
    {
      var node :| node in todo;
      counted := counted[node := NodeBasic(counted[node], true)];
      todo := todo - {node};
    }
  }

  /** Node dictionaries that carry membership, and edges between listed nodes. */
  ghost predicate WellFormed(nodes: map<Node, Attrs>, edges: map<Edge, Attrs>)
  {
    && (forall n :: n in nodes ==> HasMembership(nodes[n]))
    && (forall e :: e in edges ==> e.0 in nodes && e.1 in nodes)
  }

  /** An edge's dictionary after the edge pass, from its endpoints' memberships. */
  function EdgeResult(nodes: map<Node, Attrs>, edges: map<Edge, Attrs>, e: Edge, counts: bool, weights: bool): Option<Attrs>
    requires WellFormed(nodes, edges) && e in edges
  {
    EdgeBasic(edges[e], Membership(nodes[e.0]), Membership(nodes[e.1]), counts, weights)
  }

  /** A numeric attribute as a real, if it is one. */
  function Numeric(v: Value): Option<real>
  {
    match v
    case Int(i) => Some(i as real)
    case Num(r) => Some(r)
    case _ => None
  }

  /** The member indices in both endpoints (`u_mem.intersection(v_mem)`). */
  function Common(um: seq<int>, vm: seq<int>): seq<int>
  {
    Select(um, Elems(vm))
  }

  /** An edge's dictionary after `nxmapper_append_basic_data`: membership is the common
      members, `count` their number when `counts`, and `weight` the count divided by the
      size of the union when `weights`; None where Python raises (no numeric `count`, or
      an empty union). */
  function EdgeBasic(a: Attrs, um: seq<int>, vm: seq<int>, counts: bool, weights: bool): Option<Attrs>
  {
    var common := Common(um, vm);
    var a1 := a["membership" := IntList(common)];
    var a2 := if counts then a1["count" := Int(|common|)] else a1;
    if !weights then Some(a2)
    else
      var union := |Elems(um) + Elems(vm)|;
      if "count" in a2 && Numeric(a2["count"]).Some? && union > 0
      then Some(a2["weight" := Num(Numeric(a2["count"]).value / union as real)])
      else None
  }

  /** A node's dictionary after `nxmapper_append_basic_data`: `count` is the length of
      its membership list when `counts`. */
  function NodeBasic(a: Attrs, counts: bool): Attrs
    requires HasMembership(a)
  {
    if counts then a["count" := Int(|Membership(a)|)] else a
  }

  /** With counts and weights on, an edge holds exactly the members its endpoints share,
      each once, their number as `count`, and as `weight` the Jaccard ratio
      |shared| / |union|, a value in [0, 1]; with weights on and counts off, the weight
      fails unless the edge already has a numeric `count`. */
  lemma EdgeBasicFacts(a: Attrs, um: seq<int>, vm: seq<int>)
    requires um != [] || vm != []
    ensures var r := EdgeBasic(a, um, vm, true, true);
            && r.Some?
            && Distinct(Membership(r.value))
            && Elems(Membership(r.value)) == Elems(um) * Elems(vm)
            && r.value["count"] == Int(|Elems(um) * Elems(vm)|)
            && r.value["weight"] == Num(|Elems(um) * Elems(vm)| as real / |Elems(um) + Elems(vm)| as real)
            && 0.0 <= r.value["weight"].r <= 1.0
    ensures ("count" !in a || Numeric(a["count"]).None?) ==> EdgeBasic(a, um, vm, false, true).None?
  {
    var common := Common(um, vm);
    SelectSpec(um, Elems(vm));
    DistinctCard(common);
    var union := Elems(um) + Elems(vm);
    if um != [] {
      assert um[0] in union;
    } else {
      assert vm[0] in union;
    }
    assert Elems(common) <= union;
    SubsetCard(Elems(common), union);
    RatioAtMostOne(|common|, |union|);
    var r := EdgeBasic(a, um, vm, true, true).value;
    assert r["membership"] == IntList(common);
    IntListRoundTrip(common, r["membership"]);
  }

  /** A count that does not exceed a positive total gives a ratio in [0, 1]. */
  lemma RatioAtMostOne(c: nat, u: nat)
    requires c <= u && u > 0
    ensures 0.0 <= c as real / u as real <= 1.0
  {
    var q := c as real / u as real;
    assert q * (u as real) == c as real;
  }

  // The fixture of tests/test_nxmapper.py: two nodes with members [0, 1, 3] and
  // [1, 2, 3], colours and days per data index, and a join and a min transform.

  function FixtureData(): seq<(string, map<int, Value>)>
  {
    [("colors", map[0 := Str("red"), 1 := Str("green"), 2 := Str("blue"), 3 := Str("black")]),
     ("day", map[0 := Int(10), 1 := Int(20), 2 := Int(30), 3 := Int(40)])]
  }

  /** `"".join` on a list of strings. */
  function Join(v: Value): Value
  {
    if v.List? then Str(Concat(v.items)) else v
  }

  function Concat(items: seq<Value>): string
  {
    if items == [] then ""
    else Concat(items[..|items| - 1]) + (if items[|items| - 1].Str? then items[|items| - 1].s else "")
  }

  /** `min` on a non-empty list of integers. */
  function Smallest(v: Value): Value
  {
    if v.List? && v.items != [] && v.items[0].Int? then Int(MinOf(v.items)) else v
  }

  function MinOf(items: seq<Value>): int
    requires items != [] && items[0].Int?
  {
    if |items| == 1 || !items[|items| - 1].Int? then items[0].i
    else
      var m := MinOf(items[..|items| - 1]);
      if items[|items| - 1].i < m then items[|items| - 1].i else m
  }

  function FixtureTransforms(): map<string, Value -> Value>
  {
    map["colors" := Join, "day" := Smallest]
  }

  /** The fixture node with members `ms` carries the fixture data. */
  lemma FixtureAnnotatable(ms: seq<int>)
    requires forall i :: 0 <= i < |ms| ==> 0 <= ms[i] < 4
    ensures Annotatable(map["membership" := IntList(ms)], FixtureData()) && DistinctKeys(FixtureData())
    ensures Membership(map["membership" := IntList(ms)]) == ms
  {
    var a: Attrs := map["membership" := IntList(ms)];
    IntListRoundTrip(ms, a["membership"]);
  }

  /** The fixture node with members `ms` holds its members' transformed colours and days. */
  lemma FixtureValues(ms: seq<int>, ts: map<string, Value -> Value>)
    requires forall i :: 0 <= i < |ms| ==> 0 <= ms[i] < 4
    ensures Annotatable(map["membership" := IntList(ms)], FixtureData())
    ensures var ann := Annotate(map["membership" := IntList(ms)], FixtureData(), ts);
            "colors" in ann && "day" in ann
    ensures Annotate(map["membership" := IntList(ms)], FixtureData(), ts)["colors"]
         == Transform(ts, "colors")(Gather(FixtureData()[0].1, ms))
    ensures Annotate(map["membership" := IntList(ms)], FixtureData(), ts)["day"]
         == Transform(ts, "day")(Gather(FixtureData()[1].1, ms))
  {
    FixtureAnnotatable(ms);
    AnnotateWritten(map["membership" := IntList(ms)], FixtureData(), ts, 0);
    AnnotateWritten(map["membership" := IntList(ms)], FixtureData(), ts, 1);
  }

  /** Without transforms each node holds the lists of its members' colours and days
      (tests/test_nxmapper.py, `test_nxmapper_node_data`). */
  lemma FixtureNodeData()
    ensures var ann := Annotate(map["membership" := IntList([0, 1, 3])], FixtureData(), map[]);
            ann["colors"] == List([Str("red"), Str("green"), Str("black")])
            && ann["day"] == List([Int(10), Int(20), Int(40)])
    ensures var ann := Annotate(map["membership" := IntList([1, 2, 3])], FixtureData(), map[]);
            ann["colors"] == List([Str("green"), Str("blue"), Str("black")])
            && ann["day"] == List([Int(20), Int(30), Int(40)])
  {
    FixtureValues([0, 1, 3], map[]);
    FixtureValues([1, 2, 3], map[]);
    assert Gather(FixtureData()[0].1, [0, 1, 3]).items == [Str("red"), Str("green"), Str("black")];
    assert Gather(FixtureData()[1].1, [0, 1, 3]).items == [Int(10), Int(20), Int(40)];
    assert Gather(FixtureData()[0].1, [1, 2, 3]).items == [Str("green"), Str("blue"), Str("black")];
    assert Gather(FixtureData()[1].1, [1, 2, 3]).items == [Int(20), Int(30), Int(40)];
  }

  lemma ConcatThree(x: string, y: string, z: string)
    ensures Concat([Str(x), Str(y), Str(z)]) == x + y + z
  {
    var c := [Str(x), Str(y), Str(z)];
    assert c[..2] == [Str(x), Str(y)] && c[..2][..1] == [Str(x)] && c[..2][..1][..0] == [];
    assert Concat(c[..2][..1]) == "" + x;
  }

  lemma MinOfThree(a: int, b: int, c: int)
    requires a <= b <= c
    ensures MinOf([Int(a), Int(b), Int(c)]) == a
  {
    var d := [Int(a), Int(b), Int(c)];
    assert d[..2] == [Int(a), Int(b)] && d[..2][..1] == [Int(a)];
    assert MinOf(d[..2][..1]) == a;
    assert MinOf(d[..2]) == a;
  }

  /** With the join and min transforms the node with members [0, 1, 3] holds
      "redgreenblack" and 10 (tests/test_nxmapper.py, `test_nxmapper_node_data_transformed`). */
  lemma FixtureFirstNodeTransformed()
    ensures var ann := Annotate(map["membership" := IntList([0, 1, 3])], FixtureData(), FixtureTransforms());
            ann["colors"] == Str("redgreenblack") && ann["day"] == Int(10)
  {
    FixtureValues([0, 1, 3], FixtureTransforms());
    assert Gather(FixtureData()[0].1, [0, 1, 3]).items == [Str("red"), Str("green"), Str("black")];
    ConcatThree("red", "green", "black");
    assert "red" + "green" + "black" == "redgreenblack";
    assert Gather(FixtureData()[1].1, [0, 1, 3]).items == [Int(10), Int(20), Int(40)];
    MinOfThree(10, 20, 40);
  }

  /** With the join and min transforms the node with members [1, 2, 3] holds
      "greenblueblack" and 20 (tests/test_nxmapper.py, `test_nxmapper_node_data_transformed`). */
  lemma FixtureSecondNodeTransformed()
    ensures var ann := Annotate(map["membership" := IntList([1, 2, 3])], FixtureData(), FixtureTransforms());
            ann["colors"] == Str("greenblueblack") && ann["day"] == Int(20)
  {
    FixtureValues([1, 2, 3], FixtureTransforms());
    assert Gather(FixtureData()[0].1, [1, 2, 3]).items == [Str("green"), Str("blue"), Str("black")];
    ConcatThree("green", "blue", "black");
    assert "green" + "blue" + "black" == "greenblueblack";
    assert Gather(FixtureData()[1].1, [1, 2, 3]).items == [Int(20), Int(30), Int(40)];
    MinOfThree(20, 30, 40);
  }
}
