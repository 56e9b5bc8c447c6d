/** The flare record of features/flares.py and its elder-flare search: a mutable
    record that is finished by `terminate`, and a strict-minimum scan over candidates. */
module Flares {
  import opened Graphs

  /** A flare: the nodes it holds, its birth value, and how it ended. */
  class Flare {
    var nodes: set<Node>
    var birth: ExtReal
    var death: Option<ExtReal>
    var originator: Node
    var terminator: Option<Node>
    var finished: bool

    /** A fresh flare holds only `node`, was started by it and has not ended. */
    constructor (node: Node, birth: ExtReal)
      ensures nodes == {node} && this.birth == birth
      ensures death == None && originator == node && terminator == None && !finished
    {
      nodes := {node};
      this.birth := birth;
      death := None;
      originator := node;
      terminator := None;
      finished := false;
    }

    /** Ends the flare at value `dVal` reached at node `dNode`; its nodes, birth and
        originator are kept. */
    method Terminate(dNode: Node, dVal: ExtReal)
      modifies this
      ensures death == Some(dVal) && terminator == Some(dNode) && finished
      ensures nodes == old(nodes) && birth == old(birth) && originator == old(originator)
    {
      death := Some(dVal);
      terminator := Some(dNode);
      finished := true;
    }
  }

  /** The births of the candidate flares, in candidate order. */
  function Births(flares: seq<Flare>, candidates: seq<nat>): (r: seq<ExtReal>)
    reads set k | 0 <= k < |flares| :: flares[k]
    requires forall k :: 0 <= k < |candidates| ==> candidates[k] < |flares|
    ensures |r| == |candidates|
    ensures forall k :: 0 <= k < |candidates| ==> r[k] == flares[candidates[k]].birth
  {
    if candidates == [] then []
    else Births(flares, candidates[..|candidates| - 1]) + [flares[candidates[|candidates| - 1]].birth]
  }

  /** The elder of the candidates: None exactly when no candidate has a finite birth
      (in particular when there are none); otherwise the first strict minimum. */
  method FindElderFlare(flares: seq<Flare>, candidates: seq<nat>) returns (r: Option<nat>)
    requires forall k :: 0 <= k < |candidates| ==> candidates[k] < |flares|
    ensures r.None? <==> forall k :: 0 <= k < |candidates| ==> flares[candidates[k]].birth.Infinite?
    ensures r.Some? ==> exists p: nat :: FirstLeast(Births(flares, candidates), p) && candidates[p] == r.value
  {
    var minBirth := Infinite;
    r := None;
    ghost var p: nat := 0;
    ghost var births := Births(flares, candidates);
    for i := 0 to |candidates|
      invariant r.None? ==> minBirth == Infinite
      invariant r.None? <==> forall k :: 0 <= k < i ==> births[k].Infinite?
      invariant r.Some? ==> p < i && candidates[p] == r.value && minBirth == births[p]
      invariant r.Some? ==> minBirth.Finite?
      invariant r.Some? ==> forall k :: 0 <= k < p ==> Below(minBirth, births[k])
      invariant r.Some? ==> forall k :: p <= k < i ==> !Below(births[k], minBirth)
    {
      var idx := candidates[i];
      if Below(flares[idx].birth, minBirth) {
        r := Some(idx);
        minBirth := flares[idx].birth;
        p := i;
      }
    }
  }
}
