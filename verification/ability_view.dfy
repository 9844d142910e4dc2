/**
  The ability list of the editor. It holds one node per activatable ability
  spec of the inspected component; a node is visible when its
  activation-state flags share a bit with the filter mask.
 */
module AbilityView {
  import opened Engine
  import opened ScreenFilter

  /** One node of the ability list: the ability, its activation-state flags, its visibility. */
  datatype AbilityNode = AbilityNode(ability: AbilityId, mode: bv8, visible: bool)

  /** A node with flags `mode` is shown under `mask` when they share a bit. */
  predicate Shown(mode: bv8, mask: Mask)
  {
    mode & mask != 0
  }

  /** Every node's visibility agrees with the mask. */
  predicate VisibilityConsistent(nodes: seq<AbilityNode>, mask: Mask)
  {
    forall i :: 0 <= i < |nodes| ==> nodes[i].visible == Shown(nodes[i].mode, mask)
  }

  /** The specs that yield nodes: those whose ability is not null. */
  function Activatable(specs: seq<AbilitySpec>): seq<AbilitySpec>
  {
    if specs == [] then []
    else if specs[0].ability.Some? then [specs[0]] + Activatable(specs[1..])
    else Activatable(specs[1..])
  }

  /** The spec each node was made from. */
  function SpecsOf(nodes: seq<AbilityNode>): seq<AbilitySpec>
  {
    if nodes == [] then [] else [AbilitySpec(Some(nodes[0].ability), nodes[0].mode)] + SpecsOf(nodes[1..])
  }

  /**
    The rebuild of the ability list: one node per spec whose ability is not
    null, in spec order, each visible exactly when its flags meet the mask.
   */
  function BuildAbilityNodes(specs: seq<AbilitySpec>, mask: Mask): (nodes: seq<AbilityNode>)
    ensures VisibilityConsistent(nodes, mask)
    ensures |nodes| <= |specs|
    ensures forall i :: 0 <= i < |nodes| ==> AbilitySpec(Some(nodes[i].ability), nodes[i].mode) in specs
    ensures forall j :: 0 <= j < |specs| && specs[j].ability.Some? ==>
      AbilityNode(specs[j].ability.value, specs[j].mode, Shown(specs[j].mode, mask)) in nodes
  {
    if specs == [] then []
    else
      var rest := BuildAbilityNodes(specs[1..], mask);
      if specs[0].ability.Some? then
        [AbilityNode(specs[0].ability.value, specs[0].mode, Shown(specs[0].mode, mask))] + rest
      else rest
  }

  /** Reading the specs back off the rebuilt list gives the activatable specs, in order. */
  lemma {:induction false} BuildAbilityNodesSpecs(specs: seq<AbilitySpec>, mask: Mask)
    ensures SpecsOf(BuildAbilityNodes(specs, mask)) == Activatable(specs)
  {
    if specs != [] {
      BuildAbilityNodesSpecs(specs[1..], mask);
    }
  }

  /** Recomputes every node's visibility against `mask`, leaving the nodes otherwise alone. */
  function Revisit(nodes: seq<AbilityNode>, mask: Mask): (r: seq<AbilityNode>)
    ensures |r| == |nodes|
    ensures forall i :: 0 <= i < |r| ==> r[i].ability == nodes[i].ability && r[i].mode == nodes[i].mode
    ensures VisibilityConsistent(r, mask)
  {
    if nodes == [] then []
    else [nodes[0].(visible := Shown(nodes[0].mode, mask))] + Revisit(nodes[1..], mask)
  }

  /** Recomputing visibility after a mask change is the same as rebuilding under the new mask. */
  lemma {:induction false} RevisitIsRebuild(specs: seq<AbilitySpec>, before: Mask, after: Mask)
    ensures Revisit(BuildAbilityNodes(specs, before), after) == BuildAbilityNodes(specs, after)
  {
    if specs != [] {
      RevisitIsRebuild(specs[1..], before, after);
    }
  }

  /** The mask and ability list after a filter check box reports a state. */
  datatype FilterView = FilterView(mask: Mask, nodes: seq<AbilityNode>)

  /** A check-box report: update the mask, then recompute every node's visibility. */
  function ChangeFilter(view: FilterView, state: CheckBoxState, flag: bv8): (r: FilterView)
    ensures r.mask == UpdateMask(view.mask, state, flag)
    ensures SpecsOf(r.nodes) == SpecsOf(view.nodes)
    ensures VisibilityConsistent(r.nodes, r.mask)
  {
    var mask := UpdateMask(view.mask, state, flag);
    var nodes := Revisit(view.nodes, mask);
    SpecsOfRevisit(view.nodes, mask);
    FilterView(mask, nodes)
  }

  lemma {:induction false} SpecsOfRevisit(nodes: seq<AbilityNode>, mask: Mask)
    ensures SpecsOf(Revisit(nodes, mask)) == SpecsOf(nodes)
  {
    if nodes != [] {
      SpecsOfRevisit(nodes[1..], mask);
    }
  }
}
