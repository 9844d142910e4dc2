/**
  The attach editor's refresh: pick the world, find or create its debug
  record, resolve the inspected component, then rebuild the ability and
  attribute lists and diff the tag badges against their caches. The filter
  check boxes recompute the ability list's visibility without a rebuild.

  The editor's state and the two process-wide lists (the debug records and
  the candidate list) are one `Panel` value; the engine's answers during the
  refresh are the `Env` snapshot.
 */
module AttachEditor {
  import opened Engine
  import opened TargetRegistry
  import opened WorldSelection
  import opened ScreenFilter
  import opened AbilityView
  import opened AttributeView
  import opened TagView

  /**
    - `registry`, `candidates`: the debug records and the candidate list;
    - `worldHandle`, `worldText`: the selected world context and its label;
    - `selected`: the inspected component (a weak pointer);
    - `mask`: the ability filter;
    - `abilityTree`, `attributesTree`, `tagsView`: whether each view widget exists;
    - `abilityRoots`, `attributeRoots`, `tags`: what the views show.
   */
  datatype Panel = Panel(
    registry: seq<TargetInfo>,
    candidates: seq<Comp>,
    worldHandle: ContextHandle,
    worldText: SceneLabel,
    selected: Option<Comp>,
    mask: Mask,
    abilityTree: bool,
    attributesTree: bool,
    tagsView: bool,
    abilityRoots: seq<AbilityNode>,
    attributeRoots: seq<AttributeNode>,
    tags: TagPanel)

  /** What every panel these operations reach satisfies. */
  predicate Valid(p: Panel)
  {
    && RegistryWellFormed(p.registry)
    && VisibilityConsistent(p.abilityRoots, p.mask)
    && BadgesShowCache(p.tags)
  }

  /**
    The editor as constructed, before its first refresh: every filter bit
    set, only the ability tree present, nothing shown and every tag
    container empty. The debug records and the candidate list are
    process-wide and may already hold entries from an earlier editor.
   */
  function InitialPanel(registry: seq<TargetInfo>, candidates: seq<Comp>): (p: Panel)
    ensures p.abilityTree && !p.attributesTree && !p.tagsView
    ensures CheckBoxFor(p.mask, Active) == Checked && CheckBoxFor(p.mask, Blocked) == Checked
      && CheckBoxFor(p.mask, NoActive) == Checked
    ensures p.selected.None? && p.abilityRoots == [] && p.attributeRoots == []
    ensures p.mask == InitialMask && p.tags == InitialTagPanel
    ensures p.registry == registry && p.candidates == candidates && p.worldHandle == NameNone
    ensures Valid(p) <==> RegistryWellFormed(registry)
  {
    InitialMaskChecksEveryState();
    Panel(registry, candidates, NameNone, Unlabelled, None, InitialMask, true, false, false, [], [], InitialTagPanel)
  }

  /**
    The constructed editor, refreshed once through the refresh button as
    construction does, is valid whenever the debug records are.
   */
  lemma ConstructedPanelValid(env: Env, registry: seq<TargetInfo>, candidates: seq<Comp>)
    requires RegistryWellFormed(registry)
    ensures Valid(RefreshButton(env, InitialPanel(registry, candidates)))
  {
  }

  /** The panel after the resolution half of a refresh, and the component it resolved. */
  datatype Resolved = Resolved(panel: Panel, target: Option<Comp>, index: nat)

  /**
    The first half of a refresh: clear both tree roots, look up the world,
    find or create its record, and run the resolution cascade with the
    current selection as request.
   */
  function ResolveStep(env: Env, p: Panel): (r: Resolved)
    ensures r.panel.abilityRoots == [] && r.panel.attributeRoots == []
    ensures r.target.Some? ==> r.target.value in env.liveComps
    ensures r.index < |r.panel.registry|
    ensures r.target == WeakComp(env, r.panel.registry[r.index].lastTarget)
    ensures r.panel.selected == p.selected && r.panel.mask == p.mask && r.panel.tags == p.tags
    ensures r.panel.abilityTree == p.abilityTree && r.panel.attributesTree == p.attributesTree
      && r.panel.tagsView == p.tagsView
    ensures RegistryWellFormed(p.registry) ==> RegistryWellFormed(r.panel.registry)
    ensures r.panel.candidates != p.candidates ==> |p.candidates| == 0
    ensures var choice := SelectWorld(env.contexts, p.worldHandle, p.worldText);
      var lookup := GetTargetInfo(env, p.registry, choice.world);
      var res := ResolveTarget(env, lookup.registry[lookup.index], p.candidates, WeakComp(env, p.selected));
      && r.panel.worldHandle == choice.handle && r.panel.worldText == choice.sceneText
      && r.index == lookup.index
      && r.panel.registry == lookup.registry[lookup.index := res.info]
      && r.panel.candidates == res.candidates
      && r.target == res.target
  {
    var choice := SelectWorld(env.contexts, p.worldHandle, p.worldText);
    var lookup := GetTargetInfo(env, p.registry, choice.world);
    var res := ResolveTarget(env, lookup.registry[lookup.index], p.candidates, WeakComp(env, p.selected));
    var registry := lookup.registry[lookup.index := res.info];
    assert CategoryInRange(lookup.registry[lookup.index]) ==> CategoryInRange(res.info);
    var panel := p.(
      abilityRoots := [],
      attributeRoots := [],
      worldHandle := choice.handle,
      worldText := choice.sceneText,
      registry := registry,
      candidates := res.candidates);
    Resolved(panel, res.target, lookup.index)
  }

  /**
    A refresh. When no component resolves, both tree roots stay cleared and
    the tags are untouched. Otherwise the component becomes the selection,
    the tag badges are diffed (when the tag view exists), and each existing
    tree gets one node per activatable ability or per attribute field.
   */
  function Refresh(env: Env, p: Panel): (r: Panel)
    ensures r.mask == p.mask
    ensures ResolveStep(env, p).target.None? ==>
      r.abilityRoots == [] && r.attributeRoots == [] && r.tags == p.tags && r.selected == p.selected
    ensures ResolveStep(env, p).target.Some? ==>
      r.selected == ResolveStep(env, p).target && r.selected.value in env.liveComps
    ensures !p.abilityTree ==> r.abilityRoots == []
    ensures !p.attributesTree ==> r.attributeRoots == []
    ensures !p.tagsView ==> r.tags == p.tags
    ensures ResolveStep(env, p).target.Some? ==> var t := ResolveStep(env, p).target.value;
      && (p.tagsView ==> r.tags == SyncTags(p.tags, t, env.ownedTags(t), env.blockedTags(t)))
      && (p.abilityTree ==> r.abilityRoots == BuildAbilityNodes(env.abilities(t), p.mask))
      && (p.attributesTree ==> r.attributeRoots == BuildAttributeNodes(env.attributeSets(t)))
    ensures r.tags.blockedCache == p.tags.blockedCache
    ensures r.candidates != p.candidates ==> |p.candidates| == 0
    ensures VisibilityConsistent(r.abilityRoots, r.mask)
  {
    var step := ResolveStep(env, p);
    var q := step.panel;
    match step.target
    case None => q
    case Some(asc) =>
      var tags := if q.tagsView then SyncTags(q.tags, asc, env.ownedTags(asc), env.blockedTags(asc)) else q.tags;
      q.(
        selected := Some(asc),
        tags := tags,
        abilityRoots := if q.abilityTree then BuildAbilityNodes(env.abilities(asc), q.mask) else [],
        attributeRoots := if q.attributesTree then BuildAttributeNodes(env.attributeSets(asc)) else [])
  }

  /** A refresh keeps the panel valid. */
  lemma RefreshKeepsValid(env: Env, p: Panel)
    requires Valid(p)
    ensures Valid(Refresh(env, p))
  {
    var step := ResolveStep(env, p);
    if step.target.Some? && p.tagsView {
      var asc := step.target.value;
      SyncTagsKeepsBadges(p.tags, asc, env.ownedTags(asc), env.blockedTags(asc));
    }
  }

  /**
    With a component resolved, an existing ability tree holds one node per
    activatable spec of the component, in order, and an existing attribute
    tree one node per declared field of its attribute sets.
   */
  lemma RefreshRebuildsLists(env: Env, p: Panel)
    requires ResolveStep(env, p).target.Some?
    ensures var c := ResolveStep(env, p).target.value;
      && (p.abilityTree ==> SpecsOf(Refresh(env, p).abilityRoots) == Activatable(env.abilities(c)))
      && (p.attributesTree ==> forall a :: AttributeNode(a) in Refresh(env, p).attributeRoots <==> Declared(env.attributeSets(c), a))
  {
    var c := ResolveStep(env, p).target.value;
    BuildAbilityNodesSpecs(env.abilities(c), p.mask);
  }

  /**
    A refresh keeps the selection when it is still live and a candidate,
    whatever the debug record last resolved to.
   */
  lemma RefreshKeepsLiveSelection(env: Env, p: Panel)
    requires p.selected.Some? && p.selected.value in env.liveComps && p.selected.value in p.candidates
    ensures ResolveStep(env, p).target == p.selected
    ensures Refresh(env, p).selected == p.selected
  {
  }

  /**
    The refresh button: rescan the selected world's candidates first, then
    refresh (the world lookup runs twice, as in the editor).
   */
  function RefreshButton(env: Env, p: Panel): (r: Panel)
    ensures r.mask == p.mask
    ensures VisibilityConsistent(r.abilityRoots, r.mask)
    ensures r.tags.blockedCache == p.tags.blockedCache
    ensures var rescanned := Rescan(env, SelectWorld(env.contexts, p.worldHandle, p.worldText).world);
      |rescanned| > 0 ==> r.candidates == rescanned
    ensures Valid(p) ==> Valid(r)
    ensures var choice := SelectWorld(env.contexts, p.worldHandle, p.worldText);
      r == Refresh(env, p.(worldHandle := choice.handle, worldText := choice.sceneText, candidates := Rescan(env, choice.world)))
  {
    var choice := SelectWorld(env.contexts, p.worldHandle, p.worldText);
    var p1 := p.(worldHandle := choice.handle, worldText := choice.sceneText, candidates := Rescan(env, choice.world));
    if Valid(p1) then RefreshKeepsValid(env, p1); Refresh(env, p1) else Refresh(env, p1)
  }

  /**
    After the refresh button, a component is inspected whenever the
    selected world has a live component.
   */
  lemma RefreshButtonFindsTarget(env: Env, p: Panel, w: World, c: Comp)
    requires SelectWorld(env.contexts, p.worldHandle, p.worldText).world == Some(w)
    requires c in env.objects && InWorld(env, c, w)
    ensures RefreshButton(env, p).selected.Some? && RefreshButton(env, p).selected.value in env.liveComps
  {
    var choice := SelectWorld(env.contexts, p.worldHandle, p.worldText);
    var p1 := p.(worldHandle := choice.handle, worldText := choice.sceneText, candidates := Rescan(env, Some(w)));
    SelectWorldStable(env.contexts, p.worldHandle, p.worldText);
    assert c in p1.candidates;
    assert |p1.candidates| > 0 && p1.candidates[0] in env.liveComps;
    assert ResolveStep(env, p1).target.Some?;
  }

  /**
    A filter check box reported `state` for `flag`: the mask is updated and
    every ability node's visibility recomputed; nothing else changes.
   */
  function OnScreenModeChanged(p: Panel, state: CheckBoxState, flag: bv8): (r: Panel)
    ensures r.mask == UpdateMask(p.mask, state, flag)
    ensures VisibilityConsistent(r.abilityRoots, r.mask)
    ensures SpecsOf(r.abilityRoots) == SpecsOf(p.abilityRoots)
    ensures r == p.(mask := r.mask, abilityRoots := r.abilityRoots)
  {
    var view := ChangeFilter(FilterView(p.mask, p.abilityRoots), state, flag);
    p.(mask := view.mask, abilityRoots := view.nodes)
  }

  /** The world a lookup picks is null or live when the engine keeps its contexts' worlds alive. */
  lemma SelectedWorldLive(env: Env, handle: ContextHandle, sceneText: SceneLabel)
    requires ContextsLive(env)
    ensures var w := SelectWorld(env.contexts, handle, sceneText).world;
      w.None? || w.value in env.liveWorlds
  {
  }

  /**
    The resolution half of a second refresh finds what the first one left:
    the same target, and the panel the first refresh produced with its tree
    roots cleared.
   */
  lemma ResolveStepAfterRefresh(env: Env, p: Panel)
    requires ContextsLive(env)
    ensures var p1 := Refresh(env, p);
      && ResolveStep(env, p1).target == ResolveStep(env, p).target
      && ResolveStep(env, p1).panel == p1.(abilityRoots := [], attributeRoots := [])
  {
    var choice := SelectWorld(env.contexts, p.worldHandle, p.worldText);
    var lookup := GetTargetInfo(env, p.registry, choice.world);
    var info := lookup.registry[lookup.index];
    var res := ResolveTarget(env, info, p.candidates, WeakComp(env, p.selected));
    var p1 := Refresh(env, p);
    RefreshShape(env, p);

    assert SelectWorld(env.contexts, p1.worldHandle, p1.worldText) == choice by {
      SelectWorldStable(env.contexts, p.worldHandle, p.worldText);
    }
    assert GetTargetInfo(env, p1.registry, choice.world) == Lookup(p1.registry, lookup.index) by {
      SelectedWorldLive(env, p.worldHandle, p.worldText);
      GetTargetInfoStable(env, p.registry, choice.world, res.info);
    }
    assert ResolveTarget(env, res.info, res.candidates, WeakComp(env, p1.selected)) == res by {
      ResolveTargetFixpoint(env, info, p.candidates, WeakComp(env, p.selected));
    }
    assert p1.registry[lookup.index := res.info] == p1.registry;
  }

  /**
    What a refresh leaves besides the resolution half: the resolved target
    as selection (or the old selection), the tag step, and the rebuilt trees.
   */
  lemma RefreshShape(env: Env, p: Panel)
    ensures var step := ResolveStep(env, p); var p1 := Refresh(env, p);
      && p1.(abilityRoots := [], attributeRoots := []) == step.panel.(selected := p1.selected, tags := p1.tags)
      && p1.selected == (if step.target.Some? then step.target else p.selected)
  {
  }

  /**
    Two refreshes in a row under the same engine state leave the panel as
    the first one left it: the same world, record, candidates, selection and
    lists, and no owned-tag rebuild the second time.
   */
  lemma RefreshIdempotent(env: Env, p: Panel)
    requires ContextsLive(env)
    ensures Refresh(env, Refresh(env, p)) == Refresh(env, p)
    ensures p.tagsView && ResolveStep(env, p).target.Some? ==>
      !OwnedRebuilds(Refresh(env, p).tags, env.ownedTags(ResolveStep(env, p).target.value))
  {
    ResolveStepAfterRefresh(env, p);
    match ResolveStep(env, p).target
    case None =>
    case Some(asc) =>
      SyncTagsIdempotent(p.tags, asc, env.ownedTags(asc), env.blockedTags(asc));
  }
}
