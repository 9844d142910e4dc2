/**
  Which world the editor inspects. The editor remembers the handle of a
  selected world context; each refresh looks it up among the PIE and Game
  contexts and, when it is not there, moves the selection to the first such
  context.
 */
module WorldSelection {
  import opened Engine

  /** The text shown for the selected world: a dedicated server or a numbered client. */
  datatype SceneLabel = Unlabelled | DedicatedServer | Client(pieInstance: int)

  /** The selection state the lookup reads and may move, and the world it answers. */
  datatype WorldChoice = WorldChoice(world: Option<World>, handle: ContextHandle, sceneText: SceneLabel)

  /** Only play-in-editor and game contexts are inspected. */
  predicate Eligible(ctx: WorldContext)
  {
    ctx.worldType == PIE || ctx.worldType == Game
  }

  /** The context is eligible and carries the selected handle. */
  predicate Selected(ctx: WorldContext, handle: ContextHandle)
  {
    Eligible(ctx) && ctx.handle == handle
  }

  function LabelOf(ctx: WorldContext): SceneLabel
  {
    if ctx.runAsDedicated then DedicatedServer else Client(ctx.pieInstance)
  }

  /**
    The loop over the context list from position `i` on. `first` is the
    position of the first eligible context before `i`, if any; no context
    before `i` carries the selected handle.
   */
  function ScanContexts(contexts: seq<WorldContext>, handle: ContextHandle, sceneText: SceneLabel, i: nat, first: Option<nat>): (r: WorldChoice)
    requires i <= |contexts|
    requires forall j :: 0 <= j < i ==> !Selected(contexts[j], handle)
    requires first.None? ==> forall j :: 0 <= j < i ==> !Eligible(contexts[j])
    requires first.Some? ==> first.value < i && Eligible(contexts[first.value])
    requires first.Some? ==> forall j :: 0 <= j < first.value ==> !Eligible(contexts[j])
    decreases |contexts| - i
    ensures (exists k :: i <= k < |contexts| && Selected(contexts[k], handle)) ==>
      exists k :: i <= k < |contexts| && Selected(contexts[k], handle)
        && (forall j :: 0 <= j < k ==> !Selected(contexts[j], handle))
        && r == WorldChoice(contexts[k].world, handle, sceneText)
    ensures (forall k :: i <= k < |contexts| ==> !Selected(contexts[k], handle)) && first.Some? ==>
      r == WorldChoice(contexts[first.value].world, contexts[first.value].handle, LabelOf(contexts[first.value]))
    ensures (forall k :: i <= k < |contexts| ==> !Selected(contexts[k], handle)) && first.None? && (exists k :: i <= k < |contexts| && Eligible(contexts[k])) ==>
      exists k :: i <= k < |contexts| && Eligible(contexts[k])
        && (forall j :: 0 <= j < k ==> !Eligible(contexts[j]))
        && r == WorldChoice(contexts[k].world, contexts[k].handle, LabelOf(contexts[k]))
    ensures (forall k :: i <= k < |contexts| ==> !Selected(contexts[k], handle)) && first.None? && (forall k :: i <= k < |contexts| ==> !Eligible(contexts[k])) ==>
      r == WorldChoice(None, handle, sceneText)
  {
    if i == |contexts| then
      match first
      case Some(f) => WorldChoice(contexts[f].world, contexts[f].handle, LabelOf(contexts[f]))
      case None => WorldChoice(None, handle, sceneText)
    else if Eligible(contexts[i]) then
      if contexts[i].handle == handle then WorldChoice(contexts[i].world, handle, sceneText)
      else ScanContexts(contexts, handle, sceneText, i + 1, if first.None? then Some(i) else first)
    else
      ScanContexts(contexts, handle, sceneText, i + 1, first)
  }

  /**
    The world to inspect. When an eligible context carries the selected
    handle, the first such context's world is returned and the selection is
    kept; otherwise the selection moves to the first eligible context; when
    there is none, the answer is null and the selection is kept.
   */
  function SelectWorld(contexts: seq<WorldContext>, handle: ContextHandle, sceneText: SceneLabel): (r: WorldChoice)
    ensures r.world.Some? ==> exists k :: 0 <= k < |contexts| && Eligible(contexts[k]) && contexts[k].world == r.world
    ensures (exists k :: 0 <= k < |contexts| && Selected(contexts[k], handle)) ==>
      exists k :: 0 <= k < |contexts| && Selected(contexts[k], handle)
        && (forall j :: 0 <= j < k ==> !Selected(contexts[j], handle))
        && r == WorldChoice(contexts[k].world, handle, sceneText)
    ensures (forall k :: 0 <= k < |contexts| ==> !Selected(contexts[k], handle)) && (exists k :: 0 <= k < |contexts| && Eligible(contexts[k])) ==>
      exists k :: 0 <= k < |contexts| && Eligible(contexts[k])
        && (forall j :: 0 <= j < k ==> !Eligible(contexts[j]))
        && r == WorldChoice(contexts[k].world, contexts[k].handle, LabelOf(contexts[k]))
    ensures (forall k :: 0 <= k < |contexts| ==> !Eligible(contexts[k])) ==> r == WorldChoice(None, handle, sceneText)
  {
    ScanContexts(contexts, handle, sceneText, 0, None)
  }

  /**
    The answer is null exactly when no context is eligible, provided every
    eligible context has a world.
   */
  lemma SelectWorldNullIffNoEligible(contexts: seq<WorldContext>, handle: ContextHandle, sceneText: SceneLabel)
    requires forall k :: 0 <= k < |contexts| && Eligible(contexts[k]) ==> contexts[k].world.Some?
    ensures SelectWorld(contexts, handle, sceneText).world.None? <==> forall k :: 0 <= k < |contexts| ==> !Eligible(contexts[k])
  {
    var r := SelectWorld(contexts, handle, sceneText);
    if exists k :: 0 <= k < |contexts| && Selected(contexts[k], handle) {
    } else if exists k :: 0 <= k < |contexts| && Eligible(contexts[k]) {
    }
  }

  /** Looking up again with the selection the lookup left behind gives the same answer and moves nothing. */
  lemma SelectWorldStable(contexts: seq<WorldContext>, handle: ContextHandle, sceneText: SceneLabel)
    ensures var r := SelectWorld(contexts, handle, sceneText);
      SelectWorld(contexts, r.handle, r.sceneText) == r
  {
    var r := SelectWorld(contexts, handle, sceneText);
    if exists k :: 0 <= k < |contexts| && Selected(contexts[k], handle) {
    } else if exists k :: 0 <= k < |contexts| && Eligible(contexts[k]) {
      var k :| 0 <= k < |contexts| && Eligible(contexts[k])
        && (forall j :: 0 <= j < k ==> !Eligible(contexts[j]))
        && r == WorldChoice(contexts[k].world, contexts[k].handle, LabelOf(contexts[k]));
      assert Selected(contexts[k], r.handle);
      var r2 := SelectWorld(contexts, r.handle, r.sceneText);
      var k2 :| 0 <= k2 < |contexts| && Selected(contexts[k2], r.handle)
        && (forall j :: 0 <= j < k2 ==> !Selected(contexts[j], r.handle))
        && r2 == WorldChoice(contexts[k2].world, r.handle, r.sceneText);
      assert k2 == k;
    }
  }
}
