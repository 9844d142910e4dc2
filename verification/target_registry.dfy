/**
  The target registry of the attach editor: one debug-target record per
  world, the candidate list of components in a world, and the cascade that
  decides which component is inspected.

  In the source the record list and the candidate list are process-wide
  globals; here they are values handed in and handed back.
 */
module TargetRegistry {
  import opened Engine

  /** The debug category names a record carries. */
  datatype Category = Attributes | GameplayEffects | Ability

  /**
    One debug-target record: its category list and current index, the world
    it belongs to (a weak pointer) and the last resolved target (a weak
    pointer).
   */
  datatype TargetInfo = TargetInfo(
    categories: seq<Category>,
    categoryIndex: int,
    targetWorld: Option<World>,
    lastTarget: Option<Comp>)

  /** A default-constructed record, bound to `world`. */
  function NewTargetInfo(world: Option<World>): TargetInfo
  {
    TargetInfo([Attributes, GameplayEffects, Ability], 0, world, None)
  }

  /** The refresh reads `categories[categoryIndex]`; every record keeps it in range. */
  predicate CategoryInRange(info: TargetInfo)
  {
    0 <= info.categoryIndex < |info.categories|
  }

  predicate RegistryWellFormed(registry: seq<TargetInfo>)
  {
    forall i :: 0 <= i < |registry| ==> CategoryInRange(registry[i])
  }

  /** A record answers a query for `world` when its weak world pointer resolves to it. */
  predicate Matches(env: Env, info: TargetInfo, world: Option<World>)
  {
    WeakWorld(env, info.targetWorld) == world
  }

  /** The first record at or after `i` that answers a query for `world`. */
  function FindFrom(env: Env, registry: seq<TargetInfo>, world: Option<World>, i: nat): (r: Option<nat>)
    requires i <= |registry|
    decreases |registry| - i
    ensures r.Some? ==> i <= r.value < |registry| && Matches(env, registry[r.value], world)
    ensures r.Some? ==> forall j :: i <= j < r.value ==> !Matches(env, registry[j], world)
    ensures r.None? <==> forall j :: i <= j < |registry| ==> !Matches(env, registry[j], world)
  {
    if i == |registry| then None
    else if Matches(env, registry[i], world) then Some(i)
    else FindFrom(env, registry, world, i + 1)
  }

  /** The registry after a lookup, and the index of the record the lookup returned. */
  datatype Lookup = Lookup(registry: seq<TargetInfo>, index: nat)

  /**
    Find-or-create: the first record that answers for `world`; when there is
    none, a default record for `world` is appended and returned.
   */
  function GetTargetInfo(env: Env, registry: seq<TargetInfo>, world: Option<World>): (r: Lookup)
    ensures r.index < |r.registry|
    ensures (exists j :: 0 <= j < |registry| && Matches(env, registry[j], world)) ==>
      && r.registry == registry
      && Matches(env, registry[r.index], world)
      && (forall j :: 0 <= j < r.index ==> !Matches(env, registry[j], world))
    ensures (forall j :: 0 <= j < |registry| ==> !Matches(env, registry[j], world)) ==>
      && |r.registry| == |registry| + 1
      && r.registry[..|registry|] == registry
      && r.index == |registry|
      && r.registry[r.index].targetWorld == world
      && r.registry[r.index].categories == [Attributes, GameplayEffects, Ability]
      && r.registry[r.index].categoryIndex == 0
      && r.registry[r.index].lastTarget == None
    ensures RegistryWellFormed(registry) ==> RegistryWellFormed(r.registry)
  {
    match FindFrom(env, registry, world, 0)
    case Some(i) => Lookup(registry, i)
    case None => Lookup(registry + [NewTargetInfo(world)], |registry|)
  }

  /**
    A second lookup for the same world neither grows the registry nor moves
    the index, provided the world is null or live (a dead world's fresh
    record never answers, so each lookup for it appends another). Updating
    the returned record in anything but its world does not change that.
   */
  lemma GetTargetInfoStable(env: Env, registry: seq<TargetInfo>, world: Option<World>, updated: TargetInfo)
    requires world.None? || world.value in env.liveWorlds
    ensures var r := GetTargetInfo(env, registry, world);
      updated.targetWorld == r.registry[r.index].targetWorld ==>
      GetTargetInfo(env, r.registry[r.index := updated], world) == Lookup(r.registry[r.index := updated], r.index)
  {
    var r := GetTargetInfo(env, registry, world);
    if updated.targetWorld == r.registry[r.index].targetWorld {
      var reg2 := r.registry[r.index := updated];
      assert Matches(env, reg2[r.index], world);
      assert forall j :: 0 <= j < r.index ==> !Matches(env, reg2[j], world) by {
        forall j | 0 <= j < r.index
          ensures !Matches(env, reg2[j], world)
        {
          assert reg2[j] == registry[j];
        }
      }
      var f := FindFrom(env, reg2, world, 0);
      assert f == Some(r.index);
    }
  }

  /** A component the rescan keeps for `world`: live, and its GetWorld() is `world`. */
  predicate InWorld(env: Env, c: Comp, world: World)
  {
    c in env.liveComps && c in env.worldOf && env.worldOf[c] == world
  }

  /** The filter of the object iteration, in iteration order. */
  function ScanObjects(env: Env, objects: seq<Comp>, world: World): (r: seq<Comp>)
    ensures forall c :: c in r <==> c in objects && InWorld(env, c, world)
    ensures |r| <= |objects|
  {
    if objects == [] then []
    else
      var rest := ScanObjects(env, objects[1..], world);
      if InWorld(env, objects[0], world) then [objects[0]] + rest else rest
  }

  /** Filtering distributes over concatenation: the rescan keeps iteration order. */
  lemma {:induction false} ScanObjectsAppend(env: Env, a: seq<Comp>, b: seq<Comp>, world: World)
    ensures ScanObjects(env, a + b, world) == ScanObjects(env, a, world) + ScanObjects(env, b, world)
  {
    if a == [] {
      assert a + b == b;
    } else {
      assert (a + b)[1..] == a[1..] + b;
      ScanObjectsAppend(env, a[1..], b, world);
    }
  }

  /**
    The rescan of the candidate list: empty for a null world, else exactly
    the live components of the world, in iteration order.
   */
  function Rescan(env: Env, world: Option<World>): (r: seq<Comp>)
    ensures world.None? ==> r == []
    ensures forall c :: c in r <==> world.Some? && c in env.objects && InWorld(env, c, world.value)
    ensures forall i :: 0 <= i < |r| ==> r[i] in env.liveComps
  {
    match world
    case None => []
    case Some(w) =>
      var r := ScanObjects(env, env.objects, w);
      assert forall i :: 0 <= i < |r| ==> InWorld(env, r[i], w);
      r
  }

  /** The record, the candidate list and the target after a resolution. */
  datatype Resolution = Resolution(info: TargetInfo, candidates: seq<Comp>, target: Option<Comp>)

  /** The last target is still live and is the one requested. */
  predicate FastPath(env: Env, info: TargetInfo, requested: Option<Comp>)
  {
    WeakComp(env, info.lastTarget).Some? && WeakComp(env, info.lastTarget) == requested
  }

  /** The requested component is a live entry of the candidate list. */
  predicate RequestedIsCandidate(env: Env, candidates: seq<Comp>, requested: Option<Comp>)
  {
    requested.Some? && requested.value in candidates && requested.value in env.liveComps
  }

  /**
    The resolution cascade: keep the last target when it is live and
    requested; else adopt the requested component when it is a live
    candidate; else adopt candidate 0, live or not; else, only when the list
    is empty, rescan the record's world and adopt its candidate 0 or null.
    The target is what the record's last-target pointer then resolves to.
   */
  function ResolveTarget(env: Env, info: TargetInfo, candidates: seq<Comp>, requested: Option<Comp>): (r: Resolution)
    ensures r.target.Some? ==> r.target.value in env.liveComps
    ensures r.target == WeakComp(env, r.info.lastTarget)
    ensures r.info == info.(lastTarget := r.info.lastTarget)
    ensures FastPath(env, info, requested) ==> r == Resolution(info, candidates, requested)
    ensures !FastPath(env, info, requested) && RequestedIsCandidate(env, candidates, requested) ==>
      r.target == requested && r.candidates == candidates
    ensures !FastPath(env, info, requested) && !RequestedIsCandidate(env, candidates, requested) && |candidates| > 0 ==>
      r.info.lastTarget == Some(candidates[0]) && r.candidates == candidates
    ensures !FastPath(env, info, requested) && !RequestedIsCandidate(env, candidates, requested) && |candidates| == 0 ==>
      && r.candidates == Rescan(env, WeakWorld(env, info.targetWorld))
      && (r.target.Some? <==> |r.candidates| > 0)
      && (|r.candidates| > 0 ==> r.target == Some(r.candidates[0]))
      && (|r.candidates| == 0 ==> r.info.lastTarget == None)
    ensures r.candidates != candidates ==> |candidates| == 0
  {
    if FastPath(env, info, requested) then
      Resolution(info, candidates, requested)
    else if RequestedIsCandidate(env, candidates, requested) then
      Adopt(env, info, candidates, requested)
    else if |candidates| > 0 then
      Adopt(env, info, candidates, Some(candidates[0]))
    else
      var rescanned := Rescan(env, WeakWorld(env, info.targetWorld));
      Adopt(env, info, rescanned, if |rescanned| > 0 then Some(rescanned[0]) else None)
  }

  /** Points the record's last target at `last`; the target is what that pointer resolves to. */
  function Adopt(env: Env, info: TargetInfo, candidates: seq<Comp>, last: Option<Comp>): (r: Resolution)
    ensures r.info.lastTarget == last && r.info.targetWorld == info.targetWorld && r.candidates == candidates
    ensures r.target.Some? <==> last.Some? && last.value in env.liveComps
    ensures r.target.Some? ==> r.target == last
  {
    Resolution(info.(lastTarget := last), candidates, WeakComp(env, last))
  }

  /** A dead candidate 0 yields null, and the list is not rescanned. */
  lemma DeadFirstCandidateYieldsNull(env: Env, info: TargetInfo, candidates: seq<Comp>, requested: Option<Comp>)
    requires !FastPath(env, info, requested) && !RequestedIsCandidate(env, candidates, requested)
    requires |candidates| > 0 && candidates[0] !in env.liveComps
    ensures ResolveTarget(env, info, candidates, requested).target == None
    ensures ResolveTarget(env, info, candidates, requested).candidates == candidates
  {
  }

  /**
    When the inspected component has died, the next resolution (whose
    request is the dead selection's null) falls back to candidate 0 when that
    one is live, not to null.
   */
  lemma ExpiredTargetFallsBack(env: Env, info: TargetInfo, candidates: seq<Comp>)
    requires info.lastTarget.Some? && info.lastTarget.value !in env.liveComps
    requires |candidates| > 0 && candidates[0] in env.liveComps
    ensures ResolveTarget(env, info, candidates, None).target == Some(candidates[0])
  {
  }

  /**
    Resolving again under the same engine state, with the same request or
    with the resolved target as request, changes nothing: the cascade has
    reached a fixpoint after one step.
   */
  lemma {:induction false} ResolveTargetFixpoint(env: Env, info: TargetInfo, candidates: seq<Comp>, requested: Option<Comp>)
    ensures var r := ResolveTarget(env, info, candidates, requested);
      r.target.Some? ==> ResolveTarget(env, r.info, r.candidates, r.target) == r
    ensures var r := ResolveTarget(env, info, candidates, requested);
      r.target.None? ==> ResolveTarget(env, r.info, r.candidates, requested) == r
  {
    var r := ResolveTarget(env, info, candidates, requested);
    if r.target.None? && !FastPath(env, info, requested) && !RequestedIsCandidate(env, candidates, requested) && |candidates| == 0 {
      assert r.candidates == [];
    }
  }
}
