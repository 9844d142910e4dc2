/**
  The slice of the host engine that the attach editor observes, reduced to
  opaque identities and a snapshot of the engine's state at one refresh.

  Every object the editor points at is owned by the engine and may be
  destroyed at any time; the editor holds them through weak pointers whose
  `Get()` yields null once the object is gone. Here an object is an id, a
  weak pointer is an `Option` of an id, and `Get()` is `WeakComp` or
  `WeakWorld`, which consult the liveness sets of the snapshot.
 */
module Engine {

  /** A nullable reference: `None` is `nullptr`. */
  datatype Option<+T> = None | Some(value: T)

  /** An ability-system component (UAbilitySystemComponent), by identity. */
  datatype Comp = Comp(id: nat)

  /** A running world (UWorld), by identity. */
  datatype World = World(id: nat)

  /** The FName handle of a world context; `NameNone` is the empty name. */
  datatype ContextHandle = NameNone | ContextName(name: nat)

  /** A gameplay tag. */
  datatype Tag = Tag(id: nat)

  /** The ability class an ability spec refers to. */
  datatype AbilityId = AbilityId(id: nat)

  /** One reflected attribute field of an attribute set. */
  datatype AttributeId = AttributeId(id: nat)

  /** The engine's world types; only PIE and Game contexts are inspected. */
  datatype WorldType = NoWorldType | Game | Editor | PIE | EditorPreview | GamePreview | GameRPC | Inactive

  /** A world context as listed by the engine, in the engine's order. */
  datatype WorldContext = WorldContext(
    handle: ContextHandle,
    worldType: WorldType,
    world: Option<World>,
    runAsDedicated: bool,
    pieInstance: int)

  /**
    One activatable ability spec. `ability` is null when the spec has no
    ability class; `mode` is the activation-state flag set the ability node
    derives from the spec (the node type is not part of this model, so the
    flags are taken as given).
   */
  datatype AbilitySpec = AbilitySpec(ability: Option<AbilityId>, mode: bv8)

  /** An attribute set: null, or the fields reflection enumerates on it, in order. */
  type AttributeSet = Option<seq<AttributeId>>

  /**
    What the engine answers during one refresh.
    - `objects`: the component object iterator, in iteration order;
    - `liveComps`, `liveWorlds`: the objects whose weak pointers still resolve;
    - `worldOf`: a component's GetWorld(), absent when it has none;
    - `contexts`: the engine's world-context list;
    - the remaining fields are the read-only queries on a component.
   */
  datatype Env = Env(
    objects: seq<Comp>,
    liveComps: set<Comp>,
    worldOf: map<Comp, World>,
    liveWorlds: set<World>,
    contexts: seq<WorldContext>,
    ownedTags: Comp -> seq<Tag>,
    blockedTags: Comp -> seq<Tag>,
    abilities: Comp -> seq<AbilitySpec>,
    attributeSets: Comp -> seq<AttributeSet>)

  /** `TWeakObjectPtr<UAbilitySystemComponent>::Get()`. */
  function WeakComp(env: Env, p: Option<Comp>): Option<Comp>
  {
    if p.Some? && p.value in env.liveComps then p else None
  }

  /** `TWeakObjectPtr<UWorld>::Get()`. */
  function WeakWorld(env: Env, p: Option<World>): Option<World>
  {
    if p.Some? && p.value in env.liveWorlds then p else None
  }

  /**
    The engine keeps the worlds of its own contexts alive: a context's world
    is null or live. Every property that relates two consecutive refreshes
    assumes this of the snapshot.
   */
  predicate ContextsLive(env: Env)
  {
    forall i :: 0 <= i < |env.contexts| && env.contexts[i].world.Some? ==>
      env.contexts[i].world.value in env.liveWorlds
  }
}
