# GASAttachEditor: target selection and view synchronisation

This project models the refresh logic of the GAS attach editor, an editor panel that inspects
one ability-system component of a running game world. It covers the following pieces:

- **World selection.** The panel picks a PIE or Game world context. It keeps the selected
  context handle if that context is still listed, and otherwise moves to the first eligible
  context (`WorldSelection`).
- **Debug-target registry.** Each world has one debug record, found or created on lookup
  (`TargetRegistry.GetTargetInfo`).
- **Candidate rescan.** The candidate list holds the live components of the selected world
  (`TargetRegistry.Rescan`).
- **Resolution cascade.** This decides which component is inspected
  (`TargetRegistry.ResolveTarget`).
- **Refresh.** The ability list is rebuilt with per-node visibility. The attribute list is
  rebuilt. The owned and blocked tag badges are diffed against cached copies
  (`AttachEditor.Refresh`, `AbilityView`, `AttributeView`, `TagView.SyncTags`).
- **Activation-state filter.** A `uint8` bit mask that three check boxes update
  (`ScreenFilter`).
- **Tag-count updates.** Editing the owned tags sends these to the component
  (`TagView.RefreshTagList`).

The engine is treated as abstract input:

- Components, worlds, world contexts, tags, abilities and attribute fields are opaque ids.
- A weak pointer is an `Option` of an id. Its `Get()` is `Engine.WeakComp` or
  `Engine.WeakWorld`, which consult the liveness sets of an `Engine.Env` snapshot.
- The snapshot also carries the object-iteration order, each component's world, the world
  context list, and each component's tags, ability specs and attribute sets.

The source keeps two process-wide globals: the debug-record list and the candidate list.
Here they are fields of the `AttachEditor.Panel` value, which every operation takes and returns.

The model keeps these behaviours of the code:

- Every refresh clears the ability and attribute roots before resolving, so both lists are
  empty after a refresh that resolves nothing.
- A dead candidate 0 is adopted as the last target. The refresh then yields null without a
  rescan. A rescan happens only when the candidate list is empty.
- The blocked-tag cache is never assigned. It stays empty, so the blocked badges are rebuilt
  whenever the blocked set is non-empty. They are never cleared once the set becomes empty.
- A registry record whose world has died answers a lookup for a null world, because the
  lookup compares the record's resolved weak pointer. A lookup for a dead world appends a new
  record every time, because the new record's pointer does not resolve either.

## Model

| member | source | states |
|---|---|---|
| TargetRegistry.GetTargetInfo | Source/GASAttachEditor/Private/SGASAttachEditor.cpp:26-60 | When a record answers for the world, the registry is returned unchanged, at the first answering record. Otherwise exactly one record is appended after the untouched existing ones. It is bound to the world, has categories [Attributes, GameplayEffects, Ability], index 0 and no last target. The category index stays in range. |
| TargetRegistry.FindFrom | Source/GASAttachEditor/Private/SGASAttachEditor.cpp:46-53 | The scan returns the first record at or after the start that answers for the world. It returns none exactly when no record from there on answers. |
| TargetRegistry.GetTargetInfoStable | Source/GASAttachEditor/Private/SGASAttachEditor.cpp:43-60 | For a null or live world, a repeated lookup does not grow the registry or move the index, even after the returned record's last target was updated. |
| TargetRegistry.ScanObjects | Source/GASAttachEditor/Private/SGASAttachEditor.cpp:73-87 | The filtered list holds exactly the iterated components that are live and whose world is the given world. |
| TargetRegistry.ScanObjectsAppend | Source/GASAttachEditor/Private/SGASAttachEditor.cpp:73-87 | The filter distributes over concatenation of the iteration, so the candidates keep iteration order. |
| TargetRegistry.Rescan | Source/GASAttachEditor/Private/SGASAttachEditor.cpp:64-88 | A null world gives an empty list. Otherwise the list holds exactly the world's live components, and each entry is live. |
| TargetRegistry.ResolveTarget | Source/GASAttachEditor/Private/SGASAttachEditor.cpp:90-139 | Fast path: a live last target equal to the request is kept and nothing changes. Otherwise a live requested candidate is adopted. Otherwise candidate 0 is adopted, live or not. Otherwise, only for an empty list, the record's world is rescanned, and its candidate 0 is adopted, or the last target is set to null when the rescan is empty. The target is null or live, equals what the record's last-target pointer resolves to, and nothing else in the record changes. |
| TargetRegistry.Adopt | Source/GASAttachEditor/Private/SGASAttachEditor.cpp:113-139 | Adopting points the record's last target at the given component and leaves its world and the candidate list alone. The target is that component exactly when it is live, and null otherwise. |
| TargetRegistry.DeadFirstCandidateYieldsNull | Source/GASAttachEditor/Private/SGASAttachEditor.cpp:119-122 | A dead candidate 0 yields a null target, and the candidate list is not rescanned. |
| TargetRegistry.ExpiredTargetFallsBack | Source/GASAttachEditor/Private/SGASAttachEditor.cpp:92-98 | When the last target has died and the request is null, a live candidate 0 is inspected rather than null. |
| TargetRegistry.ResolveTargetFixpoint | Source/GASAttachEditor/Private/SGASAttachEditor.cpp:90-139 | Resolving again under the same engine state changes nothing. This holds with the resolved target as the request, or with the same request when nothing resolved. |
| WorldSelection.ScanContexts | Source/GASAttachEditor/Private/SGASAttachEditor.cpp:952-978 | The loop returns the world of the first eligible context whose handle is selected. If there is none, it falls back to the first eligible context and moves the selection and label there. It returns null when no context is eligible. |
| WorldSelection.SelectWorld | Source/GASAttachEditor/Private/SGASAttachEditor.cpp:943-982 | Only PIE or Game contexts are chosen. A selected handle among them keeps the selection and returns its world. Otherwise the selection moves to the first eligible context: the dedicated-server label if it runs as dedicated, else the client label with its PIE instance. With no eligible context the result is null and the selection is unchanged. |
| WorldSelection.SelectWorldNullIffNoEligible | Source/GASAttachEditor/Private/SGASAttachEditor.cpp:943-982 | When every eligible context has a world, the selected world is null exactly when no context is PIE or Game. |
| WorldSelection.SelectWorldStable | Source/GASAttachEditor/Private/SGASAttachEditor.cpp:959-979 | A second selection starting from the handle and label the first one left gives the same answer. |
| ScreenFilter.UpdateMask | Source/GASAttachEditor/Private/SGASAttachEditor.cpp:1135-1149 | No bit outside the flag changes. Checked sets the flag. Undetermined leaves the mask alone. Unchecked inverts a single-bit flag: it clears a set bit and sets a clear one. |
| ScreenFilter.CheckBoxFor | Source/GASAttachEditor/Private/SGASAttachEditor.cpp:1157-1160 | A box is never undetermined. It shows checked exactly when the mask shares a bit with the flag. |
| ScreenFilter.InitialMaskChecksEveryState | Source/GASAttachEditor/Private/SGASAttachEditor.cpp:365 | The initial mask has the three state bits and nothing else, so every box starts checked. |
| ScreenFilter.CheckIdempotent | Source/GASAttachEditor/Private/SGASAttachEditor.cpp:1141-1143 | Checking twice is checking once. |
| ScreenFilter.UncheckClearFlagSetsIt | Source/GASAttachEditor/Private/SGASAttachEditor.cpp:1138-1140 | Unchecking a clear flag sets it, so the box shows checked. Two unchecks restore the mask. |
| ScreenFilter.CheckThenUncheckRestores | Source/GASAttachEditor/Private/SGASAttachEditor.cpp:1137-1143 | Checking then unchecking restores the mask exactly when the flag was clear at the start. |
| ScreenFilter.ClickTogglesFlag | Source/GASAttachEditor/Private/SGASAttachEditor.cpp:1135-1160 | A click reports the opposite of what the box shows. It flips exactly the clicked flag, and two clicks restore the mask. |
| AbilityView.BuildAbilityNodes | Source/GASAttachEditor/Private/SGASAttachEditor.cpp:775-786 | Every node is visible exactly when its flags share a bit with the mask. Every node comes from a spec. Every spec with a non-null ability has its node. |
| AbilityView.BuildAbilityNodesSpecs | Source/GASAttachEditor/Private/SGASAttachEditor.cpp:777-784 | Reading the specs back off the list gives exactly the specs with a non-null ability, in order. |
| AbilityView.Revisit | Source/GASAttachEditor/Private/SGASAttachEditor.cpp:1151-1154 | The visibility pass keeps every node's ability and flags, and makes every visibility agree with the new mask. |
| AbilityView.RevisitIsRebuild | Source/GASAttachEditor/Private/SGASAttachEditor.cpp:1151-1154 | Recomputing visibility after a mask change gives the same list as rebuilding under the new mask. |
| AbilityView.SpecsOfRevisit | Source/GASAttachEditor/Private/SGASAttachEditor.cpp:1151-1154 | The visibility pass keeps the list's specs. |
| AbilityView.ChangeFilter | Source/GASAttachEditor/Private/SGASAttachEditor.cpp:1135-1155 | A check-box report updates the mask, keeps the list's specs, and leaves every node's visibility consistent with the new mask. |
| AttributeView.BuildAttributeNodes | Source/GASAttachEditor/Private/SGASAttachEditor.cpp:792-810 | The list has a node for an attribute exactly when some non-null attribute set declares that field. |
| AttributeView.FieldNodes | Source/GASAttachEditor/Private/SGASAttachEditor.cpp:801-808 | One node per field of a set, in field order. |
| AttributeView.BuildAttributeNodesAppend | Source/GASAttachEditor/Private/SGASAttachEditor.cpp:794-809 | Sets contribute their nodes in set order: the list of a concatenation is the concatenation of the lists. |
| TagView.AddTag | Source/GASAttachEditor/Private/SGASAttachEditor.cpp:745 | Adding a tag yields the container's tags plus that tag, grows the container by at most one, and keeps a distinct container distinct. |
| TagView.Items | Source/GASAttachEditor/Private/SGASAttachEditor.cpp:740-744 | One badge per tag, in order, each for the inspected component. |
| TagView.AddTags | Source/GASAttachEditor/Private/SGASAttachEditor.cpp:740-747 | Adding tags one by one yields the union of the tag sets, and keeps a distinct container distinct. |
| TagView.AddTagsDistinct | Source/GASAttachEditor/Private/SGASAttachEditor.cpp:740-747 | Adding distinct new tags appends them in order. |
| TagView.Deltas | Source/GASAttachEditor/Private/SGASAttachEditor.cpp:1102-1130 | The updates are exactly one per tag of the first container that the second lacks, each with the given delta. |
| TagView.SyncTags | Source/GASAttachEditor/Private/SGASAttachEditor.cpp:729-768 | The owned badges, cache and editable container are rebuilt from the current owned tags exactly when the tag set differs from the cache, and are otherwise kept. The blocked badges and container are rebuilt exactly when the blocked set differs from the blocked cache. The blocked cache is never changed. Afterwards the owned cache agrees with the current tags. |
| TagView.SyncTagsMirrorsDistinct | Source/GASAttachEditor/Private/SGASAttachEditor.cpp:740-765 | For distinct tag sets, a rebuilt editable container equals the current tags. |
| TagView.SyncTagsIdempotent | Source/GASAttachEditor/Private/SGASAttachEditor.cpp:733-736 | A second tag step with unchanged tags changes nothing and rebuilds no owned badge. |
| TagView.ItemsTags | Source/GASAttachEditor/Private/SGASAttachEditor.cpp:740-745 | The badges built for a tag list show exactly that list. |
| TagView.SyncTagsKeepsBadges | Source/GASAttachEditor/Private/SGASAttachEditor.cpp:733-748 | The owned badges keep showing the owned cache, and after the step they show the current owned tag set. |
| TagView.SyncAllKeepsBlockedCache | Source/GASAttachEditor/Private/SGASAttachEditor.cpp:751-766 | No number of refreshes assigns the blocked cache. |
| TagView.BlockedRebuildsWhenNonEmpty | Source/GASAttachEditor/Private/SGASAttachEditor.cpp:751-766 | From the initial panel, after any refreshes, the blocked badges are rebuilt exactly when the blocked set is non-empty. |
| TagView.BlockedStepAgainstEmptyCache | Source/GASAttachEditor/Private/SGASAttachEditor.cpp:751-766 | Against the never-assigned empty blocked cache, one tag step rebuilds the blocked badges for a non-empty blocked set and keeps them for an empty one, and the cache stays empty. |
| TagView.StaleBlockedBadges | Source/GASAttachEditor/Private/SGASAttachEditor.cpp:751-766 | From any tag state whose blocked cache is still empty, a refresh reading a non-empty blocked set followed by one reading an empty set leaves the blocked badges showing the earlier set: they are never cleared. |
| TagView.RefreshTagList | Source/GASAttachEditor/Private/SGASAttachEditor.cpp:1089-1133 | With a dead target nothing happens. For the owned list: a +1 update for exactly each tag gained since the picker opened, and a -1 update for exactly each tag lost. The blocked list sends nothing. The opening snapshot becomes the edited container. |
| TagView.RefreshTagListDisjoint | Source/GASAttachEditor/Private/SGASAttachEditor.cpp:1102-1131 | No tag is counted both up and down in one edit. |
| TagView.RefreshTagListTwice | Source/GASAttachEditor/Private/SGASAttachEditor.cpp:1132 | Right after an edit is applied, the same call again sends no updates and changes nothing. |
| TagView.DeltasSelf | Source/GASAttachEditor/Private/SGASAttachEditor.cpp:1102-1131 | A container compared with itself yields no updates. |
| TagView.DeltasCovered | Source/GASAttachEditor/Private/SGASAttachEditor.cpp:1102-1131 | When every tag of the first container is in the second, there are no updates. |
| TagView.NetAppend | Source/GASAttachEditor/Private/SGASAttachEditor.cpp:1102-1131 | The net count change of two update runs is the sum of their net changes. |
| TagView.NetDeltas | Source/GASAttachEditor/Private/SGASAttachEditor.cpp:1102-1131 | In a distinct container each missing tag is reported once, so its net change is the delta, and zero for any other tag. |
| TagView.RefreshTagListNet | Source/GASAttachEditor/Private/SGASAttachEditor.cpp:1089-1133 | For distinct containers, an owned-tag edit changes each tag's count by its presence in the edited container minus its presence in the opening snapshot. |
| AttachEditor.ResolveStep | Source/GASAttachEditor/Private/SGASAttachEditor.cpp:714-726 | The first half of a refresh clears both tree roots and selects the world. It finds or creates that world's record, and runs the cascade on it with the current candidates and the selection's resolved pointer as request. The registry, candidates, record index and target are those of the lookup and cascade. The target is null or live. The registry stays well formed, and the widget flags, mask, tags and selection are kept. |
| AttachEditor.Refresh | Source/GASAttachEditor/Private/SGASAttachEditor.cpp:714-815 | With no target, both roots stay empty and the tags and selection are untouched. With a target, it becomes the selection. The tag view, when present, takes the tag step on the target's owned and blocked tags. An existing ability tree is rebuilt from the target's specs under the current mask, and an existing attribute tree from its attribute sets. Missing widgets keep their views empty or untouched. Ability visibility agrees with the mask. The blocked cache is never assigned. The candidate list changes only when it was empty. |
| AttachEditor.RefreshKeepsValid | Source/GASAttachEditor/Private/SGASAttachEditor.cpp:714-815 | A refresh keeps the registry well formed, the ability visibility consistent, and the owned badges in step with the owned cache. |
| AttachEditor.RefreshRebuildsLists | Source/GASAttachEditor/Private/SGASAttachEditor.cpp:773-812 | With a target resolved, an existing ability tree holds exactly the target's specs with a non-null ability, in order. An existing attribute tree has a node for an attribute exactly when one of the target's non-null sets declares it. |
| AttachEditor.RefreshKeepsLiveSelection | Source/GASAttachEditor/Private/SGASAttachEditor.cpp:90-113 | A selection that is still live and a candidate stays selected, whatever the record last resolved. |
| AttachEditor.RefreshButton | Source/GASAttachEditor/Private/SGASAttachEditor.cpp:817-824 | The button selects the world, rescans its candidates, and then runs the full refresh on the panel carrying the selected handle, label and rescanned candidates; the result is exactly that refresh. Whenever the rescan finds a component, the panel's candidates are the rescanned ones. It keeps the mask and the blocked cache, leaves ability visibility consistent, and keeps a valid panel valid. |
| AttachEditor.RefreshButtonFindsTarget | Source/GASAttachEditor/Private/SGASAttachEditor.cpp:817-824 | After the button, a live component is inspected whenever the selected world has a live component. |
| AttachEditor.OnScreenModeChanged | Source/GASAttachEditor/Private/SGASAttachEditor.cpp:1135-1155 | A filter report updates the mask as the mask update states and recomputes visibility over the same nodes. Nothing else in the panel changes. |
| AttachEditor.InitialPanel | Source/GASAttachEditor/Private/SGASAttachEditor.cpp:358-365 | The constructed editor has the initial mask, so every filter box shows checked, and empty tag state. It has only the ability tree, inspects nothing, and is valid exactly when the debug records are. |
| AttachEditor.ConstructedPanelValid | Source/GASAttachEditor/Private/SGASAttachEditor.cpp:358-482 | Construction ends with the refresh button on the initial panel, and that panel is valid whenever the debug records are. |
| AttachEditor.SelectedWorldLive | Source/GASAttachEditor/Private/SGASAttachEditor.cpp:943-982 | When the engine keeps its contexts' worlds alive, the selected world is null or live. |
| AttachEditor.ResolveStepAfterRefresh | Source/GASAttachEditor/Private/SGASAttachEditor.cpp:714-726 | When every world context's world is null or live, a second refresh resolves the same target and finds the panel the first one left. |
| AttachEditor.RefreshIdempotent | Source/GASAttachEditor/Private/SGASAttachEditor.cpp:714-815 | Two refreshes under the same engine state leave the panel as one does: the second rebuilds no owned-tag badge. |

## Left out

- `AttachEditor.Valid`: choosing the tag category again creates fresh, empty badge views while the owned cache keeps its value, so in the editor the owned badges stay empty until the owned set changes. The model has no category switch, and its invariant that the owned badges show the owned cache holds only because of that.
- `AttachEditor.InitialPanel`: the settings `LoadSettings` reads at construction are not modelled. The tag view exists only once the tag category is chosen, so it starts absent.
- Slate widget construction, menus, tooltips, header rows, styling and localisation text: presentation only. Scene labels are kept as a datatype rather than formatted text.
- `SaveSettings` and `LoadSettings`: config-file I/O.
- Key handling, the input preprocessor, picking mode and `Tick`: engine input and frame plumbing.
- `HandleOverrideTypeChange`, `HandleShowWorldTypeChange`, `GetOverrideTypeDropDownText_Explicit` and the category name and text switches: menu actions and display strings. The refresh's read of the record's current category name has no effect on the lists, so only its range is kept as a record invariant.
- `OnMouseButtonUpTags`, which snapshots the editable container when the tag picker opens: picker plumbing. The snapshot is the `ownedEditBefore` and `blockedEditBefore` field.
- Engine object iteration, `GetWorld()` on components, `GetActivatableAbilities`, `GetSpawnedAttributes`, the tag queries and `UpdateTagMap`: inputs carried by `Engine.Env`, and outputs returned as a list of updates.
- Attribute reflection: each attribute set arrives as its list of fields. Attribute values are floats and are not modelled.
- The ability-node type: a node's activation-state flags are taken from its spec as given, because the node's source file is not part of this model.
- `ScreenFilter.UpdateMask`: the flag values come from a header that is not part of this model. Active, Blocked and NoActive are taken as 1, 2 and 4, and the properties are stated for any single-bit flag.
- `TagView.SyncTags`: container comparison is modelled as equality of the exact tag sets. Repeated tags in one container are not distinguished.
- `TagView.Deltas`: membership is exact. The engine's `HasTag` also matches parent tags: a snapshot holding `A.1` already "has" `A`, so adding `A` sends no update there. Here it sends +1.
- `TagView.RefreshTagList`: it inherits the exact membership of `TagView.Deltas`. Updates that `HasTag`'s parent-tag matching suppresses are sent here.
- `TagView.RefreshTagListNet`: stated with exact membership, so it holds for `HasTag` only when neither container holds a parent of a tag of the other. It also requires both containers to be free of repeated tags, which the engine's containers guarantee.
- `AttachEditor.ResolveStepAfterRefresh`: stated only for snapshots whose world contexts reference live worlds. A lookup for a dead world appends a new record on every call, so the second refresh would see a longer registry.
- `AttachEditor.RefreshIdempotent`: stated only for snapshots whose world contexts reference live worlds. A lookup for a dead world appends a new record on every call.
- Concurrency: the editor runs on one thread, and the engine snapshot is fixed for one call.
