/**
  The tag part of the editor: two badge lists (owned tags and blocked
  tags) that are rebuilt only when the component's tag set differs from a
  cached copy, and the count updates sent to the component when the user
  edits the owned tags through the tag picker.
 */
module TagView {
  import opened Engine

  /** A gameplay tag container, in iteration order. */
  type TagContainer = seq<Tag>

  function TagSet(c: TagContainer): set<Tag>
  {
    set t | t in c
  }

  /** Container equality: the same tags, in any order. */
  predicate SameTags(a: TagContainer, b: TagContainer)
  {
    TagSet(a) == TagSet(b)
  }

  /** A container holds each tag at most once. */
  predicate Distinct(c: TagContainer)
  {
    forall i, j :: 0 <= i < j < |c| ==> c[i] != c[j]
  }

  /** `AddTag`: appends a tag the container does not hold yet. */
  function AddTag(c: TagContainer, t: Tag): (r: TagContainer)
    ensures TagSet(r) == TagSet(c) + {t}
    ensures Distinct(c) ==> Distinct(r)
    ensures |r| <= |c| + 1
  {
    if t in c then c else c + [t]
  }

  /** `AddTag` of each of `tags` in turn. */
  function AddTags(c: TagContainer, tags: seq<Tag>): (r: TagContainer)
    decreases |tags|
    ensures TagSet(r) == TagSet(c) + TagSet(tags)
    ensures Distinct(c) ==> Distinct(r)
  {
    if tags == [] then c
    else
      assert TagSet(tags) == {tags[0]} + TagSet(tags[1..]);
      AddTags(AddTag(c, tags[0]), tags[1..])
  }

  /** Adding distinct new tags one by one to a container appends them in order. */
  lemma {:induction false} AddTagsDistinct(c: TagContainer, tags: seq<Tag>)
    requires Distinct(c + tags)
    ensures AddTags(c, tags) == c + tags
    decreases |tags|
  {
    if tags != [] {
      forall i | 0 <= i < |c|
        ensures c[i] != tags[0]
      {
        assert c[i] == (c + tags)[i] && tags[0] == (c + tags)[|c|];
      }
      assert c + tags == (c + [tags[0]]) + tags[1..];
      AddTagsDistinct(c + [tags[0]], tags[1..]);
    }
  }

  /** One badge: the tag and the component it was created for. */
  datatype TagItem = TagItem(owner: Comp, tag: Tag)

  /** The badges made for `tags`, one per tag, in order. */
  function Items(owner: Comp, tags: seq<Tag>): (r: seq<TagItem>)
    ensures |r| == |tags|
    ensures forall i :: 0 <= i < |r| ==> r[i] == TagItem(owner, tags[i])
  {
    if tags == [] then [] else [TagItem(owner, tags[0])] + Items(owner, tags[1..])
  }

  /** The tags a badge list shows. */
  function TagsOf(items: seq<TagItem>): (r: seq<Tag>)
    ensures |r| == |items|
    ensures forall i :: 0 <= i < |r| ==> r[i] == items[i].tag
  {
    if items == [] then [] else [items[0].tag] + TagsOf(items[1..])
  }

  /**
    The tag state of the editor.
    - `ownedItems`, `blockedItems`: the two badge lists;
    - `ownedCache`, `blockedCache`: the copies the refresh compares against;
    - `ownedEdit`, `blockedEdit`: the containers the tag picker edits;
    - `ownedEditBefore`, `blockedEditBefore`: their contents when the picker opened.
   */
  datatype TagPanel = TagPanel(
    ownedItems: seq<TagItem>,
    blockedItems: seq<TagItem>,
    ownedCache: TagContainer,
    blockedCache: TagContainer,
    ownedEdit: TagContainer,
    blockedEdit: TagContainer,
    ownedEditBefore: TagContainer,
    blockedEditBefore: TagContainer)

  /** Everything empty, as the editor is constructed. */
  const InitialTagPanel := TagPanel([], [], [], [], [], [], [], [])

  /** A refresh that reads `owned` rebuilds the owned badges. */
  predicate OwnedRebuilds(tp: TagPanel, owned: TagContainer)
  {
    !SameTags(tp.ownedCache, owned)
  }

  /** A refresh that reads `blocked` rebuilds the blocked badges. */
  predicate BlockedRebuilds(tp: TagPanel, blocked: TagContainer)
  {
    !SameTags(tp.blockedCache, blocked)
  }

  /**
    The tag step of a refresh for component `owner` whose owned and blocked
    tags are `owned` and `blocked`. Each badge list, and the container the
    picker edits, is rebuilt from the current tags when they differ from
    the cache, and left alone otherwise. The owned cache is then set to the
    current tags; the blocked cache is never assigned.
   */
  function SyncTags(tp: TagPanel, owner: Comp, owned: TagContainer, blocked: TagContainer): (r: TagPanel)
    ensures OwnedRebuilds(tp, owned) ==>
      r.ownedItems == Items(owner, owned) && r.ownedCache == owned && TagSet(r.ownedEdit) == TagSet(owned)
    ensures !OwnedRebuilds(tp, owned) ==>
      r.ownedItems == tp.ownedItems && r.ownedCache == tp.ownedCache && r.ownedEdit == tp.ownedEdit
    ensures BlockedRebuilds(tp, blocked) ==>
      r.blockedItems == Items(owner, blocked) && TagSet(r.blockedEdit) == TagSet(blocked)
    ensures !BlockedRebuilds(tp, blocked) ==>
      r.blockedItems == tp.blockedItems && r.blockedEdit == tp.blockedEdit
    ensures r.blockedCache == tp.blockedCache
    ensures r.ownedEditBefore == tp.ownedEditBefore && r.blockedEditBefore == tp.blockedEditBefore
    ensures !OwnedRebuilds(r, owned)
  {
    var tp1 :=
      if OwnedRebuilds(tp, owned) then
        tp.(ownedCache := owned, ownedItems := Items(owner, owned), ownedEdit := AddTags([], owned))
      else tp;
    if BlockedRebuilds(tp1, blocked) then
      tp1.(blockedItems := Items(owner, blocked), blockedEdit := AddTags([], blocked))
    else tp1
  }

  /** The editable container mirrors the current tags exactly when these are distinct. */
  lemma SyncTagsMirrorsDistinct(tp: TagPanel, owner: Comp, owned: TagContainer, blocked: TagContainer)
    requires Distinct(owned) && Distinct(blocked)
    ensures var r := SyncTags(tp, owner, owned, blocked);
      && (OwnedRebuilds(tp, owned) ==> r.ownedEdit == owned)
      && (BlockedRebuilds(tp, blocked) ==> r.blockedEdit == blocked)
  {
    assert [] + owned == owned;
    assert [] + blocked == blocked;
    AddTagsDistinct([], owned);
    AddTagsDistinct([], blocked);
  }

  /** A second tag step with unchanged tags changes nothing and rebuilds no owned badge. */
  lemma SyncTagsIdempotent(tp: TagPanel, owner: Comp, owned: TagContainer, blocked: TagContainer)
    ensures var r := SyncTags(tp, owner, owned, blocked);
      !OwnedRebuilds(r, owned) && SyncTags(r, owner, owned, blocked) == r
  {
  }

  /** The owned badges show the owned cache. */
  predicate BadgesShowCache(tp: TagPanel)
  {
    TagsOf(tp.ownedItems) == tp.ownedCache
  }

  lemma {:induction false} ItemsTags(owner: Comp, tags: seq<Tag>)
    ensures TagsOf(Items(owner, tags)) == tags
  {
  }

  /** The tag step keeps the owned badges in step with the owned cache. */
  lemma SyncTagsKeepsBadges(tp: TagPanel, owner: Comp, owned: TagContainer, blocked: TagContainer)
    requires BadgesShowCache(tp)
    ensures BadgesShowCache(SyncTags(tp, owner, owned, blocked))
    ensures SameTags(TagsOf(SyncTags(tp, owner, owned, blocked).ownedItems), owned)
  {
    ItemsTags(owner, owned);
  }

  /** The tag steps of successive refreshes: one (owner, owned, blocked) reading per refresh. */
  function SyncAll(tp: TagPanel, readings: seq<(Comp, TagContainer, TagContainer)>): TagPanel
    decreases |readings|
  {
    if readings == [] then tp
    else SyncAll(SyncTags(tp, readings[0].0, readings[0].1, readings[0].2), readings[1..])
  }

  /**
    Because the blocked cache keeps its initial empty value, after any
    number of refreshes a refresh rebuilds the blocked badges exactly when
    the blocked set is not empty.
   */
  lemma {:induction false} BlockedRebuildsWhenNonEmpty(readings: seq<(Comp, TagContainer, TagContainer)>, blocked: TagContainer)
    ensures SyncAll(InitialTagPanel, readings).blockedCache == []
    ensures BlockedRebuilds(SyncAll(InitialTagPanel, readings), blocked) <==> |blocked| > 0
  {
    SyncAllKeepsBlockedCache(InitialTagPanel, readings);
    if |blocked| > 0 {
      assert blocked[0] in TagSet(blocked);
    }
  }

  lemma {:induction false} SyncAllKeepsBlockedCache(tp: TagPanel, readings: seq<(Comp, TagContainer, TagContainer)>)
    ensures SyncAll(tp, readings).blockedCache == tp.blockedCache
    decreases |readings|
  {
    if readings != [] {
      SyncAllKeepsBlockedCache(SyncTags(tp, readings[0].0, readings[0].1, readings[0].2), readings[1..]);
    }
  }

  /**
    A consequence of the unassigned blocked cache: once the blocked set
    becomes empty, the blocked badges are not cleared and keep showing the
    tags of the last non-empty set.
   */
  lemma StaleBlockedBadges(tp: TagPanel, o1: Comp, owned1: TagContainer, blocked: TagContainer, o2: Comp, owned2: TagContainer)
    requires tp.blockedCache == [] && |blocked| > 0
    ensures SyncAll(tp, [(o1, owned1, blocked), (o2, owned2, [])]).blockedItems == Items(o1, blocked)
  {
    var readings := [(o1, owned1, blocked), (o2, owned2, [])];
    var tp1 := SyncTags(tp, o1, owned1, blocked);
    BlockedStepAgainstEmptyCache(tp, o1, owned1, blocked);
    BlockedStepAgainstEmptyCache(tp1, o2, owned2, []);
    assert SyncAll(tp, readings) == SyncAll(tp1, readings[1..]);
    assert readings[1..] == [(o2, owned2, [])];
  }

  /** Against an empty blocked cache, the blocked badges are rebuilt for a non-empty set and kept for an empty one. */
  lemma BlockedStepAgainstEmptyCache(tp: TagPanel, owner: Comp, owned: TagContainer, blocked: TagContainer)
    requires tp.blockedCache == []
    ensures SyncTags(tp, owner, owned, blocked).blockedCache == []
    ensures |blocked| > 0 ==> SyncTags(tp, owner, owned, blocked).blockedItems == Items(owner, blocked)
    ensures blocked == [] ==> SyncTags(tp, owner, owned, blocked).blockedItems == tp.blockedItems
  {
    if |blocked| > 0 {
      assert blocked[0] in TagSet(blocked);
    }
  }

  /** The two tag lists the picker can edit. */
  datatype TagList = OwnTags | BlaTags

  /** One `UpdateTagMap` call on the component: add `delta` to the count of `tag`. */
  datatype TagUpdate = TagUpdate(tag: Tag, delta: int)

  /** The updates sent to the component and the tag state after an edit. */
  datatype TagEdit = TagEdit(updates: seq<TagUpdate>, panel: TagPanel)

  /** A `delta` update for each tag of `from` that `other` lacks, in order. */
  function Deltas(from: TagContainer, other: TagContainer, delta: int): (r: seq<TagUpdate>)
    ensures |r| <= |from|
    ensures forall u :: u in r <==> u.delta == delta && u.tag in from && u.tag !in other
  {
    if from == [] then []
    else
      var rest := Deltas(from[1..], other, delta);
      if from[0] in other then rest else [TagUpdate(from[0], delta)] + rest
  }

  /**
    The picker changed list `list`: when the inspected component is live,
    each tag the edited container gained since the picker opened is counted
    up by one and each tag it lost is counted down by one (only for the
    owned list; the blocked list sends nothing), and the opening snapshot is
    replaced by the edited container. When the component is not live,
    nothing happens.
   */
  function RefreshTagList(tp: TagPanel, list: TagList, targetLive: bool): (r: TagEdit)
    ensures !targetLive ==> r == TagEdit([], tp)
    ensures list == BlaTags ==> r.updates == []
    ensures targetLive && list == OwnTags ==> r.panel == tp.(ownedEditBefore := tp.ownedEdit)
    ensures targetLive && list == BlaTags ==> r.panel == tp.(blockedEditBefore := tp.blockedEdit)
    ensures forall t :: TagUpdate(t, 1) in r.updates <==>
      targetLive && list == OwnTags && t in tp.ownedEdit && t !in tp.ownedEditBefore
    ensures forall t :: TagUpdate(t, -1) in r.updates <==>
      targetLive && list == OwnTags && t in tp.ownedEditBefore && t !in tp.ownedEdit
    ensures forall u :: u in r.updates ==> u.delta == 1 || u.delta == -1
  {
    if !targetLive then TagEdit([], tp)
    else if list == OwnTags then
      var updates := Deltas(tp.ownedEdit, tp.ownedEditBefore, 1) + Deltas(tp.ownedEditBefore, tp.ownedEdit, -1);
      TagEdit(updates, tp.(ownedEditBefore := tp.ownedEdit))
    else
      TagEdit([], tp.(blockedEditBefore := tp.blockedEdit))
  }

  /** No tag is counted both up and down in one edit. */
  lemma RefreshTagListDisjoint(tp: TagPanel, list: TagList, targetLive: bool, t: Tag)
    ensures var r := RefreshTagList(tp, list, targetLive);
      !(TagUpdate(t, 1) in r.updates && TagUpdate(t, -1) in r.updates)
  {
  }

  /** Right after an edit has been applied, the same edit again sends nothing. */
  lemma RefreshTagListTwice(tp: TagPanel, list: TagList, targetLive: bool)
    ensures var r := RefreshTagList(tp, list, targetLive);
      targetLive ==> RefreshTagList(r.panel, list, targetLive) == TagEdit([], r.panel)
  {
    var r := RefreshTagList(tp, list, targetLive);
    if targetLive && list == OwnTags {
      var c := tp.ownedEdit;
      assert Deltas(c, c, 1) == [] by { DeltasSelf(c, 1); }
      assert Deltas(c, c, -1) == [] by { DeltasSelf(c, -1); }
    }
  }

  lemma {:induction false} DeltasSelf(c: TagContainer, delta: int)
    ensures Deltas(c, c, delta) == []
  {
    DeltasCovered(c, c, delta);
  }

  lemma {:induction false} DeltasCovered(from: TagContainer, other: TagContainer, delta: int)
    requires forall i :: 0 <= i < |from| ==> from[i] in other
    ensures Deltas(from, other, delta) == []
  {
    if from != [] {
      DeltasCovered(from[1..], other, delta);
    }
  }

  /** The net change the updates make to the count of `t`. */
  function Net(updates: seq<TagUpdate>, t: Tag): int
  {
    if updates == [] then 0
    else (if updates[0].tag == t then updates[0].delta else 0) + Net(updates[1..], t)
  }

  lemma {:induction false} NetAppend(a: seq<TagUpdate>, b: seq<TagUpdate>, t: Tag)
    ensures Net(a + b, t) == Net(a, t) + Net(b, t)
  {
    if a != [] {
      assert (a + b)[0] == a[0];
      assert (a + b)[1..] == a[1..] + b;
      NetAppend(a[1..], b, t);
      var h := if a[0].tag == t then a[0].delta else 0;
      assert Net(a + b, t) == h + Net(a[1..] + b, t);
      assert Net(a, t) == h + Net(a[1..], t);
    } else {
      assert a + b == b;
    }
  }

  /** In a distinct container each tag is reported at most once. */
  lemma {:induction false} NetDeltas(from: TagContainer, other: TagContainer, delta: int, t: Tag)
    requires Distinct(from)
    ensures Net(Deltas(from, other, delta), t) == if t in from && t !in other then delta else 0
  {
    if from != [] {
      assert Distinct(from[1..]) by {
        forall i, j | 0 <= i < j < |from[1..]|
          ensures from[1..][i] != from[1..][j]
        {
          assert from[1..][i] == from[i + 1] && from[1..][j] == from[j + 1];
        }
      }
      NetDeltas(from[1..], other, delta, t);
      assert from[0] !in from[1..];
      assert t in from <==> t == from[0] || t in from[1..] by {
        assert from == [from[0]] + from[1..];
      }
    }
  }

  /**
    Applied to the component's tag counts, the updates of an owned-tag edit
    take every tag from its count in the opening snapshot to its count in
    the edited container (both distinct).
   */
  lemma RefreshTagListNet(tp: TagPanel, t: Tag)
    requires Distinct(tp.ownedEdit) && Distinct(tp.ownedEditBefore)
    ensures Net(RefreshTagList(tp, OwnTags, true).updates, t)
      == (if t in tp.ownedEdit then 1 else 0) - (if t in tp.ownedEditBefore then 1 else 0)
  {
    var added := Deltas(tp.ownedEdit, tp.ownedEditBefore, 1);
    var removed := Deltas(tp.ownedEditBefore, tp.ownedEdit, -1);
    NetAppend(added, removed, t);
    NetDeltas(tp.ownedEdit, tp.ownedEditBefore, 1, t);
    NetDeltas(tp.ownedEditBefore, tp.ownedEdit, -1, t);
  }
}
