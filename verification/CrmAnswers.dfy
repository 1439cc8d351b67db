/**
 What each CRM operation does to the rows, said column by column. The relations here compare the
 tables before and after a call and share no definition with the operations themselves.
 */
module CrmAnswers {
  import opened Wrappers
  import opened CrmGraph
  import opened CrmIntegrity
  import opened CrmRuns

  // ---------- entities and activities ----------

  ghost predicate HasEntity(s: Store, kind: Kind, id: Id) {
    (kind == Organization && id in s.orgs) || (kind == Contact && id in s.contacts)
  }

  /** Apart from their counters the types are as before. */
  ghost predicate SameButForUsage(types: map<Id, RelType>, types': map<Id, RelType>) {
    types'.Keys == types.Keys && forall t :: t in types ==> types'[t] == types[t].(usage := types'[t].usage)
  }

  /** The entity's row is gone; every other organization and contact is as before. */
  ghost predicate IsRowGone(s: Store, s': Store, kind: Kind, id: Id) {
    && s'.segments == s.segments
    && (forall o :: o in s'.orgs <==> o in s.orgs && !(kind == Organization && o == id))
    && (forall o :: o in s'.orgs ==> s'.orgs[o] == s.orgs[o])
    && (forall c :: c in s'.contacts <==> c in s.contacts && !(kind == Contact && c == id))
  }

  /** A relationship stays, as it was, exactly when neither of its ends is the entity. */
  ghost predicate AreLinksGone(s: Store, s': Store, kind: Kind, id: Id) {
    && (forall r :: r in s'.rels <==>
          && r in s.rels
          && !(s.rels[r].sourceKind == kind && s.rels[r].sourceId == id)
          && !(s.rels[r].targetKind == kind && s.rels[r].targetId == id))
    && (forall r :: r in s'.rels ==> s'.rels[r] == s.rels[r])
  }

  /** An activity stays, as it was, exactly when it is not the entity's. */
  ghost predicate AreActivitiesGone(s: Store, s': Store, kind: Kind, id: Id) {
    && (forall a :: a in s'.activities <==>
          a in s.activities && !(s.activities[a].kind == kind && s.activities[a].entity == id))
    && (forall a :: a in s'.activities ==> s'.activities[a] == s.activities[a])
  }

  ghost function Lost(s: Store, s': Store, t: Id): set<Id> {
    set r | r in s.rels && r !in s'.rels && s.rels[r].typeId == t
  }

  /** Each counter falls by the number of relationships its type lost, but not below zero. */
  ghost predicate AreCountersLowered(s: Store, s': Store) {
    && SameButForUsage(s.types, s'.types)
    && (forall t :: t in s.types ==>
          var lost := |Lost(s, s', t)|;
          s'.types[t].usage ==
            if lost == 0 then s.types[t].usage
            else if s.types[t].usage < lost then 0
            else s.types[t].usage - lost)
  }

  ghost predicate IsEntityGone(s: Store, s': Store, kind: Kind, id: Id) {
    && IsRowGone(s, s', kind, id) && AreLinksGone(s, s', kind, id)
    && AreActivitiesGone(s, s', kind, id) && AreCountersLowered(s, s')
  }

  lemma LinkDeletionIsExact(s: Store, kind: Kind, id: Id)
    ensures EntityExists(s, kind, id) ==> AreLinksGone(s, WithoutEntity(s, kind, id), kind, id)
  {
  }

  lemma ActivityDeletionIsExact(s: Store, kind: Kind, id: Id)
    ensures EntityExists(s, kind, id) ==> AreActivitiesGone(s, WithoutEntity(s, kind, id), kind, id)
  {
  }

  lemma RowDeletionIsExact(s: Store, kind: Kind, id: Id)
    ensures EntityExists(s, kind, id) ==> IsRowGone(s, WithoutEntity(s, kind, id), kind, id)
  {
  }

  lemma LoweringIsExact(s: Store, kind: Kind, id: Id)
    ensures EntityExists(s, kind, id) ==> AreCountersLowered(s, WithoutEntity(s, kind, id))
  {
    if EntityExists(s, kind, id) {
      var s', doomed := WithoutEntity(s, kind, id), Touching(s.rels, kind, id);
      assert s'.rels == s.rels - doomed && s'.types == Decremented(s.types, s.rels, doomed);
      forall t ensures Lost(s, s', t) == OfType(s.rels, t) * doomed {
      }
    }
  }

  lemma DeletionIsExact(s: Store, kind: Kind, id: Id)
    ensures EntityExists(s, kind, id) <==> HasEntity(s, kind, id)
    ensures HasEntity(s, kind, id) ==> IsEntityGone(s, WithoutEntity(s, kind, id), kind, id)
  {
    RowDeletionIsExact(s, kind, id);
    LinkDeletionIsExact(s, kind, id);
    ActivityDeletionIsExact(s, kind, id);
    LoweringIsExact(s, kind, id);
  }

  // ---------- relationships ----------

  /** The kinds of the input fit the type, in its own or the opposite direction. */
  ghost predicate Fits(rt: RelType, r: Rel) {
    || (r.sourceKind == rt.sourceKind && r.targetKind == rt.targetKind)
    || (r.sourceKind == rt.targetKind && r.targetKind == rt.sourceKind)
  }

  /** Accepted is what fits an existing type and joins two existing entities. */
  ghost predicate IsAcceptable(s: Store, r: Rel) {
    && r.typeId in s.types && Fits(s.types[r.typeId], r)
    && HasEntity(s, r.sourceKind, r.sourceId) && HasEntity(s, r.targetKind, r.targetId)
  }

  /** One more row, between the given ends in the direction of the type, and one more on its counter. */
  ghost predicate IsRelStored(s: Store, s': Store, id: Id, r: Rel) {
    && r.typeId in s.types
    && s' == s.(rels := s'.rels, types := s'.types)
    && id in s'.rels && s'.rels == s.rels[id := s'.rels[id]]
    && s'.rels[id].typeId == r.typeId
    && s'.rels[id].sourceKind == s.types[r.typeId].sourceKind
    && s'.rels[id].targetKind == s.types[r.typeId].targetKind
    && (if r.sourceKind == s.types[r.typeId].sourceKind && r.targetKind == s.types[r.typeId].targetKind
        then s'.rels[id].sourceId == r.sourceId && s'.rels[id].targetId == r.targetId
        else s'.rels[id].sourceId == r.targetId && s'.rels[id].targetId == r.sourceId)
    && SameButForUsage(s.types, s'.types)
    && (forall t :: t in s.types ==>
          s'.types[t].usage == if t == r.typeId then Max(0, s.types[t].usage + 1) else s.types[t].usage)
  }

  lemma InsertionIsExact(s: Store, id: Id, r: Rel)
    ensures CanInsertRel(s, r) <==> IsAcceptable(s, r)
    ensures IsAcceptable(s, r) ==> IsRelStored(s, WithRel(s, id, r), id, r)
    ensures !IsAcceptable(s, r) ==> WithRel(s, id, r) == s
  {
  }

  /** One row less, and one less on the counter of its type. */
  ghost predicate IsRelGone(s: Store, s': Store, id: Id) {
    && id in s.rels
    && s' == s.(rels := s'.rels, types := s'.types)
    && s'.rels == (map r | r in s.rels && r != id :: s.rels[r])
    && SameButForUsage(s.types, s'.types)
    && (forall t :: t in s.types ==>
          s'.types[t].usage == if t == s.rels[id].typeId then Max(0, s.types[t].usage - 1) else s.types[t].usage)
  }

  lemma RelDeletionIsExact(s: Store, id: Id)
    ensures if id in s.rels then IsRelGone(s, WithoutRel(s, id), id) else WithoutRel(s, id) == s
  {
  }

  // ---------- relationship types ----------

  ghost predicate Bears(rt: RelType, name: string, sourceKind: Kind, targetKind: Kind) {
    rt == RelType(name, sourceKind, targetKind, rt.isSystem, rt.usage)
  }

  ghost predicate IsNameFree(s: Store, name: string, sourceKind: Kind, targetKind: Kind) {
    forall t :: t in s.types ==> !Bears(s.types[t], name, sourceKind, targetKind)
  }

  lemma TypeInsertionIsExact(s: Store, id: Id, name: string, sourceKind: Kind, targetKind: Kind, isSystem: bool)
    ensures !NameTaken(s, name, sourceKind, targetKind) <==> IsNameFree(s, name, sourceKind, targetKind)
    ensures WithType(s, id, name, sourceKind, targetKind, isSystem) ==
            if !IsNameFree(s, name, sourceKind, targetKind) then s
            else s.(types := s.types[id := RelType(name, sourceKind, targetKind, isSystem, 0)])
  {
    if NameTaken(s, name, sourceKind, targetKind) {
      var t :| t in s.types && IsNamed(s.types[t], name, sourceKind, targetKind);
      assert Bears(s.types[t], name, sourceKind, targetKind);
    }
    if !IsNameFree(s, name, sourceKind, targetKind) {
      var t :| t in s.types && Bears(s.types[t], name, sourceKind, targetKind);
      assert IsNamed(s.types[t], name, sourceKind, targetKind);
    }
  }

  ghost predicate IsBuiltIn(name: string, sourceKind: Kind, targetKind: Kind) {
    || (name == "Employee" && sourceKind == Contact && targetKind == Organization)
    || (name in {"Spouse", "Colleague"} && sourceKind == Contact && targetKind == Contact)
    || (name in {"Subsidiary", "Subsidiary (competing)", "Subsidiary (partner)"}
        && sourceKind == Organization && targetKind == Organization)
    || name == "Other"
  }

  /** The built-in types, name by name: ten rows, four of them called "Other". */
  lemma BuiltInsAreExact(name: string, sourceKind: Kind, targetKind: Kind)
    ensures SystemType(name, sourceKind, targetKind) in SYSTEM_TYPES <==> IsBuiltIn(name, sourceKind, targetKind)
  {
    var d := SystemType(name, sourceKind, targetKind);
    if IsBuiltIn(name, sourceKind, targetKind) {
      if name == "Other" {
        var i := OtherIsBuiltIn(sourceKind, targetKind);
      } else {
        assert d in {SYSTEM_TYPES[0], SYSTEM_TYPES[1], SYSTEM_TYPES[2],
                     SYSTEM_TYPES[3], SYSTEM_TYPES[4], SYSTEM_TYPES[5]};
      }
    }
  }

  /** Old rows stay, new rows are unused system rows of built-in names, and no built-in name is free. */
  ghost predicate IsSeeded(s: Store, s': Store) {
    && s' == s.(types := s'.types)
    && (forall t :: t in s.types ==> t in s'.types && s'.types[t] == s.types[t])
    && (forall t :: t in s'.types && t !in s.types ==>
          && s'.types[t].isSystem && s'.types[t].usage == 0
          && IsBuiltIn(s'.types[t].name, s'.types[t].sourceKind, s'.types[t].targetKind))
    && (forall name, sourceKind, targetKind ::
          IsBuiltIn(name, sourceKind, targetKind) ==> !IsNameFree(s', name, sourceKind, targetKind))
  }

  lemma {:induction false} NewRowsAreBuiltIn(s: Store, ids: seq<Id>, n: nat, t: Id)
    requires Integrity(s) && FreshTypeIds(s, ids) && n <= |ids|
    requires t in Seeded(s, ids, n).types && t !in s.types
    ensures var rt := Seeded(s, ids, n).types[t];
      rt.isSystem && rt.usage == 0 && IsBuiltIn(rt.name, rt.sourceKind, rt.targetKind)
  {
    var past := Seeded(s, ids, n - 1);
    if t in past.types {
      NewRowsAreBuiltIn(s, ids, n - 1, t);
      NextSeedIsNew(s, ids, n - 1);
    } else {
      var d := SYSTEM_TYPES[n - 1];
      BuiltInsAreExact(d.name, d.sourceKind, d.targetKind);
    }
  }

  lemma SeedingIsExact(s: Store, seeds: seq<Id>)
    requires Integrity(s) && FreshTypeIds(s, seeds)
    ensures IsSeeded(s, FullySeeded(s, seeds))
  {
    var m := FullySeeded(s, seeds);
    SeedingOnlyAdds(s, seeds, |seeds|);
    forall t | t in m.types && t !in s.types
      ensures m.types[t].isSystem && m.types[t].usage == 0
      ensures IsBuiltIn(m.types[t].name, m.types[t].sourceKind, m.types[t].targetKind)
    {
      NewRowsAreBuiltIn(s, seeds, |seeds|, t);
    }
    forall name, sourceKind, targetKind | IsBuiltIn(name, sourceKind, targetKind)
      ensures !IsNameFree(m, name, sourceKind, targetKind)
    {
      BuiltInNameIsTaken(s, seeds, name, sourceKind, targetKind);
    }
  }

  lemma BuiltInNameIsTaken(s: Store, seeds: seq<Id>, name: string, sourceKind: Kind, targetKind: Kind)
    requires Integrity(s) && FreshTypeIds(s, seeds) && IsBuiltIn(name, sourceKind, targetKind)
    ensures !IsNameFree(FullySeeded(s, seeds), name, sourceKind, targetKind)
  {
    BuiltInsAreExact(name, sourceKind, targetKind);
    var i :| 0 <= i < |SYSTEM_TYPES| && SYSTEM_TYPES[i] == SystemType(name, sourceKind, targetKind);
    SeedingCompletes(s, seeds, |seeds|, i);
    TypeInsertionIsExact(FullySeeded(s, seeds), 0, name, sourceKind, targetKind, true);
  }

  /** A system row "Other" for the kinds of a type. */
  ghost predicate IsFallback(s: Store, t: Id, o: Id) {
    && t in s.types && o in s.types && s.types[o].isSystem && s.types[o].name == "Other"
    && s.types[o].sourceKind == s.types[t].sourceKind && s.types[o].targetKind == s.types[t].targetKind
  }

  /** Which of the four answers a deletion gives. */
  ghost predicate IsAnswered(s: Store, t: Id, outcome: TypeDeletion) {
    match outcome
    case NotFound => t !in s.types
    case SystemRow => t in s.types && s.types[t].isSystem
    case MissingOtherFallback =>
      t in s.types && !s.types[t].isSystem && s.types[t].usage > 0 && forall o :: !IsFallback(s, t, o)
    case Deleted =>
      t in s.types && !s.types[t].isSystem && (s.types[t].usage > 0 ==> exists o :: IsFallback(s, t, o))
  }

  /** The type is gone; its relationships keep their ends and now have a fallback type; other rows stay. */
  ghost predicate IsTypeGone(s: Store, s': Store, t: Id) {
    && t in s.types
    && s' == s.(rels := s'.rels, types := s'.types)
    && (forall u :: u in s'.types <==> u in s.types && u != t)
    && (forall u :: u in s'.types ==> s'.types[u] == s.types[u].(usage := s'.types[u].usage))
    && s'.rels.Keys == s.rels.Keys
    && (forall r :: r in s.rels ==>
          && s'.rels[r] == s.rels[r].(typeId := s'.rels[r].typeId)
          && (if s.rels[r].typeId == t then IsFallback(s, t, s'.rels[r].typeId)
              else s'.rels[r].typeId == s.rels[r].typeId))
  }

  lemma FallbackIsOther(s: Store, t: Id, o: Id)
    ensures IsOtherFor(s, t, o) <==> IsFallback(s, t, o)
  {
  }

  lemma OutcomeIsExact(s: Store, t: Id)
    ensures IsAnswered(s, t, DeletionOutcome(s, t))
  {
    forall o ensures IsOtherFor(s, t, o) <==> IsFallback(s, t, o) {
      FallbackIsOther(s, t, o);
    }
  }

  lemma UnusedTypeIsGone(s: Store, t: Id)
    requires Integrity(s) && DeletionOutcome(s, t).Deleted? && s.types[t].usage <= 0
    ensures IsTypeGone(s, WithoutType(s, t), t)
  {
    UnusedTypeHasNoRels(s, t);
    assert WithoutType(s, t) == s.(types := s.types - {t});
    forall r | r in s.rels ensures s.rels[r].typeId != t {
      assert r !in OfType(s.rels, t);
    }
  }

  lemma MovedTypeIsGone(s: Store, t: Id, other: Id)
    requires IsOtherFor(s, t, other)
    ensures var m := MovedToOther(s, t, other); IsTypeGone(s, m.(types := m.types - {t}), t)
  {
    FallbackIsOther(s, t, other);
    assert MovedToOther(s, t, other).rels == Retyped(s.rels, t, other);
  }

  lemma TypeDeletionIsExact(s: Store, t: Id)
    requires Integrity(s)
    ensures IsAnswered(s, t, DeletionOutcome(s, t))
    ensures if DeletionOutcome(s, t).Deleted? then IsTypeGone(s, WithoutType(s, t), t) else WithoutType(s, t) == s
  {
    OutcomeIsExact(s, t);
    if DeletionOutcome(s, t).Deleted? {
      if s.types[t].usage <= 0 {
        UnusedTypeIsGone(s, t);
      } else {
        var other :| IsOtherFor(s, t, other)
          && WithoutType(s, t) == (var m := MovedToOther(s, t, other); m.(types := m.types - {t}));
        MovedTypeIsGone(s, t, other);
      }
    }
  }

  // ---------- employers and holdings ----------

  /** The entity's link of the type of that name is replaced. */
  ghost predicate IsLinkSet(s: Store, s': Store, name: string, kind: Kind, source: Id, target: Option<Id>, id: Id) {
    exists t ::
      && t in s'.types && Bears(s'.types[t], name, kind, Organization)
      && IsReplaced(s, s', t, kind, source, target, id)
  }

  lemma RelinkKeepsType(s: Store, t: Id, kind: Kind, source: Id, target: Option<Id>, id: Id)
    requires t in s.types
    ensures var s' := Relinked(s, t, kind, source, target, id); t in s'.types && SameName(s'.types[t], s.types[t])
  {
    UnlinkLeavesNone(s, t, kind, source);
  }

  lemma LinkingIsExact(s: Store, i: nat, source: Id, target: Option<Id>, id: Id, seeds: seq<Id>)
    requires Integrity(s) && id !in s.rels && FreshTypeIds(s, seeds)
    requires i < |SYSTEM_TYPES| && SYSTEM_TYPES[i].targetKind == Organization
    ensures var d := SYSTEM_TYPES[i];
      IsLinkSet(s, LinkSet(s, d, source, target, id, seeds), d.name, d.sourceKind, source, target, id)
  {
    var m, d := FullySeeded(s, seeds), SYSTEM_TYPES[i];
    SeededTypeIsFound(s, i, seeds);
    LinkIsReplaced(s, i, source, target, id, seeds);
    var t, s' := TypeFor(m, d), LinkSet(s, d, source, target, id, seeds);
    RelinkKeepsType(m, t, d.sourceKind, source, target, id);
    assert Bears(s'.types[t], d.name, d.sourceKind, Organization);
  }

  // ---------- segments and assignments ----------

  ghost predicate IsSegmentStored(s: Store, s': Store, id: Id, name: string, parent: Option<Id>) {
    && s' == s.(segments := s'.segments)
    && id in s'.segments && s'.segments == s.segments[id := s'.segments[id]]
    && s'.segments[id].name == name && s'.segments[id].parent == parent
    && (parent.None? ==> s'.segments[id].layer == 1)
    && (parent.Some? ==>
          && parent.value in s.segments && s.segments[parent.value].layer < 3
          && s'.segments[id].layer == s.segments[parent.value].layer + 1)
  }

  lemma SegmentInsertionIsExact(s: Store, id: Id, name: string, parent: Option<Id>)
    ensures match SegmentLayer(s, parent)
      case Ok(n) =>
        var s' := WithSegment(s, id, name, parent);
        IsSegmentStored(s, s', id, name, parent) && n == s'.segments[id].layer
      case Err(ParentNotFound) => parent.Some? && parent.value !in s.segments
      case Err(MaxDepth) => parent.Some? && parent.value in s.segments && s.segments[parent.value].layer >= 3
      case Err(_) => false
  {
  }

  /** A missing layer clears those below it. */
  ghost predicate IsTrimmed(t: Triple, t': Triple) {
    && t'.layer1 == t.layer1
    && (t.layer1.Some? ==> t'.layer2 == t.layer2)
    && (t.layer1.Some? && t.layer2.Some? ==> t'.layer3 == t.layer3)
    && (t.layer1.None? ==> t'.layer2.None?)
    && (t.layer1.None? || t.layer2.None? ==> t'.layer3.None?)
  }

  /** Nothing, or existing segments of the layers one, two and three, each the parent of the next. */
  ghost predicate IsPathDown(s: Store, t: Triple) {
    && (t.layer1.Some? ==> t.layer1.value in s.segments && s.segments[t.layer1.value].layer == 1)
    && (t.layer2.Some? ==>
          && t.layer1.Some? && t.layer2.value in s.segments && s.segments[t.layer2.value].layer == 2
          && s.segments[t.layer2.value].parent == t.layer1)
    && (t.layer3.Some? ==>
          && t.layer2.Some? && t.layer3.value in s.segments && s.segments[t.layer3.value].layer == 3
          && s.segments[t.layer3.value].parent == t.layer2)
  }

  /** The organization's layers are the given ones, trimmed, if they are a path down; otherwise nothing is stored. */
  ghost predicate IsAssigned(s: Store, s': Store, id: Id, t: Triple, ok: bool) {
    exists t' :: IsTrimmed(t, t') && (ok <==> IsPathDown(s, t')) && s' == if ok then s.(orgs := s.orgs[id := t']) else s
  }

  lemma TrimmingIsExact(s: Store, t: Triple)
    ensures IsTrimmed(t, Normalized(t)) && (IsValidAssignment(s, Normalized(t)) <==> IsPathDown(s, Normalized(t)))
  {
  }

  lemma AssignmentIsExact(s: Store, id: Id, t: Triple)
    ensures IsAssigned(s, WithOrganization(s, id, t), id, t, IsValidAssignment(s, Normalized(t)))
  {
    TrimmingIsExact(s, t);
  }

  /** The layer a patch asks for: a new value, a cleared one, or the stored one where it says nothing. */
  ghost predicate IsPatched(patch: Option<Option<Id>>, stored: Option<Id>, layer: Option<Id>) {
    match patch
    case None => layer == stored
    case Some(value) => layer == value
  }

  ghost predicate IsMerge(p: Patch, stored: Triple, t: Triple) {
    && IsPatched(p.layer1, stored.layer1, t.layer1)
    && IsPatched(p.layer2, stored.layer2, t.layer2)
    && IsPatched(p.layer3, stored.layer3, t.layer3)
  }

  /** A patch that names no layer changes nothing; any other assigns the merged layers, and checks them all. */
  ghost predicate IsRepointed(s: Store, s': Store, id: Id, p: Patch, ok: bool) {
    if p.layer1.None? && p.layer2.None? && p.layer3.None? then ok && s' == s
    else
      exists t, t' ::
        && IsMerge(p, if id in s.orgs then s.orgs[id] else Triple(None, None, None), t) && IsTrimmed(t, t')
        && (ok <==> IsPathDown(s, t'))
        && s' == if ok && id in s.orgs then s.(orgs := s.orgs[id := t']) else s
  }

  lemma RepointingIsExact(s: Store, id: Id, p: Patch)
    ensures IsRepointed(s, Repointed(s, id, p), id, p,
                        !IsTouched(p) || IsValidAssignment(s, Merged(p, StoredTriple(s, id))))
  {
    var stored := StoredTriple(s, id);
    var t := Triple(if p.layer1.Some? then p.layer1.value else stored.layer1,
                    if p.layer2.Some? then p.layer2.value else stored.layer2,
                    if p.layer3.Some? then p.layer3.value else stored.layer3);
    assert Merged(p, stored) == Normalized(t) && IsMerge(p, stored, t);
    TrimmingIsExact(s, t);
  }
}
