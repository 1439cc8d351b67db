/**
 The repository functions of the CRM tables, row by row as the code runs them, against the
 step functions of `CrmRuns` and the column-by-column relations of `CrmAnswers`.
 */
module CrmStores {
  import opened Wrappers
  import opened CrmGraph
  import opened CrmIntegrity
  import opened CrmRuns
  import opened CrmAnswers

  class CrmStore {
    var types: map<Id, RelType>
    var rels: map<Id, Rel>
    var orgs: map<Id, Triple>
    var contacts: set<Id>
    var activities: map<Id, Activity>
    var segments: map<Id, Segment>

    ghost function Model(): Store
      reads this
    {
      Store(types, rels, orgs, contacts, activities, segments)
    }

    constructor ()
      ensures Model() == EMPTY
    {
      types, rels, orgs, contacts, activities, segments := map[], map[], map[], {}, map[], map[];
    }

    method AdjustUsage(t: Id, delta: int)
      modifies `types
      ensures types == Adjusted(old(types), t, delta)
      ensures types.Keys == old(types).Keys && forall u :: u in types && u != t ==> types[u] == old(types)[u]
      ensures t in types && delta != 0 ==> types[t] == old(types)[t].(usage := Max(0, old(types)[t].usage + delta))
      ensures delta == 0 ==> types == old(types)
    {
      if delta != 0 && t in types {
        var n := types[t].usage + delta;
        types := types[t := types[t].(usage := if n > 0 then n else 0)];
      }
    }

    method EnsureSystemTypes(seeds: seq<Id>)
      requires FreshTypeIds(Model(), seeds)
      modifies `types
      ensures Model() == Apply(old(Model()), Op.EnsureSystemTypes(seeds))
      ensures Integrity(old(Model())) ==> IsSeeded(old(Model()), Model())
    {
      ghost var before := Model();
      var i := 0;
      while i < |SYSTEM_TYPES|
        invariant 0 <= i <= |SYSTEM_TYPES|
        invariant Model() == Seeded(before, seeds, i)
      {
        var d := SYSTEM_TYPES[i];
        if existing :| existing in types && IsNamed(types[existing], d.name, d.sourceKind, d.targetKind) {
        } else {
          types := types[seeds[i] := RelType(d.name, d.sourceKind, d.targetKind, true, 0)];
        }
        i := i + 1;
      }
      if Integrity(before) {
        SeedingIsExact(before, seeds);
      }
    }

    /** A second row with the same name and kinds violates the unique index and nothing is stored. */
    method InsertType(id: Id, name: string, sourceKind: Kind, targetKind: Kind) returns (ok: bool)
      requires id !in types
      modifies `types
      ensures Model() == WithType(old(Model()), id, name, sourceKind, targetKind, false)
      ensures ok <==> IsNameFree(old(Model()), name, sourceKind, targetKind)
      ensures types == if ok then old(types)[id := RelType(name, sourceKind, targetKind, false, 0)] else old(types)
    {
      TypeInsertionIsExact(Model(), id, name, sourceKind, targetKind, false);
      if existing :| existing in types && IsNamed(types[existing], name, sourceKind, targetKind) {
        return false;
      }
      types := types[id := RelType(name, sourceKind, targetKind, false, 0)];
      return true;
    }

    /** The system row "Other" for the kinds of a type. */
    method FindOther(t: Id) returns (found: Option<Id>)
      requires t in types && NamesUnique(Model())
      ensures found.Some? ==>
        IsOtherFor(Model(), t, found.value) && forall o :: IsOtherFor(Model(), t, o) ==> o == found.value
      ensures found.None? ==> forall o :: !IsOtherFor(Model(), t, o)
    {
      var rt := types[t];
      if o :| o in types && types[o].isSystem && IsNamed(types[o], "Other", rt.sourceKind, rt.targetKind) {
        OtherIsUnique(Model(), t, o);
        return Some(o);
      }
      return None;
    }

    method MoveToOther(t: Id, other: Id)
      requires t in types
      modifies `types, `rels
      ensures Model() == MovedToOther(old(Model()), t, other)
    {
      var n := types[t].usage;
      rels := map r | r in rels :: if rels[r].typeId == t then rels[r].(typeId := other) else rels[r];
      AdjustUsage(other, n);
    }

    /** Deleting a type once the system types are there. */
    method DeleteSeededType(t: Id) returns (outcome: TypeDeletion)
      requires NamesUnique(Model())
      modifies `types, `rels
      ensures Model() == WithoutType(old(Model()), t)
      ensures outcome == DeletionOutcome(old(Model()), t)
    {
      if t !in types {
        return NotFound;
      }
      if types[t].isSystem {
        return SystemRow;
      }
      if types[t].usage > 0 {
        var other := FindOther(t);
        if other.None? {
          return MissingOtherFallback;
        }
        WithoutUsedType(Model(), t, other.value);
        MoveToOther(t, other.value);
      }
      types := types - {t};
      return Deleted;
    }

    method DeleteType(t: Id, seeds: seq<Id>) returns (outcome: TypeDeletion)
      requires Integrity(Model()) && FreshTypeIds(Model(), seeds)
      modifies `types, `rels
      ensures Model() == Apply(old(Model()), Op.DeleteType(t, seeds))
      ensures outcome == DeletionOutcome(FullySeeded(old(Model()), seeds), t)
      ensures exists seeded ::
        && IsSeeded(old(Model()), seeded) && IsAnswered(seeded, t, outcome)
        && if outcome.Deleted? then IsTypeGone(seeded, Model(), t) else Model() == seeded
    {
      SeedingKeeps(Model(), seeds, |seeds|);
      EnsureSystemTypes(seeds);
      ghost var seeded := Model();
      outcome := DeleteSeededType(t);
      TypeDeletionIsExact(seeded, t);
      assert IsSeeded(old(Model()), seeded);
    }

    method InsertRelationship(id: Id, input: Rel) returns (created: Option<Rel>)
      requires id !in rels
      modifies `types, `rels
      ensures Model() == Apply(old(Model()), Op.InsertRelationship(id, input))
      ensures created.Some? <==> IsAcceptable(old(Model()), input)
      ensures created.Some? ==> IsRelStored(old(Model()), Model(), id, input) && created.value == rels[id]
      ensures created.None? ==> Model() == old(Model())
    {
      InsertionIsExact(Model(), id, input);
      if input.typeId !in types {
        return None;
      }
      var rt := types[input.typeId];
      var r := input;
      if r.sourceKind == rt.sourceKind && r.targetKind == rt.targetKind {
      } else if r.sourceKind == rt.targetKind && r.targetKind == rt.sourceKind {
        r := Rel(input.typeId, input.targetKind, input.targetId, input.sourceKind, input.sourceId);
      } else {
        return None;
      }
      if !Exists(r.sourceKind, r.sourceId) || !Exists(r.targetKind, r.targetId) {
        return None;
      }
      rels := rels[id := r];
      AdjustUsage(input.typeId, 1);
      return Some(r);
    }

    predicate Exists(kind: Kind, id: Id)
      reads this
    {
      match kind
      case Organization => id in orgs
      case Contact => id in contacts
    }

    method DeleteRelationship(id: Id) returns (ok: bool)
      modifies `types, `rels
      ensures Model() == Apply(old(Model()), Op.DeleteRelationship(id))
      ensures ok <==> id in old(rels)
      ensures if ok then IsRelGone(old(Model()), Model(), id) else Model() == old(Model())
    {
      RelDeletionIsExact(Model(), id);
      if id !in rels {
        return false;
      }
      var typeId := rels[id].typeId;
      rels := rels - {id};
      AdjustUsage(typeId, -1);
      return true;
    }

    /** Deletes the links of one type that leave an entity. */
    method Unlink(typeId: Id, kind: Kind, source: Id)
      modifies `types, `rels
      ensures Model() == Unlinked(old(Model()), typeId, kind, source)
    {
      var doomed := set r |
        r in rels && rels[r].typeId == typeId && rels[r].sourceKind == kind && rels[r].sourceId == source;
      assert doomed == OutLinks(Model(), typeId, kind, source);
      rels := rels - doomed;
      if |doomed| > 0 {
        AdjustUsage(typeId, -|doomed|);
      }
    }

    /** The shared body of setting an employer or a holding, from the type lookup on. */
    method ReplaceLink(typeId: Id, kind: Kind, source: Id, target: Option<Id>, id: Id)
      requires id !in rels
      modifies `types, `rels
      ensures Model() == Relinked(old(Model()), typeId, kind, source, target, id)
    {
      Unlink(typeId, kind, source);
      if target.None? || (kind == Organization && target.value == source) || target.value !in orgs {
        return;
      }
      var _ := InsertRelationship(id, Rel(typeId, kind, source, Organization, target.value));
    }

    /** Seeds the system types and looks one up by name and kinds. */
    method EnsureAndFind(d: SystemType, seeds: seq<Id>) returns (found: Option<Id>)
      requires Integrity(Model()) && FreshTypeIds(Model(), seeds)
      modifies `types
      ensures Model() == FullySeeded(old(Model()), seeds)
      ensures found == if HasType(Model(), d) then Some(TypeFor(Model(), d)) else None
    {
      ghost var before := Model();
      EnsureSystemTypes(seeds);
      SeedingKeeps(before, seeds, |seeds|);
      if t :| t in types && IsNamed(types[t], d.name, d.sourceKind, d.targetKind) {
        TypeForIsTheOnlyOne(Model(), d, t);
        return Some(t);
      }
      return None;
    }

    method SetLink(d: SystemType, source: Id, target: Option<Id>, id: Id, seeds: seq<Id>)
      requires Integrity(Model()) && id !in rels && FreshTypeIds(Model(), seeds)
      modifies `types, `rels
      ensures Model() == LinkSet(old(Model()), d, source, target, id, seeds)
    {
      var t := EnsureAndFind(d, seeds);
      if t.Some? {
        ReplaceLink(t.value, d.sourceKind, source, target, id);
      }
    }

    method SetEmployer(contact: Id, employer: Option<Id>, id: Id, seeds: seq<Id>)
      requires Integrity(Model()) && id !in rels && FreshTypeIds(Model(), seeds)
      modifies `types, `rels
      ensures Model() == Apply(old(Model()), Op.SetEmployer(contact, employer, id, seeds))
      ensures IsLinkSet(old(Model()), Model(), "Employee", Contact, contact, employer, id)
    {
      assert SYSTEM_TYPES[0] == EMPLOYEE;
      LinkingIsExact(Model(), 0, contact, employer, id, seeds);
      SetLink(EMPLOYEE, contact, employer, id, seeds);
    }

    method SetHolding(organization: Id, holding: Option<Id>, id: Id, seeds: seq<Id>)
      requires Integrity(Model()) && id !in rels && FreshTypeIds(Model(), seeds)
      modifies `types, `rels
      ensures Model() == Apply(old(Model()), Op.SetHolding(organization, holding, id, seeds))
      ensures IsLinkSet(old(Model()), Model(), "Subsidiary", Organization, organization, holding, id)
    {
      assert SYSTEM_TYPES[3] == SUBSIDIARY;
      LinkingIsExact(Model(), 3, organization, holding, id, seeds);
      SetLink(SUBSIDIARY, organization, holding, id, seeds);
    }

    /** Counts the doomed relationships by type in a map, in whatever order the rows come. */
    method CountByType(doomed: set<Id>) returns (dec: map<Id, nat>)
      requires doomed <= rels.Keys
      ensures Counts(rels, dec, doomed)
    {
      dec := map[];
      var todo := doomed;
      while todo != {}
        invariant todo <= doomed
        invariant Counts(rels, dec, doomed - todo)
        decreases |todo|
      {
        var r :| r in todo;
        var t := rels[r].typeId;
        CountOneMore(rels, dec, doomed - todo, r);
        dec := dec[t := (if t in dec then dec[t] else 0) + 1];
        assert doomed - (todo - {r}) == (doomed - todo) + {r};
        todo := todo - {r};
      }
      assert doomed - todo == doomed;
    }

    /** One clamped update per type in the map. */
    method DecrementAll(dec: map<Id, nat>)
      modifies `types
      ensures types.Keys == old(types).Keys
      ensures forall t :: t in types ==>
        types[t] == Adjusted(old(types), t, if t in dec then -(dec[t] as int) else 0)[t]
    {
      var todo := dec.Keys;
      while todo != {}
        invariant todo <= dec.Keys
        invariant types.Keys == old(types).Keys
        invariant forall t :: t in types ==>
          types[t] == Adjusted(old(types), t, if t in dec && t !in todo then -(dec[t] as int) else 0)[t]
        decreases |todo|
      {
        var t :| t in todo;
        AdjustUsage(t, -(dec[t] as int));
        todo := todo - {t};
      }
    }

    /** Deletes the relationships of an entity and lowers the counters of their types. */
    method DropRelationships(kind: Kind, id: Id)
      modifies `types, `rels
      ensures rels == old(rels) - Touching(old(rels), kind, id)
      ensures types == Decremented(old(types), old(rels), Touching(old(rels), kind, id))
    {
      ghost var before := Model();
      var doomed := set r | r in rels && Touches(rels[r], kind, id);
      var dec := CountByType(doomed);
      rels := rels - doomed;
      DecrementAll(dec);
      DecrementsMatch(before, types, doomed, dec);
    }

    /** Deletes the activities of an entity, its relationships and its row. */
    method RemoveEntity(kind: Kind, id: Id)
      requires Exists(kind, id)
      modifies this
      ensures Model() == WithoutEntity(old(Model()), kind, id)
    {
      activities := map a | a in activities && activities[a] != Activity(kind, id) :: activities[a];
      DropRelationships(kind, id);
      match kind {
        case Organization => orgs := orgs - {id};
        case Contact => contacts := contacts - {id};
      }
    }

    method DeleteEntity(kind: Kind, id: Id) returns (ok: bool)
      modifies this
      ensures Model() == WithoutEntity(old(Model()), kind, id)
      ensures ok <==> HasEntity(old(Model()), kind, id)
      ensures if ok then IsEntityGone(old(Model()), Model(), kind, id) else Model() == old(Model())
    {
      DeletionIsExact(Model(), kind, id);
      if !Exists(kind, id) {
        return false;
      }
      RemoveEntity(kind, id);
      return true;
    }

    method InsertActivity(id: Id, kind: Kind, entity: Id) returns (ok: bool)
      requires id !in activities
      modifies `activities
      ensures Model() == Apply(old(Model()), Op.InsertActivity(id, kind, entity))
      ensures ok <==> HasEntity(old(Model()), kind, entity)
      ensures activities == if ok then old(activities)[id := Activity(kind, entity)] else old(activities)
    {
      ok := Exists(kind, entity);
      if ok {
        activities := activities[id := Activity(kind, entity)];
      }
    }

    /** `insertThrows` is whether the database refuses the row; no unique index does. */
    method InsertSegment(id: Id, name: string, parent: Option<Id>, insertThrows: bool)
      returns (layer: Result<int, SegmentError>)
      requires id !in segments
      modifies `segments
      ensures layer.Ok? ==> Model() == Apply(old(Model()), Op.InsertSegment(id, name, parent)) && id in segments
      ensures layer.Err? ==> Model() == old(Model())
      ensures layer == if SegmentLayer(old(Model()), parent).Ok? && insertThrows then Err(SegmentExists)
                       else SegmentLayer(old(Model()), parent)
      ensures layer.Ok? ==>
        IsSegmentStored(old(Model()), Model(), id, name, parent) && layer.value == segments[id].layer
      ensures layer == Err(ParentNotFound) <==> parent.Some? && parent.value !in old(segments)
      ensures layer == Err(MaxDepth) <==>
        parent.Some? && parent.value in old(segments) && old(segments)[parent.value].layer >= 3
      ensures layer.Err? ==> layer.error in {ParentNotFound, MaxDepth} || insertThrows
    {
      var n := 1;
      if parent.Some? {
        if parent.value !in segments {
          return Err(ParentNotFound);
        }
        if segments[parent.value].layer >= 3 {
          return Err(MaxDepth);
        }
        n := segments[parent.value].layer + 1;
      }
      if insertThrows {
        return Err(SegmentExists);
      }
      segments := segments[id := Segment(n, parent, name)];
      return Ok(n);
    }

    method DeleteSegment(id: Id) returns (outcome: Result<bool, SegmentError>)
      modifies `segments
      ensures Model() == Apply(old(Model()), Op.DeleteSegment(id))
      ensures outcome == Ok(true) <==> id in old(segments) && id !in segments
      ensures outcome == Ok(false) <==> id !in old(segments)
      ensures outcome == Err(StillHasChildren) <==>
        id in old(segments) && exists k :: k in segments && segments[k].parent == Some(id)
      ensures outcome == Err(InUse) ==> exists o ::
        o in orgs && (orgs[o].layer1 == Some(id) || orgs[o].layer2 == Some(id) || orgs[o].layer3 == Some(id))
      ensures outcome == Ok(true) ==> forall o ::
        o in orgs ==> orgs[o].layer1 != Some(id) && orgs[o].layer2 != Some(id) && orgs[o].layer3 != Some(id)
      ensures segments == if outcome == Ok(true) then old(segments) - {id} else old(segments)
    {
      if id !in segments {
        return Ok(false);
      }
      var children := set k | k in segments && segments[k].parent == Some(id);
      var users := set o | o in orgs && UsesSegment(orgs[o], id);
      NobodyPointsAt(Model(), id, children, users);
      if |children| > 0 {
        return Err(StillHasChildren);
      }
      if |users| > 0 {
        return Err(InUse);
      }
      segments := segments - {id};
      return Ok(true);
    }

    method InsertOrganization(id: Id, input: Triple) returns (ok: bool)
      requires id !in orgs
      modifies `orgs
      ensures Model() == Apply(old(Model()), Op.InsertOrganization(id, input))
      ensures ok <==> id in orgs
      ensures IsAssigned(old(Model()), Model(), id, input, ok)
    {
      AssignmentIsExact(Model(), id, input);
      var next := Normalized(input);
      ok := IsAssignable(next);
      if ok {
        orgs := orgs[id := next];
      }
    }

    predicate IsAssignable(t: Triple)
      reads this
    {
      IsValidAssignment(Store(types, rels, orgs, contacts, activities, segments), t)
    }

    /** False when the code throws for an invalid assignment. */
    method UpdateOrganization(id: Id, patch: Patch) returns (ok: bool)
      modifies `orgs
      ensures Model() == Apply(old(Model()), Op.UpdateOrganization(id, patch))
      ensures ok <==>
        !IsTouched(patch) || IsValidAssignment(old(Model()), Merged(patch, StoredTriple(old(Model()), id)))
      ensures IsRepointed(old(Model()), Model(), id, patch, ok)
    {
      RepointingIsExact(Model(), id, patch);
      var existing := if id in orgs then orgs[id] else Triple(None, None, None);
      if !IsTouched(patch) {
        return true;
      }
      var next := Merged(patch, existing);
      if !IsAssignable(next) {
        return false;
      }
      if id in orgs {
        orgs := orgs[id := next];
      }
      return true;
    }

    method InsertContact(id: Id)
      requires id !in contacts
      modifies `contacts
      ensures Model() == Apply(old(Model()), Op.InsertContact(id))
    {
      contacts := contacts + {id};
    }
  }

  lemma WithoutUsedType(s: Store, t: Id, other: Id)
    requires t in s.types && !s.types[t].isSystem && s.types[t].usage > 0
    requires IsOtherFor(s, t, other) && forall o :: IsOtherFor(s, t, o) ==> o == other
    ensures DeletionOutcome(s, t) == Deleted
    ensures var m := MovedToOther(s, t, other); WithoutType(s, t) == m.(types := m.types - {t})
  {
  }

  lemma DecrementMatches(s: Store, doomed: set<Id>, dec: map<Id, nat>, t: Id)
    requires Counts(s.rels, dec, doomed) && t in s.types
    ensures Adjusted(s.types, t, if t in dec then -(dec[t] as int) else 0)[t] == Decremented(s.types, s.rels, doomed)[t]
  {
  }

  lemma DecrementsMatch(s: Store, types: map<Id, RelType>, doomed: set<Id>, dec: map<Id, nat>)
    requires Counts(s.rels, dec, doomed) && types.Keys == s.types.Keys
    requires forall t :: t in types ==> types[t] == Adjusted(s.types, t, if t in dec then -(dec[t] as int) else 0)[t]
    ensures types == Decremented(s.types, s.rels, doomed)
  {
    var want := Decremented(s.types, s.rels, doomed);
    assert types.Keys == want.Keys;
    forall t | t in types ensures types[t] == want[t] {
      DecrementMatches(s, doomed, dec, t);
    }
  }

  lemma OtherIsUnique(s: Store, t: Id, other: Id)
    requires NamesUnique(s) && IsOtherFor(s, t, other)
    ensures forall o :: IsOtherFor(s, t, o) ==> o == other
  {
  }

  /** `dec` maps each type to its number of relationships among `seen`, and has no entry where there are none. */
  ghost predicate Counts(rels: map<Id, Rel>, dec: map<Id, nat>, seen: set<Id>) {
    && (forall t :: t in dec ==> dec[t] == |OfType(rels, t) * seen|)
    && (forall t :: t !in dec ==> OfType(rels, t) * seen == {})
  }

  lemma OneMoreOfType(rels: map<Id, Rel>, seen: set<Id>, r: Id, u: Id)
    requires r in rels && r !in seen
    ensures OfType(rels, u) * (seen + {r}) == OfType(rels, u) * seen + if rels[r].typeId == u then {r} else {}
    ensures |OfType(rels, u) * (seen + {r})| == |OfType(rels, u) * seen| + if rels[r].typeId == u then 1 else 0
  {
    var before := OfType(rels, u) * seen;
    if rels[r].typeId == u {
      assert OfType(rels, u) * (seen + {r}) == before + {r};
    } else {
      assert OfType(rels, u) * (seen + {r}) == before;
    }
  }

  lemma CountOneMore(rels: map<Id, Rel>, dec: map<Id, nat>, seen: set<Id>, r: Id)
    requires r in rels && r !in seen && Counts(rels, dec, seen)
    ensures var t := rels[r].typeId; Counts(rels, dec[t := (if t in dec then dec[t] else 0) + 1], seen + {r})
  {
    var t := rels[r].typeId;
    var dec' := dec[t := (if t in dec then dec[t] else 0) + 1];
    forall u
      ensures u in dec' ==> dec'[u] == |OfType(rels, u) * (seen + {r})|
      ensures u !in dec' ==> OfType(rels, u) * (seen + {r}) == {}
    {
      OneMoreOfType(rels, seen, r, u);
    }
  }

  lemma NobodyPointsAt(s: Store, id: Id, children: set<Id>, users: set<Id>)
    requires children == set k | k in s.segments && s.segments[k].parent == Some(id)
    requires users == set o | o in s.orgs && UsesSegment(s.orgs[o], id)
    ensures HasChildren(s, id) <==> |children| > 0
    ensures IsUsed(s, id) <==> |users| > 0
  {
    if HasChildren(s, id) {
      var k :| k in s.segments && s.segments[k].parent == Some(id);
      assert k in children;
    } else {
      assert children == {};
    }
    if IsUsed(s, id) {
      var o :| o in s.orgs && UsesSegment(s.orgs[o], id);
      assert o in users;
    } else {
      assert users == {};
    }
  }
}
