/**
 Runs of CRM operations. Each exported repository function is one step; random row identifiers
 are parameters of the step and are fresh.
 */
module CrmRuns {
  import opened Wrappers
  import opened CrmGraph
  import opened CrmIntegrity

  datatype Op =
    | EnsureSystemTypes(seeds: seq<Id>)
    | InsertType(id: Id, name: string, reverseName: string, sourceKind: Kind, targetKind: Kind)
    | DeleteType(t: Id, seeds: seq<Id>)
    | InsertRelationship(id: Id, rel: Rel)
    | DeleteRelationship(id: Id)
    | SetEmployer(contact: Id, employer: Option<Id>, id: Id, seeds: seq<Id>)
    | SetHolding(organization: Id, holding: Option<Id>, id: Id, seeds: seq<Id>)
    | InsertOrganization(id: Id, segments: Triple)
    | UpdateOrganization(id: Id, patch: Patch)
    | InsertContact(id: Id)
    | DeleteEntity(kind: Kind, id: Id)
    | InsertActivity(id: Id, kind: Kind, entity: Id)
    | InsertSegment(id: Id, name: string, parent: Option<Id>)
    | DeleteSegment(id: Id)

  const EMPLOYEE := SystemType("Employee", Contact, Organization)
  const SUBSIDIARY := SystemType("Subsidiary", Organization, Organization)

  ghost function FullySeeded(s: Store, seeds: seq<Id>): Store {
    if |seeds| == |SYSTEM_TYPES| then Seeded(s, seeds, |seeds|) else s
  }

  /** The row a name lookup finds. */
  ghost function TypeFor(s: Store, d: SystemType): Id
    requires HasType(s, d)
  {
    var t :| t in s.types && IsNamed(s.types[t], d.name, d.sourceKind, d.targetKind);
    t
  }

  /** Seeds the system types, looks the link's type up and replaces the entity's link of that type. */
  ghost function LinkSet(s: Store, d: SystemType, source: Id, target: Option<Id>, id: Id, seeds: seq<Id>): Store {
    var s' := FullySeeded(s, seeds);
    if HasType(s', d) then Relinked(s', TypeFor(s', d), d.sourceKind, source, target, id) else s'
  }

  /** Random identifiers do not repeat, and the API turns reserved type names down. */
  ghost predicate Allowed(s: Store, op: Op) {
    match op
    case EnsureSystemTypes(seeds) => FreshTypeIds(s, seeds)
    case InsertType(id, name, reverseName, _, _) => id !in s.types && !IsReserved(name) && !IsReserved(reverseName)
    case DeleteType(_, seeds) => FreshTypeIds(s, seeds)
    case InsertRelationship(id, _) => id !in s.rels
    case SetEmployer(_, _, id, seeds) => id !in s.rels && FreshTypeIds(s, seeds)
    case SetHolding(_, _, id, seeds) => id !in s.rels && FreshTypeIds(s, seeds)
    case InsertOrganization(id, _) => id !in s.orgs
    case InsertContact(id) => id !in s.contacts
    case InsertActivity(id, _, _) => id !in s.activities
    case InsertSegment(id, _, _) => id !in s.segments
    case _ => true
  }

  ghost function Apply(s: Store, op: Op): Store {
    match op
    case EnsureSystemTypes(seeds) => FullySeeded(s, seeds)
    case InsertType(id, name, _, sourceKind, targetKind) => WithType(s, id, name, sourceKind, targetKind, false)
    case DeleteType(t, seeds) => WithoutType(FullySeeded(s, seeds), t)
    case InsertRelationship(id, rel) => WithRel(s, id, rel)
    case DeleteRelationship(id) => WithoutRel(s, id)
    case SetEmployer(contact, employer, id, seeds) => LinkSet(s, EMPLOYEE, contact, employer, id, seeds)
    case SetHolding(organization, holding, id, seeds) => LinkSet(s, SUBSIDIARY, organization, holding, id, seeds)
    case InsertOrganization(id, segments) => WithOrganization(s, id, segments)
    case UpdateOrganization(id, patch) => Repointed(s, id, patch)
    case InsertContact(id) => s.(contacts := s.contacts + {id})
    case DeleteEntity(kind, id) => WithoutEntity(s, kind, id)
    case InsertActivity(id, kind, entity) => WithActivity(s, id, kind, entity)
    case InsertSegment(id, name, parent) => WithSegment(s, id, name, parent)
    case DeleteSegment(id) => WithoutSegment(s, id)
  }

  datatype History = Fresh | Then(past: History, op: Op)

  const EMPTY := Store(map[], map[], map[], {}, map[], map[])

  ghost predicate IsHistory(h: History) {
    h.Then? ==> IsHistory(h.past) && Allowed(After(h.past), h.op)
  }

  ghost function After(h: History): Store {
    if h.Fresh? then EMPTY else Apply(After(h.past), h.op)
  }

  lemma LinkSetKeeps(s: Store, d: SystemType, source: Id, target: Option<Id>, id: Id, seeds: seq<Id>)
    requires Integrity(s) && id !in s.rels && FreshTypeIds(s, seeds)
    ensures Integrity(LinkSet(s, d, source, target, id, seeds))
  {
    SeedingKeeps(s, seeds, |seeds|);
    SeedingOnlyAdds(s, seeds, |seeds|);
    var s' := FullySeeded(s, seeds);
    if HasType(s', d) {
      RelinkKeeps(s', TypeFor(s', d), d.sourceKind, source, target, id);
    }
  }

  lemma StoringOrganizationKeeps(s: Store, id: Id, t: Triple)
    requires Integrity(s) && IsValidAssignment(s, t)
    ensures Integrity(s.(orgs := s.orgs[id := t]))
  {
  }

  lemma StoringContactKeeps(s: Store, id: Id)
    requires Integrity(s)
    ensures Integrity(s.(contacts := s.contacts + {id}))
  {
  }

  lemma StoringActivityKeeps(s: Store, id: Id, kind: Kind, entity: Id)
    requires Integrity(s)
    ensures Integrity(WithActivity(s, id, kind, entity))
  {
    GrowthKeeps(s, WithActivity(s, id, kind, entity));
  }

  lemma TypeStepsKeep(s: Store, op: Op)
    requires Integrity(s) && Allowed(s, op) && (op.EnsureSystemTypes? || op.InsertType? || op.DeleteType?)
    ensures Integrity(Apply(s, op))
  {
    match op
    case EnsureSystemTypes(seeds) => SeedingKeeps(s, seeds, |seeds|);
    case InsertType(id, name, _, sourceKind, targetKind) => WithTypeKeeps(s, id, name, sourceKind, targetKind, false);
    case DeleteType(t, seeds) =>
      SeedingKeeps(s, seeds, |seeds|);
      WithoutTypeKeeps(FullySeeded(s, seeds), t);
  }

  lemma StepKeepsIntegrity(s: Store, op: Op)
    requires Integrity(s) && Allowed(s, op)
    ensures Integrity(Apply(s, op))
  {
    match op
    case EnsureSystemTypes(_) => TypeStepsKeep(s, op);
    case InsertType(_, _, _, _, _) => TypeStepsKeep(s, op);
    case DeleteType(_, _) => TypeStepsKeep(s, op);
    case InsertRelationship(id, rel) => WithRelKeeps(s, id, rel);
    case DeleteRelationship(id) => WithoutRelKeeps(s, id);
    case SetEmployer(contact, employer, id, seeds) => LinkSetKeeps(s, EMPLOYEE, contact, employer, id, seeds);
    case SetHolding(organization, holding, id, seeds) => LinkSetKeeps(s, SUBSIDIARY, organization, holding, id, seeds);
    case InsertOrganization(id, segments) =>
      if IsValidAssignment(s, Normalized(segments)) {
        StoringOrganizationKeeps(s, id, Normalized(segments));
      }
    case UpdateOrganization(id, patch) =>
      if IsValidAssignment(s, Merged(patch, StoredTriple(s, id))) {
        StoringOrganizationKeeps(s, id, Merged(patch, StoredTriple(s, id)));
      }
    case InsertContact(id) => StoringContactKeeps(s, id);
    case DeleteEntity(kind, id) => WithoutEntityKeeps(s, kind, id);
    case InsertActivity(id, kind, entity) => StoringActivityKeeps(s, id, kind, entity);
    case InsertSegment(id, name, parent) => WithSegmentKeeps(s, id, name, parent);
    case DeleteSegment(id) => WithoutSegmentKeeps(s, id);
  }

  /** Cached counters, references and segments stay consistent on every run from an empty tenant. */
  lemma {:induction false} EveryRunKeepsIntegrity(h: History)
    requires IsHistory(h)
    ensures Integrity(After(h))
  {
    if h.Then? {
      EveryRunKeepsIntegrity(h.past);
      StepKeepsIntegrity(After(h.past), h.op);
    }
  }

  /** On every run the counter shown for a type is the number of its relationships. */
  lemma CountersAgreeOnEveryRun(h: History, t: Id)
    requires IsHistory(h) && t in After(h).types
    ensures After(h).types[t].usage == |set r | r in After(h).rels && After(h).rels[r].typeId == t|
  {
    EveryRunKeepsIntegrity(h);
    var s := After(h);
    assert s.types[t].usage == Usage(s.rels, t);
    assert OfType(s.rels, t) == set r | r in s.rels && s.rels[r].typeId == t;
  }

  /**
   On every run an organization's segments are none or a path of existing rows from its deepest layer
   up to a root.
   */
  lemma OrganizationsSitOnRootPaths(h: History, o: Id)
    requires IsHistory(h) && o in After(h).orgs
    ensures var s := After(h); Assigned(s.orgs[o]) == [] || IsRootPath(s.segments, Assigned(s.orgs[o]))
  {
    EveryRunKeepsIntegrity(h);
    var s := After(h);
    assert IsValidAssignment(s, s.orgs[o]);
    assert s.orgs[o] == Normalized(s.orgs[o]);
    ValidAssignmentsAreRootPaths(s, s.orgs[o]);
  }

  /** On every run each segment climbs to a root, one layer a step, in at most three rows. */
  lemma SegmentsAreAForestOnEveryRun(h: History, g: Id)
    requires IsHistory(h) && g in After(h).segments
    ensures var segments := After(h).segments;
      && 1 <= segments[g].layer <= 3
      && IsRootPath(segments, PathUp(segments, g, segments[g].layer))
  {
    EveryRunKeepsIntegrity(h);
    assert SegmentOk(After(h), After(h).segments[g]);
    EverySegmentHangsOnARoot(After(h), g);
  }

  // ---------- what single operations achieve ----------

  lemma TypeForIsTheOnlyOne(s: Store, d: SystemType, t: Id)
    requires NamesUnique(s) && t in s.types && IsNamed(s.types[t], d.name, d.sourceKind, d.targetKind)
    ensures HasType(s, d) && TypeFor(s, d) == t
  {
  }

  lemma OtherIsBuiltIn(sourceKind: Kind, targetKind: Kind) returns (i: nat)
    ensures i < |SYSTEM_TYPES| && SYSTEM_TYPES[i] == SystemType("Other", sourceKind, targetKind)
  {
    i := match (sourceKind, targetKind)
      case (Organization, Organization) => 6
      case (Organization, Contact) => 7
      case (Contact, Organization) => 8
      case (Contact, Contact) => 9;
  }

  /**
   For the repository alone: deleting a type that is in use fails for want of "Other" exactly when a custom type already
   holds that name for the same pair of kinds: seeding skips a name that is taken.
   */
  lemma MissingFallbackIffNameIsSquatted(s: Store, t: Id, seeds: seq<Id>)
    requires Integrity(s) && FreshTypeIds(s, seeds) && t in s.types && !s.types[t].isSystem && s.types[t].usage > 0
    ensures DeletionOutcome(FullySeeded(s, seeds), t) == MissingOtherFallback <==>
      exists u :: u in s.types && !s.types[u].isSystem
             && IsNamed(s.types[u], "Other", s.types[t].sourceKind, s.types[t].targetKind)
  {
    var s' := FullySeeded(s, seeds);
    var d := SystemType("Other", s.types[t].sourceKind, s.types[t].targetKind);
    var i := OtherIsBuiltIn(d.sourceKind, d.targetKind);
    SeedingCompletes(s, seeds, |seeds|, i);
    SeedingKeeps(s, seeds, |seeds|);
    SeedingOnlyAdds(s, seeds, |seeds|);
    SeedsAreSystemRows(s, seeds, |seeds|);
    var other := TypeFor(s', d);
    assert s'.types[other].isSystem ==> IsOtherFor(s', t, other);
    if o :| IsOtherFor(s', t, o) {
      TypeForIsTheOnlyOne(s', d, o);
    }
    if u :| u in s.types && !s.types[u].isSystem && IsNamed(s.types[u], d.name, d.sourceKind, d.targetKind) {
      TypeForIsTheOnlyOne(s', d, u);
    }
  }

  lemma {:induction false} SeedsAreSystemRows(s: Store, seeds: seq<Id>, n: nat)
    requires Integrity(s) && FreshTypeIds(s, seeds) && n <= |seeds|
    ensures forall u :: u in Seeded(s, seeds, n).types && u !in s.types ==> Seeded(s, seeds, n).types[u].isSystem
  {
    if n > 0 {
      SeedsAreSystemRows(s, seeds, n - 1);
    }
  }

  /**
   The two graphs have the same relationships with the same endpoints; those of `t` now have an
   "Other" type of its kinds.
   */
  ghost predicate OnlyRetyped(s: Store, s': Store, t: Id) {
    && s'.rels.Keys == s.rels.Keys
    && (forall r :: r in s.rels ==> s'.rels[r] == s.rels[r].(typeId := s'.rels[r].typeId))
    && (forall r :: r in s.rels && s.rels[r].typeId != t ==> s'.rels[r] == s.rels[r])
    && (forall r :: r in s.rels && s.rels[r].typeId == t ==> IsOtherFor(s, t, s'.rels[r].typeId))
  }

  lemma MovingOnlyRetypes(s: Store, t: Id, other: Id)
    requires IsOtherFor(s, t, other)
    ensures OnlyRetyped(s, MovedToOther(s, t, other), t)
  {
  }

  /** Deleting a type keeps the graph: its relationships become "Other" of the same kinds, nothing else changes. */
  lemma DeletingATypeKeepsTheGraph(s: Store, t: Id)
    requires Integrity(s) && DeletionOutcome(s, t) == Deleted
    ensures t !in WithoutType(s, t).types && OnlyRetyped(s, WithoutType(s, t), t)
  {
    if s.types[t].usage <= 0 {
      UnusedTypeHasNoRels(s, t);
      forall r | r in s.rels ensures s.rels[r].typeId != t {
        assert r !in OfType(s.rels, t);
      }
    } else {
      var other :| IsOtherFor(s, t, other)
        && WithoutType(s, t) == (var m := MovedToOther(s, t, other); m.(types := m.types - {t}));
      MovingOnlyRetypes(s, t, other);
    }
  }

  function Reversed(r: Rel): Rel {
    Rel(r.typeId, r.targetKind, r.targetId, r.sourceKind, r.sourceId)
  }

  /**
   The stored row always runs in the direction of its type and joins the two ends that were
   given; for a type between different kinds both ways to state it store the same row.
   */
  lemma EitherDirectionStoresTheSameLink(s: Store, id: Id, r: Rel)
    requires CanInsertRel(s, r)
    ensures var rt, stored := s.types[r.typeId], WithRel(s, id, r).rels[id];
      && stored.sourceKind == rt.sourceKind && stored.targetKind == rt.targetKind
      && (stored == r || stored == Reversed(r))
      && (r.sourceKind == rt.sourceKind && r.targetKind == rt.targetKind ==> stored == r)
      && (rt.sourceKind != rt.targetKind ==>
           CanInsertRel(s, Reversed(r)) && WithRel(s, id, Reversed(r)) == WithRel(s, id, r))
  {
  }

  /**
   Every link of type `t` that leaves the entity is gone but for the one new link, which is there when
   both ends exist and an organization is not linked to itself; all other relationships stay.
   */
  ghost predicate IsReplaced(s: Store, s': Store, t: Id, kind: Kind, source: Id, target: Option<Id>, id: Id) {
    && (forall r :: r != id ==>
          (r in s'.rels <==>
            && r in s.rels
            && !(s.rels[r].typeId == t && s.rels[r].sourceKind == kind && s.rels[r].sourceId == source)))
    && (forall r :: r in s'.rels && r != id ==> s'.rels[r] == s.rels[r])
    && (id in s'.rels <==>
          && target.Some? && target.value in s.orgs
          && (kind == Organization ==> source in s.orgs && source != target.value)
          && (kind == Contact ==> source in s.contacts))
    && (id in s'.rels ==>
          && s'.rels[id].typeId == t && s'.rels[id].sourceKind == kind && s'.rels[id].sourceId == source
          && s'.rels[id].targetKind == Organization && s'.rels[id].targetId == target.value)
  }

  lemma UnlinkLeavesNone(s: Store, t: Id, kind: Kind, source: Id)
    requires t in s.types
    ensures var m := Unlinked(s, t, kind, source);
      && OutLinks(m, t, kind, source) == {} && t in m.types && SameName(m.types[t], s.types[t])
      && (forall r :: r in m.rels <==> r in s.rels && r !in OutLinks(s, t, kind, source))
      && (forall r :: r in m.rels ==> m.rels[r] == s.rels[r])
  {
  }

  lemma RelinkReplaces(s: Store, t: Id, kind: Kind, source: Id, target: Option<Id>, id: Id)
    requires id !in s.rels && t in s.types
    requires s.types[t].sourceKind == kind && s.types[t].targetKind == Organization
    ensures IsReplaced(s, Relinked(s, t, kind, source, target, id), t, kind, source, target, id)
  {
    var m := Unlinked(s, t, kind, source);
    UnlinkLeavesNone(s, t, kind, source);
    if target.Some? && target.value in s.orgs && !(kind == Organization && target.value == source) {
      var r := Rel(t, kind, source, Organization, target.value);
      assert Oriented(m.types[t], r) == Some(r);
      assert CanInsertRel(m, r) <==> EntityExists(s, kind, source);
    }
  }

  /** The lookup of a seeded type finds a row of that name and direction. */
  lemma SeededTypeIsFound(s: Store, i: nat, seeds: seq<Id>)
    requires Integrity(s) && FreshTypeIds(s, seeds) && i < |SYSTEM_TYPES|
    ensures var m, d := FullySeeded(s, seeds), SYSTEM_TYPES[i];
      HasType(m, d) && TypeFor(m, d) in m.types && IsNamed(m.types[TypeFor(m, d)], d.name, d.sourceKind, d.targetKind)
  {
    SeedingCompletes(s, seeds, |seeds|, i);
  }

  lemma LinkIsReplaced(s: Store, i: nat, source: Id, target: Option<Id>, id: Id, seeds: seq<Id>)
    requires Integrity(s) && id !in s.rels && FreshTypeIds(s, seeds)
    requires i < |SYSTEM_TYPES| && SYSTEM_TYPES[i].targetKind == Organization
    ensures var m, d := FullySeeded(s, seeds), SYSTEM_TYPES[i];
      HasType(m, d)
      && IsReplaced(s, LinkSet(s, d, source, target, id, seeds), TypeFor(m, d), d.sourceKind, source, target, id)
  {
    var m, d := FullySeeded(s, seeds), SYSTEM_TYPES[i];
    SeededTypeIsFound(s, i, seeds);
    SeedingOnlyAdds(s, seeds, |seeds|);
    RelinkReplaces(m, TypeFor(m, d), d.sourceKind, source, target, id);
    ReplacedInBoth(s, m, LinkSet(s, d, source, target, id, seeds), TypeFor(m, d), d.sourceKind, source, target, id);
  }

  /** Seeding touches neither entities nor relationships, so replacing after it is replacing before it. */
  lemma ReplacedInBoth(s: Store, m: Store, s': Store, t: Id, kind: Kind, source: Id, target: Option<Id>, id: Id)
    requires m.rels == s.rels && m.orgs == s.orgs && m.contacts == s.contacts
    requires IsReplaced(m, s', t, kind, source, target, id)
    ensures IsReplaced(s, s', t, kind, source, target, id)
  {
  }

  /**
   Setting an employer leaves the contact with exactly that one employer link when both rows
   exist and with none otherwise, and leaves everybody else's relationships alone.
   */
  lemma EmployerIsReplaced(s: Store, contact: Id, employer: Option<Id>, id: Id, seeds: seq<Id>)
    requires Integrity(s) && id !in s.rels && FreshTypeIds(s, seeds)
    ensures HasType(FullySeeded(s, seeds), EMPLOYEE)
    ensures IsReplaced(s, LinkSet(s, EMPLOYEE, contact, employer, id, seeds),
                       TypeFor(FullySeeded(s, seeds), EMPLOYEE), Contact, contact, employer, id)
  {
    assert SYSTEM_TYPES[0] == EMPLOYEE;
    LinkIsReplaced(s, 0, contact, employer, id, seeds);
  }

  /**
   Setting a holding does the same for an organization, which never becomes its own holding:
   naming itself only removes the link it had.
   */
  lemma HoldingIsReplaced(s: Store, organization: Id, holding: Option<Id>, id: Id, seeds: seq<Id>)
    requires Integrity(s) && id !in s.rels && FreshTypeIds(s, seeds)
    ensures HasType(FullySeeded(s, seeds), SUBSIDIARY)
    ensures IsReplaced(s, LinkSet(s, SUBSIDIARY, organization, holding, id, seeds),
                       TypeFor(FullySeeded(s, seeds), SUBSIDIARY), Organization, organization, holding, id)
  {
    assert SYSTEM_TYPES[3] == SUBSIDIARY;
    LinkIsReplaced(s, 3, organization, holding, id, seeds);
  }
}
