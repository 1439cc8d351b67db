/**
 The CRM tables of one tenant and what the repository functions do to them, as functions on
 values: relationship types with a cached usage counter, relationships, entities, activities
 and the three-layer market segments that organizations point into.
 */
module CrmGraph {
  import opened Wrappers

  type Id = nat

  datatype Kind = Organization | Contact

  datatype RelType = RelType(name: string, sourceKind: Kind, targetKind: Kind, isSystem: bool, usage: int)

  datatype Rel = Rel(typeId: Id, sourceKind: Kind, sourceId: Id, targetKind: Kind, targetId: Id)

  datatype Activity = Activity(kind: Kind, entity: Id)

  datatype Segment = Segment(layer: int, parent: Option<Id>, name: string)

  /** The three market segment columns of an organization. */
  datatype Triple = Triple(layer1: Option<Id>, layer2: Option<Id>, layer3: Option<Id>)

  datatype Store = Store(
    types: map<Id, RelType>, rels: map<Id, Rel>, orgs: map<Id, Triple>, contacts: set<Id>,
    activities: map<Id, Activity>, segments: map<Id, Segment>)

  predicate EntityExists(s: Store, kind: Kind, id: Id) {
    match kind
    case Organization => id in s.orgs
    case Contact => id in s.contacts
  }

  // ---------- usage counters ----------

  ghost function OfType(rels: map<Id, Rel>, t: Id): set<Id> {
    set r | r in rels && rels[r].typeId == t
  }

  /** How many relationships a type really has. */
  ghost function Usage(rels: map<Id, Rel>, t: Id): nat {
    |OfType(rels, t)|
  }

  /** GREATEST(0, usage + delta), for the one type that is named. */
  function Adjusted(types: map<Id, RelType>, t: Id, delta: int): map<Id, RelType> {
    if delta == 0 || t !in types then types
    else types[t := types[t].(usage := Max(0, types[t].usage + delta))]
  }

  // ---------- relationship types ----------

  predicate IsNamed(rt: RelType, name: string, sourceKind: Kind, targetKind: Kind) {
    rt.name == name && rt.sourceKind == sourceKind && rt.targetKind == targetKind
  }

  /** The unique index on (tenant, name, source kind, target kind). */
  predicate NameTaken(s: Store, name: string, sourceKind: Kind, targetKind: Kind) {
    exists t :: t in s.types && IsNamed(s.types[t], name, sourceKind, targetKind)
  }

  function WithType(s: Store, id: Id, name: string, sourceKind: Kind, targetKind: Kind, isSystem: bool): Store {
    if NameTaken(s, name, sourceKind, targetKind) then s
    else s.(types := s.types[id := RelType(name, sourceKind, targetKind, isSystem, 0)])
  }

  datatype SystemType = SystemType(name: string, sourceKind: Kind, targetKind: Kind)

  const SYSTEM_TYPES: seq<SystemType> := [
    SystemType("Employee", Contact, Organization),
    SystemType("Spouse", Contact, Contact),
    SystemType("Colleague", Contact, Contact),
    SystemType("Subsidiary", Organization, Organization),
    SystemType("Subsidiary (competing)", Organization, Organization),
    SystemType("Subsidiary (partner)", Organization, Organization),
    SystemType("Other", Organization, Organization),
    SystemType("Other", Organization, Contact),
    SystemType("Other", Contact, Organization),
    SystemType("Other", Contact, Contact)]

  /** The labels of the same types read from target to source. */
  const REVERSE_NAMES := [
    "Employer", "Spouse", "Colleague", "Holding", "Competitor", "Partner", "Other", "Other", "Other", "Other"]

  function LowerChar(c: char): char {
    if 'A' <= c <= 'Z' then (c as int + 32) as char else c
  }

  /** Lower case, for the letters that the built-in names are made of. */
  function Folded(s: string): string {
    seq(|s|, i requires 0 <= i < |s| => LowerChar(s[i]))
  }

  /** The API accepts no custom type whose name or reverse name is a built-in one in any case. */
  predicate IsReserved(name: string) {
    || (exists d :: d in SYSTEM_TYPES && Folded(name) == Folded(d.name))
    || (exists r :: r in REVERSE_NAMES && Folded(name) == Folded(r))
  }

  predicate HasType(s: Store, d: SystemType) {
    NameTaken(s, d.name, d.sourceKind, d.targetKind)
  }

  function WithSystemType(s: Store, id: Id, d: SystemType): Store {
    WithType(s, id, d.name, d.sourceKind, d.targetKind, true)
  }

  /** Seeds the first `n` system types that are missing; `ids` are the random UUIDs. */
  function Seeded(s: Store, ids: seq<Id>, n: nat): Store
    requires n <= |ids| && n <= |SYSTEM_TYPES|
  {
    if n == 0 then s
    else WithSystemType(Seeded(s, ids, n - 1), ids[n - 1], SYSTEM_TYPES[n - 1])
  }

  predicate IsOtherFor(s: Store, t: Id, other: Id) {
    && t in s.types && other in s.types && s.types[other].isSystem
    && IsNamed(s.types[other], "Other", s.types[t].sourceKind, s.types[t].targetKind)
  }

  function Retyped(rels: map<Id, Rel>, t: Id, other: Id): map<Id, Rel> {
    map r | r in rels :: if rels[r].typeId == t then rels[r].(typeId := other) else rels[r]
  }

  /** The relationships of `t` move to `other`, whose counter takes over the cached count of `t`. */
  function MovedToOther(s: Store, t: Id, other: Id): Store
    requires t in s.types
  {
    s.(rels := Retyped(s.rels, t, other), types := Adjusted(s.types, other, s.types[t].usage))
  }

  datatype TypeDeletion = Deleted | NotFound | SystemRow | MissingOtherFallback

  /** What deleting a type answers, once the system types have been seeded. */
  ghost function DeletionOutcome(s: Store, t: Id): TypeDeletion {
    if t !in s.types then NotFound
    else if s.types[t].isSystem then SystemRow
    else if s.types[t].usage > 0 && !exists o :: IsOtherFor(s, t, o) then MissingOtherFallback
    else Deleted
  }

  /** Deletes a custom type; "Other" matters only when the cached counter says the type is used. */
  ghost function WithoutType(s: Store, t: Id): Store {
    if !DeletionOutcome(s, t).Deleted? then s
    else if s.types[t].usage <= 0 then s.(types := s.types - {t})
    else
      var other :| IsOtherFor(s, t, other);
      var s' := MovedToOther(s, t, other);
      s'.(types := s'.types - {t})
  }

  // ---------- relationships ----------

  /** The stored direction of an input, or None when the kinds do not fit the type either way. */
  function Oriented(rt: RelType, r: Rel): Option<Rel> {
    if r.sourceKind == rt.sourceKind && r.targetKind == rt.targetKind then Some(r)
    else if r.sourceKind == rt.targetKind && r.targetKind == rt.sourceKind then
      Some(r.(sourceId := r.targetId, sourceKind := r.targetKind, targetId := r.sourceId, targetKind := r.sourceKind))
    else None
  }

  predicate CanInsertRel(s: Store, r: Rel) {
    && r.typeId in s.types
    && Oriented(s.types[r.typeId], r).Some?
    && var o := Oriented(s.types[r.typeId], r).value;
    EntityExists(s, o.sourceKind, o.sourceId) && EntityExists(s, o.targetKind, o.targetId)
  }

  function WithRel(s: Store, id: Id, r: Rel): Store {
    if !CanInsertRel(s, r) then s
    else s.(rels := s.rels[id := Oriented(s.types[r.typeId], r).value], types := Adjusted(s.types, r.typeId, 1))
  }

  /** Deletes relationships of one type and lowers its counter by their number. */
  function WithoutRels(s: Store, t: Id, doomed: set<Id>): Store {
    s.(rels := s.rels - doomed, types := Adjusted(s.types, t, -|doomed|))
  }

  function WithoutRel(s: Store, id: Id): Store {
    if id !in s.rels then s else WithoutRels(s, s.rels[id].typeId, {id})
  }

  ghost function OutLinks(s: Store, t: Id, kind: Kind, source: Id): set<Id> {
    set r | r in s.rels && s.rels[r].typeId == t && s.rels[r].sourceKind == kind && s.rels[r].sourceId == source
  }

  /** Drops every link of type `t` that leaves the entity; the counter falls by their number. */
  ghost function Unlinked(s: Store, t: Id, kind: Kind, source: Id): Store {
    WithoutRels(s, t, OutLinks(s, t, kind, source))
  }

  /**
   Replaces the employer of a contact or the holding of an organization; an absent target, an
   organization as its own holding and a missing organization only unlink.
   */
  ghost function Relinked(s: Store, t: Id, kind: Kind, source: Id, target: Option<Id>, id: Id): Store {
    var s' := Unlinked(s, t, kind, source);
    if target.None? || (kind == Organization && target.value == source) || target.value !in s.orgs then s'
    else WithRel(s', id, Rel(t, kind, source, Organization, target.value))
  }

  // ---------- entities and activities ----------

  predicate Touches(r: Rel, kind: Kind, id: Id) {
    (r.sourceKind == kind && r.sourceId == id) || (r.targetKind == kind && r.targetId == id)
  }

  ghost function Touching(rels: map<Id, Rel>, kind: Kind, id: Id): set<Id> {
    set r | r in rels && Touches(rels[r], kind, id)
  }

  /** The grouped decrements of an entity deletion: one clamped update per type that loses relationships. */
  ghost function Decremented(types: map<Id, RelType>, rels: map<Id, Rel>, doomed: set<Id>): map<Id, RelType> {
    map t | t in types :: types[t].(usage := var n := |OfType(rels, t) * doomed|;
                                             if n == 0 then types[t].usage else Max(0, types[t].usage - n))
  }

  ghost function WithoutEntity(s: Store, kind: Kind, id: Id): Store {
    if !EntityExists(s, kind, id) then s
    else
      var doomed := Touching(s.rels, kind, id);
      s.(activities := map a | a in s.activities && s.activities[a] != Activity(kind, id) :: s.activities[a],
         rels := s.rels - doomed,
         types := Decremented(s.types, s.rels, doomed),
         orgs := if kind == Organization then s.orgs - {id} else s.orgs,
         contacts := if kind == Contact then s.contacts - {id} else s.contacts)
  }

  function WithActivity(s: Store, id: Id, kind: Kind, entity: Id): Store {
    if EntityExists(s, kind, entity) then s.(activities := s.activities[id := Activity(kind, entity)]) else s
  }

  // ---------- market segments ----------

  datatype SegmentError = ParentNotFound | MaxDepth | SegmentExists | StillHasChildren | InUse | InvalidSegment

  function SegmentLayer(s: Store, parent: Option<Id>): Result<int, SegmentError> {
    if parent.None? then Ok(1)
    else if parent.value !in s.segments then Err(ParentNotFound)
    else if s.segments[parent.value].layer >= 3 then Err(MaxDepth)
    else Ok(s.segments[parent.value].layer + 1)
  }

  function WithSegment(s: Store, id: Id, name: string, parent: Option<Id>): Store {
    var layer := SegmentLayer(s, parent);
    if layer.Err? then s else s.(segments := s.segments[id := Segment(layer.value, parent, name)])
  }

  predicate HasChildren(s: Store, id: Id) {
    exists k :: k in s.segments && s.segments[k].parent == Some(id)
  }

  predicate UsesSegment(t: Triple, id: Id) {
    t.layer1 == Some(id) || t.layer2 == Some(id) || t.layer3 == Some(id)
  }

  predicate IsUsed(s: Store, id: Id) {
    exists o :: o in s.orgs && UsesSegment(s.orgs[o], id)
  }

  function WithoutSegment(s: Store, id: Id): Store {
    if id !in s.segments || HasChildren(s, id) || IsUsed(s, id) then s
    else s.(segments := s.segments - {id})
  }

  /** A missing layer clears the layers below it. */
  function Normalized(t: Triple): Triple {
    if t.layer1.None? then Triple(None, None, None)
    else if t.layer2.None? then Triple(t.layer1, None, None)
    else t
  }

  predicate IsAt(s: Store, id: Id, layer: int) {
    id in s.segments && s.segments[id].layer == layer
  }

  /** The checks before an assignment is stored. */
  predicate IsValidAssignment(s: Store, t: Triple) {
    if t.layer1.None? then t.layer2.None? && t.layer3.None?
    else
      && IsAt(s, t.layer1.value, 1)
      && (t.layer2.None? ==> t.layer3.None?)
      && (t.layer2.Some? ==> IsAt(s, t.layer2.value, 2) && s.segments[t.layer2.value].parent == t.layer1)
      && (t.layer2.Some? && t.layer3.Some? ==>
            IsAt(s, t.layer3.value, 3) && s.segments[t.layer3.value].parent == t.layer2)
  }

  function WithOrganization(s: Store, id: Id, t: Triple): Store {
    if IsValidAssignment(s, Normalized(t)) then s.(orgs := s.orgs[id := Normalized(t)]) else s
  }

  /** `undefined` leaves a layer as stored; `null` clears it. */
  datatype Patch = Patch(layer1: Option<Option<Id>>, layer2: Option<Option<Id>>, layer3: Option<Option<Id>>)

  function Merged(p: Patch, t: Triple): Triple {
    Normalized(Triple(if p.layer1.Some? then p.layer1.value else t.layer1,
                      if p.layer2.Some? then p.layer2.value else t.layer2,
                      if p.layer3.Some? then p.layer3.value else t.layer3))
  }

  predicate IsTouched(p: Patch) {
    p.layer1.Some? || p.layer2.Some? || p.layer3.Some?
  }

  function StoredTriple(s: Store, id: Id): Triple {
    if id in s.orgs then s.orgs[id] else Triple(None, None, None)
  }

  function Repointed(s: Store, id: Id, p: Patch): Store {
    var next := Merged(p, StoredTriple(s, id));
    if !IsTouched(p) || !IsValidAssignment(s, next) || id !in s.orgs then s
    else s.(orgs := s.orgs[id := next])
  }

  // ---------- integrity ----------

  ghost predicate CountersAgree(s: Store) {
    forall t :: t in s.types ==> s.types[t].usage == Usage(s.rels, t)
  }

  ghost predicate RelOk(s: Store, r: Rel) {
    && r.typeId in s.types
    && r.sourceKind == s.types[r.typeId].sourceKind && r.targetKind == s.types[r.typeId].targetKind
    && EntityExists(s, r.sourceKind, r.sourceId) && EntityExists(s, r.targetKind, r.targetId)
  }

  ghost predicate RelsOk(s: Store) {
    forall r :: r in s.rels ==> RelOk(s, s.rels[r])
  }

  ghost predicate ActivitiesOk(s: Store) {
    forall a :: a in s.activities ==> EntityExists(s, s.activities[a].kind, s.activities[a].entity)
  }

  predicate SameName(a: RelType, b: RelType) {
    IsNamed(a, b.name, b.sourceKind, b.targetKind)
  }

  ghost predicate NamesUnique(s: Store) {
    forall t, u :: t in s.types && u in s.types && SameName(s.types[t], s.types[u]) ==> t == u
  }

  ghost predicate SegmentOk(s: Store, g: Segment) {
    && 1 <= g.layer <= 3
    && (g.parent.None? <==> g.layer == 1)
    && (g.parent.Some? ==> IsAt(s, g.parent.value, g.layer - 1))
  }

  ghost predicate SegmentsOk(s: Store) {
    forall g :: g in s.segments ==> SegmentOk(s, s.segments[g])
  }

  ghost predicate OrgsOk(s: Store) {
    forall o :: o in s.orgs ==> IsValidAssignment(s, s.orgs[o])
  }

  ghost predicate Integrity(s: Store) {
    CountersAgree(s) && RelsOk(s) && ActivitiesOk(s) && NamesUnique(s) && SegmentsOk(s) && OrgsOk(s)
  }
}
