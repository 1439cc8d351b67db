/**
 What every operation on the CRM tables keeps: the cached counters count the relationships,
 every reference points at a row that exists, and the segments form a forest of at most three
 layers in which every organization sits on a path from a root.
 */
module CrmIntegrity {
  import opened Wrappers
  import opened CrmGraph

  // ---------- counting relationships ----------

  lemma InsertCounts(rels: map<Id, Rel>, id: Id, r: Rel, t: Id)
    requires id !in rels
    ensures Usage(rels[id := r], t) == Usage(rels, t) + if r.typeId == t then 1 else 0
  {
    var after := OfType(rels[id := r], t);
    assert after == if r.typeId == t then OfType(rels, t) + {id} else OfType(rels, t);
  }

  lemma RemoveCounts(rels: map<Id, Rel>, doomed: set<Id>, t: Id)
    ensures Usage(rels - doomed, t) == Usage(rels, t) - |OfType(rels, t) * doomed|
  {
    assert OfType(rels - doomed, t) == OfType(rels, t) - doomed;
  }

  lemma RetypeCounts(rels: map<Id, Rel>, t: Id, other: Id, u: Id)
    requires t != other
    ensures Usage(Retyped(rels, t, other), t) == 0
    ensures Usage(Retyped(rels, t, other), other) == Usage(rels, t) + Usage(rels, other)
    ensures u != t && u != other ==> Usage(Retyped(rels, t, other), u) == Usage(rels, u)
  {
    var moved := Retyped(rels, t, other);
    assert OfType(moved, t) == {};
    assert OfType(moved, other) == OfType(rels, t) + OfType(rels, other);
    assert OfType(rels, t) * OfType(rels, other) == {};
    if u != t && u != other {
      assert OfType(moved, u) == OfType(rels, u);
    }
  }

  lemma UnusedTypeHasNoRels(s: Store, t: Id)
    requires CountersAgree(s) && t in s.types && s.types[t].usage == 0
    ensures OfType(s.rels, t) == {}
  {
  }

  lemma UnknownTypeHasNoRels(s: Store, t: Id)
    requires RelsOk(s) && t !in s.types
    ensures OfType(s.rels, t) == {}
  {
  }

  /**
   GREATEST(0, ...) never changes a value: whatever relationships are about to go, no counter
   would fall below zero, so the grouped decrement of an entity deletion is plain subtraction.
   */
  lemma ClampNeverBinds(s: Store, doomed: set<Id>, t: Id)
    requires Integrity(s) && t in s.types
    ensures |OfType(s.rels, t) * doomed| <= s.types[t].usage
    ensures Decremented(s.types, s.rels, doomed)[t].usage == s.types[t].usage - |OfType(s.rels, t) * doomed|
  {
    RemoveCounts(s.rels, doomed, t);
  }

  // ---------- relationship types ----------

  lemma WithTypeKeeps(s: Store, id: Id, name: string, sourceKind: Kind, targetKind: Kind, isSystem: bool)
    requires Integrity(s) && id !in s.types
    ensures Integrity(WithType(s, id, name, sourceKind, targetKind, isSystem))
  {
    if !NameTaken(s, name, sourceKind, targetKind) {
      var s' := WithType(s, id, name, sourceKind, targetKind, isSystem);
      assert NamesUnique(s');
      UnknownTypeHasNoRels(s, id);
      assert CountersAgree(s');
      assert RelsOk(s') by {
        forall r | r in s'.rels ensures RelOk(s', s'.rels[r]) {
          assert RelOk(s, s.rels[r]);
        }
      }
      SameReferences(s, s');
    }
  }

  /** What depends only on entities and segments survives when those tables stay. */
  lemma SameReferences(s: Store, s': Store)
    requires ActivitiesOk(s) && SegmentsOk(s) && OrgsOk(s)
    requires s'.orgs == s.orgs && s'.contacts == s.contacts
    requires s'.activities == s.activities && s'.segments == s.segments
    ensures ActivitiesOk(s') && SegmentsOk(s') && OrgsOk(s')
  {
  }

  ghost predicate FreshTypeIds(s: Store, ids: seq<Id>) {
    && |ids| == |SYSTEM_TYPES|
    && (forall i, j :: 0 <= i < j < |ids| ==> ids[i] != ids[j])
    && (forall i :: 0 <= i < |ids| ==> ids[i] !in s.types)
  }

  lemma {:induction false} SeedingKeeps(s: Store, ids: seq<Id>, n: nat)
    requires Integrity(s) && FreshTypeIds(s, ids) && n <= |ids|
    ensures Integrity(Seeded(s, ids, n))
    ensures Seeded(s, ids, n).types.Keys <= s.types.Keys + set i | 0 <= i < n :: ids[i]
  {
    if n > 0 {
      SeedingKeeps(s, ids, n - 1);
      var past := Seeded(s, ids, n - 1);
      assert ids[n - 1] !in past.types;
      var d := SYSTEM_TYPES[n - 1];
      WithTypeKeeps(past, ids[n - 1], d.name, d.sourceKind, d.targetKind, true);
    }
  }

  lemma WithSystemTypeHas(s: Store, id: Id, d: SystemType, e: SystemType)
    requires id !in s.types
    requires e == d || HasType(s, e)
    ensures HasType(WithSystemType(s, id, d), e)
  {
    var after := WithSystemType(s, id, d);
    if HasType(s, e) {
      var t :| t in s.types && IsNamed(s.types[t], e.name, e.sourceKind, e.targetKind);
      assert t in after.types && after.types[t] == s.types[t];
    } else {
      assert IsNamed(after.types[id], e.name, e.sourceKind, e.targetKind);
    }
  }

  /** Seeding only adds rows: the ones that exist stay as they are. */
  lemma {:induction false} SeedingOnlyAdds(s: Store, ids: seq<Id>, n: nat)
    requires Integrity(s) && FreshTypeIds(s, ids) && n <= |ids|
    ensures forall t :: t in s.types ==> t in Seeded(s, ids, n).types && Seeded(s, ids, n).types[t] == s.types[t]
    ensures Seeded(s, ids, n) == s.(types := Seeded(s, ids, n).types)
  {
    if n > 0 {
      SeedingOnlyAdds(s, ids, n - 1);
    }
  }

  lemma NextSeedIsNew(s: Store, ids: seq<Id>, n: nat)
    requires Integrity(s) && FreshTypeIds(s, ids) && n < |ids|
    ensures ids[n] !in Seeded(s, ids, n).types
  {
    SeedingKeeps(s, ids, n);
  }

  /** After seeding, every built-in name is taken. */
  lemma {:induction false} SeedingCompletes(s: Store, ids: seq<Id>, n: nat, i: nat)
    requires Integrity(s) && FreshTypeIds(s, ids) && i < n <= |ids|
    ensures HasType(Seeded(s, ids, n), SYSTEM_TYPES[i])
  {
    NextSeedIsNew(s, ids, n - 1);
    var past := Seeded(s, ids, n - 1);
    if i < n - 1 {
      SeedingCompletes(s, ids, n - 1, i);
    }
    WithSystemTypeHas(past, ids[n - 1], SYSTEM_TYPES[n - 1], SYSTEM_TYPES[i]);
  }

  lemma SeedingTwiceChangesNothing(s: Store, ids: seq<Id>, again: seq<Id>)
    requires Integrity(s) && FreshTypeIds(s, ids)
    requires FreshTypeIds(Seeded(s, ids, |ids|), again)
    ensures Seeded(Seeded(s, ids, |ids|), again, |again|) == Seeded(s, ids, |ids|)
  {
    var m := Seeded(s, ids, |ids|);
    SeedingCompletesAll(s, ids);
    SeededStays(m, again, |again|);
  }

  ghost predicate HasTypesBelow(s: Store, n: nat)
    requires n <= |SYSTEM_TYPES|
  {
    forall i :: 0 <= i < n ==> HasType(s, SYSTEM_TYPES[i])
  }

  lemma SeedingCompletesAll(s: Store, ids: seq<Id>)
    requires Integrity(s) && FreshTypeIds(s, ids)
    ensures HasTypesBelow(Seeded(s, ids, |ids|), |ids|)
  {
    forall i | 0 <= i < |ids| ensures HasType(Seeded(s, ids, |ids|), SYSTEM_TYPES[i]) {
      SeedingCompletes(s, ids, |ids|, i);
    }
  }

  lemma {:induction false} SeededStays(s: Store, ids: seq<Id>, n: nat)
    requires n <= |ids| && n <= |SYSTEM_TYPES| && HasTypesBelow(s, n)
    ensures Seeded(s, ids, n) == s
  {
    if n > 0 {
      SeededStays(s, ids, n - 1);
    }
  }

  lemma RetypingCounts(s: Store, t: Id, other: Id, u: Id)
    requires CountersAgree(s) && IsOtherFor(s, t, other) && t != other && u in s.types && u != t
    ensures MovedToOther(s, t, other).types[u].usage == Usage(Retyped(s.rels, t, other), u)
  {
    RetypeCounts(s.rels, t, other, u);
    assert s.types[u].usage == Usage(s.rels, u);
    assert s.types[t].usage == Usage(s.rels, t);
  }

  lemma RetypingKeepsRel(s: Store, t: Id, other: Id, r: Rel)
    requires RelOk(s, r) && IsOtherFor(s, t, other) && t != other
    ensures var m := MovedToOther(s, t, other);
      RelOk(m.(types := m.types - {t}), if r.typeId == t then r.(typeId := other) else r)
  {
  }

  lemma RetypingKeeps(s: Store, t: Id, other: Id)
    requires Integrity(s) && IsOtherFor(s, t, other) && t != other
    ensures var m := MovedToOther(s, t, other); Integrity(m.(types := m.types - {t}))
  {
    var m := MovedToOther(s, t, other);
    var s' := m.(types := m.types - {t});
    forall u | u in s'.types ensures s'.types[u].usage == Usage(s'.rels, u) {
      RetypingCounts(s, t, other, u);
    }
    forall r | r in s'.rels ensures RelOk(s', s'.rels[r]) {
      RetypingKeepsRel(s, t, other, s.rels[r]);
    }
    FewerTypesUnique(s, s');
    SameReferences(s, s');
  }

  lemma FewerTypesUnique(s: Store, s': Store)
    requires NamesUnique(s) && s'.types.Keys <= s.types.Keys
    requires forall t :: t in s'.types ==> SameName(s'.types[t], s.types[t])
    ensures NamesUnique(s')
  {
    forall u, v | u in s'.types && v in s'.types && SameName(s'.types[u], s'.types[v]) ensures u == v {
      assert SameName(s.types[u], s.types[v]);
    }
  }

  lemma WithoutTypeKeeps(s: Store, t: Id)
    requires Integrity(s)
    ensures Integrity(WithoutType(s, t))
  {
    if !DeletionOutcome(s, t).Deleted? {
    } else if s.types[t].usage <= 0 {
      var s' := WithoutType(s, t);
      UnusedTypeHasNoRels(s, t);
      assert RelsOk(s') by {
        forall r | r in s'.rels ensures RelOk(s', s'.rels[r]) {
          assert RelOk(s, s.rels[r]) && r !in OfType(s.rels, t);
        }
      }
      SameReferences(s, s');
    } else {
      var other :| IsOtherFor(s, t, other)
        && WithoutType(s, t) == (var m := MovedToOther(s, t, other); m.(types := m.types - {t}));
      RetypingKeeps(s, t, other);
    }
  }

  // ---------- relationships ----------

  lemma WithRelCounts(s: Store, id: Id, r: Rel, t: Id)
    requires CountersAgree(s) && id !in s.rels && CanInsertRel(s, r) && t in s.types
    ensures WithRel(s, id, r).types[t].usage == Usage(WithRel(s, id, r).rels, t)
  {
    InsertCounts(s.rels, id, Oriented(s.types[r.typeId], r).value, t);
    assert s.types[t].usage == Usage(s.rels, t);
  }

  lemma WithRelKeepsRel(s: Store, id: Id, r: Rel, k: Rel)
    requires CanInsertRel(s, r)
    requires RelOk(s, k) || k == Oriented(s.types[r.typeId], r).value
    ensures RelOk(WithRel(s, id, r), k)
  {
  }

  lemma WithRelKeeps(s: Store, id: Id, r: Rel)
    requires Integrity(s) && id !in s.rels
    ensures Integrity(WithRel(s, id, r))
  {
    if CanInsertRel(s, r) {
      var s' := WithRel(s, id, r);
      forall t | t in s'.types ensures s'.types[t].usage == Usage(s'.rels, t) {
        WithRelCounts(s, id, r, t);
      }
      forall k | k in s'.rels ensures RelOk(s', s'.rels[k]) {
        WithRelKeepsRel(s, id, r, s'.rels[k]);
      }
      assert NamesUnique(s') by {
        forall u, v | u in s'.types && v in s'.types && SameName(s'.types[u], s'.types[v]) ensures u == v {
          assert SameName(s.types[u], s.types[v]);
        }
      }
      SameReferences(s, s');
    }
  }

  lemma WithoutRelsCounts(s: Store, t: Id, doomed: set<Id>, u: Id)
    requires CountersAgree(s) && doomed <= OfType(s.rels, t) && u in s.types
    ensures WithoutRels(s, t, doomed).types[u].usage == Usage(s.rels - doomed, u)
  {
    RemoveCounts(s.rels, doomed, u);
    assert s.types[u].usage == Usage(s.rels, u);
    assert OfType(s.rels, u) * doomed == if u == t then doomed else {};
  }

  lemma FewerRelsOk(s: Store, s': Store)
    requires RelsOk(s) && NamesUnique(s)
    requires s'.rels.Keys <= s.rels.Keys && (forall r :: r in s'.rels ==> s'.rels[r] == s.rels[r])
    requires s'.orgs == s.orgs && s'.contacts == s.contacts
    requires s'.types.Keys == s.types.Keys && (forall t :: t in s.types ==> SameName(s'.types[t], s.types[t]))
    ensures RelsOk(s') && NamesUnique(s')
  {
  }

  lemma FewerRelsKeep(s: Store, s': Store)
    requires Integrity(s) && CountersAgree(s')
    requires s' == s.(types := s'.types, rels := s'.rels)
    requires s'.rels.Keys <= s.rels.Keys && (forall r :: r in s'.rels ==> s'.rels[r] == s.rels[r])
    requires s'.types.Keys == s.types.Keys && (forall t :: t in s.types ==> SameName(s'.types[t], s.types[t]))
    ensures Integrity(s')
  {
    FewerRelsOk(s, s');
    SameReferences(s, s');
  }

  lemma WithoutRelsShape(s: Store, t: Id, doomed: set<Id>)
    ensures var s' := WithoutRels(s, t, doomed);
      && s'.rels.Keys <= s.rels.Keys && (forall r :: r in s'.rels ==> s'.rels[r] == s.rels[r])
      && s'.types.Keys == s.types.Keys && (forall u :: u in s.types ==> SameName(s'.types[u], s.types[u]))
  {
  }

  lemma WithoutRelsAgree(s: Store, t: Id, doomed: set<Id>)
    requires CountersAgree(s) && doomed <= OfType(s.rels, t)
    ensures CountersAgree(WithoutRels(s, t, doomed))
  {
    var s' := WithoutRels(s, t, doomed);
    forall u | u in s'.types ensures s'.types[u].usage == Usage(s'.rels, u) {
      WithoutRelsCounts(s, t, doomed, u);
    }
  }

  /** Removing relationships of one type and lowering its counter by their number. */
  lemma WithoutOneTypeKeeps(s: Store, t: Id, doomed: set<Id>)
    requires Integrity(s) && doomed <= OfType(s.rels, t)
    ensures Integrity(WithoutRels(s, t, doomed))
  {
    var s' := WithoutRels(s, t, doomed);
    WithoutRelsAgree(s, t, doomed);
    WithoutRelsShape(s, t, doomed);
    FewerRelsKeep(s, s');
  }

  lemma WithoutRelKeeps(s: Store, id: Id)
    requires Integrity(s)
    ensures Integrity(WithoutRel(s, id))
  {
    if id in s.rels {
      WithoutOneTypeKeeps(s, s.rels[id].typeId, {id});
    }
  }

  lemma UnlinkKeeps(s: Store, t: Id, kind: Kind, source: Id)
    requires Integrity(s)
    ensures Integrity(Unlinked(s, t, kind, source))
    ensures Unlinked(s, t, kind, source).rels.Keys <= s.rels.Keys
  {
    WithoutOneTypeKeeps(s, t, OutLinks(s, t, kind, source));
  }

  lemma RelinkKeeps(s: Store, t: Id, kind: Kind, source: Id, target: Option<Id>, id: Id)
    requires Integrity(s) && id !in s.rels
    ensures Integrity(Relinked(s, t, kind, source, target, id))
  {
    var s' := Unlinked(s, t, kind, source);
    UnlinkKeeps(s, t, kind, source);
    if target.Some? {
      WithRelKeeps(s', id, Rel(t, kind, source, Organization, target.value));
    }
  }

  // ---------- entities ----------

  lemma DeletionKeepsCounters(s: Store, doomed: set<Id>)
    requires Integrity(s)
    ensures CountersAgree(s.(rels := s.rels - doomed, types := Decremented(s.types, s.rels, doomed)))
  {
    var s' := s.(rels := s.rels - doomed, types := Decremented(s.types, s.rels, doomed));
    forall t | t in s'.types ensures s'.types[t].usage == Usage(s'.rels, t) {
      RemoveCounts(s.rels, doomed, t);
      assert s.types[t].usage == Usage(s.rels, t);
    }
  }

  lemma DeletionKeepsRel(s: Store, kind: Kind, id: Id, r: Rel)
    requires RelOk(s, r) && !Touches(r, kind, id) && EntityExists(s, kind, id)
    ensures RelOk(WithoutEntity(s, kind, id), r)
  {
  }

  lemma DeletionKeepsRels(s: Store, kind: Kind, id: Id)
    requires RelsOk(s) && EntityExists(s, kind, id)
    ensures RelsOk(WithoutEntity(s, kind, id))
  {
    var s' := WithoutEntity(s, kind, id);
    forall r | r in s'.rels ensures RelOk(s', s'.rels[r]) {
      assert RelOk(s, s.rels[r]) && r !in Touching(s.rels, kind, id);
      DeletionKeepsRel(s, kind, id, s.rels[r]);
    }
  }

  lemma RecountKeepsNames(s: Store, s': Store, doomed: set<Id>)
    requires NamesUnique(s) && s'.types == Decremented(s.types, s.rels, doomed)
    ensures NamesUnique(s')
  {
  }

  lemma DeletionKeepsActivities(s: Store, kind: Kind, id: Id)
    requires ActivitiesOk(s) && EntityExists(s, kind, id)
    ensures ActivitiesOk(WithoutEntity(s, kind, id))
  {
  }

  lemma WithoutEntityKeeps(s: Store, kind: Kind, id: Id)
    requires Integrity(s)
    ensures Integrity(WithoutEntity(s, kind, id))
  {
    if EntityExists(s, kind, id) {
      var s' := WithoutEntity(s, kind, id);
      DeletionKeepsCounters(s, Touching(s.rels, kind, id));
      DeletionKeepsRels(s, kind, id);
      RecountKeepsNames(s, s', Touching(s.rels, kind, id));
      DeletionKeepsActivities(s, kind, id);
      SegmentTablesSurvive(s, s');
    }
  }

  lemma SegmentTablesSurvive(s: Store, s': Store)
    requires SegmentsOk(s) && OrgsOk(s)
    requires s'.segments == s.segments
    requires forall o :: o in s'.orgs ==> o in s.orgs && s'.orgs[o] == s.orgs[o]
    ensures SegmentsOk(s') && OrgsOk(s')
  {
  }

  /** Adding or re-pointing an organization, adding a contact or an activity: nobody loses a row. */
  lemma GrowthKeeps(s: Store, s': Store)
    requires Integrity(s)
    requires s'.types == s.types && s'.rels == s.rels && s'.segments == s.segments
    requires s.orgs.Keys <= s'.orgs.Keys && s.contacts <= s'.contacts
    requires forall o :: o in s'.orgs ==> IsValidAssignment(s, s'.orgs[o])
    requires forall a :: a in s'.activities ==> EntityExists(s', s'.activities[a].kind, s'.activities[a].entity)
    ensures Integrity(s')
  {
  }

  // ---------- segments ----------

  lemma WithSegmentKeeps(s: Store, id: Id, name: string, parent: Option<Id>)
    requires Integrity(s) && id !in s.segments
    ensures Integrity(WithSegment(s, id, name, parent))
  {
    if SegmentLayer(s, parent).Ok? {
      var s' := WithSegment(s, id, name, parent);
      assert SegmentsOk(s') by {
        forall g | g in s'.segments ensures SegmentOk(s', s'.segments[g]) {
          if g != id {
            assert SegmentOk(s, s.segments[g]);
          } else if parent.Some? {
            assert SegmentOk(s, s.segments[parent.value]);
          }
        }
      }
      assert OrgsOk(s') by {
        forall o | o in s'.orgs ensures IsValidAssignment(s', s'.orgs[o]) {
          assert IsValidAssignment(s, s.orgs[o]);
        }
      }
      SameEntities(s, s');
    }
  }

  lemma WithoutSegmentKeeps(s: Store, id: Id)
    requires Integrity(s)
    ensures Integrity(WithoutSegment(s, id))
  {
  }

  lemma SameEntities(s: Store, s': Store)
    requires CountersAgree(s) && RelsOk(s) && ActivitiesOk(s) && NamesUnique(s)
    requires s' == s.(segments := s'.segments)
    ensures CountersAgree(s') && RelsOk(s') && ActivitiesOk(s') && NamesUnique(s')
  {
  }

  /** The segments met on the way up from a segment, itself first. */
  function PathUp(segments: map<Id, Segment>, id: Id, fuel: nat): seq<Id>
    decreases fuel
  {
    if id !in segments || fuel == 0 then []
    else if segments[id].parent.None? then [id]
    else [id] + PathUp(segments, segments[id].parent.value, fuel - 1)
  }

  predicate IsRootPath(segments: map<Id, Segment>, path: seq<Id>) {
    && path != []
    && (forall i :: 0 <= i < |path| ==> path[i] in segments && segments[path[i]].layer == |path| - i)
    && (forall i :: 0 <= i < |path| - 1 ==> segments[path[i]].parent == Some(path[i + 1]))
    && segments[path[|path| - 1]].parent.None?
  }

  /**
   The segments are a forest: from any of them the parents lead to a root, one layer a step, in at
   most three rows.
   */
  lemma {:induction false} EverySegmentHangsOnARoot(s: Store, id: Id)
    requires SegmentsOk(s) && id in s.segments
    ensures |PathUp(s.segments, id, s.segments[id].layer)| == s.segments[id].layer <= 3
    ensures IsRootPath(s.segments, PathUp(s.segments, id, s.segments[id].layer))
    decreases s.segments[id].layer
  {
    var g := s.segments[id];
    assert SegmentOk(s, g);
    if g.parent.None? {
      assert PathUp(s.segments, id, g.layer) == [id];
    } else {
      EverySegmentHangsOnARoot(s, g.parent.value);
      assert PathUp(s.segments, id, g.layer) == [id] + PathUp(s.segments, g.parent.value, g.layer - 1);
    }
  }

  /** The non-null layers of an organization, deepest first. */
  function Assigned(t: Triple): seq<Id> {
    (if t.layer3.Some? then [t.layer3.value] else [])
    + (if t.layer2.Some? then [t.layer2.value] else [])
    + (if t.layer1.Some? then [t.layer1.value] else [])
  }

  lemma RootPathsAreValid(s: Store, t: Triple)
    requires SegmentsOk(s) && t == Normalized(t) && IsRootPath(s.segments, Assigned(t))
    ensures IsValidAssignment(s, t)
  {
    var path := Assigned(t);
    var n := |path|;
    assert path[n - 1] == t.layer1.value && s.segments[path[n - 1]].layer == 1;
    if t.layer2.Some? {
      assert path[n - 2] == t.layer2.value && s.segments[path[n - 2]].layer == 2;
    }
    if t.layer3.Some? {
      assert path[n - 3] == t.layer3.value && s.segments[path[n - 3]].layer == 3;
    }
  }

  lemma ValidAssignmentsClimb(s: Store, t: Triple)
    requires SegmentsOk(s) && t == Normalized(t) && t.layer1.Some? && IsValidAssignment(s, t)
    ensures IsRootPath(s.segments, Assigned(t))
  {
  }

  /** An assignment passes the checks exactly when it is empty or a path of existing segments down from a root. */
  lemma ValidAssignmentsAreRootPaths(s: Store, t: Triple)
    requires SegmentsOk(s) && t == Normalized(t)
    ensures IsValidAssignment(s, t) <==> Assigned(t) == [] || IsRootPath(s.segments, Assigned(t))
  {
    if IsValidAssignment(s, t) && t.layer1.Some? {
      ValidAssignmentsClimb(s, t);
    }
    if IsRootPath(s.segments, Assigned(t)) {
      RootPathsAreValid(s, t);
    }
  }
}
