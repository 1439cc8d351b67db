/**
 The built-in relationship types on every run: nobody else bears their names, so deleting a type
 always finds "Other", and the employee and subsidiary lookups find the seeded rows.
 */
module CrmBuiltIns {
  import opened Wrappers
  import opened CrmGraph
  import opened CrmIntegrity
  import opened CrmRuns
  import opened CrmAnswers

  /** The same letter, small or capital. */
  predicate IsSameLetter(c: char, d: char) {
    || c == d
    || ('A' <= c <= 'Z' && d as int == c as int + 32)
    || ('A' <= d <= 'Z' && c as int == d as int + 32)
  }

  /** Two names are told apart exactly when they differ in more than the case of their letters. */
  lemma FoldingIgnoresCase(a: string, b: string)
    ensures Folded(a) == Folded(b) <==>
      |a| == |b| && forall k :: 0 <= k < |a| ==> IsSameLetter(a[k], b[k])
  {
    if |a| == |b| {
      if Folded(a) == Folded(b) {
        forall k | 0 <= k < |a| ensures IsSameLetter(a[k], b[k]) {
          assert Folded(a)[k] == Folded(b)[k];
        }
      }
    } else {
      assert |Folded(a)| != |Folded(b)|;
    }
  }

  predicate IsReverseName(name: string) {
    name in {"Employer", "Spouse", "Colleague", "Holding", "Competitor", "Partner", "Other"}
  }

  lemma ReverseNamesAreExact(name: string)
    ensures name in REVERSE_NAMES <==> IsReverseName(name)
  {
    if IsReverseName(name) {
      assert name in {REVERSE_NAMES[0], REVERSE_NAMES[1], REVERSE_NAMES[2], REVERSE_NAMES[3], REVERSE_NAMES[4],
                      REVERSE_NAMES[5], REVERSE_NAMES[6]};
    }
  }

  ghost predicate IsSpelledLike(name: string, word: string) {
    |name| == |word| && forall k :: 0 <= k < |name| ==> IsSameLetter(name[k], word[k])
  }

  /** Reserved are the built-in names and their reverse names, whatever the case of their letters. */
  lemma ReservedIff(name: string)
    ensures IsReserved(name) <==>
      || (exists word, sourceKind, targetKind ::
            IsBuiltIn(word, sourceKind, targetKind) && IsSpelledLike(name, word))
      || (exists word :: IsReverseName(word) && IsSpelledLike(name, word))
  {
    forall word ensures Folded(name) == Folded(word) <==> IsSpelledLike(name, word) {
      FoldingIgnoresCase(name, word);
    }
    forall word ensures word in REVERSE_NAMES <==> IsReverseName(word) {
      ReverseNamesAreExact(word);
    }
    forall word, sourceKind, targetKind
      ensures SystemType(word, sourceKind, targetKind) in SYSTEM_TYPES <==> IsBuiltIn(word, sourceKind, targetKind)
    {
      BuiltInsAreExact(word, sourceKind, targetKind);
    }
    if d :| d in SYSTEM_TYPES && Folded(name) == Folded(d.name) {
      assert d == SystemType(d.name, d.sourceKind, d.targetKind);
    }
  }

  predicate SameLabel(a: RelType, b: RelType) {
    a.name == b.name && a.isSystem == b.isSystem
  }

  /** Every type is an old one, with its name and mark, or a system type. */
  ghost predicate Inherits(s: Store, s': Store) {
    forall t :: t in s'.types ==> (t in s.types && SameLabel(s.types[t], s'.types[t])) || s'.types[t].isSystem
  }

  ghost predicate ReservedAreSystem(s: Store) {
    forall t :: t in s.types && IsReserved(s.types[t].name) ==> s.types[t].isSystem
  }

  lemma InheritedAreSystem(s: Store, s': Store)
    requires ReservedAreSystem(s) && Inherits(s, s')
    ensures ReservedAreSystem(s')
  {
  }

  lemma InheritsOnwards(s: Store, m: Store, s': Store)
    requires Inherits(s, m) && Inherits(m, s')
    ensures Inherits(s, s')
  {
  }

  lemma {:induction false} SeedingInherits(s: Store, ids: seq<Id>, n: nat)
    requires n <= |ids| && n <= |SYSTEM_TYPES|
    ensures Inherits(s, Seeded(s, ids, n))
  {
    if n > 0 {
      SeedingInherits(s, ids, n - 1);
      assert Inherits(Seeded(s, ids, n - 1), Seeded(s, ids, n));
    }
  }

  lemma FullSeedingInherits(s: Store, seeds: seq<Id>)
    ensures Inherits(s, FullySeeded(s, seeds))
  {
    if |seeds| == |SYSTEM_TYPES| {
      SeedingInherits(s, seeds, |seeds|);
    }
  }

  lemma WithoutTypeInherits(s: Store, t: Id)
    ensures Inherits(s, WithoutType(s, t))
  {
  }

  lemma RelinkInherits(s: Store, t: Id, kind: Kind, source: Id, target: Option<Id>, id: Id)
    ensures Inherits(s, Relinked(s, t, kind, source, target, id))
  {
    var m := Unlinked(s, t, kind, source);
    assert Inherits(s, m);
    if target.Some? {
      assert Inherits(m, WithRel(m, id, Rel(t, kind, source, Organization, target.value)));
    }
  }

  lemma LinkSetInherits(s: Store, d: SystemType, source: Id, target: Option<Id>, id: Id, seeds: seq<Id>)
    ensures Inherits(s, LinkSet(s, d, source, target, id, seeds))
  {
    var m := FullySeeded(s, seeds);
    FullSeedingInherits(s, seeds);
    if HasType(m, d) {
      RelinkInherits(m, TypeFor(m, d), d.sourceKind, source, target, id);
      InheritsOnwards(s, m, LinkSet(s, d, source, target, id, seeds));
    }
  }

  lemma DeleteTypeInherits(s: Store, t: Id, seeds: seq<Id>)
    ensures Inherits(s, WithoutType(FullySeeded(s, seeds), t))
  {
    var m := FullySeeded(s, seeds);
    FullSeedingInherits(s, seeds);
    WithoutTypeInherits(m, t);
    InheritsOnwards(s, m, WithoutType(m, t));
  }

  lemma StepInherits(s: Store, op: Op)
    requires !op.InsertType?
    ensures Inherits(s, Apply(s, op))
  {
    match op
    case EnsureSystemTypes(seeds) => FullSeedingInherits(s, seeds);
    case DeleteType(t, seeds) => DeleteTypeInherits(s, t, seeds);
    case SetEmployer(contact, employer, id, seeds) => LinkSetInherits(s, EMPLOYEE, contact, employer, id, seeds);
    case SetHolding(organization, holding, id, seeds) =>
      LinkSetInherits(s, SUBSIDIARY, organization, holding, id, seeds);
    case _ =>
  }

  /** On every run no custom type bears the name of a built-in one, in any case. */
  lemma {:induction false} CustomTypesAreNotReserved(h: History)
    requires IsHistory(h)
    ensures ReservedAreSystem(After(h))
  {
    if h.Then? {
      CustomTypesAreNotReserved(h.past);
      if !h.op.InsertType? {
        StepInherits(After(h.past), h.op);
        InheritedAreSystem(After(h.past), After(h));
      }
    }
  }

  lemma BuiltInsAreReserved(d: SystemType)
    requires d in SYSTEM_TYPES
    ensures IsReserved(d.name)
  {
  }

  /** On every run deleting a type is never refused for want of "Other". */
  lemma DeletionNeverLacksOther(h: History, t: Id, seeds: seq<Id>)
    requires IsHistory(h) && Allowed(After(h), Op.DeleteType(t, seeds))
    ensures DeletionOutcome(FullySeeded(After(h), seeds), t) != MissingOtherFallback
  {
    var s := After(h);
    EveryRunKeepsIntegrity(h);
    CustomTypesAreNotReserved(h);
    FullSeedingInherits(s, seeds);
    SeedingKeeps(s, seeds, |seeds|);
    OtherIsThere(FullySeeded(s, seeds), s, seeds, t);
  }

  lemma OtherIsThere(m: Store, s: Store, seeds: seq<Id>, t: Id)
    requires Integrity(s) && FreshTypeIds(s, seeds) && m == FullySeeded(s, seeds)
    requires ReservedAreSystem(s)
    ensures DeletionOutcome(m, t) != MissingOtherFallback
  {
    FullSeedingInherits(s, seeds);
    InheritedAreSystem(s, m);
    if t in m.types {
      var d := SystemType("Other", m.types[t].sourceKind, m.types[t].targetKind);
      var i := OtherIsBuiltIn(d.sourceKind, d.targetKind);
      SeedingCompletes(s, seeds, |seeds|, i);
      BuiltInsAreReserved(d);
      assert IsOtherFor(m, t, TypeFor(m, d));
    }
  }

  lemma BuiltInRowIsSystem(m: Store, d: SystemType)
    requires ReservedAreSystem(m) && HasType(m, d) && d in SYSTEM_TYPES
    ensures m.types[TypeFor(m, d)].isSystem
  {
    BuiltInsAreReserved(d);
  }

  /** On every run a lookup of a built-in type after seeding finds a system row. */
  lemma LookupsFindSystemRows(h: History, seeds: seq<Id>, i: nat)
    requires IsHistory(h) && FreshTypeIds(After(h), seeds) && i < |SYSTEM_TYPES|
    ensures var m := FullySeeded(After(h), seeds);
      HasType(m, SYSTEM_TYPES[i]) && m.types[TypeFor(m, SYSTEM_TYPES[i])].isSystem
  {
    var s := After(h);
    EveryRunKeepsIntegrity(h);
    CustomTypesAreNotReserved(h);
    FullSeedingInherits(s, seeds);
    InheritedAreSystem(s, FullySeeded(s, seeds));
    SeedingCompletes(s, seeds, |seeds|, i);
    BuiltInRowIsSystem(FullySeeded(s, seeds), SYSTEM_TYPES[i]);
  }

  /** In particular those behind setting an employer and a holding. */
  lemma LinkTypesAreSystemRows(h: History, seeds: seq<Id>)
    requires IsHistory(h) && FreshTypeIds(After(h), seeds)
    ensures var m := FullySeeded(After(h), seeds);
      && HasType(m, EMPLOYEE) && m.types[TypeFor(m, EMPLOYEE)].isSystem
      && HasType(m, SUBSIDIARY) && m.types[TypeFor(m, SUBSIDIARY)].isSystem
  {
    assert SYSTEM_TYPES[0] == EMPLOYEE && SYSTEM_TYPES[3] == SUBSIDIARY;
    LookupsFindSystemRows(h, seeds, 0);
    LookupsFindSystemRows(h, seeds, 3);
  }

  // ---------- the repository without the guard ----------

  /** One contact linked to itself by the custom type 1, and a custom type 0 named "Other" for the same kinds. */
  const SQUATTED := Store(
    map[0 := RelType("Other", Contact, Contact, false, 0), 1 := RelType("Friend", Contact, Contact, false, 1)],
    map[7 := Rel(1, Contact, 5, Contact, 5)], map[], {5}, map[], map[])

  lemma SquattedIsConsistent()
    ensures Integrity(SQUATTED)
  {
    assert OfType(SQUATTED.rels, 0) == {};
    assert OfType(SQUATTED.rels, 1) == {7};
  }

  /** A store that only the guard of the API keeps away: consistent, and yet type 1 cannot be deleted. */
  lemma WithoutTheGuardDeletionCanFail(seeds: seq<Id>)
    requires FreshTypeIds(SQUATTED, seeds)
    ensures Integrity(SQUATTED) && DeletionOutcome(FullySeeded(SQUATTED, seeds), 1) == MissingOtherFallback
    ensures !Allowed(EMPTY, Op.InsertType(0, "Other", "Anything", Contact, Contact))
  {
    SquattedIsConsistent();
    MissingFallbackIffNameIsSquatted(SQUATTED, 1, seeds);
    assert !SQUATTED.types[0].isSystem && IsNamed(SQUATTED.types[0], "Other", Contact, Contact);
    BuiltInsAreReserved(SystemType("Other", Contact, Contact));
  }
}
