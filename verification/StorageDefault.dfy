/** The default storage of an accepted update is the one the request named, renamed with it, unless a later entry
    gives its identifier up or it keeps an identifier generated for another storage. */
module StorageDefault {
  import opened Wrappers
  import opened StorageModel
  import opened StorageNormalize
  import opened StorageUpdate
  import opened StorageSafety

  lemma RequestDefault(incoming: Setting, existing: Setting)
    requires Adopt(incoming, Some(Normalized(existing))).Ok?
    ensures var a := Request(incoming, existing); a.storages != [] && a.storages[0].id == a.defaultId
  {
    NormalizedCorrect(Adopt(incoming, Some(Normalized(existing))).value);
  }

  /** Some entry holding the identifier is renamed away from it. */
  predicate GivenUp(stored: seq<Storage>, storages: seq<Storage>, id: Id) {
    exists s :: s in storages && s.id == id && Rename(stored, s).moved
  }

  lemma {:induction false} DefaultStays(stored: seq<Storage>, storages: seq<Storage>, id: Id)
    requires !GivenUp(stored, storages, id)
    ensures DefaultAfter(stored, storages, id) == id
    decreases |storages|
  {
    if storages != [] {
      assert storages[0] in storages && forall s :: s in storages[1..] ==> s in storages;
      DefaultStays(stored, storages[1..], id);
    }
  }

  /** The entry carries the target's identifier and namespace. */
  predicate Carries(e: Entry, target: Storage) { e.s.id == target.id && NamespaceEqual(target, e.s) }

  /** The first place of the deduplicated list stays with the target's identifier and namespace. */
  lemma {:induction false} DedupeKeepsFirst(entries: seq<Entry>, done: seq<Entry>, target: Storage)
    requires done != [] && Carries(done[0], target)
    requires forall e :: e in entries && e.moved && e.s.id == target.id ==> Carries(e, target)
    ensures Dedupe(entries, done) != [] && Carries(Dedupe(entries, done)[0], target)
    decreases |entries|
  {
    if entries != [] {
      assert entries[0] in entries && forall e :: e in entries[1..] ==> e in entries;
      DedupeKeepsFirst(entries[1..], Absorb(done, entries[0]), target);
    }
  }

  /** Filling in a secret changes neither identifier nor namespace. */
  lemma RevisedIsRenamed(stored: seq<Storage>, legacy: bool, s: Storage)
    ensures var e, r := Revised(stored, legacy, s), Rename(stored, s);
      && e.moved == r.moved && e.s.id == r.s.id
      && NamespaceEqual(s, e.s)
      && (OwnsId(r.s) ==> OwnsId(e.s))
  {
  }

  lemma KeptFirst(a: Setting, stored: seq<Storage>, legacy: bool)
    requires a.storages != [] && forall s :: s in a.storages ==> Settled(s) && Typed(s)
    requires Rename(stored, a.storages[0]).moved || OwnsId(a.storages[0])
    ensures var target := Revised(stored, legacy, a.storages[0]).s;
      var kept := Kept(a, stored, legacy);
      && OwnsId(target) && NamespaceEqual(a.storages[0], target)
      && kept != [] && kept[0].id == target.id && NamespaceEqual(target, kept[0])
  {
    var d, entries := a.storages[0], ReviseAll(stored, legacy, a.storages);
    var target := entries[0].s;
    assert d in a.storages;
    RevisedIsRenamed(stored, legacy, d);
    forall e | e in entries[1..] && e.moved && e.s.id == target.id
      ensures Carries(e, target)
    {
      var i :| 0 <= i < |entries| && entries[i] == e;
      assert a.storages[i] in a.storages;
      RevisedIsRenamed(stored, legacy, a.storages[i]);
      OwnerOfGenerated(target, a.storages[i]);
    }
    assert Absorb([], entries[0]) == [entries[0]];
    DedupeKeepsFirst(entries[1..], [entries[0]], target);
  }

  lemma NormalizedDefault(y: Setting)
    ensures Normalized(y).defaultId == Gathered(y).defaultId
  {
  }

  /** A default that is present survives normalisation. */
  lemma KeepsDefault(y: Setting)
    requires AllSettled(y.storages) && y.defaultId != NoId && HasId(y.storages, y.defaultId)
    ensures Normalized(y).defaultId == y.defaultId
  {
    NormalizedDefault(y);
    CleanProperties(y.storages, []);
    var s :| s in y.storages && s.id == y.defaultId;
    NormalizeSettles(s);
    StepKeepsDefault(Cleaned(y));
  }

  lemma StepKeepsDefault(y: Setting)
    requires y.defaultId != NoId && HasId(y.storages, y.defaultId)
    ensures WithFallback(WithLegacyDefault(WithLegacyS3(y))).defaultId == y.defaultId
  {
    var t := WithLegacyS3(y);
    var s :| s in y.storages && s.id == y.defaultId;
    assert s in t.storages && t.defaultId == y.defaultId;
    assert WithLegacyDefault(t) == t;
    assert Find(t.storages, t.defaultId).Some?;
  }

  /** What a request's default (its first entry) must meet: an identifier of its own, or a fresh one after its
      renaming, that no later entry gives up. */
  predicate Undisturbed(stored: seq<Storage>, a: Setting) {
    && a.storages != []
    && (Rename(stored, a.storages[0]).moved || OwnsId(a.storages[0]))
    && !GivenUp(stored, a.storages[1..], Rename(stored, a.storages[0]).s.id)
  }

  /** The default is the entry the request's default became: first, under its new identifier if it was renamed, at the
      namespace requested. */
  predicate Follows(stored: seq<Storage>, a: Setting, after: Setting) {
    && a.storages != [] && a.storages[0].id == a.defaultId
    && after.defaultId == Rename(stored, a.storages[0]).s.id
    && after.storages != [] && after.storages[0].id == after.defaultId
    && NamespaceEqual(a.storages[0], after.storages[0])
  }

  /** The accepted setting's default follows the request's. */
  lemma RequestedDefaultKept(incoming: Setting, existing: Setting)
    requires CanonicalIds(existing.storages) && Prepared(incoming, Some(existing)).Ok?
    requires Undisturbed(Normalized(existing).storages, Request(incoming, existing))
    ensures var stored, a := Normalized(existing).storages, Request(incoming, existing);
      var after := Prepared(incoming, Some(existing)).value;
      Follows(stored, a, after) && Follows(stored, a, Normalized(after))
  {
    var stored, a := Normalized(existing).storages, Request(incoming, existing);
    var legacy := PreparedShape(incoming, existing);
    RequestDefault(incoming, existing);
    RequestFine(incoming, existing);
    CanonicalNormalizes(existing);
    NormalizedCorrect(existing);
    MergedDefault(a, stored, legacy);
  }

  lemma MergedDefault(a: Setting, stored: seq<Storage>, legacy: bool)
    requires DistinctIds(stored) && AllSettled(stored) && AllOwn(stored)
    requires a.storages != [] && a.storages[0].id == a.defaultId
    requires forall s :: s in a.storages ==> Settled(s) && Typed(s)
    requires Undisturbed(stored, a)
    ensures var after := Normalized(BeforeNormalizing(a, stored, Kept(a, stored, legacy)));
      Follows(stored, a, after) && Follows(stored, a, Normalized(after))
  {
    var target, kept := Revised(stored, legacy, a.storages[0]).s, Kept(a, stored, legacy);
    KeptFirst(a, stored, legacy);
    RevisedIsRenamed(stored, legacy, a.storages[0]);
    DefaultStays(stored, a.storages[1..], target.id);
    KeptAgree(a, stored, legacy);
    MergedHouses(stored, kept);
    FinalDefault(BeforeNormalizing(a, stored, kept), target);
  }

  /** The target is the default and stands first. */
  predicate Leads(n: Setting, target: Storage) {
    n.defaultId == target.id && n.storages != [] && n.storages[0].id == target.id
      && NamespaceEqual(target, n.storages[0])
  }

  lemma FinalDefault(y: Setting, target: Storage)
    requires AllSettled(y.storages) && DistinctIds(y.storages) && OwnsId(target) && Leads(y, target)
    ensures Leads(Normalized(y), target) && Leads(Normalized(Normalized(y)), target)
  {
    assert y.storages[0] in y.storages;
    assert HousedAt(y.storages, target, 0);
    OneNormalization(y, target);
    OneNormalization(Normalized(y), target);
  }

  lemma OneNormalization(y: Setting, target: Storage)
    requires AllSettled(y.storages) && HousedOnce(y.storages, target) && OwnsId(target) && Leads(y, target)
    ensures AllSettled(Normalized(y).storages) && HousedOnce(Normalized(y).storages, target)
    ensures Leads(Normalized(y), target)
  {
    NormalizingHouses(y, target);
    assert y.storages[0] in y.storages;
    KeepsDefault(y);
    NormalizedCorrect(y);
    var i :| 0 <= i < |Normalized(y).storages| && HousedAt(Normalized(y).storages, target, i);
  }
}
