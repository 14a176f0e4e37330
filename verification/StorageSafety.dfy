/** An accepted storage update never moves an existing attachment. */
module StorageSafety {
  import opened Wrappers
  import opened StorageModel
  import opened StorageNormalize
  import opened StorageUpdate

  /** The registry has exactly one entry under the identifier of `e`, and it addresses the same namespace. */
  predicate HousedOnce(storages: seq<Storage>, e: Storage) {
    exists i :: 0 <= i < |storages| && HousedAt(storages, e, i)
  }

  predicate HousedAt(storages: seq<Storage>, e: Storage, i: nat)
    requires i < |storages|
  {
    && storages[i].id == e.id
    && NamespaceEqual(e, storages[i])
    && forall j :: 0 <= j < |storages| && storages[j].id == e.id ==> j == i
  }

  /** The entry's type determines an identifier. */
  predicate Typed(s: Storage) { StorageId(s) != NoId }

  /** The entry, if its identifier is stored, addresses what that stored entry addresses. */
  predicate Agrees(stored: seq<Storage>, s: Storage) {
    Settled(s) && (FindLast(stored, s.id).Some? ==> NamespaceEqual(FindLast(stored, s.id).value, s))
  }

  // The request after its first normalisation.

  lemma {:induction false} ValidTyped(storages: seq<Storage>, seen: set<Id>)
    requires ValidateFrom(storages, seen).Ok?
    ensures forall s :: s in storages ==> Typed(NormalizeStorage(s))
    decreases |storages|
  {
    if storages != [] {
      ValidTyped(storages[1..], seen + {storages[0].id});
    }
  }

  lemma CleanedTyped(x: Setting)
    requires x.storages == [] || Validate(x).Ok?
    ensures forall s :: s in Cleaned(x).storages ==> Settled(s) && Typed(s)
  {
    if x.storages != [] { ValidTyped(x.storages, {}); }
    CleanProperties(x.storages, []);
  }

  lemma NormalizedTyped(x: Setting)
    requires x.storages == [] || Validate(x).Ok?
    ensures forall s :: s in Normalized(x).storages ==> Settled(s) && Typed(s)
  {
    CleanedTyped(x);
    forall s | s in Normalized(x).storages
      ensures Settled(s) && Typed(s)
    {
      NormalizedMember(x, s);
    }
  }

  // Re-identified entries.

  lemma OwnerOfGenerated(t: Storage, s: Storage)
    requires OwnsId(t) && t.id == StorageId(s) && Typed(s)
    ensures NamespaceEqual(t, s)
  {
  }

  /** A renamed entry can only take an identifier whose stored holder addresses the same namespace. */
  lemma RevisedAgrees(stored: seq<Storage>, legacy: bool, s: Storage)
    requires AllOwn(stored) && Settled(s) && Typed(s)
    ensures Agrees(stored, Revised(stored, legacy, s).s)
  {
  }

  /** A secret filled in for a canonical request comes from the same endpoint and region. */
  lemma SecretsStayWithProvider(stored: seq<Storage>, s: Storage)
    requires Settled(s) && s.s3.Some? && s.typ == S3 && s.s3.value.accessKeySecret == ""
    ensures var e := Revised(stored, false, s).s;
      && e.s3.Some? && NamespaceOf(e.s3.value) == NamespaceOf(s.s3.value)
      && (e.s3.value.accessKeySecret != "" ==>
            exists t :: t in stored && t.s3.Some? && t.s3.value.accessKeySecret == e.s3.value.accessKeySecret
                        && SameProvider(t.s3.value, s.s3.value))
  {
  }

  // Deduplication.

  lemma {:induction false} DedupeProperties(entries: seq<Entry>, done: seq<Entry>)
    requires DistinctIds(Storages(done))
    ensures DistinctIds(Storages(Dedupe(entries, done)))
    ensures forall e :: e in Dedupe(entries, done) ==> e in entries || e in done
    decreases |entries|
  {
    if entries != [] {
      var next := Absorb(done, entries[0]);
      AbsorbDistinct(done, entries[0]);
      DedupeProperties(entries[1..], next);
      assert forall e :: e in next ==> e in done || e == entries[0];
      assert entries == [entries[0]] + entries[1..];
    }
  }

  lemma AbsorbDistinct(done: seq<Entry>, e: Entry)
    requires DistinctIds(Storages(done))
    ensures DistinctIds(Storages(Absorb(done, e)))
  {
  }

  lemma {:induction false} MissingMembers(stored: seq<Storage>, kept: seq<Storage>)
    ensures forall s :: s in Missing(stored, kept) <==> s in stored && !HasId(kept, s.id)
    decreases |stored|
  {
    if stored != [] {
      MissingMembers(stored[1..], kept);
      assert stored == [stored[0]] + stored[1..];
    }
  }

  lemma {:induction false} MissingProperties(stored: seq<Storage>, kept: seq<Storage>)
    requires DistinctIds(stored)
    ensures DistinctIds(Missing(stored, kept))
    ensures forall s :: s in Missing(stored, kept) <==> s in stored && !HasId(kept, s.id)
    decreases |stored|
  {
    MissingMembers(stored, kept);
    if stored != [] {
      var first, rest := stored[0], Missing(stored[1..], kept);
      MissingProperties(stored[1..], kept);
      forall s | s in rest
        ensures s.id != first.id
      {
        var i :| 0 <= i < |stored[1..]| && stored[1..][i] == s;
        assert stored[i + 1] == s;
      }
      FirstDistinct(first, rest);
    }
  }

  lemma JoinDistinct(a: seq<Storage>, b: seq<Storage>)
    requires DistinctIds(a) && DistinctIds(b) && forall s :: s in b ==> !HasId(a, s.id)
    ensures DistinctIds(a + b)
  {
  }

  lemma DistinctFind(stored: seq<Storage>, e: Storage)
    requires DistinctIds(stored) && e in stored
    ensures FindLast(stored, e.id) == Some(e)
    ensures e.id != NoId ==> Find(stored, e.id) == Some(e)
  {
  }

  /** The merged list before its final normalisation: distinct, settled, and housing every stored entry. */
  lemma MergedHouses(stored: seq<Storage>, kept: seq<Storage>)
    requires DistinctIds(stored) && AllSettled(stored) && DistinctIds(kept)
    requires forall s :: s in kept ==> Agrees(stored, s)
    ensures var all := kept + Missing(stored, kept);
      && DistinctIds(all) && AllSettled(all)
      && forall e :: e in stored ==> HousedOnce(all, e)
  {
    var m := Missing(stored, kept);
    var all := kept + m;
    MissingProperties(stored, kept);
    JoinDistinct(kept, m);
    forall e | e in stored
      ensures HousedOnce(all, e)
    {
      DistinctFind(stored, e);
      var p :| p in all && p.id == e.id && NamespaceEqual(e, p) by {
        if HasId(kept, e.id) {
          var s :| s in kept && s.id == e.id;
          assert s in all;
        } else {
          assert e in m;
        }
      }
      var i :| 0 <= i < |all| && all[i] == p;
      assert HousedAt(all, e, i);
    }
  }

  // The final normalisation.

  lemma HousedSnoc(storages: seq<Storage>, e: Storage, s: Storage)
    requires HousedOnce(storages, e) && s.id != e.id
    ensures HousedOnce(storages + [s], e)
  {
    var i :| 0 <= i < |storages| && HousedAt(storages, e, i);
    assert HousedAt(storages + [s], e, i);
  }

  lemma HousedMoves(storages: seq<Storage>, e: Storage, id: Id)
    requires HousedOnce(storages, e) && HasId(storages, id)
    ensures HousedOnce(DefaultFirst(storages, id), e)
  {
    DefaultFirstKeeps(storages, id);
    var k :| 0 <= k < |storages| && storages[k].id == id && DefaultFirst(storages, id) == MoveFront(storages, k);
    HousedMovesFront(storages, e, k);
  }

  lemma HousedMovesFront(storages: seq<Storage>, e: Storage, k: nat)
    requires k < |storages| && HousedOnce(storages, e)
    ensures HousedOnce(MoveFront(storages, k), e)
  {
    var i :| 0 <= i < |storages| && HousedAt(storages, e, i);
    var r, j := MoveFront(storages, k), Destination(k, i);
    MoveFrontOrigin(storages, k, j);
    forall l | 0 <= l < |r| && r[l].id == e.id
      ensures l == j
    {
      MoveFrontOrigin(storages, k, l);
    }
    assert HousedAt(r, e, j);
  }

  /** A generated entry is never added under an identifier that its owner already houses. */
  lemma AddedIdDiffers(storages: seq<Storage>, e: Storage, s: Storage)
    requires HousedOnce(storages, e) && OwnsId(e) && Generated(s)
    requires forall t :: t in storages ==> !NamespaceEqual(t, s)
    ensures s.id != e.id
  {
    var i :| 0 <= i < |storages| && HousedAt(storages, e, i);
    assert storages[i] in storages;
    if s.id == e.id {
      OwnersAgree(e, s);
    }
  }

  lemma StepsHouse(y: Setting, e: Storage)
    requires HousedOnce(y.storages, e) && OwnsId(e)
    ensures HousedOnce(WithLegacyS3(y).storages, e)
    ensures HousedOnce(WithLegacyDefault(y).storages, e)
    ensures HousedOnce(WithFallback(y).storages, e)
  {
    LegacyEntriesGenerated(y);
    if AddsLegacyS3(y) {
      var s := NormalizeStorage(S3Storage(y.s3.value));
      assert forall t :: t in y.storages ==> !NamespaceEqual(t, s);
      AddedIdDiffers(y.storages, e, s);
      HousedSnoc(y.storages, e, s);
    }
    if AddsLegacyDefault(y) {
      AddedIdDiffers(y.storages, e, LegacyStorage(y));
      HousedSnoc(y.storages, e, LegacyStorage(y));
    }
  }

  /** Cleaning a settled list keeps a storage that is there once. */
  lemma CleaningHouses(storages: seq<Storage>, e: Storage)
    requires AllSettled(storages) && HousedOnce(storages, e)
    ensures HousedOnce(Clean(storages, []), e)
  {
    var r := Clean(storages, []);
    CleanProperties(storages, []);
    var i :| 0 <= i < |storages| && HousedAt(storages, e, i);
    assert storages[i] in storages;
    NormalizeSettles(storages[i]);
    var s :| s in r && s.id == e.id;
    var t :| t in storages && s == NormalizeStorage(t);
    NormalizeSettles(t);
    var j :| 0 <= j < |r| && r[j] == s;
    assert HousedAt(r, e, j);
  }

  lemma NormalizingHouses(y: Setting, e: Storage)
    requires AllSettled(y.storages) && HousedOnce(y.storages, e) && OwnsId(e)
    ensures HousedOnce(Normalized(y).storages, e)
  {
    CleaningHouses(y.storages, e);
    StepsHouse(Cleaned(y), e);
    StepsHouse(WithLegacyS3(Cleaned(y)), e);
    StepsHouse(WithLegacyDefault(WithLegacyS3(Cleaned(y))), e);
    GatheredShape(y);
    HousedMoves(Gathered(y).storages, e, Gathered(y).defaultId);
  }

  // The theorem.

  lemma AlignedFine(n: Setting, stored: seq<Storage>)
    requires AllSettled(stored) && forall s :: s in n.storages ==> Settled(s) && Typed(s)
    ensures forall s :: s in AlignLegacy(n, stored).storages ==> Settled(s) && Typed(s)
  {
    var k, r := IndexFrom(n.storages, n.defaultId, 0), AlignLegacy(n, stored).storages;
    forall i | 0 <= i < |r|
      ensures Settled(r[i]) && Typed(r[i])
    {
      assert n.storages[i] in n.storages;
    }
  }

  lemma KeptAgree(a: Setting, stored: seq<Storage>, legacy: bool)
    requires AllOwn(stored) && forall s :: s in a.storages ==> Settled(s) && Typed(s)
    ensures DistinctIds(Kept(a, stored, legacy))
    ensures forall s :: s in Kept(a, stored, legacy) ==> Agrees(stored, s)
  {
    var entries := ReviseAll(stored, legacy, a.storages);
    DedupeProperties(entries, []);
    forall s | s in Kept(a, stored, legacy)
      ensures Agrees(stored, s)
    {
      var e :| e in Dedupe(entries, []) && e.s == s;
      var i :| 0 <= i < |entries| && entries[i] == e;
      assert a.storages[i] in a.storages;
      RevisedAgrees(stored, legacy, a.storages[i]);
    }
  }

  /** Every storage of the old registry is in the accepted one, once, under its identifier and its namespace; also after
      the setting is normalised once more on its way into the database. */
  lemma UpdateHousesEveryStorage(incoming: Setting, existing: Setting, e: Storage)
    requires CanonicalIds(existing.storages)
    requires Prepared(incoming, Some(existing)).Ok?
    requires e in Normalized(existing).storages
    ensures HousedOnce(Prepared(incoming, Some(existing)).value.storages, e)
    ensures HousedOnce(Normalized(Prepared(incoming, Some(existing)).value).storages, e)
  {
    var stored, a := Normalized(existing).storages, Request(incoming, existing);
    var legacy := PreparedShape(incoming, existing);
    CanonicalNormalizes(existing);
    NormalizedCorrect(existing);
    RequestFine(incoming, existing);
    MergedHousesEvery(a, stored, legacy, e);
    NormalizedCorrect(BeforeNormalizing(a, stored, Kept(a, stored, legacy)));
    NormalizingHouses(Prepared(incoming, Some(existing)).value, e);
  }

  lemma RequestFine(incoming: Setting, existing: Setting)
    requires CanonicalIds(existing.storages) && Prepared(incoming, Some(existing)).Ok?
    ensures forall s :: s in Request(incoming, existing).storages ==> Settled(s) && Typed(s)
  {
    var adopted := Adopt(incoming, Some(Normalized(existing))).value;
    CanonicalNormalizes(existing);
    NormalizedCorrect(existing);
    NormalizedTyped(adopted);
    AlignedFine(Normalized(adopted), Normalized(existing).storages);
  }

  lemma MergedHousesEvery(a: Setting, stored: seq<Storage>, legacy: bool, e: Storage)
    requires DistinctIds(stored) && AllSettled(stored) && AllOwn(stored) && e in stored
    requires forall s :: s in a.storages ==> Settled(s) && Typed(s)
    ensures HousedOnce(Normalized(BeforeNormalizing(a, stored, Kept(a, stored, legacy))).storages, e)
  {
    var kept := Kept(a, stored, legacy);
    KeptAgree(a, stored, legacy);
    MergedHouses(stored, kept);
    NormalizingHouses(BeforeNormalizing(a, stored, kept), e);
  }

  lemma HousedFind(storages: seq<Storage>, e: Storage)
    requires HousedOnce(storages, e) && e.id != NoId
    ensures Find(storages, e.id).Some? && NamespaceEqual(e, Find(storages, e.id).value)
  {
  }

  /** The storage the attachment is found in is the same before and after. */
  predicate StaysPut(before: Setting, after: Setting, id: Id, legacy: Option<S3Config>) {
    var b, a := ResolveStorage(before, id, legacy), ResolveStorage(after, id, legacy);
    b.Ok? && a.Ok? && NamespaceEqual(b.value, a.value)
  }

  /** An attachment stored by identifier, or by an embedded configuration with no identifier, resolves to the same
      namespace before and after an accepted update, and from the setting the database gets. */
  lemma UpdateMovesNoAttachment(incoming: Setting, existing: Setting, id: Id, legacy: Option<S3Config>)
    requires CanonicalIds(existing.storages)
    requires Prepared(incoming, Some(existing)).Ok?
    requires if id == NoId then legacy.Some? else HasId(Normalized(existing).storages, id)
    ensures StaysPut(Normalized(existing), Prepared(incoming, Some(existing)).value, id, legacy)
    ensures StaysPut(Normalized(existing), Normalized(Prepared(incoming, Some(existing)).value), id, legacy)
  {
    var now := Prepared(incoming, Some(existing)).value;
    if id == NoId {
      LegacyResolves(Normalized(existing), id, legacy.value);
      LegacyResolves(now, id, legacy.value);
      LegacyResolves(Normalized(now), id, legacy.value);
    } else {
      var e := Find(Normalized(existing).storages, id).value;
      UpdateHousesEveryStorage(incoming, existing, e);
      HousedFind(now.storages, e);
      HousedFind(Normalized(now).storages, e);
    }
  }
}
