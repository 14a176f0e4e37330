/** Normalisation of the storage setting: the object that is rewritten in place, and what it is left as. */
module StorageNormalize {
  import opened Wrappers
  import opened StorageModel

  // The normalisation steps, on values.

  /** Normalises every entry and drops those without an identifier or with one already seen. */
  function Clean(storages: seq<Storage>, done: seq<Storage>): seq<Storage>
    decreases |storages|
  {
    if storages == [] then done
    else
      var s := NormalizeStorage(storages[0]);
      Clean(storages[1..], if s.id == NoId || HasId(done, s.id) then done else done + [s])
  }

  function Cleaned(x: Setting): Setting { x.(storages := Clean(x.storages, [])) }

  predicate AddsLegacyS3(x: Setting) {
    x.s3.Some? && FindEquivalent(x.storages, S3Storage(x.s3.value)).None?
  }

  /** Registers the legacy S3 configuration unless an entry addresses its namespace. */
  function WithLegacyS3(x: Setting): Setting {
    if AddsLegacyS3(x) then x.(storages := x.storages + [NormalizeStorage(S3Storage(x.s3.value))]) else x
  }

  function BuiltinStorage(typ: StorageType): Storage { NormalizeStorage(Storage(NoId, "", typ, None)) }

  /** The default the legacy fields describe; an unspecified type is local. */
  function LegacyStorage(x: Setting): Storage {
    var typ := if x.storageType == Unspecified then Local else x.storageType;
    var s := BuiltinStorage(typ);
    if typ == S3 then NormalizeStorage(s.(s3 := x.s3)) else s
  }

  predicate AddsLegacyDefault(x: Setting) {
    x.defaultId == NoId && FindEquivalent(x.storages, LegacyStorage(x)).None? && LegacyStorage(x).id != NoId
  }

  function WithLegacyDefault(x: Setting): Setting {
    if x.defaultId != NoId then x
    else if FindEquivalent(x.storages, LegacyStorage(x)).Some? then
      x.(defaultId := FindEquivalent(x.storages, LegacyStorage(x)).value.id)
    else if LegacyStorage(x).id != NoId then
      x.(storages := x.storages + [LegacyStorage(x)], defaultId := LegacyStorage(x).id)
    else x
  }

  function WithFallback(x: Setting): Setting {
    if Find(x.storages, x.defaultId).Some? then x
    else if x.storages != [] then x.(defaultId := x.storages[0].id)
    else x.(storages := [BuiltinStorage(Local)], defaultId := BuiltinStorage(Local).id)
  }

  /** Index of the first entry from `i` on with the given identifier, or the length. */
  function IndexFrom(storages: seq<Storage>, id: Id, i: nat): (k: nat)
    requires i <= |storages|
    ensures i <= k <= |storages|
    ensures k < |storages| ==> storages[k].id == id
    ensures forall j :: i <= j < k ==> storages[j].id != id
    decreases |storages| - i
  {
    if i == |storages| || storages[i].id == id then i else IndexFrom(storages, id, i + 1)
  }

  /** Brings entry `k` to the front; the others keep their order. */
  function MoveFront(storages: seq<Storage>, k: nat): (r: seq<Storage>)
    requires k < |storages|
    ensures |r| == |storages| && r[0] == storages[k]
    ensures r[1..] == storages[..k] + storages[k + 1..]
  {
    [storages[k]] + storages[..k] + storages[k + 1..]
  }

  /** Moves the default to the front; the entry already in front is never looked at. */
  function DefaultFirst(storages: seq<Storage>, id: Id): seq<Storage> {
    if storages == [] then []
    else
      var k := IndexFrom(storages, id, 1);
      if k == |storages| then storages else MoveFront(storages, k)
  }

  /** Legacy fields follow the default entry. */
  function Synchronized(x: Setting): Setting {
    match Find(x.storages, x.defaultId)
    case None => x
    case Some(s) => x.(storageType := s.typ, s3 := if s.s3.Some? then s.s3 else FirstS3(x.storages))
  }

  function Gathered(x: Setting): Setting {
    WithFallback(WithLegacyDefault(WithLegacyS3(Cleaned(x))))
  }

  function Normalized(x: Setting): Setting {
    var g := Gathered(x);
    Synchronized(g.(storages := DefaultFirst(g.storages, g.defaultId)))
  }

  // The setting object.

  class InstanceStorageSetting {
    var storages: seq<Storage>
    var defaultStorageId: Id
    var storageType: StorageType
    var s3Config: Option<S3Config>

    constructor (x: Setting)
      ensures Value() == x
    {
      storages, defaultStorageId, storageType, s3Config := x.storages, x.defaultId, x.storageType, x.s3;
    }

    function Value(): Setting
      reads this
    {
      Setting(storages, defaultStorageId, storageType, s3Config)
    }

    /** The first pass: entries are normalised, and later duplicates dropped. */
    method KeepFirstEntries()
      modifies this`storages
      ensures Value() == Cleaned(old(Value()))
    {
      var normalized: seq<Storage> := [];
      var seen: set<Id> := {};
      for i := 0 to |storages|
        invariant Value() == old(Value())
        invariant seen == set s | s in normalized :: s.id
        invariant Clean(storages, []) == Clean(storages[i..], normalized)
      {
        var s := NormalizeStorage(storages[i]);
        assert storages[i..][1..] == storages[i + 1..];
        assert s.id in seen <==> HasId(normalized, s.id);
        if s.id != NoId && s.id !in seen {
          seen := seen + {s.id};
          normalized := normalized + [s];
        }
      }
      storages := normalized;
    }

    method Normalize()
      modifies this
      ensures Value() == Normalized(old(Value()))
    {
      KeepFirstEntries();
      ghost var cleaned := Value();

      if s3Config.Some? && FindEquivalent(storages, S3Storage(s3Config.value)).None? {
        var legacy := NormalizeStorage(S3Storage(s3Config.value));
        if legacy.id != NoId {
          storages := storages + [legacy];
        }
      }
      assert Value() == WithLegacyS3(cleaned);

      if defaultStorageId == NoId {
        var legacy := LegacyStorage(Value());
        var existing := FindEquivalent(storages, legacy);
        if existing.Some? {
          defaultStorageId := existing.value.id;
        } else if legacy.id != NoId {
          storages := storages + [legacy];
          defaultStorageId := legacy.id;
        }
      }
      assert Value() == WithLegacyDefault(WithLegacyS3(cleaned));

      if Find(storages, defaultStorageId).None? {
        var fallback := BuiltinStorage(Local);
        if |storages| > 0 {
          fallback := storages[0];
        } else {
          storages := storages + [fallback];
        }
        defaultStorageId := fallback.id;
      }
      assert Value() == Gathered(old(Value()));
      MoveDefaultFirst();
      SynchronizeLegacyFields();
    }

    method MoveDefaultFirst()
      modifies this`storages
      ensures storages == DefaultFirst(old(storages), defaultStorageId)
    {
      for i := 0 to |storages|
        invariant storages == old(storages)
        invariant i > 0 ==> IndexFrom(storages, defaultStorageId, 1) == IndexFrom(storages, defaultStorageId, i)
      {
        if storages[i].id != defaultStorageId || i == 0 {
          continue;
        }
        storages := MoveFront(storages, i);
        return;
      }
    }

    method SynchronizeLegacyFields()
      modifies this`storageType, this`s3Config
      ensures Value() == Synchronized(old(Value()))
    {
      var found := Find(storages, defaultStorageId);
      if found.None? {
        return;
      }
      storageType := found.value.typ;
      if found.value.s3.Some? {
        s3Config := found.value.s3;
        return;
      }
      for i := 0 to |storages|
        invariant storages == old(storages) && defaultStorageId == old(defaultStorageId)
        invariant storageType == found.value.typ
        invariant FirstS3(storages) == FirstS3(storages[i..])
      {
        assert storages[i..][1..] == storages[i + 1..];
        if storages[i].s3.Some? {
          s3Config := storages[i].s3;
          return;
        }
      }
      s3Config := None;
    }
  }

  // Cleaned lists.

  predicate AllSettled(storages: seq<Storage>) {
    forall s :: s in storages ==> Settled(s)
  }

  ghost predicate FromEither(r: seq<Storage>, storages: seq<Storage>, done: seq<Storage>) {
    && (forall s :: s in r ==> s in done || exists t :: t in storages && s == NormalizeStorage(t))
    && (forall t :: t in storages && NormalizeStorage(t).id != NoId ==> HasId(r, NormalizeStorage(t).id))
  }

  lemma {:induction false} CleanProperties(storages: seq<Storage>, done: seq<Storage>)
    requires AllSettled(done) && DistinctIds(done)
    ensures var r := Clean(storages, done);
      done <= r && AllSettled(r) && DistinctIds(r) && FromEither(r, storages, done)
    decreases |storages|
  {
    if storages != [] {
      var s := NormalizeStorage(storages[0]);
      var next := if s.id == NoId || HasId(done, s.id) then done else done + [s];
      NormalizeSettles(storages[0]);
      Snoc(done, s);
      CleanProperties(storages[1..], next);
      CleanedStep(Clean(storages[1..], next), storages, done, next, s);
    }
  }

  lemma CleanedStep(r: seq<Storage>, storages: seq<Storage>, done: seq<Storage>, next: seq<Storage>, s: Storage)
    requires storages != [] && s == NormalizeStorage(storages[0])
    requires next == if s.id == NoId || HasId(done, s.id) then done else done + [s]
    requires next <= r && FromEither(r, storages[1..], next)
    ensures done <= r && FromEither(r, storages, done)
  {
    assert storages == [storages[0]] + storages[1..];
    if s.id != NoId {
      assert HasId(next, s.id) by { if next != done { assert s in next; } }
      var t :| t in next && t.id == s.id;
      assert t in r;
    }
  }

  /** Cleaning a settled list without duplicates changes nothing. */
  lemma {:induction false} CleanStable(storages: seq<Storage>, done: seq<Storage>)
    requires AllSettled(storages) && DistinctIds(done + storages)
    ensures Clean(storages, done) == done + storages
    decreases |storages|
  {
    if storages != [] {
      var s := storages[0];
      assert s in storages;
      NormalizeSettles(s);
      assert !HasId(done, s.id) by {
        forall i | 0 <= i < |done|
          ensures done[i].id != s.id
        {
          assert (done + storages)[i].id != (done + storages)[|done|].id;
        }
      }
      assert done + [s] + storages[1..] == done + storages;
      CleanStable(storages[1..], done + [s]);
    }
  }

  // Moving the default.

  /** Where `MoveFront(storages, k)` finds its j-th entry. */
  function Origin(k: nat, j: nat): nat { if j == 0 then k else if j <= k then j - 1 else j }

  /** Where the i-th entry goes. */
  function Destination(k: nat, i: nat): (j: nat)
    ensures Origin(k, j) == i
  {
    if i < k then i + 1 else if i == k then 0 else i
  }

  lemma MoveFrontOrigin(storages: seq<Storage>, k: nat, j: nat)
    requires k < |storages| && j < |storages|
    ensures Origin(k, j) < |storages| && MoveFront(storages, k)[j] == storages[Origin(k, j)]
  {
  }

  lemma MoveFrontKeeps(storages: seq<Storage>, k: nat)
    requires k < |storages|
    ensures forall s :: s in MoveFront(storages, k) <==> s in storages
    ensures DistinctIds(MoveFront(storages, k)) <==> DistinctIds(storages)
  {
    var r := MoveFront(storages, k);
    forall j | 0 <= j < |r|
      ensures Origin(k, j) < |r| && r[j] == storages[Origin(k, j)]
    {
      MoveFrontOrigin(storages, k, j);
    }
    forall s
      ensures s in r <==> s in storages
    {
      if s in r {
        var j :| 0 <= j < |r| && r[j] == s;
      }
      if s in storages {
        var i :| 0 <= i < |r| && storages[i] == s;
        assert r[Destination(k, i)] == s;
      }
    }
    if DistinctIds(r) {
      forall i, i' | 0 <= i < i' < |r|
        ensures storages[i].id != storages[i'].id
      {
        var j, j' := Destination(k, i), Destination(k, i');
        assert j != j' && r[j].id != r[j'].id;
      }
    }
    if DistinctIds(storages) {
      forall j, j' | 0 <= j < j' < |r|
        ensures r[j].id != r[j'].id
      {
        assert Origin(k, j) != Origin(k, j');
      }
    }
  }

  /** The default ends up first, the others keep their order, and nothing is lost or added. */
  lemma DefaultFirstKeeps(storages: seq<Storage>, id: Id)
    ensures |DefaultFirst(storages, id)| == |storages|
    ensures forall s :: s in DefaultFirst(storages, id) <==> s in storages
    ensures DistinctIds(DefaultFirst(storages, id)) <==> DistinctIds(storages)
    ensures HasId(storages, id) ==>
      exists k :: 0 <= k < |storages| && storages[k].id == id && DefaultFirst(storages, id) == MoveFront(storages, k)
  {
    if storages != [] {
      var k := IndexFrom(storages, id, 1);
      if k < |storages| {
        MoveFrontKeeps(storages, k);
      } else if HasId(storages, id) {
        var i :| 0 <= i < |storages| && storages[i].id == id;
        assert i == 0;
        assert MoveFront(storages, 0) == storages by { assert storages == [storages[0]] + storages[1..]; }
      }
    }
  }

  // The whole normalisation.

  /** The legacy S3 configuration would be registered under an identifier another namespace holds. */
  predicate CollidesS3(x: Setting) { S3Clash(Cleaned(x)) }

  /** The same for the legacy default entry. */
  predicate CollidesDefault(x: Setting) { DefaultClash(WithLegacyS3(Cleaned(x))) }

  lemma Snoc(storages: seq<Storage>, s: Storage)
    ensures DistinctIds(storages + [s]) <==> DistinctIds(storages) && !HasId(storages, s.id)
  {
    var r := storages + [s];
    if DistinctIds(r) {
      assert forall i, j :: 0 <= i < j < |storages| ==> storages[i].id == r[i].id && storages[j].id == r[j].id;
      forall i | 0 <= i < |storages|
        ensures storages[i].id != s.id
      {
        assert r[i].id != r[|storages|].id;
      }
    } else if DistinctIds(storages) {
      var i, j :| 0 <= i < j < |r| && r[i].id == r[j].id;
      assert j == |storages|;
      assert storages[i] in storages;
    }
  }

  /** An entry the normalisation itself creates: settled, under its own generated identifier. */
  predicate Generated(s: Storage) {
    Settled(s) && s.id == StorageId(s) && (s.s3.Some? <==> s.typ == S3)
  }

  lemma LegacyEntriesGenerated(x: Setting)
    ensures x.s3.Some? ==> Generated(NormalizeStorage(S3Storage(x.s3.value)))
    ensures LegacyStorage(x).id != NoId ==> Generated(LegacyStorage(x))
    ensures Generated(BuiltinStorage(Local))
  {
    if x.s3.Some? { NormalizeSettles(S3Storage(x.s3.value)); }
    NormalizeSettles(Storage(NoId, "", Local, None));
    var typ := if x.storageType == Unspecified then Local else x.storageType;
    NormalizeSettles(Storage(NoId, "", typ, None));
    NormalizeSettles(BuiltinStorage(typ).(s3 := x.s3));
  }

  /** What every step keeps of the list: it stays, or gains one generated entry at the end. */
  predicate Grows(before: seq<Storage>, after: seq<Storage>) {
    after == before || (after != [] && after[..|after| - 1] == before && Generated(after[|after| - 1]))
  }

  lemma LegacyS3Grows(x: Setting)
    ensures Grows(x.storages, WithLegacyS3(x).storages)
  {
    LegacyEntriesGenerated(x);
  }

  lemma LegacyDefaultGrows(x: Setting)
    ensures Grows(x.storages, WithLegacyDefault(x).storages)
  {
    LegacyEntriesGenerated(x);
  }

  lemma FallbackGrows(x: Setting)
    ensures Grows(x.storages, WithFallback(x).storages)
  {
    LegacyEntriesGenerated(x);
  }

  lemma StepsGrow(x: Setting)
    ensures Grows(x.storages, WithLegacyS3(x).storages)
    ensures Grows(x.storages, WithLegacyDefault(x).storages)
    ensures Grows(x.storages, WithFallback(x).storages)
  {
    LegacyS3Grows(x);
    LegacyDefaultGrows(x);
    FallbackGrows(x);
  }

  /** Holds of every entry of a grown list if it holds of the old entries and of generated ones. */
  lemma GrownMember(before: seq<Storage>, after: seq<Storage>, s: Storage)
    requires Grows(before, after) && s in after
    ensures s in before || Generated(s)
  {
  }

  lemma GatheredMember(x: Setting, s: Storage)
    requires s in Gathered(x).storages
    ensures s in Cleaned(x).storages || Generated(s)
  {
    var c := Cleaned(x);
    var a := WithLegacyS3(c);
    var b := WithLegacyDefault(a);
    StepsGrow(c);
    StepsGrow(a);
    StepsGrow(b);
    GrownMember(b.storages, WithFallback(b).storages, s);
    if s in b.storages {
      GrownMember(a.storages, b.storages, s);
      if s in a.storages {
        GrownMember(c.storages, a.storages, s);
      }
    }
  }

  predicate S3Clash(y: Setting) { AddsLegacyS3(y) && HasId(y.storages, Derived(NamespaceOf(y.s3.value))) }

  predicate DefaultClash(y: Setting) { AddsLegacyDefault(y) && HasId(y.storages, LegacyStorage(y).id) }

  lemma LegacyS3Distinct(y: Setting)
    ensures DistinctIds(WithLegacyS3(y).storages) <==> DistinctIds(y.storages) && !S3Clash(y)
  {
    if AddsLegacyS3(y) {
      NormalizeSettles(S3Storage(y.s3.value));
      Snoc(y.storages, NormalizeStorage(S3Storage(y.s3.value)));
    }
  }

  lemma LegacyDefaultDistinct(y: Setting)
    ensures DistinctIds(WithLegacyDefault(y).storages) <==> DistinctIds(y.storages) && !DefaultClash(y)
  {
    Snoc(y.storages, LegacyStorage(y));
  }

  lemma GatheredDistinct(x: Setting)
    ensures DistinctIds(Gathered(x).storages) <==> !CollidesS3(x) && !CollidesDefault(x)
  {
    CleanProperties(x.storages, []);
    var c := Cleaned(x);
    LegacyS3Distinct(c);
    LegacyDefaultDistinct(WithLegacyS3(c));
  }

  lemma GatheredDefault(x: Setting)
    requires AllSettled(WithLegacyDefault(x).storages)
    ensures var g := WithFallback(WithLegacyDefault(x));
      g.storages != [] && g.defaultId != NoId && HasId(g.storages, g.defaultId)
  {
    LegacyEntriesGenerated(x);
    var b := WithLegacyDefault(x);
    var g := WithFallback(b);
    if Find(b.storages, b.defaultId).None? {
      assert g.storages[0] in g.storages && g.storages[0].id == g.defaultId;
    }
  }

  lemma GatheredShape(x: Setting)
    ensures var g := Gathered(x);
      && g.storages != [] && AllSettled(g.storages)
      && g.defaultId != NoId && HasId(g.storages, g.defaultId)
      && (DistinctIds(g.storages) <==> !CollidesS3(x) && !CollidesDefault(x))
  {
    CleanProperties(x.storages, []);
    forall s | s in Gathered(x).storages
      ensures Settled(s)
    {
      GatheredMember(x, s);
    }
    GatheredDistinct(x);
    var b := WithLegacyDefault(WithLegacyS3(Cleaned(x)));
    StepsGrow(b);
    assert AllSettled(b.storages) by {
      assert forall s :: s in b.storages ==> s in Gathered(x).storages;
    }
    GatheredDefault(WithLegacyS3(Cleaned(x)));
  }

  /** Normalisation leaves non-empty identifiers, a default that exists and stands first with the others in
      order, and legacy fields equal to the default's type and the first S3 configuration. The identifiers are
      pairwise distinct exactly when no legacy entry was added over a foreign holder of its identifier. */
  lemma NormalizedCorrect(x: Setting)
    ensures var n, g := Normalized(x), Gathered(x).storages;
      && n.storages != [] && AllSettled(n.storages)
      && n.storages[0].id == n.defaultId
      && (exists k :: 0 <= k < |g| && g[k].id == n.defaultId && n.storages == MoveFront(g, k))
      && n.storageType == n.storages[0].typ
      && n.s3 == FirstS3(n.storages)
      && (DistinctIds(n.storages) <==> !CollidesS3(x) && !CollidesDefault(x))
  {
    GatheredShape(x);
    DefaultFirstKeeps(Gathered(x).storages, Gathered(x).defaultId);
    var n := Normalized(x);
    assert Find(n.storages, n.defaultId) == Some(n.storages[0]);
  }

  /** S3 configurations are exactly on S3 entries. */
  predicate ConfigsFit(storages: seq<Storage>) {
    forall s :: s in storages ==> (NormalizeStorage(s).s3.Some? <==> NormalizeStorage(s).typ == S3)
  }

  predicate AllOwn(storages: seq<Storage>) { forall s :: s in storages ==> OwnsId(s) }

  /** Where every entry owns its identifier, an equal identifier means an equal namespace. */
  lemma OwnersAgree(s: Storage, t: Storage)
    requires OwnsId(s) && Generated(t) && s.id == t.id
    ensures NamespaceEqual(s, t)
  {
  }

  lemma OwnedS3(y: Setting)
    requires AllOwn(y.storages)
    ensures !S3Clash(y)
    ensures AllOwn(WithLegacyS3(y).storages)
  {
  }

  lemma OwnedDefault(y: Setting)
    requires AllOwn(y.storages)
    ensures !DefaultClash(y)
  {
  }

  lemma CleanedOwn(x: Setting)
    requires CanonicalIds(x.storages)
    ensures AllOwn(Cleaned(x).storages)
  {
    CleanProperties(x.storages, []);
  }

  lemma NormalizedMember(x: Setting, s: Storage)
    requires s in Normalized(x).storages
    ensures s in Cleaned(x).storages || Generated(s)
  {
    DefaultFirstKeeps(Gathered(x).storages, Gathered(x).defaultId);
    GatheredMember(x, s);
  }

  /** With canonical identifiers nothing collides, and the result is canonical again. */
  lemma CanonicalNormalizes(x: Setting)
    requires CanonicalIds(x.storages)
    ensures !CollidesS3(x) && !CollidesDefault(x)
    ensures AllOwn(Normalized(x).storages)
  {
    CleanedOwn(x);
    OwnedS3(Cleaned(x));
    OwnedDefault(WithLegacyS3(Cleaned(x)));
    forall s | s in Normalized(x).storages
      ensures OwnsId(s)
    {
      NormalizedMember(x, s);
    }
  }
}
