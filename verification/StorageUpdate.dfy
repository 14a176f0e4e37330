/** Merging a requested storage setting into the stored one without moving any existing attachment. */
module StorageUpdate {
  import opened Wrappers
  import opened StorageModel
  import opened StorageNormalize

  /** The stored entry with an identifier; a map built front to back keeps the last one. */
  function FindLast(storages: seq<Storage>, id: Id): (r: Option<Storage>)
    ensures r.Some? ==> r.value in storages && r.value.id == id
    ensures r.None? ==> forall s :: s in storages ==> s.id != id
    decreases |storages|
  {
    if storages == [] then None
    else if storages[|storages| - 1].id == id then Some(storages[|storages| - 1])
    else
      var r := FindLast(storages[..|storages| - 1], id);
      assert storages == storages[..|storages| - 1] + [storages[|storages| - 1]];
      r
  }

  // Checks on the request.

  /** A referenced default that is not resent is adopted from the stored setting. */
  function Adopt(x: Setting, stored: Option<Setting>): Result<Setting> {
    if x.defaultId == NoId || Find(x.storages, x.defaultId).Some? then Ok(x)
    else if stored.None? || Find(stored.value.storages, x.defaultId).None? then Err(DefaultStorageIsNotConfigured)
    else Ok(x.(storages := x.storages + [Find(stored.value.storages, x.defaultId).value]))
  }

  function ValidateFrom(storages: seq<Storage>, seen: set<Id>): Result<set<Id>>
    decreases |storages|
  {
    if storages == [] then Ok(seen)
    else
      var s := storages[0];
      if s.id == NoId then Err(StorageIDIsRequired)
      else if s.id in seen then Err(DuplicateStorageID)
      else if s.typ == Unspecified then Err(StorageTypeIsRequired)
      else if s.typ == S3 && s.s3.None? then Err(StorageS3ConfigIsRequired)
      else ValidateFrom(storages[1..], seen + {s.id})
  }

  function Validate(x: Setting): Result<()> {
    var seen :- ValidateFrom(x.storages, {});
    if x.defaultId in seen then Ok(()) else Err(DefaultStorageIsNotConfigured)
  }

  /** An entry a canonical request may contain. */
  predicate Acceptable(s: Storage) { s.id != NoId && s.typ != Unspecified && (s.typ == S3 ==> s.s3.Some?) }

  function Ids(storages: seq<Storage>): set<Id> { set s | s in storages :: s.id }

  lemma {:induction false} ValidateFromIff(storages: seq<Storage>, seen: set<Id>)
    ensures ValidateFrom(storages, seen).Ok? <==>
      && (forall s :: s in storages ==> Acceptable(s) && s.id !in seen)
      && DistinctIds(storages)
    ensures ValidateFrom(storages, seen).Ok? ==> ValidateFrom(storages, seen).value == seen + Ids(storages)
    decreases |storages|
  {
    if storages == [] {
      assert Ids(storages) == {};
    } else {
      var s, rest := storages[0], storages[1..];
      assert storages == [s] + rest;
      assert Ids(storages) == {s.id} + Ids(rest);
      ValidateFromIff(rest, seen + {s.id});
      FirstDistinct(s, rest);
    }
  }

  lemma FirstDistinct(s: Storage, rest: seq<Storage>)
    ensures DistinctIds([s] + rest) <==> DistinctIds(rest) && forall t :: t in rest ==> t.id != s.id
  {
    var all := [s] + rest;
    assert forall i :: 0 <= i < |rest| ==> all[i + 1] == rest[i];
    if DistinctIds(all) {
      forall t | t in rest
        ensures t.id != s.id
      {
        var i :| 0 <= i < |rest| && rest[i] == t;
        assert all[0].id != all[i + 1].id;
      }
      forall i, j | 0 <= i < j < |rest|
        ensures rest[i].id != rest[j].id
      {
        assert all[i + 1].id != all[j + 1].id;
      }
    }
  }

  /** A canonical request is accepted exactly when its identifiers are given and pairwise distinct, its types are given,
      its S3 entries are configured, and its default is one of its entries. */
  lemma ValidIff(x: Setting)
    ensures Validate(x).Ok? <==>
      && (forall s :: s in x.storages ==> Acceptable(s))
      && DistinctIds(x.storages)
      && HasId(x.storages, x.defaultId)
  {
    ValidateFromIff(x.storages, {});
    assert x.defaultId in Ids(x.storages) <==> HasId(x.storages, x.defaultId);
  }

  // Re-identification and credentials.

  /** An incoming entry, and whether its namespace moved away from the stored entry of that identifier. */
  datatype Entry = Entry(s: Storage, moved: bool)

  function Rename(stored: seq<Storage>, s: Storage): Entry {
    var previous := FindLast(stored, s.id);
    if previous.Some? && !NamespaceEqual(previous.value, s) then Entry(s.(id := StorageId(s)), true)
    else Entry(s, false)
  }

  predicate SameProvider(a: S3Config, b: S3Config) {
    NormalizeEndpoint(a.endpoint) == NormalizeEndpoint(b.endpoint) && TrimSpace(a.region) == TrimSpace(b.region)
  }

  predicate Credentials(s: Storage, accessKeyId: string) {
    s.s3.Some? && s.s3.value.accessKeyId == accessKeyId && s.s3.value.accessKeySecret != ""
  }

  /** A stored credential for the same access key on the same endpoint and region. */
  function FindCredential(storages: seq<Storage>, c: S3Config): (r: Option<Storage>)
    ensures r.Some? ==> r.value in storages && Credentials(r.value, c.accessKeyId) && SameProvider(r.value.s3.value, c)
  {
    if storages == [] then None
    else if Credentials(storages[0], c.accessKeyId) && SameProvider(storages[0].s3.value, c) then Some(storages[0])
    else FindCredential(storages[1..], c)
  }

  function FindLegacyCredential(storages: seq<Storage>, accessKeyId: string): (r: Option<Storage>)
    ensures r.Some? ==> r.value in storages && Credentials(r.value, accessKeyId)
  {
    if storages == [] then None
    else if Credentials(storages[0], accessKeyId) then Some(storages[0])
    else FindLegacyCredential(storages[1..], accessKeyId)
  }

  /** The secret an entry sent without one ends up with. */
  function BackfilledSecret(stored: seq<Storage>, legacy: bool, previous: Option<Storage>, moved: bool,
                            c: S3Config): string {
    if !moved && previous.Some? && previous.value.s3.Some? then previous.value.s3.value.accessKeySecret
    else
      var scoped := FindCredential(stored, c);
      var candidate := if scoped.None? && legacy then FindLegacyCredential(stored, c.accessKeyId) else scoped;
      if candidate.Some? then candidate.value.s3.value.accessKeySecret else ""
  }

  function Revised(stored: seq<Storage>, legacy: bool, s: Storage): Entry {
    var e := Rename(stored, s);
    if s.s3.Some? && s.s3.value.accessKeySecret == "" then
      var secret := BackfilledSecret(stored, legacy, FindLast(stored, s.id), e.moved, s.s3.value);
      e.(s := e.s.(s3 := Some(s.s3.value.(accessKeySecret := secret))))
    else e
  }

  function ReviseAll(stored: seq<Storage>, legacy: bool, storages: seq<Storage>): (r: seq<Entry>)
    ensures |r| == |storages| && forall i :: 0 <= i < |r| ==> r[i] == Revised(stored, legacy, storages[i])
  {
    if storages == [] then [] else [Revised(stored, legacy, storages[0])] + ReviseAll(stored, legacy, storages[1..])
  }

  /** The default follows every entry renamed away from it, front to back. */
  function DefaultAfter(stored: seq<Storage>, storages: seq<Storage>, id: Id): Id
    decreases |storages|
  {
    if storages == [] then id
    else
      var e := Rename(stored, storages[0]);
      DefaultAfter(stored, storages[1..], if e.moved && id == storages[0].id then e.s.id else id)
  }

  // Duplicates: a re-identified entry beats one that kept its identifier.

  function IndexOf(entries: seq<Entry>, id: Id): (k: nat)
    ensures k <= |entries|
    ensures k < |entries| ==> entries[k].s.id == id
    ensures forall j :: 0 <= j < k ==> entries[j].s.id != id
  {
    if entries == [] || entries[0].s.id == id then 0 else 1 + IndexOf(entries[1..], id)
  }

  function Absorb(done: seq<Entry>, e: Entry): seq<Entry> {
    var k := IndexOf(done, e.s.id);
    if k == |done| then done + [e]
    else if e.moved && !done[k].moved then done[k := e]
    else done
  }

  function Dedupe(entries: seq<Entry>, done: seq<Entry>): seq<Entry>
    decreases |entries|
  {
    if entries == [] then done else Dedupe(entries[1..], Absorb(done, entries[0]))
  }

  function Storages(entries: seq<Entry>): (r: seq<Storage>)
    ensures |r| == |entries| && forall i :: 0 <= i < |r| ==> r[i] == entries[i].s
  {
    seq(|entries|, i requires 0 <= i < |entries| => entries[i].s)
  }

  /** Stored entries whose identifier the request does not mention. */
  function Missing(stored: seq<Storage>, kept: seq<Storage>): seq<Storage> {
    if stored == [] then []
    else (if HasId(kept, stored[0].id) then [] else [stored[0]]) + Missing(stored[1..], kept)
  }

  predicate LacksSecret(s: Storage) {
    s.s3.Some? && s.s3.value.accessKeyId != "" && s.s3.value.accessKeySecret == ""
  }

  /** A legacy request names no identifiers: its default takes over the matching stored one. */
  function AlignLegacy(n: Setting, stored: seq<Storage>): Setting {
    var k := IndexFrom(n.storages, n.defaultId, 0);
    if k == |n.storages| then n
    else
      var d := n.storages[k];
      match FindEquivalent(stored, d)
      case None => n
      case Some(m) =>
        n.(storages := n.storages[k := d.(id := m.id, name := if d.name == DefaultName(d) then m.name else d.name)],
           defaultId := m.id)
  }

  function Kept(n: Setting, stored: seq<Storage>, legacy: bool): seq<Storage> {
    Storages(Dedupe(ReviseAll(stored, legacy, n.storages), []))
  }

  function Aligned(n: Setting, stored: seq<Storage>, legacy: bool): Setting {
    if legacy then AlignLegacy(n, stored) else n
  }

  function Merged(n: Setting, stored: seq<Storage>, legacy: bool): Result<Setting> {
    MergedWith(Aligned(n, stored, legacy), stored, legacy)
  }

  function MergedWith(a: Setting, stored: seq<Storage>, legacy: bool): Result<Setting> {
    var kept := Kept(a, stored, legacy);
    if exists s :: s in kept && LacksSecret(s) then Err(AccessKeySecretIsRequired)
    else Ok(Normalized(BeforeNormalizing(a, stored, kept)))
  }

  function BeforeNormalizing(a: Setting, stored: seq<Storage>, kept: seq<Storage>): Setting {
    a.(storages := kept + Missing(stored, kept), defaultId := DefaultAfter(stored, a.storages, a.defaultId))
  }

  /** The setting stored when the update is accepted. */
  function Prepared(incoming: Setting, existing: Option<Setting>): Result<Setting> {
    var stored := if existing.Some? then Some(Normalized(existing.value)) else None;
    var adopted :- Adopt(incoming, stored);
    var _ :- (if adopted.storages == [] then Ok(()) else Validate(adopted));
    if stored.None? then Ok(Normalized(adopted))
    else Merged(Normalized(adopted), stored.value.storages, adopted.storages == [])
  }

  /** The request after its own normalisation; a legacy request's default is aligned with the stored one. */
  function Request(incoming: Setting, existing: Setting): Setting
    requires Adopt(incoming, Some(Normalized(existing))).Ok?
  {
    var adopted := Adopt(incoming, Some(Normalized(existing))).value;
    Aligned(Normalized(adopted), Normalized(existing).storages, adopted.storages == [])
  }

  lemma PreparedShape(incoming: Setting, existing: Setting) returns (legacy: bool)
    requires Prepared(incoming, Some(existing)).Ok?
    ensures var stored, a := Normalized(existing).storages, Request(incoming, existing);
      Prepared(incoming, Some(existing)).value == Normalized(BeforeNormalizing(a, stored, Kept(a, stored, legacy)))
  {
    var stored, adopted := Normalized(existing), Adopt(incoming, Some(Normalized(existing))).value;
    legacy := adopted.storages == [];
    MergedShape(Normalized(adopted), stored.storages, legacy);
  }

  lemma MergedShape(n: Setting, stored: seq<Storage>, legacy: bool)
    requires Merged(n, stored, legacy).Ok?
    ensures var a := Aligned(n, stored, legacy);
      Merged(n, stored, legacy) == Ok(Normalized(BeforeNormalizing(a, stored, Kept(a, stored, legacy))))
  {
  }

  // The update on the setting objects.

  method ValidateStorages(x: InstanceStorageSetting) returns (r: Result<()>)
    ensures r == Validate(x.Value())
    ensures r.Ok? <==>
      && (forall s :: s in x.storages ==> Acceptable(s))
      && DistinctIds(x.storages)
      && HasId(x.storages, x.defaultStorageId)
  {
    ValidIff(x.Value());
    var seen: set<Id> := {};
    for i := 0 to |x.storages|
      invariant ValidateFrom(x.storages, {}) == ValidateFrom(x.storages[i..], seen)
    {
      var s := x.storages[i];
      assert x.storages[i..][1..] == x.storages[i + 1..];
      if s.id == NoId { return Err(StorageIDIsRequired); }
      if s.id in seen { return Err(DuplicateStorageID); }
      seen := seen + {s.id};
      if s.typ == Unspecified { return Err(StorageTypeIsRequired); }
      if s.typ == S3 && s.s3.None? { return Err(StorageS3ConfigIsRequired); }
    }
    r := if x.defaultStorageId in seen then Ok(()) else Err(DefaultStorageIsNotConfigured);
  }

  method AlignLegacyRequest(incoming: InstanceStorageSetting, stored: seq<Storage>)
    modifies incoming
    ensures incoming.Value() == AlignLegacy(old(incoming.Value()), stored)
  {
    var k := IndexFrom(incoming.storages, incoming.defaultStorageId, 0);
    if k == |incoming.storages| {
      return;
    }
    var d := incoming.storages[k];
    var matching := FindEquivalent(stored, d);
    if matching.Some? {
      var name := d.name;
      if name == DefaultName(d) {
        name := matching.value.name;
      }
      incoming.storages := incoming.storages[k := d.(id := matching.value.id, name := name)];
      incoming.defaultStorageId := matching.value.id;
    }
  }

  /** The stored entries by identifier: of several with one identifier the last is kept. */
  method StoredById(stored: seq<Storage>) returns (existingById: map<Id, Storage>)
    ensures forall id :: (if id in existingById then Some(existingById[id]) else None) == FindLast(stored, id)
  {
    existingById := map[];
    for i := 0 to |stored|
      invariant forall id :: (if id in existingById then Some(existingById[id]) else None) == FindLast(stored[..i], id)
    {
      assert stored[..i + 1][..i] == stored[..i];
      existingById := existingById[stored[i].id := stored[i]];
    }
    assert stored[..|stored|] == stored;
  }

  /** Renames moved entries, lets the default follow, and fills in secrets. */
  method Reidentify(incoming: InstanceStorageSetting, stored: seq<Storage>, legacy: bool) returns (entries: seq<Entry>)
    modifies incoming`defaultStorageId
    ensures entries == ReviseAll(stored, legacy, incoming.storages)
    ensures incoming.defaultStorageId == DefaultAfter(stored, incoming.storages, old(incoming.defaultStorageId))
  {
    entries := [];
    var existingById := StoredById(stored);
    for i := 0 to |incoming.storages|
      invariant |entries| == i && forall j :: 0 <= j < i ==> entries[j] == Revised(stored, legacy, incoming.storages[j])
      invariant DefaultAfter(stored, incoming.storages, old(incoming.defaultStorageId))
             == DefaultAfter(stored, incoming.storages[i..], incoming.defaultStorageId)
    {
      var s := incoming.storages[i];
      assert incoming.storages[i..][1..] == incoming.storages[i + 1..];
      var previous := if s.id in existingById then Some(existingById[s.id]) else None;
      assert previous == FindLast(stored, s.id);
      var e := Entry(s, false);
      if previous.Some? && !NamespaceEqual(previous.value, s) {
        e := Entry(s.(id := StorageId(s)), true);
        if incoming.defaultStorageId == s.id {
          incoming.defaultStorageId := e.s.id;
        }
      }
      if s.s3.Some? && s.s3.value.accessKeySecret == "" {
        var secret := BackfilledSecret(stored, legacy, previous, e.moved, s.s3.value);
        e := e.(s := e.s.(s3 := Some(s.s3.value.(accessKeySecret := secret))));
      }
      entries := entries + [e];
    }
  }

  method DedupeEntries(entries: seq<Entry>) returns (done: seq<Entry>)
    ensures done == Dedupe(entries, [])
  {
    done := [];
    for i := 0 to |entries|
      invariant Dedupe(entries, []) == Dedupe(entries[i..], done)
    {
      assert entries[i..][1..] == entries[i + 1..];
      var e := entries[i];
      var k := IndexOf(done, e.s.id);
      if k < |done| {
        if e.moved && !done[k].moved {
          done := done[k := e];
        }
      } else {
        done := done + [e];
      }
    }
  }

  method AppendMissing(stored: seq<Storage>, kept: seq<Storage>) returns (all: seq<Storage>)
    ensures all == kept + Missing(stored, kept)
  {
    all := kept;
    var ids := set s | s in kept :: s.id;
    for i := 0 to |stored|
      invariant kept + Missing(stored, kept) == all + Missing(stored[i..], kept)
    {
      assert stored[i..][1..] == stored[i + 1..];
      assert stored[i].id in ids <==> HasId(kept, stored[i].id);
      if stored[i].id !in ids {
        all := all + [stored[i]];
      }
    }
  }

  method AdoptDefault(incoming: InstanceStorageSetting, existing: InstanceStorageSetting?) returns (r: Result<()>)
    requires incoming != existing
    modifies incoming`storages
    ensures match Adopt(old(incoming.Value()), if existing == null then None else Some(old(existing.Value())))
            case Ok(v) => r.Ok? && incoming.Value() == v
            case Err(e) => r == Err(e)
  {
    if incoming.defaultStorageId != NoId && Find(incoming.storages, incoming.defaultStorageId).None? {
      var preserved := if existing == null then None else Find(existing.storages, incoming.defaultStorageId);
      if preserved.None? {
        return Err(DefaultStorageIsNotConfigured);
      }
      incoming.storages := incoming.storages + [preserved.value];
    }
    r := Ok(());
  }

  method MergeInto(incoming: InstanceStorageSetting, stored: seq<Storage>, legacy: bool) returns (r: Result<()>)
    modifies incoming
    ensures match Merged(old(incoming.Value()), stored, legacy)
            case Ok(v) => r.Ok? && incoming.Value() == v
            case Err(e) => r == Err(e)
  {
    if legacy {
      AlignLegacyRequest(incoming, stored);
    }
    r := MergeAligned(incoming, stored, legacy);
  }

  method MergeAligned(incoming: InstanceStorageSetting, stored: seq<Storage>, legacy: bool) returns (r: Result<()>)
    modifies incoming
    ensures match MergedWith(old(incoming.Value()), stored, legacy)
            case Ok(v) => r.Ok? && incoming.Value() == v
            case Err(e) => r == Err(e)
  {
    ghost var a := incoming.Value();
    var entries := Reidentify(incoming, stored, legacy);
    var done := DedupeEntries(entries);
    var kept := Storages(done);
    assert kept == Kept(a, stored, legacy);
    if exists s :: s in kept && LacksSecret(s) {
      return Err(AccessKeySecretIsRequired);
    }
    incoming.storages := AppendMissing(stored, kept);
    assert incoming.Value() == BeforeNormalizing(a, stored, kept);
    incoming.Normalize();
    r := Ok(());
  }

  /** The whole update: the stored setting is normalised, the request becomes the setting to store. */
  method PrepareUpdate(incoming: InstanceStorageSetting?, existing: InstanceStorageSetting?) returns (r: Result<()>)
    requires incoming != existing || incoming == null
    modifies incoming, existing
    ensures incoming == null ==> r.Err? && (existing != null ==> existing.Value() == old(existing.Value()))
    ensures incoming != null && existing != null ==> existing.Value() == Normalized(old(existing.Value()))
    ensures incoming != null ==>
      match Prepared(old(incoming.Value()), if existing == null then None else Some(old(existing.Value())))
      case Ok(v) => r.Ok? && incoming.Value() == v
      case Err(e) => r == Err(e)
  {
    if incoming == null {
      return Err(StorageSettingIsRequired);
    }
    if existing != null {
      existing.Normalize();
    }
    var _ :- AdoptDefault(incoming, existing);
    var legacy := incoming.storages == [];
    if !legacy {
      var _ :- ValidateStorages(incoming);
    }
    incoming.Normalize();
    if existing == null {
      return Ok(());
    }
    r := MergeInto(incoming, existing.storages, legacy);
  }
}
