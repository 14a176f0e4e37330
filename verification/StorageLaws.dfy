/** The storage registry in the fields of its own entries: which texts and places are the same, which default a setting
    ends up with, and that an accepted update keeps every attachment at its endpoint, region and bucket. */
module StorageLaws {
  import opened Wrappers
  import opened StorageModel
  import opened StorageNormalize
  import opened StorageUpdate
  import opened StorageIdempotence
  import opened StorageSafety
  import opened StorageHousing

  // Texts.

  /** The characters of Unicode's White_Space property. */
  const WHITE_SPACE: set<char> := {
    '\U{0009}', '\U{000A}', '\U{000B}', '\U{000C}', '\U{000D}', '\U{0020}', '\U{0085}', '\U{00A0}', '\U{1680}',
    '\U{2000}', '\U{2001}', '\U{2002}', '\U{2003}', '\U{2004}', '\U{2005}', '\U{2006}', '\U{2007}', '\U{2008}',
    '\U{2009}', '\U{200A}', '\U{2028}', '\U{2029}', '\U{202F}', '\U{205F}', '\U{3000}'
  }

  predicate AllWhite(s: string) { forall c :: c in s ==> c in WHITE_SPACE }

  /** Empty, or no white space at either end. */
  predicate Bare(s: string) { s == "" || (s[0] !in WHITE_SPACE && s[|s| - 1] !in WHITE_SPACE) }

  lemma SpaceIff(c: char)
    ensures IsSpace(c) <==> c in WHITE_SPACE
  {
  }

  lemma {:induction false} TrimLeftIs(lead: string, core: string)
    requires AllWhite(lead) && (core == "" || core[0] !in WHITE_SPACE)
    ensures TrimLeft(lead + core) == core
    decreases |lead|
  {
    if lead == "" {
      assert lead + core == core;
      if core != "" { SpaceIff(core[0]); }
    } else {
      SpaceIff(lead[0]);
      assert (lead + core)[0] == lead[0] && (lead + core)[1..] == lead[1..] + core;
      TrimLeftIs(lead[1..], core);
    }
  }

  /** The character that the trim takes off the end. */
  predicate Taken(c: char, slash: bool) { if slash then c == '/' else c in WHITE_SPACE }

  lemma {:induction false} TrimRightIs(core: string, tail: string, slash: bool)
    requires (forall c :: c in tail ==> Taken(c, slash)) && (core == "" || !Taken(core[|core| - 1], slash))
    ensures TrimRight(core + tail, slash) == core
    decreases |tail|
  {
    if tail == "" {
      assert core + tail == core;
      if core != "" { SpaceIff(core[|core| - 1]); }
    } else {
      var last := tail[|tail| - 1];
      SpaceIff(last);
      assert last in tail;
      assert (core + tail)[..|core| + |tail| - 1] == core + tail[..|tail| - 1];
      TrimRightIs(core, tail[..|tail| - 1], slash);
    }
  }

  /** Trimming takes off the white space at both ends and nothing else. */
  lemma TrimSpaceIs(lead: string, core: string, tail: string)
    requires AllWhite(lead) && AllWhite(tail) && Bare(core) && (core == "" ==> tail == "")
    ensures TrimSpace(lead + core + tail) == core
  {
    assert lead + core + tail == lead + (core + tail);
    TrimLeftIs(lead, core + tail);
    TrimRightIs(core, tail, false);
  }

  /** An endpoint loses its outer white space, and then the slashes at its end. */
  lemma EndpointIs(lead: string, core: string, slashes: string, tail: string)
    requires AllWhite(lead) && AllWhite(tail) && Bare(core + slashes) && (core + slashes == "" ==> tail == "")
    requires (forall c :: c in slashes ==> c == '/') && (core == "" || core[|core| - 1] != '/')
    ensures NormalizeEndpoint(lead + core + slashes + tail) == core
  {
    assert lead + core + slashes + tail == lead + (core + slashes) + tail;
    TrimSpaceIs(lead, core + slashes, tail);
    TrimRightIs(core, slashes, true);
  }

  // Places.

  /** The configurations' endpoints, regions and buckets, trimmed, are the same. */
  predicate SameConfig(a: S3Config, b: S3Config) {
    && NormalizeEndpoint(a.endpoint) == NormalizeEndpoint(b.endpoint)
    && TrimSpace(a.region) == TrimSpace(b.region)
    && TrimSpace(a.bucket) == TrimSpace(b.bucket)
  }

  /** The entries have one type and, if that is S3, one endpoint, region and bucket. */
  predicate SamePlace(a: Storage, b: Storage) {
    && a.typ == b.typ
    && (a.typ == S3 ==> match (a.s3, b.s3)
          case (Some(c), Some(d)) => SameConfig(c, d)
          case (None, None) => true
          case _ => false)
  }

  lemma NamespaceEqualIff(a: Storage, b: Storage)
    ensures NamespaceEqual(a, b) <==> SamePlace(a, b)
  {
  }

  /** Entries of a type get an identifier, S3 ones with a configuration; it is the same exactly for the same place. */
  lemma StorageIdIff(a: Storage, b: Storage)
    ensures StorageId(a) != NoId <==> a.typ == Database || a.typ == Local || (a.typ == S3 && a.s3.Some?)
    ensures a.typ == Database ==> StorageId(a) == DatabaseId
    ensures a.typ == Local ==> StorageId(a) == LocalId
    ensures StorageId(a) != NoId ==> (StorageId(a) == StorageId(b) <==> SamePlace(a, b))
  {
  }

  /** A renamed request entry is one whose stored namesake lies elsewhere: another type, endpoint, region or bucket. */
  lemma RenamedIff(stored: seq<Storage>, s: Storage)
    ensures var e := Rename(stored, s);
      && (e.moved <==> FindLast(stored, s.id).Some? && !SamePlace(FindLast(stored, s.id).value, s))
      && e.s == (if e.moved then s.(id := StorageId(s)) else s)
  {
  }

  /** An accepted update keeps the place an attachment is in, field by field. */
  lemma AttachmentKeepsPlace(incoming: Setting, existing: Setting, id: Id, legacy: Option<S3Config>)
    requires CanonicalIds(existing.storages) && Prepared(incoming, Some(existing)).Ok?
    requires if id == NoId then legacy.Some? else HasId(Normalized(existing).storages, id)
    ensures var b := ResolveStorage(Normalized(existing), id, legacy);
      var a := ResolveStorage(Prepared(incoming, Some(existing)).value, id, legacy);
      && b.Ok? && a.Ok? && SamePlace(b.value, a.value)
      && (id == NoId ==> SamePlace(b.value, Storage(NoId, "", S3, legacy)))
      && (id != NoId ==> b.value in Normalized(existing).storages && b.value.id == id)
  {
    UpdateMovesNoAttachment(incoming, existing, id, legacy);
  }

  // Entries.

  /** What normalising an entry leaves and what it fills in. */
  lemma EntryNormalized(s: Storage)
    ensures var t := NormalizeStorage(s);
      && t.s3 == s.s3
      && t.typ == (if s.typ == Unspecified && s.s3.Some? then S3 else s.typ)
      && (s.id != NoId ==> t.id == s.id) && (s.id == NoId ==> t.id == StorageId(t))
      && (TrimSpace(s.name) != "" ==> t.name == s.name)
      && (TrimSpace(s.name) == "" ==>
            t.name == match t.typ
              case Database => "Database"
              case Local => "Local"
              case Unspecified => "Storage"
              case S3 =>
                if s.s3.None? || TrimSpace(s.s3.value.bucket) == "" then "S3" else TrimSpace(s.s3.value.bucket))
  {
  }

  /** Normalising keeps the place of an entry that says its type. */
  lemma EntryStays(s: Storage)
    requires s.typ != Unspecified
    ensures SamePlace(s, NormalizeStorage(s))
  {
  }

  // The default.

  /** The first entry of a place. */
  predicate FirstAt(l: seq<Storage>, place: Storage, k: nat) {
    k < |l| && SamePlace(l[k], place) && forall j :: 0 <= j < k ==> !SamePlace(l[j], place)
  }

  lemma {:induction false} EquivalentIsFirst(l: seq<Storage>, place: Storage) returns (k: nat)
    ensures FindEquivalent(l, place).None? <==> forall s :: s in l ==> !SamePlace(s, place)
    ensures FindEquivalent(l, place).Some? ==> FirstAt(l, place, k) && FindEquivalent(l, place).value == l[k]
    decreases |l|
  {
    k := 0;
    if l != [] {
      NamespaceEqualIff(l[0], place);
      if !NamespaceEqual(l[0], place) {
        var i := EquivalentIsFirst(l[1..], place);
        k := i + 1;
        assert l == [l[0]] + l[1..];
      }
    }
  }

  /** The legacy configuration is registered behind the cleaned entries exactly when none of them addresses it. */
  lemma RegisteredIff(x: Setting)
    ensures var c := Cleaned(x).storages;
      match x.s3
      case None => Listed(x) == c
      case Some(config) =>
        var place := Storage(NoId, "", S3, Some(config));
        if exists s :: s in c && SamePlace(s, place) then Listed(x) == c
        else exists s :: Listed(x) == c + [s] && SamePlace(s, place) && s.s3 == x.s3 && s.id == StorageId(s)
  {
    if x.s3.Some? {
      var place := S3Storage(x.s3.value);
      var k := EquivalentIsFirst(Cleaned(x).storages, place);
      if AddsLegacyS3(Cleaned(x)) {
        var s := Generate(x.s3.value);
        assert Listed(x) == Cleaned(x).storages + [s] && SamePlace(s, place);
      }
    }
  }

  const LOCAL: Storage := Storage(LocalId, "Local", Local, None)
  const DATABASE: Storage := Storage(DatabaseId, "Database", Database, None)

  /** A default that is given: it is the default if it is listed, else the first entry is, or the local storage where
      there is none. */
  lemma GivenDefault(x: Setting)
    requires x.defaultId != NoId
    ensures var l, n := Listed(x), Normalized(x);
      && n.storages != [] && n.storages[0].id == n.defaultId
      && if HasId(l, x.defaultId) then n.defaultId == x.defaultId
         else if l != [] then n.defaultId == l[0].id
         else n.storages == [LOCAL]
  {
    NormalizedCorrect(x);
    NormalizedList(x);
    BuiltinsAre();
  }

  /** The entry a declared type stands for, an unspecified one being local. */
  function Declared(typ: StorageType, s3: Option<S3Config>): Storage {
    match typ
    case Database => DATABASE
    case S3 => Storage(NoId, "", S3, s3)
    case _ => LOCAL
  }

  /** No default given: the first entry of the declared place is the default; where there is none, the local or database
      storage is added as it; for an S3 type without a configuration, the first entry is the default. */
  ghost predicate Chooses(l: seq<Storage>, place: Storage, n: Setting) {
    if exists k: nat :: FirstAt(l, place, k) then exists k: nat :: FirstAt(l, place, k) && n.defaultId == l[k].id
    else if place.typ != S3 then n.defaultId == place.id && place in n.storages
    else if l != [] then n.defaultId == l[0].id
    else n.storages == [LOCAL]
  }

  lemma DeclaredDefault(x: Setting)
    requires x.defaultId == NoId
    ensures var n := Normalized(x);
      && n.storages != [] && n.storages[0].id == n.defaultId
      && Chooses(Listed(x), Declared(x.storageType, x.s3), n)
  {
    hide Normalized, Chooses;
    var l, place, legacy := Listed(x), Declared(x.storageType, x.s3), LegacyStorage(x);
    NormalizedCorrect(x);
    NormalizedList(x);
    LegacyIs(x);
    SamePlaces(l, place, legacy);
    if x.storageType == S3 && x.s3.Some? { LegacyS3Listed(x); }
    DefaultFirstKeeps(Entries(x), Chosen(x));
    ChosenDeclared(x, l, place, Normalized(x));
  }

  lemma LegacyIs(x: Setting)
    ensures var place := Declared(x.storageType, x.s3);
      && SamePlace(place, LegacyStorage(x))
      && (place.typ != S3 ==> LegacyStorage(x) == place)
      && (place.typ == S3 && x.s3.None? ==> LegacyStorage(x).id == NoId)
  {
    BuiltinsAre();
  }

  lemma ChosenDeclared(x: Setting, l: seq<Storage>, place: Storage, n: Setting)
    requires x.defaultId == NoId && l == Listed(x) && n.defaultId == Chosen(x)
    requires place == Declared(x.storageType, x.s3) && FindEquivalent(l, place) == FindEquivalent(l, LegacyStorage(x))
    requires place.typ != S3 ==> LegacyStorage(x) == place
    requires place.typ == S3 ==> LegacyStorage(x).id == NoId || FindEquivalent(l, place).Some?
    requires forall s :: s in n.storages <==> s in Entries(x)
    requires |n.storages| == |Entries(x)|
    ensures Chooses(l, place, n)
  {
    hide LegacyStorage, SamePlace;
    var k := EquivalentIsFirst(l, place);
    BuiltinsAre();
    if FindEquivalent(l, place).None? {
      NoFirst(l, place);
      assert place.typ != S3 ==> Entries(x) == l + [place] && place in Entries(x);
      assert n.storages != [] && n.storages[0] in n.storages;
    } else {
      OnlyFirst(l, place, k);
    }
  }

  lemma NoFirst(l: seq<Storage>, place: Storage)
    requires forall s :: s in l ==> !SamePlace(s, place)
    ensures forall k: nat :: !FirstAt(l, place, k)
  {
  }

  lemma OnlyFirst(l: seq<Storage>, place: Storage, k: nat)
    requires FirstAt(l, place, k)
    ensures forall i: nat :: FirstAt(l, place, i) ==> i == k
  {
  }

  lemma BuiltinsAre()
    ensures BuiltinStorage(Local) == LOCAL && BuiltinStorage(Database) == DATABASE
  {
    assert TrimSpace("") == "";
  }

  lemma {:induction false} SamePlaces(l: seq<Storage>, a: Storage, b: Storage)
    requires SamePlace(a, b)
    ensures FindEquivalent(l, a) == FindEquivalent(l, b)
    decreases |l|
  {
    if l != [] { SamePlaces(l[1..], a, b); }
  }

  // Requests.

  /** The last entry with an identifier. */
  predicate LastWith(l: seq<Storage>, id: Id, k: nat) {
    k < |l| && l[k].id == id && forall j :: k < j < |l| ==> l[j].id != id
  }

  lemma {:induction false} NamesakeIsLast(stored: seq<Storage>, id: Id, k: nat)
    requires LastWith(stored, id, k)
    ensures FindLast(stored, id) == Some(stored[k])
    decreases |stored|
  {
    var n := |stored| - 1;
    if k < n { NamesakeIsLast(stored[..n], id, k); }
  }

  /** A stored secret for the access key, of the same endpoint and region where `scoped`. */
  predicate HoldsKey(t: Storage, c: S3Config, scoped: bool) {
    && t.s3.Some? && t.s3.value.accessKeyId == c.accessKeyId && t.s3.value.accessKeySecret != ""
    && (scoped ==> NormalizeEndpoint(t.s3.value.endpoint) == NormalizeEndpoint(c.endpoint)
                   && TrimSpace(t.s3.value.region) == TrimSpace(c.region))
  }

  predicate FirstKey(l: seq<Storage>, c: S3Config, scoped: bool, k: nat) {
    k < |l| && HoldsKey(l[k], c, scoped) && forall j :: 0 <= j < k ==> !HoldsKey(l[j], c, scoped)
  }

  predicate AnyKey(l: seq<Storage>, c: S3Config, scoped: bool) { exists t :: t in l && HoldsKey(t, c, scoped) }

  lemma {:induction false} ScopedIsFirst(l: seq<Storage>, c: S3Config) returns (k: nat)
    ensures match FindCredential(l, c)
      case None => !AnyKey(l, c, true)
      case Some(t) => AnyKey(l, c, true) && FirstKey(l, c, true, k) && t == l[k]
    decreases |l|
  {
    k := 0;
    if l != [] {
      KeySplit(l, c, true);
      if !HoldsKey(l[0], c, true) {
        var i := ScopedIsFirst(l[1..], c);
        k := i + 1;
      }
    }
  }

  lemma {:induction false} UnscopedIsFirst(l: seq<Storage>, c: S3Config) returns (k: nat)
    ensures match FindLegacyCredential(l, c.accessKeyId)
      case None => !AnyKey(l, c, false)
      case Some(t) => AnyKey(l, c, false) && FirstKey(l, c, false, k) && t == l[k]
    decreases |l|
  {
    k := 0;
    if l != [] {
      KeySplit(l, c, false);
      if !HoldsKey(l[0], c, false) {
        var i := UnscopedIsFirst(l[1..], c);
        k := i + 1;
      }
    }
  }

  lemma KeySplit(l: seq<Storage>, c: S3Config, scoped: bool)
    requires l != []
    ensures AnyKey(l, c, scoped) <==> HoldsKey(l[0], c, scoped) || AnyKey(l[1..], c, scoped)
  {
    assert l == [l[0]] + l[1..];
  }

  /** The secret an entry ends up with is the one it is sent with. Sent without, it is its stored namesake's where it
      stays and the namesake is configured, else the first stored one for the access key at its endpoint and region,
      else, for a request that lists no entries, the first one for the access key, else none. */
  predicate SecretIs(stored: seq<Storage>, legacy: bool, s: Storage, secret: string)
    requires s.s3.Some?
  {
    var c, previous := s.s3.value, FindLast(stored, s.id);
    if c.accessKeySecret != "" then secret == c.accessKeySecret
    else if previous.Some? && SamePlace(previous.value, s) && previous.value.s3.Some? then
      secret == previous.value.s3.value.accessKeySecret
    else if AnyKey(stored, c, true) then
      exists k :: 0 <= k < |stored| && FirstKey(stored, c, true, k) && secret == stored[k].s3.value.accessKeySecret
    else if legacy && AnyKey(stored, c, false) then
      exists k :: 0 <= k < |stored| && FirstKey(stored, c, false, k) && secret == stored[k].s3.value.accessKeySecret
    else secret == ""
  }

  /** A revised request entry is the entry as sent, but for the identifier of a renamed one and a secret filled in. */
  lemma RevisedIs(stored: seq<Storage>, legacy: bool, s: Storage)
    ensures var e := Revised(stored, legacy, s);
      && e.moved == Rename(stored, s).moved && e.s.id == Rename(stored, s).s.id
      && e.s.name == s.name && e.s.typ == s.typ
      && (e.s.s3.Some? <==> s.s3.Some?)
      && (s.s3.Some? ==>
            && e.s.s3.value.(accessKeySecret := "") == s.s3.value.(accessKeySecret := "")
            && SecretIs(stored, legacy, s, e.s.s3.value.accessKeySecret))
  {
    if s.s3.Some? {
      var k := ScopedIsFirst(stored, s.s3.value);
      var j := UnscopedIsFirst(stored, s.s3.value);
    }
  }

  predicate FirstWith(l: seq<Storage>, id: Id, k: nat) {
    k < |l| && l[k].id == id && forall j :: 0 <= j < k ==> l[j].id != id
  }

  lemma {:induction false} FoundIsFirst(l: seq<Storage>, id: Id) returns (k: nat)
    requires id != NoId
    ensures Find(l, id).Some? <==> HasId(l, id)
    ensures Find(l, id).Some? ==> FirstWith(l, id, k) && Find(l, id).value == l[k]
    decreases |l|
  {
    k := 0;
    if l != [] {
      assert l == [l[0]] + l[1..];
      if l[0].id != id {
        var i := FoundIsFirst(l[1..], id);
        k := i + 1;
      }
    }
  }

  /** A request whose default is not among its entries takes over the stored entry of that identifier, and is refused
      where there is none. */
  lemma AdoptedIs(x: Setting, stored: Setting)
    ensures if x.defaultId == NoId || HasId(x.storages, x.defaultId) then Adopt(x, Some(stored)) == Ok(x)
      else if HasId(stored.storages, x.defaultId) then
        exists k: nat :: FirstWith(stored.storages, x.defaultId, k)
          && Adopt(x, Some(stored)) == Ok(x.(storages := x.storages + [stored.storages[k]]))
      else Adopt(x, Some(stored)).Err?
  {
    if x.defaultId != NoId {
      var i := FoundIsFirst(x.storages, x.defaultId);
      var k := FoundIsFirst(stored.storages, x.defaultId);
    }
  }

  /** The default of a request without entries takes over the first stored entry of its place: its identifier, and its
      name where the default has none of its own. */
  lemma AlignedIs(n: Setting, stored: seq<Storage>) returns (k: nat)
    requires n.storages != [] && n.storages[0].id == n.defaultId
    ensures var d, r := n.storages[0], AlignLegacy(n, stored);
      && |r.storages| == |n.storages| && r.storages[1..] == n.storages[1..] && r.s3 == n.s3
      && if exists s :: s in stored && SamePlace(s, d) then
           && FirstAt(stored, d, k) && r.defaultId == stored[k].id
           && r.storages[0].id == stored[k].id && r.storages[0].(id := d.id, name := d.name) == d
           && r.storages[0].name == if d.name == DefaultName(d) then stored[k].name else d.name
         else r == n
  {
    k := EquivalentIsFirst(stored, n.storages[0]);
  }

  /** A request that lists entries gives each its own identifier, a type, and to S3 a configuration, and its default is
      one of them. */
  predicate Passes(x: Setting) {
    && (forall i :: 0 <= i < |x.storages| ==>
          x.storages[i].id != NoId && x.storages[i].typ != Unspecified
          && (x.storages[i].typ == S3 ==> x.storages[i].s3.Some?))
    && (forall i, j :: 0 <= i < j < |x.storages| ==> x.storages[i].id != x.storages[j].id)
    && exists i :: 0 <= i < |x.storages| && x.storages[i].id == x.defaultId
  }

  /** An update is accepted exactly when its default is sent or stored, the entries it lists pass, and none of those it
      keeps has an access key without a secret. */
  lemma UpdateAcceptedIff(incoming: Setting, existing: Setting)
    ensures Prepared(incoming, Some(existing)).Ok? <==>
      match Adopt(incoming, Some(Normalized(existing)))
      case Err(_) => false
      case Ok(x) =>
        && (x.storages != [] ==> Passes(x))
        && forall s :: s in Kept(Request(incoming, existing), Normalized(existing).storages, x.storages == []) ==>
             (s.s3.Some? && s.s3.value.accessKeyId != "" ==> s.s3.value.accessKeySecret != "")
  {
    hide Normalized, Kept;
    var stored := Normalized(existing);
    if Adopt(incoming, Some(stored)).Ok? { PassesIff(Adopt(incoming, Some(stored)).value); }
  }

  /** The first setting of all is accepted exactly when its default is sent and the entries it lists pass, and is stored
      normalised. */
  lemma FirstUpdateIs(x: Setting)
    ensures Prepared(x, None).Ok?
       <==> (x.defaultId == NoId || HasId(x.storages, x.defaultId)) && (x.storages != [] ==> Passes(x))
    ensures Prepared(x, None).Ok? ==> Prepared(x, None).value == Normalized(x)
  {
    hide Normalized;
    if x.defaultId != NoId { var k := FoundIsFirst(x.storages, x.defaultId); }
    PassesIff(x);
  }

  lemma PassesIff(x: Setting)
    ensures Validate(x).Ok? <==> Passes(x)
  {
    ValidIff(x);
    assert forall i :: 0 <= i < |x.storages| ==> x.storages[i] in x.storages;
  }

  /** What an identifier leads to after an accepted update: the request entry that takes it, revised; else the stored
      entry, unchanged. Only the legacy configuration may come in front. */
  lemma EntryAfterUpdate(incoming: Setting, existing: Setting, id: Id)
    requires Prepared(incoming, Some(existing)).Ok? && id != NoId && !LegacyInFront(Merging(incoming, existing), id)
    ensures var stored, a := Normalized(existing).storages, Request(incoming, existing);
      var found := Find(Prepared(incoming, Some(existing)).value.storages, id);
      match Taker(stored, a.storages, id)
      case Some(s) => found == Some(Revised(stored, IsLegacy(incoming, existing), s).s)
      case None => Find(stored, id).Some? ==> found == Find(stored, id)
  {
    hide Normalized, Taker, Revised, Joined, Generate;
    var stored, a, y := Normalized(existing).storages, Request(incoming, existing), Merging(incoming, existing);
    AcceptedShape(incoming, existing);
    var _, _ := MergingShape(incoming, existing);
    JoinedFinds(a, stored, IsLegacy(incoming, existing), id);
    if Find(y.storages, id).Some? { FoundAfter(y, Find(y.storages, id).value); }
  }

  /** What an attachment resolves to: the first entry with its identifier; else, through its own configuration or the
      setting's, the first entry of that place, or the configuration on its own; without either, an error that tells a
      missing identifier from an unknown one. */
  lemma ResolvedIs(x: Setting, id: Id, legacy: Option<S3Config>) returns (k: nat)
    ensures var r, config := ResolveStorage(x, id, legacy), if legacy.Some? then legacy else x.s3;
      var place := Storage(NoId, "", S3, config);
      if id != NoId && HasId(x.storages, id) then FirstWith(x.storages, id, k) && r == Ok(x.storages[k])
      else if config.None? then
        r == Err(if id == NoId then AttachmentStorageIsNotConfigured else StorageIsNotConfigured)
      else if exists s :: s in x.storages && SamePlace(s, place) then
        FirstAt(x.storages, place, k) && r == Ok(x.storages[k])
      else r == Ok(place)
  {
    hide SamePlace;
    k := 0;
    if id != NoId { k := FoundIsFirst(x.storages, id); }
    if id == NoId || !HasId(x.storages, id) {
      k := EquivalentIsFirst(x.storages, Storage(NoId, "", S3, if legacy.Some? then legacy else x.s3));
    }
  }
}
