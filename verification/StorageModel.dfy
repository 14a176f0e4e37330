/** Storage registry entries, their physical namespaces and identities, and how an attachment resolves one. */
module StorageModel {
  import opened Wrappers

  datatype Error =
    | AccessKeySecretIsRequired | AttachmentStorageIsNotConfigured | DefaultStorageIsNotConfigured
    | DuplicateStorageID | StorageIDIsRequired | StorageIsNotConfigured | StorageS3ConfigIsRequired
    | StorageSettingIsRequired | StorageTypeIsRequired

  type Result<+T> = Attempt<T, Error>

  datatype S3Config = S3Config(endpoint: string, region: string, bucket: string,
                               accessKeyId: string, accessKeySecret: string, usePathStyle: bool)

  datatype StorageType = Unspecified | Database | Local | S3

  /** The physical place an S3 configuration addresses. */
  datatype Namespace = Namespace(endpoint: string, region: string, bucket: string)

  /** A stable identifier. `Derived` stands for the hash of a namespace, taken to be injective and to
      collide with no hand-written identifier. */
  datatype Id = NoId | LocalId | DatabaseId | Derived(ns: Namespace) | Custom(name: string)

  datatype Storage = Storage(id: Id, name: string, typ: StorageType, s3: Option<S3Config>)

  datatype Setting = Setting(storages: seq<Storage>, defaultId: Id, storageType: StorageType, s3: Option<S3Config>)

  // Text normalisation.

  /** Unicode's white space. */
  predicate IsSpace(c: char) {
    || c == ' ' || '\t' <= c <= '\r' || c == '\U{0085}' || c == '\U{00A0}' || c == '\U{1680}'
    || '\U{2000}' <= c <= '\U{200A}' || c == '\U{2028}' || c == '\U{2029}' || c == '\U{202F}' || c == '\U{205F}'
    || c == '\U{3000}'
  }

  function TrimLeft(s: string): string { if s != "" && IsSpace(s[0]) then TrimLeft(s[1..]) else s }

  function TrimRight(s: string, slash: bool): string {
    if s != "" && (if slash then s[|s| - 1] == '/' else IsSpace(s[|s| - 1])) then TrimRight(s[..|s| - 1], slash) else s
  }

  function TrimSpace(s: string): string { TrimRight(TrimLeft(s), false) }

  function NormalizeEndpoint(s: string): string { TrimRight(TrimSpace(s), true) }

  function NamespaceOf(c: S3Config): Namespace {
    Namespace(NormalizeEndpoint(c.endpoint), TrimSpace(c.region), TrimSpace(c.bucket))
  }

  // Identity.

  function StorageId(s: Storage): Id {
    match s.typ
    case Database => DatabaseId
    case Local => LocalId
    case S3 => if s.s3.Some? then Derived(NamespaceOf(s.s3.value)) else NoId
    case Unspecified => NoId
  }

  function DefaultName(s: Storage): string {
    match s.typ
    case Database => "Database"
    case Local => "Local"
    case S3 => if s.s3.Some? && TrimSpace(s.s3.value.bucket) != "" then TrimSpace(s.s3.value.bucket) else "S3"
    case Unspecified => "Storage"
  }

  function NormalizeStorage(s: Storage): Storage {
    var t := if s.typ == Unspecified && s.s3.Some? then s.(typ := S3) else s;
    var u := if t.id == NoId then t.(id := StorageId(t)) else t;
    if TrimSpace(u.name) == "" then u.(name := DefaultName(u)) else u
  }

  /** Whether two entries address the same physical namespace; credentials do not matter. */
  predicate NamespaceEqual(a: Storage, b: Storage) {
    a.typ == b.typ
    && (a.typ == S3 ==>
          if a.s3.None? || b.s3.None? then a.s3 == b.s3
          else NamespaceOf(a.s3.value) == NamespaceOf(b.s3.value))
  }

  function S3Storage(c: S3Config): Storage { Storage(NoId, "", S3, Some(c)) }

  function FindEquivalent(storages: seq<Storage>, target: Storage): (r: Option<Storage>)
    ensures r.Some? ==> r.value in storages && NamespaceEqual(r.value, target)
    ensures r.None? ==> forall s :: s in storages ==> !NamespaceEqual(s, target)
  {
    if storages == [] then None
    else if NamespaceEqual(storages[0], target) then Some(storages[0])
    else FindEquivalent(storages[1..], target)
  }

  function Find(storages: seq<Storage>, id: Id): (r: Option<Storage>)
    ensures r.Some? ==> r.value in storages && r.value.id == id && id != NoId
    ensures r.None? && id != NoId ==> forall s :: s in storages ==> s.id != id
  {
    if storages == [] || id == NoId then None
    else if storages[0].id == id then Some(storages[0])
    else Find(storages[1..], id)
  }

  function FirstS3(storages: seq<Storage>): Option<S3Config> {
    if storages == [] then None
    else if storages[0].s3.Some? then storages[0].s3
    else FirstS3(storages[1..])
  }

  predicate DistinctIds(storages: seq<Storage>) {
    forall i, j :: 0 <= i < j < |storages| ==> storages[i].id != storages[j].id
  }

  predicate HasId(storages: seq<Storage>, id: Id) {
    exists s :: s in storages && s.id == id
  }

  /** An identifier of a generated form sits only on the storage it is generated from. */
  predicate OwnsId(s: Storage) {
    match s.id
    case LocalId => s.typ == Local
    case DatabaseId => s.typ == Database
    case Derived(ns) => s.typ == S3 && s.s3.Some? && NamespaceOf(s.s3.value) == ns
    case _ => true
  }

  predicate CanonicalIds(storages: seq<Storage>) {
    forall s :: s in storages ==> OwnsId(NormalizeStorage(s))
  }

  /** Normalising such an entry changes nothing. */
  predicate Settled(s: Storage) {
    s.id != NoId && TrimSpace(s.name) != "" && !(s.typ == Unspecified && s.s3.Some?)
  }

  lemma {:induction false} TrimRightBlank(s: string, slash: bool)
    ensures TrimRight(TrimRight(s, slash), slash) == TrimRight(s, slash)
    decreases |s|
  {
    if s != "" && (if slash then s[|s| - 1] == '/' else IsSpace(s[|s| - 1])) {
      TrimRightBlank(s[..|s| - 1], slash);
    }
  }

  /** Trimming twice is trimming once. */
  lemma TrimSpaceTwice(s: string)
    ensures TrimSpace(TrimSpace(s)) == TrimSpace(s)
  {
    var l := TrimLeft(s);
    TrimLeftStops(s);
    TrimRightPrefix(l);
    TrimRightBlank(l, false);
  }

  lemma {:induction false} TrimLeftStops(s: string)
    ensures TrimLeft(s) == "" || !IsSpace(TrimLeft(s)[0])
    decreases |s|
  {
    if s != "" && IsSpace(s[0]) { TrimLeftStops(s[1..]); }
  }

  lemma {:induction false} TrimRightPrefix(s: string)
    ensures TrimRight(s, false) <= s
    decreases |s|
  {
    if s != "" && IsSpace(s[|s| - 1]) {
      TrimRightPrefix(s[..|s| - 1]);
      assert s[..|s| - 1] <= s;
    }
  }

  lemma NormalizeSettles(s: Storage)
    ensures NormalizeStorage(s).id != NoId ==> Settled(NormalizeStorage(s))
    ensures Settled(s) ==> NormalizeStorage(s) == s
  {
    if s.s3.Some? { TrimSpaceTwice(s.s3.value.bucket); }
    assert TrimSpace("Database") == "Database" && TrimSpace("Local") == "Local";
    assert TrimSpace("S3") == "S3" && TrimSpace("Storage") == "Storage";
  }

  // Resolution.

  /** The storage an attachment lives in: by identifier, else by its embedded or the setting's legacy configuration. */
  function ResolveStorage(setting: Setting, id: Id, legacy: Option<S3Config>): Result<Storage> {
    if Find(setting.storages, id).Some? then Ok(Find(setting.storages, id).value)
    else
      var config := if legacy.Some? then legacy else setting.s3;
      if config.Some? then
        match FindEquivalent(setting.storages, S3Storage(config.value))
        case Some(s) => Ok(s)
        case None => Ok(S3Storage(config.value))
      else if id != NoId then Err(StorageIsNotConfigured)
      else Err(AttachmentStorageIsNotConfigured)
  }

  /** An attachment with an embedded configuration and no usable identifier always resolves to that namespace. */
  lemma LegacyResolves(setting: Setting, id: Id, config: S3Config)
    requires Find(setting.storages, id).None?
    ensures ResolveStorage(setting, id, Some(config)).Ok?
    ensures NamespaceEqual(ResolveStorage(setting, id, Some(config)).value, S3Storage(config))
  {
  }
}
