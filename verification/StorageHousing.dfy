/** Which stored storages, and which attachments, an accepted update leaves where they are, and where its default ends
    up: for every registry, whoever holds which identifier, repeated ones included. */
module StorageHousing {
  import opened Wrappers
  import opened StorageModel
  import opened StorageNormalize
  import opened StorageUpdate
  import opened StorageSafety
  import opened StorageDefault
  import opened StorageIdempotence

  // The conditions, read off the request and the stored setting.

  /** The first request entry that is renamed onto an identifier. */
  function FirstRenamedOnto(stored: seq<Storage>, storages: seq<Storage>, id: Id): (r: Option<Storage>)
    ensures r.Some? ==> r.value in storages && Rename(stored, r.value).moved && Rename(stored, r.value).s.id == id
  {
    if storages == [] then None
    else if Rename(stored, storages[0]).moved && Rename(stored, storages[0]).s.id == id then Some(storages[0])
    else FirstRenamedOnto(stored, storages[1..], id)
  }

  /** The first that ends up with it, renamed or not. */
  function FirstEndingOn(stored: seq<Storage>, storages: seq<Storage>, id: Id): (r: Option<Storage>)
    ensures r.Some? ==> r.value in storages && Rename(stored, r.value).s.id == id
    ensures r.None? ==> forall s :: s in storages ==> Rename(stored, s).s.id != id
  {
    if storages == [] then None
    else if Rename(stored, storages[0]).s.id == id then Some(storages[0])
    else FirstEndingOn(stored, storages[1..], id)
  }

  /** The request entry that takes an identifier: the first renamed onto it, else the first that keeps it. */
  function Taker(stored: seq<Storage>, storages: seq<Storage>, id: Id): Option<Storage> {
    var renamed := FirstRenamedOnto(stored, storages, id);
    if renamed.Some? then renamed else FirstEndingOn(stored, storages, id)
  }

  /** What an identifier leads to afterwards: the entry that takes it, else the first stored under it. */
  function Successor(stored: seq<Storage>, storages: seq<Storage>, id: Id): Option<Storage> {
    var taker := Taker(stored, storages, id);
    if taker.Some? then taker else Find(stored, id)
  }

  /** The stored entry's identifier leads to another namespace. */
  predicate Displaced(stored: seq<Storage>, a: Setting, e: Storage) {
    var next := Successor(stored, a.storages, e.id);
    next.Some? && !NamespaceEqual(e, next.value)
  }

  predicate IsLegacy(incoming: Setting, existing: Setting)
    requires Adopt(incoming, Some(Normalized(existing))).Ok?
  {
    Adopt(incoming, Some(Normalized(existing))).value.storages == []
  }

  /** Request entries and preserved stored entries, before the update's last normalisation. */
  function Merging(incoming: Setting, existing: Setting): Setting
    requires Adopt(incoming, Some(Normalized(existing))).Ok?
  {
    Joined(Request(incoming, existing), Normalized(existing).storages, IsLegacy(incoming, existing))
  }

  function Joined(a: Setting, stored: seq<Storage>, legacy: bool): Setting {
    Cleaned(BeforeNormalizing(a, stored, Kept(a, stored, legacy)))
  }

  /** The legacy configuration is registered anew, under this identifier. */
  predicate TakenByLegacy(y: Setting, id: Id) { AddsLegacyS3(y) && Derived(NamespaceOf(y.s3.value)) == id }

  // Who keeps an identifier.

  function FindEntry(entries: seq<Entry>, id: Id): Option<Entry> {
    var k := IndexOf(entries, id);
    if k < |entries| then Some(entries[k]) else None
  }

  function FirstMoved(entries: seq<Entry>, id: Id): Option<Entry> {
    if entries == [] then None
    else if entries[0].moved && entries[0].s.id == id then Some(entries[0])
    else FirstMoved(entries[1..], id)
  }

  /** An entry already there, if it was renamed; else the first renamed one; else the first. */
  function Best(there: Option<Entry>, entries: seq<Entry>, id: Id): Option<Entry> {
    var moved := FirstMoved(entries, id);
    if there.Some? && there.value.moved then there
    else if moved.Some? then moved
    else if there.Some? then there
    else FindEntry(entries, id)
  }

  lemma {:induction false} DedupeFinds(entries: seq<Entry>, done: seq<Entry>, id: Id)
    ensures FindEntry(Dedupe(entries, done), id) == Best(FindEntry(done, id), entries, id)
    decreases |entries|
  {
    hide Absorb;
    if entries != [] {
      AbsorbFinds(done, entries[0], id);
      DedupeFinds(entries[1..], Absorb(done, entries[0]), id);
    }
  }

  lemma AbsorbFinds(done: seq<Entry>, e: Entry, id: Id)
    ensures var there := FindEntry(done, id);
      FindEntry(Absorb(done, e), id)
      == if e.s.id == id && (there.None? || (e.moved && !there.value.moved)) then Some(e) else there
  {
    var k := IndexOf(done, e.s.id);
    if k == |done| {
      AppendFinds(done, e, id);
    } else if e.moved && !done[k].moved {
      IndexIs(done[k := e], id, IndexOf(done, id));
    }
  }

  lemma AppendFinds(done: seq<Entry>, e: Entry, id: Id)
    ensures FindEntry(done + [e], id)
         == if FindEntry(done, id).None? && e.s.id == id then Some(e) else FindEntry(done, id)
  {
    var i := IndexOf(done, id);
    assert forall j :: 0 <= j < |done| ==> (done + [e])[j] == done[j];
    IndexIs(done + [e], id, if i < |done| || e.s.id == id then i else |done| + 1);
  }

  lemma IndexIs(entries: seq<Entry>, id: Id, k: nat)
    requires k <= |entries| && (k < |entries| ==> entries[k].s.id == id)
    requires forall j :: 0 <= j < k ==> entries[j].s.id != id
    ensures IndexOf(entries, id) == k
  {
  }

  function RevisedOption(stored: seq<Storage>, legacy: bool, s: Option<Storage>): Option<Entry> {
    match s case None => None case Some(x) => Some(Revised(stored, legacy, x))
  }

  lemma RevisedEnds(stored: seq<Storage>, legacy: bool, s: Storage)
    ensures Revised(stored, legacy, s).moved == Rename(stored, s).moved
    ensures Revised(stored, legacy, s).s.id == Rename(stored, s).s.id
  {
  }

  lemma EntryCons(e: Entry, rest: seq<Entry>, id: Id)
    ensures FindEntry([e] + rest, id) == if e.s.id == id then Some(e) else FindEntry(rest, id)
    ensures FirstMoved([e] + rest, id) == if e.moved && e.s.id == id then Some(e) else FirstMoved(rest, id)
  {
    assert ([e] + rest)[1..] == rest;
  }

  lemma {:induction false} RevisedFinds(stored: seq<Storage>, legacy: bool, storages: seq<Storage>, id: Id)
    ensures FirstMoved(ReviseAll(stored, legacy, storages), id)
         == RevisedOption(stored, legacy, FirstRenamedOnto(stored, storages, id))
    ensures FindEntry(ReviseAll(stored, legacy, storages), id)
         == RevisedOption(stored, legacy, FirstEndingOn(stored, storages, id))
    decreases |storages|
  {
    if storages != [] {
      var e, rest := Revised(stored, legacy, storages[0]), ReviseAll(stored, legacy, storages[1..]);
      RevisedFinds(stored, legacy, storages[1..], id);
      RevisedEnds(stored, legacy, storages[0]);
      EntryCons(e, rest, id);
      assert ReviseAll(stored, legacy, storages) == [e] + rest;
    }
  }

  lemma {:induction false} FindInStorages(entries: seq<Entry>, id: Id)
    requires id != NoId
    ensures Find(Storages(entries), id) == match FindEntry(entries, id) case None => None case Some(e) => Some(e.s)
    decreases |entries|
  {
    if entries != [] {
      assert Storages(entries)[1..] == Storages(entries[1..]);
      FindInStorages(entries[1..], id);
    }
  }

  /** The kept entry under an identifier is the one that takes it. */
  lemma KeptFinds(a: Setting, stored: seq<Storage>, legacy: bool, id: Id)
    requires id != NoId
    ensures Find(Kept(a, stored, legacy), id)
         == match Taker(stored, a.storages, id) case None => None case Some(s) => Some(Revised(stored, legacy, s).s)
  {
    var entries := ReviseAll(stored, legacy, a.storages);
    DedupeFinds(entries, [], id);
    RevisedFinds(stored, legacy, a.storages, id);
    FindInStorages(Dedupe(entries, []), id);
  }

  lemma RevisedSettled(stored: seq<Storage>, legacy: bool, s: Storage)
    requires Settled(s) && Typed(s)
    ensures Settled(Revised(stored, legacy, s).s)
  {
  }

  // The merged list.

  lemma KeptShape(a: Setting, stored: seq<Storage>, legacy: bool)
    requires forall s :: s in a.storages ==> Settled(s) && Typed(s)
    ensures DistinctIds(Kept(a, stored, legacy)) && AllSettled(Kept(a, stored, legacy))
  {
    var entries := ReviseAll(stored, legacy, a.storages);
    DedupeProperties(entries, []);
    forall p | p in Kept(a, stored, legacy)
      ensures Settled(p)
    {
      var w :| w in Dedupe(entries, []) && w.s == p;
      var i :| 0 <= i < |entries| && entries[i] == w;
      assert a.storages[i] in a.storages;
      RevisedSettled(stored, legacy, a.storages[i]);
    }
  }

  lemma FindCons(s: Storage, rest: seq<Storage>, id: Id)
    requires id != NoId
    ensures Find([s] + rest, id) == if s.id == id then Some(s) else Find(rest, id)
  {
    assert ([s] + rest)[1..] == rest;
  }

  lemma {:induction false} MissingFinds(stored: seq<Storage>, kept: seq<Storage>, id: Id)
    requires id != NoId
    ensures Find(Missing(stored, kept), id) == if HasId(kept, id) then None else Find(stored, id)
    decreases |stored|
  {
    if stored != [] {
      var s, rest := stored[0], Missing(stored[1..], kept);
      MissingFinds(stored[1..], kept, id);
      FindCons(s, rest, id);
      assert Missing(stored, kept) == if HasId(kept, s.id) then rest else [s] + rest;
    }
  }

  lemma {:induction false} FindConcat(a: seq<Storage>, b: seq<Storage>, id: Id)
    requires id != NoId
    ensures Find(a + b, id) == if HasId(a, id) then Find(a, id) else Find(b, id)
    decreases |a|
  {
    if a == [] {
      assert a + b == b;
    } else {
      assert (a + b)[1..] == a[1..] + b && a == [a[0]] + a[1..];
      FindConcat(a[1..], b, id);
    }
  }

  /** Cleaning a settled list keeps the first entry under each identifier. */
  lemma {:induction false} CleanFinds(l: seq<Storage>, done: seq<Storage>, id: Id)
    requires AllSettled(l) && id != NoId
    ensures Find(Clean(l, done), id) == if HasId(done, id) then Find(done, id) else Find(l, id)
    decreases |l|
  {
    if l != [] {
      var s := l[0];
      assert s in l && forall t :: t in l[1..] ==> t in l;
      NormalizeSettles(s);
      CleanFinds(l[1..], if HasId(done, s.id) then done else done + [s], id);
      if !HasId(done, s.id) {
        FindConcat(done, [s], id);
        assert s in done + [s] && forall t :: t in done ==> t in done + [s];
      }
    }
  }

  /** Entries under other identifiers are cleaned on their own. */
  lemma {:induction false} CleanApart(l: seq<Storage>, done: seq<Storage>, more: seq<Storage>)
    requires AllSettled(l) && forall s :: s in l ==> !HasId(done, s.id)
    ensures Clean(l, done + more) == done + Clean(l, more)
    decreases |l|
  {
    if l != [] {
      var s := l[0];
      assert s in l && forall t :: t in l[1..] ==> t in l;
      NormalizeSettles(s);
      assert HasId(done + more, s.id) <==> HasId(more, s.id);
      assert done + more + [s] == done + (more + [s]);
      CleanApart(l[1..], done, if HasId(more, s.id) then more else more + [s]);
    }
  }

  lemma {:induction false} CleanConcat(a: seq<Storage>, b: seq<Storage>, done: seq<Storage>)
    ensures Clean(a + b, done) == Clean(b, Clean(a, done))
    decreases |a|
  {
    if a == [] {
      assert a + b == b;
    } else {
      var s := NormalizeStorage(a[0]);
      assert (a + b)[1..] == a[1..] + b;
      CleanConcat(a[1..], b, if s.id == NoId || HasId(done, s.id) then done else done + [s]);
    }
  }

  /** The stored entries the request leaves alone, the first under each identifier. */
  function Preserved(a: Setting, stored: seq<Storage>, legacy: bool): seq<Storage> {
    Clean(Missing(stored, Kept(a, stored, legacy)), [])
  }

  lemma JoinedIs(a: Setting, stored: seq<Storage>, legacy: bool)
    requires AllSettled(stored) && forall s :: s in a.storages ==> Settled(s) && Typed(s)
    ensures Joined(a, stored, legacy).storages == Kept(a, stored, legacy) + Preserved(a, stored, legacy)
    ensures DistinctIds(Joined(a, stored, legacy).storages) && AllSettled(Joined(a, stored, legacy).storages)
  {
    var kept := Kept(a, stored, legacy);
    KeptShape(a, stored, legacy);
    MissingMembers(stored, kept);
    CleanConcat(kept, Missing(stored, kept), []);
    assert [] + kept == kept && kept + [] == kept;
    CleanStable(kept, []);
    CleanApart(Missing(stored, kept), kept, []);
    CleanProperties(kept + Missing(stored, kept), []);
  }

  lemma RepeatedCleaning(x: Setting)
    ensures Normalized(Cleaned(x)) == Normalized(x)
  {
    var l := Cleaned(x).storages;
    CleanProperties(x.storages, []);
    assert [] + l == l;
    CleanStable(l, []);
    assert Cleaned(Cleaned(x)) == Cleaned(x);
  }

  /** Every identifier leads to the entry that takes it, else to the first stored one. */
  lemma JoinedFinds(a: Setting, stored: seq<Storage>, legacy: bool, id: Id)
    requires AllSettled(stored) && id != NoId && forall s :: s in a.storages ==> Settled(s) && Typed(s)
    ensures Find(Joined(a, stored, legacy).storages, id)
         == match Taker(stored, a.storages, id)
            case None => Find(stored, id)
            case Some(s) => Some(Revised(stored, legacy, s).s)
  {
    var kept := Kept(a, stored, legacy);
    JoinedIs(a, stored, legacy);
    KeptFinds(a, stored, legacy, id);
    MissingMembers(stored, kept);
    FindConcat(kept, Preserved(a, stored, legacy), id);
    CleanFinds(Missing(stored, kept), [], id);
    MissingFinds(stored, kept, id);
  }

  /** The entry a stored identifier leads to, and whether it was displaced. */
  lemma JoinedUnder(a: Setting, stored: seq<Storage>, legacy: bool, e: Storage) returns (p: Storage)
    requires AllSettled(stored) && e in stored && forall s :: s in a.storages ==> Settled(s) && Typed(s)
    ensures Find(Joined(a, stored, legacy).storages, e.id) == Some(p)
    ensures NamespaceEqual(e, p) <==> !Displaced(stored, a, e)
  {
    JoinedFinds(a, stored, legacy, e.id);
    var taker := Taker(stored, a.storages, e.id);
    p := if taker.Some? then Revised(stored, legacy, taker.value).s else Find(stored, e.id).value;
    if taker.Some? {
      RevisedIsRenamed(stored, legacy, taker.value);
      EqualBothWays(e, taker.value, p);
    }
  }

  lemma EqualBothWays(e: Storage, s: Storage, p: Storage)
    requires NamespaceEqual(s, p)
    ensures NamespaceEqual(e, s) <==> NamespaceEqual(e, p)
  {
  }

  // The default is one of the kept entries.

  /** Following the renamings, the default stays an identifier some entry ends up with. */
  lemma {:induction false} DefaultEnds(stored: seq<Storage>, all: seq<Storage>, storages: seq<Storage>, id: Id)
    requires forall s :: s in storages ==> s in all
    requires FirstEndingOn(stored, all, id).Some? || HasId(storages, id)
    ensures FirstEndingOn(stored, all, DefaultAfter(stored, storages, id)).Some?
    decreases |storages|
  {
    if storages != [] {
      var s, e := storages[0], Rename(stored, storages[0]);
      var next := if e.moved && id == s.id then e.s.id else id;
      assert s in storages && s in all;
      if FirstEndingOn(stored, all, next).None? {
        assert HasId(storages[1..], next) by {
          var t :| t in storages && t.id == id;
          assert t != s;
          assert storages == [s] + storages[1..];
        }
      }
      DefaultEnds(stored, all, storages[1..], next);
    }
  }

  /** The request entry that becomes the default. */
  lemma DefaultTaken(a: Setting, stored: seq<Storage>) returns (s: Storage)
    requires a.storages != [] && a.storages[0].id == a.defaultId
    requires forall t :: t in a.storages ==> Settled(t) && Typed(t)
    ensures var d := DefaultAfter(stored, a.storages, a.defaultId);
      d != NoId && Taker(stored, a.storages, d) == Some(s) && s in a.storages && Rename(stored, s).s.id == d
  {
    assert a.storages[0] in a.storages;
    DefaultEnds(stored, a.storages, a.storages, a.defaultId);
    s := Taker(stored, a.storages, DefaultAfter(stored, a.storages, a.defaultId)).value;
  }

  lemma JoinedDefault(a: Setting, stored: seq<Storage>, legacy: bool, s: Storage, p: Storage)
    requires AllSettled(stored) && a.storages != [] && a.storages[0].id == a.defaultId
    requires forall t :: t in a.storages ==> Settled(t) && Typed(t)
    requires Taker(stored, a.storages, DefaultAfter(stored, a.storages, a.defaultId)) == Some(s)
    requires p == Revised(stored, legacy, s).s
    ensures var y := Joined(a, stored, legacy);
      y.defaultId != NoId && Find(y.storages, y.defaultId) == Some(p) && HasId(y.storages, y.defaultId)
    ensures NamespaceEqual(s, p)
  {
    var t := DefaultTaken(a, stored);
    JoinedFinds(a, stored, legacy, DefaultAfter(stored, a.storages, a.defaultId));
    RevisedIsRenamed(stored, legacy, s);
    assert p in Joined(a, stored, legacy).storages;
  }

  // The last normalisation.

  /** Housing counted: one entry under the identifier, at the namespace. */
  lemma HousedCount(l: seq<Storage>, e: Storage)
    ensures HousedOnce(l, e) <==> CountId(l, e.id) == 1 && exists p :: p in l && p.id == e.id && NamespaceEqual(e, p)
  {
    if HousedOnce(l, e) {
      var i :| 0 <= i < |l| && HousedAt(l, e, i);
      OneAt(l, e.id, i);
      assert l[i] in l;
    }
    if CountId(l, e.id) == 1 && exists p :: p in l && p.id == e.id && NamespaceEqual(e, p) {
      var p :| p in l && p.id == e.id && NamespaceEqual(e, p);
      var i :| 0 <= i < |l| && l[i] == p;
      forall j | 0 <= j < |l| && l[j].id == e.id
        ensures j == i
      {
        if j != i { TwoCount(l, e.id, i, j); }
      }
      assert HousedAt(l, e, i);
    }
  }

  lemma SplitCount(l: seq<Storage>, id: Id, i: nat)
    requires i < |l|
    ensures CountId(l, id) == CountId(l[..i], id) + (if l[i].id == id then 1 else 0) + CountId(l[i + 1..], id)
  {
    assert l == l[..i] + ([l[i]] + l[i + 1..]);
    CountConcat(l[..i], [l[i]] + l[i + 1..], id);
    assert ([l[i]] + l[i + 1..])[1..] == l[i + 1..];
  }

  lemma OneAt(l: seq<Storage>, id: Id, i: nat)
    requires i < |l| && l[i].id == id && forall j :: 0 <= j < |l| && l[j].id == id ==> j == i
    ensures CountId(l, id) == 1
  {
    SplitCount(l, id, i);
    NoneCounts(l[..i], id);
    NoneCounts(l[i + 1..], id);
  }

  lemma {:induction false} NoneCounts(l: seq<Storage>, id: Id)
    requires forall j :: 0 <= j < |l| ==> l[j].id != id
    ensures CountId(l, id) == 0
    decreases |l|
  {
    if l != [] { NoneCounts(l[1..], id); }
  }

  lemma TwoCount(l: seq<Storage>, id: Id, i: nat, j: nat)
    requires i < |l| && j < |l| && i != j && l[i].id == id && l[j].id == id
    ensures CountId(l, id) >= 2
  {
    SplitCount(l, id, i);
    if j < i {
      assert l[..i][j] in l[..i];
      OneCounts(l[..i], id);
    } else {
      assert l[i + 1..][j - i - 1] in l[i + 1..];
      OneCounts(l[i + 1..], id);
    }
  }

  /** With its default listed, a distinct settled setting gains at most the legacy configuration. */
  lemma MergedEntries(y: Setting)
    requires DistinctIds(y.storages) && AllSettled(y.storages) && HasId(y.storages, y.defaultId) && y.defaultId != NoId
    ensures Listed(y) == if AddsLegacyS3(y) then y.storages + [Generate(y.s3.value)] else y.storages
    ensures Entries(y) == Listed(y) && Chosen(y) == y.defaultId
  {
    assert [] + y.storages == y.storages;
    CleanStable(y.storages, []);
    assert Cleaned(y) == y;
    var s :| s in y.storages && s.id == y.defaultId;
    assert s in Listed(y);
  }

  lemma NormalizedHousesIff(y: Setting, e: Storage, p: Storage)
    requires DistinctIds(y.storages) && AllSettled(y.storages) && HasId(y.storages, y.defaultId) && y.defaultId != NoId
    requires p in y.storages && p.id == e.id
    ensures HousedOnce(Normalized(y).storages, e) <==> NamespaceEqual(e, p) && !TakenByLegacy(y, e.id)
  {
    MergedEntries(y);
    CountNormalized(y, e.id);
    HousedCount(Normalized(y).storages, e);
    ListedCount(y, e, p);
    if !TakenByLegacy(y, e.id) { NormalizedHolds(y, p); }
  }

  /** The only entry under its identifier. */
  ghost predicate Alone(l: seq<Storage>, p: Storage) { forall q :: q in l && q.id == p.id <==> q == p }

  lemma NormalizedHolds(y: Setting, p: Storage)
    requires DistinctIds(y.storages) && p in y.storages && !TakenByLegacy(y, p.id)
    requires Entries(y) == if AddsLegacyS3(y) then y.storages + [Generate(y.s3.value)] else y.storages
    ensures Alone(Normalized(y).storages, p)
  {
    hide Normalized, DefaultFirst, Entries, Chosen, Alone;
    NormalizedList(y);
    OnlyHolder(y.storages, Entries(y), p);
    AloneMoves(Entries(y), Chosen(y), p);
  }

  lemma AloneMoves(l: seq<Storage>, d: Id, p: Storage)
    requires Alone(l, p)
    ensures Alone(DefaultFirst(l, d), p)
  {
    DefaultFirstKeeps(l, d);
  }

  lemma OnlyHolder(l: seq<Storage>, entries: seq<Storage>, p: Storage)
    requires DistinctIds(l) && p in l
    requires entries == l || (|entries| == |l| + 1 && l <= entries && entries[|l|].id != p.id)
    ensures Alone(entries, p)
  {
    forall q | q in entries && q.id == p.id
      ensures q == p
    {
      var i :| 0 <= i < |entries| && entries[i] == q;
      assert i < |l| ==> l[i] in l && l[i] == q;
      SameEntry(l, p, q);
    }
  }

  lemma ListedCount(y: Setting, e: Storage, p: Storage)
    requires DistinctIds(y.storages) && p in y.storages && p.id == e.id
    requires Entries(y) == if AddsLegacyS3(y) then y.storages + [Generate(y.s3.value)] else y.storages
    ensures CountId(Entries(y), e.id) == if TakenByLegacy(y, e.id) then 2 else 1
  {
    DistinctCount(y.storages, e.id);
    if AddsLegacyS3(y) {
      var g := Generate(y.s3.value);
      CountConcat(y.storages, [g], e.id);
      assert CountId([g], e.id) == if g.id == e.id then 1 else 0;
    }
  }

  lemma SameEntry(l: seq<Storage>, p: Storage, q: Storage)
    requires DistinctIds(l) && p in l && q in l && p.id == q.id
    ensures p == q
  {
    var i :| 0 <= i < |l| && l[i] == p;
    var j :| 0 <= j < |l| && l[j] == q;
  }

  // The theorems.

  /** What an accepted update works on and what it stores. */
  lemma AcceptedShape(incoming: Setting, existing: Setting)
    requires Prepared(incoming, Some(existing)).Ok?
    ensures var stored, a := Normalized(existing).storages, Request(incoming, existing);
      && AllSettled(stored)
      && (forall s :: s in a.storages ==> Settled(s) && Typed(s))
      && a.storages != [] && a.storages[0].id == a.defaultId
    ensures Prepared(incoming, Some(existing)).value == Normalized(Merging(incoming, existing))
  {
    hide Normalized, BeforeNormalizing, Kept;
    var stored, a, legacy := Normalized(existing).storages, Request(incoming, existing), IsLegacy(incoming, existing);
    NormalizedCorrect(existing);
    RequestSettled(incoming, existing);
    MergedShape(Normalized(Adopt(incoming, Some(Normalized(existing))).value), stored, legacy);
    RepeatedCleaning(BeforeNormalizing(a, stored, Kept(a, stored, legacy)));
  }

  /** What is merged: distinct, settled, and its default is the request entry that takes the default's identifier. */
  lemma MergingShape(incoming: Setting, existing: Setting) returns (s: Storage, p: Storage)
    requires Prepared(incoming, Some(existing)).Ok?
    ensures var stored, a := Normalized(existing).storages, Request(incoming, existing);
      && s in a.storages && Taker(stored, a.storages, Merging(incoming, existing).defaultId) == Some(s)
      && p == Revised(stored, IsLegacy(incoming, existing), s).s && NamespaceEqual(s, p)
    ensures var y := Merging(incoming, existing);
      && DistinctIds(y.storages) && AllSettled(y.storages)
      && y.defaultId != NoId && HasId(y.storages, y.defaultId) && Find(y.storages, y.defaultId) == Some(p)
  {
    var stored, a, legacy := Normalized(existing).storages, Request(incoming, existing), IsLegacy(incoming, existing);
    AcceptedShape(incoming, existing);
    s := DefaultTaken(a, stored);
    p := Revised(stored, legacy, s).s;
    JoinedIs(a, stored, legacy);
    JoinedDefault(a, stored, legacy, s, p);
  }

  lemma RequestSettled(incoming: Setting, existing: Setting)
    requires Prepared(incoming, Some(existing)).Ok?
    ensures var a := Request(incoming, existing);
      && (forall s :: s in a.storages ==> Settled(s) && Typed(s))
      && a.storages != [] && a.storages[0].id == a.defaultId
  {
    var adopted := Adopt(incoming, Some(Normalized(existing))).value;
    NormalizedNormal(existing);
    NormalizedNormal(adopted);
    NormalizedTyped(adopted);
    AlignedSettled(Normalized(adopted), Normalized(existing).storages, adopted.storages == []);
  }

  lemma AlignedSettled(n: Setting, stored: seq<Storage>, legacy: bool)
    requires AllSettled(stored) && Normal(n) && forall s :: s in n.storages ==> Settled(s) && Typed(s)
    ensures var a := Aligned(n, stored, legacy);
      && (forall s :: s in a.storages ==> Settled(s) && Typed(s))
      && a.storages != [] && a.storages[0].id == a.defaultId
  {
    AlignedFine(n, stored);
  }

  /** A stored storage is in the accepted registry once, under its identifier and at its namespace, exactly when the
      request entry that takes its identifier (else the first stored under it) addresses its namespace and the legacy
      configuration is not registered under it. */
  lemma HousedIff(incoming: Setting, existing: Setting, e: Storage)
    requires Prepared(incoming, Some(existing)).Ok? && e in Normalized(existing).storages
    ensures HousedOnce(Prepared(incoming, Some(existing)).value.storages, e) <==>
      && !Displaced(Normalized(existing).storages, Request(incoming, existing), e)
      && !TakenByLegacy(Merging(incoming, existing), e.id)
  {
    var stored, a := Normalized(existing).storages, Request(incoming, existing);
    AcceptedShape(incoming, existing);
    var _, _ := MergingShape(incoming, existing);
    var p := JoinedUnder(a, stored, IsLegacy(incoming, existing), e);
    NormalizedHousesIff(Merging(incoming, existing), e, p);
  }

  // Attachments.

  /** The legacy configuration is registered under the identifier of the default, which stands first: it takes its
      place. */
  predicate LegacyInFront(y: Setting, id: Id) {
    TakenByLegacy(y, id) && y.defaultId == id && y.storages != [] && y.storages[0].id == id
  }

  /** Who answers to the identifier after the last normalisation: the legacy configuration if it came in front, else the
      merged entry. */
  lemma FoundAfter(y: Setting, p: Storage)
    requires DistinctIds(y.storages) && AllSettled(y.storages) && HasId(y.storages, y.defaultId) && y.defaultId != NoId
    requires p in y.storages
    ensures Find(Normalized(y).storages, p.id)
         == Some(if LegacyInFront(y, p.id) then Generate(y.s3.value) else p)
  {
    MergedEntries(y);
    NormalizedList(y);
    if TakenByLegacy(y, p.id) {
      FoundTaken(y, p);
    } else {
      NormalizedHolds(y, p);
      assert p in Normalized(y).storages;
    }
  }

  lemma FoundTaken(y: Setting, p: Storage)
    requires DistinctIds(y.storages) && AllSettled(y.storages) && p in y.storages && TakenByLegacy(y, p.id)
    requires Normalized(y).storages == DefaultFirst(y.storages + [Generate(y.s3.value)], y.defaultId)
    ensures Find(Normalized(y).storages, p.id)
         == Some(if LegacyInFront(y, p.id) then Generate(y.s3.value) else p)
  {
    if y.defaultId != p.id {
      FoundAhead(y.storages, Generate(y.s3.value), y.defaultId, p);
    } else {
      FoundFront(y.storages, Generate(y.s3.value), p);
    }
  }

  /** Another default moves; the added entry stays behind. */
  lemma FoundAhead(l: seq<Storage>, g: Storage, d: Id, p: Storage)
    requires DistinctIds(l) && p in l && g.id == p.id && d != p.id && p.id != NoId
    ensures Find(DefaultFirst(l + [g], d), p.id) == Some(p)
  {
    DefaultFirstSnoc(l, g, d);
    DefaultFirstKeeps(l, d);
    assert p in DefaultFirst(l, d);
    FindConcat(DefaultFirst(l, d), [g], p.id);
    DistinctFind(DefaultFirst(l, d), p);
  }

  /** The default itself: whichever of the two is not already in front moves there. */
  lemma FoundFront(l: seq<Storage>, g: Storage, p: Storage)
    requires DistinctIds(l) && p in l && g.id == p.id && p.id != NoId
    ensures Find(DefaultFirst(l + [g], p.id), p.id) == Some(if l[0] == p then g else p)
    ensures l[0] == p <==> l[0].id == p.id
  {
    var i :| 0 <= i < |l| && l[i] == p;
    if i == 0 {
      IndexAt(l + [g], p.id, |l|);
    } else {
      IndexAt(l + [g], p.id, i);
    }
  }

  lemma StaysIff(before: Setting, after: Setting, e: Storage, q: Storage, legacy: Option<S3Config>)
    requires Find(before.storages, e.id) == Some(e) && Find(after.storages, e.id) == Some(q)
    ensures ResolveStorage(before, e.id, legacy) == Ok(e) && ResolveStorage(after, e.id, legacy) == Ok(q)
    ensures StaysPut(before, after, e.id, legacy) <==> NamespaceEqual(e, q)
  {
  }

  /** Where a stored identifier leads after an accepted update. */
  lemma FoundStored(incoming: Setting, existing: Setting, e: Storage) returns (q: Storage)
    requires Prepared(incoming, Some(existing)).Ok? && e in Normalized(existing).storages
    ensures Find(Prepared(incoming, Some(existing)).value.storages, e.id) == Some(q)
    ensures var y := Merging(incoming, existing);
      NamespaceEqual(e, q)
      <==> if LegacyInFront(y, e.id) then NamespaceEqual(e, S3Storage(y.s3.value))
           else !Displaced(Normalized(existing).storages, Request(incoming, existing), e)
  {
    hide Normalized, Displaced, NamespaceEqual, Generate;
    var stored, a, y := Normalized(existing).storages, Request(incoming, existing), Merging(incoming, existing);
    AcceptedShape(incoming, existing);
    var _, _ := MergingShape(incoming, existing);
    var p := JoinedUnder(a, stored, IsLegacy(incoming, existing), e);
    FoundAfter(y, p);
    q := if LegacyInFront(y, e.id) then Generate(y.s3.value) else p;
    if LegacyInFront(y, e.id) { GeneratedThere(e, y.s3.value); }
  }

  lemma GeneratedThere(e: Storage, c: S3Config)
    ensures NamespaceEqual(e, Generate(c)) <==> NamespaceEqual(e, S3Storage(c))
  {
  }

  /** An attachment stored by identifier stays where it is exactly when the request entry that takes the identifier, if
      any, addresses its namespace; or, where the legacy configuration takes the place in front, when that does. */
  lemma AttachmentStaysIff(incoming: Setting, existing: Setting, e: Storage, legacy: Option<S3Config>)
    requires Prepared(incoming, Some(existing)).Ok? && Find(Normalized(existing).storages, e.id) == Some(e)
    ensures var y := Merging(incoming, existing);
      StaysPut(Normalized(existing), Prepared(incoming, Some(existing)).value, e.id, legacy)
      <==> if LegacyInFront(y, e.id) then NamespaceEqual(e, S3Storage(y.s3.value))
           else !Displaced(Normalized(existing).storages, Request(incoming, existing), e)
  {
    var q := FoundStored(incoming, existing, e);
    StaysIff(Normalized(existing), Prepared(incoming, Some(existing)).value, e, q, legacy);
  }

  // Attachments with neither an identifier nor a configuration.

  function OrElse(a: Option<S3Config>, b: Option<S3Config>): Option<S3Config> { if a.Some? then a else b }

  /** The configuration such attachments resolve through afterwards: the legacy one if it comes in front, else that of
      the request entry that becomes the default, else of the first kept entry with one, else of the first preserved
      entry with one, else the legacy one. */
  function HeldAfter(incoming: Setting, existing: Setting): Option<S3Config>
    requires Adopt(incoming, Some(Normalized(existing))).Ok?
  {
    Held(Request(incoming, existing), Normalized(existing).storages, IsLegacy(incoming, existing))
  }

  function Held(a: Setting, stored: seq<Storage>, legacy: bool): Option<S3Config> {
    var d := DefaultAfter(stored, a.storages, a.defaultId);
    var taker := Taker(stored, a.storages, d);
    if LegacyInFront(Joined(a, stored, legacy), d) then a.s3
    else if taker.Some? && taker.value.s3.Some? then taker.value.s3
    else OrElse(FirstS3(Kept(a, stored, legacy)), OrElse(FirstS3(Preserved(a, stored, legacy)), a.s3))
  }

  predicate SameNamespace(a: Option<S3Config>, b: Option<S3Config>) {
    a.Some? == b.Some? && (a.Some? ==> NamespaceOf(a.value) == NamespaceOf(b.value))
  }

  /** The first configuration held by what is merged, its default's entry given. */
  lemma FirstHeldMerged(y: Setting, p: Storage)
    requires DistinctIds(y.storages) && AllSettled(y.storages) && HasId(y.storages, y.defaultId) && y.defaultId != NoId
    requires Find(y.storages, y.defaultId) == Some(p)
    ensures FirstHeld(y) == if LegacyInFront(y, y.defaultId) then y.s3
                            else if p.s3.Some? then p.s3 else OrElse(FirstS3(y.storages), y.s3)
  {
    MergedEntries(y);
    ListedFirstS3(y);
    var l, d := y.storages, y.defaultId;
    var i :| 0 <= i < |l| && l[i] == p;
    var k := IndexFrom(Entries(y), d, 1);
    if i > 0 {
      IndexAt(Entries(y), d, i);
    } else if LegacyInFront(y, d) {
      IndexAt(Entries(y), d, |l|);
    } else {
      IndexNone(Entries(y), d);
    }
  }

  lemma ListedFirstS3(y: Setting)
    requires Entries(y) == if AddsLegacyS3(y) then y.storages + [Generate(y.s3.value)] else y.storages
    ensures FirstS3(Entries(y)) == OrElse(FirstS3(y.storages), y.s3)
  {
    if AddsLegacyS3(y) { FirstS3Concat(y.storages, [Generate(y.s3.value)]); }
    if FirstS3(y.storages).None? { NoS3Held(y.storages); }
  }

  lemma {:induction false} NoS3Held(l: seq<Storage>)
    requires FirstS3(l).None?
    ensures forall s :: s in l ==> s.s3.None?
    decreases |l|
  {
    if l != [] { NoS3Held(l[1..]); }
  }

  /** That is the configuration the request determines. */
  lemma HeldAfterCorrect(incoming: Setting, existing: Setting)
    requires Prepared(incoming, Some(existing)).Ok?
    ensures SameNamespace(Prepared(incoming, Some(existing)).value.s3, HeldAfter(incoming, existing))
  {
    AcceptedShape(incoming, existing);
    var s, p := MergingShape(incoming, existing);
    FirstHeldCorrect(Merging(incoming, existing));
    RevisedConfig(Normalized(existing).storages, IsLegacy(incoming, existing), s);
    HeldMerged(Request(incoming, existing), Normalized(existing).storages, IsLegacy(incoming, existing),
               Merging(incoming, existing), s, p);
  }

  lemma RevisedConfig(stored: seq<Storage>, legacy: bool, s: Storage)
    ensures SameNamespace(Revised(stored, legacy, s).s.s3, s.s3)
  {
  }

  lemma HeldMerged(a: Setting, stored: seq<Storage>, legacy: bool, y: Setting, s: Storage, p: Storage)
    requires AllSettled(stored) && forall t :: t in a.storages ==> Settled(t) && Typed(t)
    requires y == Joined(a, stored, legacy) && y.defaultId != NoId && Find(y.storages, y.defaultId) == Some(p)
    requires Taker(stored, a.storages, y.defaultId) == Some(s) && SameNamespace(p.s3, s.s3)
    ensures SameNamespace(FirstHeld(y), Held(a, stored, legacy))
  {
    JoinedIs(a, stored, legacy);
    assert p in y.storages;
    FirstHeldMerged(y, p);
    FirstS3Concat(Kept(a, stored, legacy), Preserved(a, stored, legacy));
  }

  /** Attachments with neither an identifier nor a configuration stay exactly when both the stored setting and the
      request hold a configuration for them, at one namespace. */
  lemma UnidentifiedAttachmentsStayIff(incoming: Setting, existing: Setting)
    requires Prepared(incoming, Some(existing)).Ok?
    ensures StaysPut(Normalized(existing), Prepared(incoming, Some(existing)).value, NoId, None) <==>
      && FirstHeld(existing).Some? && HeldAfter(incoming, existing).Some?
      && NamespaceOf(HeldAfter(incoming, existing).value) == NamespaceOf(FirstHeld(existing).value)
  {
    FirstHeldCorrect(existing);
    HeldAfterCorrect(incoming, existing);
    LegacyField(Normalized(existing));
    LegacyField(Prepared(incoming, Some(existing)).value);
  }

  lemma LegacyField(x: Setting)
    ensures ResolveStorage(x, NoId, None).Ok? <==> x.s3.Some?
    ensures x.s3.Some? ==> NamespaceEqual(ResolveStorage(x, NoId, None).value, S3Storage(x.s3.value))
  {
  }

  // The default.

  /** What the default of an accepted update addresses: the legacy configuration if that takes its place, else what the
      request entry that takes the default's identifier does. */
  function DefaultSource(incoming: Setting, existing: Setting): Option<Storage>
    requires Adopt(incoming, Some(Normalized(existing))).Ok?
  {
    var stored, a, y := Normalized(existing).storages, Request(incoming, existing), Merging(incoming, existing);
    var d := DefaultAfter(stored, a.storages, a.defaultId);
    if LegacyInFront(y, d) then Some(S3Storage(y.s3.value)) else Taker(stored, a.storages, d)
  }

  /** The default of every accepted update: the request's default followed through the renamings, standing first, and
      what it addresses. So it is where the request put it exactly when `DefaultSource` addresses that namespace. */
  lemma DefaultFollowed(incoming: Setting, existing: Setting)
    requires Prepared(incoming, Some(existing)).Ok?
    ensures var after, a := Prepared(incoming, Some(existing)).value, Request(incoming, existing);
      && after.defaultId == DefaultAfter(Normalized(existing).storages, a.storages, a.defaultId)
      && after.storages != [] && after.storages[0].id == after.defaultId
    ensures var after, a := Prepared(incoming, Some(existing)).value, Request(incoming, existing);
      var source := DefaultSource(incoming, existing);
      && source.Some? && NamespaceEqual(source.value, after.storages[0]) && a.storages != []
      && (NamespaceEqual(a.storages[0], after.storages[0]) <==> NamespaceEqual(a.storages[0], source.value))
  {
    hide Normalized, DefaultFirst, Entries;
    var y := Merging(incoming, existing);
    AcceptedShape(incoming, existing);
    var s, p := MergingShape(incoming, existing);
    MergedEntries(y);
    NormalizedList(y);
    NormalizedCorrect(y);
    FoundAfter(y, p);
    var first := Normalized(y).storages[0];
    assert Find(Normalized(y).storages, p.id) == Some(first);
    EqualBothWays(Request(incoming, existing).storages[0], DefaultSource(incoming, existing).value, first);
  }

  // Canonical identifiers are needed.

  /** The registry of the example: `x` holds the identifier generated for `a` but addresses `c`. */
  function Squatted(a: S3Config, c: S3Config): Setting {
    Setting([Storage(Custom("y"), "y", Local, None), Squatter(a, c)], Custom("y"), Local, Some(c))
  }

  function Squatter(a: S3Config, c: S3Config): Storage { Storage(Derived(NamespaceOf(a)), "x", S3, Some(c)) }

  /** The request of the example turns the local storage `y` into one that addresses `a`. */
  function Arrival(a: S3Config): Storage { Storage(Custom("y"), "y", S3, Some(a)) }

  function Arriving(a: S3Config): Setting { Setting([Arrival(a)], Custom("y"), S3, Some(a)) }

  lemma ExampleNormal(a: S3Config, c: S3Config)
    ensures Normalized(Squatted(a, c)) == Squatted(a, c) && Normalized(Arriving(a)) == Arriving(a)
    ensures !CollidesS3(Squatted(a, c)) && !CollidesDefault(Squatted(a, c))
  {
    assert TrimSpace("x") == "x" && TrimSpace("y") == "y";
    var existing, incoming := Squatted(a, c), Arriving(a);
    assert FirstS3(existing.storages[1..]) == Some(c);
    assert existing.storages[1] in existing.storages && incoming.storages[0] in incoming.storages;
    AlreadyNormal(existing, Squatter(a, c));
    AlreadyNormal(incoming, Arrival(a));
  }

  lemma ExampleAccepted(a: S3Config, c: S3Config)
    requires a.accessKeySecret != ""
    ensures Prepared(Arriving(a), Some(Squatted(a, c))).Ok?
    ensures Request(Arriving(a), Squatted(a, c)) == Arriving(a)
  {
    ExampleNormal(a, c);
    ExampleValid(a);
    assert Arrival(a) in Arriving(a).storages;
    assert Adopt(Arriving(a), Some(Squatted(a, c))) == Ok(Arriving(a));
    ExampleMerged(Arriving(a), Squatted(a, c).storages, Arrival(a));
    AcceptedAsIs(Arriving(a), Squatted(a, c));
  }

  lemma ExampleValid(a: S3Config)
    ensures Validate(Arriving(a)).Ok?
  {
    ValidIff(Arriving(a));
    assert Arrival(a) in Arriving(a).storages;
  }

  lemma AcceptedAsIs(incoming: Setting, existing: Setting)
    requires Normalized(existing) == existing && Normalized(incoming) == incoming && incoming.storages != []
    requires Adopt(incoming, Some(existing)) == Ok(incoming) && Validate(incoming).Ok?
    requires Merged(incoming, existing.storages, false).Ok?
    ensures Prepared(incoming, Some(existing)).Ok? && Request(incoming, existing) == incoming
  {
  }

  lemma ExampleMerged(n: Setting, stored: seq<Storage>, m: Storage)
    requires n.storages == [m] && m.s3.Some? && m.s3.value.accessKeySecret != ""
    ensures Merged(n, stored, false).Ok?
  {
    KeptOne(n, stored, m);
  }

  /** Whatever the two namespaces: an accepted request moves the attachments of a squatting entry, because the storage
      renamed onto the namespace takes the identifier over. */
  lemma SquattedIdentifierMoves(a: S3Config, c: S3Config)
    requires NamespaceOf(a) != NamespaceOf(c) && a.accessKeySecret != ""
    ensures var incoming, existing, id := Arriving(a), Squatted(a, c), Derived(NamespaceOf(a));
      && Prepared(incoming, Some(existing)).Ok? && HasId(Normalized(existing).storages, id)
      && ResolveStorage(Normalized(existing), id, None) == Ok(Squatter(a, c))
      && !StaysPut(Normalized(existing), Prepared(incoming, Some(existing)).value, id, None)
  {
    var incoming, existing, x := Arriving(a), Squatted(a, c), Squatter(a, c);
    ExampleNormal(a, c);
    ExampleAccepted(a, c);
    ExampleDisplaces(a, c);
    AttachmentStaysIff(incoming, existing, x, None);
  }

  lemma ExampleDisplaces(a: S3Config, c: S3Config)
    requires NamespaceOf(a) != NamespaceOf(c)
    ensures Displaced(Squatted(a, c).storages, Arriving(a), Squatter(a, c))
    ensures Find(Squatted(a, c).storages, Squatter(a, c).id) == Some(Squatter(a, c))
  {
    var stored, x, m := Squatted(a, c).storages, Squatter(a, c), Arrival(a);
    assert x == stored[1] && x in stored && m == Arriving(a).storages[0];
    ArrivalDisplaces(stored, Arriving(a), x, m);
    assert stored[1..] == [x];
  }

  lemma ArrivalDisplaces(stored: seq<Storage>, incoming: Setting, x: Storage, m: Storage)
    requires |stored| == 2 && stored[0] == Storage(m.id, m.name, Local, None) && stored[1] == x
    requires incoming.storages == [m]
    requires m.typ == S3 && m.s3.Some? && x.id == Derived(NamespaceOf(m.s3.value)) != m.id && m.id != NoId
    requires !NamespaceEqual(x, m)
    ensures Displaced(stored, incoming, x)
  {
    assert m in incoming.storages;
    assert stored[..1] == [stored[0]];
    assert FindLast(stored, m.id) == Some(stored[0]);
  }

  lemma AlreadyNormal(n: Setting, s: Storage)
    requires Normal(n) && DistinctIds(n.storages)
    requires s in n.storages && n.s3.Some? && NamespaceEqual(s, S3Storage(n.s3.value))
    ensures Normalized(n) == n && !CollidesS3(n) && !CollidesDefault(n)
  {
    DistinctNormalFixed(n);
    FixedIff(n);
    assert [] + n.storages == n.storages;
    CleanStable(n.storages, []);
    assert n.storages[0] in n.storages;
  }

  lemma KeptOne(n: Setting, stored: seq<Storage>, m: Storage)
    requires n.storages == [m]
    ensures Kept(n, stored, false) == [Revised(stored, false, m).s]
  {
    var e := Revised(stored, false, m);
    assert [m][1..] == [] && ReviseAll(stored, false, [m]) == [e];
    assert Absorb([], e) == [e] && [e][1..] == [];
    assert Dedupe([e], []) == [e];
    assert Storages([e]) == [e.s];
  }
}
