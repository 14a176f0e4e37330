/** When normalising a storage setting a second time changes nothing. */
module StorageIdempotence {
  import opened Wrappers
  import opened StorageModel
  import opened StorageNormalize

  // The list and the default a setting ends up with, read off the setting.

  function Generate(c: S3Config): Storage { NormalizeStorage(S3Storage(c)) }

  /** The cleaned entries, and the legacy configuration behind them unless an entry addresses it. */
  function Listed(x: Setting): seq<Storage> {
    var c := Cleaned(x).storages;
    if AddsLegacyS3(Cleaned(x)) then c + [Generate(x.s3.value)] else c
  }

  /** Without a default, the entry the legacy fields describe is added unless one addresses it. */
  predicate AppendsDefault(x: Setting) {
    x.defaultId == NoId && LegacyStorage(x).id != NoId && FindEquivalent(Listed(x), LegacyStorage(x)).None?
  }

  function Entries(x: Setting): (l: seq<Storage>)
    ensures l != []
  {
    if AppendsDefault(x) then Listed(x) + [LegacyStorage(x)]
    else if Listed(x) == [] then [BuiltinStorage(Local)]
    else Listed(x)
  }

  /** The default's identifier: the given one if it is listed, else the legacy default's, else the first. */
  function Chosen(x: Setting): Id {
    var l := Listed(x);
    if x.defaultId != NoId && HasId(l, x.defaultId) then x.defaultId
    else if AppendsDefault(x) then LegacyStorage(x).id
    else if x.defaultId == NoId && FindEquivalent(l, LegacyStorage(x)).Some? then
      FindEquivalent(l, LegacyStorage(x)).value.id
    else if l == [] then BuiltinStorage(Local).id
    else l[0].id
  }

  /** The configuration of the first entry to hold one once the default stands in front. */
  function FirstHeld(x: Setting): Option<S3Config> {
    var l := Entries(x);
    var k := IndexFrom(l, Chosen(x), 1);
    if k < |l| && l[k].s3.Some? then l[k].s3 else FirstS3(l)
  }

  predicate Addressed(l: seq<Storage>, c: S3Config) { exists s :: s in l && NamespaceEqual(s, S3Storage(c)) }

  /** The first configuration held is addressed by an S3 entry. Where the legacy configuration was added over another
      holder of its identifier, it must be that first configuration and not belong to the default. The legacy default
      must not have been added over another holder of its identifier. */
  predicate KeepsOnRepeat(x: Setting) {
    && (FirstHeld(x).Some? ==> Addressed(Listed(x), FirstHeld(x).value))
    && (CollidesS3(x) ==> FirstHeld(x) == x.s3 && Chosen(x) != Derived(NamespaceOf(x.s3.value)))
    && !CollidesDefault(x)
  }

  lemma ListedIs(x: Setting)
    ensures WithLegacyS3(Cleaned(x)).storages == Listed(x)
    ensures AllSettled(Listed(x))
  {
    CleanProperties(x.storages, []);
    LegacyEntriesGenerated(x);
  }

  lemma GatheredIs(x: Setting)
    ensures Gathered(x).storages == Entries(x) && Gathered(x).defaultId == Chosen(x)
  {
    ListedIs(x);
    var y := WithLegacyS3(Cleaned(x));
    assert LegacyStorage(y) == LegacyStorage(x);
    DefaultStep(y, x);
  }

  lemma DefaultStep(y: Setting, x: Setting)
    requires y.storages == Listed(x) && y.defaultId == x.defaultId && LegacyStorage(y) == LegacyStorage(x)
    requires AllSettled(y.storages)
    ensures WithFallback(WithLegacyDefault(y)).storages == Entries(x)
    ensures WithFallback(WithLegacyDefault(y)).defaultId == Chosen(x)
  {
    var z := WithLegacyDefault(y);
    if AppendsDefault(x) {
      assert LegacyStorage(x) in z.storages;
    } else if x.defaultId != NoId && HasId(y.storages, x.defaultId) {
      assert Find(z.storages, z.defaultId).Some?;
    }
  }

  /** An S3 configuration is listed once it has been registered. */
  lemma LegacyS3Listed(x: Setting)
    requires x.storageType == S3 && x.s3.Some?
    ensures FindEquivalent(Listed(x), LegacyStorage(x)).Some?
  {
    var c := Cleaned(x);
    if AddsLegacyS3(c) {
      assert Generate(x.s3.value) in Listed(x) && NamespaceEqual(Generate(x.s3.value), LegacyStorage(x));
    } else {
      var s := FindEquivalent(c.storages, S3Storage(x.s3.value)).value;
      assert s in Listed(x) && NamespaceEqual(s, LegacyStorage(x));
    }
  }

  /** So the entry added for the legacy fields is a built-in one. */
  lemma LegacyBuiltin(x: Setting)
    requires AppendsDefault(x)
    ensures LegacyStorage(x).s3.None? && LegacyStorage(x).typ != S3
    ensures LegacyStorage(x).id == LocalId || LegacyStorage(x).id == DatabaseId
  {
    if x.storageType == S3 && x.s3.Some? { LegacyS3Listed(x); }
  }

  // The first configuration.

  lemma {:induction false} FirstS3Concat(a: seq<Storage>, b: seq<Storage>)
    ensures FirstS3(a + b) == if FirstS3(a).Some? then FirstS3(a) else FirstS3(b)
    decreases |a|
  {
    if a == [] {
      assert a + b == b;
    } else {
      assert (a + b)[1..] == a[1..] + b;
      FirstS3Concat(a[1..], b);
    }
  }

  lemma FirstS3Moves(l: seq<Storage>, k: nat)
    requires k < |l|
    ensures FirstS3(MoveFront(l, k)) == if l[k].s3.Some? then l[k].s3 else FirstS3(l)
  {
    FrontAndBack(l, k);
    FirstS3Placed(l, MoveFront(l, k), l[..k], l[k], l[k + 1..]);
  }

  lemma FrontAndBack(l: seq<Storage>, k: nat)
    requires k < |l|
    ensures l == l[..k] + ([l[k]] + l[k + 1..])
  {
  }

  lemma FirstS3Placed(l: seq<Storage>, moved: seq<Storage>, front: seq<Storage>, s: Storage, back: seq<Storage>)
    requires l == front + ([s] + back) && moved != [] && moved[0] == s && moved[1..] == front + back
    ensures FirstS3(moved) == if s.s3.Some? then s.s3 else FirstS3(l)
  {
    if s.s3.None? { FirstS3Skips(front, s, back); }
  }

  lemma FirstS3Skips(front: seq<Storage>, s: Storage, back: seq<Storage>)
    requires s.s3.None?
    ensures FirstS3(front + ([s] + back)) == FirstS3(front + back)
  {
    FirstS3Concat(front, [s] + back);
    FirstS3Concat(front, back);
    assert ([s] + back)[1..] == back;
  }

  lemma NormalizedList(x: Setting)
    ensures Normalized(x).storages == DefaultFirst(Entries(x), Chosen(x)) && Normalized(x).defaultId == Chosen(x)
  {
    GatheredIs(x);
  }

  /** Normalisation leaves the first configuration held in the legacy field. */
  lemma FirstHeldCorrect(x: Setting)
    ensures Normalized(x).s3 == FirstHeld(x)
  {
    NormalizedCorrect(x);
    NormalizedList(x);
    var k := IndexFrom(Entries(x), Chosen(x), 1);
    if k < |Entries(x)| {
      FirstS3Moves(Entries(x), k);
    }
  }

  // A normal setting, normalised again.

  predicate Normal(n: Setting) {
    && n.storages != [] && AllSettled(n.storages)
    && n.storages[0].id == n.defaultId && n.storageType == n.storages[0].typ && n.s3 == FirstS3(n.storages)
  }

  lemma NormalizedNormal(x: Setting)
    ensures Normal(Normalized(x))
  {
    NormalizedCorrect(x);
  }

  /** Cleaning drops nothing, or drops exactly the entry that registering the legacy configuration adds again. */
  predicate Fixed(n: Setting) {
    var k := Cleaned(n).storages;
    if AddsLegacyS3(Cleaned(n)) then
      n.s3.Some? && Generate(n.s3.value).id != n.defaultId && n.storages == k + [Generate(n.s3.value)]
    else n.storages == k
  }

  lemma CleanedFront(n: Setting)
    requires Normal(n)
    ensures var k := Cleaned(n).storages;
      k != [] && k[0] == n.storages[0] && DistinctIds(k) && AllSettled(k)
  {
    var s := n.storages[0];
    assert s in n.storages;
    NormalizeSettles(s);
    assert [] + [s] == [s];
    CleanProperties(n.storages[1..], [s]);
    assert Clean(n.storages, []) == Clean(n.storages[1..], [s]);
  }

  /** With the default in front, only the legacy configuration can be added. */
  lemma NormalGathered(n: Setting)
    requires Normal(n)
    ensures Gathered(n) == WithLegacyS3(Cleaned(n))
  {
    CleanedFront(n);
    var t := WithLegacyS3(Cleaned(n));
    assert t.storages[0] == n.storages[0] && t.storages[0] in t.storages;
    assert n.storages[0] in n.storages;
  }

  lemma IndexAt(l: seq<Storage>, d: Id, k: nat)
    requires 1 <= k < |l| && l[k].id == d && forall j :: 1 <= j < k ==> l[j].id != d
    ensures IndexFrom(l, d, 1) == k
  {
  }

  lemma IndexNone(l: seq<Storage>, d: Id)
    requires l != [] && forall j :: 1 <= j < |l| ==> l[j].id != d
    ensures IndexFrom(l, d, 1) == |l|
  {
  }

  lemma FrontStays(k: seq<Storage>, d: Id)
    requires k != [] && DistinctIds(k) && k[0].id == d
    ensures DefaultFirst(k, d) == k
  {
  }

  lemma SynchronizedNormal(n: Setting)
    requires Normal(n)
    ensures Synchronized(n) == n
  {
    assert n.storages[0] in n.storages;
    assert Find(n.storages, n.defaultId) == Some(n.storages[0]);
  }

  lemma FixedIff(n: Setting)
    requires Normal(n)
    ensures Normalized(n) == n <==> Fixed(n)
  {
    CleanedFront(n);
    NormalGathered(n);
    SynchronizedNormal(n);
    var k, d := Cleaned(n).storages, n.defaultId;
    if AddsLegacyS3(Cleaned(n)) {
      ReaddedList(n, k, d);
    } else {
      FrontStays(k, d);
      assert Normalized(n).storages == k;
      if n.storages == k { assert Cleaned(n) == n; }
    }
  }

  lemma ReaddedList(n: Setting, k: seq<Storage>, d: Id)
    requires Normal(n) && k == Cleaned(n).storages && d == n.defaultId && AddsLegacyS3(Cleaned(n))
    requires k != [] && k[0] == n.storages[0] && DistinctIds(k)
    requires Gathered(n) == WithLegacyS3(Cleaned(n)) && Synchronized(n) == n
    ensures Normalized(n) == n <==> Fixed(n)
  {
    var g := Generate(n.s3.value);
    var t := k + [g];
    assert NamespaceEqual(g, S3Storage(n.s3.value));
    assert g !in k;
    assert Normalized(n) == Synchronized(n.(storages := DefaultFirst(t, d)));
    assert forall j :: 1 <= j < |k| ==> k[j].id != k[0].id;
    if g.id == d {
      IndexAt(t, d, |k|);
      assert Normalized(n).storages[0] == g;
      assert g != k[0] by { assert k[0] in k; }
    } else {
      IndexNone(t, d);
      assert Normalized(n).storages == t;
    }
  }

  // How often an identifier occurs.

  function CountId(l: seq<Storage>, id: Id): nat {
    if l == [] then 0 else (if l[0].id == id then 1 else 0) + CountId(l[1..], id)
  }

  lemma {:induction false} CountConcat(a: seq<Storage>, b: seq<Storage>, id: Id)
    ensures CountId(a + b, id) == CountId(a, id) + CountId(b, id)
    decreases |a|
  {
    if a == [] {
      assert a + b == b;
    } else {
      assert (a + b)[1..] == a[1..] + b;
      CountConcat(a[1..], b, id);
    }
  }

  lemma CountMoves(l: seq<Storage>, k: nat, id: Id)
    requires k < |l|
    ensures CountId(MoveFront(l, k), id) == CountId(l, id)
  {
    var s := [l[k]];
    assert l == l[..k] + s + l[k + 1..];
    assert MoveFront(l, k) == s + l[..k] + l[k + 1..];
    CountConcat(l[..k] + s, l[k + 1..], id);
    CountConcat(l[..k], s, id);
    CountConcat(s + l[..k], l[k + 1..], id);
    CountConcat(s, l[..k], id);
  }

  lemma CountNormalized(x: Setting, id: Id)
    ensures CountId(Normalized(x).storages, id) == CountId(Entries(x), id)
  {
    NormalizedList(x);
    var k := IndexFrom(Entries(x), Chosen(x), 1);
    if k < |Entries(x)| { CountMoves(Entries(x), k, id); }
  }

  lemma {:induction false} DistinctCount(l: seq<Storage>, id: Id)
    requires DistinctIds(l)
    ensures CountId(l, id) <= 1
    ensures CountId(l, id) == 0 <==> !HasId(l, id)
    decreases |l|
  {
    if l != [] {
      assert l == [l[0]] + l[1..];
      DistinctCount(l[1..], id);
      if l[0].id == id {
        forall s | s in l[1..]
          ensures s.id != id
        {
          var i :| 0 <= i < |l[1..]| && l[1..][i] == s;
          assert l[0].id != l[i + 1].id;
        }
      }
    }
  }

  /** A repeated identifier rules a fixed point out, unless it is the one generated for the legacy configuration and not
      the default's. */
  lemma RepeatedNotFixed(n: Setting, id: Id)
    requires Normal(n) && CountId(n.storages, id) >= 2
    requires id == n.defaultId || !id.Derived?
    ensures !Fixed(n)
  {
    CleanedFront(n);
    var k := Cleaned(n).storages;
    DistinctCount(k, id);
    if AddsLegacyS3(Cleaned(n)) {
      var g := Generate(n.s3.value);
      CountConcat(k, [g], id);
      assert CountId([g], id) == if g.id == id then 1 else 0;
    }
  }

  // The three cases.

  lemma RepeatedDefault(x: Setting)
    requires CollidesDefault(x)
    ensures !Fixed(Normalized(x))
  {
    ListedIs(x);
    NormalizedNormal(x);
    var l := LegacyStorage(x);
    assert LegacyStorage(WithLegacyS3(Cleaned(x))) == l;
    LegacyBuiltin(x);
    CountConcat(Listed(x), [l], l.id);
    OneCounts(Listed(x), l.id);
    assert CountId([l], l.id) == 1;
    CountNormalized(x, l.id);
    RepeatedNotFixed(Normalized(x), l.id);
  }

  lemma {:induction false} OneCounts(l: seq<Storage>, id: Id)
    requires HasId(l, id)
    ensures CountId(l, id) >= 1
    decreases |l|
  {
    if l[0].id != id {
      assert l == [l[0]] + l[1..];
      OneCounts(l[1..], id);
    }
  }

  lemma RepeatedS3AsDefault(x: Setting)
    requires CollidesS3(x) && Chosen(x) == Derived(NamespaceOf(x.s3.value))
    ensures !Fixed(Normalized(x))
  {
    var c, g := Cleaned(x).storages, Generate(x.s3.value);
    NormalizedNormal(x);
    NormalizedList(x);
    OneCounts(c, g.id);
    CountConcat(c, [g], g.id);
    assert CountId([g], g.id) == 1;
    CountConcat(Listed(x), [LegacyStorage(x)], g.id);
    CountNormalized(x, g.id);
    RepeatedNotFixed(Normalized(x), g.id);
  }

  /** No identifier repeats: the setting is fixed exactly when its first configuration is addressed. */
  lemma DistinctFixedIff(x: Setting)
    requires !CollidesS3(x) && !CollidesDefault(x)
    ensures Fixed(Normalized(x)) <==> (FirstHeld(x).Some? ==> Addressed(Listed(x), FirstHeld(x).value))
  {
    NormalizedNormal(x);
    NormalizedCorrect(x);
    FirstHeldCorrect(x);
    if FirstHeld(x).Some? { ListedAddresses(x, FirstHeld(x).value); }
    DistinctNormalFixed(Normalized(x));
  }

  lemma DistinctNormalFixed(n: Setting)
    requires Normal(n) && DistinctIds(n.storages)
    ensures Fixed(n) <==> (n.s3.Some? ==> Addressed(n.storages, n.s3.value))
  {
    assert [] + n.storages == n.storages;
    CleanStable(n.storages, []);
    assert Cleaned(n) == n;
  }

  lemma ListedAddresses(x: Setting, c: S3Config)
    ensures Addressed(Normalized(x).storages, c) <==> Addressed(Listed(x), c)
  {
    NormalizedList(x);
    MovedAddresses(Entries(x), Chosen(x), c);
    if AppendsDefault(x) {
      LegacyBuiltin(x);
      BuiltinAddressesNothing(Listed(x), LegacyStorage(x), c);
    }
  }

  lemma MovedAddresses(l: seq<Storage>, d: Id, c: S3Config)
    ensures Addressed(DefaultFirst(l, d), c) <==> Addressed(l, c)
  {
    DefaultFirstKeeps(l, d);
    if s :| s in l && NamespaceEqual(s, S3Storage(c)) {
      assert s in DefaultFirst(l, d);
    }
  }

  lemma BuiltinAddressesNothing(l: seq<Storage>, b: Storage, c: S3Config)
    requires b.typ != S3
    ensures Addressed(l + [b], c) <==> Addressed(l, c)
  {
    if s :| s in l && NamespaceEqual(s, S3Storage(c)) {
      assert s in l + [b];
    }
  }

  lemma {:induction false} CleanSnoc(a: seq<Storage>, s: Storage, done: seq<Storage>)
    ensures var r, t := Clean(a, done), NormalizeStorage(s);
      Clean(a + [s], done) == if t.id == NoId || HasId(r, t.id) then r else r + [t]
    decreases |a|
  {
    if a == [] {
      assert a + [s] == [s] && [s][1..] == [];
    } else {
      assert (a + [s])[1..] == a[1..] + [s];
      var t := NormalizeStorage(a[0]);
      CleanSnoc(a[1..], s, if t.id == NoId || HasId(done, t.id) then done else done + [t]);
    }
  }

  /** The entries in front of a legacy configuration that was added over another holder of its identifier. */
  function Ahead(x: Setting): seq<Storage> {
    var c := Cleaned(x).storages;
    if AppendsDefault(x) then [LegacyStorage(x)] + c else DefaultFirst(c, Chosen(x))
  }

  lemma AheadList(x: Setting)
    requires CollidesS3(x) && !CollidesDefault(x) && Chosen(x) != Derived(NamespaceOf(x.s3.value))
    ensures Normalized(x).storages == Ahead(x) + [Generate(x.s3.value)]
  {
    NormalizedList(x);
    var c, g, d := Cleaned(x).storages, Generate(x.s3.value), Chosen(x);
    assert c != [] && Listed(x) == c + [g];
    if AppendsDefault(x) {
      AheadOfDefault(x, c, g);
    } else {
      DefaultFirstSnoc(c, g, d);
    }
  }

  /** An entry behind the others stays there unless it is the default. */
  lemma DefaultFirstSnoc(c: seq<Storage>, g: Storage, d: Id)
    requires c != [] && g.id != d
    ensures DefaultFirst(c + [g], d) == DefaultFirst(c, d) + [g]
  {
    var k := IndexFrom(c, d, 1);
    IndexSnoc(c, g, d, 1);
    if k < |c| {
      assert (c + [g])[..k] == c[..k] && (c + [g])[k + 1..] == c[k + 1..] + [g];
    }
  }

  lemma {:induction false} IndexSnoc(c: seq<Storage>, g: Storage, d: Id, i: nat)
    requires i <= |c| && g.id != d
    ensures IndexFrom(c + [g], d, i) == if IndexFrom(c, d, i) == |c| then |c| + 1 else IndexFrom(c, d, i)
    decreases |c| - i
  {
    if i < |c| && c[i].id != d { IndexSnoc(c, g, d, i + 1); }
  }

  lemma AheadOfDefault(x: Setting, c: seq<Storage>, g: Storage)
    requires AppendsDefault(x) && !CollidesDefault(x) && Listed(x) == c + [g] && c != []
    ensures DefaultFirst(Entries(x), Chosen(x)) == [LegacyStorage(x)] + c + [g]
  {
    var l := LegacyStorage(x);
    ListedIs(x);
    assert LegacyStorage(WithLegacyS3(Cleaned(x))) == l;
    var all := c + [g] + [l];
    forall j | 1 <= j < |c| + 1
      ensures all[j].id != l.id
    {
      assert all[j] == (c + [g])[j] && (c + [g])[j] in Listed(x);
    }
    assert Entries(x) == all && Chosen(x) == l.id;
    IndexAt(all, l.id, |c| + 1);
    assert all[..|c| + 1] == c + [g] && all[|c| + 2..] == [];
  }

  /** Those entries have identifiers of their own, and none addresses the configuration. */
  ghost predicate Apart(l: seq<Storage>, c: S3Config) {
    DistinctIds(l) && AllSettled(l) && HasId(l, Derived(NamespaceOf(c))) && !Addressed(l, c)
  }

  lemma AheadDistinct(x: Setting)
    requires CollidesS3(x) && !CollidesDefault(x)
    ensures Apart(Ahead(x), x.s3.value)
  {
    var c := Cleaned(x).storages;
    CleanProperties(x.storages, []);
    LegacyEntriesGenerated(x);
    assert Apart(c, x.s3.value);
    if AppendsDefault(x) {
      ApartWithDefault(x, c);
    } else {
      ApartMoves(c, Chosen(x), x.s3.value);
    }
  }

  lemma ApartMoves(c: seq<Storage>, d: Id, config: S3Config)
    requires Apart(c, config)
    ensures Apart(DefaultFirst(c, d), config)
  {
    DefaultFirstKeeps(c, d);
    var h :| h in c && h.id == Derived(NamespaceOf(config));
    assert h in DefaultFirst(c, d);
  }

  lemma ApartWithDefault(x: Setting, c: seq<Storage>)
    requires CollidesS3(x) && !CollidesDefault(x) && AppendsDefault(x)
    requires c == Cleaned(x).storages && Apart(c, x.s3.value)
    ensures Apart([LegacyStorage(x)] + c, x.s3.value)
  {
    LegacyBuiltin(x);
    NormalizeSettles(BuiltinStorage(LegacyStorage(x).typ));
    LegacyApart(x, c);
    ApartWith(LegacyStorage(x), c, x.s3.value);
  }

  lemma LegacyApart(x: Setting, c: seq<Storage>)
    requires !CollidesDefault(x) && AppendsDefault(x) && c == Cleaned(x).storages
    ensures !HasId(c, LegacyStorage(x).id)
  {
    ListedIs(x);
    assert LegacyStorage(WithLegacyS3(Cleaned(x))) == LegacyStorage(x);
    assert forall s :: s in c ==> s in Listed(x);
  }

  lemma ApartWith(l: Storage, c: seq<Storage>, config: S3Config)
    requires Apart(c, config) && Settled(l) && l.typ != S3 && !HasId(c, l.id)
    ensures Apart([l] + c, config)
  {
    FirstApart(l, c);
    var h :| h in c && h.id == Derived(NamespaceOf(config));
    assert h in [l] + c;
  }

  lemma FirstApart(l: Storage, c: seq<Storage>)
    requires DistinctIds(c) && !HasId(c, l.id)
    ensures DistinctIds([l] + c)
  {
    assert forall i :: 0 <= i < |c| ==> c[i] in c;
  }

  /** The legacy configuration stands last over another holder of its identifier: cleaning drops it, and it comes back
      exactly when it is the first configuration. */
  lemma RepeatedS3FixedIff(x: Setting)
    requires CollidesS3(x) && !CollidesDefault(x) && Chosen(x) != Derived(NamespaceOf(x.s3.value))
    ensures Fixed(Normalized(x)) <==> FirstHeld(x) == x.s3
  {
    var init, g := Ahead(x), Generate(x.s3.value);
    NormalizedNormal(x);
    NormalizedList(x);
    FirstHeldCorrect(x);
    AheadList(x);
    AheadDistinct(x);
    LegacyEntriesGenerated(x);
    RepeatedLastCleaned(init, g);
    LastFixedIff(Normalized(x), init, x.s3.value);
  }

  /** Cleaning drops a last entry whose identifier an earlier one holds. */
  lemma RepeatedLastCleaned(init: seq<Storage>, g: Storage)
    requires DistinctIds(init) && AllSettled(init) && HasId(init, g.id) && NormalizeStorage(g).id == g.id
    ensures Clean(init + [g], []) == init
  {
    assert [] + init == init;
    CleanStable(init, []);
    CleanSnoc(init, g, []);
  }

  lemma LastFixedIff(n: Setting, init: seq<Storage>, c: S3Config)
    requires n.storages == init + [Generate(c)] && Cleaned(n).storages == init && n.s3 == FirstS3(n.storages)
    requires Generate(c).s3 == Some(c) && Generate(c).id != n.defaultId && !Addressed(init, c)
    ensures Fixed(n) <==> n.s3 == Some(c)
  {
    FirstS3Concat(init, [Generate(c)]);
    LastEntries(init, n.s3.value, c);
    if n.s3 == Some(c) {
      assert FindEquivalent(init, S3Storage(c)).None?;
    }
  }

  lemma LastEntries(init: seq<Storage>, a: S3Config, c: S3Config)
    requires Generate(a).s3 == Some(a) && Generate(c).s3 == Some(c)
    ensures init + [Generate(c)] == init + [Generate(a)] <==> a == c
  {
    assert (init + [Generate(c)])[|init|] == Generate(c) && (init + [Generate(a)])[|init|] == Generate(a);
  }

  /** Normalising twice is normalising once exactly when the condition on the setting holds, for every setting. */
  lemma IdempotentIff(x: Setting)
    ensures Normalized(Normalized(x)) == Normalized(x) <==> KeepsOnRepeat(x)
  {
    NormalizedNormal(x);
    FixedIff(Normalized(x));
    if CollidesDefault(x) {
      RepeatedDefault(x);
    } else if !CollidesS3(x) {
      DistinctFixedIff(x);
    } else if Chosen(x) == Derived(NamespaceOf(x.s3.value)) {
      RepeatedS3AsDefault(x);
    } else {
      RepeatedS3FixedIff(x);
      var g := Generate(x.s3.value);
      assert g in Listed(x) && NamespaceEqual(g, S3Storage(x.s3.value));
    }
  }

  // Under the registry's conventions.

  lemma {:induction false} FirstS3Holder(storages: seq<Storage>)
    ensures FirstS3(storages).Some? ==> exists s :: s in storages && s.s3 == FirstS3(storages)
    decreases |storages|
  {
    if storages != [] && storages[0].s3.None? {
      FirstS3Holder(storages[1..]);
      assert forall s :: s in storages[1..] ==> s in storages;
    } else if storages != [] {
      assert storages[0] in storages;
    }
  }

  /** Under the registry's conventions normalisation is idempotent. */
  lemma CanonicalIdempotent(x: Setting)
    requires CanonicalIds(x.storages) && ConfigsFit(x.storages)
    ensures Normalized(Normalized(x)) == Normalized(x)
  {
    var n := Normalized(x);
    CanonicalNormalizes(x);
    FirstHeldCorrect(x);
    FirstS3Holder(n.storages);
    NormalizedNormal(x);
    if n.s3.Some? {
      var s :| s in n.storages && s.s3 == n.s3;
      NormalizedConfigsFit(x, s);
      assert NamespaceEqual(s, S3Storage(n.s3.value));
      ListedAddresses(x, n.s3.value);
    }
    IdempotentIff(x);
  }

  lemma NormalizedConfigsFit(x: Setting, s: Storage)
    requires ConfigsFit(x.storages) && s in Normalized(x).storages
    ensures s.s3.Some? ==> s.typ == S3
  {
    NormalizedMember(x, s);
    CleanProperties(x.storages, []);
  }

  /** A configuration left on a local entry makes normalisation add it as a second storage next time. */
  lemma MisplacedConfigNotIdempotent(c: S3Config)
    ensures var x := Setting([Storage(LocalId, "Local", Local, Some(c))], LocalId, Local, None);
      Normalized(x).storages == x.storages && Normalized(Normalized(x)) != Normalized(x)
  {
    var s := Storage(LocalId, "Local", Local, Some(c));
    var x := Setting([s], LocalId, Local, None);
    assert TrimSpace("Local") == "Local";
    NormalizeSettles(s);
    assert Clean([s], []) == [s] by { assert Clean([s][1..], [s]) == [s]; }
    assert Gathered(x) == x;
    assert !Addressed(Listed(x), c);
    IdempotentIff(x);
  }
}
