/** Crash-resumable migrations: statements committed one by one, and a ledger of finished files. */
module PlusMigrator {

  /** What a statement leaves in the database. Statements that are neither guarded form are idempotent. */
  datatype Object = Column(table: string, name: string) | Index(name: string) | Effect(words: seq<string>) | Seed

  /** A migration file: its statements, each split into words. */
  datatype File = File(name: string, statements: seq<seq<string>>)

  /** `log` records every executed statement; no step reads it. */
  datatype Db = Db(objects: set<Object>, ledger: set<string>, log: seq<Object>)

  const SEED_FILE := "0004__daily_question.sql"

  function Produces(words: seq<string>): Object {
    if |words| >= 7 && words[0] == "ALTER" && words[1] == "TABLE" && words[3] == "ADD" && words[4] == "COLUMN" then
      Column(words[2], words[5])
    else if |words| >= 4 && words[0] == "CREATE" && words[1] == "INDEX" then
      Index(words[2])
    else
      Effect(words)
  }

  /** Objects the database refuses to create twice, which the migrator therefore looks up first. */
  predicate Guarded(o: Object) { o.Column? || o.Index? }

  function Execute(db: Db, o: Object): Db
    requires Guarded(o) ==> o !in db.objects
  {
    db.(objects := db.objects + {o}, log := db.log + [o])
  }

  // A run with a budget of writes: when a write is due and none is left, the process has crashed.

  datatype Progress = Progress(db: Db, budget: nat, crashed: bool)

  function Write(p: Progress, o: Object): Progress {
    if p.crashed || (Guarded(o) && o in p.db.objects) then p
    else if p.budget == 0 then p.(crashed := true)
    else p.(db := Execute(p.db, o), budget := p.budget - 1)
  }

  function Statements(p: Progress, statements: seq<seq<string>>): Progress
    decreases |statements|
  {
    if statements == [] then p
    else Statements(if statements[0] == [] then p else Write(p, Produces(statements[0])), statements[1..])
  }

  function Record(p: Progress, name: string): Progress {
    if p.crashed then p
    else if p.budget == 0 then p.(crashed := true)
    else p.(db := p.db.(ledger := p.db.ledger + {name}), budget := p.budget - 1)
  }

  function SeedStep(p: Progress, name: string): Progress {
    if name == SEED_FILE then Write(p, Seed) else p
  }

  function ApplyFile(p: Progress, f: File): Progress {
    if p.crashed || f.name in p.db.ledger then p
    else Record(SeedStep(Statements(p, f.statements), f.name), f.name)
  }

  function ApplyAll(p: Progress, files: seq<File>): Progress
    decreases |files|
  {
    if files == [] then p else ApplyAll(ApplyFile(p, files[0]), files[1..])
  }

  class Migrator {
    var objects: set<Object>
    var ledger: set<string>
    ghost var log: seq<Object>

    ghost function Value(): Db
      reads this
    {
      Db(objects, ledger, log)
    }

    constructor (db: Db)
      ensures Value() == db
    {
      objects, ledger, log := db.objects, db.ledger, db.log;
    }

    method Exec(o: Object)
      requires Guarded(o) ==> o !in objects
      modifies this
      ensures Value() == Execute(old(Value()), o)
    {
      objects := objects + {o};
      log := log + [o];
    }

    /** A fresh database is created in its final shape: every file counts as applied. */
    method InitLedger(files: seq<File>, newDatabase: bool)
      modifies this
      ensures objects == old(objects) && log == old(log)
      ensures ledger == old(ledger) + (if newDatabase then Names(files) else {})
    {
      if !newDatabase {
        return;
      }
      for i := 0 to |files|
        invariant objects == old(objects) && log == old(log)
        invariant ledger == old(ledger) + Names(files[..i])
      {
        assert files[..i + 1] == files[..i] + [files[i]];
        ledger := ledger + {files[i].name};
      }
      assert files[..|files|] == files;
    }

    /** Runs one file's statements, looking columns and indexes up before adding them. */
    method RunStatements(statements: seq<seq<string>>, budget: nat) returns (left: nat, crashed: bool)
      modifies this
      ensures Progress(Value(), left, crashed) == Statements(Progress(old(Value()), budget, false), statements)
    {
      left, crashed := budget, false;
      for i := 0 to |statements|
        invariant !crashed
        invariant Statements(Progress(old(Value()), budget, false), statements)
               == Statements(Progress(Value(), left, false), statements[i..])
      {
        var words := statements[i];
        assert statements[i..][1..] == statements[i + 1..];
        if words == [] {
          continue;
        }
        var o := Produces(words);
        if Guarded(o) && o in objects {
          continue;
        }
        if left == 0 {
          CrashedStays(Progress(Value(), left, true), statements[i + 1..]);
          return left, true;
        }
        Exec(o);
        left := left - 1;
      }
    }

    method ApplyPlusMigrations(files: seq<File>, budget: nat) returns (left: nat, crashed: bool)
      modifies this
      ensures Progress(Value(), left, crashed) == ApplyAll(Progress(old(Value()), budget, false), files)
    {
      left, crashed := budget, false;
      for i := 0 to |files|
        invariant !crashed
        invariant ApplyAll(Progress(old(Value()), budget, false), files)
             == ApplyAll(Progress(Value(), left, false), files[i..])
      {
        assert files[i..][1..] == files[i + 1..];
        ghost var before := Progress(Value(), left, false);
        if files[i].name !in ledger {
          left, crashed := RunFile(files[i], left);
        }
        assert Progress(Value(), left, crashed) == ApplyFile(before, files[i]);
        if crashed {
          AllCrashed(Progress(Value(), left, crashed), files[i + 1..]);
          return;
        }
      }
    }

    method RunFile(f: File, budget: nat) returns (left: nat, crashed: bool)
      requires f.name !in ledger
      modifies this
      ensures Progress(Value(), left, crashed) == ApplyFile(Progress(old(Value()), budget, false), f)
    {
      left, crashed := RunStatements(f.statements, budget);
      if crashed {
        return;
      }
      if f.name == SEED_FILE {
        if left == 0 {
          return left, true;
        }
        Exec(Seed);
        left := left - 1;
      }
      if left == 0 {
        return left, true;
      }
      ledger := ledger + {f.name};
      left := left - 1;
    }
  }

  lemma {:induction false} CrashedStays(p: Progress, statements: seq<seq<string>>)
    requires p.crashed
    ensures Statements(p, statements) == p
    decreases |statements|
  {
    if statements != [] { CrashedStays(p, statements[1..]); }
  }

  lemma {:induction false} AllCrashed(p: Progress, files: seq<File>)
    requires p.crashed
    ensures ApplyAll(p, files) == p
    decreases |files|
  {
    if files != [] { AllCrashed(p, files[1..]); }
  }

  // What a run reaches.

  function ObjectsOf(statements: seq<seq<string>>): set<Object> {
    set i | 0 <= i < |statements| && statements[i] != [] :: Produces(statements[i])
  }

  function FileObjects(f: File): set<Object> {
    ObjectsOf(f.statements) + if f.name == SEED_FILE then {Seed} else {}
  }

  function Names(files: seq<File>): set<string> { set f | f in files :: f.name }

  /** All objects of the files not yet in the ledger. */
  function Pending(files: seq<File>, ledger: set<string>): set<Object> {
    if files == [] then {}
    else (if files[0].name in ledger then {} else FileObjects(files[0])) + Pending(files[1..], ledger)
  }

  predicate DistinctNames(files: seq<File>) {
    forall i, j :: 0 <= i < j < |files| ==> files[i].name != files[j].name
  }

  /** Progress only adds objects it is due to add. */
  ghost predicate Advances(p: Progress, q: Progress, due: set<Object>) {
    && p.db.objects <= q.db.objects <= p.db.objects + due
    && (!q.crashed ==> !p.crashed && q.db.objects == p.db.objects + due)
  }

  lemma {:induction false} StatementsAdvance(p: Progress, statements: seq<seq<string>>)
    ensures Advances(p, Statements(p, statements), ObjectsOf(statements))
    ensures Statements(p, statements).db.ledger == p.db.ledger
    decreases |statements|
  {
    if statements != [] {
      var q := if statements[0] == [] then p else Write(p, Produces(statements[0]));
      StatementsAdvance(q, statements[1..]);
      var head := if statements[0] == [] then {} else {Produces(statements[0])};
      ObjectsSplit(statements);
      assert Advances(p, q, head);
    }
  }

  lemma ObjectsSplit(statements: seq<seq<string>>)
    requires statements != []
    ensures ObjectsOf(statements)
         == (if statements[0] == [] then {} else {Produces(statements[0])}) + ObjectsOf(statements[1..])
  {
  }

  /** A file is in the ledger only after all its objects exist. */
  lemma FileAdvances(p: Progress, f: File)
    ensures var q := ApplyFile(p, f);
      && Advances(p, q, if f.name in p.db.ledger then {} else FileObjects(f))
      && p.db.ledger <= q.db.ledger <= p.db.ledger + {f.name}
      && (f.name in q.db.ledger && f.name !in p.db.ledger ==> FileObjects(f) <= q.db.objects)
      && (!q.crashed ==> f.name in q.db.ledger)
  {
    StatementsAdvance(p, f.statements);
  }

  /** From `p` a run adds pending objects only, and all of them when it is not cut off. */
  ghost predicate Reaches(p: Progress, q: Progress, files: seq<File>) {
    && Advances(p, q, Pending(files, p.db.ledger))
    && p.db.ledger <= q.db.ledger <= p.db.ledger + Names(files)
    && (!q.crashed ==> q.db.ledger == p.db.ledger + Names(files))
    && q.db.objects + Pending(files, q.db.ledger) == p.db.objects + Pending(files, p.db.ledger)
  }

  lemma {:induction false} RunReaches(p: Progress, files: seq<File>)
    requires DistinctNames(files)
    ensures Reaches(p, ApplyAll(p, files), files)
    decreases |files|
  {
    if files != [] {
      var f, rest := files[0], files[1..];
      var p1 := ApplyFile(p, f);
      FileAdvances(p, f);
      RunReaches(p1, rest);
      assert files == [f] + rest;
      assert Names(files) == {f.name} + Names(rest);
      assert f.name !in Names(rest);
      PendingSame(rest, p.db.ledger, p1.db.ledger);
      ReachesStep(p, p1, ApplyAll(p1, rest), files);
    }
  }

  lemma ReachesStep(p: Progress, p1: Progress, q: Progress, files: seq<File>)
    requires files != [] && p1 == ApplyFile(p, files[0]) && Reaches(p1, q, files[1..])
    requires Names(files) == {files[0].name} + Names(files[1..]) && files[0].name !in Names(files[1..])
    requires Pending(files[1..], p.db.ledger) == Pending(files[1..], p1.db.ledger)
    ensures Reaches(p, q, files)
  {
    FileAdvances(p, files[0]);
  }

  lemma {:induction false} PendingSame(files: seq<File>, a: set<string>, b: set<string>)
    requires forall f :: f in files ==> (f.name in a <==> f.name in b)
    ensures Pending(files, a) == Pending(files, b)
    decreases |files|
  {
    if files != [] {
      assert forall f :: f in files[1..] ==> f in files;
      assert files[0] in files;
      PendingSame(files[1..], a, b);
    }
  }

  /** The database after runs that each stopped somewhere. */
  function AfterRuns(db: Db, files: seq<File>, budgets: seq<nat>): Db
    decreases |budgets|
  {
    if budgets == [] then db else AfterRuns(ApplyAll(Progress(db, budgets[0], false), files).db, files, budgets[1..])
  }

  lemma {:induction false} RunsReach(db: Db, files: seq<File>, budgets: seq<nat>)
    requires DistinctNames(files)
    ensures var after := AfterRuns(db, files, budgets);
      && db.ledger <= after.ledger <= db.ledger + Names(files)
      && after.objects + Pending(files, after.ledger) == db.objects + Pending(files, db.ledger)
    decreases |budgets|
  {
    if budgets != [] {
      RunReaches(Progress(db, budgets[0], false), files);
      RunsReach(ApplyAll(Progress(db, budgets[0], false), files).db, files, budgets[1..]);
    }
  }

  /** Any number of interrupted runs followed by one that finishes reach the schema and ledger of one that was never
      interrupted. */
  lemma InterruptedRunsConverge(db: Db, files: seq<File>, budgets: seq<nat>, last: nat, whole: nat)
    requires DistinctNames(files)
    requires !ApplyAll(Progress(AfterRuns(db, files, budgets), last, false), files).crashed
    requires !ApplyAll(Progress(db, whole, false), files).crashed
    ensures var resumed := ApplyAll(Progress(AfterRuns(db, files, budgets), last, false), files).db;
      var direct := ApplyAll(Progress(db, whole, false), files).db;
      resumed.objects == direct.objects && resumed.ledger == direct.ledger
  {
    RunsReach(db, files, budgets);
    RunReaches(Progress(AfterRuns(db, files, budgets), last, false), files);
    RunReaches(Progress(db, whole, false), files);
  }

  // How often statements run.

  /** Columns and indexes in the log exist, and no two entries are the same. */
  ghost predicate OnceLogged(db: Db) {
    && (forall i :: 0 <= i < |db.log| && Guarded(db.log[i]) ==> db.log[i] in db.objects)
    && (forall i, j :: 0 <= i < j < |db.log| && Guarded(db.log[i]) ==> db.log[i] != db.log[j])
  }

  lemma {:induction false} StatementsOnce(p: Progress, statements: seq<seq<string>>)
    requires OnceLogged(p.db)
    ensures OnceLogged(Statements(p, statements).db)
    decreases |statements|
  {
    if statements != [] {
      StatementsOnce(if statements[0] == [] then p else Write(p, Produces(statements[0])), statements[1..]);
    }
  }

  lemma {:induction false} RunOnce(p: Progress, files: seq<File>)
    requires OnceLogged(p.db)
    ensures OnceLogged(ApplyAll(p, files).db)
    decreases |files|
  {
    if files != [] {
      StatementsOnce(p, files[0].statements);
      RunOnce(ApplyFile(p, files[0]), files[1..]);
    }
  }

  /** Over all runs together each ADD COLUMN and CREATE INDEX is executed at most once. */
  lemma {:induction false} GuardedStatementsRunOnce(db: Db, files: seq<File>, budgets: seq<nat>)
    requires OnceLogged(db)
    ensures OnceLogged(AfterRuns(db, files, budgets))
    decreases |budgets|
  {
    if budgets != [] {
      RunOnce(Progress(db, budgets[0], false), files);
      GuardedStatementsRunOnce(ApplyAll(Progress(db, budgets[0], false), files).db, files, budgets[1..]);
    }
  }

  /** So, entry by entry: no column is added and no index created twice in the log of all runs. */
  lemma NoneExecutedTwice(db: Db, files: seq<File>, budgets: seq<nat>, i: nat, j: nat)
    requires db.log == [] && i < j < |AfterRuns(db, files, budgets).log|
    ensures var log := AfterRuns(db, files, budgets).log; log[i] == log[j] ==> !log[i].Column? && !log[i].Index?
  {
    GuardedStatementsRunOnce(db, files, budgets);
  }

  // What statements produce.

  predicate AddsColumn(words: seq<string>, table: string, name: string) {
    |words| >= 7 && words[..6] == ["ALTER", "TABLE", table, "ADD", "COLUMN", name]
  }

  predicate CreatesIndex(words: seq<string>, name: string) {
    |words| >= 4 && words[..3] == ["CREATE", "INDEX", name]
  }

  /** The guarded statements are the column additions and the index creations, each known by what it names. */
  lemma ProducesIff(words: seq<string>, table: string, name: string)
    ensures Produces(words) == Column(table, name) <==> AddsColumn(words, table, name)
    ensures Produces(words) == Index(name) <==> CreatesIndex(words, name)
    ensures Guarded(Produces(words))
       <==> (exists t, n :: AddsColumn(words, t, n)) || (exists n :: CreatesIndex(words, n))
    ensures !Guarded(Produces(words)) ==> Produces(words) == Effect(words)
  {
    if |words| >= 7 { assert words[..6] == [words[0], words[1], words[2], words[3], words[4], words[5]]; }
    if |words| >= 4 { assert words[..3] == [words[0], words[1], words[2]]; }
    if Produces(words).Column? { assert AddsColumn(words, words[2], words[5]); }
    if Produces(words).Index? { assert CreatesIndex(words, words[2]); }
    if t, n :| AddsColumn(words, t, n) { ColumnWords(words, t, n); }
    if n :| CreatesIndex(words, n) { IndexWords(words, n); }
    if AddsColumn(words, table, name) { ColumnWords(words, table, name); }
    if CreatesIndex(words, name) { IndexWords(words, name); }
  }

  lemma ColumnWords(words: seq<string>, table: string, name: string)
    requires AddsColumn(words, table, name)
    ensures Produces(words) == Column(table, name)
  {
    var head := words[..6];
    assert head[0] == words[0] && head[1] == words[1] && head[2] == words[2];
    assert head[3] == words[3] && head[4] == words[4] && head[5] == words[5];
  }

  lemma IndexWords(words: seq<string>, name: string)
    requires CreatesIndex(words, name)
    ensures Produces(words) == Index(name)
  {
    var head := words[..3];
    assert head[0] == words[0] && head[1] == words[1] && head[2] == words[2];
  }

  /** Different columns and indexes are different objects, so one that is there never stands in for another. */
  lemma ObjectsApart(a: seq<string>, b: seq<string>)
    requires Produces(a) == Produces(b) && a != b
    ensures (exists t, n :: AddsColumn(a, t, n) && AddsColumn(b, t, n))
      || (exists n :: CreatesIndex(a, n) && CreatesIndex(b, n))
  {
    match Produces(a)
    case Column(t, n) =>
      ProducesIff(a, t, n);
      ProducesIff(b, t, n);
    case Index(n) =>
      ProducesIff(a, "", n);
      ProducesIff(b, "", n);
    case _ =>
  }

  // The budget.

  /** What is left of the budget, with what was written. */
  function Total(p: Progress): nat { p.budget + |p.db.log| + |p.db.ledger| }

  lemma {:induction false} StatementsSpend(p: Progress, statements: seq<seq<string>>)
    requires p.crashed ==> p.budget == 0
    ensures var q := Statements(p, statements); Total(q) == Total(p) && (q.crashed ==> q.budget == 0)
    decreases |statements|
  {
    if statements != [] {
      StatementsSpend(if statements[0] == [] then p else Write(p, Produces(statements[0])), statements[1..]);
    }
  }

  /** Every write, of a statement or of a ledger entry, takes one from the budget, and a run crashes only without any
      left. */
  lemma {:induction false} WritesSpendBudget(p: Progress, files: seq<File>)
    requires p.crashed ==> p.budget == 0
    ensures var q := ApplyAll(p, files); Total(q) == Total(p) && (q.crashed ==> q.budget == 0)
    decreases |files|
  {
    if files != [] {
      StatementsSpend(p, files[0].statements);
      StatementsKeepLedger(p, files[0].statements);
      WritesSpendBudget(ApplyFile(p, files[0]), files[1..]);
    }
  }

  lemma StatementsKeepLedger(p: Progress, statements: seq<seq<string>>)
    ensures Statements(p, statements).db.ledger == p.db.ledger
  {
    StatementsAdvance(p, statements);
  }
}
