/** Concurrent initialisation of the daily question seed by compare-and-swap on one JSON row. */
module DailyQuestionSeed {
  import opened Wrappers

  /** A JSON field: text, null, or anything a text seed cannot be decoded from. */
  datatype Json = Text(s: string) | NullValue | Other(id: int)

  /** The stored row: an object, whose exact text also has a layout, or text that is no object. */
  datatype Raw = Object(fields: map<string, Json>, layout: int) | Malformed(id: int)

  const CAMEL := "dailyQuestionSeed"
  const SNAKE := "daily_question_seed"

  /** Decoding the seed: the first non-empty of the two spellings, an error when one met on the way is not text. */
  datatype Decoded = Seed(seed: string) | Bad

  function SeedIn(fields: map<string, Json>, key: string): Decoded {
    if key !in fields then Seed("")
    else match fields[key] case Text(s) => Seed(s) case NullValue => Seed("") case Other(_) => Bad
  }

  function DecodeSeed(raw: Raw): Decoded {
    if raw.Malformed? then Bad
    else
      var camel := SeedIn(raw.fields, CAMEL);
      if camel != Seed("") then camel else SeedIn(raw.fields, SNAKE)
  }

  /** The row an initialiser writes: its seed under the current spelling, every other field kept. */
  function WithSeed(fields: map<string, Json>, seed: string): Raw {
    Object((fields - {SNAKE})[CAMEL := Text(seed)], 0)
  }

  const EMPTY_ROW := Object(map[], 0)

  const ROUNDS: nat := 8

  /** Where an initialiser is. `seen` is the row it read, None when there was none. */
  datatype Process =
    | Reading(round: nat)
    | Writing(round: nat, seen: Option<Raw>, seed: string)
    | Succeeded(seed: string, round: nat)
    | Failed(round: nat)

  datatype State = State(row: Option<Raw>, processes: map<nat, Process>)

  /** `drawn` is the random seed a read draws when it needs one. */
  datatype Event =
    | Read(who: nat, drawn: string)
    | Write(who: nat)
    | External(row: Raw)

  function FieldsOf(row: Option<Raw>): map<string, Json> {
    match row case Some(Object(fields, _)) => fields case _ => map[]
  }

  /** The read half of a round: an existing seed is returned, else the process prepares to write its own. */
  function AfterRead(row: Option<Raw>, round: nat, drawn: string): Process {
    if round >= ROUNDS then Failed(round)
    else match DecodeSeed(if row.Some? then row.value else EMPTY_ROW)
      case Bad => Failed(round)
      case Seed(s) => if s != "" then Succeeded(s, round) else Writing(round, row, drawn)
  }

  /** The conditional write: INSERT unless present, or UPDATE where the text is still what was read. */
  function AfterWrite(row: Option<Raw>, p: Process): (Option<Raw>, Process)
    requires p.Writing?
  {
    if row == p.seen then (Some(WithSeed(FieldsOf(p.seen), p.seed)), Succeeded(p.seed, p.round))
    else (row, Reading(p.round + 1))
  }

  predicate HasSeed(row: Option<Raw>, seed: string) {
    seed != "" && row.Some? && DecodeSeed(row.value) == Seed(seed)
  }

  predicate Seeded(row: Option<Raw>) { row.Some? && DecodeSeed(row.value).Seed? && DecodeSeed(row.value).seed != "" }

  /** Drawn seeds are not empty; other writers keep a seed that is there. */
  predicate Enabled(s: State, e: Event) {
    match e
    case Read(_, drawn) => drawn != ""
    case Write(_) => true
    case External(row) => Seeded(s.row) ==> DecodeSeed(row) == DecodeSeed(s.row.value)
  }

  /** A process starts on its first step. */
  function ProcessOf(s: State, who: nat): Process { if who in s.processes then s.processes[who] else Reading(0) }

  function Step(s: State, e: Event): State {
    match e
    case Read(who, drawn) =>
      var p := ProcessOf(s, who);
      if p.Reading? then s.(processes := s.processes[who := AfterRead(s.row, p.round, drawn)]) else s
    case Write(who) =>
      var p := ProcessOf(s, who);
      if p.Writing? then State(AfterWrite(s.row, p).0, s.processes[who := AfterWrite(s.row, p).1]) else s
    case External(row) => s.(row := Some(row))
  }

  predicate IsRun(s: State, events: seq<Event>)
    decreases |events|
  {
    events == [] || (Enabled(s, events[0]) && IsRun(Step(s, events[0]), events[1..]))
  }

  function Run(s: State, events: seq<Event>): State
    decreases |events|
  {
    if events == [] then s else Run(Step(s, events[0]), events[1..])
  }

  // One write.

  /** A written row decodes to the written seed and keeps every unrelated field. */
  lemma WithSeedDecodes(fields: map<string, Json>, seed: string)
    ensures DecodeSeed(WithSeed(fields, seed)) == Seed(seed)
    ensures forall k :: k != CAMEL && k != SNAKE ==>
      (k in WithSeed(fields, seed).fields <==> k in fields)
        && (k in fields ==> WithSeed(fields, seed).fields[k] == fields[k])
  {
  }

  // Agreement.

  /** Who succeeded holds the durable seed; who is writing read a row without one. */
  predicate Consistent(s: State, p: Process) {
    match p
    case Reading(_) => true
    case Writing(_, seen, seed) => seed != "" && DecodeSeed(if seen.Some? then seen.value else EMPTY_ROW) == Seed("")
    case Succeeded(seed, _) => HasSeed(s.row, seed)
    case Failed(_) => true
  }

  ghost predicate Agreement(s: State) {
    forall who :: who in s.processes ==> Consistent(s, s.processes[who])
  }

  /** A non-empty durable seed never changes. */
  lemma SeedNeverChanges(s: State, e: Event, seed: string)
    requires Agreement(s) && Enabled(s, e) && HasSeed(s.row, seed)
    ensures HasSeed(Step(s, e).row, seed)
  {
  }

  lemma StepKeepsAgreement(s: State, e: Event)
    requires Agreement(s) && Enabled(s, e)
    ensures Agreement(Step(s, e))
  {
  }

  lemma {:induction false} EveryRunAgrees(s: State, events: seq<Event>)
    requires Agreement(s) && IsRun(s, events)
    ensures Agreement(Run(s, events))
    ensures forall seed :: HasSeed(s.row, seed) ==> HasSeed(Run(s, events).row, seed)
    decreases |events|
  {
    if events != [] {
      StepKeepsAgreement(s, events[0]);
      forall seed | HasSeed(s.row, seed)
        ensures HasSeed(Step(s, events[0]).row, seed)
      {
        SeedNeverChanges(s, events[0], seed);
      }
      EveryRunAgrees(Step(s, events[0]), events[1..]);
    }
  }

  /** In every run from any row, all initialisers that succeed return the one durable seed. */
  lemma SuccessesAgree(row: Option<Raw>, events: seq<Event>, a: nat, b: nat)
    requires IsRun(State(row, map[]), events)
    ensures var s := Run(State(row, map[]), events);
      ProcessOf(s, a).Succeeded? && ProcessOf(s, b).Succeeded? ==>
        ProcessOf(s, a).seed == ProcessOf(s, b).seed && HasSeed(s.row, ProcessOf(s, a).seed)
  {
    var s := Run(State(row, map[]), events);
    EveryRunAgrees(State(row, map[]), events);
    if a in s.processes { assert Consistent(s, s.processes[a]); }
    if b in s.processes { assert Consistent(s, s.processes[b]); }
  }

  // Unrelated fields.

  predicate SameElsewhere(a: map<string, Json>, b: map<string, Json>) {
    a - {CAMEL, SNAKE} == b - {CAMEL, SNAKE}
  }

  /** No step of an initialiser touches any other field. */
  lemma InitialisersKeepFields(s: State, e: Event)
    requires Agreement(s) && Enabled(s, e) && !e.External?
    ensures SameElsewhere(FieldsOf(s.row), FieldsOf(Step(s, e).row))
  {
  }

  // Two rounds.

  predicate Alone(events: seq<Event>) { forall e :: e in events ==> !e.External? }

  /** While only initialisers write, unrelated fields survive the whole run. */
  lemma {:induction false} RunKeepsFields(s: State, events: seq<Event>)
    requires Agreement(s) && IsRun(s, events) && Alone(events)
    ensures SameElsewhere(FieldsOf(s.row), FieldsOf(Run(s, events).row))
    decreases |events|
  {
    if events != [] {
      assert events[0] in events;
      InitialisersKeepFields(s, events[0]);
      StepKeepsAgreement(s, events[0]);
      assert forall e :: e in events[1..] ==> e in events;
      RunKeepsFields(Step(s, events[0]), events[1..]);
    }
  }

  /** While no one else writes: a row an initialiser still waits on is the current one or the row is seeded already,
      and nobody is past the second round or has been turned away by a changed row. */
  predicate OnTime(s: State, p: Process) {
    match p
    case Reading(r) => r <= 1 && (r == 1 ==> Seeded(s.row))
    case Writing(r, seen, _) => r == 0 && (seen == s.row || Seeded(s.row))
    case Succeeded(_, r) => r <= 1
    case Failed(r) => r <= 1 && s.row.Some? && DecodeSeed(s.row.value) == Bad
  }

  ghost predicate Timely(s: State) {
    Agreement(s) && forall who :: who in s.processes ==> OnTime(s, s.processes[who])
  }

  lemma StepKeepsTimely(s: State, e: Event)
    requires Timely(s) && Enabled(s, e) && !e.External?
    ensures Timely(Step(s, e))
  {
  }

  /** When only initialisers write, each finishes in its first or second round, and none fails unless the stored row
      itself cannot be decoded; the retry limit is never reached. */
  lemma {:induction false} InitialisersFinishInTwoRounds(s: State, events: seq<Event>)
    requires Timely(s) && IsRun(s, events) && Alone(events)
    ensures Timely(Run(s, events))
    decreases |events|
  {
    if events != [] {
      assert events[0] in events;
      StepKeepsTimely(s, events[0]);
      assert forall e :: e in events[1..] ==> e in events;
      InitialisersFinishInTwoRounds(Step(s, events[0]), events[1..]);
    }
  }

  /** A process in its second round returns the durable seed as soon as it reads. */
  lemma SecondReadSucceeds(s: State, who: nat, drawn: string)
    requires Timely(s) && ProcessOf(s, who) == Reading(1) && drawn != ""
    ensures var t := Step(s, Read(who, drawn)); ProcessOf(t, who).Succeeded? && HasSeed(t.row, ProcessOf(t, who).seed)
  {
  }

  /** Started on any row with no one else writing, every initialiser is done after two reads, and it fails only on a row
      that cannot be decoded. */
  lemma TwoRoundsSuffice(row: Option<Raw>, events: seq<Event>, who: nat)
    requires IsRun(State(row, map[]), events) && Alone(events)
    ensures var s := Run(State(row, map[]), events);
      match ProcessOf(s, who)
      case Reading(r) => r == 0 || (r == 1 && Seeded(s.row))
      case Writing(r, _, _) => r == 0
      case Succeeded(_, r) => r <= 1
      case Failed(r) => r <= 1 && s.row.Some? && DecodeSeed(s.row.value) == Bad
  {
    InitialisersFinishInTwoRounds(State(row, map[]), events);
  }

  // What is read from a row.

  /** A field that holds no seed: it is missing, null or the empty text. */
  predicate Empty(fields: map<string, Json>, key: string) {
    key in fields ==> fields[key] == NullValue || fields[key] == Text("")
  }

  /** What stands under the current spelling, or under the older one where the current one holds no seed. */
  predicate DecidesOn(fields: map<string, Json>, value: Json) {
    || (CAMEL in fields && fields[CAMEL] == value)
    || (Empty(fields, CAMEL) && SNAKE in fields && fields[SNAKE] == value)
  }

  /** A row's seed is the current spelling's, or the older one's where the current one holds none; a row that is no
      object, or whose deciding field is no text, cannot be decoded. */
  lemma DecodedIs(raw: Raw, seed: string)
    requires seed != ""
    ensures DecodeSeed(raw) == Seed(seed) <==> raw.Object? && DecidesOn(raw.fields, Text(seed))
    ensures DecodeSeed(raw) == Seed("") <==> raw.Object? && Empty(raw.fields, CAMEL) && Empty(raw.fields, SNAKE)
    ensures DecodeSeed(raw) == Bad <==> raw.Malformed? || exists id :: DecidesOn(raw.fields, Other(id))
  {
    if raw.Object? && DecodeSeed(raw) == Bad {
      var key := if Empty(raw.fields, CAMEL) then SNAKE else CAMEL;
      assert DecidesOn(raw.fields, Other(raw.fields[key].id));
    }
  }

  /** The two spellings are the ones the settings use. */
  lemma OlderSpellingIsRead(fields: map<string, Json>, seed: string, layout: int)
    requires seed != "" && "dailyQuestionSeed" !in fields
    requires "daily_question_seed" in fields && fields["daily_question_seed"] == Text(seed)
    ensures DecodeSeed(Object(fields, layout)) == Seed(seed)
  {
  }

  /** A read returns a seed that is there, draws one where there is none, and fails on a row it cannot decode; after
      eight rounds it gives up. */
  lemma ReadIs(s: State, who: nat, round: nat, drawn: string)
    requires ProcessOf(s, who) == Reading(round)
    ensures var after := ProcessOf(Step(s, Read(who, drawn)), who);
      && (after == Failed(round) <==> round >= 8 || (s.row.Some? && DecodeSeed(s.row.value) == Bad))
      && (after.Succeeded? <==> round < 8 && Seeded(s.row))
      && (after.Succeeded? ==> after == Succeeded(DecodeSeed(s.row.value).seed, round))
      && (!after.Failed? && !after.Succeeded? ==> after == Writing(round, s.row, drawn))
      && Step(s, Read(who, drawn)).row == s.row
  {
  }

  /** A write stores the drawn seed exactly when the row is still the one that was read; else the next round begins. */
  lemma WriteIs(s: State, who: nat, round: nat, seen: Option<Raw>, seed: string)
    requires ProcessOf(s, who) == Writing(round, seen, seed)
    ensures var t := Step(s, Write(who));
      && (s.row == seen ==>
            ProcessOf(t, who) == Succeeded(seed, round) && t.row.Some? && DecodeSeed(t.row.value) == Seed(seed))
      && (s.row != seen ==> ProcessOf(t, who) == Reading(round + 1) && t.row == s.row)
  {
  }

  /** Left alone, an initialiser that has not used up its rounds stores its seed on any row that can be decoded. */
  lemma UndisturbedSucceeds(s: State, who: nat, round: nat, drawn: string)
    requires ProcessOf(s, who) == Reading(round) && round < 8 && drawn != ""
    requires s.row.Some? ==> DecodeSeed(s.row.value) == Seed("")
    ensures IsRun(s, [Read(who, drawn), Write(who)])
    ensures var t := Run(s, [Read(who, drawn), Write(who)]);
      ProcessOf(t, who) == Succeeded(drawn, round) && HasSeed(t.row, drawn)
  {
    var r := Step(s, Read(who, drawn));
    var t := Step(r, Write(who));
    assert [Read(who, drawn), Write(who)][1..] == [Write(who)];
    assert Run(r, [Write(who)]) == Run(t, []) == t && IsRun(r, [Write(who)]);
  }
}
