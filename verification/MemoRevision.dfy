/** Memo revision capture: snapshots before an edit, coalescing within a save session, and bounded pruning. */
module MemoRevision {
  import opened Wrappers

  datatype Payload = Payload(text: string, title: string)

  datatype Memo = Memo(content: string, payload: Payload, visibility: int, editor: int, deleted: bool)

  datatype Revision = Revision(id: int, memo: int, editor: int, savedBy: int, created: int, content: string,
                               payload: string, visibility: int)

  /** The parts of a memo update that matter to history; an update may carry no limit or no acting user. */
  datatype Update = Update(memo: int, limit: Option<int>, actor: Option<int>, force: bool, content: Option<string>,
                           payload: Option<Payload>)

  /** The memo table, and the revision table in order of identifier. */
  datatype State = State(memos: map<int, Memo>, revisions: seq<Revision>, nextId: int)

  const MERGE_WINDOW: int := 600
  const MAX_REVISIONS: int := 200

  function Clamp(limit: int): nat {
    if limit < 0 then 0 else if limit > MAX_REVISIONS then MAX_REVISIONS else limit
  }

  predicate Applies(u: Update) { u.limit.Some? && u.actor.Some? && (u.content.Some? || u.payload.Some?) }

  predicate Found(s: State, u: Update) { u.memo in s.memos && !s.memos[u.memo].deleted }

  predicate Changes(m: Memo, u: Update) {
    (u.content.Some? && u.content.value != m.content) || (u.payload.Some? && u.payload.value.title != m.payload.title)
  }

  // Queries on the revision table.

  /** A memo's revisions, oldest first. */
  function Of(revisions: seq<Revision>, memo: int): seq<Revision>
    decreases |revisions|
  {
    if revisions == [] then []
    else
      var n := |revisions| - 1;
      if revisions[n].memo == memo then Of(revisions[..n], memo) + [revisions[n]] else Of(revisions[..n], memo)
  }

  /** The table after deleting a memo's revisions up to an identifier. */
  function Without(revisions: seq<Revision>, memo: int, cutoff: int): seq<Revision>
    decreases |revisions|
  {
    if revisions == [] then []
    else
      var n := |revisions| - 1;
      if revisions[n].memo == memo && revisions[n].id <= cutoff then Without(revisions[..n], memo, cutoff)
      else Without(revisions[..n], memo, cutoff) + [revisions[n]]
  }

  /** The newest revision was saved by the same user less than ten minutes ago. */
  predicate Coalesces(own: seq<Revision>, actor: int, now: int) {
    own != [] && own[|own| - 1].savedBy == actor && now - own[|own| - 1].created < MERGE_WINDOW
  }

  predicate Inserts(s: State, u: Update, now: int)
    requires u.limit.Some? && u.actor.Some?
  {
    Clamp(u.limit.value) > 0 && (u.force || !Coalesces(Of(s.revisions, u.memo), u.actor.value, now))
  }

  function Snapshot(m: Memo, u: Update, id: int, now: int): Revision
    requires u.actor.Some?
  {
    Revision(id, u.memo, m.editor, u.actor.value, now, m.content, m.payload.text, m.visibility)
  }

  /** Deletes from the `limit + 1`-th newest revision down; a limit of zero deletes nothing. */
  function Pruned(revisions: seq<Revision>, memo: int, limit: nat): seq<Revision> {
    var own := Of(revisions, memo);
    if limit == 0 || |own| <= limit then revisions
    else Without(revisions, memo, own[|own| - 1 - limit].id)
  }

  function Inserted(s: State, u: Update, now: int): seq<Revision>
    requires Applies(u) && Found(s, u)
  {
    if Inserts(s, u, now) then s.revisions + [Snapshot(s.memos[u.memo], u, s.nextId, now)] else s.revisions
  }

  /** The state after capturing, or None when the memo is missing or in the trash. */
  function Captured(s: State, u: Update, now: int): Option<State> {
    if !Applies(u) then Some(s)
    else if !Found(s, u) then None
    else if !Changes(s.memos[u.memo], u) then Some(s)
    else
      var m := s.memos[u.memo];
      Some(State(s.memos[u.memo := m.(editor := u.actor.value)],
                 Pruned(Inserted(s, u, now), u.memo, Clamp(u.limit.value)),
                 if Inserts(s, u, now) then s.nextId + 1 else s.nextId))
  }

  class History {
    var memos: map<int, Memo>
    var revisions: seq<Revision>
    var nextId: int

    function Value(): State
      reads this
    {
      State(memos, revisions, nextId)
    }

    constructor (s: State)
      ensures Value() == s
    {
      memos, revisions, nextId := s.memos, s.revisions, s.nextId;
    }

    method CaptureMemoRevision(u: Update, now: int) returns (ok: bool)
      modifies this
      ensures ok == Captured(old(Value()), u, now).Some?
      ensures Value() == if ok then Captured(old(Value()), u, now).value else old(Value())
    {
      if u.limit.None? || u.actor.None? || (u.content.None? && u.payload.None?) { return true; }
      if u.memo !in memos || memos[u.memo].deleted { return false; }
      var row := memos[u.memo];
      var changed := (u.content.Some? && u.content.value != row.content)
                  || (u.payload.Some? && u.payload.value.title != row.payload.title);
      if !changed { return true; }
      var limit := Clamp(u.limit.value);
      var coalesce := CoalescesWithNewest(u.memo, u.actor.value, now);
      if limit > 0 && (!coalesce || u.force) {
        revisions := revisions + [Snapshot(row, u, nextId, now)];
        nextId := nextId + 1;
      }
      Prune(u.memo, limit);
      memos := memos[u.memo := row.(editor := u.actor.value)];
      ok := true;
    }

    /** The newest revision of the memo, if there is one, decides. */
    method CoalescesWithNewest(memo: int, actor: int, now: int) returns (r: bool)
      ensures r == Coalesces(Of(revisions, memo), actor, now)
    {
      var own := Of(revisions, memo);
      if own == [] { return false; }
      var last := own[|own| - 1];
      r := last.savedBy == actor && now - last.created < MERGE_WINDOW;
    }

    /** Finds the threshold revision, then deletes from it down. */
    method Prune(memo: int, limit: nat)
      modifies this`revisions
      ensures revisions == Pruned(old(revisions), memo, limit)
    {
      if limit > 0 {
        var own := Of(revisions, memo);
        if |own| > limit {
          var cutoff := own[|own| - 1 - limit].id;
          revisions := Without(revisions, memo, cutoff);
        }
      }
    }
  }

  // What a capture leaves.

  predicate Increasing(revisions: seq<Revision>) {
    forall i, j :: 0 <= i < j < |revisions| ==> revisions[i].id < revisions[j].id
  }

  /** Identifiers are given out in order. */
  predicate Numbered(s: State) {
    Increasing(s.revisions) && forall x :: x in s.revisions ==> x.id < s.nextId
  }

  /** Entries of `part` come from `whole`, in increasing order. */
  predicate Sorted(part: seq<Revision>, whole: seq<Revision>) {
    Increasing(part) && forall x :: x in part ==> x in whole
  }

  lemma SortedSnoc(part: seq<Revision>, whole: seq<Revision>, last: Revision)
    requires Sorted(part, whole) && Increasing(whole + [last])
    ensures Sorted(part, whole + [last]) && Sorted(part + [last], whole + [last])
  {
    forall i | 0 <= i < |part|
      ensures part[i].id < last.id
    {
      assert part[i] in whole;
      var k :| 0 <= k < |whole| && whole[k] == part[i];
      assert (whole + [last])[k].id < (whole + [last])[|whole|].id;
    }
  }

  lemma IncreasingInit(init: seq<Revision>, last: Revision)
    requires Increasing(init + [last])
    ensures Increasing(init)
  {
    assert forall i :: 0 <= i < |init| ==> (init + [last])[i] == init[i];
  }

  lemma {:induction false} QueriesSorted(revisions: seq<Revision>, memo: int, cutoff: int)
    requires Increasing(revisions)
    ensures Sorted(Of(revisions, memo), revisions) && Sorted(Without(revisions, memo, cutoff), revisions)
    decreases |revisions|
  {
    if revisions != [] {
      var n := |revisions| - 1;
      assert revisions == revisions[..n] + [revisions[n]];
      IncreasingInit(revisions[..n], revisions[n]);
      QueriesSorted(revisions[..n], memo, cutoff);
      SortedSnoc(Of(revisions[..n], memo), revisions[..n], revisions[n]);
      SortedSnoc(Without(revisions[..n], memo, cutoff), revisions[..n], revisions[n]);
    }
  }

  lemma OfSnoc(revisions: seq<Revision>, x: Revision, memo: int)
    ensures Of(revisions + [x], memo) == if x.memo == memo then Of(revisions, memo) + [x] else Of(revisions, memo)
  {
  }

  /** The memo's history becomes `own`; the other memo's is as before. */
  predicate Leaves(before: seq<Revision>, after: seq<Revision>, memo: int, own: seq<Revision>, other: int) {
    Of(after, memo) == own && (other != memo ==> Of(after, other) == Of(before, other))
  }

  /** Deleting up to the k-th oldest revision of a memo leaves the later ones, and other memos alone. */
  lemma {:induction false} DeletesUpTo(revisions: seq<Revision>, memo: int, own: seq<Revision>, k: nat, other: int)
    requires Increasing(revisions) && own == Of(revisions, memo) && k < |own|
    ensures Leaves(revisions, Without(revisions, memo, own[k].id), memo, own[k + 1..], other)
    decreases |revisions|
  {
    var n := |revisions| - 1;
    var last, init := revisions[n], revisions[..n];
    var earlier, cutoff := Of(init, memo), own[k].id;
    assert revisions == init + [last];
    IncreasingInit(init, last);
    QueriesSorted(init, memo, cutoff);
    if k < |earlier| {
      assert own[k] == earlier[k] && earlier[k] in init;
      DeletesUpTo(init, memo, earlier, k, other);
      LeavesSnoc(init, Without(init, memo, cutoff), memo, earlier[k + 1..], other, last);
      assert own[k + 1..] == if last.memo == memo then earlier[k + 1..] + [last] else earlier[k + 1..];
      assert Without(revisions, memo, cutoff) == Without(init, memo, cutoff) + [last];
    } else {
      assert own[k] == last;
      DeletesAll(init, memo, cutoff, other);
      assert Without(revisions, memo, cutoff) == Without(init, memo, cutoff);
      assert own[k + 1..] == [];
    }
  }

  lemma LeavesSnoc(before: seq<Revision>, after: seq<Revision>, memo: int, own: seq<Revision>, other: int,
                   last: Revision)
    requires Leaves(before, after, memo, own, other)
    ensures Leaves(before + [last], after + [last], memo, if last.memo == memo then own + [last] else own, other)
  {
  }

  lemma {:induction false} DeletesAll(revisions: seq<Revision>, memo: int, cutoff: int, other: int)
    requires forall x :: x in revisions ==> x.id <= cutoff
    ensures Leaves(revisions, Without(revisions, memo, cutoff), memo, [], other)
    decreases |revisions|
  {
    if revisions != [] {
      var n := |revisions| - 1;
      assert revisions == revisions[..n] + [revisions[n]];
      DeletesAll(revisions[..n], memo, cutoff, other);
      LeavesSnoc(revisions[..n], Without(revisions[..n], memo, cutoff), memo, [], other, revisions[n]);
    }
  }

  /** The last `limit` entries, or all of them; a limit of zero keeps all. */
  function Newest(own: seq<Revision>, limit: nat): seq<Revision> {
    if limit == 0 || |own| <= limit then own else own[|own| - limit..]
  }

  lemma PrunedSorted(revisions: seq<Revision>, memo: int, limit: nat)
    requires Increasing(revisions)
    ensures Sorted(Pruned(revisions, memo, limit), revisions)
  {
    var own := Of(revisions, memo);
    if limit > 0 && |own| > limit {
      QueriesSorted(revisions, memo, own[|own| - 1 - limit].id);
    }
  }

  lemma PrunedCorrect(revisions: seq<Revision>, memo: int, limit: nat, other: int)
    requires Increasing(revisions)
    ensures Leaves(revisions, Pruned(revisions, memo, limit), memo, Newest(Of(revisions, memo), limit), other)
  {
    var own, after := Of(revisions, memo), Pruned(revisions, memo, limit);
    var kept := Newest(own, limit);
    if limit == 0 || |own| <= limit {
      assert after == revisions && kept == own;
    } else {
      var k := |own| - 1 - limit;
      DeletesUpTo(revisions, memo, own, k, other);
      assert after == Without(revisions, memo, own[k].id) && kept == own[k + 1..];
    }
  }

  /** The memo's history with the snapshot of its former content, if one is taken. */
  function Extended(s: State, u: Update, now: int): seq<Revision>
    requires Applies(u) && Found(s, u)
  {
    var own := Of(s.revisions, u.memo);
    if Inserts(s, u, now) then own + [Snapshot(s.memos[u.memo], u, s.nextId, now)] else own
  }

  /** The table entries of a memo, in order. */
  lemma {:induction false} OfIs(revisions: seq<Revision>, memo: int, x: Revision)
    requires Increasing(revisions)
    ensures x in Of(revisions, memo) <==> x in revisions && x.memo == memo
    ensures Increasing(Of(revisions, memo))
    decreases |revisions|
  {
    QueriesSorted(revisions, memo, 0);
    if revisions != [] {
      var n := |revisions| - 1;
      assert revisions == revisions[..n] + [revisions[n]];
      IncreasingInit(revisions[..n], revisions[n]);
      OfIs(revisions[..n], memo, x);
    }
  }

  /** A snapshot is due: history is kept at all, and it is forced or the memo's newest one is another user's or at least
      ten minutes old. */
  predicate Due(own: seq<Revision>, u: Update, now: int) {
    && u.limit.Some? && u.limit.value > 0 && u.actor.Some?
    && (u.force || own == [] || own[|own| - 1].savedBy != u.actor.value || now - own[|own| - 1].created >= 600)
  }

  /** The revision records the memo as it was, for the user who changes it. */
  predicate Records(x: Revision, m: Memo, u: Update, id: int, now: int) {
    && x.content == m.content && x.payload == m.payload.text && x.visibility == m.visibility && x.editor == m.editor
    && x.memo == u.memo && u.actor == Some(x.savedBy) && x.created == now && x.id == id
  }

  /** At most this many revisions of a memo are kept. */
  function Bound(limit: int): nat { if limit <= 0 then 0 else if limit <= 200 then limit else 200 }

  /** What a memo's history becomes: with a snapshot due, the newest entries up to the limit, the last of them the memo
      as it was; without one, the newest up to the limit; untouched by a limit of zero. */
  predicate Kept(before: seq<Revision>, after: seq<Revision>, m: Memo, u: Update, id: int, now: int)
    requires u.limit.Some?
  {
    var n := Bound(u.limit.value);
    if Due(before, u, now) then
      && |after| == (if |before| + 1 <= n then |before| + 1 else n) && after != []
      && Records(after[|after| - 1], m, u, id, now)
      && |after| - 1 <= |before| && after[..|after| - 1] == before[|before| + 1 - |after|..]
    else
      after == if n == 0 || |before| <= n then before else before[|before| - n..]
  }

  /** A capture that changes the memo keeps its history so, touches no other memo's, and makes the actor the memo's last
      editor. */
  lemma CaptureCorrect(s: State, u: Update, now: int, other: int)
    requires Numbered(s) && Applies(u) && Found(s, u) && Changes(s.memos[u.memo], u)
    ensures Captured(s, u, now).Some? && Numbered(Captured(s, u, now).value)
    ensures var m, after := s.memos[u.memo], Captured(s, u, now).value;
      && Kept(Of(s.revisions, u.memo), Of(after.revisions, u.memo), m, u, s.nextId, now)
      && (other != u.memo ==> Of(after.revisions, other) == Of(s.revisions, other))
      && after.memos == s.memos[u.memo := Memo(m.content, m.payload, m.visibility, u.actor.value, m.deleted)]
      && after.nextId == s.nextId + (if Due(Of(s.revisions, u.memo), u, now) then 1 else 0)
  {
    CaptureShape(s, u, now, other);
    KeptNewest(s, u, now);
  }

  lemma CaptureShape(s: State, u: Update, now: int, other: int)
    requires Numbered(s) && Applies(u) && Found(s, u) && Changes(s.memos[u.memo], u)
    ensures Captured(s, u, now).Some? && Numbered(Captured(s, u, now).value)
    ensures var after, limit := Captured(s, u, now).value.revisions, Clamp(u.limit.value);
      && Of(after, u.memo) == Newest(Extended(s, u, now), limit)
      && (other != u.memo ==> Of(after, other) == Of(s.revisions, other))
  {
    var x, all := Snapshot(s.memos[u.memo], u, s.nextId, now), Inserted(s, u, now);
    OfSnoc(s.revisions, x, u.memo);
    OfSnoc(s.revisions, x, other);
    assert Increasing(all) by {
      assert forall i :: 0 <= i < |s.revisions| ==> s.revisions[i] in s.revisions;
    }
    PrunedSorted(all, u.memo, Clamp(u.limit.value));
    PrunedCorrect(all, u.memo, Clamp(u.limit.value), other);
  }

  lemma KeptNewest(s: State, u: Update, now: int)
    requires Applies(u) && Found(s, u)
    ensures Kept(Of(s.revisions, u.memo), Newest(Extended(s, u, now), Clamp(u.limit.value)), s.memos[u.memo], u,
                 s.nextId, now)
  {
    var own, n := Of(s.revisions, u.memo), Clamp(u.limit.value);
    if Inserts(s, u, now) {
      var x := Snapshot(s.memos[u.memo], u, s.nextId, now);
      var after := Newest(own + [x], n);
      assert after[|after| - 1] == x;
      assert after[..|after| - 1] == own[|own| + 1 - |after|..];
    }
  }

  /** An update that carries no limit, actor, content or payload, or changes neither content nor title, is no capture;
      one of a missing or deleted memo fails; any other is one. */
  lemma CaptureHappensIff(s: State, u: Update, now: int)
    ensures var given := u.limit.Some? && u.actor.Some? && (u.content.Some? || u.payload.Some?);
      var live := u.memo in s.memos && !s.memos[u.memo].deleted;
      && (Captured(s, u, now).None? <==> given && !live)
      && (given && live ==>
            var m := s.memos[u.memo];
            if (u.content == None || u.content == Some(m.content))
               && (u.payload.None? || u.payload.value.title == m.payload.title)
            then Captured(s, u, now) == Some(s)
            else Applies(u) && Found(s, u) && Changes(m, u))
      && (!given ==> Captured(s, u, now) == Some(s))
  {
  }

  // Runs.

  /** Neighbouring snapshots by one user are at least the merge window apart. */
  predicate Spaced(own: seq<Revision>) {
    forall i :: 0 <= i < |own| - 1 && own[i].savedBy == own[i + 1].savedBy ==>
      own[i + 1].created - own[i].created >= MERGE_WINDOW
  }

  ghost predicate Tidy(s: State) {
    Numbered(s) && forall memo :: Spaced(Of(s.revisions, memo))
  }

  lemma SpacedNewest(own: seq<Revision>, n: nat)
    requires Spaced(own)
    ensures Spaced(Newest(own, n))
  {
  }

  lemma ExtendedSpaced(s: State, u: Update, now: int)
    requires Applies(u) && Found(s, u) && !u.force && Spaced(Of(s.revisions, u.memo))
    ensures Spaced(Extended(s, u, now))
  {
  }

  lemma CaptureStaysTidy(s: State, u: Update, now: int)
    requires Tidy(s) && !u.force && Captured(s, u, now).Some?
    ensures Tidy(Captured(s, u, now).value)
  {
    if Applies(u) && Changes(s.memos[u.memo], u) {
      var after := Captured(s, u, now).value;
      CaptureShape(s, u, now, u.memo);
      ExtendedSpaced(s, u, now);
      SpacedNewest(Extended(s, u, now), Clamp(u.limit.value));
      forall memo
        ensures Spaced(Of(after.revisions, memo))
      {
        CaptureShape(s, u, now, memo);
      }
    }
  }

  datatype Event = Event(update: Update, now: int)

  /** A failed capture leaves the state as it was. */
  function Run(s: State, events: seq<Event>): State
    decreases |events|
  {
    if events == [] then s
    else
      var e := events[0];
      Run(match Captured(s, e.update, e.now) case Some(t) => t case None => s, events[1..])
  }

  /** In every run of unforced captures, whatever the clock does, one user's neighbouring snapshots of a memo stay
      at least ten minutes apart. */
  lemma {:induction false} EveryRunIsTidy(s: State, events: seq<Event>)
    requires Tidy(s) && forall e :: e in events ==> !e.update.force
    ensures Tidy(Run(s, events))
    decreases |events|
  {
    if events != [] {
      var e := events[0];
      assert e in events;
      if Captured(s, e.update, e.now).Some? {
        CaptureStaysTidy(s, e.update, e.now);
        EveryRunIsTidy(Captured(s, e.update, e.now).value, events[1..]);
      } else {
        EveryRunIsTidy(s, events[1..]);
      }
    }
  }
}
