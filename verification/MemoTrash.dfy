/** Trash for memos and their comments: batch soft delete, batch restore, and what every run keeps. */
module MemoTrash {
  import opened Wrappers
  import opened MemoTree

  datatype Memo = Memo(creator: int, deleted: Option<int>)

  datatype User = User(admin: bool, normal: bool)

  datatype Outcome = Done | PermissionDenied | NotFound | Conflict

  /** The tables a transaction works on, and a non-decreasing deletion clock. */
  datatype State = State(memos: map<int, Memo>, rows: seq<Relation>, users: map<int, User>, clock: int)

  predicate IsLive(s: State, id: int) { id in s.memos && s.memos[id].deleted.None? }

  predicate DeletedAt(s: State, id: int, at: int) { id in s.memos && s.memos[id].deleted == Some(at) }

  // The two batch operations.

  /** Marks the live memos of the tree with one timestamp. */
  ghost function SoftDeleted(s: State, id: int, at: int): State {
    s.(memos := map x | x in s.memos ::
         if x in Tree(s.rows, id) && s.memos[x].deleted.None? then s.memos[x].(deleted := Some(at)) else s.memos[x],
       clock := if at >= s.clock then at else s.clock)
  }

  /** Clears exactly that timestamp in the tree. */
  ghost function Restored(s: State, id: int, at: int): State {
    s.(memos := map x | x in s.memos ::
         if x in Tree(s.rows, id) && s.memos[x].deleted == Some(at) then s.memos[x].(deleted := None) else s.memos[x])
  }

  /** A parent of the memo is gone or in the trash. */
  predicate ParentUnavailable(s: State, id: int) {
    exists r :: r in s.rows && r.memo == id && r.kind == Comment && !IsLive(s, r.related)
  }

  /** Who may restore what, checked in the order the transaction does. */
  function RestoreOutcome(s: State, id: int, actor: int, admin: bool): Outcome {
    if actor !in s.users || !s.users[actor].normal then PermissionDenied
    else if id !in s.memos then NotFound
    else if s.memos[id].creator != actor && !(admin && s.users[actor].admin) then PermissionDenied
    else if s.memos[id].deleted.None? then Conflict
    else if ParentUnavailable(s, id) then Conflict
    else Done
  }

  class Store {
    var memos: map<int, Memo>
    var rows: seq<Relation>
    var users: map<int, User>
    ghost var clock: int

    ghost function Value(): State
      reads this
    {
      State(memos, rows, users, clock)
    }

    constructor (s: State)
      ensures Value() == s
    {
      memos, rows, users, clock := s.memos, s.rows, s.users, s.clock;
    }

    method SoftDeleteMemoSet(id: int, at: int)
      modifies this
      ensures Value() == SoftDeleted(old(Value()), id, at)
    {
      var ids := MemoCommentTree(rows, id);
      ghost var before := Value();
      for i := 0 to |ids|
        invariant rows == before.rows && users == before.users && clock == before.clock
        invariant memos.Keys == before.memos.Keys
        invariant forall x :: x in memos ==>
          memos[x] == if x in ids[..i] && before.memos[x].deleted.None?
                      then before.memos[x].(deleted := Some(at)) else before.memos[x]
      {
        var target := ids[i];
        if target in memos && memos[target].deleted.None? {
          memos := memos[target := memos[target].(deleted := Some(at))];
        }
      }
      clock := if at >= clock then at else clock;
      forall x
        ensures x in ids <==> x in Tree(rows, id)
      {
        TreeIsReachable(rows, id, x);
      }
      assert ids[..|ids|] == ids;
    }

    method RestoreDeletedMemo(id: int, actor: int, admin: bool) returns (r: Outcome)
      modifies this
      ensures r == RestoreOutcome(old(Value()), id, actor, admin)
      ensures Value() == if r == Done then Restored(old(Value()), id, old(memos[id].deleted.value)) else old(Value())
    {
      if actor !in users { return PermissionDenied; }
      if !users[actor].normal { return PermissionDenied; }
      var isAdmin := admin && users[actor].admin;
      if id !in memos { return NotFound; }
      if memos[id].creator != actor && !isAdmin { return PermissionDenied; }
      if memos[id].deleted.None? { return Conflict; }
      var at := memos[id].deleted.value;
      if exists p :: p in rows && p.memo == id && p.kind == Comment &&
                     !(p.related in memos && memos[p.related].deleted.None?) {
        assert ParentUnavailable(old(Value()), id);
        return Conflict;
      }
      var ids := MemoCommentTree(rows, id);
      ghost var before := Value();
      for i := 0 to |ids|
        invariant rows == before.rows && users == before.users && clock == before.clock
        invariant memos.Keys == before.memos.Keys
        invariant forall x :: x in memos ==>
          memos[x] == if x in ids[..i] && before.memos[x].deleted == Some(at)
                      then before.memos[x].(deleted := None) else before.memos[x]
      {
        var target := ids[i];
        if target in memos && memos[target].deleted == Some(at) {
          memos := memos[target := memos[target].(deleted := None)];
        }
      }
      forall x
        ensures x in ids <==> x in Tree(rows, id)
      {
        TreeIsReachable(rows, id, x);
      }
      assert ids[..|ids|] == ids;
      r := Done;
    }
  }

  /** An active user may restore what they wrote; an administrator acting as one may restore any memo. */
  predicate MayRestore(s: State, id: int, actor: int, admin: bool) {
    && actor in s.users && s.users[actor].normal && id in s.memos
    && (s.memos[id].creator == actor || (admin && s.users[actor].admin))
  }

  /** The memo is in the trash and everything it comments on is not. */
  ghost predicate CanReturn(s: State, id: int)
    requires id in s.memos
  {
    s.memos[id].deleted.Some? && forall p :: IsChild(s.rows, id, p) ==> IsLive(s, p)
  }

  /** What a restore answers, outcome by outcome. */
  lemma RestoreOutcomeIff(s: State, id: int, actor: int, admin: bool)
    ensures var r := RestoreOutcome(s, id, actor, admin);
      && (r == Done <==> MayRestore(s, id, actor, admin) && CanReturn(s, id))
      && (r == Conflict <==> MayRestore(s, id, actor, admin) && !CanReturn(s, id))
      && (r == NotFound <==> actor in s.users && s.users[actor].normal && id !in s.memos)
  {
    assert forall r :: r in s.rows && r.memo == id && r.kind == Comment ==> IsChild(s.rows, id, r.related);
  }

  /** Deleting marks the memos reached from the target over comment edges that were not yet marked, and no others. */
  lemma DeletedIff(s: State, id: int, at: int, x: int)
    ensures var t := SoftDeleted(s, id, at);
      && t.memos.Keys == s.memos.Keys && t.rows == s.rows && t.users == s.users
      && t.clock >= s.clock && t.clock >= at && (t.clock == s.clock || t.clock == at)
      && (x in s.memos ==> t.memos[x].creator == s.memos[x].creator)
      && (x in s.memos && Reachable(s.rows, id, x) && s.memos[x].deleted.None? ==> t.memos[x].deleted == Some(at))
      && (x in s.memos && !(Reachable(s.rows, id, x) && s.memos[x].deleted.None?) ==> t.memos[x] == s.memos[x])
  {
    TreeIsReachable(s.rows, id, x);
  }

  /** Restoring unmarks the memos reached that carry the target's own timestamp, and no others. */
  lemma RestoredIff(s: State, id: int, at: int, x: int)
    ensures var t := Restored(s, id, at);
      && t.memos.Keys == s.memos.Keys && t.rows == s.rows && t.users == s.users && t.clock == s.clock
      && (x in s.memos ==> t.memos[x].creator == s.memos[x].creator)
      && (x in s.memos && Reachable(s.rows, id, x) && s.memos[x].deleted == Some(at) ==> IsLive(t, x))
      && (x in s.memos && !(Reachable(s.rows, id, x) && s.memos[x].deleted == Some(at)) ==> t.memos[x] == s.memos[x])
  {
    TreeIsReachable(s.rows, id, x);
  }

  // Runs.

  datatype Op =
    | CreateMemo(id: int, creator: int)
    | CreateComment(id: int, creator: int, parent: int)
    | Refer(memo: int, related: int)
    | Delete(id: int, at: int)
    | Restore(id: int, actor: int, admin: bool)

  /** New memos take fresh, growing identifiers; comments need a live parent; the deletion clock never goes back. */
  predicate Enabled(s: State, op: Op) {
    match op
    case CreateMemo(id, _) => forall x :: x in s.memos ==> x < id
    case CreateComment(id, _, parent) => (forall x :: x in s.memos ==> x < id) && IsLive(s, parent)
    case Refer(_, _) => true
    case Delete(_, at) => at >= s.clock
    case Restore(_, _, _) => true
  }

  ghost function Apply(s: State, op: Op): State {
    match op
    case CreateMemo(id, creator) => s.(memos := s.memos[id := Memo(creator, None)])
    case CreateComment(id, creator, parent) =>
      s.(memos := s.memos[id := Memo(creator, None)], rows := s.rows + [Relation(id, parent, Comment)])
    case Refer(memo, related) => s.(rows := s.rows + [Relation(memo, related, Reference)])
    case Delete(id, at) => SoftDeleted(s, id, at)
    case Restore(id, actor, admin) =>
      if RestoreOutcome(s, id, actor, admin) == Done then Restored(s, id, s.memos[id].deleted.value) else s
  }

  ghost predicate IsRun(s: State, ops: seq<Op>)
    decreases |ops|
  {
    ops == [] || (Enabled(s, ops[0]) && IsRun(Apply(s, ops[0]), ops[1..]))
  }

  ghost function Run(s: State, ops: seq<Op>): State
    decreases |ops|
  {
    if ops == [] then s else Run(Apply(s, ops[0]), ops[1..])
  }

  /** Comments form a forest: one parent each, created before them. */
  ghost predicate Forest(s: State) {
    && (forall c, p :: IsChild(s.rows, c, p) ==> c in s.memos && p in s.memos && p < c)
    && (forall c, p, q :: IsChild(s.rows, c, p) && IsChild(s.rows, c, q) ==> p == q)
  }

  /** Along a comment edge: a trashed parent has a trashed child, no later than itself. */
  predicate EdgeOrdered(s: State, child: int, parent: int)
    requires child in s.memos && parent in s.memos
  {
    s.memos[parent].deleted.Some? ==>
      s.memos[child].deleted.Some? && s.memos[child].deleted.value <= s.memos[parent].deleted.value
  }

  ghost predicate Invariant(s: State) {
    && Forest(s)
    && (forall c, p :: IsChild(s.rows, c, p) ==> EdgeOrdered(s, c, p))
    && (forall x :: x in s.memos && s.memos[x].deleted.Some? ==> s.memos[x].deleted.value <= s.clock)
  }

  lemma TreeChild(s: State, root: int, c: int, p: int)
    requires IsChild(s.rows, c, p) && p in Tree(s.rows, root)
    ensures c in Tree(s.rows, root)
  {
    TreeIsReachable(s.rows, root, p);
    ReachableChild(s.rows, root, p, c);
    TreeIsReachable(s.rows, root, c);
  }

  lemma TreeParent(s: State, root: int, c: int, p: int)
    requires Forest(s) && c in Tree(s.rows, root) && c != root && IsChild(s.rows, c, p)
    ensures p in Tree(s.rows, root)
  {
    TreeIsReachable(s.rows, root, c);
    var q := ReachableParent(s.rows, root, c);
    TreeIsReachable(s.rows, root, q);
  }

  lemma DeleteKeepsInvariant(s: State, id: int, at: int)
    requires Invariant(s) && at >= s.clock
    ensures Invariant(SoftDeleted(s, id, at))
  {
    var t := SoftDeleted(s, id, at);
    forall c, p | IsChild(t.rows, c, p)
      ensures EdgeOrdered(t, c, p)
    {
      assert IsChild(s.rows, c, p) && EdgeOrdered(s, c, p);
      if p in Tree(s.rows, id) {
        TreeChild(s, id, c, p);
      }
    }
  }

  /** Below a trashed memo everything is trashed, no later than it. */
  lemma {:induction false} TrashedBelow(s: State, id: int, x: int)
    requires Invariant(s) && id in s.memos && s.memos[id].deleted.Some? && x in Tree(s.rows, id)
    ensures x in s.memos && s.memos[x].deleted.Some? && s.memos[x].deleted.value <= s.memos[id].deleted.value
    ensures x >= id
    decreases x - id
  {
    if x != id {
      TreeIsReachable(s.rows, id, x);
      var p := ReachableParent(s.rows, id, x);
      TreeIsReachable(s.rows, id, p);
      TreeAbove(s, id, p);
      TrashedBelow(s, id, p);
      assert EdgeOrdered(s, x, p);
    }
  }

  /** Members of a tree are not older than its root. */
  lemma {:induction false} PathAbove(s: State, p: seq<int>)
    requires Forest(s) && IsPath(s.rows, p)
    ensures p[|p| - 1] >= p[0]
    decreases |p|
  {
    if |p| > 1 {
      var q := p[..|p| - 1];
      assert forall i :: 0 <= i < |q| ==> q[i] == p[i];
      assert IsPath(s.rows, q) by {
        forall i | 0 <= i < |q| - 1
          ensures IsChild(s.rows, q[i + 1], q[i])
        {
          assert IsChild(s.rows, p[i + 1], p[i]);
        }
      }
      PathAbove(s, q);
      assert IsChild(s.rows, p[|p| - 2 + 1], p[|p| - 2]);
    }
  }

  lemma TreeAbove(s: State, root: int, x: int)
    requires Forest(s) && x in Tree(s.rows, root)
    ensures x >= root
  {
    TreeIsReachable(s.rows, root, x);
    var p :| IsPath(s.rows, p) && p[0] == root && p[|p| - 1] == x;
    PathAbove(s, p);
  }

  lemma RestoreKeepsInvariant(s: State, id: int)
    requires Invariant(s) && id in s.memos && s.memos[id].deleted.Some? && !ParentUnavailable(s, id)
    ensures Invariant(Restored(s, id, s.memos[id].deleted.value))
  {
    var at := s.memos[id].deleted.value;
    var t := Restored(s, id, at);
    forall c, p | IsChild(t.rows, c, p)
      ensures EdgeOrdered(t, c, p)
    {
      assert IsChild(s.rows, c, p) && EdgeOrdered(s, c, p);
      if c in Tree(s.rows, id) && s.memos[c].deleted == Some(at) {
        if c == id {
          assert Relation(c, p, Comment) in s.rows && IsLive(s, p);
        } else {
          TreeParent(s, id, c, p);
          TrashedBelow(s, id, p);
        }
      }
    }
  }

  lemma AppendedRows(rows: seq<Relation>, r: Relation, c: int, p: int)
    ensures IsChild(rows + [r], c, p) <==> IsChild(rows, c, p) || r == Relation(c, p, Comment)
  {
  }

  lemma CreateKeepsInvariant(s: State, op: Op)
    requires Invariant(s) && Enabled(s, op) && (op.CreateMemo? || op.CreateComment? || op.Refer?)
    ensures Invariant(Apply(s, op))
  {
    var t := Apply(s, op);
    forall c, p
      ensures IsChild(t.rows, c, p) <==> IsChild(s.rows, c, p) || (op.CreateComment? && c == op.id && p == op.parent)
    {
      if op.CreateComment? { AppendedRows(s.rows, Relation(op.id, op.parent, Comment), c, p); }
      if op.Refer? { AppendedRows(s.rows, Relation(op.memo, op.related, Reference), c, p); }
    }
    forall c, p | IsChild(t.rows, c, p)
      ensures EdgeOrdered(t, c, p)
    {
      if IsChild(s.rows, c, p) { assert EdgeOrdered(s, c, p); }
    }
  }

  /** In every run a live comment has live parents, and a trashed child never outdates its trashed parent. */
  lemma {:induction false} EveryRunKeepsInvariant(s: State, ops: seq<Op>)
    requires Invariant(s) && IsRun(s, ops)
    ensures Invariant(Run(s, ops))
    decreases |ops|
  {
    if ops != [] {
      match ops[0] {
        case Delete(id, at) => DeleteKeepsInvariant(s, id, at);
        case Restore(id, actor, admin) =>
          if RestoreOutcome(s, id, actor, admin) == Done { RestoreKeepsInvariant(s, id); }
        case _ => CreateKeepsInvariant(s, ops[0]);
      }
      EveryRunKeepsInvariant(Apply(s, ops[0]), ops[1..]);
    }
  }

  lemma LiveCommentsHaveLiveParents(users: map<int, User>, ops: seq<Op>, c: int, p: int)
    requires IsRun(State(map[], [], users, 0), ops)
    ensures var s := Run(State(map[], [], users, 0), ops);
      IsChild(s.rows, c, p) ==>
        && (IsLive(s, c) ==> IsLive(s, p))
        && (forall tc, tp :: DeletedAt(s, c, tc) && DeletedAt(s, p, tp) ==> tc <= tp)
  {
    var s := Run(State(map[], [], users, 0), ops);
    EveryRunKeepsInvariant(State(map[], [], users, 0), ops);
    if IsChild(s.rows, c, p) { assert EdgeOrdered(s, c, p); }
  }

  /** Deleting a live memo and restoring it gives back the exact memos, exactly when no memo of its tree already
      carried the deletion's timestamp. The restore is never refused for the parents' sake. */
  lemma DeleteThenRestoreIff(s: State, id: int, at: int)
    requires Invariant(s) && at >= s.clock && IsLive(s, id)
    ensures var deleted := SoftDeleted(s, id, at);
      && DeletedAt(deleted, id, at)
      && !ParentUnavailable(deleted, id)
      && (Restored(deleted, id, at).memos == s.memos <==> !exists x :: x in Tree(s.rows, id) && DeletedAt(s, x, at))
  {
    var deleted := SoftDeleted(s, id, at);
    var back := Restored(deleted, id, at);
    ReachableRoot(s.rows, id);
    assert DeletedAt(deleted, id, at);
    forall r | r in s.rows && r.memo == id && r.kind == Comment
      ensures IsLive(deleted, r.related)
    {
      assert IsChild(s.rows, id, r.related) && EdgeOrdered(s, id, r.related);
      if r.related in Tree(s.rows, id) { TreeAbove(s, id, r.related); }
    }
    if x :| x in Tree(s.rows, id) && DeletedAt(s, x, at) {
      assert back.memos[x].deleted == None;
    } else {
      forall x | x in s.memos
        ensures back.memos[x] == s.memos[x]
      {
        if x in Tree(s.rows, id) { assert !DeletedAt(s, x, at); }
      }
    }
  }
}
