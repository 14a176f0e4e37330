/** The comment tree of a memo: breadth-first closure over COMMENT relations, on any finite graph. */
module MemoTree {
  import opened Wrappers

  datatype RelationKind = Comment | Reference

  /** `memo` comments on (or refers to) `related`. */
  datatype Relation = Relation(memo: int, related: int, kind: RelationKind)

  predicate IsChild(rows: seq<Relation>, child: int, parent: int) {
    Relation(child, parent, Comment) in rows
  }

  /** A chain of comments from `p[0]` down to the last element. */
  predicate IsPath(rows: seq<Relation>, p: seq<int>) {
    p != [] && forall i :: 0 <= i < |p| - 1 ==> IsChild(rows, p[i + 1], p[i])
  }

  ghost predicate Reachable(rows: seq<Relation>, root: int, x: int) {
    exists p :: IsPath(rows, p) && p[0] == root && p[|p| - 1] == x
  }

  function Members(rows: seq<Relation>): set<int> { set r | r in rows :: r.memo }

  /** The tree as a set. */
  ghost function Tree(rows: seq<Relation>, root: int): set<int> {
    set x | x in Members(rows) + {root} && Reachable(rows, root, x)
  }

  lemma ReachableRoot(rows: seq<Relation>, root: int)
    ensures Reachable(rows, root, root) && root in Tree(rows, root)
  {
    assert IsPath(rows, [root]) && [root][0] == root;
  }

  lemma ReachableChild(rows: seq<Relation>, root: int, x: int, child: int)
    requires Reachable(rows, root, x) && IsChild(rows, child, x)
    ensures Reachable(rows, root, child)
  {
    var p :| IsPath(rows, p) && p[0] == root && p[|p| - 1] == x;
    var q := p + [child];
    assert IsPath(rows, q) && q[0] == root && q[|q| - 1] == child;
  }

  /** Everything reachable except the root is reached through a reachable parent. */
  lemma ReachableParent(rows: seq<Relation>, root: int, x: int) returns (parent: int)
    requires Reachable(rows, root, x) && x != root
    ensures Reachable(rows, root, parent) && IsChild(rows, x, parent)
  {
    var p :| IsPath(rows, p) && p[0] == root && p[|p| - 1] == x;
    assert |p| > 1;
    var q := p[..|p| - 1];
    parent := q[|q| - 1];
    assert IsPath(rows, q) && q[0] == root;
  }

  lemma TreeIsReachable(rows: seq<Relation>, root: int, x: int)
    ensures x in Tree(rows, root) <==> Reachable(rows, root, x)
  {
    if Reachable(rows, root, x) && x != root {
      var parent := ReachableParent(rows, root, x);
      assert Relation(x, parent, Comment) in rows;
    }
  }

  /** A set that holds the root and every child of its members holds everything reachable. */
  lemma {:induction false} ClosedHoldsPath(rows: seq<Relation>, s: set<int>, p: seq<int>)
    requires IsPath(rows, p) && p[0] in s
    requires forall x, c :: x in s && IsChild(rows, c, x) ==> c in s
    ensures p[|p| - 1] in s
    decreases |p|
  {
    if |p| > 1 {
      assert IsChild(rows, p[1], p[0]);
      forall i | 0 <= i < |p[1..]| - 1
        ensures IsChild(rows, p[1..][i + 1], p[1..][i])
      {
        assert IsChild(rows, p[i + 2], p[i + 1]);
      }
      ClosedHoldsPath(rows, s, p[1..]);
    }
  }

  function QueryChildren(rows: seq<Relation>, id: int): (r: seq<int>)
    ensures forall c :: c in r <==> IsChild(rows, c, id)
  {
    if rows == [] then []
    else
      (if rows[0].related == id && rows[0].kind == Comment then [rows[0].memo] else [])
      + QueryChildren(rows[1..], id)
  }

  predicate Distinct(s: seq<int>) { forall i, j :: 0 <= i < j < |s| ==> s[i] != s[j] }

  lemma {:induction false} DistinctSize(s: seq<int>)
    requires Distinct(s)
    ensures |SetOf(s)| == |s|
    decreases |s|
  {
    if s != [] {
      var n := |s| - 1;
      DistinctSize(s[..n]);
      assert s == s[..n] + [s[n]];
      assert SetOf(s) == SetOf(s[..n]) + {s[n]};
      assert s[n] !in SetOf(s[..n]);
    }
  }

  lemma DistinctBound(s: seq<int>, universe: set<int>)
    requires Distinct(s) && SetOf(s) <= universe
    ensures |s| <= |universe|
  {
    DistinctSize(s);
    SubsetSize(SetOf(s), universe);
  }

  /** Exactly the memos reachable over COMMENT relations, the memo itself first, each once; cycles are harmless. */
  method MemoCommentTree(rows: seq<Relation>, id: int) returns (result: seq<int>)
    ensures result != [] && result[0] == id
    ensures Distinct(result)
    ensures forall x :: x in result <==> Reachable(rows, id, x)
  {
    result := [id];
    var seen: set<int> := {id};
    var i := 0;
    ghost var universe := Members(rows) + {id};
    ReachableRoot(rows, id);
    while i < |result|
      invariant 0 <= i <= |result| && result != [] && result[0] == id && Distinct(result)
      invariant seen == SetOf(result) && seen <= universe
      invariant forall x :: x in result ==> Reachable(rows, id, x)
      invariant forall j, c :: 0 <= j < i && IsChild(rows, c, result[j]) ==> c in result
      decreases |universe| - i
    {
      var children := QueryChildren(rows, result[i]);
      ghost var before := result;
      for k := 0 to |children|
        invariant before <= result && Distinct(result) && seen == SetOf(result) && seen <= universe
        invariant forall x :: x in result ==> Reachable(rows, id, x)
        invariant forall x :: x in before || x in children[..k] ==> x in result
      {
        var child := children[k];
        assert IsChild(rows, child, result[i]);
        if child !in seen {
          ReachableChild(rows, id, result[i], child);
          assert child in Members(rows) by { assert Relation(child, result[i], Comment) in rows; }
          seen := seen + {child};
          result := result + [child];
        }
      }
      forall j, c | 0 <= j <= i && IsChild(rows, c, result[j])
        ensures c in result
      {
        assert result[j] == before[j];
        if j == i {
          assert c in children;
        } else {
          assert IsChild(rows, c, before[j]) && c in before;
        }
      }
      DistinctBound(result, universe);
      i := i + 1;
    }
    forall x | Reachable(rows, id, x)
      ensures x in result
    {
      var p :| IsPath(rows, p) && p[0] == id && p[|p| - 1] == x;
      forall y, c | y in SetOf(result) && IsChild(rows, c, y)
        ensures c in SetOf(result)
      {
        var j :| 0 <= j < |result| && result[j] == y;
      }
      ClosedHoldsPath(rows, SetOf(result), p);
    }
  }
}
