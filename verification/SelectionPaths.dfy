/**
 * What the skip walk of a selection block does, said in terms of paths of the dependency graph.
 */
module SelectionPaths {
  import opened Selection

  /** p is a path of dependents whose tasks, after the first one, the walk does not stop at. */
  ghost predicate IsPath(w: Walk, p: seq<int>)
    requires w.Ok()
  {
    && 0 < |p|
    && (forall j :: 0 <= j < |p| ==> 0 <= p[j] < |w.before| && w.rank[w.branch] <= w.rank[p[j]])
    && (forall j :: 0 < j < |p| ==> p[j] in w.before[p[j - 1]].dependents && !w.Stop(p[j]))
  }

  /** u is the skipped branch or can be reached from it without passing a stop. */
  ghost predicate Walked(w: Walk, u: int)
    requires w.Ok()
  {
    exists p :: IsPath(w, p) && p[0] == w.branch && p[|p| - 1] == u
  }

  lemma {:induction false} FollowedGrows(w: Walk, t: int, k: nat, k': nat)
    requires w.Ok() && 0 <= t < |w.before| && w.rank[w.branch] <= w.rank[t] && k <= k' <= |w.before[t].dependents|
    ensures w.Followed(t, k) <= w.Followed(t, k')
    decreases k'
  {
    if k < k' {
      FollowedGrows(w, t, k, k' - 1);
    }
  }

  /** A path of more than one task without its first task. */
  lemma PathRest(w: Walk, p: seq<int>)
    requires w.Ok() && IsPath(w, p) && |p| > 1
    ensures IsPath(w, p[1..]) && p[1..][|p| - 2] == p[|p| - 1] && !w.Stop(p[1])
  {
    hide Walk.Ok, Walk.Stop;
    var rest := p[1..];
    forall j | 0 < j < |rest|
      ensures rest[j] in w.before[rest[j - 1]].dependents && !w.Stop(rest[j])
    {
      assert rest[j] == p[j + 1] && rest[j - 1] == p[j];
    }
  }

  /** Every edge out of the end of a path is followed by the walk from its start. */
  lemma {:induction false} PathFollowed(w: Walk, p: seq<int>, i: int)
    requires w.Ok() && IsPath(w, p) && i in w.before[p[|p| - 1]].dependents
    ensures (p[|p| - 1], i) in w.Followed(p[0], |w.before[p[0]].dependents|)
    decreases |p|
  {
    var t := p[0];
    var row := w.before[t].dependents;
    var next := if |p| == 1 then i else p[1];
    var k :| 0 <= k < |row| && row[k] == next;
    if |p| > 1 {
      PathRest(w, p);
      PathFollowed(w, p[1..], i);
    }
    FollowedGrows(w, t, k + 1, |row|);
  }

  /** Every edge that the walk follows leaves the end of a path. */
  lemma {:induction false} FollowedPath(w: Walk, p: seq<int>, k: nat, e: (int, int))
    requires w.Ok() && IsPath(w, p) && p[0] == w.branch && k <= |w.before[p[|p| - 1]].dependents|
    requires e in w.Followed(p[|p| - 1], k)
    ensures Walked(w, e.0) && 0 <= e.0 < |w.before| && e.1 in w.before[e.0].dependents
    decreases w.top - w.rank[p[|p| - 1]], k
  {
    var t := p[|p| - 1];
    var i := w.before[t].dependents[k - 1];
    if e in w.Followed(t, k - 1) {
      FollowedPath(w, p, k - 1, e);
    } else if e != (t, i) {
      assert w.rank[w.branch] <= w.rank[i];
      assert IsPath(w, p + [i]);
      FollowedPath(w, p + [i], |w.before[i].dependents|, e);
    }
  }

  /** The walk follows exactly the edges that leave a walked task. */
  lemma EdgesFromWalked(w: Walk, u: int, i: int)
    requires w.Ok()
    ensures (u, i) in w.Edges() <==> Walked(w, u) && 0 <= u < |w.before| && i in w.before[u].dependents
  {
    if (u, i) in w.Edges() {
      FollowedPath(w, [w.branch], |w.before[w.branch].dependents|, (u, i));
    }
    if Walked(w, u) && 0 <= u < |w.before| && i in w.before[u].dependents {
      var p :| IsPath(w, p) && p[0] == w.branch && p[|p| - 1] == u;
      PathFollowed(w, p, i);
    }
  }

  /** A walked task comes no earlier than the branch. */
  lemma WalkedRank(w: Walk, u: int)
    requires w.Ok() && Walked(w, u)
    ensures 0 <= u < |w.before| && w.rank[w.branch] <= w.rank[u]
  {
    var p :| IsPath(w, p) && p[0] == w.branch && p[|p| - 1] == u;
  }

  /** A walked task other than the branch is entered from another walked task. */
  lemma WalkedInto(w: Walk, i: int) returns (u: int)
    requires w.Ok() && i != w.branch && Walked(w, i)
    ensures Walked(w, u) && 0 <= u < |w.before| && i in w.before[u].dependents
    ensures 0 <= i < |w.before| && !w.Stop(i)
  {
    hide Walk.Ok, Walk.Stop;
    var p :| IsPath(w, p) && p[0] == w.branch && p[|p| - 1] == i;
    PathFront(w, p);
    u := p[|p| - 2];
    assert p[..|p| - 1][0] == w.branch && p[..|p| - 1][|p| - 2] == u;
  }

  /** A path of more than one task without its last task. */
  lemma PathFront(w: Walk, p: seq<int>)
    requires w.Ok() && IsPath(w, p) && p[0] != p[|p| - 1]
    ensures 1 < |p| && IsPath(w, p[..|p| - 1]) && 0 <= p[|p| - 2] < |w.before| && 0 <= p[|p| - 1] < |w.before|
    ensures p[|p| - 1] in w.before[p[|p| - 2]].dependents && !w.Stop(p[|p| - 1])
  {
    hide Walk.Ok, Walk.Stop;
  }

  /** The walk goes on from a walked task to every dependent that is not a stop. */
  lemma WalkedOn(w: Walk, u: int, i: int)
    requires w.Ok() && Walked(w, u) && 0 <= u < |w.before| && i in w.before[u].dependents
    requires 0 <= i < |w.before| && !w.Stop(i)
    ensures Walked(w, i)
  {
    WalkedRank(w, u);
    var p :| IsPath(w, p) && p[0] == w.branch && p[|p| - 1] == u;
    var q := p + [i];
    assert IsPath(w, q);
    assert q[0] == w.branch && q[|q| - 1] == i;
  }

  /** A task other than the branch is reached by the walk, and is not a stop, exactly when it is walked. */
  lemma ReachedIsWalked(w: Walk, i: int)
    requires w.Ok() && 0 <= i < |w.before| && i != w.branch
    ensures Walked(w, i) <==> !w.Stop(i) && w.Reached(w.Edges(), i)
  {
    if Walked(w, i) {
      var u := WalkedInto(w, i);
      EdgesFromWalked(w, u, i);
    }
    if !w.Stop(i) && w.Reached(w.Edges(), i) {
      var u :| (u, i) in w.Edges();
      EdgesFromWalked(w, u, i);
      WalkedOn(w, u, i);
    }
  }

  /**
   * The walk gives the new status to exactly the tasks that can be reached from the skipped branch
   * without passing through a child branch or the endif of the chain.
   */
  lemma MarksExactlyTheBranch(w: Walk, tasks: seq<Task>, x: int, i: int)
    requires w.Ok() && w.After(w.Edges(), tasks, x) && 0 <= i < |w.before|
    ensures tasks[i].status == if i != w.branch && Walked(w, i) then w.status else w.before[i].status
  {
    assert w.TaskAfter(w.Edges(), i, tasks[i]);
    if i == w.branch {
      if w.Reached(w.Edges(), i) {
        var u :| (u, i) in w.Edges();
        EdgesFromWalked(w, u, i);
        WalkedRank(w, u);
        assert false;
      }
    } else {
      ReachedIsWalked(w, i);
    }
  }

  /**
   * A dropped endif waits for exactly as many dependencies less as there are distinct walked tasks
   * among its dependencies, and none of its dependencies names a walked task any more.
   */
  lemma EndIfForgetsTheBranch(w: Walk, tasks: seq<Task>, x: int, i: int)
    requires w.Ok() && w.After(w.Edges(), tasks, x) && 0 <= i < |w.before| && w.Dropped(i)
    requires w.before[w.branch].op != EndIf
    requires forall d :: 0 <= d < |w.before| ==> (d in w.before[i].deps <==> i in w.before[d].dependents)
    ensures tasks[i].residualDeps == w.before[i].residualDeps - |set d | d in w.before[i].deps && Walked(w, d)|
    ensures forall d :: d in tasks[i].deps ==> !Walked(w, d)
  {
    assert w.TaskAfter(w.Edges(), i, tasks[i]);
    forall d | d in w.before[i].deps
      ensures (d, i) in w.Edges() <==> Walked(w, d)
    {
      EdgesFromWalked(w, d, i);
      if Walked(w, d) {
        WalkedRank(w, d);
      }
    }
    assert w.Sources(w.Edges(), i) == set d | d in w.before[i].deps && Walked(w, d);
    forall d | d in tasks[i].deps
      ensures !Walked(w, d)
    {
      var j :| 0 <= j < |tasks[i].deps| && tasks[i].deps[j] == d;
      if (w.before[i].deps[j], i) in w.Edges() {
        NewDepNotWalked(w, i);
      }
    }
  }

  /** What a dropped dependency is replaced by is not a walked task. */
  lemma NewDepNotWalked(w: Walk, i: int)
    requires w.Ok() && 0 <= i < |w.before| && w.Dropped(i) && w.before[w.branch].op != EndIf
    ensures !Walked(w, w.NewDep(i))
  {
    if Walked(w, w.NewDep(i)) {
      WalkedRank(w, w.NewDep(i));
      var u := WalkedInto(w, i);
      assert false;
    }
  }

  /**
   * The only endif of a skipped branch waits for the branch instead of the walked tasks, and for as many dependencies
   * as before.
   */
  lemma OnlyEndIfWaitsForBranch(w: Walk, tasks: seq<Task>, x: int, i: int, j: nat)
    requires w.Ok() && w.After(w.Edges(), tasks, x) && 0 <= i < |w.before| && j < |w.before[i].deps|
    requires w.before[i].op == EndIf && w.before[i].parent == w.branch && w.before[i].branches <= 1
    requires forall d :: 0 <= d < |w.before| ==> (d in w.before[i].deps <==> i in w.before[d].dependents)
    ensures tasks[i].residualDeps == w.before[i].residualDeps && |tasks[i].deps| == |w.before[i].deps|
    ensures tasks[i].deps[j] == if Walked(w, w.before[i].deps[j]) then w.branch else w.before[i].deps[j]
  {
    assert w.TaskAfter(w.Edges(), i, tasks[i]);
    var d := w.before[i].deps[j];
    EdgesFromWalked(w, d, i);
    if Walked(w, d) {
      WalkedRank(w, d);
      assert d in w.before[i].deps;
    }
  }

  /** The walk meets the only endif of the skipped branch. */
  ghost predicate MeetsOnlyEndIf(w: Walk, u: int, i: int)
    requires w.Ok()
  {
    && 0 <= u < |w.before| && Walked(w, u) && i in w.before[u].dependents
    && 0 <= i < |w.before| && w.before[i].op == EndIf && w.before[i].parent == w.branch && w.before[i].branches <= 1
  }

  /** The exit output is reset exactly if an `if` that does not forward it is skipped and its only endif is met. */
  lemma ExitOutputIs(w: Walk, tasks: seq<Task>, x: int)
    requires w.Ok() && w.After(w.Edges(), tasks, x)
    ensures x ==
      if w.before[w.branch].op == If && !w.before[w.branch].forward && exists u, i :: MeetsOnlyEndIf(w, u, i)
      then 0 else w.exitBefore
  {
    hide Walked, IsPath;
    if e :| e in w.Edges() && w.Resets(e.1) {
      EdgesFromWalked(w, e.0, e.1);
      assert e == (e.0, e.1);
      assert MeetsOnlyEndIf(w, e.0, e.1);
    }
    if u, i :| MeetsOnlyEndIf(w, u, i) && w.before[w.branch].op == If && !w.before[w.branch].forward {
      EdgesFromWalked(w, u, i);
      assert (u, i) in w.Edges() && w.Resets((u, i).1);
    }
  }
}
