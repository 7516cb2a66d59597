/**
 * A whole if / elseif / else chain: running its branch tasks in order marks exactly the bodies of the branches
 * other than the first one whose condition holds.
 */
module SelectionChain {
  import opened Selection
  import opened SelectionPaths

  /** The index of the first condition that does not fail, or the number of conditions. */
  function FirstOpen(conditions: seq<Condition>): (n: nat)
    ensures n <= |conditions|
    ensures forall m :: 0 <= m < n ==> conditions[m] == Fails
    ensures n < |conditions| ==> conditions[n] != Fails
  {
    if conditions == [] || conditions[0] != Fails then 0 else 1 + FirstOpen(conditions[1..])
  }

  /** The tasks of a workflow before any branch of the chain has run, and the branch tasks in order. */
  datatype Chain = Chain(start: seq<Task>, rank: seq<nat>, top: nat, branches: seq<int>, conditions: seq<Condition>) {

    /** The walk that would skip branch m. */
    ghost function Skip(m: int): Walk
      requires 0 <= m < |branches|
    {
      SkipOf(start, 0, rank, top, branches[m], false)
    }

    /**
     * The chain starts with an `if` that is not skipped; each next branch is a child of the one before
     * it and is met by the walk that skips the one before it. An `else` has no condition.
     */
    ghost predicate Ok() {
      && 0 < |branches| == |conditions| && |rank| == |start|
      && (forall m :: 0 <= m < |branches| ==> 0 <= branches[m] < |start|)
      && (forall m :: 0 <= m < |branches| ==> Skip(m).Ok())
      && start[branches[0]].op == If && !start[branches[0]].skipped
      && (forall m :: 0 < m < |branches| ==>
            && start[branches[m]].op in {ElseIf, Else}
            && (start[branches[m]].op == Else ==> m == |branches| - 1 && conditions[m] == Holds)
            && start[branches[m]].parent == branches[m - 1]
            && Meets(m - 1, branches[m]))
    }

    ghost predicate Meets(m: int, i: int)
      requires 0 <= m < |branches| && Skip(m).Ok()
    {
      exists u :: Walked(Skip(m), u) && 0 <= u < |start| && i in start[u].dependents
    }

    /** Task t belongs to the body of branch m. */
    ghost predicate InBody(m: int, t: int)
      requires Ok() && 0 <= m < |branches|
    {
      t != branches[m] && Walked(Skip(m), t)
    }

    /** Task t belongs to the body of a branch, among the first n, other than the selected one. */
    ghost predicate Unselected(n: nat, t: int)
      requires Ok() && n <= |branches|
    {
      exists m :: 0 <= m < n && m != FirstOpen(conditions) && InBody(m, t)
    }

    /** The statuses after the first n branches have run. */
    ghost predicate Marked(n: nat, tasks: seq<Task>)
      requires Ok() && n <= |branches| && |tasks| == |start|
    {
      forall t :: 0 <= t < |start| ==> tasks[t].status == if Unselected(n, t) then UNSELECTED else start[t].status
    }

    /** The structure of the tasks, as the walk that skips branch n needs it. */
    ghost predicate Intact(n: nat, tasks: seq<Task>)
      requires Ok() && n <= |branches| && |tasks| == |start|
    {
      forall t :: 0 <= t < |start| ==>
        && Like(start[t], tasks[t])
        && (n < |branches| && rank[branches[n]] <= rank[t] ==> tasks[t].dependents == start[t].dependents)
    }

    /** The state of the workflow when the first n branches have run. */
    ghost predicate At(n: nat, tasks: seq<Task>)
      requires Ok() && n <= |branches|
    {
      && |tasks| == |start|
      && Intact(n, tasks)
      && Marked(n, tasks)
      && (n < |branches| ==> (tasks[branches[n]].skipped <==> FirstOpen(conditions) < n))
    }
  }

  ghost predicate Like(a: Task, b: Task) {
    b.op == a.op && b.parent == a.parent && b.branches == a.branches && |b.dependents| == |a.dependents|
  }

  /** What is walked depends only on the structure that a walk can reach. */
  lemma SameWalked(w: Walk, w': Walk, u: int)
    requires w.Ok() && w'.Ok() && w'.rank == w.rank && w'.branch == w.branch && |w'.before| == |w.before| &&
      w'.Root() == w.Root()
    requires forall t :: 0 <= t < |w.before| ==> Like(w.before[t], w'.before[t])
    requires forall t :: 0 <= t < |w.before| && w.rank[w.branch] <= w.rank[t] ==>
      w'.before[t].dependents == w.before[t].dependents
    ensures Walked(w, u) <==> Walked(w', u)
  {
    if Walked(w, u) {
      var p :| IsPath(w, p) && p[0] == w.branch && p[|p| - 1] == u;
      SamePath(w, w', p);
    }
    if Walked(w', u) {
      var p :| IsPath(w', p) && p[0] == w.branch && p[|p| - 1] == u;
      SamePath(w', w, p);
    }
  }

  lemma SamePath(w: Walk, w': Walk, p: seq<int>)
    requires w.Ok() && w'.Ok() && w'.rank == w.rank && w'.branch == w.branch && |w'.before| == |w.before| &&
      w'.Root() == w.Root()
    requires forall t :: 0 <= t < |w.before| ==> Like(w.before[t], w'.before[t])
    requires forall t :: 0 <= t < |w.before| && w.rank[w.branch] <= w.rank[t] ==>
      w'.before[t].dependents == w.before[t].dependents
    requires IsPath(w, p)
    ensures IsPath(w', p)
  {
    forall j | 0 < j < |p|
      ensures p[j] in w'.before[p[j - 1]].dependents && !w'.Stop(p[j])
    {
      assert 0 <= p[j - 1] < |w.before| && w.rank[w.branch] <= w.rank[p[j - 1]];
      assert Like(w.before[p[j]], w'.before[p[j]]);
    }
  }

  /** The walk of branch n, started in the state after n branches, walks what it would have walked at the start. */
  lemma WalkAt(c: Chain, n: nat, tasks: seq<Task>, w: Walk)
    requires c.Ok() && n < |c.branches| && |tasks| == |c.start| && c.Intact(n, tasks)
    requires w == SkipOf(tasks, w.exitBefore, c.rank, c.top, c.branches[n], w.skipNext)
    ensures w.Ok()
    ensures forall u :: Walked(w, u) <==> Walked(c.Skip(n), u)
  {
    hide Walked, IsPath, Walk.Stop, Chain.Meets;
    var v := c.Skip(n);
    forall t | 0 <= t < |c.start|
      ensures Like(c.start[t], tasks[t])
    {
    }
    OkKept(v, w);
    forall u
      ensures Walked(w, u) <==> Walked(v, u)
    {
      SameWalked(v, w, u);
    }
  }

  /** Skipping branch n unselects its body. */
  lemma SkippedMarks(c: Chain, n: nat, before: seq<Task>, w: Walk, tasks: seq<Task>, x: int)
    requires c.Ok() && n < |c.branches| && n != FirstOpen(c.conditions)
    requires |before| == |c.start| && c.Intact(n, before) && c.Marked(n, before)
    requires w == SkipOf(before, w.exitBefore, c.rank, c.top, c.branches[n], w.skipNext) && w.Ok()
    requires w.After(w.Edges(), tasks, x)
    ensures c.Marked(n + 1, tasks)
  {
    hide Walk.After, Walk.Ok, Walk.Edges, Walked, Chain.Ok, Chain.Intact, Chain.Unselected, Chain.Skip, FirstOpen;
    WalkAt(c, n, before, w);
    BranchKept(w, w.Edges(), tasks, x);
    forall t | 0 <= t < |c.start|
      ensures tasks[t].status == if c.Unselected(n + 1, t) then UNSELECTED else c.start[t].status
    {
      MarksExactlyTheBranch(w, tasks, x, t);
      OneMoreBody(c, n, t);
    }
  }

  lemma OneMoreBody(c: Chain, n: nat, t: int)
    requires c.Ok() && n < |c.branches|
    ensures c.Unselected(n + 1, t) <==> c.Unselected(n, t) || (n != FirstOpen(c.conditions) && c.InBody(n, t))
  {
  }

  /** Skipping branch n keeps the structure that the next branch needs. */
  lemma SkippedIntact(c: Chain, n: nat, before: seq<Task>, w: Walk, tasks: seq<Task>, x: int)
    requires c.Ok() && n < |c.branches| && |before| == |c.start| && c.Intact(n, before)
    requires w == SkipOf(before, w.exitBefore, c.rank, c.top, c.branches[n], w.skipNext) && w.Ok()
    requires w.After(w.Edges(), tasks, x)
    ensures c.Intact(n + 1, tasks)
  {
    forall t | 0 <= t < |c.start|
      ensures Like(c.start[t], tasks[t])
      ensures n + 1 < |c.branches| && c.rank[c.branches[n + 1]] <= c.rank[t] ==>
        tasks[t].dependents == c.start[t].dependents
    {
      assert w.TaskAfter(w.Edges(), t, tasks[t]);
      if n + 1 < |c.branches| {
        assert c.Skip(n).Ok();
        assert c.start[c.branches[n + 1]].parent == c.branches[n];
        assert c.rank[c.branches[n]] < c.rank[c.branches[n + 1]];
      }
    }
  }

  /** A child branch that the walk meets takes over the given mark. */
  lemma MetTakesMark(w: Walk, tasks: seq<Task>, x: int, u: int, i: int)
    requires w.Ok() && w.After(w.Edges(), tasks, x)
    requires Walked(w, u) && 0 <= u < |w.before| && i in w.before[u].dependents
    requires 0 <= i < |w.before| && w.before[i].parent == w.branch && w.before[i].op != EndIf
    ensures tasks[i].skipped == w.skipNext && i != w.branch
  {
    EdgesFromWalked(w, u, i);
    assert w.TaskAfter(w.Edges(), i, tasks[i]);
  }

  /** Skipping branch n passes the given mark to the next branch. */
  lemma SkippedNext(c: Chain, n: nat, before: seq<Task>, w: Walk, tasks: seq<Task>, x: int)
    requires c.Ok() && n + 1 < |c.branches| && |before| == |c.start| && c.Intact(n, before)
    requires w == SkipOf(before, w.exitBefore, c.rank, c.top, c.branches[n], w.skipNext) && w.Ok()
    requires w.After(w.Edges(), tasks, x)
    ensures tasks[c.branches[n + 1]].skipped == w.skipNext && c.branches[n + 1] != c.branches[n]
  {
    WalkAt(c, n, before, w);
    var i := c.branches[n + 1];
    assert c.Meets(n, i);
    var u :| Walked(c.Skip(n), u) && 0 <= u < |c.start| && i in c.start[u].dependents;
    WalkedRank(c.Skip(n), u);
    assert Like(c.start[i], before[i]) && before[u].dependents == c.start[u].dependents;
    hide Walk.After, Walk.Ok;
    MetTakesMark(w, tasks, x, u, i);
  }

  /** The same tasks, apart from the flags that the operators set on branch tasks. */
  ghost predicate SameButMarks(a: seq<Task>, b: seq<Task>) {
    && |a| == |b|
    && forall t :: 0 <= t < |a| ==> b[t] == a[t].(skipped := b[t].skipped, forward := b[t].forward)
  }

  /** Flags of branch tasks matter neither to the structure nor to the statuses. */
  lemma MarksOnly(c: Chain, n: nat, a: seq<Task>, b: seq<Task>)
    requires c.Ok() && n <= |c.branches| && |a| == |c.start| && SameButMarks(a, b) && c.Intact(n, a) && c.Marked(n, a)
    ensures c.Intact(n, b) && c.Marked(n, b)
  {
    hide Chain.Ok, Chain.Unselected;
    forall t | 0 <= t < |c.start|
      ensures Like(c.start[t], b[t])
    {
    }
  }

  lemma BranchInRange(c: Chain, n: nat)
    requires c.Ok() && n < |c.branches|
    ensures 0 <= c.branches[n] < |c.start| == |c.rank|
    ensures 0 < n ==> c.branches[n] != c.branches[n - 1]
  {
    if 0 < n {
      assert c.Skip(n).Ok() && c.start[c.branches[n]].parent == c.branches[n - 1];
    }
  }

  /** One branch skipped: the state after n branches becomes the state after n + 1. */
  lemma SkippedAt(c: Chain, n: nat, before: seq<Task>, entered: seq<Task>, w: Walk, tasks: seq<Task>,
      tasks': seq<Task>, x: int)
    requires c.Ok() && n < |c.branches| && n != FirstOpen(c.conditions) && c.At(n, before)
    requires SameButMarks(before, entered) && SameButMarks(tasks, tasks')
    requires forall t :: 0 <= t < |tasks| && t != c.branches[n] && |tasks'| == |tasks| ==> tasks'[t] == tasks[t]
    requires w == SkipOf(entered, w.exitBefore, c.rank, c.top, c.branches[n], w.skipNext) && w.Ok()
    requires |tasks| == |entered| && w.After(w.Edges(), tasks, x)
    requires w.skipNext <==> FirstOpen(c.conditions) < n
    ensures c.At(n + 1, tasks')
  {
    hide Walk.After, Walk.Ok, Chain.Ok, Chain.Intact, Chain.Marked, FirstOpen;
    MarksOnly(c, n, before, entered);
    SkippedMarks(c, n, entered, w, tasks, x);
    SkippedIntact(c, n, entered, w, tasks, x);
    MarksOnly(c, n + 1, tasks, tasks');
    if n + 1 < |c.branches| {
      BranchInRange(c, n + 1);
      SkippedNext(c, n, entered, w, tasks, x);
    }
  }

  /** The selected branch adds nothing to the unselected tasks. */
  lemma SelectedMarks(c: Chain, n: nat, tasks: seq<Task>)
    requires c.Ok() && n < |c.branches| && n == FirstOpen(c.conditions) && |tasks| == |c.start| && c.Marked(n, tasks)
    ensures c.Marked(n + 1, tasks)
  {
    hide Chain.Ok, Chain.InBody, Chain.Unselected, FirstOpen;
    forall t | 0 <= t < |c.start|
      ensures c.Unselected(n + 1, t) == c.Unselected(n, t)
    {
      OneMoreBody(c, n, t);
    }
  }

  lemma NextComesLater(c: Chain, n: nat)
    requires c.Ok() && n + 1 < |c.branches|
    ensures 0 <= c.branches[n] < |c.rank| && 0 <= c.branches[n + 1] < |c.rank|
    ensures c.rank[c.branches[n]] < c.rank[c.branches[n + 1]]
  {
    assert c.start[c.branches[n + 1]].parent == c.branches[n] && c.Skip(n).Ok();
  }

  /** What branch n can rely on, the next branch can. */
  lemma IntactNext(c: Chain, n: nat, tasks: seq<Task>)
    requires c.Ok() && n < |c.branches| && |tasks| == |c.start| && c.Intact(n, tasks)
    ensures c.Intact(n + 1, tasks)
  {
    if n + 1 < |c.branches| {
      NextComesLater(c, n);
    }
  }

  /** The selected branch: nothing is unselected, and the next branch will be skipped. */
  lemma SelectedAt(c: Chain, n: nat, before: seq<Task>, tasks: seq<Task>)
    requires c.Ok() && n < |c.branches| && n == FirstOpen(c.conditions) && c.At(n, before)
    requires SameButMarks(before, tasks)
    requires n + 1 < |c.branches| ==> 0 <= c.branches[n + 1] < |tasks| && tasks[c.branches[n + 1]].skipped
    ensures c.At(n + 1, tasks)
  {
    hide Chain.Ok, Chain.Intact, Chain.Marked, FirstOpen;
    MarksOnly(c, n, before, tasks);
    SelectedMarks(c, n, tasks);
    IntactNext(c, n, tasks);
  }

  /** What is known of branch n when its turn comes. */
  lemma TurnOf(c: Chain, n: nat, tasks: seq<Task>)
    requires c.Ok() && n < |c.branches| && c.At(n, tasks)
    ensures 0 <= c.branches[n] < |tasks| == |c.start| == |c.rank| && |c.conditions| == |c.branches|
    ensures tasks[c.branches[n]].op == c.start[c.branches[n]].op
    ensures tasks[c.branches[n]].skipped <==> FirstOpen(c.conditions) < n
    ensures !tasks[c.branches[n]].skipped ==> (c.conditions[n] == Fails <==> n != FirstOpen(c.conditions))
    ensures tasks[c.branches[n]].op == Else ==> n + 1 == |c.branches| && c.conditions[n] == Holds
    ensures c.Intact(n, tasks) && c.Marked(n, tasks)
    ensures n + 1 < |c.branches| ==>
              && 0 <= c.branches[n + 1] < |tasks| && c.branches[n + 1] != c.branches[n]
              && tasks[c.branches[n + 1]].parent == c.branches[n] && tasks[c.branches[n + 1]].op != EndIf
  {
    BranchInRange(c, n);
    assert Like(c.start[c.branches[n]], tasks[c.branches[n]]);
    if n + 1 < |c.branches| {
      BranchInRange(c, n + 1);
      assert Like(c.start[c.branches[n + 1]], tasks[c.branches[n + 1]]);
    }
  }

  /** OPH_IF or OPH_ELSEIF has run as branch n: the chain goes on, or stops at an invalid condition. */
  lemma IfAt(c: Chain, n: nat, before: seq<Task>, tasks: seq<Task>, x: int, x': int, forward: bool)
    requires c.Ok() && n < |c.branches| && |c.conditions| == |c.branches| && c.At(n, before)
    requires IfEffect(before, tasks, x, x', c.branches[n], c.conditions[n], forward, c.rank, c.top)
    ensures 0 <= c.branches[n] < |before| == |tasks| == |c.start|
    ensures before[c.branches[n]].skipped <==> FirstOpen(c.conditions) < n
    ensures if !before[c.branches[n]].skipped && c.conditions[n] == Invalid
            then FirstOpen(c.conditions) == n && c.Marked(n, tasks) else c.At(n + 1, tasks)
  {
    hide Walk.After, Walk.Ok, Walk.Edges, Chain.Ok, Chain.Intact, Chain.Marked, Chain.At, FirstOpen;
    TurnOf(c, n, before);
    var i := c.branches[n];
    var entered := before[i := Entered(before[i], c.conditions[n], forward)];
    if entered[i].skipped {
      var w := SkipOf(entered, x, c.rank, c.top, i, before[i].skipped);
      SkippedAt(c, n, before, entered, w, tasks[i := tasks[i].(skipped := true)], tasks, x');
    } else if c.conditions[n] == Invalid {
      MarksOnly(c, n, before, tasks);
    } else {
      SelectedAt(c, n, before, tasks);
    }
  }

  /** OPH_ELSE has run as branch n. */
  lemma ElseAt(c: Chain, n: nat, before: seq<Task>, tasks: seq<Task>, x: int, x': int)
    requires c.Ok() && n < |c.branches| && c.At(n, before) && n + 1 == |c.branches|
    requires 0 <= c.branches[n] < |before| && before[c.branches[n]].op == Else
    requires SkipOf(before, x, c.rank, c.top, c.branches[n], false).Ok()
    requires var w := SkipOf(before, x, c.rank, c.top, c.branches[n], false);
             if before[c.branches[n]].skipped then w.After(w.Edges(), tasks, x') else tasks == before
    ensures c.At(n + 1, tasks) && |tasks| == |c.start|
  {
    hide Walk.After, Walk.Ok, Walk.Edges, Chain.Ok, Chain.Intact, Chain.Marked, FirstOpen;
    TurnOf(c, n, before);
    var w := SkipOf(before, x, c.rank, c.top, c.branches[n], false);
    if before[c.branches[n]].skipped {
      BranchKept(w, w.Edges(), tasks, x');
      SkippedMarks(c, n, before, w, tasks, x');
      SkippedIntact(c, n, before, w, tasks, x');
    } else {
      SelectedAt(c, n, before, tasks);
    }
  }

  /** The branches whose conditions are evaluated when the first n branches have run. */
  ghost function Evaluated(c: Chain, n: nat): seq<int>
    requires c.Ok() && n <= |c.branches|
  {
    var selected := FirstOpen(c.conditions);
    c.branches[..if n <= selected then n
                 else if c.start[c.branches[selected]].op != Else then selected + 1 else selected]
  }

  lemma OneMoreEvaluated(c: Chain, n: nat)
    requires c.Ok() && n < |c.branches|
    ensures Evaluated(c, n + 1) == Evaluated(c, n) +
              if n <= FirstOpen(c.conditions) && c.start[c.branches[n]].op != Else then [c.branches[n]] else []
  {
    hide Chain.Ok, FirstOpen;
    BranchInRange(c, n);
    var selected := FirstOpen(c.conditions);
    if n < selected {
      NotElse(c, n);
    }
    if n <= selected {
      assert c.branches[..n + 1] == c.branches[..n] + [c.branches[n]];
    }
  }

  lemma NotElse(c: Chain, n: nat)
    requires c.Ok() && n < FirstOpen(c.conditions)
    ensures n < |c.branches| && 0 <= c.branches[n] < |c.start| && c.start[c.branches[n]].op != Else
  {
    assert c.conditions[n] == Fails;
  }

  /** Runs branch n of a chain whose earlier branches have run. */
  method RunBranch(wf: Workflow, i: int, condition: Condition, forward: bool, ghost c: Chain, ghost n: nat)
    returns (error: bool, looked: bool)
    requires c.Ok() && n < |c.branches| == |c.conditions| && i == c.branches[n] && condition == c.conditions[n]
    requires c.At(n, wf.tasks) && wf.Counted()
    modifies wf
    ensures wf.Counted() && |wf.tasks| == |c.start|
    ensures looked <==> n <= FirstOpen(c.conditions) && c.start[i].op != Else
    ensures error <==> n == FirstOpen(c.conditions) && condition == Invalid
    ensures if error then looked && c.Marked(n, wf.tasks) else c.At(n + 1, wf.tasks)
  {
    hide Walk.After, Walk.Ok, Walk.Edges, Chain.Ok, Chain.Intact, Chain.Marked, Chain.At, Chain.Skip, FirstOpen,
      IfEffect, Walked,
      Pending, Workflow.Counted;
    ghost var before, x := wf.tasks, wf.exitOutput;
    TurnOf(c, n, before);
    WalkAt(c, n, before, SkipOf(before, x, c.rank, c.top, i, false));
    error, looked := false, false;
    if wf.tasks[i].op == Else {
      wf.RunElse(i, c.rank, c.top);
      ElseAt(c, n, before, wf.tasks, x, wf.exitOutput);
    } else {
      error, looked := wf.RunIf(i, condition, forward, c.rank, c.top);
      IfAt(c, n, before, wf.tasks, x, wf.exitOutput, forward);
    }
  }

  /**
   * Runs the branches of a chain in order, until one has an invalid condition. The tasks marked
   * UNSELECTED are exactly the bodies of the branches other than the first one whose condition holds,
   * and no condition after that one is evaluated.
   */
  method RunChain(wf: Workflow, branches: seq<int>, conditions: seq<Condition>, forwards: seq<bool>,
      ghost rank: seq<nat>, ghost top: nat)
    returns (error: bool, evaluated: seq<int>)
    requires |forwards| == |branches|
    requires Chain(wf.tasks, rank, top, branches, conditions).Ok() && wf.Counted()
    modifies wf
    ensures |wf.tasks| == |old(wf.tasks)| && wf.Counted()
    ensures error <==> FirstOpen(conditions) < |branches| && conditions[FirstOpen(conditions)] == Invalid
    ensures evaluated == Evaluated(Chain(old(wf.tasks), rank, top, branches, conditions), |branches|)
    ensures Chain(old(wf.tasks), rank, top, branches, conditions).Marked(if error
      then FirstOpen(conditions) else |branches|, wf.tasks)
  {
    hide Chain.Ok, Chain.Marked, Chain.At, FirstOpen, Evaluated, Pending, Workflow.Counted;
    ghost var c := Chain(wf.tasks, rank, top, branches, conditions);
    error, evaluated := false, [];
    var n := 0;
    StartAt(c);
    while n < |branches|
      invariant 0 <= n <= |branches| && !error
      invariant c.At(n, wf.tasks) && wf.Counted()
      invariant evaluated == Evaluated(c, n)
      invariant FirstOpen(conditions) < n ==> conditions[FirstOpen(conditions)] != Invalid
    {
      OneMoreEvaluated(c, n);
      var looked;
      error, looked := RunBranch(wf, branches[n], conditions[n], forwards[n], c, n);
      if looked {
        evaluated := evaluated + [branches[n]];
      }
      if error {
        StopsAt(c, n);
        return;
      }
      n := n + 1;
    }
    EndsAt(c, wf.tasks);
  }

  lemma StartAt(c: Chain)
    requires c.Ok()
    ensures c.At(0, c.start) && Evaluated(c, 0) == [] && |c.conditions| == |c.branches|
  {
  }

  lemma StopsAt(c: Chain, n: nat)
    requires c.Ok() && n < |c.branches| && n == FirstOpen(c.conditions) && c.start[c.branches[n]].op != Else
    ensures Evaluated(c, n + 1) == Evaluated(c, |c.branches|)
  {
  }

  lemma EndsAt(c: Chain, tasks: seq<Task>)
    requires c.Ok() && c.At(|c.branches|, tasks)
    ensures |tasks| == |c.start| && c.Marked(|c.branches|, tasks)
  {
  }

  /** A task of the selected body keeps its status exactly if it is in no other body (or was marked before). */
  lemma SelectedBodyStays(c: Chain, tasks: seq<Task>, t: int)
    requires c.Ok() && |tasks| == |c.start| && c.Marked(|c.branches|, tasks) && 0 <= t < |c.start|
    requires FirstOpen(c.conditions) < |c.branches| && c.InBody(FirstOpen(c.conditions), t)
    ensures tasks[t].status == c.start[t].status <==>
      c.start[t].status == UNSELECTED
      || forall m :: 0 <= m < |c.branches| && m != FirstOpen(c.conditions) ==> !c.InBody(m, t)
  {
    hide Chain.Ok, Chain.InBody, FirstOpen;
  }

  /** Going up from any branch of a chain whose `if` has no parent ends at that `if`. */
  lemma {:induction false} BranchesLeadToIf(c: Chain, m: nat)
    requires c.Ok() && m < |c.branches| && c.start[c.branches[0]].parent == -1
    ensures ParentsRanked(c.start, c.rank) && 0 <= c.branches[m] < |c.start|
    ensures RootOf(c.start, c.rank, c.branches[m]) == c.branches[0]
  {
    hide Walk.Ok, Chain.Meets;
    RankedChain(c, m);
    if m > 0 {
      BranchesLeadToIf(c, m - 1);
    }
  }

  lemma RankedChain(c: Chain, m: nat)
    requires c.Ok() && m < |c.branches|
    ensures ParentsRanked(c.start, c.rank) && 0 <= c.branches[m] < |c.start|
  {
    assert c.Skip(m).Ok();
  }

  /** The root that the walk of any later branch looks for is the `if` of the chain. */
  lemma RootIsIf(c: Chain, m: nat)
    requires c.Ok() && 0 < m < |c.branches| && c.start[c.branches[0]].parent == -1
    ensures c.Skip(m).Ok() && c.Skip(m).Root() == c.branches[0]
  {
    BranchesLeadToIf(c, m - 1);
  }

  /** No walk of a chain goes past its endif. */
  lemma EndIfStopsAll(c: Chain, m: nat, e: int)
    requires c.Ok() && m < |c.branches| && c.start[c.branches[0]].parent == -1
    requires 0 <= e < |c.start| && c.start[e].op == EndIf && c.start[e].parent == c.branches[0]
    ensures c.Skip(m).Ok() && c.Skip(m).Stop(e) && !Walked(c.Skip(m), e)
  {
    hide *;
    if m > 0 {
      RootIsIf(c, m);
    }
    EndIfIsStop(c, m, e);
    StopIsNotWalked(c.Skip(m), e);
  }

  lemma EndIfIsStop(c: Chain, m: nat, e: int)
    requires c.Ok() && m < |c.branches| && (m > 0 ==> c.Skip(m).Ok() && c.Skip(m).Root() == c.branches[0])
    requires 0 <= e < |c.start| && c.start[e].op == EndIf && c.start[e].parent == c.branches[0]
    ensures c.Skip(m).Ok() && c.Skip(m).Stop(e) && e != c.branches[m] && |c.Skip(m).before| == |c.start|
    ensures c.Skip(m).branch == c.branches[m]
  {
    hide Walk.Ok, Chain.Meets;
  }

  lemma StopIsNotWalked(w: Walk, e: int)
    requires w.Ok() && 0 <= e < |w.before| && w.Stop(e) && e != w.branch
    ensures !Walked(w, e)
  {
    hide Walk.Ok, Walk.Root;
    if Walked(w, e) {
      var u := WalkedInto(w, e);
    }
  }
}
