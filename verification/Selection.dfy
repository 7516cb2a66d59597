/**
 * Selection blocks of a workflow (OPH_IF, OPH_ELSEIF, OPH_ELSE, OPH_ENDIF): the recursive walk that
 * marks a skipped branch, and the operators that decide which branch of a chain is executed.
 */
module Selection {

  /** Values of the status enumeration; the code compares statuses by this order. */
  const COMPLETED := 12
  const UNSELECTED := 26

  datatype Operator = If | ElseIf | Else | EndIf | Other

  /** The fields of a task that the flow-control operators read or write. */
  datatype Task = Task(
    op: Operator,
    parent: int,
    branches: nat,
    dependents: seq<int>,
    deps: seq<int>,
    residualDeps: int,
    status: int,
    skipped: bool,
    forward: bool)

  /** The task indexes whose status is below COMPLETED. */
  ghost function Pending(tasks: seq<Task>): set<int> {
    set i | 0 <= i < |tasks| && tasks[i].status < COMPLETED
  }

  /** Every parent link leads to a task that comes earlier in the given numbering. */
  ghost predicate ParentsRanked(tasks: seq<Task>, rank: seq<nat>) {
    && |rank| == |tasks|
    && forall t :: 0 <= t < |tasks| ==>
                     tasks[t].parent == -1 || (0 <= tasks[t].parent < |tasks| && rank[tasks[t].parent] < rank[t])
  }

  /** The end of the chain of parent links that starts at k. */
  ghost function RootOf(tasks: seq<Task>, rank: seq<nat>, k: int): (r: int)
    requires ParentsRanked(tasks, rank) && 0 <= k < |tasks|
    ensures 0 <= r < |tasks| && tasks[r].parent == -1 && rank[r] <= rank[k]
    decreases rank[k]
  {
    if tasks[k].parent < 0 then k else RootOf(tasks, rank, tasks[k].parent)
  }

  /** The root of the chain of a branch, or -2 when the branch has no parent. */
  ghost function GParentOf(tasks: seq<Task>, rank: seq<nat>, k: int): (g: int)
    requires ParentsRanked(tasks, rank) && 0 <= k < |tasks|
    ensures g == -2 || (0 <= g < |tasks| && rank[g] < rank[k])
  {
    if tasks[k].parent < 0 then -2 else RootOf(tasks, rank, tasks[k].parent)
  }

  /** A path of parent links. */
  ghost predicate ParentPath(tasks: seq<Task>, p: seq<int>) {
    && 0 < |p| && (forall j :: 0 <= j < |p| ==> 0 <= p[j] < |tasks|)
    && forall j :: 0 <= j < |p| - 1 ==> p[j + 1] == tasks[p[j]].parent
  }

  /** Parent links lead from k to g. */
  ghost predicate LeadsUp(tasks: seq<Task>, k: int, g: int) {
    exists p :: ParentPath(tasks, p) && p[0] == k && p[|p| - 1] == g
  }

  lemma {:induction false} RootLeadsUp(tasks: seq<Task>, rank: seq<nat>, k: int)
    requires ParentsRanked(tasks, rank) && 0 <= k < |tasks|
    ensures LeadsUp(tasks, k, RootOf(tasks, rank, k))
    decreases rank[k]
  {
    if tasks[k].parent < 0 {
      assert ParentPath(tasks, [k]);
    } else {
      RootLeadsUp(tasks, rank, tasks[k].parent);
      OneUp(tasks, k, RootOf(tasks, rank, k));
    }
  }

  lemma OneUp(tasks: seq<Task>, k: int, g: int)
    requires 0 <= k < |tasks| && LeadsUp(tasks, tasks[k].parent, g)
    ensures LeadsUp(tasks, k, g)
  {
    var p :| ParentPath(tasks, p) && p[0] == tasks[k].parent && p[|p| - 1] == g;
    var q := [k] + p;
    assert q[0] == k && q[|q| - 1] == g;
    assert forall j :: 1 <= j < |q| ==> q[j] == p[j - 1];
    assert ParentPath(tasks, q);
  }

  /** What is found for a branch: nothing without a parent, else the end of the parent links. */
  ghost predicate IsChainRoot(tasks: seq<Task>, k: int, g: int)
    requires 0 <= k < |tasks|
  {
    if tasks[k].parent == -1 then g == -2
    else 0 <= g < |tasks| && tasks[g].parent == -1 && LeadsUp(tasks, k, g)
  }

  lemma GParentIs(tasks: seq<Task>, rank: seq<nat>, k: int)
    requires ParentsRanked(tasks, rank) && 0 <= k < |tasks|
    ensures IsChainRoot(tasks, k, GParentOf(tasks, rank, k))
  {
    if tasks[k].parent >= 0 {
      RootLeadsUp(tasks, rank, tasks[k].parent);
      OneUp(tasks, k, GParentOf(tasks, rank, k));
    }
  }

  /**
   * One run of the skip walk: the tasks on entry, a topological numbering of the tasks from the
   * skipped branch on, and the arguments that stay the same in every recursive call.
   */
  datatype Walk = Walk(before: seq<Task>, exitBefore: int, rank: seq<nat>, top: nat, branch: int, status: int,
      skipNext: bool) {

    ghost predicate Ok() {
      && 0 <= branch < |before|
      && COMPLETED <= status
      && ParentsRanked(before, rank)
      && (forall t :: 0 <= t < |before| ==> rank[t] <= top)
      && (forall t, k :: 0 <= t < |before| && rank[branch] <= rank[t] && 0 <= k < |before[t].dependents| ==>
                           0 <= before[t].dependents[k] < |before| && rank[t] < rank[before[t].dependents[k]])
      && (Root() >= 0 ==> before[Root()].dependents != [])
    }

    ghost function Root(): int
      requires 0 <= branch < |before| && ParentsRanked(before, rank)
    {
      GParentOf(before, rank, branch)
    }

    /** The walk does not go past a child branch of the skipped one, nor past the endif of the chain. */
    ghost predicate Stop(i: int)
      requires Ok() && 0 <= i < |before|
    {
      before[i].parent == branch || (before[i].op == EndIf && before[i].parent == Root())
    }

    /** The endif of the chain, when it loses its dependency on the walked tasks. */
    ghost predicate Dropped(i: int)
      requires Ok() && 0 <= i < |before|
    {
      && before[i].op == EndIf
      && (if before[i].parent == branch then before[i].branches > 1 else before[i].parent == Root())
    }

    /** The only endif of the branch: its dependencies move from the walked tasks to the branch. */
    ghost predicate Relinked(i: int)
      requires Ok() && 0 <= i < |before|
    {
      before[i].op == EndIf && before[i].parent == branch && before[i].branches <= 1
    }

    /** What a dependency on a walked task becomes. */
    ghost function NewDep(i: int): int
      requires Ok() && 0 <= i < |before|
    {
      if before[i].parent != branch then Root() else if before[i].branches > 1 then i else branch
    }

    /** The edges that the loop over the first k dependents of t follows, with all recursive calls. */
    ghost function Followed(t: int, k: nat): set<(int, int)>
      requires Ok() && 0 <= t < |before| && rank[branch] <= rank[t] && k <= |before[t].dependents|
      decreases top - rank[t], k
    {
      if k == 0 then {} else
        var i := before[t].dependents[k - 1];
        Followed(t, k - 1) + {(t, i)} + (if Stop(i) then {} else Followed(i, |before[i].dependents|))
    }

    /** The given edges and those followed by the loop over the first k dependents of t. */
    ghost function With(edges: set<(int, int)>, t: int, k: nat): set<(int, int)>
      requires Ok() && 0 <= t < |before| && rank[branch] <= rank[t] && k <= |before[t].dependents|
    {
      edges + Followed(t, k)
    }

    /** The given edges, the one from t to i, and those followed from i if the walk does not stop there. */
    ghost function Via(edges: set<(int, int)>, t: int, i: int): set<(int, int)>
      requires Ok() && 0 <= i < |before| && rank[branch] <= rank[i]
    {
      if Stop(i) then edges + {(t, i)} else With(edges + {(t, i)}, i, |before[i].dependents|)
    }

    /** All the edges followed by the walk. */
    ghost function Edges(): set<(int, int)>
      requires Ok()
    {
      Followed(branch, |before[branch].dependents|)
    }

    ghost predicate Reached(edges: set<(int, int)>, i: int) {
      exists t :: (t, i) in edges
    }

    /** The walked tasks named by the dependencies of task i. */
    ghost function Sources(edges: set<(int, int)>, i: int): set<int>
      requires 0 <= i < |before|
    {
      set d | d in before[i].deps && (d, i) in edges
    }

    /**
     * Task i after exactly the given edges have been followed. Of the rows of dependents only the
     * first entry of the branch's and of the root's row may differ.
     */
    ghost predicate TaskAfter(edges: set<(int, int)>, i: int, task: Task)
      requires Ok() && 0 <= i < |before|
    {
      var old_ := before[i];
      && task.op == old_.op && task.parent == old_.parent && task.branches == old_.branches &&
        task.forward == old_.forward
      && task.status == (if !Stop(i) && Reached(edges, i) then status else old_.status)
      && task.skipped == (if old_.parent == branch && old_.op != EndIf && Reached(edges, i)
        then skipNext else old_.skipped)
      && |task.deps| == |old_.deps|
      && (forall j :: 0 <= j < |old_.deps| ==>
                        task.deps[j] == if (Dropped(i) || Relinked(i)) && (old_.deps[j], i) in edges
                          then NewDep(i) else old_.deps[j])
      && task.residualDeps == old_.residualDeps - (if Dropped(i) then |Sources(edges, i)| else 0)
      && |task.dependents| == |old_.dependents|
      && (forall k :: 0 <= k < |old_.dependents| ==>
                        task.dependents[k] == old_.dependents[k] || (k == 0 && (i == branch || i == Root())))
    }

    /** Meeting i resets the exit output: i is the only endif of an `if` that does not forward it. */
    ghost predicate Resets(i: int)
      requires Ok()
    {
      0 <= i < |before| && Relinked(i) && before[branch].op == If && !before[branch].forward
    }

    /** The tasks and the exit output after exactly the given edges have been followed. */
    ghost predicate After(edges: set<(int, int)>, tasks: seq<Task>, exitOutput: int)
      requires Ok()
    {
      && |tasks| == |before|
      && (forall i :: 0 <= i < |before| ==> TaskAfter(edges, i, tasks[i]))
      && exitOutput == if exists e :: e in edges && Resets(e.1) then 0 else exitBefore
    }
  }

  /** Following an edge into i leaves the account of every other task as it was. */
  lemma OtherTask(w: Walk, edges: set<(int, int)>, t: int, i: int, m: int, task: Task)
    requires w.Ok() && 0 <= m < |w.before| && m != i
    requires w.TaskAfter(edges, m, task)
    ensures w.TaskAfter(edges + {(t, i)}, m, task)
  {
    assert w.Reached(edges, m) <==> w.Reached(edges + {(t, i)}, m) by {
      if w.Reached(edges + {(t, i)}, m) {
        var u :| (u, m) in edges + {(t, i)};
        assert (u, m) in edges;
      }
      if w.Reached(edges, m) {
        var u :| (u, m) in edges;
        assert (u, m) in edges + {(t, i)};
      }
    }
    assert w.Sources(edges + {(t, i)}, m) == w.Sources(edges, m);
  }

  /** Following the edge (t, i) adds t to the sources of i exactly when i depends on t and t is new. */
  lemma SourcesGrow(w: Walk, edges: set<(int, int)>, t: int, i: int)
    requires 0 <= i < |w.before|
    ensures |w.Sources(edges + {(t, i)}, i)|
         == |w.Sources(edges, i)| + if t in w.before[i].deps && (t, i) !in edges then 1 else 0
  {
    var a, b := w.Sources(edges, i), w.Sources(edges + {(t, i)}, i);
    if t in w.before[i].deps && (t, i) !in edges {
      assert b == a + {t};
    } else {
      assert b == a;
    }
  }

  /** Two versions of a task that differ at most in the first entry of the row of dependents. */
  ghost predicate SameButFirst(a: Task, b: Task) {
    && b == a.(dependents := b.dependents)
    && |a.dependents| == |b.dependents|
    && forall k :: 1 <= k < |a.dependents| ==> a.dependents[k] == b.dependents[k]
  }

  /** One edge followed: task i has its new account, and the others keep theirs. */
  lemma EdgeFollowed(w: Walk, edges: set<(int, int)>, t: int, i: int, tasks: seq<Task>, tasks': seq<Task>, x: int,
      x': int)
    requires w.Ok() && 0 <= i < |w.before| && w.After(edges, tasks, x) && |tasks'| == |tasks|
    requires forall m :: 0 <= m < |tasks| && m != i && m != w.branch && m != w.Root() ==> tasks'[m] == tasks[m]
    requires forall m :: 0 <= m < |tasks| && m != i ==> SameButFirst(tasks[m], tasks'[m])
    requires w.TaskAfter(edges + {(t, i)}, i, tasks'[i]) && x' == if w.Resets(i) then 0 else x
    ensures w.After(edges + {(t, i)}, tasks', x')
  {
    forall m | 0 <= m < |tasks| && m != i
      ensures w.TaskAfter(edges + {(t, i)}, m, tasks'[m])
    {
      OtherTask(w, edges, t, i, m, tasks[m]);
    }
    if w.Resets(i) {
      assert (t, i) in edges + {(t, i)} && w.Resets((t, i).1);
    } else if exists e :: e in edges && w.Resets(e.1) {
      var e :| e in edges && w.Resets(e.1);
      assert e in edges + {(t, i)};
    }
  }

  /** An endif stops waiting for task t: its dependencies on t are replaced, and one less is residual. */
  ghost predicate Released(a: Task, b: Task, t: int, to: int, dropped: bool) {
    && b == a.(deps := b.deps, residualDeps := b.residualDeps)
    && |b.deps| == |a.deps|
    && (forall j :: 0 <= j < |a.deps| ==> b.deps[j] == if a.deps[j] == t then to else a.deps[j])
    && b.residualDeps == a.residualDeps - if dropped && t in a.deps then 1 else 0
  }

  /** The account of an endif after the edge (t, i). */
  lemma EndIfMet(w: Walk, edges: set<(int, int)>, t: int, i: int, task: Task, task': Task)
    requires w.Ok() && 0 <= i < |w.before| && 0 <= t < |w.before| && w.TaskAfter(edges, i, task)
    requires w.rank[w.branch] <= w.rank[t] < w.rank[i] && (w.Dropped(i) || w.Relinked(i))
    requires Released(task, task', t, w.NewDep(i), w.Dropped(i))
    ensures w.TaskAfter(edges + {(t, i)}, i, task')
  {
    SourcesGrow(w, edges, t, i);
    assert w.Stop(i);
    if w.Dropped(i) {
      assert w.NewDep(i) != t;
      assert t in task.deps <==> t in w.before[i].deps && (t, i) !in edges;
    }
  }

  /** The account of a task other than an endif after the edge (t, i). */
  lemma TaskMet(w: Walk, edges: set<(int, int)>, t: int, i: int, task: Task, task': Task)
    requires w.Ok() && 0 <= i < |w.before| && w.TaskAfter(edges, i, task)
    requires !w.Dropped(i) && !w.Relinked(i)
    requires task' == if w.Stop(i) then task.(skipped := w.skipNext) else task.(status := w.status)
    ensures w.TaskAfter(edges + {(t, i)}, i, task')
  {
    assert (t, i) in edges + {(t, i)};
    assert w.Reached(edges + {(t, i)}, i);
  }

  /** Tasks that keep their statuses stay pending together. */
  lemma SamePending(tasks: seq<Task>, tasks': seq<Task>)
    requires |tasks'| == |tasks| && forall m :: 0 <= m < |tasks| ==> tasks'[m].status == tasks[m].status
    ensures Pending(tasks') == Pending(tasks)
  {
  }

  /** Following the edge from t to a child of the skipped branch. */
  lemma ChildFollowed(w: Walk, edges: set<(int, int)>, t: int, i: int, tasks: seq<Task>, tasks': seq<Task>, x: int,
      x': int)
    requires w.Ok() && w.After(edges, tasks, x) && |tasks'| == |tasks|
    requires 0 <= t < |tasks| && 0 <= i < |tasks| && w.rank[w.branch] <= w.rank[t] < w.rank[i]
    requires w.before[i].parent == w.branch
    requires forall m :: 0 <= m < |tasks| && m != i && m != w.branch ==> tasks'[m] == tasks[m]
    requires SameButFirst(tasks[w.branch], tasks'[w.branch])
    requires if tasks[i].op != EndIf then tasks'[i] == tasks[i].(skipped := w.skipNext)
             else if tasks[i].branches > 1 then Released(tasks[i], tasks'[i], t, i, true)
             else Released(tasks[i], tasks'[i], t, w.branch, false)
    requires x' == if w.Resets(i) then 0 else x
    ensures w.After(edges + {(t, i)}, tasks', x') && Pending(tasks') == Pending(tasks)
  {
    assert w.TaskAfter(edges, i, tasks[i]);
    if tasks[i].op == EndIf {
      EndIfMet(w, edges, t, i, tasks[i], tasks'[i]);
    } else {
      TaskMet(w, edges, t, i, tasks[i], tasks'[i]);
    }
    EdgeFollowed(w, edges, t, i, tasks, tasks', x, x');
    SamePending(tasks, tasks');
  }

  /** Following the edge from t to the endif of the chain. */
  lemma ClosingFollowed(w: Walk, edges: set<(int, int)>, t: int, i: int, tasks: seq<Task>, tasks': seq<Task>, x: int,
      x': int)
    requires w.Ok() && w.After(edges, tasks, x) && |tasks'| == |tasks|
    requires 0 <= t < |tasks| && 0 <= i < |tasks| && w.rank[w.branch] <= w.rank[t] < w.rank[i]
    requires w.before[i].parent != w.branch && w.before[i].op == EndIf && w.before[i].parent == w.Root() >= 0
    requires forall m :: 0 <= m < |tasks| && m != i && m != w.branch && m != w.Root() ==> tasks'[m] == tasks[m]
    requires SameButFirst(tasks[w.branch], tasks'[w.branch]) && SameButFirst(tasks[w.Root()], tasks'[w.Root()])
    requires Released(tasks[i], tasks'[i], t, w.Root(), true) && x' == x
    ensures w.After(edges + {(t, i)}, tasks', x') && Pending(tasks') == Pending(tasks)
  {
    assert w.TaskAfter(edges, i, tasks[i]);
    EndIfMet(w, edges, t, i, tasks[i], tasks'[i]);
    EdgeFollowed(w, edges, t, i, tasks, tasks', x, x');
    SamePending(tasks, tasks');
  }

  /** Following the edge from t to a task of the skipped branch. */
  lemma TaskFollowed(w: Walk, edges: set<(int, int)>, t: int, i: int, tasks: seq<Task>, x: int)
    requires w.Ok() && w.After(edges, tasks, x) && 0 <= i < |tasks| && !w.Stop(i)
    ensures w.After(edges + {(t, i)}, tasks[i := tasks[i].(status := w.status)], x)
  {
    assert w.TaskAfter(edges, i, tasks[i]);
    TaskMet(w, edges, t, i, tasks[i], tasks[i].(status := w.status));
    EdgeFollowed(w, edges, t, i, tasks, tasks[i := tasks[i].(status := w.status)], x, x);
  }

  /** What the account of a walk says about the structure of the tasks. */
  lemma SameShape(w: Walk, edges: set<(int, int)>, tasks: seq<Task>, x: int)
    requires w.Ok() && w.After(edges, tasks, x)
    ensures forall i :: 0 <= i < |tasks| ==>
              && tasks[i].op == w.before[i].op && tasks[i].parent == w.before[i].parent
              && tasks[i].branches == w.before[i].branches && tasks[i].forward == w.before[i].forward
              && |tasks[i].dependents| == |w.before[i].dependents|
    ensures ParentsRanked(tasks, w.rank) && GParentOf(tasks, w.rank, w.branch) == w.Root()
  {
    forall i | 0 <= i < |tasks|
      ensures tasks[i].op == w.before[i].op && tasks[i].parent == w.before[i].parent
      ensures tasks[i].branches == w.before[i].branches && tasks[i].forward == w.before[i].forward
      ensures |tasks[i].dependents| == |w.before[i].dependents|
    {
      assert w.TaskAfter(edges, i, tasks[i]);
    }
    if tasks[w.branch].parent >= 0 {
      SameRoot(w.before, tasks, w.rank, tasks[w.branch].parent);
    }
  }

  lemma {:induction false} SameRoot(tasks: seq<Task>, tasks': seq<Task>, rank: seq<nat>, k: int)
    requires ParentsRanked(tasks, rank) && ParentsRanked(tasks', rank) && 0 <= k < |tasks|
    requires forall i :: 0 <= i < |tasks| ==> tasks[i].parent == tasks'[i].parent
    ensures RootOf(tasks, rank, k) == RootOf(tasks', rank, k)
    decreases rank[k]
  {
    if tasks[k].parent >= 0 {
      SameRoot(tasks, tasks', rank, tasks[k].parent);
    }
  }

  /** The k-th dependent of t is still the one on entry, unless the walk has changed the branch's own row. */
  lemma RowKept(w: Walk, edges: set<(int, int)>, tasks: seq<Task>, x: int, t: int, k: int)
    requires w.Ok() && w.After(edges, tasks, x)
    requires 0 <= t < |w.before| && w.rank[w.branch] <= w.rank[t] && 0 <= k < |w.before[t].dependents|
    requires k == 0 && t == w.branch ==> tasks == w.before
    ensures |tasks| == |w.before| == |w.rank|
    ensures |tasks[t].dependents| == |w.before[t].dependents| && tasks[t].dependents[k] == w.before[t].dependents[k]
    ensures 0 <= tasks[t].dependents[k] < |tasks| && w.rank[t] < w.rank[tasks[t].dependents[k]] <= w.top
  {
    assert w.TaskAfter(edges, t, tasks[t]);
  }

  /** One more iteration of the loop over the dependents of t. */
  lemma OneMore(w: Walk, edges: set<(int, int)>, tasks: seq<Task>, x: int, t: int, k: nat)
    requires w.Ok() && 0 <= t < |w.before| && w.rank[w.branch] <= w.rank[t] && k < |w.before[t].dependents|
    requires w.After(w.Via(w.With(edges, t, k), t, w.before[t].dependents[k]), tasks, x)
    ensures w.After(w.With(edges, t, k + 1), tasks, x)
    ensures |tasks| == |w.before| && |tasks[t].dependents| == |w.before[t].dependents|
  {
    assert w.Via(w.With(edges, t, k), t, w.before[t].dependents[k]) == w.With(edges, t, k + 1);
    assert w.TaskAfter(w.With(edges, t, k + 1), t, tasks[t]);
  }

  lemma NoneYet(w: Walk, edges: set<(int, int)>, tasks: seq<Task>, x: int, t: int)
    requires w.Ok() && w.After(edges, tasks, x) && 0 <= t < |w.before| && w.rank[w.branch] <= w.rank[t]
    ensures w.With(edges, t, 0) == edges && w.After(w.With(edges, t, 0), tasks, x)
    ensures |tasks| == |w.before| && |tasks[t].dependents| == |w.before[t].dependents|
  {
    assert w.TaskAfter(edges, t, tasks[t]);
  }

  /** What the evaluation of the condition of a branch yields; an absent condition holds. */
  datatype Condition = Holds | Fails | Invalid

  /** The walk that skips branch b. */
  ghost function SkipOf(tasks: seq<Task>, exitOutput: int, rank: seq<nat>, top: nat, b: int, skipNext: bool): Walk {
    Walk(tasks, exitOutput, rank, top, b, UNSELECTED, skipNext)
  }

  /** A branch task once its condition has been looked at, unless the branch was skipped already. */
  ghost function Entered(task: Task, condition: Condition, forward: bool): Task {
    if task.skipped then task
    else task.(forward := task.forward || forward, skipped := condition == Fails)
  }

  /** The tasks before and after OPH_IF or OPH_ELSEIF has run as task i. */
  ghost predicate IfEffect(tasks: seq<Task>, tasks': seq<Task>, x: int, x': int, i: int, condition: Condition,
                           forward: bool, rank: seq<nat>, top: nat)
  {
    && 0 <= i < |tasks| == |tasks'|
    && var entered := tasks[i := Entered(tasks[i], condition, forward)];
    && var w := SkipOf(entered, x, rank, top, i, tasks[i].skipped);
    if entered[i].skipped then
      && w.Ok()
      && w.After(w.Edges(), tasks'[i := tasks'[i].(skipped := true)], x')
      && tasks'[i].skipped == tasks[i].skipped
    else
      && x' == x
      && forall j :: 0 <= j < |tasks| ==>
                       tasks'[j] == if condition == Holds && entered[j].parent == i && entered[j].op != EndIf
                                    then entered[j].(skipped := true) else entered[j]
  }

  /** The premises of a walk depend only on parents and on the rows of dependents it can reach. */
  lemma OkKept(w: Walk, w': Walk)
    requires w.Ok() && w'.rank == w.rank && w'.top == w.top && w'.branch == w.branch && COMPLETED <= w'.status
    requires |w'.before| == |w.before|
    requires forall t :: 0 <= t < |w.before| ==>
               w'.before[t].parent == w.before[t].parent && |w'.before[t].dependents| == |w.before[t].dependents|
    requires forall t :: 0 <= t < |w.before| && w.rank[w.branch] <= w.rank[t] ==>
      w'.before[t].dependents == w.before[t].dependents
    ensures w'.Ok() && |w.before| == |w.rank| && 0 <= w.branch < |w.before| && w'.Root() == w.Root()
  {
    if w.before[w.branch].parent >= 0 {
      SameRoot(w.before, w'.before, w.rank, w.before[w.branch].parent);
    }
  }

  /** Before any edge is followed, the tasks are as on entry. */
  lemma NothingFollowed(w: Walk)
    requires w.Ok()
    ensures w.After({}, w.before, w.exitBefore)
    ensures w.With({}, w.branch, |w.before[w.branch].dependents|) == w.Edges()
  {
    forall i | 0 <= i < |w.before|
      ensures w.TaskAfter({}, i, w.before[i])
    {
      assert w.Sources({}, i) == {};
    }
  }

  /** The walk changes neither the status nor the mark of the branch it skips. */
  lemma BranchKept(w: Walk, edges: set<(int, int)>, tasks: seq<Task>, x: int)
    requires w.Ok() && w.After(edges, tasks, x)
    ensures |tasks| == |w.before| && tasks[w.branch].skipped == w.before[w.branch].skipped
  {
    assert w.TaskAfter(edges, w.branch, tasks[w.branch]);
  }

  class Workflow {
    var tasks: seq<Task>
    var residualTasks: int
    var exitOutput: int

    /** The residual counter of the workflow counts the tasks that are still below COMPLETED. */
    ghost predicate Counted()
      reads this
    {
      residualTasks == |Pending(tasks)|
    }

    /** The loop of oph_gparent_of. */
    method GParent(k: int, ghost rank: seq<nat>) returns (g: int)
      requires ParentsRanked(tasks, rank) && 0 <= k < |tasks|
      ensures g == GParentOf(tasks, rank, k)
      ensures tasks[k].parent == -1 ==> g == -2
      ensures tasks[k].parent != -1 ==> 0 <= g < |tasks| && tasks[g].parent == -1 && LeadsUp(tasks, k, g)
    {
      GParentIs(tasks, rank, k);
      var p := tasks[k].parent;
      if p < 0 {
        return -2;
      }
      g := p;
      p := tasks[g].parent;
      while p >= 0
        invariant 0 <= g < |tasks| && p == tasks[g].parent
        invariant RootOf(tasks, rank, g) == GParentOf(tasks, rank, k)
        decreases rank[g]
      {
        g := p;
        p := tasks[g].parent;
      }
    }

    /** Replaces one task index by another in the dependencies of task i. */
    method Redirect(i: int, from: int, to: int) returns (found: bool)
      requires 0 <= i < |tasks|
      modifies this`tasks
      ensures found <==> from in old(tasks[i].deps)
      ensures |tasks| == old(|tasks|) && forall m :: 0 <= m < |tasks| && m != i ==> tasks[m] == old(tasks)[m]
      ensures |tasks[i].deps| == old(|tasks[i].deps|)
      ensures tasks[i] == old(tasks[i]).(deps := tasks[i].deps)
      ensures forall j :: 0 <= j < |tasks[i].deps| ==>
                            tasks[i].deps[j] == if old(tasks[i].deps)[j] == from then to else old(tasks[i].deps)[j]
    {
      found := false;
      var j := 0;
      while j < |tasks[i].deps|
        invariant |tasks| == old(|tasks|) && forall m :: 0 <= m < |tasks| && m != i ==> tasks[m] == old(tasks)[m]
        invariant tasks[i] == old(tasks[i]).(deps := tasks[i].deps)
        invariant |tasks[i].deps| == old(|tasks[i].deps|)
        invariant 0 <= j <= |tasks[i].deps|
        invariant found <==> from in old(tasks[i].deps)[..j]
        invariant forall h :: 0 <= h < j ==>
                                tasks[i].deps[h] == if old(tasks[i].deps)[h] == from then to else old(tasks[i].deps)[h]
        invariant forall h :: j <= h < |tasks[i].deps| ==> tasks[i].deps[h] == old(tasks[i].deps)[h]
      {
        if tasks[i].deps[j] == from {
          tasks := tasks[i := tasks[i].(deps := tasks[i].deps[j := to])];
          found := true;
        }
        j := j + 1;
      }
    }

    /** Changes the entry at position nk of the row of dependents of task p. */
    method SetDependent(p: int, nk: int, to: int)
      requires 0 <= p < |tasks| && 0 <= nk < |tasks[p].dependents|
      modifies this`tasks
      ensures tasks == old(tasks)[p := old(tasks[p]).(dependents := old(tasks[p].dependents)[nk := to])]
    {
      tasks := tasks[p := tasks[p].(dependents := tasks[p].dependents[nk := to])];
    }

    /** Replaces t in the dependencies of endif i, and lowers its residual dependencies if asked to. */
    method Release(i: int, t: int, to: int, drop: bool)
      requires 0 <= i < |tasks|
      modifies this`tasks
      ensures |tasks| == old(|tasks|) && forall m :: 0 <= m < |tasks| && m != i ==> tasks[m] == old(tasks)[m]
      ensures Released(old(tasks[i]), tasks[i], t, to, drop)
    {
      var found := Redirect(i, t, to);
      if drop && found {
        tasks := tasks[i := tasks[i].(residualDeps := tasks[i].residualDeps - 1)];
      }
    }

    /** The walk from t meets i, a child of the skipped branch: the next branch, or the endif. */
    method MeetChild(t: int, i: int, parent: int, nk: int, skipNext: bool)
      requires 0 <= i < |tasks| && 0 <= parent < |tasks| && i != parent && nk == 0 < |tasks[parent].dependents|
      modifies this`tasks, this`exitOutput
      ensures |tasks| == old(|tasks|)
      ensures forall m :: 0 <= m < |tasks| && m != i && m != parent ==> tasks[m] == old(tasks)[m]
      ensures SameButFirst(old(tasks[parent]), tasks[parent])
      ensures if old(tasks[i].op) != EndIf then tasks[i] == old(tasks[i]).(skipped := skipNext)
              else if old(tasks[i].branches) > 1 then Released(old(tasks[i]), tasks[i], t, i, true)
              else Released(old(tasks[i]), tasks[i], t, parent, false)
      ensures exitOutput == if old(tasks[i].op == EndIf && tasks[i].branches <= 1 && tasks[parent].op == If &&
        !tasks[parent].forward)
                            then 0 else old(exitOutput)
    {
      if tasks[i].op != EndIf {
        tasks := tasks[i := tasks[i].(skipped := skipNext)];
      } else if tasks[i].branches > 1 {
        SetDependent(parent, nk, parent);
        Release(i, t, i, true);
      } else {
        SetDependent(parent, nk, i);
        Release(i, t, parent, false);
        if tasks[parent].op == If && !tasks[parent].forward {
          exitOutput := 0;
        }
      }
    }

    /** The walk from t meets the endif of the chain, whose parent is the root of the chain. */
    method MeetClosing(t: int, i: int, parent: int, root: int, nk: int)
      requires 0 <= i < |tasks| && 0 <= parent < |tasks| && 0 <= root < |tasks| && i != parent && i != root &&
        parent != root
      requires nk == 0 < |tasks[parent].dependents| && 0 < |tasks[root].dependents|
      modifies this`tasks
      ensures |tasks| == old(|tasks|)
      ensures forall m :: 0 <= m < |tasks| && m != i && m != parent && m != root ==> tasks[m] == old(tasks)[m]
      ensures SameButFirst(old(tasks[parent]), tasks[parent]) && SameButFirst(old(tasks[root]), tasks[root])
      ensures Released(old(tasks[i]), tasks[i], t, root, true)
    {
      SetDependent(parent, nk, i);
      SetDependent(root, nk, i);
      Release(i, t, root, true);
    }

    /** The walk meets a task of the branch: it is given the new status, and counted once. */
    method Mark(i: int, status: int) returns (failed: bool)
      requires 0 <= i < |tasks| && COMPLETED <= status && Counted()
      modifies this`tasks, this`residualTasks
      ensures !failed && Counted() && tasks == old(tasks)[i := old(tasks[i]).(status := status)]
    {
      failed := false;
      if tasks[i].status < COMPLETED {
        assert i in Pending(tasks);
        if residualTasks == 0 {
          return true;
        }
        residualTasks := residualTasks - 1;
      }
      tasks := tasks[i := tasks[i].(status := status)];
      assert Pending(tasks) == Pending(old(tasks)) - {i};
    }

    /** Follows the edge from t to i, and walks on from i unless the walk stops there. */
    method Visit(t: int, i: int, status: int, parent: int, nk: int, skipNext: bool, ghost w: Walk,
        ghost edges: set<(int, int)>)
      returns (failed: bool)
      requires w.Ok() && w.branch == parent && w.status == status && w.skipNext == skipNext
      requires w.After(edges, tasks, exitOutput) && Counted()
      requires 0 <= t < |tasks| && 0 <= i < |tasks| && w.rank[parent] <= w.rank[t] < w.rank[i]
      requires nk == 0 < |w.before[parent].dependents|
      modifies this
      ensures !failed && Counted()
      ensures w.After(w.Via(edges, t, i), tasks, exitOutput)
      decreases w.top - w.rank[t], 0
    {
      hide Walk.After, Walk.Followed, Pending;
      failed := false;
      ghost var start, x := tasks, exitOutput;
      SameShape(w, edges, tasks, x);
      if tasks[i].parent == parent {
        MeetChild(t, i, parent, nk, skipNext);
        ChildFollowed(w, edges, t, i, start, tasks, x, exitOutput);
        return;
      }
      var root := GParent(parent, w.rank);
      if tasks[i].op == EndIf && tasks[i].parent == root {
        MeetClosing(t, i, parent, root, nk);
        ClosingFollowed(w, edges, t, i, start, tasks, x, exitOutput);
      } else {
        failed := Mark(i, status);
        if failed {
          return;
        }
        TaskFollowed(w, edges, t, i, start, x);
        failed := SetStatusOfBlock(i, status, parent, nk, skipNext, w, edges + {(t, i)});
      }
    }

    /**
     * The walk: follows the dependents of t, and of every task of the branch reached from it. The ghost
     * arguments record the walk and the edges it has followed so far.
     */
    method SetStatusOfBlock(t: int, status: int, parent: int, nk0: int, skipNext: bool, ghost w: Walk,
        ghost edges: set<(int, int)>)
      returns (failed: bool)
      requires w.Ok() && w.branch == parent && w.status == status && w.skipNext == skipNext
      requires w.After(edges, tasks, exitOutput) && Counted()
      requires 0 <= t < |w.before| && w.rank[parent] <= w.rank[t]
      requires if nk0 < 0 then t == parent && tasks == w.before
               else nk0 == 0 < |w.before[parent].dependents| && w.rank[parent] < w.rank[t]
      modifies this
      ensures !failed && Counted()
      ensures w.After(w.With(edges, t, |w.before[t].dependents|), tasks, exitOutput)
      decreases w.top - w.rank[t], 1
    {
      hide *;
      failed := false;
      var nk := nk0;
      var k := 0;
      NoneYet(w, edges, tasks, exitOutput, t);
      while k < |tasks[t].dependents|
        invariant |tasks| == |w.before| && |tasks[t].dependents| == |w.before[t].dependents|
        invariant 0 <= k <= |w.before[t].dependents| && Counted()
        invariant if k == 0 then nk == nk0 && tasks == old(tasks) else nk == 0
        invariant w.After(w.With(edges, t, k), tasks, exitOutput)
      {
        if nk < 0 {
          nk := k;
        }
        ghost var done := w.With(edges, t, k);
        RowKept(w, done, tasks, exitOutput, t, k);
        var i := tasks[t].dependents[k];
        failed := Visit(t, i, status, parent, nk, skipNext, w, done);
        if failed {
          return;
        }
        OneMore(w, edges, tasks, exitOutput, t, k);
        k := k + 1;
      }
      assert k == |w.before[t].dependents|;
    }

    /** Every child branch of i will be skipped when its turn comes. */
    method SkipChildren(i: int)
      modifies this`tasks
      ensures |tasks| == old(|tasks|)
      ensures forall j :: 0 <= j < |tasks| ==>
                            tasks[j] == if old(tasks)[j].parent == i && old(tasks)[j].op != EndIf
                                        then old(tasks)[j].(skipped := true) else old(tasks)[j]
    {
      var j := 0;
      while j < |tasks|
        invariant 0 <= j <= |tasks| == old(|tasks|)
        invariant forall m :: 0 <= m < j ==>
                                tasks[m] == if old(tasks)[m].parent == i && old(tasks)[m].op != EndIf
                                            then old(tasks)[m].(skipped := true) else old(tasks)[m]
        invariant forall m :: j <= m < |tasks| ==> tasks[m] == old(tasks)[m]
      {
        if tasks[j].parent == i && tasks[j].op != EndIf {
          tasks := tasks[j := tasks[j].(skipped := true)];
        }
        j := j + 1;
      }
    }

    /** Looks at the arguments of branch i, and evaluates its condition unless it is skipped already. */
    method Enter(i: int, condition: Condition, forward: bool) returns (error: bool, evaluated: bool)
      requires 0 <= i < |tasks|
      modifies this`tasks
      ensures evaluated <==> !old(tasks[i].skipped)
      ensures error <==> evaluated && condition == Invalid
      ensures tasks == old(tasks)[i := Entered(old(tasks[i]), condition, forward)]
      ensures tasks[i].skipped <==> old(tasks[i].skipped) || condition == Fails
      ensures tasks[i].forward <==> old(tasks[i].forward) || (forward && !old(tasks[i].skipped))
    {
      error, evaluated := false, false;
      if !tasks[i].skipped {
        if forward {
          tasks := tasks[i := tasks[i].(forward := true)];
        }
        if condition == Invalid {
          return true, true;
        }
        if condition == Fails {
          tasks := tasks[i := tasks[i].(skipped := true)];
        }
        evaluated := true;
      }
    }

    /** Skips the branch of task i, and clears its own mark again if its condition has been evaluated. */
    method SkipBranch(i: int, evaluated: bool, ghost w: Walk)
      requires w.Ok() && w == SkipOf(tasks, exitOutput, w.rank, w.top, i, !evaluated) && Counted()
      requires tasks[i].skipped
      modifies this
      ensures |tasks| == old(|tasks|) && tasks[i].skipped == !evaluated && Counted()
      ensures w.After(w.Edges(), tasks[i := tasks[i].(skipped := true)], exitOutput)
    {
      NothingFollowed(w);
      hide *;
      var failed := SetStatusOfBlock(i, UNSELECTED, i, -1, !evaluated, w, {});
      BranchKept(w, w.Edges(), tasks, exitOutput);
      ghost var walked := tasks;
      if evaluated {
        tasks := tasks[i := tasks[i].(skipped := false)];
      }
      SamePending(walked, tasks);
      assert tasks[i := tasks[i].(skipped := true)] == walked;
    }

    /**
     * OPH_IF and OPH_ELSEIF. The condition is evaluated only if the branch is not skipped already; the
     * second result says whether it was.
     */
    method RunIf(i: int, condition: Condition, forward: bool, ghost rank: seq<nat>, ghost top: nat)
      returns (error: bool, evaluated: bool)
      requires SkipOf(tasks, exitOutput, rank, top, i, false).Ok() && Counted()
      modifies this
      ensures evaluated <==> !old(tasks[i].skipped)
      ensures error <==> evaluated && condition == Invalid
      ensures Counted()
      ensures IfEffect(old(tasks), tasks, old(exitOutput), exitOutput, i, condition, forward, rank, top)
    {
      assert 0 <= i < |tasks|;
      error, evaluated := Enter(i, condition, forward);
      SamePending(old(tasks), tasks);
      if error {
        return;
      }
      ghost var w := SkipOf(tasks, exitOutput, rank, top, i, !evaluated);
      OkKept(SkipOf(old(tasks), exitOutput, rank, top, i, false), w);
      ghost var entered := tasks;
      hide Walk.After, Walk.Ok;
      if tasks[i].skipped {
        SkipBranch(i, evaluated, w);
      } else {
        SkipChildren(i);
        SamePending(entered, tasks);
      }
    }

    /** OPH_ELSE. */
    method RunElse(i: int, ghost rank: seq<nat>, ghost top: nat)
      requires SkipOf(tasks, exitOutput, rank, top, i, false).Ok() && Counted()
      modifies this
      ensures Counted()
      ensures var w := SkipOf(old(tasks), old(exitOutput), rank, top, i, false);
              if old(tasks[i].skipped) then w.After(w.Edges(), tasks, exitOutput)
              else tasks == old(tasks) && exitOutput == old(exitOutput)
    {
      if tasks[i].skipped {
        ghost var w := SkipOf(tasks, exitOutput, rank, top, i, false);
        NothingFollowed(w);
        var failed := SetStatusOfBlock(i, UNSELECTED, i, -1, false, w, {});
      }
    }
  }
}
