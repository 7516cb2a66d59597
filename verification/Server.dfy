/**
 * The locked steps of the server on the linked job list, tied to the steps of the admission runs.
 */
module Server {
  import opened Options
  import opened JobSpec
  import opened Admission
  import opened JobList

  /** The list of entries after one event. */
  ghost function ListAfter(list: seq<Entry>, e: Event, limits: Limits): seq<Entry> {
    Step(State(list, Ids(list), Ids(list), 0), e, limits).list
  }

  /** Accepts a workflow with status PENDING, to be run at once or queued. */
  method WfListAppend(list: JobList, job: Job, now: int) returns (code: Code)
    requires list.Valid() && list.clock <= now && job !in list.accepted && job.status == PENDING
    modifies list, list.live, list.gone, Jobs(list.live)`status
    ensures list.Valid()
    ensures code == Insert(old(list.View()), job.id, PENDING, now, list.limits).0
    ensures list.View() == ListAfter(old(list.View()), Submit(job.id, now), list.limits)
    ensures list.accepted == old(list.accepted) + if code in {Ok, FarmFull} then {job} else {}
  {
    hide JobList.Valid, JobList.View, Insert, Sweep;
    var item := new Node(job);
    AppendStep(list.View(), job.id, now, list.limits);
    NewNode(list, item);
    ghost var hit;
    code, hit := list.Insert(item, now);
  }

  lemma AppendStep(list: seq<Entry>, id: int, now: int, limits: Limits)
    ensures ListAfter(list, Submit(id, now), limits) == Insert(list, id, PENDING, now, limits).1
  {
  }

  lemma NewNode(list: JobList, item: Node)
    requires list.Valid() && item !in list.live && item !in list.kept && item !in list.gone &&
      item.job !in list.accepted
    ensures list.IsNew(item)
  {
  }

  /** Drops a workflow that has ended. */
  method WfListDrop(list: JobList, jobid: int, remove: bool, now: int)
    requires list.Valid() && list.clock <= now
    modifies list, list.live, Jobs(list.live)`status
    ensures list.Valid()
    ensures list.View() == ListAfter(old(list.View()), Finish(jobid, now), list.limits)
  {
    list.DropJob(jobid, remove, now);
  }

  /** Gives a listed workflow a status. */
  method SetStatus(list: JobList, item: Node, status: int, ghost p: nat)
    requires list.Valid() && p < |list.live| && item == list.live[p]
    modifies item.job`status
    ensures list.Valid() && item.job.status == status
    ensures list.View() == WithStatus(old(list.View()), item.job.id, status)
  {
    item.job.status := status;
  }

  lemma StartStep(list: seq<Entry>, now: int, limits: Limits, live: seq<Entry>)
    requires live == Sweep(list, now - limits.timeout)
    ensures match Next(live, limits)
            case None => ListAfter(list, Event.StartNext(now), limits) == live
            case Some(p) => p < |live| ==> ListAfter(list, Event.StartNext(now), limits) == WithStatus(live,
              live[p].id, PENDING)
  {
    hide Next, Sweep, WithStatus;
  }

  /** Picks the next workflow from the queue and gives it a status before the lock is released. */
  method StartNext(list: JobList, now: int) returns (item: Node?)
    requires list.Valid() && list.clock <= now
    modifies list, Jobs(list.live)`status
    ensures list.Valid()
    ensures list.View() == ListAfter(old(list.View()), Event.StartNext(now), list.limits)
    ensures item != null ==> item.job.status == PENDING
    ensures item == null <==> Next(Sweep(old(list.View()), now - list.limits.timeout), list.limits).None?
  {
    hide JobList.Valid, JobList.View, JobList.Told, Sweep, Next, IsNext, ListAfter, WithStatus;
    ghost var v, s := list.View(), list.live;
    ghost var r;
    item, r := list.FindUnstarted(now);
    ghost var live := list.View();
    StartStep(v, now, list.limits, live);
    if item != null {
      Listed(list, s, v, r.value);
      SetStatus(list, item, PENDING, r.value);
    }
  }

  /** A node of the swept list was a node of the list before. */
  lemma Listed(list: JobList, s: seq<Node>, v: seq<Entry>, p: nat)
    requires list.Told(s, v) && p < |list.live|
    ensures p < |list.View()| && list.View()[p].id == list.live[p].job.id && list.live[p].job in Jobs(s)
  {
    assert list.live[p] == s[|s| - |list.live| + p];
  }

  /** Two workflows at time 0, when workflows expire after ten seconds, and their list at time 11. */
  lemma TwoExpire(a: Entry, b: Entry, id: int)
    requires a.time == 0 && b.time == 0 && a.id != b.id
    ensures var limits := Limits(0, 0, 10);
      && Insert([], a.id, a.status, 0, limits) == (Ok, [a])
      && Insert([a], b.id, b.status, 0, limits) == (Ok, [a, b])
      && Sweep([a, b], 1) == [] && Insert([a, b], id, PENDING, 11, limits) == (Ok, [Entry(id, 11, PENDING)])
  {
    assert [a, b][1..] == [b] && [b][1..] == [];
    assert Sweep([b], 1) == [];
    assert [] + [a] == [a] && [a] + [b] == [a, b] && [] + [Entry(id, 11, PENDING)] == [Entry(id, 11, PENDING)];
  }

  /** A new list with one workflow. */
  method OneListed() returns (list: JobList, item: Node)
    ensures fresh(list) && fresh(item) && fresh(item.job) && list.Valid() && list.clock <= 0
    ensures list.live == [item] && list.kept == [] && list.gone == {} && list.accepted == {item.job}
    ensures list.limits == Limits(0, 0, 10) && list.View() == [Entry(1, 0, PENDING)]
  {
    hide JobList.Valid, JobList.View, Insert, Sweep;
    TwoExpire(Entry(1, 0, PENDING), Entry(2, 0, PENDING), 3);
    list := new JobList(Limits(0, 0, 10), false);
    list.Counter();
    item := NewItem(1);
    NewNode(list, item);
    var code;
    ghost var hit;
    code, hit := list.Insert(item, 0);
    list.Counter();
  }

  /** A new list with two workflows. */
  method TwoListed() returns (list: JobList, ghost nodes: set<Node>)
    ensures fresh(list) && fresh(nodes) && fresh(Jobs(list.live)) && list.Valid() && list.clock <= 0
    ensures (forall n :: n in list.live || n in list.gone ==> n in nodes) && list.kept == []
    ensures fresh(list.accepted)
    ensures list.limits == Limits(0, 0, 10) && list.View() == [Entry(1, 0, PENDING), Entry(2, 0, PENDING)]
  {
    hide JobList.Valid, JobList.View, Insert, Sweep;
    TwoExpire(Entry(1, 0, PENDING), Entry(2, 0, PENDING), 3);
    var first;
    list, first := OneListed();
    var second := NewItem(2);
    NewNode(list, second);
    var code;
    ghost var hit;
    code, hit := list.Insert(second, 0);
    nodes := {first, second};
    forall job | job in Jobs(list.live)
      ensures job == first.job || job == second.job
    {
      var n :| n in list.live && n.job == job;
    }
  }

  /**
   * A run in which the link to a new workflow is written to a released node: one lookup empties a list of two
   * workflows, and leaves the tail at the first of them.
   */
  method ReleasedNodeIsWritten() returns (list: JobList, ghost hit: Node?)
    ensures fresh(list) && list.Valid() && |list.live| == 1
    ensures hit != null && hit in list.gone && hit.next == list.live[0]
  {
    hide JobList.Valid, JobList.View;
    ghost var nodes;
    list, nodes := TwoListed();
    var third := NewItem(3);
    NewNode(list, third);
    hit := InsertExpired(list, third, nodes, Jobs(list.live));
  }

  /** A third workflow comes when the two in the list are expired. */
  method InsertExpired(list: JobList, item: Node, ghost nodes: set<Node>,
      ghost jobs: set<Job>) returns (ghost hit: Node?)
    requires list.Valid() && list.clock <= 11 && list.IsNew(item) && item.job.id == 3 && item.job.status == PENDING
    requires list.limits == Limits(0, 0, 10) && list.View() == [Entry(1, 0, PENDING), Entry(2, 0, PENDING)]
    requires (forall n :: n in list.live || n in list.gone ==> n in nodes) && Jobs(list.live) == jobs
    modifies list, item, nodes, jobs
    ensures list.Valid() && |list.live| == 1
    ensures hit != null && hit in list.gone && hit.next == list.live[0]
  {
    hide JobList.Valid, JobList.View, Insert, Sweep;
    TwoExpire(Entry(1, 0, PENDING), Entry(2, 0, PENDING), 3);
    list.Counter();
    var code;
    code, hit := list.Insert(item, 11);
    list.Counter();
  }

  method NewItem(id: int) returns (item: Node)
    ensures fresh(item) && fresh(item.job) && item.job.id == id && item.job.status == PENDING
  {
    var job := new Job(id, false, PENDING);
    item := new Node(job);
  }
}
