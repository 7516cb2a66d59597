/**
 * Admission of workflows: in every run of submissions, terminations, expirations and starts from the
 * queue, the list stays within the farm and the queue, and the started workflows within the farm.
 */
module Admission {
  import opened Options
  import opened Sequences
  import opened JobSpec

  /** The job list, the ids of the workflows that were started, and those that are still to be marked as queued. */
  datatype State = State(list: seq<Entry>, started: set<int>, toMark: set<int>, clock: int)

  datatype Event =
    | Submit(id: int, now: int)
    | MarkQueued(id: int)
    | Progress(id: int, status: int)
    | StartNext(now: int)
    | Finish(id: int, now: int)
    | Lookup(now: int)

  ghost function Ids(s: seq<Entry>): set<int> {
    set i | 0 <= i < |s| :: s[i].id
  }

  ghost function Busy(s: seq<Entry>): set<int> {
    set i | 0 <= i < |s| && s[i].status != UNKNOWN :: s[i].id
  }

  /** The list with the status of one workflow changed. */
  ghost function WithStatus(s: seq<Entry>, id: int, status: int): (r: seq<Entry>)
    ensures |r| == |s|
    ensures forall i :: 0 <= i < |s| ==> r[i] == if s[i].id == id then s[i].(status := status) else s[i]
  {
    seq(|s|, i requires 0 <= i < |s| => if s[i].id == id then s[i].(status := status) else s[i])
  }

  /** Forget about workflows that are no longer listed. */
  ghost function Listed(list: seq<Entry>, started: set<int>, toMark: set<int>, clock: int): State {
    State(list, started * Ids(list), toMark * Ids(list), clock)
  }

  /**
   * One step of the server. A submission that finds the farm full is queued; its status is changed
   * in a step of its own, because the lock is released in between.
   */
  ghost function Step(s: State, e: Event, limits: Limits): State {
    match e
    case Submit(id, now) =>
      var (code, list) := Insert(s.list, id, PENDING, now, limits);
      if code == Ok || code == FarmFull then
        var live := Listed(Sweep(s.list, now - limits.timeout), s.started, s.toMark, now);
        State(list, if code == Ok then live.started + {id} else live.started,
              if code == FarmFull then live.toMark + {id} else live.toMark, now)
      else Listed(list, s.started, s.toMark, now)
    case MarkQueued(id) =>
      if id in s.toMark then State(WithStatus(s.list, id, UNKNOWN), s.started, s.toMark - {id}, s.clock) else s
    case Progress(id, status) =>
      if id in s.started && status != UNKNOWN then s.(list := WithStatus(s.list, id, status)) else s
    case StartNext(now) =>
      var live := Sweep(s.list, now - limits.timeout);
      (match Next(live, limits)
       case None => Listed(live, s.started, s.toMark, now)
       case Some(p) =>
         if p < |live| then Listed(WithStatus(live, live[p].id, PENDING), s.started + {live[p].id}, s.toMark, now)
         else s)
    case Finish(id, now) => Listed(Drop(s.list, id, now, limits), s.started, s.toMark, now)
    case Lookup(now) => Listed(Sweep(s.list, now - limits.timeout), s.started, s.toMark, now)
  }

  /** The clock does not go back. */
  ghost predicate Timely(s: State, e: Event) {
    (e.Submit? || e.StartNext? || e.Finish? || e.Lookup?) ==> s.clock <= e.now
  }

  /** Exactly the started workflows, and those to be marked, have a status. */
  ghost predicate Inv(s: State, limits: Limits) {
    && WellFormed(s.list, s.clock)
    && Busy(s.list) == s.started + s.toMark && s.started !! s.toMark
    && (limits.farm != 0 ==> |s.started| <= limits.farm)
    && (limits.farm != 0 && limits.queue != 0 ==> |s.list| <= limits.farm + limits.queue)
    && (limits.farm == 0 ==> s.started == Ids(s.list))
  }

  lemma BusyCons(s: seq<Entry>)
    requires s != [] && Distinct(s)
    ensures s[0].id !in Busy(s[1..])
    ensures Busy(s) == Busy(s[1..]) + if s[0].status != UNKNOWN then {s[0].id} else {}
  {
    forall x | x in Busy(s)
      ensures x in Busy(s[1..]) || (x == s[0].id && s[0].status != UNKNOWN)
    {
      var i :| 0 <= i < |s| && s[i].status != UNKNOWN && s[i].id == x;
      assert i > 0 ==> s[1..][i - 1] == s[i];
    }
    forall x | x in Busy(s[1..])
      ensures x in Busy(s) && x != s[0].id
    {
      var i :| 0 <= i < |s[1..]| && s[1..][i].status != UNKNOWN && s[1..][i].id == x;
      assert s[1..][i] == s[i + 1];
    }
  }

  lemma {:induction false} RunningIsBusy(s: seq<Entry>)
    requires Distinct(s)
    ensures Running(s) == |Busy(s)|
  {
    if s != [] {
      RunningIsBusy(s[1..]);
      BusyCons(s);
    }
  }

  lemma {:induction false} IdsCount(s: seq<Entry>)
    requires Distinct(s)
    ensures |Ids(s)| == |s|
  {
    if s != [] {
      IdsCount(s[1..]);
      assert Ids(s) == Ids(s[1..]) + {s[0].id};
    }
  }

  lemma FewerThan(a: set<int>, b: set<int>)
    requires a <= b
    ensures |a| <= |b|
  {
    assert b == a + (b - a);
  }

  /** Fewer entries: fewer ids, and the same ones among them are busy. */
  lemma FewerEntries(list: seq<Entry>, list': seq<Entry>)
    requires Distinct(list) && forall e :: e in list' ==> e in list
    ensures Ids(list') <= Ids(list) && Busy(list') == Busy(list) * Ids(list')
  {
    forall id | id in Ids(list')
      ensures id in Ids(list) && (id in Busy(list') <==> id in Busy(list))
    {
      var i :| 0 <= i < |list'| && list'[i].id == id;
      assert list'[i] in list;
      var j :| 0 <= j < |list| && list[j] == list'[i];
      if id in Busy(list') {
        var k :| 0 <= k < |list'| && list'[k].status != UNKNOWN && list'[k].id == id;
        assert list'[k] in list;
      }
    }
  }

  lemma FewerTimes(list: seq<Entry>, list': seq<Entry>, clock: int, now: int)
    requires clock <= now && (forall i :: 0 <= i < |list| ==> list[i].time <= clock)
    requires forall e :: e in list' ==> e in list
    ensures forall i :: 0 <= i < |list'| ==> list'[i].time <= now
  {
    forall i | 0 <= i < |list'|
      ensures list'[i].time <= now
    {
      assert list'[i] in list;
    }
  }

  /** Workflows leave the list: what is left is within the same limits. */
  lemma Shrinks(s: State, list: seq<Entry>, now: int, limits: Limits)
    requires Inv(s, limits) && s.clock <= now
    requires |list| <= |s.list| && Sorted(list) && Distinct(list) && forall e :: e in list ==> e in s.list
    ensures Inv(Listed(list, s.started, s.toMark, now), limits)
  {
    hide Sorted, Distinct, Ids, Busy;
    FewerEntries(s.list, list);
    FewerTimes(s.list, list, s.clock, now);
    FewerThan(s.started * Ids(list), s.started);
    CommonPart(s.started, s.toMark, Ids(list));
  }

  /** Sweeping and dropping keep the order of the list. */
  lemma SweepShrinks(list: seq<Entry>, deadline: int)
    requires Sorted(list) && Distinct(list)
    ensures var r := Sweep(list, deadline);
            |r| <= |list| && Sorted(r) && Distinct(r) && forall e :: e in r ==> e in list
  {
    SweepSuffix(list, deadline);
    hide Sweep;
  }

  lemma RemoveShrinks(list: seq<Entry>, p: nat)
    requires Sorted(list) && Distinct(list) && p < |list|
    ensures var r := Without(list, p);
            |r| <= |list| && Sorted(r) && Distinct(r) && forall e :: e in r ==> e in list
  {
  }

  lemma LookupKeeps(s: State, now: int, limits: Limits)
    requires Inv(s, limits) && s.clock <= now
    ensures Inv(Step(s, Lookup(now), limits), limits)
  {
    hide Inv, Sorted, Distinct, Sweep;
    InvOrder(s, limits);
    SweepShrinks(s.list, now - limits.timeout);
    Shrinks(s, Sweep(s.list, now - limits.timeout), now, limits);
  }

  lemma InvOrder(s: State, limits: Limits)
    requires Inv(s, limits)
    ensures Sorted(s.list) && Distinct(s.list)
  {
  }

  lemma FinishKeeps(s: State, id: int, now: int, limits: Limits)
    requires Inv(s, limits) && s.clock <= now
    ensures Inv(Step(s, Finish(id, now), limits), limits)
  {
    hide Inv, Sorted, Distinct, Sweep, Find;
    InvOrder(s, limits);
    var live := Sweep(s.list, now - limits.timeout);
    SweepShrinks(s.list, now - limits.timeout);
    match Find(live, id) {
      case None =>
        Shrinks(s, live, now, limits);
      case Some(p) =>
        RemoveShrinks(live, p);
        Shrinks(s, Without(live, p), now, limits);
    }
  }

  /** A new workflow at the end of the list. */
  lemma OneMoreEntry(list: seq<Entry>, e: Entry)
    requires Sorted(list) && Distinct(list)
    requires forall i :: 0 <= i < |list| ==> list[i].time <= e.time && list[i].id != e.id
    ensures Sorted(list + [e]) && Distinct(list + [e]) && e.id !in Ids(list)
    ensures Ids(list + [e]) == Ids(list) + {e.id}
    ensures Busy(list + [e]) == Busy(list) + if e.status != UNKNOWN then {e.id} else {}
  {
    var r := list + [e];
    assert forall i :: 0 <= i < |list| ==> r[i] == list[i];
    assert r[|list|] == e;
  }

  lemma SubmitKeeps(s: State, id: int, now: int, limits: Limits)
    requires Inv(s, limits) && s.clock <= now
    ensures Inv(Step(s, Submit(id, now), limits), limits)
  {
    hide Inv, Sorted, Distinct, Sweep, Find, Ids, Busy, Insert;
    InvOrder(s, limits);
    var live := Sweep(s.list, now - limits.timeout);
    SweepShrinks(s.list, now - limits.timeout);
    InsertCases(s.list, live, id, PENDING, now, limits);
    var (code, list) := Insert(s.list, id, PENDING, now, limits);
    if code == Full {
      Shrinks(s, s.list, now, limits);
    } else if code == Existing {
      Shrinks(s, live, now, limits);
    } else {
      Admitted(s, live, id, now, limits, code);
    }
  }

  lemma Admitted(s: State, live: seq<Entry>, id: int, now: int, limits: Limits, code: Code)
    requires Inv(s, limits) && s.clock <= now
    requires live == Sweep(s.list, now - limits.timeout) && Find(live, id).None?
    requires !(limits.farm != 0 && limits.queue != 0 && |s.list| >= limits.farm + limits.queue)
    requires code == if limits.farm != 0 && |s.list| >= limits.farm then FarmFull else Ok
    ensures var t := Listed(live, s.started, s.toMark, now);
            Inv(State(live + [Entry(id, now, PENDING)], if code == Ok then t.started + {id} else t.started,
                      if code == FarmFull then t.toMark + {id} else t.toMark, now), limits)
  {
    hide Sorted, Distinct, Sweep, Find, Ids, Busy;
    SweepShrinks(s.list, now - limits.timeout);
    Shrinks(s, live, now, limits);
    StartedListed(s, limits);
    FewerThan(s.started * Ids(live), s.started);
    Extends(Listed(live, s.started, s.toMark, now), id, now, limits, code);
  }

  /** One more workflow within the limits. */
  lemma Extends(t: State, id: int, now: int, limits: Limits, code: Code)
    requires Inv(t, limits) && t.clock == now && Find(t.list, id).None?
    requires limits.farm != 0 && limits.queue != 0 ==> |t.list| < limits.farm + limits.queue
    requires code in {Ok, FarmFull} && (limits.farm == 0 ==> code == Ok)
    requires limits.farm != 0 && code == Ok ==> |t.started| < limits.farm
    ensures Inv(State(t.list + [Entry(id, now, PENDING)], if code == Ok then t.started + {id} else t.started,
                      if code == FarmFull then t.toMark + {id} else t.toMark, now), limits)
  {
    hide Sorted, Distinct, Ids, Busy;
    var e := Entry(id, now, PENDING);
    OneMoreEntry(t.list, e);
    OneMoreInTime(t.list, e);
    StartedListed(t, limits);
    ExtendedBy(t, t.list + [e], id, limits, code);
  }

  lemma OneMoreInTime(list: seq<Entry>, e: Entry)
    requires forall i :: 0 <= i < |list| ==> list[i].time <= e.time
    ensures |list + [e]| == |list| + 1 && forall i :: 0 <= i < |list + [e]| ==> (list + [e])[i].time <= e.time
  {
  }

  lemma ExtendedBy(t: State, list: seq<Entry>, id: int, limits: Limits, code: Code)
    requires Inv(t, limits) && t.started + t.toMark <= Ids(t.list) && id !in Ids(t.list) && |list| == |t.list| + 1
    requires WellFormed(list, t.clock) && Ids(list) == Ids(t.list) + {id} && Busy(list) == Busy(t.list) + {id}
    requires limits.farm != 0 && limits.queue != 0 ==> |t.list| < limits.farm + limits.queue
    requires code in {Ok, FarmFull} && (limits.farm == 0 ==> code == Ok)
    requires limits.farm != 0 && code == Ok ==> |t.started| < limits.farm
    ensures Inv(State(list, if code == Ok then t.started + {id} else t.started,
                      if code == FarmFull then t.toMark + {id} else t.toMark, t.clock), limits)
  {
    hide WellFormed, Ids, Busy;
    assert id !in t.started && id !in t.toMark;
    if code == Ok {
      OneMoreOf(t.started, t.toMark, id);
    } else {
      OneMoreOf(t.toMark, t.started, id);
    }
  }

  lemma CommonPart(a: set<int>, b: set<int>, c: set<int>)
    requires a !! b
    ensures (a + b) * c == a * c + b * c && (a * c) !! (b * c)
  {
  }

  lemma OneMoreOf(a: set<int>, b: set<int>, x: int)
    requires x !in a && x !in b && a !! b
    ensures (a + {x}) + b == a + b + {x} && b + (a + {x}) == b + a + {x} && (a + {x}) !! b && |a + {x}| == |a| + 1
  {
  }

  /** There are no more started workflows than listed ones. */
  lemma StartedListed(s: State, limits: Limits)
    requires Inv(s, limits)
    ensures s.started + s.toMark <= Ids(s.list) && |s.started| <= |s.list|
  {
    IdsCount(s.list);
    FewerThan(s.started, Ids(s.list));
  }

  /** Changing the status of one workflow. */
  lemma Restatus(list: seq<Entry>, id: int, status: int)
    requires Sorted(list) && Distinct(list)
    ensures var r := WithStatus(list, id, status);
            && Sorted(r) && Distinct(r) && Ids(r) == Ids(list)
            && (forall i :: 0 <= i < |r| ==> r[i].time == list[i].time)
            && Busy(r) == if status == UNKNOWN then Busy(list) - {id} else Busy(list) + ({id} * Ids(list))
  {
    var r := WithStatus(list, id, status);
    hide WithStatus;
    assert forall i :: 0 <= i < |list| ==> r[i].id == list[i].id;
    forall x | x in Ids(list)
      ensures x in Ids(r)
    {
      var i :| 0 <= i < |list| && list[i].id == x;
      assert r[i].id == x;
    }
    BusyRestatus(list, id, status, r);
  }

  lemma BusyRestatus(list: seq<Entry>, id: int, status: int, r: seq<Entry>)
    requires |r| == |list|
    requires forall i :: 0 <= i < |list| ==> r[i] == if list[i].id == id then list[i].(status := status) else list[i]
    ensures Busy(r) == if status == UNKNOWN then Busy(list) - {id} else Busy(list) + ({id} * Ids(list))
  {
    forall x | x in Busy(list) && x != id
      ensures x in Busy(r)
    {
      var i :| 0 <= i < |list| && list[i].status != UNKNOWN && list[i].id == x;
      assert r[i].status != UNKNOWN && r[i].id == x;
    }
    if id in Ids(list) && status != UNKNOWN {
      var i :| 0 <= i < |list| && list[i].id == id;
      assert r[i].status != UNKNOWN && r[i].id == id;
    }
  }

  lemma MarkKeeps(s: State, id: int, limits: Limits)
    requires Inv(s, limits)
    ensures Inv(Step(s, MarkQueued(id), limits), limits)
  {
    hide Sorted, Distinct, Ids, Busy, WithStatus;
    Restatus(s.list, id, UNKNOWN);
    StartedListed(s, limits);
  }

  lemma ProgressKeeps(s: State, id: int, status: int, limits: Limits)
    requires Inv(s, limits)
    ensures Inv(Step(s, Progress(id, status), limits), limits)
  {
    hide Sorted, Distinct, Ids, Busy, WithStatus;
    Restatus(s.list, id, status);
    StartedListed(s, limits);
  }

  lemma StartKeeps(s: State, now: int, limits: Limits)
    requires Inv(s, limits) && s.clock <= now
    ensures Inv(Step(s, StartNext(now), limits), limits)
  {
    hide Inv, Sorted, Distinct, Sweep, Ids, Busy, WithStatus, Next;
    InvOrder(s, limits);
    var live := Sweep(s.list, now - limits.timeout);
    SweepShrinks(s.list, now - limits.timeout);
    Shrinks(s, live, now, limits);
    match Next(live, limits) {
      case None =>
      case Some(p) =>
        if p < |live| {
          Starts(Listed(live, s.started, s.toMark, now), p, limits);
          SameListed(s, live, now, p);
        } else {
          NextInRange(live, limits);
        }
    }
  }

  lemma NextFacts(live: seq<Entry>, limits: Limits, p: nat)
    requires Next(live, limits) == Some(p)
    ensures limits.farm != 0 && Running(live) < limits.farm && p < |live| && live[p].status == UNKNOWN
  {
  }

  lemma NextInRange(live: seq<Entry>, limits: Limits)
    ensures Next(live, limits).Some? ==> Next(live, limits).value < |live|
  {
  }

  lemma SameListed(s: State, live: seq<Entry>, now: int, p: nat)
    requires Sorted(live) && Distinct(live) && p < |live|
    ensures Listed(WithStatus(live, live[p].id, PENDING), s.started + {live[p].id}, s.toMark, now)
         == State(WithStatus(live, live[p].id, PENDING), Listed(live, s.started, s.toMark, now).started + {live[p].id},
                  Listed(live, s.started, s.toMark, now).toMark, now)
  {
    hide Sorted, Distinct, Busy, WithStatus;
    Restatus(live, live[p].id, PENDING);
    assert live[p].id in Ids(live);
  }

  /** Starting a queued workflow when the farm has a free slot. */
  lemma Starts(t: State, p: nat, limits: Limits)
    requires Inv(t, limits) && p < |t.list| && Next(t.list, limits) == Some(p)
    ensures Inv(State(WithStatus(t.list, t.list[p].id, PENDING), t.started + {t.list[p].id}, t.toMark, t.clock), limits)
  {
    hide Sorted, Distinct, Ids, Busy, WithStatus, Running, FirstQueued, Next;
    var id := t.list[p].id;
    NextFacts(t.list, limits, p);
    Restatus(t.list, id, PENDING);
    RunningIsBusy(t.list);
    FewerThan(t.started, Busy(t.list));
    PositionListed(t.list, p);
  }

  lemma PositionListed(list: seq<Entry>, p: nat)
    requires p < |list| && Distinct(list)
    ensures list[p].id in Ids(list) && (list[p].status == UNKNOWN ==> list[p].id !in Busy(list))
  {
  }

  ghost function Initial(): State {
    State([], {}, {}, 0)
  }

  /** The state after a run, if the clock never goes back. */
  ghost function Run(events: seq<Event>, limits: Limits): State {
    if events == [] then Initial() else Step(Run(events[..|events| - 1], limits), events[|events| - 1], limits)
  }

  ghost predicate TimelyRun(events: seq<Event>, limits: Limits) {
    events == [] || (TimelyRun(events[..|events| - 1], limits) &&
      Timely(Run(events[..|events| - 1], limits), events[|events| - 1]))
  }

  /** Every step keeps the invariant. */
  lemma StepKeeps(s: State, e: Event, limits: Limits)
    requires Inv(s, limits) && Timely(s, e)
    ensures Inv(Step(s, e, limits), limits)
  {
    hide Inv, Step;
    match e {
      case Submit(id, now) => SubmitKeeps(s, id, now, limits);
      case MarkQueued(id) => MarkKeeps(s, id, limits);
      case Progress(id, status) => ProgressKeeps(s, id, status, limits);
      case StartNext(now) => StartKeeps(s, now, limits);
      case Finish(id, now) => FinishKeeps(s, id, now, limits);
      case Lookup(now) => LookupKeeps(s, now, limits);
    }
  }

  lemma {:induction false} RunKeeps(events: seq<Event>, limits: Limits)
    requires TimelyRun(events, limits)
    ensures Inv(Run(events, limits), limits)
  {
    hide Step;
    if events != [] {
      RunKeeps(events[..|events| - 1], limits);
      StepKeeps(Run(events[..|events| - 1], limits), events[|events| - 1], limits);
    }
  }

  /**
   * In every run the list never exceeds the farm and the queue together, the started workflows never
   * exceed the farm, and every workflow that is listed but not started waits with no status or is
   * about to be marked so.
   */
  lemma AdmissionIsBounded(events: seq<Event>, limits: Limits)
    requires TimelyRun(events, limits)
    ensures var s := Run(events, limits);
            && (limits.farm != 0 && limits.queue != 0 ==> |s.list| <= limits.farm + limits.queue)
            && (limits.farm != 0 ==> |s.started| <= limits.farm)
            && s.started <= Ids(s.list)
            && Sorted(s.list) && Distinct(s.list)
            && (forall i :: 0 <= i < |s.list| ==>
                  (s.list[i].status == UNKNOWN <==> s.list[i].id !in s.started && s.list[i].id !in s.toMark))
  {
    hide Run, TimelyRun;
    RunKeeps(events, limits);
    var s := Run(events, limits);
    StartedListed(s, limits);
    forall i | 0 <= i < |s.list|
      ensures s.list[i].status == UNKNOWN <==> s.list[i].id !in s.started && s.list[i].id !in s.toMark
    {
      PositionListed(s.list, i);
    }
  }

  ghost predicate SomethingQueued(list: seq<Entry>) {
    exists i :: 0 <= i < |list| && list[i].status == UNKNOWN
  }

  /** The state of a run when a search at the given time has taken the expired workflows out of the list. */
  ghost function Swept(events: seq<Event>, limits: Limits, now: int): State {
    Step(Run(events, limits), Lookup(now), limits)
  }

  /**
   * In every run the search finds a workflow if and only if something is queued and the farm has room besides
   * the started workflows and those that are still to be marked as queued; what it finds is the oldest one.
   */
  lemma StartsTheOldest(events: seq<Event>, limits: Limits, now: int)
    requires TimelyRun(events, limits) && Run(events, limits).clock <= now
    ensures var s := Swept(events, limits, now);
      && (Next(s.list, limits).Some? <==> |s.started| + |s.toMark| < limits.farm && SomethingQueued(s.list))
      && (Next(s.list, limits).Some? ==>
            var p := Next(s.list, limits).value;
            && p < |s.list| && s.list[p].status == UNKNOWN
            && forall i :: 0 <= i < |s.list| && s.list[i].status == UNKNOWN ==>
                 p <= i && s.list[p].time <= s.list[i].time)
  {
    hide Run, TimelyRun, Inv, Running, FirstQueued, Distinct, Step, Busy;
    RunKeeps(events, limits);
    LookupKeeps(Run(events, limits), now, limits);
    var s := Swept(events, limits, now);
    InvOrder(s, limits);
    SlotsTaken(s, limits);
  }

  /** The farm counts the started workflows and those that are still to be marked. */
  lemma SlotsTaken(s: State, limits: Limits)
    requires Inv(s, limits)
    ensures Running(s.list) == |s.started| + |s.toMark|
  {
    RunningIsBusy(s.list);
  }

  /** When no workflow is still to be marked, a free slot of the farm is enough. */
  lemma FreeSlotIsUsed(events: seq<Event>, limits: Limits, now: int)
    requires TimelyRun(events, limits) && Run(events, limits).clock <= now
    requires Swept(events, limits, now).toMark == {}
    ensures var s := Swept(events, limits, now);
      Next(s.list, limits).Some? <==> |s.started| < limits.farm && SomethingQueued(s.list)
  {
    hide Run, TimelyRun, Step, Next;
    StartsTheOldest(events, limits, now);
  }

  // ----- two runs in which a slot of the farm stays free although something is queued

  lemma NoEvents(limits: Limits)
    ensures Run([], limits) == Initial() && TimelyRun([], limits)
  {
  }

  /** A run with one more event, whose effect is known. */
  lemma Extend(events: seq<Event>, e: Event, limits: Limits, s: State) returns (events': seq<Event>)
    requires TimelyRun(events, limits) && Timely(Run(events, limits), e) && Step(Run(events, limits), e, limits) == s
    ensures events' == events + [e] && TimelyRun(events', limits) && Run(events', limits) == s
  {
    events' := events + [e];
    assert events'[..|events|] == events;
  }

  /** A submission at time 0 that is accepted, when nothing is expired. */
  lemma SubmitAt0(s: State, id: int, limits: Limits)
    requires limits.timeout >= 0 && s.clock == 0 && (forall e :: e in s.list ==> e.time == 0 && e.id != id)
    requires s.started + s.toMark <= Ids(s.list) && limits.farm != 0 && limits.queue == 0
    ensures Step(s, Submit(id, 0), limits) ==
      State(s.list + [Entry(id, 0, PENDING)], if |s.list| < limits.farm then s.started + {id} else s.started,
            if |s.list| < limits.farm then s.toMark else s.toMark + {id}, 0)
  {
    hide Ids;
    assert Sweep(s.list, 0 - limits.timeout) == s.list;
    assert s.started * Ids(s.list) == s.started && s.toMark * Ids(s.list) == s.toMark;
  }

  /** The first of some workflows finishes at time 0, when nothing is expired. */
  lemma FinishAt0(s: State, limits: Limits)
    requires limits.timeout >= 0 && s.clock == 0 && s.list != [] && forall e :: e in s.list ==> e.time == 0
    ensures Step(s, Finish(s.list[0].id, 0), limits) ==
      State(s.list[1..], s.started * Ids(s.list[1..]), s.toMark * Ids(s.list[1..]), 0)
  {
    assert Sweep(s.list, 0 - limits.timeout) == s.list;
    assert Without(s.list, 0) == s.list[1..];
  }

  /** Two workflows are started, and a third one is queued. */
  lemma TwoStartedOneQueued() returns (events: seq<Event>)
    ensures events == [Submit(4, 0), Submit(1, 0), Submit(2, 0), MarkQueued(2)] && TimelyRun(events, Limits(2, 0, 10))
    ensures Run(events, Limits(2, 0, 10)) ==
      State([Entry(4, 0, PENDING), Entry(1, 0, PENDING), Entry(2, 0, UNKNOWN)], {4, 1}, {}, 0)
  {
    hide Run, TimelyRun, Step, Ids;
    var limits := Limits(2, 0, 10);
    var a, b, c := Entry(4, 0, PENDING), Entry(1, 0, PENDING), Entry(2, 0, PENDING);
    NoEvents(limits);
    SubmitAt0(Initial(), 4, limits);
    events := Extend([], Submit(4, 0), limits, State([a], {4}, {}, 0));
    IdsOfOne(a);
    SubmitAt0(State([a], {4}, {}, 0), 1, limits);
    events := Extend(events, Submit(1, 0), limits, State([a, b], {4, 1}, {}, 0));
    IdsOfTwo(a, b);
    SubmitAt0(State([a, b], {4, 1}, {}, 0), 2, limits);
    events := Extend(events, Submit(2, 0), limits, State([a, b, c], {4, 1}, {2}, 0));
    Marked(State([a, b, c], {4, 1}, {2}, 0), 2, limits, [a, b, Entry(2, 0, UNKNOWN)]);
    events := Extend(events, MarkQueued(2), limits, State([a, b, Entry(2, 0, UNKNOWN)], {4, 1}, {}, 0));
  }

  /**
   * With a farm of two, one workflow runs, one is queued and one is still to be marked: the search finds
   * nothing, although only one workflow was started.
   */
  lemma SlotHeldUnmarked() returns (events: seq<Event>)
    ensures events == [Submit(4, 0), Submit(1, 0), Submit(2, 0), MarkQueued(2), Submit(3, 0), Finish(4, 0)]
    ensures TimelyRun(events, Limits(2, 0, 10))
    ensures var s := Run(events, Limits(2, 0, 10));
      s.started == {1} && s.toMark == {3} && SomethingQueued(s.list) && Next(s.list, Limits(2, 0, 10)) == None
  {
    hide Run, TimelyRun, Step, Next, Ids;
    var limits := Limits(2, 0, 10);
    var a, b, q, d := Entry(4, 0, PENDING), Entry(1, 0, PENDING), Entry(2, 0, UNKNOWN), Entry(3, 0, PENDING);
    events := TwoStartedOneQueued();
    IdsOfThree(a, b, q);
    SubmitAt0(State([a, b, q], {4, 1}, {}, 0), 3, limits);
    events := Extend(events, Submit(3, 0), limits, State([a, b, q, d], {4, 1}, {3}, 0));
    FinishAt0(State([a, b, q, d], {4, 1}, {3}, 0), limits);
    assert [a, b, q, d][1..] == [b, q, d];
    IdsOfThree(b, q, d);
    assert {4, 1} * {1, 2, 3} == {1};
    events := Extend(events, Finish(4, 0), limits, State([b, q, d], {1}, {3}, 0));
    NoSlot(b, q, d);
  }

  lemma NoSlot(b: Entry, q: Entry, d: Entry)
    requires b.status != UNKNOWN && q.status == UNKNOWN && d.status != UNKNOWN
    ensures SomethingQueued([b, q, d]) && Next([b, q, d], Limits(2, 0, 10)) == None
  {
    var list := [b, q, d];
    assert list[1].status == UNKNOWN;
    assert list[1..] == [q, d] && [q, d][1..] == [d] && [d][1..] == [];
    assert Running([d]) == 1 && Running([q, d]) == 1;
  }

  lemma IdsOfTwo(a: Entry, b: Entry)
    ensures Ids([a, b]) == {a.id, b.id}
  {
    assert [a, b][0].id in Ids([a, b]) && [a, b][1].id in Ids([a, b]);
  }

  lemma IdsOfThree(a: Entry, b: Entry, c: Entry)
    ensures Ids([a, b, c]) == {a.id, b.id, c.id}
  {
    var s := [a, b, c];
    assert s[0].id in Ids(s) && s[1].id in Ids(s) && s[2].id in Ids(s);
  }

  lemma Marked(s: State, id: int, limits: Limits, list: seq<Entry>)
    requires id in s.toMark && list == WithStatus(s.list, id, UNKNOWN)
    ensures Step(s, MarkQueued(id), limits) == State(list, s.started, s.toMark - {id}, s.clock)
  {
  }

  /** With a farm of one, the only workflow ends before the next one is marked as queued. */
  lemma OneEndsOneUnmarked() returns (events: seq<Event>)
    ensures events == [Submit(1, 0), Submit(2, 0), Finish(1, 0)] && TimelyRun(events, Limits(1, 0, 10))
    ensures Run(events, Limits(1, 0, 10)) == State([Entry(2, 0, PENDING)], {}, {2}, 0)
  {
    hide Run, TimelyRun, Step, Ids, Next;
    var limits := Limits(1, 0, 10);
    var a, b := Entry(1, 0, PENDING), Entry(2, 0, PENDING);
    NoEvents(limits);
    SubmitAt0(Initial(), 1, limits);
    events := Extend([], Submit(1, 0), limits, State([a], {1}, {}, 0));
    IdsOfOne(a);
    SubmitAt0(State([a], {1}, {}, 0), 2, limits);
    events := Extend(events, Submit(2, 0), limits, State([a, b], {1}, {2}, 0));
    FinishAt0(State([a, b], {1}, {2}, 0), limits);
    IdsOfOne(b);
    assert [a, b][1..] == [b];
    events := Extend(events, Finish(1, 0), limits, State([b], {}, {2}, 0));
  }

  /**
   * With a farm of one, the search after the only termination comes before a queued workflow is marked: the
   * workflow stays queued although none is started.
   */
  lemma LeftInTheQueue() returns (events: seq<Event>)
    ensures events == [Submit(1, 0), Submit(2, 0), Finish(1, 0), StartNext(0), MarkQueued(2)]
    ensures TimelyRun(events, Limits(1, 0, 10))
    ensures Run(events, Limits(1, 0, 10)) == State([Entry(2, 0, UNKNOWN)], {}, {}, 0)
  {
    hide Run, TimelyRun, Step, Ids, Next, WithStatus;
    var limits := Limits(1, 0, 10);
    var b := Entry(2, 0, PENDING);
    events := OneEndsOneUnmarked();
    OneTaken(b);
    IdsOfOne(b);
    NothingToStart(State([b], {}, {2}, 0), limits);
    events := Extend(events, StartNext(0), limits, State([b], {}, {2}, 0));
    OneMarked(b);
    Marked(State([b], {}, {2}, 0), 2, limits, [Entry(2, 0, UNKNOWN)]);
    events := Extend(events, MarkQueued(2), limits, State([Entry(2, 0, UNKNOWN)], {}, {}, 0));
  }

  lemma OneMarked(b: Entry)
    ensures WithStatus([b], b.id, UNKNOWN) == [b.(status := UNKNOWN)]
  {
  }

  lemma OneTaken(b: Entry)
    requires b.status != UNKNOWN
    ensures Next([b], Limits(1, 0, 10)) == None
  {
    assert [b][1..] == [];
  }

  lemma IdsOfOne(a: Entry)
    ensures Ids([a]) == {a.id}
  {
    assert [a][0].id in Ids([a]);
  }

  /** A search at time 0 that finds nothing, when nothing is expired. */
  lemma NothingToStart(s: State, limits: Limits)
    requires limits.timeout >= 0 && s.clock == 0 && (forall e :: e in s.list ==> e.time == 0)
    requires Next(s.list, limits) == None && s.started + s.toMark <= Ids(s.list)
    ensures Step(s, StartNext(0), limits) == s
  {
    hide Ids;
    assert Sweep(s.list, 0 - limits.timeout) == s.list;
    assert s.started * Ids(s.list) == s.started && s.toMark * Ids(s.list) == s.toMark;
  }
}
