/**
 * The job list as a plain sequence of entries, and what each operation of the server does to it.
 */
module JobSpec {
  import opened Options
  import opened Sequences

  const UNKNOWN := 0
  const PENDING := 1
  const EXPIRED := 27

  /** An accepted workflow: its job id, the time it was inserted, and its status. */
  datatype Entry = Entry(id: int, time: int, status: int)

  /** The limits of the server: zero stands for unlimited. A workflow expires after `timeout` seconds. */
  datatype Limits = Limits(farm: nat, queue: nat, timeout: int)

  datatype Code = Ok | Existing | Full | FarmFull

  /** The entries that are not expired, when the expired ones come first. */
  function Sweep(s: seq<Entry>, deadline: int): seq<Entry> {
    if s != [] && s[0].time < deadline then Sweep(s[1..], deadline) else s
  }

  /** The swept list is the rest of the list from the first entry that is not expired. */
  lemma {:induction false} SweepSuffix(s: seq<Entry>, deadline: int)
    ensures var r := Sweep(s, deadline);
            && |r| <= |s| && r == s[|s| - |r|..]
            && (forall i :: 0 <= i < |s| - |r| ==> s[i].time < deadline)
            && (r != [] ==> r[0].time >= deadline)
  {
    if s != [] && s[0].time < deadline {
      SweepSuffix(s[1..], deadline);
    }
  }

  predicate Sorted(s: seq<Entry>) {
    forall i, j :: 0 <= i < j < |s| ==> s[i].time <= s[j].time
  }

  predicate Distinct(s: seq<Entry>) {
    forall i, j :: 0 <= i < j < |s| ==> s[i].id != s[j].id
  }

  /** The list is as the server keeps it at the given time. */
  predicate WellFormed(s: seq<Entry>, now: int) {
    Sorted(s) && Distinct(s) && forall i :: 0 <= i < |s| ==> s[i].time <= now
  }

  /** The position of the entry with the given id. */
  function Find(s: seq<Entry>, id: int): (r: Option<nat>)
    ensures r.Some? ==> r.value < |s| && s[r.value].id == id
    ensures r.None? ==> forall i :: 0 <= i < |s| ==> s[i].id != id
  {
    if s == [] then None else if s[0].id == id then Some(0)
    else match Find(s[1..], id)
         case None => None
         case Some(i) => Some(i + 1)
  }

  /** The number of workflows with a status, that is of those that occupy the farm. */
  function Running(s: seq<Entry>): nat {
    if s == [] then 0 else Running(s[1..]) + if s[0].status != UNKNOWN then 1 else 0
  }

  /** Some workflow is queued exactly when fewer workflows are running than listed. */
  lemma RunningBound(s: seq<Entry>)
    ensures Running(s) <= |s|
    ensures Running(s) < |s| <==> exists i :: 0 <= i < |s| && s[i].status == UNKNOWN
  {
    if s != [] {
      RunningBound(s[1..]);
      if Running(s) < |s| && s[0].status != UNKNOWN {
        var i :| 0 <= i < |s[1..]| && s[1..][i].status == UNKNOWN;
        assert s[i + 1].status == UNKNOWN;
      }
      if i :| 0 <= i < |s| && s[i].status == UNKNOWN {
        if i > 0 {
          assert s[1..][i - 1].status == UNKNOWN;
        }
      }
    }
  }

  /** Inserting a workflow: the limits are checked against the list before it is swept. */
  function Insert(s: seq<Entry>, id: int, status: int, now: int, limits: Limits): (Code, seq<Entry>) {
    if limits.farm != 0 && limits.queue != 0 && |s| >= limits.farm + limits.queue then (Full, s)
    else
      var live := Sweep(s, now - limits.timeout);
      if Find(live, id).Some? then (Existing, live)
      else (if limits.farm != 0 && |s| >= limits.farm then FarmFull else Ok, live + [Entry(id, now, status)])
  }

  /** Removing a workflow by id; nothing but the sweep happens if it is not there. */
  function Drop(s: seq<Entry>, id: int, now: int, limits: Limits): seq<Entry> {
    var live := Sweep(s, now - limits.timeout);
    match Find(live, id)
    case None => live
    case Some(i) => Without(live, i)
  }

  /** r is the position of the oldest queued workflow of a swept list, if the farm has a free slot for it. */
  predicate IsNext(live: seq<Entry>, limits: Limits, r: Option<nat>) {
    if limits.farm != 0 && Running(live) < limits.farm && exists i :: 0 <= i < |live| && live[i].status == UNKNOWN
    then
      && r.Some? && r.value < |live| && live[r.value].status == UNKNOWN
      && forall i :: 0 <= i < r.value ==> live[i].status != UNKNOWN
    else r.None?
  }

  /** The sweep takes away exactly the expired entries at the front. */
  lemma {:induction false} SweepIs(s: seq<Entry>, deadline: int, k: nat)
    requires k <= |s| && forall i :: 0 <= i < k ==> s[i].time < deadline
    requires k < |s| ==> s[k].time >= deadline
    ensures Sweep(s, deadline) == s[k..]
  {
    if k > 0 {
      SweepIs(s[1..], deadline, k - 1);
      assert s[1..][k - 1..] == s[k..];
    }
  }

  /** In a list in order of time the sweep takes away all the expired entries, and nothing else. */
  lemma SweepIsFilter(s: seq<Entry>, deadline: int, e: Entry)
    requires Sorted(s)
    ensures e in Sweep(s, deadline) <==> e in s && e.time >= deadline
  {
    hide Sweep;
    SweepSuffix(s, deadline);
    var r := Sweep(s, deadline);
    var k := |s| - |r|;
    if e in s && e.time >= deadline {
      var i :| 0 <= i < |s| && s[i] == e;
      assert r[i - k] == e;
    }
    if e in r {
      var i :| 0 <= i < |r| && r[i] == e;
      assert s[i + k] == e && s[k] == r[0];
    }
  }

  lemma {:induction false} FindIs(s: seq<Entry>, id: int, p: nat)
    requires p <= |s| && (forall i :: 0 <= i < p ==> s[i].id != id) && (p < |s| ==> s[p].id == id)
    ensures Find(s, id) == if p < |s| then Some(p) else None
  {
    if p > 0 {
      FindIs(s[1..], id, p - 1);
    }
  }

  /** The three ways an insertion ends. */
  lemma InsertCases(s: seq<Entry>, live: seq<Entry>, id: int, status: int, now: int, limits: Limits)
    requires live == Sweep(s, now - limits.timeout)
    ensures Insert(s, id, status, now, limits) ==
      if limits.farm != 0 && limits.queue != 0 && |s| >= limits.farm + limits.queue then (Full, s)
      else if Find(live, id).Some? then (Existing, live)
      else (if limits.farm != 0 && |s| >= limits.farm then FarmFull else Ok, live + [Entry(id, now, status)])
  {
    hide Sweep, Find;
  }

  lemma {:induction false} RunningSnoc(s: seq<Entry>, e: Entry)
    ensures Running(s + [e]) == Running(s) + if e.status != UNKNOWN then 1 else 0
  {
    if s != [] {
      RunningSnoc(s[1..], e);
      assert (s + [e])[1..] == s[1..] + [e];
    }
  }

  /** Removing the entry found, or nothing. */
  lemma DropCases(s: seq<Entry>, live: seq<Entry>, id: int, now: int, limits: Limits)
    requires live == Sweep(s, now - limits.timeout)
    ensures Find(live, id).None? ==> Drop(s, id, now, limits) == live
    ensures Find(live, id).Some? ==> Drop(s, id, now, limits) == Without(live, Find(live, id).value)
  {
  }

  /** The position of the first queued workflow. */
  function FirstQueued(s: seq<Entry>): (r: Option<nat>)
    ensures r.Some? ==> r.value < |s| && s[r.value].status == UNKNOWN
    ensures r.Some? ==> forall i :: 0 <= i < r.value ==> s[i].status != UNKNOWN
    ensures r.None? ==> forall i :: 0 <= i < |s| ==> s[i].status != UNKNOWN
  {
    if s == [] then None else if s[0].status == UNKNOWN then Some(0)
    else match FirstQueued(s[1..])
         case None => None
         case Some(i) => Some(i + 1)
  }

  /** The position of the workflow to be started next, if there is one and the farm has a free slot. */
  function Next(live: seq<Entry>, limits: Limits): Option<nat> {
    if limits.farm != 0 && Running(live) < limits.farm then FirstQueued(live) else None
  }

  /** There is only one answer to what is to be started next. */
  lemma NextIs(live: seq<Entry>, limits: Limits, r: Option<nat>)
    ensures IsNext(live, limits, r) <==> r == Next(live, limits)
  {
    hide FirstQueued, Running;
  }

  // ----- the tail of an empty list

  /** Whether the list has a tail after an operation: one that empties the list may leave a stale tail. */
  predicate KeepsTail(before: nat, hadTail: bool, after: nat) {
    after > 0 || if before == 0 then hadTail else before >= 2
  }

  /** Whether the list has a tail after a run of operations with the given sizes after each of them. */
  function HasTail(sizes: seq<nat>): bool {
    if sizes == [] then false
    else
      var front := sizes[..|sizes| - 1];
      KeepsTail(if front == [] then 0 else front[|front| - 1], HasTail(front), sizes[|sizes| - 1])
  }

  /** In every run, an empty list has a tail exactly if the operation that emptied it took out two nodes or more. */
  lemma {:induction false} StaleTailIff(sizes: seq<nat>)
    requires sizes != [] && sizes[|sizes| - 1] == 0
    ensures HasTail(sizes) <==>
      exists k :: 0 <= k < |sizes| && sizes[k] >= 2 && forall j :: k < j < |sizes| ==> sizes[j] == 0
  {
    var n := |sizes| - 1;
    var front := sizes[..n];
    if n > 0 {
      if front[n - 1] == 0 {
        StaleTailIff(front);
        if k :| 0 <= k < n && front[k] >= 2 && forall j :: k < j < n ==> front[j] == 0 {
          assert sizes[k] >= 2 && forall j :: k < j < |sizes| ==> sizes[j] == 0;
        }
        if k :| 0 <= k < |sizes| && sizes[k] >= 2 && forall j :: k < j < |sizes| ==> sizes[j] == 0 {
          assert front[k] >= 2 && forall j :: k < j < n ==> front[j] == sizes[j] == 0;
        }
      } else {
        assert sizes[n - 1] == front[n - 1];
      }
    }
  }
}
