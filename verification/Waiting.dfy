/**
 * Tasks that wait (OPH_WAIT): threads that sleep are counted in the workflow, and the sign of the counter
 * tells them that the workflow was released. The last thread to wake up frees it.
 */
module Waiting {

  /**
   * `counter` is the number of waiting tasks, negative after a release; `leaving` are the threads that were
   * told to free the workflow and did not yet. The last two fields only count: how many threads were told
   * to free the workflow, and how many of those found other threads asleep and left it to them.
   */
  datatype State = State(counter: int, sleeping: set<int>, released: bool, leaving: set<int>, frees: nat,
                         raises: nat, retries: nat)

  datatype Event =
    | Sleep(thread: int)
    | Wake(thread: int, again: bool)
    | Release
    | Leave(thread: int)

  const Init := State(0, {}, false, {}, 0, 0, 0)

  // ----- the counter

  function Slept(counter: int): int {
    if counter >= 0 then counter + 1 else counter - 1
  }

  function Woken(counter: int): (int, bool) {
    if counter > 0 then (counter - 1, false) else (counter + 1, counter + 1 == 0)
  }

  function Freed(counter: int): (int, bool) {
    if counter > 0 then (-counter, false) else (counter, counter == 0)
  }

  /** The part of a workflow that the threads share; each method is one critical section. */
  class Workflow {
    var waitingTasks: int

    /** A thread goes to sleep. */
    method FallAsleep()
      modifies this
      ensures waitingTasks == Slept(old(waitingTasks))
    {
      if waitingTasks >= 0 {
        waitingTasks := waitingTasks + 1;
      } else {
        waitingTasks := waitingTasks - 1;
      }
    }

    /** A thread wakes up; it goes back to sleep if it has to wait on and is not told to leave. */
    method WakeUp(again: bool) returns (fastExit: bool)
      modifies this
      ensures fastExit == Woken(old(waitingTasks)).1
      ensures waitingTasks ==
        if again && !fastExit then Slept(Woken(old(waitingTasks)).0) else Woken(old(waitingTasks)).0
    {
      fastExit := false;
      if waitingTasks > 0 {
        waitingTasks := waitingTasks - 1;
      } else {
        waitingTasks := waitingTasks + 1;
        if waitingTasks == 0 {
          fastExit := true;
        }
      }
      if again && !fastExit {
        FallAsleep();
      }
    }

    /** The workflow is freed unless threads are waiting; those are told by the sign of the counter. */
    method Free() returns (freed: bool)
      modifies this
      ensures (waitingTasks, freed) == Freed(old(waitingTasks))
    {
      if waitingTasks != 0 {
        if waitingTasks > 0 {
          waitingTasks := -waitingTasks;
        }
        return false;
      }
      return true;
    }
  }

  // ----- the protocol

  /** Only threads that sleep wake up, and the engine releases once. A thread may fall asleep at any time. */
  predicate Enabled(s: State, e: Event) {
    match e
    case Sleep(t) => t !in s.sleeping && t !in s.leaving
    case Wake(t, _) => t in s.sleeping
    case Release => !s.released
    case Leave(t) => t in s.leaving
  }

  function Step(s: State, e: Event): State {
    match e
    case Sleep(t) => s.(counter := Slept(s.counter), sleeping := s.sleeping + {t})
    case Wake(t, again) =>
      var (counter, fastExit) := Woken(s.counter);
      if fastExit then
        s.(counter := counter, sleeping := s.sleeping - {t}, leaving := s.leaving + {t}, raises := s.raises + 1)
      else if again then s.(counter := Slept(counter))
      else s.(counter := counter, sleeping := s.sleeping - {t})
    case Release =>
      var (counter, freed) := Freed(s.counter);
      s.(counter := counter, released := true, frees := s.frees + if freed then 1 else 0)
    case Leave(t) =>
      var (counter, freed) := Freed(s.counter);
      s.(counter := counter, leaving := s.leaving - {t}, frees := s.frees + (if freed then 1 else 0),
         retries := s.retries + if freed then 0 else 1)
  }

  function Abs(n: int): nat {
    if n < 0 then -n else n
  }

  /** A released workflow waits for its sleepers, or for one thread that will free it, or is freed. */
  ghost predicate Phase(s: State) {
    || (!s.released && s.counter >= 0 && s.leaving == {} && s.frees == 0 && s.raises == s.retries == 0)
    || (s.released && s.counter < 0 && s.leaving == {} && s.frees == 0 && s.raises == s.retries)
    || (s.released && s.counter >= 0 && |s.leaving| == 1 && s.frees == 0 && s.raises == s.retries + 1)
    || (s.released && s.counter >= 0 && s.leaving == {} && s.frees == 1
        && (s.raises == s.retries + 1 || s.raises == s.retries == 0))
  }

  /** The counter is the number of sleeping threads. */
  ghost predicate Inv(s: State) {
    Abs(s.counter) == |s.sleeping| && s.sleeping !! s.leaving && Phase(s)
  }

  lemma Minus(a: set<int>, t: int)
    requires t in a
    ensures |a - {t}| == |a| - 1 && (|a| == 1 ==> a == {t} && a - {t} == {})
  {
    assert a == (a - {t}) + {t};
  }

  lemma StepKeeps(s: State, e: Event)
    requires Inv(s) && Enabled(s, e)
    ensures Inv(Step(s, e))
  {
    match e
    case Sleep(t) =>
    case Wake(t, again) => Minus(s.sleeping, t);
    case Release =>
    case Leave(t) => Minus(s.leaving, t);
  }

  // ----- runs

  ghost predicate IsRun(es: seq<Event>) {
    es == [] || (IsRun(es[..|es| - 1]) && Enabled(Run(es[..|es| - 1]), es[|es| - 1]))
  }

  ghost function Run(es: seq<Event>): State {
    if es == [] then Init else Step(Run(es[..|es| - 1]), es[|es| - 1])
  }

  lemma {:induction false} RunKeeps(es: seq<Event>)
    requires IsRun(es)
    ensures Inv(Run(es))
  {
    if es != [] {
      RunKeeps(es[..|es| - 1]);
      StepKeeps(Run(es[..|es| - 1]), es[|es| - 1]);
    }
  }

  lemma {:induction false} PrefixIsRun(es: seq<Event>, k: nat)
    requires IsRun(es) && k <= |es|
    ensures IsRun(es[..k])
  {
    if k == |es| {
      assert es[..k] == es;
    } else {
      PrefixIsRun(es[..|es| - 1], k);
      assert es[..|es| - 1][..k] == es[..k];
    }
  }

  /** The k-th event asks for the workflow to be freed when no thread sleeps. */
  ghost predicate FreesAt(es: seq<Event>, k: int) {
    0 <= k < |es| && (es[k].Release? || es[k].Leave?) && Run(es[..k]).sleeping == {}
  }

  lemma FreesAtFront(es: seq<Event>, k: int)
    requires es != [] && k < |es| - 1
    ensures FreesAt(es, k) <==> FreesAt(es[..|es| - 1], k)
  {
    if 0 <= k {
      assert es[..|es| - 1][..k] == es[..k];
    }
  }

  /** A workflow is freed exactly by the events that ask for it when no thread sleeps. */
  lemma {:induction false} FreedIff(es: seq<Event>)
    requires IsRun(es)
    ensures Run(es).frees == 1 <==> exists k :: FreesAt(es, k)
  {
    if es != [] {
      var n := |es| - 1;
      var front := es[..n];
      FreedIff(front);
      RunKeeps(front);
      hide Run, FreesAt;
      LastFrees(es);
      if k :| FreesAt(front, k) {
        FreesAtBound(front, k);
        FreesAtFront(es, k);
      }
      if k :| FreesAt(es, k) {
        FreesAtBound(es, k);
        if k < n {
          FreesAtFront(es, k);
        }
      }
    }
  }

  lemma FreesAtBound(es: seq<Event>, k: int)
    requires FreesAt(es, k)
    ensures 0 <= k < |es|
  {
  }

  lemma LastFrees(es: seq<Event>)
    requires es != [] && IsRun(es) && Inv(Run(es[..|es| - 1]))
    ensures Run(es).frees == 1 <==> Run(es[..|es| - 1]).frees == 1 || FreesAt(es, |es| - 1)
  {
    hide Step, Inv;
    StepFrees(Run(es[..|es| - 1]), es[|es| - 1]);
  }

  lemma StepFrees(s: State, e: Event)
    requires Inv(s) && Enabled(s, e)
    ensures Step(s, e).frees == 1 <==> s.frees == 1 || ((e.Release? || e.Leave?) && s.sleeping == {})
  {
    match e
    case Leave(t) => Minus(s.leaving, t);
    case _ =>
  }

  /**
   * In every run the counter is the number of sleeping threads, and the workflow is freed at most once: exactly
   * by the events that ask for it when no thread sleeps. It is freed when it was released, nobody sleeps and
   * nobody is about to free it.
   */
  lemma FreedExactlyOnce(es: seq<Event>)
    requires IsRun(es)
    ensures var s := Run(es);
      && Abs(s.counter) == |s.sleeping| && s.frees <= 1
      && (s.frees == 1 <==> exists k :: FreesAt(es, k))
      && (s.released && s.sleeping == {} && s.leaving == {} ==> s.frees == 1)
  {
    RunKeeps(es);
    FreedIff(es);
  }

  // ----- sleeping on a workflow that was freed

  /** At some time of the run a thread sleeps although the workflow was freed. */
  ghost predicate SleepsOnFreed(es: seq<Event>) {
    exists k :: 0 <= k <= |es| && Run(es[..k]).frees == 1 && Run(es[..k]).sleeping != {}
  }

  /** Without anyone who falls asleep nobody sleeps after the workflow was freed. */
  lemma {:induction false} NobodySleeps(es: seq<Event>, j: nat)
    requires IsRun(es) && FreesAt(es, j) && forall k :: j < k < |es| ==> !es[k].Sleep?
    ensures Run(es).sleeping == {}
  {
    var n := |es| - 1;
    if j < n {
      FreesAtFront(es, j);
      NobodySleeps(es[..n], j);
    }
  }

  lemma FreesAtPrefix(es: seq<Event>, k: nat, j: int)
    requires k <= |es| && j < k
    ensures FreesAt(es, j) <==> FreesAt(es[..k], j)
  {
    if 0 <= j {
      assert es[..k][..j] == es[..j];
    }
  }

  lemma FallsAsleep(es: seq<Event>, k: nat)
    requires k < |es| && es[k].Sleep?
    ensures Run(es[..k + 1]).sleeping != {}
  {
    assert es[..k + 1][..k] == es[..k];
    assert es[k].thread in Run(es[..k + 1]).sleeping;
  }

  /** A freed workflow is slept on exactly if a thread falls asleep after the event that freed it. */
  lemma SleepsOnFreedIff(es: seq<Event>)
    requires IsRun(es)
    ensures SleepsOnFreed(es) <==> exists j, k :: FreesAt(es, j) && 0 <= j < k < |es| && es[k].Sleep?
  {
    hide Run, FreesAt;
    if SleepsOnFreed(es) {
      var k :| 0 <= k <= |es| && Run(es[..k]).frees == 1 && Run(es[..k]).sleeping != {};
      PrefixIsRun(es, k);
      FreedIff(es[..k]);
      var j :| FreesAt(es[..k], j);
      FreesAtBound(es[..k], j);
      FreesAtPrefix(es, k, j);
      if forall m :: j < m < k ==> !es[m].Sleep? {
        NobodySleeps(es[..k], j);
      }
    }
    if j, k :| FreesAt(es, j) && 0 <= j < k < |es| && es[k].Sleep? {
      FreesAtBound(es, j);
      PrefixIsRun(es, k + 1);
      FreesAtPrefix(es, k + 1, j);
      FreedExactlyOnce(es[..k + 1]);
      FallsAsleep(es, k);
    }
  }

  /** A task that waits again after the release frees the workflow sleeps on a freed one. */
  lemma SleepAfterFree() returns (es: seq<Event>)
    ensures es == [Sleep(1), Wake(1, false), Release, Sleep(1)]
    ensures IsRun(es) && Run(es).frees == 1 && Run(es).sleeping == {1}
  {
    hide Run, IsRun;
    NoEvents();
    es := Extend([], Sleep(1), State(1, {1}, false, {}, 0, 0, 0));
    es := Extend(es, Wake(1, false), State(0, {}, false, {}, 0, 0, 0));
    es := Extend(es, Release, State(0, {}, true, {}, 1, 0, 0));
    es := Extend(es, Sleep(1), State(1, {1}, true, {}, 1, 0, 0));
  }

  // ----- who is told to free the workflow

  /** A thread is told to free the workflow exactly when it is the last sleeper of a released one, not freed yet. */
  lemma LastSleeperIsTold(es: seq<Event>, t: int, again: bool)
    requires IsRun(es) && Enabled(Run(es), Wake(t, again))
    ensures var s := Run(es);
      t in Step(s, Wake(t, again)).leaving <==> s.released && s.frees == 0 && s.leaving == {} && s.sleeping == {t}
  {
    RunKeeps(es);
    Minus(Run(es).sleeping, t);
  }

  /** The threads that were told to free the workflow found no other thread asleep when they did. */
  ghost predicate LeaveAlone(es: seq<Event>) {
    forall k :: 0 <= k < |es| && es[k].Leave? ==> Run(es[..k]).sleeping == {}
  }

  lemma LeaveAloneFront(es: seq<Event>)
    requires es != []
    ensures var n := |es| - 1;
      LeaveAlone(es) <==> LeaveAlone(es[..n]) && (es[n].Leave? ==> Run(es[..n]).sleeping == {})
  {
    hide Run;
    var n := |es| - 1;
    assert forall k :: 0 <= k < n ==> es[..n][..k] == es[..k] && es[..n][k] == es[k];
  }

  lemma {:induction false} NoRetryIff(es: seq<Event>)
    requires IsRun(es)
    ensures Run(es).retries == 0 <==> LeaveAlone(es)
  {
    if es != [] {
      hide LeaveAlone;
      var n := |es| - 1;
      NoRetryIff(es[..n]);
      LeaveAloneFront(es);
      RunKeeps(es[..n]);
    }
  }

  /**
   * When all is over, at most one thread was told to free the workflow if and only if no thread that was told
   * so came to free it while another one slept.
   */
  lemma ToldOnceIff(es: seq<Event>)
    requires IsRun(es)
    ensures var s := Run(es);
      s.released && s.sleeping == {} && s.leaving == {} ==> (s.raises <= 1 <==> LeaveAlone(es))
  {
    RunKeeps(es);
    NoRetryIff(es);
  }

  /** A thread that falls asleep while another one is about to free the workflow makes a second one be told. */
  lemma ToldTwice() returns (es: seq<Event>)
    ensures es == [Sleep(1), Release, Wake(1, false), Sleep(2), Leave(1), Wake(2, false), Leave(2)]
    ensures IsRun(es) && Run(es).raises == 2 && Run(es).frees == 1
  {
    hide Run, IsRun;
    NoEvents();
    es := Extend([], Sleep(1), State(1, {1}, false, {}, 0, 0, 0));
    es := Extend(es, Release, State(-1, {1}, true, {}, 0, 0, 0));
    es := Extend(es, Wake(1, false), State(0, {}, true, {1}, 0, 1, 0));
    es := Extend(es, Sleep(2), State(1, {2}, true, {1}, 0, 1, 0));
    es := Extend(es, Leave(1), State(-1, {2}, true, {}, 0, 1, 1));
    es := Extend(es, Wake(2, false), State(0, {}, true, {2}, 0, 2, 1));
    es := Extend(es, Leave(2), State(0, {}, true, {}, 1, 2, 1));
  }

  lemma NoEvents()
    ensures IsRun([]) && Run([]) == Init
  {
  }

  lemma Extend(es: seq<Event>, e: Event, s: State) returns (es': seq<Event>)
    requires IsRun(es) && Enabled(Run(es), e) && Step(Run(es), e) == s
    ensures es' == es + [e] && IsRun(es') && Run(es') == s
  {
    es' := es + [e];
    assert (es + [e])[..|es|] == es;
  }

  // ----- no thread falls asleep after the release

  /** What is true after the release of a workflow with sleepers, if no other thread falls asleep. */
  ghost predicate Draining(s: State) {
    && s.released && s.retries == 0
    && (s.sleeping != {} ==> s.counter < 0 && s.leaving == {} && s.frees == 0 && s.raises == 0)
    && (s.sleeping == {} ==> s.counter == 0 && s.raises == 1 && |s.leaving| + s.frees == 1)
  }

  lemma DrainingKeeps(s: State, e: Event)
    requires Inv(s) && Draining(s) && Enabled(s, e) && !e.Sleep?
    ensures Draining(Step(s, e))
  {
    match e
    case Wake(t, again) => Minus(s.sleeping, t);
    case Leave(t) => Minus(s.leaving, t);
  }

  /**
   * If all threads fell asleep before the release, exactly one of them is told to free the workflow, after
   * all have woken up; without sleepers the release frees the workflow itself.
   */
  lemma {:induction false} ExactlyOneIsTold(before: seq<Event>, after: seq<Event>)
    requires IsRun(before + [Release] + after) && IsRun(before) && !Run(before).released
    requires forall e :: e in after ==> !e.Sleep?
    ensures var s := Run(before + [Release] + after);
      if Run(before).sleeping == {} then after == [] && s.frees == 1 && s.raises == 0 && s.sleeping == {}
      else Draining(s)
  {
    hide Run, IsRun, Step, Inv, Draining, Enabled;
    var es := before + [Release] + after;
    var front, last := es[..|es| - 1], es[|es| - 1];
    RunSnoc(es);
    RunKeeps(front);
    if after == [] {
      assert front == before;
      ReleaseOf(Run(before));
    } else {
      assert front == before + [Release] + after[..|after| - 1] && last == after[|after| - 1];
      ExactlyOneIsTold(before, after[..|after| - 1]);
      var s := Run(front);
      if Run(before).sleeping == {} {
        NothingEnabled(s, last);
      } else {
        DrainingKeeps(s, last);
      }
    }
  }

  lemma RunSnoc(es: seq<Event>)
    requires es != [] && IsRun(es)
    ensures var front, last := es[..|es| - 1], es[|es| - 1];
      IsRun(front) && Enabled(Run(front), last) && Run(es) == Step(Run(front), last)
  {
  }

  lemma ReleaseOf(s: State)
    requires Inv(s) && !s.released
    ensures var s' := Step(s, Release);
      if s.sleeping == {} then s'.frees == 1 && s'.raises == 0 && s'.sleeping == {} else Draining(s')
  {
  }

  lemma NothingEnabled(s: State, e: Event)
    requires Inv(s) && s.frees == 1 && s.sleeping == {} && !e.Sleep?
    ensures !Enabled(s, e)
  {
  }
}
