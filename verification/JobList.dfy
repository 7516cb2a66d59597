/**
 * The list of accepted workflows: linked nodes with head, tail and counter, a second list of saved
 * workflows, and lazy expiry inside every lookup.
 */
module JobList {
  import opened Options
  import opened Sequences
  import opened JobSpec

  /** The part of a workflow that the list looks at. */
  class Job {
    const id: int
    const sync: bool
    var status: int

    constructor (id: int, sync: bool, status: int)
      ensures this.id == id && this.sync == sync && this.status == status
    {
      this.id, this.sync, this.status := id, sync, status;
    }
  }

  class Node {
    var timestamp: int
    const job: Job
    var next: Node?

    constructor (job: Job)
      ensures this.job == job && next == null
    {
      this.job := job;
      next := null;
      timestamp := 0;
    }
  }

  /** The nodes from h on, linked one after the other. */
  ghost predicate Linked(h: Node?, s: seq<Node>)
    reads s`next
  {
    && (if s == [] then h == null else h == s[0] && s[|s| - 1].next == null)
    && forall i :: 0 <= i < |s| - 1 ==> s[i].next == s[i + 1]
  }

  /** The nodes are in order of time, none of them in the future. */
  ghost predicate InOrder(s: seq<Node>, clock: int)
    reads s`timestamp
  {
    && (forall i, j :: 0 <= i < j < |s| ==> s[i].timestamp <= s[j].timestamp)
    && forall i :: 0 <= i < |s| ==> s[i].timestamp <= clock
  }

  ghost predicate DistinctIds(s: seq<Node>) {
    forall i, j :: 0 <= i < j < |s| ==> s[i].job.id != s[j].job.id
  }

  ghost predicate DistinctNodes(s: seq<Node>) {
    forall i, j :: 0 <= i < j < |s| ==> s[i] != s[j]
  }

  ghost predicate DistinctJobs(s: seq<Node>) {
    forall i, j :: 0 <= i < j < |s| ==> s[i].job != s[j].job
  }

  ghost function Jobs(s: seq<Node>): set<Job> {
    set n | n in s :: n.job
  }

  /** The tail is the last node; on an emptied list it may be a released node. */
  ghost predicate TailOf(tail: Node?, s: seq<Node>, gone: set<Node>) {
    if s == [] then tail == null || tail in gone else tail == s[|s| - 1]
  }

  ghost predicate Apart(live: seq<Node>, kept: seq<Node>, gone: set<Node>) {
    && (forall n :: n in live ==> n !in kept && n !in gone)
    && (forall n :: n in kept ==> n !in gone)
  }

  /** Every accepted workflow is in exactly one place. */
  ghost predicate Ledger(live: seq<Node>, kept: seq<Node>, accepted: set<Job>, released: set<Job>) {
    && accepted == Jobs(live) + Jobs(kept) + released
    && Jobs(live) !! Jobs(kept) && released !! (Jobs(live) + Jobs(kept))
  }

  /** The members of a sequence of distinct nodes once the node at position j is taken out. */
  lemma WithoutMembers(s: seq<Node>, j: nat)
    requires j < |s| && DistinctIds(s)
    ensures forall n :: n in Without(s, j) <==> n in s && n != s[j]
    ensures forall n :: n in Without(s, j) ==> n.job != s[j].job
  {
    var r := Without(s, j);
    forall n | n in r
      ensures n in s && n != s[j] && n.job != s[j].job
    {
      var i :| 0 <= i < |r| && r[i] == n;
      assert n == s[if i < j then i else i + 1];
    }
    forall n | n in s && n != s[j]
      ensures n in r
    {
      var i :| 0 <= i < |s| && s[i] == n;
      assert n == r[if i < j then i else i - 1];
    }
  }

  lemma WithoutOrder(s: seq<Node>, j: nat, clock: int)
    requires j < |s| && DistinctIds(s) && InOrder(s, clock)
    ensures DistinctIds(Without(s, j)) && InOrder(Without(s, j), clock) && DistinctNodes(s)
  {
  }

  /** Taking a node out moves its workflow from the list to the released ones. */
  lemma WithoutLedger(live: seq<Node>, kept: seq<Node>, accepted: set<Job>, released: set<Job>, gone: set<Node>, j: nat)
    requires j < |live| && DistinctIds(live) && Apart(live, kept, gone) && Ledger(live, kept, accepted, released)
    ensures Apart(Without(live, j), kept, gone + {live[j]})
    ensures Ledger(Without(live, j), kept, accepted, released + {live[j].job})
    ensures live[j] !in gone && live[j] !in Without(live, j) && (0 < j ==> live[j - 1] !in kept)
  {
    WithoutMembers(live, j);
    hide DistinctIds, Without;
    assert Jobs(live) == Jobs(Without(live, j)) + {live[j].job};
  }

  lemma WithoutTail(tail: Node?, live: seq<Node>, gone: set<Node>, j: nat, prev: Node?)
    requires j < |live| && DistinctIds(live) && TailOf(tail, live, gone)
    requires if j == 0 then prev == null || prev in gone else prev == live[j - 1]
    requires live[j] !in gone
    ensures (if tail == live[j] then prev else tail) != live[j]
    ensures TailOf(if tail == live[j] then prev else tail, Without(live, j), gone + {live[j]})
  {
    assert tail == live[j] ==> j == |live| - 1;
  }

  /** A node with a new id at the end of the list. */
  lemma WithLast(live: seq<Node>, item: Node, clock: int)
    requires DistinctIds(live) && forall n :: n in live ==> n.job.id != item.job.id
    ensures DistinctIds(live + [item]) && DistinctNodes(live)
  {
  }

  lemma LastInOrder(live: seq<Node>, item: Node, clock: int)
    requires InOrder(live, clock) && item.timestamp == clock
    ensures InOrder(live + [item], clock)
  {
  }

  lemma LastLedger(live: seq<Node>, kept: seq<Node>, accepted: set<Job>, released: set<Job>, gone: set<Node>,
      item: Node)
    requires Apart(live, kept, gone) && Ledger(live, kept, accepted, released)
    requires item !in live && item !in kept && item !in gone && item.job !in accepted
    ensures Apart(live + [item], kept, gone) && Ledger(live + [item], kept, accepted + {item.job}, released)
    ensures (forall n :: n in gone ==> n !in live) && (forall n :: n in kept ==> n !in live && n !in gone && n != item)
  {
    assert Jobs(live + [item]) == Jobs(live) + {item.job};
  }

  /** A node that was taken out of the list goes to the front of the saved ones. */
  lemma SavedLedger(live: seq<Node>, kept: seq<Node>, accepted: set<Job>, released: set<Job>, gone: set<Node>,
      item: Node)
    requires Apart(live, kept, gone) && Ledger(live, kept, accepted, released) && DistinctJobs(kept)
    requires item in gone && item.job in released
    ensures Apart(live, [item] + kept, gone - {item}) && Ledger(live, [item] + kept, accepted, released - {item.job})
    ensures DistinctJobs([item] + kept) && item !in kept && item !in live
  {
    assert Jobs([item] + kept) == Jobs(kept) + {item.job};
    forall n | n in kept
      ensures n.job != item.job
    {
      assert n.job in Jobs(kept);
    }
  }

  /** The saved nodes that are not older than the given number of seconds; none if that is zero. */
  ghost function Recent(s: seq<Node>, hysteresis: int, now: int): (r: seq<Node>)
    reads s`timestamp
    ensures |r| <= |s| && forall n :: n in r ==> n in s
  {
    if s == [] then []
    else Recent(s[..|s| - 1], hysteresis, now) + if Stale(s[|s| - 1], hysteresis, now) then [] else [s[|s| - 1]]
  }

  ghost predicate Stale(n: Node, hysteresis: int, now: int)
    reads n`timestamp
  {
    hysteresis == 0 || n.timestamp < now - hysteresis
  }

  /** The recent ones among distinct nodes are distinct. */
  lemma {:induction false} RecentDistinct(s: seq<Node>, hysteresis: int, now: int)
    requires DistinctJobs(s)
    ensures DistinctJobs(Recent(s, hysteresis, now))
  {
    if s != [] {
      var front := s[..|s| - 1];
      RecentDistinct(front, hysteresis, now);
      forall n | n in Recent(front, hysteresis, now)
        ensures n.job != s[|s| - 1].job
      {
        var i :| 0 <= i < |front| && front[i] == n;
      }
    }
  }

  /** One node comes before another one. */
  ghost predicate ComesBefore(s: seq<Node>, x: Node, y: Node) {
    exists a, b :: 0 <= a < b < |s| && s[a] == x && s[b] == y
  }

  /** Nodes that come one after the other in r do so in s. */
  ghost predicate InOrderOf(r: seq<Node>, s: seq<Node>) {
    forall i, j :: 0 <= i < j < |r| ==> ComesBefore(s, r[i], r[j])
  }

  lemma StillBefore(s: seq<Node>, x: Node, y: Node, last: Node)
    ensures ComesBefore(s, x, y) ==> ComesBefore(s + [last], x, y)
    ensures x in s ==> ComesBefore(s + [last], x, last)
  {
    var t := s + [last];
    if ComesBefore(s, x, y) {
      var a, b :| 0 <= a < b < |s| && s[a] == x && s[b] == y;
      assert t[a] == x && t[b] == y;
    }
    if x in s {
      var a :| 0 <= a < |s| && s[a] == x;
      assert t[a] == x && t[|s|] == last;
    }
  }

  /** The recent nodes are those that are not too old, if any are to be kept, in the same order. */
  lemma {:induction false} RecentIs(s: seq<Node>, hysteresis: int, now: int)
    ensures forall n ::
      n in Recent(s, hysteresis, now) <==> n in s && hysteresis != 0 && n.timestamp >= now - hysteresis
    ensures InOrderOf(Recent(s, hysteresis, now), s)
  {
    if s != [] {
      var front, last := s[..|s| - 1], s[|s| - 1];
      assert s == front + [last];
      RecentIs(front, hysteresis, now);
      OneMoreInOrder(Recent(front, hysteresis, now), front, last);
    }
  }

  lemma OneMoreInOrder(r: seq<Node>, s: seq<Node>, last: Node)
    requires InOrderOf(r, s) && forall n :: n in r ==> n in s
    ensures InOrderOf(r, s + [last]) && InOrderOf(r + [last], s + [last])
  {
    hide ComesBefore;
    var t := s + [last];
    forall i, j | 0 <= i < j < |r|
      ensures ComesBefore(t, r[i], r[j])
    {
      StillBefore(s, r[i], r[j], last);
    }
    forall i | 0 <= i < |r|
      ensures ComesBefore(t, r[i], last)
    {
      assert r[i] in s;
      StillBefore(s, r[i], last, last);
    }
  }

  /** Letting some saved nodes go moves their workflows to the released ones. */
  lemma FewerKept(live: seq<Node>, kept: seq<Node>, kept': seq<Node>, accepted: set<Job>, released: set<Job>,
      gone: set<Node>)
    requires Apart(live, kept, gone) && Ledger(live, kept, accepted, released) && DistinctJobs(kept)
    requires forall n :: n in kept' ==> n in kept
    ensures Apart(live, kept', gone + set n | n in kept && n !in kept')
    ensures Ledger(live, kept', accepted, released + (Jobs(kept) - Jobs(kept')))
  {
    assert forall n, m :: n in kept && m in kept && n != m ==> n.job != m.job;
  }

  /** A purge has still to visit the nodes of rest, and has kept those in r. */
  ghost predicate Purging(r: seq<Node>, rest: seq<Node>, saved: Node?, prev: Node?, current: Node?)
    reads r`next, rest`next
  {
    && DistinctNodes(r + rest)
    && current == (if rest == [] then null else rest[0])
    && (if r == [] then saved == null && prev == null && Linked(current, rest)
        else prev == r[|r| - 1] && Linked(saved, r + rest))
  }

  /** The end of a purge. */
  lemma Purged(r: seq<Node>, saved: Node?, prev: Node?, current: Node?)
    requires Purging(r, [], saved, prev, current)
    ensures Linked(saved, r)
  {
    assert r + [] == r;
  }

  /** The successor of the node that a purge is at. */
  lemma NextToPurge(r: seq<Node>, rest: seq<Node>, saved: Node?, prev: Node?, current: Node)
    requires Purging(r, rest, saved, prev, current)
    ensures rest != [] && current == rest[0] && current !in r && current.next == if |rest| == 1 then null else rest[1]
    ensures saved == null <==> r == []
  {
    var t := r + rest;
    assert t[|r|] == rest[0] && (|rest| > 1 ==> t[|r| + 1] == rest[1]);
    forall n | n in r
      ensures n != current
    {
      var i :| 0 <= i < |r| && r[i] == n;
      assert t[i] == n;
    }
  }

  /** A purge that lets the current node go. */
  lemma PurgeDrops(r: seq<Node>, rest: seq<Node>, saved: Node?, prev: Node?, next: Node?)
    requires rest != [] && DistinctNodes(r + rest) && next == if |rest| == 1 then null else rest[1]
    requires if r == [] then saved == null && prev == null && Linked(rest[0], rest)
             else prev == r[|r| - 1] && Linked(saved, Without(r + rest, |r|))
    ensures Purging(r, rest[1..], saved, prev, next)
  {
    assert Without(r + rest, |r|) == r + rest[1..];
    var t, u := r + rest, r + rest[1..];
    forall i, j | 0 <= i < j < |u|
      ensures u[i] != u[j]
    {
      assert u[i] == t[if i < |r| then i else i + 1] && u[j] == t[if j < |r| then j else j + 1];
    }
  }

  /** A purge that keeps the current node. */
  lemma PurgeKeeps(r: seq<Node>, rest: seq<Node>, saved: Node?, prev: Node?, current: Node)
    requires rest != [] && Purging(r, rest, saved, prev, current)
    ensures Purging(r + [current], rest[1..], if saved == null then current else saved, current, current.next)
  {
    hide DistinctNodes, Linked;
    NextToPurge(r, rest, saved, prev, current);
    assert r + [current] + rest[1..] == r + rest;
    assert r == [] ==> r + rest == rest;
  }

  lemma RecentSnoc(s: seq<Node>, i: nat, hysteresis: int, now: int)
    requires i < |s|
    ensures Recent(s[..i + 1], hysteresis, now)
         == Recent(s[..i], hysteresis, now) + if Stale(s[i], hysteresis, now) then [] else [s[i]]
  {
    assert s[..i + 1][..i] == s[..i];
  }

  lemma RecentAmong(s: seq<Node>, hysteresis: int, now: int)
    ensures forall n :: n in Recent(s, hysteresis, now) ==> n in s
  {
  }

  lemma WiderTail(tail: Node?, s: seq<Node>, gone: set<Node>, gone': set<Node>)
    requires TailOf(tail, s, gone) && gone <= gone'
    ensures TailOf(tail, s, gone')
  {
  }

  lemma PurgeStarts(kept: seq<Node>, saved: Node?)
    requires Linked(saved, kept) && DistinctJobs(kept)
    ensures Purging([], kept, null, null, saved)
  {
    assert [] + kept == kept;
  }

  /** Links the node before position j of a chain to the one after it. */
  method SkipNext(prev: Node, next: Node?, ghost h: Node?, ghost t: seq<Node>, ghost j: nat)
    requires 0 < j < |t| && DistinctNodes(t) && Linked(h, t) && prev == t[j - 1] && next == t[j].next
    modifies prev`next
    ensures Linked(h, Without(t, j)) && t[j].next == old(t[j].next)
  {
    prev.next := next;
    ghost var rest := Without(t, j);
    forall i | 0 <= i < |rest| - 1
      ensures rest[i].next == rest[i + 1]
    {
      if i == j - 1 {
        assert old(t[j].next) == t[j + 1];
      } else {
        var k := if i < j then i else i + 1;
        assert rest[i] == t[k] && old(t[k].next) == t[k + 1];
      }
    }
  }

  class JobList {
    const limits: Limits
    const saving: bool
    var head: Node?
    var tail: Node?
    var saved: Node?
    var counter: nat

    ghost var live: seq<Node>
    ghost var kept: seq<Node>
    /** Nodes that have been released. */
    ghost var gone: set<Node>
    ghost var clock: int
    /** Workflows accepted so far, and those that were released, expired or handed back. */
    ghost var accepted: set<Job>
    ghost var released: set<Job>

    ghost predicate Valid()
      reads this, live, kept
    {
      && Linked(head, live) && Linked(saved, kept)
      && InOrder(live, clock)
      && DistinctIds(live) && DistinctJobs(kept)
      && TailOf(tail, live, gone) && Apart(live, kept, gone)
      && counter == |live|
      && Ledger(live, kept, accepted, released)
    }

    ghost function View(): seq<Entry>
      reads this, live, Jobs(live)
    {
      seq(|live|, i requires 0 <= i < |live| reads this, live, Jobs(live) =>
            Entry(live[i].job.id, live[i].timestamp, live[i].job.status))
    }

    constructor (limits: Limits, saving: bool)
      ensures Valid() && live == [] && kept == [] && gone == {} && accepted == {} && released == {} && clock == 0
      ensures this.limits == limits && this.saving == saving
    {
      this.limits, this.saving := limits, saving;
      head, tail, saved, counter := null, null, null, 0;
      live, kept, gone, clock, accepted, released := [], [], {}, 0, {}, {};
    }

    /** Links the neighbours of the node at position j of the list to each other. */
    method Bypass(temp: Node, tempPrev: Node?, ghost j: nat)
      requires j < |live| && temp == live[j] && Linked(head, live)
      requires DistinctNodes(live)
      requires 0 < j ==> tempPrev == live[j - 1]
      modifies this`head
      modifies (if j == 0 then {} else {live[j - 1]})`next
      ensures Linked(head, Without(live, j))
      ensures temp.next == old(temp.next)
    {
      if head == temp {
        head := temp.next;
      } else if tempPrev != null {
        SkipNext(tempPrev, temp.next, head, live, j);
      }
    }

    /** Accounts for the node at position j, which is no longer linked. */
    method Forget(temp: Node, tempPrev: Node?, ghost j: nat)
      requires j < |live| && temp == live[j] && 0 < counter
      modifies this`tail, this`counter, this`live, this`released, this`gone
      ensures tail == if old(tail) == temp then tempPrev else old(tail)
      ensures counter == old(counter) - 1
      ensures live == Without(old(live), j) && released == old(released) + {temp.job} && gone == old(gone) + {temp}
    {
      if tail == temp {
        tail := tempPrev;
      }
      counter := counter - 1;
      live := Without(live, j);
      gone := gone + {temp};
      released := released + {temp.job};
    }

    /** Takes the node at position j of the list out of it. */
    method Unlink(temp: Node, tempPrev: Node?, ghost j: nat)
      requires Valid() && j < |live| && temp == live[j]
      requires if j == 0 then tempPrev == null || tempPrev in gone else tempPrev == live[j - 1]
      modifies this`head, this`tail, this`counter, this`live, this`released, this`gone
      modifies (if j == 0 then {} else {live[j - 1]})`next
      ensures Valid() && live == Without(old(live), j)
      ensures released == old(released) + {temp.job} && gone == old(gone) + {temp}
      ensures temp.next == old(temp.next) && tail != temp && temp !in live
      ensures tail == if old(tail) == temp then tempPrev else old(tail)
    {
      hide DistinctIds, DistinctNodes, DistinctJobs, Ledger, InOrder, Apart, Linked, TailOf;
      WithoutOrder(live, j, clock);
      WithoutLedger(live, kept, accepted, released, gone, j);
      WithoutTail(tail, live, gone, j, tempPrev);
      Bypass(temp, tempPrev, j);
      Forget(temp, tempPrev, j);
    }

    /** Takes an expired node, the first one, out of the list. A synchronous workflow is told so. */
    method Expire(temp: Node, tempPrev: Node?)
      requires Valid() && live != [] && temp == live[0] && (tempPrev == null || tempPrev in gone)
      modifies this`head, this`tail, this`counter, this`live, this`released, this`gone, temp.job`status
      ensures Valid() && live == old(live)[1..]
      ensures released == old(released) + {temp.job} && gone == old(gone) + {temp}
      ensures temp.next == old(temp.next)
      ensures temp.job.status == if temp.job.sync then EXPIRED else old(temp.job.status)
      ensures tail == if old(tail) == temp then tempPrev else old(tail)
    {
      hide DistinctIds, DistinctNodes, DistinctJobs, Ledger, InOrder, Apart, Linked, TailOf;
      Unlink(temp, tempPrev, 0);
      if temp.job.sync {
        temp.job.status := EXPIRED;
      }
    }

    /**
     * The state of a sweep over the nodes s, whose entries were v: the first k are expired and gone,
     * i have been visited. Of the expired workflows the synchronous ones are told so.
     */
    ghost predicate Sweeping(s: seq<Node>, v: seq<Entry>, k: nat, i: nat, deadline: int)
      reads this, s, Jobs(s)
    {
      && k <= i <= |s| == |v| && live == s[k..]
      && (forall m :: 0 <= m < |s| ==> s[m].job.id == v[m].id && s[m].timestamp == v[m].time)
      && (forall m :: 0 <= m < k ==> v[m].time < deadline && s[m] in gone)
      && (forall m :: 0 <= m < k ==> s[m].job.status == if s[m].job.sync then EXPIRED else v[m].status)
      && (forall m :: k <= m < |s| ==> s[m].job.status == v[m].status)
      && (k < i ==> v[k].time >= deadline)
    }

    /** Where the sweep stands when it has visited i nodes. */
    ghost predicate Cursor(s: seq<Node>, i: nat, temp: Node?, tempPrev: Node?) {
      && i <= |s|
      && temp == (if i < |s| then s[i] else null)
      && tempPrev == (if i == 0 then null else s[i - 1])
    }

    /** Only the first node of the list can be expired when the sweep gets to it. */
    lemma ExpiredIsFirst(s: seq<Node>, v: seq<Entry>, k: nat, i: nat, deadline: int, temp: Node, tempPrev: Node?)
      requires Valid() && Sweeping(s, v, k, i, deadline) && Cursor(s, i, temp, tempPrev)
      ensures i < |s| == |v| && k <= i && temp == s[i] && temp.timestamp == v[i].time && 0 < |live| &&
        temp == live[i - k]
      ensures Cursor(s, i + 1, temp.next, temp) && temp.job in Jobs(s)
      ensures temp.timestamp < deadline ==> i == k && temp == live[0] && (tempPrev == null || tempPrev in gone)
      ensures temp.timestamp < deadline ==> 0 < counter
      ensures temp.timestamp >= deadline ==> Sweeping(s, v, k, i + 1, deadline)
    {
      hide DistinctIds, DistinctJobs, Ledger, Apart, TailOf;
      assert live[i - k] == s[i];
      if i > k {
        assert live[0] == s[k];
        assert live[0].timestamp <= live[i - k].timestamp;
      }
      if i + 1 < |s| {
        assert live[i - k + 1] == s[i + 1];
      }
    }

    /** Takes out the expired node that a sweep has got to. */
    method SweepOne(temp: Node, tempPrev: Node?, ghost s: seq<Node>, ghost v: seq<Entry>, ghost i: nat,
        ghost deadline: int)
      requires Valid() && Sweeping(s, v, i, i, deadline) && DistinctIds(s) && i < |s| && temp == s[i]
      requires live != [] && temp == live[0] && (tempPrev == null || tempPrev in gone) && temp.timestamp < deadline
      modifies this`head, this`tail, this`counter, this`live, this`released, this`gone, temp.job`status
      ensures Valid() && Sweeping(s, v, i + 1, i + 1, deadline)
      ensures released == old(released) + {temp.job} && gone == old(gone) + {temp}
      ensures tail == if old(tail) == temp then tempPrev else old(tail)
    {
      hide DistinctJobs, Ledger, Apart, TailOf, Linked, InOrder;
      Expire(temp, tempPrev);
    }

    /** The list is what is left of s, and of the workflows taken out the synchronous ones are told so. */
    ghost predicate Told(s: seq<Node>, v: seq<Entry>)
      reads this, Jobs(s)
    {
      && |live| <= |s| == |v| && live == s[|s| - |live|..]
      && forall m :: 0 <= m < |s| - |live| ==> s[m].job.status == if s[m].job.sync then EXPIRED else v[m].status
    }

    /** When the sweep has met a node that is not expired, or the end, the list is swept. */
    lemma Swept(s: seq<Node>, v: seq<Entry>, k: nat, i: nat, deadline: int)
      requires Sweeping(s, v, k, i, deadline) && (k < i || i == |s|)
      ensures View() == Sweep(v, deadline) && Told(s, v)
    {
      SweepIs(v, deadline, k);
      assert View() == v[k..];
    }

    /** The tail when of the nodes s those of r are left: it moves back by one node if the last one is taken out. */
    ghost function TailLeft(s: seq<Node>, r: seq<Node>, before: Node?): Node? {
      if s == [] || (r != [] && r[|r| - 1] == s[|s| - 1]) then before else if |s| == 1 then null else s[|s| - 2]
    }

    /** Taking out the node at position k of s moves the tail only if it is the last one. */
    lemma TailMoves(s: seq<Node>, v: seq<Entry>, k: nat, deadline: int, before: Node?, temp: Node, tempPrev: Node?)
      requires Valid() && Sweeping(s, v, k, k, deadline) && DistinctIds(s) && Cursor(s, k, temp, tempPrev) && k <= |s|
      requires tail == TailLeft(s, s[k..], before)
      ensures k < |s| && TailLeft(s, s[k + 1..], before) == if tail == temp then tempPrev else tail
    {
      hide DistinctJobs, Ledger, InOrder, Apart, Linked;
      assert live[|live| - 1] == s[|s| - 1] && live[0] == temp;
    }

    lemma TailAtEnd(s: seq<Node>, v: seq<Entry>, k: nat, i: nat, deadline: int, before: Node?)
      requires Sweeping(s, v, k, i, deadline) && k <= |s|
      ensures TailLeft(s, s[k..], before) == TailLeft(s, live, before)
    {
    }

    /** Whether the list has a tail follows from the sizes. */
    lemma TailRule(s: seq<Node>, before: Node?)
      requires Valid() && tail == TailLeft(s, live, before) && (s == [] ==> live == [])
      ensures tail != null <==> KeepsTail(|s|, before != null, |live|)
      ensures live == [] && tail != null ==> tail in gone
    {
    }

    /** The node that the removal of the node at position p of the list has to know. */
    ghost predicate IsPrev(prev: Node?, p: nat)
      reads this
    {
      p < |live| && if p == 0 then prev == null || prev in gone else prev == live[p - 1]
    }

    /** What a lookup of a job in the swept list returns. */
    ghost predicate Outcome(jobid: int, item: Node?, prev: Node?)
      reads this, live, Jobs(live)
    {
      match JobSpec.Find(View(), jobid)
      case None => item == null
      case Some(p) => IsPrev(prev, p) && item == live[p]
    }

    /** The outcome of a lookup that has visited i nodes. */
    lemma Found(s: seq<Node>, v: seq<Entry>, k: nat, i: nat, deadline: int, jobid: int, item: Node?, prev: Node?)
      requires Sweeping(s, v, k, i, deadline) && Cursor(s, i, item, prev)
      requires forall m :: k <= m < i ==> s[m].job.id != jobid
      requires item != null ==> item.job.id == jobid
      ensures Outcome(jobid, item, prev)
    {
      assert forall m :: 0 <= m < |live| ==> View()[m].id == s[m + k].job.id;
      FindIs(View(), jobid, i - k);
    }

    ghost predicate NoneOf(s: seq<Node>, k: nat, i: nat, jobid: int)
      requires i <= |s|
    {
      forall m :: k <= m < i ==> s[m].job.id != jobid
    }

    /** The start of a sweep. */
    ghost method Begin(now: int) returns (v: seq<Entry>)
      requires Valid() && clock <= now
      modifies this`clock
      ensures Valid() && clock == now && v == View() == old(View()) && |v| == |live| && DistinctIds(live)
      ensures Sweeping(live, v, 0, 0, now - limits.timeout)
      ensures Cursor(live, 0, head, null)
    {
      hide DistinctJobs, Ledger, Apart, TailOf;
      v := View();
      clock := now;
    }

    /**
     * Looks a job up. On the way it takes the expired nodes, which come first, out of the list.
     * The node before the result is what the removal of the result needs.
     */
    method FindJob(jobid: int, now: int) returns (item: Node?, prev: Node?)
      requires Valid() && clock <= now
      modifies this`head, this`tail, this`counter, this`live, this`released, this`gone, this`clock, Jobs(live)`status
      ensures Valid() && clock == now
      ensures View() == Sweep(old(View()), now - limits.timeout)
      ensures Told(old(live), old(View()))
      ensures forall n :: n in gone ==> n in old(gone) || n in old(live)
      ensures Outcome(jobid, item, prev)
      ensures tail == TailLeft(old(live), live, old(tail)) && (old(live) == [] ==> live == [])
      ensures tail != null <==> KeepsTail(|old(live)|, old(tail) != null, |live|)
      ensures item != null ==> PrevIn(old(live), item, prev)
    {
      hide DistinctIds, DistinctJobs, Ledger, InOrder, Apart, Linked, TailOf, Sweeping, Jobs, Sweep, Outcome, View,
        Told, TailLeft, KeepsTail, PrevIn;
      var deadline := now - limits.timeout;
      ghost var s := live;
      ghost var v := Begin(now);
      item, prev := head, null;
      ghost var k, i := 0, 0;
      TailStarts(s, tail);
      while item != null
        invariant Valid() && clock == now && DistinctIds(s)
        invariant Sweeping(s, v, k, i, deadline) && Cursor(s, i, item, prev) && i <= |s| && NoneOf(s, k, i, jobid)
        invariant 0 <= k <= |s| && tail == TailLeft(s, s[k..], old(tail))
        invariant forall n :: n in gone ==> n in old(gone) || n in s
        decreases |s| - i
      {
        ExpiredIsFirst(s, v, k, i, deadline, item, prev);
        var next := item.next;
        if item.timestamp < deadline {
          if counter == 0 {
            return null, null;
          }
          TailMoves(s, v, k, deadline, old(tail), item, prev);
          SweepOne(item, prev, s, v, i, deadline);
          k := k + 1;
        } else if item.job.id == jobid {
          Swept(s, v, k, i + 1, deadline);
          Found(s, v, k, i, deadline, jobid, item, prev);
          PrevFound(s, i, item, prev);
          SweepEnds(s, v, k, i, deadline, old(tail));
          return;
        }
        prev, item := item, next;
        i := i + 1;
      }
      Swept(s, v, k, i, deadline);
      Found(s, v, k, i, deadline, jobid, item, prev);
      SweepEnds(s, v, k, i, deadline, old(tail));
    }

    lemma PrevFound(s: seq<Node>, i: nat, item: Node, prev: Node?)
      requires Cursor(s, i, item, prev)
      ensures PrevIn(s, item, prev)
    {
      assert i < |s| && s[i] == item;
    }

    /** The tail when a sweep has ended. */
    lemma SweepEnds(s: seq<Node>, v: seq<Entry>, k: nat, i: nat, deadline: int, before: Node?)
      requires Valid() && Sweeping(s, v, k, i, deadline) && Told(s, v)
      requires k <= |s| && tail == TailLeft(s, s[k..], before)
      ensures tail == TailLeft(s, live, before) && (s == [] ==> live == [])
      ensures tail != null <==> KeepsTail(|s|, before != null, |live|)
    {
      hide Valid, Sweeping, Told, TailLeft, KeepsTail;
      TailAtEnd(s, v, k, i, deadline, before);
      NoneNew(s, v);
      TailRule(s, before);
    }

    lemma TailStarts(s: seq<Node>, before: Node?)
      ensures TailLeft(s, s[0..], before) == before
    {
    }

    lemma NoneNew(s: seq<Node>, v: seq<Entry>)
      requires Told(s, v)
      ensures s == [] ==> live == []
    {
    }

    /** The node before one of s. */
    ghost predicate PrevIn(s: seq<Node>, item: Node, prev: Node?) {
      exists i :: 0 <= i < |s| && s[i] == item && prev == if i == 0 then null else s[i - 1]
    }

    /** Links a node after the last one. */
    method LinkLast(item: Node, now: int)
      requires Linked(head, live) && TailOf(tail, live, gone) && DistinctNodes(live) && item !in live &&
        item !in gone && item !in kept
      requires forall n :: n in gone ==> n !in live
      modifies this`head, this`tail, item`next, item`timestamp, (if tail == null then {} else {tail})`next
      ensures Linked(head, live + [item]) && tail == item && item.timestamp == now
      ensures forall n :: n in live ==> n == old(tail) || n.next == old(n.next)
      ensures forall n :: n in gone ==> n.next == if live == [] && n == old(tail) then item else old(n.next)
    {
      if tail != null {
        tail.next := item;
      }
      tail := item;
      item.next := null;
      item.timestamp := now;
      if head == null {
        head := item;
      }
      ghost var all := live + [item];
      forall i | 0 <= i < |all| - 1
        ensures all[i].next == all[i + 1]
      {
      }
    }

    /** A node whose workflow the list does not know. */
    ghost predicate IsNew(item: Node)
      reads this
    {
      item !in live && item !in kept && item !in gone && item.job !in accepted
    }

    method Account(item: Node)
      modifies this`counter, this`live, this`accepted
      ensures counter == old(counter) + 1 && live == old(live) + [item] && accepted == old(accepted) + {item.job}
    {
      counter := counter + 1;
      live := live + [item];
      accepted := accepted + {item.job};
    }

    /** Puts a node at the end of the list. */
    method Append(item: Node, now: int)
      requires Valid() && clock == now && IsNew(item)
      requires forall n :: n in live ==> n.job.id != item.job.id
      modifies this`head, this`tail, this`counter, this`live, this`accepted, item`next, item`timestamp
      modifies (if tail == null then {} else {tail})`next
      ensures Valid() && live == old(live) + [item] && accepted == old(accepted) + {item.job}
      ensures View() == old(View()) + [Entry(item.job.id, now, item.job.status)]
      ensures gone == old(gone)
      ensures forall n :: n in gone ==> n.next == if old(live) == [] && n == old(tail) then item else old(n.next)
    {
      hide DistinctIds, DistinctJobs, Ledger, InOrder, Apart, Linked;
      WithLast(live, item, clock);
      LastLedger(live, kept, accepted, released, gone, item);
      LinkLast(item, now);
      assert Linked(saved, kept);
      LastInOrder(live, item, clock);
      Account(item);
      assert Linked(saved, kept);
      assert InOrder(live, clock);
      assert View() == old(View()) + [Entry(item.job.id, now, item.job.status)];
    }

    /**
     * A lookup leaves the tail at a released node: it empties a list of two nodes or more, or the list was left so
     * before.
     */
    ghost predicate Dangles(now: int)
      reads this, live, Jobs(live)
    {
      Sweep(View(), now - limits.timeout) == [] && if live == [] then tail != null else |live| >= 2
    }

    /**
     * Inserts a workflow, unless the list is full or knows its id already. The limits are compared with
     * the counter before the expired nodes are taken out. The link from the tail to the new node is written to a
     * released node, `hit`, exactly if the lookup leaves the tail at one.
     */
    method Insert(item: Node, now: int) returns (code: Code, ghost hit: Node?)
      requires Valid() && clock <= now && IsNew(item)
      modifies this`head, this`tail, this`counter, this`live, this`accepted, this`released, this`gone, this`clock
      modifies item`next, item`timestamp, live`next, gone`next, Jobs(live)`status
      ensures Valid()
      ensures code == JobSpec.Insert(old(View()), item.job.id, old(item.job.status), now, limits).0
      ensures View() == JobSpec.Insert(old(View()), item.job.id, old(item.job.status), now, limits).1
      ensures accepted == old(accepted) + if code in {Ok, FarmFull} then {item.job} else {}
      ensures code in {Ok, FarmFull} ==> live != [] && live[|live| - 1] == item
      ensures clock <= now && forall n :: n in live ==> n in old(live) || n == item
      ensures forall n :: n in gone ==> n in old(gone) || n in old(live)
      ensures tail != null <==> KeepsTail(|old(live)|, old(tail) != null, |live|)
      ensures hit != null <==> code in {Ok, FarmFull} && old(Dangles(now))
      ensures forall n :: n in gone ==> n.next == if n == hit then item else old(n.next)
      ensures hit != null ==> hit in gone
    {
      hide Valid, Sweep, JobSpec.Find, View, Outcome, JobSpec.Insert, TailLeft, Told, Jobs;
      code, hit := Ok, null;
      ghost var v := View();
      InsertCases(v, Sweep(v, now - limits.timeout), item.job.id, item.job.status, now, limits);
      Counter();
      if limits.farm != 0 && counter >= limits.farm {
        if limits.queue != 0 && counter >= limits.farm + limits.queue {
          TailKnown();
          return Full, null;
        }
        code := FarmFull;
      }
      UnknownJob(item);
      ghost var s, before := live, tail;
      var found, prev := FindJob(item.job.id, now);
      LookedUp(item.job.id, found, prev);
      StillThere(s, v);
      if found != null {
        return Existing, null;
      }
      Counter();
      TailRule(s, before);
      if live == [] {
        hit := tail;
      }
      TailKnown();
      assert tail == null || tail in old(live) || tail in old(gone);
      Append(item, now);
      TailKnown();
    }

    lemma TailKnown()
      requires Valid()
      ensures (tail == null || tail in live || tail in gone) && (live != [] ==> tail != null)
    {
    }

    lemma StillThere(s: seq<Node>, v: seq<Entry>)
      requires Told(s, v)
      ensures forall n :: n in live ==> n in s
    {
    }

    lemma Counter()
      requires Valid()
      ensures counter == |View()| == |live|
    {
    }

    lemma UnknownJob(item: Node)
      requires Valid() && IsNew(item)
      ensures item.job !in Jobs(live)
    {
    }

    lemma LookedUp(id: int, item: Node?, prev: Node?)
      requires Outcome(id, item, prev)
      ensures item != null <==> JobSpec.Find(View(), id).Some?
      ensures item == null ==> forall n :: n in live ==> n.job.id != id
      ensures item != null ==>
        var p := JobSpec.Find(View(), id).value;
        IsPrev(prev, p) && p < |live| && item == live[p] && item.job.id == id
    {
      forall n | item == null && n in live
        ensures n.job.id != id
      {
        var i :| 0 <= i < |live| && live[i] == n;
        assert View()[i].id == n.job.id;
      }
    }

    /** Keeps the node of a finished workflow in the saved list, or lets it go. */
    method Save(item: Node, remove: bool, now: int)
      requires Valid() && item in gone && item.job in released && tail != item
      modifies this`saved, this`kept, this`gone, this`released, item`next, item`timestamp
      ensures Valid()
      ensures if remove && saving
              then kept == [item] + old(kept) && item.timestamp == now && gone == old(gone) - {item} &&
                released == old(released) - {item.job}
              else kept == old(kept) && gone == old(gone) && released == old(released)
    {
      hide DistinctIds, DistinctJobs, Ledger, InOrder, Apart;
      if remove && saving {
        SavedLedger(live, kept, accepted, released, gone, item);
        item.timestamp := now;
        item.next := saved;
        saved := item;
        kept, gone, released := [item] + kept, gone - {item}, released - {item.job};
        assert InOrder(live, clock);
      }
    }

    /** Takes the node at position p out of the list and saves it or lets it go. */
    method Delete(item: Node, prev: Node?, remove: bool, now: int, ghost p: nat)
      requires Valid() && IsPrev(prev, p) && item == live[p]
      modifies this`head, this`tail, this`counter, this`saved, this`live, this`kept, this`gone, this`released
      modifies (if p == 0 then {} else {live[p - 1]})`next, item`next, item`timestamp
      ensures Valid() && live == Without(old(live), p)
      ensures kept == if remove && saving then [item] + old(kept) else old(kept)
      ensures View() == Without(old(View()), p) && tail == if old(tail) == item then prev else old(tail)
    {
      hide DistinctIds, DistinctJobs, Ledger, InOrder, Apart, Linked, TailOf;
      Unlink(item, prev, p);
      assert View() == Without(old(View()), p);
      Save(item, remove, now);
      assert View() == Without(old(View()), p);
    }

    /** Looks a job up and, if it is there, takes it out of the list. */
    method DropJob(jobid: int, remove: bool, now: int)
      requires Valid() && clock <= now
      modifies this`head, this`tail, this`counter, this`saved, this`live, this`kept, this`gone, this`released,
        this`clock
      modifies live, Jobs(live)`status
      ensures Valid()
      ensures View() == JobSpec.Drop(old(View()), jobid, now, limits)
      ensures if remove && saving && JobSpec.Find(Sweep(old(View()), now - limits.timeout), jobid).Some?
              then kept != [] && kept[1..] == old(kept) && kept[0] in old(live) && kept[0].job.id == jobid
              else kept == old(kept)
      ensures tail == TailLeft(old(live), live, old(tail))
      ensures tail != null <==> KeepsTail(|old(live)|, old(tail) != null, |live|)
    {
      hide Valid, Sweep, JobSpec.Find, JobSpec.Drop, View, Outcome, IsPrev, TailLeft, PrevIn, KeepsTail, Told, Without;
      ghost var v, s, before := View(), live, tail;
      NodesDiffer();
      DropCases(v, Sweep(v, now - limits.timeout), jobid, now, limits);
      var item, prev := FindJob(jobid, now);
      LookedUp(jobid, item, prev);
      if item == null {
        return;
      }
      StillThere(s, v);
      ghost var p := JobSpec.Find(View(), jobid).value;
      TailDropped(s, v, before, p, prev);
      assert live[p] in s && (p > 0 ==> live[p - 1] in s);
      Delete(item, prev, remove, now, p);
      TailRule(s, before);
    }

    lemma NodesDiffer()
      requires Valid()
      ensures DistinctNodes(live)
    {
    }

    /** Where the tail is left when one node is dropped after the expired ones. */
    lemma TailDropped(s: seq<Node>, v: seq<Entry>, before: Node?, p: nat, prev: Node?)
      requires Valid() && Told(s, v) && p < |live| && tail == TailLeft(s, live, before) && DistinctNodes(s)
      requires PrevIn(s, live[p], prev)
      ensures (if tail == live[p] then prev else tail) == TailLeft(s, Without(live, p), before) && s != []
    {
      hide DistinctIds, DistinctNodes, DistinctJobs, Ledger, InOrder, Apart, Linked, PrevIn, Without;
      assert live[|live| - 1] == s[|s| - 1] && tail == s[|s| - 1];
      LastDropped(s, live, before, p, prev);
    }

    lemma LastDropped(s: seq<Node>, r: seq<Node>, before: Node?, p: nat, prev: Node?)
      requires DistinctNodes(s) && p < |r| <= |s| && r == s[|s| - |r|..]
      requires before == s[|s| - 1] && PrevIn(s, r[p], prev)
      ensures TailLeft(s, Without(r, p), before) == if before == r[p] then prev else before
    {
      var n := |s| - |r| + p;
      assert s[n] == r[p];
      var i :| 0 <= i < |s| && s[i] == r[p] && prev == if i == 0 then null else s[i - 1];
      assert i == n;
      var rest := Without(r, p);
      if p == |r| - 1 {
        assert rest != [] ==> rest[|rest| - 1] == s[|s| - 2];
      } else {
        assert rest[|rest| - 1] == s[|s| - 1] && r[p] != s[|s| - 1];
      }
    }

    /** One node of the saved list visited by a purge. */
    method PurgeOne(hysteresis: int, now: int, current: Node, prev: Node?, next: Node?, ghost r: seq<Node>,
        ghost rest: seq<Node>)
      returns (prev': Node?, ghost r': seq<Node>)
      requires rest != [] && next == current.next && Purging(r, rest, saved, prev, current)
      modifies this`saved, (if prev == null then {} else {prev})`next
      ensures r' == r + if Stale(current, hysteresis, now) then [] else [current]
      ensures Purging(r', rest[1..], saved, prev', next) && (prev' == prev || prev' == current)
    {
      hide DistinctNodes, Linked, Without;
      NextToPurge(r, rest, saved, prev, current);
      PurgeKeeps(r, rest, saved, prev, current);
      prev', r' := prev, r;
      if hysteresis == 0 || current.timestamp < now - hysteresis {
        if prev != null {
          SkipNext(prev, next, saved, r + rest, |r|);
        }
        PurgeDrops(r, rest, saved, prev, next);
      } else {
        prev' := current;
        r' := r + [current];
        if saved == null {
          saved := current;
        }
      }
    }

    /** The loop over the saved list. */
    method PurgeLoop(hysteresis: int, now: int)
      requires Linked(saved, kept) && DistinctJobs(kept) && Linked(head, live) && forall n :: n in kept ==> n !in live
      modifies this`saved, kept`next
      ensures Linked(saved, Recent(kept, hysteresis, now)) && Linked(head, live)
    {
      hide DistinctNodes, DistinctJobs, Linked, Purging, Recent, Stale;
      ghost var s := kept;
      PurgeStarts(s, saved);
      var current, prev := saved, null;
      saved := null;
      ghost var r, i := [], 0;
      assert s[..0] == [] && s[0..] == s;
      RecentOfNone(hysteresis, now);
      while current != null
        invariant 0 <= i <= |s| && Purging(r, s[i..], saved, prev, current) && (current != null <==> i < |s|)
        invariant r == Recent(s[..i], hysteresis, now) && (prev == null || prev in s)
        invariant Linked(head, live)
        decreases |s| - i
      {
        NextToPurge(r, s[i..], saved, prev, current);
        RecentSnoc(s, i, hysteresis, now);
        var next := current.next;
        prev, r := PurgeOne(hysteresis, now, current, prev, next, r, s[i..]);
        assert s[i..][1..] == s[i + 1..];
        current := next;
        i := i + 1;
      }
      assert s[..i] == s && s[i..] == [];
      Purged(r, saved, prev, current);
    }

    /** Lets the saved workflows go that are older than the given number of seconds, or all of them. */
    method Purge(hysteresis: int, now: int)
      requires Valid()
      modifies this`saved, this`kept, this`gone, this`released, kept`next
      ensures Valid()
      ensures kept == Recent(old(kept), hysteresis, now)
      ensures forall n :: n in kept <==> n in old(kept) && hysteresis != 0 && n.timestamp >= now - hysteresis
      ensures InOrderOf(kept, old(kept))
    {
      hide DistinctIds, DistinctNodes, DistinctJobs, Ledger, InOrder, Apart, Linked, TailOf, Recent, Jobs, InOrderOf;
      ghost var s := kept;
      KeptApart();
      PurgeLoop(hysteresis, now);
      ghost var r := Recent(s, hysteresis, now);
      ghost var dropped := set n | n in s && n !in r;
      RecentDistinct(s, hysteresis, now);
      RecentAmong(s, hysteresis, now);
      RecentIs(s, hysteresis, now);
      FewerKept(live, s, r, accepted, released, gone);
      WiderTail(tail, live, gone, gone + dropped);
      kept, gone, released := r, gone + dropped, released + (Jobs(s) - Jobs(r));
    }

    lemma KeptApart()
      requires Valid()
      ensures forall n :: n in kept ==> n !in live
    {
    }

    lemma RecentOfNone(hysteresis: int, now: int)
      ensures Recent([], hysteresis, now) == []
    {
    }

    /** The number of workflows with a status among the nodes that a sweep has left behind it. */
    lemma OneMoreVisited(s: seq<Node>, v: seq<Entry>, k: nat, i: nat, deadline: int)
      requires Sweeping(s, v, k, i, deadline) && k <= i < |s|
      ensures |s| == |v| && v[k..i + 1] == v[k..i] + [v[i]] && s[i].job.status == v[i].status
      ensures Running(v[k..i + 1]) == Running(v[k..i]) + if v[i].status != UNKNOWN then 1 else 0
    {
      assert v[k..i + 1] == v[k..i] + [v[i]];
      RunningSnoc(v[k..i], v[i]);
    }

    /** Takes the expired nodes out of the list and counts the workflows that occupy the farm. */
    method CountRunning(now: int) returns (running: nat)
      requires Valid() && clock <= now
      modifies this`head, this`tail, this`counter, this`live, this`released, this`gone, this`clock, Jobs(live)`status
      ensures Valid() && clock == now
      ensures View() == Sweep(old(View()), now - limits.timeout)
      ensures Told(old(live), old(View()))
      ensures running == Running(View())
      ensures tail == TailLeft(old(live), live, old(tail))
      ensures tail != null <==> KeepsTail(|old(live)|, old(tail) != null, |live|)
    {
      hide DistinctIds, DistinctJobs, Ledger, InOrder, Apart, Linked, TailOf, Sweeping, Jobs, Sweep, View, Told,
        Running, TailLeft, KeepsTail;
      var deadline := now - limits.timeout;
      ghost var s := live;
      ghost var v := Begin(now);
      var temp, tempPrev := head, null;
      running := 0;
      ghost var k, i := 0, 0;
      NoneRunning();
      TailStarts(s, tail);
      while temp != null
        invariant Valid() && clock == now && DistinctIds(s)
        invariant Sweeping(s, v, k, i, deadline) && Cursor(s, i, temp, tempPrev) && k <= i <= |s| == |v|
        invariant running == Running(v[k..i]) && tail == TailLeft(s, s[k..], old(tail))
        decreases |s| - i
      {
        ExpiredIsFirst(s, v, k, i, deadline, temp, tempPrev);
        OneMoreVisited(s, v, k, i, deadline);
        var next := temp.next;
        if temp.timestamp < deadline {
          if counter == 0 {
            return;
          }
          TailMoves(s, v, k, deadline, old(tail), temp, tempPrev);
          SweepOne(temp, tempPrev, s, v, i, deadline);
          k := k + 1;
          assert v[k..i + 1] == v[i..i];
        } else if temp.job.status != UNKNOWN {
          running := running + 1;
        }
        tempPrev, temp := temp, next;
        i := i + 1;
      }
      Swept(s, v, k, i, deadline);
      SweptView(s, v, k, i, deadline);
      SweepEnds(s, v, k, i, deadline, old(tail));
    }

    lemma NoneRunning()
      ensures Running([]) == 0
    {
    }

    lemma SweptView(s: seq<Node>, v: seq<Entry>, k: nat, i: nat, deadline: int)
      requires Sweeping(s, v, k, i, deadline) && i == |s|
      ensures View() == v[k..i]
    {
    }

    /** The first queued workflow of a swept list. */
    method FirstQueued(ghost v: seq<Entry>) returns (item: Node?)
      requires Valid() && v == View()
      ensures Valid() && v == View()
      ensures match JobSpec.FirstQueued(v) {
        case None => item == null
        case Some(p) => p < |live| && item == live[p]
      }
    {
      hide DistinctIds, DistinctJobs, Ledger, InOrder, Apart, TailOf, JobSpec.FirstQueued;
      item := head;
      ghost var i := 0;
      while item != null
        invariant 0 <= i <= |live| == |v| && item == (if i < |live| then live[i] else null)
        invariant forall m :: 0 <= m < i ==> v[m].status != UNKNOWN
        decreases |live| - i
      {
        assert v[i].status == item.job.status;
        if item.job.status == UNKNOWN {
          return;
        }
        item := item.next;
        i := i + 1;
      }
    }

    /**
     * The oldest queued workflow, if a slot of the farm is free and something is queued, and null
     * otherwise. On the way it takes the expired nodes out of the list.
     */
    method FindUnstarted(now: int) returns (item: Node?, ghost r: Option<nat>)
      requires Valid() && clock <= now
      modifies this`head, this`tail, this`counter, this`live, this`released, this`gone, this`clock, Jobs(live)`status
      ensures Valid() && clock == now
      ensures View() == Sweep(old(View()), now - limits.timeout)
      ensures Told(old(live), old(View()))
      ensures IsNext(View(), limits, r) && r == Next(View(), limits)
      ensures if r.None? then item == null else r.value < |live| && item == live[r.value]
      ensures tail != null <==> KeepsTail(|old(live)|, old(tail) != null, |live|)
    {
      hide Valid, Sweep, Told, View, Running, Next, TailLeft, KeepsTail;
      var running := CountRunning(now);
      ghost var v := View();
      RunningBound(v);
      Counter();
      item, r := null, None;
      if limits.farm != 0 && running < limits.farm && counter > running {
        item := FirstQueued(v);
        r := JobSpec.FirstQueued(v);
      }
      NextIs(v, limits, r);
    }

    /** An id that is positive and larger than every id in the list. */
    method NewJobId() returns (jobid: int)
      requires Valid()
      ensures 0 < jobid && forall n :: n in live ==> n.job.id < jobid
      ensures jobid == 1 || exists n :: n in live && n.job.id == jobid - 1
    {
      hide DistinctIds, DistinctJobs, Ledger, InOrder, Apart, TailOf;
      jobid := 0;
      var temp := head;
      ghost var i := 0;
      while temp != null
        invariant 0 <= i <= |live| && temp == (if i < |live| then live[i] else null)
        invariant 0 <= jobid && (forall m :: 0 <= m < i ==> live[m].job.id <= jobid)
        invariant jobid == 0 || exists n :: n in live && n.job.id == jobid
        decreases |live| - i
      {
        if temp.job.id > jobid {
          jobid := temp.job.id;
          assert live[i].job.id == jobid;
        }
        temp := temp.next;
        i := i + 1;
      }
      jobid := jobid + 1;
    }
  }
}
