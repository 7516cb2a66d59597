/**
 * Runs of attempts: how many times the credentials of one user from one host are looked at while its entry
 * is alive, whatever other users and hosts do in between.
 */
module RetryRuns {
  import opened Options
  import opened Text
  import opened RetryLimiter

  predicate By(e: Event, user: string, host: string) {
    e.user == user && e.host == host
  }

  /** The attempt gets as far as the list: the password file has a line for the user. */
  predicate Reaches(e: Event) {
    e.verdict != Missing && e.verdict != Unreadable
  }

  /** The entries of one pair. */
  function Of(s: seq<Entry>, user: string, host: string): seq<Entry> {
    if s == [] then []
    else if IsFor(s[0], user, host) then [s[0]] + Of(s[1..], user, host)
    else Of(s[1..], user, host)
  }

  ghost predicate Live(s: seq<Entry>, now: int, timeout: int) {
    forall x :: x in s ==> !Expired(x, now, timeout)
  }

  // ----- one step, seen by one pair

  /** The entries of a pair after a lookup of another one, or of itself. */
  lemma {:induction false} LookupOf(s: seq<Entry>, user: string, host: string, u: string, h: string, now: int,
      timeout: int)
    requires Live(Of(s, user, host), now, timeout)
    ensures var q, (count, s') := Of(s, user, host), Lookup(s, u, h, now, timeout);
      if u == user && h == host && q != [] then
        count == Increment(q[0].count) && Of(s', user, host) == [q[0].(count := count)] + q[1..]
      else
        Of(s', user, host) == q && (u == user && h == host ==> count == 0)
  {
    if s != [] {
      var q, q1 := Of(s, user, host), Of(s[1..], user, host);
      assert IsFor(s[0], user, host) ==> q[0] == s[0] && q[1..] == q1;
      if Expired(s[0], now, timeout) {
        assert !IsFor(s[0], user, host);
        LookupOf(s[1..], user, host, u, h, now, timeout);
      } else if IsFor(s[0], u, h) {
        var s' := Lookup(s, u, h, now, timeout).1;
        assert s'[1..] == s[1..];
      } else {
        assert Live(q1, now, timeout);
        LookupOf(s[1..], user, host, u, h, now, timeout);
        var rest := Lookup(s[1..], u, h, now, timeout).1;
        assert ([s[0]] + rest)[1..] == rest;
      }
    }
  }

  /** The entries of a pair after another one succeeded. */
  lemma {:induction false} DroppedOf(s: seq<Entry>, user: string, host: string, u: string, h: string, now: int,
      timeout: int)
    requires Live(Of(s, user, host), now, timeout) && !(u == user && h == host)
    ensures Of(Dropped(s, u, h, now, timeout), user, host) == Of(s, user, host)
  {
    if s != [] && !IsFor(s[0], u, h) {
      var q1 := Of(s[1..], user, host);
      assert IsFor(s[0], user, host) ==> Of(s, user, host)[0] == s[0] && Of(s, user, host)[1..] == q1;
      if Expired(s[0], now, timeout) {
        assert !IsFor(s[0], user, host);
        DroppedOf(s[1..], user, host, u, h, now, timeout);
      } else {
        DroppedOf(s[1..], user, host, u, h, now, timeout);
        var rest := Dropped(s[1..], u, h, now, timeout);
        assert ([s[0]] + rest)[1..] == rest;
      }
    }
  }

  lemma OfAdded(x: Entry, s: seq<Entry>, user: string, host: string)
    ensures Of([x] + s, user, host) == if IsFor(x, user, host) then [x] + Of(s, user, host) else Of(s, user, host)
  {
    assert ([x] + s)[1..] == s;
  }

  /** Attempts of others leave the live entries of a pair alone. */
  lemma OtherAttempt(s: seq<Entry>, e: Event, user: string, host: string, timeout: int)
    requires !By(e, user, host) && Live(Of(s, user, host), e.now, timeout)
    ensures Of(After(s, e, timeout), user, host) == Of(s, user, host)
  {
    hide Lookup, Dropped, Of;
    LookupOf(s, user, host, e.user, e.host, e.now, timeout);
    var s' := Lookup(s, e.user, e.host, e.now, timeout).1;
    DroppedOf(s', user, host, e.user, e.host, e.now, timeout);
    OfAdded(Entry(e.user, e.host, 1, e.now), s', user, host);
  }

  /** The entries of a pair after an attempt with wrong credentials. */
  function Failed(q: seq<Entry>, e: Event): seq<Entry> {
    if q == [] then [Entry(e.user, e.host, 1, e.now)]
    else
      var count := Increment(q[0].count);
      (if count == 0 then [Entry(e.user, e.host, 1, e.now)] else []) + [q[0].(count := count)] + q[1..]
  }

  lemma WrongAttempt(s: seq<Entry>, e: Event, timeout: int)
    requires e.verdict == Wrong && Live(Of(s, e.user, e.host), e.now, timeout)
    ensures Of(After(s, e, timeout), e.user, e.host) == Failed(Of(s, e.user, e.host), e)
    ensures Compared(s, e, timeout) <==>
      Of(s, e.user, e.host) == [] || Increment(Of(s, e.user, e.host)[0].count) <= MAX_COUNT
  {
    hide Lookup, Dropped, Of;
    LookupOf(s, e.user, e.host, e.user, e.host, e.now, timeout);
    OfAdded(Entry(e.user, e.host, 1, e.now), Lookup(s, e.user, e.host, e.now, timeout).1, e.user, e.host);
  }

  /**
   * An attempt that does not succeed and is not one with wrong credentials only counts the entry up: there is no
   * line, or no password in it, or the right credentials are refused because the pair is blocked.
   */
  lemma OpenAttempt(s: seq<Entry>, e: Event, timeout: int)
    requires e.verdict != Wrong && Answer(s, e, timeout) != Ok && Live(Of(s, e.user, e.host), e.now, timeout)
    ensures !Compared(s, e, timeout)
    ensures e.verdict == Right ==> Of(s, e.user, e.host) != [] && Increment(Of(s, e.user, e.host)[0].count) > MAX_COUNT
    ensures var q := Of(s, e.user, e.host);
      Of(After(s, e, timeout), e.user, e.host) ==
      if Reaches(e) && q != [] then [q[0].(count := Increment(q[0].count))] + q[1..] else q
  {
    hide Lookup, Dropped, Of;
    LookupOf(s, e.user, e.host, e.user, e.host, e.now, timeout);
  }

  /** Expired entries of a pair are all dropped by a lookup that finds none that is alive. */
  lemma {:induction false} LookupNone(s: seq<Entry>, user: string, host: string, now: int, timeout: int)
    requires forall x :: x in Of(s, user, host) ==> Expired(x, now, timeout)
    ensures var (count, s') := Lookup(s, user, host, now, timeout); count == 0 && Of(s', user, host) == []
  {
    if s != [] {
      var q1 := Of(s[1..], user, host);
      assert IsFor(s[0], user, host) ==> s[0] in Of(s, user, host);
      assert forall x :: x in q1 ==> x in Of(s, user, host);
      LookupNone(s[1..], user, host, now, timeout);
      if !Expired(s[0], now, timeout) {
        var rest := Lookup(s[1..], user, host, now, timeout).1;
        assert ([s[0]] + rest)[1..] == rest;
      }
    }
  }

  /** The first attempt with wrong credentials adds the entry. */
  lemma FirstAttempt(s: seq<Entry>, e: Event, timeout: int)
    requires e.verdict == Wrong && forall x :: x in Of(s, e.user, e.host) ==> Expired(x, e.now, timeout)
    ensures Of(After(s, e, timeout), e.user, e.host) == [Entry(e.user, e.host, 1, e.now)] && Compared(s, e, timeout)
  {
    hide Lookup, Dropped, Of;
    LookupNone(s, e.user, e.host, e.now, timeout);
    OfAdded(Entry(e.user, e.host, 1, e.now), Lookup(s, e.user, e.host, e.now, timeout).1, e.user, e.host);
  }

  // ----- runs

  function AfterAll(s: seq<Entry>, es: seq<Event>, timeout: int): seq<Entry>
    decreases |es|
  {
    if es == [] then s else AfterAll(After(s, es[0], timeout), es[1..], timeout)
  }

  function Attempts(es: seq<Event>, user: string, host: string): nat {
    if es == [] then 0
    else (if By(es[0], user, host) && Reaches(es[0]) then 1 else 0) + Attempts(es[1..], user, host)
  }

  /** The password file has a password for the user whenever the pair makes an attempt. */
  ghost predicate HasPassword(es: seq<Event>, user: string, host: string) {
    forall e :: e in es && By(e, user, host) ==> e.verdict != NoPassword
  }

  /** How many attempts of a pair get their credentials looked at. */
  function Comparisons(s: seq<Entry>, es: seq<Event>, user: string, host: string, timeout: int): nat
    decreases |es|
  {
    if es == [] then 0
    else (if By(es[0], user, host) && Compared(s, es[0], timeout) then 1 else 0)
         + Comparisons(After(s, es[0], timeout), es[1..], user, host, timeout)
  }

  /** All events happen before the entry expires. */
  ghost predicate InTime(es: seq<Event>, start: int, timeout: int) {
    forall e :: e in es ==> start <= e.now <= start + timeout
  }

  /** No attempt of the pair succeeds; it may give the right credentials and be refused. */
  ghost predicate NoSuccess(s: seq<Entry>, es: seq<Event>, user: string, host: string, timeout: int)
    decreases |es|
  {
    es == [] ||
    (!(By(es[0], user, host) && Answer(s, es[0], timeout) == Ok) &&
     NoSuccess(After(s, es[0], timeout), es[1..], user, host, timeout))
  }

  /** A short integer that was counted up k times from zero. */
  function Short(k: nat): int
    requires k < 65536
  {
    if k < 32768 then k else k - 65536
  }

  /** How many of the first k attempts are compared, for k < 65536. */
  function Looked(k: nat): nat {
    if k <= MAX_COUNT then k else if k < 32768 then MAX_COUNT else MAX_COUNT + k - 32767
  }

  lemma OneMoreAttempt(k: nat)
    requires 1 <= k < 65535
    ensures Increment(Short(k)) == Short(k + 1) != 0
    ensures Looked(k + 1) == Looked(k) + if Short(k + 1) <= MAX_COUNT then 1 else 0
  {
  }

  /** Once a pair has two entries, it keeps at least two. */
  lemma {:induction false} StaysTwice(s: seq<Entry>, es: seq<Event>, user: string, host: string, start: int,
      timeout: int)
    requires InTime(es, start, timeout) && NoSuccess(s, es, user, host, timeout)
    requires |Of(s, user, host)| >= 2 && forall x :: x in Of(s, user, host) ==> x.timestamp >= start
    ensures |Of(AfterAll(s, es, timeout), user, host)| >= 2
    decreases |es|
  {
    hide Of, After, Answer;
    if es != [] {
      var e := es[0];
      if !By(e, user, host) {
        OtherAttempt(s, e, user, host, timeout);
      } else if e.verdict == Wrong {
        WrongAttempt(s, e, timeout);
      } else {
        OpenAttempt(s, e, timeout);
      }
      StaysTwice(After(s, e, timeout), es[1..], user, host, start, timeout);
    }
  }

  /** The entry counts the attempts of its pair, up to the width of the counter. */
  lemma {:induction false} EntryCounts(s: seq<Entry>, es: seq<Event>, user: string, host: string, start: int,
      timeout: int, k: nat)
    requires InTime(es, start, timeout) && NoSuccess(s, es, user, host, timeout) && 1 <= k < 65536
    requires Of(s, user, host) == [Entry(user, host, Short(k), start)]
    ensures var n := k + Attempts(es, user, host);
      if n < 65536 then
        && Of(AfterAll(s, es, timeout), user, host) == [Entry(user, host, Short(n), start)]
        && Looked(k) + Comparisons(s, es, user, host, timeout) <= Looked(n)
        && (HasPassword(es, user, host) ==> Looked(k) + Comparisons(s, es, user, host, timeout) == Looked(n))
      else HasPassword(es, user, host) ==>
        && |Of(AfterAll(s, es, timeout), user, host)| >= 2
        && Looked(k) + Comparisons(s, es, user, host, timeout) >= Looked(65535)
    decreases |es|
  {
    hide Of, After, Compared, Looked, Answer;
    if es != [] {
      var e := es[0];
      if !By(e, user, host) {
        OtherAttempt(s, e, user, host, timeout);
        EntryCounts(After(s, e, timeout), es[1..], user, host, start, timeout, k);
      } else {
        OwnAttempt(s, e, start, timeout, k);
        if !Reaches(e) {
          EntryCounts(After(s, e, timeout), es[1..], user, host, start, timeout, k);
        } else if k < 65535 {
          OneMoreAttempt(k);
          EntryCounts(After(s, e, timeout), es[1..], user, host, start, timeout, k + 1);
        } else if e.verdict == Wrong {
          StaysTwice(After(s, e, timeout), es[1..], user, host, start, timeout);
        }
      }
    }
  }

  /** One attempt of a pair that has made k, before its entry expires. */
  lemma OwnAttempt(s: seq<Entry>, e: Event, start: int, timeout: int, k: nat)
    requires 1 <= k < 65536 && Of(s, e.user, e.host) == [Entry(e.user, e.host, Short(k), start)]
    requires start <= e.now <= start + timeout && Answer(s, e, timeout) != Ok
    ensures var q, count := Of(After(s, e, timeout), e.user, e.host), Increment(Short(k));
      && (!Reaches(e) ==> q == Of(s, e.user, e.host))
      && (Reaches(e) && k < 65535 ==> q == [Entry(e.user, e.host, Short(k + 1), start)])
      && (e.verdict == Wrong && k == 65535 ==> |q| == 2 && forall x :: x in q ==> x.timestamp >= start)
      && (k == 65535 && Reaches(e) ==> e.verdict == Wrong || e.verdict == NoPassword)
      && (Compared(s, e, timeout) ==> e.verdict == Wrong && count <= MAX_COUNT)
      && (Reaches(e) && e.verdict != NoPassword && count <= MAX_COUNT ==> Compared(s, e, timeout))
  {
    hide Of, After, Compared, Answer;
    if k < 65535 {
      OneMoreAttempt(k);
    }
    if e.verdict == Wrong {
      WrongAttempt(s, e, timeout);
    } else {
      OpenAttempt(s, e, timeout);
    }
  }

  /**
   * From the attempt that adds the entry until the entry expires, n attempts in all: as long as the counter
   * does not wrap, the credentials are looked at no more than MAX_COUNT times; from attempt 32768 on they are
   * looked at again. The entry is the only one of its pair exactly for less than 65536 attempts.
   */
  lemma AttemptsAreLimited(s: seq<Entry>, first: Event, es: seq<Event>, timeout: int)
    requires first.verdict == Wrong && InTime(es, first.now, timeout)
    requires forall x :: x in Of(s, first.user, first.host) ==> Expired(x, first.now, timeout)
    requires NoSuccess(After(s, first, timeout), es, first.user, first.host, timeout)
    ensures var all := [first] + es;
      var n, looked, entries := Attempts(all, first.user, first.host),
        Comparisons(s, all, first.user, first.host, timeout),
        Of(AfterAll(s, all, timeout), first.user, first.host);
      && (n <= 32767 ==> looked <= 5) && (n < 65536 ==> |entries| == 1)
      && (HasPassword(es, first.user, first.host) ==>
            && (looked <= 5 <==> n <= 32767)
            && (n <= 32767 ==> looked == if n < 5 then n else 5)
            && (|entries| == 1 <==> n < 65536))
  {
    hide Of, After, Compared, Attempts, Comparisons, AfterAll;
    FirstAttempt(s, first, timeout);
    EntryCounts(After(s, first, timeout), es, first.user, first.host, first.now, timeout, 1);
    FirstOf(s, first, es, timeout);
  }

  lemma FirstOf(s: seq<Entry>, first: Event, es: seq<Event>, timeout: int)
    requires Compared(s, first, timeout) && Reaches(first)
    ensures Attempts([first] + es, first.user, first.host) == 1 + Attempts(es, first.user, first.host)
    ensures Comparisons(s, [first] + es, first.user, first.host, timeout)
         == 1 + Comparisons(After(s, first, timeout), es, first.user, first.host, timeout)
    ensures AfterAll(s, [first] + es, timeout) == AfterAll(After(s, first, timeout), es, timeout)
  {
    assert ([first] + es)[1..] == es;
  }

  function Again(e: Event, n: nat): seq<Event> {
    if n == 0 then [] else [e] + Again(e, n - 1)
  }

  lemma {:induction false} AgainCounts(e: Event, n: nat)
    requires e.verdict == Wrong
    ensures Attempts(Again(e, n), e.user, e.host) == n && forall x :: x in Again(e, n) ==> x == e
    ensures forall s, timeout :: NoSuccess(s, Again(e, n), e.user, e.host, timeout)
  {
    if n > 0 {
      AgainCounts(e, n - 1);
      assert Again(e, n)[1..] == Again(e, n - 1);
    }
  }

  /** The limit does not hold for 32768 attempts, and the pair gets a second entry at attempt 65536. */
  lemma LimitWraps(e: Event, timeout: int)
    requires e.verdict == Wrong && 0 <= timeout
    ensures Comparisons([], [e] + Again(e, 32767), e.user, e.host, timeout) > 5
    ensures |Of(AfterAll([], [e] + Again(e, 65535), timeout), e.user, e.host)| != 1
  {
    hide Again, AfterAll, Comparisons, After;
    AgainCounts(e, 32767);
    AgainCounts(e, 65535);
    AttemptsAreLimited([], e, Again(e, 32767), timeout);
    AttemptsAreLimited([], e, Again(e, 65535), timeout);
  }

  // ----- success

  /**
   * The right credentials are accepted exactly if the pair has no entry, or an expired one that is still listed,
   * or one that does not block it yet; and then the pair has no entry any more.
   */
  lemma SuccessResets(s: seq<Entry>, e: Event, timeout: int)
    requires e.verdict == Right && |Of(s, e.user, e.host)| <= 1
    ensures Answer(s, e, timeout) == Ok ==> Of(After(s, e, timeout), e.user, e.host) == []
    ensures var q := Of(s, e.user, e.host);
      Answer(s, e, timeout) == Ok <==>
        q == [] || e.now > q[0].timestamp + timeout || q[0].count < 5 || q[0].count == 32767
  {
    hide Lookup, Dropped, Of;
    var q := Of(s, e.user, e.host);
    if q != [] && Expired(q[0], e.now, timeout) {
      LookupNone(s, e.user, e.host, e.now, timeout);
    } else {
      LookupOf(s, e.user, e.host, e.user, e.host, e.now, timeout);
    }
    DroppedOwn(Lookup(s, e.user, e.host, e.now, timeout).1, e.user, e.host, e.now, timeout);
  }

  lemma {:induction false} DroppedOwn(s: seq<Entry>, user: string, host: string, now: int, timeout: int)
    requires |Of(s, user, host)| <= 1
    ensures Of(Dropped(s, user, host, now, timeout), user, host) == []
  {
    if s != [] {
      if IsFor(s[0], user, host) {
        assert Of(s, user, host)[1..] == Of(s[1..], user, host);
      } else {
        DroppedOwn(s[1..], user, host, now, timeout);
        var rest := Dropped(s[1..], user, host, now, timeout);
        assert ([s[0]] + rest)[1..] == rest;
      }
    }
  }

  // ----- the text of the password file

  /** A line that says nothing about a user: it is empty, or the line of another user. */
  predicate SaysNothing(line: string, user: string) {
    line == "" || (Tokens(line, ':') != [] && Tokens(line, ':')[0] != user)
  }

  /** The first line that is not passed over decides. */
  lemma {:induction false} FirstLineDecides(
    lines: seq<string>, i: nat, user: string, passwd: Option<string>, digest: Option<string>)
    requires i <= |lines| && forall j :: 0 <= j < i ==> SaysNothing(lines[j], user)
    requires i < |lines| ==> !SaysNothing(lines[i], user)
    ensures Judge(lines, user, passwd, digest) ==
      if i == |lines| then Missing
      else if Tokens(lines[i], ':') == [] then Unreadable
      else JudgeLine(Tokens(lines[i], ':'), passwd, digest)
    decreases i
  {
    hide TokensFrom, JudgeLine;
    if i > 0 {
      assert SaysNothing(lines[0], user);
      FirstLineDecides(lines[1..], i - 1, user, passwd, digest);
    }
  }

  /** Empty lines and the lines of other users make no difference. */
  lemma {:induction false} OtherLinesDoNotDecide(a: seq<string>, line: string, b: seq<string>, user: string,
                                                 passwd: Option<string>, digest: Option<string>)
    requires SaysNothing(line, user)
    ensures Judge(a + [line] + b, user, passwd, digest) == Judge(a + b, user, passwd, digest)
  {
    hide TokensFrom, JudgeLine;
    if a == [] {
      assert ([] + [line] + b)[1..] == b && [] + b == b;
    } else {
      OtherLinesDoNotDecide(a[1..], line, b, user, passwd, digest);
      assert (a + [line] + b)[1..] == a[1..] + [line] + b && (a + b)[1..] == a[1..] + b;
    }
  }

  /** A text that can stand between two separators of a line. */
  predicate Clean(x: string) {
    x != "" && ':' !in x
  }

  /** The text of the line of a user. */
  function LineOf(user: string, password: string, rest: Option<string>): string {
    user + ":" + (password + if rest == None then "" else ":" + rest.value)
  }

  lemma LinePieces(user: string, password: string, rest: Option<string>)
    requires Clean(user) && Clean(password)
    ensures Tokens(LineOf(user, password, rest), ':') ==
      [user, password] + if rest == None then [] else Tokens(rest.value, ':')
    ensures LineOf(user, password, rest) != ""
  {
    hide TokensFrom;
    var more := password + if rest == None then "" else ":" + rest.value;
    OneToken("", user, ':');
    OneToken("", password, ':');
    SplitTokens("", user, more, ':');
    assert "" + user == user && "" + password == password && user + [':'] + more == user + ":" + more;
    if rest.Some? {
      SplitTokens("", password, rest.value, ':');
      assert password + [':'] + rest.value == password + (":" + rest.value);
    } else {
      assert password + "" == password;
    }
  }

  /** The pair is blocked: its entry is not expired and has counted five attempts or more, and has not wrapped. */
  predicate Blocked(s: seq<Entry>, user: string, host: string, now: int, timeout: int) {
    var q := Of(s, user, host);
    q != [] && now <= q[0].timestamp + timeout && 5 <= q[0].count && q[0].count != 32767
  }

  /**
   * What the server answers to a user whose line in the password file, the first one that is not passed over, gives
   * a password: success if and only if the pair is not blocked and the password, or its digest, is the one of the
   * line, or no password is asked for.
   */
  lemma AcceptsExactly(s: seq<Entry>, lines: seq<string>, i: nat, user: string, password: string, rest: Option<string>,
                       passwd: Option<string>, digest: Option<string>, host: string, now: int, timeout: int)
    requires i < |lines| && lines[i] == LineOf(user, password, rest) && Clean(user) && Clean(password)
    requires (forall j :: 0 <= j < i ==> SaysNothing(lines[j], user)) && |Of(s, user, host)| <= 1
    ensures var e := Attempt(user, host, JudgeFile(Some(lines), user, passwd, digest), now);
      && (Answer(s, e, timeout) == Ok <==>
            && !Blocked(s, user, host, now, timeout)
            && (passwd == None || passwd == Some(password) || digest == Some(password)))
      && (Answer(s, e, timeout) == AuthError <==> Blocked(s, user, host, now, timeout))
      && Answer(s, e, timeout) != IoError
  {
    hide TokensFrom, Lookup, Of, Judge;
    LinePieces(user, password, rest);
    FirstLineDecides(lines, i, user, passwd, digest);
    SeenBlocked(s, user, host, now, timeout);
  }

  lemma SeenBlocked(s: seq<Entry>, user: string, host: string, now: int, timeout: int)
    requires |Of(s, user, host)| <= 1
    ensures Lookup(s, user, host, now, timeout).0 > MAX_COUNT <==> Blocked(s, user, host, now, timeout)
  {
    hide Lookup, Of;
    var q := Of(s, user, host);
    if q != [] && Expired(q[0], now, timeout) {
      LookupNone(s, user, host, now, timeout);
    } else {
      LookupOf(s, user, host, user, host, now, timeout);
    }
  }

  /** What the server answers without such a line. */
  lemma RefusesOthers(s: seq<Entry>, lines: seq<string>, i: nat, user: string, passwd: Option<string>,
                      digest: Option<string>, host: string, now: int, timeout: int)
    requires i <= |lines| && (forall j :: 0 <= j < i ==> SaysNothing(lines[j], user)) && |Of(s, user, host)| <= 1
    ensures var answer := Answer(s, Attempt(user, host, JudgeFile(Some(lines), user, passwd, digest), now), timeout);
      && (i == |lines| ==> answer == Error)
      && (i < |lines| && lines[i] != "" && Tokens(lines[i], ':') == [] ==> answer == IoError)
      && (i < |lines| && lines[i] != "" && Tokens(lines[i], ':') == [user] ==>
            answer == if Blocked(s, user, host, now, timeout) then AuthError else IoError)
    ensures Answer(s, Attempt(user, host, JudgeFile(None, user, passwd, digest), now), timeout) == IoError
  {
    hide TokensFrom, Lookup, Of, Judge;
    if i == |lines| || !SaysNothing(lines[i], user) {
      FirstLineDecides(lines, i, user, passwd, digest);
    }
    SeenBlocked(s, user, host, now, timeout);
  }
}
