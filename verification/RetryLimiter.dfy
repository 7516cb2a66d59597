/**
 * The limiter of access attempts: a list of entries for pairs of user and host, each with a counter of the
 * attempts made since the entry was added and a time after which it expires.
 */
module RetryLimiter {
  import opened Options
  import opened Text

  const MAX_COUNT := 5
  const SEPARATOR := ':'

  datatype Entry = Entry(user: string, host: string, count: int, timestamp: int)

  datatype Outcome = Ok | Error | AuthError | IoError

  predicate IsFor(x: Entry, user: string, host: string) {
    x.user == user && x.host == host
  }

  predicate Expired(x: Entry, now: int, timeout: int) {
    now > x.timestamp + timeout
  }

  /** The value of a short integer after an increment: the largest one is followed by the smallest one. */
  function Increment(count: int): int {
    if count == 32767 then -32768 else count + 1
  }

  /** Drops the expired entries that are met, and counts the attempt in the first entry of the pair. */
  function Lookup(s: seq<Entry>, user: string, host: string, now: int, timeout: int): (int, seq<Entry>) {
    if s == [] then (0, [])
    else if Expired(s[0], now, timeout) then Lookup(s[1..], user, host, now, timeout)
    else if IsFor(s[0], user, host) then
      (Increment(s[0].count), [s[0].(count := Increment(s[0].count))] + s[1..])
    else
      var (count, rest) := Lookup(s[1..], user, host, now, timeout);
      (count, [s[0]] + rest)
  }

  /** Drops the first entry of the pair, and the expired entries before it. */
  function Dropped(s: seq<Entry>, user: string, host: string, now: int, timeout: int): seq<Entry> {
    if s == [] then []
    else if IsFor(s[0], user, host) then s[1..]
    else if Expired(s[0], now, timeout) then Dropped(s[1..], user, host, now, timeout)
    else [s[0]] + Dropped(s[1..], user, host, now, timeout)
  }

  // ----- one attempt

  /** What the password file says: no line for the user, a file or line that cannot be read, or a check. */
  datatype Verdict = Missing | Unreadable | NoPassword | Right | Wrong

  /** The verdict on one line whose first piece is the user; without a password the check is skipped. */
  function JudgeLine(pieces: seq<string>, passwd: Option<string>, digest: Option<string>): Verdict {
    if |pieces| < 2 then NoPassword
    else if passwd == None || passwd == Some(pieces[1]) || digest == Some(pieces[1]) then Right
    else Wrong
  }

  /** The verdict of the password file; none if it cannot be opened. */
  function JudgeFile(file: Option<seq<string>>, user: string, passwd: Option<string>, digest: Option<string>): Verdict {
    if file == None then Unreadable else Judge(file.value, user, passwd, digest)
  }

  function Judge(lines: seq<string>, user: string, passwd: Option<string>, digest: Option<string>): Verdict {
    if lines == [] then Missing
    else if lines[0] == "" then Judge(lines[1..], user, passwd, digest)
    else
      var pieces := Tokens(lines[0], SEPARATOR);
      if pieces == [] then Unreadable
      else if pieces[0] != user then Judge(lines[1..], user, passwd, digest)
      else JudgeLine(pieces, passwd, digest)
  }

  datatype Event = Attempt(user: string, host: string, verdict: Verdict, now: int)

  /** The number that the list gives for an attempt. */
  function Seen(s: seq<Entry>, e: Event, timeout: int): int {
    Lookup(s, e.user, e.host, e.now, timeout).0
  }

  /** The credentials are looked at. */
  predicate Compared(s: seq<Entry>, e: Event, timeout: int) {
    (e.verdict == Right || e.verdict == Wrong) && Seen(s, e, timeout) <= MAX_COUNT
  }

  /** The list after an attempt. */
  function After(s: seq<Entry>, e: Event, timeout: int): seq<Entry> {
    if e.verdict == Missing || e.verdict == Unreadable then s
    else
      var (count, s') := Lookup(s, e.user, e.host, e.now, timeout);
      if count > MAX_COUNT || e.verdict == NoPassword then s'
      else if e.verdict == Right then Dropped(s', e.user, e.host, e.now, timeout)
      else if count == 0 then [Entry(e.user, e.host, 1, e.now)] + s'
      else s'
  }

  function Answer(s: seq<Entry>, e: Event, timeout: int): Outcome {
    match e.verdict
    case Missing => Error
    case Unreadable => IoError
    case _ =>
      if Seen(s, e, timeout) > MAX_COUNT then AuthError
      else if e.verdict == NoPassword then IoError
      else if e.verdict == Right then Ok else Error
  }

  /** A lookup at the end of the list, and at one entry. */
  lemma LookupCases(s: seq<Entry>, user: string, host: string, now: int, timeout: int)
    ensures s == [] ==> Lookup(s, user, host, now, timeout) == (0, [])
    ensures s != [] ==>
      var x, rest := s[0], Lookup(s[1..], user, host, now, timeout);
      Lookup(s, user, host, now, timeout) ==
        if Expired(x, now, timeout) then rest
        else if IsFor(x, user, host) then (Increment(x.count), [x.(count := Increment(x.count))] + s[1..])
        else (rest.0, [x] + rest.1)
  {
  }

  lemma SkipFront(front: seq<Entry>, x: Entry, rest: seq<Entry>)
    ensures front + ([x] + rest) == front + [x] + rest
  {
  }

  class Limiter {
    var entries: seq<Entry>
    const timeout: int

    method IsInBl(user: string, host: string, now: int) returns (count: int)
      modifies this
      ensures (count, entries) == Lookup(old(entries), user, host, now, timeout)
    {
      hide Lookup;
      var i := 0;
      ghost var front: seq<Entry>, tail := [], entries;
      while i < |entries|
        invariant i == |front| && entries == front + tail
        invariant Lookup(old(entries), user, host, now, timeout).0 == Lookup(tail, user, host, now, timeout).0
        invariant Lookup(old(entries), user, host, now, timeout).1 == front + Lookup(tail, user, host, now, timeout).1
        decreases |tail|
      {
        var x := entries[i];
        assert x == tail[0];
        LookupCases(tail, user, host, now, timeout);
        if Expired(x, now, timeout) {
          entries := entries[..i] + entries[i + 1..];
          tail := tail[1..];
        } else if IsFor(x, user, host) {
          count := Increment(x.count);
          entries := entries[i := x.(count := count)];
          assert entries == front + ([x.(count := count)] + tail[1..]);
          return;
        } else {
          SkipFront(front, x, Lookup(tail[1..], user, host, now, timeout).1);
          front, tail := front + [x], tail[1..];
          i := i + 1;
        }
      }
      LookupCases(tail, user, host, now, timeout);
      return 0;
    }

    method AddToBl(user: string, host: string, now: int)
      modifies this
      ensures entries == [Entry(user, host, 1, now)] + old(entries)
    {
      entries := [Entry(user, host, 1, now)] + entries;
    }

    method DropFromBl(user: string, host: string, now: int)
      modifies this
      ensures entries == Dropped(old(entries), user, host, now, timeout)
    {
      var i := 0;
      ghost var front: seq<Entry>, tail := [], entries;
      while i < |entries|
        invariant i == |front| && entries == front + tail
        invariant Dropped(old(entries), user, host, now, timeout) == front + Dropped(tail, user, host, now, timeout)
        decreases |tail|
      {
        var x := entries[i];
        assert x == tail[0];
        var found := IsFor(x, user, host);
        if found || Expired(x, now, timeout) {
          entries := entries[..i] + entries[i + 1..];
          tail := tail[1..];
          if found {
            return;
          }
        } else {
          SkipFront(front, x, Dropped(tail[1..], user, host, now, timeout));
          front, tail := front + [x], tail[1..];
          i := i + 1;
        }
      }
    }

    /** Checks the credentials of a user against the password file, if it can be opened. */
    method AuthUser(file: Option<seq<string>>, user: string, passwd: Option<string>, digest: Option<string>,
                    host: string, now: int)
      returns (result: Outcome, compared: bool)
      modifies this
      ensures var e := Attempt(user, host, JudgeFile(file, user, passwd, digest), now);
              && entries == After(old(entries), e, timeout) && result == Answer(old(entries), e, timeout)
              && compared == Compared(old(entries), e, timeout)
    {
      hide Lookup, Dropped;
      result, compared := Error, false;
      if file == None {
        return IoError, false;
      }
      var lines := file.value;
      ghost var verdict := Judge(lines, user, passwd, digest);
      var i := 0;
      while i < |lines|
        invariant 0 <= i <= |lines| && entries == old(entries) && result == Error && !compared
        invariant verdict == Judge(lines[i..], user, passwd, digest)
      {
        assert lines[i..][1..] == lines[i + 1..];
        if lines[i] != "" {
          var pieces := Tokens(lines[i], SEPARATOR);
          if pieces == [] {
            result := IoError;
            return;
          }
          if pieces[0] == user {
            result, compared := CheckLine(pieces, user, passwd, digest, host, now);
            return;
          }
        }
        i := i + 1;
      }
    }

    /** Checks the credentials against the line of the user. */
    method CheckLine(pieces: seq<string>, user: string, passwd: Option<string>, digest: Option<string>,
                     host: string, now: int)
      returns (result: Outcome, compared: bool)
      modifies this
      ensures var e := Attempt(user, host, JudgeLine(pieces, passwd, digest), now);
              && entries == After(old(entries), e, timeout) && result == Answer(old(entries), e, timeout)
              && compared == Compared(old(entries), e, timeout)
    {
      hide Lookup, Dropped;
      result, compared := Error, false;
      var count := IsInBl(user, host, now);
      if count > MAX_COUNT {
        result := AuthError;
        return;
      }
      if |pieces| < 2 {
        result := IoError;
      } else {
        compared := true;
        if passwd == None || passwd == Some(pieces[1]) || digest == Some(pieces[1]) {
          DropFromBl(user, host, now);
          result := Ok;
        } else if count == 0 {
          AddToBl(user, host, now);
        }
      }
    }
  }
}
