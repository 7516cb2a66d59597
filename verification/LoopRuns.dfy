/**
 * Runs of loop operators: whatever else happens in between, every loop binds its variable to its values
 * in order and runs its body once for each, and a completed loop leaves nothing behind but its size.
 */
module LoopRuns {
  import opened Options
  import opened Text
  import opened Loops

  /** A task opens a loop, the end of a loop is reached, or a variable is set (OPH_SET). */
  datatype Event =
    | Open(caller: int, name: Option<string>, svalues: seq<string>, ivalues: seq<int>, parallel: bool)
    | Close(caller: int)
    | Assign(variable: string, v: Var)

  predicate By(e: Event, c: int) {
    !e.Assign? && e.caller == c
  }

  // ----- the invariant of the stack

  /** Every open loop has its variable bound; no two loops share the task or the variable. */
  ghost predicate StackOk(stack: seq<Frame>, vars: map<string, Var>) {
    stack == [] ||
    (&& FrameOk(stack[0]) && stack[0].name in vars
     && (forall f :: f in stack[1..] ==> f.caller != stack[0].caller && f.name != stack[0].name)
     && StackOk(stack[1..], vars))
  }

  ghost predicate Inv(s: State) {
    StackOk(s.stack, s.vars)
  }

  lemma {:induction false} FrameFound(stack: seq<Frame>, vars: map<string, Var>, c: int)
    requires StackOk(stack, vars)
    ensures match FrameOf(stack, c) {
      case None => Pop(stack, c) == stack && forall f :: f in stack ==> f.caller != c
      case Some(f) => f in stack && f.caller == c && FrameOk(f) && f.name in vars
    }
  {
    if stack != [] && stack[0].caller != c {
      FrameFound(stack[1..], vars, c);
    }
  }

  lemma {:induction false} NamesDiffer(stack: seq<Frame>, vars: map<string, Var>, c: int, d: int)
    requires StackOk(stack, vars) && c != d && FrameOf(stack, c).Some? && FrameOf(stack, d).Some?
    ensures FrameOf(stack, c).value.name != FrameOf(stack, d).value.name
  {
    FrameFound(stack[1..], vars, c);
    FrameFound(stack[1..], vars, d);
    if stack[0].caller != c && stack[0].caller != d {
      NamesDiffer(stack[1..], vars, c, d);
    }
  }

  lemma {:induction false} VarsKept(stack: seq<Frame>, vars: map<string, Var>, vars': map<string, Var>)
    requires StackOk(stack, vars) && forall f :: f in stack ==> f.name in vars'
    ensures StackOk(stack, vars')
  {
    if stack != [] {
      VarsKept(stack[1..], vars, vars');
    }
  }

  /** Replacing the record of one loop. */
  lemma {:induction false} PutKeeps(stack: seq<Frame>, vars: map<string, Var>, c: int, f: Frame)
    requires StackOk(stack, vars) && FrameOf(stack, c).Some? && FrameOk(f)
    requires f.caller == c && f.name == FrameOf(stack, c).value.name
    ensures StackOk(Put(stack, c, f), vars) && FrameOf(Put(stack, c, f), c) == Some(f)
    ensures Pop(Put(stack, c, f), c) == Pop(stack, c)
    ensures forall g :: g in Put(stack, c, f) ==> exists h :: h in stack && h.caller == g.caller && h.name == g.name
  {
    if stack[0].caller == c {
      assert ([f] + stack[1..])[1..] == stack[1..];
    } else {
      PutKeeps(stack[1..], vars, c, f);
      var rest := Put(stack[1..], c, f);
      assert ([stack[0]] + rest)[1..] == rest;
    }
  }

  /** Dropping the record of one loop, and the binding of its variable if that is dropped, too. */
  lemma {:induction false} PopKeeps(stack: seq<Frame>, vars: map<string, Var>, c: int)
    requires StackOk(stack, vars)
    ensures StackOk(Pop(stack, c), vars) && FrameOf(Pop(stack, c), c) == None
    ensures forall g :: g in Pop(stack, c) ==> g in stack && g.caller != c
    ensures FrameOf(stack, c).Some? ==> forall g :: g in Pop(stack, c) ==> g.name != FrameOf(stack, c).value.name
  {
    if stack != [] {
      FrameFound(stack[1..], vars, c);
      if stack[0].caller != c {
        PopKeeps(stack[1..], vars, c);
        var rest := Pop(stack[1..], c);
        assert ([stack[0]] + rest)[1..] == rest;
      }
    }
  }

  /** The records of other loops stay. */
  lemma {:induction false} OthersStay(stack: seq<Frame>, c: int, d: int, f: Frame)
    requires c != d && f.caller == c
    ensures FrameOf(Put(stack, c, f), d) == FrameOf(stack, d) == FrameOf(Pop(stack, c), d)
    ensures Pop(Put(stack, c, f), d) == Put(Pop(stack, d), c, f) && Pop(Pop(stack, c), d) == Pop(Pop(stack, d), c)
  {
    if stack != [] {
      OthersStay(stack[1..], c, d, f);
      var put, pop := Put(stack[1..], c, f), Pop(stack[1..], c);
      assert ([f] + stack[1..])[1..] == stack[1..] && ([stack[0]] + put)[1..] == put && ([stack[0]] + pop)[1..] == pop;
      var pop' := Pop(stack[1..], d);
      assert ([stack[0]] + pop')[1..] == pop';
    }
  }

  // ----- one step

  /** A task does not open a loop while its loop is open. */
  ghost predicate Fits(s: State, e: Event) {
    e.Open? ==> FrameOf(s.stack, e.caller) == None
  }

  ghost function Step(s: State, e: Event): (r: (Reply, State))
    requires Inv(s) && Fits(s, e)
    ensures Inv(r.1)
  {
    StepKeeps(s, e);
    Next(s, e)
  }

  ghost function Next(s: State, e: Event): (Reply, State)
    requires Inv(s)
  {
    match e
    case Open(c, name, svalues, ivalues, parallel) => Opened(s, c, name, svalues, ivalues, parallel)
    case Close(c) => FrameFound(s.stack, s.vars, c); Closed(s, c, true)
    case Assign(name, v) => (Ok, s.(vars := s.vars[name := v]))
  }

  lemma OpenKeeps(s: State, e: Event)
    requires Inv(s) && e.Open? && Fits(s, e)
    ensures Inv(Next(s, e).1)
  {
    hide FrameOf, Put, Pop, Value;
    FrameFound(s.stack, s.vars, e.caller);
    var s' := Next(s, e).1;
    NamesBound(s.stack, s.vars);
    VarsKept(s.stack, s.vars, s'.vars);
    if s'.stack != s.stack {
      assert s'.stack[1..] == s.stack;
    }
  }

  lemma {:induction false} NamesBound(stack: seq<Frame>, vars: map<string, Var>)
    requires StackOk(stack, vars)
    ensures forall f :: f in stack ==> f.name in vars && FrameOk(f)
  {
    if stack != [] {
      NamesBound(stack[1..], vars);
    }
  }

  lemma CloseKeeps(s: State, c: int)
    requires Inv(s)
    ensures Inv(Next(s, Close(c)).1)
  {
    hide FrameOf, Put, Pop, Value, StackOk;
    FrameFound(s.stack, s.vars, c);
    if FrameOf(s.stack, c).Some? {
      var f := FrameOf(s.stack, c).value;
      var s' := Next(s, Close(c)).1;
      NamesBound(s.stack, s.vars);
      if f.index + 1 < Count(f.svalues, f.ivalues) {
        PutKeeps(s.stack, s.vars, c, f.(index := f.index + 1));
        VarsKept(s'.stack, s.vars, s'.vars);
      } else {
        PopKeeps(s.stack, s.vars, c);
        VarsKept(s'.stack, s.vars, s'.vars);
      }
    }
  }

  /** Every step keeps the invariant. */
  lemma StepKeeps(s: State, e: Event)
    requires Inv(s) && Fits(s, e)
    ensures Inv(Next(s, e).1)
  {
    match e
    case Open(_, _, _, _, _) => OpenKeeps(s, e);
    case Close(c) => CloseKeeps(s, c);
    case Assign(_, _) =>
      NamesBound(s.stack, s.vars);
      VarsKept(s.stack, s.vars, Next(s, e).1.vars);
  }

  /** What the steps of other tasks leave alone: the record of a loop and, unless it is set, its variable. */
  lemma OtherStep(s: State, e: Event, c: int)
    requires Inv(s) && Fits(s, e) && !By(e, c)
    ensures FrameOf(Step(s, e).1.stack, c) == FrameOf(s.stack, c)
    ensures FrameOf(s.stack, c).Some? ==>
      && var n := FrameOf(s.stack, c).value.name;
      && n in s.vars && n in Step(s, e).1.vars
      && ((e.Assign? && e.variable == n) || Step(s, e).1.vars[n] == s.vars[n])
  {
    hide Put, Pop, Value, StackOk;
    FrameFound(s.stack, s.vars, c);
    if e.Close? {
      FrameFound(s.stack, s.vars, e.caller);
      if FrameOf(s.stack, e.caller).Some? {
        var g := FrameOf(s.stack, e.caller).value;
        OthersStay(s.stack, e.caller, c, g.(index := g.index + 1));
        if FrameOf(s.stack, c).Some? {
          NamesDiffer(s.stack, s.vars, c, e.caller);
        }
      }
    }
  }

  /** What the end of a loop does to its own record and variable. */
  lemma OwnStep(s: State, c: int)
    requires Inv(s) && FrameOf(s.stack, c).Some?
    ensures var f := FrameOf(s.stack, c).value;
      && FrameOk(f)
      && var f' := f.(index := f.index + 1);
      && var (reply, s') := Step(s, Close(c));
      if FrameOk(f') then reply == Again && FrameOf(s'.stack, c) == Some(f') && s'.vars == s.vars[f.name := Bound(f')]
      else reply == Ok && FrameOf(s'.stack, c) == None && s'.vars == s.vars - {f.name}
  {
    hide FrameOf, Put, Pop, Value, StackOk;
    FrameFound(s.stack, s.vars, c);
    var f := FrameOf(s.stack, c).value;
    var f' := f.(index := f.index + 1);
    PopKeeps(s.stack, s.vars, c);
    if FrameOk(f') {
      PutKeeps(s.stack, s.vars, c, f');
    }
  }

  // ----- runs

  ghost predicate Started(s: State, es: seq<Event>)
    requires Inv(s)
    decreases |es|
  {
    es == [] || (Fits(s, es[0]) && Started(Step(s, es[0]).1, es[1..]))
  }

  ghost function After(s: State, es: seq<Event>): (s': State)
    requires Inv(s) && Started(s, es)
    ensures Inv(s')
    decreases |es|
  {
    if es == [] then s else After(Step(s, es[0]).1, es[1..])
  }

  ghost function Closes(es: seq<Event>, c: int): nat {
    if es == [] then 0 else (if es[0] == Close(c) then 1 else 0) + Closes(es[1..], c)
  }

  ghost predicate NeverOpens(es: seq<Event>, c: int) {
    forall e :: e in es && e.Open? ==> e.caller != c
  }

  ghost function Lookup(vars: map<string, Var>, name: string): Option<Var> {
    if name in vars then Some(vars[name]) else None
  }

  /** What each end of one loop replies, and what its variable is bound to right then. */
  ghost function Trace(s: State, es: seq<Event>, c: int, name: string): seq<(Reply, Option<Var>)>
    requires Inv(s) && Started(s, es)
    decreases |es|
  {
    if es == [] then []
    else
      var (reply, s') := Step(s, es[0]);
      (if es[0] == Close(c) then [(reply, Lookup(s'.vars, name))] else []) + Trace(s', es[1..], c, name)
  }

  /** What the next n ends of a loop should reply: again with the next value, or that the loop is over. */
  ghost function Expected(f: Frame, n: nat): seq<(Reply, Option<Var>)>
    requires FrameOk(f) && f.index + n <= Count(f.svalues, f.ivalues)
  {
    seq(n, k requires 0 <= k < n =>
      if f.index + 1 + k < Count(f.svalues, f.ivalues)
      then (Again, Some(Value(f.caller, f.svalues, f.ivalues, f.index + 1 + k)))
      else (Ok, None))
  }

  lemma ExpectedStep(f: Frame, n: nat)
    requires FrameOk(f) && f.index + n <= Count(f.svalues, f.ivalues) && n > 0
    ensures var f' := f.(index := f.index + 1);
      if FrameOk(f') then Expected(f, n) == [(Again, Some(Bound(f')))] + Expected(f', n - 1)
      else n == 1 && Expected(f, n) == [(Ok, None)]
  {
  }

  /**
   * A loop that is open runs on whatever other tasks do: each end of the loop finds the next value, and
   * the last one closes the loop.
   */
  lemma {:induction false} LoopRuns(s: State, es: seq<Event>, c: int, f: Frame)
    requires Inv(s) && Started(s, es) && NeverOpens(es, c)
    requires FrameOf(s.stack, c) == Some(f) && FrameOk(f) && f.index + Closes(es, c) <= Count(f.svalues, f.ivalues)
    ensures Trace(s, es, c, f.name) == Expected(f, Closes(es, c))
    ensures FrameOf(After(s, es).stack, c) ==
      if f.index + Closes(es, c) < Count(f.svalues, f.ivalues) then Some(f.(index := f.index + Closes(es, c))) else None
    decreases |es|
  {
    hide FrameOf, Inv, Step;
    if es != [] {
      var s' := Step(s, es[0]).1;
      if es[0] == Close(c) {
        OwnStep(s, c);
        ExpectedStep(f, Closes(es, c));
        var f' := f.(index := f.index + 1);
        if FrameOk(f') {
          LoopRuns(s', es[1..], c, f');
        } else {
          LoopOver(s', es[1..], c, f.name);
        }
      } else {
        OtherStep(s, es[0], c);
        LoopRuns(s', es[1..], c, f);
      }
    }
  }

  /** A loop that is closed stays closed. */
  lemma {:induction false} LoopOver(s: State, es: seq<Event>, c: int, name: string)
    requires Inv(s) && Started(s, es) && NeverOpens(es, c)
    requires FrameOf(s.stack, c) == None && Closes(es, c) == 0
    ensures Trace(s, es, c, name) == [] && FrameOf(After(s, es).stack, c) == None
    decreases |es|
  {
    hide FrameOf, Inv, Step;
    if es != [] {
      OtherStep(s, es[0], c);
      LoopOver(Step(s, es[0]).1, es[1..], c, name);
    }
  }

  /** Between two ends of a loop its variable keeps its value, unless it is set. */
  lemma {:induction false} ValueStays(s: State, es: seq<Event>, c: int, f: Frame)
    requires Inv(s) && Started(s, es) && NeverOpens(es, c) && Closes(es, c) == 0 && FrameOf(s.stack, c) == Some(f)
    requires forall e :: e in es && e.Assign? ==> e.variable != f.name
    ensures Lookup(After(s, es).vars, f.name) == Lookup(s.vars, f.name)
    decreases |es|
  {
    hide FrameOf, Inv, Step;
    if es != [] {
      OtherStep(s, es[0], c);
      ValueStays(Step(s, es[0]).1, es[1..], c, f);
    }
  }

  /**
   * The whole life of a loop, between any events of other tasks: its body runs once for each value, with
   * the variable bound to the values in order, and then the loop is closed.
   */
  lemma LoopRunsCountTimes(s: State, open: Event, es: seq<Event>)
    requires Inv(s) && open.Open? && !open.parallel && Started(s, [open] + es) && Step(s, open).0 == Ok
    requires NeverOpens(es, open.caller) && Closes(es, open.caller) == Count(open.svalues, open.ivalues)
    ensures var n := Count(open.svalues, open.ivalues);
      && SizesAgree(open.svalues, open.ivalues)
      && Lookup(Step(s, open).1.vars, open.name.value) == Some(Value(open.caller, open.svalues, open.ivalues, 0))
      && Trace(s, [open] + es, open.caller, open.name.value)
         == seq(n - 1, k requires 0 <= k < n - 1 =>
                  (Again, Some(Value(open.caller, open.svalues, open.ivalues, k + 1)))) + [(Ok, None)]
    ensures FrameOf(After(s, [open] + es).stack, open.caller) == None
  {
    hide Inv, StackOk, Put, Pop, Value, Trace, After;
    var f := Frame(open.caller, open.name.value, open.svalues, open.ivalues, 0);
    var s' := Step(s, open).1;
    assert ([open] + es)[1..] == es;
    assert FrameOf(s'.stack, open.caller) == Some(f);
    LoopRuns(s', es, open.caller, f);
    FirstEvent(s, open, es, open.caller, open.name.value);
  }

  lemma FirstEvent(s: State, e: Event, es: seq<Event>, c: int, name: string)
    requires Inv(s) && Started(s, [e] + es) && e != Close(c)
    ensures Fits(s, e) && Started(Step(s, e).1, es)
    ensures Trace(s, [e] + es, c, name) == Trace(Step(s, e).1, es, c, name) &&
      After(s, [e] + es) == After(Step(s, e).1, es)
  {
    hide Inv, Step;
    assert ([e] + es)[1..] == es;
  }

  // ----- what a completed loop leaves behind

  ghost function Without(es: seq<Event>, c: int): seq<Event> {
    if es == [] then [] else (if By(es[0], c) then [] else [es[0]]) + Without(es[1..], c)
  }

  /** What the events of the other tasks reply. */
  ghost function Answers(s: State, es: seq<Event>, c: int): seq<Reply>
    requires Inv(s) && Started(s, es)
    decreases |es|
  {
    if es == [] then []
    else
      var (reply, s') := Step(s, es[0]);
      (if By(es[0], c) then [] else [reply]) + Answers(s', es[1..], c)
  }

  /** An event of another task that uses other names than a loop does. */
  ghost predicate Apart(e: Event, c: int, name: string) {
    && !By(e, c)
    && (e.Assign? ==> e.variable != name && e.variable != SizeName(name))
    && (e.Open? && e.name.Some? ==>
          e.name.value != name && e.name.value != SizeName(name) && SizeName(e.name.value) != name)
  }

  /** The two states differ by one loop: its record, its variable and its size. */
  ghost predicate Beside(s: State, t: State, c: int, name: string, count: nat) {
    && t.stack == Pop(s.stack, c) && s.vars - {name} == WithSize(t.vars, name, count)
    && (forall f :: f in t.stack ==> f.name != SizeName(name)) && name !in t.vars
    && match FrameOf(s.stack, c) {
         case None => name !in s.vars
         case Some(f) => f.name == name
       }
  }

  lemma SizeNamesDiffer(m: string, n: string)
    requires m != n
    ensures SizeName(m) != SizeName(n)
  {
    assert SizeName(m)[..|m|] == m && SizeName(n)[..|n|] == n;
  }

  lemma BesideOwn(s: State, t: State, c: int, name: string, count: nat)
    requires Inv(s) && Beside(s, t, c, name, count)
    ensures Beside(Step(s, Close(c)).1, t, c, name, count)
  {
    hide FrameOf, Put, Pop, StackOk, Value, WithSize, Opened;
    FrameFound(s.stack, s.vars, c);
    PopKeeps(s.stack, s.vars, c);
    if FrameOf(s.stack, c).Some? {
      OwnStep(s, c);
      var f := FrameOf(s.stack, c).value;
      var f' := f.(index := f.index + 1);
      FrameFound(Pop(s.stack, c), s.vars, c);
      var s' := Step(s, Close(c)).1;
      assert s'.vars - {name} == s.vars - {name};
      if FrameOk(f') {
        PutKeeps(s.stack, s.vars, c, f');
      }
    }
  }

  lemma BesideClose(s: State, t: State, d: int, c: int, name: string, count: nat)
    requires Inv(s) && Inv(t) && Beside(s, t, c, name, count) && d != c
    ensures Beside(Step(s, Close(d)).1, Step(t, Close(d)).1, c, name, count)
    ensures Step(s, Close(d)).0 == Step(t, Close(d)).0
  {
    hide FrameOf, Put, Pop, StackOk, Value, Opened;
    FrameFound(s.stack, s.vars, d);
    FrameFound(t.stack, t.vars, d);
    OthersStay(s.stack, c, d, Frame(c, name, [], [], 0));
    OtherStep(s, Close(d), c);
    if FrameOf(s.stack, d).Some? {
      var g := FrameOf(s.stack, d).value;
      var g' := g.(index := g.index + 1);
      OthersStay(s.stack, d, c, g');
      PopKeeps(t.stack, t.vars, d);
      if FrameOk(g') {
        PutKeeps(t.stack, t.vars, d, g');
        assert s.vars[g.name := Bound(g')] - {name} == (s.vars - {name})[g.name := Bound(g')];
      } else {
        assert s.vars - {g.name} - {name} == s.vars - {name} - {g.name};
      }
    }
  }

  /** Binding another variable, or its size, commutes with the loop's size `a`. */
  lemma DefaultApart(v: map<string, Var>, w: map<string, Var>, name: string, a: string, x: Var, b: string, y: Var)
    requires v - {name} == WithDefault(w, a, x) && b != name && b != a
    ensures b in v <==> b in w
    ensures WithDefault(v, b, y) - {name} == WithDefault(WithDefault(w, b, y), a, x)
    ensures v[b := y] - {name} == WithDefault(w[b := y], a, x)
  {
    assert b in v <==> b in v - {name};
    assert v[b := y] - {name} == (v - {name})[b := y];
    assert a in w ==> w[b := y] == WithDefault(w[b := y], a, x);
    assert a !in w ==> w[b := y][a := x] == w[a := x][b := y];
  }

  lemma BindApart(v: map<string, Var>, w: map<string, Var>, name: string, count: nat, m: string, k: nat, y: Var)
    requires v - {name} == WithSize(w, name, count) && m != name && m != SizeName(name) && SizeName(m) != name
    ensures m in v <==> m in w
    ensures WithSize(v, m, k) - {name} == WithSize(WithSize(w, m, k), name, count)
    ensures WithSize(v, m, k)[m := y] - {name} == WithSize(WithSize(w, m, k)[m := y], name, count)
  {
    hide WithDefault, SizeName;
    SizeNamesDiffer(m, name);
    var a, x, z := SizeName(name), Var(-1, 1, Show(count)), Var(-1, 1, Show(k));
    DefaultApart(v, w, name, a, x, SizeName(m), z);
    DefaultApart(v, w, name, a, x, m, y);
    DefaultApart(WithSize(v, m, k), WithSize(w, m, k), name, a, x, m, y);
  }

  lemma BesideOpen(s: State, t: State, e: Event, c: int, name: string, count: nat)
    requires Inv(s) && Inv(t) && Beside(s, t, c, name, count) && e.Open? && Apart(e, c, name) && Fits(s, e)
    ensures Fits(t, e) && Beside(Step(s, e).1, Step(t, e).1, c, name, count) && Step(s, e).0 == Step(t, e).0
  {
    hide Put, StackOk, Value, Closed, WithSize, SizeName, BadName;
    OthersStay(s.stack, c, e.caller, Frame(c, name, [], [], 0));
    OtherStep(s, e, c);
    if e.name.Some? {
      var y := if SizesAgree(e.svalues, e.ivalues) then Value(e.caller, e.svalues, e.ivalues, 0) else Var(0, 0, "");
      BindApart(s.vars, t.vars, name, count, e.name.value, Count(e.svalues, e.ivalues), y);
      WithSizeBinds(t.vars, e.name.value, Count(e.svalues, e.ivalues));
      WithSizeBinds(s.vars, e.name.value, Count(e.svalues, e.ivalues));
    }
    var s' := Step(s, e).1;
    if s'.stack != s.stack {
      assert s'.stack[1..] == s.stack;
    }
  }

  lemma WithSizeBinds(vars: map<string, Var>, m: string, k: nat)
    ensures WithSize(vars, m, k).Keys == vars.Keys + {SizeName(m)}
  {
  }

  /** Steps of others do the same with and without the loop. */
  lemma BesideOther(s: State, t: State, e: Event, c: int, name: string, count: nat)
    requires Inv(s) && Inv(t) && Beside(s, t, c, name, count) && Apart(e, c, name) && Fits(s, e)
    ensures Fits(t, e) && Beside(Step(s, e).1, Step(t, e).1, c, name, count) && Step(s, e).0 == Step(t, e).0
  {
    hide FrameOf, Put, Pop, StackOk, Value, Opened, Closed;
    match e
    case Open(_, _, _, _, _) => BesideOpen(s, t, e, c, name, count);
    case Close(d) => BesideClose(s, t, d, c, name, count);
    case Assign(n, v) =>
      assert s.vars[n := v] - {name} == (s.vars - {name})[n := v];
  }

  lemma {:induction false} RunsBeside(s: State, t: State, es: seq<Event>, c: int, name: string, count: nat)
    requires Inv(s) && Inv(t) && Beside(s, t, c, name, count) && Started(s, es) && NeverOpens(es, c)
    requires forall e :: e in es && !By(e, c) ==> Apart(e, c, name)
    ensures Started(t, Without(es, c)) && Beside(After(s, es), After(t, Without(es, c)), c, name, count)
    ensures Answers(s, es, c) == Answers(t, Without(es, c), c)
    decreases |es|
  {
    hide Inv, Step, Beside, Apart, Fits;
    if es != [] {
      var e := es[0];
      var s' := Step(s, e).1;
      if By(e, c) {
        BesideOwn(s, t, c, name, count);
        RunsBeside(s', t, es[1..], c, name, count);
        assert Without(es, c) == Without(es[1..], c);
      } else {
        BesideOther(s, t, e, c, name, count);
        RunsBeside(s', Step(t, e).1, es[1..], c, name, count);
        var rest := Without(es[1..], c);
        assert ([e] + rest)[1..] == rest;
      }
    }
  }

  /**
   * A completed loop changes nothing for the others: the stack, the environment and all replies are as if
   * the loop had not been there, but for the variable that holds its size.
   */
  lemma CompletedLoopLeavesItsSize(s: State, open: Event, es: seq<Event>)
    requires Inv(s) && open.Open? && !open.parallel && Started(s, [open] + es) && Step(s, open).0 == Ok
    requires NeverOpens(es, open.caller) && Closes(es, open.caller) == Count(open.svalues, open.ivalues)
    requires forall e :: e in es && !By(e, open.caller) ==> Apart(e, open.caller, open.name.value)
    requires forall f :: f in s.stack ==> f.name != SizeName(open.name.value)
    ensures Started(s, Without(es, open.caller))
    ensures var s', t := After(s, [open] + es), After(s, Without(es, open.caller));
      s'.stack == t.stack && s'.vars == WithSize(t.vars, open.name.value, Count(open.svalues, open.ivalues))
    ensures Answers(s, [open] + es, open.caller) == Answers(s, Without(es, open.caller), open.caller)
  {
    hide Inv, StackOk, Put, Value, After, Trace, Started, NeverOpens, Closes;
    var c, name, count := open.caller, open.name.value, Count(open.svalues, open.ivalues);
    FirstEvent(s, open, es, c, name);
    LoopRunsCountTimes(s, open, es);
    var s' := Step(s, open).1;
    SizeNameDiffers(name);
    assert s'.stack[1..] == s.stack;
    assert s'.vars - {name} == WithSize(s.vars, name, count);
    RunsBeside(s', s, es, c, name, count);
    var end, t := After(s', es), After(s, Without(es, c));
    NothingToPop(end, c);
    assert end.vars - {name} == end.vars;
    assert ([open] + es)[1..] == es;
  }

  lemma NothingToPop(s: State, c: int)
    requires Inv(s) && FrameOf(s.stack, c) == None
    ensures Pop(s.stack, c) == s.stack
  {
    FrameFound(s.stack, s.vars, c);
  }

  // ----- what the lists of a loop mean

  /** The number of runs of a loop: one for each text, or for each integer, or one. */
  lemma RunsOf(svalues: seq<string>, ivalues: seq<int>)
    ensures svalues != [] ==> Count(svalues, ivalues) == |svalues|
    ensures svalues == [] && ivalues != [] ==> Count(svalues, ivalues) == |ivalues|
    ensures svalues == [] && ivalues == [] ==> Count(svalues, ivalues) == 1
  {
  }

  /** What the variable of a loop is in its k-th run, in terms of the lists. */
  ghost predicate IsValue(v: Var, caller: int, svalues: seq<string>, ivalues: seq<int>, k: nat) {
    && v.caller == caller
    && (ivalues != [] ==> k < |ivalues| && v.ivalue == ivalues[k]) && (ivalues == [] ==> v.ivalue == k + 1)
    && (svalues != [] ==> k < |svalues| && v.svalue == svalues[k]) && (svalues == [] ==> v.svalue == Show(v.ivalue))
  }

  /** The binding of a loop in its k-th run: after it was opened, or after its k-th end. */
  ghost function Binding(s: State, open: Event, es: seq<Event>, k: nat): Option<Var>
    requires Inv(s) && open.Open? && open.name.Some? && Started(s, [open] + es)
    requires k <= |Trace(s, [open] + es, open.caller, open.name.value)|
  {
    if k == 0 then Lookup(Step(s, open).1.vars, open.name.value)
    else Trace(s, [open] + es, open.caller, open.name.value)[k - 1].1
  }

  /**
   * In its k-th run a loop finds the k-th text and the k-th integer of its lists in its variable, in the order of the
   * lists: without integers the number of the run, and without texts the integer as text. It has as many runs as
   * there are texts, or integers, or one; every end but the last asks for another run.
   */
  lemma LoopBindsItsLists(s: State, open: Event, es: seq<Event>, k: nat)
    requires Inv(s) && open.Open? && !open.parallel && Started(s, [open] + es) && Step(s, open).0 == Ok
    requires NeverOpens(es, open.caller)
    requires Closes(es, open.caller) ==
      if open.svalues != [] then |open.svalues| else if open.ivalues != [] then |open.ivalues| else 1
    ensures open.name.Some? && |Trace(s, [open] + es, open.caller, open.name.value)| == Closes(es, open.caller)
    ensures k < Closes(es, open.caller) ==>
      && Binding(s, open, es, k).Some?
      && IsValue(Binding(s, open, es, k).value, open.caller, open.svalues, open.ivalues, k)
      && (Trace(s, [open] + es, open.caller, open.name.value)[k].0 ==
            if k + 1 < Closes(es, open.caller) then Again else Ok)
  {
    hide Inv, StackOk, Trace, After, Started, NeverOpens, Closes, Opened, Step, Fits;
    RunsOf(open.svalues, open.ivalues);
    FitsFirst(s, open, es);
    NameGiven(s, open);
    LoopRunsCountTimes(s, open, es);
  }

  lemma FitsFirst(s: State, e: Event, es: seq<Event>)
    requires Inv(s) && Started(s, [e] + es)
    ensures Fits(s, e)
  {
  }

  lemma NameGiven(s: State, open: Event)
    requires Inv(s) && open.Open? && Fits(s, open) && Step(s, open).0 == Ok && !open.parallel
    ensures open.name.Some? && SizesAgree(open.svalues, open.ivalues)
  {
  }

  // ----- what opening and closing a loop do

  /**
   * A loop is refused exactly for a missing or bad name or, if it is not parallel, for lists of different sizes or a
   * name that is bound; a parallel loop changes nothing.
   */
  lemma OpenRefused(s: State, c: int, name: Option<string>, svalues: seq<string>, ivalues: seq<int>, parallel: bool)
    ensures var (reply, s') := Opened(s, c, name, svalues, ivalues, parallel);
      && (reply == Error <==>
            || name == None || BadName(name.value)
            || (!parallel && ((svalues != [] && ivalues != [] && |svalues| != |ivalues|) || name.value in s.vars)))
      && (reply == Error || reply == Ok) && (parallel ==> s' == s)
  {
  }

  /**
   * A loop that is opened puts its record in front, and binds its variable and, unless it is bound, the variable with
   * its size: the number of texts, or of integers, or one.
   */
  lemma OpenBinds(s: State, c: int, name: string, svalues: seq<string>, ivalues: seq<int>)
    requires Opened(s, c, Some(name), svalues, ivalues, false).0 == Ok
    ensures var s' := Opened(s, c, Some(name), svalues, ivalues, false).1;
      && s'.stack == [Frame(c, name, svalues, ivalues, 0)] + s.stack
      && s'.vars.Keys == s.vars.Keys + {name, name + "_size"}
      && IsValue(s'.vars[name], c, svalues, ivalues, 0)
      && (forall n :: n in s.vars ==> s'.vars[n] == s.vars[n])
      && (name + "_size" !in s.vars ==> s'.vars[name + "_size"].caller == -1)
      && (name + "_size" !in s.vars ==>
            s'.vars[name + "_size"].svalue ==
              if svalues != [] then Show(|svalues|) else if ivalues != [] then Show(|ivalues|) else "1")
  {
    SizeNameDiffers(name);
    assert Show(1) == "1" by {
      assert DigitOf(1) == '1';
    }
  }

  /** An end of a loop that is not to be restarted takes the record out and leaves the next value bound. */
  lemma CloseWithoutRestart(s: State, c: int)
    requires Inv(s) && FrameOf(s.stack, c).Some?
    ensures var f := FrameOf(s.stack, c).value;
      && FrameOk(f) && f.name in s.vars
      && var (reply, s') := Closed(s, c, false);
      && reply == Ok && FrameOf(s'.stack, c) == None
      && if FrameOk(f.(index := f.index + 1))
         then f.name in s'.vars && IsValue(s'.vars[f.name], f.caller, f.svalues, f.ivalues, f.index + 1)
         else s'.vars == s.vars - {f.name}
  {
    hide StackOk, FrameOf, Put, Pop;
    FrameFound(s.stack, s.vars, c);
    PopKeeps(s.stack, s.vars, c);
  }

  /** The names that are refused, character by character. */
  lemma RefusedNames(name: string)
    ensures BadName(name) <==>
      exists k :: 0 <= k < |name| && name[k] in ";=|,:@&{}"
        && forall j :: 0 <= j < k ==>
             || name[j] == '_' || 'A' <= name[j] <= 'Z' || 'a' <= name[j] <= 'z' || (j > 0 && '0' <= name[j] <= '9')
  {
    forall k | 0 <= k < |name| && name[k] in ";=|,:@&{}"
      ensures !Plain(name[k], k == 0)
    {
    }
    if k :| 0 <= k < |name| && name[k] in ";=|,:@&{}" && forall j :: 0 <= j < k ==> Plain(name[j], j == 0) {
      assert name[k] in SEPARATORS && !Plain(name[k], k == 0);
    }
  }
}
