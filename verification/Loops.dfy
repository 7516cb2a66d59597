/**
 * The loops of a workflow (OPH_FOR, OPH_ENDFOR): a stack of records, one for each open loop, and the
 * environment of variables. Loops may be nested or interleaved.
 */
module Loops {
  import opened Options
  import opened Text

  /** A variable of the environment; `caller` is the task that set it. */
  datatype Var = Var(caller: int, ivalue: int, svalue: string)

  /** The record of an open loop. An empty list of values stands for a missing argument. */
  datatype Frame = Frame(caller: int, name: string, svalues: seq<string>, ivalues: seq<int>, index: nat)

  datatype State = State(stack: seq<Frame>, vars: map<string, Var>)

  datatype Reply = Ok | Again | Error | SystemError

  const SEPARATORS := ";=|,:@&{}"

  function Count(svalues: seq<string>, ivalues: seq<int>): nat {
    if svalues != [] then |svalues| else if ivalues != [] then |ivalues| else 1
  }

  predicate SizesAgree(svalues: seq<string>, ivalues: seq<int>) {
    svalues == [] || ivalues == [] || |svalues| == |ivalues|
  }

  /** What the variable of a loop is bound to in its k-th run. */
  function Value(caller: int, svalues: seq<string>, ivalues: seq<int>, k: nat): Var
    requires SizesAgree(svalues, ivalues) && k < Count(svalues, ivalues)
  {
    var ivalue := if ivalues != [] then ivalues[k] else 1 + k;
    Var(caller, ivalue, if svalues != [] then svalues[k] else Show(ivalue))
  }

  function SizeName(name: string): string {
    name + "_size"
  }

  lemma SizeNameDiffers(name: string)
    ensures SizeName(name) != name
  {
    assert |SizeName(name)| == |name| + 5;
  }

  predicate Plain(c: char, first: bool) {
    c == '_' || 'A' <= c <= 'Z' || 'a' <= c <= 'z' || (!first && '0' <= c <= '9')
  }

  /** The first character that is not allowed in a name is a separator. */
  ghost predicate BadName(name: string) {
    exists k :: 0 <= k < |name| && name[k] in SEPARATORS && !Plain(name[k], k == 0)
                && forall j :: 0 <= j < k ==> Plain(name[j], j == 0)
  }

  method CheckName(name: string) returns (bad: bool)
    ensures bad <==> BadName(name)
  {
    bad := false;
    var k := 0;
    while k < |name|
      invariant 0 <= k <= |name| && !bad
      invariant forall j :: 0 <= j < k ==> Plain(name[j], j == 0)
    {
      if !Plain(name[k], k == 0) {
        bad := name[k] in SEPARATORS;
        return;
      }
      k := k + 1;
    }
  }

  // ----- the effect of one operator

  /** The environment with a variable that is bound only if it was not. */
  function WithDefault(vars: map<string, Var>, name: string, v: Var): map<string, Var> {
    if name in vars then vars else vars[name := v]
  }

  function WithSize(vars: map<string, Var>, name: string, count: nat): map<string, Var> {
    WithDefault(vars, SizeName(name), Var(-1, 1, Show(count)))
  }

  /** The first record of a task. */
  function FrameOf(stack: seq<Frame>, c: int): Option<Frame> {
    if stack == [] then None else if stack[0].caller == c then Some(stack[0]) else FrameOf(stack[1..], c)
  }

  /** The stack with that record replaced, or dropped. */
  function Put(stack: seq<Frame>, c: int, f: Frame): seq<Frame> {
    if stack == [] then []
    else if stack[0].caller == c then [f] + stack[1..] else [stack[0]] + Put(stack[1..], c, f)
  }

  function Pop(stack: seq<Frame>, c: int): seq<Frame> {
    if stack == [] then []
    else if stack[0].caller == c then stack[1..] else [stack[0]] + Pop(stack[1..], c)
  }

  ghost function Opened(s: State, c: int, name: Option<string>, svalues: seq<string>, ivalues: seq<int>,
      parallel: bool): (Reply, State) {
    if name.None? || BadName(name.value) then (Error, s)
    else if parallel then (Ok, s)
    else if !SizesAgree(svalues, ivalues) then (Error, s)
    else
      var vars := WithSize(s.vars, name.value, Count(svalues, ivalues));
      if name.value in s.vars then (Error, s.(vars := vars))
      else (Ok, State([Frame(c, name.value, svalues, ivalues, 0)] + s.stack,
        vars[name.value := Value(c, svalues, ivalues, 0)]))
  }

  predicate FrameOk(f: Frame) {
    SizesAgree(f.svalues, f.ivalues) && f.index < Count(f.svalues, f.ivalues)
  }

  function Bound(f: Frame): Var
    requires FrameOk(f)
  {
    Value(f.caller, f.svalues, f.ivalues, f.index)
  }

  function Closed(s: State, c: int, restart: bool): (Reply, State)
    requires FrameOf(s.stack, c).Some? ==> FrameOk(FrameOf(s.stack, c).value)
  {
    match FrameOf(s.stack, c)
    case None => (Ok, s)
    case Some(f) =>
      var f' := f.(index := f.index + 1);
      if f.name !in s.vars then (SystemError, s.(stack := Put(s.stack, c, f')))
      else if f'.index == Count(f.svalues, f.ivalues) then (Ok, State(Pop(s.stack, c), s.vars - {f.name}))
      else if restart then (Again, State(Put(s.stack, c, f'), s.vars[f.name := Bound(f')]))
      else (Ok, State(Pop(s.stack, c), s.vars[f.name := Bound(f')]))
  }

  lemma {:induction false} FrameAt(stack: seq<Frame>, c: int, p: nat, f: Frame)
    requires p <= |stack| && forall j :: 0 <= j < p ==> stack[j].caller != c
    requires p < |stack| ==> stack[p].caller == c
    ensures FrameOf(stack, c) == if p < |stack| then Some(stack[p]) else None
    ensures p < |stack| ==> Put(stack, c, f) == stack[p := f] && Pop(stack, c) == stack[..p] + stack[p + 1..]
    decreases p
  {
    if p > 0 {
      FrameAt(stack[1..], c, p - 1, f);
    }
  }

  /** The part of a workflow that loops use. */
  class Workflow {
    var stack: seq<Frame>
    var vars: map<string, Var>

    function Now(): State
      reads this
    {
      State(stack, vars)
    }

    /** Storing a variable fails if the name is bound. */
    method Store(name: string, v: Var) returns (failed: bool)
      modifies this`vars
      ensures failed <==> name in old(vars)
      ensures vars == if failed then old(vars) else old(vars)[name := v]
    {
      failed := name in vars;
      if !failed {
        vars := vars[name := v];
      }
    }

    method For(i: int, name: Option<string>, svalues: seq<string>, ivalues: seq<int>, mode: bool) returns (ret: Reply)
      modifies this
      ensures (ret, Now()) == Opened(old(Now()), i, name, svalues, ivalues, mode)
    {
      if name == None {
        return Error;
      }
      var bad := CheckName(name.value);
      if bad {
        return Error;
      }
      var svaluesNum := |svalues|;
      if mode {
        svaluesNum := 1;
      } else if svaluesNum > 0 {
        if |ivalues| > 0 && |ivalues| != svaluesNum {
          return Error;
        }
      } else {
        svaluesNum := if |ivalues| > 0 then |ivalues| else 1;
      }
      if !mode && svaluesNum > 0 {
        SizeNameDiffers(name.value);
        if SizeName(name.value) !in vars {
          var _ := Store(SizeName(name.value), Var(-1, 1, Show(svaluesNum)));
        }
        var ivalue := if ivalues != [] then ivalues[0] else 1;
        var failed := Store(name.value, Var(i, ivalue, if svalues != [] then svalues[0] else Show(ivalue)));
        if failed {
          return Error;
        }
        stack := [Frame(i, name.value, svalues, ivalues, 0)] + stack;
      }
      return Ok;
    }

    method Endfor(parent: int, restart: bool) returns (ret: Reply)
      requires FrameOf(stack, parent).Some? ==> FrameOk(FrameOf(stack, parent).value)
      modifies this
      ensures (ret, Now()) == Closed(old(Now()), parent, restart)
    {
      hide FrameOf, Put, Pop, Value;
      var p := 0;
      while p < |stack| && stack[p].caller != parent
        invariant 0 <= p <= |stack| && forall j :: 0 <= j < p ==> stack[j].caller != parent
      {
        p := p + 1;
      }
      if p < |stack| {
        var f := stack[p].(index := stack[p].index + 1);
        FrameAt(stack, parent, p, f);
        stack := stack[p := f];
        if f.name !in vars {
          return SystemError;
        }
        vars := vars - {f.name};
        if f.index < Count(f.svalues, f.ivalues) {
          vars := vars[f.name := Value(f.caller, f.svalues, f.ivalues, f.index)];
          assert vars == old(vars)[f.name := Bound(f)];
          if restart {
            return Again;
          }
        }
        stack := stack[..p] + stack[p + 1..];
      } else {
        FrameAt(stack, parent, p, Frame(0, "", [], [], 0));
      }
      return Ok;
    }
  }
}
