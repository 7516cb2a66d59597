/**
 * Lists of arguments as text: the printer of key-value pairs and the parser of task strings. Parsing what
 * was printed gives the pairs back exactly when keys and values are such as the parser can produce.
 */
module ArgText {
  import opened Options
  import opened Text

  const KV := '='
  const PARAM := ';'

  datatype Arg = Arg(key: string, value: string)

  // ----- printing

  function Cap(s: string): string {
    if |s| <= MAX_STRING then s else s[..MAX_STRING]
  }

  /** The arguments that are not printed, whatever the case of their keys. */
  predicate Skipped(key: string, addCube: bool) {
    || Lower(key) in {"ncores", "nhost", "exec_mode", "src_path", "measure", "callback_url"}
    || (Lower(key) == "cube" && !addCube)
  }

  /** The arguments that are printed, with keys and values of bounded length. */
  function Kept(args: seq<Arg>, addCube: bool): seq<Arg> {
    if args == [] then []
    else
      var rest := Kept(args[..|args| - 1], addCube);
      var a := args[|args| - 1];
      if Skipped(a.key, addCube) then rest else rest + [Arg(Cap(a.key), Cap(a.value))]
  }

  function PairText(a: Arg): string {
    a.key + [KV] + a.value + [PARAM]
  }

  function Printed(args: seq<Arg>): string {
    if args == [] then "" else PairText(args[0]) + Printed(args[1..])
  }

  lemma {:induction false} PrintedSnoc(args: seq<Arg>, a: Arg)
    ensures Printed(args + [a]) == Printed(args) + PairText(a)
  {
    if args == [] {
      assert Printed([a][1..]) == "" && PairText(a) + "" == PairText(a);
    } else {
      PrintedSnoc(args[1..], a);
      assert (args + [a])[1..] == args[1..] + [a];
    }
  }

  method ArgToString(args: seq<Arg>, addCube: bool) returns (text: string)
    ensures text == Printed(Kept(args, addCube))
  {
    hide Skipped, Printed, PairText;
    text := "";
    NothingPrinted();
    var i := 0;
    while i < |args|
      invariant 0 <= i <= |args| && text == Printed(Kept(args[..i], addCube))
    {
      var a := args[i];
      assert args[..i + 1][..i] == args[..i];
      if !Skipped(a.key, addCube) {
        PrintedSnoc(Kept(args[..i], addCube), Arg(Cap(a.key), Cap(a.value)));
        PairTextIs(text, Cap(a.key), Cap(a.value));
        text := text + Cap(a.key);
        text := text + [KV];
        text := text + Cap(a.value);
        text := text + [PARAM];
      }
      i := i + 1;
    }
    assert args[..|args|] == args;
  }

  lemma NothingPrinted()
    ensures Printed([]) == ""
  {
  }

  lemma PairTextIs(text: string, key: string, value: string)
    ensures text + PairText(Arg(key, value)) == text + key + [KV] + value + [PARAM]
  {
  }

  // ----- parsing

  /** What is before and behind the first occurrence of a character in a text. */
  function Cut(s: string, c: char): (r: Option<(string, string)>)
    ensures r.None? <==> c !in s
    ensures r.Some? ==> s == r.value.0 + [c] + r.value.1 && c !in r.value.0
  {
    if s == "" then None
    else if s[0] == c then assert s == "" + [c] + s[1..]; Some(("", s[1..]))
    else
      var r := Cut(s[1..], c);
      if r == None then None
      else
        assert s == [s[0]] + r.value.0 + [c] + r.value.1;
        Some(([s[0]] + r.value.0, r.value.1))
  }

  /** The first occurrence is the only one that has the character nowhere before it. */
  lemma CutIs(a: string, c: char, b: string)
    requires c !in a
    ensures Cut(a + [c] + b, c) == Some((a, b))
  {
    var r := Cut(a + [c] + b, c).value;
    assert (a + [c] + b)[|a|] == c && (r.0 + [c] + r.1)[|r.0|] == c;
    assert |a| == |r.0|;
    assert a == (a + [c] + b)[..|a|] == r.0;
    assert b == (a + [c] + b)[|a| + 1..] == r.1;
  }

  /** The bracket that closes a value which starts with an opening one. */
  function ClosingOf(value: string): Option<char> {
    if value == "" then None else if value[0] == '[' then Some(']') else if value[0] == '{' then Some('}') else None
  }

  /** What the parser finds next: nothing, a bracket that is not closed, or something and the rest of the text. */
  datatype Found<T> = Nothing | Unclosed | Read(item: T, rest: string)

  function NextPair(s: string): Found<Arg> {
    match Cut(s, KV)
    case None => Nothing
    case Some((key, text)) =>
      match NextValue(text)
      case Nothing => Nothing
      case Unclosed => Unclosed
      case Read(value, rest) => Read(Arg(key, value), rest)
  }

  /** The value at the start of a text ends at the first separator, behind the closing bracket if it starts with one. */
  function NextValue(text: string): Found<string> {
    match ClosingOf(text)
    case None => Delimited("", text)
    case Some(close) =>
      match Cut(text, close)
      case None => Unclosed
      case Some((front, behind)) => Delimited(front + [close], behind)
  }

  function Delimited(front: string, behind: string): Found<string> {
    match Cut(behind, PARAM)
    case None => Nothing
    case Some((middle, rest)) => Read(front + middle, rest)
  }

  lemma ValueShrinks(text: string)
    ensures NextValue(text).Read? ==> text == NextValue(text).item + [PARAM] + NextValue(text).rest
  {
    hide Cut;
    match ClosingOf(text)
    case None => assert forall s: string :: "" + s == s;
    case Some(close) =>
      if Cut(text, close).Some? {
        var (front, behind) := Cut(text, close).value;
        if Cut(behind, PARAM).Some? {
          var (middle, rest) := Cut(behind, PARAM).value;
          assert front + [close] + (middle + [PARAM] + rest) == (front + [close] + middle) + [PARAM] + rest;
        }
      }
  }

  lemma PairShrinks(s: string)
    ensures NextPair(s).Read? ==> |NextPair(s).rest| < |s|
  {
    hide Cut, NextValue;
    if Cut(s, KV).Some? {
      ValueShrinks(Cut(s, KV).value.1);
    }
  }

  /** All pairs of a text, and whether a bracket was found that is not closed. */
  function Parsed(s: string): (bool, seq<Arg>)
    decreases |s|
  {
    PairShrinks(s);
    match NextPair(s)
    case Nothing => (true, [])
    case Unclosed => (false, [])
    case Read(a, rest) => var (ok, args) := Parsed(rest); (ok, [a] + args)
  }

  /** The text behind the first occurrence of a character: a pointer into the text. */
  function Behind(s: string, c: char): (r: Option<string>)
    ensures r == if Cut(s, c).None? then None else Some(Cut(s, c).value.1)
  {
    if s == "" then None else if s[0] == c then Some(s[1..]) else Behind(s[1..], c)
  }

  /** What the two pointers of the parser stand for. */
  ghost predicate PointersAt(ptr0: string, ok: bool, ptr1: Option<string>, ptr2: Option<string>) {
    match NextPair(ptr0)
    case Nothing => ok && (ptr1 == None || ptr2 == None)
    case Unclosed => !ok
    case Read(a, rest) =>
      && ok && ptr1.Some? && ptr2 == Some(rest) && |rest| < |ptr1.value| < |ptr0|
      && a == Arg(ptr0[..|ptr0| - |ptr1.value| - 1], ptr1.value[..|ptr1.value| - |rest| - 1])
  }

  lemma PointersMet(ptr0: string)
    ensures var ptr1 := Behind(ptr0, KV);
      if ptr1 == None then PointersAt(ptr0, true, None, None)
      else match NextValue(ptr1.value) {
        case Nothing => PointersAt(ptr0, true, ptr1, None)
        case Unclosed => PointersAt(ptr0, false, None, None)
        case Read(_, rest) => PointersAt(ptr0, true, ptr1, Some(rest))
      }
  {
    hide Cut, Behind, NextValue;
    if Cut(ptr0, KV).Some? {
      var (key, text) := Cut(ptr0, KV).value;
      ValueShrinks(text);
    }
  }

  /** The ends of the next pair: pointers behind the key and behind the value, as far as they are found. */
  method Advance(ptr0: string) returns (ok: bool, ptr1: Option<string>, ptr2: Option<string>)
    ensures PointersAt(ptr0, ok, ptr1, ptr2)
  {
    hide Cut, Behind, PointersAt;
    PointersMet(ptr0);
    ok, ptr2 := true, None;
    ptr1 := Behind(ptr0, KV);
    if ptr1.Some? {
      if ptr1.value != "" && ptr1.value[0] == '[' {
        var ptr3 := Behind(ptr1.value, ']');
        if ptr3 == None {
          return false, None, None;
        }
        ptr2 := Behind(ptr3.value, PARAM);
      } else if ptr1.value != "" && ptr1.value[0] == '{' {
        var ptr3 := Behind(ptr1.value, '}');
        if ptr3 == None {
          return false, None, None;
        }
        ptr2 := Behind(ptr3.value, PARAM);
      } else {
        ptr2 := Behind(ptr1.value, PARAM);
      }
    }
  }

  method ParseQuery(text: string) returns (ok: bool, args: seq<Arg>)
    ensures args == Parsed(text).1 && (ok <==> Parsed(text).0 && args != [])
  {
    hide NextPair;
    args := [];
    var ptr0 := text;
    var ptr1, ptr2;
    ok, ptr1, ptr2 := Advance(ptr0);
    if !ok {
      return;
    }
    while ptr1.Some? && ptr2.Some?
      invariant Parsed(text).0 == Parsed(ptr0).0 && Parsed(text).1 == args + Parsed(ptr0).1
      invariant PointersAt(ptr0, true, ptr1, ptr2)
      decreases |ptr0|
    {
      var a := Arg(ptr0[..|ptr0| - |ptr1.value| - 1], ptr1.value[..|ptr1.value| - |ptr2.value| - 1]);
      MoveFront(args, a, Parsed(ptr2.value).1);
      args := args + [a];
      ptr0 := ptr2.value;
      ok, ptr1, ptr2 := Advance(ptr0);
      if !ok {
        return;
      }
    }
    ok := args != [];
  }

  lemma MoveFront(args: seq<Arg>, a: Arg, rest: seq<Arg>)
    ensures args + ([a] + rest) == args + [a] + rest
  {
  }

  // ----- what is printed and what is parsed

  /** A value that is free of separators, or whose first closing bracket has no separator behind it. */
  predicate ClosedValue(value: string) {
    match ClosingOf(value)
    case None => PARAM !in value
    case Some(close) => Cut(value, close).Some? && PARAM !in Cut(value, close).value.1
  }

  predicate WellFormed(a: Arg) {
    KV !in a.key && ClosedValue(a.value)
  }

  /** The value at the start of a text, if it is followed by a separator. */
  lemma ReadsValue(value: string, rest: string)
    requires ClosedValue(value)
    ensures NextValue(value + [PARAM] + rest) == Read(value, rest)
  {
    hide Cut;
    var text := value + [PARAM] + rest;
    assert ClosingOf(text) == ClosingOf(value);
    match ClosingOf(value)
    case None =>
      CutIs(value, PARAM, rest);
      assert "" + value == value;
    case Some(close) =>
      var (front, middle) := Cut(value, close).value;
      var behind := middle + [PARAM] + rest;
      assert text == front + [close] + behind;
      CutIs(front, close, behind);
      CutIs(middle, PARAM, rest);
  }

  /** The next pair of a text that starts with a printed pair. */
  lemma ReadsPair(a: Arg, rest: string)
    requires WellFormed(a)
    ensures NextPair(PairText(a) + rest) == Read(a, rest)
  {
    hide Cut, NextValue, ClosedValue;
    var text := a.value + [PARAM] + rest;
    assert PairText(a) + rest == a.key + [KV] + text;
    CutIs(a.key, KV, text);
    ReadsValue(a.value, rest);
  }

  /** The parser takes only closed values. */
  lemma ValueIsClosed(text: string)
    requires NextValue(text).Read?
    ensures ClosedValue(NextValue(text).item)
  {
    hide Cut;
    var value := NextValue(text).item;
    ValueShrinks(text);
    match ClosingOf(text)
    case None =>
      assert "" + Cut(text, PARAM).value.0 == Cut(text, PARAM).value.0;
      assert value != "" ==> value[0] == text[0];
    case Some(close) =>
      var (front, behind) := Cut(text, close).value;
      var (middle, rest) := Cut(behind, PARAM).value;
      assert value == front + [close] + middle;
      CutIs(front, close, middle);
      assert value[0] == text[0];
  }

  /** What the parser takes for a pair is printed as the text that it read. */
  lemma PairIsPrinted(s: string)
    requires NextPair(s).Read?
    ensures WellFormed(NextPair(s).item) && s == PairText(NextPair(s).item) + NextPair(s).rest
  {
    hide Cut, NextValue, ClosedValue;
    var (key, text) := Cut(s, KV).value;
    ValueShrinks(text);
    ValueIsClosed(text);
    var value, rest := NextValue(text).item, NextValue(text).rest;
    assert key + [KV] + (value + [PARAM] + rest) == (key + [KV] + value + [PARAM]) + rest;
  }

  /** Parsing a printed list gives the list back. */
  lemma {:induction false} ParsesPrinted(args: seq<Arg>)
    requires forall a :: a in args ==> WellFormed(a)
    ensures Parsed(Printed(args)) == (true, args)
  {
    hide NextPair, PairText, WellFormed;
    if args == [] {
      EndOfText();
    } else {
      ParsesPrinted(args[1..]);
      ReadsPair(args[0], Printed(args[1..]));
      assert [args[0]] + args[1..] == args;
    }
  }

  lemma EndOfText()
    ensures NextPair("") == Nothing
  {
  }

  /** Every text is the print of what is parsed from it, and a rest without a pair. */
  lemma {:induction false} PrintsParsed(s: string) returns (rest: string)
    ensures s == Printed(Parsed(s).1) + rest && !NextPair(rest).Read?
    ensures Parsed(s).0 <==> NextPair(rest) == Nothing
    ensures forall a :: a in Parsed(s).1 ==> WellFormed(a)
    decreases |s|
  {
    hide NextPair, PairText, WellFormed;
    match NextPair(s)
    case Nothing => rest := s;
    case Unclosed => rest := s;
    case Read(a, more) =>
      PairShrinks(s);
      PairIsPrinted(s);
      rest := PrintsParsed(more);
      assert ([a] + Parsed(more).1)[1..] == Parsed(more).1;
      assert PairText(a) + (Printed(Parsed(more).1) + rest) == PairText(a) + Printed(Parsed(more).1) + rest;
  }

  /** The arguments that are not skipped, as they are. */
  function Unskipped(args: seq<Arg>, addCube: bool): seq<Arg> {
    if args == [] then []
    else
      var rest := Unskipped(args[..|args| - 1], addCube);
      if Skipped(args[|args| - 1].key, addCube) then rest else rest + [args[|args| - 1]]
  }

  predicate Short(a: Arg) {
    |a.key| <= 4096 && |a.value| <= 4096
  }

  /** Cutting makes the text of an argument list shorter, unless there is nothing to cut. */
  lemma {:induction false} CutIsShorter(args: seq<Arg>, addCube: bool)
    ensures var kept, all := Kept(args, addCube), Unskipped(args, addCube);
      && |Printed(kept)| <= |Printed(all)|
      && if forall a :: a in all ==> Short(a) then kept == all else |Printed(kept)| < |Printed(all)|
  {
    hide Skipped, Printed;
    if args != [] {
      var front, a := args[..|args| - 1], args[|args| - 1];
      CutIsShorter(front, addCube);
      if !Skipped(a.key, addCube) {
        var kept, all := Kept(front, addCube), Unskipped(front, addCube);
        var b := Arg(Cap(a.key), Cap(a.value));
        PrintedSnoc(kept, b);
        PrintedSnoc(all, a);
        assert (all + [a])[|all|] == a && forall x :: x in all ==> x in all + [a];
        if forall x :: x in all + [a] ==> Short(x) {
          assert Short(a) && b == a;
        }
      }
    }
  }

  /**
   * The round trip of an argument list through text: it gives exactly the arguments that are not skipped, if and
   * only if each of them is well-formed and short enough not to be cut.
   */
  lemma RoundTrip(args: seq<Arg>, addCube: bool)
    ensures var all := Unskipped(args, addCube);
      Parsed(Printed(Kept(args, addCube))) == (true, all) <==> forall a :: a in all ==> WellFormed(a) && Short(a)
  {
    hide Parsed, Printed, WellFormed, Short, Kept, Unskipped;
    var kept, all := Kept(args, addCube), Unskipped(args, addCube);
    var rest := PrintsParsed(Printed(kept));
    CutIsShorter(args, addCube);
    if forall a :: a in all ==> WellFormed(a) && Short(a) {
      ParsesPrinted(kept);
    }
  }

  /** The two operations one after the other: success gives back what was not skipped, unless something was cut. */
  method PrintAndParse(args: seq<Arg>, addCube: bool) returns (ok: bool, parsed: seq<Arg>)
    ensures var all := Unskipped(args, addCube);
      ok && parsed == all <==> all != [] && forall a :: a in all ==> WellFormed(a) && Short(a)
  {
    hide Parsed, Printed, WellFormed, Short, Kept, Unskipped;
    var text := ArgToString(args, addCube);
    ok, parsed := ParseQuery(text);
    RoundTrip(args, addCube);
  }

  // ----- the characters and keys themselves

  /** A pair is printed as the key, an equals sign, the value and a semicolon. */
  lemma PrintsLiterally(key: string, value: string)
    ensures Printed([Arg(key, value)]) == key + "=" + value + ";"
  {
    assert [Arg(key, value)][1..] == [];
    assert Printed([]) == "" && key + "=" + value + ";" + "" == key + "=" + value + ";";
  }

  predicate SameLetter(a: char, b: char) {
    a == b || ('A' <= a <= 'Z' && b as int == a as int + 32) || ('A' <= b <= 'Z' && a as int == b as int + 32)
  }

  predicate SameWord(a: string, b: string) {
    |a| == |b| && forall i :: 0 <= i < |a| ==> SameLetter(a[i], b[i])
  }

  lemma LowerIs(a: string, b: string)
    requires forall i :: 0 <= i < |b| ==> !('A' <= b[i] <= 'Z')
    ensures Lower(a) == b <==> SameWord(a, b)
  {
    if SameWord(a, b) {
      assert forall i :: 0 <= i < |a| ==> Lower(a)[i] == b[i];
    }
    if Lower(a) == b {
      forall i | 0 <= i < |a|
        ensures SameLetter(a[i], b[i])
      {
        assert Lower(a)[i] == LowerChar(a[i]);
      }
    }
  }

  /** The keys that are not printed, in capitals or small letters. */
  lemma SkippedKeys(key: string, addCube: bool)
    ensures Skipped(key, addCube) <==>
      || SameWord(key, "ncores") || SameWord(key, "nhost") || SameWord(key, "exec_mode")
      || (SameWord(key, "cube") && !addCube)
      || SameWord(key, "src_path") || SameWord(key, "measure") || SameWord(key, "callback_url")
  {
    hide Lower, SameWord;
    LowerIs(key, "ncores");
    LowerIs(key, "nhost");
    LowerIs(key, "exec_mode");
    LowerIs(key, "cube");
    LowerIs(key, "src_path");
    LowerIs(key, "measure");
    LowerIs(key, "callback_url");
  }

  /** The first closing bracket of a value has no semicolon behind it. */
  predicate ClosedBy(value: string, close: char) {
    exists k :: 0 <= k < |value| && value[k] == close && close !in value[..k] && ';' !in value[k..]
  }

  /** The arguments that survive, character by character. */
  lemma WellFormedIs(a: Arg)
    ensures WellFormed(a) <==>
      && '=' !in a.key
      && if a.value != "" && a.value[0] == '[' then ClosedBy(a.value, ']')
         else if a.value != "" && a.value[0] == '{' then ClosedBy(a.value, '}')
         else ';' !in a.value
  {
    hide Cut;
    if a.value != "" && (a.value[0] == '[' || a.value[0] == '{') {
      ClosedIs(a.value, if a.value[0] == '[' then ']' else '}');
    }
  }

  lemma ClosedIs(value: string, close: char)
    requires close != ';'
    ensures ClosedBy(value, close) <==> Cut(value, close).Some? && ';' !in Cut(value, close).value.1
  {
    hide Cut;
    if Cut(value, close).Some? {
      var (front, behind) := Cut(value, close).value;
      var k := |front|;
      assert value[..k] == front && value[k] == close && value[k..] == [close] + behind;
      if ClosedBy(value, close) {
        var m :| 0 <= m < |value| && value[m] == close && close !in value[..m] && ';' !in value[m..];
        assert value == value[..m] + [close] + value[m + 1..] && value[m..] == [close] + value[m + 1..];
        CutIs(value[..m], close, value[m + 1..]);
      }
    }
  }
}
