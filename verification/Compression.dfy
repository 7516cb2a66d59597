/**
 * The compression of a list of integers into ranges (OPH_SET): the compressed text is never longer, and expanding
 * its ranges with the same step gives the list back. The reader of ranges (OPH_FOR) does not know the step.
 */
module Compression {
  import opened Options
  import opened Text
  import opened Ranges

  /** A range as it is written: the integers from `start` to `last`, in steps that are not written. */
  datatype Interval = Interval(start: int, last: int)

  /** The values of some ranges in steps. */
  function ExpandAll(ranges: seq<Interval>, step: int): seq<int>
    requires 0 < step
  {
    if ranges == [] then []
    else
      var r := ranges[|ranges| - 1];
      ExpandAll(ranges[..|ranges| - 1], step) + ExpandFrom(r.start, r.last, step)
  }

  /** The end of the range is reached from its start. */
  ghost predicate Aligned(v: int, last: int, step: int)
    requires 0 < step
    decreases last - v
  {
    v == last || (v + step <= last && Aligned(v + step, last, step))
  }

  /** A range that ends one step later has one value more. */
  lemma {:induction false} OneStepMore(v: int, last: int, step: int)
    requires 0 < step && Aligned(v, last, step)
    ensures Aligned(v, last + step, step)
    ensures ExpandFrom(v, last + step, step) == ExpandFrom(v, last, step) + [last + step]
    decreases last - v
  {
    if v == last {
      assert Aligned(v + step, last + step, step);
      assert ExpandFrom(v + step, last + step, step) == [last + step];
      assert ExpandFrom(v, last, step) == [v];
    } else {
      OneStepMore(v + step, last, step);
    }
  }

  /** The text of a range: the start alone if it is the only value. */
  function RangeText(r: Interval): string {
    if r.start == r.last then Show(r.start) else Show(r.start) + [COLON] + Show(r.last)
  }

  /** The texts of some ranges, separated by commas. */
  function RangesText(ranges: seq<Interval>): string {
    if ranges == [] then ""
    else if |ranges| == 1 then RangeText(ranges[0])
    else RangesText(ranges[..|ranges| - 1]) + [COMMA] + RangeText(ranges[|ranges| - 1])
  }

  function Values(tokens: seq<string>): seq<int> {
    seq(|tokens|, i requires 0 <= i < |tokens| => ReadInt(tokens[i]))
  }

  /** The integers that a text lists. */
  function Listed(text: string): seq<int> {
    Values(Tokens(text, COMMA))
  }

  ghost function TextsSpread(ranges: seq<Interval>): nat {
    if ranges == [] then 0 else TextsSpread(ranges[..|ranges| - 1]) + |RangeText(ranges[|ranges| - 1])| + 1
  }

  lemma {:induction false} TextLength(ranges: seq<Interval>)
    ensures ranges != [] ==> |RangesText(ranges)| + 1 == TextsSpread(ranges)
  {
    if |ranges| > 1 {
      TextLength(ranges[..|ranges| - 1]);
    } else if |ranges| == 1 {
      assert ranges[..0] == [];
    }
  }

  lemma SpreadPrefix(tokens: seq<string>, i: nat)
    requires i < |tokens|
    ensures Spread(tokens[..i + 1]) == Spread(tokens[..i]) + |tokens[i]| + 1
  {
    assert tokens[..i + 1] == tokens[..i] + [tokens[i]];
    SpreadSnoc(tokens[..i], tokens[i]);
  }

  /** The state of the loop: the ranges written, the open range, and the values read so far. */
  ghost predicate Reading(tokens: seq<string>, i: nat, step: int, done: seq<Interval>, flag: int, start: int, last: int)
    requires 0 < step && i <= |tokens|
  {
    && 0 <= flag <= 2 && (flag == 0 <==> i == 0) && (flag == 0 ==> done == [])
    && (flag == 1 ==> start == last) && (flag == 2 ==> start < last)
    && (flag > 0 ==> Aligned(start, last, step))
    && Values(tokens[..i]) == ExpandAll(done, step) + (if flag > 0 then ExpandFrom(start, last, step) else [])
    && TextsSpread(done) + (if flag > 0 then |Show(start)| + 1 else 0) + (if flag == 2 then |Show(last)| + 1 else 0)
       <= Spread(tokens[..i])
  }

  lemma ValuesSnoc(tokens: seq<string>, i: nat)
    requires i < |tokens|
    ensures Values(tokens[..i + 1]) == Values(tokens[..i]) + [ReadInt(tokens[i])]
  {
  }

  /** The open range grows by the value read. */
  lemma Grows(tokens: seq<string>, i: nat, step: int, done: seq<Interval>, flag: int, start: int, last: int)
    requires 0 < step && i < |tokens| && tokens[i] != "" && Reading(tokens, i, step, done, flag, start, last)
    requires flag > 0 && ReadInt(tokens[i]) == last + step
    ensures Reading(tokens, i + 1, step, done, 2, start, last + step)
  {
    hide ExpandAll, ExpandFrom, Values, Spread, Aligned, ReadInt, Show;
    ValuesSnoc(tokens, i);
    SpreadPrefix(tokens, i);
    ShownFits(tokens[i]);
    OneStepMore(start, last, step);
  }

  /** The open range, if any, is written, and the value read opens another one. */
  lemma Opens(tokens: seq<string>, i: nat, step: int, done: seq<Interval>, flag: int, start: int, last: int,
      current: int, done': seq<Interval>)
    requires 0 < step && i < |tokens| && tokens[i] != "" && Reading(tokens, i, step, done, flag, start, last)
    requires ReadInt(tokens[i]) == current && done' == if flag > 0 then done + [Interval(start, last)] else done
    ensures Reading(tokens, i + 1, step, done', 1, current, current)
  {
    hide ExpandAll, ExpandFrom, Values, Spread, Aligned, ReadInt, Show, TextsSpread;
    ValuesSnoc(tokens, i);
    SpreadPrefix(tokens, i);
    ShownFits(tokens[i]);
    Written(step, done, start, last);
    Single(current, step);
    if flag == 0 {
      NothingWritten(step);
      assert [] + [current] == [current];
    }
  }

  lemma Single(v: int, step: int)
    requires 0 < step
    ensures ExpandFrom(v, v, step) == [v] && Aligned(v, v, step)
  {
  }

  lemma NothingWritten(step: int)
    requires 0 < step
    ensures ExpandAll([], step) == [] && TextsSpread([]) == 0 && Values([]) == []
  {
  }

  lemma Written(step: int, done: seq<Interval>, start: int, last: int)
    requires 0 < step
    ensures ExpandAll(done + [Interval(start, last)], step) == ExpandAll(done, step) + ExpandFrom(start, last, step)
    ensures TextsSpread(done + [Interval(start, last)]) == TextsSpread(done) + |RangeText(Interval(start, last))| + 1
  {
    assert (done + [Interval(start, last)])[..|done|] == done;
  }

  /** What the loop writes for one range. */
  method Emit(out: string, first: bool, flag: int, start: int, last: int, ghost done: seq<Interval>)
    returns (out': string)
    requires flag == 1 || flag == 2
    requires flag == 1 ==> start == last
    requires flag == 2 ==> start != last
    requires out == RangesText(done) && (first <==> done != [])
    ensures out' == RangesText(done + [Interval(start, last)])
  {
    ghost var r := Interval(start, last);
    assert (done + [r])[..|done|] == done;
    if flag > 1 {
      out' := out + (if first then [COMMA] else "") + Show(start) + [COLON] + Show(last);
      assert out' == out + (if first then [COMMA] else "") + (Show(start) + [COLON] + Show(last));
    } else {
      out' := out + (if first then [COMMA] else "") + Show(start);
    }
  }

  /**
   * Compresses the list of integers in a text. A list without integers, and a step that is not positive,
   * leave the text as it is. A range is wide exactly if the list has neighbours that differ by the step.
   */
  method Compress(text: string, step: int) returns (out: string, ghost ranges: seq<Interval>)
    ensures step <= 0 || Listed(text) == [] ==> out == text
    ensures |out| <= |text|
    ensures 0 < step && Listed(text) != [] ==>
      && out == RangesText(ranges) && ranges != [] && InRange(ranges)
      && ExpandAll(ranges, step) == Listed(text) && (Wide(ranges) <==> Neighbours(Listed(text), step))
  {
    hide Reading, ExpandAll, ExpandFrom, Spread, Aligned, ReadInt, Show, RangesText, TextsSpread, TokensFrom, InRange,
      Noted, Wide, Neighbours;
    out, ranges := text, [];
    if step <= 0 {
      return;
    }
    var tokens := Tokens(text, COMMA);
    TokensClean("", text, COMMA);
    TokensFit("", text, COMMA);
    NothingWritten(step);
    StartReading(tokens, step);
    NotedStart(tokens, step);
    var final, flag, first, start, last := "", 0, false, 0, 0;
    var i := 0;
    NoText();
    while i < |tokens|
      invariant 0 <= i <= |tokens| && Reading(tokens, i, step, ranges, flag, start, last) && FlagOf(flag, start, last)
      invariant final == RangesText(ranges) && (first <==> ranges != []) && (flag == 0 <==> i == 0)
      invariant InRange(ranges) && LLONG_MIN <= start <= LLONG_MAX && LLONG_MIN <= last <= LLONG_MAX
      invariant Noted(tokens, i, step, ranges, flag, last)
    {
      var current := ReadInt(tokens[i]);
      ShownFits(tokens[i]);
      if flag > 0 && current == last + step {
        Grows(tokens, i, step, ranges, flag, start, last);
        NotedGrows(tokens, i, step, ranges, flag, last);
        last := current;
        flag := 2;
      } else {
        Opens(tokens, i, step, ranges, flag, start, last, current,
              if flag > 0 then ranges + [Interval(start, last)] else ranges);
        NotedOpens(tokens, i, step, ranges, flag, start, last);
        if flag > 0 {
          final := Emit(final, first, flag, start, last, ranges);
          MoreInRange(ranges, start, last);
          ranges := ranges + [Interval(start, last)];
          first := true;
        }
        start, last, flag := current, current, 1;
      }
      FlagFacts(tokens, i + 1, step, ranges, flag, start, last);
      i := i + 1;
    }
    if flag > 0 {
      final := Emit(final, first, flag, start, last, ranges);
      MoreInRange(ranges, start, last);
      AllRead(tokens, step, ranges, flag, start, last);
      AllNoted(tokens, step, ranges, flag, start, last);
      ranges := ranges + [Interval(start, last)];
      TextLength(ranges);
      out := final;
    }
  }

  lemma AllNoted(tokens: seq<string>, step: int, done: seq<Interval>, flag: int, start: int, last: int)
    requires flag > 0 && FlagOf(flag, start, last) && Noted(tokens, |tokens|, step, done, flag, last)
    ensures Wide(done + [Interval(start, last)]) <==> Neighbours(Values(tokens), step)
  {
    WideSnoc(done, start, last);
    assert tokens[..|tokens|] == tokens;
  }

  /** All ranges end no earlier than they start, and at long integers. */
  ghost predicate InRange(ranges: seq<Interval>) {
    forall r :: r in ranges ==> LLONG_MIN <= r.start <= r.last <= LLONG_MAX
  }

  lemma MoreInRange(ranges: seq<Interval>, start: int, last: int)
    requires InRange(ranges) && LLONG_MIN <= start <= last <= LLONG_MAX
    ensures InRange(ranges + [Interval(start, last)])
  {
  }

  ghost predicate FlagOf(flag: int, start: int, last: int) {
    0 <= flag <= 2 && (flag == 1 ==> start == last) && (flag == 2 ==> start < last)
  }

  lemma FlagFacts(tokens: seq<string>, i: nat, step: int, done: seq<Interval>, flag: int, start: int, last: int)
    requires 0 < step && i <= |tokens| && Reading(tokens, i, step, done, flag, start, last)
    ensures FlagOf(flag, start, last)
  {
  }

  lemma StartReading(tokens: seq<string>, step: int)
    requires 0 < step
    ensures Reading(tokens, 0, step, [], 0, 0, 0) && InRange([])
  {
    assert tokens[..0] == [];
  }

  lemma NoText()
    ensures RangesText([]) == ""
  {
  }

  /** The end of the loop, when the open range has been written. */
  lemma AllRead(tokens: seq<string>, step: int, done: seq<Interval>, flag: int, start: int, last: int)
    requires 0 < step && flag > 0 && Reading(tokens, |tokens|, step, done, flag, start, last)
    ensures ExpandAll(done + [Interval(start, last)], step) == Values(tokens)
    ensures TextsSpread(done + [Interval(start, last)]) <= Spread(tokens)
  {
    hide ExpandAll, ExpandFrom, Values, Spread, Aligned, Show, TextsSpread;
    Written(step, done, start, last);
    assert tokens[..|tokens|] == tokens;
  }

  // ----- neighbours that differ by the step

  ghost predicate Neighbours(values: seq<int>, step: int) {
    exists i :: 0 <= i < |values| - 1 && values[i + 1] == values[i] + step
  }

  /** Some range has more than one value. */
  ghost predicate Wide(ranges: seq<Interval>) {
    exists r :: r in ranges && r.start < r.last
  }

  /** The ranges written so far, and the open one, tell whether there were neighbours. */
  ghost predicate Noted(tokens: seq<string>, i: nat, step: int, done: seq<Interval>, flag: int, last: int)
    requires i <= |tokens|
  {
    && (i > 0 ==> last == ReadInt(tokens[i - 1]))
    && (flag == 2 || Wide(done) <==> Neighbours(Values(tokens[..i]), step))
  }

  lemma NeighboursSnoc(tokens: seq<string>, i: nat, step: int)
    requires i < |tokens|
    ensures Neighbours(Values(tokens[..i + 1]), step) <==>
      Neighbours(Values(tokens[..i]), step) || (i > 0 && ReadInt(tokens[i]) == ReadInt(tokens[i - 1]) + step)
  {
    hide ReadInt;
    var a, b := Values(tokens[..i]), Values(tokens[..i + 1]);
    assert b == a + [ReadInt(tokens[i])];
    assert i > 0 ==> b[i - 1] == ReadInt(tokens[i - 1]) && b[i] == ReadInt(tokens[i]);
    if Neighbours(a, step) {
      var k :| 0 <= k < |a| - 1 && a[k + 1] == a[k] + step;
      assert b[k + 1] == b[k] + step;
    }
    if i > 0 && ReadInt(tokens[i]) == ReadInt(tokens[i - 1]) + step {
      assert b[i - 1 + 1] == b[i - 1] + step;
    }
    if Neighbours(b, step) {
      var k :| 0 <= k < |b| - 1 && b[k + 1] == b[k] + step;
      assert k + 1 < i ==> a[k + 1] == a[k] + step;
    }
  }

  lemma NotedStart(tokens: seq<string>, step: int)
    ensures Noted(tokens, 0, step, [], 0, 0)
  {
  }

  lemma NotedGrows(tokens: seq<string>, i: nat, step: int, done: seq<Interval>, flag: int, last: int)
    requires 0 < i < |tokens| && Noted(tokens, i, step, done, flag, last) && ReadInt(tokens[i]) == last + step
    ensures Noted(tokens, i + 1, step, done, 2, last + step)
  {
    hide ReadInt, Neighbours;
    NeighboursSnoc(tokens, i, step);
  }

  lemma NotedOpens(tokens: seq<string>, i: nat, step: int, done: seq<Interval>, flag: int, start: int, last: int)
    requires i < |tokens| && Noted(tokens, i, step, done, flag, last) && FlagOf(flag, start, last)
    requires (flag == 0 <==> i == 0) && !(i > 0 && ReadInt(tokens[i]) == last + step)
    ensures Noted(tokens, i + 1, step, if flag > 0 then done + [Interval(start, last)] else done, 1, ReadInt(tokens[i]))
  {
    hide ReadInt, Neighbours;
    NeighboursSnoc(tokens, i, step);
    WideSnoc(done, start, last);
  }

  lemma WideSnoc(done: seq<Interval>, start: int, last: int)
    ensures Wide(done + [Interval(start, last)]) <==> Wide(done) || start < last
  {
    var all := done + [Interval(start, last)];
    assert all[|done|] == Interval(start, last);
    assert forall r :: r in all <==> r in done || r == Interval(start, last);
  }

  // ----- reading the ranges

  /** The ranges as the parser reads them: a start and an end have stride 1. */
  function Strided(ranges: seq<Interval>): (r: seq<Range>)
    ensures forall x :: x in r ==> x.stride == 1
  {
    seq(|ranges|, i requires 0 <= i < |ranges| => Range(ranges[i].start, ranges[i].last, 1))
  }

  /** Reading the text of a range gives its ends back, and the stride 1. */
  lemma RangeIsRead(r: Interval, max: int)
    requires InRange([r])
    ensures ParseRange(Tokens(RangeText(r), COLON), max) == Some(Range(r.start, r.last, 1))
    ensures RangeText(r) != "" && !Contains(RangeText(r), COMMA)
  {
    hide Show, BoundOf, TokensFrom;
    assert r in [r];
    BoundIsRead(r.start, max);
    BoundIsRead(r.last, max);
    ShowClean(r.start, COLON);
    ShowClean(r.last, COLON);
    ShowClean(r.start, COMMA);
    ShowClean(r.last, COMMA);
    OneToken("", Show(r.start), COLON);
    OneToken("", Show(r.last), COLON);
    SplitTokens("", Show(r.start), Show(r.last), COLON);
    assert "" + Show(r.start) == Show(r.start) && "" + Show(r.last) == Show(r.last);
  }

  /** The pieces of the written text. */
  lemma {:induction false} RangesAreRead(ranges: seq<Interval>, max: int)
    requires InRange(ranges) && ranges != []
    ensures |Tokens(RangesText(ranges), COMMA)| == |ranges|
    ensures ParseAll(Pieces(RangesText(ranges), COMMA), max) == Some(Strided(ranges))
  {
    hide ParseRange, RangeText, TokensFrom, PiecesFrom;
    var front, r := ranges[..|ranges| - 1], ranges[|ranges| - 1];
    assert r in ranges;
    RangeIsRead(r, max);
    var text := RangeText(r);
    OneToken("", text, COMMA);
    OnePiece("", text, COMMA);
    assert "" + text == text;
    if front == [] {
      OneParsed(text, max);
      assert ranges == [r] && Strided([r]) == [Range(r.start, r.last, 1)];
    } else {
      RangesAreRead(front, max);
      var before := RangesText(front);
      SplitTokens("", before, text, COMMA);
      SplitPieces("", before, text, COMMA);
      assert RangesText(ranges) == before + [COMMA] + text;
      ParseSnoc(Pieces(before, COMMA), text, max);
      assert Strided(ranges) == Strided(front) + [Range(r.start, r.last, 1)];
    }
  }

  lemma OneParsed(text: string, max: int)
    ensures var r := ParseRange(Tokens(text, COLON), max);
      ParseAll([text], max) == if r == None then None else Some([r.value])
  {
    hide ParseRange, TokensFrom;
    assert [text][..0] == [];
    assert ParseAll([], max) == Some([]);
    var r := ParseRange(Tokens(text, COLON), max);
    assert r.Some? ==> [] + [r.value] == [r.value];
  }

  /** The parser reads the written text as the ranges with stride 1, and all of them are used. */
  lemma ReadBack(ranges: seq<Interval>, max: int)
    requires InRange(ranges) && ranges != []
    ensures Parse(RangesText(ranges), max) == Some(Strided(ranges)) && Number(RangesText(ranges)) == |ranges|
  {
    hide ParseAll, TokensFrom, PiecesFrom, RangesText;
    RangesAreRead(ranges, max);
  }

  // ----- when reading gives the list back

  lemma {:induction false} EachSnoc(ranges: seq<Range>, r: Range)
    requires 0 < r.stride && forall x :: x in ranges ==> 0 < x.stride
    ensures ExpandEach(ranges + [r]) == ExpandEach(ranges) + ExpandFrom(r.start, r.last, r.stride)
  {
    hide ExpandFrom;
    if ranges == [] {
      assert [] + [r] == [r] && [r][1..] == [];
      assert ExpandEach([]) == [];
    } else {
      EachSnoc(ranges[1..], r);
      assert (ranges + [r])[1..] == ranges[1..] + [r];
    }
  }

  /** One range: with stride 1 it has no fewer values, and more exactly if it is wide and the step is not 1. */
  lemma OneRange(start: int, last: int, step: int)
    requires 0 < step && start <= last
    ensures |ExpandFrom(start, last, 1)| >= |ExpandFrom(start, last, step)|
    ensures step > 1 && start < last ==> |ExpandFrom(start, last, 1)| > |ExpandFrom(start, last, step)|
    ensures step == 1 || start == last ==> ExpandFrom(start, last, 1) == ExpandFrom(start, last, step)
  {
    ExpandLength(start, last, 1);
    ExpandLength(start, last, step);
    FewerSteps(last - start, step);
  }

  lemma FewerSteps(x: int, step: int)
    requires 0 < step && 0 <= x
    ensures x / step <= x && (step > 1 && x > 0 ==> x / step < x) && x / 1 == x
  {
    var q := x / step;
    assert step * q <= x && q >= 0;
    assert step > 1 && q > 0 ==> step * q >= 2 * q;
    assert step * q >= q;
  }

  /** The ranges read, expanded, are the list if the step is 1 or no range is wide, and longer otherwise. */
  lemma {:induction false} ReadsLonger(ranges: seq<Interval>, step: int)
    requires 0 < step && InRange(ranges)
    ensures var read, list := ExpandEach(Strided(ranges)), ExpandAll(ranges, step);
      && |read| >= |list|
      && (if step == 1 || !Wide(ranges) then read == list else |read| > |list|)
  {
    hide ExpandFrom;
    if ranges == [] {
      assert Strided(ranges) == [];
    } else {
      var front, r := ranges[..|ranges| - 1], ranges[|ranges| - 1];
      assert ranges == front + [r] && r in ranges;
      ReadsLonger(front, step);
      OneRange(r.start, r.last, step);
      WideSnoc(front, r.start, r.last);
      assert r == Interval(r.start, r.last);
      EachSnoc(Strided(front), Range(r.start, r.last, 1));
      assert Strided(ranges) == Strided(front) + [Range(r.start, r.last, 1)];
    }
  }

  /** All values fit in an int. */
  ghost predicate AreInts(values: seq<int>) {
    forall v :: v in values ==> -0x8000_0000 <= v < 0x8000_0000
  }

  lemma IntsIff(values: seq<int>)
    ensures Ints(values) == values <==> AreInts(values)
  {
    if Ints(values) == values {
      forall v | v in values
        ensures -0x8000_0000 <= v < 0x8000_0000
      {
        var i :| 0 <= i < |values| && values[i] == v;
        assert Ints(values)[i] == ToInt(v);
      }
    }
    if AreInts(values) {
      forall i | 0 <= i < |values|
        ensures Ints(values)[i] == values[i]
      {
        assert values[i] in values;
      }
    }
  }

  /**
   * A list that is compressed, read and expanded: the result is the list, with every value cut to an int, if and
   * only if the step is 1 or no two neighbours of the list differ by the step.
   */
  method CompressAndExpand(text: string, step: int, max: int) returns (a: array<int>)
    requires 0 < step && Listed(text) != []
    ensures a[..] == Ints(Listed(text)) <==> step == 1 || !Neighbours(Listed(text), step)
    ensures a[..] == Listed(text) <==> (step == 1 || !Neighbours(Listed(text), step)) && AreInts(Listed(text))
  {
    hide ExpandEach, ExpandAll, Neighbours, Wide, InRange, Parse, RangesText, Total, FillAll, Ints, AreInts, Listed;
    var out, intervals := Compress(text, step);
    ReadBack(intervals, max);
    var ranges, number, total := SubsetParse(out, max);
    ReadsLonger(intervals, step);
    AreOk(intervals);
    ExpandsAll(Strided(intervals));
    var k;
    assert Strided(intervals)[..number] == Strided(intervals);
    a, k := Expand(ranges.value, number, total);
    IntsIff(Listed(text));
    SameLength(ExpandEach(Strided(intervals)));
    SameLength(Listed(text));
  }

  lemma AreOk(ranges: seq<Interval>)
    requires InRange(ranges)
    ensures forall r :: r in Strided(ranges) ==> RangeOk(r) && 0 < r.stride
  {
    forall r | r in Strided(ranges)
      ensures RangeOk(r) && 0 < r.stride
    {
      var i :| 0 <= i < |ranges| && Strided(ranges)[i] == r;
      assert ranges[i] in ranges;
    }
  }

  lemma SameLength(s: seq<int>)
    ensures |Ints(s)| == |s|
  {
  }

  /** The list "1,3" with step 2 is written as "1:3", which is read as 1, 2 and 3. */
  lemma StepIsLost()
    ensures Listed("1,3") == [1, 3] && ExpandAll([Interval(1, 3)], 2) == [1, 3] && RangesText([Interval(1, 3)]) == "1:3"
    ensures Parse("1:3", 0) == Some([Range(1, 3, 1)]) && ExpandEach([Range(1, 3, 1)]) == [1, 2, 3]
  {
    hide Listed, ExpandAll, ExpandEach, Parse, RangesText;
    OneAndThree();
    assert InRange([Interval(1, 3)]);
    ReadBack([Interval(1, 3)], 0);
    assert Strided([Interval(1, 3)]) == [Range(1, 3, 1)];
    OneToThree();
  }

  lemma OneToThree()
    ensures ExpandAll([Interval(1, 3)], 2) == [1, 3] && ExpandEach([Range(1, 3, 1)]) == [1, 2, 3]
  {
    assert [Interval(1, 3)][..0] == [] && ExpandFrom(1, 3, 2) == [1, 3];
    assert [Range(1, 3, 1)][1..] == [] && ExpandFrom(1, 3, 1) == [1, 2, 3];
  }

  lemma OneAndThree()
    ensures Listed("1,3") == [1, 3] && RangesText([Interval(1, 3)]) == "1:3"
  {
    hide TokensFrom, Show, ReadInt;
    ShowsDigits();
    assert "1" + [COLON] + "3" == "1:3";
    OneToken("", "1", COMMA);
    OneToken("", "3", COMMA);
    SplitTokens("", "1", "3", COMMA);
    assert "1" + [COMMA] + "3" == "1,3" && "" + "1" == "1" && "" + "3" == "3";
  }

  lemma ShowsDigits()
    ensures Show(1) == "1" && Show(3) == "3" && ReadInt("1") == 1 && ReadInt("3") == 3
  {
    ReadShown(1);
    ReadShown(3);
    assert DigitOf(1) == '1' && DigitOf(3) == '3';
  }
}
