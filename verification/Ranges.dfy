/**
 * Lists of ranges such as "1,3:5,10:2:20": the parser, and the expansion of the ranges into an array of integers
 * (OPH_FOR).
 */
module Ranges {
  import opened Options
  import opened Text

  const COMMA := ','
  const COLON := ':'

  /** The integers from `start` to `last` in steps of `stride`. */
  datatype Range = Range(start: int, last: int, stride: int)

  // ----- parsing

  /** A bound is a number, or the word "end" for the largest value, which must be known. */
  function BoundOf(token: string, max: int): Option<int> {
    if |token| >= 3 && Lower(token[..3]) == "end" then if max != 0 then Some(max) else None
    else Some(ReadInt(token))
  }

  predicate RangeOk(r: Range) {
    r.stride != 0 && r.start <= r.last
  }

  function Checked(r: Range): Option<Range> {
    if RangeOk(r) then Some(r) else None
  }

  /** One range: everything, a number, start and end, or start, stride and end. */
  function ParseRange(tokens: seq<string>, max: int): (r: Option<Range>)
    ensures r.Some? ==> RangeOk(r.value)
  {
    if exists i :: 0 <= i < |tokens| && BoundOf(tokens[i], max) == None then None
    else if |tokens| == 0 then Checked(Range(1, if max != 0 then max else 1, 1))
    else if |tokens| == 1 then
      var n := BoundOf(tokens[0], max).value;
      Checked(Range(n, n, 1))
    else if |tokens| == 2 then Checked(Range(BoundOf(tokens[0], max).value, BoundOf(tokens[1], max).value, 1))
    else if |tokens| == 3 then
      Checked(Range(BoundOf(tokens[0], max).value, BoundOf(tokens[2], max).value, BoundOf(tokens[1], max).value))
    else None
  }

  function ParseAll(pieces: seq<string>, max: int): (r: Option<seq<Range>>)
    ensures r.Some? ==> |r.value| == |pieces| && forall x :: x in r.value ==> RangeOk(x)
  {
    if pieces == [] then Some([])
    else
      var front, last := ParseAll(pieces[..|pieces| - 1], max), ParseRange(Tokens(pieces[|pieces| - 1], COLON), max);
      if front == None || last == None then None else Some(front.value + [last.value])
  }

  /** The ranges of all pieces of a text, the empty ones, too. */
  function Parse(text: string, max: int): (r: Option<seq<Range>>)
    ensures r.Some? ==> forall x :: x in r.value ==> RangeOk(x)
  {
    if Tokens(text, COMMA) == [] then None else ParseAll(Pieces(text, COMMA), max)
  }

  /** The number of ranges that the parser reports: the pieces that are not empty. */
  function Number(text: string): nat {
    |Tokens(text, COMMA)|
  }

  /** There are no more of them than ranges, and as many exactly if no piece is empty. */
  lemma NumberFits(text: string, max: int)
    requires Parse(text, max).Some?
    ensures 1 <= Number(text) <= |Parse(text, max).value|
    ensures Number(text) == |Parse(text, max).value| <==> "" !in Pieces(text, COMMA)
  {
    hide TokensFrom, PiecesFrom;
    TokensAreNonEmpty("", text, COMMA);
    NonEmptyCount(Pieces(text, COMMA));
  }

  /** The ranges that are used: as many from the first on as the parser reports. */
  function Used(text: string, max: int): (r: seq<Range>)
    requires Parse(text, max).Some?
    ensures r != [] && r <= Parse(text, max).value
  {
    NumberFits(text, max);
    Parse(text, max).value[..Number(text)]
  }

  /** A long integer as an unsigned one. */
  function Unsigned(n: int): int {
    if n < 0 then n + 0x1_0000_0000_0000_0000 else n
  }

  /** The number of values of a range, as the parser computes it; a stride is not zero. */
  function Count(r: Range): int {
    if Unsigned(r.stride) == 0 then 0 else 1 + (r.last - r.start) / Unsigned(r.stride)
  }

  function Total(ranges: seq<Range>): int {
    if ranges == [] then 0 else Total(ranges[..|ranges| - 1]) + Count(ranges[|ranges| - 1])
  }

  /** The loop over the bounds of one range. */
  method SubsetRange(tokens: seq<string>, max: int) returns (r: Option<Range>)
    ensures r == ParseRange(tokens, max)
  {
    hide BoundOf;
    var start, last, stride := 0, 0, 0;
    var number := 0;
    while number < |tokens|
      invariant 0 <= number <= |tokens| && number <= 3
      invariant forall i :: 0 <= i < number ==> BoundOf(tokens[i], max).Some?
      invariant number > 0 ==> start == BoundOf(tokens[0], max).value && last == BoundOf(tokens[number - 1], max).value
      invariant number > 0 ==> stride == if number == 3 then BoundOf(tokens[1], max).value else 1
    {
      if number > 2 {
        return None;
      }
      var bound := BoundOf(tokens[number], max);
      if bound == None {
        return None;
      }
      if number == 0 {
        start, stride := bound.value, 1;
      } else if number == 2 {
        stride := last;
      }
      last := bound.value;
      number := number + 1;
    }
    if number == 0 {
      start, stride := 1, 1;
      last := if max != 0 then max else start;
    }
    if stride == 0 || start > last {
      return None;
    }
    return Some(Range(start, last, stride));
  }

  /** The parser: the ranges, how many of them are to be used, and the number of values of all of them. */
  method SubsetParse(text: string, max: int) returns (ranges: Option<seq<Range>>, number: nat, total: int)
    ensures ranges == Parse(text, max)
    ensures ranges.Some? ==> 1 <= number == Number(text) <= |ranges.value| && total == Total(ranges.value)
  {
    hide ParseRange, TokensFrom, PiecesFrom, ParseAll, Total, Count;
    number, total := |Tokens(text, COMMA)|, 0;
    if number == 0 {
      return None, 0, 0;
    }
    var pieces := Pieces(text, COMMA);
    var done: seq<Range> := [];
    var i := 0;
    NothingParsed(max);
    assert pieces[..0] == [];
    while i < |pieces|
      invariant 0 <= i <= |pieces| && ParseAll(pieces[..i], max) == Some(done) && total == Total(done)
    {
      assert pieces[..i + 1] == pieces[..i] + [pieces[i]];
      ParseSnoc(pieces[..i], pieces[i], max);
      var r := SubsetRange(Tokens(pieces[i], COLON), max);
      if r == None {
        NeverParsed(pieces, i + 1, max);
        return None, 0, 0;
      }
      TotalSnoc(done, r.value);
      total := total + Count(r.value);
      done := done + [r.value];
      i := i + 1;
    }
    assert pieces[..i] == pieces;
    NumberFits(text, max);
    return Some(done), number, total;
  }

  lemma ParseSnoc(pieces: seq<string>, text: string, max: int)
    ensures var front, r := ParseAll(pieces, max), ParseRange(Tokens(text, COLON), max);
      ParseAll(pieces + [text], max) == if front == None || r == None then None else Some(front.value + [r.value])
  {
    hide ParseRange, TokensFrom;
    assert (pieces + [text])[..|pieces|] == pieces;
  }

  lemma TotalSnoc(ranges: seq<Range>, r: Range)
    ensures Total(ranges + [r]) == Total(ranges) + Count(r)
  {
    assert (ranges + [r])[..|ranges|] == ranges;
  }

  lemma NothingParsed(max: int)
    ensures ParseAll([], max) == Some([]) && Total([]) == 0
  {
  }

  lemma {:induction false} NeverParsed(pieces: seq<string>, k: nat, max: int)
    requires k <= |pieces| && ParseAll(pieces[..k], max) == None
    ensures ParseAll(pieces, max) == None
  {
    if k == |pieces| {
      assert pieces[..k] == pieces;
    } else {
      assert pieces[..|pieces| - 1][..k] == pieces[..k];
      NeverParsed(pieces[..|pieces| - 1], k, max);
    }
  }

  // ----- expansion

  /** What the inner loop writes for a range when there is room for so many values. */
  function Fill(v: int, last: int, stride: int, room: nat): (r: seq<int>)
    requires room > 0
    ensures 1 <= |r| <= room
    decreases room
  {
    [v] + if room > 1 && v + stride <= last then Fill(v + stride, last, stride, room - 1) else []
  }

  /** What the loop over all ranges writes. */
  function FillAll(ranges: seq<Range>, room: nat): (r: seq<int>)
    ensures |r| <= room
  {
    if ranges == [] || room == 0 then []
    else
      var f := Fill(ranges[0].start, ranges[0].last, ranges[0].stride, room);
      f + FillAll(ranges[1..], room - |f|)
  }

  function Ints(s: seq<int>): (r: seq<int>)
    ensures |r| == |s|
  {
    seq(|s|, i requires 0 <= i < |s| => ToInt(s[i]))
  }

  lemma FillStep(v: int, last: int, stride: int, room: nat)
    requires room > 0
    ensures var rest := Fill(v, last, stride, room);
      && rest[0] == v
      && rest[1..] == if room > 1 && v + stride <= last then Fill(v + stride, last, stride, room - 1) else []
  {
  }

  /** The expansion of one range into the values from position k on. */
  method ExpandOne(a: array<int>, k0: nat, r: Range) returns (k: nat)
    requires k0 < a.Length
    modifies a
    ensures k == k0 + |Fill(r.start, r.last, r.stride, a.Length - k0)| <= a.Length
    ensures a[..k] == old(a[..k0]) + Ints(Fill(r.start, r.last, r.stride, a.Length - k0))
  {
    hide Fill, Ints;
    k := k0;
    var value := r.start;
    ghost var before, all := a[..k0], Fill(r.start, r.last, r.stride, a.Length - k0);
    ghost var rest := all;
    FirstInts(all);
    while true
      invariant k0 <= k < a.Length && rest == Fill(value, r.last, r.stride, a.Length - k)
      invariant k == k0 + |all| - |rest| && |rest| >= 1
      invariant a[..k] == before + Ints(all)[..|all| - |rest|] && rest == all[|all| - |rest|..]
      decreases |rest|
    {
      ghost var done := |all| - |rest|;
      FillStep(value, r.last, r.stride, a.Length - k);
      IntsAt(all, done);
      ghost var front := a[..k];
      a[k] := ToInt(value);
      assert a[..k] == front;
      k := k + 1;
      OneMore(before, Ints(all), done);
      value := value + r.stride;
      if !(k < a.Length && value <= r.last) {
        break;
      }
      rest := rest[1..];
    }
  }

  lemma OneMore(before: seq<int>, all: seq<int>, done: nat)
    requires done < |all|
    ensures before + all[..done] + [all[done]] == before + all[..done + 1]
  {
  }

  lemma FirstInts(s: seq<int>)
    ensures |Ints(s)| == |s| && Ints(s)[..0] == []
  {
  }

  lemma IntsAt(s: seq<int>, i: nat)
    requires i < |s|
    ensures Ints(s)[i] == ToInt(s[i])
  {
  }

  lemma IntsConcat(s: seq<int>, t: seq<int>)
    ensures Ints(s + t) == Ints(s) + Ints(t)
  {
  }

  /** The expansion loop: fills an array with the values of the first ranges, as far as it has room for them. */
  method Expand(ranges: seq<Range>, number: nat, total: nat) returns (a: array<int>, k: nat)
    requires number <= |ranges|
    ensures fresh(a) && a.Length == total && k == |FillAll(ranges[..number], total)|
    ensures a[..k] == Ints(FillAll(ranges[..number], total))
  {
    hide Fill, Ints, FillAll;
    a := new int[total];
    k := 0;
    var n := 0;
    ghost var used, done: seq<int> := ranges[..number], [];
    FirstInts([]);
    assert used[0..] == used && [] + FillAll(used, total) == FillAll(used, total);
    while k < total && n < number
      invariant 0 <= n <= number && k == |done| <= total && a[..k] == Ints(done)
      invariant FillAll(used, total) == done + FillAll(used[n..], total - k)
      decreases number - n
    {
      ghost var f := Fill(ranges[n].start, ranges[n].last, ranges[n].stride, total - k);
      FillNext(used, n, total - k, done);
      IntsConcat(done, f);
      k := ExpandOne(a, k, ranges[n]);
      done := done + f;
      n := n + 1;
    }
    NothingMore(used[n..], total - k);
    assert done + [] == done;
  }

  lemma FillNext(ranges: seq<Range>, n: nat, room: nat, done: seq<int>)
    requires n < |ranges| && room > 0
    ensures var f := Fill(ranges[n].start, ranges[n].last, ranges[n].stride, room);
      done + FillAll(ranges[n..], room) == done + f + FillAll(ranges[n + 1..], room - |f|)
  {
    hide Fill;
    assert ranges[n..][1..] == ranges[n + 1..] && ranges[n..][0] == ranges[n];
  }

  lemma NothingMore(ranges: seq<Range>, room: nat)
    requires ranges == [] || room == 0
    ensures FillAll(ranges, room) == []
  {
  }

  // ----- what the ranges stand for

  /** The values of a range. */
  function ExpandFrom(v: int, last: int, stride: int): (r: seq<int>)
    requires 0 < stride
    ensures |r| >= 1
    decreases last - v
  {
    [v] + if v + stride <= last then ExpandFrom(v + stride, last, stride) else []
  }

  /** The values of all ranges, whose strides are positive. */
  function ExpandEach(ranges: seq<Range>): seq<int>
    requires forall r :: r in ranges ==> 0 < r.stride
  {
    if ranges == [] then []
    else ExpandFrom(ranges[0].start, ranges[0].last, ranges[0].stride) + ExpandEach(ranges[1..])
  }

  lemma DivideUnique(x: int, d: int, q: int, r: int)
    requires 0 < d && x == d * q + r && 0 <= r < d
    ensures x / d == q
  {
    var p := x / d - q;
    assert d * p == r - x % d;
    assert p >= 1 ==> d * p >= d;
    assert p <= -1 ==> d * p <= -d;
  }

  /** A range has as many values as the parser counts. */
  lemma {:induction false} ExpandLength(v: int, last: int, stride: int)
    requires 0 < stride && v <= last
    ensures |ExpandFrom(v, last, stride)| == 1 + (last - v) / stride
    decreases last - v
  {
    if v + stride <= last {
      ExpandLength(v + stride, last, stride);
      var x := last - v - stride;
      DivideUnique(last - v, stride, x / stride + 1, x % stride);
    } else {
      DivideUnique(last - v, stride, 0, last - v);
    }
  }

  lemma {:induction false} FillIsExpand(v: int, last: int, stride: int, room: nat)
    requires 0 < stride && room >= |ExpandFrom(v, last, stride)|
    ensures Fill(v, last, stride, room) == ExpandFrom(v, last, stride)
    decreases last - v
  {
    if v + stride <= last {
      FillIsExpand(v + stride, last, stride, room - 1);
    }
  }

  lemma {:induction false} FillAllIsExpand(ranges: seq<Range>, room: nat)
    requires (forall r :: r in ranges ==> 0 < r.stride) && room >= |ExpandEach(ranges)|
    ensures FillAll(ranges, room) == ExpandEach(ranges)
  {
    hide Fill, ExpandFrom;
    if ranges != [] {
      var r := ranges[0];
      FillIsExpand(r.start, r.last, r.stride, room);
      FillAllIsExpand(ranges[1..], room - |ExpandFrom(r.start, r.last, r.stride)|);
    }
  }

  lemma {:induction false} TotalFront(r: Range, ranges: seq<Range>)
    ensures Total([r] + ranges) == Count(r) + Total(ranges)
  {
    hide Count;
    if ranges == [] {
      assert [r] + ranges == [r] && [r][..0] == [];
    } else {
      var n := |ranges| - 1;
      assert ([r] + ranges)[..|ranges|] == [r] + ranges[..n];
      TotalFront(r, ranges[..n]);
    }
  }

  /** The size of the array is the number of values. */
  lemma {:induction false} TotalIsLength(ranges: seq<Range>)
    requires forall r :: r in ranges ==> RangeOk(r) && 0 < r.stride
    ensures Total(ranges) == |ExpandEach(ranges)|
  {
    hide Total, ExpandFrom;
    if ranges == [] {
      NoTotal();
    } else {
      var r, rest := ranges[0], ranges[1..];
      assert ranges == [r] + rest && r in ranges;
      TotalFront(r, rest);
      ExpandLength(r.start, r.last, r.stride);
      TotalIsLength(rest);
    }
  }

  lemma NoTotal()
    ensures Total([]) == 0
  {
  }

  lemma {:induction false} TotalConcat(a: seq<Range>, b: seq<Range>)
    ensures Total(a + b) == Total(a) + Total(b)
  {
    hide Count;
    if b == [] {
      assert a + b == a;
    } else {
      var front := b[..|b| - 1];
      TotalConcat(a, front);
      assert (a + b)[..|a| + |b| - 1] == a + front;
    }
  }

  /** A range that can be stored: its stride is a long integer. */
  predicate Storable(r: Range) {
    RangeOk(r) && IsLong(r.stride)
  }

  lemma CountPositive(r: Range)
    requires Storable(r)
    ensures Count(r) >= 1
  {
    Quotient(r.last - r.start, Unsigned(r.stride));
  }

  lemma Quotient(x: int, d: int)
    requires 0 <= x && 0 < d
    ensures x / d >= 0
  {
  }

  lemma {:induction false} TotalAtLeast(ranges: seq<Range>)
    requires forall r :: r in ranges ==> Storable(r)
    ensures Total(ranges) >= |ranges|
  {
    hide Count, Storable;
    if ranges != [] {
      var front, r := ranges[..|ranges| - 1], ranges[|ranges| - 1];
      assert ranges == front + [r] && r in ranges;
      TotalAtLeast(front);
      CountPositive(r);
    }
  }

  lemma BoundIsLong(token: string, max: int)
    requires IsLong(max)
    ensures BoundOf(token, max).Some? ==> IsLong(BoundOf(token, max).value)
  {
    hide ReadInt;
    ReadIsLong(token);
  }

  lemma RangeIsStorable(tokens: seq<string>, max: int)
    requires IsLong(max) && ParseRange(tokens, max).Some?
    ensures Storable(ParseRange(tokens, max).value)
  {
    hide BoundOf;
    if |tokens| == 3 {
      BoundIsLong(tokens[1], max);
    }
  }

  lemma {:induction false} AllStorable(pieces: seq<string>, max: int)
    requires IsLong(max) && ParseAll(pieces, max).Some?
    ensures forall r :: r in ParseAll(pieces, max).value ==> Storable(r)
  {
    hide ParseRange, TokensFrom, Storable;
    if pieces != [] {
      AllStorable(pieces[..|pieces| - 1], max);
      RangeIsStorable(Tokens(pieces[|pieces| - 1], COLON), max);
    }
  }

  /** A range with a negative stride goes on until there is no room. */
  lemma {:induction false} NegativeFill(v: int, last: int, stride: int, room: nat)
    requires stride < 0 && v <= last && room > 0
    ensures |Fill(v, last, stride, room)| == room
    decreases room
  {
    if room > 1 {
      NegativeFill(v + stride, last, stride, room - 1);
    }
  }

  lemma {:induction false} NegativeFills(ranges: seq<Range>, room: nat)
    requires (forall r :: r in ranges ==> RangeOk(r)) && exists r :: r in ranges && r.stride < 0
    ensures |FillAll(ranges, room)| == room
  {
    hide Fill;
    if room > 0 {
      var r, rest := ranges[0], ranges[1..];
      assert ranges == [r] + rest && r in ranges;
      if r.stride < 0 {
        NegativeFill(r.start, r.last, r.stride, room);
      } else {
        NegativeFills(rest, room - |Fill(r.start, r.last, r.stride, room)|);
      }
    }
  }

  /** Ranges with positive strides, and room for more: the values of the ranges, and no others, are written. */
  lemma PositiveFills(used: seq<Range>, rest: seq<Range>)
    requires forall r :: r in used + rest ==> Storable(r)
    requires forall r :: r in used ==> 0 < r.stride
    ensures Total(used + rest) >= Total(used) + |rest| && Total(used) == |ExpandEach(used)|
    ensures FillAll(used, Total(used + rest)) == ExpandEach(used)
  {
    hide Total, FillAll, ExpandEach;
    assert forall r :: r in used || r in rest ==> r in used + rest;
    TotalConcat(used, rest);
    TotalAtLeast(rest);
    TotalIsLength(used);
    FillAllIsExpand(used, Total(used + rest));
  }

  /**
   * What OPH_FOR writes for a text, for all texts that can be parsed: the array has the size of all ranges and gets
   * the values of the used ones, so that it is filled if and only if no piece of the text is empty (or a used range
   * has a negative stride, which goes on until the array is full). With positive strides it holds exactly the values
   * of the used ranges, in order.
   */
  lemma FilledIff(text: string, max: int)
    requires IsLong(max) && Parse(text, max).Some?
    ensures var all, used := Parse(text, max).value, Used(text, max);
      && Total(all) >= |all|
      && (|FillAll(used, Total(all))| == Total(all) <==>
            "" !in Pieces(text, COMMA) || exists r :: r in used && r.stride < 0)
      && ((forall r :: r in used ==> 0 < r.stride) ==> FillAll(used, Total(all)) == ExpandEach(used))
  {
    hide Total, FillAll, ExpandEach, TokensFrom, PiecesFrom, ParseAll, Storable;
    var all, used := Parse(text, max).value, Used(text, max);
    NumberFits(text, max);
    AllStorable(Pieces(text, COMMA), max);
    TotalAtLeast(all);
    var rest := all[Number(text)..];
    assert all == used + rest;
    if exists r :: r in used && r.stride < 0 {
      NegativeFills(used, Total(all));
    } else {
      assert forall r :: r in used ==> r in all && RangeOk(r) && 0 < r.stride;
      PositiveFills(used, rest);
      assert rest == [] ==> used == all;
    }
  }

  /** If all ranges are used, and their strides are positive, the array holds exactly their values. */
  lemma ExpandsAll(ranges: seq<Range>)
    requires forall r :: r in ranges ==> RangeOk(r) && 0 < r.stride
    ensures Total(ranges) >= 0 && FillAll(ranges, Total(ranges)) == ExpandEach(ranges)
    ensures |ExpandEach(ranges)| == Total(ranges)
  {
    TotalIsLength(ranges);
    FillAllIsExpand(ranges, |ExpandEach(ranges)|);
  }

  lemma {:induction false} ParsePrefix(pieces: seq<string>, k: nat, max: int)
    requires ParseAll(pieces, max).Some? && k <= |pieces|
    ensures ParseAll(pieces[..k], max) == Some(ParseAll(pieces, max).value[..k])
  {
    hide ParseRange, TokensFrom;
    if k == |pieces| {
      var all := ParseAll(pieces, max).value;
      assert pieces[..k] == pieces && all[..k] == all;
    } else {
      var n := |pieces| - 1;
      ParsePrefix(pieces[..n], k, max);
      assert pieces[..n][..k] == pieces[..k];
      var front, last := ParseAll(pieces[..n], max).value, ParseAll(pieces, max).value[n];
      assert (front + [last])[..k] == front[..k];
    }
  }

  /**
   * The used ranges are those of the first pieces. They are the ranges of the pieces that are not empty if and only
   * if no empty piece comes before one that is not.
   */
  lemma UsedPieces(text: string, max: int)
    requires Parse(text, max).Some?
    ensures var pieces, n := Pieces(text, COMMA), Number(text);
      && n <= |pieces| && ParseAll(pieces[..n], max) == Some(Used(text, max))
      && (pieces[..n] == Tokens(text, COMMA) <==> "" !in pieces[..n])
  {
    hide ParseAll, TokensFrom, PiecesFrom;
    var pieces, n := Pieces(text, COMMA), Number(text);
    NumberFits(text, max);
    ParsePrefix(pieces, n, max);
    TokensAreNonEmpty("", text, COMMA);
    AllNonEmpty(pieces);
    AllNonEmpty(pieces[..n]);
    NonEmptyConcat(pieces[..n], pieces[n..]);
    assert pieces == pieces[..n] + pieces[n..];
  }

  lemma ShowClean(n: int, c: char)
    requires c != '-' && !IsDigit(c)
    ensures !Contains(Show(n), c)
  {
  }

  lemma NotTheWord(n: int)
    ensures |Show(n)| >= 3 ==> Lower(Show(n)[..3]) != "end"
  {
    var s := Show(n);
    assert s[0] == '-' || IsDigit(s[0]);
    if |s| >= 3 {
      assert Lower(s[..3])[0] == LowerChar(s[0]);
      assert "end"[0] == 'e';
    }
  }

  lemma BoundIsRead(n: int, max: int)
    requires LLONG_MIN <= n <= LLONG_MAX
    ensures BoundOf(Show(n), max) == Some(n)
  {
    hide Show, ReadInt, Lower;
    NotTheWord(n);
    ReadShown(n);
  }

  // ----- how a range is written

  /** A bound of a range as it is written: a number, or the word for the end in capitals or small letters. */
  datatype Bound = Num(n: int) | Word(word: string)

  predicate BoundOk(b: Bound) {
    match b
    case Num(n) => IsLong(n)
    case Word(w) => |w| == 3 && w[0] in "eE" && w[1] in "nN" && w[2] in "dD"
  }

  function BoundText(b: Bound): string {
    match b
    case Num(n) => Show(n)
    case Word(w) => w
  }

  /** What a bound stands for; the end must be known. */
  function Meant(b: Bound, max: int): Option<int> {
    match b
    case Num(n) => Some(n)
    case Word(_) => if max == 0 then None else Some(max)
  }

  lemma BoundIsMeant(b: Bound, max: int)
    requires BoundOk(b)
    ensures BoundOf(BoundText(b), max) == Meant(b, max)
    ensures BoundText(b) != "" && !Contains(BoundText(b), COLON) && !Contains(BoundText(b), COMMA)
  {
    match b
    case Num(n) =>
      hide Show, ReadInt, Lower;
      BoundIsRead(n, max);
      ShowClean(n, COLON);
      ShowClean(n, COMMA);
    case Word(w) =>
      assert w[..3] == w;
      assert Lower(w) == [LowerChar(w[0]), LowerChar(w[1]), LowerChar(w[2])] == ['e', 'n', 'd'] == "end";
  }

  /** The range that is meant, if its start, end and stride are. */
  function RangeMeant(start: Option<int>, last: Option<int>, stride: Option<int>): Option<seq<Range>> {
    if start == None || last == None || stride == None then None
    else if stride.value == 0 || start.value > last.value then None
    else Some([Range(start.value, last.value, stride.value)])
  }

  /** A text without commas is one range. */
  lemma ParseSingle(text: string, max: int)
    requires text != "" && !Contains(text, COMMA)
    ensures var r := ParseRange(Tokens(text, COLON), max);
      Parse(text, max) == if r == None then None else Some([r.value])
  {
    hide ParseRange, TokensFrom, PiecesFrom, ParseAll;
    OneToken("", text, COMMA);
    OnePiece("", text, COMMA);
    assert "" + text == text;
    NothingParsed(max);
    ParseSnoc([], text, max);
    assert [] + [text] == [text];
    var r := ParseRange(Tokens(text, COLON), max);
    assert r.Some? ==> [] + [r.value] == [r.value];
  }

  /** The pieces of some bounds, separated by colons. */
  function WithColons(bounds: seq<Bound>): string {
    if bounds == [] then ""
    else if |bounds| == 1 then BoundText(bounds[0])
    else BoundText(bounds[0]) + ":" + WithColons(bounds[1..])
  }

  function Texts(bounds: seq<Bound>): (r: seq<string>)
    ensures |r| == |bounds|
  {
    seq(|bounds|, i requires 0 <= i < |bounds| => BoundText(bounds[i]))
  }

  lemma {:induction false} ColonPieces(bounds: seq<Bound>)
    requires bounds != [] && forall b :: b in bounds ==> BoundOk(b)
    ensures Tokens(WithColons(bounds), COLON) == Texts(bounds)
    ensures WithColons(bounds) != "" && !Contains(WithColons(bounds), COMMA)
  {
    hide TokensFrom, BoundText, BoundOf, BoundOk;
    var b, rest := bounds[0], bounds[1..];
    assert b in bounds;
    BoundIsMeant(b, 0);
    OneToken("", BoundText(b), COLON);
    assert "" + BoundText(b) == BoundText(b);
    if rest == [] {
      assert Texts(bounds) == [BoundText(b)];
    } else {
      ColonPieces(rest);
      SplitTokens("", BoundText(b), WithColons(rest), COLON);
      assert BoundText(b) + [COLON] + WithColons(rest) == BoundText(b) + ":" + WithColons(rest);
      assert Texts(bounds) == [BoundText(b)] + Texts(rest);
    }
  }

  /**
   * What the parser reads, for all bounds: one bound is a value, two are the start and the end with stride 1, three
   * are the start, the stride and the end, and more are an error. The word for the end stands for the largest value
   * in any place, and is an error if that is not known. A stride of zero and an end before the start are errors.
   */
  lemma BoundsAreRead(bounds: seq<Bound>, max: int)
    requires bounds != [] && forall b :: b in bounds ==> BoundOk(b)
    ensures Parse(WithColons(bounds), max) ==
      if |bounds| == 1 then RangeMeant(Meant(bounds[0], max), Meant(bounds[0], max), Some(1))
      else if |bounds| == 2 then RangeMeant(Meant(bounds[0], max), Meant(bounds[1], max), Some(1))
      else if |bounds| == 3 then RangeMeant(Meant(bounds[0], max), Meant(bounds[2], max), Meant(bounds[1], max))
      else None
  {
    hide TokensFrom, Parse, BoundText, BoundOf, BoundOk, WithColons;
    ColonPieces(bounds);
    ParseSingle(WithColons(bounds), max);
    forall i | 0 <= i < |bounds|
      ensures BoundOf(Texts(bounds)[i], max) == Meant(bounds[i], max)
    {
      assert bounds[i] in bounds;
      BoundIsMeant(bounds[i], max);
    }
  }

  /** Three numbers with colons between them are start, stride and end. */
  lemma StartStrideEnd(a: int, s: int, b: int, max: int)
    requires IsLong(a) && IsLong(s) && IsLong(b) && a <= b && s != 0
    ensures Parse(Show(a) + ":" + Show(s) + ":" + Show(b), max) == Some([Range(a, b, s)])
    ensures Parse(Show(a) + ":" + Show(b), max) == Some([Range(a, b, 1)])
  {
    hide Show, Parse, BoundOf;
    var three, two := [Num(a), Num(s), Num(b)], [Num(a), Num(b)];
    BoundsAreRead(three, max);
    BoundsAreRead(two, max);
    assert three[1..] == [Num(s), Num(b)] && [Num(s), Num(b)][1..] == [Num(b)] && two[1..] == [Num(b)];
    assert WithColons([Num(b)]) == Show(b);
    assert WithColons([Num(s), Num(b)]) == Show(s) + ":" + Show(b);
    assert Show(a) + ":" + (Show(s) + ":" + Show(b)) == Show(a) + ":" + Show(s) + ":" + Show(b);
  }

  /** A negative stride counts a range once, unless it is as long as all integers. */
  lemma NegativeCount(r: Range)
    requires r.stride < 0 && 0 <= r.last - r.start < 0x1_0000_0000_0000_0000 + r.stride
    ensures Count(r) == 1
  {
    DivideUnique(r.last - r.start, Unsigned(r.stride), 0, r.last - r.start);
  }

  // ----- two texts with an empty piece

  lemma PiecesOf(a: string, b: string, c: string)
    requires !Contains(a, COMMA) && !Contains(b, COMMA) && !Contains(c, COMMA)
    ensures Pieces(a + [COMMA] + (b + [COMMA] + c), COMMA) == [a, b, c]
    ensures Tokens(a + [COMMA] + (b + [COMMA] + c), COMMA) == NonEmpty([a, b, c])
  {
    hide TokensFrom, PiecesFrom;
    var text := a + [COMMA] + (b + [COMMA] + c);
    OnePiece("", a, COMMA);
    OnePiece("", b, COMMA);
    OnePiece("", c, COMMA);
    SplitPieces("", a, b + [COMMA] + c, COMMA);
    SplitPieces("", b, c, COMMA);
    assert "" + a == a && "" + b == b && "" + c == c && [a] + ([b] + [c]) == [a, b, c];
    assert Pieces(text, COMMA) == [a, b, c];
    TokensAreNonEmpty("", text, COMMA);
  }

  lemma ParseThree(a: string, b: string, c: string, max: int, x: Range, y: Range, z: Range)
    requires ParseRange(Tokens(a, COLON), max) == Some(x) && ParseRange(Tokens(b, COLON), max) == Some(y)
    requires ParseRange(Tokens(c, COLON), max) == Some(z)
    ensures ParseAll([a, b, c], max) == Some([x, y, z])
  {
    hide ParseRange, TokensFrom, ParseAll;
    NothingParsed(max);
    ParseSnoc([], a, max);
    ParseSnoc([a], b, max);
    ParseSnoc([a, b], c, max);
    assert [] + [a] == [a] && [a] + [b] == [a, b] && [a, b] + [c] == [a, b, c];
    assert [] + [x] == [x] && [x] + [y] == [x, y] && [x, y] + [z] == [x, y, z];
  }

  /** A digit, and an empty piece, as ranges. */
  lemma DigitIsRange(c: char, max: int)
    requires IsDigit(c)
    ensures var n := ValueOf(c); ParseRange(Tokens([c], COLON), max) == Some(Range(n, n, 1))
    ensures ParseRange(Tokens("", COLON), max) ==
      if max < 0 then None else Some(Range(1, if max == 0 then 1 else max, 1))
  {
    OneToken("", [c], COLON);
    OneToken("", "", COLON);
    assert "" + [c] == [c] && "" + "" == "";
    assert [c][1..] == "" && ReadDigits("", ValueOf(c)) == ValueOf(c);
    assert ReadDigits([c], 0) == ValueOf(c);
    assert [c] != "" && !IsSpace([c][0]) && [c][0] != '-' && [c][0] != '+';
    assert ReadInt([c]) == Clamp(ReadDigits([c], 0));
  }

  /** In "1,,5" the empty piece counts as a range of its own, and the last range is not used. */
  lemma LastRangeIsLost()
    ensures Parse("1,,5", 0) == Some([Range(1, 1, 1), Range(1, 1, 1), Range(5, 5, 1)])
    ensures Used("1,,5", 0) == [Range(1, 1, 1), Range(1, 1, 1)]
  {
    hide ParseRange, TokensFrom, PiecesFrom, ParseAll;
    assert "1" + [COMMA] + ("" + [COMMA] + "5") == "1,,5";
    PiecesOf("1", "", "5");
    DigitIsRange('1', 0);
    DigitIsRange('5', 0);
    ParseThree("1", "", "5", 0, Range(1, 1, 1), Range(1, 1, 1), Range(5, 5, 1));
    TwoOfThree("1", "", "5");
  }

  lemma TwoOfThree(a: string, b: string, c: string)
    requires a != "" && (b == "" <==> c != "")
    ensures |NonEmpty([a, b, c])| == 2
  {
    assert [a, b, c][1..] == [b, c] && [b, c][1..] == [c] && [c][1..] == [];
    assert NonEmpty([c]) == if c == "" then [] else [c];
  }

  /** In "1,5," with nine values the empty piece adds nine to the size of the array, and only two values are written. */
  lemma ArrayIsNotFilled()
    ensures Parse("1,5,", 9) == Some([Range(1, 1, 1), Range(5, 5, 1), Range(1, 9, 1)])
    ensures Used("1,5,", 9) == [Range(1, 1, 1), Range(5, 5, 1)] && Total(Parse("1,5,", 9).value) == 11
    ensures FillAll(Used("1,5,", 9), 11) == [1, 5]
  {
    hide ParseRange, TokensFrom, PiecesFrom, ParseAll, Total, FillAll;
    assert "1" + [COMMA] + ("5" + [COMMA] + "") == "1,5,";
    PiecesOf("1", "5", "");
    DigitIsRange('1', 9);
    DigitIsRange('5', 9);
    ParseThree("1", "5", "", 9, Range(1, 1, 1), Range(5, 5, 1), Range(1, 9, 1));
    TwoOfThree("1", "5", "");
    TotalOfThree(Range(1, 1, 1), Range(5, 5, 1), Range(1, 9, 1));
    FillOfTwo();
  }

  lemma TotalOfThree(x: Range, y: Range, z: Range)
    ensures Total([x, y, z]) == Count(x) + Count(y) + Count(z)
  {
    hide Count, Total;
    NothingParsed(0);
    TotalSnoc([], x);
    TotalSnoc([x], y);
    TotalSnoc([x, y], z);
    assert [] + [x] == [x] && [x] + [y] == [x, y] && [x, y] + [z] == [x, y, z];
  }

  lemma FillOfTwo()
    ensures FillAll([Range(1, 1, 1), Range(5, 5, 1)], 11) == [1, 5]
  {
    var s := [Range(1, 1, 1), Range(5, 5, 1)];
    assert s[1..] == [Range(5, 5, 1)] && [Range(5, 5, 1)][1..] == [];
    assert Fill(1, 1, 1, 11) == [1] && Fill(5, 5, 1, 10) == [5];
    assert FillAll([Range(5, 5, 1)], 10) == [5];
  }
}
