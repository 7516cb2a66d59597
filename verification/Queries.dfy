/**
 * A whole query: the filters that are appended one after the other to the condition of the join, and the rows that
 * the final text selects.
 */
module Queries {
  import opened Options
  import opened Text
  import opened Ranges
  import opened Folders
  import opened FolderPaths
  import opened Subfolders
  import opened Clauses
  import opened ClauseReader
  import opened Filters

  /** One filter of a query; an empty argument stands for a filter that is not given. */
  datatype Filter =
    | ByLevel(value: string, negated: bool)
    | BySubset(value: string, negated: bool)
    | ByPath(path: string, recursive: Option<string>, depth: Option<string>, negated: bool)

  /** The folders of the database and the home folder of the session. */
  datatype World = World(tree: Tree, rows: Rows, session: Option<int>) {
    ghost predicate Ok() {
      RowsOf(tree, rows)
    }
  }

  predicate Given(f: Filter) {
    if f.ByPath? then f.path != "" else f.value != ""
  }

  /** The argument can be read, and for a path it leads to a folder in the home of the session. */
  ghost predicate Readable(w: World, f: Filter)
    requires w.Ok()
  {
    match f
    case ByLevel(value, _) => KeysOf(value).Some?
    case BySubset(value, _) => RangesOf(value).Some?
    case ByPath(path, _, _, _) => Allowed(w.tree, path, w.session)
  }

  ghost function GroupOf(w: World, f: Filter): Group
    requires w.Ok() && Readable(w, f)
  {
    match f
    case ByLevel(value, negated) => Group(negated, Levels(KeysOf(value).value))
    case BySubset(value, negated) => Group(negated, Subsets(RangesOf(value).value))
    case ByPath(path, recursive, depth, negated) => PathGroup(w.tree, w.rows, path, recursive, depth, negated)
  }

  // ----- what a filter asks for

  /** A value of the range. */
  ghost predicate InRange(id: int, x: Range) {
    id <= x.last && exists k: nat :: id == x.start + k * x.stride
  }

  /** The row meets what the filter asks for, before it is negated. */
  ghost predicate Matches(w: World, f: Filter, r: Row)
    requires w.Ok() && Readable(w, f)
  {
    match f
    case ByLevel(value, _) => exists key :: key in KeysOf(value).value && r.level == ToInt(ReadInt(key))
    case BySubset(value, _) => exists x :: x in RangesOf(value).value && InRange(r.id, x)
    case ByPath(path, recursive, depth, _) =>
      Wanted(w.tree, Target(w.tree, "", path, false).value.1, RecursiveFlag(recursive, depth), r.folder)
  }

  lemma LevelsMean(keys: seq<string>, r: Row)
    ensures (exists a :: a in Levels(keys) && AtomHolds(a, r)) <==>
            (exists key :: key in keys && r.level == ToInt(ReadInt(key)))
  {
    hide ReadInt;
    forall a | a in Levels(keys) && AtomHolds(a, r)
      ensures exists key :: key in keys && r.level == ToInt(ReadInt(key))
    {
      var i :| 0 <= i < |keys| && Levels(keys)[i] == a;
      assert keys[i] in keys;
    }
    forall key | key in keys && r.level == ToInt(ReadInt(key))
      ensures exists a :: a in Levels(keys) && AtomHolds(a, r)
    {
      var i :| 0 <= i < |keys| && keys[i] == key;
      assert Levels(keys)[i] in Levels(keys) && AtomHolds(Levels(keys)[i], r);
    }
  }

  lemma SubsetsMean(ranges: seq<Range>, r: Row)
    ensures (exists a :: a in Subsets(ranges) && AtomHolds(a, r)) <==> exists x :: x in ranges && InRange(r.id, x)
  {
    forall a | a in Subsets(ranges) && AtomHolds(a, r)
      ensures exists x :: x in ranges && InRange(r.id, x)
    {
      var i :| 0 <= i < |ranges| && Subsets(ranges)[i] == a;
      SubsetMeans(ranges[i], r);
      assert ranges[i] in ranges;
    }
    forall x | x in ranges && InRange(r.id, x)
      ensures exists a :: a in Subsets(ranges) && AtomHolds(a, r)
    {
      var i :| 0 <= i < |ranges| && ranges[i] == x;
      SubsetMeans(x, r);
      assert Subsets(ranges)[i] in Subsets(ranges);
    }
  }

  lemma SubsetMeans(x: Range, r: Row)
    ensures AtomHolds(Subset(x.start, x.stride, x.last), r) <==> InRange(r.id, x)
  {
  }

  /** The clause of a filter holds for the rows that it asks for, or with negation for all others. */
  lemma GroupMeans(w: World, f: Filter, r: Row)
    requires w.Ok() && Readable(w, f)
    ensures GroupHolds(GroupOf(w, f), r) <==> Matches(w, f, r) != f.negated
    ensures GroupOf(w, f).atoms != []
  {
    hide ChainHolds, Levels, Subsets, InRange, AtomHolds, KeysOf, RangesOf, RowsOf, Allowed, Wanted, Target;
    match f
    case ByLevel(value, negated) =>
      LevelsKept(KeysOf(value).value);
      LevelsMean(KeysOf(value).value, r);
      ChainMeans(Levels(KeysOf(value).value), negated, r);
    case BySubset(value, negated) =>
      SubsetsMean(RangesOf(value).value, r);
      ChainMeans(Subsets(RangesOf(value).value), negated, r);
    case ByPath(path, recursive, depth, negated) =>
      PathFilterMeans(w.tree, w.rows, path, recursive, depth, w.session, negated, r);
      PathGroupNotEmpty(w.tree, w.rows, path, recursive, depth, w.session, negated);
  }

  lemma PathGroupNotEmpty(t: Tree, rows: Rows, path: string, recursive: Option<string>, depth: Option<string>,
                          session: Option<int>, negated: bool)
    requires RowsOf(t, rows) && Allowed(t, path, session)
    ensures PathGroup(t, rows, path, recursive, depth, negated).atoms != []
  {
    hide Target, Under, ListedAll;
  }

  // ----- the arguments as they are written

  function Shown(ns: seq<int>): (r: seq<string>)
    ensures |r| == |ns|
  {
    seq(|ns|, i requires 0 <= i < |ns| => Show(ns[i]))
  }

  lemma {:induction false} JoinedHas(pieces: seq<string>, sep: char, c: char)
    requires c != sep && forall x :: x in pieces ==> c !in x
    ensures c !in JoinedBy(pieces, sep)
  {
    if pieces != [] {
      var front, last := pieces[..|pieces| - 1], pieces[|pieces| - 1];
      assert pieces == front + [last] && last in pieces;
      JoinedHas(front, sep, c);
    }
  }

  lemma {:induction false} JoinedNotEmpty(pieces: seq<string>, sep: char)
    requires pieces != [] && forall x :: x in pieces ==> x != ""
    ensures JoinedBy(pieces, sep) != ""
  {
    assert pieces[|pieces| - 1] in pieces;
  }

  /**
   * A level filter whose argument is a list of levels, separated by bars, selects exactly the rows with one of these
   * levels, or with negation the others; an argument with an equals sign or a semicolon is refused.
   */
  lemma LevelArgumentsMean(w: World, levels: seq<int>, negated: bool, r: Row)
    requires w.Ok() && levels != [] && forall n :: n in levels ==> -0x8000_0000 <= n < 0x8000_0000
    ensures var f := ByLevel(JoinedBy(Shown(levels), '|'), negated);
      && Given(f) && Readable(w, f) && (GroupHolds(GroupOf(w, f), r) <==> (r.level in levels) != negated)
    ensures forall value :: '=' in value || ';' in value ==> !Readable(w, ByLevel(value, negated))
  {
    hide Show, ReadInt, GroupHolds, GroupOf, PiecesFrom;
    var keys := Shown(levels);
    var value := JoinedBy(keys, '|');
    forall key | key in keys
      ensures key != "" && '|' !in key && '=' !in key && ';' !in key
    {
      var i :| 0 <= i < |levels| && keys[i] == key;
      ShowClean(levels[i], '|');
      ShowClean(levels[i], '=');
      ShowClean(levels[i], ';');
    }
    JoinedPieces(keys, '|');
    JoinedHas(keys, '|', '=');
    JoinedHas(keys, '|', ';');
    JoinedNotEmpty(keys, '|');
    GroupMeans(w, ByLevel(value, negated), r);
    forall key | key in keys
      ensures ToInt(ReadInt(key)) in levels
    {
      var i :| 0 <= i < |levels| && keys[i] == key;
      assert levels[i] in levels;
      ReadShown(levels[i]);
    }
    if r.level in levels {
      var i :| 0 <= i < |levels| && levels[i] == r.level;
      ReadShown(levels[i]);
      assert keys[i] in keys && r.level == ToInt(ReadInt(keys[i]));
    }
  }

  /** A range of ids, written as start, stride and end. */
  datatype Span = Span(start: int, stride: int, last: int)

  predicate SpanOk(x: Span) {
    IsLong(x.start) && IsLong(x.stride) && IsLong(x.last) && x.start <= x.last && x.stride != 0
  }

  /** The id is reached from the start in steps, up to the end. */
  ghost predicate Within(x: Span, id: int) {
    id <= x.last && exists k: nat :: id == x.start + k * x.stride
  }

  function SpanText(x: Span): string {
    Show(x.start) + ":" + Show(x.stride) + ":" + Show(x.last)
  }

  function SpanTexts(spans: seq<Span>): (r: seq<string>)
    ensures |r| == |spans|
  {
    seq(|spans|, i requires 0 <= i < |spans| => SpanText(spans[i]))
  }

  function SpanRanges(spans: seq<Span>): (r: seq<Range>)
    ensures |r| == |spans|
  {
    seq(|spans|, i requires 0 <= i < |spans| => Range(spans[i].start, spans[i].last, spans[i].stride))
  }

  lemma SpanIsRead(x: Span)
    requires SpanOk(x)
    ensures ParseRange(Tokens(SpanText(x), COLON), 0) == Some(Range(x.start, x.last, x.stride))
    ensures SpanText(x) != "" && '|' !in SpanText(x) && COMMA !in SpanText(x)
  {
    hide Show, Parse, ParseRange, TokensFrom;
    ShowClean(x.start, '|');
    ShowClean(x.stride, '|');
    ShowClean(x.last, '|');
    ShowClean(x.start, COMMA);
    ShowClean(x.stride, COMMA);
    ShowClean(x.last, COMMA);
    StartStrideEnd(x.start, x.stride, x.last, 0);
    ParseSingle(SpanText(x), 0);
  }

  lemma {:induction false} SpansAreRead(spans: seq<Span>)
    requires forall x :: x in spans ==> SpanOk(x)
    ensures ParseAll(SpanTexts(spans), 0) == Some(SpanRanges(spans))
  {
    hide SpanText, ParseRange, TokensFrom, SpanOk, ParseAll;
    if spans == [] {
      NothingParsed(0);
      assert SpanTexts(spans) == [] && SpanRanges(spans) == [];
    } else {
      var front, x := spans[..|spans| - 1], spans[|spans| - 1];
      assert spans == front + [x] && x in spans;
      SpansAreRead(front);
      SpanIsRead(x);
      ParseSnoc(SpanTexts(front), SpanText(x), 0);
      assert SpanTexts(spans) == SpanTexts(front) + [SpanText(x)];
      assert SpanRanges(spans) == SpanRanges(front) + [Range(x.start, x.last, x.stride)];
    }
  }

  /** Bars in the argument are read as commas. */
  lemma {:induction false} CommasJoin(pieces: seq<string>)
    requires forall x :: x in pieces ==> '|' !in x
    ensures WithCommas(JoinedBy(pieces, '|')) == JoinedBy(pieces, COMMA)
  {
    if pieces != [] {
      var front, last := pieces[..|pieces| - 1], pieces[|pieces| - 1];
      assert pieces == front + [last] && last in pieces;
      CommasJoin(front);
      assert WithCommas(last) == last;
      CommasConcat(JoinedBy(front, '|'), last);
    }
  }

  lemma CommasConcat(a: string, b: string)
    ensures WithCommas(a + ['|'] + b) == WithCommas(a) + [COMMA] + WithCommas(b)
  {
  }

  /** All ranges of such an argument are used. */
  lemma SpansAreUsed(spans: seq<Span>)
    requires spans != [] && forall x :: x in spans ==> SpanOk(x)
    ensures RangesOf(JoinedBy(SpanTexts(spans), '|')) == Some(SpanRanges(spans))
    ensures JoinedBy(SpanTexts(spans), '|') != ""
  {
    hide SpanText, SpanOk, ParseAll, TokensFrom, PiecesFrom, NonEmpty, WithCommas;
    var texts := SpanTexts(spans);
    forall text | text in texts
      ensures text != "" && '|' !in text && COMMA !in text
    {
      var i :| 0 <= i < |spans| && texts[i] == text;
      assert spans[i] in spans;
      SpanIsRead(spans[i]);
    }
    JoinedNotEmpty(texts, '|');
    CommasJoin(texts);
    var value := JoinedBy(texts, COMMA);
    JoinedPieces(texts, COMMA);
    TokensAreNonEmpty("", value, COMMA);
    AllNonEmpty(texts);
    SpansAreRead(spans);
    NumberFits(value, 0);
    assert SpanRanges(spans)[..|spans|] == SpanRanges(spans);
  }

  /**
   * A cube filter whose argument is a list of ranges, each written as start, stride and end, separated by bars, selects
   * exactly the rows whose id is reached from the start of a range in steps, up to its end; with negation the others.
   */
  lemma SubsetArgumentsMean(w: World, spans: seq<Span>, negated: bool, r: Row)
    requires w.Ok() && spans != [] && forall x :: x in spans ==> SpanOk(x)
    ensures var f := BySubset(JoinedBy(SpanTexts(spans), '|'), negated);
      && Given(f) && Readable(w, f)
      && (GroupHolds(GroupOf(w, f), r) <==>
            (exists x :: x in spans && Within(x, r.id)) != negated)
  {
    hide SpanOk, GroupHolds, GroupOf, RangesOf, SpanText;
    SpansAreUsed(spans);
    var f := BySubset(JoinedBy(SpanTexts(spans), '|'), negated);
    GroupMeans(w, f, r);
    InSpans(spans, r.id);
  }

  lemma InSpans(spans: seq<Span>, id: int)
    ensures (exists x :: x in SpanRanges(spans) && InRange(id, x)) <==> (exists x :: x in spans && Within(x, id))
  {
    forall x | x in SpanRanges(spans) && InRange(id, x)
      ensures exists y :: y in spans && Within(y, id)
    {
      var i :| 0 <= i < |spans| && SpanRanges(spans)[i] == x;
      assert spans[i] in spans && Within(spans[i], id);
    }
    forall y | y in spans && Within(y, id)
      ensures exists x :: x in SpanRanges(spans) && InRange(id, x)
    {
      var i :| 0 <= i < |spans| && spans[i] == y;
      assert SpanRanges(spans)[i] in SpanRanges(spans) && InRange(id, SpanRanges(spans)[i]);
    }
  }

  // ----- the query

  /** Calls one filter: it adds its clause, nothing if it is not given, or fails. */
  method Apply(q: Query, w: World, f: Filter) returns (ok: bool)
    requires w.Ok() && |q.where| < MAX_STRING
    modifies q
    ensures |q.where| < MAX_STRING
    ensures !Given(f) ==> ok && q.where == old(q.where)
    ensures Given(f) ==> (ok <==> Readable(w, f) && |Extended(old(q.where), GroupOf(w, f))| <= MAX_STRING - 2)
    ensures Given(f) && ok ==> q.where == Extended(old(q.where), GroupOf(w, f))
  {
    hide Extended, Levels, Subsets, KeysOf, RangesOf, Allowed, PathGroup, RowsOf, Grown;
    match f {
      case ByLevel(value, negated) => ok := q.FilterLevel(value, negated);
      case BySubset(value, negated) => ok := q.FilterUsingSubset(value, negated);
      case ByPath(path, recursive, depth, negated) =>
        ok := q.FilterPath(w.tree, w.rows, path, recursive, depth, w.session, negated);
    }
    GrownBounded(old(q.where), q.where);
  }

  /** The clauses of the filters that are given, which must be readable. */
  ghost function GroupsOf(w: World, filters: seq<Filter>): seq<Group>
    requires w.Ok() && forall f :: f in filters && Given(f) ==> Readable(w, f)
  {
    if filters == [] then []
    else
      var f := filters[|filters| - 1];
      GroupsOf(w, filters[..|filters| - 1]) + if Given(f) then [GroupOf(w, f)] else []
  }

  /** The row is one of a data cube with its own container, and meets every filter that is given. */
  ghost predicate Selected(w: World, filters: seq<Filter>, r: Row)
    requires w.Ok() && forall f :: f in filters && Given(f) ==> Readable(w, f)
  {
    r.owner == r.container && forall f :: f in filters && Given(f) ==> Matches(w, f, r) != f.negated
  }

  lemma {:induction false} GroupsMean(w: World, filters: seq<Filter>, r: Row)
    requires w.Ok() && forall f :: f in filters && Given(f) ==> Readable(w, f)
    ensures forall g :: g in GroupsOf(w, filters) ==> g.atoms != []
    ensures (forall g :: g in GroupsOf(w, filters) ==> GroupHolds(g, r)) <==>
            (forall f :: f in filters && Given(f) ==> Matches(w, f, r) != f.negated)
  {
    hide GroupHolds, Matches, GroupOf, Readable, Given;
    if filters != [] {
      var front, f := filters[..|filters| - 1], filters[|filters| - 1];
      assert filters == front + [f] && f in filters;
      GroupsMean(w, front, r);
      if Given(f) {
        GroupMeans(w, f, r);
        var groups := GroupsOf(w, front);
        assert (groups + [GroupOf(w, f)])[|groups|] == GroupOf(w, f);
      }
    }
  }

  const SELECT := "SELECT DISTINCT datacube.iddatacube, datacube.idcontainer FROM datacube,container WHERE "

  /** The text of the query, as it is stored in its buffer. */
  function QueryText(where: string): (r: string)
    ensures |r| < MAX_STRING
  {
    var text := SELECT + where;
    if |text| < MAX_STRING then text else text[..MAX_STRING - 1]
  }

  /** The query has the whole clause exactly if there is room for it behind the rest of the query. */
  lemma QueryIsWhole(where: string)
    ensures QueryText(where) == SELECT + where <==> |where| < MAX_STRING - |SELECT|
    ensures SELECT == "SELECT DISTINCT datacube.iddatacube, datacube.idcontainer FROM datacube,container WHERE "
  {
  }

  /**
   * Runs the filters of a query. If all of them succeed, the text selects exactly the rows of data cubes with their
   * own containers that meet every filter; the query has the whole text exactly if there is room for it.
   */
  method RunFilters(w: World, filters: seq<Filter>) returns (ok: bool, where: string, query: string)
    requires w.Ok()
    ensures ok ==> forall f :: f in filters && Given(f) ==> Readable(w, f)
    ensures ok ==> where == WhereText(true, GroupsOf(w, filters)) && |where| < MAX_STRING
    ensures ok ==> forall r :: TextHolds(where, r) <==> Selected(w, filters, r)
    ensures ok ==> (query == SELECT + where <==> |where| < MAX_STRING - |SELECT|)
  {
    hide QueryText, Readable, Given, GroupOf, WhereText, Extended, GroupHolds, Matches, TextHolds;
    var q := new Query();
    var i := 0;
    ok := true;
    while i < |filters|
      invariant 0 <= i <= |filters| && ok && |q.where| < MAX_STRING && fresh(q)
      invariant forall f :: f in filters[..i] && Given(f) ==> Readable(w, f)
      invariant q.where == WhereText(true, GroupsOf(w, filters[..i]))
    {
      ok := Apply(q, w, filters[i]);
      if !ok {
        return false, "", "";
      }
      assert filters[..i + 1] == filters[..i] + [filters[i]] && filters[..i + 1][..i] == filters[..i];
      if Given(filters[i]) {
        ExtendedIsWhere(true, GroupsOf(w, filters[..i]), GroupOf(w, filters[i]), Row(0, 0, 0, 0, 0));
      } else {
        NoMore(GroupsOf(w, filters[..i]));
      }
      i := i + 1;
    }
    assert filters[..i] == filters;
    where, query := q.where, QueryText(q.where);
    QueryIsWhole(where);
    forall r
      ensures TextHolds(where, r) <==> Selected(w, filters, r)
    {
      GroupsMean(w, filters, r);
      TextMeans(true, GroupsOf(w, filters), r);
    }
  }

  lemma NoMore(groups: seq<Group>)
    ensures groups + [] == groups
  {
  }
}
