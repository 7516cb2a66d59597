/**
 * Filters on data cubes: clauses that are appended to a text of bounded length. A call that succeeds has
 * appended its whole clause, and it succeeds exactly when the clause fits.
 */
module Filters {
  import opened Options
  import opened Text
  import opened Ranges
  import opened Folders
  import opened FolderPaths
  import opened Clauses
  import opened Subfolders

  function Levels(keys: seq<string>): seq<Atom> {
    seq(|keys|, i requires 0 <= i < |keys| => Level(ToInt(ReadInt(keys[i]))))
  }

  /** The values of an argument, separated by bars; an argument with a separator of arguments cannot be read. */
  function KeysOf(value: string): (r: Option<seq<string>>)
    ensures r.Some? ==> r.value != []
  {
    if Contains(value, '=') || Contains(value, ';') then None else Some(Pieces(value, '|'))
  }

  /** Bars separate ranges, too. */
  function WithCommas(value: string): string {
    seq(|value|, i requires 0 <= i < |value| => if value[i] == '|' then COMMA else value[i])
  }

  /** The ranges of ids that the filter uses: as many of those of the argument as the parser reports. */
  function RangesOf(value: string): (r: Option<seq<Range>>)
    ensures r.Some? ==> r.value != []
  {
    if Parse(WithCommas(value), 0).Some? then Some(Used(WithCommas(value), 0)) else None
  }

  /** The clause has a condition for every range of the argument if and only if no piece of it is empty. */
  lemma NamesAllIff(value: string)
    requires RangesOf(value).Some?
    ensures var all, used := Parse(WithCommas(value), 0).value, RangesOf(value).value;
      && used <= all && (Subsets(used) == Subsets(all) <==> "" !in Pieces(WithCommas(value), COMMA))
  {
    hide Parse, PiecesFrom;
    NumberFits(WithCommas(value), 0);
    var all, used := Parse(WithCommas(value), 0).value, RangesOf(value).value;
    assert |used| == |all| ==> used == all;
  }

  /** The filter "1||5" drops the id 5: the empty piece takes its place. */
  lemma IdIsDropped(r: Row)
    ensures RangesOf("1||5") == Some([Range(1, 1, 1), Range(1, 1, 1)])
    ensures GroupHolds(Group(false, Subsets(RangesOf("1||5").value)), r) <==> r.id == 1
  {
    hide Parse, Number;
    assert WithCommas("1||5") == "1,,5";
    LastRangeIsLost();
    var ranges := [Range(1, 1, 1), Range(1, 1, 1)];
    var atoms := Subsets(ranges);
    ChainMeans(atoms, false, r);
    assert atoms == [Subset(1, 1, 1), Subset(1, 1, 1)];
    OneId(r);
  }

  lemma OneId(r: Row)
    ensures AtomHolds(Subset(1, 1, 1), r) <==> r.id == 1
  {
    if r.id == 1 {
      assert r.id == 1 + 0 * 1;
    }
  }

  function Subsets(ranges: seq<Range>): (r: seq<Atom>)
    ensures |r| == |ranges|
  {
    seq(|ranges|, i requires 0 <= i < |ranges| => Subset(ranges[i].start, ranges[i].stride, ranges[i].last))
  }

  function InFolders(ids: seq<int>): seq<Atom> {
    seq(|ids|, i requires 0 <= i < |ids| => InFolder(ids[i]))
  }

  lemma InFoldersConcat(a: seq<int>, b: seq<int>)
    ensures InFolders(a + b) == InFolders(a) + InFolders(b) && (InFolders(a) == [] <==> a == [])
  {
  }

  /** The flag of a path filter: 0 without recursion, -d for a positive depth d, else 1. */
  function RecursiveFlag(recursive: Option<string>, depth: Option<string>): int {
    if recursive != Some("yes") then 0
    else if depth.Some? && ToInt(ReadInt(depth.value)) > 0 then 0 - ToInt(ReadInt(depth.value))
    else 1
  }

  /** The text has room for another piece. */
  predicate Fits(text: string, piece: string) {
    |text| + |piece| <= MAX_STRING - 2
  }

  /** What is known of the text after a call: nothing that was there is lost, and it is within its limit. */
  ghost predicate Grown(before: string, after: string) {
    before <= after && |after| < MAX_STRING
  }

  lemma GrownTwice(a: string, b: string, c: string)
    requires Grown(a, b) && Grown(b, c)
    ensures Grown(a, c)
  {
  }

  lemma GrownBounded(a: string, b: string)
    requires Grown(a, b)
    ensures |b| < MAX_STRING
  {
  }

  method TryAppend(text: string, piece: string) returns (ok: bool, text': string)
    requires |text| < MAX_STRING
    ensures ok <==> Fits(text, piece)
    ensures ok <==> |text| + |piece| <= 4094
    ensures text' == (if ok then text + piece else text) && Grown(text, text')
  {
    var room := MAX_STRING - |text| - 1;
    if room <= |piece| {
      return false, text;
    }
    return true, text + piece;
  }

  /** Appends one condition, and a separator if it is not the first one. */
  method AppendAtom(text: string, first: bool, a: Atom, negated: bool) returns (ok: bool, text': string)
    requires |text| < MAX_STRING
    ensures ok <==> Fits(text, Link(first, a, negated))
    ensures Grown(text, text') && (ok ==> text' == text + Link(first, a, negated))
  {
    hide AtomText, Separator;
    text' := text;
    if !first {
      ok, text' := TryAppend(text', Separator(negated));
      if !ok {
        return;
      }
    }
    ok, text' := TryAppend(text', AtomText(a, negated));
    assert "" + AtomText(a, negated) == AtomText(a, negated);
    assert !first ==> text + Separator(negated) + AtomText(a, negated) == text + Link(first, a, negated);
  }

  /** Appends conditions one after the other. */
  method AppendAtoms(text: string, atoms: seq<Atom>, negated: bool) returns (ok: bool, text': string)
    requires |text| < MAX_STRING && atoms != []
    ensures ok <==> Fits(text, Chain(true, atoms, negated))
    ensures Grown(text, text') && (ok ==> text' == text + Chain(true, atoms, negated))
  {
    hide Chain, Link;
    ok, text' := true, text;
    NoChain(true, negated);
    var i := 0;
    while i < |atoms|
      invariant 0 <= i <= |atoms| && text' == text + Chain(true, atoms[..i], negated) && Grown(text, text')
      invariant i > 0 ==> |text'| <= MAX_STRING - 2
    {
      assert atoms[..i + 1] == atoms[..i] + [atoms[i]];
      ChainSnoc(true, atoms[..i], atoms[i], negated);
      ChainPrefix(true, atoms, i + 1, negated);
      ok, text' := AppendAtom(text', i == 0, atoms[i], negated);
      if !ok {
        return;
      }
      i := i + 1;
    }
    assert atoms[..i] == atoms;
  }

  /** The clause of a query. */
  class Query {
    var where: string
    var counter: nat

    /** A query starts with the condition that joins data cubes and containers. */
    constructor ()
      ensures where == WhereText(true, []) && |where| < MAX_STRING
    {
      where, counter := BASE, 0;
    }

    /** Opens the parenthesis of a clause. */
    method Open() returns (ok: bool)
      requires |where| < MAX_STRING
      modifies this`where
      ensures Grown(old(where), where)
      ensures ok <==> |Opened(old(where))| <= MAX_STRING - 2
      ensures ok ==> where == Opened(old(where))
    {
      if where != "" {
        ok, where := TryAppend(where, AND2);
      } else {
        ok, where := true, "(";
      }
    }

    method Close() returns (ok: bool)
      requires |where| < MAX_STRING
      modifies this`where
      ensures Grown(old(where), where) && (ok <==> |old(where)| <= MAX_STRING - 3)
      ensures ok ==> where == old(where) + ")"
    {
      ok, where := TryAppend(where, ")");
    }

    /** The filter on levels. */
    method FilterLevel(value: string, negated: bool) returns (ok: bool)
      requires |where| < MAX_STRING
      modifies this`where
      ensures Grown(old(where), where) && (value == "" ==> ok && where == old(where))
      ensures value != "" ==>
        (ok <==> && KeysOf(value).Some?
                 && |Extended(old(where), Group(negated, Levels(KeysOf(value).value)))| <= MAX_STRING - 2)
      ensures value != "" && ok ==> where == Extended(old(where), Group(negated, Levels(KeysOf(value).value)))
    {
      hide Chain, Levels, Extended, Opened, Grown, KeysOf;
      Unchanged(where);
      if value == "" {
        return true;
      }
      var keys := KeysOf(value);
      if keys == None {
        return false;
      }
      LevelsKept(keys.value);
      ExtendedParts(where, Group(negated, Levels(keys.value)));
      ok := Open();
      if !ok {
        return;
      }
      GrownBounded(old(where), where);
      ghost var begun := where;
      ok, where := AppendAtoms(where, Levels(keys.value), negated);
      GrownTwice(old(where), begun, where);
      if !ok {
        return;
      }
      GrownBounded(begun, where);
      ghost var full := where;
      ok := Close();
      GrownTwice(old(where), full, where);
    }

    /** The filter on ids of data cubes. */
    method FilterUsingSubset(value: string, negated: bool) returns (ok: bool)
      requires |where| < MAX_STRING
      modifies this`where
      ensures Grown(old(where), where) && (value == "" ==> ok && where == old(where))
      ensures value != "" ==>
        (ok <==> && RangesOf(value).Some?
                 && |Extended(old(where), Group(negated, Subsets(RangesOf(value).value)))| <= MAX_STRING - 2)
      ensures value != "" && ok ==> where == Extended(old(where), Group(negated, Subsets(RangesOf(value).value)))
    {
      hide Chain, Extended, Opened, Grown, Parse, Subsets;
      Unchanged(where);
      if value == "" {
        return true;
      }
      ok := Open();
      if !ok {
        ExtendedParts(old(where), Group(negated, if RangesOf(value).Some? then Subsets(RangesOf(value).value) else []));
        return;
      }
      var ranges, number, _ := SubsetParse(WithCommas(value), 0);
      if ranges == None {
        return false;
      }
      var used := ranges.value[..number];
      SubsetsKept(used);
      ExtendedParts(old(where), Group(negated, Subsets(used)));
      GrownBounded(old(where), where);
      var condition;
      ok, condition := AppendAtoms("", Subsets(used), negated);
      if !ok {
        return;
      }
      FromNothing(Chain(true, Subsets(used), negated));
      ghost var begun := where;
      ok, where := TryAppend(where, condition);
      GrownTwice(old(where), begun, where);
      if !ok {
        return;
      }
      GrownBounded(begun, where);
      ghost var full := where;
      ok := Close();
      GrownTwice(old(where), full, where);
    }

    /** Adds a folder and, if the flag tells so, its subfolders. */
    method AddFolder(t: Tree, rows: Rows, f: int, flag: int, negated: bool) returns (ok: bool)
      requires RowsOf(t, rows) && f in t.folders && |where| < MAX_STRING
      modifies this
      ensures Grown(old(where), where)
      ensures ok <==> Fits(old(where), Chain(old(counter) == 0, InFolders(Listed(t, rows, f, flag)), negated))
      ensures ok ==> where == old(where) + Chain(old(counter) == 0, InFolders(Listed(t, rows, f, flag)), negated)
      ensures ok ==> counter == old(counter) + |Listed(t, rows, f, flag)|
      decreases Deeper(t, f), 1, 0
    {
      hide Chain, Grown, RowsOf, ListedAll, InFolders, Deeper, Link, Listed;
      FolderText(t, rows, f, flag, counter == 0, negated);
      ok, where := AppendAtom(where, counter == 0, InFolder(f), negated);
      if !ok {
        return;
      }
      counter := counter + 1;
      if NextFlag(flag) != 0 {
        GrownBounded(old(where), where);
        ghost var one := where;
        RowsFound(t, rows, f);
        ok := AddSubfolders(t, rows, f, rows[f], NextFlag(flag), negated);
        GrownTwice(old(where), one, where);
      }
    }

    method AddSubfolders(t: Tree, rows: Rows, f: int, ids: seq<int>, flag: int, negated: bool) returns (ok: bool)
      requires RowsOf(t, rows) && f in t.folders && (forall c :: c in ids ==> IsSubfolder(t, c, f))
      requires |where| <= MAX_STRING - 2 && counter > 0
      modifies this
      ensures Grown(old(where), where)
      ensures ok <==> Fits(old(where), Chain(false, InFolders(ListedAll(t, rows, f, ids, flag)), negated))
      ensures ok ==> where == old(where) + Chain(false, InFolders(ListedAll(t, rows, f, ids, flag)), negated)
      ensures ok ==> counter == old(counter) + |ListedAll(t, rows, f, ids, flag)|
      decreases Deeper(t, f), 0, |ids|
    {
      hide Chain, Grown, RowsOf, Listed, InFolders, Deeper;
      var i := 0;
      ok := true;
      Unchanged(where);
      NoFolders(negated);
      assert ids[..0] == [];
      while i < |ids|
        invariant 0 <= i <= |ids| && Grown(old(where), where) && |where| <= MAX_STRING - 2 && ok
        invariant forall c :: c in ids[..i] ==> IsSubfolder(t, c, f)
        invariant where == old(where) + Chain(false, InFolders(ListedAll(t, rows, f, ids[..i], flag)), negated)
        invariant counter == old(counter) + |ListedAll(t, rows, f, ids[..i], flag)|
      {
        DeeperShrinksRows(t, rows, ids[i], f);
        SubfolderText(t, rows, f, ids, i, flag, negated);
        ghost var before := where;
        ok := AddFolder(t, rows, ids[i], flag, negated);
        GrownTwice(old(where), before, where);
        if !ok {
          return;
        }
        i := i + 1;
      }
      assert ids[..i] == ids;
    }

    /** Appends the clause for a folder and its subfolders. */
    method AppendFolders(t: Tree, rows: Rows, folder: int, flag: int, negated: bool) returns (ok: bool)
      requires RowsOf(t, rows) && folder in t.folders && |where| < MAX_STRING
      modifies this
      ensures Grown(old(where), where)
      ensures var g := Group(negated, InFolders(Listed(t, rows, folder, flag)));
        && (ok <==> |Extended(old(where), g)| <= MAX_STRING - 2) && (ok ==> where == Extended(old(where), g))
    {
      hide Chain, Extended, Opened, Grown, RowsOf, InFolders, Listed;
      ExtendedParts(where, Group(negated, InFolders(Listed(t, rows, folder, flag))));
      ok := Open();
      if !ok {
        return;
      }
      GrownBounded(old(where), where);
      ghost var begun := where;
      counter := 0;
      ok := AddFolder(t, rows, folder, flag, negated);
      GrownTwice(old(where), begun, where);
      if !ok {
        return;
      }
      GrownBounded(begun, where);
      ghost var full := where;
      ok := Close();
      GrownTwice(old(where), full, where);
    }

    /** The filter on the folder of the container. */
    method FilterPath(t: Tree, rows: Rows, path: string, recursive: Option<string>, depth: Option<string>,
                      session: Option<int>, negated: bool)
      returns (ok: bool)
      requires RowsOf(t, rows) && |where| < MAX_STRING
      modifies this
      ensures Grown(old(where), where) && (path == "" ==> ok && where == old(where))
      ensures path != "" ==>
        (ok <==> Allowed(t, path, session)
                 && |Extended(old(where), PathGroup(t, rows, path, recursive, depth, negated))| <= MAX_STRING - 2)
      ensures path != "" && ok ==> where == Extended(old(where), PathGroup(t, rows, path, recursive, depth, negated))
    {
      hide Extended, Grown, Target, Under, InFolders, Listed;
      Unchanged(where);
      if path == "" {
        return true;
      }
      var flag := if recursive == Some("yes") then 1 else 0;
      if flag != 0 && depth.Some? {
        var rdepth := ToInt(ReadInt(depth.value));
        if rdepth > 0 {
          flag := -rdepth;
        }
      }
      var code, folder, _ := PathParsing(t, "", path, false);
      if code != Success {
        return false;
      }
      TargetIsFolder(t, path);
      var permission;
      code, permission := CheckFolderSession(t, folder, session);
      if code != Success || !permission {
        return false;
      }
      ok := AppendFolders(t, rows, folder, flag, negated);
    }
  }

  // ----- the path filter

  /** The path leads to a folder in the home of the session. */
  ghost predicate Allowed(t: Tree, path: string, session: Option<int>)
    requires Valid(t)
  {
    && Target(t, "", path, false).Some? && session.Some?
    && var f := Target(t, "", path, false).value.1;
    && f in t.folders && Under(t, session.value, f)
  }

  /** The conditions of the path filter. */
  ghost function PathGroup(t: Tree, rows: Rows, path: string, recursive: Option<string>, depth: Option<string>,
      negated: bool): Group
    requires RowsOf(t, rows)
  {
    var target := Target(t, "", path, false);
    if target.Some? && target.value.1 in t.folders
    then Group(negated, InFolders(Listed(t, rows, target.value.1, RecursiveFlag(recursive, depth))))
    else Group(negated, [])
  }

  lemma TargetIsFolder(t: Tree, path: string)
    requires Valid(t) && Target(t, "", path, false).Some?
    ensures Target(t, "", path, false).value.1 in t.folders && Target(t, "", path, false).value.1 != 0
  {
    NamesWalked(t, Target(t, "", path, false).value.0);
  }

  lemma RowsFound(t: Tree, rows: Rows, f: int)
    requires RowsOf(t, rows) && f in t.folders
    ensures f in rows && forall c :: c in rows[f] ==> IsSubfolder(t, c, f)
  {
  }

  lemma DeeperShrinksRows(t: Tree, rows: Rows, c: int, f: int)
    requires RowsOf(t, rows) && f in t.folders && IsSubfolder(t, c, f)
    ensures Deeper(t, c) < Deeper(t, f)
  {
    DeeperShrinks(t, c, f);
  }

  lemma NoFolders(negated: bool)
    ensures Chain(false, InFolders([]), negated) == ""
  {
  }

  /** The text for a folder is the condition for itself, and the text for its subfolders. */
  lemma FolderText(t: Tree, rows: Rows, f: int, flag: int, first: bool, negated: bool)
    requires RowsOf(t, rows) && f in t.folders
    ensures f in rows && forall c :: c in rows[f] ==> IsSubfolder(t, c, f)
    ensures |Listed(t, rows, f, flag)| ==
      1 + if NextFlag(flag) == 0 then 0 else |ListedAll(t, rows, f, rows[f], NextFlag(flag))|
    ensures Chain(first, InFolders(Listed(t, rows, f, flag)), negated) ==
      Link(first, InFolder(f), negated)
      + if NextFlag(flag) == 0 then ""
        else Chain(false, InFolders(ListedAll(t, rows, f, rows[f], NextFlag(flag))), negated)
  {
    hide Chain, ListedAll, Link;
    var rest := if NextFlag(flag) == 0 then [] else ListedAll(t, rows, f, rows[f], NextFlag(flag));
    assert InFolders([f]) == [InFolder(f)];
    InFoldersConcat([f], rest);
    ChainConcat(first, [InFolder(f)], InFolders(rest), negated);
    ChainOne(first, InFolder(f), negated);
    NoFolders(negated);
  }

  /** The text for the first subfolders, with one more. */
  lemma SubfolderText(t: Tree, rows: Rows, f: int, ids: seq<int>, i: nat, flag: int, negated: bool)
    requires RowsOf(t, rows) && f in t.folders && (forall c :: c in ids ==> IsSubfolder(t, c, f)) && i < |ids|
    ensures IsSubfolder(t, ids[i], f) && forall c :: c in ids[..i] || c in ids[..i + 1] ==> IsSubfolder(t, c, f)
    ensures var a, b := ListedAll(t, rows, f, ids[..i], flag), Listed(t, rows, ids[i], flag);
      && ListedAll(t, rows, f, ids[..i + 1], flag) == a + b
      && Chain(false, InFolders(a + b), negated) ==
           Chain(false, InFolders(a), negated) + Chain(false, InFolders(b), negated)
      && |Chain(false, InFolders(a + b), negated)| <=
           |Chain(false, InFolders(ListedAll(t, rows, f, ids, flag)), negated)|
  {
    hide Chain, Listed, RowsOf, Deeper;
    assert ids[i] in ids;
    ListedPrefix(t, rows, f, ids, i, flag);
    ListedPrefix(t, rows, f, ids, i + 1, flag);
    assert ids[..i + 1][..i] == ids[..i];
    var a, b := ListedAll(t, rows, f, ids[..i], flag), Listed(t, rows, ids[i], flag);
    InFoldersConcat(a, b);
    ChainConcat(false, InFolders(a), InFolders(b), negated);
    var all := ListedAll(t, rows, f, ids, flag);
    assert InFolders(all)[..|a + b|] == InFolders(a + b);
    ChainPrefix(false, InFolders(all), |a + b|, negated);
  }

  /**
   * What a path filter that is allowed denotes: the rows whose folder is the given one or a descendant less
   * than `depth` levels down (any descendant without a positive depth, none without recursion), and with
   * negation all other rows; each folder is named once, and all of them are in the home of the session.
   */
  lemma PathFilterMeans(t: Tree, rows: Rows, path: string, recursive: Option<string>, depth: Option<string>,
                        session: Option<int>, negated: bool, r: Row)
    requires RowsOf(t, rows) && Allowed(t, path, session)
    ensures var f, flag := Target(t, "", path, false).value.1, RecursiveFlag(recursive, depth);
      && (GroupHolds(PathGroup(t, rows, path, recursive, depth, negated), r) <==>
        Wanted(t, f, flag, r.folder) != negated)
      && NoRepeat(Listed(t, rows, f, flag))
      && (forall x :: x in Listed(t, rows, f, flag) ==> x in t.folders && Under(t, session.value, x))
  {
    hide Target, Under, Listed, NoRepeat, Near;
    var f, flag := Target(t, "", path, false).value.1, RecursiveFlag(recursive, depth);
    var ids := Listed(t, rows, f, flag);
    ListedExactly(t, rows, f, flag);
    forall x | x in ids
      ensures x in t.folders && Under(t, session.value, x)
    {
      InSession(t, rows, session.value, f, flag, x);
    }
    ChainMeans(InFolders(ids), negated, r);
    FolderNamed(ids, r);
  }

  /**
   * The arguments of a path filter. With recursion and a positive depth d it selects the rows whose folder is less than
   * d levels below the given one, with recursion and no positive depth those in any descendant, and without recursion
   * those in the folder itself; with negation all others.
   */
  lemma PathArgumentsMean(t: Tree, rows: Rows, path: string, recursive: Option<string>, depth: Option<string>,
                          session: Option<int>, negated: bool, r: Row, d: int)
    requires RowsOf(t, rows) && Allowed(t, path, session) && -0x8000_0000 <= d < 0x8000_0000
    ensures var f, x := Target(t, "", path, false).value.1, r.folder;
      var holds := GroupHolds(PathGroup(t, rows, path, recursive, depth, negated), r);
      && (recursive != Some("yes") ==> (holds <==> (x == f) != negated))
      && (recursive == Some("yes") && depth == Some(Show(d)) && d > 0 ==>
            (holds <==> (x in t.folders && Under(t, f, x) && t.level[x] < t.level[f] + d) != negated))
      && (recursive == Some("yes") && (depth == None || (depth == Some(Show(d)) && d <= 0)) ==>
            (holds <==> (x in t.folders && Under(t, f, x)) != negated))
  {
    hide Target, Under, Listed, GroupHolds, PathGroup, Show, ReadInt, Allowed;
    PathFilterMeans(t, rows, path, recursive, depth, session, negated, r);
    ReadShown(d);
    AllowedFolder(t, path, session);
    var f, x := Target(t, "", path, false).value.1, r.folder;
    UnderSelf(t, f);
    if x in t.folders && Under(t, f, x) {
      UnderLevel(t, f, x);
    }
  }

  lemma AllowedFolder(t: Tree, path: string, session: Option<int>)
    requires Valid(t) && Allowed(t, path, session)
    ensures Target(t, "", path, false).Some? && Target(t, "", path, false).value.1 in t.folders
  {
  }

  /** The printed path of a folder is allowed exactly for the sessions whose home it lies in. */
  lemma PathIsAllowed(t: Tree, f: int, session: Option<int>)
    requires Valid(t) && f in t.folders && f != t.root && |PathText(Names(t, f))| < BUFFER - 1
    ensures var path := PathText(Names(t, f));
      && Target(t, "", path, false) == Some((Names(t, f), f))
      && (Allowed(t, path, session) <==> session.Some? && Under(t, session.value, f))
  {
    hide Joined, Walk, Resolved, TokensFrom, Under;
    var names := Names(t, f);
    var path := PathText(names);
    NamesAreValid(t, f);
    WalkNames(t, f);
    RootHasNoNames(t, f);
    ResolvedAlready(names);
    TokensOfPath(names);
    SplitTokens("", path, "", SLASH);
    OneToken("", "", SLASH);
    assert Absolute("", path) == path + [SLASH] + "" && Clip(Absolute("", path)) == Absolute("", path);
    assert names + [] == names;
    assert ValidName(".") || "." !in names;
    assert ValidName("..") || ".." !in names;
  }

  /** A path with steps such as "." or "..", and one that does not start at the root, are refused. */
  lemma DotsAreRefused(t: Tree, path: string, session: Option<int>)
    requires Valid(t)
    requires
      || path == ""
      || path[0] != '/'
      || "." in Tokens(Clip(path + "/"), '/')
      || ".." in Tokens(Clip(path + "/"), '/')
    ensures !Allowed(t, path, session)
  {
    hide Walk, Resolved, TokensFrom;
    assert path + [SLASH] + "" == path + "/";
  }

  lemma InSession(t: Tree, rows: Rows, session: int, f: int, flag: int, x: int)
    requires RowsOf(t, rows) && f in t.folders && Under(t, session, f) && Wanted(t, f, flag, x)
    ensures x in t.folders && Under(t, session, x)
  {
    UnderTransitive(t, session, f, x);
  }

  lemma FolderNamed(ids: seq<int>, r: Row)
    ensures (exists a :: a in InFolders(ids) && AtomHolds(a, r)) <==> r.folder in ids
  {
    forall a | a in InFolders(ids) && AtomHolds(a, r)
      ensures r.folder in ids
    {
      var i :| 0 <= i < |ids| && InFolders(ids)[i] == a;
    }
    if r.folder in ids {
      var i :| 0 <= i < |ids| && ids[i] == r.folder;
      assert InFolders(ids)[i] == InFolder(r.folder) && InFolders(ids)[i] in InFolders(ids);
      assert AtomHolds(InFolder(r.folder), r);
    }
  }

  lemma Unchanged(text: string)
    requires |text| < MAX_STRING
    ensures Grown(text, text)
  {
  }

  lemma FromNothing(text: string)
    ensures "" + text == text
  {
  }

  lemma SubsetsKept(ranges: seq<Range>)
    ensures |Subsets(ranges)| == |ranges|
  {
  }

  lemma LevelsKept(keys: seq<string>)
    ensures |Levels(keys)| == |keys|
  {
  }
}
