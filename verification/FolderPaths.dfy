/**
 * The operations on the folder table, and what they promise together: a printed path leads back to its
 * folder, and a resolved path stays as it is.
 */
module FolderPaths {
  import opened Options
  import opened Text
  import opened Folders

  datatype Code = Success | NullParam | Error | TooManyRows | MysqlError

  // ----- resolving a path

  function Absolute(inpath: string, cwd: string): string {
    if inpath != "" && inpath[0] == SLASH then inpath else cwd + [SLASH] + inpath
  }

  /** A path that starts with a slash stands for itself, another one is put behind the current directory. */
  lemma AbsolutePieces(inpath: string, cwd: string)
    ensures Tokens(Absolute(inpath, cwd), '/') ==
      if inpath != "" && inpath[0] == '/' then Tokens(inpath, '/') else Tokens(cwd, '/') + Tokens(inpath, '/')
  {
    hide TokensFrom;
    SplitTokens("", cwd, inpath, SLASH);
  }

  /** The size of the buffers for paths. */
  const BUFFER := 2048

  /** A text as it is stored in a buffer. */
  function Clip(s: string): (r: string)
    ensures |r| < BUFFER && r <= s && |r| == if |s| < 2048 then |s| else 2047
  {
    if |s| < BUFFER then s else s[..BUFFER - 1]
  }

  /** The resolved components of a path and its folder; `dots` tells whether "." and ".." are allowed. */
  ghost function Target(t: Tree, inpath: string, cwd: string, dots: bool): Option<(seq<string>, int)> {
    var tokens := Tokens(Clip(Absolute(inpath, cwd)), SLASH);
    if cwd == "" || cwd[0] != SLASH || tokens == [] then None
    else if !dots && ("." in tokens || ".." in tokens) then None
    else
      var names := Resolved(tokens);
      if names == None then None
      else
        var f := Walk(t, t.root, names.value);
        if f == None then None else Some((names.value, f.value))
  }

  /** The query for a folder by name, which must give one row. */
  method QueryChild(t: Tree, p: int, name: string) returns (r: Option<int>)
    requires Valid(t)
    ensures r == ChildNamed(t, p, name)
  {
    var rows := set c | c in t.folders && IsChild(t, c, p, name);
    assert forall c :: IsChild(t, c, p, name) ==> c in rows;
    if rows == {} {
      return None;
    }
    var c :| c in rows;
    return Some(c);
  }

  /** The loop over the components: "." is skipped, ".." steps back in the list. */
  method ResolveTokens(tokens: seq<string>, dots: bool) returns (ok: bool, list: seq<string>)
    ensures ok <==> Resolved(tokens).Some? && (dots || !("." in tokens || ".." in tokens))
    ensures ok ==> list == Resolved(tokens).value
  {
    hide Resolved;
    var a := new string[|tokens|](_ => "");
    var i, k := 0, 0;
    list := [];
    assert tokens[..0] == [];
    NothingResolved();
    while k < |tokens|
      invariant 0 <= i <= k <= |tokens| && Resolved(tokens[..k]) == Some(a[..i])
      invariant dots || !("." in tokens[..k] || ".." in tokens[..k])
    {
      assert tokens[..k + 1] == tokens[..k] + [tokens[k]] && tokens[k] in tokens;
      ResolveStep(tokens, k);
      if tokens[k] == "." {
        if !dots {
          return false, [];
        }
      } else if tokens[k] == ".." {
        if !dots {
          return false, [];
        }
        if i == 0 {
          NeverRecovers(tokens, k + 1);
          return false, [];
        }
        i := i - 1;
        assert a[..i + 1][..i] == a[..i];
      } else {
        ghost var before := a[..i];
        a[i] := tokens[k];
        assert a[..i] == before;
        i := i + 1;
        assert a[..i] == before + [tokens[k]];
      }
      k := k + 1;
    }
    assert tokens[..k] == tokens;
    return true, a[..i];
  }

  lemma NothingResolved()
    ensures Resolved([]) == Some([])
  {
  }

  lemma ResolveStep(tokens: seq<string>, k: nat)
    requires k < |tokens|
    ensures var r, x := Resolved(tokens[..k]), tokens[k];
      Resolved(tokens[..k + 1]) ==
        if r == None || x == "." then r
        else if x != ".." then Some(r.value + [x])
        else if r.value == [] then None else Some(r.value[..|r.value| - 1])
  {
    assert tokens[..k + 1][..k] == tokens[..k];
  }

  lemma {:induction false} NeverRecovers(tokens: seq<string>, k: nat)
    requires k <= |tokens| && Resolved(tokens[..k]) == None
    ensures Resolved(tokens) == None
  {
    if k == |tokens| {
      assert tokens[..k] == tokens;
    } else {
      assert tokens[..|tokens| - 1][..k] == tokens[..k];
      NeverRecovers(tokens[..|tokens| - 1], k);
    }
  }

  method WalkDown(t: Tree, list: seq<string>) returns (f: Option<int>)
    requires Valid(t)
    ensures f == Walk(t, t.root, list)
  {
    hide Valid;
    var folder := t.root;
    var k := 0;
    assert list[..0] == [];
    while k < |list|
      invariant 0 <= k <= |list| && Walk(t, t.root, list[..k]) == Some(folder)
    {
      assert list[..k + 1][..k] == list[..k];
      var c := QueryChild(t, folder, list[k]);
      if c == None {
        LostFor(t, list, k + 1);
        return None;
      }
      folder := c.value;
      k := k + 1;
    }
    assert list[..k] == list;
    return Some(folder);
  }

  lemma {:induction false} LostFor(t: Tree, names: seq<string>, k: nat)
    requires k <= |names| && Walk(t, t.root, names[..k]) == None
    ensures Walk(t, t.root, names) == None
  {
    if k == |names| {
      assert names[..k] == names;
    } else {
      assert names[..|names| - 1][..k] == names[..k];
      LostFor(t, names[..|names| - 1], k);
    }
  }

  method JoinPath(list: seq<string>) returns (out: string)
    ensures out == PathText(list)
  {
    out := [SLASH];
    var j := 0;
    assert list[..0] == [];
    while j < |list|
      invariant 0 <= j <= |list| && out == PathText(list[..j])
    {
      assert list[..j + 1][..j] == list[..j];
      out := out + list[j] + [SLASH];
      j := j + 1;
    }
    assert list[..j] == list;
  }

  method PathParsing(t: Tree, inpath: string, cwd: string, wantOutput: bool)
    returns (code: Code, folder: int, out: string)
    requires Valid(t)
    ensures code == if Target(t, inpath, cwd, wantOutput).None? then Error else Success
    ensures code == Success ==>
      && folder == Target(t, inpath, cwd, wantOutput).value.1
      && (wantOutput ==> out == PathText(Target(t, inpath, cwd, wantOutput).value.0))
  {
    hide Valid, TokensFrom, Resolved, Walk, PathText;
    folder, out := 0, "";
    if cwd == "" || cwd[0] != SLASH {
      return Error, 0, "";
    }
    var buffer := Clip(Absolute(inpath, cwd));
    if buffer == [SLASH, SLASH] {
      NothingBetweenSlashes();
      return Error, 0, "";
    }
    var tokens := Tokens(buffer, SLASH);
    if tokens == [] {
      return Error, 0, "";
    }
    var ok, list := ResolveTokens(tokens, wantOutput);
    if !ok {
      return Error, 0, "";
    }
    if wantOutput {
      out := JoinPath(list);
    }
    var f := WalkDown(t, list);
    if f == None {
      return Error, 0, "";
    }
    return Success, f.value, out;
  }

  lemma NothingBetweenSlashes()
    ensures Tokens([SLASH, SLASH], SLASH) == []
  {
    hide TokensFrom;
    assert [SLASH, SLASH] == "" + [SLASH] + [SLASH] && [SLASH] == "" + [SLASH] + "";
    SplitTokens("", "", [SLASH], SLASH);
    SplitTokens("", "", "", SLASH);
    OneToken("", "", SLASH);
  }

  // ----- printing a path

  method BuildPath(t: Tree, folder: int) returns (code: Code, out: string)
    requires Valid(t)
    ensures code == if folder == 0 then NullParam else if folder !in t.folders then TooManyRows else Success
    ensures code == Success ==> out == Clip(PathText(Names(t, folder)))
  {
    hide Clip;
    if folder == 0 {
      return NullParam, "";
    }
    if folder !in t.folders {
      return TooManyRows, "";
    }
    var current, tmp := folder, "";
    ghost var all := "";
    ClipEmpty();
    while t.folders[current].parent.Some?
      invariant current in t.folders && Joined(Names(t, current)) + all == Joined(Names(t, folder)) && tmp == Clip(all)
      decreases t.level[current]
    {
      BuildStep(t, current, all);
      ClipTwice(t.folders[current].name + [SLASH], all);
      all := t.folders[current].name + [SLASH] + all;
      tmp := Clip(t.folders[current].name + [SLASH] + tmp);
      current := t.folders[current].parent.value;
    }
    assert Joined([]) == "" && "" + all == all;
    ClipTwice([SLASH], all);
    return Success, Clip([SLASH] + tmp);
  }

  lemma ClipEmpty()
    ensures Clip("") == ""
  {
  }

  /** Cutting the end of a text before something is put in front of it makes no difference. */
  lemma ClipTwice(a: string, b: string)
    ensures Clip(a + Clip(b)) == Clip(a + b)
  {
    if |b| >= BUFFER {
      assert (a + Clip(b))[..BUFFER - 1] == (a + b)[..BUFFER - 1];
    }
  }

  lemma BuildStep(t: Tree, f: int, tmp: string)
    requires Valid(t) && f in t.folders && f != t.root
    ensures Joined(Names(t, f)) + tmp == Joined(Names(t, Parent(t, f))) + (t.folders[f].name + [SLASH] + tmp)
  {
    var names := Names(t, f);
    assert names[..|names| - 1] == Names(t, Parent(t, f)) && names[|names| - 1] == t.folders[f].name;
  }

  // ----- lengths of paths

  lemma {:induction false} JoinedLength(tokens: seq<string>)
    ensures |Joined(tokens)| == Spread(tokens)
  {
    if tokens != [] {
      var front, last := tokens[..|tokens| - 1], tokens[|tokens| - 1];
      JoinedLength(front);
      assert tokens == front + [last];
      SpreadSnoc(front, last);
    }
  }

  /** Resolving makes a path no longer. */
  lemma {:induction false} ResolvedIsShorter(tokens: seq<string>)
    ensures Resolved(tokens).Some? ==> |Joined(Resolved(tokens).value)| <= |Joined(tokens)|
  {
    if tokens != [] {
      var front, last := Resolved(tokens[..|tokens| - 1]), tokens[|tokens| - 1];
      ResolvedIsShorter(tokens[..|tokens| - 1]);
      if front.Some? && last != "." && last != ".." {
        assert (front.value + [last])[..|front.value|] == front.value;
      }
    }
  }

  /** The output path is at most one character longer than the absolute path it was resolved from. */
  lemma OutputLength(text: string)
    requires text != "" && text[0] == SLASH && Resolved(Tokens(text, SLASH)).Some?
    ensures |PathText(Resolved(Tokens(text, SLASH)).value)| <= |text| + 1
  {
    hide TokensFrom, Resolved, Joined, Spread;
    var tokens := Tokens(text, SLASH);
    assert text == "" + [SLASH] + text[1..];
    SplitTokens("", "", text[1..], SLASH);
    OneToken("", "", SLASH);
    assert [] + Tokens(text[1..], SLASH) == Tokens(text[1..], SLASH);
    TokensFit("", text[1..], SLASH);
    JoinedLength(tokens);
    ResolvedIsShorter(tokens);
  }

  /** A printed path that is too long by one character loses only its last slash. */
  lemma ClippedPath(names: seq<string>)
    requires (forall n :: n in names ==> Piece(n)) && |PathText(names)| <= BUFFER
    ensures Tokens(Clip(PathText(names)), SLASH) == names && Clip(PathText(names))[..1] == [SLASH]
  {
    hide TokensFrom;
    TokensOfPath(names);
    var text := PathText(names);
    if |text| == BUFFER {
      var cut := Clip(text);
      assert names != [];
      assert text[|text| - 1] == SLASH;
      assert text == cut + [SLASH] + "";
      SplitTokens("", cut, "", SLASH);
      OneToken("", "", SLASH);
      assert Tokens(cut, SLASH) + [] == Tokens(cut, SLASH);
    }
  }

  // ----- round trips

  /**
   * The printed path of a folder leads back to it exactly if the folder is not the root and its path, but for the
   * last slash, fits in the buffer.
   */
  lemma PrintedPathLeadsBack(t: Tree, f: int, cwd: string, dots: bool)
    requires Valid(t) && f in t.folders && cwd != "" && cwd[0] == SLASH
    ensures var target := Target(t, Clip(PathText(Names(t, f))), cwd, dots);
      && (target.Some? && target.value.1 == f <==> f != t.root && |PathText(Names(t, f))| <= BUFFER)
      && (f != t.root && |PathText(Names(t, f))| <= BUFFER ==> target == Some((Names(t, f), f)))
  {
    hide Joined, Walk, Resolved, TokensFrom, Clip;
    var names := Names(t, f);
    NamesAreValid(t, f);
    WalkNames(t, f);
    RootHasNoNames(t, f);
    if |PathText(names)| <= BUFFER {
      PathIsItsTarget(t, names, cwd, dots);
    } else {
      TooLongForItself(t, names, cwd, dots);
    }
  }

  /** A path that is cut short does not lead to its folder. */
  lemma TooLongForItself(t: Tree, names: seq<string>, cwd: string, dots: bool)
    requires Valid(t) && |PathText(names)| > BUFFER
    ensures var target := Target(t, Clip(PathText(names)), cwd, dots);
      target.Some? ==> target.value.1 in t.folders && Names(t, target.value.1) != names
  {
    hide Joined, Walk, Resolved, TokensFrom;
    var text := Clip(PathText(names));
    var target := Target(t, text, cwd, dots);
    if target.Some? {
      assert Absolute(text, cwd) == text && Clip(text) == text;
      OutputLength(text);
      NamesWalked(t, target.value.0);
    }
  }

  /** A path of valid names is its own resolution, if it fits. */
  lemma PathIsItsTarget(t: Tree, names: seq<string>, cwd: string, dots: bool)
    requires (forall n :: n in names ==> ValidName(n)) && |PathText(names)| <= BUFFER
    requires cwd != "" && cwd[0] == SLASH && Walk(t, t.root, names).Some?
    ensures var target := if names == [] then None else Some((names, Walk(t, t.root, names).value));
      Target(t, PathText(names), cwd, dots) == Target(t, Clip(PathText(names)), cwd, dots) == target
  {
    hide Joined, Walk, Resolved, TokensFrom;
    ClippedPath(names);
    ResolvedAlready(names);
    var text := PathText(names);
    assert Absolute(text, cwd) == text && Absolute(Clip(text), cwd) == Clip(text) && Clip(Clip(text)) == Clip(text);
    assert ValidName(".") || "." !in names;
    assert ValidName("..") || ".." !in names;
  }

  /** Resolving a resolved path again changes nothing, unless it is the root; its text is never too long. */
  lemma ResolvedPathIsStable(t: Tree, inpath: string, cwd: string, dots: bool, cwd': string, dots': bool)
    requires Valid(t) && Target(t, inpath, cwd, dots).Some? && cwd' != "" && cwd'[0] == SLASH
    ensures var (names, f) := Target(t, inpath, cwd, dots).value;
      && |PathText(names)| <= BUFFER
      && Target(t, PathText(names), cwd', dots') == if f != t.root then Some((names, f)) else None
  {
    hide Joined, Walk, Resolved, TokensFrom;
    var text := Clip(Absolute(inpath, cwd));
    assert text[0] == SLASH;
    TokensClean("", text, SLASH);
    ResolvedIsPlain(Tokens(text, SLASH));
    OutputLength(text);
    var (names, f) := Target(t, inpath, cwd, dots).value;
    PathIsItsTarget(t, names, cwd', dots');
    NamesWalked(t, names);
    RootHasNoNames(t, f);
  }

  /** The output path, with the character that ends it, fits in its buffer. */
  predicate OutputFits(names: seq<string>) {
    |PathText(names)| + 1 <= BUFFER
  }

  /** It may be too long by one character, and only if the absolute path fills its own buffer. */
  lemma OutputBound(t: Tree, inpath: string, cwd: string, dots: bool)
    requires Valid(t) && Target(t, inpath, cwd, dots).Some?
    ensures var names := Target(t, inpath, cwd, dots).value.0;
      && |PathText(names)| <= BUFFER && (OutputFits(names) <==> |PathText(names)| < BUFFER)
      && (|Absolute(inpath, cwd)| < BUFFER - 1 ==> OutputFits(names))
  {
    hide Joined, Walk, Resolved, TokensFrom;
    var text := Clip(Absolute(inpath, cwd));
    assert text[0] == SLASH;
    OutputLength(text);
  }

  /** A folder whose name leaves room for nothing but the first slash: its output path does not fit. */
  lemma LongestOutput() returns (t: Tree, inpath: string)
    ensures Valid(t) && |inpath| < BUFFER && Target(t, inpath, [SLASH], true).Some?
    ensures !OutputFits(Target(t, inpath, [SLASH], true).value.0)
  {
    var name := seq(BUFFER - 2, _ => 'a');
    t := Tree(1, map[1 := Folder(None, ""), 2 := Folder(Some(1), name)], map[1 := 0, 2 := 1]);
    LongName(name);
    assert ValidName(name) && Valid(t);
    var names := Names(t, 2);
    assert Names(t, 1) == [] && names == [] + [name] == [name];
    JoinedOne(name);
    PrintedPathLeadsBack(t, 2, [SLASH], true);
    inpath := Clip(PathText([name]));
  }

  lemma LongName(name: string)
    requires |name| == BUFFER - 2 && forall i :: 0 <= i < |name| ==> name[i] == 'a'
    ensures ValidName(name)
  {
    assert name[0] != '.';
  }

  lemma JoinedOne(name: string)
    ensures Joined([name]) == name + [SLASH]
  {
    assert [name][..0] == [] && Joined([]) == "" && "" + name + [SLASH] == name + [SLASH];
  }

  lemma RootHasNoNames(t: Tree, f: int)
    requires Valid(t) && f in t.folders
    ensures Names(t, f) == [] <==> f == t.root
  {
  }

  /**
   * A path is resolved exactly when it has a component, does not climb above the root, and names a folder;
   * and if the tree can be walked along the path, with ".." going to the parent, it leads to that folder.
   */
  lemma ResolvesExactly(t: Tree, inpath: string, cwd: string)
    requires Valid(t) && cwd != "" && cwd[0] == SLASH
    ensures var tokens := Tokens(Clip(Absolute(inpath, cwd)), SLASH);
      && (Target(t, inpath, cwd, true).Some? <==>
            tokens != [] && !Climbs(tokens) && exists f :: f in t.folders && Resolved(tokens) == Some(Names(t, f)))
      && (tokens != [] && Follow(t, tokens).Some? ==>
            Target(t, inpath, cwd, true).Some? && Target(t, inpath, cwd, true).value.1 == Follow(t, tokens).value)
  {
    hide Walk, Resolved, TokensFrom, Follow, Names, Climbs;
    var tokens := Tokens(Clip(Absolute(inpath, cwd)), SLASH);
    FailsIffClimbs(tokens);
    if Target(t, inpath, cwd, true).Some? {
      NamesWalked(t, Resolved(tokens).value);
    }
    forall f | f in t.folders && Resolved(tokens) == Some(Names(t, f))
      ensures Walk(t, t.root, Names(t, f)).Some?
    {
      WalkNames(t, f);
    }
    if Follow(t, tokens).Some? {
      ResolvedLeadsThere(t, tokens);
    }
  }

  // ----- the home of a session

  /** A folder lies in the subtree of another one. */
  ghost predicate Under(t: Tree, top: int, f: int)
    requires Valid(t) && f in t.folders
    decreases t.level[f]
  {
    f == top || (f != t.root && Under(t, top, Parent(t, f)))
  }

  /** That is so exactly when the path of the one starts with the path of the other. */
  lemma {:induction false} UnderIffPrefix(t: Tree, top: int, f: int)
    requires Valid(t) && f in t.folders && top in t.folders
    ensures Under(t, top, f) <==> Names(t, top) <= Names(t, f)
    decreases t.level[f]
  {
    WalkNames(t, top);
    WalkNames(t, f);
    if f != t.root {
      var p := Parent(t, f);
      UnderIffPrefix(t, top, p);
      assert Names(t, f) == Names(t, p) + [t.folders[f].name];
      if Names(t, top) <= Names(t, f) && Names(t, top) != Names(t, f) {
        assert Names(t, top) <= Names(t, p);
      }
    } else {
      RootHasNoNames(t, top);
    }
  }

  method CheckFolderSession(t: Tree, folder: int, session: Option<int>) returns (code: Code, status: bool)
    requires Valid(t)
    ensures code ==
      if folder == 0 then NullParam else if session == None then MysqlError
      else if folder != session.value && folder !in t.folders then TooManyRows else Success
    ensures code == Success && folder in t.folders ==> (status <==> Under(t, session.value, folder))
    ensures status ==> code == Success
  {
    if folder == 0 {
      return NullParam, false;
    }
    if session == None {
      return MysqlError, false;
    }
    if session.value == folder {
      return Success, true;
    }
    if folder !in t.folders {
      return TooManyRows, false;
    }
    var current := folder;
    while t.folders[current].parent.Some?
      invariant current in t.folders && current != session.value
      invariant Under(t, session.value, folder) <==> Under(t, session.value, current)
      decreases t.level[current]
    {
      var parent := Parent(t, current);
      if parent == session.value {
        return Success, true;
      }
      current := parent;
    }
    return Success, false;
  }
}
