/**
 * The virtual folder tree: printing the path of a folder, resolving a path with "." and "..", and the check
 * that a folder lies in the home of a session.
 */
module Folders {
  import opened Options
  import opened Text

  const SLASH := '/'

  datatype Folder = Folder(parent: Option<int>, name: string)

  /**
   * The table of folders. The levels are not stored in the database; they witness that no folder is its own
   * ancestor.
   */
  datatype Tree = Tree(root: int, folders: map<int, Folder>, level: map<int, nat>)

  /** A text between two slashes. */
  predicate Piece(x: string) {
    x != "" && !Contains(x, SLASH)
  }

  /** A name that can be a component of a path. */
  predicate ValidName(name: string) {
    Piece(name) && name != "." && name != ".."
  }

  predicate IsChild(t: Tree, c: int, p: int, name: string) {
    c in t.folders && t.folders[c] == Folder(Some(p), name)
  }

  /** One root, no cycles, names that are valid and unique in their folder. */
  ghost predicate Valid(t: Tree) {
    && t.root in t.folders && t.level.Keys == t.folders.Keys && 0 !in t.folders
    && (forall f :: f in t.folders ==> (t.folders[f].parent == None <==> f == t.root))
    && (forall f :: f in t.folders && f != t.root ==>
          && ValidName(t.folders[f].name) && t.folders[f].parent.value in t.folders
          && t.level[f] == t.level[t.folders[f].parent.value] + 1)
    && (forall f, g :: f in t.folders && g in t.folders && f != g && f != t.root ==> t.folders[f] != t.folders[g])
  }

  function Parent(t: Tree, f: int): (p: int)
    requires Valid(t) && f in t.folders && f != t.root
    ensures p in t.folders && t.level[p] + 1 == t.level[f]
  {
    t.folders[f].parent.value
  }

  // ----- paths

  /** The names of the folders from the root to a folder. */
  function Names(t: Tree, f: int): seq<string>
    requires Valid(t) && f in t.folders
    decreases t.level[f]
  {
    if f == t.root then [] else Names(t, Parent(t, f)) + [t.folders[f].name]
  }

  function Joined(names: seq<string>): string {
    if names == [] then "" else Joined(names[..|names| - 1]) + names[|names| - 1] + [SLASH]
  }

  /** The text of a path: every component is followed by a slash. */
  function PathText(names: seq<string>): string {
    [SLASH] + Joined(names)
  }

  /** The pieces of a printed path are its components. */
  lemma {:induction false} TokensOfPath(names: seq<string>)
    requires forall n :: n in names ==> Piece(n)
    ensures Tokens(PathText(names), SLASH) == names
  {
    hide TokensFrom;
    if names == [] {
      assert PathText(names) == "" + [SLASH] + "";
      SplitTokens("", "", "", SLASH);
      OneToken("", "", SLASH);
    } else {
      var front, last := names[..|names| - 1], names[|names| - 1];
      assert last in names && names == front + [last];
      TokensOfPath(front);
      assert PathText(names) == PathText(front) + last + [SLASH];
      AddToken(PathText(front), last, front);
    }
  }

  lemma AddToken(text: string, last: string, front: seq<string>)
    requires Tokens(text, SLASH) == front && text != "" && text[|text| - 1] == SLASH
    requires Piece(last)
    ensures Tokens(text + last + [SLASH], SLASH) == front + [last]
  {
    hide TokensFrom;
    var body := text[..|text| - 1];
    assert text == body + [SLASH] + "";
    SplitTokens("", body, "", SLASH);
    OneToken("", "", SLASH);
    assert text + last + [SLASH] == body + [SLASH] + (last + [SLASH] + "");
    SplitTokens("", body, last + [SLASH] + "", SLASH);
    SplitTokens("", last, "", SLASH);
    OneToken("", last, SLASH);
    assert "" + last == last;
  }

  // ----- looking up folders

  /** The row of the folder with a name in another folder. */
  ghost function ChildNamed(t: Tree, p: int, name: string): (r: Option<int>)
    ensures r.Some? ==> IsChild(t, r.value, p, name)
    ensures r.None? ==> forall c :: !IsChild(t, c, p, name)
  {
    if c :| IsChild(t, c, p, name) then Some(c) else None
  }

  /** The folder that a list of names leads to. */
  ghost function Walk(t: Tree, f: int, names: seq<string>): Option<int> {
    if names == [] then Some(f)
    else
      var d := Walk(t, f, names[..|names| - 1]);
      if d == None then None else ChildNamed(t, d.value, names[|names| - 1])
  }

  /** The names of a folder lead to it. */
  lemma {:induction false} WalkNames(t: Tree, f: int)
    requires Valid(t) && f in t.folders
    ensures Walk(t, t.root, Names(t, f)) == Some(f)
    decreases t.level[f]
  {
    if f != t.root {
      WalkNames(t, Parent(t, f));
      assert Names(t, f)[..|Names(t, f)| - 1] == Names(t, Parent(t, f));
      assert IsChild(t, f, Parent(t, f), t.folders[f].name);
    }
  }

  /** A list of names leads only to the folder with these names. */
  lemma {:induction false} NamesWalked(t: Tree, names: seq<string>)
    requires Valid(t) && Walk(t, t.root, names).Some?
    ensures Walk(t, t.root, names).value in t.folders && Names(t, Walk(t, t.root, names).value) == names
  {
    if names != [] {
      NamesWalked(t, names[..|names| - 1]);
    }
  }

  lemma {:induction false} NamesAreValid(t: Tree, f: int)
    requires Valid(t) && f in t.folders
    ensures forall n :: n in Names(t, f) ==> ValidName(n)
    decreases t.level[f]
  {
    if f != t.root {
      NamesAreValid(t, Parent(t, f));
    }
  }

  // ----- "." and ".."

  /** The components that are left when "." and ".." are resolved; none if that climbs above the root. */
  function Resolved(tokens: seq<string>): Option<seq<string>> {
    if tokens == [] then Some([])
    else
      var front, last := Resolved(tokens[..|tokens| - 1]), tokens[|tokens| - 1];
      if front == None || last == "." then front
      else if last != ".." then Some(front.value + [last])
      else if front.value == [] then None
      else Some(front.value[..|front.value| - 1])
  }

  function Depth(tokens: seq<string>): int {
    if tokens == [] then 0
    else
      var last := tokens[|tokens| - 1];
      Depth(tokens[..|tokens| - 1]) + if last == "." then 0 else if last == ".." then -1 else 1
  }

  /** A path climbs above the root if a first part of it has more steps up than steps down. */
  ghost predicate Climbs(tokens: seq<string>) {
    exists k :: 0 <= k <= |tokens| && Depth(tokens[..k]) < 0
  }

  lemma ClimbsSnoc(tokens: seq<string>)
    requires tokens != []
    ensures Climbs(tokens) <==> Climbs(tokens[..|tokens| - 1]) || Depth(tokens) < 0
  {
    hide Depth;
    var n := |tokens|;
    var front := tokens[..n - 1];
    assert tokens[..n] == tokens;
    assert forall k :: 0 <= k < n ==> front[..k] == tokens[..k];
    if Climbs(tokens) {
      var k :| 0 <= k <= n && Depth(tokens[..k]) < 0;
      assert k < n ==> Depth(front[..k]) < 0;
    }
    if Climbs(front) {
      var k :| 0 <= k < n && Depth(front[..k]) < 0;
      assert Depth(tokens[..k]) < 0;
    }
  }

  /** Resolution fails exactly for paths that climb above the root. */
  lemma {:induction false} FailsIffClimbs(tokens: seq<string>)
    ensures Resolved(tokens) == None <==> Climbs(tokens)
    ensures Resolved(tokens).Some? ==> |Resolved(tokens).value| == Depth(tokens)
  {
    if tokens != [] {
      hide Climbs;
      FailsIffClimbs(tokens[..|tokens| - 1]);
      ClimbsSnoc(tokens);
    }
  }

  /** What is left are components without "." and "..". */
  lemma {:induction false} ResolvedIsPlain(tokens: seq<string>)
    requires forall x :: x in tokens ==> Piece(x)
    ensures Resolved(tokens).Some? ==> forall x :: x in Resolved(tokens).value ==> ValidName(x)
  {
    if tokens != [] {
      var front, last := tokens[..|tokens| - 1], tokens[|tokens| - 1];
      assert last in tokens && tokens == front + [last];
      ResolvedIsPlain(front);
    }
  }

  lemma {:induction false} ResolvedAlready(names: seq<string>)
    requires forall x :: x in names ==> ValidName(x)
    ensures Resolved(names) == Some(names)
  {
    if names != [] {
      var front, last := names[..|names| - 1], names[|names| - 1];
      assert last in names && names == front + [last];
      ResolvedAlready(front);
    }
  }

  /** Walking the tree component by component, where "." stays and ".." goes to the parent. */
  ghost function Follow(t: Tree, tokens: seq<string>): Option<int>
    requires Valid(t)
  {
    if tokens == [] then Some(t.root)
    else
      var d, last := Follow(t, tokens[..|tokens| - 1]), tokens[|tokens| - 1];
      if d == None || last == "." then d
      else if last == ".." then if d.value in t.folders then t.folders[d.value].parent else None
      else ChildNamed(t, d.value, last)
  }

  /** If the tree can be walked along a path, its resolved components lead to the same folder. */
  lemma {:induction false} ResolvedLeadsThere(t: Tree, tokens: seq<string>)
    requires Valid(t) && Follow(t, tokens).Some?
    ensures Resolved(tokens).Some? && Walk(t, t.root, Resolved(tokens).value) == Follow(t, tokens)
  {
    hide Valid;
    if tokens != [] {
      var front, last := tokens[..|tokens| - 1], tokens[|tokens| - 1];
      ResolvedLeadsThere(t, front);
      var names := Resolved(front).value;
      NamesWalked(t, names);
      if last == ".." {
        UpOne(t, names);
      } else if last != "." {
        assert (names + [last])[..|names|] == names;
      }
    }
  }

  /** Going up from where some names lead is the same as leaving out the last one. */
  lemma UpOne(t: Tree, names: seq<string>)
    requires Valid(t) && Walk(t, t.root, names).Some? && Walk(t, t.root, names).value in t.folders
    requires t.folders[Walk(t, t.root, names).value].parent.Some?
    ensures names != [] && Walk(t, t.root, names[..|names| - 1]) == t.folders[Walk(t, t.root, names).value].parent
  {
  }
}
