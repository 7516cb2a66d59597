/**
 * The folders that a recursive path filter names, in the order in which it finds them: the folder itself and
 * its descendants, as far down as the depth allows.
 */
module Subfolders {
  import opened Options
  import opened Folders
  import opened FolderPaths

  /** For each folder, its subfolders in the order in which the database returns them. */
  type Rows = map<int, seq<int>>

  predicate IsSubfolder(t: Tree, c: int, p: int) {
    c in t.folders && t.folders[c].parent == Some(p)
  }

  ghost predicate NoRepeat(s: seq<int>) {
    forall i, j :: 0 <= i < j < |s| ==> s[i] != s[j]
  }

  ghost predicate RowsOf(t: Tree, rows: Rows) {
    && Valid(t)
    && (forall f :: f in t.folders ==> f in rows && NoRepeat(rows[f]))
    && (forall f, c :: f in t.folders ==> (c in rows[f] <==> IsSubfolder(t, c, f)))
  }

  /** The folders further down in the tree: the recursion ends because there are fewer and fewer of them. */
  ghost function Deeper(t: Tree, f: int): set<int>
    requires Valid(t) && f in t.folders
  {
    set g | g in t.folders && t.level[g] > t.level[f]
  }

  lemma DeeperShrinks(t: Tree, c: int, f: int)
    requires Valid(t) && f in t.folders && IsSubfolder(t, c, f)
    ensures Deeper(t, c) < Deeper(t, f) && t.level[c] == t.level[f] + 1 && c != t.root
  {
    assert c in Deeper(t, f) && c !in Deeper(t, c);
  }

  // ----- the flag: positive for all descendants, zero for none, -d for those less than d levels down

  function NextFlag(flag: int): int {
    if flag < 0 then flag + 1 else flag
  }

  predicate Near(flag: int, top: int, level: int) {
    flag > 0 || level == top || level - top < -flag
  }

  ghost function Listed(t: Tree, rows: Rows, f: int, flag: int): seq<int>
    requires RowsOf(t, rows) && f in t.folders
    decreases Deeper(t, f), 1, 0
  {
    [f] + if NextFlag(flag) == 0 then [] else ListedAll(t, rows, f, rows[f], NextFlag(flag))
  }

  ghost function ListedAll(t: Tree, rows: Rows, f: int, ids: seq<int>, flag: int): seq<int>
    requires RowsOf(t, rows) && f in t.folders && forall c :: c in ids ==> IsSubfolder(t, c, f)
    decreases Deeper(t, f), 0, |ids|
  {
    if ids == [] then []
    else
      var n := |ids| - 1;
      DeeperShrinks(t, ids[n], f);
      ListedAll(t, rows, f, ids[..n], flag) + Listed(t, rows, ids[n], flag)
  }

  lemma {:induction false} ListedPrefix(t: Tree, rows: Rows, f: int, ids: seq<int>, k: nat, flag: int)
    requires RowsOf(t, rows) && f in t.folders && (forall c :: c in ids ==> IsSubfolder(t, c, f)) && k <= |ids|
    ensures forall c :: c in ids[..k] ==> IsSubfolder(t, c, f)
    ensures ListedAll(t, rows, f, ids[..k], flag) <= ListedAll(t, rows, f, ids, flag)
  {
    hide Listed, RowsOf, Deeper;
    if k == |ids| {
      assert ids[..k] == ids;
    } else {
      ListedPrefix(t, rows, f, ids[..|ids| - 1], k, flag);
      assert ids[..|ids| - 1][..k] == ids[..k];
    }
  }

  // ----- subtrees

  lemma {:induction false} UnderLevel(t: Tree, top: int, x: int)
    requires Valid(t) && x in t.folders && top in t.folders && Under(t, top, x)
    ensures t.level[top] <= t.level[x] && (t.level[top] == t.level[x] ==> top == x)
    decreases t.level[x]
  {
    if x != top {
      UnderLevel(t, top, Parent(t, x));
    }
  }

  lemma {:induction false} UnderTransitive(t: Tree, a: int, b: int, x: int)
    requires Valid(t) && x in t.folders && b in t.folders && Under(t, a, b) && Under(t, b, x)
    ensures Under(t, a, x)
    decreases t.level[x]
  {
    if x != b {
      UnderTransitive(t, a, b, Parent(t, x));
    }
  }

  /** A folder has one ancestor on each level. */
  lemma {:induction false} OneAncestor(t: Tree, a: int, b: int, x: int)
    requires Valid(t) && x in t.folders && a in t.folders && b in t.folders
    requires Under(t, a, x) && Under(t, b, x) && t.level[a] == t.level[b]
    ensures a == b
    decreases t.level[x]
  {
    UnderLevel(t, a, x);
    UnderLevel(t, b, x);
    if x != a && x != b {
      OneAncestor(t, a, b, Parent(t, x));
    }
  }

  /** A proper descendant is in the subtree of one of the subfolders. */
  lemma {:induction false} ThroughSubfolder(t: Tree, f: int, x: int) returns (c: int)
    requires Valid(t) && x in t.folders && f in t.folders && Under(t, f, x) && x != f
    ensures IsSubfolder(t, c, f) && Under(t, c, x)
    decreases t.level[x]
  {
    if Parent(t, x) == f {
      c := x;
    } else {
      c := ThroughSubfolder(t, f, Parent(t, x));
    }
  }

  lemma SubfolderUnder(t: Tree, c: int, f: int)
    requires Valid(t) && f in t.folders && IsSubfolder(t, c, f)
    ensures c in t.folders && Under(t, f, c) && t.level[c] == t.level[f] + 1 && c != f
  {
  }

  // ----- exactly the folders at the given distance, each once

  /** x is a folder that should be listed for f. */
  ghost predicate Wanted(t: Tree, f: int, flag: int, x: int)
    requires Valid(t) && f in t.folders
  {
    x in t.folders && Under(t, f, x) && Near(flag, t.level[f], t.level[x])
  }

  lemma {:induction false} ListedExactly(t: Tree, rows: Rows, f: int, flag: int)
    requires RowsOf(t, rows) && f in t.folders
    ensures forall x :: x in Listed(t, rows, f, flag) <==> Wanted(t, f, flag, x)
    ensures NoRepeat(Listed(t, rows, f, flag))
    decreases Deeper(t, f), 1, 0
  {
    hide Under, Valid, Deeper, Wanted, NoRepeat;
    var g := NextFlag(flag);
    if g != 0 {
      AllListedExactly(t, rows, f, rows[f], g);
      var rest := ListedAll(t, rows, f, rows[f], g);
      forall x
        ensures x in [f] + rest <==> Wanted(t, f, flag, x)
        ensures x in rest ==> x != f
      {
        WantedSplit(t, rows, f, flag, x);
      }
      FrontNoRepeat(f, rest);
    } else {
      forall x
        ensures x in [f] <==> Wanted(t, f, flag, x)
      {
        WantedAlone(t, f, flag, x);
      }
      FrontNoRepeat(f, []);
      assert [f] + [] == [f];
    }
  }

  lemma FrontNoRepeat(f: int, rest: seq<int>)
    requires f !in rest && (rest == [] || NoRepeat(rest))
    ensures NoRepeat([f] + rest)
  {
  }

  /** Without recursion only the folder itself is wanted. */
  lemma WantedAlone(t: Tree, f: int, flag: int, x: int)
    requires Valid(t) && f in t.folders && NextFlag(flag) == 0
    ensures x == f <==> Wanted(t, f, flag, x)
  {
    if x in t.folders && Under(t, f, x) {
      UnderLevel(t, f, x);
    }
  }

  /** With recursion, the folder itself and what is wanted of its subfolders. */
  lemma WantedSplit(t: Tree, rows: Rows, f: int, flag: int, x: int)
    requires RowsOf(t, rows) && f in t.folders && NextFlag(flag) != 0
    ensures Wanted(t, f, flag, x) <==>
      x == f || exists c :: c in rows[f] && c in t.folders && Wanted(t, c, NextFlag(flag), x)
    ensures (exists c :: c in rows[f] && c in t.folders && Wanted(t, c, NextFlag(flag), x)) ==> x != f
  {
    hide Valid, NoRepeat, Under;
    UnderSelf(t, f);
    if Wanted(t, f, flag, x) && x != f {
      var c := ThroughSubfolder(t, f, x);
      SubfolderUnder(t, c, f);
      UnderLevel(t, c, x);
      assert c in rows[f] && Wanted(t, c, NextFlag(flag), x);
    }
    forall c | c in rows[f] && c in t.folders && Wanted(t, c, NextFlag(flag), x)
      ensures Wanted(t, f, flag, x) && x != f
    {
      SubfolderUnder(t, c, f);
      UnderLevel(t, c, x);
      UnderTransitive(t, f, c, x);
    }
  }

  lemma UnderSelf(t: Tree, f: int)
    requires Valid(t) && f in t.folders
    ensures Under(t, f, f) && f in t.level
  {
  }

  lemma {:induction false} AllListedExactly(t: Tree, rows: Rows, f: int, ids: seq<int>, flag: int)
    requires RowsOf(t, rows) && f in t.folders && NoRepeat(ids) && forall c :: c in ids ==> IsSubfolder(t, c, f)
    ensures forall x :: x in ListedAll(t, rows, f, ids, flag) <==>
      exists c :: c in ids && c in t.folders && Wanted(t, c, flag, x)
    ensures NoRepeat(ListedAll(t, rows, f, ids, flag))
    decreases Deeper(t, f), 0, |ids|
  {
    hide Under, Valid, Deeper, Wanted, Listed;
    if ids != [] {
      var n := |ids| - 1;
      var front, c := ids[..n], ids[n];
      DeeperShrinks(t, c, f);
      AllListedExactly(t, rows, f, front, flag);
      ListedExactly(t, rows, c, flag);
      assert ids == front + [c];
      var a, b := ListedAll(t, rows, f, front, flag), Listed(t, rows, c, flag);
      forall x | x in a
        ensures x !in b
      {
        var d :| d in front && d in t.folders && Wanted(t, d, flag, x);
        NotBoth(t, f, d, c, flag, x);
      }
      Disjoint(a, b);
    }
  }

  lemma Disjoint(a: seq<int>, b: seq<int>)
    requires NoRepeat(a) && NoRepeat(b) && forall x :: x in a ==> x !in b
    ensures NoRepeat(a + b)
  {
    var s := a + b;
    forall i, j | 0 <= i < j < |s|
      ensures s[i] != s[j]
    {
      if i < |a| <= j {
        assert s[i] in a && s[j] in b;
      }
    }
  }

  lemma NotBoth(t: Tree, f: int, c: int, d: int, flag: int, x: int)
    requires Valid(t) && f in t.folders && IsSubfolder(t, c, f) && IsSubfolder(t, d, f) && c != d
    ensures !(Wanted(t, c, flag, x) && Wanted(t, d, flag, x))
  {
    if Wanted(t, c, flag, x) && Wanted(t, d, flag, x) {
      OneAncestor(t, c, d, x);
    }
  }
}
