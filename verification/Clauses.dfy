/**
 * The clauses that filters add to a query: their text, and the rows that they denote.
 */
module Clauses {
  import opened Text

  /**
   * What the clauses say about a row, which pairs a data cube with a container: the level, the id and the container
   * of the data cube, and the id and the folder of the container.
   */
  datatype Row = Row(level: int, id: int, owner: int, container: int, folder: int)

  datatype Atom =
    | Level(level: int)
    | Subset(start: int, stride: int, last: int)
    | InFolder(folder: int)

  /** The conditions of one filter, or with `negated` their opposites. */
  datatype Group = Group(negated: bool, atoms: seq<Atom>)

  const LEVEL := "datacube.level"
  const FOLDER := "container.idfolder"
  const SUBSET := "mysql.oph_is_in_subset(datacube.iddatacube,"
  const BASE := "datacube.idcontainer=container.idcontainer"
  const AND1 := " AND "
  const AND2 := " AND ("
  const OR := " OR "

  function ComparisonText(n: int, negated: bool): string {
    (if negated then "!" else "") + "='" + Show(n) + "'"
  }

  function TripleText(start: int, stride: int, last: int): string {
    Show(start) + "," + Show(stride) + "," + Show(last) + ")"
  }

  function AtomText(a: Atom, negated: bool): string {
    match a
    case Level(n) => LEVEL + ComparisonText(n, negated)
    case Subset(start, stride, last) => (if negated then "NOT " else "") + SUBSET + TripleText(start, stride, last)
    case InFolder(id) => FOLDER + ComparisonText(id, negated)
  }

  function Separator(negated: bool): string {
    if negated then AND1 else OR
  }

  function Link(first: bool, a: Atom, negated: bool): string {
    (if first then "" else Separator(negated)) + AtomText(a, negated)
  }

  /** Conditions one after the other; `first` tells that there are none before them. */
  function Chain(first: bool, atoms: seq<Atom>, negated: bool): string {
    if atoms == [] then ""
    else
      var n := |atoms| - 1;
      Chain(first, atoms[..n], negated) + Link(first && n == 0, atoms[n], negated)
  }

  function GroupText(g: Group): string {
    "(" + Chain(true, g.atoms, g.negated) + ")"
  }

  /** The text of a query: the condition that joins data cubes and containers, if it is there, and the filters. */
  function WhereText(joined: bool, groups: seq<Group>): string {
    if groups == [] then if joined then BASE else ""
    else
      var n := |groups| - 1;
      WhereText(joined, groups[..n]) + (if n == 0 && !joined then "" else AND1) + GroupText(groups[n])
  }

  /** The text with one more filter. */
  function Extended(where: string, g: Group): string {
    where + (if where == "" then "" else AND1) + GroupText(g)
  }

  /** The text when the parenthesis of the filter is open. */
  function Opened(where: string): string {
    if where == "" then "(" else where + AND2
  }

  lemma ExtendedParts(where: string, g: Group)
    ensures Extended(where, g) == Opened(where) + Chain(true, g.atoms, g.negated) + ")"
    ensures |Extended(where, g)| == |Opened(where)| + |Chain(true, g.atoms, g.negated)| + 1
  {
    hide Chain;
    var chain := Chain(true, g.atoms, g.negated);
    if where == "" {
      assert where + "" + ("(" + chain + ")") == "(" + chain + ")";
    } else {
      assert AND2 == AND1 + "(";
      assert where + AND1 + ("(" + chain + ")") == where + (AND1 + "(") + chain + ")";
    }
  }

  /** The conditions as they stand in the text. */
  lemma AtomTexts(n: int, start: int, stride: int, last: int)
    ensures AtomText(Level(n), false) == "datacube.level" + ("='" + Show(n) + "'")
    ensures AtomText(Level(n), true) == "datacube.level" + ("!='" + Show(n) + "'")
    ensures AtomText(InFolder(n), false) == "container.idfolder" + ("='" + Show(n) + "'")
    ensures AtomText(InFolder(n), true) == "container.idfolder" + ("!='" + Show(n) + "'")
    ensures AtomText(Subset(start, stride, last), false) == "mysql.oph_is_in_subset(datacube.iddatacube,"
              + (Show(start) + "," + Show(stride) + "," + Show(last) + ")")
    ensures AtomText(Subset(start, stride, last), true) == "NOT " + "mysql.oph_is_in_subset(datacube.iddatacube,"
              + (Show(start) + "," + Show(stride) + "," + Show(last) + ")")
    ensures WhereText(true, []) == "datacube.idcontainer=container.idcontainer"
    ensures Separator(false) == " OR " && Separator(true) == " AND "
  {
    hide Show;
    var number := Show(n);
    assert "" + "='" + number + "'" == "='" + number + "'";
    assert "!" + "='" == "!='";
    assert "" + SUBSET == SUBSET;
  }

  // ----- the rows that are meant

  ghost predicate AtomHolds(a: Atom, r: Row) {
    match a
    case Level(n) => r.level == n
    case Subset(start, stride, last) => r.id <= last && exists k: nat :: r.id == start + k * stride
    case InFolder(id) => r.folder == id
  }

  /** Negated conditions are joined by AND, the others by OR. */
  ghost predicate ChainHolds(atoms: seq<Atom>, negated: bool, r: Row) {
    if atoms == [] then negated
    else
      var n := |atoms| - 1;
      var last := AtomHolds(atoms[n], r) != negated;
      if negated then ChainHolds(atoms[..n], negated, r) && last else ChainHolds(atoms[..n], negated, r) || last
  }

  ghost predicate GroupHolds(g: Group, r: Row) {
    ChainHolds(g.atoms, g.negated, r)
  }

  ghost predicate WhereHolds(joined: bool, groups: seq<Group>, r: Row) {
    if groups == [] then joined ==> r.owner == r.container
    else WhereHolds(joined, groups[..|groups| - 1], r) && GroupHolds(groups[|groups| - 1], r)
  }

  /** The positive conditions hold for the rows that meet one of them, the negated ones for all others. */
  lemma {:induction false} ChainMeans(atoms: seq<Atom>, negated: bool, r: Row)
    ensures ChainHolds(atoms, negated, r) <==> ((exists a :: a in atoms && AtomHolds(a, r)) != negated)
  {
    if atoms != [] {
      var n := |atoms| - 1;
      ChainMeans(atoms[..n], negated, r);
      assert atoms == atoms[..n] + [atoms[n]];
      assert atoms[n] in atoms;
    }
  }

  /** The negated filter denotes the complement of the positive one. */
  lemma NegationIsComplement(atoms: seq<Atom>, r: Row)
    ensures GroupHolds(Group(true, atoms), r) <==> !GroupHolds(Group(false, atoms), r)
  {
    ChainMeans(atoms, true, r);
    ChainMeans(atoms, false, r);
  }

  /** The join and the filters of a query hold together. */
  lemma {:induction false} WhereMeans(joined: bool, groups: seq<Group>, r: Row)
    ensures WhereHolds(joined, groups, r) <==>
      (joined ==> r.owner == r.container) && forall g :: g in groups ==> GroupHolds(g, r)
  {
    if groups != [] {
      var n := |groups| - 1;
      WhereMeans(joined, groups[..n], r);
      assert groups == groups[..n] + [groups[n]];
      assert groups[n] in groups;
    }
  }

  /** A text that holds some filters holds one more when it is extended, and denotes the rows that meet it, too. */
  lemma {:induction false} ExtendedIsWhere(joined: bool, groups: seq<Group>, g: Group, r: Row)
    ensures WhereText(joined, groups + [g]) == Extended(WhereText(joined, groups), g)
    ensures WhereHolds(joined, groups + [g], r) <==> WhereHolds(joined, groups, r) && GroupHolds(g, r)
  {
    hide GroupHolds;
    assert (groups + [g])[..|groups|] == groups;
    WhereNotEmpty(joined, groups);
  }

  lemma WhereNotEmpty(joined: bool, groups: seq<Group>)
    ensures WhereText(joined, groups) == "" <==> !joined && groups == []
  {
    assert |BASE| > 0;
  }

  // ----- texts put together

  lemma ChainSnoc(first: bool, s: seq<Atom>, a: Atom, negated: bool)
    ensures Chain(first, s + [a], negated) == Chain(first, s, negated) + Link(first && s == [], a, negated)
  {
    assert (s + [a])[..|s|] == s;
  }

  lemma NoChain(first: bool, negated: bool)
    ensures Chain(first, [], negated) == ""
  {
  }

  lemma {:induction false} ChainConcat(first: bool, a: seq<Atom>, b: seq<Atom>, negated: bool)
    ensures Chain(first, a + b, negated) == Chain(first, a, negated) + Chain(first && a == [], b, negated)
  {
    hide Chain, Link;
    if b == [] {
      NoChain(first && a == [], negated);
      assert a + b == a;
    } else {
      var front, x := b[..|b| - 1], b[|b| - 1];
      ChainConcat(first, a, front, negated);
      assert a + b == (a + front) + [x] && b == front + [x];
      ChainSnoc(first, a + front, x, negated);
      ChainSnoc(first && a == [], front, x, negated);
    }
  }

  lemma ChainOne(first: bool, a: Atom, negated: bool)
    ensures Chain(first, [a], negated) == Link(first, a, negated)
  {
    assert [a][..0] == [];
  }

  /** A first part of some conditions needs no more room. */
  lemma ChainPrefix(first: bool, atoms: seq<Atom>, k: nat, negated: bool)
    requires k <= |atoms|
    ensures |Chain(first, atoms[..k], negated)| <= |Chain(first, atoms, negated)|
  {
    assert atoms == atoms[..k] + atoms[k..];
    ChainConcat(first, atoms[..k], atoms[k..], negated);
  }
}
