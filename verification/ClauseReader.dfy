/**
 * Reading the text of clauses back: the text determines the clause, so that what the clause denotes is what
 * the text says.
 */
module ClauseReader {
  import opened Options
  import opened Text
  import opened Clauses

  function Strip(s: string, prefix: string): Option<string> {
    if prefix <= s then Some(s[|prefix|..]) else None
  }

  lemma Stripped(prefix: string, rest: string)
    ensures Strip(prefix + rest, prefix) == Some(rest)
  {
  }

  // ----- numbers

  function DigitCount(s: string): (k: nat)
    ensures k <= |s| && forall i :: 0 <= i < k ==> IsDigit(s[i])
  {
    if s != "" && IsDigit(s[0]) then 1 + DigitCount(s[1..]) else 0
  }

  function ReadNat(s: string): Option<(nat, string)> {
    var k := DigitCount(s);
    if k == 0 then None else Some((ReadDigits(s[..k], 0), s[k..]))
  }

  function ReadNumber(s: string): Option<(int, string)> {
    if s != "" && s[0] == '-' then
      var r := ReadNat(s[1..]);
      if r == None then None else Some((0 - r.value.0, r.value.1))
    else ReadNat(s)
  }

  predicate EndsNumber(rest: string) {
    rest == "" || !IsDigit(rest[0])
  }

  lemma {:induction false} CountDigits(s: string, rest: string)
    requires (forall i :: 0 <= i < |s| ==> IsDigit(s[i])) && EndsNumber(rest)
    ensures DigitCount(s + rest) == |s|
  {
    if s == "" {
      assert s + rest == rest;
    } else {
      assert (s + rest)[1..] == s[1..] + rest;
      CountDigits(s[1..], rest);
    }
  }

  lemma NatIsRead(n: nat, rest: string)
    requires EndsNumber(rest)
    ensures ReadNat(Digits(n) + rest) == Some((n, rest))
  {
    CountDigits(Digits(n), rest);
    ReadShownDigits(n);
    var s := Digits(n) + rest;
    assert s[..|Digits(n)|] == Digits(n) && s[|Digits(n)|..] == rest;
  }

  lemma NumberIsRead(n: int, rest: string)
    requires EndsNumber(rest)
    ensures ReadNumber(Show(n) + rest) == Some((n, rest))
  {
    hide ReadNat, Digits;
    var s := Show(n) + rest;
    if n < 0 {
      NatIsRead(-n, rest);
      assert s[1..] == Digits(-n) + rest;
    } else {
      NatIsRead(n, rest);
      assert IsDigit(s[0]);
    }
  }

  // ----- conditions

  /** A comparison with a quoted number: equal, or not equal. */
  function ReadComparison(s: string): Option<(int, bool, string)> {
    var negated := s != "" && s[0] == '!';
    var equals := Strip(if negated then s[1..] else s, "='");
    if equals == None then None
    else
      var number := ReadNumber(equals.value);
      if number == None then None
      else
        var rest := Strip(number.value.1, "'");
        if rest == None then None else Some((number.value.0, negated, rest.value))
  }

  /** The numbers of a subset, separated by commas, up to the closing parenthesis. */
  function ReadTriple(s: string): Option<(Atom, string)> {
    var start := ReadNumber(s);
    if start == None || Strip(start.value.1, ",") == None then None
    else
      var stride := ReadNumber(Strip(start.value.1, ",").value);
      if stride == None || Strip(stride.value.1, ",") == None then None
      else
        var last := ReadNumber(Strip(stride.value.1, ",").value);
        if last == None || Strip(last.value.1, ")") == None then None
        else Some((Subset(start.value.0, stride.value.0, last.value.0), Strip(last.value.1, ")").value))
  }

  function ReadAtom(s: string): Option<(Atom, bool, string)> {
    var level, folder := Strip(s, LEVEL), Strip(s, FOLDER);
    if level.Some? then
      var r := ReadComparison(level.value);
      if r == None then None else Some((Level(r.value.0), r.value.1, r.value.2))
    else if folder.Some? then
      var r := ReadComparison(folder.value);
      if r == None then None else Some((InFolder(r.value.0), r.value.1, r.value.2))
    else
      var not := Strip(s, "NOT ");
      var subset := Strip(if not.Some? then not.value else s, SUBSET);
      if subset == None then None
      else
        var r := ReadTriple(subset.value);
        if r == None then None else Some((r.value.0, not.Some?, r.value.1))
  }

  lemma ComparisonIsRead(n: int, negated: bool, rest: string)
    ensures ReadComparison(ComparisonText(n, negated) + rest) == Some((n, negated, rest))
  {
    hide ReadNumber, Show, Strip;
    var tail := "'" + rest;
    var equals := "='" + (Show(n) + tail);
    var s := ComparisonText(n, negated) + rest;
    assert negated ==> s[1..] == equals && s[0] == '!';
    assert !negated ==> s == equals && s[0] == '=';
    Stripped("='", Show(n) + tail);
    NumberIsRead(n, tail);
    Stripped("'", rest);
  }

  lemma TripleIsRead(start: int, stride: int, last: int, rest: string)
    ensures ReadTriple(TripleText(start, stride, last) + rest) == Some((Subset(start, stride, last), rest))
  {
    hide ReadNumber, Show, Strip;
    var c := ")" + rest;
    var b := "," + (Show(last) + c);
    var a := "," + (Show(stride) + b);
    assert TripleText(start, stride, last) + rest == Show(start) + a;
    NumberIsRead(start, a);
    Stripped(",", Show(stride) + b);
    NumberIsRead(stride, b);
    Stripped(",", Show(last) + c);
    NumberIsRead(last, c);
    Stripped(")", rest);
  }

  lemma Regroup(a: string, b: string, c: string, d: string)
    ensures a + b + c + d == a + (b + (c + d)) && "" + (b + (c + d)) == b + (c + d)
  {
  }

  lemma StartsWith(prefix: string, rest: string)
    requires prefix != ""
    ensures prefix + rest != "" && (prefix + rest)[0] == prefix[0]
  {
  }

  /** A text that starts with the name of the plugin, or with NOT, is no comparison. */
  lemma NoComparison(s: string)
    requires s != "" && (s[0] == 'm' || s[0] == 'N')
    ensures Strip(s, LEVEL) == None && Strip(s, FOLDER) == None && (s[0] == 'm' ==> Strip(s, "NOT ") == None)
  {
    hide Strip;
    OtherStart(s, LEVEL);
    OtherStart(s, FOLDER);
    if s[0] == 'm' {
      OtherStart(s, "NOT ");
    }
  }

  lemma SubsetIsRead(start: int, stride: int, last: int, negated: bool, rest: string)
    ensures ReadAtom(AtomText(Subset(start, stride, last), negated) + rest) ==
      Some((Subset(start, stride, last), negated, rest))
  {
    hide ReadComparison, ReadTriple, TripleText, Strip;
    TripleIsRead(start, stride, last, rest);
    var tail := TripleText(start, stride, last) + rest;
    Regroup(if negated then "NOT " else "", SUBSET, TripleText(start, stride, last), rest);
    Stripped(SUBSET, tail);
    StartsWith(SUBSET, tail);
    if negated {
      StartsWith("NOT ", SUBSET + tail);
      NoComparison("NOT " + (SUBSET + tail));
      Stripped("NOT ", SUBSET + tail);
    } else {
      NoComparison(SUBSET + tail);
    }
  }

  /** The text of a condition is read as that condition. */
  lemma AtomIsRead(a: Atom, negated: bool, rest: string)
    ensures ReadAtom(AtomText(a, negated) + rest) == Some((a, negated, rest))
  {
    hide ReadComparison, ReadTriple, ComparisonText, Strip;
    match a
    case Level(n) =>
      ComparisonIsRead(n, negated, rest);
      assert AtomText(a, negated) + rest == LEVEL + (ComparisonText(n, negated) + rest);
      Stripped(LEVEL, ComparisonText(n, negated) + rest);
    case InFolder(n) =>
      ComparisonIsRead(n, negated, rest);
      var s := FOLDER + (ComparisonText(n, negated) + rest);
      assert AtomText(a, negated) + rest == s;
      Stripped(FOLDER, ComparisonText(n, negated) + rest);
      OtherStart(s, LEVEL);
    case Subset(start, stride, last) => SubsetIsRead(start, stride, last, negated, rest);
  }

  lemma OtherStart(s: string, prefix: string)
    requires s != "" && prefix != "" && s[0] != prefix[0]
    ensures Strip(s, prefix) == None
  {
  }

  // ----- clauses

  /** Conditions of the same kind up to the closing parenthesis: negated ones joined by AND, others by OR. */
  function ReadChain(s: string): Option<(Group, string)>
    decreases |s|
  {
    var first := ReadAtom(s);
    if first == None then None
    else
      var (a, negated, rest) := first.value;
      if Strip(rest, ")").Some? then Some((Group(negated, [a]), Strip(rest, ")").value))
      else
        var more := Strip(rest, Separator(negated));
        if more == None || |more.value| >= |s| then None
        else
          var r := ReadChain(more.value);
          if r == None || r.value.0.negated != negated then None
          else Some((Group(negated, [a] + r.value.0.atoms), r.value.1))
  }

  /** Clauses in parentheses, joined by AND. */
  function ReadGroups(s: string): Option<seq<Group>>
    decreases |s|
  {
    var open := Strip(s, "(");
    if open == None || ReadChain(open.value) == None then None
    else
      var (g, rest) := ReadChain(open.value).value;
      if rest == "" then Some([g])
      else
        var more := Strip(rest, AND1);
        if more == None || |more.value| >= |s| then None
        else
          var r := ReadGroups(more.value);
          if r == None then None else Some([g] + r.value)
  }

  /** The whole text: the condition of the join, clauses, or the join and clauses. */
  function ReadWhere(s: string): Option<(bool, seq<Group>)> {
    var base := Strip(s, BASE);
    if base == None then
      var r := ReadGroups(s);
      if r == None then None else Some((false, r.value))
    else if base.value == "" then Some((true, []))
    else
      var more := Strip(base.value, AND1);
      if more == None || ReadGroups(more.value) == None then None
      else Some((true, ReadGroups(more.value).value))
  }

  lemma ChainFront(first: bool, a: Atom, atoms: seq<Atom>, negated: bool)
    ensures Chain(first, [a] + atoms, negated) == Link(first, a, negated) + Chain(false, atoms, negated)
  {
    hide Chain, Link;
    ChainConcat(first, [a], atoms, negated);
    ChainOne(first, a, negated);
  }

  lemma ChainAfterOther(atoms: seq<Atom>, negated: bool)
    requires atoms != []
    ensures Chain(false, atoms, negated) == Separator(negated) + Chain(true, atoms, negated)
  {
    hide Chain, AtomText;
    assert atoms == [atoms[0]] + atoms[1..];
    ChainFront(false, atoms[0], atoms[1..], negated);
    ChainFront(true, atoms[0], atoms[1..], negated);
  }

  lemma AtomTextNotEmpty(a: Atom, negated: bool)
    ensures AtomText(a, negated) != ""
  {
  }

  lemma {:induction false} ChainIsRead(atoms: seq<Atom>, negated: bool, rest: string)
    requires atoms != []
    ensures ReadChain(Chain(true, atoms, negated) + ")" + rest) == Some((Group(negated, atoms), rest))
  {
    hide Chain, AtomText, ReadAtom, Strip;
    var a, more := atoms[0], atoms[1..];
    assert atoms == [a] + more;
    ChainFront(true, a, more, negated);
    AtomTextNotEmpty(a, negated);
    var s, tail := Chain(true, atoms, negated) + ")" + rest, Chain(false, more, negated) + ")" + rest;
    assert s == AtomText(a, negated) + tail;
    AtomIsRead(a, negated, tail);
    if more == [] {
      NoChain(false, negated);
      assert tail == ")" + rest && atoms == [a];
      Stripped(")", rest);
    } else {
      ChainAfterOther(more, negated);
      ChainIsRead(more, negated, rest);
      var next := Chain(true, more, negated) + ")" + rest;
      assert tail == Separator(negated) + next;
      Stripped(Separator(negated), next);
      OtherStart(tail, ")");
    }
  }

  lemma WhereSnoc(joined: bool, groups: seq<Group>, g: Group)
    ensures WhereText(joined, groups + [g]) ==
      WhereText(joined, groups) + (if groups == [] && !joined then "" else AND1) + GroupText(g)
  {
    assert (groups + [g])[..|groups|] == groups;
  }

  lemma NoFilters()
    ensures WhereText(false, []) == "" && WhereText(true, []) == BASE
  {
  }

  lemma {:induction false} WhereFront(g: Group, groups: seq<Group>)
    ensures WhereText(false, [g] + groups) ==
      GroupText(g) + if groups == [] then "" else AND1 + WhereText(false, groups)
  {
    hide GroupText, WhereText;
    NoFilters();
    if groups == [] {
      WhereSnoc(false, [], g);
      assert [] + [g] == [g] + groups;
      assert "" + "" + GroupText(g) == GroupText(g) + "";
    } else {
      var front, last := groups[..|groups| - 1], groups[|groups| - 1];
      assert groups == front + [last] && [g] + groups == ([g] + front) + [last];
      WhereFront(g, front);
      WhereSnoc(false, [g] + front, last);
      WhereSnoc(false, front, last);
      var a, b, c := GroupText(g), WhereText(false, front), GroupText(last);
      if front == [] {
        assert a + "" + AND1 + c == a + (AND1 + ("" + "" + c));
      } else {
        assert a + (AND1 + b) + AND1 + c == a + (AND1 + (b + AND1 + c));
      }
    }
  }

  lemma {:induction false} WhereJoined(groups: seq<Group>)
    ensures WhereText(true, groups) == BASE + if groups == [] then "" else AND1 + WhereText(false, groups)
  {
    hide GroupText, WhereText;
    NoFilters();
    if groups == [] {
      assert BASE + "" == BASE;
    } else {
      var front, last := groups[..|groups| - 1], groups[|groups| - 1];
      assert groups == front + [last];
      WhereJoined(front);
      WhereSnoc(true, front, last);
      WhereSnoc(false, front, last);
      var b, c := WhereText(false, front), GroupText(last);
      if front == [] {
        assert BASE + "" + AND1 + c == BASE + (AND1 + ("" + "" + c));
      } else {
        assert BASE + (AND1 + b) + AND1 + c == BASE + (AND1 + (b + AND1 + c));
      }
    }
  }

  lemma {:induction false} GroupsAreRead(groups: seq<Group>)
    requires groups != [] && forall g :: g in groups ==> g.atoms != []
    ensures ReadGroups(WhereText(false, groups)) == Some(groups)
    ensures WhereText(false, groups) != "" && WhereText(false, groups)[0] == '('
  {
    hide WhereText, Chain, ReadChain, Strip;
    var g, more := groups[0], groups[1..];
    assert groups == [g] + more && g in groups;
    WhereFront(g, more);
    var tail := if more == [] then "" else AND1 + WhereText(false, more);
    var inner := Chain(true, g.atoms, g.negated) + ")" + tail;
    assert WhereText(false, groups) == "(" + inner;
    Stripped("(", inner);
    ChainIsRead(g.atoms, g.negated, tail);
    if more == [] {
      assert groups == [g];
    } else {
      GroupsAreRead(more);
      Stripped(AND1, WhereText(false, more));
    }
  }

  /** The text of a query is read as its join and its filters. */
  lemma WhereIsRead(joined: bool, groups: seq<Group>)
    requires (joined || groups != []) && forall g :: g in groups ==> g.atoms != []
    ensures ReadWhere(WhereText(joined, groups)) == Some((joined, groups))
  {
    hide WhereText, ReadGroups, Strip;
    if joined {
      WhereJoined(groups);
      Stripped(BASE, if groups == [] then "" else AND1 + WhereText(false, groups));
      if groups != [] {
        GroupsAreRead(groups);
        Stripped(AND1, WhereText(false, groups));
      }
    } else {
      GroupsAreRead(groups);
      OtherStart(WhereText(false, groups), BASE);
    }
  }

  // ----- what a text denotes

  /** The rows that a text selects; no text selects all rows. */
  ghost predicate TextHolds(where: string, r: Row) {
    where == "" || (ReadWhere(where).Some? && WhereHolds(ReadWhere(where).value.0, ReadWhere(where).value.1, r))
  }

  /** The text of a query selects the rows that its join and its filters mean. */
  lemma TextMeans(joined: bool, groups: seq<Group>, r: Row)
    requires forall h :: h in groups ==> h.atoms != []
    ensures TextHolds(WhereText(joined, groups), r) <==>
      (joined ==> r.owner == r.container) && forall g :: g in groups ==> GroupHolds(g, r)
  {
    hide ReadWhere, WhereText, GroupHolds, WhereHolds;
    WhereMeans(joined, groups, r);
    WhereNotEmpty(joined, groups);
    if joined || groups != [] {
      WhereIsRead(joined, groups);
    }
  }

  /**
   * A filter that is added, to the join or to no text, after any filters, selects of the rows selected before those
   * that meet it.
   */
  lemma FilterSelects(joined: bool, groups: seq<Group>, g: Group, r: Row)
    requires g.atoms != [] && forall h :: h in groups ==> h.atoms != []
    ensures TextHolds(Extended(WhereText(joined, groups), g), r) <==>
            TextHolds(WhereText(joined, groups), r) && GroupHolds(g, r)
  {
    hide TextHolds, WhereText, Extended, GroupHolds;
    ExtendedIsWhere(joined, groups, g, r);
    TextMeans(joined, groups, r);
    TextMeans(joined, groups + [g], r);
  }

  /** Of the rows selected before, the negated filter selects exactly those that the positive one does not. */
  lemma NegationSelectsTheOthers(joined: bool, groups: seq<Group>, atoms: seq<Atom>, r: Row)
    requires atoms != [] && forall h :: h in groups ==> h.atoms != []
    requires TextHolds(WhereText(joined, groups), r)
    ensures TextHolds(Extended(WhereText(joined, groups), Group(true, atoms)), r) <==>
            !TextHolds(Extended(WhereText(joined, groups), Group(false, atoms)), r)
  {
    hide TextHolds, Extended, WhereText, GroupHolds;
    FilterSelects(joined, groups, Group(true, atoms), r);
    FilterSelects(joined, groups, Group(false, atoms), r);
    NegationIsComplement(atoms, r);
  }
}
