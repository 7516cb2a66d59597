/**
 * The in-place sort of the linked list of arguments: a permutation of the same nodes, sorted by id
 * and stable, reached after finitely many passes.
 */
module ArgSort {
  import opened Chains

  /** One item of the list: its id and the arguments it stands for. */
  datatype Arguments = Arguments(id: int, item: seq<(string, string)>)

  /** The nodes with the given id, in the order of the list. */
  ghost function WithId(s: seq<Node<Arguments>>, id: int): seq<Node<Arguments>> {
    if s == [] then [] else (if s[0].item.id == id then [s[0]] else []) + WithId(s[1..], id)
  }

  ghost predicate Sorted(s: seq<Node<Arguments>>) {
    forall i, j :: 0 <= i < j < |s| ==> s[i].item.id <= s[j].item.id
  }

  /** The number of nodes with an id below the given one. */
  ghost function Below(s: seq<Node<Arguments>>, id: int): nat {
    if s == [] then 0 else (if s[0].item.id < id then 1 else 0) + Below(s[1..], id)
  }

  /** The number of pairs of nodes that are in the wrong order. */
  ghost function Inversions(s: seq<Node<Arguments>>): nat {
    if s == [] then 0 else Below(s[1..], s[0].item.id) + Inversions(s[1..])
  }

  /** The nodes at positions p and p + 1 exchanged. */
  ghost function Swapped(s: seq<Node<Arguments>>, p: nat): (r: seq<Node<Arguments>>)
    requires p + 1 < |s|
    ensures |r| == |s| && multiset(r) == multiset(s)
    ensures forall n :: n in r ==> n in s
  {
    s[p := s[p + 1]][p + 1 := s[p]]
  }

  lemma SwappedTail(s: seq<Node<Arguments>>, p: nat)
    requires p + 1 < |s|
    ensures p > 0 ==> Swapped(s, p)[0] == s[0] && Swapped(s, p)[1..] == Swapped(s[1..], p - 1)
    ensures p == 0 ==> Swapped(s, p)[0] == s[1] && Swapped(s, p)[1..][0] == s[0]
    ensures p == 0 ==> Swapped(s, p)[1..][1..] == s[1..][1..]
  {
  }

  lemma {:induction false} SwapBelow(s: seq<Node<Arguments>>, p: nat, id: int)
    requires p + 1 < |s|
    ensures Below(Swapped(s, p), id) == Below(s, id)
  {
    hide Swapped;
    SwappedTail(s, p);
    if p > 0 {
      SwapBelow(s[1..], p - 1, id);
    }
  }

  /** Exchanging two neighbours in the wrong order removes exactly one inversion. */
  lemma {:induction false} SwapInversions(s: seq<Node<Arguments>>, p: nat)
    requires p + 1 < |s| && s[p].item.id > s[p + 1].item.id
    ensures Inversions(Swapped(s, p)) + 1 == Inversions(s)
  {
    hide Swapped;
    SwappedTail(s, p);
    if p > 0 {
      SwapInversions(s[1..], p - 1);
      SwapBelow(s[1..], p - 1, s[0].item.id);
    }
  }

  /** Exchanging two neighbours with different ids keeps the order of the nodes of every id. */
  lemma {:induction false} SwapStable(s: seq<Node<Arguments>>, p: nat, id: int)
    requires p + 1 < |s| && s[p].item.id != s[p + 1].item.id
    ensures WithId(Swapped(s, p), id) == WithId(s, id)
  {
    hide Swapped;
    SwappedTail(s, p);
    if p > 0 {
      SwapStable(s[1..], p - 1, id);
    }
  }

  /** The two lists have the same nodes, in the same order for every id. */
  ghost predicate Stable(s: seq<Node<Arguments>>, t: seq<Node<Arguments>>) {
    multiset(s) == multiset(t) && forall id :: WithId(s, id) == WithId(t, id)
  }

  lemma StableSwap(s: seq<Node<Arguments>>, t: seq<Node<Arguments>>, p: nat)
    requires Stable(s, t) && p + 1 < |t| && t[p].item.id != t[p + 1].item.id
    ensures Stable(s, Swapped(t, p))
  {
    hide Swapped, WithId;
    forall id
      ensures WithId(s, id) == WithId(Swapped(t, p), id)
    {
      SwapStable(t, p, id);
    }
  }

  lemma {:induction false} NoDescent(s: seq<Node<Arguments>>)
    requires forall i :: 0 <= i < |s| - 1 ==> s[i].item.id <= s[i + 1].item.id
    ensures Sorted(s)
  {
    if s != [] {
      NoDescent(s[1..]);
      forall j | 0 < j < |s|
        ensures s[0].item.id <= s[j].item.id
      {
        assert s[1..][j - 1] == s[j] && s[1] == s[1..][0];
      }
    }
  }

  /** Exchanges the item at position p of the list with its successor, by relinking. */
  method SwapNodes(head: Node?<Arguments>, item: Node<Arguments>, prev: Node?<Arguments>,
                   ghost s: seq<Node<Arguments>>, ghost p: nat, ghost all: set<Node<Arguments>>)
    returns (head': Node?<Arguments>, prev': Node<Arguments>)
    requires Linked(head, s) && Distinct(s) && p + 1 < |s| && item == s[p] && prev == if p == 0 then null else s[p - 1]
    requires forall n :: n in s ==> n in all
    modifies all`next
    ensures Linked(head', Swapped(s, p)) && prev' == s[p + 1]
  {
    head' := head;
    At(head, s, p);
    At(head, s, p + 1);
    var next := item.next;
    if prev != null {
      prev.next := next;
    } else {
      head' := next;
    }
    prev' := if prev != null then prev.next else head';
    item.next := prev'.next;
    prev'.next := item;
    ghost var t := Swapped(s, p);
    forall i | 0 <= i < |t| - 1
      ensures t[i].next == t[i + 1]
    {
      if i < p - 1 || i > p + 1 {
        assert old(s[i].next) == s[i + 1];
      }
    }
  }

  lemma SwappedDistinct(s: seq<Node<Arguments>>, p: nat)
    requires Distinct(s) && p + 1 < |s|
    ensures Distinct(Swapped(s, p))
  {
  }

  /** One pass over the list, carrying an item forward as long as its successor has a smaller id. */
  method Pass(head: Node<Arguments>, ghost s: seq<Node<Arguments>>, ghost all: set<Node<Arguments>>)
    returns (head': Node<Arguments>, count: nat, ghost t: seq<Node<Arguments>>)
    requires Linked(head, s) && Distinct(s) && s != [] && forall n :: n in s ==> n in all
    modifies all`next
    ensures Linked(head', t) && Distinct(t) && Stable(s, t) && t != []
    ensures Inversions(t) + count == Inversions(s)
    ensures count == 0 ==> t == s && forall i :: 0 <= i < |t| - 1 ==> t[i].item.id <= t[i + 1].item.id
  {
    hide Linked, Distinct, Stable, Inversions, Swapped, WithId;
    HeadOf(head, s);
    SelfStable(s);
    var first: Node?<Arguments> := head;
    t, count := s, 0;
    var item, prev := head, null;
    ghost var p := 0;
    At(first, t, p);
    while item.next != null
      invariant Linked(first, t) && Distinct(t) && Stable(s, t) && |t| == |s|
      invariant 0 <= p < |t| && item == t[p] && prev == (if p == 0 then null else t[p - 1])
      invariant item.next == if p + 1 < |t| then t[p + 1] else null
      invariant forall n :: n in t ==> n in all
      invariant Inversions(t) + count == Inversions(s)
      invariant count == 0 ==> t == s && forall i :: 0 <= i < p ==> t[i].item.id <= t[i + 1].item.id
      decreases |t| - p
    {
      var next := item.next;
      if item.item.id > next.item.id {
        count := count + 1;
        SwapInversions(t, p);
        StableSwap(s, t, p);
        SwappedDistinct(t, p);
        SwappedAt(t, p);
        first, prev := SwapNodes(first, item, prev, t, p, all);
        t := Swapped(t, p);
      } else {
        prev, item := item, next;
      }
      p := p + 1;
      At(first, t, p);
    }
    HeadOf(first, t);
    head' := first;
  }

  lemma SelfStable(s: seq<Node<Arguments>>)
    ensures Stable(s, s)
  {
  }

  lemma SwappedAt(s: seq<Node<Arguments>>, p: nat)
    requires p + 1 < |s|
    ensures Swapped(s, p)[p] == s[p + 1] && Swapped(s, p)[p + 1] == s[p]
  {
  }

  lemma StableTrans(a: seq<Node<Arguments>>, b: seq<Node<Arguments>>, c: seq<Node<Arguments>>)
    requires Stable(a, b) && Stable(b, c)
    ensures Stable(a, c)
  {
  }

  lemma StableNodes(s: seq<Node<Arguments>>, t: seq<Node<Arguments>>)
    requires Stable(s, t)
    ensures |s| == |t| && forall n :: n in t ==> n in s
  {
    assert |multiset(s)| == |multiset(t)|;
    forall n | n in t
      ensures n in s
    {
      assert n in multiset(t);
    }
  }

  /**
   * Sorts the list in place: the same nodes, sorted by id, and those with equal ids in the order in
   * which they were.
   */
  method OrderArgsList(head: Node?<Arguments>, ghost s: seq<Node<Arguments>>)
    returns (head': Node?<Arguments>, ghost t: seq<Node<Arguments>>)
    requires Linked(head, s) && Distinct(s)
    modifies set n | n in s
    ensures Linked(head', t) && Sorted(t) && Stable(s, t)
  {
    hide Linked, Distinct, Stable, Inversions;
    ghost var all := set n | n in s;
    HeadOf(head, s);
    SelfStable(s);
    head', t := head, s;
    if head == null {
      return;
    }
    At(head, s, 0);
    if head.next == null {
      return;
    }
    var count := 1;
    while count != 0
      invariant Linked(head', t) && Distinct(t) && Stable(s, t) && t != [] && head' != null
      invariant forall n :: n in t ==> n in s
      invariant count == 0 ==> forall i :: 0 <= i < |t| - 1 ==> t[i].item.id <= t[i + 1].item.id
      decreases Inversions(t), count
    {
      ghost var before := t;
      head', count, t := Pass(head', t, all);
      StableTrans(s, before, t);
      StableNodes(s, t);
    }
    NoDescent(t);
  }
}
