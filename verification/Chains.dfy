/** Singly linked chains of nodes, as sequences. */
module Chains {
  import opened Sequences

  class Node<T> {
    const item: T
    var next: Node?<T>

    constructor (item: T, next: Node?<T>)
      ensures this.item == item && this.next == next
    {
      this.item, this.next := item, next;
    }
  }

  /** The nodes from h on, linked one after the other. */
  ghost predicate Linked<T>(h: Node?<T>, s: seq<Node<T>>)
    reads s`next
  {
    && (if s == [] then h == null else h == s[0] && s[|s| - 1].next == null)
    && forall i :: 0 <= i < |s| - 1 ==> s[i].next == s[i + 1]
  }

  ghost predicate Distinct<T>(s: seq<Node<T>>) {
    forall i, j :: 0 <= i < j < |s| ==> s[i] != s[j]
  }

  lemma HeadOf<T>(h: Node?<T>, s: seq<Node<T>>)
    requires Linked(h, s)
    ensures h == if s == [] then null else s[0]
  {
  }

  /** The node at position i of a chain and its successor. */
  lemma At<T>(h: Node?<T>, s: seq<Node<T>>, i: nat)
    requires Linked(h, s) && i < |s|
    ensures s[i].next == if i + 1 < |s| then s[i + 1] else null
  {
  }

  /** The chain without its first node. */
  lemma Rest<T>(h: Node?<T>, s: seq<Node<T>>)
    requires Linked(h, s) && s != []
    ensures h == s[0] && Linked(s[0].next, s[1..])
  {
  }

  /** A node in front of a chain. */
  lemma InFront<T>(n: Node<T>, s: seq<Node<T>>)
    requires Linked(n.next, s) && n !in s
    ensures Linked(n, [n] + s)
  {
  }

  /** Links the node before position j of a chain to the one after it. */
  method SkipNext<T>(prev: Node<T>, next: Node?<T>, ghost h: Node?<T>, ghost t: seq<Node<T>>, ghost j: nat)
    requires 0 < j < |t| && Distinct(t) && Linked(h, t) && prev == t[j - 1] && next == t[j].next
    modifies prev`next
    ensures Linked(h, Without(t, j)) && t[j].next == old(t[j].next)
  {
    prev.next := next;
    ghost var rest := Without(t, j);
    forall i | 0 <= i < |rest| - 1
      ensures rest[i].next == rest[i + 1]
    {
      if i == j - 1 {
        assert old(t[j].next) == t[j + 1];
      } else {
        var k := if i < j then i else i + 1;
        assert rest[i] == t[k] && old(t[k].next) == t[k + 1];
      }
    }
  }
}
