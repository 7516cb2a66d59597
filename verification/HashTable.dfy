/**
 * The chained hash table: bucket array and linked chains, kept in agreement with a finite map.
 */
module HashTable {
  import opened Options
  import opened Sequences
  import opened Chains

  /** A key with its data, which is copied into the table. */
  datatype Pair = Pair(key: string, data: seq<char>)

  type Contents = map<string, seq<char>>

  /** All keys of a chain are different. */
  ghost predicate DistinctKeys(s: seq<Node<Pair>>) {
    forall i, j :: 0 <= i < j < |s| ==> s[i].item.key != s[j].item.key
  }

  /** Every node of the chain is one of the map's pairs, and its key belongs to bucket b. */
  ghost predicate BucketOk(hash: string -> nat, size: nat, b: nat, s: seq<Node<Pair>>, m: Contents,
      repr: set<Node<Pair>>)
    requires 0 < size
  {
    && DistinctKeys(s)
    && forall n :: n in s ==>
         n in repr && hash(n.item.key) % size == b && n.item.key in m && m[n.item.key] == n.item.data
  }

  ghost predicate HasKey(s: seq<Node<Pair>>, key: string) {
    exists n :: n in s && n.item.key == key
  }

  /** The chains hold exactly the pairs of the map, each in the bucket of its key. */
  ghost predicate Holds(hash: string -> nat, chains: seq<seq<Node<Pair>>>, m: Contents, repr: set<Node<Pair>>) {
    && 0 < |chains|
    && (forall b :: 0 <= b < |chains| ==> BucketOk(hash, |chains|, b, chains[b], m, repr))
    && (forall key :: key in m ==> HasKey(chains[hash(key) % |chains|], key))
  }

  /** Every bucket points to its chain. */
  ghost predicate AllLinked(heads: seq<Node?<Pair>>, chains: seq<seq<Node<Pair>>>, repr: set<Node<Pair>>)
    requires |heads| == |chains| && forall b :: 0 <= b < |chains| ==> forall n :: n in chains[b] ==> n in repr
    reads repr`next
  {
    forall b :: 0 <= b < |chains| ==> Linked(heads[b], chains[b])
  }

  /** A chain with a new pair in front, and the other chains, after the pair has been added to the map. */
  lemma FrontHolds(hash: string -> nat, chains: seq<seq<Node<Pair>>>, m: Contents, repr: set<Node<Pair>>, b: nat,
      node: Node<Pair>)
    requires Holds(hash, chains, m, repr) && node.item.key !in m && b < |chains| && b == hash(node.item.key) % |chains|
    ensures Holds(hash, chains[b := [node] + chains[b]], m[node.item.key := node.item.data], repr + {node})
  {
    var chains' := chains[b := [node] + chains[b]];
    var m' := m[node.item.key := node.item.data];
    forall c | 0 <= c < |chains'|
      ensures BucketOk(hash, |chains'|, c, chains'[c], m', repr + {node})
    {
      assert BucketOk(hash, |chains|, c, chains[c], m, repr);
    }
    forall key | key in m'
      ensures HasKey(chains'[hash(key) % |chains'|], key)
    {
      var c := hash(key) % |chains|;
      if key == node.item.key {
        assert node in chains'[b];
      } else {
        assert HasKey(chains[c], key);
        var n :| n in chains[c] && n.item.key == key;
        assert n in chains'[c];
      }
    }
  }

  /** The chains after a pair has been taken out of its chain and of the map. */
  lemma RemovedHolds(hash: string -> nat, chains: seq<seq<Node<Pair>>>, m: Contents, repr: set<Node<Pair>>, b: nat,
      pos: nat)
    requires Holds(hash, chains, m, repr) && b < |chains| && pos < |chains[b]|
    ensures Holds(hash, chains[b := Without(chains[b], pos)], m - {chains[b][pos].item.key}, repr)
  {
    hide BucketOk, HasKey, Without;
    var key := chains[b][pos].item.key;
    var chains', m' := chains[b := Without(chains[b], pos)], m - {key};
    assert BucketOk(hash, |chains|, b, chains[b], m, repr);
    forall c | 0 <= c < |chains'|
      ensures BucketOk(hash, |chains'|, c, chains'[c], m', repr)
    {
      assert BucketOk(hash, |chains|, c, chains[c], m, repr);
      RemovedBucket(hash, |chains|, b, c, chains[b], chains[c], m, repr, pos);
    }
    forall k | k in m'
      ensures HasKey(chains'[hash(k) % |chains'|], k)
    {
      assert HasKey(chains[hash(k) % |chains|], k);
      WithoutKeeps(chains[b], pos, k);
    }
  }

  lemma RemovedBucket(hash: string -> nat, size: nat, b: nat, c: nat, s: seq<Node<Pair>>, t: seq<Node<Pair>>,
                      m: Contents, repr: set<Node<Pair>>, pos: nat)
    requires 0 < size && pos < |s| && BucketOk(hash, size, b, s, m, repr) && BucketOk(hash, size, c, t, m, repr)
    requires b == c ==> s == t
    ensures BucketOk(hash, size, c, if b == c then Without(s, pos) else t, m - {s[pos].item.key}, repr)
  {
    WithoutKey(s, pos);
    hide Without, DistinctKeys;
    assert s[pos] in s;
  }

  /** The other keys of a chain stay. */
  lemma WithoutKeeps(s: seq<Node<Pair>>, pos: nat, key: string)
    requires pos < |s| && key != s[pos].item.key
    ensures HasKey(s, key) ==> HasKey(Without(s, pos), key)
  {
    if HasKey(s, key) {
      var n :| n in s && n.item.key == key;
      var i :| 0 <= i < |s| && s[i] == n;
      assert n == Without(s, pos)[if i < pos then i else i - 1];
    }
  }

  lemma WithoutKey(s: seq<Node<Pair>>, pos: nat)
    requires pos < |s| && DistinctKeys(s)
    ensures DistinctKeys(Without(s, pos))
    ensures forall n :: n in Without(s, pos) ==> n in s && n.item.key != s[pos].item.key
  {
    var r := Without(s, pos);
    forall n | n in r
      ensures n in s && n.item.key != s[pos].item.key
    {
      var i :| 0 <= i < |r| && r[i] == n;
      assert n == s[if i < pos then i else i + 1];
    }
  }

  /** The nodes of all chains, bucket by bucket: the order in which the table is enumerated. */
  ghost function Flat(chains: seq<seq<Node<Pair>>>): seq<Node<Pair>> {
    if chains == [] then [] else chains[0] + Flat(chains[1..])
  }

  /** The nodes before and after position i of chain b. */
  lemma FlatFront(s: seq<Node<Pair>>, rest: seq<seq<Node<Pair>>>)
    ensures Flat([s] + rest) == s + Flat(rest)
  {
    assert ([s] + rest)[1..] == rest;
  }

  lemma {:induction false} FlatConcat(a: seq<seq<Node<Pair>>>, b: seq<seq<Node<Pair>>>)
    ensures Flat(a + b) == Flat(a) + Flat(b)
  {
    hide Flat;
    if a == [] {
      NoChains();
      assert a + b == b;
    } else {
      var s, rest := a[0], a[1..];
      FlatConcat(rest, b);
      assert a == [s] + rest;
      Regroup([s], rest, b);
      FlatFront(s, rest);
      FlatFront(s, rest + b);
      Regroup(s, Flat(rest), Flat(b));
    }
  }

  lemma NoChains()
    ensures Flat([]) == [] && forall s: seq<Node<Pair>> :: [] + s == s
  {
  }

  lemma FlatSplit(chains: seq<seq<Node<Pair>>>, b: nat, i: nat)
    requires b < |chains| && i <= |chains[b]|
    ensures Flat(chains) == Flat(chains[..b]) + chains[b][..i] + (chains[b][i..] + Flat(chains[b + 1..]))
  {
    hide Flat;
    var front, s, rest := chains[..b], chains[b], chains[b + 1..];
    assert chains == front + ([s] + rest);
    FlatConcat(front, [s] + rest);
    FlatFront(s, rest);
    assert s == s[..i] + s[i..];
    Regroup(s[..i], s[i..], Flat(rest));
    Regroup(Flat(front), s[..i], s[i..] + Flat(rest));
  }

  /** Every node of a chain is listed, and every listed node is in a chain. */
  lemma {:induction false} FlatMembers(chains: seq<seq<Node<Pair>>>, n: Node<Pair>)
    ensures n in Flat(chains) <==> exists b :: 0 <= b < |chains| && n in chains[b]
  {
    if chains != [] {
      FlatMembers(chains[1..], n);
      if n in Flat(chains[1..]) {
        var b :| 0 <= b < |chains[1..]| && n in chains[1..][b];
        assert n in chains[b + 1];
      }
      if b :| 0 <= b < |chains| && n in chains[b] {
        if b > 0 {
          assert n in chains[1..][b - 1];
        }
      }
    }
  }

  /** Keys of different chains are different when each chain holds the keys of its own bucket. */
  lemma {:induction false} FlatDistinct(hash: string -> nat, size: nat, chains: seq<seq<Node<Pair>>>, from: nat)
    requires 0 < size && forall b :: 0 <= b < |chains| ==>
               DistinctKeys(chains[b]) && forall n :: n in chains[b] ==> hash(n.item.key) % size == from + b
    ensures DistinctKeys(Flat(chains))
  {
    if chains != [] {
      var rest := Flat(chains[1..]);
      FlatDistinct(hash, size, chains[1..], from + 1);
      forall m, n | m in chains[0] && n in rest
        ensures m.item.key != n.item.key
      {
        FlatMembers(chains[1..], n);
        var b :| 0 <= b < |chains[1..]| && n in chains[1..][b];
        assert chains[1..][b] == chains[b + 1];
      }
      assert DistinctKeys(chains[0]);
    }
  }

  /** The enumeration lists every pair of the map exactly once. */
  lemma FlatHolds(hash: string -> nat, chains: seq<seq<Node<Pair>>>, m: Contents, repr: set<Node<Pair>>)
    requires Holds(hash, chains, m, repr)
    ensures DistinctKeys(Flat(chains))
    ensures forall n :: n in Flat(chains) ==> n.item.key in m && m[n.item.key] == n.item.data
    ensures forall key :: key in m ==> HasKey(Flat(chains), key)
  {
    forall b | 0 <= b < |chains|
      ensures DistinctKeys(chains[b]) && forall n :: n in chains[b] ==> hash(n.item.key) % |chains| == 0 + b
    {
      assert BucketOk(hash, |chains|, b, chains[b], m, repr);
    }
    FlatDistinct(hash, |chains|, chains, 0);
    forall n | n in Flat(chains)
      ensures n.item.key in m && m[n.item.key] == n.item.data
    {
      FlatMembers(chains, n);
      var b :| 0 <= b < |chains| && n in chains[b];
      assert BucketOk(hash, |chains|, b, chains[b], m, repr);
    }
    forall key | key in m
      ensures HasKey(Flat(chains), key)
    {
      var b := hash(key) % |chains|;
      assert HasKey(chains[b], key);
      var n :| n in chains[b] && n.item.key == key;
      FlatMembers(chains, n);
    }
  }

  /** The place of a node in the enumeration, and what comes after it. */
  lemma After(chains: seq<seq<Node<Pair>>>, b: nat, pos: nat)
    requires b < |chains| && pos < |chains[b]|
    ensures var o, q := Flat(chains), |Flat(chains[..b])| + pos;
            q < |o| && o[q] == chains[b][pos] && o[q + 1..] == chains[b][pos + 1..] + Flat(chains[b + 1..])
  {
    FlatSplit(chains, b, pos);
    FlatSplit(chains, b, pos + 1);
    hide Flat;
  }

  /** The map of the pairs of some nodes. */
  ghost function MapOf(s: seq<Node<Pair>>): Contents {
    if s == [] then map[] else MapOf(s[..|s| - 1])[s[|s| - 1].item.key := s[|s| - 1].item.data]
  }

  lemma {:induction false} MapOfKeys(s: seq<Node<Pair>>)
    requires DistinctKeys(s)
    ensures forall key :: key in MapOf(s) <==> HasKey(s, key)
    ensures forall n :: n in s ==> n.item.key in MapOf(s) && MapOf(s)[n.item.key] == n.item.data
  {
    if s != [] {
      var front, last := s[..|s| - 1], s[|s| - 1];
      MapOfKeys(front);
      forall n | n in s
        ensures n == last || n in front
      {
        var i :| 0 <= i < |s| && s[i] == n;
        assert i < |front| ==> front[i] == n;
      }
      forall key | key in MapOf(s)
        ensures HasKey(s, key)
      {
        if key != last.item.key {
          assert HasKey(front, key);
          var n :| n in front && n.item.key == key;
          assert n in s;
        } else {
          assert last in s;
        }
      }
      forall n | n in front
        ensures n.item.key != last.item.key
      {
        var i :| 0 <= i < |front| && front[i] == n;
      }
    }
  }

  /** The pairs listed by the enumeration make up the whole map. */
  lemma MapOfFlat(hash: string -> nat, chains: seq<seq<Node<Pair>>>, m: Contents, repr: set<Node<Pair>>)
    requires Holds(hash, chains, m, repr)
    ensures MapOf(Flat(chains)) == m && DistinctKeys(Flat(chains))
  {
    hide Holds, Flat, MapOf, DistinctKeys;
    FlatHolds(hash, chains, m, repr);
    MapOfKeys(Flat(chains));
    var o := Flat(chains);
    forall key | key in m
      ensures key in MapOf(o) && MapOf(o)[key] == m[key]
    {
      var n :| n in o && n.item.key == key;
    }
  }

  /** One more node copied: its key is new, and the map of the nodes copied grows by its pair. */
  lemma OneMoreCopied(o: seq<Node<Pair>>, p: nat)
    requires DistinctKeys(o) && p < |o|
    ensures o[p].item.key !in MapOf(o[..p])
    ensures MapOf(o[..p + 1]) == MapOf(o[..p])[o[p].item.key := o[p].item.data]
  {
    assert o[..p + 1][..p] == o[..p];
    MapOfKeys(o[..p]);
    assert !HasKey(o[..p], o[p].item.key);
  }

  class HashTable {
    const hash: string -> nat
    var size: nat
    var nodes: array<Node?<Pair>>

    ghost var chains: seq<seq<Node<Pair>>>
    ghost var contents: Contents
    ghost var repr: set<Node<Pair>>

    ghost predicate Valid()
      reads this, nodes, repr
    {
      && size == nodes.Length == |chains|
      && Holds(hash, chains, contents, repr)
      && (forall b :: 0 <= b < |chains| ==> forall n :: n in chains[b] ==> n in repr)
      && AllLinked(nodes[..], chains, repr)
    }

    constructor (size: nat, hash: string -> nat)
      requires 0 < size
      ensures Valid() && contents == map[] && fresh(nodes) && repr == {} && this.size == size && this.hash == hash
    {
      this.size, this.hash := size, hash;
      nodes := new Node?<Pair>[size](_ => null);
      chains := seq(size, _ => []);
      contents, repr := map[], {};
    }

    /** The bucket of a key. */
    function Bucket(key: string): (b: nat)
      requires 0 < size
      reads this
      ensures b < size
    {
      hash(key) % size
    }

    /** The chain of bucket b. */
    lemma ChainOf(b: nat)
      requires Valid() && b < |chains|
      ensures 0 < size == nodes.Length && Linked(nodes[b], chains[b]) && DistinctKeys(chains[b]) && Distinct(chains[b])
    {
      assert BucketOk(hash, |chains|, b, chains[b], contents, repr);
    }

    /** The key is absent if the whole chain has been passed; at a node with the key, the data are the map's. */
    lemma KeyAt(key: string, pos: nat)
      requires Valid() && 0 < size && pos <= |chains[Bucket(key)]|
      requires forall i :: 0 <= i < pos ==> chains[Bucket(key)][i].item.key != key
      ensures pos == |chains[Bucket(key)]| ==> key !in contents
      ensures pos < |chains[Bucket(key)]| && chains[Bucket(key)][pos].item.key == key ==>
                key in contents && contents[key] == chains[Bucket(key)][pos].item.data
    {
      var s := chains[Bucket(key)];
      assert BucketOk(hash, |chains|, Bucket(key), s, contents, repr);
      assert key in contents ==> HasKey(s, key);
    }

    /** The position of a key in its chain. */
    ghost predicate IsAt(key: string, pos: nat, node: Node<Pair>, prev: Node?<Pair>)
      requires 0 < size == |chains|
      reads this
    {
      var s := chains[Bucket(key)];
      && pos < |s| && node == s[pos] && node.item.key == key
      && prev == (if pos == 0 then null else s[pos - 1])
    }

    lemma Positive()
      requires Valid()
      ensures 0 < size == |chains| == nodes.Length
    {
    }

    /** The loop over the chain of a key. */
    method FindNode(key: string) returns (node: Node?<Pair>, prev: Node?<Pair>, ghost pos: nat)
      requires Valid()
      ensures 0 < size == |chains| == nodes.Length
      ensures node == null <==> key !in contents
      ensures node != null ==> IsAt(key, pos, node, prev) && node.item.data == contents[key]
    {
      hide Valid, Linked, DistinctKeys, Distinct;
      Positive();
      var b := Bucket(key);
      ghost var s := chains[b];
      ChainOf(b);
      HeadOf(nodes[b], s);
      node, prev, pos := nodes[b], null, 0;
      while node != null
        invariant 0 <= pos <= |s| && node == (if pos < |s| then s[pos] else null)
        invariant prev == (if pos == 0 then null else s[pos - 1])
        invariant forall i :: 0 <= i < pos ==> s[i].item.key != key
        decreases |s| - pos
      {
        if node.item.key == key {
          KeyAt(key, pos);
          return;
        }
        At(nodes[b], s, pos);
        prev, node := node, node.next;
        pos := pos + 1;
      }
      KeyAt(key, pos);
    }

    method Get(key: string) returns (data: Option<seq<char>>)
      requires Valid()
      ensures data == if key in contents then Some(contents[key]) else None
    {
      hide Valid;
      var node, prev, pos := FindNode(key);
      data := if node != null then Some(node.item.data) else None;
    }

    /** Puts a pair in front of the chain of its key. */
    method PutInFront(b: nat, item: Pair)
      requires Valid() && 0 < size && b == Bucket(item.key) && item.key !in contents
      modifies this`chains, this`contents, this`repr, nodes
      ensures Valid() && contents == old(contents)[item.key := item.data] && fresh(repr - old(repr))
    {
      hide Holds, Linked;
      ChainOf(b);
      var node := new Node(item, nodes[b]);
      FrontHolds(hash, chains, contents, repr, b, node);
      nodes[b] := node;
      InFront(node, chains[b]);
      chains, contents, repr := chains[b := [node] + chains[b]], contents[item.key := item.data], repr + {node};
    }

    /**
     * Copies the first bytes of the data into the table. Fails exactly on a key that is present, and
     * then changes nothing.
     */
    method InsertWithSize(key: string, data: seq<char>, size: nat) returns (failed: bool)
      requires Valid() && size <= |data|
      modifies this`chains, this`contents, this`repr, nodes
      ensures Valid() && fresh(repr - old(repr))
      ensures failed <==> key in old(contents)
      ensures contents == if failed then old(contents) else old(contents)[key := data[..size]]
    {
      hide Valid;
      var node, prev, pos := FindNode(key);
      if node != null {
        return true;
      }
      PutInFront(Bucket(key), Pair(key, data[..size]));
      failed := false;
    }

    /** A node belongs to one chain only. */
    lemma OneChain(b: nat, n: Node<Pair>)
      requires Valid() && b < |chains| && n in chains[b]
      ensures forall c :: 0 <= c < |chains| && c != b ==> n !in chains[c]
    {
      assert BucketOk(hash, |chains|, b, chains[b], contents, repr);
      forall c | 0 <= c < |chains| && c != b
        ensures n !in chains[c]
      {
        assert BucketOk(hash, |chains|, c, chains[c], contents, repr);
      }
    }

    /** The other chains do not change when one node of chain b does. */
    ghost predicate Bypassed(b: nat, pos: nat)
      requires |chains| == nodes.Length && b < |chains| && pos < |chains[b]|
      requires forall c :: 0 <= c < |chains| ==> forall n :: n in chains[c] ==> n in repr
      reads this, nodes, repr
    {
      forall c :: 0 <= c < nodes.Length ==> Linked(nodes[c], if c == b then Without(chains[b], pos) else chains[c])
    }

    /** Links the node before position pos of chain b to the one after it. */
    method BypassLater(b: nat, node: Node<Pair>, prev: Node<Pair>, ghost pos: nat)
      requires Valid() && b < |chains| && 0 < pos < |chains[b]| && node == chains[b][pos] && prev == chains[b][pos - 1]
      modifies prev`next
      ensures |chains| == nodes.Length && Bypassed(b, pos)
    {
      hide Holds, Linked, Distinct, DistinctKeys;
      ChainOf(b);
      OneChain(b, prev);
      SkipNext(prev, node.next, nodes[b], chains[b], pos);
      forall c | 0 <= c < nodes.Length && c != b
        ensures Linked(nodes[c], chains[c])
      {
        assert old(Linked(nodes[..][c], chains[c]));
      }
    }

    /** Makes bucket b point to the second node of its chain. */
    method BypassFirst(b: nat, node: Node<Pair>)
      requires Valid() && b < |chains| && chains[b] != [] && node == chains[b][0]
      modifies nodes
      ensures |chains| == nodes.Length && Bypassed(b, 0) && nodes[b] == node.next
    {
      hide Holds, Linked, Distinct, DistinctKeys;
      ChainOf(b);
      Rest(nodes[b], chains[b]);
      assert Without(chains[b], 0) == chains[b][1..];
      nodes[b] := node.next;
      forall c | 0 <= c < nodes.Length && c != b
        ensures Linked(nodes[c], chains[c])
      {
        assert old(Linked(nodes[..][c], chains[c]));
      }
    }

    /** Accounts for a pair that is no longer linked. */
    ghost method Forget(key: string, b: nat, pos: nat)
      requires size == nodes.Length == |chains| && b < |chains| && pos < |chains[b]| && key == chains[b][pos].item.key
      requires Holds(hash, chains, contents, repr) && (forall c :: 0 <= c < |chains| ==>
        forall n :: n in chains[c] ==> n in repr)
      requires Bypassed(b, pos)
      modifies this`chains, this`contents
      ensures Valid() && contents == old(contents) - {key} && chains == old(chains)[b := Without(old(chains)[b], pos)]
    {
      hide Holds, Linked;
      RemovedHolds(hash, chains, contents, repr, b, pos);
      chains, contents := chains[b := Without(chains[b], pos)], contents - {key};
    }

    /** Removes a key. Fails exactly on a key that is absent, and then changes nothing. */
    method Remove(key: string) returns (failed: bool)
      requires Valid()
      modifies this`chains, this`contents, nodes, repr`next
      ensures Valid()
      ensures failed <==> key !in old(contents)
      ensures contents == old(contents) - {key}
      ensures 0 < size == |chains| == |old(chains)|
      ensures forall c :: 0 <= c < |chains| && c != Bucket(key) ==> chains[c] == old(chains)[c]
      ensures var s := old(chains)[Bucket(key)];
              s != [] && s[0].item.key == key ==> chains[Bucket(key)] == s[1..]
    {
      hide Holds, Linked, Bypassed;
      var node, prev, pos := FindNode(key);
      if node == null {
        FirstKey(key);
        return true;
      }
      var b := Bucket(key);
      ChainOf(b);
      if prev != null {
        BypassLater(b, node, prev, pos);
      } else {
        BypassFirst(b, node);
      }
      Forget(key, b, pos);
      failed := false;
    }

    lemma FirstKey(key: string)
      requires Valid() && key !in contents
      ensures 0 < size == |chains|
      ensures chains[Bucket(key)] != [] ==> chains[Bucket(key)][0].item.key != key
    {
      assert BucketOk(hash, |chains|, Bucket(key), chains[Bucket(key)], contents, repr);
    }

    /** Buckets before n are empty. */
    ghost predicate EmptyBefore(n: nat)
      reads this
    {
      n <= |chains| && forall b :: 0 <= b < n ==> chains[b] == []
    }

    /** A table with empty chains holds nothing. */
    lemma NothingLeft()
      requires Valid() && EmptyBefore(|chains|)
      ensures contents == map[]
    {
      forall key: string
        ensures key !in contents
      {
        var s := chains[hash(key) % |chains|];
        assert s == [];
        assert key in contents ==> HasKey(s, key);
      }
    }

    /** The first node of a bucket. */
    lemma FirstOf(b: nat)
      requires Valid() && b < |chains|
      ensures nodes.Length == |chains| == size && nodes[b] == if chains[b] == [] then null else chains[b][0]
      ensures chains[b] != [] ==>
                && chains[b][0].next == (if |chains[b]| == 1 then null else chains[b][1])
                && chains[b][0].item.key in contents && contents[chains[b][0].item.key] == chains[b][0].item.data
                && Bucket(chains[b][0].item.key) == b
    {
      assert BucketOk(hash, |chains|, b, chains[b], contents, repr);
      assert Linked(nodes[..][b], chains[b]);
    }

    /** Moves every pair of one bucket into another table. */
    method MoveBucket(b: nat, other: HashTable)
      requires Valid() && other.Valid() && b < size && EmptyBefore(b)
      requires this != other && nodes != other.nodes && repr !! other.repr && contents.Keys !! other.contents.Keys
      modifies this`chains, this`contents, nodes, repr`next
      modifies other`chains, other`contents, other`repr, other.nodes
      ensures Valid() && other.Valid() && EmptyBefore(b + 1) && |chains| == size
      ensures repr !! other.repr && fresh(other.repr - old(other.repr)) && contents.Keys !! other.contents.Keys
      ensures contents + other.contents == old(contents) + old(other.contents)
    {
      hide Valid, Linked;
      Positive();
      FirstOf(b);
      ghost var all := contents + other.contents;
      var node := nodes[b];
      while node != null
        invariant Valid() && other.Valid() && |chains| == size && EmptyBefore(b)
        invariant node == if chains[b] == [] then null else chains[b][0]
        invariant repr !! other.repr && fresh(other.repr - old(other.repr)) && contents.Keys !! other.contents.Keys
        invariant contents + other.contents == all
        decreases |chains[b]|
      {
        FirstOf(b);
        node := MoveFirst(b, node, other);
      }
    }

    /** Moves the first pair of bucket b to another table; the next node of the chain is read before. */
    method MoveFirst(b: nat, node: Node<Pair>, other: HashTable) returns (next: Node?<Pair>)
      requires Valid() && other.Valid() && b < size == |chains| && EmptyBefore(b)
      requires chains[b] != [] && node == chains[b][0]
      requires this != other && nodes != other.nodes && repr !! other.repr && contents.Keys !! other.contents.Keys
      modifies this`chains, this`contents, nodes, repr`next
      modifies other`chains, other`contents, other`repr, other.nodes
      ensures Valid() && other.Valid() && |chains| == size && EmptyBefore(b) && chains[b] == old(chains[b])[1..]
      ensures next == if chains[b] == [] then null else chains[b][0]
      ensures repr !! other.repr && fresh(other.repr - old(other.repr)) && contents.Keys !! other.contents.Keys
      ensures contents + other.contents == old(contents) + old(other.contents)
    {
      hide Valid, Linked;
      FirstOf(b);
      var item := node.item;
      next := node.next;
      ghost var s := chains[b];
      assert item.data[..|item.data|] == item.data;
      var failed := other.InsertWithSize(item.key, item.data, |item.data|);
      failed := Remove(item.key);
      MovedPair(old(contents), old(other.contents), item);
    }

    /** Moving a pair from one map to another keeps them together. */
    lemma MovedPair(m: Contents, n: Contents, item: Pair)
      requires item.key in m && m[item.key] == item.data && m.Keys !! n.Keys
      ensures (m - {item.key}) + n[item.key := item.data] == m + n
      ensures (m - {item.key}).Keys !! n[item.key := item.data].Keys
    {
    }

    /** Changes the number of buckets; the pairs stay the same. */
    method Resize(newSize: nat)
      requires Valid() && 0 < newSize
      modifies this, nodes, repr`next
      ensures Valid() && size == newSize && contents == old(contents) && fresh(nodes) && fresh(repr)
    {
      hide Valid;
      Positive();
      var other := new HashTable(newSize, hash);
      var n := 0;
      while n < size
        invariant Valid() && other.Valid() && 0 <= n <= size == old(size) && size == |chains| && EmptyBefore(n)
        invariant nodes == old(nodes) && repr == old(repr) && other.nodes != nodes && fresh(other.nodes) &&
          fresh(other.repr)
        invariant other.size == newSize && other.hash == hash && contents.Keys !! other.contents.Keys
        invariant contents + other.contents == old(contents)
      {
        MoveBucket(n, other);
        n := n + 1;
      }
      NothingLeft();
      assert other.contents == old(contents);
      size, nodes := other.size, other.nodes;
      chains, contents, repr := other.chains, other.contents, other.repr;
      Adopted(other);
    }

    lemma Adopted(other: HashTable)
      requires other.Valid() && hash == other.hash && size == other.size && nodes == other.nodes
      requires chains == other.chains && contents == other.contents && repr == other.repr
      ensures Valid()
    {
    }

    /** The first of the given nodes, if there is one. */
    ghost function First(s: seq<Node<Pair>>): Option<Pair> {
      if s == [] then None else Some(s[0].item)
    }

    lemma FlatFrom(b: nat)
      requires b < |chains|
      ensures Flat(chains[b..]) == chains[b] + Flat(chains[b + 1..])
    {
      assert chains[b..][1..] == chains[b + 1..];
    }

    /**
     * The pair that follows the given key in the enumeration: the first pair if no key is given, and
     * nothing if the key is not in the table or is the last one.
     */
    method Next(key: Option<string>) returns (r: Option<Pair>)
      requires Valid()
      ensures key.None? ==> r == First(Flat(chains))
      ensures key.Some? && key.value !in contents ==> r == None
      ensures key.Some? ==> forall p :: 0 <= p < |Flat(chains)| && Flat(chains)[p].item.key == key.value ==>
        r == First(Flat(chains)[p + 1..])
    {
      hide Valid, Holds, Linked, DistinctKeys, Flat;
      Positive();
      var b, node, fromBucket := 0, null, true;
      ghost var rest := Flat(chains);
      if key.Some? {
        var prev;
        ghost var pos;
        node, prev, pos := FindNode(key.value);
        if node == null {
          NotListed(key.value);
          return None;
        }
        b := Bucket(key.value);
        Following(key.value, pos, node, prev);
        rest := chains[b][pos + 1..] + Flat(chains[b + 1..]);
        node := node.next;
        fromBucket := false;
      } else {
        assert chains[0..] == chains;
      }
      while b < size
        invariant 0 <= b <= size == |chains|
        invariant fromBucket ==> First(rest) == First(Flat(chains[b..]))
        invariant !fromBucket ==> b < size && First(rest) == if node != null
          then Some(node.item) else First(Flat(chains[b + 1..]))
        invariant forall p :: key.Some? && 0 <= p < |Flat(chains)| && Flat(chains)[p].item.key == key.value ==>
          Flat(chains)[p + 1..] == rest
        invariant key.None? ==> rest == Flat(chains)
        invariant key.Some? ==> key.value in contents
      {
        FlatFrom(b);
        FirstOf(b);
        if fromBucket {
          node := nodes[b];
        } else {
          fromBucket := true;
        }
        if node != null {
          return Some(node.item);
        }
        b := b + 1;
      }
      FlatNil();
      r := None;
    }

    lemma FlatNil()
      ensures Flat(chains[|chains|..]) == []
    {
    }

    lemma NotListed(key: string)
      requires Valid() && key !in contents
      ensures forall p :: 0 <= p < |Flat(chains)| ==> Flat(chains)[p].item.key != key
    {
      FlatHolds(hash, chains, contents, repr);
    }

    /** What follows a node in the enumeration. */
    lemma Following(key: string, pos: nat, node: Node<Pair>, prev: Node?<Pair>)
      requires Valid() && 0 < size == |chains| && IsAt(key, pos, node, prev)
      ensures key in contents
      ensures forall p :: 0 <= p < |Flat(chains)| && Flat(chains)[p].item.key == key ==>
                Flat(chains)[p + 1..] == chains[Bucket(key)][pos + 1..] + Flat(chains[Bucket(key) + 1..])
      ensures First(chains[Bucket(key)][pos + 1..] + Flat(chains[Bucket(key) + 1..])) ==
              if node.next != null then Some(node.next.item) else First(Flat(chains[Bucket(key) + 1..]))
    {
      hide Linked, Holds, Flat;
      var b := Bucket(key);
      ChainOf(b);
      At(nodes[b], chains[b], pos);
      FlatHolds(hash, chains, contents, repr);
      After(chains, b, pos);
      var q := |Flat(chains[..b])| + pos;
      assert Flat(chains)[q] in Flat(chains);
    }

    lemma Listing()
      requires Valid()
      ensures DistinctKeys(Flat(chains))
      ensures forall n :: n in Flat(chains) ==> n.item.key in contents && contents[n.item.key] == n.item.data
      ensures forall key :: key in contents ==> HasKey(Flat(chains), key)
    {
      FlatHolds(hash, chains, contents, repr);
    }

    /** Feeds every key back to Next: each pair of the table comes exactly once, and then nothing. */
    method Enumerate() returns (pairs: seq<Pair>)
      requires Valid()
      ensures forall i, j :: 0 <= i < j < |pairs| ==> pairs[i].key != pairs[j].key
      ensures forall i :: 0 <= i < |pairs| ==> pairs[i].key in contents && contents[pairs[i].key] == pairs[i].data
      ensures forall key :: key in contents ==> exists i :: 0 <= i < |pairs| && pairs[i].key == key
    {
      hide Valid, Holds, Linked, Flat, DistinctKeys, HasKey;
      ghost var o := Flat(chains);
      Listing();
      pairs := [];
      var r := Next(None);
      assert o[0..] == o;
      while r.Some?
        invariant |pairs| <= |o| && (forall i :: 0 <= i < |pairs| ==> pairs[i] == o[i].item) && r == First(o[|pairs|..])
        decreases |o| - |pairs|
      {
        ghost var p := |pairs|;
        assert o[p].item.key == r.value.key;
        pairs := pairs + [r.value];
        r := Next(Some(r.value.key));
      }
      AllEnumerated(o, pairs, contents);
    }

    /** The nodes listed one after the other give each key once, with its own data. */
    lemma AllEnumerated(o: seq<Node<Pair>>, pairs: seq<Pair>, m: Contents)
      requires |pairs| == |o| && (forall i :: 0 <= i < |o| ==> pairs[i] == o[i].item) && DistinctKeys(o)
      requires forall n :: n in o ==> n.item.key in m && m[n.item.key] == n.item.data
      requires forall key :: key in m ==> HasKey(o, key)
      ensures forall i, j :: 0 <= i < j < |pairs| ==> pairs[i].key != pairs[j].key
      ensures forall i :: 0 <= i < |pairs| ==> pairs[i].key in m && m[pairs[i].key] == pairs[i].data
      ensures forall key :: key in m ==> exists i :: 0 <= i < |pairs| && pairs[i].key == key
    {
      forall i | 0 <= i < |pairs|
        ensures pairs[i].key in m && m[pairs[i].key] == pairs[i].data
      {
        assert o[i] in o;
      }
      forall key | key in m
        ensures exists i :: 0 <= i < |pairs| && pairs[i].key == key
      {
        assert HasKey(o, key);
        var n :| n in o && n.item.key == key;
        var i :| 0 <= i < |o| && o[i] == n;
        assert pairs[i].key == key;
      }
    }


    /** Copies every pair of bucket b. */
    method CopyBucket(b: nat, copy: HashTable) returns (failed: bool)
      requires Valid() && copy.Valid() && b < size == |chains| && this != copy && nodes != copy.nodes &&
        repr !! copy.repr
      requires copy.contents == MapOf(Flat(chains[..b]))
      modifies copy`chains, copy`contents, copy`repr, copy.nodes
      ensures Valid() && copy.Valid() && !failed && fresh(copy.repr - old(copy.repr)) && repr !! copy.repr
      ensures copy.contents == MapOf(Flat(chains[..b + 1]))
    {
      hide Valid, Linked, Holds, Flat, MapOf, DistinctKeys;
      FirstOf(b);
      ghost var o, s, q := Flat(chains), chains[b], |Flat(chains[..b])|;
      PrefixOf(b);
      var node := nodes[b];
      ghost var i := 0;
      failed := false;
      while node != null
        invariant Valid() && copy.Valid() && 0 <= i <= |s| && node == (if i < |s| then s[i] else null)
        invariant fresh(copy.repr - old(copy.repr)) && repr !! copy.repr && !failed
        invariant copy.contents == MapOf(o[..q + i])
        decreases |s| - i
      {
        NextToCopy(b, i);
        failed := copy.InsertWithSize(node.item.key, node.item.data, |node.item.data|);
        assert node.item.data[..|node.item.data|] == node.item.data;
        if failed {
          return;
        }
        node := node.next;
        i := i + 1;
      }
    }

    /** The pair at position i of chain b comes next in the listing; its key is new to the copy. */
    lemma NextToCopy(b: nat, i: nat)
      requires Valid() && b < |chains| && i < |chains[b]|
      ensures var o, p, n := Flat(chains), |Flat(chains[..b])| + i, chains[b][i];
        && p < |o| && n.item.key !in MapOf(o[..p]) && MapOf(o[..p + 1]) == MapOf(o[..p])[n.item.key := n.item.data]
        && n.next == if i + 1 < |chains[b]| then chains[b][i + 1] else null
    {
      hide Valid, Flat, MapOf, Linked, Holds, DistinctKeys;
      PrefixOf(b);
      After(chains, b, i);
      OneMoreCopied(Flat(chains), |Flat(chains[..b])| + i);
      SuccessorOf(b, i);
    }

    lemma SuccessorOf(b: nat, i: nat)
      requires Valid() && b < |chains| && i < |chains[b]|
      ensures chains[b][i].next == if i + 1 < |chains[b]| then chains[b][i + 1] else null
    {
      ChainOf(b);
      At(nodes[b], chains[b], i);
    }

    /** The enumeration up to bucket b, and up to the next one. */
    lemma PrefixOf(b: nat)
      requires Valid() && b < |chains|
      ensures DistinctKeys(Flat(chains))
      ensures var o, q := Flat(chains), |Flat(chains[..b])|;
              q + |chains[b]| <= |o| && o[..q] == Flat(chains[..b]) && o[..q + |chains[b]|] == Flat(chains[..b + 1])
    {
      hide Flat, Linked, Holds, DistinctKeys;
      MapOfFlat(hash, chains, contents, repr);
      FlatSplit(chains, b, 0);
      FlatSplit(chains, b, |chains[b]|);
      FlatSplit(chains[..b + 1], b, |chains[b]|);
      assert chains[..b + 1][..b] == chains[..b] && chains[..b + 1][b + 1..] == [];
      FlatNone();
    }

    lemma FlatNone()
      ensures Flat([]) == [] && MapOf([]) == map[]
    {
    }

    /** A copy of the table: the same pairs, and none of the nodes. */
    method Duplicate() returns (copy: HashTable?)
      requires Valid()
      ensures Valid() && copy != null && copy.Valid() && copy.contents == contents
      ensures fresh(copy) && fresh(copy.nodes) && fresh(copy.repr) && copy.size == size
    {
      hide Valid, Linked, Holds, Flat, MapOf;
      Positive();
      FlatNone();
      var table := new HashTable(size, hash);
      assert chains[..0] == [];
      var n := 0;
      while n < size
        invariant Valid() && table.Valid() && 0 <= n <= size == |chains| && fresh(table.nodes) && fresh(table.repr)
        invariant table.size == size && table.contents == MapOf(Flat(chains[..n]))
      {
        var failed := CopyBucket(n, table);
        if failed {
          return null;
        }
        n := n + 1;
      }
      assert chains[..n] == chains;
      AllCopied();
      copy := table;
    }

    lemma AllCopied()
      requires Valid()
      ensures MapOf(Flat(chains)) == contents
    {
      MapOfFlat(hash, chains, contents, repr);
    }
  }
}
