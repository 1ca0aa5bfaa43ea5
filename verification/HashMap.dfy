/**
  tinystl::unordered_map: one doubly linked list threaded through all buckets, in bucket order,
  with buckets[b] pointing at the first node of bucket b or later. The relocators keep their
  offset maps in it.
 */
module HashMap {
  import opened Words

  // ----- masks

  function Pow8(k: nat): (r: nat)
    ensures r > 0
  {
    if k == 0 then 1 else 8 * Pow8(k - 1)
  }

  /** Masking with a power of 8 less one is the remainder by that power. */
  lemma {:induction false} MaskIsRemainder(x: nat, k: nat)
    ensures And(x, Pow8(k) - 1) == x % Pow8(k)
    decreases k
  {
    hide And;
    if k == 0 {
      AndZero(x);
    } else {
      var p := Pow8(k - 1);
      MaskIsRemainder(x / 8, k - 1);
      ThreeBits(x, p);
      RemainderByEightTimes(x, p);
    }
  }

  lemma AndZero(x: nat)
    ensures And(x, 0) == 0
  {
  }

  lemma RemainderByEightTimes(x: nat, p: nat)
    requires p > 0
    ensures x % (8 * p) == x / 8 % p * 8 + x % 8
  {
    var y := x / 8;
    var q, r := y / p, y % p;
    assert y == q * p + r;
    assert 8 * (q * p) == q * (8 * p);
    DivModUnique(x, 8 * p, q, r * 8 + x % 8);
  }

  lemma ThreeBits(x: nat, p: nat)
    requires p > 0
    ensures And(x, 8 * p - 1) == 8 * And(x / 8, p - 1) + x % 8
  {
    hide And;
    LowBit(x, 4 * p);
    LowBit(x / 2, 2 * p);
    LowBit(x / 4, p);
    assert x / 2 / 2 == x / 4 && x / 4 / 2 == x / 8;
    assert x % 8 == x % 2 + x / 2 % 2 * 2 + x / 4 % 2 * 4;
  }

  lemma LowBit(x: nat, p: nat)
    requires p > 0
    ensures And(x, 2 * p - 1) == 2 * And(x / 2, p - 1) + x % 2
  {
    assert (2 * p - 1) / 2 == p - 1 && (2 * p - 1) % 2 == 1;
  }

  // ----- nodes and lists

  class Node<K, V> {
    const first: K
    var second: V
    var next: Node?<K, V>
    var prev: Node?<K, V>

    constructor (key: K, value: V)
      ensures first == key && second == value && next == null && prev == null
    {
      first, second, next, prev := key, value, null, null;
    }
  }

  /** The bucket of a key, with nb buckets. */
  function BucketOf<K>(hash: K -> nat, nb: nat, key: K): (b: nat)
    requires nb > 0
    ensures b < nb
  {
    And(hash(key), nb - 1)
  }

  function NodeAt<K, V>(nodes: seq<Node<K, V>>, i: nat): Node?<K, V>
  {
    if i < |nodes| then nodes[i] else null
  }

  /** How many leading nodes lie in buckets below b. */
  function Cut<K, V>(hash: K -> nat, nb: nat, nodes: seq<Node<K, V>>, b: nat): (p: nat)
    requires nb > 0
    ensures p <= |nodes|
    ensures forall i :: 0 <= i < p ==> BucketOf(hash, nb, nodes[i].first) < b
    ensures p < |nodes| ==> BucketOf(hash, nb, nodes[p].first) >= b
  {
    if nodes == [] || BucketOf(hash, nb, nodes[0].first) >= b then 0
    else 1 + Cut(hash, nb, nodes[1..], b)
  }

  /** Nodes come in bucket order. */
  ghost predicate Ordered<K, V>(hash: K -> nat, nb: nat, nodes: seq<Node<K, V>>)
    requires nb > 0
  {
    forall i, j :: 0 <= i < j < |nodes| ==> BucketOf(hash, nb, nodes[i].first) <= BucketOf(hash, nb, nodes[j].first)
  }

  ghost predicate LinkedList<K, V>(nodes: seq<Node<K, V>>)
    reads nodes
  {
    && (forall i {:trigger nodes[i].next} :: 0 <= i < |nodes| ==> nodes[i].next == NodeAt(nodes, i + 1))
    && (forall i {:trigger nodes[i].prev} :: 0 <= i < |nodes| ==>
          nodes[i].prev == if i == 0 then null else nodes[i - 1])
  }

  /** The whole structure: an ordered list, and bucket b pointing at its first node of bucket b or later. */
  ghost predicate Threaded<K, V>(hash: K -> nat, buckets: array<Node?<K, V>>, nodes: seq<Node<K, V>>)
    reads buckets, nodes
  {
    && buckets.Length >= 2
    && var nb := buckets.Length - 1;
    && (forall i, j :: 0 <= i < j < |nodes| ==> nodes[i] != nodes[j])
    && Ordered(hash, nb, nodes)
    && LinkedList(nodes)
    && forall b :: 0 <= b <= nb ==> buckets[b] == NodeAt(nodes, Cut(hash, nb, nodes, b))
  }

  // ----- inserting into and removing from the order

  function InsertAt<T>(s: seq<T>, p: nat, x: T): seq<T>
    requires p <= |s|
  {
    s[..p] + [x] + s[p..]
  }

  function RemoveAt<T>(s: seq<T>, p: nat): seq<T>
    requires p < |s|
  {
    s[..p] + s[p + 1..]
  }

  lemma CutUnique<K, V>(hash: K -> nat, nb: nat, nodes: seq<Node<K, V>>, b: nat, p: nat)
    requires nb > 0 && p <= |nodes|
    requires forall i :: 0 <= i < p ==> BucketOf(hash, nb, nodes[i].first) < b
    requires p < |nodes| ==> BucketOf(hash, nb, nodes[p].first) >= b
    ensures Cut(hash, nb, nodes, b) == p
  {
  }

  lemma BehindCut<K, V>(hash: K -> nat, nb: nat, nodes: seq<Node<K, V>>, b: nat, i: nat)
    requires nb > 0 && Ordered(hash, nb, nodes) && i < |nodes|
    ensures i < Cut(hash, nb, nodes, b) <==> BucketOf(hash, nb, nodes[i].first) < b
  {
    hide BucketOf;
    var p := Cut(hash, nb, nodes, b);
    if p < i {
      assert BucketOf(hash, nb, nodes[p].first) <= BucketOf(hash, nb, nodes[i].first);
    }
  }

  /** A node put behind all nodes of its bucket and those before it keeps the order. */
  lemma InsertKeepsOrder<K, V>(hash: K -> nat, nb: nat, nodes: seq<Node<K, V>>, node: Node<K, V>)
    requires nb > 0 && Ordered(hash, nb, nodes)
    ensures Ordered(hash, nb, InsertAt(nodes, Cut(hash, nb, nodes, BucketOf(hash, nb, node.first) + 1), node))
  {
    hide BucketOf, Cut;
    var k := BucketOf(hash, nb, node.first);
    var p := Cut(hash, nb, nodes, k + 1);
    var nodes' := InsertAt(nodes, p, node);
    forall i, j | 0 <= i < j < |nodes'|
      ensures BucketOf(hash, nb, nodes'[i].first) <= BucketOf(hash, nb, nodes'[j].first)
    {
      if i < p {
        BehindCut(hash, nb, nodes, k + 1, i);
      }
      if j > p {
        BehindCut(hash, nb, nodes, k + 1, j - 1);
      }
    }
  }

  lemma InsertedAt<T>(s: seq<T>, p: nat, x: T)
    requires p <= |s|
    ensures |InsertAt(s, p, x)| == |s| + 1 && InsertAt(s, p, x)[p] == x
    ensures forall i :: 0 <= i < p ==> InsertAt(s, p, x)[i] == s[i]
    ensures forall i :: p < i <= |s| ==> InsertAt(s, p, x)[i] == s[i - 1]
  {
  }

  /** The cuts behind the inserted node's bucket move by one. */
  lemma InsertMovesCut<K, V>(hash: K -> nat, nb: nat, nodes: seq<Node<K, V>>, node: Node<K, V>, b: nat)
    requires nb > 0 && Ordered(hash, nb, nodes)
    ensures var k := BucketOf(hash, nb, node.first);
            var p := Cut(hash, nb, nodes, k + 1);
            && Cut(hash, nb, InsertAt(nodes, p, node), b) == Cut(hash, nb, nodes, b) + (if b <= k then 0 else 1)
            && (b <= k ==> Cut(hash, nb, nodes, b) <= p)
            && (b > k ==> Cut(hash, nb, nodes, b) >= p)
  {
    hide BucketOf, Cut, InsertAt, Ordered;
    var k := BucketOf(hash, nb, node.first);
    var p, q := Cut(hash, nb, nodes, k + 1), Cut(hash, nb, nodes, b);
    var nodes' := InsertAt(nodes, p, node);
    InsertedAt(nodes, p, node);
    CutMonotone(hash, nb, nodes, if b <= k then b else k + 1, if b <= k then k + 1 else b);
    CutUnique(hash, nb, nodes', b, if b <= k then q else q + 1);
  }

  lemma RemoveKeepsOrder<K, V>(hash: K -> nat, nb: nat, nodes: seq<Node<K, V>>, p: nat)
    requires nb > 0 && p < |nodes| && Ordered(hash, nb, nodes)
    ensures Ordered(hash, nb, RemoveAt(nodes, p))
  {
    hide BucketOf;
  }

  /** The cuts behind the removed node's bucket move back by one. */
  lemma RemoveMovesCut<K, V>(hash: K -> nat, nb: nat, nodes: seq<Node<K, V>>, p: nat, b: nat)
    requires nb > 0 && p < |nodes| && Ordered(hash, nb, nodes)
    ensures var k := BucketOf(hash, nb, nodes[p].first);
            && (b <= k ==> Cut(hash, nb, nodes, b) <= p)
            && (b > k ==> Cut(hash, nb, nodes, b) > p)
            && Cut(hash, nb, RemoveAt(nodes, p), b) == Cut(hash, nb, nodes, b) - (if b <= k then 0 else 1)
  {
    hide BucketOf, Cut;
    var k, q := BucketOf(hash, nb, nodes[p].first), Cut(hash, nb, nodes, b);
    var nodes' := RemoveAt(nodes, p);
    BehindCut(hash, nb, nodes, b, p);
    if b <= k && q == p && p + 1 < |nodes| {
      BehindCut(hash, nb, nodes, b, p + 1);
    }
    CutUnique(hash, nb, nodes', b, if b <= k then q else q - 1);
  }

  /** Cuts grow with the bucket. */
  lemma CutMonotone<K, V>(hash: K -> nat, nb: nat, nodes: seq<Node<K, V>>, b: nat, c: nat)
    requires nb > 0 && b <= c && Ordered(hash, nb, nodes)
    ensures Cut(hash, nb, nodes, b) <= Cut(hash, nb, nodes, c)
  {
    hide BucketOf, Cut;
  }

  // ----- the operations on nodes and buckets

  /** Splicing node into the list before position p. */
  method Splice<K, V>(node: Node<K, V>, before: Node?<K, V>, last: Node?<K, V>, ghost nodes: seq<Node<K, V>>,
                      ghost p: nat)
    requires p <= |nodes| && LinkedList(nodes) && node !in nodes && Distinct(nodes)
    requires before == NodeAt(nodes, p)
    requires before == null ==> last == (if nodes == [] then null else nodes[|nodes| - 1])
    modifies node`next, node`prev, nodes
    ensures LinkedList(InsertAt(nodes, p, node))
    ensures forall n <- nodes :: n.second == old(n.second)
  {
    node.next := before;
    if before != null {
      node.prev := before.prev;
      before.prev := node;
      if node.prev != null {
        node.prev.next := node;
      }
    } else {
      node.prev := last;
      if last != null {
        last.next := node;
      }
    }
  }

  /** Entries from bucket downwards are redirected from `from` to `to`, as long as they are `from`. */
  method Redirect<K, V>(buckets: array<Node?<K, V>>, bucket: nat, from: Node?<K, V>, to: Node?<K, V>)
    requires bucket < buckets.Length
    modifies buckets
    ensures forall c :: 0 <= c < buckets.Length ==>
              buckets[c] == if c <= bucket && RunOf(old(buckets[..]), c, bucket, from) then to else old(buckets[c])
  {
    var b := bucket;
    ghost var was := buckets[..];
    while buckets[b] == from
      invariant 0 <= b <= bucket
      invariant RunOf(was, b + 1, bucket, from)
      invariant forall c :: 0 <= c < buckets.Length ==> buckets[c] == if b < c <= bucket then to else was[c]
      decreases b
    {
      buckets[b] := to;
      if b == 0 {
        return;
      }
      b := b - 1;
    }
  }

  /** was[c..bucket] is all x */
  ghost predicate RunOf<T>(was: seq<T>, c: int, bucket: int, x: T)
    requires 0 <= c && bucket < |was|
  {
    forall d :: c <= d <= bucket ==> was[d] == x
  }

  /** The last node of the list, when nothing lies behind bucket. */
  method LastNode<K, V>(hash: K -> nat, buckets: array<Node?<K, V>>, bucket: nat, ghost nodes: seq<Node<K, V>>)
    returns (prev: Node?<K, V>)
    requires Threaded(hash, buckets, nodes) && bucket + 1 < buckets.Length && buckets[bucket + 1] == null
    ensures prev == if nodes == [] then null else nodes[|nodes| - 1]
  {
    hide BucketOf;
    var newbucket := bucket;
    while newbucket != 0 && buckets[newbucket] == null
      invariant 0 <= newbucket <= bucket
    {
      newbucket := newbucket - 1;
    }
    prev := buckets[newbucket];
    CutUnique(hash, buckets.Length - 1, nodes, 0, 0);
    ghost var i := Cut(hash, buckets.Length - 1, nodes, newbucket);
    hide Cut;
    while prev != null && prev.next != null
      invariant prev == NodeAt(nodes, i) && (nodes != [] ==> i < |nodes|)
      decreases |nodes| - i
    {
      prev := prev.next;
      i := i + 1;
    }
  }

  /** unordered_hash_node_insert */
  method NodeInsert<K, V>(hash: K -> nat, node: Node<K, V>, h: nat, buckets: array<Node?<K, V>>, nb: nat,
                          ghost nodes: seq<Node<K, V>>) returns (ghost nodes': seq<Node<K, V>>)
    requires Threaded(hash, buckets, nodes) && nb == buckets.Length - 1
    requires node !in nodes && h == hash(node.first)
    modifies buckets, node`next, node`prev, nodes
    ensures Threaded(hash, buckets, nodes')
    ensures nodes' == InsertAt(nodes, Cut(hash, nb, nodes, BucketOf(hash, nb, node.first) + 1), node)
    ensures forall n <- nodes :: n.second == old(n.second)
  {
    hide Cut;
    var bucket := And(h, nb - 1);
    assert bucket == BucketOf(hash, nb, node.first);
    hide BucketOf, And;
    var it := buckets[bucket + 1];
    ghost var was := buckets[..];
    nodes' := Link(hash, node, bucket, it, buckets, nodes);
    hide Ordered, LinkedList;
    Redirect(buckets, bucket, it, node);
    forall b | 0 <= b <= nb
      ensures buckets[b] == NodeAt(nodes', Cut(hash, nb, nodes', b))
    {
      EntryAfterInsert(hash, nb, was, nodes, node, b);
    }
  }

  /** The first half of the insertion: the list, not yet the buckets. */
  method Link<K, V>(hash: K -> nat, node: Node<K, V>, bucket: nat, it: Node?<K, V>, buckets: array<Node?<K, V>>,
                    ghost nodes: seq<Node<K, V>>) returns (ghost nodes': seq<Node<K, V>>)
    requires Threaded(hash, buckets, nodes) && node !in nodes
    requires bucket == BucketOf(hash, buckets.Length - 1, node.first) && it == buckets[bucket + 1]
    modifies node`next, node`prev, nodes
    ensures nodes' == InsertAt(nodes, Cut(hash, buckets.Length - 1, nodes, bucket + 1), node)
    ensures LinkedList(nodes') && Ordered(hash, buckets.Length - 1, nodes') && Distinct(nodes')
    ensures forall n <- nodes :: n.second == old(n.second)
  {
    hide Cut, BucketOf;
    var last := null;
    if it == null {
      last := LastNode(hash, buckets, bucket, nodes);
    }
    ghost var p := Cut(hash, buckets.Length - 1, nodes, bucket + 1);
    Splice(node, it, last, nodes, p);
    nodes' := InsertAt(nodes, p, node);
    InsertKeepsOrder(hash, buckets.Length - 1, nodes, node);
    InsertDistinct(nodes, p, node);
  }

  lemma InsertDistinct<T>(s: seq<T>, p: nat, x: T)
    requires p <= |s| && Distinct(s) && x !in s
    ensures forall i, j :: 0 <= i < j < |InsertAt(s, p, x)| ==> InsertAt(s, p, x)[i] != InsertAt(s, p, x)[j]
  {
  }

  /** After an insertion, bucket b starts where the redirected entry points. */
  lemma EntryAfterInsert<K, V>(hash: K -> nat, nb: nat, was: seq<Node?<K, V>>, nodes: seq<Node<K, V>>, node: Node<K, V>,
                               b: nat)
    requires b <= nb && |was| == nb + 1 && nb > 0 && Ordered(hash, nb, nodes) && Distinct(nodes)
    requires forall c :: 0 <= c <= nb ==> was[c] == NodeAt(nodes, Cut(hash, nb, nodes, c))
    ensures var k := BucketOf(hash, nb, node.first);
            NodeAt(InsertAt(nodes, Cut(hash, nb, nodes, k + 1), node),
                   Cut(hash, nb, InsertAt(nodes, Cut(hash, nb, nodes, k + 1), node), b))
            == if b <= k && RunOf(was, b, k, was[k + 1]) then node else was[b]
  {
    hide BucketOf, Cut;
    InsertMovesCut(hash, nb, nodes, node, b);
    var k := BucketOf(hash, nb, node.first);
    if b <= k {
      RunIsCut(hash, nb, was, nodes, b, k);
    }
  }

  /** Entries b..k all point at the node behind bucket k exactly when bucket b has no node before it. */
  lemma RunIsCut<K, V>(hash: K -> nat, nb: nat, was: seq<Node?<K, V>>, nodes: seq<Node<K, V>>, b: nat, k: nat)
    requires b <= k < nb && |was| == nb + 1 && Ordered(hash, nb, nodes) && Distinct(nodes)
    requires forall c :: 0 <= c <= nb ==> was[c] == NodeAt(nodes, Cut(hash, nb, nodes, c))
    ensures RunOf(was, b, k, was[k + 1]) <==> Cut(hash, nb, nodes, b) == Cut(hash, nb, nodes, k + 1)
  {
    hide BucketOf, Cut;
    var p, q := Cut(hash, nb, nodes, b), Cut(hash, nb, nodes, k + 1);
    CutMonotone(hash, nb, nodes, b, k + 1);
    if p == q {
      forall d | b <= d <= k
        ensures was[d] == was[k + 1]
      {
        CutMonotone(hash, nb, nodes, b, d);
        CutMonotone(hash, nb, nodes, d, k + 1);
      }
    } else {
      assert was[b] == nodes[p];
      assert was[b] != was[k + 1];
    }
  }

  /** Taking node p out of the list. */
  method Unlink<K, V>(where: Node<K, V>, next: Node?<K, V>, ghost nodes: seq<Node<K, V>>, ghost p: nat)
    requires p < |nodes| && where == nodes[p] && next == NodeAt(nodes, p + 1)
    requires LinkedList(nodes) && Distinct(nodes)
    modifies nodes
    ensures LinkedList(RemoveAt(nodes, p))
    ensures forall n <- nodes :: n.second == old(n.second)
  {
    if where.prev != null {
      where.prev.next := where.next;
    }
    if next != null {
      next.prev := where.prev;
    }
  }

  /** After a removal, bucket b starts where the redirected entry points. */
  lemma EntryAfterErase<K, V>(hash: K -> nat, nb: nat, was: seq<Node?<K, V>>, nodes: seq<Node<K, V>>, p: nat, b: nat)
    requires p < |nodes| && b <= nb && |was| == nb + 1 && nb > 0 && Ordered(hash, nb, nodes) && Distinct(nodes)
    requires forall c :: 0 <= c <= nb ==> was[c] == NodeAt(nodes, Cut(hash, nb, nodes, c))
    ensures var k := BucketOf(hash, nb, nodes[p].first);
            NodeAt(RemoveAt(nodes, p), Cut(hash, nb, RemoveAt(nodes, p), b))
            == if b <= k && RunOf(was, b, k, nodes[p]) then NodeAt(nodes, p + 1) else was[b]
  {
    hide BucketOf, Cut;
    var k, q := BucketOf(hash, nb, nodes[p].first), Cut(hash, nb, nodes, b);
    RemoveMovesCut(hash, nb, nodes, p, b);
    if b <= k {
      if q == p {
        forall d | b <= d <= k
          ensures was[d] == nodes[p]
        {
          CutMonotone(hash, nb, nodes, b, d);
          RemoveMovesCut(hash, nb, nodes, p, d);
        }
      } else {
        assert was[b] == nodes[q] && nodes[q] != nodes[p];
      }
    }
  }

  /** unordered_hash_node_erase */
  method NodeErase<K, V>(hash: K -> nat, where: Node<K, V>, h: nat, buckets: array<Node?<K, V>>, nb: nat,
                         ghost nodes: seq<Node<K, V>>, ghost p: nat)
    requires Threaded(hash, buckets, nodes) && nb == buckets.Length - 1
    requires p < |nodes| && nodes[p] == where && h == hash(where.first)
    modifies buckets, nodes
    ensures Threaded(hash, buckets, RemoveAt(nodes, p))
    ensures forall n <- nodes :: n.second == old(n.second)
  {
    hide Cut;
    var bucket := And(h, nb - 1);
    assert bucket == BucketOf(hash, nb, where.first);
    hide BucketOf, And;
    var next := where.next;
    ghost var was := buckets[..];
    Redirect(buckets, bucket, where, next);
    Unlink(where, next, nodes, p);
    forall b | 0 <= b <= nb
      ensures buckets[b] == NodeAt(RemoveAt(nodes, p), Cut(hash, nb, RemoveAt(nodes, p), b))
    {
      EntryAfterErase(hash, nb, was, nodes, p, b);
    }
    RemoveKeepsOrder(hash, nb, nodes, p);
  }

  /** unordered_hash_find, whose nbuckets counts the sentinel bucket: its mask is the one insertion uses. */
  method Find<K(==), V>(hash: K -> nat, key: K, buckets: array<Node?<K, V>>, nbuckets: nat,
                        ghost nodes: seq<Node<K, V>>)
    returns (r: Node?<K, V>)
    requires Threaded(hash, buckets, nodes) && nbuckets == buckets.Length
    ensures r == null ==> forall n <- nodes :: n.first != key
    ensures r != null ==> r in nodes && r.first == key
  {
    hide Cut;
    var bucket := And(hash(key), nbuckets - 2);
    assert bucket == BucketOf(hash, nbuckets - 1, key);
    hide BucketOf, And;
    ghost var i, e := Cut(hash, nbuckets - 1, nodes, bucket), Cut(hash, nbuckets - 1, nodes, bucket + 1);
    CutMonotone(hash, nbuckets - 1, nodes, bucket, bucket + 1);
    hide Ordered, LinkedList;
    r := Scan(key, buckets[bucket], buckets[bucket + 1], nodes, i, e);
    if r == null {
      OtherBuckets(hash, nbuckets - 1, nodes, key);
    }
  }

  /** The loop of the search, over nodes[i..e]. */
  method Scan<K(==), V>(key: K, begin: Node?<K, V>, end: Node?<K, V>, ghost nodes: seq<Node<K, V>>, ghost i: nat,
                        ghost e: nat)
    returns (r: Node?<K, V>)
    requires LinkedList(nodes) && Distinct(nodes) && i <= e <= |nodes|
    requires begin == NodeAt(nodes, i) && end == NodeAt(nodes, e)
    ensures r == null ==> forall j :: i <= j < e ==> nodes[j].first != key
    ensures r != null ==> r in nodes && r.first == key
  {
    var it := begin;
    ghost var k := i;
    while it != end
      invariant i <= k <= e && it == NodeAt(nodes, k)
      invariant forall j :: i <= j < k ==> nodes[j].first != key
      decreases e - k
    {
      if it.first == key {
        return it;
      }
      it := it.next;
      k := k + 1;
    }
    r := null;
  }

  /** Outside its own bucket no node has the key. */
  lemma OtherBuckets<K, V>(hash: K -> nat, nb: nat, nodes: seq<Node<K, V>>, key: K)
    requires nb > 0 && Ordered(hash, nb, nodes)
    requires var b := BucketOf(hash, nb, key);
             forall j :: Cut(hash, nb, nodes, b) <= j < Cut(hash, nb, nodes, b + 1) ==> nodes[j].first != key
    ensures forall n <- nodes :: n.first != key
  {
    hide BucketOf, Cut;
    var b := BucketOf(hash, nb, key);
    forall n | n in nodes
      ensures n.first != key
    {
      var j :| 0 <= j < |nodes| && nodes[j] == n;
      BehindCut(hash, nb, nodes, b, j);
      BehindCut(hash, nb, nodes, b + 1, j);
    }
  }

  // ----- the map

  /** The nodes hold exactly the entries of m, one node a key. */
  ghost predicate Represents<K, V>(nodes: seq<Node<K, V>>, m: map<K, V>)
    reads nodes
  {
    && (forall n <- nodes :: n.first in m && m[n.first] == n.second)
    && (forall n, n' :: n in nodes && n' in nodes && n != n' ==> n.first != n'.first)
    && (forall k <- m :: exists n <- nodes :: n.first == k)
  }

  /** Insertion and removal leave the entries themselves alone. */
  method NodeInsertKeeping<K, V>(hash: K -> nat, node: Node<K, V>, buckets: array<Node?<K, V>>,
                                 ghost nodes: seq<Node<K, V>>, ghost m: map<K, V>)
    returns (ghost nodes': seq<Node<K, V>>)
    requires Threaded(hash, buckets, nodes) && node !in nodes && Represents(nodes, m)
    modifies buckets, node`next, node`prev, nodes
    ensures Threaded(hash, buckets, nodes') && Represents(nodes, m) && |nodes'| == |nodes| + 1
    ensures forall n :: n in nodes' <==> n in nodes || n == node
    ensures forall i :: 0 <= i < |nodes'| ==> nodes'[i] == node || nodes'[i] in nodes
  {
    hide Threaded, InsertAt, Cut, BucketOf;
    BucketsExist(hash, buckets, nodes);
    nodes' := NodeInsert(hash, node, hash(node.first), buckets, buckets.Length - 1, nodes);
    InsertMultiset(nodes, Cut(hash, buckets.Length - 1, nodes, BucketOf(hash, buckets.Length - 1, node.first) + 1),
        node);
    assert |multiset(nodes')| == |multiset(nodes)| + 1;
  }

  lemma BucketsExist<K, V>(hash: K -> nat, buckets: array<Node?<K, V>>, nodes: seq<Node<K, V>>)
    requires Threaded(hash, buckets, nodes)
    ensures buckets.Length >= 2
  {
  }

  method NodeEraseKeeping<K, V>(hash: K -> nat, where: Node<K, V>, buckets: array<Node?<K, V>>,
                                ghost nodes: seq<Node<K, V>>, ghost p: nat, ghost m: map<K, V>)
    requires Threaded(hash, buckets, nodes) && p < |nodes| && nodes[p] == where && Represents(nodes, m)
    modifies buckets, nodes
    ensures Threaded(hash, buckets, RemoveAt(nodes, p)) && Represents(nodes, m)
  {
    hide Threaded;
    BucketsExist(hash, buckets, nodes);
    NodeErase(hash, where, hash(where.first), buckets, buckets.Length - 1, nodes, p);
  }

  lemma EmptyThreaded<K, V>(hash: K -> nat, buckets: array<Node?<K, V>>)
    requires buckets.Length >= 2 && forall b :: 0 <= b < buckets.Length ==> buckets[b] == null
    ensures Threaded(hash, buckets, [])
  {
  }

  /** buffer_resize of an empty buffer: n null pointers */
  method NewBuckets<K, V>(n: nat) returns (buckets: array<Node?<K, V>>)
    ensures fresh(buckets) && buckets.Length == n
    ensures forall b :: 0 <= b < n ==> buckets[b] == null
  {
    buckets := new Node?<K, V>[n](_ => null);
  }

  class UnorderedMap<K(==), V> {
    const hash: K -> nat
    var size: nat
    var buckets: array<Node?<K, V>>

    ghost var nodes: seq<Node<K, V>>
    ghost var contents: map<K, V>
    ghost var level: nat

    ghost predicate Valid()
      reads this, buckets, nodes
    {
      && Threaded(hash, buckets, nodes)
      && Represents(nodes, contents)
      && size == |nodes| == |contents|
      && buckets.Length == Pow8(level + 1) + 1
    }

    constructor (hash: K -> nat)
      ensures Valid() && contents == map[] && fresh(buckets) && buckets.Length == 8 + 1
      ensures this.hash == hash && nodes == []
    {
      this.hash := hash;
      size := 0;
      nodes, contents, level := [], map[], 0;
      buckets := new Node?<K, V>[9](_ => null);
      new;
      EmptyThreaded(hash, buckets);
      assert Pow8(1) == 8 * Pow8(0);
    }

    /** The copy constructor: the same buckets, and copies of the nodes in the same order. */
    constructor Copy(other: UnorderedMap<K, V>)
      requires other.Valid()
      ensures Valid() && contents == other.contents && hash == other.hash
      ensures fresh(buckets) && buckets.Length == other.buckets.Length
      ensures |nodes| == |other.nodes| && forall i :: 0 <= i < |nodes| ==> fresh(nodes[i])
      ensures forall i :: 0 <= i < |nodes| ==> nodes[i].first == other.nodes[i].first
    {
      hash, size, contents, level := other.hash, 0, map[], 0;
      nodes, buckets := [], other.buckets;
      new;
      CopyFrom(other);
    }

    method CopyFrom(other: UnorderedMap<K, V>)
      requires other.Valid() && other != this && hash == other.hash
      modifies this
      ensures Valid() && contents == other.contents
      ensures fresh(buckets) && buckets.Length == other.buckets.Length
      ensures |nodes| == |other.nodes| && forall i :: 0 <= i < |nodes| ==> fresh(nodes[i])
      ensures forall i :: 0 <= i < |nodes| ==> nodes[i].first == other.nodes[i].first
    {
      hide Threaded, Represents, Pow8;
      var copy;
      ghost var done;
      copy, done := CopyList(hash, other.buckets, other.nodes, other.contents);
      buckets, size, nodes, contents, level := copy, other.size, done, other.contents, other.level;
    }

    method FindNode(key: K) returns (r: Node?<K, V>)
      requires Valid()
      ensures r != null <==> key in contents
      ensures r != null ==> r in nodes && r.first == key && r.second == contents[key]
    {
      hide Ordered, LinkedList, Cut;
      r := Find(hash, key, buckets, buckets.Length, nodes);
    }

    /** Eight times the buckets, every node relinked in place. */
    method Grow()
      requires Valid()
      modifies this`buckets, this`nodes, this`level, nodes
      ensures Valid() && fresh(buckets) && level == old(level) + 1
      ensures buckets.Length == (old(buckets.Length) - 1) * 8 + 1
      ensures multiset(nodes) == multiset(old(nodes))
    {
      hide Threaded, Represents;
      var root := buckets[0];
      FirstNode(hash, buckets, nodes);
      ThreadedFacts(hash, buckets, nodes);
      var newnbuckets := (buckets.Length - 1) * 8;
      ghost var was := nodes;
      var newBuckets := NewBuckets<K, V>(newnbuckets + 1);
      EmptyThreaded(hash, newBuckets);
      ghost var done := RelinkAll(hash, root, newBuckets, newnbuckets, was, contents);
      SameNodes(was, done);
      buckets, nodes, level := newBuckets, done, level + 1;
    }

    /** Growth once the load passes four nodes an entry. */
    method Rehash(nbuckets: nat)
      requires Valid()
      modifies this`buckets, this`nodes, this`level, nodes
      ensures Valid() && (buckets == old(buckets) || fresh(buckets))
      ensures multiset(nodes) == multiset(old(nodes))
      ensures level == old(level) + (if size + 1 > 4 * nbuckets then 1 else 0)
      ensures buckets.Length == if size + 1 > 4 * nbuckets then (old(buckets.Length) - 1) * 8 + 1
                                else old(buckets.Length)
    {
      if size + 1 > 4 * nbuckets {
        Grow();
      }
    }

    /**
      `insert`: the node of the key, and whether it is new; an existing entry is left alone. A new one that
      brings the load past four entries a bucket multiplies the buckets by 8.
     */
    method Insert(key: K, value: V) returns (node: Node<K, V>, inserted: bool)
      requires Valid()
      modifies this, buckets, nodes
      ensures Valid() && (buckets == old(buckets) || fresh(buckets))
      ensures inserted <==> key !in old(contents)
      ensures contents == if inserted then old(contents)[key := value] else old(contents)
      ensures buckets.Length == if inserted && |old(contents)| + 2 > 4 * old(buckets.Length)
                                then (old(buckets.Length) - 1) * 8 + 1 else old(buckets.Length)
      ensures node in nodes && node.first == key
      ensures forall i :: 0 <= i < |nodes| ==> nodes[i] in old(nodes) || fresh(nodes[i])
    {
      hide Threaded, Represents, Pow8;
      var found := FindNode(key);
      if found != null {
        return found, false;
      }
      node := new Node(key, value);
      inserted := true;
      var nbuckets := buckets.Length;
      Link(node, value);
      ghost var linked := nodes;
      Rehash(nbuckets);
      SameNodes(linked, nodes);
      forall i | 0 <= i < |nodes|
        ensures nodes[i] in old(nodes) || fresh(nodes[i])
      {
        assert nodes[i] in linked;
      }
    }

    /** A new node takes its place in the buckets and in the contents. */
    method Link(node: Node<K, V>, ghost value: V)
      requires Valid() && node !in nodes && node.first !in contents && node.second == value
      modifies this`size, this`nodes, this`contents, buckets, node`next, node`prev, nodes
      ensures Valid() && contents == old(contents)[node.first := value]
      ensures node in nodes && forall i :: 0 <= i < |nodes| ==> nodes[i] == node || nodes[i] in old(nodes)
    {
      hide Threaded, Represents;
      ghost var was := nodes;
      nodes := NodeInsertKeeping(hash, node, buckets, nodes, contents);
      size := size + 1;
      RepresentsMore(was, contents, nodes, node);
      contents := contents[node.first := value];
    }

    /** `erase` of an entry found before */
    method Erase(where: Node<K, V>)
      requires Valid() && where in nodes
      modifies this`size, this`nodes, this`contents, buckets, nodes
      ensures Valid() && contents == old(contents) - {where.first}
      ensures forall n <- nodes :: n in old(nodes)
    {
      hide Threaded, Represents, Pow8;
      ghost var done := EraseFrom(hash, where, buckets, nodes, contents);
      nodes := done;
      size := size - 1;
      contents := contents - {where.first};
    }

    /** `(*this)[key] = value`, where init is the value-initialised V */
    method Assign(key: K, value: V, init: V)
      requires Valid()
      modifies this, buckets, nodes
      ensures Valid() && (buckets == old(buckets) || fresh(buckets))
      ensures contents == old(contents)[key := value]
      ensures forall i :: 0 <= i < |nodes| ==> nodes[i] in old(nodes) || fresh(nodes[i])
    {
      hide Threaded;
      var node, inserted := Insert(key, init);
      SetValue(node, value);
    }

    /** Assignment through the reference that `operator[]` returns. */
    method SetValue(node: Node<K, V>, value: V)
      requires Valid() && node in nodes
      modifies node`second, this`contents
      ensures Valid() && contents == old(contents)[node.first := value]
    {
      hide Ordered, Cut;
      node.second := value;
      contents := contents[node.first := value];
    }

    /** `clear` */
    method Clear()
      requires Valid()
      modifies this
      ensures Valid() && contents == map[] && nodes == [] && fresh(buckets) && buckets.Length == 8 + 1
    {
      buckets := NewBuckets<K, V>(9);
      EmptyThreaded(hash, buckets);
      size, nodes, contents, level := 0, [], map[], 0;
      assert Pow8(1) == 8 * Pow8(0);
    }
  }

  /** What nodes represent does not depend on their order. */
  lemma StillRepresents<K, V>(was: seq<Node<K, V>>, nodes: seq<Node<K, V>>, m: map<K, V>)
    requires Represents(was, m)
    requires forall n :: n in nodes <==> n in was
    ensures Represents(nodes, m)
  {
  }

  lemma CopyRepresents<K, V>(was: seq<Node<K, V>>, nodes: seq<Node<K, V>>, m: map<K, V>)
    requires Represents(was, m) && Distinct(was) && |nodes| == |was| && Copies(nodes, was)
    ensures Represents(nodes, m) && forall i :: 0 <= i < |was| ==> nodes[i].first == was[i].first
  {
    forall k | k in m
      ensures exists n <- nodes :: n.first == k
    {
      var n :| n in was && n.first == k;
      var i :| 0 <= i < |was| && was[i] == n;
      assert nodes[i].first == k;
    }
    forall n, n' | n in nodes && n' in nodes && n != n'
      ensures n.first != n'.first
    {
      var i :| 0 <= i < |nodes| && nodes[i] == n;
      var j :| 0 <= j < |nodes| && nodes[j] == n';
      assert was[i] != was[j];
    }
  }

  /** A node whose bucket is not before any other goes to the end. */
  lemma InsertsLast<K, V>(hash: K -> nat, nb: nat, nodes: seq<Node<K, V>>, node: Node<K, V>)
    requires nb > 0
    requires forall i :: 0 <= i < |nodes| ==> BucketOf(hash, nb, nodes[i].first) <= BucketOf(hash, nb, node.first)
    ensures InsertAt(nodes, Cut(hash, nb, nodes, BucketOf(hash, nb, node.first) + 1), node) == nodes + [node]
  {
    hide BucketOf;
  }

  /** done holds copies of the first |done| nodes of was, in the same order. */
  ghost predicate Copies<K, V>(done: seq<Node<K, V>>, was: seq<Node<K, V>>)
    reads done, was
  {
    && |done| <= |was|
    && forall j :: 0 <= j < |done| ==> done[j].first == was[j].first && done[j].second == was[j].second
  }

  /** One step of the copying loop: a copy of the next node behind all copies made so far. */
  method CopyNode<K, V>(hash: K -> nat, it: Node<K, V>, buckets: array<Node?<K, V>>, ghost done: seq<Node<K, V>>,
                        ghost was: seq<Node<K, V>>) returns (newnode: Node<K, V>)
    requires Threaded(hash, buckets, done) && buckets.Length >= 2 && Ordered(hash, buckets.Length - 1, was)
    requires Copies(done, was) && |done| < |was| && it == was[|done|] && forall n <- done :: n !in was
    modifies buckets, done
    ensures fresh(newnode) && Threaded(hash, buckets, done + [newnode]) && Copies(done + [newnode], was)
  {
    hide Threaded, Cut, InsertAt, BucketOf;
    newnode := new Node(it.first, it.second);
    InsertsLast(hash, buckets.Length - 1, done, newnode);
    ghost var done' := NodeInsert(hash, newnode, hash(it.first), buckets, buckets.Length - 1, done);
    forall j | 0 <= j < |done|
      ensures done[j].second == was[j].second
    {
      assert done[j] in done && was[j] in was;
    }
  }

  /** The loop of the copy constructor. */
  method CopyNodes<K, V>(hash: K -> nat, first: Node?<K, V>, buckets: array<Node?<K, V>>, from: array<Node?<K, V>>,
                         ghost was: seq<Node<K, V>>) returns (ghost done: seq<Node<K, V>>)
    requires Threaded(hash, from, was) && first == NodeAt(was, 0)
    requires Threaded(hash, buckets, []) && buckets != from && buckets.Length == from.Length
    modifies buckets
    ensures Threaded(hash, buckets, done) && |done| == |was| && Copies(done, was)
    ensures forall i :: 0 <= i < |done| ==> fresh(done[i])
  {
    hide Threaded, Ordered, Distinct, BucketOf, Cut;
    ThreadedFacts(hash, from, was);
    var it := first;
    done := [];
    while it != null
      invariant it == NodeAt(was, |done|)
      invariant Threaded(hash, buckets, done) && Copies(done, was)
      invariant forall j :: 0 <= j < |done| ==> fresh(done[j])
      decreases |was| - |done|
    {
      var newnode := CopyNode(hash, it, buckets, done, was);
      done := done + [newnode];
      it := it.next;
    }
  }

  /** `unordered_hash_node_erase`, in terms of the mapping too. */
  method EraseFrom<K, V>(hash: K -> nat, where: Node<K, V>, buckets: array<Node?<K, V>>, ghost was: seq<Node<K, V>>,
                         ghost m: map<K, V>)
    returns (ghost done: seq<Node<K, V>>)
    requires Threaded(hash, buckets, was) && Represents(was, m) && where in was
    modifies buckets, was
    ensures Threaded(hash, buckets, done) && Represents(done, m - {where.first})
    ensures |done| == |was| - 1 && |m - {where.first}| == |m| - 1 && forall n <- done :: n in was
  {
    hide Threaded, Represents, RemoveAt, LinkedList, Ordered, Distinct;
    ghost var p :| 0 <= p < |was| && was[p] == where;
    ThreadedFacts(hash, buckets, was);
    NodeEraseKeeping(hash, where, buckets, was, p, m);
    RepresentsLess(was, m, p);
    done := RemoveAt(was, p);
  }

  /** Buckets of the same number, and copies of all the nodes threaded through them. */
  method CopyList<K, V>(hash: K -> nat, from: array<Node?<K, V>>, ghost was: seq<Node<K, V>>, ghost m: map<K, V>)
    returns (copy: array<Node?<K, V>>, ghost done: seq<Node<K, V>>)
    requires Threaded(hash, from, was) && Represents(was, m)
    ensures fresh(copy) && copy.Length == from.Length && Threaded(hash, copy, done) && Represents(done, m)
    ensures |done| == |was| && forall i :: 0 <= i < |done| ==> fresh(done[i])
    ensures forall i :: 0 <= i < |was| ==> done[i].first == was[i].first
  {
    hide Threaded, Represents, LinkedList, Ordered, Distinct, Copies;
    BucketsExist(hash, from, was);
    FirstNode(hash, from, was);
    ThreadedFacts(hash, from, was);
    copy := NewBuckets<K, V>(from.Length);
    EmptyThreaded(hash, copy);
    done := CopyNodes(hash, from[0], copy, from, was);
    CopyRepresents(was, done, m);
  }

  lemma RepresentsMore<K, V>(was: seq<Node<K, V>>, m: map<K, V>, nodes: seq<Node<K, V>>, node: Node<K, V>)
    requires Represents(was, m) && node.first !in m
    requires forall n :: n in nodes <==> n in was || n == node
    ensures Represents(nodes, m[node.first := node.second])
    ensures |m[node.first := node.second]| == |m| + 1
  {
  }

  lemma RepresentsLess<K, V>(was: seq<Node<K, V>>, m: map<K, V>, p: nat)
    requires Represents(was, m) && p < |was| && Distinct(was)
    ensures Represents(RemoveAt(was, p), m - {was[p].first})
    ensures |m - {was[p].first}| == |m| - 1
    ensures |RemoveAt(was, p)| == |was| - 1 && forall n <- RemoveAt(was, p) :: n in was
  {
    var nodes, m' := RemoveAt(was, p), m - {was[p].first};
    forall n | n in nodes
      ensures n in was && n != was[p]
    {
    }
    forall k | k in m'
      ensures exists n <- nodes :: n.first == k
    {
      var n :| n in was && n.first == k;
      var i :| 0 <= i < |was| && was[i] == n;
      assert n == nodes[if i < p then i else i - 1];
    }
    assert m' + map[was[p].first := m[was[p].first]] == m;
    assert m'.Keys == m.Keys - {was[p].first};
  }

  lemma SameNodes<T>(s: seq<T>, t: seq<T>)
    requires multiset(s) == multiset(t)
    ensures |s| == |t| && forall x :: x in s <==> x in t
  {
    assert |multiset(s)| == |multiset(t)|;
    forall x
      ensures x in s <==> x in t
    {
      assert x in s <==> x in multiset(s);
      assert x in t <==> x in multiset(t);
    }
  }

  lemma ThreadedFacts<K, V>(hash: K -> nat, buckets: array<Node?<K, V>>, nodes: seq<Node<K, V>>)
    requires Threaded(hash, buckets, nodes)
    ensures buckets.Length >= 2 && LinkedList(nodes) && Distinct(nodes) && Ordered(hash, buckets.Length - 1, nodes)
  {
  }

  lemma FirstNode<K, V>(hash: K -> nat, buckets: array<Node?<K, V>>, nodes: seq<Node<K, V>>)
    requires Threaded(hash, buckets, nodes)
    ensures buckets[0] == NodeAt(nodes, 0)
  {
    CutUnique(hash, buckets.Length - 1, nodes, 0, 0);
  }

  /** One step of the relinking loop: unhook root, insert it. */
  method Relink<K, V>(hash: K -> nat, root: Node<K, V>, buckets: array<Node?<K, V>>, nb: nat,
                      ghost done: seq<Node<K, V>>)
    returns (ghost done': seq<Node<K, V>>)
    requires Threaded(hash, buckets, done) && nb == buckets.Length - 1 && root !in done
    modifies buckets, root`next, root`prev, done
    ensures Threaded(hash, buckets, done') && multiset(done') == multiset(done) + multiset{root}
    ensures forall j :: 0 <= j < |done'| ==> done'[j] == root || done'[j] in done
    ensures forall n <- done :: n.second == old(n.second)
  {
    hide Threaded, InsertAt, Cut, BucketOf, NodeAt;
    root.next, root.prev := null, null;
    done' := NodeInsert(hash, root, hash(root.first), buckets, nb, done);
    InsertMultiset(done, Cut(hash, nb, done, BucketOf(hash, nb, root.first) + 1), root);
    forall j | 0 <= j < |done'|
      ensures done'[j] == root || done'[j] in done
    {
      assert done'[j] in done';
    }
  }

  lemma NotBefore<T>(s: seq<T>, i: nat)
    requires Distinct(s) && i < |s|
    ensures s[..i + 1] == s[..i] + [s[i]]
    ensures forall j :: i <= j < |s| ==> s[j] !in s[..i]
    ensures forall j :: i < j < |s| ==> s[j] != s[i]
  {
  }

  /** The loop of rehash: walk the old list, unhooking each node and inserting it into the new buckets. */
  method RelinkAll<K, V>(hash: K -> nat, first: Node?<K, V>, buckets: array<Node?<K, V>>, nb: nat,
                         ghost was: seq<Node<K, V>>, ghost m: map<K, V>)
    returns (ghost done: seq<Node<K, V>>)
    requires Threaded(hash, buckets, []) && nb == buckets.Length - 1
    requires LinkedList(was) && Distinct(was) && first == NodeAt(was, 0) && Represents(was, m)
    modifies buckets, was
    ensures Threaded(hash, buckets, done) && multiset(done) == multiset(was)
    ensures Represents(done, m)
  {
    var root := first;
    ghost var i := 0;
    done := [];
    hide Threaded, Distinct, Ordered, Cut;
    while root != null
      invariant i <= |was| && root == NodeAt(was, i)
      invariant Threaded(hash, buckets, done) && multiset(done) == multiset(was[..i])
      invariant forall j :: 0 <= j < |done| ==> done[j] in was[..i]
      invariant forall j {:trigger was[j].next} :: i <= j < |was| ==> was[j].next == NodeAt(was, j + 1)
      invariant forall n <- was :: n.second == old(n.second)
      decreases |was| - i
    {
      NotBefore(was, i);
      var next := root.next;
      done := Relink(hash, root, buckets, nb, done);
      root := next;
      i := i + 1;
    }
    assert was[..i] == was;
    SameNodes(was, done);
    StillRepresents(was, done, m);
  }

  lemma InsertMultiset<T>(s: seq<T>, p: nat, x: T)
    requires p <= |s|
    ensures multiset(InsertAt(s, p, x)) == multiset(s) + multiset{x}
    ensures forall y :: y in InsertAt(s, p, x) <==> y in s || y == x
  {
    assert s == s[..p] + s[p..];
  }

  // ----- any sequence of operations

  datatype Op<K, V> = InsertOp(key: K, value: V) | FindOp(key: K) | EraseOp(key: K)

  /** What a map answers to an operation (insert: the value already there, if any), and the map after it. */
  function Answer<K(==), V>(m: map<K, V>, op: Op<K, V>): Option<V>
  {
    if op.key in m then Some(m[op.key]) else None
  }

  function After<K(==), V>(m: map<K, V>, op: Op<K, V>): map<K, V>
  {
    match op
    case InsertOp(key, value) => if key in m then m else m[key := value]
    case FindOp(_) => m
    case EraseOp(key) => m - {key}
  }

  function Answers<K(==), V>(m: map<K, V>, ops: seq<Op<K, V>>): seq<Option<V>>
    decreases |ops|
  {
    if ops == [] then [] else [Answer(m, ops[0])] + Answers(After(m, ops[0]), ops[1..])
  }

  function AfterAll<K(==), V>(m: map<K, V>, ops: seq<Op<K, V>>): map<K, V>
    decreases |ops|
  {
    if ops == [] then m else AfterAll(After(m, ops[0]), ops[1..])
  }

  method RunOne<K(==), V>(hm: UnorderedMap<K, V>, op: Op<K, V>) returns (r: Option<V>)
    requires hm.Valid()
    modifies hm, hm.buckets, hm.nodes
    ensures hm.Valid() && (hm.buckets == old(hm.buckets) || fresh(hm.buckets))
    ensures r == Answer(old(hm.contents), op) && hm.contents == After(old(hm.contents), op)
    ensures forall i :: 0 <= i < |hm.nodes| ==> hm.nodes[i] in old(hm.nodes) || fresh(hm.nodes[i])
  {
    hide UnorderedMap.Valid;
    var node := hm.FindNode(op.key);
    r := if node == null then None else Some(node.second);
    match op
    case InsertOp(key, value) => var _, _ := hm.Insert(key, value);
    case FindOp(_) =>
    case EraseOp(_) =>
      if node != null {
        hm.Erase(node);
      }
  }

  /** Over every sequence of insertions, searches and removals the structure answers as a map does. */
  method Run<K(==), V>(hm: UnorderedMap<K, V>, ops: seq<Op<K, V>>) returns (answers: seq<Option<V>>)
    requires hm.Valid()
    modifies hm, hm.buckets, hm.nodes
    ensures hm.Valid()
    ensures answers == Answers(old(hm.contents), ops) && hm.contents == AfterAll(old(hm.contents), ops)
  {
    hide UnorderedMap.Valid;
    answers := [];
    var i := 0;
    while i < |ops|
      invariant i <= |ops| && hm.Valid() && (hm.buckets == old(hm.buckets) || fresh(hm.buckets))
      invariant forall j :: 0 <= j < |hm.nodes| ==> hm.nodes[j] in old(hm.nodes) || fresh(hm.nodes[j])
      invariant answers + Answers(hm.contents, ops[i..]) == Answers(old(hm.contents), ops)
      invariant AfterAll(hm.contents, ops[i..]) == AfterAll(old(hm.contents), ops)
    {
      assert ops[i..][0] == ops[i] && ops[i..][1..] == ops[i + 1..];
      var r := RunOne(hm, ops[i]);
      answers := answers + [r];
      i := i + 1;
    }
  }
}
