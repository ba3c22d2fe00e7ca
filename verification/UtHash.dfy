/**
 The intrusive hash table behind the key index: bucket chains and a list in order of insertion run
 through the same nodes, and the bucket array doubles while nodes are added.
 */
module UtHash {
  import opened Arith
  import opened Base

  type Key = seq<bv8>

  const INITIAL_BUCKETS: nat := 32
  const BUCKET_CAPACITY: nat := 10

  /** The bitwise and of two unsigned numbers. */
  function And(a: nat, b: nat): nat
  {
    if a == 0 || b == 0 then 0 else a % 2 * (b % 2) + 2 * And(a / 2, b / 2)
  }

  predicate PowerOfTwo(n: nat)
  {
    n == 1 || (n > 1 && n % 2 == 0 && PowerOfTwo(n / 2))
  }

  /** HASH_TO_BKT masks the hash value instead of dividing. */
  function ToBucket(h: nat, n: nat): nat
    requires n > 0
  {
    And(h, n - 1)
  }

  /** The mask is the remainder because the number of buckets is a power of two. */
  lemma {:induction false} MaskIsRemainder(h: nat, n: nat)
    requires PowerOfTwo(n)
    ensures ToBucket(h, n) == h % n
  {
    if n == 1 {
    } else {
      var m := n / 2;
      MaskIsRemainder(h / 2, m);
      AndOdd(h, m);
      HalfRemainder(h, m);
    }
  }

  lemma AndOdd(h: nat, m: nat)
    requires m > 0
    ensures And(h, 2 * m - 1) == h % 2 + 2 * And(h / 2, m - 1)
  {
    var k := 2 * m - 1;
    assert k / 2 == m - 1 && k % 2 == 1;
  }

  lemma HalfRemainder(h: nat, m: nat)
    requires m > 0
    ensures h % (2 * m) == h % 2 + 2 * (h / 2 % m)
  {
    var q, r := h / 2 / m, h / 2 % m;
    assert h / 2 == m * q + r;
    assert 2 * (m * q) == 2 * m * q;
    SplitPair(q, 2 * r + h % 2, 2 * m);
  }

  lemma Doubled(n: nat)
    requires PowerOfTwo(n)
    ensures PowerOfTwo(2 * n)
  {
    assert 2 * n / 2 == n;
  }

  class Node {
    const key: Key
    const hashv: nat
    var next: Node?
    var prev: Node?
    var hhNext: Node?
    var hhPrev: Node?

    constructor (key: Key, hashv: nat)
      ensures this.key == key && this.hashv == hashv
    {
      this.key, this.hashv := key, hashv;
      next, prev, hhNext, hhPrev := null, null, null, null;
    }
  }

  function NextOf(l: seq<Node>, i: int): Node?
    requires -1 <= i < |l|
  {
    if i + 1 < |l| then l[i + 1] else null
  }

  function PrevOf(l: seq<Node>, i: int): Node?
    requires 0 <= i <= |l|
  {
    if i > 0 then l[i - 1] else null
  }

  /** The list in order of insertion. */
  ghost predicate InOrder(l: seq<Node>)
    reads l`next, l`prev
  {
    forall i :: 0 <= i < |l| ==> l[i].next == NextOf(l, i) && l[i].prev == PrevOf(l, i)
  }

  /** The chain of a bucket. */
  ghost predicate Chained(c: seq<Node>)
    reads c`hhNext, c`hhPrev
  {
    forall i :: 0 <= i < |c| ==> c[i].hhNext == NextOf(c, i) && c[i].hhPrev == PrevOf(c, i)
  }

  /** The nodes of `all` are spread over the chains by hash value. */
  ghost predicate Spread(all: seq<Node>, chains: seq<seq<Node>>)
  {
    && |chains| > 0 && NoDup(all)
    && (forall b :: 0 <= b < |chains| ==> InBucket(all, chains, b))
    && (forall i :: 0 <= i < |all| ==> all[i] in chains[all[i].hashv % |chains|])
  }

  ghost predicate InBucket(all: seq<Node>, chains: seq<seq<Node>>, b: nat)
    requires b < |chains|
  {
    NoDup(chains[b]) && forall i :: 0 <= i < |chains[b]| ==> chains[b][i] in all && chains[b][i].hashv % |chains| == b
  }

  /** A new node becomes the first of its chain. */
  lemma SpreadAdd(all: seq<Node>, chains: seq<seq<Node>>, x: Node)
    requires Spread(all, chains) && x !in all
    ensures var b := x.hashv % |chains|; Spread(all + [x], chains[b := [x] + chains[b]])
  {
    var b, m := x.hashv % |chains|, all + [x];
    var c := chains[b := [x] + chains[b]];
    assert InBucket(all, chains, b);
    forall d | 0 <= d < |c| ensures InBucket(m, c, d) {
      assert InBucket(all, chains, d);
    }
    forall i | 0 <= i < |m| ensures m[i] in c[m[i].hashv % |c|] {
      if i < |all| {
        assert all[i] in chains[all[i].hashv % |chains|];
      }
    }
  }

  /** The nodes of different chains are different. */
  lemma Apart(all: seq<Node>, chains: seq<seq<Node>>, b: nat, d: nat)
    requires Spread(all, chains) && b < |chains| && d < |chains| && b != d
    ensures forall n: Node :: n in chains[b] ==> n !in chains[d]
  {
    assert InBucket(all, chains, b) && InBucket(all, chains, d);
  }

  /** Only the nodes matter to the spread, not their order. */
  lemma SpreadSame(all: seq<Node>, same: seq<Node>, chains: seq<seq<Node>>)
    requires Spread(all, chains) && NoDup(same) && (forall n: Node :: n in all <==> n in same)
    ensures Spread(same, chains) && forall d :: 0 <= d < |chains| ==> InBucket(same, chains, d)
  {
    forall d | 0 <= d < |chains| ensures InBucket(same, chains, d) {
      assert InBucket(all, chains, d);
    }
    forall i | 0 <= i < |same| ensures same[i] in chains[same[i].hashv % |chains|] {
      assert same[i] in all;
      var j :| 0 <= j < |all| && all[j] == same[i];
    }
  }

  function DropAt<T>(s: seq<T>, i: nat): (r: seq<T>)
    requires i < |s|
    ensures |r| == |s| - 1
  {
    s[..i] + s[i + 1..]
  }

  lemma DropAtFacts(s: seq<Node>, i: nat)
    requires i < |s| && NoDup(s)
    ensures NoDup(DropAt(s, i)) && Within(DropAt(s, i), s)
    ensures forall x: Node :: x in DropAt(s, i) <==> x in s && x != s[i]
  {
    var r := DropAt(s, i);
    assert forall j :: 0 <= j < |r| ==> r[j] == if j < i then s[j] else s[j + 1];
    forall x: Node | x in s && x != s[i] ensures x in r {
      var j :| 0 <= j < |s| && s[j] == x;
      assert r[if j < i then j else j - 1] == x;
    }
  }

  lemma SpreadDrop(all: seq<Node>, chains: seq<seq<Node>>, i: nat, k: nat)
    requires Spread(all, chains) && i < |all| && k < |chains[all[i].hashv % |chains|]|
    requires chains[all[i].hashv % |chains|][k] == all[i]
    ensures var b := all[i].hashv % |chains|; Spread(DropAt(all, i), chains[b := DropAt(chains[b], k)])
  {
    var x, b, m := all[i], all[i].hashv % |chains|, DropAt(all, i);
    var c := chains[b := DropAt(chains[b], k)];
    assert InBucket(all, chains, b);
    DropAtFacts(all, i);
    DropAtFacts(chains[b], k);
    forall d | 0 <= d < |c| ensures InBucket(m, c, d) {
      assert InBucket(all, chains, d);
      if d == b {
        forall j | 0 <= j < |c[d]| ensures c[d][j] in m && c[d][j].hashv % |c| == d {
          assert c[d][j] in chains[b];
        }
      }
    }
    forall j | 0 <= j < |m| ensures m[j] in c[m[j].hashv % |c|] {
      assert m[j] in all && m[j] != x;
      var j' :| 0 <= j' < |all| && all[j'] == m[j];
    }
  }

  /** HASH_ADD_TO_BKT and the rebuild of a doubling: x becomes the first of chain c, whose first node is h. */
  method Prepend(x: Node, h: Node?, ghost c: seq<Node>)
    requires Chained(c) && x !in c && h == NextOf(c, -1)
    modifies x`hhNext, x`hhPrev, c`hhPrev
    ensures Chained([x] + c)
  {
    x.hhNext := h;
    x.hhPrev := null;
    if h != null {
      h.hhPrev := x;
    }
    assert forall i :: 0 <= i < |c| ==> ([x] + c)[i + 1] == c[i];
  }

  lemma DropChained(c: seq<Node>, k: nat)
    requires k < |c|
    requires forall i :: 0 <= i < |c| && i != k ==>
               && c[i].hhNext == (if i + 1 == k then NextOf(c, k) else NextOf(c, i))
               && c[i].hhPrev == (if i == k + 1 then PrevOf(c, k) else PrevOf(c, i))
    ensures Chained(DropAt(c, k))
  {
    var r := DropAt(c, k);
    forall j | 0 <= j < |r| ensures r[j].hhNext == NextOf(r, j) && r[j].hhPrev == PrevOf(r, j) {
      assert r[j] == c[if j < k then j else j + 1];
    }
  }

  /** HASH_DEL_IN_BKT */
  method Unchain(x: Node, ghost c: seq<Node>, ghost k: nat)
    requires Chained(c) && NoDup(c) && k < |c| && c[k] == x
    modifies c`hhNext, c`hhPrev
    ensures Chained(DropAt(c, k))
  {
    NoDupAt(c, k);
    if k > 0 { NoDupAt(c, k - 1); }
    if k + 1 < |c| { NoDupAt(c, k + 1); }
    hide NoDup, DropAt;
    if x.hhPrev != null {
      x.hhPrev.hhNext := x.hhNext;
    }
    if x.hhNext != null {
      x.hhNext.hhPrev := x.hhPrev;
    }
    DropChained(c, k);
  }

  lemma DropInOrder(l: seq<Node>, k: nat)
    requires k < |l|
    requires forall i :: 0 <= i < |l| && i != k ==>
               && l[i].next == (if i + 1 == k then NextOf(l, k) else NextOf(l, i))
               && l[i].prev == (if i == k + 1 then PrevOf(l, k) else PrevOf(l, i))
    ensures InOrder(DropAt(l, k))
  {
    var r := DropAt(l, k);
    forall j | 0 <= j < |r| ensures r[j].next == NextOf(r, j) && r[j].prev == PrevOf(r, j) {
      assert r[j] == l[if j < k then j else j + 1];
    }
  }

  /** The links of HASH_DELETE_HH in the list in order of insertion. */
  method Unlink(x: Node, ghost l: seq<Node>, ghost k: nat)
    requires InOrder(l) && NoDup(l) && k < |l| && l[k] == x
    modifies l`next, l`prev
    ensures InOrder(DropAt(l, k))
  {
    NoDupAt(l, k);
    if k > 0 { NoDupAt(l, k - 1); }
    if k + 1 < |l| { NoDupAt(l, k + 1); }
    hide NoDup, DropAt;
    if x.prev != null {
      x.prev.next := x.next;
    }
    if x.next != null {
      x.next.prev := x.prev;
    }
    DropInOrder(l, k);
  }

  /** HASH_APPEND_LIST */
  method Append(x: Node, tail: Node, ghost l: seq<Node>)
    requires InOrder(l) && NoDup(l) && x !in l && l != [] && tail == l[|l| - 1]
    modifies x`next, x`prev, l`next
    ensures InOrder(l + [x])
  {
    x.next := null;
    x.prev := tail;
    tail.next := x;
  }

  datatype Bucket = Bucket(head: Node?, count: nat, mult: nat)

  /** Bucket heads and counts agree with the chains. */
  ghost predicate BucketsOk(bs: seq<Bucket>, chains: seq<seq<Node>>)
  {
    |bs| == |chains| && forall b :: 0 <= b < |bs| ==> bs[b].head == NextOf(chains[b], -1) && bs[b].count == |chains[b]|
  }

  ghost predicate AllChained(all: seq<Node>, chains: seq<seq<Node>>)
    reads all`hhNext, all`hhPrev
    requires Spread(all, chains)
  {
    forall b :: 0 <= b < |chains| ==> InBucket(all, chains, b) && Chained(chains[b])
  }

  ghost predicate Forward(c: seq<Node>)
    reads c`hhNext
  {
    forall i :: 0 <= i < |c| ==> c[i].hhNext == NextOf(c, i)
  }

  /** Buckets that hold the nodes `all` in `chains`. */
  ghost predicate Holds(buckets: array<Bucket>, all: seq<Node>, chains: seq<seq<Node>>)
    reads buckets, all`hhNext, all`hhPrev
  {
    Spread(all, chains) && BucketsOk(buckets[..], chains) && AllChained(all, chains)
  }

  /** Puts x first in its chain; `over` tells that the chain is longer than ideal. */
  method Put(x: Node, buckets: array<Bucket>, b: nat, bucket: Bucket, ghost all: seq<Node>,
             ghost chains: seq<seq<Node>>)
    requires Holds(buckets, all, chains) && x !in all && b < buckets.Length == |chains| && b == x.hashv % |chains|
    requires bucket.head == x && bucket.count == buckets[b].count + 1
    modifies buckets, x`hhNext, x`hhPrev, all`hhPrev
    ensures Holds(buckets, all + [x], chains[b := [x] + chains[b]])
    ensures buckets[b] == bucket && forall d :: 0 <= d < buckets.Length && d != b ==> buckets[d] == old(buckets[d])
  {
    hide NoDup, Spread, BucketsOk, InBucket;
    ghost var nc, bs := chains[b := [x] + chains[b]], buckets[..];
    PutFacts(all, chains, x, b, nc);
    BucketsPut(buckets[..], chains, b, bucket, x);
    assert Within(chains[b], all) && x !in chains[b] && Chained(chains[b]);
    Prepend(x, buckets[b].head, chains[b]);
    buckets[b] := bucket;
    forall d | 0 <= d < |nc| ensures Chained(nc[d]) {
      assert d != b ==> Within(chains[d], all) && x !in chains[d] && Disjoint(chains[d], chains[b]);
    }
    assert buckets[..] == bs[b := bucket];
  }

  lemma PutFacts(all: seq<Node>, chains: seq<seq<Node>>, x: Node, b: nat, nc: seq<seq<Node>>)
    requires Spread(all, chains) && x !in all && b == x.hashv % |chains| && nc == chains[b := [x] + chains[b]]
    ensures Spread(all + [x], nc)
    ensures forall d :: 0 <= d < |nc| ==> InBucket(all + [x], nc, d)
    ensures forall d :: 0 <= d < |nc| ==>
              Within(chains[d], all) && x !in chains[d] && (d != b ==> Disjoint(chains[d], chains[b]))
  {
    SpreadAdd(all, chains, x);
    forall d | 0 <= d < |nc|
      ensures Within(chains[d], all) && x !in chains[d] && (d != b ==> Disjoint(chains[d], chains[b]))
    {
      assert InBucket(all, chains, d) && InBucket(all, chains, b);
    }
  }

  ghost predicate Within(c: seq<Node>, all: seq<Node>)
  {
    forall i :: 0 <= i < |c| ==> c[i] in all
  }

  ghost predicate Disjoint(c: seq<Node>, d: seq<Node>)
  {
    forall i :: 0 <= i < |c| ==> c[i] !in d
  }

  lemma BucketsPut(bs: seq<Bucket>, chains: seq<seq<Node>>, b: nat, bucket: Bucket, x: Node)
    requires BucketsOk(bs, chains) && b < |bs| && bucket.head == x && bucket.count == bs[b].count + 1
    ensures BucketsOk(bs[b := bucket], chains[b := [x] + chains[b]])
    ensures bs[b].head == NextOf(chains[b], -1)
  {
  }

  /** HASH_DEL_IN_BKT: takes x out of bucket b. */
  method Cut(x: Node, buckets: array<Bucket>, b: nat, ghost all: seq<Node>, ghost i: nat,
             ghost chains: seq<seq<Node>>, ghost k: nat)
    requires Holds(buckets, all, chains) && i < |all| && all[i] == x && b < buckets.Length == |chains|
             && b == x.hashv % |chains|
    requires k < |chains[b]| && chains[b][k] == x
    modifies buckets, all`hhNext, all`hhPrev
    ensures Holds(buckets, DropAt(all, i), chains[b := DropAt(chains[b], k)])
  {
    hide NoDup, Spread, BucketsOk, InBucket;
    ghost var nc, bs := chains[b := DropAt(chains[b], k)], buckets[..];
    CutFacts(all, chains, i, k, b, nc);
    assert Within(chains[b], all) && Chained(chains[b]);
    var y := x.hhNext;
    var bucket := buckets[b];
    BucketsCut(buckets[..], chains, b, k);
    bucket := bucket.(head := if bucket.head == x then y else bucket.head, count := bucket.count - 1);
    assert BucketsOk(bs[b := bucket], nc) by {
      assert y == NextOf(chains[b], k);
    }
    Unchain(x, chains[b], k);
    buckets[b] := bucket;
    forall d | 0 <= d < |nc| ensures Chained(nc[d]) {
      assert d != b ==> Within(chains[d], all) && Disjoint(chains[d], chains[b]);
    }
    assert buckets[..] == bs[b := bucket];
  }

  lemma CutFacts(all: seq<Node>, chains: seq<seq<Node>>, i: nat, k: nat, b: nat, nc: seq<seq<Node>>)
    requires Spread(all, chains) && i < |all| && b == all[i].hashv % |chains| && k < |chains[b]|
             && chains[b][k] == all[i]
    requires nc == chains[b := DropAt(chains[b], k)]
    ensures Spread(DropAt(all, i), nc) && NoDup(chains[b])
    ensures forall d :: 0 <= d < |nc| ==> InBucket(DropAt(all, i), nc, d)
    ensures forall d :: 0 <= d < |nc| ==> Within(chains[d], all) && (d != b ==> Disjoint(chains[d], chains[b]))
  {
    SpreadDrop(all, chains, i, k);
    forall d | 0 <= d < |nc| ensures Within(chains[d], all) && (d != b ==> Disjoint(chains[d], chains[b])) {
      assert InBucket(all, chains, d) && InBucket(all, chains, b);
    }
    assert InBucket(all, chains, b);
  }

  lemma BucketsCut(bs: seq<Bucket>, chains: seq<seq<Node>>, b: nat, k: nat)
    requires BucketsOk(bs, chains) && b < |bs| && k < |chains[b]| && NoDup(chains[b])
    ensures bs[b].count > 0
    ensures var h := if bs[b].head == chains[b][k] then NextOf(chains[b], k) else bs[b].head;
            BucketsOk(bs[b := bs[b].(head := h, count := bs[b].count - 1)], chains[b := DropAt(chains[b], k)])
  {
    var c := chains[b];
    NoDupAt(c, k);
    assert k == 0 <==> c[0] == c[k];
    var r := DropAt(c, k);
    assert |r| > 0 ==> r[0] == if k == 0 then c[1] else c[0];
  }

  /** One step of HASH_EXPAND_BUCKETS: x goes to its new bucket. */
  method Move(x: Node, buckets: array<Bucket>, ideal: nat, ghost all: seq<Node>, ghost chains: seq<seq<Node>>)
    returns (over: nat, ghost nc: seq<seq<Node>>)
    requires Holds(buckets, all, chains) && buckets.Length == |chains| && PowerOfTwo(|chains|) && x !in all
    modifies buckets, x`hhNext, x`hhPrev, all`hhPrev
    ensures Holds(buckets, all + [x], nc) && |nc| == |chains|
  {
    hide NoDup, Spread, BucketsOk, InBucket, AllChained;
    MaskIsRemainder(x.hashv, buckets.Length);
    var b := ToBucket(x.hashv, buckets.Length);
    var count, mult := buckets[b].count + 1, buckets[b].mult;
    over := 0;
    if count > ideal {
      over := 1;
      if count > mult * ideal {
        mult := mult + 1;
      }
    }
    Put(x, buckets, b, Bucket(x, count, mult), all, chains);
    nc := chains[b := [x] + chains[b]];
  }

  lemma Grow(all: seq<Node>, c: seq<Node>, k: nat)
    requires k < |c|
    ensures all + c[..k] + [c[k]] == all + c[..k + 1]
  {
    assert c[..k] + [c[k]] == c[..k + 1];
  }

  /** Moves a whole chain c of an old bucket into the new buckets, node by node from its head. */
  method MoveChain(first: Node?, buckets: array<Bucket>, ideal: nat, ghost c: seq<Node>, ghost all: seq<Node>,
                   ghost chains: seq<seq<Node>>)
    returns (over: nat, ghost nc: seq<seq<Node>>)
    requires Holds(buckets, all, chains) && buckets.Length == |chains| && PowerOfTwo(|chains|)
    requires first == NextOf(c, -1) && Forward(c) && NoDup(c) && Disjoint(c, all)
    modifies buckets, c`hhNext, c`hhPrev, all`hhPrev
    ensures Holds(buckets, all + c, nc) && |nc| == |chains|
  {
    hide NoDup, Spread, BucketsOk, InBucket, AllChained;
    ghost var k := 0;
    ghost var done: seq<Node> := all;
    nc, over := chains, 0;
    var x := first;
    assert all + c[..0] == all;
    while x != null
      invariant 0 <= k <= |c| && x == NextOf(c, k - 1)
      invariant done == all + c[..k]
      invariant Holds(buckets, done, nc) && |nc| == |chains|
      invariant forall i :: k <= i < |c| ==> c[i].hhNext == NextOf(c, i)
      decreases |c| - k
    {
      assert x == c[k];
      NoDupAt(c, k);
      var nxt := x.hhNext;
      var more;
      more, nc := Move(x, buckets, ideal, done, nc);
      over := over + more;
      Grow(all, c, k);
      done, k := done + [c[k]], k + 1;
      x := nxt;
    }
    assert c[..k] == c;
  }

  function Flat(chains: seq<seq<Node>>): seq<Node>
  {
    if chains == [] then [] else Flat(chains[..|chains| - 1]) + chains[|chains| - 1]
  }

  /** The nodes of the first chains are nodes of the table, and of no later chain. */
  lemma {:induction false} FlatFacts(all: seq<Node>, chains: seq<seq<Node>>, m: nat)
    requires Spread(all, chains) && m <= |chains|
    ensures Within(Flat(chains[..m]), all)
    ensures forall i :: 0 <= i < |Flat(chains[..m])| ==> Flat(chains[..m])[i].hashv % |chains| < m
  {
    if m == 0 {
    } else {
      FlatFacts(all, chains, m - 1);
      assert chains[..m][..m - 1] == chains[..m - 1];
      assert InBucket(all, chains, m - 1);
    }
  }

  lemma FlatStep(all: seq<Node>, chains: seq<seq<Node>>, m: nat)
    requires Spread(all, chains) && m < |chains|
    ensures Flat(chains[..m + 1]) == Flat(chains[..m]) + chains[m]
    ensures Disjoint(chains[m], Flat(chains[..m])) && Within(chains[m], all) && Within(Flat(chains[..m]), all)
            && NoDup(chains[m])
    ensures forall j :: m < j < |chains| ==> Disjoint(chains[j], chains[m])
  {
    FlatFacts(all, chains, m);
    assert chains[..m + 1][..m] == chains[..m];
    assert InBucket(all, chains, m);
    forall j | m < j < |chains| ensures Disjoint(chains[j], chains[m]) {
      assert InBucket(all, chains, j);
    }
  }

  lemma {:induction false} FlatAll(chains: seq<seq<Node>>, m: nat, n: Node, b: nat)
    requires b < m <= |chains| && n in chains[b]
    ensures n in Flat(chains[..m])
  {
    assert chains[..m][..m - 1] == chains[..m - 1];
    if b == m - 1 {
    } else {
      FlatAll(chains, m - 1, n, b);
    }
  }

  /** All chains together hold the nodes of the table. */
  lemma FlatSame(all: seq<Node>, chains: seq<seq<Node>>)
    requires Spread(all, chains)
    ensures forall n: Node :: n in all <==> n in Flat(chains)
  {
    assert chains[..|chains|] == chains;
    FlatFacts(all, chains, |chains|);
    forall n: Node | n in all ensures n in Flat(chains) {
      var i :| 0 <= i < |all| && all[i] == n;
      FlatAll(chains, |chains|, n, n.hashv % |chains|);
    }
  }

  lemma NothingHeld(bs: seq<Bucket>, chains: seq<seq<Node>>)
    requires |bs| == |chains| > 0 && (forall b :: 0 <= b < |bs| ==> bs[b] == Bucket(null, 0, 0))
    requires forall b :: 0 <= b < |chains| ==> chains[b] == []
    ensures Spread([], chains) && BucketsOk(bs, chains) && forall b :: 0 <= b < |chains| ==> InBucket([], chains, b)
  {
    forall b | 0 <= b < |chains| ensures InBucket([], chains, b) {
    }
  }

  /** A zeroed array of buckets. */
  method NewBuckets(n: nat) returns (buckets: array<Bucket>, ghost chains: seq<seq<Node>>)
    requires n > 0
    ensures fresh(buckets) && buckets.Length == |chains| == n && Holds(buckets, [], chains)
  {
    buckets := new Bucket[n](_ => Bucket(null, 0, 0));
    chains := seq(n, _ => []);
    NothingHeld(buckets[..], chains);
  }

  /** The loops of HASH_EXPAND_BUCKETS: all nodes into twice as many buckets. */
  method Rebuild(buckets: array<Bucket>, ideal: nat, ghost all: seq<Node>, ghost chains: seq<seq<Node>>)
    returns (wide: array<Bucket>, over: nat, ghost nc: seq<seq<Node>>)
    requires Holds(buckets, all, chains) && PowerOfTwo(buckets.Length)
    modifies all`hhNext, all`hhPrev
    ensures fresh(wide) && wide.Length == |nc| == 2 * buckets.Length && PowerOfTwo(|nc|) && Holds(wide, all, nc)
  {
    RebuildStart(buckets, all, chains);
    Doubled(buckets.Length);
    hide NoDup, Spread, InBucket, BucketsOk, AllChained, Holds, Forward, PowerOfTwo, Flat;
    wide, nc := NewBuckets(2 * buckets.Length);
    over := 0;
    for b := 0 to buckets.Length
      invariant wide.Length == |nc| == 2 * buckets.Length
      invariant Holds(wide, Flat(chains[..b]), nc)
      invariant forall j :: b <= j < |chains| ==> Forward(chains[j])
    {
      var more;
      more, nc := MoveBucket(buckets[b].head, wide, ideal, b, all, chains, nc);
      over := over + more;
    }
    assert chains[..buckets.Length] == chains;
    FlatSame(all, chains);
    HoldsSame(wide, Flat(chains), all, nc);
  }

  lemma RebuildStart(buckets: array<Bucket>, all: seq<Node>, chains: seq<seq<Node>>)
    requires Holds(buckets, all, chains)
    ensures Spread(all, chains) && buckets.Length == |chains| > 0 && NoDup(all) && Flat(chains[..0]) == []
    ensures forall b :: 0 <= b < |chains| ==> Forward(chains[b]) && buckets[b].head == NextOf(chains[b], -1)
  {
    assert |chains| > 0 && NoDup(all);
    hide Spread, InBucket;
  }

  /** One round of the outer loop: the chain of old bucket b. */
  method MoveBucket(first: Node?, wide: array<Bucket>, ideal: nat, ghost b: nat, ghost all: seq<Node>,
                    ghost chains: seq<seq<Node>>, ghost nc: seq<seq<Node>>)
    returns (over: nat, ghost nc': seq<seq<Node>>)
    requires Spread(all, chains) && b < |chains| && first == NextOf(chains[b], -1)
    requires Holds(wide, Flat(chains[..b]), nc) && wide.Length == |nc| && PowerOfTwo(|nc|)
    requires forall j :: b <= j < |chains| ==> Forward(chains[j])
    modifies wide, all`hhNext, all`hhPrev
    ensures Holds(wide, Flat(chains[..b + 1]), nc') && |nc'| == |nc|
    ensures forall j :: b < j < |chains| ==> Forward(chains[j])
  {
    hide NoDup, Spread, InBucket, BucketsOk, AllChained, Holds, Forward, PowerOfTwo, Flat;
    FlatStep(all, chains, b);
    ghost var done: seq<Node> := Flat(chains[..b]);
    over, nc' := MoveChain(first, wide, ideal, chains[b], done, nc);
  }

  lemma HoldsSame(buckets: array<Bucket>, all: seq<Node>, same: seq<Node>, chains: seq<seq<Node>>)
    requires Holds(buckets, all, chains) && NoDup(same) && (forall n: Node :: n in all <==> n in same)
    ensures Holds(buckets, same, chains)
  {
    hide NoDup, Spread, InBucket;
    SpreadSame(all, same, chains);
  }

  /** The keys of the nodes are distinct and the hash values are theirs. */
  ghost predicate KeysOk(all: seq<Node>, hash: Key -> nat)
  {
    && (forall i :: 0 <= i < |all| ==> all[i].hashv == hash(all[i].key))
    && (forall i, j :: 0 <= i < j < |all| ==> all[i].key != all[j].key)
  }

  ghost function Keys(all: seq<Node>): set<Key>
  {
    set i | 0 <= i < |all| :: all[i].key
  }

  class Table {
    const hash: Key -> nat
    var head: Node?
    var tail: Node?
    var numItems: nat
    var buckets: array<Bucket>
    var ineffExpands: nat
    var noexpand: bool
    /** The nodes in order of insertion, and the chain of every bucket. */
    ghost var all: seq<Node>
    ghost var chains: seq<seq<Node>>

    ghost predicate Valid()
      reads this, buckets, all
    {
      && head == NextOf(all, -1)
      && KeysOk(all, hash)
      && (all != [] ==>
            && tail == all[|all| - 1] && numItems == |all| && buckets.Length == |chains| && PowerOfTwo(|chains|)
            && InOrder(all) && Holds(buckets, all, chains))
    }

    constructor (hash: Key -> nat)
      ensures Valid() && this.hash == hash && all == [] && fresh(buckets)
    {
      this.hash := hash;
      head, tail, numItems, ineffExpands, noexpand := null, null, 0, 0, false;
      buckets := new Bucket[0];
      all, chains := [], [];
    }

    /** HASH_FIND: a node with this key, exactly if there is one. */
    method Find(key: Key) returns (r: Node?)
      requires Valid()
      ensures r != null <==> key in Keys(all)
      ensures r != null ==> r in all && r.key == key
    {
      hide NoDup, Spread, InBucket, KeysOk, Chained, BucketsOk, InOrder, Keys;
      r := null;
      if head == null {
        NoKeys(all);
        return;
      }
      var h := hash(key);
      ChainFacts(buckets[..], all, chains, hash, key);
      MaskIsRemainder(h, buckets.Length);
      var b := ToBucket(h, buckets.Length);
      assert InBucket(all, chains, b) && Chained(chains[b]);
      r := FindInBucket(buckets[b].head, h, key, chains[b]);
      if r != null {
        KeyThere(all, r);
      } else {
        NotThere(all, chains, hash, key);
      }
    }

    /** HASH_EXPAND_BUCKETS: twice as many buckets, the same nodes. */
    method Expand()
      requires Valid() && all != []
      modifies this, all`hhNext, all`hhPrev
      ensures Valid() && all == old(all) && buckets.Length == 2 * old(buckets.Length) && fresh(buckets)
    {
      hide NoDup, KeysOk, Holds, InOrder;
      var wider := 2 * buckets.Length;
      assert buckets.Length > 0 by { BucketsExist(buckets, all, chains); }
      var ideal := numItems / wider + if numItems % wider != 0 then 1 else 0;
      var wide, over;
      ghost var nc;
      wide, over, nc := Rebuild(buckets, ideal, all, chains);
      buckets, chains := wide, nc;
      ineffExpands := if over > numItems / 2 then ineffExpands + 1 else 0;
      if ineffExpands > 1 {
        noexpand := true;
      }
    }

    /** HASH_ADD_TO_TABLE for a node that is already last in the list. */
    method AddToTable(x: Node, ghost was: seq<Node>)
      requires KeysOk(all, hash) && head == NextOf(all, -1) && all == was + [x] && tail == x && numItems == |was|
      requires buckets.Length == |chains| && PowerOfTwo(|chains|) && InOrder(all) && Holds(buckets, was, chains)
               && x !in was
      modifies this, buckets, all`hhNext, all`hhPrev
      ensures Valid() && all == old(all) && (fresh(buckets) || buckets == old(buckets))
    {
      hide NoDup, KeysOk, Holds, InOrder;
      assert forall i :: 0 <= i < |was| ==> was[i] == all[i];
      assert all[|was|] == x;
      numItems := numItems + 1;
      MaskIsRemainder(x.hashv, buckets.Length);
      var b := ToBucket(x.hashv, buckets.Length);
      var bucket := buckets[b].(head := x, count := buckets[b].count + 1);
      Put(x, buckets, b, bucket, was, chains);
      chains := chains[b := [x] + chains[b]];
      if bucket.count >= (bucket.mult + 1) * BUCKET_CAPACITY && !noexpand {
        Expand();
      }
    }

    /** The list part of HASH_ADD_KEYPTR: x becomes the last node; the first node brings a new table. */
    method JoinList(x: Node)
      requires Valid() && x !in all
      modifies this`head, this`tail, this`numItems, this`buckets, this`ineffExpands, this`noexpand, this`all,
               this`chains
      modifies all`next, x`next, x`prev
      ensures all == old(all) + [x] && head == NextOf(all, -1) && tail == x && numItems == |old(all)|
      ensures InOrder(all) && Holds(buckets, old(all), chains) && buckets.Length == |chains| && PowerOfTwo(|chains|)
      ensures fresh(buckets) || buckets == old(buckets)
    {
      hide NoDup, KeysOk, Holds, InOrder;
      if head == null {
        x.next, x.prev := null, null;
        buckets, chains := NewBuckets(INITIAL_BUCKETS);
        numItems, ineffExpands, noexpand := 0, 0, false;
        head, tail := x, x;
        Alone(x);
        assert all + [x] == [x];
      } else {
        NodesApart(buckets, all, chains);
        Append(x, tail, all);
        tail := x;
      }
      all := all + [x];
    }

    /** HASH_ADD_KEYPTR for a key that is absent. */
    method Add(x: Node)
      requires Valid() && x !in all && x.hashv == hash(x.key) && x.key !in Keys(all)
      modifies this, buckets, all, x
      ensures Valid() && all == old(all) + [x] && Keys(all) == old(Keys(all)) + {x.key}
      ensures fresh(buckets) || buckets == old(buckets)
    {
      hide NoDup, KeysOk, Holds, InOrder, Keys;
      KeysAdd(all, hash, x);
      ghost var was := all;
      JoinList(x);
      assert forall i :: 0 <= i < |was| ==> all[i] == was[i];
      AddToTable(x, was);
    }

    /** The list part of HASH_DELETE_HH when x is not the only node. */
    method LeaveList(x: Node, ghost i: nat)
      requires InOrder(all) && NoDup(all) && i < |all| && all[i] == x && |all| > 1
      requires head == all[0] && tail == all[|all| - 1]
      modifies this`head, this`tail, all`next, all`prev
      ensures InOrder(DropAt(all, i)) && head == NextOf(DropAt(all, i), -1) && tail == DropAt(all, i)[|all| - 2]
    {
      hide NoDup, DropAt, InOrder;
      DropEnds(all, i);
      InOrderAt(all, i);
      if x == tail {
        tail := x.prev;
      }
      if x.prev == null {
        head := x.next;
      }
      Unlink(x, all, i);
    }

    /** HASH_DELETE_HH when x is not the only node. */
    method Leave(x: Node, ghost i: nat)
      requires Valid() && i < |all| && all[i] == x && |all| > 1
      modifies this`head, this`tail, this`numItems, this`all, this`chains, buckets, all`next, all`prev, all`hhNext,
               all`hhPrev
      ensures Valid() && all == DropAt(old(all), i)
    {
      hide NoDup, KeysOk, Holds, Keys, InOrder, DropAt;
      NodesApart(buckets, all, chains);
      KeysDrop(all, hash, i);
      ghost var rest: seq<Node> := DropAt(all, i);
      ghost var k := PlaceInChain(buckets, all, chains, i);
      LeaveList(x, i);
      assert InOrder(rest);
      MaskIsRemainder(x.hashv, buckets.Length);
      var b := ToBucket(x.hashv, buckets.Length);
      Cut(x, buckets, b, all, i, chains, k);
      assert InOrder(rest);
      numItems := numItems - 1;
      chains, all := chains[b := DropAt(chains[b], k)], rest;
    }

    /** HASH_DELETE: x leaves the list and its bucket; with the last node the whole table goes. */
    method Delete(x: Node) returns (ghost i: nat)
      requires Valid() && x in all
      modifies this, buckets, all
      ensures Valid() && i < |old(all)| && old(all)[i] == x && all == DropAt(old(all), i) && Within(all, old(all))
      ensures Keys(all) == old(Keys(all)) - {x.key} && buckets == old(buckets)
    {
      hide NoDup, KeysOk, Holds, Keys, DropAt, InOrder;
      i :| 0 <= i < |all| && all[i] == x;
      InOrderAt(all, i);
      NodesApart(buckets, all, chains);
      KeysDrop(all, hash, i);
      DropAtFacts(all, i);
      if x.prev == null && x.next == null {
        head := null;
        assert DropAt(all, i) == [];
        all, chains := [], [];
      } else {
        Leave(x, i);
      }
    }
  }

  /** The ends of a list after a node is taken out. */
  lemma DropEnds(l: seq<Node>, i: nat)
    requires NoDup(l) && i < |l| && |l| > 1
    ensures NextOf(DropAt(l, i), -1) == if i == 0 then l[1] else l[0]
    ensures DropAt(l, i)[|l| - 2] == if i == |l| - 1 then l[|l| - 2] else l[|l| - 1]
    ensures l[i] == l[|l| - 1] <==> i == |l| - 1
  {
    NoDupAt(l, i);
  }

  lemma InOrderAt(l: seq<Node>, i: nat)
    requires InOrder(l) && i < |l|
    ensures l[i].next == NextOf(l, i) && l[i].prev == PrevOf(l, i)
  {
  }

  lemma Alone(x: Node)
    requires x.next == null && x.prev == null
    ensures InOrder([x])
  {
  }

  lemma NodesApart(buckets: array<Bucket>, all: seq<Node>, chains: seq<seq<Node>>)
    requires Holds(buckets, all, chains)
    ensures NoDup(all) && buckets.Length == |chains| > 0
  {
  }

  lemma PlaceInChain(buckets: array<Bucket>, all: seq<Node>, chains: seq<seq<Node>>, i: nat) returns (k: nat)
    requires Holds(buckets, all, chains) && i < |all|
    ensures |chains| > 0 && k < |chains[all[i].hashv % |chains|]| && chains[all[i].hashv % |chains|][k] == all[i]
  {
    var c := chains[all[i].hashv % |chains|];
    assert all[i] in c;
    k :| 0 <= k < |c| && c[k] == all[i];
  }

  lemma KeysAdd(all: seq<Node>, hash: Key -> nat, x: Node)
    requires KeysOk(all, hash) && x.hashv == hash(x.key) && x.key !in Keys(all)
    ensures KeysOk(all + [x], hash) && Keys(all + [x]) == Keys(all) + {x.key}
  {
    var m := all + [x];
    assert forall i :: 0 <= i < |all| ==> all[i].key in Keys(all);
    assert m[|all|] == x;
    assert forall i :: 0 <= i < |all| ==> m[i] == all[i];
  }

  lemma KeysDrop(all: seq<Node>, hash: Key -> nat, i: nat)
    requires KeysOk(all, hash) && i < |all|
    ensures KeysOk(DropAt(all, i), hash) && Keys(DropAt(all, i)) == Keys(all) - {all[i].key}
  {
    var r := DropAt(all, i);
    assert forall j :: 0 <= j < |r| ==> r[j] == if j < i then all[j] else all[j + 1];
    forall key | key in Keys(all) && key != all[i].key ensures key in Keys(r) {
      var j :| 0 <= j < |all| && all[j].key == key;
      assert r[if j < i then j else j - 1].key == key;
    }
    forall key | key in Keys(r) ensures key in Keys(all) && key != all[i].key {
      var j :| 0 <= j < |r| && r[j].key == key;
      assert if j < i then all[j].key != all[i].key else all[i].key != all[j + 1].key;
    }
  }

  lemma BucketsExist(buckets: array<Bucket>, all: seq<Node>, chains: seq<seq<Node>>)
    requires Holds(buckets, all, chains)
    ensures buckets.Length > 0
  {
  }

  lemma NoKeys(all: seq<Node>)
    ensures all == [] ==> Keys(all) == {}
  {
  }

  lemma KeyThere(all: seq<Node>, n: Node)
    requires n in all
    ensures n.key in Keys(all)
  {
    var i :| 0 <= i < |all| && all[i] == n;
  }

  lemma ChainFacts(bs: seq<Bucket>, all: seq<Node>, chains: seq<seq<Node>>, hash: Key -> nat, key: Key)
    requires Spread(all, chains) && BucketsOk(bs, chains) && KeysOk(all, hash)
    ensures |chains| > 0
    ensures var b := hash(key) % |chains|;
            && bs[b].head == NextOf(chains[b], -1) && Within(chains[b], all)
            && forall i :: 0 <= i < |chains[b]| && chains[b][i].key == key ==> chains[b][i].hashv == hash(key)
  {
    var b := hash(key) % |chains|;
    assert InBucket(all, chains, b);
    forall i | 0 <= i < |chains[b]| ensures chains[b][i].hashv == hash(chains[b][i].key) {
      assert chains[b][i] in all;
    }
  }

  /** HASH_FIND_IN_BKT: the first node of chain c with this key. */
  method FindInBucket(first: Node?, h: nat, key: Key, ghost c: seq<Node>) returns (r: Node?)
    requires Chained(c) && first == NextOf(c, -1)
    requires forall i :: 0 <= i < |c| && c[i].key == key ==> c[i].hashv == h
    ensures r != null ==> r in c && r.key == key
    ensures r == null ==> forall i :: 0 <= i < |c| ==> c[i].key != key
  {
    ghost var k := 0;
    r := first;
    while r != null
      invariant 0 <= k <= |c| && r == NextOf(c, k - 1)
      invariant forall i :: 0 <= i < k ==> c[i].key != key
      decreases |c| - k
    {
      assert r == c[k];
      if r.hashv == h && |r.key| == |key| {
        if r.key == key {
          break;
        }
      }
      r := r.hhNext;
      k := k + 1;
    }
  }

  /** A key that is not in the chain of its hash value is in no node. */
  lemma NotThere(all: seq<Node>, chains: seq<seq<Node>>, hash: Key -> nat, key: Key)
    requires Spread(all, chains) && KeysOk(all, hash)
    requires forall i :: 0 <= i < |chains[hash(key) % |chains|]| ==> chains[hash(key) % |chains|][i].key != key
    ensures key !in Keys(all)
  {
    forall i | 0 <= i < |all| ensures all[i].key != key {
      assert all[i] in chains[all[i].hashv % |chains|];
    }
  }

  /** The sum of the bucket counts. */
  function TotalCount(bs: seq<Bucket>): nat
  {
    if bs == [] then 0 else TotalCount(bs[..|bs| - 1]) + bs[|bs| - 1].count
  }

  lemma {:induction false} TotalFlat(bs: seq<Bucket>, chains: seq<seq<Node>>)
    requires BucketsOk(bs, chains)
    ensures TotalCount(bs) == |Flat(chains)|
  {
    if bs == [] {
    } else {
      TotalFlat(bs[..|bs| - 1], chains[..|chains| - 1]);
    }
  }

  lemma {:induction false} FlatNoDup(all: seq<Node>, chains: seq<seq<Node>>, m: nat)
    requires Spread(all, chains) && m <= |chains|
    ensures NoDup(Flat(chains[..m]))
  {
    if m == 0 {
    } else {
      FlatNoDup(all, chains, m - 1);
      FlatStep(all, chains, m - 1);
      assert InBucket(all, chains, m - 1);
    }
  }

  lemma {:induction false} Size(s: seq<Node>)
    requires NoDup(s)
    ensures |SetOf(s)| == |s|
  {
    if s == [] {
    } else {
      var n := |s| - 1;
      Size(s[..n]);
      assert s == s[..n] + [s[n]];
      assert SetOf(s) == SetOf(s[..n]) + {s[n]};
    }
  }

  /** What HASH_FSCK adds up: the bucket counts come to the number of nodes in the list. */
  lemma CountsAgree(bs: seq<Bucket>, all: seq<Node>, chains: seq<seq<Node>>)
    requires Spread(all, chains) && BucketsOk(bs, chains)
    ensures TotalCount(bs) == |all|
  {
    TotalFlat(bs, chains);
    assert chains[..|chains|] == chains;
    FlatNoDup(all, chains, |chains|);
    FlatSame(all, chains);
    Size(all);
    Size(Flat(chains));
    assert SetOf(all) == SetOf(Flat(chains));
  }

  lemma SelfWithin(l: seq<Node>)
    ensures Within(l, l)
  {
  }

  /** The table of keys the engine keeps. */
  class KeyTable {
    const table: Table

    ghost predicate Valid()
      reads table, table.buckets, table.all
    {
      table.Valid()
    }

    ghost function Contents(): set<Key>
      reads table
    {
      Keys(table.all)
    }

    constructor (hash: Key -> nat)
      ensures Valid() && Contents() == {} && fresh(table) && fresh(table.buckets) && fresh(table.all)
    {
      table := new Table(hash);
    }

    /** add_key; `memory` tells whether a node can be allocated. */
    method AddKey(key: Key, memory: bool)
      requires Valid()
      modifies table, table.buckets, table.all
      ensures Valid() && (fresh(table.buckets) || table.buckets == old(table.buckets))
              && fresh(set n | n in table.all && n !in old(table.all))
      ensures Contents() == old(Contents()) + if 1 <= |key| <= 255 && memory then {key} else {}
    {
      hide Keys, KeysOk, Holds, InOrder, NoDup, DropAt, Within;
      if |key| == 0 || |key| > 255 {
        return;
      }
      var entry := table.Find(key);
      if entry != null || !memory {
        return;
      }
      entry := new Node(key, table.hash(key));
      table.Add(entry);
    }

    /** key_in_table */
    method KeyInTable(key: Key) returns (found: bool)
      requires Valid()
      ensures found <==> 1 <= |key| <= 255 && key in Contents()
    {
      hide Keys, KeysOk, Holds, InOrder, NoDup, DropAt, Within;
      if |key| == 0 || |key| > 255 {
        return false;
      }
      var entry := table.Find(key);
      found := entry != null;
    }

    /** delete_key */
    method DeleteKey(key: Key)
      requires Valid()
      modifies table, table.buckets, table.all
      ensures Valid() && table.buckets == old(table.buckets) && Within(table.all, old(table.all))
      ensures Contents() == old(Contents()) - if 1 <= |key| <= 255 then {key} else {}
    {
      hide Keys, KeysOk, Holds, InOrder, NoDup, DropAt, Within;
      SelfWithin(table.all);
      if |key| == 0 || |key| > 255 {
        return;
      }
      var entry := table.Find(key);
      if entry != null {
        ghost var _ := table.Delete(entry);
      }
    }
  }
}
