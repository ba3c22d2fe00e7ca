/**
 The request queue of an I/O worker: a free list and a list of requests in flight, threaded through one
 array by index.  The order of the requests in flight, first on plain sequences of target times, then the lists.
 */
module IoOrder {
  import opened Base

  /** Ordered by target time; targets the clock has passed count as equal.  Clock 0 gives the plain order. */
  ghost predicate Sorted(ts: seq<nat>, latest: nat)
  {
    forall i, j :: 0 <= i < j < |ts| ==> Max(ts[i], latest) <= Max(ts[j], latest)
  }

  /** The search from the tail stops at a request that is due, or that is due no later than the new one. */
  predicate Stops(t: nat, latest: nat, tx: nat) { t <= latest || t <= tx }

  /** Where a request with target tx goes: right behind the last request the search stops at. */
  function Place(ts: seq<nat>, latest: nat, tx: nat): (p: nat)
    ensures p <= |ts|
    ensures p > 0 ==> Stops(ts[p - 1], latest, tx)
    ensures forall i :: p <= i < |ts| ==> !Stops(ts[i], latest, tx)
  {
    if ts == [] || Stops(ts[|ts| - 1], latest, tx) then |ts| else Place(ts[..|ts| - 1], latest, tx)
  }

  lemma PlaceUnique(ts: seq<nat>, latest: nat, tx: nat, p: nat)
    requires p <= |ts| && (p > 0 ==> Stops(ts[p - 1], latest, tx))
    requires forall i :: p <= i < |ts| ==> !Stops(ts[i], latest, tx)
    ensures p == Place(ts, latest, tx)
  {
  }

  function Inserted<T>(s: seq<T>, p: nat, x: T): (r: seq<T>)
    requires p <= |s|
    ensures |r| == |s| + 1
    ensures forall i :: 0 <= i < |r| ==> r[i] == if i < p then s[i] else if i == p then x else s[i - 1]
  {
    s[..p] + [x] + s[p..]
  }

  /** Putting tx behind targets no later and before targets no earlier keeps any such order. */
  lemma InsertBetween(ts: seq<nat>, p: nat, tx: nat, latest: nat)
    requires Sorted(ts, latest) && p <= |ts|
    requires forall i :: 0 <= i < p ==> Max(ts[i], latest) <= Max(tx, latest)
    requires forall i :: p <= i < |ts| ==> Max(tx, latest) <= Max(ts[i], latest)
    ensures Sorted(Inserted(ts, p, tx), latest)
  {
    var r := Inserted(ts, p, tx);
    forall i, j | 0 <= i < j < |r| ensures Max(r[i], latest) <= Max(r[j], latest) {
      var a, b := if i < p then i else i - 1, if j < p then j else j - 1;
      assert i != p && j != p ==> a < b && Max(ts[a], latest) <= Max(ts[b], latest);
    }
  }

  /** The new request goes behind exactly the requests that are due no later, and the order is kept. */
  lemma InsertSorted(ts: seq<nat>, latest: nat, tx: nat)
    requires Sorted(ts, latest)
    ensures Sorted(Inserted(ts, Place(ts, latest, tx), tx), latest)
    ensures forall i :: 0 <= i < |ts| ==> (i < Place(ts, latest, tx) <==> Max(ts[i], latest) <= Max(tx, latest))
  {
    var p := Place(ts, latest, tx);
    forall i | 0 <= i < p ensures Max(ts[i], latest) <= Max(tx, latest) {
      assert i < p - 1 ==> Max(ts[i], latest) <= Max(ts[p - 1], latest);
    }
    InsertBetween(ts, p, tx, latest);
  }

  /** Any later clock still finds the requests ordered. */
  lemma ClockSorted(ts: seq<nat>, latest: nat, later: nat)
    requires Sorted(ts, latest) && latest <= later
    ensures Sorted(ts, later)
  {
    forall i, j | 0 <= i < j < |ts| ensures Max(ts[i], later) <= Max(ts[j], later) {
      assert Max(ts[i], latest) <= Max(ts[j], latest);
    }
  }

  /** The number of leading requests that are due. */
  function DueCount(ts: seq<nat>, now: nat): (k: nat)
    ensures k <= |ts| && (k < |ts| ==> ts[k] > now)
    ensures forall i :: 0 <= i < k ==> ts[i] <= now
  {
    if ts == [] || ts[0] > now then 0 else 1 + DueCount(ts[1..], now)
  }

  /** For any clock from the list's own on, the requests that are due come first. */
  lemma DuePrefix(ts: seq<nat>, latest: nat, now: nat)
    requires Sorted(ts, latest) && latest <= now
    ensures forall i :: 0 <= i < |ts| ==> (ts[i] <= now <==> i < DueCount(ts, now))
  {
    var k := DueCount(ts, now);
    forall i | k < i < |ts| ensures ts[i] > now {
      assert Max(ts[k], latest) <= Max(ts[i], latest);
    }
  }

  lemma LaterAfter(ts: seq<nat>, latest: nat, k: nat, now: nat)
    requires Sorted(ts, latest) && k < |ts| && latest <= now < ts[k]
    ensures forall i :: 0 <= i < |ts[k..]| ==> ts[k..][i] > now
  {
    forall i | k < i < |ts| ensures ts[i] > now {
      assert Max(ts[k], latest) <= Max(ts[i], latest);
    }
  }

  lemma RawOrderKept(ts: seq<nat>, latest: nat, tx: nat)
    requires Sorted(ts, 0) && forall i :: 0 <= i < |ts| ==> !(tx < ts[i] <= latest)
    ensures Sorted(Inserted(ts, Place(ts, latest, tx), tx), 0)
  {
    hide Place, Inserted;
    var p := Place(ts, latest, tx);
    forall i | 0 <= i < p ensures Max(ts[i], 0) <= Max(tx, 0) {
      assert i < p - 1 ==> Max(ts[i], 0) <= Max(ts[p - 1], 0);
    }
    InsertBetween(ts, p, tx, 0);
  }

  lemma RawOrderBroken(ts: seq<nat>, latest: nat, tx: nat, i: nat)
    requires i < |ts| && tx < ts[i] <= latest
    ensures !Sorted(Inserted(ts, Place(ts, latest, tx), tx), 0)
  {
    var p := Place(ts, latest, tx);
    assert i < p;
    hide Place;
    var r := Inserted(ts, p, tx);
    assert r[i] == ts[i] && r[p] == tx;
    assert Max(r[i], 0) > Max(r[p], 0);
  }

  /**
   An insertion leaves the list ordered by target time alone exactly if no target lies after the new one and not
   after the clock.
   */
  lemma RawOrderExactly(ts: seq<nat>, latest: nat, tx: nat)
    requires Sorted(ts, 0)
    ensures Sorted(Inserted(ts, Place(ts, latest, tx), tx), 0) <==>
            forall i :: 0 <= i < |ts| ==> !(tx < ts[i] <= latest)
  {
    hide Place, Inserted, Sorted;
    if i :| 0 <= i < |ts| && tx < ts[i] <= latest {
      RawOrderBroken(ts, latest, tx, i);
    } else {
      RawOrderKept(ts, latest, tx);
    }
  }

  /** A request for time 5 arriving at time 10 stays behind one for time 8. */
  lemma RawOrderFails()
    ensures Sorted([8], 0)
    ensures Inserted([8], Place([8], 10, 5), 5) == [8, 5] && !Sorted([8, 5], 0)
  {
    assert [8][..1] == [8];
    var r := [8, 5];
    assert Max(r[0], 0) > Max(r[1], 0);
  }
}

module IoQueue {
  import opened Base
  import opened IoOrder

  /** The index -1 as the unsigned number it is stored as. */
  const NONE: nat := 0xFFFF_FFFF

  /** What follows position i of a list. */
  function NextIn(l: seq<nat>, i: int): nat
    requires -1 <= i < |l|
  {
    if i + 1 < |l| then l[i + 1] else NONE
  }

  function PrevIn(l: seq<nat>, i: int): nat
    requires 0 <= i <= |l|
  {
    if i > 0 then l[i - 1] else NONE
  }

  ghost predicate Chain(nx: seq<nat>, l: seq<nat>)
  {
    forall i :: 0 <= i < |l| ==> l[i] < |nx| && nx[l[i]] == NextIn(l, i)
  }

  ghost predicate BackChain(pv: seq<nat>, l: seq<nat>)
  {
    forall i :: 0 <= i < |l| ==> l[i] < |pv| && pv[l[i]] == PrevIn(l, i)
  }

  /** No index below n is in two places, and each is in one. */
  ghost predicate Covers(free: seq<nat>, busy: seq<nat>, n: nat)
  {
    && NoDup(free) && NoDup(busy)
    && (forall i :: 0 <= i < |free| ==> free[i] < n && free[i] !in busy)
    && (forall i :: 0 <= i < |busy| ==> busy[i] < n)
    && (forall e: nat :: e < n ==> e in free || e in busy)
  }

  function Targets(l: seq<nat>, target: seq<nat>): (ts: seq<nat>)
    requires forall i :: 0 <= i < |l| ==> l[i] < |target|
    ensures |ts| == |l| && forall i :: 0 <= i < |l| ==> ts[i] == target[l[i]]
  {
    seq(|l|, i requires 0 <= i < |l| => target[l[i]])
  }

  lemma ChainAt(nx: seq<nat>, l: seq<nat>, i: nat)
    requires Chain(nx, l) && i < |l|
    ensures l[i] < |nx| && nx[l[i]] == NextIn(l, i)
  {
  }

  lemma BackAt(pv: seq<nat>, l: seq<nat>, i: nat)
    requires BackChain(pv, l) && i < |l|
    ensures l[i] < |pv| && pv[l[i]] == PrevIn(l, i)
  {
  }

  function Iota(n: nat): (s: seq<nat>)
    ensures |s| == n && forall i :: 0 <= i < n ==> s[i] == i
  {
    seq(n, (i: nat) => i)
  }

  lemma AllFree(n: nat, nx: seq<nat>)
    requires |nx| == n && forall i :: 0 <= i < n ==> nx[i] == if i == n - 1 then NONE else i + 1
    ensures Covers(Iota(n), [], n) && Chain(nx, Iota(n)) && Chain(nx, [])
  {
    var s := Iota(n);
    forall e: nat | e < n ensures e in s {
      assert s[e] == e;
    }
  }

  lemma InsertChain(nx: seq<nat>, l: seq<nat>, p: nat, e: nat, r: seq<nat>)
    requires Chain(nx, l) && NoDup(l) && e < |nx| && e !in l && p <= |l| && |r| == |nx|
    requires forall k :: 0 <= k < |r| ==>
               r[k] == if k == e then NextIn(l, p - 1) else if p > 0 && k == l[p - 1] then e else nx[k]
    ensures Chain(r, Inserted(l, p, e))
  {
    var m := Inserted(l, p, e);
    forall i | 0 <= i < |m| ensures m[i] < |r| && r[m[i]] == NextIn(m, i) {
      hide Chain, NoDup, Inserted;
      if p > 0 { NoDupAt(l, p - 1); }
      if i != p {
        ChainAt(nx, l, if i < p then i else i - 1);
      }
    }
  }

  lemma InsertBackChain(pv: seq<nat>, l: seq<nat>, p: nat, e: nat, r: seq<nat>)
    requires BackChain(pv, l) && NoDup(l) && e < |pv| && e !in l && p <= |l| && |r| == |pv|
    requires forall k :: 0 <= k < |r| ==>
               r[k] == if k == e then PrevIn(l, p) else if p < |l| && k == l[p] then e else pv[k]
    ensures BackChain(r, Inserted(l, p, e))
  {
    var m := Inserted(l, p, e);
    forall i | 0 <= i < |m| ensures m[i] < |r| && r[m[i]] == PrevIn(m, i) {
      hide BackChain, NoDup, Inserted;
      if p < |l| { NoDupAt(l, p); }
      if i != p {
        BackAt(pv, l, if i < p then i else i - 1);
      }
    }
  }

  lemma InsertTargets(l: seq<nat>, target: seq<nat>, p: nat, e: nat, tx: nat)
    requires (forall i :: 0 <= i < |l| ==> l[i] < |target|) && e < |target| && e !in l && p <= |l|
    ensures forall i :: 0 <= i < |l| + 1 ==> Inserted(l, p, e)[i] < |target|
    ensures Targets(Inserted(l, p, e), target[e := tx]) == Inserted(Targets(l, target), p, tx)
    ensures Targets(l, target[e := tx]) == Targets(l, target)
  {
    var m := Inserted(l, p, e);
    assert forall i :: 0 <= i < |m| ==> m[i] == if i < p then l[i] else if i == p then e else l[i - 1];
  }

  /** Links elsewhere in the array do not matter to a list. */
  lemma ChainFrame(nx: seq<nat>, r: seq<nat>, l: seq<nat>)
    requires Chain(nx, l) && |r| == |nx| && forall i :: 0 <= i < |l| && l[i] < |r| ==> r[l[i]] == nx[l[i]]
    ensures Chain(r, l)
  {
  }

  lemma BackFrame(pv: seq<nat>, r: seq<nat>, l: seq<nat>)
    requires BackChain(pv, l) && |r| == |pv| && forall i :: 0 <= i < |l| && l[i] < |r| ==> r[l[i]] == pv[l[i]]
    ensures BackChain(r, l)
  {
  }

  lemma ChainTail(nx: seq<nat>, r: seq<nat>, l: seq<nat>)
    requires Chain(nx, l) && l != [] && |r| == |nx| && forall i :: 1 <= i < |l| && l[i] < |r| ==> r[l[i]] == nx[l[i]]
    ensures Chain(r, l[1..])
  {
    var m := l[1..];
    forall i | 0 <= i < |m| ensures m[i] < |r| && r[m[i]] == NextIn(m, i) {
      assert m[i] == l[i + 1] && nx[l[i + 1]] == NextIn(l, i + 1);
    }
  }

  /** A request is completed only when it is copied and due. */
  ghost predicate Timely(busy: seq<nat>, target: seq<nat>, copied: seq<bool>, completed: seq<bool>, latest: nat)
  {
    && |target| == |copied| == |completed|
    && (forall i :: 0 <= i < |busy| ==>
          busy[i] < |target| && (completed[busy[i]] ==> copied[busy[i]] && target[busy[i]] <= latest))
  }

  lemma InsertTimely(busy: seq<nat>, target: seq<nat>, copied: seq<bool>, completed: seq<bool>, latest: nat, p: nat,
                     e: nat, tx: nat, c: bool)
    requires Timely(busy, target, copied, completed, latest)
    requires p <= |busy| && e !in busy && e < |target| == |copied| == |completed|
    ensures Timely(Inserted(busy, p, e), target[e := tx], copied[e := c], completed[e := false], latest)
  {
    var m := Inserted(busy, p, e);
    assert forall i :: 0 <= i < |m| ==> m[i] == if i < p then busy[i] else if i == p then e else busy[i - 1];
  }

  lemma CoversFacts(free: seq<nat>, busy: seq<nat>, n: nat)
    requires Covers(free, busy, n)
    ensures NoDup(free) && NoDup(busy) && (forall i :: 0 <= i < |free| ==> free[i] < n && free[i] !in busy)
    ensures forall i :: 0 <= i < |busy| ==> busy[i] < n
    ensures forall i :: 1 <= i < |free| ==> free[i] != free[0]
  {
  }

  lemma InsertCovers(free: seq<nat>, busy: seq<nat>, p: nat, n: nat)
    requires Covers(free, busy, n) && free != [] && p <= |busy|
    ensures Covers(free[1..], Inserted(busy, p, free[0]), n)
  {
    var m := Inserted(busy, p, free[0]);
    assert forall i :: 0 <= i < |m| ==> m[i] == if i < p then busy[i] else if i == p then free[0] else busy[i - 1];
    forall e: nat | e < n ensures e in free[1..] || e in m {
      if e in busy {
        var i :| 0 <= i < |busy| && busy[i] == e;
        assert m[if i < p then i else i + 1] == e;
      } else {
        assert free == [free[0]] + free[1..];
        assert m[p] == free[0];
      }
    }
  }

  /** What an insertion keeps, on the contents of the arrays. */
  lemma TakeKeeps(free: seq<nat>, busy: seq<nat>, n: nat, target: seq<nat>, copied: seq<bool>, completed: seq<bool>,
                  latest: nat, tx: nat, c: bool)
    requires Covers(free, busy, n) && free != [] && n == |target| == |copied| == |completed|
    requires Sorted(Targets(busy, target), latest) && Timely(busy, target, copied, completed, latest)
    ensures var e, p := free[0], Place(Targets(busy, target), latest, tx);
            && Covers(free[1..], Inserted(busy, p, e), n)
            && Timely(Inserted(busy, p, e), target[e := tx], copied[e := c], completed[e := false], latest)
            && Targets(Inserted(busy, p, e), target[e := tx]) == Inserted(Targets(busy, target), p, tx)
            && Targets(busy, target[e := tx]) == Targets(busy, target)
            && Sorted(Inserted(Targets(busy, target), p, tx), latest)
  {
    hide NoDup, Sorted, Timely, Place, Inserted, Targets;
    var p := Place(Targets(busy, target), latest, tx);
    InsertCovers(free, busy, p, n);
    InsertTargets(busy, target, p, free[0], tx);
    InsertSorted(Targets(busy, target), latest, tx);
    InsertTimely(busy, target, copied, completed, latest, p, free[0], tx, c);
  }

  lemma DropKeeps(busy: seq<nat>, k: nat, target: seq<nat>, copied: seq<bool>, completed: seq<bool>, latest: nat)
    requires Timely(busy, target, copied, completed, latest) && k <= |busy|
    ensures Timely(busy[k..], target, copied, completed, latest)
    ensures Targets(busy[k..], target) == Targets(busy, target)[k..]
    ensures Sorted(Targets(busy, target), latest) ==> Sorted(Targets(busy, target)[k..], latest)
  {
    var ts := Targets(busy, target);
    assert forall i :: 0 <= i < |ts[k..]| ==> ts[k..][i] == ts[k + i] && busy[k..][i] == busy[k + i];
  }

  /** Freeing a prefix of the requests: the tail of the free list is linked to it. */
  lemma SpliceFree(nx: seq<nat>, free: seq<nat>, busy: seq<nat>, k: nat, r: seq<nat>)
    requires Chain(nx, free) && Chain(nx, busy) && NoDup(free) && NoDup(busy)
             && (forall i :: 0 <= i < |free| ==> free[i] !in busy)
    requires free != [] && 0 < k <= |busy| && |r| == |nx|
    requires forall e :: 0 <= e < |r| ==>
               r[e] == if e == busy[k - 1] then NONE else if e == free[|free| - 1] then busy[0] else nx[e]
    ensures Chain(r, free + busy[..k])
  {
    var m := free + busy[..k];
    forall i | 0 <= i < |m| ensures m[i] < |r| && r[m[i]] == NextIn(m, i) {
      SpliceFreeAt(nx, free, busy, k, r, i);
    }
  }

  lemma SpliceFreeAt(nx: seq<nat>, free: seq<nat>, busy: seq<nat>, k: nat, r: seq<nat>, i: nat)
    requires Chain(nx, free) && Chain(nx, busy) && NoDup(free) && NoDup(busy)
             && (forall i :: 0 <= i < |free| ==> free[i] !in busy)
    requires free != [] && 0 < k <= |busy| && |r| == |nx| && i < |free| + k
    requires forall e :: 0 <= e < |r| ==>
               r[e] == if e == busy[k - 1] then NONE else if e == free[|free| - 1] then busy[0] else nx[e]
    ensures var m := free + busy[..k]; m[i] < |r| && r[m[i]] == NextIn(m, i)
  {
    hide Chain;
    var m := free + busy[..k];
    if i < |free| {
      ChainAt(nx, free, i);
      assert m[i] == free[i] && free[i] != busy[k - 1];
      assert i + 1 < |free| ==> free[i] != free[|free| - 1] && m[i + 1] == free[i + 1];
    } else {
      var j := i - |free|;
      ChainAt(nx, busy, j);
      assert m[i] == busy[j] && busy[j] != free[|free| - 1];
      assert j + 1 < k ==> busy[j] != busy[k - 1] && m[i + 1] == busy[j + 1];
    }
  }

  lemma SpliceBusy(nx: seq<nat>, free: seq<nat>, busy: seq<nat>, k: nat, r: seq<nat>)
    requires Chain(nx, busy) && NoDup(busy) && (forall i :: 0 <= i < |free| ==> free[i] !in busy)
    requires free != [] && 0 < k <= |busy| && |r| == |nx|
    requires forall e :: 0 <= e < |r| ==>
               r[e] == if e == busy[k - 1] then NONE else if e == free[|free| - 1] then busy[0] else nx[e]
    ensures Chain(r, busy[k..])
  {
    var m := busy[k..];
    forall i | 0 <= i < |m| ensures m[i] < |r| && r[m[i]] == NextIn(m, i) {
      assert m[i] == busy[k + i] && busy[k + i] != busy[k - 1] && free[|free| - 1] !in busy;
    }
  }

  lemma SpliceBack(pv: seq<nat>, busy: seq<nat>, k: nat, r: seq<nat>)
    requires BackChain(pv, busy) && NoDup(busy) && 0 < k <= |busy| && |r| == |pv|
    requires forall e :: 0 <= e < |r| && e != busy[0] ==> r[e] == if k < |busy| && e == busy[k] then NONE else pv[e]
    ensures BackChain(r, busy[k..])
  {
    var m := busy[k..];
    forall i | 0 <= i < |m| ensures m[i] < |r| && r[m[i]] == PrevIn(m, i) {
      assert m[i] == busy[k + i] && busy[k + i] != busy[0] && (i > 0 ==> busy[k + i] != busy[k]);
    }
  }

  lemma SpliceCovers(free: seq<nat>, busy: seq<nat>, k: nat, n: nat)
    requires Covers(free, busy, n) && k <= |busy|
    ensures Covers(free + busy[..k], busy[k..], n)
  {
    assert busy == busy[..k] + busy[k..];
  }

  lemma SpliceKeeps(nx: seq<nat>, pv: seq<nat>, free: seq<nat>, busy: seq<nat>, k: nat, n: nat, r: seq<nat>,
                    q: seq<nat>)
    requires Covers(free, busy, n) && Chain(nx, free) && Chain(nx, busy) && BackChain(pv, busy)
    requires free != [] && 0 < k <= |busy| && |r| == |nx| && |q| == |pv|
    requires forall e :: 0 <= e < |r| ==>
               r[e] == if e == busy[k - 1] then NONE else if e == free[|free| - 1] then busy[0] else nx[e]
    requires forall e :: 0 <= e < |q| && e != busy[0] ==> q[e] == if k < |busy| && e == busy[k] then NONE else pv[e]
    ensures Covers(free + busy[..k], busy[k..], n)
    ensures Chain(r, free + busy[..k]) && Chain(r, busy[k..]) && BackChain(q, busy[k..])
  {
    hide Chain, BackChain, Covers;
    CoversFacts(free, busy, n);
    SpliceFree(nx, free, busy, k, r);
    SpliceBusy(nx, free, busy, k, r);
    SpliceBack(pv, busy, k, q);
    SpliceCovers(free, busy, k, n);
  }

  lemma NoneBusy(pv: seq<nat>, target: seq<nat>, copied: seq<bool>, completed: seq<bool>)
    requires |target| == |copied| == |completed|
    ensures BackChain(pv, []) && Sorted(Targets([], target), 0) && Timely([], target, copied, completed, 0)
  {
  }

  /** Clock readings from `from` on do not go back. */
  ghost predicate Rising(ticks: seq<nat>, from: nat)
  {
    && (forall i :: 0 <= i < |ticks| ==> from <= ticks[i])
    && (forall i, j :: 0 <= i < j < |ticks| ==> ticks[i] <= ticks[j])
  }

  lemma TimelyFacts(busy: seq<nat>, target: seq<nat>, copied: seq<bool>, completed: seq<bool>, latest: nat)
    requires Timely(busy, target, copied, completed, latest)
    ensures forall i :: 0 <= i < |busy| ==>
              busy[i] < |copied| == |completed| && (completed[busy[i]] ==> copied[busy[i]])
  {
    forall i | 0 <= i < |busy|
      ensures busy[i] < |copied| == |completed| && (completed[busy[i]] ==> copied[busy[i]])
    {
      assert busy[i] < |target|;
    }
  }

  lemma PassKeeps(busy: seq<nat>, target: seq<nat>, copied: seq<bool>, completed: seq<bool>, was: nat,
                  ticks: seq<nat>, latest: nat, c: seq<bool>, d: seq<bool>)
    requires Timely(busy, target, copied, completed, was) && |ticks| >= |busy| && Rising(ticks, was)
    requires |c| == |d| == |target|
    requires latest == if busy == [] then was else ticks[|busy| - 1]
    requires forall i :: 0 <= i < |busy| ==>
               busy[i] < |c| && c[busy[i]] && (d[busy[i]] <==> completed[busy[i]] || target[busy[i]] <= ticks[i])
    ensures Timely(busy, target, c, d, latest)
    ensures forall i :: 0 <= i < |busy| ==>
              (d[busy[i]] && target[busy[i]] <= latest <==>
                 (completed[busy[i]] && copied[busy[i]] && target[busy[i]] <= was)
                 || Targets(busy, target)[i] <= ticks[i])
    ensures Sorted(Targets(busy, target), was) ==> Sorted(Targets(busy, target), latest)
  {
    hide Sorted;
    forall i | 0 <= i < |busy| && d[busy[i]] ensures target[busy[i]] <= latest {
      assert ticks[i] <= latest && was <= latest;
    }
    if Sorted(Targets(busy, target), was) {
      ClockSorted(Targets(busy, target), was, latest);
    }
  }

  class Worker {
    const n: nat
    const next: array<nat>
    const prev: array<nat>
    const target: array<nat>
    const copied: array<bool>
    const completed: array<bool>
    var freeSeq: nat
    var freeSeqEnd: nat
    var ioSeq: nat
    var ioSeqEnd: nat
    var latest: nat
    /** The free entries and the requests in flight, in list order. */
    ghost var free: seq<nat>
    ghost var busy: seq<nat>

    ghost predicate Shape()
    {
      && 0 < n < NONE
      && next.Length == n && prev.Length == n && target.Length == n && copied.Length == n && completed.Length == n
      && next != prev && next != target && prev != target && copied != completed
    }

    ghost predicate Lists()
      reads this, next, prev
      requires Shape()
    {
      && Covers(free, busy, n)
      && free != [] && freeSeq == free[0] && freeSeqEnd == free[|free| - 1]
      && ioSeq == NextIn(busy, -1) && (busy != [] ==> ioSeqEnd == busy[|busy| - 1])
      && Chain(next[..], free) && Chain(next[..], busy) && BackChain(prev[..], busy)
    }

    /** The targets of the requests in flight, in list order. */
    ghost function Order(): seq<nat>
      reads this, target
      requires Shape() && Covers(free, busy, n)
    {
      Targets(busy, target[..])
    }

    ghost predicate Valid()
      reads this, next, prev, target, copied, completed
    {
      Shape() && Lists() && Sorted(Order(), latest)
      && Timely(busy, target[..], copied[..], completed[..], latest)
    }

    /** NVMEV_IO_WORKER_INIT: all entries are free. */
    constructor (n: nat)
      requires 0 < n < NONE
      ensures Valid() && this.n == n && busy == [] && free == Iota(n)
      ensures fresh(next) && fresh(prev) && fresh(target) && fresh(copied) && fresh(completed)
    {
      this.n := n;
      next := new nat[n](i => if i == n - 1 then NONE else i + 1);
      prev := new nat[n](i => if i == 0 then NONE else i - 1);
      target := new nat[n](_ => 0);
      copied := new bool[n](_ => false);
      completed := new bool[n](_ => false);
      freeSeq, freeSeqEnd, ioSeq, ioSeqEnd, latest := 0, n - 1, NONE, NONE, 0;
      free, busy := Iota(n), [];
      new;
      hide Covers, Chain, BackChain, Sorted, Timely;
      AllFree(n, next[..]);
      NoneBusy(prev[..], target[..], copied[..], completed[..]);
    }

    /** The search of __insert_req_sorted, from the tail; p is the place behind curr. */
    method FindPlace(tx: nat, ghost ts: seq<nat>) returns (curr: nat, ghost p: nat)
      requires Shape() && BackChain(prev[..], busy) && busy != [] && ioSeqEnd == busy[|busy| - 1]
      requires |ts| == |busy| && forall i :: 0 <= i < |busy| ==> busy[i] < n && ts[i] == target[busy[i]]
      ensures p == Place(ts, latest, tx) && curr == PrevIn(busy, p)
    {
      hide BackChain, Place;
      curr := ioSeqEnd;
      p := |busy|;
      while curr != NONE
        invariant 0 <= p <= |busy| && curr == PrevIn(busy, p)
        invariant forall i :: p <= i < |busy| ==> !Stops(ts[i], latest, tx)
        decreases p
      {
        assert curr == busy[p - 1] && ts[p - 1] == target[curr];
        if target[curr] <= latest { break; }
        if target[curr] <= tx { break; }
        BackAt(prev[..], busy, p - 1);
        curr := prev[curr];
        p := p - 1;
      }
      PlaceUnique(ts, latest, tx, p);
    }

    /** The relinking of __insert_req_sorted for a non-empty list. */
    method LinkIn(e: nat, curr: nat, ghost p: nat)
      requires Shape() && e < n && e !in busy && p <= |busy| && curr == PrevIn(busy, p)
      requires NoDup(busy) && (forall i :: 0 <= i < |busy| ==> busy[i] < n)
      requires Chain(next[..], busy) && BackChain(prev[..], busy) && next[e] == NONE && prev[e] == NONE
      requires busy != [] && ioSeq == busy[0] && ioSeqEnd == busy[|busy| - 1]
      modifies this`ioSeq, this`ioSeqEnd, next, prev
      ensures Chain(next[..], Inserted(busy, p, e)) && BackChain(prev[..], Inserted(busy, p, e))
      ensures ioSeq == Inserted(busy, p, e)[0] && ioSeqEnd == Inserted(busy, p, e)[|busy|]
      ensures forall k :: 0 <= k < n && k !in busy && k != e ==> next[k] == old(next[k])
    {
      hide Chain, BackChain, NoDup;
      if p > 0 { ChainAt(next[..], busy, p - 1); }
      if curr == NONE {
        prev[ioSeq] := e;
        next[e] := ioSeq;
        ioSeq := e;
      } else if next[curr] == NONE {
        prev[e] := curr;
        ioSeqEnd := e;
        next[curr] := e;
      } else {
        prev[e] := curr;
        next[e] := next[curr];
        prev[next[e]] := e;
        next[curr] := e;
      }
      InsertChain(old(next[..]), busy, p, e, next[..]);
      InsertBackChain(old(prev[..]), busy, p, e, prev[..]);
    }

    /** __insert_req_sorted */
    method Insert(e: nat, tx: nat, ghost ts: seq<nat>)
      requires Shape() && e < n && e !in busy && next[e] == NONE && prev[e] == NONE
      requires NoDup(busy) && Chain(next[..], busy) && BackChain(prev[..], busy)
      requires |ts| == |busy| && forall i :: 0 <= i < |busy| ==> busy[i] < n && ts[i] == target[busy[i]]
      requires ioSeq == NextIn(busy, -1) && (busy != [] ==> ioSeqEnd == busy[|busy| - 1])
      modifies this`ioSeq, this`ioSeqEnd, this`busy, next, prev
      ensures busy == Inserted(old(busy), Place(ts, latest, tx), e)
      ensures Chain(next[..], busy) && BackChain(prev[..], busy)
      ensures ioSeq == busy[0] && ioSeqEnd == busy[|busy| - 1]
      ensures forall k :: 0 <= k < n && k !in old(busy) && k != e ==> next[k] == old(next[k])
    {
      hide NoDup;
      if ioSeq == NONE {
        assert busy == [];
        ioSeq, ioSeqEnd := e, e;
        busy := [e];
      } else {
        hide Chain, BackChain, Place;
        assert busy != [];
        ghost var p: nat;
        var curr: nat;
        curr, p := FindPlace(tx, ts);
        LinkIn(e, curr, p);
        busy := Inserted(busy, p, e);
      }
    }

    /** Describes the request in its entry, which is in no list of requests. */
    method Fill(e: nat, tx: nat, isInternal: bool)
      requires Shape() && e < n && e !in busy
      requires Chain(next[..], busy) && BackChain(prev[..], busy) && forall i :: 0 <= i < |busy| ==> busy[i] < n
      modifies next, prev, target, copied, completed
      ensures target[..] == old(target[..])[e := tx]
      ensures copied[..] == old(copied[..])[e := isInternal] && completed[..] == old(completed[..])[e := false]
      ensures copied[e] == isInternal && !completed[e]
      ensures next[e] == NONE && prev[e] == NONE && forall k :: 0 <= k < n && k != e ==> next[k] == old(next[k])
      ensures Chain(next[..], busy) && BackChain(prev[..], busy)
    {
      hide Chain, BackChain;
      target[e], completed[e], copied[e] := tx, false, isInternal;
      prev[e], next[e] := NONE, NONE;
      ChainFrame(old(next[..]), next[..], busy);
      BackFrame(old(prev[..]), prev[..], busy);
    }

    /** Moves the first free entry to the requests in flight, by target time. */
    method Take(tx: nat, isInternal: bool)
      requires Valid() && |free| > 1
      modifies this, next, prev, target, copied, completed
      ensures Valid() && latest == old(latest) && free == old(free)[1..]
      ensures busy == Inserted(old(busy), Place(old(Order()), latest, tx), old(free)[0])
      ensures Order() == Inserted(old(Order()), Place(old(Order()), latest, tx), tx)
      ensures !completed[old(free)[0]] && copied[old(free)[0]] == isInternal
    {
      hide Covers, Chain, BackChain, Sorted, Timely, NoDup, Place, Inserted, Targets;
      CoversFacts(free, busy, n);
      var e := freeSeq;
      ChainAt(next[..], free, 0);
      ghost var ts, p, nx, f := Order(), Place(Order(), latest, tx), next[..], free;
      TakeKeeps(free, busy, n, target[..], copied[..], completed[..], latest, tx, isInternal);
      freeSeq := next[e];
      Fill(e, tx, isInternal);
      Insert(e, tx, ts);
      ChainTail(nx, next[..], f);
      free := free[1..];
    }

    /**
     __enqueue_io_req and schedule_internal_operation: takes a free entry and queues it by target time.
     The last free entry is never given out.
     */
    method Enqueue(tx: nat, isInternal: bool) returns (ok: bool)
      requires Valid()
      modifies this, next, prev, target, copied, completed
      ensures Valid() && latest == old(latest) && (ok <==> |old(free)| > 1)
      ensures !ok ==> free == old(free) && busy == old(busy) && Order() == old(Order())
      ensures ok ==>
                && free == old(free)[1..]
                && busy == Inserted(old(busy), Place(old(Order()), latest, tx), old(free)[0])
                && Order() == Inserted(old(Order()), Place(old(Order()), latest, tx), tx)
    {
      hide Covers, Chain, BackChain, Sorted, Timely, NoDup, Place, Inserted, Targets;
      CoversFacts(free, busy, n);
      ChainAt(next[..], free, 0);
      if next[freeSeq] >= n {
        return false;
      }
      Take(tx, isInternal);
      ok := true;
    }

    /** A request the reclaimer may free. */
    ghost predicate Reclaimable(e: nat)
      reads this`latest, target, copied, completed
      requires Shape() && e < n
    {
      completed[e] && copied[e] && target[e] <= latest
    }

    /** The walk of __reclaim_completed_reqs from the head; last is the last of the k entries it may free. */
    method CountDone() returns (last: nat, ghost k: nat)
      requires Shape() && Chain(next[..], busy) && ioSeq == NextIn(busy, -1)
      requires forall i :: 0 <= i < |busy| ==> busy[i] < n
      ensures k <= |busy| && last == PrevIn(busy, k)
      ensures forall i :: 0 <= i < k ==> Reclaimable(busy[i])
      ensures k < |busy| ==> !Reclaimable(busy[k])
    {
      hide Chain;
      var curr := ioSeq;
      last, k := NONE, 0;
      while curr != NONE
        invariant k <= |busy| && last == PrevIn(busy, k) && curr == NextIn(busy, k - 1)
        invariant forall i :: 0 <= i < k ==> Reclaimable(busy[i])
        decreases |busy| - k
      {
        assert curr == busy[k];
        if !completed[curr] || !copied[curr] || target[curr] > latest { break; }
        ChainAt(next[..], busy, k);
        last, curr := curr, next[curr];
        k := k + 1;
      }
    }

    /** The assignments of __reclaim_completed_reqs. */
    method Relink(last: nat, ghost k: nat)
      requires Shape() && 0 < k <= |busy| && free != [] && (forall i :: 0 <= i < |busy| ==> busy[i] < n)
      requires last == busy[k - 1] && ioSeq == busy[0] && freeSeqEnd == free[|free| - 1] < n && freeSeqEnd != last
      requires next[last] == NextIn(busy, k - 1)
      modifies this`ioSeq, this`freeSeqEnd, next, prev
      ensures ioSeq == NextIn(busy, k - 1) && freeSeqEnd == busy[k - 1]
      ensures forall e :: 0 <= e < n ==>
                next[e] == if e == busy[k - 1] then NONE else if e == free[|free| - 1] then busy[0] else old(next[e])
      ensures forall e :: 0 <= e < n && e != busy[0] ==>
                prev[e] == if k < |busy| && e == busy[k] then NONE else old(prev[e])
    {
      var first := ioSeq;
      ioSeq := next[last];
      if ioSeq != NONE {
        prev[ioSeq] := NONE;
      }
      next[last] := NONE;
      prev[first] := freeSeqEnd;
      next[freeSeqEnd] := first;
      freeSeqEnd := last;
    }

    /** Hands the first k requests over to the free list. */
    method Splice(last: nat, ghost k: nat)
      requires Shape() && Lists() && 0 < k <= |busy| && last == PrevIn(busy, k)
      modifies this`ioSeq, this`freeSeqEnd, this`free, this`busy, next, prev
      ensures Lists() && free == old(free) + old(busy)[..k] && busy == old(busy)[k..]
    {
      hide Chain, BackChain, Covers;
      CoversFacts(free, busy, n);
      ChainAt(next[..], busy, k - 1);
      ghost var nx, pv := next[..], prev[..];
      Relink(last, k);
      SpliceKeeps(nx, pv, free, busy, k, n, next[..], prev[..]);
      free, busy := free + busy[..k], busy[k..];
    }

    /** __reclaim_completed_reqs for one worker: frees the longest prefix of finished requests. */
    method Reclaim() returns (ghost k: nat)
      requires Valid()
      modifies this`ioSeq, this`freeSeqEnd, this`free, this`busy, next, prev
      ensures Valid() && k <= |old(busy)|
      ensures free == old(free) + old(busy)[..k] && busy == old(busy)[k..] && Order() == old(Order())[k..]
      ensures forall i :: 0 <= i < k ==> Reclaimable(old(busy)[i])
      ensures k < |old(busy)| ==> !Reclaimable(old(busy)[k])
    {
      hide Chain, BackChain, Covers, Sorted, Timely;
      CoversFacts(free, busy, n);
      var last;
      last, k := CountDone();
      DropKeeps(busy, k, target[..], copied[..], completed[..], latest);
      if last != NONE {
        Splice(last, k);
      }
    }

    /** The worker's turn at one request. */
    method Visit(e: nat, tick: nat)
      requires Shape() && e < n && (completed[e] ==> copied[e])
      modifies this`latest, copied, completed
      ensures latest == tick && copied[e] && (completed[e] <==> old(completed[e]) || target[e] <= tick)
      ensures forall j :: 0 <= j < n && j != e ==> copied[j] == old(copied[j]) && completed[j] == old(completed[j])
    {
      latest := tick;
      if !completed[e] {
        copied[e] := true;
        if target[e] <= tick {
          completed[e] := true;
        }
      }
    }

    /** The loop of nvmev_io_worker over the list; the clock reads ticks[i] at the i-th request. */
    method Walk(ticks: seq<nat>)
      requires Shape() && NoDup(busy) && Chain(next[..], busy) && ioSeq == NextIn(busy, -1) && |ticks| >= |busy|
      requires forall i :: 0 <= i < |busy| ==> busy[i] < n && (completed[busy[i]] ==> copied[busy[i]])
      modifies this`latest, copied, completed
      ensures latest == if busy == [] then old(latest) else ticks[|busy| - 1]
      ensures forall i :: 0 <= i < |busy| ==>
                copied[busy[i]] && (completed[busy[i]] <==> old(completed[busy[i]]) || target[busy[i]] <= ticks[i])
    {
      hide Chain, NoDup;
      var curr, i := ioSeq, 0;
      while curr != NONE
        invariant 0 <= i <= |busy| && curr == NextIn(busy, i - 1)
        invariant latest == if i == 0 then old(latest) else ticks[i - 1]
        invariant forall j :: 0 <= j < i ==>
                    copied[busy[j]] && (completed[busy[j]] <==> old(completed[busy[j]]) || target[busy[j]] <= ticks[j])
        invariant forall j :: i <= j < |busy| ==>
                    completed[busy[j]] == old(completed[busy[j]]) && copied[busy[j]] == old(copied[busy[j]])
        decreases |busy| - i
      {
        assert curr == busy[i];
        ChainAt(next[..], busy, i);
        NoDupAt(busy, i);
        Visit(curr, ticks[i]);
        curr, i := next[curr], i + 1;
      }
    }

    /** One pass of nvmev_io_worker: a request is finished if it was before, or if it is due when its turn comes. */
    method Pass(ticks: seq<nat>)
      requires Valid() && |ticks| >= |busy| && Rising(ticks, latest)
      modifies this`latest, copied, completed
      ensures Valid() && Order() == old(Order())
      ensures latest == if busy == [] then old(latest) else ticks[|busy| - 1]
      ensures forall i :: 0 <= i < |busy| ==>
                busy[i] < n && (Reclaimable(busy[i]) <==> old(Reclaimable(busy[i])) || Order()[i] <= ticks[i])
    {
      hide Chain, BackChain, Covers, Sorted, NoDup, Timely, Targets;
      CoversFacts(free, busy, n);
      TimelyFacts(busy, target[..], copied[..], completed[..], latest);
      ghost var c, d, was := copied[..], completed[..], latest;
      Walk(ticks);
      PassKeeps(busy, target[..], c, d, was, ticks, latest, copied[..], completed[..]);
    }

    /** When all requests due at time t0 are finished, a reclaim leaves none of them. */
    method FreeDue(ghost was: nat, ghost t0: nat) returns (ghost k: nat)
      requires Valid() && Sorted(Order(), was) && was <= t0
      requires forall i :: 0 <= i < |busy| ==> busy[i] < n && (Order()[i] <= t0 ==> Reclaimable(busy[i]))
      modifies this`ioSeq, this`freeSeqEnd, this`free, this`busy, next, prev
      ensures Valid() && k <= |old(busy)| && busy == old(busy)[k..] && free == old(free) + old(busy)[..k]
      ensures Order() == old(Order())[k..] && forall i :: 0 <= i < |busy| ==> Order()[i] > t0
    {
      hide Covers, Sorted, Timely, Chain, BackChain, Reclaimable, NextIn, Targets;
      ghost var ts, b := Order(), busy;
      k := Reclaim();
      if k < |b| {
        assert ts[k] > t0;
        LaterAfter(ts, was, k, t0);
        assert Order() == ts[k..];
      }
    }

    /** A pass and then a reclaim free every request that was due when the pass began. */
    method Serve(ticks: seq<nat>) returns (ghost k: nat)
      requires Valid() && |ticks| >= |busy| && Rising(ticks, latest)
      modifies this`latest, this`ioSeq, this`freeSeqEnd, this`free, this`busy, next, prev, copied, completed
      ensures Valid() && k <= |old(busy)| && busy == old(busy)[k..] && free == old(free) + old(busy)[..k]
      ensures Order() == old(Order())[k..]
      ensures old(busy) != [] ==> forall i :: 0 <= i < |busy| ==> Order()[i] > ticks[0]
    {
      hide Covers, Sorted, Timely, Chain, BackChain, Reclaimable;
      ghost var was := latest;
      Pass(ticks);
      k := FreeDue(was, if busy == [] then was else ticks[0]);
    }
  }
}
