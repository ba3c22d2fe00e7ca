/**
 The priority queue of victim lines: a binary heap of line numbers in an array whose element 0 is
 unused, keyed by each line's valid-page count.  Every line carries its own position in the heap.
 */
module VictimHeap {
  import opened Base

  /** The counters of one line (super block) and its place in the heap. */
  datatype Line = Line(vpc: int, ipc: int, pos: nat)

  ghost predicate InRange(h: seq<nat>, lines: seq<Line>)
  {
    |h| >= 1 && forall i :: 1 <= i < |h| ==> h[i] < |lines|
  }

  ghost predicate Edge(h: seq<nat>, lines: seq<Line>, p: nat, c: nat)
    requires InRange(h, lines) && 1 <= p < |h| && 1 <= c < |h|
  {
    lines[h[p]].vpc <= lines[h[c]].vpc
  }

  /** Heap order on every edge; `up` may be above its parent, `down` below its children. */
  ghost predicate OrderBut(h: seq<nat>, lines: seq<Line>, up: nat, down: nat)
    requires InRange(h, lines)
  {
    forall c :: 2 <= c < |h| && c != up && c / 2 != down ==> Edge(h, lines, c / 2, c)
  }

  /** The parent of i is no larger than any child of i. */
  ghost predicate Bridged(h: seq<nat>, lines: seq<Line>, i: nat)
    requires InRange(h, lines)
  {
    forall c :: 2 <= i && 2 <= c < |h| && c / 2 == i ==> Edge(h, lines, i / 2, c)
  }

  ghost predicate PosBut(h: seq<nat>, lines: seq<Line>, i: nat)
    requires InRange(h, lines)
  {
    && (forall j :: 1 <= j < |h| && j != i ==> lines[h[j]].pos == j)
    && (forall j :: 1 <= j < |h| && j != i && 1 <= i < |h| ==> h[j] != h[i])
  }

  ghost function Members(h: seq<nat>): set<nat> {
    set i | 1 <= i < |h| :: h[i]
  }

  /** Heap order, and each member's recorded position is its index. */
  ghost predicate HeapOk(h: seq<nat>, lines: seq<Line>)
  {
    InRange(h, lines) && OrderBut(h, lines, 0, 0) && PosBut(h, lines, 0)
  }

  /** Only positions changed, and only of members. */
  ghost predicate OnlyPos(lines: seq<Line>, lines': seq<Line>, members: set<nat>)
  {
    && |lines'| == |lines|
    && forall e :: 0 <= e < |lines| ==> lines'[e].vpc == lines[e].vpc && lines'[e].ipc == lines[e].ipc
                                        && (e !in members ==> lines'[e] == lines[e])
  }

  /** The first element has the smallest valid-page count of all. */
  lemma {:induction false} RootIsLeast(h: seq<nat>, lines: seq<Line>, i: nat)
    requires HeapOk(h, lines) && 1 <= i < |h|
    ensures lines[h[1]].vpc <= lines[h[i]].vpc
  {
    if i == 1 {
    } else {
      assert Edge(h, lines, i / 2, i);
      RootIsLeast(h, lines, i / 2);
    }
  }

  lemma SwapMembers(h: seq<nat>, i: nat, j: nat)
    requires 1 <= i < |h| && 1 <= j < |h|
    ensures Members(h[i := h[j]][j := h[i]]) == Members(h)
  {
    var r := h[i := h[j]][j := h[i]];
    forall x | x in Members(h)
      ensures x in Members(r)
    {
      var k :| 1 <= k < |h| && h[k] == x;
      assert r[if k == i then j else if k == j then i else k] == x;
    }
    forall x | x in Members(r)
      ensures x in Members(h)
    {
      var k :| 1 <= k < |r| && r[k] == x;
      assert h[if k == i then j else if k == j then i else k] == x;
    }
  }

  /** One step of bubbling up keeps order everywhere but at the new hole. */
  lemma BubbleOrder(h: seq<nat>, lines: seq<Line>, i: nat)
    requires InRange(h, lines) && 1 < i < |h|
    requires OrderBut(h, lines, i, 0) && Bridged(h, lines, i)
    requires lines[h[i / 2]].vpc > lines[h[i]].vpc
    ensures var r := h[i := h[i / 2]][i / 2 := h[i]];
            InRange(r, lines) && OrderBut(r, lines, i / 2, 0) && Bridged(r, lines, i / 2)
  {
    var p := i / 2;
    var r := h[i := h[p]][p := h[i]];
    forall c | 2 <= c < |r| && c != p
      ensures Edge(r, lines, c / 2, c)
    {
      if c != i { assert Edge(h, lines, c / 2, c); }
      if c / 2 == i { assert Edge(h, lines, i / 2, c); }
    }
    forall c | 2 <= p && 2 <= c < |r| && c / 2 == p
      ensures Edge(r, lines, p / 2, c)
    {
      assert Edge(h, lines, p / 2, p);
      if c != i { assert Edge(h, lines, p, c); }
    }
  }

  /** One step of percolating down keeps order everywhere but below the new hole. */
  lemma PercolateOrder(h: seq<nat>, lines: seq<Line>, i: nat, c: nat)
    requires InRange(h, lines) && 1 <= i && 2 <= c < |h| && c / 2 == i
    requires OrderBut(h, lines, 0, i) && Bridged(h, lines, i) && LeastChild(h, lines, i, c)
    requires lines[h[i]].vpc > lines[h[c]].vpc
    ensures var r := h[i := h[c]][c := h[i]];
            InRange(r, lines) && OrderBut(r, lines, 0, c) && Bridged(r, lines, c)
  {
    var r := h[i := h[c]][c := h[i]];
    forall k | 2 <= k < |r| && k / 2 != c
      ensures Edge(r, lines, k / 2, k)
    {
      if k / 2 == i {
        assert Edge(h, lines, c, k);
      } else if k == i {
        assert Edge(h, lines, i / 2, c);
      } else {
        assert Edge(h, lines, k / 2, k);
      }
    }
    forall k | 2 <= k < |r| && k / 2 == c
      ensures Edge(r, lines, c / 2, k)
    {
      assert Edge(h, lines, c, k);
    }
  }

  ghost predicate LeastChild(h: seq<nat>, lines: seq<Line>, i: nat, c: nat)
    requires InRange(h, lines)
  {
    && (c == 0 ==> 2 * i >= |h|)
    && (c != 0 ==> 2 <= c < |h| && c / 2 == i && forall k :: 2 <= k < |h| && k / 2 == i ==> Edge(h, lines, c, k))
  }

  lemma StopOrder(h: seq<nat>, lines: seq<Line>, i: nat, c: nat)
    requires InRange(h, lines) && 1 <= i < |h|
    requires OrderBut(h, lines, 0, i) && LeastChild(h, lines, i, c)
    requires c != 0 ==> Edge(h, lines, i, c)
    ensures OrderBut(h, lines, 0, 0)
  {
    forall k | 2 <= k < |h|
      ensures Edge(h, lines, k / 2, k)
    {
      if k / 2 == i { assert Edge(h, lines, c, k); }
    }
  }

  lemma StopOrderUp(h: seq<nat>, lines: seq<Line>, i: nat)
    requires InRange(h, lines) && 1 <= i < |h| && OrderBut(h, lines, i, 0)
    requires i > 1 ==> Edge(h, lines, i / 2, i)
    ensures OrderBut(h, lines, 0, 0)
  {
  }

  /** Recording position i for the line just moved there leaves the hole as the only misplaced one. */
  lemma MovePos(h: seq<nat>, lines: seq<Line>, i: nat, hole: nat)
    requires InRange(h, lines) && 1 <= i < |h| && 1 <= hole < |h| && hole != i
    requires PosBut(h, lines, i)
    ensures var r := h[i := h[hole]][hole := h[i]];
            var lines' := lines[h[hole] := lines[h[hole]].(pos := i)];
            InRange(r, lines') && PosBut(r, lines', hole)
  {
  }

  /** Putting the moving line into the hole completes the heap. */
  lemma Settle(h: seq<nat>, lines0: seq<Line>, lines: seq<Line>, i: nat)
    requires InRange(h, lines0) && InRange(h, lines) && 1 <= i < |h|
    requires OrderBut(h, lines0, 0, 0) && PosBut(h, lines, i)
    requires OnlyPos(lines0, lines, Members(h))
    ensures var lines' := lines[h[i] := lines[h[i]].(pos := i)];
            HeapOk(h, lines') && OnlyPos(lines0, lines', Members(h))
  {
    var lines' := lines[h[i] := lines[h[i]].(pos := i)];
    assert h[i] in Members(h);
    forall c | 2 <= c < |h|
      ensures Edge(h, lines', c / 2, c)
    {
      assert Edge(h, lines0, c / 2, c);
    }
  }

  /** A loop in progress: h is the heap with the moving line standing in hole i. */
  ghost predicate Moving(h: seq<nat>, lines0: seq<Line>, lines: seq<Line>, members: set<nat>, i: nat)
  {
    && 1 <= i < |h| && InRange(h, lines0) && InRange(h, lines)
    && PosBut(h, lines, i) && Bridged(h, lines0, i)
    && Members(h) == members && OnlyPos(lines0, lines, members)
  }

  lemma MoveStep(h: seq<nat>, lines0: seq<Line>, lines: seq<Line>, members: set<nat>, i: nat, j: nat)
    requires Moving(h, lines0, lines, members, i) && 1 <= j < |h| && j != i
    requires Bridged(h[i := h[j]][j := h[i]], lines0, j)
    ensures Moving(h[i := h[j]][j := h[i]], lines0, lines[h[j] := lines[h[j]].(pos := i)], members, j)
  {
    SwapMembers(h, i, j);
    MovePos(h, lines, i, j);
    assert h[j] in Members(h);
  }

  /** A new key for e breaks order at most above it (smaller) or below it (larger). */
  lemma Reprioritise(h: seq<nat>, lines: seq<Line>, e: nat, newPri: int, posn: nat)
    requires HeapOk(h, lines) && 1 <= posn < |h| && h[posn] == e
    ensures var lines' := lines[e := lines[e].(vpc := newPri)];
            && InRange(h, lines') && PosBut(h, lines', posn) && Bridged(h, lines', posn)
            && (lines[e].vpc > newPri ==> OrderBut(h, lines', posn, 0))
            && (lines[e].vpc <= newPri ==> OrderBut(h, lines', 0, posn))
  {
    var lines' := lines[e := lines[e].(vpc := newPri)];
    assert forall c :: 2 <= c < |h| ==> Edge(h, lines, c / 2, c);
    forall c | 2 <= posn && 2 <= c < |h| && c / 2 == posn
      ensures Edge(h, lines', posn / 2, c)
    {
      assert Edge(h, lines, posn / 2, posn) && Edge(h, lines, posn, c);
    }
    forall c | 2 <= c < |h| && (if lines[e].vpc > newPri then c != posn else c / 2 != posn)
      ensures Edge(h, lines', c / 2, c)
    {
      assert Edge(h, lines, c / 2, c);
    }
  }

  /** Moving the last element to the root. */
  lemma PopShape(h: seq<nat>, lines: seq<Line>)
    requires HeapOk(h, lines) && |h| > 2
    ensures var r := h[..|h| - 1][1 := h[|h| - 1]];
            && InRange(r, lines) && OrderBut(r, lines, 0, 1) && PosBut(r, lines, 1)
            && Members(r) == Members(h) - {h[1]}
  {
    var n := |h| - 1;
    var r := h[..n][1 := h[n]];
    forall c | 2 <= c < |r| && c / 2 != 1
      ensures Edge(r, lines, c / 2, c)
    {
      assert Edge(h, lines, c / 2, c);
    }
    forall x | x in Members(h) && x != h[1]
      ensures x in Members(r)
    {
      var k :| 1 <= k < |h| && h[k] == x;
      assert r[if k == n then 1 else k] == x;
    }
    forall x | x in Members(r)
      ensures x in Members(h) - {h[1]}
    {
      var k :| 1 <= k < |r| && r[k] == x;
      assert h[if k == 1 then n else k] == x;
    }
  }

  /** Element 0 of the array plays no part. */
  lemma SameMembers(h: seq<nat>, r: seq<nat>, lines: seq<Line>)
    requires HeapOk(h, lines) && |r| == |h| && forall j :: 1 <= j < |h| ==> r[j] == h[j]
    ensures HeapOk(r, lines) && Members(r) == Members(h)
  {
    assert forall c :: 2 <= c < |h| ==> Edge(h, lines, c / 2, c) ==> Edge(r, lines, c / 2, c);
    assert forall j :: 1 <= j < |h| ==> h[j] in Members(r) && r[j] in Members(h);
  }

  lemma SingletonPop(r: seq<nat>, h: seq<nat>, lines: seq<Line>)
    requires |r| == 1 && |h| == 2
    ensures HeapOk(r, lines) && Members(r) == Members(h) - {h[1]}
  {
  }

  /** Lines outside the heap may change freely. */
  lemma HeapOther(h: seq<nat>, lines: seq<Line>, e: nat, x: Line)
    requires HeapOk(h, lines) && e < |lines| && e !in Members(h)
    ensures HeapOk(h, lines[e := x])
  {
    assert forall j :: 1 <= j < |h| ==> h[j] in Members(h);
    forall c | 2 <= c < |h|
      ensures Edge(h, lines[e := x], c / 2, c)
    {
      assert Edge(h, lines, c / 2, c);
    }
  }

  lemma MemberPos(h: seq<nat>, lines: seq<Line>, e: nat)
    requires HeapOk(h, lines) && e in Members(h)
    ensures e < |lines| && lines[e].pos >= 1
  {
  }

  /** Members are distinct, so the heap has one slot more than it has members. */
  lemma {:induction false} MembersSize(h: seq<nat>, lines: seq<Line>)
    requires InRange(h, lines) && PosBut(h, lines, 0)
    ensures |Members(h)| == |h| - 1
  {
    if |h| == 1 {
      assert Members(h) == {};
    } else {
      var k := |h| - 1;
      MembersSize(h[..k], lines);
      assert Members(h) == Members(h[..k]) + {h[k]};
      assert h[k] !in Members(h[..k]);
    }
  }

  /** The position of a line is 0 exactly when it is not in the heap. */
  ghost predicate PosExact(lines: seq<Line>, members: set<nat>)
  {
    forall e :: 0 <= e < |lines| ==> (lines[e].pos != 0 <==> e in members)
  }

  lemma PosKept(h: seq<nat>, lines0: seq<Line>, lines: seq<Line>)
    requires HeapOk(h, lines) && OnlyPos(lines0, lines, Members(h))
    requires forall e :: 0 <= e < |lines0| && e !in Members(h) ==> lines0[e].pos == 0
    ensures PosExact(lines, Members(h))
  {
    forall e | 0 <= e < |lines| && e in Members(h)
      ensures lines[e].pos != 0
    {
      MemberPos(h, lines, e);
    }
  }

  /** After a pop, clearing the popped line's position makes positions exact again. */
  lemma PosPopped(h: seq<nat>, lines0: seq<Line>, lines: seq<Line>, e: nat)
    requires HeapOk(h, lines) && e < |lines| && e !in Members(h)
    requires OnlyPos(lines0, lines, Members(h) + {e}) && PosExact(lines0, Members(h) + {e})
    ensures var lines' := lines[e := lines[e].(pos := 0)]; HeapOk(h, lines') && PosExact(lines', Members(h))
  {
    var lines' := lines[e := lines[e].(pos := 0)];
    HeapOther(h, lines, e, lines[e].(pos := 0));
    forall x | 0 <= x < |lines'|
      ensures lines'[x].pos != 0 <==> x in Members(h)
    {
      if x in Members(h) { MemberPos(h, lines', x); }
    }
  }

  /** The invalid-page count is no part of the heap order. */
  lemma HeapIpc(h: seq<nat>, lines: seq<Line>, e: nat, ipc: int)
    requires HeapOk(h, lines) && e < |lines|
    ensures HeapOk(h, lines[e := lines[e].(ipc := ipc)])
  {
    forall c | 2 <= c < |h|
      ensures Edge(h, lines[e := lines[e].(ipc := ipc)], c / 2, c)
    {
      assert Edge(h, lines, c / 2, c);
    }
  }

  /** There is always room for a line that is not yet in the heap. */
  lemma HeapRoom(h: seq<nat>, lines: seq<Line>, e: nat)
    requires HeapOk(h, lines) && e < |lines| && e !in Members(h)
    ensures |h| <= |lines| && |Members(h)| == |h| - 1
  {
    MembersSize(h, lines);
    Below(|lines|, Members(h) + {e});
  }

  class PQueue {
    const d: array<nat>
    const lines: array<Line>
    var size: nat

    ghost predicate Shape()
      reads this, d, lines
    {
      1 <= size <= d.Length && InRange(d[..size], lines[..])
    }

    ghost predicate Valid()
      reads this, d, lines
    {
      1 <= size <= d.Length && HeapOk(d[..size], lines[..])
    }

    ghost function Elems(): set<nat>
      reads this, d
      requires size <= d.Length
    {
      Members(d[..size])
    }

    constructor (lines: array<Line>)
      ensures Valid() && Elems() == {} && this.lines == lines && fresh(d) && d.Length == lines.Length + 1
    {
      this.lines := lines;
      d := new nat[lines.Length + 1];
      size := 1;
    }

    method BubbleUp(i0: nat)
      requires Shape() && 1 <= i0 < size
      requires OrderBut(d[..size], lines[..], i0, 0) && Bridged(d[..size], lines[..], i0)
      requires PosBut(d[..size], lines[..], i0)
      modifies d, lines
      ensures Valid() && Elems() == old(Elems())
      ensures OnlyPos(old(lines[..]), lines[..], Elems())
    {
      hide PosBut, OrderBut, Bridged, Members, HeapOk;
      var i := i0;
      var moving := d[i];
      var pri := lines[moving].vpc;
      ghost var h, l0 := d[..size], lines[..];
      while i > 1 && lines[d[i / 2]].vpc > pri
        invariant 1 <= i < size && |h| == size && h[i] == moving
        invariant forall j :: 1 <= j < size && j != i ==> d[j] == h[j]
        invariant Moving(h, l0, lines[..], old(Elems()), i) && OrderBut(h, l0, i, 0)
      {
        var parent := i / 2;
        BubbleOrder(h, l0, i);
        MoveStep(h, l0, lines[..], old(Elems()), i, parent);
        h := h[i := h[parent]][parent := moving];
        d[i] := d[parent];
        lines[d[i]] := lines[d[i]].(pos := i);
        i := parent;
      }
      StopOrderUp(h, l0, i);
      Settle(h, l0, lines[..], i);
      d[i] := moving;
      lines[moving] := lines[moving].(pos := i);
      assert forall j :: 1 <= j < size ==> d[j] == h[j];
      SameMembers(h, d[..size], lines[..]);
    }

    /** The smaller child of i, or 0 when i has none; what stands at i itself does not matter. */
    method MaxChild(i: nat, ghost h: seq<nat>, ghost l0: seq<Line>) returns (c: nat)
      requires Shape() && 1 <= i < size == |h| && InRange(h, l0) && |l0| == lines.Length
      requires forall j :: 1 <= j < size && j != i ==> d[j] == h[j]
      requires forall e :: 0 <= e < |l0| ==> lines[e].vpc == l0[e].vpc
      ensures LeastChild(h, l0, i, c) && (c != 0 ==> 2 <= c < size && c / 2 == i)
    {
      c := 2 * i;
      if c >= size { return 0; }
      if c + 1 < size && lines[d[c]].vpc > lines[d[c + 1]].vpc { c := c + 1; }
    }

    method PercolateDown(i0: nat)
      requires Shape() && 1 <= i0 < size
      requires OrderBut(d[..size], lines[..], 0, i0) && Bridged(d[..size], lines[..], i0)
      requires PosBut(d[..size], lines[..], i0)
      modifies d, lines
      ensures Valid() && Elems() == old(Elems())
      ensures OnlyPos(old(lines[..]), lines[..], Elems())
    {
      hide PosBut, OrderBut, Bridged, Members, HeapOk, LeastChild;
      var i := i0;
      var moving := d[i];
      var pri := lines[moving].vpc;
      ghost var h, l0 := d[..size], lines[..];
      var child: nat := MaxChild(i, h, l0);
      while child != 0 && pri > lines[d[child]].vpc
        invariant 1 <= i < size && |h| == size && h[i] == moving
        invariant forall j :: 1 <= j < size && j != i ==> d[j] == h[j]
        invariant Moving(h, l0, lines[..], old(Elems()), i) && OrderBut(h, l0, 0, i)
        invariant LeastChild(h, l0, i, child) && (child != 0 ==> 2 <= child < size && child / 2 == i)
        decreases size - i
      {
        PercolateOrder(h, l0, i, child);
        MoveStep(h, l0, lines[..], old(Elems()), i, child);
        h := h[i := h[child]][child := moving];
        d[i] := d[child];
        lines[d[i]] := lines[d[i]].(pos := i);
        i := child;
        child := MaxChild(i, h, l0);
      }
      StopOrder(h, l0, i, child);
      Settle(h, l0, lines[..], i);
      d[i] := moving;
      lines[moving] := lines[moving].(pos := i);
      assert forall j :: 1 <= j < size ==> d[j] == h[j];
      SameMembers(h, d[..size], lines[..]);
    }

    method Insert(e: nat)
      requires Valid() && size < d.Length && e < lines.Length && e !in Elems()
      modifies this`size, d, lines
      ensures Valid() && Elems() == old(Elems()) + {e} && size == old(size) + 1
      ensures OnlyPos(old(lines[..]), lines[..], Elems())
    {
      var i := size;
      ghost var h := d[..size];
      size := size + 1;
      d[i] := e;
      assert d[..size] == h + [e];
      assert forall k :: 1 <= k < |h| ==> (h + [e])[k] == h[k];
      assert (h + [e])[i] == e;
      assert Members(h + [e]) == Members(h) + {e};
      forall c | 2 <= c < |h|
        ensures Edge(d[..size], lines[..], c / 2, c)
      {
        assert Edge(h, lines[..], c / 2, c);
      }
      BubbleUp(i);
    }

    method ChangePriority(newPri: int, e: nat)
      requires Valid() && e in Elems()
      modifies d, lines
      ensures Valid() && Elems() == old(Elems())
      ensures OnlyPos(old(lines[..])[e := old(lines[e]).(vpc := newPri)], lines[..], Elems())
    {
      var oldPri := lines[e].vpc;
      ghost var h, l0 := d[..size], lines[..];
      lines[e] := lines[e].(vpc := newPri);
      var posn := lines[e].pos;
      assert h[posn] == e;
      Reprioritise(h, l0, e, newPri, posn);
      assert lines[..] == l0[e := l0[e].(vpc := newPri)];
      if oldPri > newPri {
        BubbleUp(posn);
      } else {
        PercolateDown(posn);
      }
    }

    method Peek() returns (e: nat, ok: bool)
      requires Valid()
      ensures ok <==> Elems() != {}
      ensures ok ==> size > 1 && e == d[1] && e in Elems() && forall u :: u in Elems() ==> lines[e].vpc <= lines[u].vpc
    {
      if size == 1 {
        assert Elems() == {};
        return 0, false;
      }
      e, ok := d[1], true;
      assert d[..size][1] in Elems();
      forall u | u in Elems()
        ensures lines[e].vpc <= lines[u].vpc
      {
        var k :| 1 <= k < size && d[..size][k] == u;
        RootIsLeast(d[..size], lines[..], k);
      }
    }

    /** Removes the root; its recorded position is left for the caller to clear. */
    method Pop() returns (e: nat)
      requires Valid() && Elems() != {}
      modifies this`size, d, lines
      ensures Valid() && e == old(d[..])[1] && Elems() == old(Elems()) - {e} && e in old(Elems())
      ensures size == old(size) - 1
      ensures OnlyPos(old(lines[..]), lines[..], old(Elems()))
    {
      hide OrderBut, Edge;
      e := d[1];
      ghost var h := d[..size];
      size := size - 1;
      d[1] := d[size];
      if size > 1 {
        PopShape(h, lines[..]);
        assert d[..size] == h[..size][1 := h[size]];
        PercolateDown(1);
      } else {
        lines[e] := lines[e].(pos := 1);
        SingletonPop(d[..size], h, lines[..]);
      }
    }
  }
}
