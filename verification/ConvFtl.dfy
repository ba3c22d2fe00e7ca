/**
 The flash translation layer of one partition as the driver keeps it: tables in arrays, lines in
 lists and a heap, two write pointers.  Every method is proved against a step of `FtlModel`.
 */
module ConvFtl {
  import opened Base
  import opened FtlModel
  import opened FtlProofs
  import opened FtlGc
  import opened FtlEffects
  import opened FtlRuns
  import opened GcWalk
  import opened Geometry
  import opened VictimHeap

  /** The next address to write; `at.blk` is the number of the open line. */
  datatype WritePointer = WritePointer(curline: nat, at: Ppa)

  ghost function Indices(g: Geo, m: seq<Option<Ppa>>): (r: seq<Option<nat>>)
    ensures |r| == |m|
  {
    seq(|m|, i requires 0 <= i < |m| => if m[i].Some? then Some(PgIdx(g, m[i].value)) else None)
  }

  ghost function CountsOf(lines: seq<Line>): (r: seq<Counts>)
    ensures |r| == |lines|
  {
    seq(|lines|, i requires 0 <= i < |lines| => Counts(lines[i].vpc, lines[i].ipc))
  }

  lemma InitArrays(g: Geo, m: seq<Option<Ppa>>, r: seq<Option<nat>>, p: seq<Status>, b: seq<Counts>, l: seq<Line>)
    requires g.Valid() && g.lines >= 2 && |m| == |r| == |p| == g.TtPgs() && |b| == g.TtBlks() && |l| == g.lines
    requires forall i :: 0 <= i < |m| ==> m[i] == None && r[i] == None && p[i] == PgFree
    requires forall i :: 0 <= i < |b| ==> b[i] == Counts(0, 0)
    requires forall i :: 0 <= i < |l| ==> l[i] == Line(0, 0, 0)
    ensures var t := Init(LayoutOf(g));
            Indices(g, m) == t.maptbl && r == t.rmap && p == t.status && b == t.blk && CountsOf(l) == t.line
  {
  }

  lemma InitRest(g: Geo, free: seq<nat>)
    requires g.Valid() && g.lines >= 2
    requires |free| == g.lines - 2 && forall i :: 0 <= i < |free| ==> free[i] == i + 2
    ensures var t := Init(LayoutOf(g));
            t == Ftl(t.maptbl, t.rmap, t.status, seq(g.TtPgs(), _ => 0), t.blk, t.line,
                     Lists(free, {}, {}, Wp(0, 0), Wp(1, 0), true), g.PgsPerLine(), g.PgsPerLine())
  {
    assert free == seq(g.lines - 2, i => i + 2);
  }

  lemma SlotZero(g: Geo, l: nat)
    requires g.Valid()
    ensures Slot(g, Ppa(0, 0, l, 0)) == 0
  {
  }

  class Partition {
    const g: Geo
    const maptbl: array<Option<Ppa>>
    const rmap: array<Option<nat>>
    const pages: array<Status>
    const blks: array<Counts>
    const lines: array<Line>
    const pq: PQueue
    var free: seq<nat>
    var full: seq<nat>
    var freeCnt: nat
    var victimCnt: nat
    var fullCnt: nat
    var wp: WritePointer
    var gcWp: WritePointer
    var credits: int
    var refill: int
    ghost var data: seq<Payload>
    /** What the host reads back, by logical page. */
    ghost var contents: map<nat, Payload>

    ghost function Repr(): set<object>
    {
      {this, maptbl, rmap, pages, blks, lines, pq, pq.d}
    }

    ghost predicate PtrOk(p: WritePointer) {
      g.Valid() && ValidPpa(g, p.at) && p.at.blk == p.curline
    }

    /** Array sizes and lists are consistent, and counters equal list sizes. */
    ghost predicate Rep()
      reads Repr()
    {
      && g.Valid()
      && maptbl.Length == rmap.Length == pages.Length == |data| == g.TtPgs()
      && blks.Length == g.TtBlks() && lines.Length == g.lines
      && pq.lines == lines && pq.d.Length == g.lines + 1 && pq.Valid()
      && PtrOk(wp) && PtrOk(gcWp)
      && (forall l :: 0 <= l < maptbl.Length && maptbl[l].Some? ==> ValidPpa(g, maptbl[l].value))
      && (forall l :: l in free ==> l < g.lines)
      && NoDup(full)
      && PosExact(lines[..], pq.Elems())
      && freeCnt == |free| && victimCnt == |pq.Elems()| && fullCnt == |full|
    }

    ghost function Lay(): Layout
      requires g.Valid()
    {
      LayoutOf(g)
    }

    /** The value that the arrays and lists stand for. */
    ghost function Abs(): Ftl
      reads Repr()
      requires Rep()
    {
      Ftl(Indices(g, maptbl[..]), rmap[..], pages[..], data, blks[..], CountsOf(lines[..]),
          Lists(free, SetOf(full), pq.Elems(), Wp(wp.curline, Slot(g, wp.at)), Wp(gcWp.curline, Slot(g, gcWp.at)),
                true),
          credits, refill)
    }

    /** Tables of an erased partition. */
    static method NewTables(g: Geo)
      returns (m: array<Option<Ppa>>, r: array<Option<nat>>, p: array<Status>, b: array<Counts>, l: array<Line>)
      requires g.Valid() && g.lines >= 2
      ensures fresh(m) && fresh(r) && fresh(p) && fresh(b) && fresh(l)
      ensures m.Length == r.Length == p.Length == g.TtPgs() && b.Length == g.TtBlks() && l.Length == g.lines
      ensures forall i :: 0 <= i < m.Length ==> m[i] == None
      ensures forall i :: 0 <= i < l.Length ==> l[i] == Line(0, 0, 0)
      ensures var t := Init(LayoutOf(g));
              && Indices(g, m[..]) == t.maptbl && r[..] == t.rmap && p[..] == t.status && b[..] == t.blk
              && CountsOf(l[..]) == t.line
    {
      m := new Option<Ppa>[g.TtPgs()](_ => None);
      r := new Option<nat>[g.TtPgs()](_ => None);
      p := new Status[g.TtPgs()](_ => PgFree);
      b := new Counts[g.TtBlks()](_ => Counts(0, 0));
      l := new Line[g.lines](_ => Line(0, 0, 0));
      InitArrays(g, m[..], r[..], p[..], b[..], l[..]);
    }

    constructor (g: Geo)
      requires g.Valid() && g.lines >= 2
      ensures Rep() && this.g == g && Abs() == Init(Lay()) && contents == map[]
      ensures fresh(maptbl) && fresh(rmap) && fresh(pages) && fresh(blks) && fresh(lines) && fresh(pq) && fresh(pq.d)
    {
      hide Geo.TtPgs, Geo.TtBlks, Geo.PgsPerLine, Slot, LayoutOf, Init, Indices, CountsOf;
      this.g := g;
      var m, r, p, b, l := NewTables(g);
      maptbl, rmap, pages, blks, lines := m, r, p, b, l;
      data, contents := seq(g.TtPgs(), _ => 0), map[];
      pq := new PQueue(l);
      var all := AllLines(g.lines);
      free, full := all[2..], [];
      freeCnt, victimCnt, fullCnt := |all| - 2, 0, 0;
      wp := WritePointer(all[0], Ppa(0, 0, all[0], 0));
      gcWp := WritePointer(all[1], Ppa(0, 0, all[1], 0));
      credits, refill := g.PgsPerLine(), g.PgsPerLine();
      new;
      Positive(g);
      assert PtrOk(wp) && PtrOk(gcWp) && NoDup(full);
      SlotZero(g, wp.curline);
      SlotZero(g, gcWp.curline);
      hide PQueue.Valid, Members, ValidPpa;
      InitRest(g, free);
    }

    /** Lines are queued as free in the order of their numbers. */
    static method AllLines(n: nat) returns (all: seq<nat>)
      ensures |all| == n && forall k :: 0 <= k < n ==> all[k] == k
    {
      all := [];
      for i := 0 to n
        invariant |all| == i && forall k :: 0 <= k < i ==> all[k] == k
      {
        all := all + [i];
      }
    }

    lemma AbsShaped()
      requires Rep()
      ensures Shaped(Lay(), Abs())
    {
      LayoutOk(g);
      SlotOk(g, wp.at);
      SlotOk(g, gcWp.at);
    }

    method SetMaptbl(lpn: nat, a: Ppa)
      requires Rep() && lpn < maptbl.Length && ValidPpa(g, a)
      modifies maptbl
      ensures Rep() && Abs() == old(Abs()).(maptbl := old(Abs()).maptbl[lpn := Some(PgIdx(g, a))])
    {
      maptbl[lpn] := Some(a);
      assert Abs().maptbl == old(Abs()).maptbl[lpn := Some(PgIdx(g, a))];
    }

    method SetRmap(lpn: Option<nat>, a: Ppa)
      requires Rep() && ValidPpa(g, a)
      modifies rmap
      ensures PgIdx(g, a) < rmap.Length
      ensures Rep() && Abs() == old(Abs()).(rmap := old(Abs()).rmap[PgIdx(g, a) := lpn])
    {
      PgIdxOk(g, a);
      rmap[PgIdx(g, a)] := lpn;
    }

    method MarkPageValid(a: Ppa)
      requires Rep() && Shaped(Lay(), Abs()) && ValidPpa(g, a) && a.blk !in pq.Elems()
      requires PgIdx(g, a) < pages.Length && pages[PgIdx(g, a)] == PgFree
      modifies pages, blks, lines
      ensures Rep() && Abs() == SetStatus(Lay(), old(Abs()), PgIdx(g, a), PgValid)
    {
      hide HeapOk, Members, Layout.Valid, LayoutOf, Geo.TtPgs, Geo.TtBlks, PgIdx, BlkIdx, Slot;
      LayoutAt(g, a);
      var i, b, l := PgIdx(g, a), BlkIdx(g, a), a.blk;
      ghost var lines0 := lines[..];
      pages[i] := PgValid;
      blks[b] := Counts(blks[b].vpc + 1, blks[b].ipc);
      lines[l] := lines[l].(vpc := lines[l].vpc + 1);
      HeapOther(pq.d[..pq.size], lines0, l, lines0[l].(vpc := lines0[l].vpc + 1));
      assert lines[..] == lines0[l := lines0[l].(vpc := lines0[l].vpc + 1)];
      assert CountsOf(lines[..]) == CountsOf(lines0)[l := Counts(lines0[l].vpc + 1, lines0[l].ipc)];
    }

    method GetNewPage(w: Which) returns (a: Ppa)
      requires Rep() && Shaped(Lay(), Abs())
      ensures ValidPpa(g, a) && PgIdx(g, a) == NewPage(Lay(), Abs(), w)
      ensures a.blk == Abs().ls.Ptr(w).line
    {
      a := if w.UserIo? then wp.at else gcWp.at;
      LayoutAt(g, a);
    }

    /** One page of line l turns from valid to invalid; a line in the heap is moved to its new place. */
    method DecreaseValid(l: nat)
      requires pq.lines == lines && pq.Valid() && PosExact(lines[..], pq.Elems()) && l < lines.Length
      modifies lines, pq.d
      ensures pq.Valid() && PosExact(lines[..], pq.Elems()) && pq.Elems() == old(pq.Elems())
      ensures CountsOf(lines[..]) == old(CountsOf(lines[..])[l := Counts(lines[l].vpc - 1, lines[l].ipc + 1)])
    {
      hide HeapOk, Members;
      ghost var lines0, h0 := lines[..], pq.d[..pq.size];
      HeapIpc(h0, lines0, l, lines0[l].ipc + 1);
      lines[l] := lines[l].(ipc := lines[l].ipc + 1);
      ghost var lines1 := lines[..];
      assert lines1 == lines0[l := lines0[l].(ipc := lines0[l].ipc + 1)];
      if lines[l].pos != 0 {
        pq.ChangePriority(lines[l].vpc - 1, l);
        PosKept(pq.d[..pq.size], lines1[l := lines1[l].(vpc := lines1[l].vpc - 1)], lines[..]);
      } else {
        HeapOther(h0, lines1, l, lines1[l].(vpc := lines1[l].vpc - 1));
        lines[l] := lines[l].(vpc := lines[l].vpc - 1);
        assert lines[..] == lines1[l := lines1[l].(vpc := lines1[l].vpc - 1)];
      }
    }

    /** Adds a closed line to the heap of victims. */
    method AddVictim(l: nat)
      requires pq.lines == lines && pq.d.Length == lines.Length + 1
      requires pq.Valid() && PosExact(lines[..], pq.Elems()) && l < lines.Length && l !in pq.Elems()
      requires victimCnt == |pq.Elems()|
      modifies this`victimCnt, lines, pq, pq.d
      ensures pq.Valid() && PosExact(lines[..], pq.Elems()) && pq.Elems() == old(pq.Elems()) + {l}
      ensures CountsOf(lines[..]) == old(CountsOf(lines[..]))
      ensures victimCnt == |pq.Elems()|
    {
      hide HeapOk, Members;
      ghost var lines0 := lines[..];
      HeapRoom(pq.d[..pq.size], lines0, l);
      pq.Insert(l);
      PosKept(pq.d[..pq.size], lines0, lines[..]);
      victimCnt := victimCnt + 1;
    }

    /** The line's part of mark_page_invalid: counters, and the move from the full list to the heap. */
    method InvalidateInLine(l: nat)
      requires Rep() && l < lines.Length
      requires lines[l].vpc == g.PgsPerLine() <==> l in full
      requires l in full ==> l !in pq.Elems()
      modifies this`full, this`fullCnt, this`victimCnt, lines, pq, pq.d
      ensures Rep()
      ensures Abs() == old(Abs()).(
                line := old(Abs()).line[l := Bump(old(Abs()).line[l], PgValid, PgInvalid)],
                ls := Demoted(old(Abs()).ls, l, old(lines[l]).vpc == g.PgsPerLine()))
    {
      hide HeapOk, Members, Geo.TtPgs, Geo.TtBlks, Geo.PgsPerLine, Slot, PQueue.Valid, PosExact;
      var wasFull := lines[l].vpc == g.PgsPerLine();
      DecreaseValid(l);
      if wasFull {
        RemoveNoDup(full, l);
        full := Remove(full, l);
        fullCnt := fullCnt - 1;
        AddVictim(l);
      }
    }

    method MarkPageInvalid(a: Ppa)
      requires Rep() && Shaped(Lay(), Abs()) && ValidPpa(g, a)
      requires PgIdx(g, a) < pages.Length && pages[PgIdx(g, a)] == PgValid
      requires lines[a.blk].vpc == g.PgsPerLine() <==> a.blk in full
      requires a.blk in full ==> a.blk !in pq.Elems()
      modifies this`full, this`fullCnt, this`victimCnt, pages, blks, lines, pq, pq.d
      ensures Rep()
      ensures Abs() == Invalidate(Lay(), old(Abs()), PgIdx(g, a)).(rmap := old(Abs()).rmap)
    {
      hide HeapOk, Members, Layout.Valid, LayoutOf, Geo.TtPgs, Geo.TtBlks, Geo.PgsPerLine, PgIdx, BlkIdx, Slot,
        PQueue.Valid, PosExact;
      LayoutAt(g, a);
      var i, b := PgIdx(g, a), BlkIdx(g, a);
      pages[i] := PgInvalid;
      blks[b] := Counts(blks[b].vpc - 1, blks[b].ipc + 1);
      InvalidateInLine(a.blk);
    }

    /** The next address in the open line, and whether the line is used up. */
    method NextAddress(at: Ppa) returns (b: Ppa, last: bool)
      requires g.Valid() && ValidPpa(g, at)
      ensures (b, last) == NextPpa(g, at)
    {
      var ch, lun, pg := at.ch, at.lun, at.pg;
      last := false;
      pg := pg + 1;
      if pg % g.oneshot == 0 {
        MultipleGe(pg, g.oneshot);
        pg := pg - g.oneshot;
        ch := ch + 1;
        if ch == g.nchs {
          ch := 0;
          lun := lun + 1;
          if lun == g.luns {
            lun := 0;
            pg := pg + g.oneshot;
            if pg == g.PgsPerBlk() {
              pg := 0;
              last := true;
            }
          }
        }
      }
      b := Ppa(ch, lun, at.blk, pg);
    }

    method SetPointer(w: Which, p: WritePointer)
      requires Rep() && PtrOk(p)
      modifies this`wp, this`gcWp
      ensures Rep() && Abs() == old(Abs()).(ls := old(Abs()).ls.WithPtr(w, Wp(p.curline, Slot(g, p.at))))
    {
      if w.UserIo? { wp := p; } else { gcWp := p; }
    }

    /** The open line joins the full list when all its pages are valid, else the victims. */
    method RetireLine(l: nat)
      requires Rep() && l < lines.Length && l !in full && l !in pq.Elems()
      modifies this`full, this`fullCnt, this`victimCnt, lines, pq, pq.d
      ensures Rep()
      ensures var ls, all := old(Abs()).ls, old(lines[l]).vpc == g.PgsPerLine();
              Abs() == old(Abs()).(ls := ls.(full := if all then ls.full + {l} else ls.full,
                                             victims := if all then ls.victims else ls.victims + {l}))
    {
      hide HeapOk, Members, Geo.TtPgs, Geo.TtBlks, Geo.PgsPerLine, Slot, PQueue.Valid, PosExact;
      if lines[l].vpc == g.PgsPerLine() {
        SetOfAppend(full, l);
        full := full + [l];
        fullCnt := fullCnt + 1;
      } else {
        AddVictim(l);
      }
    }

    method TakeFree() returns (l: nat)
      requires Rep() && free != []
      modifies this`free, this`freeCnt
      ensures Rep() && l == old(free[0]) && l < g.lines
      ensures Abs() == old(Abs()).(ls := old(Abs()).ls.(free := old(free[1..])))
    {
      hide HeapOk, Members, Geo.TtPgs, Geo.TtBlks, Geo.PgsPerLine, Slot, PQueue.Valid, PosExact, NoDup, SetOf;
      l := free[0];
      assert l in free;
      assert forall k :: k in free[1..] ==> k in free;
      free := free[1..];
      freeCnt := freeCnt - 1;
    }

    method NextLine(w: Which)
      requires Rep() && free != []
      requires var l := Abs().ls.Ptr(w).line; l !in full && l !in pq.Elems()
      modifies this`wp, this`gcWp, this`free, this`freeCnt, this`full, this`fullCnt, this`victimCnt, lines, pq, pq.d
      ensures Rep()
      ensures var ls := old(Abs()).ls;
              Abs() == old(Abs()).(ls := CloseLine(ls, w, old(Abs()).line[ls.Ptr(w).line].vpc == g.PgsPerLine()))
    {
      hide Geo.TtPgs, Geo.TtBlks, Geo.PgsPerLine, Slot, PQueue.Valid, PosExact, Members, NoDup, SetOf, Indices;
      RetireLine(if w.UserIo? then wp.curline else gcWp.curline);
      hide CountsOf;
      var l := TakeFree();
      SlotZero(g, l);
      Positive(g);
      SetPointer(w, WritePointer(l, Ppa(0, 0, l, 0)));
    }

    method AdvanceWritePointer(w: Which)
      requires Rep() && Shaped(Lay(), Abs())
      requires var p := Abs().ls.Ptr(w);
               p.pos + 1 == g.PgsPerLine() ==> free != [] && p.line !in full && p.line !in pq.Elems()
      modifies this`wp, this`gcWp, this`free, this`freeCnt, this`full, this`fullCnt, this`victimCnt, lines, pq, pq.d
      ensures Rep() && Abs() == Advance(Lay(), old(Abs()), w)
    {
      var p := if w.UserIo? then wp else gcWp;
      LayoutAt(g, p.at);
      NextSlot(g, p.at);
      hide Layout.Valid, LayoutOf, Geo.TtPgs, Geo.TtBlks, Geo.PgsPerLine, Slot, NextPpa, PQueue.Valid, PosExact,
        Members, NoDup, SetOf, Indices, CountsOf;
      var b, last := NextAddress(p.at);
      if !last {
        SetPointer(w, p.(at := b));
      } else {
        NextLine(w);
      }
    }

    /** The write pointer stands on a free page, and a free line follows a line used up by it. */
    ghost predicate CanAppend(w: Which)
      reads Repr()
      requires Rep() && Shaped(Lay(), Abs())
    {
      var s := Abs();
      && s.status[NewPage(Lay(), s, w)] == PgFree
      && s.ls.Ptr(w).line !in s.ls.full && s.ls.Ptr(w).line !in s.ls.victims
      && (s.ls.Ptr(w).pos + 1 == g.PgsPerLine() ==> free != [])
    }

    /** Programs logical page lpn at a write pointer and moves the pointer on. */
    method AppendPage(w: Which, lpn: nat, ghost d: Payload)
      requires Rep() && Shaped(Lay(), Abs()) && lpn < maptbl.Length && CanAppend(w)
      modifies Repr()
      ensures Rep() && Abs() == Append(Lay(), old(Abs()), w, lpn, d)
    {
      hide Layout.Valid, LayoutOf, Geo.TtPgs, Geo.TtBlks, Geo.PgsPerLine, PgIdx, BlkIdx, Slot, PQueue.Valid, PosExact,
        Members, NoDup, Indices, CountsOf, Advance;
      ghost var s := Abs();
      var a := GetNewPage(w);
      SetMaptbl(lpn, a);
      SetRmap(Some(lpn), a);
      data := data[PgIdx(g, a) := d];
      MarkPageValid(a);
      assert Abs() == Program(Lay(), s, w, lpn, d);
      AdvanceWritePointer(w);
    }

    /** One logical page of conv_write, up to the spent credit. */
    method HostWritePage(lpn: nat, ghost d: Payload)
      requires Rep() && Inv(Lay(), Abs(), None, {}) && lpn < maptbl.Length
      requires Abs().ls.user.pos + 1 == g.PgsPerLine() ==> free != []
      modifies Repr()
      ensures Rep() && Ready(Lay(), old(Abs()), lpn) && Abs() == HostWrite(Lay(), old(Abs()), lpn, d)
    {
      hide Layout.Valid, LayoutOf, Geo.TtPgs, Geo.TtBlks, Geo.PgsPerLine, PgIdx, BlkIdx, Slot, PQueue.Valid, PosExact,
        Members, NoDup, Append, TablesOk, CountsOk, RolesOk, FillOk, PartsOk, VictimOk;
      ghost var lay, s := Lay(), Abs();
      HostReady(lay, s, lpn);
      var old_ := maptbl[lpn];
      if old_.Some? {
        var a := old_.value;
        LayoutAt(g, a);
        OldLine(lay, s, a.blk);
        MarkPageInvalid(a);
        SetRmap(None, a);
        assert Abs() == Invalidate(lay, s, PgIdx(g, a));
      }
      AppendPage(UserIo, lpn, d);
      credits := credits - 1;
    }

    /* ---------- garbage collection ---------- */

    ghost predicate Collecting(t: Ftl, v: nat, acts: seq<GcAct>)
      reads Repr()
    {
      Rep() && GcOk(Lay(), t, v, acts) && Abs() == Collect(Lay(), t, v, acts)
    }

    /** Moves a valid page of the victim to the GC line; the old copy stays as it is. */
    method GcWritePage(a: Ppa, ghost t: Ftl, ghost v: nat, ghost acts: seq<GcAct>)
      requires Collecting(t, v, acts) && ValidPpa(g, a) && a.blk == v && PgIdx(g, a) !in Done(acts)
      requires PgIdx(g, a) < pages.Length && pages[PgIdx(g, a)] == PgValid
      modifies Repr()
      ensures Collecting(t, v, acts + [Copy(PgIdx(g, a))])
      ensures Done(acts + [Copy(PgIdx(g, a))]) == Done(acts) + {PgIdx(g, a)}
      ensures Erased(acts + [Copy(PgIdx(g, a))]) == Erased(acts)
    {
      hide Layout.Valid, LayoutOf, Geo.TtPgs, Geo.TtBlks, Geo.PgsPerLine, PgIdx, BlkIdx, Slot, PQueue.Valid, PosExact,
        Members, NoDup, Append, Inv, Slack, Legal, Done, Erased, Collect, Indices, CountsOf;
      LayoutAt(g, a);
      AbsShaped();
      ghost var lay, p := Lay(), PgIdx(g, a);
      CopyAsserts(lay, t, v, acts, p);
      CopyLegal(lay, t, v, acts, p);
      ActSnoc(lay, t, v, acts, Copy(p));
      var lpn := rmap[PgIdx(g, a)];
      AppendPage(GcIo, lpn.value, data[p]);
    }

    /** How many pages of a flash page of the victim are still valid; none of them is free. */
    method CountValid(a: Ppa, ghost t: Ftl, ghost v: nat, ghost acts: seq<GcAct>) returns (cnt: nat)
      requires Collecting(t, v, acts) && a.blk == v
      requires Fresh(g, a, g.flash, Done(acts))
      ensures cnt == 0 <==> forall k :: 0 <= k < g.flash ==>
                FlashIdx(g, a, k) < pages.Length && pages[FlashIdx(g, a, k)] != PgValid
    {
      hide LayoutOf, Geo.TtPgs, Geo.TtBlks, Geo.PgsPerLine, PgIdx, Slot, PQueue.Valid, PosExact, Members, NoDup,
        Collect, GcOk, Done, Indices, CountsOf;
      cnt := 0;
      for i := 0 to g.flash
        invariant cnt == 0 <==> forall k :: 0 <= k < i ==>
                    FlashIdx(g, a, k) < pages.Length && pages[FlashIdx(g, a, k)] != PgValid
      {
        assert FreshAt(g, a, i, Done(acts));
        LayoutAt(g, a.(pg := a.pg + i));
        CopyAsserts(Lay(), t, v, acts, FlashIdx(g, a, i));
        assert pages[FlashIdx(g, a, i)] != PgFree;
        if pages[FlashIdx(g, a, i)] == PgValid { cnt := cnt + 1; }
      }
    }

    /** Relocates the valid pages of one flash page of the victim. */
    method CleanOneFlashpg(a: Ppa, ghost t: Ftl, ghost v: nat, ghost acts: seq<GcAct>) returns (ghost acts': seq<GcAct>)
      requires Collecting(t, v, acts) && a.blk == v
      requires Fresh(g, a, g.flash, Done(acts))
      modifies Repr()
      ensures Collecting(t, v, acts')
      ensures Done(acts') == Done(acts) + FlashPages(g, a) && Erased(acts') == Erased(acts)
    {
      hide LayoutOf, Geo.TtPgs, Geo.TtBlks, Geo.PgsPerLine, PgIdx, Slot, PQueue.Valid, PosExact, Members, NoDup,
        Collect, GcOk, Done, Erased, Indices, CountsOf, FirstPages;
      var cnt := CountValid(a, t, v, acts);
      if cnt <= 0 {
        acts' := SkipFlash(g, t, v, acts, a, g.flash);
        return;
      }
      acts' := acts;
      NoPages(g, a);
      for i := 0 to g.flash
        invariant Collecting(t, v, acts')
        invariant Done(acts') == Done(acts) + FirstPages(g, a, i) && Erased(acts') == Erased(acts)
      {
        var b := a.(pg := a.pg + i);
        assert FreshAt(g, a, i, Done(acts));
        LayoutAt(g, b);
        FirstPagesNext(g, a, i);
        if pages[FlashIdx(g, a, i)] == PgValid {
          GcWritePage(b, t, v, acts');
        } else {
          SkipPage(Lay(), t, v, acts', FlashIdx(g, a, i));
        }
        acts' := acts' + [Copy(FlashIdx(g, a, i))];
      }
    }

    /** Erases the block of address a. */
    method MarkBlockFree(a: Ppa)
      requires Rep() && Shaped(Lay(), Abs()) && ValidPpa(g, a)
      requires BlkIdx(g, a) < |Lay().blockLine|
      modifies pages, blks
      ensures Rep() && Abs() == EraseBlock(Lay(), old(Abs()), BlkIdx(g, a))
    {
      hide PQueue.Valid, PosExact, Members, NoDup, Indices, CountsOf, Slot, BlkIdx, Layout.Valid, LayoutOf, PgIdx,
        Geo.TtPgs, Geo.TtBlks, Geo.PgsPerBlk;
      LayoutAt(g, a);
      BlockSpan(g, a);
      ErasePages(pages, PgIdx(g, a.(pg := 0)), g.PgsPerBlk());
      blks[BlkIdx(g, a)] := Counts(0, 0);
      assert pages[..] == EraseBlock(Lay(), old(Abs()), BlkIdx(g, a)).status;
    }

    static method ErasePages(p: array<Status>, base: nat, n: nat)
      requires base + n <= p.Length
      modifies p
      ensures forall j :: 0 <= j < p.Length ==> p[j] == if base <= j < base + n then PgFree else old(p[j])
    {
      for i := 0 to n
        invariant forall j :: 0 <= j < p.Length ==> p[j] == if base <= j < base + i then PgFree else old(p[j])
      {
        p[base + i] := PgFree;
      }
    }

    /** Cleans flash page f of die (c, l) of the victim, and erases the block after its last one. */
    method CleanDie(f: nat, c: nat, l: nat, v: nat, ghost t: Ftl, ghost acts: seq<GcAct>)
      returns (ghost acts': seq<GcAct>)
      requires Collecting(t, v, acts) && v < g.lines && f < FlashPgsPerBlk(g) && c < g.nchs && l < g.luns
      requires Progress(g, v, acts, f, c, l)
      modifies Repr()
      ensures Collecting(t, v, acts') && Progress(g, v, acts', f, c, l + 1)
    {
      hide LayoutOf, Geo.TtPgs, Geo.TtBlks, Geo.PgsPerLine, PgIdx, BlkIdx, Slot, PQueue.Valid, PosExact, Members, NoDup,
        Collect, GcOk, Done, Erased, Indices, CountsOf, FlashPages, Progress, FlashPgsPerBlk;
      var a := FlashPage(g, v, f, c, l);
      FlashFresh(g, v, acts, f, c, l);
      acts' := CleanOneFlashpg(a, t, v, acts);
      if f + 1 == FlashPgsPerBlk(g) {
        EraseLegal(g, t, v, acts, acts', f, c, l);
        FlashPageOk(g, v, f, c, l, 0);
        EraseNext(Lay(), t, v, acts', BlkIdx(g, a));
        AbsShaped();
        MarkBlockFree(a);
        acts' := acts' + [Erase(BlkIdx(g, a))];
      }
      ProgressStep(g, v, acts, acts', f, c, l);
    }

    /** Copies back all valid data of line v, erasing its blocks. */
    method CleanLine(v: nat, ghost t: Ftl) returns (ghost acts: seq<GcAct>)
      requires g.Valid() && Collecting(t, v, []) && v < g.lines
      modifies Repr()
      ensures Collecting(t, v, acts) && Progress(g, v, acts, FlashPgsPerBlk(g), 0, 0)
    {
      hide Collecting, Progress, FlashPgsPerBlk, Rep;
      acts := [];
      ProgressStart(g, v);
      var n := FlashPgsPerBlk(g);
      for f := 0 to n
        invariant Collecting(t, v, acts) && Progress(g, v, acts, f, 0, 0)
      {
        for c := 0 to g.nchs
          invariant Collecting(t, v, acts) && Progress(g, v, acts, f, c, 0)
        {
          for l := 0 to g.luns
            invariant Collecting(t, v, acts) && Progress(g, v, acts, f, c, l)
          {
            acts := CleanDie(f, c, l, v, t, acts);
          }
          ProgressNextCh(g, v, acts, f, c);
        }
        ProgressNextFlash(g, v, acts, f);
      }
    }

    /** Takes a line with the fewest valid pages off the heap; unforced, only when it is nearly empty. */
    method SelectVictim(force: bool) returns (v: nat, ok: bool)
      requires Rep()
      modifies this`victimCnt, lines, pq, pq.d
      ensures Rep()
      ensures ok ==> Best(old(Abs()), v) && (force || old(Abs()).line[v].vpc <= g.PgsPerLine() / 8)
      ensures ok ==> Abs() == old(Abs()).(ls := old(Abs()).ls.(victims := old(Abs()).ls.victims - {v}))
      ensures !ok ==> Abs() == old(Abs())
      ensures !ok && old(pq.Elems()) != {} ==>
                && !force
                && forall u :: u in old(pq.Elems()) && u < lines.Length ==>
                     old(lines[..])[u].vpc > g.PgsPerLine() / 8
    {
      hide HeapOk, Geo.TtPgs, Geo.TtBlks, Geo.PgsPerLine, Slot, NoDup, SetOf, Indices;
      ghost var lines0 := lines[..];
      v, ok := pq.Peek();
      if !ok { return; }
      HeapMembers(pq.d[..pq.size], lines0);
      if !force && lines[v].vpc > g.PgsPerLine() / 8 {
        return v, false;
      }
      PopVictim(v);
    }

    method PopVictim(v: nat)
      requires pq.lines == lines && pq.Valid() && PosExact(lines[..], pq.Elems())
      requires pq.size > 1 && v == pq.d[1] && victimCnt == |pq.Elems()|
      modifies this`victimCnt, lines, pq, pq.d
      ensures pq.Valid() && PosExact(lines[..], pq.Elems())
      ensures v in old(pq.Elems()) && pq.Elems() == old(pq.Elems()) - {v} && victimCnt == |pq.Elems()|
      ensures CountsOf(lines[..]) == old(CountsOf(lines[..]))
    {
      hide HeapOk;
      ghost var lines0 := lines[..];
      HeapMembers(pq.d[..pq.size], lines0);
      assert pq.d[..pq.size][1] in pq.Elems();
      var e := pq.Pop();
      assert Members(pq.d[..pq.size]) + {e} == old(pq.Elems());
      PosPopped(pq.d[..pq.size], lines0, lines[..], e);
      lines[e] := lines[e].(pos := 0);
      victimCnt := victimCnt - 1;
    }

    method MarkLineFree(v: nat)
      requires Rep() && v < lines.Length && v !in pq.Elems()
      modifies this`free, this`freeCnt, lines
      ensures Rep() && Abs() == FreeLine(old(Abs()), v)
    {
      hide HeapOk, Members, Geo.TtPgs, Geo.TtBlks, Geo.PgsPerLine, Slot, NoDup, SetOf, Indices;
      ghost var lines0 := lines[..];
      HeapOther(pq.d[..pq.size], lines0, v, lines0[v].(ipc := 0, vpc := 0));
      lines[v] := lines[v].(ipc := 0, vpc := 0);
      assert lines[..] == lines0[v := lines0[v].(ipc := 0, vpc := 0)];
      free := free + [v];
      freeCnt := freeCnt + 1;
    }

    /** Collects one line.  Nothing the host can read changes. */
    method DoGc(force: bool) returns (ok: bool, ghost v: nat, ghost acts: seq<GcAct>)
      requires Rep() && Inv(Lay(), Abs(), None, {})
      requires forall u :: Best(Abs(), u) ==> GcRoom(Lay(), Abs(), u)
      modifies Repr()
      ensures Rep() && Inv(Lay(), Abs(), None, {})
      ensures View(Abs()) == old(View(Abs()))
      ensures !ok ==> Abs() == old(Abs())
      ensures !ok && force ==> Abs().ls.victims == {}
      ensures ok ==> old(Abs()).ls.victims != {}
      ensures ok ==> Best(old(Abs()), v) && Complete(Lay(), v, acts) && Abs() == Gc(Lay(), old(Abs()), v, acts)
    {
      hide HeapOk, Geo.TtPgs, Geo.TtBlks, Geo.PgsPerLine, Slot, NoDup, SetOf, LayoutOf, Inv, Collect, Legal, View,
        FreePages, PQueue.Valid, PosExact, Members, Indices, Complete, Best, FreeLine, Slack, Done, GcRoom;
      ghost var lay, s := Lay(), Abs();
      LayoutAt(g, wp.at);
      v, acts := 0, [];
      var l;
      l, ok := SelectVictim(force);
      if !ok { return; }
      v := l;
      BestLine(lay, s, v);
      refill := lines[l].ipc;
      ghost var t := Abs();
      GcStart(lay, s, v);
      assert t == TakeVictim(s, v);
      acts := CleanLine(l, t);
      WalkComplete(g, v, acts);
      GcEnd(lay, t, v, acts);
      MarkLineFree(l);
      GcSound(lay, s, v, acts);
    }

    /* ---------- credits ---------- */

    /** Between host writes. */
    ghost predicate Valid()
      reads Repr()
    {
      Rep() && Inv(Lay(), Abs(), None, {}) && contents == View(Abs())
    }

    /** So far the host kept within the space bound. */
    ghost predicate Spacious()
      reads Repr()
    {
      Valid() && SpaceOk(Lay(), Abs())
    }

    /** A new partition is ready for the host. */
    lemma NewValid()
      requires g.Valid() && g.lines >= 2 && Rep() && Abs() == Init(Lay()) && contents == map[]
      ensures Valid() && (g.lines > 4 ==> Spacious())
    {
      LayoutOk(g);
      InitInv(Lay());
    }

    /** Collects when few lines are free, then grants new credits. */
    method CheckAndRefill()
      requires Rep() && Inv(Lay(), Abs(), None, {})
      requires MustCollect(Abs()) ==> forall u :: Best(Abs(), u) ==> GcRoom(Lay(), Abs(), u)
      modifies Repr()
      ensures Rep() && Shaped(Lay(), old(Abs()))
      ensures var h := old(Abs());
              if h.credits > 0 then Abs() == h
              else if MustCollect(h) && h.ls.victims != {} then exists v, acts :: Collects(Lay(), h, v, acts, Abs())
              else Abs() == Refilled(h)
    {
      hide HeapOk, Geo.TtPgs, Geo.TtBlks, Geo.PgsPerLine, Slot, NoDup, SetOf, LayoutOf, View, TablesOk, CountsOk,
           RolesOk, FillOk, PartsOk, VictimOk, PQueue.Valid, PosExact, Members, Indices, CountsOf, Complete, Best, Gc,
           GcRoom;
      ghost var h := Abs();
      if credits <= 0 {
        if freeCnt <= GC_THRES_LINES_HIGH {
          ghost var v, acts;
          var ok;
          ok, v, acts := DoGc(true);
          credits := credits + refill;
          if ok { assert Collects(Lay(), h, v, acts, Abs()); }
        } else {
          credits := credits + refill;
        }
      }
    }

    ghost method Remember(m: map<nat, Payload>)
      requires Rep()
      modifies this`contents
      ensures Rep() && Abs() == old(Abs()) && contents == m
    {
      contents := m;
    }

    /** The next write of lpn finds the free lines it needs. */
    ghost predicate HasRoom(lpn: nat)
      reads Repr()
    {
      Rep() && lpn < |Abs().maptbl| && NextRoom(Lay(), Abs(), lpn)
    }

    /** Within the space bound every write has room. */
    lemma WithinBound(lpn: nat)
      requires Spacious() && lpn < g.TtPgs()
      ensures HasRoom(lpn)
    {
      hide HeapOk, Geo.TtBlks, Geo.PgsPerLine, Slot, NoDup, SetOf, LayoutOf, View, TablesOk, CountsOk,
           RolesOk, FillOk, PartsOk, VictimOk, PQueue.Valid, PosExact, Members, Indices, CountsOf, NextRoom;
      BoundRoom(Lay(), Abs(), lpn, 0);
    }

    /** One logical page of a host write, with the refill that may follow it, when there is room for it. */
    method WritePage(lpn: nat, ghost d: Payload)
      requires Valid() && lpn < g.TtPgs() && HasRoom(lpn)
      modifies Repr()
      ensures Valid() && contents == old(contents)[lpn := d]
      ensures Ready(Lay(), old(Abs()), lpn) && Next(Lay(), old(Abs()), lpn, d, Abs())
      ensures old(Spacious()) && |old(contents).Keys + {lpn}| <= (g.lines - 4) * g.PgsPerLine() ==> Spacious()
    {
      hide HeapOk, Geo.TtPgs, Geo.TtBlks, Geo.PgsPerLine, Slot, NoDup, SetOf, LayoutOf, View, TablesOk, CountsOk,
           RolesOk, FillOk, PartsOk, VictimOk, PQueue.Valid, PosExact, Members, Indices, CountsOf, HostWrite,
           FreePages, Collects, SpaceOk, GcRoom, NextRoom;
      ghost var lay, s := Lay(), Abs();
      LayoutAt(g, wp.at);
      RoomClose(lay, s, lpn);
      HostWriteInv(lay, s, lpn, d);
      RoomAfterHost(lay, s, lpn, d);
      HostWritePage(lpn, d);
      CheckAndRefill();
      NextSound(lay, s, lpn, d, Abs());
      if SpaceOk(lay, s) && |View(s).Keys + {lpn}| <= (lay.lines - 4) * lay.perLine {
        NextInv(lay, s, lpn, d, Abs());
      }
      Remember(View(Abs()));
    }

    /** The page at address a holds x. */
    ghost predicate Holds(a: Ppa, x: Payload)
      reads this, pages
    {
      PgIdx(g, a) < |data| && data[PgIdx(g, a)] == x && PgIdx(g, a) < pages.Length && pages[PgIdx(g, a)] == PgValid
    }

    /** Where logical page lpn lives; what is stored there is what was written last. */
    method Lookup(lpn: nat) returns (a: Option<Ppa>)
      requires Valid()
      ensures a.Some? <==> lpn in contents
      ensures a.Some? ==> ValidPpa(g, a.value) && Holds(a.value, contents[lpn])
    {
      hide HeapOk, Geo.TtPgs, Geo.TtBlks, Geo.PgsPerLine, Slot, NoDup, SetOf, LayoutOf, CountsOk, RolesOk, PgIdx,
           SpaceOk, FillOk, PartsOk, VictimOk, PQueue.Valid, PosExact, Members, CountsOf, Layout.Valid;
      if lpn >= maptbl.Length { return None; }
      a := maptbl[lpn];
      ghost var s := Abs();
      if a.Some? {
        PgIdxOk(g, a.value);
        assert Mapped(s.maptbl, s.rmap, s.status, {}, lpn);
      }
    }
  }

  lemma CopyLegal(lay: Layout, t: Ftl, v: nat, acts: seq<GcAct>, p: nat)
    requires GcOk(lay, t, v, acts) && p < |lay.line| && lay.line[p] == v && p !in Done(acts)
    ensures Shaped(lay, t) && ActOk(lay, v, Done(acts), Copy(p)) && lay.Valid()
  {
  }

  lemma BlockSpan(g: Geo, a: Ppa)
    requires g.Valid() && ValidPpa(g, a)
    ensures var base, lay := PgIdx(g, a.(pg := 0)), LayoutOf(g);
            && base + g.PgsPerBlk() <= g.TtPgs()
            && forall j :: 0 <= j < g.TtPgs() ==> (lay.block[j] == BlkIdx(g, a) <==> base <= j < base + g.PgsPerBlk())
  {
    Positive(g);
    PgIdxDigits(g, a.(pg := 0));
    PgIdxOk(g, a.(pg := g.PgsPerBlk() - 1));
    forall j | 0 <= j < g.TtPgs()
      ensures LayoutOf(g).block[j] == BlkIdx(g, a) <==>
              PgIdx(g, a.(pg := 0)) <= j < PgIdx(g, a.(pg := 0)) + g.PgsPerBlk()
    {
      BlockRange(g, BlkIdx(g, a), j);
    }
  }

  lemma EraseNext(lay: Layout, t: Ftl, v: nat, acts: seq<GcAct>, b: nat)
    requires GcOk(lay, t, v, acts) && ActOk(lay, v, Done(acts), Erase(b))
    ensures Shaped(lay, t) && GcOk(lay, t, v, acts + [Erase(b)])
    ensures Collect(lay, t, v, acts + [Erase(b)]) == EraseBlock(lay, Collect(lay, t, v, acts), b)
    ensures Done(acts + [Erase(b)]) == Done(acts) && Erased(acts + [Erase(b)]) == Erased(acts) + {b}
  {
    hide Layout.Valid, Collect, Done, Erased;
    ActSnoc(lay, t, v, acts, Erase(b));
  }

  lemma HeapMembers(h: seq<nat>, lines: seq<Line>)
    requires HeapOk(h, lines)
    ensures forall e :: e in Members(h) ==> e < |lines|
  {
  }

  lemma BestLine(lay: Layout, s: Ftl, v: nat)
    requires Inv(lay, s, None, {}) && Best(s, v)
    ensures v in s.ls.victims && v < lay.lines && v < |s.line|
  {
  }

  lemma GcStart(lay: Layout, s: Ftl, v: nat)
    requires Inv(lay, s, None, {}) && v in s.ls.victims && (v < |s.line| ==> GcRoom(lay, s, v))
    ensures v < |s.line| && GcOk(lay, TakeVictim(s, v), v, [])
    ensures Shaped(lay, TakeVictim(s, v)) && Collect(lay, TakeVictim(s, v), v, []) == TakeVictim(s, v)
  {
    hide Layout.Valid, TablesOk, CountsOk, RolesOk, FillOk, PartsOk, VictimOk, Slack;
    TakeInv(lay, s, v);
    RoomIsSlack(lay, s, v);
  }

  lemma GcEnd(lay: Layout, t: Ftl, v: nat, acts: seq<GcAct>)
    requires GcOk(lay, t, v, acts)
    ensures v !in Collect(lay, t, v, acts).ls.victims
  {
    hide Layout.Valid, TablesOk, CountsOk, FillOk, PartsOk, VictimOk, Slack, Collect;
    CollectInv(lay, t, v, acts);
  }
}
