/**
 Whatever can be done with states kept up to the names of lines and pages, the translation layer can do: for every
 move there are logical pages to write, and an order of copies and erases.
 */
module FtlConf {
  import opened Arith
  import opened Base
  import opened FtlModel
  import opened FtlProofs
  import opened FtlGc
  import opened FtlEffects
  import opened FtlRuns
  import opened FtlLimits
  import opened Adversary

  /* ---------- what they stand for ---------- */

  ghost predicate Ipcs(line: seq<Counts>, c: seq<nat>, ids: seq<nat>)
  {
    |ids| == |c| && forall i :: 0 <= i < |ids| ==> ids[i] < |line| && line[ids[i]].ipc == c[i]
  }

  ghost predicate AllValid(line: seq<Counts>, still: set<nat>)
  {
    forall l :: l in still ==> l < |line| && line[l].ipc == 0
  }

  ghost predicate ClosedRep(closed: set<nat>, line: seq<Counts>, c: seq<nat>, still: set<nat>, ids: seq<nat>)
  {
    && NoDup(ids) && closed == still + SetOf(ids) && still !! SetOf(ids)
    && Ipcs(line, c, ids) && AllValid(line, still)
  }

  ghost predicate PointersRep(ls: Lists, line: seq<Counts>, a: Conf)
  {
    && ls.user.line < |line| && ls.user.pos == a.u && line[ls.user.line].ipc == a.ui
    && ls.gc.line < |line| && ls.gc.pos == a.g && line[ls.gc.line].ipc == a.gi
    && |ls.free| == a.f
  }

  /** State s is a; the lines in `still` are full and stay so, ids are the closed lines of a. */
  ghost predicate Rep(lay: Layout, s: Ftl, a: Conf, still: set<nat>, ids: seq<nat>)
  {
    && Inv(lay, s, None, {}) && s.credits == a.cr && s.refill == a.rf
    && PointersRep(s.ls, s.line, a) && ClosedRep(s.ls.full + s.ls.victims, s.line, a.c, still, ids)
    && First(View(s), a.m)
  }

  /** The first m logical pages were written. */
  ghost predicate First(view: map<nat, Payload>, m: nat)
  {
    forall l: nat :: l in view.Keys <==> l < m
  }

  /** What the invariant says about lines. */
  ghost predicate LinesOk(p: nat, ls: Lists, line: seq<Counts>)
  {
    && p > 0 && ls.user.line < |line| && ls.gc.line < |line| && ls.user.line != ls.gc.line
    && ls.user.line !in ls.full + ls.victims && ls.gc.line !in ls.full + ls.victims
    && (forall l :: 0 <= l < |line| ==> line[l].vpc >= 0 && line[l].ipc >= 0)
    && Sum(line[ls.user.line]) == ls.user.pos < p && Sum(line[ls.gc.line]) == ls.gc.pos < p
    && (forall l :: l in ls.full + ls.victims ==> l < |line| && Sum(line[l]) == p)
    && ls.full !! ls.victims && (forall l :: l in ls.victims <==> l in ls.full + ls.victims && line[l].ipc > 0)
    && (forall l :: l in ls.free ==> l < |line| && line[l].ipc == 0 && l !in ls.full + ls.victims)
  }

  lemma Lines(lay: Layout, s: Ftl)
    requires Inv(lay, s, None, {})
    ensures LinesOk(lay.perLine, s.ls, s.line) && |s.line| == lay.lines
  {
    forall l | 0 <= l < |s.line| ensures s.line[l].vpc >= 0 && s.line[l].ipc >= 0 {
      assert CountOk(lay.line, s.status, s.line[l], l);
    }
    hide TablesOk, CountsOk, FillOk, VictimOk, NoDup, RolesOk, PartsOk, LinesOk;
    LineFacts(lay.lines, lay.perLine, s.ls, s.line);
  }

  lemma LineFacts(lines: nat, p: nat, ls: Lists, line: seq<Counts>)
    requires RolesOk(lines, ls, None) && PartsOk(p, line, ls) && ListsShaped(lines, p, ls) && |line| == lines && p > 0
    requires forall l :: 0 <= l < |line| ==> line[l].vpc >= 0 && line[l].ipc >= 0
    ensures LinesOk(p, ls, line)
  {
    hide NoDup, SetOf;
    forall l | l in ls.free ensures l < |line| && line[l].ipc == 0 && l !in ls.full + ls.victims {
      InSetOf(ls.free, l);
    }
  }

  lemma PageIn(lay: Layout, s: Ftl, x: nat) returns (l: nat)
    requires Inv(lay, s, None, {}) && x < |s.line| && s.line[x].vpc > 0
    ensures l < |s.maptbl| && l in View(s).Keys && CopyIn(lay, s, l, x)
  {
    assert CountOk(lay.line, s.status, s.line[x], x);
    var p :| p in In(lay.line, s.status, x, PgValid);
    assert Owned(s.maptbl, s.rmap, p);
    l := s.rmap[p].value;
  }

  /* ---------- a write ---------- */

  ghost function FromLine(ls: Lists, ids: seq<nat>, from: From): Option<nat>
    requires from.InClosed? ==> from.i < |ids|
  {
    match from
    case New => None
    case InUser => Some(ls.user.line)
    case InGc => Some(ls.gc.line)
    case InClosed(i) => Some(ids[i])
  }

  ghost predicate OldCopy(lay: Layout, s: Ftl, l: nat, x: Option<nat>)
  {
    l < |s.maptbl| && if x.None? then s.maptbl[l].None? else CopyIn(lay, s, l, x.value)
  }

  /** A logical page whose old copy is there; a new page is the next one. */
  lemma Choose(lay: Layout, s: Ftl, a: Conf, still: set<nat>, ids: seq<nat>, from: From) returns (l: nat)
    requires |ids| == |a.c| && Enabled(lay.perLine, a, from) && (from.New? ==> a.m < |lay.line|)
    requires Rep(lay, s, a, still, ids)
    ensures (if from.New? then l == a.m else l < a.m) && OldCopy(lay, s, l, FromLine(s.ls, ids, from))
  {
    hide Layout.Valid, TablesOk, CountsOk, RolesOk, FillOk, PartsOk, VictimOk, View;
    Lines(lay, s);
    if from.New? {
      l := a.m;
      Written(lay, s, l);
    } else {
      var x := FromLine(s.ls, ids, from).value;
      l := PageIn(lay, s, x);
    }
  }

  /** The old copy made one page of line x invalid, and nothing else. */
  ghost predicate OneMore(line: seq<Counts>, r: seq<Counts>, x: Option<nat>)
  {
    |r| == |line| && forall v :: 0 <= v < |line| ==> r[v].ipc == line[v].ipc + One(Some(v) == x)
  }

  lemma HostPointers(p: nat, ls: Lists, line: seq<Counts>, a: Conf, ids: seq<nat>, from: From,
                     r: Lists, line': seq<Counts>)
    requires LinesOk(p, ls, line) && LinesOk(p, r, line') && PointersRep(ls, line, a) && |ids| == |a.c|
    requires Enabled(p, a, from) && (from.InClosed? ==> ids[from.i] in ls.full + ls.victims)
    requires HostLists(p, ls, r) && OneMore(line, line', FromLine(ls, ids, from))
    ensures PointersRep(r, line', Host(p, a, from))
  {
    var x, u, g := FromLine(ls, ids, from), ls.user.line, ls.gc.line;
    assert line'[u].ipc == line[u].ipc + One(from.InUser?) && line'[g].ipc == line[g].ipc + One(from.InGc?);
    hide OneMore, FromLine;
    if a.u + 1 == p {
      assert ls.free[0] in ls.free && Sum(line'[r.user.line]) == 0;
    }
  }

  lemma IpcsAfter(line: seq<Counts>, line': seq<Counts>, c: seq<nat>, ids: seq<nat>, x: Option<nat>)
    requires Ipcs(line, c, ids) && NoDup(ids) && OneMore(line, line', x)
    ensures (x.Some? ==> x.value !in ids) ==> Ipcs(line', c, ids)
    ensures forall i :: 0 <= i < |ids| && x == Some(ids[i]) ==> Ipcs(line', c[i := c[i] + 1], ids)
  {
    forall i | 0 <= i < |ids| && x == Some(ids[i]) ensures Ipcs(line', c[i := c[i] + 1], ids) {
      NoDupAt(ids, i);
    }
  }

  lemma HostClosed(p: nat, ls: Lists, line: seq<Counts>, a: Conf, still: set<nat>, ids: seq<nat>, from: From,
                   r: Lists, line': seq<Counts>)
    requires LinesOk(p, ls, line) && PointersRep(ls, line, a) && Enabled(p, a, from)
    requires |ids| == |a.c| && ClosedRep(ls.full + ls.victims, line, a.c, still, ids)
    requires HostLists(p, ls, r) && OneMore(line, line', FromLine(ls, ids, from))
    ensures var ids' := if a.u + 1 == p then ids + [ls.user.line] else ids;
            ClosedRep(r.full + r.victims, line', Host(p, a, from).c, still, ids')
  {
    hide NoDup, SetOf, Ipcs, AllValid, OneMore;
    var b, x, u := Drop(a, from), FromLine(ls, ids, from), ls.user.line;
    InSetOf(ids, u);
    InSetOf(ids, ls.gc.line);
    if from.InClosed? { InSetOf(ids, ids[from.i]); }
    IpcsAfter(line, line', a.c, ids, x);
    assert Ipcs(line', b.c, ids);
    assert AllValid(line', still) by { StillValid(line, line', still, x); }
    if a.u + 1 == p {
      SetOfAppend(ids, u);
      assert Ipcs(line', b.c + [b.ui], ids + [u]) by { IpcsAppend(line', b.c, ids, u, line, x, b.ui, a.ui); }
    }
  }

  lemma StillValid(line: seq<Counts>, line': seq<Counts>, still: set<nat>, x: Option<nat>)
    requires AllValid(line, still) && OneMore(line, line', x) && (x.Some? ==> x.value !in still)
    ensures AllValid(line', still)
  {
  }

  lemma IpcsAppend(line': seq<Counts>, c: seq<nat>, ids: seq<nat>, u: nat, line: seq<Counts>, x: Option<nat>,
                   ui': nat, ui: nat)
    requires Ipcs(line', c, ids) && OneMore(line, line', x) && u < |line| && line[u].ipc == ui
    requires ui' == ui + One(x == Some(u))
    ensures Ipcs(line', c + [ui'], ids + [u])
  {
  }

  lemma HostRep(lay: Layout, s: Ftl, a: Conf, still: set<nat>, ids: seq<nat>, from: From)
    returns (l: nat, ids': seq<nat>)
    requires |ids| == |a.c| && Enabled(lay.perLine, a, from) && (from.New? ==> a.m < |lay.line|)
    requires Rep(lay, s, a, still, ids)
    ensures Ready(lay, s, l) && l < Host(lay.perLine, a, from).m
    ensures Rep(lay, HostWrite(lay, s, l, 0), Host(lay.perLine, a, from), still, ids')
  {
    hide Layout.Valid, TablesOk, CountsOk, RolesOk, FillOk, PartsOk, VictimOk, View, HostWrite, LinesOk, ClosedRep;
    hide PointersRep, HostLists, First;
    l := Choose(lay, s, a, still, ids, from);
    assert Closes(lay, s) ==> s.ls.free != [] by { PointersFree(s.ls, s.line, a); }
    HostWriteInv(lay, s, l, 0);
    HostEffect(lay, s, l, 0);
    var h := HostWrite(lay, s, l, 0);
    Lines(lay, s);
    Lines(lay, h);
    assert OneMore(s.line, h.line, FromLine(s.ls, ids, from));
    ClosedIn(s.ls.full + s.ls.victims, s.line, a.c, still, ids);
    HostPointers(lay.perLine, s.ls, s.line, a, ids, from, h.ls, h.line);
    HostClosed(lay.perLine, s.ls, s.line, a, still, ids, from, h.ls, h.line);
    ids' := if a.u + 1 == lay.perLine then ids + [s.ls.user.line] else ids;
    FirstAfter(View(s), a.m, l, 0);
  }

  lemma FirstAfter(view: map<nat, Payload>, m: nat, l: nat, d: Payload)
    requires First(view, m) && l <= m
    ensures First(view[l := d], if l == m then m + 1 else m)
  {
  }

  lemma PointersFree(ls: Lists, line: seq<Counts>, a: Conf)
    requires PointersRep(ls, line, a)
    ensures ls.user.pos == a.u && |ls.free| == a.f && ls.gc.pos == a.g
  {
  }

  lemma ClosedIn(closed: set<nat>, line: seq<Counts>, c: seq<nat>, still: set<nat>, ids: seq<nat>)
    requires ClosedRep(closed, line, c, still, ids)
    ensures |ids| == |c| && forall i :: 0 <= i < |ids| ==> ids[i] in closed
  {
  }

  /* ---------- a collection ---------- */

  lemma WithoutSet(ids: seq<nat>, i: nat)
    requires NoDup(ids) && i < |ids|
    ensures NoDup(Without(ids, i)) && SetOf(Without(ids, i)) == SetOf(ids) - {ids[i]}
  {
    NoDupAt(ids, i);
    var r := Without(ids, i);
    forall x ensures x in r <==> x in ids && x != ids[i] {
      if x in ids && x != ids[i] {
        var j :| 0 <= j < |ids| && ids[j] == x;
        assert r[if j < i then j else j - 1] == x;
      }
    }
  }

  ghost predicate SameIpc(line: seq<Counts>, r: seq<Counts>, v: nat)
  {
    |r| == |line| && forall l :: 0 <= l < |line| && l != v ==> r[l].ipc == line[l].ipc
  }

  lemma GcIpcs(line: seq<Counts>, r: seq<Counts>, c: seq<nat>, ids: seq<nat>, i: nat)
    requires Ipcs(line, c, ids) && NoDup(ids) && i < |ids| && SameIpc(line, r, ids[i])
    ensures Ipcs(r, Without(c, i), Without(ids, i))
  {
    NoDupAt(ids, i);
  }

  lemma GcClosed(closed: set<nat>, line: seq<Counts>, c: seq<nat>, still: set<nat>, ids: seq<nat>, i: nat,
                 r: seq<Counts>)
    requires |ids| == |c| && i < |ids| && ClosedRep(closed, line, c, still, ids) && SameIpc(line, r, ids[i])
    ensures ClosedRep(closed - {ids[i]}, r, Without(c, i), still, Without(ids, i))
  {
    hide NoDup, SetOf, Ipcs;
    InSetOf(ids, ids[i]);
    WithoutSet(ids, i);
    GcIpcs(line, r, c, ids, i);
  }

  /** One more closed line. */
  lemma AddClosed(closed: set<nat>, line: seq<Counts>, c: seq<nat>, still: set<nat>, ids: seq<nat>, x: nat, n: nat)
    requires ClosedRep(closed, line, c, still, ids) && x !in closed && x < |line| && line[x].ipc == n
    ensures ClosedRep(closed + {x}, line, c + [n], still, ids + [x])
  {
    hide NoDup, SetOf;
    InSetOf(ids, x);
    SetOfAppend(ids, x);
  }

  lemma GcPointers(p: nat, ls: Lists, line: seq<Counts>, a: Conf, v: nat, i: nat, r: Lists, line': seq<Counts>)
    requires LinesOk(p, ls, line) && PointersRep(ls, line, a) && v in ls.victims
    requires i < |a.c| && a.c[i] <= p && GcListsAfter(p, ls, v, p - a.c[i], r) && SameIpc(line, line', v)
    ensures PointersRep(r, line', Collected(p, a, i))
  {
    assert line'[ls.user.line].ipc == line[ls.user.line].ipc && line'[ls.gc.line].ipc == line[ls.gc.line].ipc;
    if ls.gc.pos + (p - a.c[i]) >= p {
      var x := ls.free[0];
      assert x in ls.free && line'[x].ipc == line[x].ipc;
    }
  }

  lemma WorstIsBest(p: nat, s: Ftl, c: seq<nat>, still: set<nat>, ids: seq<nat>, i: nat)
    requires LinesOk(p, s.ls, s.line) && |ids| == |c|
    requires ClosedRep(s.ls.full + s.ls.victims, s.line, c, still, ids) && Worst(c, i)
    ensures Best(s, ids[i]) && s.line[ids[i]].vpc == p - c[i] >= 0
  {
    InSetOf(ids, ids[i]);
    forall u | u in s.ls.victims && u < |s.line| ensures s.line[ids[i]].vpc <= s.line[u].vpc {
      InSetOf(ids, u);
    }
  }

  lemma GcIds(p: nat, h: Ftl, a: Conf, still: set<nat>, ids: seq<nat>, i: nat, g: Ftl) returns (ids': seq<nat>)
    requires LinesOk(p, h.ls, h.line) && PointersRep(h.ls, h.line, a) && |ids| == |a.c| && i < |ids| && a.c[i] <= p
    requires ClosedRep(h.ls.full + h.ls.victims, h.line, a.c, still, ids) && ids[i] in h.ls.victims
    requires SameIpc(h.line, g.line, ids[i]) && GcListsAfter(p, h.ls, ids[i], p - a.c[i], g.ls)
    ensures ClosedRep(g.ls.full + g.ls.victims, g.line, Collected(p, a, i).c, still, ids')
  {
    hide ClosedRep;
    var closed := h.ls.full + h.ls.victims;
    GcClosed(closed, h.line, a.c, still, ids, i, g.line);
    ids' := Without(ids, i);
    if a.g + (p - a.c[i]) >= p {
      AddClosed(closed - {ids[i]}, g.line, Without(a.c, i), still, ids', h.ls.gc.line, a.gi);
      ids' := ids' + [h.ls.gc.line];
      assert ids[i] !in h.ls.full;
      assert g.ls.full + g.ls.victims == closed - {ids[i]} + {h.ls.gc.line};
    }
  }

  lemma GcRep(lay: Layout, h: Ftl, a: Conf, still: set<nat>, ids: seq<nat>, i: nat)
    returns (acts: seq<GcAct>, ids': seq<nat>)
    requires |ids| == |a.c| && Worst(a.c, i) && Rep(lay, h, a, still, ids)
    ensures Shaped(lay, h) && Best(h, ids[i]) && ids[i] < lay.lines
    ensures Complete(lay, ids[i], acts) && a.c[i] <= lay.perLine
    ensures Room(lay.perLine, a, i) ==>
              Rep(lay, Refilled(Gc(lay, h, ids[i], acts)), Collected(lay.perLine, a, i), still, ids')
    ensures !Room(lay.perLine, a, i) ==> !Gc(lay, h, ids[i], acts).ls.alive
  {
    hide Layout.Valid, TablesOk, CountsOk, RolesOk, FillOk, PartsOk, VictimOk, View, LinesOk, ClosedRep, Gc;
    hide PointersRep, First, GcListsAfter, Legal;
    Lines(lay, h);
    var p, v := lay.perLine, ids[i];
    WorstIsBest(p, h, a.c, still, ids, i);
    acts := CompleteExists(lay, v);
    GcAlive(lay, h, v, acts);
    PointersFree(h.ls, h.line, a);
    ids' := ids;
    if Room(p, a, i) {
      GcSound(lay, h, v, acts);
      GcEffect(lay, h, v, acts);
      var g := Gc(lay, h, v, acts);
      SpendInv(lay, g, g.credits + g.refill, g.refill);
      GcPointers(p, h.ls, h.line, a, v, i, g.ls, g.line);
      ids' := GcIds(p, h, a, still, ids, i, g);
    }
  }

  /* ---------- runs ---------- */

  ghost predicate RunTo(lay: Layout, n: nat, states: seq<Ftl>, writes: seq<Write>)
  {
    && lay.Valid() && lay.lines >= 2 && n <= |lay.line|
    && |states| == |writes| + 1 && Run(lay, states, writes) && states[0] == Init(lay)
    && forall i :: 0 <= i < |writes| ==> writes[i].lpn < n
  }

  ghost predicate Shows(lay: Layout, n: nat, a: Conf, states: seq<Ftl>, writes: seq<Write>, still: set<nat>,
                        ids: seq<nat>)
  {
    && RunTo(lay, n, states, writes) && |ids| == |a.c| && a.m <= n
    && Rep(lay, states[|writes|], a, still, ids)
  }

  /** Some run that writes only the first n logical pages ends in a. */
  ghost predicate Reaches(lay: Layout, n: nat, a: Conf)
  {
    exists states: seq<Ftl>, writes: seq<Write>, still: set<nat>, ids: seq<nat> ::
      Shows(lay, n, a, states, writes, still, ids)
  }

  /** Some run that writes only the first n logical pages runs out of free lines. */
  ghost predicate Exhausts(lay: Layout, n: nat)
  {
    exists states: seq<Ftl>, writes: seq<Write> :: RunTo(lay, n, states, writes) && !states[|writes|].ls.alive
  }

  lemma RunMore(lay: Layout, n: nat, states: seq<Ftl>, writes: seq<Write>, l: nat, r: Ftl)
    requires RunTo(lay, n, states, writes) && l < n
    requires Ready(lay, states[|writes|], l) && Next(lay, states[|writes|], l, 0, r)
    ensures RunTo(lay, n, states + [r], writes + [Write(l, 0)])
  {
    hide Layout.Valid, Run, Init, Ready, Next;
    RunExtend(lay, states, writes, Write(l, 0), r);
  }

  lemma Started(lay: Layout, n: nat)
    requires lay.Valid() && lay.lines >= 2 && n <= |lay.line|
    ensures Reaches(lay, n, Fresh(lay.perLine, lay.lines))
  {
    hide Layout.Valid, Inv, View;
    InitInv(lay);
    var a := Fresh(lay.perLine, lay.lines);
    assert SetOf<nat>([]) == {};
    assert Shows(lay, n, a, [Init(lay)], [], {}, []);
  }

  /** The write itself, and what is left to decide: whether new credits are due. */
  lemma {:induction false} HostStep(lay: Layout, n: nat, a: Conf, from: From)
    returns (states: seq<Ftl>, writes: seq<Write>, still: set<nat>, l: nat, ids: seq<nat>)
    requires Reaches(lay, n, a) && Enabled(lay.perLine, a, from) && Host(lay.perLine, a, from).m <= n
    ensures RunTo(lay, n, states, writes) && l < n && Ready(lay, states[|writes|], l)
    ensures var b := Host(lay.perLine, a, from);
            |ids| == |b.c| && Rep(lay, HostWrite(lay, states[|writes|], l, 0), b, still, ids)
  {
    hide Layout.Valid, Run, Init, Rep, HostWrite;
    var ids0;
    states, writes, still, ids0 :| Shows(lay, n, a, states, writes, still, ids0);
    l, ids := HostRep(lay, states[|writes|], a, still, ids0, from);
    SameSize(lay, HostWrite(lay, states[|writes|], l, 0), Host(lay.perLine, a, from), still, ids);
  }

  lemma SameSize(lay: Layout, s: Ftl, a: Conf, still: set<nat>, ids: seq<nat>)
    requires Rep(lay, s, a, still, ids)
    ensures |ids| == |a.c| && Shaped(lay, s) && s.credits == a.cr && s.refill == a.rf && |s.ls.free| == a.f
  {
  }

  /** A write that leaves credits. */
  lemma WriteLifts(lay: Layout, n: nat, a: Conf, from: From)
    requires Reaches(lay, n, a) && Enabled(lay.perLine, a, from) && Host(lay.perLine, a, from).m <= n && a.cr > 1
    ensures Reaches(lay, n, Host(lay.perLine, a, from))
  {
    hide Layout.Valid, Run, Init, Rep, HostWrite;
    var b := Host(lay.perLine, a, from);
    var states, writes, still, l, ids := HostStep(lay, n, a, from);
    var h := HostWrite(lay, states[|writes|], l, 0);
    SameSize(lay, h, b, still, ids);
    RunMore(lay, n, states, writes, l, h);
    assert Shows(lay, n, b, states + [h], writes + [Write(l, 0)], still, ids);
  }

  /** A write that uses up the credits when there is nothing to collect, or no need to. */
  lemma RefillLifts(lay: Layout, n: nat, a: Conf, from: From)
    requires Reaches(lay, n, a) && Enabled(lay.perLine, a, from) && Host(lay.perLine, a, from).m <= n && a.cr <= 1
    requires var b := Host(lay.perLine, a, from); b.f > 2 || AllFull(b.c)
    ensures var b := Host(lay.perLine, a, from); Reaches(lay, n, b.(cr := b.cr + b.rf))
  {
    hide Layout.Valid, Run, Init, Rep, HostWrite;
    var b := Host(lay.perLine, a, from);
    var states, writes, still, l, ids := HostStep(lay, n, a, from);
    var h := HostWrite(lay, states[|writes|], l, 0);
    SameSize(lay, h, b, still, ids);
    if b.f <= 2 { NoneToCollect(lay, h, b, still, ids); }
    RefillRep(lay, h, b, still, ids);
    RunMore(lay, n, states, writes, l, Refilled(h));
    assert Shows(lay, n, b.(cr := b.cr + b.rf), states + [Refilled(h)], writes + [Write(l, 0)], still, ids);
  }

  lemma NoneToCollect(lay: Layout, h: Ftl, b: Conf, still: set<nat>, ids: seq<nat>)
    requires Rep(lay, h, b, still, ids) && AllFull(b.c)
    ensures h.ls.victims == {}
  {
    hide Layout.Valid, TablesOk, CountsOk, RolesOk, FillOk, PartsOk, VictimOk, View;
    Lines(lay, h);
    forall v | v in h.ls.victims ensures false {
      InSetOf(ids, v);
    }
  }

  lemma RefillRep(lay: Layout, h: Ftl, b: Conf, still: set<nat>, ids: seq<nat>)
    requires Rep(lay, h, b, still, ids)
    ensures Rep(lay, Refilled(h), b.(cr := b.cr + b.rf), still, ids)
  {
    hide Layout.Valid, TablesOk, CountsOk, RolesOk, FillOk, PartsOk, VictimOk, View, ClosedRep;
    SpendInv(lay, h, h.credits + h.refill, h.refill);
  }

  /** A write that uses up the credits and makes the i-th closed line be collected. */
  lemma CollectLifts(lay: Layout, n: nat, a: Conf, from: From, i: nat)
    requires Reaches(lay, n, a) && Enabled(lay.perLine, a, from) && Host(lay.perLine, a, from).m <= n && a.cr <= 1
    requires var b := Host(lay.perLine, a, from); b.f <= 2 && Worst(b.c, i)
    ensures var b := Host(lay.perLine, a, from);
            && b.c[i] <= lay.perLine
            && (Room(lay.perLine, b, i) ==> Reaches(lay, n, Collected(lay.perLine, b, i)))
            && (!Room(lay.perLine, b, i) ==> Exhausts(lay, n))
  {
    hide Layout.Valid, Run, Init, Rep, HostWrite, Gc, Legal;
    var b := Host(lay.perLine, a, from);
    var states, writes, still, l, ids := HostStep(lay, n, a, from);
    var h := HostWrite(lay, states[|writes|], l, 0);
    SameSize(lay, h, b, still, ids);
    var acts, ids' := GcRep(lay, h, b, still, ids, i);
    var r := Refilled(Gc(lay, h, ids[i], acts));
    assert Collects(lay, h, ids[i], acts, r);
    RunMore(lay, n, states, writes, l, r);
    var st, wr := states + [r], writes + [Write(l, 0)];
    if Room(lay.perLine, b, i) {
      SameSize(lay, r, Collected(lay.perLine, b, i), still, ids');
      assert Shows(lay, n, Collected(lay.perLine, b, i), st, wr, still, ids');
    } else {
      assert !st[|wr|].ls.alive;
    }
  }

  /** A full line that is to stay full can be forgotten. */
  lemma ForgetLifts(lay: Layout, n: nat, a: Conf)
    requires Reaches(lay, n, a) && a.c == [0]
    ensures Reaches(lay, n, a.(c := []))
  {
    hide Layout.Valid, Run, Init, Inv, View;
    var states, writes, still, ids :| Shows(lay, n, a, states, writes, still, ids);
    assert ids == [ids[0]];
    assert SetOf(ids) == {ids[0]} && SetOf<nat>([]) == {};
    assert Shows(lay, n, a.(c := []), states, writes, still + {ids[0]}, []);
  }

  lemma GoLifts(lay: Layout, n: nat, a: Conf, move: Move, b: Conf)
    requires Reaches(lay, n, a) && Go(lay.perLine, n, a, move) == Some(b)
    ensures Reaches(lay, n, b)
  {
    hide Reaches, Exhausts;
    match move
    case LeaveFull => ForgetLifts(lay, n, a);
    case Overwrite(from, pick) =>
      var h := Host(lay.perLine, a, from);
      if h.cr > 0 {
        WriteLifts(lay, n, a, from);
      } else if h.f > 2 || AllFull(h.c) {
        RefillLifts(lay, n, a, from);
      } else {
        CollectLifts(lay, n, a, from, pick);
      }
  }

  lemma {:induction false} WalkLifts(lay: Layout, n: nat, a: Conf, moves: seq<Move>, b: Conf)
    requires Reaches(lay, n, a) && Walk(lay.perLine, n, a, moves) == Some(b)
    ensures Reaches(lay, n, b)
  {
    hide Reaches, Go;
    if moves == [] {
    } else {
      var k := |moves| - 1;
      var mid := Walk(lay.perLine, n, a, moves[..k]).value;
      WalkLifts(lay, n, a, moves[..k], mid);
      GoLifts(lay, n, mid, moves[k], b);
    }
  }
}
