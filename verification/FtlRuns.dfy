/**
 Whole runs of host writes.  The write credits make collection keep up: while no more than
 (lines - 4) * pages-per-line distinct logical pages are written, no write pointer ever finds
 the free list empty, and the host always reads back what it wrote last.
 */
module FtlRuns {
  import opened Arith
  import opened Base
  import opened FtlModel
  import opened FtlProofs
  import opened FtlGc
  import opened FtlEffects

  /** Collection starts when at most this many lines are free. */
  const GC_THRES_LINES_HIGH := 2

  ghost predicate SpaceOk(lay: Layout, s: Ftl)
  {
    && s.credits >= 1
    && 1 <= s.refill <= lay.perLine
    && FreePages(lay, s) - s.credits >= 2 * lay.perLine + 1
  }

  ghost predicate Ready(lay: Layout, s: Ftl, l: nat)
  {
    && Shaped(lay, s) && l < |s.maptbl|
    && (s.maptbl[l].Some? ==> s.maptbl[l].value < |lay.line|)
  }

  /** The line that collection takes: one with the fewest valid pages. */
  ghost predicate Best(s: Ftl, v: nat)
  {
    && v in s.ls.victims && v < |s.line|
    && forall u :: u in s.ls.victims && u < |s.line| ==> s.line[v].vpc <= s.line[u].vpc
  }

  ghost predicate Collects(lay: Layout, h: Ftl, v: nat, acts: seq<GcAct>, r: Ftl)
    requires Shaped(lay, h)
  {
    && Best(h, v) && Complete(lay, v, acts)
    && r == Refilled(Gc(lay, h, v, acts))
  }

  ghost function Refilled(s: Ftl): Ftl { s.(credits := s.credits + s.refill) }

  ghost predicate MustCollect(h: Ftl) {
    h.credits <= 0 && |h.ls.free| <= GC_THRES_LINES_HIGH
  }

  /** One logical page of a host write, with the refill of credits that may follow it. */
  ghost predicate Next(lay: Layout, s: Ftl, l: nat, d: Payload, r: Ftl)
    requires Ready(lay, s, l)
  {
    var h := HostWrite(lay, s, l, d);
    if h.credits > 0 then r == h
    else if MustCollect(h) && h.ls.victims != {} then exists v, acts :: Collects(lay, h, v, acts, r)
    else r == Refilled(h)
  }

  /* ---------- why a victim always exists ---------- */

  ghost function ValidIn(lay: Layout, s: Ftl, lines: set<nat>): set<nat>
    requires |s.status| == |lay.line|
  {
    set i | 0 <= i < |s.status| && lay.line[i] in lines && s.status[i] == PgValid
  }

  lemma ValidNone(lay: Layout, s: Ftl)
    requires |s.status| == |lay.line|
    ensures ValidIn(lay, s, {}) == {}
  {
  }

  lemma ValidSplit(lay: Layout, s: Ftl, lines: set<nat>, l: nat)
    requires |s.status| == |lay.line| && l in lines
    ensures ValidIn(lay, s, lines) == ValidIn(lay, s, lines - {l}) + In(lay.line, s.status, l, PgValid)
    ensures ValidIn(lay, s, lines - {l}) !! In(lay.line, s.status, l, PgValid)
  {
  }

  lemma {:induction false} ValidInFull(lay: Layout, s: Ftl, lines: set<nat>)
    requires |s.status| == |lay.line|
    requires forall l :: l in lines ==> |In(lay.line, s.status, l, PgValid)| == lay.perLine
    ensures |ValidIn(lay, s, lines)| == |lines| * lay.perLine
  {
    hide ValidIn, In;
    if lines == {} {
      ValidNone(lay, s);
    } else {
      var l :| l in lines;
      ValidInFull(lay, s, lines - {l});
      ValidSplit(lay, s, lines, l);
      assert |lines - {l}| == |lines| - 1;
      Dist(|lines|, -1, lay.perLine);
    }
  }

  ghost function Owners(rmap: seq<Option<nat>>, pages: set<nat>): set<nat>
  {
    set i | i in pages && i < |rmap| && rmap[i].Some? :: rmap[i].value
  }

  lemma {:induction false} OwnersDistinct(s: Ftl, pages: set<nat>)
    requires |s.maptbl| == |s.rmap| == |s.status|
    requires forall i :: i in pages ==> i < |s.rmap| && Owned(s.maptbl, s.rmap, i)
    ensures |Owners(s.rmap, pages)| == |pages|
  {
    if pages == {} {
      assert Owners(s.rmap, pages) == {};
    } else {
      var p :| p in pages;
      OwnersDistinct(s, pages - {p});
      assert Owned(s.maptbl, s.rmap, p);
      assert Owners(s.rmap, pages) == Owners(s.rmap, pages - {p}) + {s.rmap[p].value};
      assert s.rmap[p].value !in Owners(s.rmap, pages - {p});
    }
  }

  lemma FullOwners(lay: Layout, s: Ftl)
    requires Inv(lay, s, None, {})
    ensures var owners := Owners(s.rmap, ValidIn(lay, s, s.ls.full));
            && |owners| == |s.ls.full| * lay.perLine && owners <= View(s).Keys
            && forall l :: l in owners ==> l < |s.maptbl| && exists v :: v in s.ls.full && CopyIn(lay, s, l, v)
  {
    var full := s.ls.full;
    forall l | l in full
      ensures |In(lay.line, s.status, l, PgValid)| == lay.perLine
    {
      assert CountOk(lay.line, s.status, s.line[l], l);
    }
    ValidInFull(lay, s, full);
    var pages := ValidIn(lay, s, full);
    forall i | i in pages
      ensures i < |s.rmap| && Owned(s.maptbl, s.rmap, i) && CopyIn(lay, s, s.rmap[i].value, lay.line[i])
    {
    }
    OwnersDistinct(s, pages);
  }

  /** Full lines hold one live logical page per physical page. */
  lemma FullLinesMapped(lay: Layout, s: Ftl)
    requires Inv(lay, s, None, {})
    ensures |s.ls.full| * lay.perLine <= |View(s).Keys|
  {
    hide Layout.Valid, TablesOk, CountsOk, RolesOk, FillOk, PartsOk, VictimOk, View, Owners, ValidIn;
    FullOwners(lay, s);
    SubsetSize(Owners(s.rmap, ValidIn(lay, s, s.ls.full)), View(s).Keys);
  }

  /** And if logical page l lives elsewhere, that is not all. */
  lemma FullLinesLess(lay: Layout, s: Ftl, l: nat, v: nat)
    requires Inv(lay, s, None, {}) && l in View(s).Keys && CopyIn(lay, s, l, v) && v !in s.ls.full
    ensures |s.ls.full| * lay.perLine < |View(s).Keys|
  {
    hide Layout.Valid, TablesOk, CountsOk, RolesOk, FillOk, PartsOk, VictimOk, View, Owners, ValidIn;
    FullOwners(lay, s);
    assert l !in Owners(s.rmap, ValidIn(lay, s, s.ls.full));
    SubsetSize(Owners(s.rmap, ValidIn(lay, s, s.ls.full)), View(s).Keys - {l});
  }

  /** With at most two free lines and no victim, almost every physical page is live. */
  lemma VictimExists(lay: Layout, s: Ftl)
    requires Inv(lay, s, None, {})
    requires |s.ls.free| <= GC_THRES_LINES_HIGH
    requires |View(s).Keys| < (lay.lines - 4) * lay.perLine
    ensures s.ls.victims != {}
  {
    hide Shaped, TablesOk, CountsOk, FillOk, PartsOk, VictimOk, Partition, NoDup, View;
    if s.ls.victims == {} {
      FullLinesMapped(lay, s);
      assert |s.ls.full| >= lay.lines - 4;
      MulLe(lay.lines - 4, |s.ls.full|, lay.perLine);
    }
  }

  /** One more page, and there may be none; but then the page just written closed its line and two lines are free. */
  lemma NoVictimAfterClose(lay: Layout, s: Ftl, l: nat, d: Payload)
    requires Inv(lay, s, None, {}) && l < |s.maptbl| && (Closes(lay, s) ==> s.ls.free != [])
    requires |View(s).Keys + {l}| <= (lay.lines - 4) * lay.perLine
    ensures s.maptbl[l].Some? ==> s.maptbl[l].value < |lay.line|
    ensures var h := HostWrite(lay, s, l, d);
            h.ls.victims == {} && |h.ls.free| <= GC_THRES_LINES_HIGH ==> h.ls.user.pos == 0 && |h.ls.free| == 2
  {
    hide Layout.Valid, TablesOk, CountsOk, RolesOk, FillOk, PartsOk, VictimOk, View, HostWrite;
    HostWriteInv(lay, s, l, d);
    HostEffect(lay, s, l, d);
    var h := HostWrite(lay, s, l, d);
    if h.ls.victims == {} && |h.ls.free| <= GC_THRES_LINES_HIGH {
      assert View(h).Keys == View(s).Keys + {l};
      FullCount(lay, h);
      FullLinesMapped(lay, h);
      if h.ls.user.line == s.ls.user.line {
        FullLinesLess(lay, h, l, h.ls.user.line);
        MulLe(lay.lines - 4, |h.ls.full|, lay.perLine);
      } else if |h.ls.full| > lay.lines - 4 {
        MulLe(lay.lines - 3, |h.ls.full|, lay.perLine);
        Dist(lay.lines - 4, 1, lay.perLine);
      }
    }
  }

  lemma FullCount(lay: Layout, s: Ftl)
    requires Inv(lay, s, None, {})
    ensures |s.ls.free| + |s.ls.full| + |s.ls.victims| + 2 == lay.lines && lay.perLine > 0
    ensures s.ls.user.line !in s.ls.full
  {
  }

  /* ---------- one write ---------- */

  /** Line v can be collected right after a write of l: it is closed by then and has an invalid page. */
  ghost predicate VictimAfter(lay: Layout, s: Ftl, l: nat, v: nat)
    requires l < |s.maptbl|
  {
    && v < |s.line| && CountsAfter(lay, s, l, v).vpc < lay.perLine
    && (v in s.ls.full + s.ls.victims || (Closes(lay, s) && v == s.ls.user.line))
  }

  ghost predicate BestAfter(lay: Layout, s: Ftl, l: nat, v: nat)
    requires l < |s.maptbl|
  {
    && VictimAfter(lay, s, l, v)
    && forall u :: VictimAfter(lay, s, l, u) ==> CountsAfter(lay, s, l, v).vpc <= CountsAfter(lay, s, l, u).vpc
  }

  /**
   What a write of l, and the collection that may follow, need not to run out of free lines: a free line if the
   user line closes, and room for the valid pages of the line collected.
   */
  ghost predicate NextRoom(lay: Layout, s: Ftl, l: nat)
    requires l < |s.maptbl|
  {
    && (Closes(lay, s) ==> s.ls.free != [])
    && var free := |s.ls.free| - One(Closes(lay, s));
       s.credits <= 1 && free <= GC_THRES_LINES_HIGH ==>
         forall v :: BestAfter(lay, s, l, v) ==>
                       s.ls.gc.pos + CountsAfter(lay, s, l, v).vpc < (free + 1) * lay.perLine
  }

  lemma RoomClose(lay: Layout, s: Ftl, l: nat)
    requires l < |s.maptbl| && NextRoom(lay, s, l)
    ensures Closes(lay, s) ==> s.ls.free != []
  {
  }

  lemma VictimsAfter(lay: Layout, s: Ftl, l: nat, d: Payload, v: nat)
    requires Inv(lay, s, None, {}) && l < |s.maptbl| && (Closes(lay, s) ==> s.ls.free != [])
    ensures s.maptbl[l].Some? ==> s.maptbl[l].value < |lay.line|
    ensures v in HostWrite(lay, s, l, d).ls.victims <==> VictimAfter(lay, s, l, v)
    ensures VictimAfter(lay, s, l, v) ==> v < |s.line|
  {
    hide Layout.Valid, TablesOk, CountsOk, FillOk, VictimOk, View, HostWrite, CountsAfter;
    HostWriteInv(lay, s, l, d);
    HostEffect(lay, s, l, d);
    var h := HostWrite(lay, s, l, d);
    assert v in h.ls.full + h.ls.victims <==> v in s.ls.full + s.ls.victims || (Closes(lay, s) && v == s.ls.user.line);
    hide HostLists;
    if v in h.ls.full + h.ls.victims { OldLine(lay, h, v); }
  }

  lemma BestSame(lay: Layout, s: Ftl, l: nat, h: Ftl, v: nat)
    requires l < |s.maptbl| && |h.line| == |s.line|
    requires forall u :: 0 <= u < |s.line| ==> h.line[u] == CountsAfter(lay, s, l, u)
    requires forall u :: u in h.ls.victims <==> VictimAfter(lay, s, l, u)
    ensures Best(h, v) <==> BestAfter(lay, s, l, v)
  {
    assert VictimAfter(lay, s, l, v) ==> v < |s.line|;
    assert forall u: nat :: VictimAfter(lay, s, l, u) ==> u < |s.line|;
    hide VictimAfter, CountsAfter;
  }

  /** That is: once the host write is through, every line that may be collected has room. */
  lemma RoomAfterHost(lay: Layout, s: Ftl, l: nat, d: Payload)
    requires Inv(lay, s, None, {}) && l < |s.maptbl| && (Closes(lay, s) ==> s.ls.free != [])
    ensures s.maptbl[l].Some? ==> s.maptbl[l].value < |lay.line|
    ensures var h := HostWrite(lay, s, l, d);
            && (forall v :: Best(h, v) <==> BestAfter(lay, s, l, v))
            && (NextRoom(lay, s, l) <==> (MustCollect(h) ==> forall v :: Best(h, v) ==> GcRoom(lay, h, v)))
  {
    hide Layout.Valid, TablesOk, CountsOk, RolesOk, FillOk, PartsOk, VictimOk, View, HostWrite, VictimAfter;
    hide CountsAfter, Best, BestAfter;
    HostWriteInv(lay, s, l, d);
    HostEffect(lay, s, l, d);
    var h := HostWrite(lay, s, l, d);
    forall v: nat ensures v in h.ls.victims <==> VictimAfter(lay, s, l, v) {
      VictimsAfter(lay, s, l, d, v);
    }
    forall v: nat ensures Best(h, v) <==> BestAfter(lay, s, l, v) {
      BestSame(lay, s, l, h, v);
    }
    assert forall v: nat :: BestAfter(lay, s, l, v) ==> v < |s.line| by { BestInRange(lay, s, l); }
  }

  lemma BestInRange(lay: Layout, s: Ftl, l: nat)
    requires l < |s.maptbl|
    ensures forall v: nat :: BestAfter(lay, s, l, v) ==> v < |s.line|
  {
  }

  /** With that room one write keeps the invariant and changes the view at l only. */
  lemma NextSound(lay: Layout, s: Ftl, l: nat, d: Payload, r: Ftl)
    requires Inv(lay, s, None, {}) && Ready(lay, s, l) && Next(lay, s, l, d, r) && NextRoom(lay, s, l)
    ensures Inv(lay, r, None, {}) && View(r) == View(s)[l := d]
  {
    hide Layout.Valid, TablesOk, CountsOk, RolesOk, FillOk, PartsOk, VictimOk, View, HostWrite, Gc, GcRoom;
    HostWriteInv(lay, s, l, d);
    RoomAfterHost(lay, s, l, d);
    hide NextRoom;
    var h := HostWrite(lay, s, l, d);
    if h.credits <= 0 && MustCollect(h) && h.ls.victims != {} {
      var v, acts :| Collects(lay, h, v, acts, r);
      GcSound(lay, h, v, acts);
      var g := Gc(lay, h, v, acts);
      SpendInv(lay, g, g.credits + g.refill, g.refill);
    } else if h.credits <= 0 {
      SpendInv(lay, h, h.credits + h.refill, h.refill);
    }
  }

  /* ---------- why the credits keep enough room ---------- */

  /** The user line never runs out while there are credits. */
  lemma UserRoom(lay: Layout, s: Ftl)
    requires Shaped(lay, s) && SpaceOk(lay, s)
    ensures s.ls.user.pos + 1 == lay.perLine ==> s.ls.free != []
  {
    hide Layout.Valid;
  }

  lemma CollectRoom(lay: Layout, h: Ftl, v: nat)
    requires Inv(lay, h, None, {}) && v in h.ls.victims && FreePages(lay, h) >= 2 * lay.perLine
    ensures v < |h.line| && GcRoom(lay, h, v)
  {
    hide Layout.Valid, TablesOk, CountsOk, RolesOk, FillOk, VictimOk;
    Dist(|h.ls.free|, 1, lay.perLine);
  }

  lemma RefillRoom(lay: Layout, h: Ftl)
    requires Shaped(lay, h) && h.credits == 0 && 1 <= h.refill <= lay.perLine
    requires |h.ls.free| > GC_THRES_LINES_HIGH || (|h.ls.free| == 2 && h.ls.user.pos == 0)
    ensures SpaceOk(lay, Refilled(h))
  {
    hide Layout.Valid;
    if |h.ls.free| > 2 {
      MulLe(3, |h.ls.free|, lay.perLine);
    }
  }

  /** One write keeps the space bound, and with it every write has the room it needs. */
  lemma NextInv(lay: Layout, s: Ftl, l: nat, d: Payload, r: Ftl)
    requires Inv(lay, s, None, {}) && SpaceOk(lay, s) && Ready(lay, s, l) && Next(lay, s, l, d, r)
    requires |View(s).Keys + {l}| <= (lay.lines - 4) * lay.perLine
    ensures NextRoom(lay, s, l)
    ensures Inv(lay, r, None, {}) && SpaceOk(lay, r) && View(r) == View(s)[l := d]
  {
    hide Layout.Valid, TablesOk, CountsOk, RolesOk, FillOk, PartsOk, VictimOk, View, HostWrite, Gc, GcRoom, NextRoom;
    BoundRoom(lay, s, l, d);
    NextSound(lay, s, l, d, r);
    UserRoom(lay, s);
    HostWriteInv(lay, s, l, d);
    NoVictimAfterClose(lay, s, l, d);
    var h := HostWrite(lay, s, l, d);
    if h.credits <= 0 && MustCollect(h) && h.ls.victims != {} {
      var v, acts :| Collects(lay, h, v, acts, r);
      CollectRoom(lay, h, v);
      GcSound(lay, h, v, acts);
      hide Collects;
      assert FreePages(lay, r) == FreePages(lay, Gc(lay, h, v, acts));
    } else if h.credits <= 0 {
      RefillRoom(lay, h);
    }
  }

  lemma BoundRoom(lay: Layout, s: Ftl, l: nat, d: Payload)
    requires Inv(lay, s, None, {}) && SpaceOk(lay, s) && l < |s.maptbl|
    ensures NextRoom(lay, s, l)
  {
    hide Layout.Valid, TablesOk, CountsOk, RolesOk, FillOk, PartsOk, VictimOk, View, HostWrite, GcRoom, NextRoom;
    UserRoom(lay, s);
    HostWriteInv(lay, s, l, d);
    RoomAfterHost(lay, s, l, d);
    var h := HostWrite(lay, s, l, d);
    if MustCollect(h) {
      forall v | Best(h, v) ensures GcRoom(lay, h, v) {
        CollectRoom(lay, h, v);
      }
    }
  }

  /* ---------- whole runs ---------- */

  datatype Write = Write(lpn: nat, data: Payload)

  /** The state conv_init_ftl builds: line 0 open for the host, line 1 for collection, the rest free. */
  ghost function Init(lay: Layout): Ftl
    requires lay.lines >= 2
  {
    var n, p := |lay.line|, lay.perLine;
    Ftl(seq(n, _ => None), seq(n, _ => None), seq(n, _ => PgFree), seq(n, _ => 0),
        seq(|lay.blockLine|, _ => Counts(0, 0)), seq(lay.lines, _ => Counts(0, 0)),
        Lists(seq(lay.lines - 2, i => i + 2), {}, {}, Wp(0, 0), Wp(1, 0), true), p, p)
  }

  lemma InitInv(lay: Layout)
    requires lay.Valid() && lay.lines >= 2
    ensures Inv(lay, Init(lay), None, {}) && View(Init(lay)) == map[]
    ensures lay.lines > 4 ==> SpaceOk(lay, Init(lay))
  {
    hide RolesOk, CountsOk, FillOk, TablesOk, SpaceOk, PartsOk, ListsShaped, Layout.Valid;
    Sizes(lay);
    var s := Init(lay);
    InitCounts(lay.block, s.status, s.blk);
    InitCounts(lay.line, s.status, s.line);
    InitRoles(lay.lines, s.ls);
    InitParts(lay.lines, lay.perLine, s.line, s.ls);
    InitFill(lay, s.status, s.line);
    InitTables(s.maptbl, s.rmap, s.status);
    assert View(s) == map[];
    if lay.lines > 4 {
      InitRoom(lay);
    }
  }

  lemma Sizes(lay: Layout)
    requires lay.Valid()
    ensures lay.lines > 0 && lay.perLine > 0
  {
  }

  lemma InitParts(lines: nat, perLine: nat, line: seq<Counts>, ls: Lists)
    requires |line| == lines >= 2 && perLine > 0 && forall l :: 0 <= l < lines ==> line[l] == Counts(0, 0)
    requires ls == Lists(seq(lines - 2, i => i + 2), {}, {}, Wp(0, 0), Wp(1, 0), true)
    ensures ListsShaped(lines, perLine, ls) && PartsOk(perLine, line, ls)
  {
    assert forall l :: l in ls.free ==> 2 <= l < lines;
  }

  lemma InitTables(m: seq<Option<nat>>, rmap: seq<Option<nat>>, status: seq<Status>)
    requires |m| == |rmap| == |status|
    requires forall i :: 0 <= i < |m| ==> m[i].None? && status[i] == PgFree
    ensures TablesOk(m, rmap, status, {})
  {
  }

  lemma InitFill(lay: Layout, status: seq<Status>, line: seq<Counts>)
    requires lay.Valid() && |status| == |lay.line| && |line| == lay.lines
    requires forall i :: 0 <= i < |status| ==> status[i] == PgFree
    requires forall l :: 0 <= l < |line| ==> line[l] == Counts(0, 0)
    ensures FillOk(lay, status, line, None)
  {
    forall i | 0 <= i < |status|
      ensures PageFilled(lay, status, line, i)
    {
      assert lay.OkPage(i);
    }
  }

  lemma InitCounts(group: seq<nat>, status: seq<Status>, counts: seq<Counts>)
    requires forall i :: 0 <= i < |status| ==> status[i] == PgFree
    requires forall b :: 0 <= b < |counts| ==> counts[b] == Counts(0, 0)
    ensures CountsOk(group, status, counts, None)
  {
    forall b: nat | b < |counts|
      ensures CountOk(group, status, counts[b], b)
    {
      assert In(group, status, b, PgValid) == {} && In(group, status, b, PgInvalid) == {};
    }
  }

  lemma InitRoles(lines: nat, ls: Lists)
    requires lines >= 2
    requires ls == Lists(seq(lines - 2, i => i + 2), {}, {}, Wp(0, 0), Wp(1, 0), true)
    ensures RolesOk(lines, ls, None)
  {
    forall l | 2 <= l < lines
      ensures l in SetOf(ls.free)
    {
      assert ls.free[l - 2] == l;
    }
  }

  lemma InitRoom(lay: Layout)
    requires lay.lines > 4 && lay.perLine > 0
    ensures SpaceOk(lay, Init(lay))
  {
    MulLe(3, lay.lines - 2, lay.perLine);
  }

  ghost predicate Run(lay: Layout, states: seq<Ftl>, writes: seq<Write>)
  {
    && |states| == |writes| + 1
    && forall k :: 0 <= k < |writes| ==> RunStep(lay, states[k], writes[k], states[k + 1])
  }
  ghost predicate RunStep(lay: Layout, s: Ftl, w: Write, r: Ftl)
  {
    Ready(lay, s, w.lpn) && Next(lay, s, w.lpn, w.data, r)
  }

  ghost function Lpns(writes: seq<Write>): set<nat> {
    set w | w in writes :: w.lpn
  }

  /** What a plain map would hold after these writes. */
  ghost function Replay(writes: seq<Write>): map<nat, Payload>
  {
    if writes == [] then map[]
    else Replay(writes[..|writes| - 1])[writes[|writes| - 1].lpn := writes[|writes| - 1].data]
  }

  lemma {:induction false} ReplayKeys(writes: seq<Write>)
    ensures Replay(writes).Keys == Lpns(writes)
  {
    if writes == [] {
    } else {
      var k := |writes| - 1;
      ReplayKeys(writes[..k]);
      assert writes == writes[..k] + [writes[k]];
      assert forall w :: w in writes <==> w in writes[..k] || w == writes[k];
    }
  }

  lemma ReplaySnoc(writes: seq<Write>, k: nat)
    requires k < |writes|
    ensures Replay(writes[..k + 1]) == Replay(writes[..k])[writes[k].lpn := writes[k].data]
    ensures Replay(writes[..k]).Keys + {writes[k].lpn} <= Lpns(writes)
  {
    assert writes[..k + 1][..k] == writes[..k];
    ReplayKeys(writes[..k]);
  }

  /**
   Over every run from the initial state that writes no more than (lines - 4) * perLine distinct
   logical pages, with every choice of victim order: after every write the invariant and the space
   bound hold, no write pointer ever lacked a free line, and reads agree with a plain map.
   */
  lemma {:induction false} RunsRefineMap(lay: Layout, states: seq<Ftl>, writes: seq<Write>, k: nat)
    requires lay.Valid() && lay.lines > 4
    requires Run(lay, states, writes) && states[0] == Init(lay) && k <= |writes|
    requires |Lpns(writes)| <= (lay.lines - 4) * lay.perLine
    ensures var s := states[k];
            && Inv(lay, s, None, {}) && s.ls.alive && SpaceOk(lay, s)
            && View(s) == Replay(writes[..k])
  {
    hide Layout.Valid, Inv, View, SpaceOk, Next, Ready, Lpns, Replay, Init;
    if k == 0 {
      InitInv(lay);
      InvAlive(lay, states[0]);
      EmptyReplay(writes);
    } else {
      RunsRefineMap(lay, states, writes, k - 1);
      var s, w := states[k - 1], writes[k - 1];
      InvAlive(lay, s);
      assert RunStep(lay, s, w, states[k]);
      ReplaySnoc(writes, k - 1);
      SubsetSize(View(s).Keys + {w.lpn}, Lpns(writes));
      NextInv(lay, s, w.lpn, w.data, states[k]);
      InvAlive(lay, states[k]);
    }
  }

  lemma EmptyReplay(writes: seq<Write>)
    ensures Replay(writes[..0]) == map[]
  {
  }

  lemma InvAlive(lay: Layout, s: Ftl)
    requires Inv(lay, s, None, {})
    ensures s.ls.alive && |s.maptbl| == |s.data|
  {
  }
}
