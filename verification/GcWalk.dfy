/**
 The order in which collection walks a victim line: flash page by flash page, and for each flash
 page channel by channel and die by die; on the last flash page every block is erased as soon as it
 has been cleaned.  The walk visits every page once and erases every block after its last page.
 */
module GcWalk {
  import opened Arith
  import opened Base
  import opened FtlModel
  import opened FtlProofs
  import opened FtlGc
  import opened Geometry

  function FlashPgsPerBlk(g: Geo): nat
    requires g.Valid()
  {
    Div(g.oneshot, g.flash) * g.wordlines
  }

  lemma FlashPgsTotal(g: Geo)
    requires g.Valid()
    ensures FlashPgsPerBlk(g) * g.flash == g.PgsPerBlk() && FlashPgsPerBlk(g) > 0
  {
    var k := Div(g.oneshot, g.flash);
    JoinPair(g.oneshot, g.flash);
    assert k * g.flash == g.oneshot;
    Positive(g);
    calc {
      k * g.wordlines * g.flash;
      { assert k * g.wordlines == g.wordlines * k; Swap3(g.wordlines, k, g.flash); }
      g.wordlines * (g.flash * k);
      g.wordlines * g.oneshot;
    }
  }

  predicate Earlier(x: Ppa, c: nat, l: nat) {
    x.ch < c || (x.ch == c && x.lun < l)
  }

  /** Cleaned before the walk reaches flash page f of die (c, l). */
  predicate Cleaned(g: Geo, x: Ppa, f: nat, c: nat, l: nat)
    requires g.Valid()
  {
    Div(x.pg, g.flash) < f || (Div(x.pg, g.flash) == f && Earlier(x, c, l))
  }

  predicate ErasedBy(g: Geo, x: Ppa, f: nat, c: nat, l: nat)
    requires g.Valid()
  {
    f >= FlashPgsPerBlk(g) || (f + 1 == FlashPgsPerBlk(g) && Earlier(x, c, l))
  }

  ghost predicate Progress(g: Geo, v: nat, acts: seq<GcAct>, f: nat, c: nat, l: nat)
    requires g.Valid()
  {
    && (forall x: Ppa :: ValidPpa(g, x) && x.blk == v ==>
          (PgIdx(g, x) in Done(acts) <==> Cleaned(g, x, f, c, l)))
    && (forall x: Ppa :: ValidPpa(g, x) && x.blk == v ==>
          (BlkIdx(g, x) in Erased(acts) <==> ErasedBy(g, x, f, c, l)))
  }

  lemma ProgressStart(g: Geo, v: nat)
    requires g.Valid()
    ensures Progress(g, v, [], 0, 0, 0)
  {
    FlashPgsTotal(g);
  }

  lemma ProgressNextCh(g: Geo, v: nat, acts: seq<GcAct>, f: nat, c: nat)
    requires g.Valid() && Progress(g, v, acts, f, c, g.luns)
    ensures Progress(g, v, acts, f, c + 1, 0)
  {
    hide PgIdx, BlkIdx, Done, Erased;
    forall x: Ppa | ValidPpa(g, x) && x.blk == v
      ensures Cleaned(g, x, f, c, g.luns) <==> Cleaned(g, x, f, c + 1, 0)
      ensures ErasedBy(g, x, f, c, g.luns) <==> ErasedBy(g, x, f, c + 1, 0)
    {
    }
  }

  lemma ProgressNextFlash(g: Geo, v: nat, acts: seq<GcAct>, f: nat)
    requires g.Valid() && f < FlashPgsPerBlk(g) && Progress(g, v, acts, f, g.nchs, 0)
    ensures Progress(g, v, acts, f + 1, 0, 0)
  {
    hide PgIdx, BlkIdx, Done, Erased;
    forall x: Ppa | ValidPpa(g, x) && x.blk == v
      ensures Cleaned(g, x, f, g.nchs, 0) <==> Cleaned(g, x, f + 1, 0, 0)
      ensures ErasedBy(g, x, f, g.nchs, 0) <==> ErasedBy(g, x, f + 1, 0, 0)
    {
    }
  }

  /** The pages of one flash page. */
  ghost function FlashPages(g: Geo, a: Ppa): set<nat>
  {
    FirstPages(g, a, g.flash)
  }

  ghost function FirstPages(g: Geo, a: Ppa, n: nat): set<nat>
  {
    set i | 0 <= i < n :: FlashIdx(g, a, i)
  }

  /** The first n pages from a exist and have not been visited. */
  ghost predicate Fresh(g: Geo, a: Ppa, n: nat, done: set<nat>)
  {
    forall i :: 0 <= i < n ==> FreshAt(g, a, i, done)
  }

  ghost predicate FreshAt(g: Geo, a: Ppa, i: nat, done: set<nat>)
  {
    ValidPpa(g, a.(pg := a.pg + i)) && FlashIdx(g, a, i) !in done
  }

  lemma FirstPagesNext(g: Geo, a: Ppa, n: nat)
    ensures FirstPages(g, a, n + 1) == FirstPages(g, a, n) + {FlashIdx(g, a, n)}
    ensures FlashIdx(g, a, n) !in FirstPages(g, a, n)
  {
  }

  function FlashIdx(g: Geo, a: Ppa, i: nat): nat {
    PgIdx(g, a.(pg := a.pg + i))
  }

  function FlashPage(g: Geo, v: nat, f: nat, c: nat, l: nat): Ppa {
    Ppa(c, l, v, f * g.flash)
  }

  lemma FlashPageOk(g: Geo, v: nat, f: nat, c: nat, l: nat, i: nat)
    requires g.Valid() && v < g.lines && f < FlashPgsPerBlk(g) && c < g.nchs && l < g.luns && i < g.flash
    ensures var a := FlashPage(g, v, f, c, l).(pg := f * g.flash + i);
            ValidPpa(g, a) && Div(a.pg, g.flash) == f
  {
    FlashPgsTotal(g);
    PairBound(f, i, g.flash, FlashPgsPerBlk(g));
    SplitPair(f, i, g.flash);
  }

  /** An address belongs to a flash page exactly when its die and flash page number agree. */
  lemma InFlashPage(g: Geo, v: nat, f: nat, c: nat, l: nat, x: Ppa)
    requires g.Valid() && v < g.lines && f < FlashPgsPerBlk(g) && c < g.nchs && l < g.luns
    requires ValidPpa(g, x) && x.blk == v
    ensures PgIdx(g, x) in FlashPages(g, FlashPage(g, v, f, c, l)) <==>
            x.ch == c && x.lun == l && Div(x.pg, g.flash) == f
  {
    hide PgIdx, FlashPgsPerBlk, Div;
    var a := FlashPage(g, v, f, c, l);
    if x.ch == c && x.lun == l && Div(x.pg, g.flash) == f {
      var i := x.pg - f * g.flash;
      FlashOffset(g, x.pg, f);
      assert FlashIdx(g, a, i) == PgIdx(g, x);
    }
    if PgIdx(g, x) in FlashPages(g, a) {
      var i :| 0 <= i < g.flash && PgIdx(g, x) == FlashIdx(g, a, i);
      FlashPageOk(g, v, f, c, l, i);
      PgIdxOk(g, x);
      PgIdxOk(g, a.(pg := a.pg + i));
    }
  }

  lemma FlashOffset(g: Geo, pg: nat, f: nat)
    requires g.Valid() && Div(pg, g.flash) == f
    ensures 0 <= pg - f * g.flash < g.flash
  {
    JoinPair(pg, g.flash);
  }

  /** Cleaning one flash page, and on the last one erasing its block, moves the walk to the next die. */
  lemma ProgressStep(g: Geo, v: nat, acts: seq<GcAct>, acts': seq<GcAct>, f: nat, c: nat, l: nat)
    requires g.Valid() && v < g.lines && f < FlashPgsPerBlk(g) && c < g.nchs && l < g.luns
    requires Progress(g, v, acts, f, c, l)
    requires Done(acts') == Done(acts) + FlashPages(g, FlashPage(g, v, f, c, l))
    requires Erased(acts') == Erased(acts) +
                              (if f + 1 == FlashPgsPerBlk(g) then {BlkIdx(g, FlashPage(g, v, f, c, l))} else {})
    ensures Progress(g, v, acts', f, c, l + 1)
  {
    hide PgIdx, BlkIdx, Done, Erased, FlashPages, FlashPgsPerBlk;
    forall x: Ppa | ValidPpa(g, x) && x.blk == v
      ensures PgIdx(g, x) in Done(acts') <==> Cleaned(g, x, f, c, l + 1)
      ensures BlkIdx(g, x) in Erased(acts') <==> ErasedBy(g, x, f, c, l + 1)
    {
      InFlashPage(g, v, f, c, l, x);
      BlkIdxSame(g, x, FlashPage(g, v, f, c, l));
    }
  }

  lemma BlkIdxSame(g: Geo, x: Ppa, y: Ppa)
    requires g.Valid() && x.ch < g.nchs && y.ch < g.nchs && x.lun < g.luns && y.lun < g.luns
    requires x.blk < g.lines && y.blk < g.lines
    ensures BlkIdx(g, x) == BlkIdx(g, y) <==> x.ch == y.ch && x.lun == y.lun && x.blk == y.blk
  {
    SplitPair(Pair(x.ch, x.lun, g.luns), x.blk, g.lines);
    SplitPair(Pair(y.ch, y.lun, g.luns), y.blk, g.lines);
    SplitPair(x.ch, x.lun, g.luns);
    SplitPair(y.ch, y.lun, g.luns);
  }

  /** All pages of a block have been cleaned once its last flash page has. */
  lemma BlockCleaned(g: Geo, v: nat, done: set<nat>, f: nat, c: nat, l: nat)
    requires g.Valid() && v < g.lines && f + 1 == FlashPgsPerBlk(g) && c < g.nchs && l < g.luns
    requires forall x: Ppa :: ValidPpa(g, x) && x.blk == v && x.ch == c && x.lun == l ==> PgIdx(g, x) in done
    ensures LayoutOf(g).BlockPages(BlkIdx(g, FlashPage(g, v, f, c, l))) <= done
  {
    var a := FlashPage(g, v, f, c, l);
    forall i | i in LayoutOf(g).BlockPages(BlkIdx(g, a))
      ensures i in done
    {
      PpaAtOk(g, i);
      var x := PpaAt(g, i);
      LayoutAt(g, x);
      BlkIdxSame(g, x, a);
    }
  }

  lemma WalkComplete(g: Geo, v: nat, acts: seq<GcAct>)
    requires g.Valid() && LayoutOf(g).Valid() && v < g.lines
    requires Legal(LayoutOf(g), v, acts) && Progress(g, v, acts, FlashPgsPerBlk(g), 0, 0)
    ensures Complete(LayoutOf(g), v, acts)
  {
    var lay := LayoutOf(g);
    FlashPgsTotal(g);
    forall i | i in lay.LinePages(v)
      ensures i in Done(acts)
    {
      PpaAtOk(g, i);
      LayoutAt(g, PpaAt(g, i));
      DivBound(PpaAt(g, i).pg, g.flash, FlashPgsPerBlk(g));
    }
    forall b | 0 <= b < |lay.blockLine| && lay.blockLine[b] == v
      ensures b in Erased(acts)
    {
      BlockHasPage(g, b);
      var i :| i in lay.BlockPages(b);
      PpaAtOk(g, i);
      LayoutAt(g, PpaAt(g, i));
    }
  }

  lemma BlockHasPage(g: Geo, b: nat)
    requires g.Valid() && b < g.TtBlks()
    ensures LayoutOf(g).BlockPages(b) != {}
  {
    BlockSize(g, b);
    Positive(g);
  }

  /** Appending one legal action. */
  lemma ActSnoc(lay: Layout, t: Ftl, v: nat, acts: seq<GcAct>, a: GcAct)
    requires Shaped(lay, t) && Legal(lay, v, acts) && ActOk(lay, v, Done(acts), a)
    ensures Legal(lay, v, acts + [a])
    ensures Collect(lay, t, v, acts + [a]) == Act(lay, Collect(lay, t, v, acts), v, Done(acts), a)
    ensures Done(acts + [a]) == Done(acts) + (if a.Copy? then {a.page} else {})
    ensures Erased(acts + [a]) == Erased(acts) + (if a.Erase? then {a.block} else {})
  {
    DoneSnoc(acts, a);
    assert (acts + [a])[..|acts|] == acts;
    hide Done, Erased;
  }

  /** A collection of line v in progress: t is the state in which it began. */
  ghost predicate GcOk(lay: Layout, t: Ftl, v: nat, acts: seq<GcAct>)
  {
    && Inv(lay, t, Some(v), {})
    && Slack(lay, t, v, {}) + t.ls.user.pos > lay.perLine
    && Legal(lay, v, acts)
  }

  /** Relocating a live page of the victim: its owner is known and the GC pointer can take it. */
  lemma CopyAssertsAt(lay: Layout, c: Ftl, v: nat, done: set<nat>, p: nat)
    requires Inv(lay, c, Some(v), done) && p < |lay.line| && lay.line[p] == v && p !in done
    requires Slack(lay, c, v, done) + c.ls.user.pos > lay.perLine
    ensures c.status[p] != PgFree
    ensures c.status[p] == PgValid ==>
              && Owned(c.maptbl, c.rmap, p)
              && c.status[NewPage(lay, c, GcIo)] == PgFree
              && c.ls.gc.line !in c.ls.full && c.ls.gc.line !in c.ls.victims
              && (c.ls.gc.pos + 1 == lay.perLine ==> c.ls.free != [])
  {
    hide Layout.Valid, CountsOk, RolesOk, FillOk, PartsOk, FreePages;
    if c.status[p] == PgValid {
      RoomForOne(lay, c, v, done, p);
      ProgramAsserts(lay, c, GcIo, Some(v), done);
    }
  }

  lemma CopyAsserts(lay: Layout, t: Ftl, v: nat, acts: seq<GcAct>, p: nat)
    requires GcOk(lay, t, v, acts) && p < |lay.line| && lay.line[p] == v && p !in Done(acts)
    ensures var c := Collect(lay, t, v, acts);
            && c.status[p] != PgFree
            && (c.status[p] == PgValid ==>
                  && c.rmap[p].Some? && c.rmap[p].value < |c.maptbl|
                  && c.status[NewPage(lay, c, GcIo)] == PgFree
                  && c.ls.gc.line !in c.ls.full && c.ls.gc.line !in c.ls.victims
                  && (c.ls.gc.pos + 1 == lay.perLine ==> c.ls.free != []))
  {
    hide Layout.Valid, Collect, TablesOk, CountsOk, RolesOk, FillOk, PartsOk, VictimOk, Done, Slack, View, Legal,
      ErasedFree, ErasedHere;
    CollectInv(lay, t, v, acts);
    CopyAssertsAt(lay, Collect(lay, t, v, acts), v, Done(acts), p);
  }

  /** A page that is not valid needs no work. */
  lemma SkipPage(lay: Layout, t: Ftl, v: nat, acts: seq<GcAct>, p: nat)
    requires GcOk(lay, t, v, acts) && p < |lay.line| && lay.line[p] == v && p !in Done(acts)
    requires Collect(lay, t, v, acts).status[p] != PgValid
    ensures GcOk(lay, t, v, acts + [Copy(p)])
    ensures Collect(lay, t, v, acts + [Copy(p)]) == Collect(lay, t, v, acts)
    ensures Done(acts + [Copy(p)]) == Done(acts) + {p} && Erased(acts + [Copy(p)]) == Erased(acts)
  {
    hide Layout.Valid, TablesOk, CountsOk, RolesOk, FillOk, PartsOk, VictimOk, Slack, Done, Erased, Collect;
    ActSnoc(lay, t, v, acts, Copy(p));
  }

  /** A flash page without valid pages needs no work. */
  lemma {:induction false} SkipFlash(g: Geo, t: Ftl, v: nat, acts: seq<GcAct>, a: Ppa, n: nat)
    returns (acts': seq<GcAct>)
    requires g.Valid() && GcOk(LayoutOf(g), t, v, acts) && a.blk == v
    requires Fresh(g, a, n, Done(acts))
    requires var c := Collect(LayoutOf(g), t, v, acts);
             forall i :: 0 <= i < n ==> FlashIdx(g, a, i) < |c.status| && c.status[FlashIdx(g, a, i)] != PgValid
    ensures GcOk(LayoutOf(g), t, v, acts') && Collect(LayoutOf(g), t, v, acts') == Collect(LayoutOf(g), t, v, acts)
    ensures Done(acts') == Done(acts) + FirstPages(g, a, n) && Erased(acts') == Erased(acts)
  {
    hide LayoutOf, GcOk, Done, Erased, Collect, PgIdx, FlashIdx, FirstPages;
    if n == 0 {
      acts' := acts;
      NoPages(g, a);
    } else {
      FreshLess(g, a, n, Done(acts));
      acts' := SkipFlash(g, t, v, acts, a, n - 1);
      FirstPagesNext(g, a, n - 1);
      FlashIdxIs(g, a, n - 1);
      LayoutAt(g, a.(pg := a.pg + (n - 1)));
      SkipPage(LayoutOf(g), t, v, acts', FlashIdx(g, a, n - 1));
      acts' := acts' + [Copy(FlashIdx(g, a, n - 1))];
    }
  }

  lemma FreshLess(g: Geo, a: Ppa, n: nat, done: set<nat>)
    requires n > 0 && Fresh(g, a, n, done)
    ensures Fresh(g, a, n - 1, done)
    ensures ValidPpa(g, a.(pg := a.pg + (n - 1))) && FlashIdx(g, a, n - 1) !in done
  {
    assert FreshAt(g, a, n - 1, done);
  }

  lemma NoPages(g: Geo, a: Ppa)
    ensures FirstPages(g, a, 0) == {}
  {
  }

  lemma FlashIdxIs(g: Geo, a: Ppa, i: nat)
    ensures FlashIdx(g, a, i) == PgIdx(g, a.(pg := a.pg + i))
  {
  }

  /** The walk has not yet visited the flash page it stands on. */
  lemma FlashFresh(g: Geo, v: nat, acts: seq<GcAct>, f: nat, c: nat, l: nat)
    requires g.Valid() && v < g.lines && f < FlashPgsPerBlk(g) && c < g.nchs && l < g.luns
    requires Progress(g, v, acts, f, c, l)
    ensures Fresh(g, FlashPage(g, v, f, c, l), g.flash, Done(acts))
  {
    var a := FlashPage(g, v, f, c, l);
    forall i | 0 <= i < g.flash
      ensures FreshAt(g, a, i, Done(acts))
    {
      FlashPageOk(g, v, f, c, l, i);
      var x := a.(pg := a.pg + i);
      assert PgIdx(g, x) in Done(acts) <==> Cleaned(g, x, f, c, l);
    }
  }

  /** After the last flash page of a die, its block may be erased. */
  lemma EraseLegal(g: Geo, t: Ftl, v: nat, acts0: seq<GcAct>, acts: seq<GcAct>, f: nat, c: nat, l: nat)
    requires g.Valid() && v < g.lines && f + 1 == FlashPgsPerBlk(g) && c < g.nchs && l < g.luns
    requires Progress(g, v, acts0, f, c, l) && GcOk(LayoutOf(g), t, v, acts)
    requires Done(acts) == Done(acts0) + FlashPages(g, FlashPage(g, v, f, c, l))
    ensures var b := BlkIdx(g, FlashPage(g, v, f, c, l));
            Shaped(LayoutOf(g), t) && ActOk(LayoutOf(g), v, Done(acts), Erase(b)) && b < |LayoutOf(g).blockLine|
  {
    FlashPgsTotal(g);
    forall x: Ppa | ValidPpa(g, x) && x.blk == v && x.ch == c && x.lun == l
      ensures PgIdx(g, x) in Done(acts)
    {
      InFlashPage(g, v, f, c, l, x);
      DivBound(x.pg, g.flash, FlashPgsPerBlk(g));
      assert PgIdx(g, x) in Done(acts0) <==> Cleaned(g, x, f, c, l);
    }
    BlockCleaned(g, v, Done(acts), f, c, l);
    FlashPageOk(g, v, f, c, l, 0);
    LayoutAt(g, FlashPage(g, v, f, c, l));
  }
}
