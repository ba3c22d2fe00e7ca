/**
 Garbage collection: whatever order the pages of the victim are relocated in, as long as a block
 is erased only after all of its pages, collection keeps the invariant and what the host reads.
 */
module FtlGc {
  import opened Arith
  import opened Base
  import opened FtlModel
  import opened FtlProofs

  /** Pages of the victim that still have to be relocated. */
  ghost function Live(lay: Layout, s: Ftl, v: nat, done: set<nat>): set<nat>
  {
    In(lay.line, s.status, v, PgValid) - done
  }

  /** Free pages minus relocations still to come; relocating and erasing leave it alone. */
  ghost function Slack(lay: Layout, s: Ftl, v: nat, done: set<nat>): int
  {
    FreePages(lay, s) - |Live(lay, s, v, done)|
  }

  /** Everything collection leaves alone. */
  ghost predicate Same(lay: Layout, s: Ftl, r: Ftl)
    requires |s.maptbl| == |s.data| && |r.maptbl| == |r.data|
  {
    View(r) == View(s) && r.ls.user == s.ls.user && r.credits == s.credits && r.refill == s.refill
  }

  ghost predicate SameOn(lay: Layout, s: Ftl, r: Ftl, v: nat)
  {
    && |s.status| == |r.status| == |lay.line|
    && forall i :: 0 <= i < |s.status| && lay.line[i] == v ==> r.status[i] == s.status[i]
  }

  /* ---------- taking the victim ---------- */

  lemma TakeRoles(lines: nat, ls: Lists, v: nat)
    requires RolesOk(lines, ls, None) && v in ls.victims
    ensures RolesOk(lines, ls.(victims := ls.victims - {v}), Some(v))
  {
    hide NoDup, SetOf;
    assert |ls.victims - {v}| == |ls.victims| - 1;
  }

  lemma TakeParts(perLine: nat, line: seq<Counts>, ls: Lists, v: nat)
    requires PartsOk(perLine, line, ls) && v in ls.victims
    ensures v < |line| && line[v].vpc < perLine && Sum(line[v]) == perLine
    ensures PartsOk(perLine, line, ls.(victims := ls.victims - {v}))
  {
    hide SetOf;
  }

  /** A closed line has no free page. */
  lemma TakeFilled(lay: Layout, s: Ftl, v: nat)
    requires Shaped(lay, s) && FillOk(lay, s.status, s.line, None)
    requires v < lay.lines && Sum(s.line[v]) == lay.perLine
    ensures VictimOk(lay, TakeVictim(s, v), Some(v), {})
    ensures FillOk(lay, s.status, s.line, Some(v))
  {
    forall i | 0 <= i < |s.status|
      ensures lay.line[i] == v ==> s.status[i] != PgFree
    {
      assert PageFilled(lay, s.status, s.line, i) && lay.OkPage(i);
    }
  }

  lemma TakeInv(lay: Layout, s: Ftl, v: nat)
    requires Inv(lay, s, None, {}) && v in s.ls.victims
    ensures v < lay.lines
    ensures Inv(lay, TakeVictim(s, v), Some(v), {})
    ensures s.line[v].vpc < lay.perLine && s.line[v].ipc == lay.perLine - s.line[v].vpc
    ensures Slack(lay, TakeVictim(s, v), v, {}) == FreePages(lay, s) - s.line[v].vpc
    ensures View(TakeVictim(s, v)) == View(s)
  {
    hide TablesOk, RolesOk, FillOk, PartsOk, VictimOk;
    TakeParts(lay.perLine, s.line, s.ls, v);
    TakeRoles(lay.lines, s.ls, v);
    TakeFilled(lay, s, v);
    assert CountOk(lay.line, s.status, s.line[v], v);
    assert CountsOk(lay.line, s.status, s.line, Some(v));
    hide Layout.Valid, CountsOk;
    assert Live(lay, TakeVictim(s, v), v, {}) == In(lay.line, s.status, v, PgValid);
  }

  /* ---------- relocating one page ---------- */

  lemma TablesRelocate(m: seq<Option<nat>>, rmap: seq<Option<nat>>, status: seq<Status>, done: set<nat>, p: nat)
    requires |m| == |rmap| == |status| && p < |status| && p !in done
    requires TablesOk(m, rmap, status, done)
    ensures status[p] != PgValid ==> TablesOk(m, rmap, status, done + {p})
    ensures status[p] == PgValid ==> Owned(m, rmap, p)
                                     && TablesOk(m[rmap[p].value := None], rmap, status, done + {p})
  {
    if status[p] != PgValid {
      forall k | 0 <= k < |m| && m[k].Some?
        ensures Mapped(m, rmap, status, done + {p}, k)
      {
        assert Mapped(m, rmap, status, done, k);
      }
    } else {
      assert Owned(m, rmap, p);
      var m' := m[rmap[p].value := None];
      forall k | 0 <= k < |m| && m'[k].Some?
        ensures Mapped(m', rmap, status, done + {p}, k)
      {
        assert Mapped(m, rmap, status, done, k);
      }
      forall q | 0 <= q < |status| && status[q] == PgValid && q !in done + {p}
        ensures Owned(m', rmap, q)
      {
        assert Owned(m, rmap, q);
      }
    }
  }

  lemma LiveStep(lay: Layout, s: Ftl, r: Ftl, v: nat, done: set<nat>, p: nat)
    requires SameOn(lay, s, r, v) && p < |lay.line| && lay.line[p] == v && p !in done
    ensures |Live(lay, r, v, done + {p})| == |Live(lay, s, v, done)| - (if s.status[p] == PgValid then 1 else 0)
  {
    var valid := In(lay.line, s.status, v, PgValid);
    assert valid == In(lay.line, r.status, v, PgValid);
    assert p in valid <==> s.status[p] == PgValid;
    hide In;
    assert valid - (done + {p}) == (valid - done) - {p};
    SizeWithout(valid - done, p);
  }

  /** The state in which the owner of page p is about to be programmed elsewhere. */
  ghost function Detached(s: Ftl, p: nat): Ftl
    requires p < |s.rmap| && s.rmap[p].Some? && s.rmap[p].value < |s.maptbl|
  {
    s.(maptbl := s.maptbl[s.rmap[p].value := None])
  }

  lemma DetachInv(lay: Layout, s: Ftl, v: nat, done: set<nat>, p: nat)
    requires Inv(lay, s, Some(v), done) && ActOk(lay, v, done, Copy(p)) && s.status[p] == PgValid
    ensures Owned(s.maptbl, s.rmap, p)
    ensures Inv(lay, Detached(s, p), Some(v), done + {p})
  {
    hide Layout.Valid, TablesOk, CountsOk, RolesOk, FillOk, PartsOk;
    TablesRelocate(s.maptbl, s.rmap, s.status, done, p);
  }

  lemma DetachView(s: Ftl, p: nat)
    requires |s.maptbl| == |s.data| == |s.rmap| && p < |s.rmap| && Owned(s.maptbl, s.rmap, p)
    ensures View(Detached(s, p))[s.rmap[p].value := s.data[p]] == View(s)
  {
  }

  lemma CopyValid(lay: Layout, s: Ftl, v: nat, done: set<nat>, p: nat)
    requires Inv(lay, s, Some(v), done) && ActOk(lay, v, done, Copy(p)) && s.status[p] == PgValid
    requires s.ls.gc.pos + 1 == lay.perLine ==> s.ls.free != []
    ensures var r := CopyPage(lay, s, p);
            && Inv(lay, r, Some(v), done + {p})
            && FreePages(lay, r) == FreePages(lay, s) - 1
            && Same(lay, s, r) && SameOn(lay, s, r, v)
  {
    hide Layout.Valid, TablesOk, CountsOk, RolesOk, FillOk, PartsOk, View;
    DetachInv(lay, s, v, done, p);
    DetachView(s, p);
    var u, l, d := Detached(s, p), s.rmap[p].value, s.data[p];
    assert FreePages(lay, u) == FreePages(lay, s);
    AppendForgets(lay, s, GcIo, l, d);
    AppendInv(lay, u, GcIo, l, d, Some(v), done + {p});
    CopyElsewhere(lay, s, v, l, d);
  }

  lemma CopyElsewhere(lay: Layout, s: Ftl, v: nat, l: nat, d: Payload)
    requires Shaped(lay, s) && l < |s.maptbl| && RolesOk(lay.lines, s.ls, Some(v))
    ensures var r := Append(lay, s, GcIo, l, d);
            r.ls.user == s.ls.user && r.credits == s.credits && r.refill == s.refill && SameOn(lay, s, r, v)
  {
    assert s.ls.gc.line != v;
    hide Layout.Valid, RolesOk;
    AppendFields(lay, s, GcIo, l, d);
  }

  lemma SkipInvalid(lay: Layout, s: Ftl, v: nat, done: set<nat>, p: nat)
    requires Inv(lay, s, Some(v), done) && ActOk(lay, v, done, Copy(p)) && s.status[p] != PgValid
    ensures Inv(lay, s, Some(v), done + {p})
  {
    TablesRelocate(s.maptbl, s.rmap, s.status, done, p);
    hide Layout.Valid, TablesOk, CountsOk, RolesOk, FillOk, PartsOk;
  }

  /** There is room on the GC line, or a free line after it, for every live page of the victim. */
  lemma RoomForOne(lay: Layout, s: Ftl, v: nat, done: set<nat>, p: nat)
    requires Shaped(lay, s) && p in Live(lay, s, v, done)
    requires Slack(lay, s, v, done) + s.ls.user.pos > lay.perLine
    ensures s.ls.gc.pos + 1 == lay.perLine ==> s.ls.free != []
  {
    hide Layout.Valid;
  }

  lemma CopyInv(lay: Layout, s: Ftl, v: nat, done: set<nat>, p: nat)
    requires Inv(lay, s, Some(v), done) && ActOk(lay, v, done, Copy(p))
    requires Slack(lay, s, v, done) + s.ls.user.pos > lay.perLine || CopyPage(lay, s, p).ls.alive
    ensures var r := CopyPage(lay, s, p);
            && Inv(lay, r, Some(v), done + {p})
            && Slack(lay, r, v, done + {p}) == Slack(lay, s, v, done)
            && Same(lay, s, r) && SameOn(lay, s, r, v)
  {
    hide Layout.Valid, TablesOk, CountsOk, RolesOk, FillOk, PartsOk, View, FreePages;
    var r := CopyPage(lay, s, p);
    if s.status[p] == PgValid {
      if r.ls.alive {
        assert Owned(s.maptbl, s.rmap, p) by { DetachInv(lay, s, v, done, p); }
        AppendAlive(lay, s, GcIo, s.rmap[p].value, s.data[p]);
      } else {
        RoomForOne(lay, s, v, done, p);
      }
      CopyValid(lay, s, v, done, p);
    } else {
      SkipInvalid(lay, s, v, done, p);
    }
    hide Append;
    LiveStep(lay, s, r, v, done, p);
  }

  /* ---------- erasing one block ---------- */

  lemma TablesErase(m: seq<Option<nat>>, rmap: seq<Option<nat>>, status: seq<Status>, status': seq<Status>,
                    done: set<nat>)
    requires |m| == |rmap| == |status| == |status'|
    requires forall i :: 0 <= i < |status| ==> status'[i] == status[i] || (status'[i] == PgFree && i in done)
    requires TablesOk(m, rmap, status, done)
    ensures TablesOk(m, rmap, status', done)
  {
    forall k | 0 <= k < |m| && m[k].Some?
      ensures Mapped(m, rmap, status', done, k)
    {
      assert Mapped(m, rmap, status, done, k);
    }
  }

  /** Counters of groups without an erased page stay right. */
  lemma CountSame(group: seq<nat>, status: seq<Status>, status': seq<Status>, c: Counts, g: nat)
    requires |group| == |status| == |status'| && CountOk(group, status, c, g)
    requires forall i :: 0 <= i < |status| && group[i] == g ==> status'[i] == status[i]
    ensures CountOk(group, status', c, g)
  {
    assert In(group, status, g, PgValid) == In(group, status', g, PgValid);
    assert In(group, status, g, PgInvalid) == In(group, status', g, PgInvalid);
  }

  lemma EraseCounts(lay: Layout, s: Ftl, v: nat, b: nat)
    requires Shaped(lay, s) && b < |lay.blockLine| && lay.blockLine[b] == v
    requires CountsOk(lay.block, s.status, s.blk, None) && CountsOk(lay.line, s.status, s.line, Some(v))
    ensures var r := EraseBlock(lay, s, b);
            CountsOk(lay.block, r.status, r.blk, None) && CountsOk(lay.line, r.status, r.line, Some(v))
  {
    var r := EraseBlock(lay, s, b);
    forall g: nat | g < |r.blk|
      ensures CountOk(lay.block, r.status, r.blk[g], g)
    {
      if g == b {
        assert In(lay.block, r.status, b, PgValid) == {} && In(lay.block, r.status, b, PgInvalid) == {};
      } else {
        assert CountOk(lay.block, s.status, s.blk[g], g);
        CountSame(lay.block, s.status, r.status, s.blk[g], g);
      }
    }
    forall g: nat | g < |r.line| && g != v
      ensures CountOk(lay.line, r.status, r.line[g], g)
    {
      assert CountOk(lay.line, s.status, s.line[g], g);
      forall i | 0 <= i < |s.status| && lay.line[i] == g
        ensures r.status[i] == s.status[i]
      {
        assert lay.OkPage(i);
      }
      CountSame(lay.line, s.status, r.status, s.line[g], g);
    }
  }

  lemma EraseFill(lay: Layout, s: Ftl, v: nat, b: nat)
    requires Shaped(lay, s) && b < |lay.blockLine| && lay.blockLine[b] == v
    requires FillOk(lay, s.status, s.line, Some(v))
    ensures FillOk(lay, EraseBlock(lay, s, b).status, s.line, Some(v))
  {
    var r := EraseBlock(lay, s, b);
    forall i | 0 <= i < |s.status| && lay.line[i] != v
      ensures PageFilled(lay, r.status, s.line, i)
    {
      assert PageFilled(lay, s.status, s.line, i);
      assert lay.OkPage(i);
    }
  }

  lemma EraseInv(lay: Layout, s: Ftl, v: nat, done: set<nat>, b: nat)
    requires Inv(lay, s, Some(v), done) && ActOk(lay, v, done, Erase(b))
    ensures var r := EraseBlock(lay, s, b);
            && Inv(lay, r, Some(v), done)
            && Slack(lay, r, v, done) == Slack(lay, s, v, done)
            && Same(lay, s, r)
  {
    hide TablesOk, CountsOk, RolesOk, FillOk, PartsOk;
    var r := EraseBlock(lay, s, b);
    assert forall i :: 0 <= i < |lay.line| && lay.block[i] == b ==> i in lay.BlockPages(b);
    TablesErase(s.maptbl, s.rmap, s.status, r.status, done);
    EraseCounts(lay, s, v, b);
    EraseFill(lay, s, v, b);
    assert Live(lay, s, v, done) == Live(lay, r, v, done);
  }

  /* ---------- returning the line ---------- */

  lemma FreeCounts(lay: Layout, s: Ftl, v: nat)
    requires Shaped(lay, s) && v < lay.lines && CountsOk(lay.line, s.status, s.line, Some(v))
    requires forall i :: 0 <= i < |lay.line| && lay.line[i] == v ==> s.status[i] == PgFree
    ensures CountsOk(lay.line, s.status, s.line[v := Counts(0, 0)], None)
  {
    assert In(lay.line, s.status, v, PgValid) == {} && In(lay.line, s.status, v, PgInvalid) == {};
  }

  lemma FreeRoles(lines: nat, ls: Lists, v: nat)
    requires RolesOk(lines, ls, Some(v))
    ensures v !in SetOf(ls.free) && v !in ls.full && v !in ls.victims && v != ls.user.line && v != ls.gc.line
    ensures RolesOk(lines, ls.(free := ls.free + [v]), None)
  {
    assert v !in SetOf(ls.free);
    SetOfAppend(ls.free, v);
    hide NoDup, SetOf;
  }

  lemma FreePart(perLine: nat, line: seq<Counts>, ls: Lists, v: nat)
    requires PartsOk(perLine, line, ls) && v < |line|
    requires v !in SetOf(ls.free) && v !in ls.full && v !in ls.victims && v != ls.user.line && v != ls.gc.line
    ensures PartsOk(perLine, line[v := Counts(0, 0)], ls.(free := ls.free + [v]))
  {
    SetOfAppend(ls.free, v);
    hide SetOf;
    var line' := line[v := Counts(0, 0)];
    assert FreeParts(line', SetOf(ls.free) + {v});
    assert ClosedParts(perLine, line', ls.full, ls.victims);
  }

  lemma FreeFill(lay: Layout, s: Ftl, v: nat)
    requires Shaped(lay, s) && v < lay.lines && FillOk(lay, s.status, s.line, Some(v))
    requires forall i :: 0 <= i < |lay.line| && lay.line[i] == v ==> s.status[i] == PgFree
    ensures FillOk(lay, s.status, s.line[v := Counts(0, 0)], None)
  {
    var line' := s.line[v := Counts(0, 0)];
    forall i | 0 <= i < |s.status|
      ensures PageFilled(lay, s.status, line', i)
    {
      if lay.line[i] != v { assert PageFilled(lay, s.status, s.line, i); }
    }
  }

  lemma TablesFinish(m: seq<Option<nat>>, rmap: seq<Option<nat>>, status: seq<Status>, done: set<nat>)
    requires |m| == |rmap| == |status| && TablesOk(m, rmap, status, done)
    requires forall i :: 0 <= i < |status| && i in done ==> status[i] == PgFree
    ensures TablesOk(m, rmap, status, {})
  {
    forall k | 0 <= k < |m| && m[k].Some?
      ensures Mapped(m, rmap, status, {}, k)
    {
      assert Mapped(m, rmap, status, done, k);
    }
  }

  lemma FreeShape(lay: Layout, s: Ftl, v: nat)
    requires Shaped(lay, s) && v < |s.line|
    ensures Shaped(lay, FreeLine(s, v)) && Same(lay, s, FreeLine(s, v))
    ensures FreePages(lay, FreeLine(s, v)) == FreePages(lay, s) + lay.perLine
  {
    hide Layout.Valid;
    assert forall l :: l in s.ls.free + [v] ==> l in s.ls.free || l == v;
    Dist(|s.ls.free|, 1, lay.perLine);
  }

  lemma FreeInv(lay: Layout, s: Ftl, v: nat, done: set<nat>)
    requires Inv(lay, s, Some(v), done)
    requires forall i :: 0 <= i < |lay.line| && lay.line[i] == v ==> s.status[i] == PgFree
    ensures v < |s.line|
    ensures var r := FreeLine(s, v);
            && Inv(lay, r, None, {}) && Same(lay, s, r)
            && FreePages(lay, r) == FreePages(lay, s) + lay.perLine
  {
    assert v < lay.lines;
    hide TablesOk, CountsOk, RolesOk, FillOk, PartsOk;
    assert forall i :: i in done ==> i in lay.LinePages(v);
    TablesFinish(s.maptbl, s.rmap, s.status, done);
    hide Layout.Valid, FreePages, View, Shaped;
    FreeCounts(lay, s, v);
    FreeRoles(lay.lines, s.ls, v);
    FreePart(lay.perLine, s.line, s.ls, v);
    FreeFill(lay, s, v);
    FreeShape(lay, s, v);
  }

  /* ---------- a whole collection ---------- */

  /** Once a pointer found no free line, nothing repairs it. */
  lemma ActDead(lay: Layout, s: Ftl, v: nat, done: set<nat>, a: GcAct)
    requires Shaped(lay, s) && ActOk(lay, v, done, a)
    ensures Act(lay, s, v, done, a).ls.alive ==> s.ls.alive
  {
    hide Layout.Valid, Append;
    if a.Copy? && s.status[a.page] == PgValid && s.rmap[a.page].Some? && s.rmap[a.page].value < |s.maptbl| {
      AppendAlive(lay, s, GcIo, s.rmap[a.page].value, s.data[a.page]);
    }
  }

  lemma {:induction false} CollectDead(lay: Layout, s: Ftl, v: nat, acts: seq<GcAct>)
    requires Shaped(lay, s) && Legal(lay, v, acts)
    ensures Collect(lay, s, v, acts).ls.alive ==> s.ls.alive
  {
    if acts == [] {
    } else {
      var k := |acts| - 1;
      CollectDead(lay, s, v, acts[..k]);
      ActDead(lay, Collect(lay, s, v, acts[..k]), v, Done(acts[..k]), acts[k]);
    }
  }

  lemma DoneSnoc(acts: seq<GcAct>, a: GcAct)
    ensures Done(acts + [a]) == Done(acts) + (if a.Copy? then {a.page} else {})
    ensures Erased(acts + [a]) == Erased(acts) + (if a.Erase? then {a.block} else {})
  {
    assert forall x :: x in acts + [a] <==> x in acts || x == a;
    if a.Copy? {
      assert Done(acts + [a]) == Done(acts) + {a.page};
    } else {
      assert Erased(acts + [a]) == Erased(acts) + {a.block};
    }
  }

  ghost predicate ErasedFree(lay: Layout, s: Ftl, acts: seq<GcAct>)
  {
    |s.status| == |lay.block| &&
    forall i :: 0 <= i < |s.status| && lay.block[i] in Erased(acts) ==> s.status[i] == PgFree
  }

  ghost predicate ErasedHere(lay: Layout, v: nat, acts: seq<GcAct>)
  {
    forall b :: b in Erased(acts) ==> b < |lay.blockLine| && lay.blockLine[b] == v
  }

  lemma ErasedStep(lay: Layout, s: Ftl, v: nat, acts: seq<GcAct>, a: GcAct)
    requires Shaped(lay, s) && ActOk(lay, v, Done(acts), a)
    requires ErasedFree(lay, s, acts) && ErasedHere(lay, v, acts)
    requires a.Copy? ==> SameOn(lay, s, CopyPage(lay, s, a.page), v)
    ensures ErasedFree(lay, Act(lay, s, v, Done(acts), a), acts + [a]) && ErasedHere(lay, v, acts + [a])
  {
    hide CopyPage, Done, Erased;
    DoneSnoc(acts, a);
    var r := Act(lay, s, v, Done(acts), a);
    forall i | 0 <= i < |r.status| && lay.block[i] in Erased(acts + [a])
      ensures r.status[i] == PgFree
    {
      assert lay.OkPage(i);
    }
  }

  lemma ActInv(lay: Layout, s: Ftl, v: nat, acts: seq<GcAct>, a: GcAct)
    requires Inv(lay, s, Some(v), Done(acts)) && ActOk(lay, v, Done(acts), a)
    requires Slack(lay, s, v, Done(acts)) + s.ls.user.pos > lay.perLine || Act(lay, s, v, Done(acts), a).ls.alive
    requires ErasedFree(lay, s, acts) && ErasedHere(lay, v, acts)
    ensures var r := Act(lay, s, v, Done(acts), a);
            && Inv(lay, r, Some(v), Done(acts + [a]))
            && Slack(lay, r, v, Done(acts + [a])) == Slack(lay, s, v, Done(acts))
            && Same(lay, s, r) && ErasedFree(lay, r, acts + [a]) && ErasedHere(lay, v, acts + [a])
  {
    hide Layout.Valid, TablesOk, CountsOk, RolesOk, FillOk, PartsOk, VictimOk, View, Done, Erased,
      Slack, CopyPage, EraseBlock, ErasedFree, ErasedHere;
    DoneSnoc(acts, a);
    match a
    case Copy(p) =>
      CopyInv(lay, s, v, Done(acts), p);
      ErasedStep(lay, s, v, acts, a);
    case Erase(b) =>
      EraseInv(lay, s, v, Done(acts), b);
      ErasedStep(lay, s, v, acts, a);
      assert Done(acts + [a]) == Done(acts);
  }

  lemma NothingErased(lay: Layout, s: Ftl, v: nat)
    requires Shaped(lay, s)
    ensures Done([]) == {} && ErasedFree(lay, s, []) && ErasedHere(lay, v, [])
  {
    assert Erased([]) == {};
  }

  lemma {:induction false} CollectInv(lay: Layout, s: Ftl, v: nat, acts: seq<GcAct>)
    requires Inv(lay, s, Some(v), {}) && Legal(lay, v, acts)
    requires Slack(lay, s, v, {}) + s.ls.user.pos > lay.perLine || Collect(lay, s, v, acts).ls.alive
    ensures var r := Collect(lay, s, v, acts);
            && Inv(lay, r, Some(v), Done(acts))
            && Slack(lay, r, v, Done(acts)) == Slack(lay, s, v, {})
            && Same(lay, s, r) && ErasedFree(lay, r, acts) && ErasedHere(lay, v, acts)
  {
    hide Layout.Valid, TablesOk, CountsOk, RolesOk, FillOk, PartsOk, VictimOk, View, Slack, Act, ErasedFree,
      ErasedHere;
    if acts == [] {
      NothingErased(lay, s, v);
    } else {
      var k := |acts| - 1;
      ActDead(lay, Collect(lay, s, v, acts[..k]), v, Done(acts[..k]), acts[k]);
      CollectInv(lay, s, v, acts[..k]);
      hide Done, Erased;
      assert acts == acts[..k] + [acts[k]];
      ActInv(lay, Collect(lay, s, v, acts[..k]), v, acts[..k], acts[k]);
    }
  }

  /** The valid pages of line v fit on the GC line and the free lines, and the pointer still has a line after them. */
  ghost predicate GcRoom(lay: Layout, s: Ftl, v: nat)
    requires v < |s.line|
  {
    s.ls.gc.pos + s.line[v].vpc < (|s.ls.free| + 1) * lay.perLine
  }

  lemma RoomIsSlack(lay: Layout, s: Ftl, v: nat)
    requires Inv(lay, s, None, {}) && v in s.ls.victims
    ensures v < lay.lines
    ensures GcRoom(lay, s, v) <==> Slack(lay, TakeVictim(s, v), v, {}) + s.ls.user.pos > lay.perLine
  {
    hide Layout.Valid, TablesOk, CountsOk, RolesOk, FillOk, PartsOk, VictimOk, Slack;
    TakeInv(lay, s, v);
    Dist(|s.ls.free|, 1, lay.perLine);
  }

  lemma AllErased(lay: Layout, t: Ftl, v: nat, acts: seq<GcAct>)
    requires Shaped(lay, t) && Complete(lay, v, acts)
    requires ErasedFree(lay, Collect(lay, t, v, acts), acts)
    ensures var c := Collect(lay, t, v, acts);
            && (forall i :: 0 <= i < |lay.line| && lay.line[i] == v ==> c.status[i] == PgFree)
            && Live(lay, c, v, Done(acts)) == {}
  {
    var c := Collect(lay, t, v, acts);
    forall i | 0 <= i < |lay.line| && lay.line[i] == v
      ensures c.status[i] == PgFree
    {
      assert lay.OkPage(i);
    }
  }

  /**
   Collection of any victim, in any complete order, loses nothing and gains its invalid pages, if there is room for
   the valid ones.
   */
  lemma GcSound(lay: Layout, s: Ftl, v: nat, acts: seq<GcAct>)
    requires Inv(lay, s, None, {}) && v in s.ls.victims
    ensures v < lay.lines
    requires Complete(lay, v, acts) && (v < |s.line| ==> GcRoom(lay, s, v))
    ensures var r := Gc(lay, s, v, acts);
            && Inv(lay, r, None, {})
            && View(r) == View(s)
            && FreePages(lay, r) == FreePages(lay, s) + s.line[v].ipc
            && r.credits == s.credits && r.refill == s.line[v].ipc && 1 <= s.line[v].ipc <= lay.perLine
  {
    TakeInv(lay, s, v);
    RoomIsSlack(lay, s, v);
    var t := TakeVictim(s, v);
    assert CountOk(lay.line, s.status, s.line[v], v);
    CollectInv(lay, t, v, acts);
    var c := Collect(lay, t, v, acts);
    hide Inv, TablesOk, CountsOk, RolesOk, FillOk, PartsOk, View;
    AllErased(lay, t, v, acts);
    FreeInv(lay, c, v, Done(acts));
  }

  /** Without that room it runs out of free lines: the GC pointer needs one that is not there. */
  lemma GcAlive(lay: Layout, s: Ftl, v: nat, acts: seq<GcAct>)
    requires Inv(lay, s, None, {}) && v in s.ls.victims && Complete(lay, v, acts)
    ensures v < lay.lines
    ensures Gc(lay, s, v, acts).ls.alive <==> GcRoom(lay, s, v)
  {
    hide Layout.Valid, TablesOk, CountsOk, RolesOk, FillOk, PartsOk, VictimOk, View;
    TakeInv(lay, s, v);
    RoomIsSlack(lay, s, v);
    var t := TakeVictim(s, v);
    if GcRoom(lay, s, v) {
      GcSound(lay, s, v, acts);
    } else if Gc(lay, s, v, acts).ls.alive {
      CollectInv(lay, t, v, acts);
      AllErased(lay, t, v, acts);
      hide Collect;
      Roomy(lay, Collect(lay, t, v, acts));
    }
  }

  lemma Roomy(lay: Layout, c: Ftl)
    requires Shaped(lay, c)
    ensures FreePages(lay, c) + c.ls.user.pos > lay.perLine
  {
  }
}
