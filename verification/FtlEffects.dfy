/**
 What a host write and a collection do to the lines and their lists, told from the state before.
 */
module FtlEffects {
  import opened Arith
  import opened Base
  import opened FtlModel
  import opened FtlProofs
  import opened FtlGc

  /* ---------- a host write ---------- */

  ghost predicate Closes(lay: Layout, s: Ftl) { s.ls.user.pos + 1 == lay.perLine }

  /** The copy of l that a write of l makes invalid is in line v. */
  ghost predicate CopyIn(lay: Layout, s: Ftl, l: nat, v: nat)
    requires l < |s.maptbl|
  {
    s.maptbl[l].Some? && s.maptbl[l].value < |lay.line| && lay.line[s.maptbl[l].value] == v
  }

  /** The counters of line v after a write of l. */
  ghost function CountsAfter(lay: Layout, s: Ftl, l: nat, v: nat): Counts
    requires l < |s.maptbl| && v < |s.line|
  {
    Counts(s.line[v].vpc - One(CopyIn(lay, s, l, v)) + One(v == s.ls.user.line),
           s.line[v].ipc + One(CopyIn(lay, s, l, v)))
  }

  /** The lists after a host write, with p pages in a line. */
  ghost predicate HostLists(p: nat, ls: Lists, r: Lists)
  {
    && r.gc == ls.gc
    && if ls.user.pos + 1 == p
       then && ls.free != [] && r.free == ls.free[1..] && r.user == Wp(ls.free[0], 0)
            && r.full + r.victims == ls.full + ls.victims + {ls.user.line}
       else && r.free == ls.free && r.user == Wp(ls.user.line, ls.user.pos + 1)
            && r.full + r.victims == ls.full + ls.victims
  }

  lemma OldLine(lay: Layout, s: Ftl, l: nat)
    requires Inv(lay, s, None, {}) && l < lay.lines
    ensures s.line[l].vpc == lay.perLine <==> l in s.ls.full
    ensures l in s.ls.full ==> l !in s.ls.victims
  {
    assert CountOk(lay.line, s.status, s.line[l], l);
    hide Layout.Valid, TablesOk, CountsOk, FillOk, VictimOk;
    FullExactly(lay.lines, lay.perLine, s.line, s.ls, l);
  }

  lemma DropEffect(lay: Layout, s: Ftl, l: nat)
    requires Inv(lay, s, None, {}) && l < |s.maptbl| && s.maptbl[l].Some?
    ensures s.maptbl[l].value < |lay.line| && lay.line[s.maptbl[l].value] < |s.line|
    ensures var u, x := Invalidate(lay, s, s.maptbl[l].value), lay.line[s.maptbl[l].value];
            && u.ls == s.ls.(full := u.ls.full, victims := u.ls.victims)
            && u.ls.full + u.ls.victims == s.ls.full + s.ls.victims
            && u.line == s.line[x := Counts(s.line[x].vpc - 1, s.line[x].ipc + 1)] && u.maptbl == s.maptbl
  {
    hide Layout.Valid, TablesOk, CountsOk, RolesOk, FillOk, PartsOk, VictimOk;
    DropInv(lay, s, l);
    DropFields(lay, s, l);
    OldLine(lay, s, lay.line[s.maptbl[l].value]);
    DropMaptbl(lay, s, l);
    hide Invalidate, SetStatus;
    assert Invalidate(lay, s, s.maptbl[l].value) == Dropped(lay, s, l).(maptbl := s.maptbl);
  }

  lemma AppendEffect(lay: Layout, u: Ftl, l: nat, d: Payload)
    requires Shaped(lay, u) && l < |u.maptbl| && u.status[NewPage(lay, u, UserIo)] == PgFree
    requires u.ls.user.pos + 1 == lay.perLine ==> u.ls.free != []
    ensures var h, x := Append(lay, u, UserIo, l, d), u.ls.user.line;
            && HostLists(lay.perLine, u.ls, h.ls)
            && h.line == u.line[x := Counts(u.line[x].vpc + 1, u.line[x].ipc)]
            && h.maptbl == u.maptbl[l := Some(NewPage(lay, u, UserIo))]
  {
    AppendFields(lay, u, UserIo, l, d);
    hide Layout.Valid, NewPage;
  }

  lemma HostEffect(lay: Layout, s: Ftl, l: nat, d: Payload)
    requires Inv(lay, s, None, {}) && l < |s.maptbl| && (Closes(lay, s) ==> s.ls.free != [])
    ensures s.maptbl[l].Some? ==> s.maptbl[l].value < |lay.line|
    ensures var h := HostWrite(lay, s, l, d);
            && HostLists(lay.perLine, s.ls, h.ls) && |h.line| == |s.line|
            && (forall v :: 0 <= v < |s.line| ==> h.line[v] == CountsAfter(lay, s, l, v))
            && |h.maptbl| == |s.maptbl| && CopyIn(lay, h, l, s.ls.user.line)
            && (forall k :: 0 <= k < |s.maptbl| && k != l ==> h.maptbl[k] == s.maptbl[k])
  {
    hide Layout.Valid, TablesOk, CountsOk, RolesOk, FillOk, PartsOk, VictimOk, Invalidate, Append;
    HostReady(lay, s, l);
    if s.maptbl[l].Some? {
      DropEffect(lay, s, l);
    }
    var u := if s.maptbl[l].Some? then Invalidate(lay, s, s.maptbl[l].value) else s;
    AppendEffect(lay, u, l, d);
  }

  lemma DropMaptbl(lay: Layout, s: Ftl, l: nat)
    requires Shaped(lay, s) && l < |s.maptbl|
    ensures s.maptbl[l].Some? && s.maptbl[l].value < |lay.line| ==>
              Invalidate(lay, s, s.maptbl[l].value).maptbl == s.maptbl
  {
    hide Layout.Valid;
  }

  /* ---------- a collection ---------- */

  /** Only the GC pointer moved: within its line, or on to the first free line, or further. */
  ghost predicate GcLists(ls: Lists, r: Lists)
  {
    && r.user == ls.user
    && (|| (r.free == ls.free && r.gc.line == ls.gc.line && r.full + r.victims == ls.full + ls.victims)
        || (ls.free != [] && r.free == ls.free[1..] && r.gc.line == ls.free[0]
            && r.full + r.victims == ls.full + ls.victims + {ls.gc.line})
        || |r.free| + 2 <= |ls.free|)
  }

  lemma GcListsStep(perLine: nat, ls: Lists, c: Lists, allValid: bool)
    requires GcLists(ls, c)
    ensures GcLists(ls, AdvanceLists(perLine, c, GcIo, allValid))
  {
  }

  ghost predicate SameInvalid(lay: Layout, v: nat, status: seq<Status>, r: seq<Status>)
  {
    && |r| == |status| == |lay.line|
    && forall i :: 0 <= i < |status| && lay.line[i] != v ==> (r[i] == PgInvalid <==> status[i] == PgInvalid)
  }

  lemma ActEffect(lay: Layout, ls: Lists, status: seq<Status>, c: Ftl, v: nat, done: set<nat>, a: GcAct)
    requires Inv(lay, c, Some(v), done) && ActOk(lay, v, done, a)
    requires GcLists(ls, c.ls) && SameInvalid(lay, v, status, c.status)
    ensures var r := Act(lay, c, v, done, a); GcLists(ls, r.ls) && SameInvalid(lay, v, status, r.status)
  {
    match a
    case Copy(p) =>
      hide Layout.Valid, TablesOk, CountsOk, RolesOk, FillOk, PartsOk, VictimOk, GcLists;
      if c.status[p] == PgValid && c.rmap[p].Some? && c.rmap[p].value < |c.maptbl| {
        var l, d := c.rmap[p].value, c.data[p];
        ProgramAsserts(lay, c, GcIo, Some(v), done);
        AppendFields(lay, c, GcIo, l, d);
        var t := Program(lay, c, GcIo, l, d);
        GcListsStep(lay.perLine, ls, c.ls, t.line[t.ls.Ptr(GcIo).line].vpc == lay.perLine);
      }
    case Erase(b) =>
      hide TablesOk, CountsOk, RolesOk, FillOk, PartsOk, VictimOk, GcLists;
      forall i | 0 <= i < |lay.line| && lay.line[i] != v ensures lay.block[i] != b {
        assert lay.OkPage(i);
      }
  }

  lemma {:induction false} CollectEffect(lay: Layout, s: Ftl, v: nat, acts: seq<GcAct>)
    requires Inv(lay, s, Some(v), {}) && Legal(lay, v, acts) && Collect(lay, s, v, acts).ls.alive
    ensures var r := Collect(lay, s, v, acts); GcLists(s.ls, r.ls) && SameInvalid(lay, v, s.status, r.status)
  {
    hide Layout.Valid, TablesOk, CountsOk, RolesOk, FillOk, PartsOk, VictimOk, Act;
    if acts == [] {
    } else {
      var k := |acts| - 1;
      ActDead(lay, Collect(lay, s, v, acts[..k]), v, Done(acts[..k]), acts[k]);
      CollectEffect(lay, s, v, acts[..k]);
      CollectInv(lay, s, v, acts[..k]);
      hide GcLists, SameInvalid;
      ActEffect(lay, s.ls, s.status, Collect(lay, s, v, acts[..k]), v, Done(acts[..k]), acts[k]);
    }
  }

  /** The lists after line v with k valid pages was collected. */
  ghost predicate GcListsAfter(p: nat, ls: Lists, v: nat, k: nat, r: Lists)
  {
    && r.user == ls.user
    && if ls.gc.pos + k < p
       then && r.gc == Wp(ls.gc.line, ls.gc.pos + k) && r.free == ls.free + [v]
            && r.full + r.victims == ls.full + ls.victims - {v}
       else && ls.free != [] && r.gc == Wp(ls.free[0], ls.gc.pos + k - p) && r.free == ls.free[1..] + [v]
            && r.full + r.victims == ls.full + (ls.victims - {v}) + {ls.gc.line}
  }

  lemma GcCounts(lay: Layout, s: Ftl, r: Ftl, v: nat, l: nat)
    requires |s.line| == |r.line| && l < |s.line| && l != v && SameInvalid(lay, v, s.status, r.status)
    requires CountsOk(lay.line, s.status, s.line, None) && CountsOk(lay.line, r.status, r.line, None)
    ensures r.line[l].ipc == s.line[l].ipc
  {
    assert CountOk(lay.line, s.status, s.line[l], l) && CountOk(lay.line, r.status, r.line[l], l);
    assert In(lay.line, s.status, l, PgInvalid) == In(lay.line, r.status, l, PgInvalid);
  }

  lemma GcPointer(lay: Layout, ls: Lists, c: Lists, v: nat, k: nat)
    requires GcLists(ls.(victims := ls.victims - {v}), c) && k < lay.perLine
    requires ls.gc.pos < lay.perLine && c.gc.pos < lay.perLine && v in ls.victims && v !in ls.full && v != ls.gc.line
    requires |c.free| * lay.perLine - c.gc.pos == |ls.free| * lay.perLine - ls.gc.pos - k
    ensures GcListsAfter(lay.perLine, ls, v, k, c.(free := c.free + [v]))
  {
    var f, n := |ls.free|, |c.free|;
    if n + 2 <= f {
      MulLe(n + 2, f, lay.perLine);
      Dist(n, 2, lay.perLine);
      assert false;
    } else if n == f {
    } else {
      Dist(n, 1, lay.perLine);
    }
  }

  /** Told from the state before, what collecting line v does to lists and invalid pages. */
  lemma GcEffect(lay: Layout, s: Ftl, v: nat, acts: seq<GcAct>)
    requires Inv(lay, s, None, {}) && v in s.ls.victims && Complete(lay, v, acts)
    requires v < |s.line| ==> GcRoom(lay, s, v)
    ensures v < lay.lines
    ensures var r := Gc(lay, s, v, acts);
            && s.line[v].vpc >= 0 && GcListsAfter(lay.perLine, s.ls, v, s.line[v].vpc, r.ls) && |r.line| == |s.line|
            && forall l :: 0 <= l < |s.line| && l != v ==> r.line[l].ipc == s.line[l].ipc
  {
    hide Layout.Valid, TablesOk, CountsOk, RolesOk, FillOk, PartsOk, VictimOk, View;
    GcSound(lay, s, v, acts);
    GcAlive(lay, s, v, acts);
    TakeInv(lay, s, v);
    RoomIsSlack(lay, s, v);
    var t := TakeVictim(s, v);
    CollectEffect(lay, t, v, acts);
    CollectInv(lay, t, v, acts);
    AllErased(lay, t, v, acts);
    var c, r := Collect(lay, t, v, acts), Gc(lay, s, v, acts);
    hide Collect, GcLists, SameInvalid;
    VictimApart(lay, s, v);
    assert |c.ls.free| * lay.perLine - c.ls.gc.pos == |s.ls.free| * lay.perLine - s.ls.gc.pos - s.line[v].vpc
      by { PointerSum(lay, s, t, c, v, Done(acts)); }
    GcPointer(lay, s.ls, c.ls, v, s.line[v].vpc);
    forall l | 0 <= l < |s.line| && l != v ensures r.line[l].ipc == s.line[l].ipc {
      GcCounts(lay, s, r, v, l);
    }
  }

  lemma VictimApart(lay: Layout, s: Ftl, v: nat)
    requires Inv(lay, s, None, {}) && v in s.ls.victims
    ensures v < |s.line| && 0 <= s.line[v].vpc < lay.perLine && v !in s.ls.full && v != s.ls.gc.line
  {
    hide TablesOk, FillOk, VictimOk;
    assert CountOk(lay.line, s.status, s.line[v], v);
  }

  lemma PointerSum(lay: Layout, s: Ftl, t: Ftl, c: Ftl, v: nat, done: set<nat>)
    requires v < |s.line| && t == TakeVictim(s, v) && Live(lay, c, v, done) == {} && c.ls.user == t.ls.user
    requires Slack(lay, c, v, done) == Slack(lay, t, v, {}) == FreePages(lay, s) - s.line[v].vpc
    ensures |c.ls.free| * lay.perLine - c.ls.gc.pos == |s.ls.free| * lay.perLine - s.ls.gc.pos - s.line[v].vpc
  {
  }

  /* ---------- every line can be collected ---------- */

  lemma LegalSnoc(lay: Layout, v: nat, acts: seq<GcAct>, a: GcAct)
    requires lay.Valid() && Legal(lay, v, acts) && ActOk(lay, v, Done(acts), a)
    ensures Legal(lay, v, acts + [a])
  {
    assert (acts + [a])[..|acts|] == acts;
  }

  lemma NoActs(lay: Layout, v: nat)
    requires lay.Valid()
    ensures Legal(lay, v, []) && Done([]) == {}
  {
  }

  lemma {:induction false} CopyAll(lay: Layout, v: nat, pages: set<nat>) returns (acts: seq<GcAct>)
    requires lay.Valid() && pages <= lay.LinePages(v)
    ensures Legal(lay, v, acts) && Done(acts) == pages
    decreases pages
  {
    hide Layout.Valid, Legal, Done;
    if pages == {} {
      acts := [];
      NoActs(lay, v);
    } else {
      var p :| p in pages;
      var rest := CopyAll(lay, v, pages - {p});
      acts := rest + [Copy(p)];
      LegalSnoc(lay, v, rest, Copy(p));
      DoneSnoc(rest, Copy(p));
    }
  }

  lemma {:induction false} EraseAll(lay: Layout, v: nat, acts: seq<GcAct>, n: nat) returns (r: seq<GcAct>)
    requires lay.Valid() && Legal(lay, v, acts) && Done(acts) == lay.LinePages(v) && n <= |lay.blockLine|
    ensures Legal(lay, v, r) && Done(r) == lay.LinePages(v)
    ensures forall b :: 0 <= b < n && lay.blockLine[b] == v ==> b in Erased(r)
  {
    hide Layout.Valid, Legal, Done, Erased;
    if n == 0 {
      r := acts;
    } else {
      r := EraseAll(lay, v, acts, n - 1);
      if lay.blockLine[n - 1] == v {
        assert lay.BlockPages(n - 1) <= lay.LinePages(v) by { BlockInLine(lay, n - 1); }
        LegalSnoc(lay, v, r, Erase(n - 1));
        DoneSnoc(r, Erase(n - 1));
        r := r + [Erase(n - 1)];
      }
    }
  }

  lemma BlockInLine(lay: Layout, b: nat)
    requires lay.Valid() && b < |lay.blockLine|
    ensures lay.BlockPages(b) <= lay.LinePages(lay.blockLine[b])
  {
    forall i | i in lay.BlockPages(b) ensures i in lay.LinePages(lay.blockLine[b]) {
      assert lay.OkPage(i);
    }
  }

  lemma CompleteExists(lay: Layout, v: nat) returns (acts: seq<GcAct>)
    requires lay.Valid()
    ensures Complete(lay, v, acts)
  {
    hide Legal, Done, Erased;
    acts := CopyAll(lay, v, lay.LinePages(v));
    acts := EraseAll(lay, v, acts, |lay.blockLine|);
  }
}
