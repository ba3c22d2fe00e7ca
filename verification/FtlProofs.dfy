/** The invariant of the flash translation layer and what one step keeps. */
module FtlProofs {
  import opened Arith
  import opened Base
  import opened FtlModel

  /* ---------- counters ---------- */

  lemma CountsStep(group: seq<nat>, status: seq<Status>, counts: seq<Counts>, skip: Option<nat>, i: nat, to: Status)
    requires |group| == |status| && i < |status| && group[i] < |counts|
    requires CountsOk(group, status, counts, skip)
    ensures CountsOk(group, status[i := to], counts[group[i] := Bump(counts[group[i]], status[i], to)], skip)
  {
    var b := group[i];
    var c' := Bump(counts[b], status[i], to);
    forall g: nat | g < |counts| && Some(g) != skip
      ensures CountOk(group, status[i := to], counts[b := c'][g], g)
    {
      CountStep(group, status, g, i, to, PgValid);
      CountStep(group, status, g, i, to, PgInvalid);
      assert CountOk(group, status, counts[g], g);
    }
  }

  lemma CountStep(group: seq<nat>, status: seq<Status>, g: nat, i: nat, to: Status, k: Status)
    requires |group| == |status| && i < |status|
    ensures |In(group, status[i := to], g, k)| ==
            |In(group, status, g, k)| - (if g == group[i] && status[i] == k then 1 else 0)
                                      + (if g == group[i] && to == k then 1 else 0)
  {
    var before, after := In(group, status, g, k), In(group, status[i := to], g, k);
    assert forall x :: x in before && x != i <==> x in after && x != i;
    assert before - {i} == after - {i};
    SizeWithout(before, i);
    SizeWithout(after, i);
  }

  lemma SizeWithout(s: set<nat>, i: nat)
    ensures |s| == |s - {i}| + (if i in s then 1 else 0)
  {
    if i in s { assert s == (s - {i}) + {i}; } else { assert s == s - {i}; }
  }

  /* ---------- appending a page ---------- */

  lemma TablesAppend(m: seq<Option<nat>>, rmap: seq<Option<nat>>, status: seq<Status>, done: set<nat>, l: nat, q: nat)
    requires |m| == |rmap| == |status| && l < |m| && q < |status|
    requires TablesOk(m, rmap, status, done)
    requires m[l].None? && status[q] == PgFree && q !in done
    ensures TablesOk(m[l := Some(q)], rmap[q := Some(l)], status[q := PgValid], done)
  {
    var m', r', t' := m[l := Some(q)], rmap[q := Some(l)], status[q := PgValid];
    forall k | 0 <= k < |m| && m'[k].Some?
      ensures Mapped(m', r', t', done, k)
    {
      if k != l { assert Mapped(m, rmap, status, done, k); }
    }
    forall p | 0 <= p < |status| && t'[p] == PgValid && p !in done
      ensures Owned(m', r', p)
    {
      if p != q { assert Owned(m, rmap, p); }
    }
  }

  lemma FillAppend(lay: Layout, status: seq<Status>, line: seq<Counts>, v: Option<nat>, q: nat)
    requires lay.Valid() && |status| == |lay.line| && |line| == lay.lines && q < |status|
    requires FillOk(lay, status, line, v) && Some(lay.line[q]) != v
    requires lay.line[q] < lay.lines && lay.slot[q] == Sum(line[lay.line[q]])
    ensures status[q] == PgFree
    ensures FillOk(lay, status[q := PgValid], line[lay.line[q] := Bump(line[lay.line[q]], PgFree, PgValid)], v)
  {
    assert PageFilled(lay, status, line, q);
    var t, c := status[q := PgValid], line[lay.line[q] := Bump(line[lay.line[q]], PgFree, PgValid)];
    forall i | 0 <= i < |status| && Some(lay.line[i]) != v
      ensures PageFilled(lay, t, c, i)
    {
      assert PageFilled(lay, status, line, i);
      assert lay.OkPage(i) && lay.OkPage(q);
    }
  }

  /** The closed line moves to `full` or to `victims`, line f becomes the open one. */
  lemma PartitionClose(lines: nat, free: set<nat>, full: set<nat>, victims: set<nat>,
                       user: nat, gc: nat, v: Option<nat>, f: nat)
    requires Partition(lines, free, full, victims, user, gc, v) && f in free
    ensures Partition(lines, free - {f}, full + {user}, victims, f, gc, v)
    ensures Partition(lines, free - {f}, full, victims + {user}, f, gc, v)
    ensures Partition(lines, free - {f}, full + {gc}, victims, user, f, v)
    ensures Partition(lines, free - {f}, full, victims + {gc}, user, f, v)
    ensures user !in full && user !in victims && gc !in full && gc !in victims
  {
  }

  lemma ClosePartition(lines: nat, ls: Lists, w: Which, v: Option<nat>, allValid: bool)
    requires NoDup(ls.free) && ls.free != []
    requires Partition(lines, SetOf(ls.free), ls.full, ls.victims, ls.user.line, ls.gc.line, v)
    ensures ls.Ptr(w).line !in ls.full && ls.Ptr(w).line !in ls.victims
    ensures var r := CloseLine(ls, w, allValid);
            && NoDup(r.free)
            && Partition(lines, SetOf(r.free), r.full, r.victims, r.user.line, r.gc.line, v)
  {
    hide NoDup, SetOf, Partition;
    SetOfTail(ls.free);
    PartitionClose(lines, SetOf(ls.free), ls.full, ls.victims, ls.user.line, ls.gc.line, v, ls.free[0]);
  }

  lemma CloseSizes(ls: Lists, w: Which, allValid: bool)
    requires ls.free != [] && ls.Ptr(w).line !in ls.full && ls.Ptr(w).line !in ls.victims
    ensures var r := CloseLine(ls, w, allValid);
            |r.free| + |r.full| + |r.victims| == |ls.free| + |ls.full| + |ls.victims|
  {
    if allValid {
      SizeWith(ls.full, ls.Ptr(w).line);
    } else {
      SizeWith(ls.victims, ls.Ptr(w).line);
    }
  }

  lemma CloseRoles(lines: nat, ls: Lists, w: Which, v: Option<nat>, allValid: bool)
    requires RolesOk(lines, ls, v) && ls.free != []
    ensures RolesOk(lines, CloseLine(ls, w, allValid), v)
  {
    hide NoDup, SetOf, Partition, CloseLine;
    ClosePartition(lines, ls, w, v, allValid);
    CloseSizes(ls, w, allValid);
  }

  lemma SizeWith(s: set<nat>, l: nat)
    requires l !in s
    ensures |s + {l}| == |s| + 1
  {
  }

  lemma AdvanceRoles(lines: nat, perLine: nat, ls: Lists, w: Which, v: Option<nat>, allValid: bool)
    requires RolesOk(lines, ls, v)
    requires ls.Ptr(w).pos + 1 >= perLine ==> ls.free != []
    ensures RolesOk(lines, AdvanceLists(perLine, ls, w, allValid), v)
  {
    hide NoDup, SetOf, Partition;
    if ls.Ptr(w).pos + 1 >= perLine { CloseRoles(lines, ls, w, v, allValid); }
  }

  lemma AdvanceRoom(lay: Layout, t: Ftl, w: Which)
    requires Shaped(lay, t)
    requires t.ls.Ptr(w).pos + 1 == lay.perLine ==> t.ls.free != []
    ensures Advance(lay, t, w).ls.alive == t.ls.alive
    ensures FreePages(lay, Advance(lay, t, w)) == FreePages(lay, t) - 1
  {
    hide Layout.Valid;
    Dist(|t.ls.free|, -1, lay.perLine);
  }

  /** One more valid page in the open line l concerns none of the other lines. */
  lemma PartsBump(perLine: nat, line: seq<Counts>, ls: Lists, lines: nat, v: Option<nat>, l: nat)
    requires PartsOk(perLine, line, ls) && RolesOk(lines, ls, v)
    requires l == ls.user.line || l == ls.gc.line
    ensures FreeParts(line[l := Bump(line[l], PgFree, PgValid)], SetOf(ls.free))
    ensures ClosedParts(perLine, line[l := Bump(line[l], PgFree, PgValid)], ls.full, ls.victims)
  {
  }

  lemma CloseParts(perLine: nat, line: seq<Counts>, ls: Lists, w: Which)
    requires FreeParts(line, SetOf(ls.free)) && ClosedParts(perLine, line, ls.full, ls.victims)
    requires ls.user.line < |line| && ls.gc.line < |line| && ls.user.line != ls.gc.line
    requires w.GcIo? ==> Sum(line[ls.user.line]) == ls.user.pos
    requires w.UserIo? ==> Sum(line[ls.gc.line]) == ls.gc.pos
    requires Sum(line[ls.Ptr(w).line]) == perLine && line[ls.Ptr(w).line].ipc >= 0
    requires ls.free != [] && NoDup(ls.free)
    ensures PartsOk(perLine, line, CloseLine(ls, w, line[ls.Ptr(w).line].vpc == perLine))
  {
    hide NoDup, SetOf;
    SetOfTail(ls.free);
    var r := CloseLine(ls, w, line[ls.Ptr(w).line].vpc == perLine);
    assert FreeParts(line, SetOf(r.free));
    assert ClosedParts(perLine, line, r.full, r.victims);
    hide FreeParts, ClosedParts;
  }

  /** After a page was programmed at the write pointer, moving the pointer restores the parts. */
  lemma AdvanceParts(perLine: nat, line: seq<Counts>, ls: Lists, lines: nat, v: Option<nat>, w: Which)
    requires PartsOk(perLine, line, ls) && RolesOk(lines, ls, v)
    requires ls.Ptr(w).pos < perLine
    requires ls.Ptr(w).pos + 1 == perLine ==> ls.free != []
    requires line[ls.Ptr(w).line].ipc >= 0
    ensures var l := ls.Ptr(w).line;
            var line' := line[l := Bump(line[l], PgFree, PgValid)];
            PartsOk(perLine, line', AdvanceLists(perLine, ls, w, line'[l].vpc == perLine))
  {
    var l := ls.Ptr(w).line;
    assert ls.user.line != ls.gc.line;
    PartsBump(perLine, line, ls, lines, v, l);
    assert NoDup(ls.free);
    hide NoDup, SetOf, RolesOk, FreeParts, ClosedParts;
    var line' := line[l := Bump(line[l], PgFree, PgValid)];
    if ls.Ptr(w).pos + 1 == perLine {
      hide PartsOk;
      CloseParts(perLine, line', ls, w);
    }
  }

  /** What appending does to each field. */
  lemma AppendFields(lay: Layout, s: Ftl, w: Which, l: nat, d: Payload)
    requires Shaped(lay, s) && l < |s.maptbl|
    ensures var r, q := Append(lay, s, w, l, d), NewPage(lay, s, w);
            && r.maptbl == s.maptbl[l := Some(q)] && r.rmap == s.rmap[q := Some(l)]
            && r.status == s.status[q := PgValid] && r.data == s.data[q := d]
            && lay.block[q] < |s.blk|
            && r.blk == s.blk[lay.block[q] := Bump(s.blk[lay.block[q]], s.status[q], PgValid)]
            && r.line == s.line[lay.line[q] := Bump(s.line[lay.line[q]], s.status[q], PgValid)]
            && r.credits == s.credits && r.refill == s.refill
  {
    assert lay.OkPage(NewPage(lay, s, w));
  }

  lemma AppendParts(lay: Layout, s: Ftl, w: Which, l: nat, d: Payload, v: Option<nat>)
    requires Shaped(lay, s) && l < |s.maptbl|
    requires CountsOk(lay.line, s.status, s.line, v) && RolesOk(lay.lines, s.ls, v)
    requires FillOk(lay, s.status, s.line, v) && PartsOk(lay.perLine, s.line, s.ls)
    requires s.ls.Ptr(w).pos + 1 == lay.perLine ==> s.ls.free != []
    ensures s.status[NewPage(lay, s, w)] == PgFree && Some(s.ls.Ptr(w).line) != v
    ensures var r := Append(lay, s, w, l, d);
            && RolesOk(lay.lines, r.ls, v) && FillOk(lay, r.status, r.line, v)
            && PartsOk(lay.perLine, r.line, r.ls)
  {
    var q := NewPage(lay, s, w);
    assert Some(s.ls.Ptr(w).line) != v && Sum(s.line[s.ls.Ptr(w).line]) == s.ls.Ptr(w).pos;
    assert CountOk(lay.line, s.status, s.line[s.ls.Ptr(w).line], s.ls.Ptr(w).line);
    hide Layout.Valid, PartsOk, RolesOk, FillOk;
    FillAppend(lay, s.status, s.line, v, q);
    var t := Program(lay, s, w, l, d);
    AdvanceRoles(lay.lines, lay.perLine, s.ls, w, v, t.line[s.ls.Ptr(w).line].vpc == lay.perLine);
    AdvanceParts(lay.perLine, s.line, s.ls, lay.lines, v, w);
  }

  lemma AppendRoom(lay: Layout, s: Ftl, w: Which, l: nat, d: Payload)
    requires Shaped(lay, s) && l < |s.maptbl|
    requires s.ls.Ptr(w).pos + 1 == lay.perLine ==> s.ls.free != []
    ensures Append(lay, s, w, l, d).ls.alive == s.ls.alive
    ensures FreePages(lay, Append(lay, s, w, l, d)) == FreePages(lay, s) - 1
  {
    hide Layout.Valid;
    AdvanceRoom(lay, Program(lay, s, w, l, d), w);
  }

  /** A pointer that comes out alive found a free line if it needed one. */
  lemma AppendAlive(lay: Layout, s: Ftl, w: Which, l: nat, d: Payload)
    requires Shaped(lay, s) && l < |s.maptbl|
    ensures Append(lay, s, w, l, d).ls.alive <==>
              s.ls.alive && (s.ls.Ptr(w).pos + 1 == lay.perLine ==> s.ls.free != [])
  {
    hide Layout.Valid, NewPage;
  }

  lemma AppendCounts(lay: Layout, s: Ftl, w: Which, l: nat, d: Payload, v: Option<nat>)
    requires Shaped(lay, s) && l < |s.maptbl|
    requires CountsOk(lay.block, s.status, s.blk, None) && CountsOk(lay.line, s.status, s.line, v)
    ensures var r := Append(lay, s, w, l, d);
            CountsOk(lay.block, r.status, r.blk, None) && CountsOk(lay.line, r.status, r.line, v)
  {
    AppendFields(lay, s, w, l, d);
    var q := NewPage(lay, s, w);
    CountsStep(lay.block, s.status, s.blk, None, q, PgValid);
    CountsStep(lay.line, s.status, s.line, v, q, PgValid);
  }

  /** Programming an unmapped logical page keeps the invariant and adds exactly that page to the view. */
  lemma AppendInv(lay: Layout, s: Ftl, w: Which, l: nat, d: Payload, v: Option<nat>, done: set<nat>)
    requires Inv(lay, s, v, done) && l < |s.maptbl| && s.maptbl[l].None?
    requires s.ls.Ptr(w).pos + 1 == lay.perLine ==> s.ls.free != []
    ensures Inv(lay, Append(lay, s, w, l, d), v, done)
    ensures View(Append(lay, s, w, l, d)) == View(s)[l := d]
    ensures FreePages(lay, Append(lay, s, w, l, d)) == FreePages(lay, s) - 1
  {
    hide Layout.Valid, RolesOk, PartsOk, FillOk, TablesOk, CountsOk, Advance, View;
    var q := NewPage(lay, s, w);
    AppendFields(lay, s, w, l, d);
    AppendParts(lay, s, w, l, d, v);
    AppendCounts(lay, s, w, l, d, v);
    AppendRoom(lay, s, w, l, d);
    assert q !in done;
    TablesAppend(s.maptbl, s.rmap, s.status, done, l, q);
    ViewAppend(lay, s, w, l, d, done);
    assert VictimOk(lay, Append(lay, s, w, l, d), v, done);
  }

  lemma ViewAppend(lay: Layout, s: Ftl, w: Which, l: nat, d: Payload, done: set<nat>)
    requires Shaped(lay, s) && l < |s.maptbl|
    requires TablesOk(s.maptbl, s.rmap, s.status, done)
    requires s.status[NewPage(lay, s, w)] == PgFree
    ensures View(Append(lay, s, w, l, d)) == View(s)[l := d]
  {
    var q := NewPage(lay, s, w);
    var r := Append(lay, s, w, l, d);
    assert r.maptbl == s.maptbl[l := Some(q)] && r.data == s.data[q := d];
    forall k | 0 <= k < |s.maptbl| && k != l && s.maptbl[k].Some?
      ensures s.maptbl[k].value != q
    {
      assert Mapped(s.maptbl, s.rmap, s.status, done, k);
    }
  }

  /* ---------- a host write ---------- */

  lemma TablesUnmap(m: seq<Option<nat>>, rmap: seq<Option<nat>>, status: seq<Status>, l: nat)
    requires |m| == |rmap| == |status| && l < |m| && m[l].Some?
    requires TablesOk(m, rmap, status, {})
    ensures var p := m[l].value;
            && p < |status| && status[p] == PgValid
            && TablesOk(m[l := None], rmap[p := None], status[p := PgInvalid], {})
  {
    assert Mapped(m, rmap, status, {}, l);
    var p := m[l].value;
    var m', r', t' := m[l := None], rmap[p := None], status[p := PgInvalid];
    forall k | 0 <= k < |m| && m'[k].Some?
      ensures Mapped(m', r', t', {}, k)
    {
      assert Mapped(m, rmap, status, {}, k);
    }
    forall q | 0 <= q < |status| && t'[q] == PgValid
      ensures Owned(m', r', q)
    {
      assert Owned(m, rmap, q);
    }
  }

  lemma FillInvalidate(lay: Layout, status: seq<Status>, line: seq<Counts>, v: Option<nat>, p: nat)
    requires lay.Valid() && |status| == |lay.line| && |line| == lay.lines && p < |status|
    requires FillOk(lay, status, line, v) && status[p] == PgValid && lay.line[p] < lay.lines
    ensures FillOk(lay, status[p := PgInvalid], line[lay.line[p] := Bump(line[lay.line[p]], PgValid, PgInvalid)], v)
  {
    var t, c := status[p := PgInvalid], line[lay.line[p] := Bump(line[lay.line[p]], PgValid, PgInvalid)];
    forall i | 0 <= i < |status| && Some(lay.line[i]) != v
      ensures PageFilled(lay, t, c, i)
    {
      assert PageFilled(lay, status, line, i);
    }
  }

  /** A line holds `perLine` valid pages exactly when it is on the full list. */
  lemma FullExactly(lines: nat, perLine: nat, line: seq<Counts>, ls: Lists, l: nat)
    requires ListsShaped(lines, perLine, ls) && perLine > 0
    requires RolesOk(lines, ls, None) && PartsOk(perLine, line, ls)
    requires l < lines && l < |line| && line[l].ipc >= 0
    ensures line[l].vpc == perLine <==> l in ls.full
  {
    hide NoDup;
  }

  ghost function Demoted(ls: Lists, l: nat, wasFull: bool): Lists {
    if wasFull then ls.(full := ls.full - {l}, victims := ls.victims + {l}) else ls
  }

  lemma DemoteRoles(lines: nat, ls: Lists, l: nat, wasFull: bool)
    requires RolesOk(lines, ls, None) && (wasFull ==> l in ls.full)
    ensures RolesOk(lines, Demoted(ls, l, wasFull), None)
  {
    hide NoDup, SetOf;
    if wasFull {
      assert |ls.full - {l}| == |ls.full| - 1;
      assert |ls.victims + {l}| == |ls.victims| + 1;
    }
  }

  lemma DemoteParts(perLine: nat, line: seq<Counts>, ls: Lists, l: nat)
    requires PartsOk(perLine, line, ls) && l < |line|
    requires line[l].vpc == perLine <==> l in ls.full
    requires perLine > 0
    ensures PartsOk(perLine, line[l := Bump(line[l], PgValid, PgInvalid)], Demoted(ls, l, line[l].vpc == perLine))
  {
    hide SetOf;
  }

  /** Dropping the old copy of logical page l, seen as if l were unmapped at once. */
  ghost function Dropped(lay: Layout, s: Ftl, l: nat): (r: Ftl)
    requires Shaped(lay, s) && l < |s.maptbl| && s.maptbl[l].Some? && s.maptbl[l].value < |lay.line|
    ensures Shaped(lay, r)
  {
    Invalidate(lay, s, s.maptbl[l].value).(maptbl := s.maptbl[l := None])
  }

  lemma DropFields(lay: Layout, s: Ftl, l: nat)
    requires Shaped(lay, s) && l < |s.maptbl| && s.maptbl[l].Some? && s.maptbl[l].value < |lay.line|
    requires s.status[s.maptbl[l].value] == PgValid
    ensures var r, p := Dropped(lay, s, l), s.maptbl[l].value;
            && lay.block[p] < |s.blk| && lay.line[p] < |s.line|
            && r == Ftl(s.maptbl[l := None], s.rmap[p := None], s.status[p := PgInvalid], s.data,
                        s.blk[lay.block[p] := Bump(s.blk[lay.block[p]], PgValid, PgInvalid)],
                        s.line[lay.line[p] := Bump(s.line[lay.line[p]], PgValid, PgInvalid)],
                        Demoted(s.ls, lay.line[p], s.line[lay.line[p]].vpc == lay.perLine),
                        s.credits, s.refill)
  {
    assert lay.OkPage(s.maptbl[l].value);
  }

  lemma DropView(lay: Layout, s: Ftl, l: nat)
    requires Shaped(lay, s) && l < |s.maptbl| && s.maptbl[l].Some? && s.maptbl[l].value < |lay.line|
    requires s.status[s.maptbl[l].value] == PgValid
    ensures View(Dropped(lay, s, l)) == View(s) - {l}
    ensures FreePages(lay, Dropped(lay, s, l)) == FreePages(lay, s)
  {
    DropFields(lay, s, l);
    hide Layout.Valid, Dropped;
  }

  lemma DropInv(lay: Layout, s: Ftl, l: nat)
    requires Inv(lay, s, None, {}) && l < |s.maptbl| && s.maptbl[l].Some?
    ensures s.maptbl[l].value < |lay.line| && s.status[s.maptbl[l].value] == PgValid
    ensures Inv(lay, Dropped(lay, s, l), None, {})
  {
    var p := s.maptbl[l].value;
    TablesUnmap(s.maptbl, s.rmap, s.status, l);
    assert lay.OkPage(p);
    assert CountOk(lay.line, s.status, s.line[lay.line[p]], lay.line[p]);
    hide Layout.Valid, TablesOk, CountsOk, RolesOk, FillOk, PartsOk;
    DropFields(lay, s, l);
    CountsStep(lay.block, s.status, s.blk, None, p, PgInvalid);
    CountsStep(lay.line, s.status, s.line, None, p, PgInvalid);
    FillInvalidate(lay, s.status, s.line, None, p);
    FullExactly(lay.lines, lay.perLine, s.line, s.ls, lay.line[p]);
    DemoteRoles(lay.lines, s.ls, lay.line[p], s.line[lay.line[p]].vpc == lay.perLine);
    DemoteParts(lay.perLine, s.line, s.ls, lay.line[p]);
    hide Dropped, Demoted, CountOk, Bump;
  }

  /** Programming overwrites whatever the logical page was mapped to. */
  lemma AppendForgets(lay: Layout, s: Ftl, w: Which, l: nat, d: Payload)
    requires Shaped(lay, s) && l < |s.maptbl|
    ensures Append(lay, s, w, l, d) == Append(lay, s.(maptbl := s.maptbl[l := None]), w, l, d)
  {
    hide Layout.Valid;
    var q := NewPage(lay, s, w);
    assert s.maptbl[l := None][l := Some(q)] == s.maptbl[l := Some(q)];
  }

  lemma HostMapped(lay: Layout, s: Ftl, l: nat, d: Payload)
    requires Inv(lay, s, None, {}) && l < |s.maptbl| && s.maptbl[l].Some?
    requires s.ls.user.pos + 1 == lay.perLine ==> s.ls.free != []
    ensures s.maptbl[l].value < |lay.line|
    ensures var r := Append(lay, Invalidate(lay, s, s.maptbl[l].value), UserIo, l, d);
            && Inv(lay, r, None, {})
            && View(r) == View(s)[l := d]
            && FreePages(lay, r) == FreePages(lay, s) - 1
  {
    hide Layout.Valid, TablesOk, CountsOk, RolesOk, FillOk, PartsOk, VictimOk, Append, View, FreePages;
    DropInv(lay, s, l);
    DropView(lay, s, l);
    var u := Dropped(lay, s, l);
    var i := Invalidate(lay, s, s.maptbl[l].value);
    assert u == i.(maptbl := i.maptbl[l := None]);
    assert u.ls.user == s.ls.user && u.ls.free == s.ls.free;
    hide Invalidate, Dropped;
    AppendForgets(lay, i, UserIo, l, d);
    AppendInv(lay, u, UserIo, l, d, None, {});
    assert View(u)[l := d] == View(s)[l := d];
  }

  lemma SpendInv(lay: Layout, s: Ftl, c: int, f: int)
    requires Inv(lay, s, None, {})
    ensures var r := s.(credits := c, refill := f);
            Inv(lay, r, None, {}) && View(r) == View(s) && FreePages(lay, r) == FreePages(lay, s)
  {
    hide Layout.Valid, TablesOk, CountsOk, RolesOk, FillOk, PartsOk;
  }

  /** A host write keeps the invariant, takes one free page, and changes the view at l only. */
  lemma HostWriteInv(lay: Layout, s: Ftl, l: nat, d: Payload)
    requires Inv(lay, s, None, {}) && l < |s.maptbl|
    requires s.ls.user.pos + 1 == lay.perLine ==> s.ls.free != []
    ensures s.maptbl[l].Some? ==> s.maptbl[l].value < |lay.line|
    ensures var r := HostWrite(lay, s, l, d);
            && Inv(lay, r, None, {})
            && View(r) == View(s)[l := d]
            && FreePages(lay, r) == FreePages(lay, s) - 1
            && r.credits == s.credits - 1 && r.refill == s.refill
  {
    hide Layout.Valid, TablesOk, CountsOk, RolesOk, FillOk, PartsOk, VictimOk, View, FreePages, Append, Invalidate;
    if s.maptbl[l].Some? {
      HostMapped(lay, s, l, d);
    } else {
      AppendInv(lay, s, UserIo, l, d, None, {});
    }
    var s1 := if s.maptbl[l].Some? then Invalidate(lay, s, s.maptbl[l].value) else s;
    var s2 := Append(lay, s1, UserIo, l, d);
    HostCredits(lay, s, l, d);
    SpendInv(lay, s2, s2.credits - 1, s2.refill);
  }

  lemma HostCredits(lay: Layout, s: Ftl, l: nat, d: Payload)
    requires Shaped(lay, s) && l < |s.maptbl|
    requires s.maptbl[l].Some? ==> s.maptbl[l].value < |lay.line|
    ensures var r := HostWrite(lay, s, l, d); r.credits == s.credits - 1 && r.refill == s.refill
  {
    hide Layout.Valid;
  }

  /* ---------- the driver's assertions ---------- */

  lemma BlockBound(lay: Layout, s: Ftl, b: nat)
    requires Shaped(lay, s) && CountsOk(lay.block, s.status, s.blk, None) && b < |s.blk|
    ensures s.blk[b].vpc >= 0 && s.blk[b].ipc >= 0
    ensures s.blk[b].vpc + s.blk[b].ipc + |In(lay.block, s.status, b, PgFree)| == lay.perBlock
  {
    assert CountOk(lay.block, s.status, s.blk[b], b);
    var v, i, f := In(lay.block, s.status, b, PgValid), In(lay.block, s.status, b, PgInvalid),
      In(lay.block, s.status, b, PgFree);
    assert v + i + f == lay.BlockPages(b);
    assert v !! i && (v + i) !! f;
  }

  lemma LineBound(lay: Layout, s: Ftl, v: Option<nat>, l: nat)
    requires Shaped(lay, s) && RolesOk(lay.lines, s.ls, v) && PartsOk(lay.perLine, s.line, s.ls)
    requires CountsOk(lay.line, s.status, s.line, v) && l < lay.lines && Some(l) != v
    ensures 0 <= Sum(s.line[l]) <= lay.perLine && s.line[l].vpc >= 0 && s.line[l].ipc >= 0
  {
    assert CountOk(lay.line, s.status, s.line[l], l);
    hide Layout.Valid;
  }

  /** Every assertion of mark_page_invalid holds for a valid page. */
  lemma InvalidateAsserts(lay: Layout, s: Ftl, p: nat)
    requires Inv(lay, s, None, {}) && p < |lay.line| && s.status[p] == PgValid
    ensures lay.block[p] < |s.blk| && lay.line[p] < |s.line|
    ensures var b := s.blk[lay.block[p]]; 0 <= b.ipc < lay.perBlock && 0 < b.vpc <= lay.perBlock
    ensures var l := s.line[lay.line[p]];
            0 <= l.ipc < lay.perLine && 0 < l.vpc <= lay.perLine && (l.vpc == lay.perLine ==> l.ipc == 0)
  {
    assert lay.OkPage(p);
    assert p in In(lay.block, s.status, lay.block[p], PgValid) && p in In(lay.line, s.status, lay.line[p], PgValid);
    assert CountOk(lay.block, s.status, s.blk[lay.block[p]], lay.block[p]);
    assert CountOk(lay.line, s.status, s.line[lay.line[p]], lay.line[p]);
    hide Layout.Valid, CountsOk, TablesOk, FillOk, PartsOk, RolesOk, VictimOk;
    BlockBound(lay, s, lay.block[p]);
    LineBound(lay, s, None, lay.line[p]);
  }

  lemma BlockRoom(lay: Layout, s: Ftl, q: nat)
    requires Shaped(lay, s) && CountsOk(lay.block, s.status, s.blk, None)
    requires q < |lay.line| && s.status[q] == PgFree
    ensures lay.block[q] < |s.blk| && 0 <= s.blk[lay.block[q]].vpc < lay.perBlock
  {
    assert lay.OkPage(q);
    hide CountsOk;
    BlockBound(lay, s, lay.block[q]);
    assert q in In(lay.block, s.status, lay.block[q], PgFree);
  }

  /** Every assertion of mark_page_valid holds at a write pointer. */
  lemma ProgramAsserts(lay: Layout, s: Ftl, w: Which, v: Option<nat>, done: set<nat>)
    requires Inv(lay, s, v, done)
    ensures var q := NewPage(lay, s, w);
            && s.status[q] == PgFree && lay.block[q] < |s.blk|
            && 0 <= s.blk[lay.block[q]].vpc < lay.perBlock
            && 0 <= s.line[lay.line[q]].vpc < lay.perLine
            && s.ls.Ptr(w).line !in s.ls.victims && s.ls.Ptr(w).line !in s.ls.full
  {
    hide TablesOk, VictimOk, CountsOk, RolesOk, PartsOk;
    OpenLine(lay.lines, lay.perLine, s.line, s.ls, v, w);
    var q := NewPage(lay, s, w);
    assert PageFilled(lay, s.status, s.line, q);
    hide Layout.Valid, FillOk;
    BlockRoom(lay, s, q);
    LineBound(lay, s, v, lay.line[q]);
  }

  lemma OpenLine(lines: nat, perLine: nat, line: seq<Counts>, ls: Lists, v: Option<nat>, w: Which)
    requires RolesOk(lines, ls, v) && PartsOk(perLine, line, ls)
    ensures var l := ls.Ptr(w).line;
            l < lines && l !in ls.victims && l !in ls.full && l !in SetOf(ls.free) && Some(l) != v
            && l < |line| && Sum(line[l]) == ls.Ptr(w).pos
  {
    hide NoDup, SetOf;
  }

  /** What the counters of a line must be when its last page was just programmed: full, or with an invalid page. */
  predicate ClosingOk(c: Counts, perLine: nat)
  {
    if c.vpc == perLine then c.ipc == 0 else 0 <= c.vpc < perLine && c.ipc > 0
  }

  /** Every assertion on closing a line holds after its last page was programmed. */
  lemma AdvanceAsserts(lay: Layout, s: Ftl, w: Which, l: nat, d: Payload, v: Option<nat>, done: set<nat>)
    requires Inv(lay, s, v, done) && l < |s.maptbl| && s.ls.Ptr(w).pos + 1 == lay.perLine
    ensures ClosingOk(Program(lay, s, w, l, d).line[s.ls.Ptr(w).line], lay.perLine)
  {
    hide TablesOk, VictimOk, CountsOk, RolesOk, PartsOk, FillOk, Layout.Valid;
    OpenLine(lay.lines, lay.perLine, s.line, s.ls, v, w);
    ProgramAsserts(lay, s, w, v, done);
    LineBound(lay, s, v, s.ls.Ptr(w).line);
  }

  /**
   After the old copy of l was dropped, the user pointer can take the new one: the page is free, its block and line
   have room, and if it is the last page of the line, the line can be closed.
   */
  lemma HostAsserts(lay: Layout, s: Ftl, l: nat, d: Payload)
    requires Inv(lay, s, None, {}) && l < |s.maptbl|
    ensures s.maptbl[l].Some? ==> s.maptbl[l].value < |lay.line| && s.status[s.maptbl[l].value] == PgValid
    ensures var u := if s.maptbl[l].Some? then Invalidate(lay, s, s.maptbl[l].value) else s;
            var q := NewPage(lay, u, UserIo);
            && u.status[q] == PgFree && lay.block[q] < |u.blk|
            && 0 <= u.blk[lay.block[q]].vpc < lay.perBlock && 0 <= u.line[lay.line[q]].vpc < lay.perLine
            && u.ls.user.line !in u.ls.full && u.ls.user.line !in u.ls.victims
            && u.ls.user == s.ls.user && u.ls.free == s.ls.free
            && (u.ls.user.pos + 1 == lay.perLine ==>
                  ClosingOk(Program(lay, u, UserIo, l, d).line[u.ls.user.line], lay.perLine))
  {
    hide Layout.Valid, TablesOk, CountsOk, RolesOk, FillOk, PartsOk, VictimOk, ClosingOk;
    var u := s;
    if s.maptbl[l].Some? {
      DropInv(lay, s, l);
      u := Dropped(lay, s, l);
    }
    ProgramAsserts(lay, u, UserIo, None, {});
    if u.ls.user.pos + 1 == lay.perLine {
      AdvanceAsserts(lay, u, UserIo, l, d, None, {});
    }
  }

  /** What a host write relies on of that. */
  lemma HostReady(lay: Layout, s: Ftl, l: nat)
    requires Inv(lay, s, None, {}) && l < |s.maptbl|
    ensures s.maptbl[l].Some? ==> s.maptbl[l].value < |lay.line| && s.status[s.maptbl[l].value] == PgValid
    ensures var u := if s.maptbl[l].Some? then Invalidate(lay, s, s.maptbl[l].value) else s;
            && u.status[NewPage(lay, u, UserIo)] == PgFree
            && u.ls.user.line !in u.ls.full && u.ls.user.line !in u.ls.victims
            && u.ls.user == s.ls.user && u.ls.free == s.ls.free
  {
    hide Inv, ClosingOk, Program, Invalidate, NewPage, Layout.Valid;
    HostAsserts(lay, s, l, 0);
  }
}
