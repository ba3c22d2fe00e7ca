/**
 The page-mapped flash translation layer as a value: one partition's tables, counters, line
 lists and write pointers, and the steps that host writes and garbage collection take on them.

 A physical page is named by its page index.  How a page index splits into channel, die, block
 and page is kept in a `Layout` table, so nothing here depends on the address arithmetic.
 */
module FtlModel {
  import opened Base

  /** What the host stored in one 4 KiB page. */
  type Payload = int

  datatype Status = PgFree | PgInvalid | PgValid
  datatype Counts = Counts(vpc: int, ipc: int)
  /** A write pointer: the open line and how many of its pages are already written. */
  datatype Wp = Wp(line: nat, pos: nat)
  datatype Which = UserIo | GcIo

  /** Address tables: `at[l][k]` is the k-th page that a write pointer visits in line l. */
  datatype Layout = Layout(lines: nat, perLine: nat, perBlock: nat,
                           line: seq<nat>, slot: seq<nat>, block: seq<nat>,
                           at: seq<seq<nat>>, blockLine: seq<nat>)
  {
    ghost predicate Valid() {
      && lines > 0 && perLine > 0
      && |line| == |slot| == |block|
      && |at| == lines
      && (forall l :: 0 <= l < lines ==> |at[l]| == perLine)
      && (forall i :: 0 <= i < |line| ==> OkPage(i))
      && (forall l, k :: 0 <= l < lines && 0 <= k < perLine ==> OkSlot(l, k))
      && (forall b :: 0 <= b < |blockLine| ==> |BlockPages(b)| == perBlock)
    }
    ghost predicate OkPage(i: nat)
      requires |line| == |slot| == |block| && |at| == lines
      requires forall l :: 0 <= l < lines ==> |at[l]| == perLine
      requires i < |line|
    {
      && line[i] < lines && slot[i] < perLine && block[i] < |blockLine|
      && at[line[i]][slot[i]] == i
      && blockLine[block[i]] == line[i]
    }
    ghost predicate OkSlot(l: nat, k: nat)
      requires |line| == |slot| == |block| && |at| == lines
      requires forall l :: 0 <= l < lines ==> |at[l]| == perLine
      requires l < lines && k < perLine
    {
      && at[l][k] < |line| && line[at[l][k]] == l && slot[at[l][k]] == k
    }
    ghost function BlockPages(b: nat): set<nat> {
      set i | 0 <= i < |block| && block[i] == b
    }
    ghost function LinePages(l: nat): set<nat> {
      set i | 0 <= i < |line| && line[i] == l
    }
  }

  /** The line lists and the two open lines. */
  datatype Lists = Lists(
    free: seq<nat>,
    full: set<nat>,
    victims: set<nat>,
    user: Wp,
    gc: Wp,
    alive: bool)                  // false once a write pointer found no free line
  {
    function Ptr(w: Which): Wp { if w.UserIo? then user else gc }
    function WithPtr(w: Which, p: Wp): Lists { if w.UserIo? then this.(user := p) else this.(gc := p) }
  }

  datatype Ftl = Ftl(
    maptbl: seq<Option<nat>>,     // logical page -> page index
    rmap: seq<Option<nat>>,       // page index -> logical page
    status: seq<Status>,
    data: seq<Payload>,           // what each physical page holds
    blk: seq<Counts>,
    line: seq<Counts>,
    ls: Lists,
    credits: int,
    refill: int)

  ghost predicate Sized(lay: Layout, s: Ftl)
  {
    && lay.Valid()
    && |s.maptbl| == |s.rmap| == |s.status| == |s.data| == |lay.line|
    && |s.blk| == |lay.blockLine| && |s.line| == lay.lines
  }

  /** Every index stored in the state is in range. */
  ghost predicate Shaped(lay: Layout, s: Ftl)
  {
    && Sized(lay, s)
    && ListsShaped(lay.lines, lay.perLine, s.ls)
  }

  ghost predicate ListsShaped(lines: nat, perLine: nat, ls: Lists)
  {
    && ls.user.line < lines && ls.user.pos < perLine
    && ls.gc.line < lines && ls.gc.pos < perLine
    && forall l :: l in ls.free ==> l < lines
  }

  /* ---------- steps ---------- */

  function Bump(c: Counts, from: Status, to: Status): Counts {
    Counts(c.vpc - (if from.PgValid? then 1 else 0) + (if to.PgValid? then 1 else 0),
           c.ipc - (if from.PgInvalid? then 1 else 0) + (if to.PgInvalid? then 1 else 0))
  }

  /** Changes one page's status together with its block and line counters. */
  ghost function SetStatus(lay: Layout, s: Ftl, p: nat, to: Status): (r: Ftl)
    requires Shaped(lay, s) && p < |lay.line|
    ensures Shaped(lay, r)
  {
    assert lay.OkPage(p);
    var b, l := lay.block[p], lay.line[p];
    s.(status := s.status[p := to],
       blk := s.blk[b := Bump(s.blk[b], s.status[p], to)],
       line := s.line[l := Bump(s.line[l], s.status[p], to)])
  }

  /** The old copy of an overwritten page: invalid, without owner; a full line becomes a victim. */
  ghost function Invalidate(lay: Layout, s: Ftl, p: nat): (r: Ftl)
    requires Shaped(lay, s) && p < |lay.line|
    ensures Shaped(lay, r)
  {
    assert lay.OkPage(p);
    var l := lay.line[p];
    var s1 := SetStatus(lay, s, p, PgInvalid).(rmap := s.rmap[p := None]);
    if s.line[l].vpc == lay.perLine
    then s1.(ls := s.ls.(full := s.ls.full - {l}, victims := s.ls.victims + {l}))
    else s1
  }

  /** The page a write pointer stands on. */
  ghost function NewPage(lay: Layout, s: Ftl, w: Which): (q: nat)
    requires Shaped(lay, s)
    ensures q < |lay.line| && lay.line[q] == s.ls.Ptr(w).line && lay.slot[q] == s.ls.Ptr(w).pos
  {
    assert lay.OkSlot(s.ls.Ptr(w).line, s.ls.Ptr(w).pos);
    lay.at[s.ls.Ptr(w).line][s.ls.Ptr(w).pos]
  }

  /** Programs payload d of logical page l at the write pointer. */
  ghost function Program(lay: Layout, s: Ftl, w: Which, l: nat, d: Payload): (r: Ftl)
    requires Shaped(lay, s) && l < |s.maptbl|
    ensures Shaped(lay, r)
  {
    var q := NewPage(lay, s, w);
    SetStatus(lay, s, q, PgValid).(maptbl := s.maptbl[l := Some(q)], rmap := s.rmap[q := Some(l)],
                                   data := s.data[q := d])
  }

  /** Moves a write pointer on; at the end of its line, closes the line and opens a free one. */
  ghost function AdvanceLists(perLine: nat, ls: Lists, w: Which, allValid: bool): Lists
  {
    var p := ls.Ptr(w);
    if p.pos + 1 < perLine then ls.WithPtr(w, Wp(p.line, p.pos + 1))
    else if ls.free == [] then ls.(alive := false)
    else CloseLine(ls, w, allValid)
  }

  ghost function CloseLine(ls: Lists, w: Which, allValid: bool): Lists
    requires ls.free != []
  {
    var l := ls.Ptr(w).line;
    ls.(full := if allValid then ls.full + {l} else ls.full,
        victims := if allValid then ls.victims else ls.victims + {l},
        free := ls.free[1..]).WithPtr(w, Wp(ls.free[0], 0))
  }

  ghost function Advance(lay: Layout, s: Ftl, w: Which): (r: Ftl)
    requires Shaped(lay, s)
    ensures Shaped(lay, r)
  {
    AdvanceShaped(lay.lines, lay.perLine, s.ls, w, s.line[s.ls.Ptr(w).line].vpc == lay.perLine);
    s.(ls := AdvanceLists(lay.perLine, s.ls, w, s.line[s.ls.Ptr(w).line].vpc == lay.perLine))
  }

  lemma AdvanceShaped(lines: nat, perLine: nat, ls: Lists, w: Which, allValid: bool)
    requires ListsShaped(lines, perLine, ls) && perLine > 0
    ensures ListsShaped(lines, perLine, AdvanceLists(perLine, ls, w, allValid))
  {
    assert ls.free != [] ==> ls.free[0] in ls.free;
    assert ls.free != [] ==> forall l :: l in ls.free[1..] ==> l in ls.free;
  }

  ghost function Append(lay: Layout, s: Ftl, w: Which, l: nat, d: Payload): (r: Ftl)
    requires Shaped(lay, s) && l < |s.maptbl|
    ensures Shaped(lay, r)
  {
    Advance(lay, Program(lay, s, w, l, d), w)
  }

  /** One logical page of a host write, up to and including the spent credit. */
  ghost function HostWrite(lay: Layout, s: Ftl, l: nat, d: Payload): (r: Ftl)
    requires Shaped(lay, s) && l < |s.maptbl|
    requires s.maptbl[l].Some? ==> s.maptbl[l].value < |lay.line|
    ensures Shaped(lay, r)
  {
    var s1 := if s.maptbl[l].Some? then Invalidate(lay, s, s.maptbl[l].value) else s;
    var s2 := Append(lay, s1, UserIo, l, d);
    s2.(credits := s2.credits - 1)
  }

  /* ---------- garbage collection ---------- */

  /** What collection does to the victim line, in any order. */
  datatype GcAct = Copy(page: nat) | Erase(block: nat)

  ghost function TakeVictim(s: Ftl, v: nat): Ftl
    requires v < |s.line|
  {
    s.(ls := s.ls.(victims := s.ls.victims - {v}), refill := s.line[v].ipc)
  }

  /** Relocates page p when it is still valid; the old copy stays as it is. */
  ghost function CopyPage(lay: Layout, s: Ftl, p: nat): (r: Ftl)
    requires Shaped(lay, s) && p < |lay.line|
    ensures Shaped(lay, r)
  {
    if s.status[p] == PgValid && s.rmap[p].Some? && s.rmap[p].value < |s.maptbl|
    then Append(lay, s, GcIo, s.rmap[p].value, s.data[p])
    else s
  }

  ghost function EraseBlock(lay: Layout, s: Ftl, b: nat): (r: Ftl)
    requires Shaped(lay, s) && b < |lay.blockLine|
    ensures Shaped(lay, r)
  {
    s.(status := seq(|s.status|, i requires 0 <= i < |s.status| && |s.status| == |lay.block| =>
                   if lay.block[i] == b then PgFree else s.status[i]),
       blk := s.blk[b := Counts(0, 0)])
  }

  ghost function FreeLine(s: Ftl, v: nat): Ftl
    requires v < |s.line|
  {
    s.(line := s.line[v := Counts(0, 0)], ls := s.ls.(free := s.ls.free + [v]))
  }

  ghost predicate ActOk(lay: Layout, v: nat, done: set<nat>, a: GcAct)
    requires lay.Valid()
  {
    match a
    case Copy(p) => p < |lay.line| && lay.line[p] == v && p !in done
    case Erase(b) => b < |lay.blockLine| && lay.blockLine[b] == v && lay.BlockPages(b) <= done
  }

  ghost function Done(acts: seq<GcAct>): set<nat>
  {
    set a | a in acts && a.Copy? :: a.page
  }

  ghost function Erased(acts: seq<GcAct>): set<nat>
  {
    set a | a in acts && a.Erase? :: a.block
  }

  /** Each page once, and no block before all of its pages. */
  ghost predicate Legal(lay: Layout, v: nat, acts: seq<GcAct>)
    requires lay.Valid()
  {
    acts == [] ||
    var k := |acts| - 1;
    Legal(lay, v, acts[..k]) && ActOk(lay, v, Done(acts[..k]), acts[k])
  }

  ghost predicate Complete(lay: Layout, v: nat, acts: seq<GcAct>)
    requires lay.Valid()
  {
    && Legal(lay, v, acts)
    && lay.LinePages(v) <= Done(acts)
    && forall b :: 0 <= b < |lay.blockLine| && lay.blockLine[b] == v ==> b in Erased(acts)
  }

  ghost function Act(lay: Layout, s: Ftl, v: nat, done: set<nat>, a: GcAct): (r: Ftl)
    requires Shaped(lay, s) && ActOk(lay, v, done, a)
    ensures Shaped(lay, r)
  {
    match a
    case Copy(p) => CopyPage(lay, s, p)
    case Erase(b) => EraseBlock(lay, s, b)
  }

  ghost function Collect(lay: Layout, s: Ftl, v: nat, acts: seq<GcAct>): (r: Ftl)
    requires Shaped(lay, s) && Legal(lay, v, acts)
    ensures Shaped(lay, r)
  {
    if acts == [] then s
    else
      var k := |acts| - 1;
      Act(lay, Collect(lay, s, v, acts[..k]), v, Done(acts[..k]), acts[k])
  }

  /** A whole collection of line v. */
  ghost function Gc(lay: Layout, s: Ftl, v: nat, acts: seq<GcAct>): (r: Ftl)
    requires Shaped(lay, s) && v < lay.lines && Legal(lay, v, acts)
    ensures Shaped(lay, r)
  {
    FreeLine(Collect(lay, TakeVictim(s, v), v, acts), v)
  }

  /* ---------- invariant ---------- */

  ghost function In(group: seq<nat>, status: seq<Status>, b: nat, k: Status): set<nat>
  {
    set i | 0 <= i < |status| && i < |group| && group[i] == b && status[i] == k
  }

  /** The counters of every group of pages, except `skip`, are the true page counts. */
  ghost predicate CountsOk(group: seq<nat>, status: seq<Status>, counts: seq<Counts>, skip: Option<nat>)
  {
    forall b :: 0 <= b < |counts| && Some(b) != skip ==> CountOk(group, status, counts[b], b)
  }

  ghost predicate CountOk(group: seq<nat>, status: seq<Status>, c: Counts, b: nat)
  {
    c.vpc == |In(group, status, b, PgValid)| && c.ipc == |In(group, status, b, PgInvalid)|
  }

  /** The two tables are inverse on live pages; pages in `done` have already been relocated. */
  ghost predicate TablesOk(m: seq<Option<nat>>, rmap: seq<Option<nat>>, status: seq<Status>, done: set<nat>)
    requires |m| == |rmap| == |status|
  {
    && (forall l :: 0 <= l < |m| && m[l].Some? ==> Mapped(m, rmap, status, done, l))
    && (forall p :: 0 <= p < |status| && status[p] == PgValid && p !in done ==> Owned(m, rmap, p))
  }
  ghost predicate Mapped(m: seq<Option<nat>>, rmap: seq<Option<nat>>, status: seq<Status>, done: set<nat>, l: nat)
    requires |m| == |rmap| == |status| && l < |m| && m[l].Some?
  {
    var p := m[l].value;
    p < |status| && status[p] == PgValid && rmap[p] == Some(l) && p !in done
  }
  ghost predicate Owned(m: seq<Option<nat>>, rmap: seq<Option<nat>>, p: nat)
    requires |m| == |rmap| && p < |rmap|
  {
    rmap[p].Some? && rmap[p].value < |m| && m[rmap[p].value] == Some(p)
  }

  /** Each line plays exactly one part; v is the line under collection, if any. */
  ghost predicate RolesOk(lines: nat, ls: Lists, v: Option<nat>)
  {
    && NoDup(ls.free)
    && Partition(lines, SetOf(ls.free), ls.full, ls.victims, ls.user.line, ls.gc.line, v)
    && |ls.free| + |ls.full| + |ls.victims| + 2 + (if v.Some? then 1 else 0) == lines
  }

  ghost predicate Partition(lines: nat, free: set<nat>, full: set<nat>, victims: set<nat>,
                            user: nat, gc: nat, v: Option<nat>)
  {
    && user < lines && gc < lines && user != gc
    && (v.Some? ==> v.value < lines && v.value != user && v.value != gc)
    && (forall l :: l in free ==> Line(lines, l, user, gc, v) && l !in full && l !in victims)
    && (forall l :: l in full ==> Line(lines, l, user, gc, v) && l !in victims)
    && (forall l :: l in victims ==> Line(lines, l, user, gc, v))
    && (forall l :: 0 <= l < lines ==> l in free || l in full || l in victims
                                       || l == user || l == gc || Some(l) == v)
  }

  ghost predicate Line(lines: nat, l: nat, user: nat, gc: nat, v: Option<nat>) {
    l < lines && l != user && l != gc && Some(l) != v
  }

  /** How many pages of a line have been written since it was last erased. */
  function Sum(c: Counts): int { c.vpc + c.ipc }

  /** Pages of a line are written in write-pointer order, without gaps. */
  ghost predicate FillOk(lay: Layout, status: seq<Status>, line: seq<Counts>, v: Option<nat>)
    requires lay.Valid() && |status| == |lay.line| && |line| == lay.lines
  {
    forall i :: 0 <= i < |status| && Some(lay.line[i]) != v ==> PageFilled(lay, status, line, i)
  }
  ghost predicate PageFilled(lay: Layout, status: seq<Status>, line: seq<Counts>, i: nat)
    requires lay.Valid() && |status| == |lay.line| && |line| == lay.lines && i < |status|
  {
    assert lay.OkPage(i);
    status[i] == PgFree <==> lay.slot[i] >= Sum(line[lay.line[i]])
  }

  /** The counters agree with the part each line plays. */
  ghost predicate PartsOk(perLine: nat, line: seq<Counts>, ls: Lists)
  {
    && ls.user.line < |line| && Sum(line[ls.user.line]) == ls.user.pos
    && ls.gc.line < |line| && Sum(line[ls.gc.line]) == ls.gc.pos
    && FreeParts(line, SetOf(ls.free))
    && ClosedParts(perLine, line, ls.full, ls.victims)
  }
  ghost predicate FreeParts(line: seq<Counts>, free: set<nat>)
  {
    forall l :: l in free ==> l < |line| && Sum(line[l]) == 0
  }
  ghost predicate ClosedParts(perLine: nat, line: seq<Counts>, full: set<nat>, victims: set<nat>)
  {
    && (forall l :: l in full ==> l < |line| && line[l].vpc == perLine && Sum(line[l]) == perLine)
    && (forall l :: l in victims ==> l < |line| && line[l].vpc < perLine && Sum(line[l]) == perLine)
  }

  /** In the line under collection only pages already relocated may have been erased. */
  ghost predicate VictimOk(lay: Layout, s: Ftl, v: Option<nat>, done: set<nat>)
    requires Sized(lay, s)
  {
    && (v.None? ==> done == {})
    && (v.Some? ==> done <= lay.LinePages(v.value))
    && (forall i :: 0 <= i < |s.status| && s.status[i] == PgFree && Some(lay.line[i]) == v ==> i in done)
  }

  ghost predicate Inv(lay: Layout, s: Ftl, v: Option<nat>, done: set<nat>)
  {
    && Shaped(lay, s)
    && TablesOk(s.maptbl, s.rmap, s.status, done)
    && CountsOk(lay.block, s.status, s.blk, None)
    && CountsOk(lay.line, s.status, s.line, v)
    && RolesOk(lay.lines, s.ls, v)
    && FillOk(lay, s.status, s.line, v)
    && PartsOk(lay.perLine, s.line, s.ls)
    && VictimOk(lay, s, v, done)
    && s.ls.alive
  }

  /** What the host reads back: the payload of every logical page that was ever written. */
  ghost function View(s: Ftl): map<nat, Payload>
    requires |s.maptbl| == |s.data|
  {
    map l | 0 <= l < |s.maptbl| && s.maptbl[l].Some? && s.maptbl[l].value < |s.data| :: s.data[s.maptbl[l].value]
  }

  /** Pages that can still be programmed before anything is erased. */
  ghost function FreePages(lay: Layout, s: Ftl): int {
    |s.ls.free| * lay.perLine + (lay.perLine - s.ls.user.pos) + (lay.perLine - s.ls.gc.pos)
  }
}
