/**
 What happens beyond the space bound.  Whatever is written, the translation layer is a map as long as it
 finds free lines; it can never hold all physical pages; and filling all but two lines with distinct pages
 makes it run out of free lines.
 */
module FtlLimits {
  import opened Arith
  import opened Base
  import opened FtlModel
  import opened FtlProofs
  import opened FtlGc
  import opened FtlEffects
  import opened FtlRuns

  /* ---------- as long as free lines are found ---------- */

  lemma HostAlive(lay: Layout, s: Ftl, l: nat, d: Payload)
    requires Ready(lay, s, l)
    ensures HostWrite(lay, s, l, d).ls.alive <==>
              s.ls.alive && (s.ls.user.pos + 1 == lay.perLine ==> s.ls.free != [])
  {
    hide Layout.Valid, Append;
    var u := if s.maptbl[l].Some? then Invalidate(lay, s, s.maptbl[l].value) else s;
    AppendAlive(lay, u, UserIo, l, d);
  }

  /** Once free lines ran out, nothing repairs it. */
  lemma NextDead(lay: Layout, s: Ftl, l: nat, d: Payload, r: Ftl)
    requires Ready(lay, s, l) && Next(lay, s, l, d, r)
    ensures r.ls.alive ==> s.ls.alive
  {
    hide HostWrite, Gc, Best, Complete, Layout.Valid;
    var h := HostWrite(lay, s, l, d);
    HostAlive(lay, s, l, d);
    if h.credits <= 0 && MustCollect(h) && h.ls.victims != {} {
      var v, acts :| Collects(lay, h, v, acts, r);
      CollectAlive(lay, h, v, acts);
    }
  }

  /** One write, with the refill that may follow it, and any victim, finds the free lines it needs exactly with room. */
  lemma NextAlive(lay: Layout, s: Ftl, l: nat, d: Payload, r: Ftl)
    requires Inv(lay, s, None, {}) && Ready(lay, s, l) && Next(lay, s, l, d, r)
    ensures r.ls.alive <==> NextRoom(lay, s, l)
    ensures r.ls.alive ==> Inv(lay, r, None, {}) && View(r) == View(s)[l := d]
  {
    hide Layout.Valid, TablesOk, CountsOk, RolesOk, FillOk, PartsOk, VictimOk, View, HostWrite, Gc, GcRoom, NextRoom;
    if NextRoom(lay, s, l) {
      NextSound(lay, s, l, d, r);
    } else {
      NoRoom(lay, s, l, d, r);
    }
  }

  lemma NoRoom(lay: Layout, s: Ftl, l: nat, d: Payload, r: Ftl)
    requires Inv(lay, s, None, {}) && Ready(lay, s, l) && Next(lay, s, l, d, r) && !NextRoom(lay, s, l)
    ensures !r.ls.alive
  {
    hide Layout.Valid, TablesOk, CountsOk, RolesOk, FillOk, PartsOk, VictimOk, View, HostWrite, Gc, GcRoom;
    if Closes(lay, s) && s.ls.free == [] {
      OutOfLines(lay, s, l, d, r);
    } else {
      hide NextRoom;
      RoomAfterHost(lay, s, l, d);
      HostWriteInv(lay, s, l, d);
      var h := HostWrite(lay, s, l, d);
      var u: nat :| Best(h, u) && !GcRoom(lay, h, u);
      var v, acts :| Collects(lay, h, v, acts, r);
      GcAlive(lay, h, v, acts);
      SameRoom(lay, h, u, v);
    }
  }

  lemma SameRoom(lay: Layout, h: Ftl, u: nat, v: nat)
    requires Best(h, u) && Best(h, v)
    ensures GcRoom(lay, h, u) <==> GcRoom(lay, h, v)
  {
    assert h.line[u].vpc == h.line[v].vpc;
  }

  lemma CollectAlive(lay: Layout, h: Ftl, v: nat, acts: seq<GcAct>)
    requires Shaped(lay, h) && Best(h, v) && Complete(lay, v, acts)
    ensures v in h.ls.victims && v < lay.lines && Legal(lay, v, acts)
    ensures Gc(lay, h, v, acts).ls.alive ==> h.ls.alive
  {
    hide Layout.Valid, Collect;
    CollectDead(lay, TakeVictim(h, v), v, acts);
  }

  ghost predicate RoomAt(lay: Layout, s: Ftl, w: Write)
  {
    w.lpn < |s.maptbl| && NextRoom(lay, s, w.lpn)
  }

  /**
   Along every run, without any bound on what is written: free lines were always found exactly if every write so far
   had room, and then nothing was lost, reads agree with a plain map.
   */
  lemma {:induction false} AliveRunsRefineMap(lay: Layout, states: seq<Ftl>, writes: seq<Write>, k: nat)
    requires lay.Valid() && lay.lines >= 2
    requires Run(lay, states, writes) && states[0] == Init(lay) && k <= |writes|
    ensures states[k].ls.alive <==> forall j :: 0 <= j < k ==> RoomAt(lay, states[j], writes[j])
    ensures states[k].ls.alive ==>
              && Inv(lay, states[k], None, {})
              && |states[k].maptbl| == |states[k].data| && View(states[k]) == Replay(writes[..k])
  {
    hide Layout.Valid, Inv, View, Next, Ready, Replay, Init, NextRoom;
    if k == 0 {
      InitInv(lay);
      InvAlive(lay, states[0]);
      EmptyReplay(writes);
    } else {
      var s, w := states[k - 1], writes[k - 1];
      RunAt(lay, states, writes, k - 1);
      AliveRunsRefineMap(lay, states, writes, k - 1);
      NextDead(lay, s, w.lpn, w.data, states[k]);
      if s.ls.alive {
        ReadyBound(lay, s, w.lpn);
        NextAlive(lay, s, w.lpn, w.data, states[k]);
        ReplaySnoc(writes, k - 1);
        if states[k].ls.alive { InvAlive(lay, states[k]); }
      }
    }
  }

  lemma ReadyBound(lay: Layout, s: Ftl, l: nat)
    requires Ready(lay, s, l)
    ensures l < |s.maptbl|
  {
  }

  /* ---------- how much it can hold ---------- */

  ghost function ValidPages(s: Ftl): set<nat>
  {
    set i | 0 <= i < |s.status| && s.status[i] == PgValid
  }

  lemma MappedDistinct(s: Ftl)
    requires |s.maptbl| == |s.rmap| == |s.status| == |s.data| && TablesOk(s.maptbl, s.rmap, s.status, {})
    ensures View(s).Keys <= Owners(s.rmap, ValidPages(s))
    ensures |View(s).Keys| <= |ValidPages(s)|
  {
    var pages := ValidPages(s);
    forall l | l in View(s).Keys ensures l in Owners(s.rmap, pages) {
      assert Mapped(s.maptbl, s.rmap, s.status, {}, l);
      assert s.maptbl[l].value in pages;
    }
    forall i | i in pages ensures i < |s.rmap| && Owned(s.maptbl, s.rmap, i) {
    }
    OwnersDistinct(s, pages);
    SubsetSize(View(s).Keys, Owners(s.rmap, pages));
  }

  lemma TwoNotValid(s: Ftl, p: nat, q: nat)
    requires p < |s.status| && q < |s.status| && p != q && s.status[p] != PgValid && s.status[q] != PgValid
    ensures |ValidPages(s)| <= |s.status| - 2
  {
    var all := Interval(0, |s.status|);
    assert |all - {p}| == |all| - 1;
    assert |all - {p} - {q}| == |all| - 2;
    SubsetSize(ValidPages(s), all - {p} - {q});
  }

  lemma PointersApart(lay: Layout, s: Ftl)
    requires Shaped(lay, s) && RolesOk(lay.lines, s.ls, None)
    ensures NewPage(lay, s, UserIo) != NewPage(lay, s, GcIo)
  {
    hide Layout.Valid;
  }

  /** The pages under the two write pointers are free, so two physical pages never hold data. */
  lemma HoldsLess(lay: Layout, s: Ftl)
    requires Inv(lay, s, None, {})
    ensures |View(s).Keys| <= |lay.line| - 2
  {
    hide Layout.Valid, CountsOk, RolesOk, FillOk, PartsOk, VictimOk, View, TablesOk, NewPage;
    ProgramAsserts(lay, s, UserIo, None, {});
    ProgramAsserts(lay, s, GcIo, None, {});
    PointersApart(lay, s);
    MappedDistinct(s);
    TwoNotValid(s, NewPage(lay, s, UserIo), NewPage(lay, s, GcIo));
  }

  /** So a run that writes more distinct pages than that has run out of free lines. */
  lemma TooManyPages(lay: Layout, states: seq<Ftl>, writes: seq<Write>, k: nat)
    requires lay.Valid() && lay.lines >= 2
    requires Run(lay, states, writes) && states[0] == Init(lay) && k <= |writes|
    requires |Lpns(writes[..k])| > |lay.line| - 2
    ensures !states[k].ls.alive
  {
    hide Layout.Valid, Inv, View, Next, Ready, Replay, Init, Lpns;
    if states[k].ls.alive {
      AliveRunsRefineMap(lay, states, writes, k);
      HoldsLess(lay, states[k]);
      ReplayKeys(writes[..k]);
    }
  }

  /* ---------- running out of free lines ---------- */

  ghost predicate NoInvalid(status: seq<Status>)
  {
    forall i :: 0 <= i < |status| ==> status[i] != PgInvalid
  }

  /** Only first writes so far: a lines are full, b pages of the user line are written, nothing was collected. */
  ghost predicate Filling(lay: Layout, s: Ftl, a: nat, b: nat)
  {
    && Inv(lay, s, None, {}) && NoInvalid(s.status)
    && s.ls.user.pos == b < lay.perLine && |s.ls.free| + 2 + a == lay.lines
    && s.credits == lay.perLine - b && s.refill == lay.perLine
  }

  lemma NoVictims(lay: Layout, s: Ftl)
    requires Inv(lay, s, None, {}) && NoInvalid(s.status)
    ensures s.ls.victims == {}
  {
    forall l | 0 <= l < lay.lines ensures s.line[l].ipc == 0 {
      assert CountOk(lay.line, s.status, s.line[l], l);
      assert In(lay.line, s.status, l, PgInvalid) == {};
    }
  }

  /** Where a host write leaves the user pointer. */
  lemma HostPointer(lay: Layout, s: Ftl, l: nat, d: Payload)
    requires Ready(lay, s, l)
    ensures var h := HostWrite(lay, s, l, d);
            && (s.ls.user.pos + 1 < lay.perLine ==> h.ls.user.pos == s.ls.user.pos + 1 && h.ls.free == s.ls.free)
            && (s.ls.user.pos + 1 == lay.perLine && s.ls.free != [] ==>
                  h.ls.user.pos == 0 && h.ls.free == s.ls.free[1..])
            && h.credits == s.credits - 1 && h.refill == s.refill
  {
    hide Layout.Valid, NewPage;
  }

  lemma FirstWrite(lay: Layout, s: Ftl, l: nat, d: Payload)
    requires Ready(lay, s, l) && s.maptbl[l].None? && NoInvalid(s.status)
    ensures NoInvalid(HostWrite(lay, s, l, d).status)
    ensures s.ls.free == [] ==> HostWrite(lay, s, l, d).ls.victims == s.ls.victims
  {
    hide Layout.Valid;
    AppendFields(lay, s, UserIo, l, d);
  }

  lemma Written(lay: Layout, s: Ftl, l: nat)
    requires Inv(lay, s, None, {}) && l < |s.maptbl|
    ensures l in View(s).Keys <==> s.maptbl[l].Some?
  {
    hide Layout.Valid, CountsOk, RolesOk, FillOk, PartsOk, VictimOk;
    if s.maptbl[l].Some? {
      assert Mapped(s.maptbl, s.rmap, s.status, {}, l);
    }
  }

  lemma FillingNext(lay: Layout, s: Ftl, a: nat, b: nat, l: nat, d: Payload, r: Ftl)
    requires Filling(lay, s, a, b) && (b + 1 == lay.perLine ==> a + 2 < lay.lines)
    requires Ready(lay, s, l) && Next(lay, s, l, d, r) && l !in View(s).Keys
    ensures if b + 1 < lay.perLine then Filling(lay, r, a, b + 1) else Filling(lay, r, a + 1, 0)
    ensures View(r) == View(s)[l := d]
  {
    hide Layout.Valid, TablesOk, CountsOk, RolesOk, FillOk, PartsOk, VictimOk, View, HostWrite, Gc, NoInvalid;
    var h := HostWrite(lay, s, l, d);
    Written(lay, s, l);
    HostWriteInv(lay, s, l, d);
    HostPointer(lay, s, l, d);
    FirstWrite(lay, s, l, d);
    NoVictims(lay, h);
    if h.credits <= 0 {
      SpendInv(lay, h, h.credits + h.refill, h.refill);
    }
  }

  ghost predicate Distinct(writes: seq<Write>, n: nat)
  {
    n <= |writes| && forall i, j :: 0 <= i < j < n ==> writes[i].lpn != writes[j].lpn
  }

  lemma LpnsSnoc(writes: seq<Write>, k: nat)
    requires k < |writes|
    ensures Lpns(writes[..k + 1]) == Lpns(writes[..k]) + {writes[k].lpn}
    ensures Distinct(writes, k + 1) ==> writes[k].lpn !in Lpns(writes[..k])
  {
    assert writes[..k + 1] == writes[..k] + [writes[k]];
    assert forall w :: w in writes[..k + 1] <==> w in writes[..k] || w == writes[k];
  }

  lemma RunAt(lay: Layout, states: seq<Ftl>, writes: seq<Write>, k: nat)
    requires Run(lay, states, writes) && k < |writes|
    ensures Ready(lay, states[k], writes[k].lpn)
    ensures Next(lay, states[k], writes[k].lpn, writes[k].data, states[k + 1])
  {
    assert RunStep(lay, states[k], writes[k], states[k + 1]);
  }

  lemma FillingStart(lay: Layout)
    requires lay.Valid() && lay.lines >= 2
    ensures Filling(lay, Init(lay), 0, 0) && View(Init(lay)) == map[]
  {
    hide Layout.Valid, Inv, View;
    InitInv(lay);
    Sizes(lay);
  }

  function Product(a: nat, p: nat): nat { a * p }

  lemma ProductStep(a: nat, p: nat)
    ensures Product(a + 1, p) == Product(a, p) + p
  {
  }

  /** As long as only distinct pages are written, line after line fills up and nothing can be collected. */
  lemma {:induction false} FillingRun(lay: Layout, states: seq<Ftl>, writes: seq<Write>, a: nat, b: nat)
    requires lay.Valid() && a + 2 <= lay.lines && b < lay.perLine
    requires Run(lay, states, writes) && states[0] == Init(lay) && Distinct(writes, Product(a, lay.perLine) + b)
    ensures var k := Product(a, lay.perLine) + b;
            Filling(lay, states[k], a, b) && View(states[k]).Keys == Lpns(writes[..k])
    decreases a, b
  {
    hide Layout.Valid, Inv, View, Next, Ready, Init, Lpns, Distinct;
    if a == 0 && b == 0 {
      FillingStart(lay);
      NoLpns(writes);
    } else {
      var a1, b1 := if b > 0 then a else a - 1, if b > 0 then b - 1 else lay.perLine - 1;
      if b == 0 { ProductStep(a1, lay.perLine); }
      var k := Product(a1, lay.perLine) + b1;
      hide Product;
      Shorter(writes, k);
      FillingRun(lay, states, writes, a1, b1);
      LpnsSnoc(writes, k);
      RunAt(lay, states, writes, k);
      FillingNext(lay, states[k], a1, b1, writes[k].lpn, writes[k].data, states[k + 1]);
    }
  }

  lemma NoLpns(writes: seq<Write>)
    ensures Lpns(writes[..0]) == {}
  {
  }

  lemma Shorter(writes: seq<Write>, k: nat)
    requires Distinct(writes, k + 1)
    ensures k < |writes| && Distinct(writes, k)
  {
  }

  /** The last line is open for the host, and no line is free. */
  ghost predicate LastLine(lay: Layout, s: Ftl, j: nat)
  {
    s.ls.free == [] && s.ls.user.pos == j < lay.perLine && s.credits == lay.perLine - j
  }

  lemma {:induction false} LastLineRun(lay: Layout, states: seq<Ftl>, writes: seq<Write>, n: nat, j: nat)
    requires |states| == |writes| + 1 && Run(lay, states, writes)
    requires n + j <= |writes| && j < lay.perLine && LastLine(lay, states[n], 0)
    ensures LastLine(lay, states[n + j], j)
  {
    hide Run, LastLine, Ready, Next;
    if j == 0 {
      assert states[n + j] == states[n];
    } else {
      var k := n + (j - 1);
      LastLineRun(lay, states, writes, n, j - 1);
      RunAt(lay, states, writes, k);
      LastLineNext(lay, states[k], j - 1, writes[k].lpn, writes[k].data, states[k + 1]);
      assert k + 1 == n + j;
    }
  }

  lemma LastLineNext(lay: Layout, s: Ftl, j: nat, l: nat, d: Payload, r: Ftl)
    requires LastLine(lay, s, j) && j + 1 < lay.perLine && Ready(lay, s, l) && Next(lay, s, l, d, r)
    ensures LastLine(lay, r, j + 1)
  {
    hide HostWrite, Layout.Valid;
    HostPointer(lay, s, l, d);
  }

  lemma Exhausted(lay: Layout, states: seq<Ftl>, writes: seq<Write>, n: nat)
    requires lay.Valid() && lay.lines >= 2 && n == Product(lay.lines - 2, lay.perLine)
    requires |states| == |writes| + 1 && Run(lay, states, writes) && states[0] == Init(lay)
    requires Distinct(writes, n) && |writes| >= n + lay.perLine && lay.perLine > 0
    ensures !states[n + lay.perLine].ls.alive
  {
    hide Layout.Valid, Inv, View, Next, Ready, Init, Lpns, Distinct, Product, Run;
    FillingRun(lay, states, writes, lay.lines - 2, 0);
    var k := n + lay.perLine - 1;
    LastLineRun(lay, states, writes, n, lay.perLine - 1);
    RunAt(lay, states, writes, k);
    OutOfLines(lay, states[k], writes[k].lpn, writes[k].data, states[k + 1]);
  }

  /**
   The bound cannot be dropped: a run whose first (lines - 2) * perLine writes go to distinct pages has no free
   line left after (lines - 1) * perLine writes, whatever the other writes are.
   */
  lemma FirstWritesExhaust(lay: Layout, states: seq<Ftl>, writes: seq<Write>)
    requires lay.Valid() && lay.lines >= 2
    requires Run(lay, states, writes) && states[0] == Init(lay)
    requires Distinct(writes, (lay.lines - 2) * lay.perLine) && |writes| >= (lay.lines - 1) * lay.perLine
    ensures !states[(lay.lines - 1) * lay.perLine].ls.alive
  {
    assert |states| == |writes| + 1;
    hide Layout.Valid, Run, Init, Distinct;
    Sizes(lay);
    ProductStep(lay.lines - 2, lay.perLine);
    Exhausted(lay, states, writes, (lay.lines - 2) * lay.perLine);
  }

  lemma OutOfLines(lay: Layout, s: Ftl, l: nat, d: Payload, r: Ftl)
    requires Ready(lay, s, l) && Next(lay, s, l, d, r) && s.ls.free == [] && s.ls.user.pos + 1 == lay.perLine
    ensures !r.ls.alive
  {
    hide Layout.Valid, HostWrite, Gc, Complete, Best;
    var h := HostWrite(lay, s, l, d);
    HostAlive(lay, s, l, d);
    if h.credits <= 0 && MustCollect(h) && h.ls.victims != {} {
      var v, acts :| Collects(lay, h, v, acts, r);
      CollectAlive(lay, h, v, acts);
    }
  }

  /** What follows a first write: nothing is collected. */
  ghost function After(lay: Layout, s: Ftl, l: nat, d: Payload): Ftl
    requires Ready(lay, s, l)
  {
    var h := HostWrite(lay, s, l, d);
    if h.credits > 0 then h else Refilled(h)
  }

  lemma AfterIsNext(lay: Layout, s: Ftl, a: nat, b: nat, l: nat, d: Payload)
    requires Filling(lay, s, a, b) && Ready(lay, s, l) && l !in View(s).Keys
    ensures Next(lay, s, l, d, After(lay, s, l, d))
  {
    hide Layout.Valid, TablesOk, CountsOk, RolesOk, FillOk, PartsOk, VictimOk, View, HostWrite, NoInvalid;
    var h := HostWrite(lay, s, l, d);
    Written(lay, s, l);
    FirstWrite(lay, s, l, d);
    NoVictims(lay, s);
    if s.ls.free != [] {
      HostWriteInv(lay, s, l, d);
      NoVictims(lay, h);
    }
  }

  ghost predicate Ascending(writes: seq<Write>)
  {
    forall i :: 0 <= i < |writes| ==> writes[i] == Write(i, 0)
  }

  lemma AscendingDistinct(writes: seq<Write>)
    requires Ascending(writes)
    ensures Distinct(writes, |writes|) && |writes| !in Lpns(writes[..|writes|])
  {
  }

  lemma AscendingBelow(writes: seq<Write>)
    requires Ascending(writes)
    ensures forall i :: 0 <= i < |writes| ==> writes[i].lpn < |writes|
  {
  }

  lemma FillingExtend(lay: Layout, states: seq<Ftl>, writes: seq<Write>, a: nat, b: nat)
    requires lay.Valid() && a + 2 <= lay.lines && b < lay.perLine
             && |writes| == Product(a, lay.perLine) + b < |lay.line|
    requires |states| == |writes| + 1 && Run(lay, states, writes) && states[0] == Init(lay) && Ascending(writes)
    ensures Ready(lay, states[|writes|], |writes|)
    ensures Next(lay, states[|writes|], |writes|, 0, After(lay, states[|writes|], |writes|, 0))
  {
    hide Layout.Valid, Inv, View, Next, Ready, Init, Lpns, Run, Product, After, Filling, Distinct, Ascending;
    AscendingDistinct(writes);
    FillingRun(lay, states, writes, a, b);
    FillingReady(lay, states[|writes|], a, b, |writes|);
    AfterIsNext(lay, states[|writes|], a, b, |writes|, 0);
  }

  lemma Split(lay: Layout, k: nat) returns (a: nat, b: nat)
    requires lay.lines >= 2 && lay.perLine > 0 && k < (lay.lines - 1) * lay.perLine
    ensures a + 2 <= lay.lines && b < lay.perLine && k == Product(a, lay.perLine) + b
  {
    a, b := k / lay.perLine, k % lay.perLine;
    DivBound(k, lay.perLine, lay.lines - 1);
    JoinPair(k, lay.perLine);
  }

  /** The run that writes pages 0, 1, 2, and so on exists up to the point where lines run out. */
  lemma {:induction false} FillingRunExists(lay: Layout, n: nat) returns (states: seq<Ftl>, writes: seq<Write>)
    requires lay.Valid() && lay.lines >= 2 && lay.perLine > 0 && n <= (lay.lines - 1) * lay.perLine <= |lay.line|
    ensures |states| == |writes| + 1 == n + 1 && Run(lay, states, writes) && states[0] == Init(lay) && Ascending(writes)
  {
    if n == 0 {
      states, writes := [Init(lay)], [];
    } else {
      hide Layout.Valid, Next, Ready, Init, Run, After, Product;
      states, writes := FillingRunExists(lay, n - 1);
      var a, b := Split(lay, n - 1);
      FillingExtend(lay, states, writes, a, b);
      var r := After(lay, states[n - 1], n - 1, 0);
      RunExtend(lay, states, writes, Write(n - 1, 0), r);
      states, writes := states + [r], writes + [Write(n - 1, 0)];
    }
  }

  lemma FillingReady(lay: Layout, s: Ftl, a: nat, b: nat, l: nat)
    requires Filling(lay, s, a, b) && l < |lay.line|
    ensures Shaped(lay, s) && |s.maptbl| == |s.data| && (l !in View(s).Keys ==> Ready(lay, s, l))
  {
    hide Layout.Valid, TablesOk, CountsOk, RolesOk, FillOk, PartsOk, VictimOk, View;
    Written(lay, s, l);
  }

  lemma RunExtend(lay: Layout, states: seq<Ftl>, writes: seq<Write>, w: Write, r: Ftl)
    requires |states| == |writes| + 1 && Run(lay, states, writes)
    requires Ready(lay, states[|writes|], w.lpn) && Next(lay, states[|writes|], w.lpn, w.data, r)
    ensures Run(lay, states + [r], writes + [w])
  {
    hide Ready, Next;
    var st, wr := states + [r], writes + [w];
    forall k | 0 <= k < |wr| ensures RunStep(lay, st[k], wr[k], st[k + 1]) {
      if k < |writes| {
        assert RunStep(lay, states[k], writes[k], states[k + 1]);
      }
    }
  }

  /** A host that writes (lines - 1) * perLine pages of the range, each once, makes the layer run out of free lines. */
  lemma ExhaustingRun(lay: Layout) returns (states: seq<Ftl>, writes: seq<Write>)
    requires lay.Valid() && lay.lines >= 2 && (lay.lines - 1) * lay.perLine <= |lay.line|
    ensures Run(lay, states, writes) && states[0] == Init(lay) && |writes| == (lay.lines - 1) * lay.perLine
    ensures Distinct(writes, |writes|) && forall i :: 0 <= i < |writes| ==> writes[i].lpn < |lay.line|
    ensures !states[|writes|].ls.alive
  {
    hide Layout.Valid, Run, Init, Lpns, Ascending;
    Sizes(lay);
    var n := (lay.lines - 1) * lay.perLine;
    states, writes := FillingRunExists(lay, n);
    AscendingDistinct(writes);
    assert forall i :: 0 <= i < |writes| ==> writes[i].lpn < |lay.line| by { AscendingBelow(writes); }
    MulLe(lay.lines - 2, lay.lines - 1, lay.perLine);
    FirstWritesExhaust(lay, states, writes);
  }
}
