/**
 NAND geometry of one partition: channels, dies (LUNs), blocks, pages; the page index of a
 physical address; and the order in which a write pointer walks through a line.
 One plane per die, as the FTL requires.
 */
module Geometry {
  import opened Arith
  import opened Base
  import opened FtlModel

  /* ---------- geometry ---------- */

  datatype Geo = Geo(nchs: nat, luns: nat, lines: nat, oneshot: nat, wordlines: nat, flash: nat)
  {
    predicate Valid() {
      nchs > 0 && luns > 0 && lines > 0 && oneshot > 0 && wordlines > 0 && flash > 0 && oneshot % flash == 0
    }
    function PgsPerBlk(): nat { wordlines * oneshot }
    function PgsPerLun(): nat { PgsPerBlk() * lines }
    function PgsPerCh(): nat { PgsPerLun() * luns }
    function TtPgs(): nat { PgsPerCh() * nchs }
    function TtLuns(): nat { luns * nchs }
    function PgsPerLine(): nat { TtLuns() * PgsPerBlk() }
    function TtBlks(): nat { nchs * luns * lines }
  }

  lemma Positive(g: Geo)
    requires g.Valid()
    ensures g.PgsPerBlk() > 0 && g.PgsPerLine() > 0
  {
    MulLe(1, g.wordlines, g.oneshot);
    MulLe(1, g.luns, g.nchs);
    MulLe(1, g.TtLuns(), g.PgsPerBlk());
  }

  /** A physical page address. */
  datatype Ppa = Ppa(ch: nat, lun: nat, blk: nat, pg: nat)

  predicate ValidPpa(g: Geo, a: Ppa) {
    a.ch < g.nchs && a.lun < g.luns && a.blk < g.lines && a.pg < g.PgsPerBlk()
  }

  function PgIdx(g: Geo, a: Ppa): nat {
    a.ch * g.PgsPerCh() + a.lun * g.PgsPerLun() + a.blk * g.PgsPerBlk() + a.pg
  }

  /** The same index as nested digits. */
  function Digits(g: Geo, a: Ppa): nat {
    Pair(Pair(Pair(a.ch, a.lun, g.luns), a.blk, g.lines), a.pg, g.PgsPerBlk())
  }

  function PpaAt(g: Geo, i: nat): Ppa
    requires g.Valid()
  {
    Positive(g);
    var b := Div(i, g.PgsPerBlk());
    var d := Div(b, g.lines);
    Ppa(Div(d, g.luns), d % g.luns, b % g.lines, i % g.PgsPerBlk())
  }

  lemma PgIdxDigits(g: Geo, a: Ppa)
    ensures PgIdx(g, a) == Digits(g, a)
    ensures g.TtPgs() == g.TtBlks() * g.PgsPerBlk()
    ensures g.TtPgs() == g.lines * g.PgsPerLine()
  {
    var b := g.PgsPerBlk();
    calc {
      Digits(g, a);
      ((a.ch * g.luns + a.lun) * g.lines + a.blk) * b + a.pg;
      { Dist(a.ch * g.luns, a.lun, g.lines); Dist((a.ch * g.luns + a.lun) * g.lines, a.blk, b); }
      (a.ch * g.luns * g.lines + a.lun * g.lines) * b + a.blk * b + a.pg;
      { Dist(a.ch * g.luns * g.lines, a.lun * g.lines, b); }
      a.ch * g.luns * g.lines * b + a.lun * g.lines * b + a.blk * b + a.pg;
      { Swap4(a.ch, g.luns, g.lines, b); Swap3(a.lun, g.lines, b); }
      PgIdx(g, a);
    }
    Swap4(g.nchs, g.luns, g.lines, b);
    Total(g.nchs, g.luns, g.lines, b);
  }

  lemma Swap3(x: int, y: int, z: int)
    ensures x * y * z == x * (z * y)
  {
  }

  lemma Swap4(x: int, y: int, z: int, w: int)
    ensures x * y * z * w == x * (w * z * y) && x * y * z * w == w * z * y * x
  {
    Swap3(x * y, z, w);
    calc {
      x * y * z * w;
      x * y * (w * z);
      { Swap3(x, y, w * z); }
      x * (w * z * y);
    }
  }

  lemma Total(c: int, l: int, t: int, b: int)
    ensures b * t * l * c == t * (l * c * b)
  {
    Swap4(b, t, l, c);
    calc {
      b * t * l * c;
      t * b * l * c;
      t * (b * l * c);
      { assert b * l * c == l * c * b; }
      t * (l * c * b);
    }
  }

  /** Page indices and valid addresses are in one-to-one correspondence. */
  lemma PgIdxOk(g: Geo, a: Ppa)
    requires g.Valid() && ValidPpa(g, a)
    ensures PgIdx(g, a) < g.TtPgs() && PpaAt(g, PgIdx(g, a)) == a
  {
    PgIdxDigits(g, a);
    var x := Pair(a.ch, a.lun, g.luns);
    var y := Pair(x, a.blk, g.lines);
    SplitPair(a.ch, a.lun, g.luns);
    SplitPair(x, a.blk, g.lines);
    SplitPair(y, a.pg, g.PgsPerBlk());
    PairBound(a.ch, a.lun, g.luns, g.nchs);
    PairBound(x, a.blk, g.lines, g.nchs * g.luns);
    PairBound(y, a.pg, g.PgsPerBlk(), g.TtBlks());
  }

  lemma PpaAtOk(g: Geo, i: nat)
    requires g.Valid() && i < g.TtPgs()
    ensures ValidPpa(g, PpaAt(g, i)) && PgIdx(g, PpaAt(g, i)) == i
  {
    PgIdxDigits(g, PpaAt(g, i));
    Positive(g);
    var b := i / g.PgsPerBlk();
    JoinPair(i, g.PgsPerBlk());
    JoinPair(b, g.lines);
    JoinPair(b / g.lines, g.luns);
    DivBound(i, g.PgsPerBlk(), g.TtBlks());
    DivBound(b, g.lines, g.nchs * g.luns);
    DivBound(b / g.lines, g.luns, g.nchs);
  }

  /* ---------- the walk of a write pointer ---------- */

  /** How many pages of its line a write pointer visits before address a. */
  function Slot(g: Geo, a: Ppa): nat
    requires g.Valid()
  {
    Pair(Pair(Pair(Div(a.pg, g.oneshot), a.lun, g.luns), a.ch, g.nchs), a.pg % g.oneshot, g.oneshot)
  }

  function SlotAt(g: Geo, l: nat, k: nat): Ppa
    requires g.Valid()
  {
    var m := Div(k, g.oneshot);
    var d := Div(m, g.nchs);
    Ppa(m % g.nchs, d % g.luns, l, Pair(Div(d, g.luns), k % g.oneshot, g.oneshot))
  }

  lemma SlotsTotal(g: Geo)
    ensures g.wordlines * g.luns * g.nchs * g.oneshot == g.PgsPerLine()
  {
    Swap4(g.wordlines, g.luns, g.nchs, g.oneshot);
    calc {
      g.oneshot * g.nchs * g.luns * g.wordlines;
      {
        Total(g.wordlines, g.luns * g.nchs, g.oneshot, 1);
        assert g.oneshot * g.nchs * g.luns == g.oneshot * (g.luns * g.nchs);
      }
      g.oneshot * (g.luns * g.nchs) * g.wordlines;
      { assert g.oneshot * (g.luns * g.nchs) == g.luns * g.nchs * g.oneshot; }
      g.luns * g.nchs * g.oneshot * g.wordlines;
      { Swap3(g.luns * g.nchs, g.oneshot, g.wordlines); }
      g.luns * g.nchs * (g.wordlines * g.oneshot);
    }
  }

  /** Slots of a line and its page addresses are in one-to-one correspondence. */
  lemma SlotOk(g: Geo, a: Ppa)
    requires g.Valid() && ValidPpa(g, a)
    ensures Slot(g, a) < g.PgsPerLine() && SlotAt(g, a.blk, Slot(g, a)) == a
  {
    var w, o := a.pg / g.oneshot, a.pg % g.oneshot;
    var x := Pair(w, a.lun, g.luns);
    var y := Pair(x, a.ch, g.nchs);
    JoinPair(a.pg, g.oneshot);
    DivBound(a.pg, g.oneshot, g.wordlines);
    SplitPair(w, a.lun, g.luns);
    SplitPair(x, a.ch, g.nchs);
    SplitPair(y, o, g.oneshot);
    PairBound(w, a.lun, g.luns, g.wordlines);
    PairBound(x, a.ch, g.nchs, g.wordlines * g.luns);
    PairBound(y, o, g.oneshot, g.wordlines * g.luns * g.nchs);
    SlotsTotal(g);
  }

  lemma SlotAtOk(g: Geo, l: nat, k: nat)
    requires g.Valid() && l < g.lines && k < g.PgsPerLine()
    ensures ValidPpa(g, SlotAt(g, l, k)) && Slot(g, SlotAt(g, l, k)) == k
  {
    var m := k / g.oneshot;
    SlotsTotal(g);
    JoinPair(k, g.oneshot);
    JoinPair(m, g.nchs);
    JoinPair(m / g.nchs, g.luns);
    DivBound(k, g.oneshot, g.wordlines * g.luns * g.nchs);
    DivBound(m, g.nchs, g.wordlines * g.luns);
    DivBound(m / g.nchs, g.luns, g.wordlines);
    SplitPair(m / g.nchs / g.luns, k % g.oneshot, g.oneshot);
    PairBound(m / g.nchs / g.luns, k % g.oneshot, g.oneshot, g.wordlines);
  }

  /** The write pointer's next address within its line, and whether that was the last page. */
  function NextPpa(g: Geo, a: Ppa): (r: (Ppa, bool))
    requires g.Valid()
  {
    if (a.pg + 1) % g.oneshot != 0 then (a.(pg := a.pg + 1), false)
    else
      MultipleGe(a.pg + 1, g.oneshot);
      var back := a.pg + 1 - g.oneshot;
      if a.ch + 1 != g.nchs then (a.(pg := back, ch := a.ch + 1), false)
      else if a.lun + 1 != g.luns then (a.(pg := back, ch := 0, lun := a.lun + 1), false)
      else if a.pg + 1 != g.PgsPerBlk() then (a.(pg := a.pg + 1, ch := 0, lun := 0), false)
      else (a.(pg := 0, ch := 0, lun := 0), true)
  }

  lemma MultipleGe(x: nat, n: nat)
    requires n > 0 && x > 0 && x % n == 0
    ensures x >= n
  {
    JoinPair(x, n);
    if x / n > 0 { MulLe(1, x / n, n); }
  }

  lemma Carry(q: nat, n: nat)
    requires n > 0
    ensures Pair(q, n - 1, n) + 1 == Pair(q + 1, 0, n) == (q + 1) * n
  {
    Dist(q, 1, n);
  }

  lemma MulEq(a: nat, b: nat, n: nat)
    requires n > 0
    ensures a * n == b * n <==> a == b
  {
    if a < b { MulLe(a + 1, b, n); Dist(a, 1, n); }
    if b < a { MulLe(b + 1, a, n); Dist(b, 1, n); }
  }

  lemma NextInWordline(g: Geo, a: Ppa, w: nat, o: nat)
    requires g.Valid() && ValidPpa(g, a) && w < g.wordlines && o + 1 < g.oneshot && a.pg == Pair(w, o, g.oneshot)
    ensures var (b, last) := NextPpa(g, a);
            !last && ValidPpa(g, b) && b.blk == a.blk && Slot(g, b) == Slot(g, a) + 1
  {
    SplitPair(w, o, g.oneshot);
    SplitPair(w, o + 1, g.oneshot);
    PairBound(w, o + 1, g.oneshot, g.wordlines);
    assert Pair(w, o + 1, g.oneshot) == a.pg + 1;
  }

  /** The last page of a wordline: the pointer steps to the next die or wordline. */
  lemma NextWordline(g: Geo, a: Ppa, w: nat)
    requires g.Valid() && ValidPpa(g, a) && w < g.wordlines && a.pg == Pair(w, g.oneshot - 1, g.oneshot)
    ensures var (b, last) := NextPpa(g, a);
            && ValidPpa(g, b) && b.blk == a.blk
            && (last ==> Slot(g, a) == g.PgsPerLine() - 1 && b == Ppa(0, 0, a.blk, 0))
            && (!last ==> Slot(g, b) == Slot(g, a) + 1)
  {
    Carry(w, g.oneshot);
    SplitPair(w, g.oneshot - 1, g.oneshot);
    SplitPair(w, 0, g.oneshot);
    SplitPair(w + 1, 0, g.oneshot);
    MulEq(w + 1, g.wordlines, g.oneshot);
    MulLe(w + 1, g.wordlines, g.oneshot);
    if w + 2 <= g.wordlines {
      MulLe(w + 2, g.wordlines, g.oneshot);
      Dist(w + 1, 1, g.oneshot);
    }
    var x := Pair(w, a.lun, g.luns);
    var y := Pair(x, a.ch, g.nchs);
    assert Slot(g, a) == Pair(y, g.oneshot - 1, g.oneshot);
    Carry(y, g.oneshot);
    if a.ch + 1 == g.nchs {
      Carry(x, g.nchs);
      if a.lun + 1 == g.luns {
        Carry(w, g.luns);
        SlotsTotal(g);
      }
    }
  }

  /** Which of the two it is, told by the place in the wordline. */
  lemma NextStep(g: Geo, a: Ppa)
    requires g.Valid() && ValidPpa(g, a)
    ensures var (b, last) := NextPpa(g, a);
            && ValidPpa(g, b) && b.blk == a.blk
            && (last ==> Slot(g, a) == g.PgsPerLine() - 1 && b == Ppa(0, 0, a.blk, 0))
            && (!last ==> Slot(g, b) == Slot(g, a) + 1)
  {
    hide Slot, NextPpa, Geo.PgsPerLine, ValidPpa, Geo.PgsPerBlk, Geo.Valid, Pair;
    var w, o := InWordline(g, a);
    if o + 1 < g.oneshot {
      NextInWordline(g, a, w, o);
    } else {
      NextWordline(g, a, w);
    }
  }

  lemma InWordline(g: Geo, a: Ppa) returns (w: nat, o: nat)
    requires g.Valid() && ValidPpa(g, a)
    ensures w < g.wordlines && o < g.oneshot && a.pg == Pair(w, o, g.oneshot)
  {
    w, o := a.pg / g.oneshot, a.pg % g.oneshot;
    JoinPair(a.pg, g.oneshot);
    DivBound(a.pg, g.oneshot, g.wordlines);
  }

  /** Each advance visits the next slot; the last slot, and only it, closes the line. */
  lemma NextSlot(g: Geo, a: Ppa)
    requires g.Valid() && ValidPpa(g, a)
    ensures var (b, last) := NextPpa(g, a);
            && ValidPpa(g, b) && b.blk == a.blk
            && (last <==> Slot(g, a) == g.PgsPerLine() - 1)
            && (last ==> b == Ppa(0, 0, a.blk, 0))
            && (!last ==> Slot(g, b) == Slot(g, a) + 1)
  {
    hide Slot, NextPpa, Geo.PgsPerLine, Geo.PgsPerBlk, Geo.Valid, ValidPpa;
    NextStep(g, a);
    var (b, last) := NextPpa(g, a);
    if !last { SlotOk(g, b); }
  }

  /* ---------- the layout tables ---------- */

  function BlockAt(g: Geo, i: nat): nat
    requires g.Valid()
  {
    Positive(g);
    Div(i, g.PgsPerBlk())
  }

  function BlockLine(g: Geo, b: nat): nat
    requires g.Valid()
  {
    b % g.lines
  }

  ghost function LayoutOf(g: Geo): Layout
    requires g.Valid()
  {
    Layout(g.lines, g.PgsPerLine(), g.PgsPerBlk(),
           seq(g.TtPgs(), (i: nat) => PpaAt(g, i).blk),
           seq(g.TtPgs(), (i: nat) => Slot(g, PpaAt(g, i))),
           seq(g.TtPgs(), (i: nat) => BlockAt(g, i)),
           seq(g.lines, (l: nat) => seq(g.PgsPerLine(), (k: nat) => PgIdx(g, SlotAt(g, l, k)))),
           seq(g.TtBlks(), (b: nat) => BlockLine(g, b)))
  }

  /** The pages of a block have consecutive indices. */
  lemma BlockRange(g: Geo, b: nat, i: nat)
    requires g.Valid()
    ensures BlockAt(g, i) == b <==> b * g.PgsPerBlk() <= i < b * g.PgsPerBlk() + g.PgsPerBlk()
  {
    var n := g.PgsPerBlk();
    Positive(g);
    JoinPair(i, n);
    if b * n <= i < b * n + n { SplitPair(b, i - b * n, n); }
  }

  lemma BlockMember(g: Geo, b: nat, i: nat)
    requires g.Valid() && b < g.TtBlks()
    ensures i in LayoutOf(g).BlockPages(b) <==> b * g.PgsPerBlk() <= i < b * g.PgsPerBlk() + g.PgsPerBlk()
  {
    BlockRange(g, b, i);
    BlockInside(g, b);
  }

  lemma BlockInside(g: Geo, b: nat)
    requires g.Valid() && b < g.TtBlks()
    ensures b * g.PgsPerBlk() + g.PgsPerBlk() <= g.TtPgs()
  {
    PgIdxDigits(g, Ppa(0, 0, 0, 0));
    MulLe(b + 1, g.TtBlks(), g.PgsPerBlk());
    Dist(b, 1, g.PgsPerBlk());
  }

  lemma BlockSize(g: Geo, b: nat)
    requires g.Valid() && b < g.TtBlks()
    ensures |LayoutOf(g).BlockPages(b)| == g.PgsPerBlk()
  {
    hide LayoutOf, Geo.TtBlks, Geo.Valid;
    var lo, n := b * g.PgsPerBlk(), g.PgsPerBlk();
    hide Geo.PgsPerBlk;
    var pages := LayoutOf(g).BlockPages(b);
    forall i: nat
      ensures i in pages <==> i in Interval(lo, lo + n)
    {
      BlockMember(g, b, i);
    }
    hide Layout.BlockPages;
    assert pages == Interval(lo, lo + n);
  }

  /** The tables are consistent: page indices, line slots and blocks all fit together. */
  lemma LayoutOk(g: Geo)
    requires g.Valid()
    ensures LayoutOf(g).Valid()
  {
    var lay := LayoutOf(g);
    Positive(g);
    forall i | 0 <= i < |lay.line|
      ensures lay.OkPage(i)
    {
      PpaAtOk(g, i);
      SlotOk(g, PpaAt(g, i));
      PgIdxDigits(g, PpaAt(g, i));
      DivBound(i, g.PgsPerBlk(), g.TtBlks());
    }
    forall l, k | 0 <= l < lay.lines && 0 <= k < lay.perLine
      ensures lay.OkSlot(l, k)
    {
      SlotAtOk(g, l, k);
      PgIdxOk(g, SlotAt(g, l, k));
    }
    forall b | 0 <= b < |lay.blockLine|
      ensures |lay.BlockPages(b)| == lay.perBlock
    {
      BlockSize(g, b);
    }
  }

  function BlkIdx(g: Geo, a: Ppa): nat {
    Pair(Pair(a.ch, a.lun, g.luns), a.blk, g.lines)
  }

  /** What the tables say about one address. */
  lemma LayoutAt(g: Geo, a: Ppa)
    requires g.Valid() && ValidPpa(g, a)
    ensures var lay, i := LayoutOf(g), PgIdx(g, a);
            && lay.lines == g.lines && lay.perLine == g.PgsPerLine() && lay.perBlock == g.PgsPerBlk()
            && |lay.line| == |lay.slot| == |lay.block| == g.TtPgs() && |lay.blockLine| == g.TtBlks()
            && i < g.TtPgs() && lay.line[i] == a.blk && lay.slot[i] == Slot(g, a) && lay.block[i] == BlkIdx(g, a)
            && BlkIdx(g, a) < g.TtBlks() && lay.blockLine[BlkIdx(g, a)] == a.blk
            && Slot(g, a) < g.PgsPerLine() && lay.at[a.blk][Slot(g, a)] == i
  {
    PgIdxOk(g, a);
    PgIdxDigits(g, a);
    SlotOk(g, a);
    Positive(g);
    var x := Pair(a.ch, a.lun, g.luns);
    SplitPair(BlkIdx(g, a), a.pg, g.PgsPerBlk());
    SplitPair(x, a.blk, g.lines);
    PairBound(a.ch, a.lun, g.luns, g.nchs);
    PairBound(x, a.blk, g.lines, g.nchs * g.luns);
  }
}
