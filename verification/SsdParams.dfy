/** Geometry derived from the device configuration, and why the exported space fits the FTL. */
module SsdParams {
  import opened Arith
  import opened Geometry

  /** Mapping unit in bytes. */
  const PGSZ := 4096
  /** Physical over logical space, in percent: 7 % over-provisioning. */
  const PBA_PCENT := 107

  /** Sizes in bytes; either the block count per plane or the block size is configured. */
  datatype Config = Config(channels: nat, luns: nat, blksPerPln: nat, blkSize: nat, flashPage: nat, oneshotPage: nat)

  predicate ConfigOk(c: Config, nparts: nat) {
    && nparts > 0 && c.channels > 0 && c.channels % nparts == 0 && c.luns > 0
    && (c.blksPerPln > 0 || c.blkSize > 0)
    && c.flashPage > 0 && c.oneshotPage > 0
    && c.oneshotPage % PGSZ == 0 && c.flashPage % PGSZ == 0 && c.oneshotPage % c.flashPage == 0
  }

  function DivRoundUp(a: nat, b: nat): nat
    requires b > 0
  {
    Div(a + b - 1, b)
  }

  lemma RoundUp(a: nat, b: nat)
    requires b > 0
    ensures DivRoundUp(a, b) * b >= a
    ensures DivRoundUp(a, b) > 0 <==> a > 0
  {
    JoinPair(a + b - 1, b);
    if a == 0 { DivBound(b - 1, b, 1); }
  }

  lemma ChannelsPositive(c: Config, nparts: nat)
    requires ConfigOk(c, nparts)
    ensures Div(c.channels, nparts) > 0 && Div(c.channels, nparts) * c.luns > 0
  {
    MultipleGe(c.channels, nparts);
    JoinPair(c.channels, nparts);
    if Div(c.channels, nparts) > 0 { MulLe(1, Div(c.channels, nparts), c.luns); }
  }

  /** The geometry of one of nparts partitions of a device with the given capacity. */
  function InitGeo(c: Config, capacity: nat, nparts: nat): Geo
    requires ConfigOk(c, nparts)
  {
    ChannelsPositive(c, nparts);
    var nchs := Div(c.channels, nparts);
    var cap := Div(capacity, nparts);
    var dies := nchs * c.luns;
    var oneshot := Div(c.oneshotPage, PGSZ);
    var flash := Div(c.flashPage, PGSZ);
    if c.blksPerPln > 0 then
      MulLe(1, c.blksPerPln, dies);
      var blkSize := DivRoundUp(cap, c.blksPerPln * dies);
      Geo(nchs, c.luns, c.blksPerPln, oneshot, DivRoundUp(blkSize, c.oneshotPage), flash)
    else
      MulLe(1, c.blkSize, dies);
      Geo(nchs, c.luns, DivRoundUp(cap, c.blkSize * dies), oneshot, DivRoundUp(c.blkSize, c.oneshotPage), flash)
  }

  lemma UnitsOk(c: Config, nparts: nat)
    requires ConfigOk(c, nparts)
    ensures var o, f := Div(c.oneshotPage, PGSZ), Div(c.flashPage, PGSZ);
            o > 0 && f > 0 && o * PGSZ == c.oneshotPage && f * PGSZ == c.flashPage && o % f == 0
  {
    MultipleGe(c.oneshotPage, PGSZ);
    MultipleGe(c.flashPage, PGSZ);
    var o, f, q := Div(c.oneshotPage, PGSZ), Div(c.flashPage, PGSZ), c.oneshotPage / c.flashPage;
    JoinPair(c.oneshotPage, c.flashPage);
    assert o * PGSZ == q * (f * PGSZ);
    assert q * (f * PGSZ) == (q * f) * PGSZ;
    SplitPair(q, 0, f);
  }

  /** The geometry is usable exactly when every partition gets some capacity, and then covers it. */
  lemma GeoCovers(c: Config, capacity: nat, nparts: nat)
    requires ConfigOk(c, nparts)
    ensures InitGeo(c, capacity, nparts).Valid() <==> Div(capacity, nparts) > 0
    ensures InitGeo(c, capacity, nparts).TtPgs() * PGSZ >= Div(capacity, nparts)
  {
    ChannelsPositive(c, nparts);
    UnitsOk(c, nparts);
    var cap, dies := Div(capacity, nparts), Div(c.channels, nparts) * c.luns;
    var g := InitGeo(c, capacity, nparts);
    var blkSize := if c.blksPerPln > 0 then DivRoundUp(cap, c.blksPerPln * dies) else c.blkSize;
    if c.blksPerPln > 0 {
      RoundUp(cap, c.blksPerPln * dies);
    } else {
      RoundUp(cap, c.blkSize * dies);
      Swap3(c.blkSize, dies, g.lines);
      Assoc(g.lines, c.blkSize, dies);
    }
    RoundUp(blkSize, c.oneshotPage);
    Bytes(g);
    hide InitGeo, DivRoundUp, Div, Geo.TtPgs;
    Cover(g.wordlines * c.oneshotPage, blkSize, g.lines * dies, cap);
  }

  /** The least number of whole pieces that make up the amount. */
  ghost predicate Least(n: nat, piece: nat, amount: nat)
  {
    n * piece >= amount && (n > 0 ==> (n - 1) * piece < amount)
  }

  lemma RoundUpLeast(a: nat, b: nat)
    requires b > 0
    ensures Least(DivRoundUp(a, b), b, a)
  {
    RoundUp(a, b);
    RoundUpBound(a, b);
    if DivRoundUp(a, b) > 0 { Dist(DivRoundUp(a, b) - 1, 1, b); }
  }

  /** Rounding up to bytes per block and then to wordlines is no more than rounding up to wordlines of all blocks. */
  lemma LeastTwice(a: nat, n: nat, size: nat, b: nat, w: nat)
    requires n > 0 && Least(size, n, a) && Least(w, b, size)
    ensures Least(w, b * n, a)
  {
    MulLe(size, w * b, n);
    Assoc(w, b, n);
    if w > 0 {
      MulLe((w - 1) * b, size - 1, n);
      Assoc(w - 1, b, n);
    }
  }

  /**
   The geometry wastes as little as its units allow.  With a given number of blocks, one wordline per block less would
   not hold the capacity; with a given block size the block has no wordline too many, and there is no line too many.
   */
  lemma GeoTight(c: Config, capacity: nat, nparts: nat)
    requires ConfigOk(c, nparts)
    ensures var g, cap := InitGeo(c, capacity, nparts), Div(capacity, nparts);
            && g.nchs * nparts == c.channels && g.luns == c.luns
            && g.oneshot * PGSZ == c.oneshotPage && g.flash * PGSZ == c.flashPage
            && (c.blksPerPln > 0 ==>
                  g.lines == c.blksPerPln && Least(g.wordlines, c.oneshotPage * (g.lines * (g.nchs * g.luns)), cap))
            && (c.blksPerPln == 0 ==>
                  Least(g.wordlines, c.oneshotPage, c.blkSize) && Least(g.lines, c.blkSize * (g.nchs * g.luns), cap))
  {
    ChannelsPositive(c, nparts);
    UnitsOk(c, nparts);
    MultipleGe(c.channels, nparts);
    JoinPair(c.channels, nparts);
    var cap, dies := Div(capacity, nparts), Div(c.channels, nparts) * c.luns;
    if c.blksPerPln > 0 {
      var n := c.blksPerPln * dies;
      MulLe(1, c.blksPerPln, dies);
      RoundUpLeast(cap, n);
      var size := DivRoundUp(cap, n);
      RoundUpLeast(size, c.oneshotPage);
      LeastTwice(cap, n, size, c.oneshotPage, DivRoundUp(size, c.oneshotPage));
    } else {
      MulLe(1, c.blkSize, dies);
      RoundUpLeast(c.blkSize, c.oneshotPage);
      RoundUpLeast(cap, c.blkSize * dies);
    }
    hide DivRoundUp, Div, Least;
  }

  /** In bytes: less than one wordline per block above the capacity, or less than a line of the given block size. */
  lemma GeoWaste(c: Config, capacity: nat, nparts: nat)
    requires ConfigOk(c, nparts) && Div(capacity, nparts) > 0
    ensures var g, cap := InitGeo(c, capacity, nparts), Div(capacity, nparts);
            var dies := g.nchs * g.luns;
            && (c.blksPerPln > 0 ==> g.TtPgs() * PGSZ < cap + c.oneshotPage * (g.lines * dies))
            && (c.blksPerPln == 0 && c.blkSize % c.oneshotPage == 0 ==> g.TtPgs() * PGSZ < cap + c.blkSize * dies)
  {
    GeoTight(c, capacity, nparts);
    GeoCovers(c, capacity, nparts);
    var g, cap := InitGeo(c, capacity, nparts), Div(capacity, nparts);
    hide InitGeo, Div, DivRoundUp, Geo.TtPgs;
    Bytes(g);
    var n := g.lines * (g.nchs * g.luns);
    if c.blksPerPln > 0 {
      Assoc(g.wordlines, c.oneshotPage, n);
      Dist(g.wordlines - 1, 1, c.oneshotPage * n);
    } else if c.blkSize % c.oneshotPage == 0 {
      LeastMultiple(g.wordlines, c.oneshotPage, c.blkSize);
      Swap3(c.blkSize, g.lines, g.nchs * g.luns);
      Assoc(c.blkSize, g.lines, g.nchs * g.luns);
      Assoc(g.lines, c.blkSize, g.nchs * g.luns);
      Dist(g.lines - 1, 1, c.blkSize * (g.nchs * g.luns));
    }
  }

  lemma LeastMultiple(n: nat, piece: nat, amount: nat)
    requires piece > 0 && amount % piece == 0 && Least(n, piece, amount)
    ensures n * piece == amount
  {
    JoinPair(amount, piece);
    var q := amount / piece;
    if n > q {
      MulLe(q, n - 1, piece);
    } else {
      MulLe(n, q, piece);
    }
  }

  lemma Cover(bytes: nat, blkSize: nat, n: nat, cap: nat)
    requires bytes >= blkSize && blkSize * n >= cap
    ensures bytes * n >= cap
  {
    MulLe(blkSize, bytes, n);
  }

  lemma Bytes(g: Geo)
    ensures g.TtPgs() * PGSZ == g.wordlines * (g.oneshot * PGSZ) * (g.lines * (g.nchs * g.luns))
  {
    var w, o, t, l, c := g.wordlines, g.oneshot, g.lines, g.luns, g.nchs;
    calc {
      w * o * t * l * c * PGSZ;
      { Swap3(w * o * t, l, c); }
      w * o * t * (c * l) * PGSZ;
      { Assoc(w * o, t, c * l); }
      w * o * (t * (c * l)) * PGSZ;
      { Swap3(w * o, t * (c * l), PGSZ); }
      w * o * (PGSZ * (t * (c * l)));
      { Assoc(w * o, PGSZ, t * (c * l)); }
      w * o * PGSZ * (t * (c * l));
      { Assoc(w, o, PGSZ); }
      w * (o * PGSZ) * (t * (c * l));
    }
  }

  lemma Assoc(x: int, y: int, z: int)
    ensures x * y * z == x * (y * z)
  {
  }

  const SECSZ := 512
  const SECS_PER_PG := 8

  /** Blocks of 512 bytes that the namespace exports. */
  function ExportedBlocks(capacity: nat): nat
  {
    Div(Div(capacity * 100, PBA_PCENT), SECSZ)
  }

  /** Logical pages that they touch, also when the last page is touched in part, dealt out to nparts partitions. */
  function ExportedPages(capacity: nat, nparts: nat): nat
    requires nparts > 0
  {
    DivRoundUp(DivRoundUp(ExportedBlocks(capacity), SECS_PER_PG), nparts)
  }

  /** The most blocks that leave the over-provisioning free. */
  lemma ExportedExactly(capacity: nat)
    ensures ExportedBlocks(capacity) * SECSZ * PBA_PCENT <= capacity * 100
    ensures (ExportedBlocks(capacity) + 1) * SECSZ * PBA_PCENT > capacity * 100
  {
    JoinPair(capacity * 100, PBA_PCENT);
    JoinPair(Div(capacity * 100, PBA_PCENT), SECSZ);
  }

  /** The fewest pages per partition that hold them all. */
  lemma ExportedPagesLeast(capacity: nat, nparts: nat)
    requires nparts > 0
    ensures Least(ExportedPages(capacity, nparts), nparts * SECS_PER_PG, ExportedBlocks(capacity))
  {
    hide ExportedBlocks, Least, Div;
    var n0 := DivRoundUp(ExportedBlocks(capacity), SECS_PER_PG);
    RoundUpLeast(ExportedBlocks(capacity), SECS_PER_PG);
    RoundUpLeast(n0, nparts);
    LeastTwice(ExportedBlocks(capacity), SECS_PER_PG, n0, nparts, ExportedPages(capacity, nparts));
  }

  lemma PagesBound(capacity: nat)
    ensures DivRoundUp(ExportedBlocks(capacity), SECS_PER_PG) * PGSZ * PBA_PCENT <=
            capacity * 100 + (PGSZ - 1) * PBA_PCENT
  {
    var bytes := Div(capacity * 100, PBA_PCENT);
    var blocks := ExportedBlocks(capacity);
    assert bytes * PBA_PCENT <= capacity * 100;
    assert blocks * SECSZ <= bytes;
    RoundUpBound(blocks, SECS_PER_PG);
  }

  lemma ExportedBound(capacity: nat, nparts: nat, pages: nat)
    requires nparts > 0 && Div(capacity, nparts) <= pages * PGSZ
    ensures ExportedPages(capacity, nparts) * PBA_PCENT <= 100 * pages + PBA_PCENT
  {
    hide DivRoundUp, ExportedBlocks, Div;
    var n0 := DivRoundUp(ExportedBlocks(capacity), SECS_PER_PG);
    var e := DivRoundUp(n0, nparts);
    PagesBound(capacity);
    RoundUpBound(n0, nparts);
    CapacityBound(capacity, nparts, pages);
    TotalBound(e * nparts, pages * nparts, n0, capacity, nparts);
    Unscale(PBA_PCENT, e, 100, pages, PBA_PCENT + 1, nparts);
  }

  lemma RoundUpBound(a: nat, b: nat)
    requires b > 0
    ensures DivRoundUp(a, b) * b <= a + b - 1
  {
    JoinPair(a + b - 1, b);
  }

  lemma TotalBound(e: nat, p: nat, n0: nat, capacity: nat, m: nat)
    requires n0 * PGSZ * PBA_PCENT <= capacity * 100 + (PGSZ - 1) * PBA_PCENT && e <= n0 + m - 1
    requires capacity < PGSZ * p + m
    ensures PBA_PCENT * e < 100 * p + (PBA_PCENT + 1) * m
  {
  }

  lemma CapacityBound(capacity: nat, nparts: nat, pages: nat)
    requires nparts > 0 && Div(capacity, nparts) <= pages * PGSZ
    ensures capacity < PGSZ * (pages * nparts) + nparts
  {
    JoinPair(capacity, nparts);
    MulLe(Div(capacity, nparts), pages * PGSZ, nparts);
    Assoc(PGSZ, pages, nparts);
  }

  /** Dividing a linear inequality by m. */
  lemma Unscale(a: nat, x: nat, b: nat, y: nat, c: nat, m: nat)
    requires a * (x * m) < b * (y * m) + c * m
    ensures a * x < b * y + c
  {
    Dist(b * y, c, m);
    Assoc(a, x, m);
    Assoc(b, y, m);
    if a * x >= b * y + c {
      MulLe(b * y + c, a * x, m);
    }
  }

  /** A command on exported blocks stays within the exported pages of each partition. */
  lemma ExportedCommand(capacity: nat, nparts: nat, slba: nat, nlb: nat)
    requires nparts > 0 && nlb > 0 && slba + nlb <= ExportedBlocks(capacity)
    ensures Div(Div(slba + nlb - 1, SECS_PER_PG), nparts) < ExportedPages(capacity, nparts)
  {
    var n0, last := DivRoundUp(ExportedBlocks(capacity), SECS_PER_PG), Div(slba + nlb - 1, SECS_PER_PG);
    assert last < n0;
    var e := ExportedPages(capacity, nparts);
    RoundUp(n0, nparts);
    hide ExportedPages, ExportedBlocks;
    DivBound(last, nparts, e);
  }

  /**
   With the driver's over-provisioning, 62 lines are enough for the exported space to stay within the
   FTL's limit of (lines - 4) * pages-per-line live logical pages.
   */
  lemma ExportedFits(c: Config, capacity: nat, nparts: nat)
    requires ConfigOk(c, nparts) && Div(capacity, nparts) > 0
    requires InitGeo(c, capacity, nparts).lines >= 62
    ensures var g := InitGeo(c, capacity, nparts);
            g.Valid() && ExportedPages(capacity, nparts) <= (g.lines - 4) * g.PgsPerLine()
  {
    var g := InitGeo(c, capacity, nparts);
    GeoCovers(c, capacity, nparts);
    ExportedBound(capacity, nparts, g.TtPgs());
    PgIdxDigits(g, Ppa(0, 0, 0, 0));
    Positive(g);
    var p := g.PgsPerLine();
    MulLe(62, g.lines, p);
    Dist(g.lines - 4, 4, p);
  }
}
