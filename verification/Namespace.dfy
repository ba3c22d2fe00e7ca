/**
 A conventional namespace: logical pages are striped over the partitions, and a write command
 becomes one page write per logical page it touches.
 */
module Namespace {
  import opened Arith
  import opened Base
  import opened FtlModel
  import FtlRuns
  import opened Geometry
  import opened ConvFtl
  import opened SsdParams
  import opened FtlConf
  import opened FtlTight

  type Maps = seq<map<nat, Payload>>

  /** What the host reads at logical page l, given the contents of the partitions. */
  ghost function ReadAt(ms: Maps, l: nat): Option<Payload>
    requires |ms| > 0
  {
    var m := ms[l % |ms|];
    var local := Div(l, |ms|);
    if local in m then Some(m[local]) else None
  }

  ghost function PutAt(ms: Maps, l: nat, x: Payload): (r: Maps)
    requires |ms| > 0
    ensures |r| == |ms|
  {
    var k := l % |ms|;
    var m: map<nat, Payload> := ms[k][Div(l, |ms|) := x];
    ms[k := m]
  }

  /** Striping keeps logical pages apart: a page write is seen at its own page only. */
  lemma PutThenRead(ms: Maps, l: nat, x: Payload, k: nat)
    requires |ms| > 0
    ensures ReadAt(PutAt(ms, l, x), k) == if k == l then Some(x) else ReadAt(ms, k)
  {
    JoinPair(l, |ms|);
    JoinPair(k, |ms|);
  }

  lemma ReadEmpty(ms: Maps)
    requires |ms| > 0 && forall i :: 0 <= i < |ms| ==> ms[i] == map[]
    ensures forall l: nat :: ReadAt(ms, l) == None
  {
  }

  /** How a write command ends: done, refused, or the driver stops because no buffer can ever hold the command. */
  datatype Outcome = Accepted | Refused | Stopped

  class ConvNamespace {
    const parts: seq<Partition>
    const g: Geo
    const secsPerPg: nat
    /** Logical pages exported per partition. */
    const limit: nat
    /** Bytes of the write buffer. */
    const writeBuffer: nat
    /** Every object that belongs to a partition. */
    ghost const repr: set<object>

    ghost predicate Valid()
      reads this, repr
    {
      && |parts| > 0 && secsPerPg > 0 && g.Valid()
      && g.lines > 4 && limit <= (g.lines - 4) * g.PgsPerLine()
      && (forall i :: 0 <= i < |parts| ==> parts[i].Repr() <= repr && PartOk(parts[i]))
      && (forall i, j :: 0 <= i < |parts| && 0 <= j < |parts| && i != j ==> parts[i].Repr() !! parts[j].Repr())
    }

    ghost predicate PartOk(p: Partition)
      reads p.Repr()
    {
      p.g == g && p.Spacious() && forall l :: l in p.contents ==> l < limit
    }

    ghost function Contents(): (ms: Maps)
      reads set p | p in parts
      ensures |ms| == |parts|
    {
      seq(|parts|, i requires 0 <= i < |parts| reads set p | p in parts => parts[i].contents)
    }

    /** Erased partitions that share no storage. */
    static method NewPartitions(g: Geo, n: nat) returns (ps: seq<Partition>, ghost r: set<object>)
      requires g.Valid() && g.lines > 4
      ensures |ps| == n && forall i :: 0 <= i < n ==> ps[i].Repr() <= r
      ensures forall i :: 0 <= i < n ==> fresh(ps[i].Repr()) && ps[i].g == g && ps[i].Spacious()
      ensures forall i :: 0 <= i < n ==> ps[i].contents == map[]
      ensures forall i, j :: 0 <= i < n && 0 <= j < n && i != j ==> ps[i].Repr() !! ps[j].Repr()
    {
      hide Partition.Spacious, Partition.Valid, Partition.Rep, Partition.Abs, FtlRuns.Init;
      ps, r := [], {};
      while |ps| < n
        invariant |ps| <= n && forall i :: 0 <= i < |ps| ==> ps[i].Repr() <= r
        invariant forall i :: 0 <= i < |ps| ==>
                    fresh(ps[i].Repr()) && ps[i].g == g && ps[i].Spacious() && ps[i].contents == map[]
        invariant forall i, j :: 0 <= i < |ps| && 0 <= j < |ps| && i != j ==> ps[i].Repr() !! ps[j].Repr()
      {
        var p := new Partition(g);
        p.NewValid();
        ps, r := ps + [p], r + p.Repr();
      }
    }

    constructor (g: Geo, n: nat, secsPerPg: nat, limit: nat, writeBuffer: nat)
      requires g.Valid() && n > 0 && secsPerPg > 0 && g.lines > 4 && limit <= (g.lines - 4) * g.PgsPerLine()
      ensures Valid() && |parts| == n && forall l: nat :: ReadAt(Contents(), l) == None
      ensures this.g == g && this.secsPerPg == secsPerPg && this.limit == limit && this.writeBuffer == writeBuffer
    {
      hide Partition.Spacious, Geo.PgsPerLine, ReadAt;
      var ps;
      ghost var r;
      ps, r := NewPartitions(g, n);
      this.parts, this.g, this.secsPerPg, this.limit, this.writeBuffer := ps, g, secsPerPg, limit, writeBuffer;
      repr := r;
      new;
      ReadEmpty(Contents());
    }

    method WriteOne(lpn: nat, ghost x: Payload)
      requires Valid() && Div(lpn, |parts|) < g.TtPgs() && Div(lpn, |parts|) < limit
      modifies repr
      ensures Valid() && Contents() == PutAt(old(Contents()), lpn, x)
    {
      hide Partition.Valid, Partition.Abs, Partition.Lay, Geo.PgsPerLine, Geo.TtPgs, Geo.Valid, Div, FtlRuns.Next,
           FtlRuns.Ready, Partition.HasRoom, FtlRuns.SpaceOk;
      var k, local := lpn % |parts|, Div(lpn, |parts|);
      var p := parts[k];
      assert PartOk(p);
      Below(limit, p.contents.Keys + {local});
      p.WithinBound(local);
      p.WritePage(local, x);
      hide PartOk;
      forall i | 0 <= i < |parts| && i != k
        ensures PartOk(parts[i]) && parts[i].contents == old(parts[i].contents)
      {
        assert parts[i].Repr() !! p.Repr();
        assert parts[i] in parts[i].Repr();
      }
    }

    /**
     A write command; the page payloads are d.  Out of the FTL's range, or without room in the buffer, it is refused;
     larger than the whole buffer, it stops the driver.
     */
    method Write(slba: nat, nlb: nat, buffered: bool, ghost d: nat -> Payload) returns (res: Outcome)
      requires Valid() && nlb > 0
      requires var last := Div(Div(slba + nlb - 1, secsPerPg), |parts|); last < g.TtPgs() ==> last < limit
      modifies repr
      ensures Valid()
      ensures res == if Div(Div(slba + nlb - 1, secsPerPg), |parts|) >= g.TtPgs() then Refused
                     else if nlb * SECSZ > writeBuffer then Stopped
                     else if buffered then Accepted else Refused
      ensures forall l: nat :: ReadAt(Contents(), l) ==
                if res.Accepted? && Div(slba, secsPerPg) <= l <= Div(slba + nlb - 1, secsPerPg) then Some(d(l))
                else ReadAt(old(Contents()), l)
    {
      assert |parts| > 0 && secsPerPg > 0;
      hide Valid, PutAt, ReadAt;
      var start, end := Div(slba, secsPerPg), Div(slba + nlb - 1, secsPerPg);
      if Div(end, |parts|) >= g.TtPgs() { return Refused; }
      if nlb * SECSZ > writeBuffer { return Stopped; }
      if !buffered { return Refused; }
      res := Accepted;
      var lpn := start;
      while lpn <= end
        invariant start <= lpn && Valid()
        invariant forall l: nat :: ReadAt(Contents(), l) ==
                    if start <= l < lpn && l <= end then Some(d(l)) else ReadAt(old(Contents()), l)
      {
        DivMono(lpn, end, |parts|);
        ghost var ms := Contents();
        WriteOne(lpn, d(lpn));
        forall l: nat
          ensures ReadAt(Contents(), l) == if l == lpn then Some(d(l)) else ReadAt(ms, l)
        {
          PutThenRead(ms, lpn, d(lpn), l);
        }
        lpn := lpn + 1;
      }
    }
  }

  /** conv_init_namespace: from 62 lines on, the configured device carries everything it exports. */
  method InitNamespace(c: Config, capacity: nat, nparts: nat, writeBuffer: nat) returns (ns: ConvNamespace)
    requires ConfigOk(c, nparts) && Div(capacity, nparts) > 0
    requires var g := InitGeo(c, capacity, nparts);
             g.lines >= 62 || (g.lines > 4 && ExportedPages(capacity, nparts) <= (g.lines - 4) * g.PgsPerLine())
    ensures ns.Valid() && |ns.parts| == nparts && ns.g == InitGeo(c, capacity, nparts)
    ensures ns.secsPerPg == SECS_PER_PG && ns.limit == ExportedPages(capacity, nparts)
    ensures ns.writeBuffer == writeBuffer
    ensures forall l: nat :: ReadAt(ns.Contents(), l) == None
  {
    hide InitGeo, ExportedPages, ConvNamespace.Valid, ReadAt, Geo.PgsPerLine;
    var g := InitGeo(c, capacity, nparts);
    GeoCovers(c, capacity, nparts);
    if g.lines >= 62 { ExportedFits(c, capacity, nparts); }
    ns := new ConvNamespace(g, nparts, SECS_PER_PG, ExportedPages(capacity, nparts), writeBuffer);
  }

  /** Any write to exported blocks with room in the buffer is accepted, and meets what Write asks of its caller. */
  method WriteExported(ns: ConvNamespace, c: Config, capacity: nat, slba: nat, nlb: nat, buffered: bool,
                       ghost d: nat -> Payload)
    returns (res: Outcome)
    requires ns.Valid() && ConfigOk(c, |ns.parts|) && Div(capacity, |ns.parts|) > 0
    requires ns.secsPerPg == SECS_PER_PG && ns.limit == ExportedPages(capacity, |ns.parts|)
    requires nlb > 0 && slba + nlb <= ExportedBlocks(capacity)
    modifies ns.repr
    ensures ns.Valid()
    ensures res == if nlb * SECSZ > ns.writeBuffer then Stopped else if buffered then Accepted else Refused
    ensures forall l: nat :: ReadAt(ns.Contents(), l) ==
              if res.Accepted? && Div(slba, SECS_PER_PG) <= l <= Div(slba + nlb - 1, SECS_PER_PG) then Some(d(l))
              else ReadAt(old(ns.Contents()), l)
  {
    ghost var last := Div(Div(slba + nlb - 1, SECS_PER_PG), |ns.parts|);
    ExportedCommand(capacity, |ns.parts|, slba, nlb);
    LimitInRange(ns.g, ns.limit);
    hide ConvNamespace.Valid, ExportedPages, ExportedBlocks, ReadAt;
    assert last < ns.limit;
    res := ns.Write(slba, nlb, buffered, d);
  }

  /**
   With five or more lines of five or more pages that is exactly when a host that keeps to the exported pages can
   never exhaust a partition.
   */
  lemma ExportedExactly(c: Config, capacity: nat, nparts: nat)
    requires ConfigOk(c, nparts) && Div(capacity, nparts) > 0
    requires var g := InitGeo(c, capacity, nparts); g.lines >= 5 && g.PgsPerLine() >= 5
    ensures var g, e := InitGeo(c, capacity, nparts), ExportedPages(capacity, nparts);
            g.Valid() && (Exhausts(LayoutOf(g), e) <==> e > (g.lines - 4) * g.PgsPerLine())
  {
    hide InitGeo, ExportedPages, Exhausts;
    var g, e := InitGeo(c, capacity, nparts), ExportedPages(capacity, nparts);
    GeoCovers(c, capacity, nparts);
    ExportedBound(capacity, nparts, g.TtPgs());
    PgIdxDigits(g, Ppa(0, 0, 0, 0));
    MulLe(5, g.lines, g.PgsPerLine());
    LayoutOk(g);
    BoundExactly(LayoutOf(g), e);
  }

  lemma LimitInRange(g: Geo, limit: nat)
    requires g.Valid() && limit <= (g.lines - 4) * g.PgsPerLine()
    ensures limit <= g.TtPgs()
  {
    PgIdxDigits(g, Ppa(0, 0, 0, 0));
    MulLe(g.lines - 4, g.lines, g.PgsPerLine());
  }

  lemma DivMono(a: nat, b: nat, n: nat)
    requires a <= b && n > 0
    ensures Div(a, n) <= Div(b, n)
  {
    JoinPair(a, n);
    JoinPair(b, n);
    if b / n < a / n { MulLe(b / n + 1, a / n, n); Dist(b / n, 1, n); }
  }
}
