/**
 Timing of NAND commands on the dies of one partition, on top of the channel model.  A die does one
 operation at a time, its availability time never goes back, and a flush waits for all of them.
 */
module NandTiming {
  import opened Arith
  import opened Base
  import opened ChannelModel

  /** Successive readings of the clock do not go back. */
  ghost predicate Rising(clock: nat -> nat)
  {
    forall i: nat, j: nat :: i <= j ==> clock(i) <= clock(j)
  }

  datatype Cmd = Read | Write | Erase | Nop

  /** The die an address names, and the cell type of its page. */
  datatype Die = Die(ch: nat, lun: nat, cell: nat)

  /** An operation that kept die (ch, lun) busy from start to end. */
  datatype Op = Op(ch: nat, lun: nat, start: nat, end: nat)

  predicate SameDie(a: Op, b: Op) { a.ch == b.ch && a.lun == b.lun }

  /** Operations of one die come one after the other. */
  ghost predicate NoOverlap(log: seq<Op>)
  {
    && (forall i :: 0 <= i < |log| ==> log[i].start <= log[i].end)
    && (forall i, j :: 0 <= i < j < |log| && SameDie(log[i], log[j]) ==> log[i].end <= log[j].start)
  }

  /** Some operation ended then, or nothing did yet. */
  ghost predicate Ended(log: seq<Op>, t: nat)
  {
    t == 0 || exists i :: 0 <= i < |log| && log[i].end == t
  }

  lemma EndedMore(log: seq<Op>, op: Op)
    ensures Ended(log + [op], op.end) && forall t :: Ended(log, t) ==> Ended(log + [op], t)
  {
    var r := log + [op];
    assert r[|log|] == op;
    forall t | Ended(log, t) ensures Ended(r, t) {
      if t != 0 {
        var i :| 0 <= i < |log| && log[i].end == t;
        assert r[i].end == t;
      }
    }
  }

  /** Latencies in nanoseconds; reads differ by cell type and by whether they are 4 KiB. */
  datatype Latency = Latency(rd4k: seq<nat>, rd: seq<nat>, wr: nat, er: nat, maxXfer: nat)

  /**
   Transfers of so many bytes in pieces of at most max: full pieces and a rest, one after the other without a gap,
   from start to end.
   */
  predicate Chained(ts: seq<Transfer>, start: nat, bytes: nat, max: nat, end: nat)
  {
    && ts != [] && ts[0].start == start && ts[|ts| - 1].done == end
    && bytes == (|ts| - 1) * max + ts[|ts| - 1].bytes && 0 < ts[|ts| - 1].bytes <= max
    && forall k :: 0 <= k < |ts| - 1 ==> ts[k].bytes == max && ts[k + 1].start == ts[k].done
  }

  lemma ChainedMore(ts: seq<Transfer>, start: nat, bytes: nat, max: nat, end: nat, t: Transfer)
    requires ts == [] ==> start == end && bytes == 0
    requires ts != [] ==> Chained(ts, start, bytes, max, end)
    requires bytes == |ts| * max && t.start == end && 0 < t.bytes <= max
    ensures Chained(ts + [t], start, bytes + t.bytes, max, t.done)
    ensures t.bytes == max ==> bytes + t.bytes == |ts + [t]| * max
  {
    Dist(|ts|, 1, max);
    if ts != [] {
      Dist(|ts| - 1, 1, max);
    }
  }

  /** Each piece goes on over the PCIe link as soon as it left the channel, if the two overlap. */
  predicate Linked(pieces: seq<Transfer>, links: seq<Transfer>, interleave: bool)
  {
    if !interleave then links == []
    else
      && |links| == |pieces|
      && forall k :: 0 <= k < |pieces| ==> links[k].start == pieces[k].done && links[k].bytes == pieces[k].bytes
  }

  lemma LinkedMore(pieces: seq<Transfer>, links: seq<Transfer>, p: Transfer, l: Transfer)
    requires Linked(pieces, links, true) && l.start == p.done && l.bytes == p.bytes
    ensures Linked(pieces + [p], links + [l], true)
  {
  }

  lemma NoLinks(pieces: seq<Transfer>)
    ensures Linked(pieces, [], false) && Linked([], [], true)
  {
  }

  /**
   A die that starts a command at `begin` is busy until `end`, with these transfers on its channel and on the PCIe link.
   A read is sensed and then transferred, a write is transferred and then programmed; the others transfer nothing.
   */
  predicate Busy(cmd: Cmd, lat: Latency, cell: nat, begin: nat, size: nat, interleave: bool, end: nat, completed: nat,
                 pieces: seq<Transfer>, links: seq<Transfer>)
    requires cell < |lat.rd| == |lat.rd4k|
  {
    match cmd
    case Read =>
      && Chained(pieces, begin + (if size == 4096 then lat.rd4k[cell] else lat.rd[cell]), size, lat.maxXfer, end)
      && Linked(pieces, links, interleave)
      && completed == if interleave then links[|links| - 1].done else end
    case Write =>
      && |pieces| == 1 && pieces[0].start == begin && pieces[0].bytes == size && end == pieces[0].done + lat.wr
      && links == [] && completed == end
    case Erase => pieces == [] && links == [] && end == begin + lat.er == completed
    case Nop => pieces == [] && links == [] && end == begin == completed
  }

  /** A channel that served nothing yet, at the rate of this bandwidth, with so much firmware time per unit. */
  ghost predicate Rated(c: Channel, bandwidth: nat, fw: nat)
    reads c
  {
    && c.served == [] && CreditsOf(bandwidth, c.maxCredits)
    && c.xferLat >= fw && TimeOf(bandwidth, c.xferLat - fw)
  }

  method NewChannel(bandwidth: nat, fw: nat) returns (c: Channel)
    requires bandwidth > 0
    ensures fresh(c) && fresh(c.avail) && Rated(c, bandwidth, fw) && (c.Shape() <==> UsableBandwidth(bandwidth))
  {
    c := new Channel(bandwidth, fw);
  }

  class Ssd {
    const lat: Latency
    const chs: seq<Channel>
    const pcie: Channel
    /** When each die is free again. */
    const avail: array2<nat>
    /** Every operation issued so far. */
    ghost var log: seq<Op>

    predicate InRange(d: Die)
    {
      d.ch < |chs| == avail.Length0 && d.lun < avail.Length1 && d.cell < |lat.rd|
    }

    ghost predicate Valid()
      reads this, avail, chs, set c | c in chs :: c.avail, pcie, pcie.avail
    {
      && lat.maxXfer > 0 && |lat.rd| == |lat.rd4k|
      && avail.Length0 == |chs|
      && (forall i :: 0 <= i < |chs| ==> chs[i].Shape() && chs[i] != pcie && chs[i].avail != pcie.avail)
      && (forall i, j :: 0 <= i < j < |chs| ==> chs[i] != chs[j] && chs[i].avail != chs[j].avail)
      && pcie.Shape()
      && DiesOk()
    }

    /** No die did two things at once, and each is free from the end of its last operation on. */
    ghost predicate DiesOk()
      reads this, avail
    {
      && NoOverlap(log)
      && (forall i :: 0 <= i < |log| ==>
            log[i].ch < avail.Length0 && log[i].lun < avail.Length1 && log[i].end <= avail[log[i].ch, log[i].lun])
      && (forall c, l :: 0 <= c < avail.Length0 && 0 <= l < avail.Length1 ==> Ended(log, avail[c, l]))
    }

    /** ssd_init: every die is free from the start; the channels are usable exactly for some bandwidths. */
    constructor (lat: Latency, nchs: nat, luns: nat, chBandwidth: nat, pcieBandwidth: nat, fwLat: nat)
      requires lat.maxXfer > 0 && |lat.rd| == |lat.rd4k| && chBandwidth > 0 && pcieBandwidth > 0
      ensures Valid() <==> UsableBandwidth(pcieBandwidth) && (nchs == 0 || UsableBandwidth(chBandwidth))
      ensures log == [] && avail.Length0 == nchs == |chs| && avail.Length1 == luns
      ensures Rated(pcie, pcieBandwidth, 0)
      ensures forall i :: 0 <= i < nchs ==> Rated(chs[i], chBandwidth, fwLat * UNIT_XFER_SIZE / 4096)
      ensures forall c, l :: 0 <= c < nchs && 0 <= l < luns ==> avail[c, l] == 0
    {
      hide Rated, UsableBandwidth, Channel.Shape;
      var list: seq<Channel> := [];
      for i := 0 to nchs
        invariant |list| == i
        invariant forall k :: 0 <= k < i ==>
                    fresh(list[k]) && fresh(list[k].avail) && (list[k].Shape() <==> UsableBandwidth(chBandwidth))
        invariant forall k :: 0 <= k < i ==> Rated(list[k], chBandwidth, fwLat * UNIT_XFER_SIZE / 4096)
        invariant forall k, l :: 0 <= k < l < i ==> list[k] != list[l] && list[k].avail != list[l].avail
      {
        var c := NewChannel(chBandwidth, fwLat * UNIT_XFER_SIZE / 4096);
        list := list + [c];
      }
      var p := NewChannel(pcieBandwidth, 0);
      this.lat, chs, pcie, log := lat, list, p, [];
      avail := new nat[nchs, luns]((_, _) => 0);
      new;
      assert nchs > 0 ==> (chs[0].Shape() <==> UsableBandwidth(chBandwidth));
    }

    /** Transfers a read's data in pieces; each piece starts when the one before it is through. */
    method TransferOut(c: Channel, start: nat, size: nat, interleave: bool, clock: nat -> nat)
      returns (end: nat, completed: nat, ghost pieces: seq<Transfer>, ghost links: seq<Transfer>)
      requires c.Shape() && pcie.Shape() && c != pcie && c.avail != pcie.avail && size > 0 && lat.maxXfer > 0
      requires Rising(clock) && clock(0) >= c.curTime && clock(0) >= pcie.curTime
      modifies c, c.avail, pcie, pcie.avail
      ensures c.Shape() && pcie.Shape() && end >= start && completed >= end
      ensures c.served == old(c.served) + pieces && Chained(pieces, start, size, lat.maxXfer, end)
      ensures pcie.served == old(pcie.served) + links && Linked(pieces, links, interleave)
      ensures completed == if interleave then links[|links| - 1].done else end
    {
      hide Chained, InBytes, Spend, Units, Linked, Channel.Valid, Channel.SafeGap, Admitted, AfterClock, Left;
      var remaining, i := size, 0;
      end, completed, pieces, links := start, start, [], [];
      NoLinks([]);
      while remaining > 0
        invariant c.Shape() && pcie.Shape() && end >= start && completed >= end
        invariant c.curTime <= clock(i) && pcie.curTime <= clock(i)
        invariant c.served == old(c.served) + pieces && pcie.served == old(pcie.served) + links
        invariant 0 <= remaining <= size && (remaining == size <==> pieces == []) && (pieces == [] ==> end == start)
        invariant pieces != [] ==> Chained(pieces, start, size - remaining, lat.maxXfer, end)
        invariant remaining > 0 ==> size - remaining == |pieces| * lat.maxXfer
        invariant Linked(pieces, links, interleave) && |links| == if interleave then |pieces| else 0
        invariant pieces != [] ==> completed == if interleave then links[|links| - 1].done else end
      {
        var n := if remaining <= lat.maxXfer then remaining else lat.maxXfer;
        ghost var from := end;
        end := c.Request(clock(i), end, n);
        ChainedMore(pieces, start, size - remaining, lat.maxXfer, from, Transfer(clock(i), from, n, end));
        ghost var piece := Transfer(clock(i), from, n, end);
        if interleave {
          completed := pcie.Request(clock(i + 1), end, n);
          LinkedMore(pieces, links, piece, Transfer(clock(i + 1), end, n, completed));
          links := links + [Transfer(clock(i + 1), end, n, completed)];
        } else {
          NoLinks(pieces + [piece]);
          completed := end;
        }
        pieces := pieces + [piece];
        remaining, i := remaining - n, i + 2;
      }
    }

    /** The command itself, on a die that is free from `begin` on; the die is free again at `end`. */
    method Perform(cmd: Cmd, c: Channel, cell: nat, begin: nat, size: nat, interleave: bool, clock: nat -> nat)
      returns (end: nat, completed: nat, ghost pieces: seq<Transfer>, ghost links: seq<Transfer>)
      requires c.Shape() && pcie.Shape() && c != pcie && c.avail != pcie.avail && lat.maxXfer > 0
      requires Rising(clock) && clock(0) >= c.curTime && clock(0) >= pcie.curTime
      requires cell < |lat.rd| == |lat.rd4k| && (cmd.Read? ==> size > 0)
      modifies c, c.avail, pcie, pcie.avail
      ensures c.Shape() && pcie.Shape() && completed >= end >= begin
      ensures c.served == old(c.served) + pieces && pcie.served == old(pcie.served) + links
      ensures Busy(cmd, lat, cell, begin, size, interleave, end, completed, pieces, links)
    {
      pieces, links := [], [];
      match cmd
      case Read =>
        var sensed := begin + (if size == 4096 then lat.rd4k[cell] else lat.rd[cell]);
        end, completed, pieces, links := TransferOut(c, sensed, size, interleave, clock);
      case Write =>
        end := c.Request(clock(0), begin, size);
        pieces := [Transfer(clock(0), begin, size, end)];
        end := end + lat.wr;
        completed := end;
      case Erase =>
        end := begin + lat.er;
        completed := end;
      case Nop =>
        end, completed := begin, begin;
    }

    /**
     ssd_advance_nand: performs a command and tells when it is complete.  The die starts when it is free
     and the command is there, and stays busy to the end; no other die changes.  An unmapped address does nothing.
     */
    method AdvanceNand(cmd: Cmd, die: Option<Die>, stime: nat, size: nat, interleave: bool, clock: nat -> nat)
      returns (completed: nat, ghost pieces: seq<Transfer>, ghost links: seq<Transfer>)
      requires Valid() && Rising(clock) && clock(0) >= pcie.curTime
      requires die.Some? ==> InRange(die.value) && clock(0) >= chs[die.value.ch].curTime
      requires cmd.Read? ==> size > 0
      modifies this`log, avail, chs, set c | c in chs :: c.avail, pcie, pcie.avail
      ensures Valid()
      ensures die.None? ==> completed == (if stime == 0 then clock(0) else stime) && log == old(log)
      ensures die.None? ==> pieces == [] && links == []
      ensures die.Some? ==>
                var d := die.value;
                var op := Op(d.ch, d.lun, Max(old(avail[d.ch, d.lun]), if stime == 0 then clock(0) else stime),
                             avail[d.ch, d.lun]);
                && log == old(log) + [op] && completed >= op.end >= old(avail[d.ch, d.lun])
                && Busy(cmd, lat, d.cell, op.start, size, interleave, op.end, completed, pieces, links)
      ensures forall i :: 0 <= i < |chs| ==>
                chs[i].served == old(chs[i].served) + if die.Some? && i == die.value.ch then pieces else []
      ensures pcie.served == old(pcie.served) + links
      ensures forall c, l :: 0 <= c < avail.Length0 && 0 <= l < avail.Length1 ==>
                (die.Some? && die.value.ch == c && die.value.lun == l) || avail[c, l] == old(avail[c, l])
    {
      hide Busy, DiesOk;
      pieces, links := [], [];
      if die.None? {
        completed := if stime == 0 then clock(0) else stime;
        return;
      }
      var d := die.value;
      var begin := Max(avail[d.ch, d.lun], if stime == 0 then clock(0) else stime);
      var end;
      end, completed, pieces, links := Perform(cmd, chs[d.ch], d.cell, begin, size, interleave, clock);
      Occupy(d.ch, d.lun, begin, end);
    }

    method Occupy(ch: nat, lun: nat, begin: nat, end: nat)
      requires DiesOk() && ch < avail.Length0 && lun < avail.Length1 && avail[ch, lun] <= begin <= end
      modifies this`log, avail
      ensures DiesOk() && log == old(log) + [Op(ch, lun, begin, end)] && avail[ch, lun] == end
      ensures forall c, l :: 0 <= c < avail.Length0 && 0 <= l < avail.Length1 ==>
                (c == ch && l == lun) || avail[c, l] == old(avail[c, l])
    {
      hide Ended;
      EndedMore(log, Op(ch, lun, begin, end));
      avail[ch, lun] := end;
      log := log + [Op(ch, lun, begin, end)];
    }

    /** ssd_next_idle_time: the clock, or the latest end of an operation issued so far. */
    method NextIdle(clock: nat) returns (latest: nat)
      requires Valid()
      ensures latest >= clock && forall i :: 0 <= i < |log| ==> log[i].end <= latest
      ensures latest == clock || Ended(log, latest)
    {
      hide NoOverlap, Ended;
      latest := clock;
      for i := 0 to avail.Length0
        invariant latest >= clock && (latest == clock || Ended(log, latest))
        invariant forall c, l :: 0 <= c < i && 0 <= l < avail.Length1 ==> avail[c, l] <= latest
      {
        for j := 0 to avail.Length1
          invariant latest >= clock && (latest == clock || Ended(log, latest))
          invariant forall c, l :: 0 <= c < i && 0 <= l < avail.Length1 ==> avail[c, l] <= latest
          invariant forall l :: 0 <= l < j ==> avail[i, l] <= latest
        {
          latest := Max(latest, avail[i, j]);
        }
      }
    }
  }

  /**
   conv_flush: its target is not earlier than any operation issued on any partition, and no later than the clock
   readings and the last of them.
   */
  method Flush(ssds: seq<Ssd>, start: nat, clock: nat) returns (latest: nat)
    requires forall i :: 0 <= i < |ssds| ==> ssds[i].Valid()
    ensures latest >= start
    ensures forall i, k :: 0 <= i < |ssds| && 0 <= k < |ssds[i].log| ==> ssds[i].log[k].end <= latest
    ensures latest == start || latest == clock || exists i :: 0 <= i < |ssds| && Ended(ssds[i].log, latest)
  {
    hide NoOverlap, Ended;
    latest := start;
    for i := 0 to |ssds|
      invariant latest >= start
      invariant forall j, k :: 0 <= j < i && 0 <= k < |ssds[j].log| ==> ssds[j].log[k].end <= latest
      invariant latest == start || latest == clock || exists j :: 0 <= j < i && Ended(ssds[j].log, latest)
    {
      var idle := ssds[i].NextIdle(clock);
      latest := Max(latest, idle);
    }
  }
}
