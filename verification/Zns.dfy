/**
 Zones of a zoned namespace: the state machine of the NVMe Zoned Namespace Command Set, its resource
 counts and the write pointer.
 */
module ZoneModel {
  import opened Base

  datatype State = Empty | ImplOpen | ExplOpen | Closed | ReadOnly | Full | Offline

  datatype Zone = Zone(state: State, wp: nat, zrwav: bool)

  /** The resources a zone can hold: an active slot, an open slot, a random write area. */
  datatype Resource = Active | Open | Zrwa

  predicate IsOpen(s: State) { s.ImplOpen? || s.ExplOpen? }

  predicate Holds(z: Zone, r: Resource)
  {
    match r
    case Open => IsOpen(z.state)
    case Active => IsOpen(z.state) || z.state.Closed?
    case Zrwa => z.zrwav && (IsOpen(z.state) || z.state.Closed?)
  }

  /** How many zones hold a resource. */
  function Count(zs: seq<Zone>, r: Resource): nat
  {
    if zs == [] then 0 else Count(zs[..|zs| - 1], r) + One(Holds(zs[|zs| - 1], r))
  }

  lemma {:induction false} CountUpdate(zs: seq<Zone>, r: Resource, i: nat, z: Zone)
    requires i < |zs|
    ensures Count(zs[i := z], r) + One(Holds(zs[i], r)) == Count(zs, r) + One(Holds(z, r))
    ensures Count(zs, r) >= One(Holds(zs[i], r))
  {
    var n := |zs| - 1;
    if i < n {
      CountUpdate(zs[..n], r, i, z);
      assert zs[i := z][..n] == zs[..n][i := z];
    } else {
      assert zs[i := z][..n] == zs[..n];
    }
  }

  lemma {:induction false} CountNone(zs: seq<Zone>, r: Resource)
    requires forall i :: 0 <= i < |zs| ==> !Holds(zs[i], r)
    ensures Count(zs, r) == 0
  {
    if zs == [] {
    } else {
      CountNone(zs[..|zs| - 1], r);
    }
  }

  datatype Counters = Counters(active: nat, open: nat, zrwa: nat)

  /** Every counter is the number of zones that hold the resource; `leaked` areas are held by no zone any more. */
  ghost predicate CountsOk(zs: seq<Zone>, c: Counters, leaked: nat, total: Counters)
  {
    && c.active == Count(zs, Active) <= total.active
    && c.open == Count(zs, Open) <= total.open
    && c.zrwa == Count(zs, Zrwa) + leaked <= total.zrwa
  }

  /** A change of one zone, with the counters moved by what the zone gains or gives up. */
  ghost predicate Moved(c: Counters, d: Counters, old_: Zone, new_: Zone, leak: nat)
  {
    && d.active + One(Holds(old_, Active)) == c.active + One(Holds(new_, Active))
    && d.open + One(Holds(old_, Open)) == c.open + One(Holds(new_, Open))
    && d.zrwa + One(Holds(old_, Zrwa)) == c.zrwa + One(Holds(new_, Zrwa)) + leak
  }

  lemma CountsMove(zs: seq<Zone>, c: Counters, leaked: nat, total: Counters, i: nat, z: Zone, d: Counters, leak: nat)
    requires CountsOk(zs, c, leaked, total) && i < |zs| && Moved(c, d, zs[i], z, leak)
    requires d.active <= total.active && d.open <= total.open && d.zrwa <= total.zrwa
    ensures CountsOk(zs[i := z], d, leaked + leak, total)
  {
    CountUpdate(zs, Active, i, z);
    CountUpdate(zs, Open, i, z);
    CountUpdate(zs, Zrwa, i, z);
  }

  /** A zone that holds a resource is counted, so giving it up cannot wrap the counter. */
  lemma Counted(zs: seq<Zone>, c: Counters, leaked: nat, total: Counters, i: nat)
    requires CountsOk(zs, c, leaked, total) && i < |zs|
    ensures Holds(zs[i], Active) ==> c.active > 0
    ensures Holds(zs[i], Open) ==> c.open > 0
    ensures Holds(zs[i], Zrwa) ==> c.zrwa > leaked
  {
    CountUpdate(zs, Active, i, zs[i]);
    CountUpdate(zs, Open, i, zs[i]);
    CountUpdate(zs, Zrwa, i, zs[i]);
  }

  /** The zone once a write has opened it. */
  function Opened(z: Zone): Zone
  {
    if z.state.Empty? || z.state.Closed? then z.(state := ImplOpen) else z
  }

  /** The addresses lo, lo + 1, ..., hi - 1 in order. */
  function Range(lo: nat, hi: nat): (s: seq<nat>)
    requires lo <= hi
    ensures |s| == hi - lo && forall i :: 0 <= i < |s| ==> s[i] == lo + i
  {
    seq(hi - lo, i => lo + i)
  }

  lemma RangeJoin(lo: nat, mid: nat, hi: nat)
    requires lo <= mid <= hi
    ensures Range(lo, mid) + Range(mid, hi) == Range(lo, hi)
  {
  }

  /**
   The zone that starts at `start` with `size` blocks; `wrote` are the addresses accepted since its last reset.
   The write pointer of a random write area can pass the end of the zone by less than a flush granule, and that
   of a zone whose end the code gets wrong (`ends` is false) can go anywhere.
   */
  ghost predicate ZoneOk(z: Zone, start: nat, size: nat, granule: nat, ends: bool, wrote: seq<nat>)
  {
    && (z.state.Empty? ==> z.wp == start && !z.zrwav)
    && start <= z.wp && (z.zrwav ==> z.wp <= start + size + granule)
    && (!z.zrwav ==> wrote == Range(start, z.wp))
    && (!z.zrwav && ends ==> z.wp <= start + size && (Holds(z, Active) ==> z.wp < start + size))
  }

  /** Blocks of one zone: division tells the zone of an address. */
  lemma ZoneOf(lba: nat, size: nat, zid: nat)
    requires size > 0
    ensures lba / size == zid <==> zid * size <= lba < zid * size + size
  {
    var q := lba / size;
    assert q * size <= lba < q * size + size;
    if q < zid {
      assert (q + 1) * size <= zid * size;
    } else if zid < q {
      assert (zid + 1) * size <= q * size;
    }
  }
}

module Zns {
  import opened Arith
  import opened Base
  import opened ZoneModel

  datatype Status =
    | Success | InvalidTransition | NoActiveZone | NoOpenZone | NoZrwa | InvalidWrite | ErrBoundary
    | ErrFull | ErrReadOnly | ErrOffline | InvalidOperation | InvalidField
    | Busy          // no buffer: the command is tried again later
    | DivideByZero  // the driver stops
    | BufferStop    // the driver stops: an assertion about a buffer fails, or the buffer is missing

  /** The commands on the zone of block slba; `buffered` tells whether the write buffer has room for a write. */
  datatype Command =
    | Write(slba: nat, n: nat, append: bool, buffered: bool)
    | CloseZone(slba: nat)
    | FinishZone(slba: nat)
    | OpenZone(slba: nat, withZrwa: bool)
    | ResetZone(slba: nat)
    | OfflineZone(slba: nat)
    | FlushZrwa(slba: nat)

  const U32: nat := 0x1_0000_0000
  const U64: nat := 0x1_0000_0000_0000_0000
  /** Sizes are numbers of bytes in 32 bits; in blocks of 512 bytes they are less than this. */
  const MAX_BLOCKS: nat := 0x80_0000

  /** The sizes of a namespace: blocks of a zone; bytes of the others, as configured. */
  datatype Params = Params(nz: nat, size: nat, unit: nat, zrwa: nat, granule: nat, zrwaBuffer: nat, writeBuffer: nat)
  {
    predicate Valid()
    {
      && nz < U32 && 0 < size < MAX_BLOCKS && unit > 0
      && zrwa < U32 && granule < U32 && zrwaBuffer < U32
    }
  }

  /** 64-bit arithmetic. */
  function Wrap(x: int): nat { x % U64 }

  /** The last block of an area of so many blocks behind the write pointer, as the code computes it. */
  function LastOf(wp: nat, blocks: nat): nat { Wrap(wp + blocks - 1) }

  /** That is the last block, except that an empty area behind write pointer 0 has no end. */
  lemma LastOfArea(wp: nat, blocks: nat, x: nat)
    requires wp + blocks <= U64 && x < U64
    ensures x <= LastOf(wp, blocks) <==> InArea(wp, blocks, x)
  {
  }

  /** The address before b, from b in 32 bits, in the zone that ends at b. */
  lemma Last32(b: nat, x: nat)
    requires b < U64 && x < b <= x + MAX_BLOCKS
    ensures x == Wrap(b % U32 - 1) <==> b < U32 && x == b - 1
  {
    assert b >= U32 ==> b % U32 <= b - U32;
  }

  predicate InArea(wp: nat, blocks: nat, x: nat)
  {
    x < wp + blocks || (wp == 0 && blocks == 0)
  }

  function Slot(c: Counters, r: Resource): nat
  {
    match r case Active => c.active case Open => c.open case Zrwa => c.zrwa
  }

  function SetSlot(c: Counters, r: Resource, v: nat): Counters
  {
    match r case Active => c.(active := v) case Open => c.(open := v) case Zrwa => c.(zrwa := v)
  }

  /** The same command on the zone of another block. */
  function Aimed(cmd: Command, at: nat): Command
  {
    match cmd
    case Write(_, n, append, buffered) => Write(at, n, append, buffered)
    case CloseZone(_) => CloseZone(at)
    case FinishZone(_) => FinishZone(at)
    case OpenZone(_, withZrwa) => OpenZone(at, withZrwa)
    case ResetZone(_) => ResetZone(at)
    case OfflineZone(_) => OfflineZone(at)
    case FlushZrwa(_) => FlushZrwa(at)
  }

  /** What a command can change of a zone: its descriptor, the addresses accepted, the bytes left for its area. */
  datatype Cell = Cell(zone: Zone, wrote: seq<nat>, room: nat)

  class ZnsFtl {
    const p: Params
    const nz: nat
    /** Blocks in a zone, in a random write area and in a flush granule; the write unit in bytes. */
    const size: nat
    const perZrwa: nat
    const perFg: nat
    const unit: nat
    const total: Counters
    const zones: array<Zone>
    var cnt: Counters
    /** Per zone, the bytes left in the buffer of its random write area. */
    var room: seq<nat>
    /** Random write areas still counted after their zone was filled by an implicit flush. */
    ghost var leaked: nat
    /** Per zone, the addresses accepted by writes and appends since the last reset, in order. */
    ghost var wrote: seq<seq<nat>>

    function Start(zid: nat): nat { zid * size }

    /** zone_to_slba multiplies in 32 bits. */
    function Start32(zid: nat): nat { zid * size % U32 }

    /** So it finds the start, and with it the end, of the zones below 2 TiB. */
    predicate Ends(zid: nat) { Start(zid) < U32 }

    /** Compared with an address from the start of the zone on, the computed end is the end exactly for these zones. */
    lemma EndExactly(zid: nat, x: nat)
      requires size < MAX_BLOCKS && Start(zid) <= x
      ensures x == Start32(zid) + size <==> Ends(zid) && x == Start(zid) + size
      ensures x <= Start32(zid) + size - 1 <==> Ends(zid) && x <= Start(zid) + size - 1
    {
    }

    /** The last block, taken from the start of the next zone, is the last block exactly if that start is right. */
    predicate Last(zid: nat, x: nat) { Start(zid) + size < U32 && x == Start(zid) + size - 1 }

    lemma LastExactly(zid: nat, x: nat)
      requires 0 < size < MAX_BLOCKS && Start(zid) <= x < Start(zid) + size < U64
      ensures x == Wrap(Start32(zid + 1) - 1) <==> Last(zid, x)
    {
      Dist(zid, 1, size);
      Last32(Start(zid) + size, x);
    }

    /** The zone after its write pointer moved by n. */
    function Advanced(zid: nat, z: Zone, n: nat): Zone
    {
      Zone(if Ends(zid) && z.wp + n == Start(zid) + size then Full else z.state, z.wp + n, z.zrwav)
    }

    function ZoneAt(lba: nat): nat
      requires size > 0
    {
      lba / size
    }

    ghost predicate Shape()
      reads this`wrote, this`room
    {
      && p.Valid() && nz == p.nz && size == p.size && unit == p.unit
      && perZrwa == p.zrwa / 512 && perFg == p.granule / 512
      && zones.Length == nz == |wrote| == |room|
    }

    ghost predicate ZonesOk()
      reads this`wrote, this`room, zones
      requires Shape()
    {
      forall i :: 0 <= i < nz ==> ZoneOk(zones[i], Start(i), size, perFg, Ends(i), wrote[i])
    }

    ghost predicate Valid()
      reads this, zones
    {
      Shape() && CountsOk(zones[..], cnt, leaked, total) && ZonesOk()
    }

    /** The zones and counters of a new namespace, as many slots as zones. */
    constructor (p: Params)
      requires p.Valid()
      ensures Valid() && this.p == p && fresh(zones) && leaked == 0
      ensures cnt == Counters(0, 0, 0) && total == Counters(p.nz, p.nz, p.nz)
      ensures forall i :: 0 <= i < p.nz ==>
                zones[i] == Zone(Empty, Start(i), false) && room[i] == p.zrwaBuffer && wrote[i] == []
    {
      this.p, nz, size, unit := p, p.nz, p.size, p.unit;
      perZrwa, perFg := p.zrwa / 512, p.granule / 512;
      total := Counters(p.nz, p.nz, p.nz);
      zones := new Zone[p.nz](i requires 0 <= i => Zone(Empty, i * p.size, false));
      cnt, room := Counters(0, 0, 0), seq(p.nz, _ => p.zrwaBuffer);
      leaked, wrote := 0, seq(p.nz, _ => []);
      new;
      CountNone(zones[..], Active);
      CountNone(zones[..], Open);
      CountNone(zones[..], Zrwa);
    }

    method Acquire(r: Resource) returns (ok: bool)
      modifies this`cnt
      ensures ok <==> Slot(old(cnt), r) < Slot(total, r)
      ensures cnt == if ok then SetSlot(old(cnt), r, Slot(old(cnt), r) + 1) else old(cnt)
    {
      ok := Slot(cnt, r) < Slot(total, r);
      if ok {
        cnt := SetSlot(cnt, r, Slot(cnt, r) + 1);
      }
    }

    method Release(r: Resource)
      requires Slot(cnt, r) > 0
      modifies this`cnt
      ensures cnt == SetSlot(old(cnt), r, Slot(old(cnt), r) - 1)
    {
      cnt := SetSlot(cnt, r, Slot(cnt, r) - 1);
    }

    /** Restores the invariant after zone zid became z and its new addresses were noted. */
    ghost method Settle(zid: nat, zs: seq<Zone>, c: Counters, leak: nat, w: seq<nat>)
      requires Shape() && zid < nz && |zs| == nz && zones[..] == zs[zid := zones[zid]]
      requires CountsOk(zs, c, leaked, total) && Moved(c, cnt, zs[zid], zones[zid], leak)
      requires cnt.active <= total.active && cnt.open <= total.open && cnt.zrwa <= total.zrwa
      requires forall i :: 0 <= i < nz && i != zid ==> ZoneOk(zs[i], Start(i), size, perFg, Ends(i), wrote[i])
      requires ZoneOk(zones[zid], Start(zid), size, perFg, Ends(zid), w)
      modifies this`leaked, this`wrote
      ensures Valid() && leaked == old(leaked) + leak && wrote == old(wrote)[zid := w]
    {
      hide CountsOk, ZoneOk, Moved;
      CountsMove(zs, c, leaked, total, zid, zones[zid], cnt, leak);
      leaked, wrote := leaked + leak, wrote[zid := w];
      assert forall i :: 0 <= i < nz && i != zid ==> zones[..][i] == zs[i];
    }

    method Close(zid: nat) returns (status: Status)
      requires Valid() && zid < nz
      modifies this`cnt, this`leaked, this`wrote, zones
      ensures Valid() && leaked == old(leaked) && wrote == old(wrote)
      ensures status == if Holds(old(zones[zid]), Active) then Success else InvalidTransition
      ensures var z := old(zones[zid]);
              zones[..] == old(zones[..])[zid := if IsOpen(z.state) then z.(state := Closed) else z]
    {
      Counted(zones[..], cnt, leaked, total, zid);
      ghost var zs, c := zones[..], cnt;
      match zones[zid].state
      case ImplOpen | ExplOpen =>
        zones[zid] := zones[zid].(state := Closed);
        Release(Open);
        Settle(zid, zs, c, 0, wrote[zid]);
        status := Success;
      case Closed => status := Success;
      case _ => status := InvalidTransition;
    }

    /** A zone that holds slots gives all of them up. */
    method ReleaseAll(zid: nat)
      requires Shape() && zid < nz && (Holds(zones[zid], Open) ==> cnt.open > 0)
      requires (Holds(zones[zid], Active) ==> cnt.active > 0) && (Holds(zones[zid], Zrwa) ==> cnt.zrwa > 0)
      modifies this`cnt
      ensures cnt.open == old(cnt.open) - One(Holds(zones[zid], Open))
      ensures cnt.active == old(cnt.active) - One(Holds(zones[zid], Active))
      ensures cnt.zrwa == old(cnt.zrwa) - One(Holds(zones[zid], Zrwa))
    {
      var s := zones[zid].state;
      if IsOpen(s) {
        Release(Open);
      }
      if IsOpen(s) || s.Closed? {
        Release(Active);
        if zones[zid].zrwav {
          Release(Zrwa);
        }
      }
    }

    method Finish(zid: nat) returns (status: Status)
      requires Valid() && zid < nz
      modifies this`cnt, this`leaked, this`wrote, zones
      ensures Valid() && leaked == old(leaked) && wrote == old(wrote)
      ensures var z := old(zones[zid]);
              status == if z.state.ReadOnly? || z.state.Offline? then InvalidTransition else Success
      ensures var z := old(zones[zid]);
              zones[..] == old(zones[..])[zid := if status.Success? then z.(state := Full) else z]
    {
      Counted(zones[..], cnt, leaked, total, zid);
      ghost var zs, c := zones[..], cnt;
      if zones[zid].state.ReadOnly? || zones[zid].state.Offline? {
        return InvalidTransition;
      }
      if !zones[zid].state.Full? {
        ReleaseAll(zid);
        zones[zid] := zones[zid].(state := Full);
        Settle(zid, zs, c, 0, wrote[zid]);
      }
      status := Success;
    }

    method Reset(zid: nat) returns (status: Status)
      requires Valid() && zid < nz
      modifies this`cnt, this`room, this`leaked, this`wrote, zones
      ensures Valid() && leaked == old(leaked)
      ensures var z := old(zones[zid]);
              status == if z.state.ReadOnly? || z.state.Offline? then InvalidTransition else Success
      ensures status.Success? ==>
              && zones[..] == old(zones[..])[zid := Zone(Empty, Start(zid), false)]
              && wrote == old(wrote)[zid := []]
              && room == if p.zrwaBuffer > 0 then old(room)[zid := p.zrwaBuffer] else old(room)
      ensures !status.Success? ==>
              zones[..] == old(zones[..]) && wrote == old(wrote) && cnt == old(cnt) && room == old(room)
    {
      Counted(zones[..], cnt, leaked, total, zid);
      ghost var zs, c := zones[..], cnt;
      if zones[zid].state.ReadOnly? || zones[zid].state.Offline? {
        return InvalidTransition;
      }
      ReleaseAll(zid);
      zones[zid] := Zone(Empty, Start(zid), false);
      if p.zrwaBuffer > 0 {
        room := room[zid := p.zrwaBuffer];
      }
      assert Range(Start(zid), Start(zid)) == [];
      Settle(zid, zs, c, 0, []);
      status := Success;
    }

    /** A flash operation of the zone is complete and its bytes are free again. */
    method FlashDone(zid: nat, bytes: nat)
      requires Valid() && zid < nz
      modifies this`room
      ensures Valid() && room == old(room)[zid := old(room)[zid] + bytes]
    {
      room := room[zid := room[zid] + bytes];
    }

    method TakeOffline(zid: nat) returns (status: Status)
      requires Valid() && zid < nz
      modifies this`cnt, this`leaked, this`wrote, zones
      ensures Valid() && leaked == old(leaked) && wrote == old(wrote) && cnt == old(cnt)
      ensures var z := old(zones[zid]);
              status == if z.state.ReadOnly? || z.state.Offline? then Success else InvalidTransition
      ensures var z := old(zones[zid]);
              zones[..] == old(zones[..])[zid := if status.Success? then z.(state := Offline) else z]
    {
      ghost var zs, c := zones[..], cnt;
      match zones[zid].state
      case ReadOnly =>
        zones[zid] := zones[zid].(state := Offline);
        Settle(zid, zs, c, 0, wrote[zid]);
        status := Success;
      case Offline => status := Success;
      case _ => status := InvalidTransition;
    }

    /** The answer to an open command: what is missing, looked for in this order. */
    function OpenVerdict(z: Zone, withZrwa: bool, c: Counters): Status
    {
      match z.state
      case Empty =>
        if c.active == total.active then NoActiveZone
        else if c.open == total.open then NoOpenZone
        else if withZrwa && c.zrwa == total.zrwa then NoZrwa
        else Success
      case Closed => if c.open == total.open then NoOpenZone else Success
      case ImplOpen | ExplOpen => Success
      case _ => InvalidTransition
    }

    /** Opening explicitly; a refusal changes nothing. */
    method OpenZone(zid: nat, withZrwa: bool) returns (status: Status)
      requires Valid() && zid < nz
      modifies this`cnt, this`leaked, this`wrote, zones
      ensures Valid() && leaked == old(leaked) && wrote == old(wrote)
      ensures status == OpenVerdict(old(zones[zid]), withZrwa, old(cnt))
      ensures status.Success? ==>
                var z := old(zones[zid]);
                zones[..] ==
                old(zones[..])[zid := Zone(ExplOpen, z.wp, z.zrwav || (withZrwa && z.state.Empty?))]
      ensures !status.Success? ==> zones[..] == old(zones[..]) && cnt == old(cnt)
    {
      ghost var zs, c := zones[..], cnt;
      var z := zones[zid];
      if z.state.Empty? {
        if cnt.active == total.active { return NoActiveZone; }
        if cnt.open == total.open { return NoOpenZone; }
        if withZrwa {
          if cnt.zrwa == total.zrwa { return NoZrwa; }
          var _ := Acquire(Zrwa);
          z := z.(zrwav := true);
        }
        var _ := Acquire(Active);
      }
      if z.state.Empty? || z.state.Closed? {
        var ok := Acquire(Open);
        if !ok { return NoOpenZone; }
      }
      if z.state.Empty? || z.state.Closed? || z.state.ImplOpen? {
        zones[zid] := z.(state := ExplOpen);
        Settle(zid, zs, c, 0, wrote[zid]);
        return Success;
      }
      status := if z.state.ExplOpen? then Success else InvalidTransition;
    }

    /** __increase_write_ptr: moves the write pointer of an open zone; a zone filled to the end gives up its slots. */
    method IncreaseWp(zid: nat, n: nat)
      requires Shape() && zid < nz && cnt.open > 0 && cnt.active > 0 && Start(zid) <= zones[zid].wp
      modifies this`cnt, zones
      ensures zones[..] == old(zones[..])[zid := Advanced(zid, old(zones[zid]), n)]
      ensures cnt == if Ends(zid) && old(zones[zid]).wp + n == Start(zid) + size
                     then old(cnt).(open := old(cnt.open) - 1, active := old(cnt.active) - 1) else old(cnt)
    {
      var wp := zones[zid].wp + n;
      zones[zid] := zones[zid].(wp := wp);
      EndExactly(zid, wp);
      if wp == Start32(zid) + size {
        Release(Open);
        Release(Active);
        zones[zid] := zones[zid].(state := Full);
      }
    }

    /** A zone in this state can take a write now. */
    predicate Writable(s: State, c: Counters)
    {
      match s
      case Empty => c.active < total.active && c.open < total.open
      case Closed => c.open < total.open
      case ImplOpen | ExplOpen => true
      case _ => false
    }

    /** The answer of the state switch of a write. */
    ghost function StateVerdict(s: State, c: Counters): Status
    {
      match s
      case Empty =>
        if c.active == total.active then NoActiveZone else if c.open == total.open then NoOpenZone else Success
      case Closed => if c.open == total.open then NoOpenZone else Success
      case ImplOpen | ExplOpen => Success
      case Full => ErrFull
      case ReadOnly => ErrReadOnly
      case Offline => ErrOffline
    }

    /** The state switch of a write: an empty or closed zone is opened implicitly. */
    method OpenImplicitly(zid: nat) returns (status: Status)
      requires Valid() && zid < nz && !zones[zid].zrwav
      modifies this`cnt, this`leaked, this`wrote, zones
      ensures Valid() && leaked == old(leaked) && wrote == old(wrote)
      ensures status == StateVerdict(old(zones[zid]).state, old(cnt))
      ensures status.Success? <==> Writable(old(zones[zid]).state, old(cnt))
      ensures status.Success? ==>
              IsOpen(zones[zid].state) && zones[..] == old(zones[..])[zid := Opened(old(zones[zid]))]
      ensures !status.Success? ==> zones[..] == old(zones[..]) && cnt == old(cnt)
      ensures !status.Busy? && !status.DivideByZero? && !status.BufferStop?
    {
      ghost var zs, c := zones[..], cnt;
      var s := zones[zid].state;
      if s.Empty? {
        if cnt.active == total.active { return NoActiveZone; }
        if cnt.open == total.open { return NoOpenZone; }
        var _ := Acquire(Active);
      }
      if s.Empty? || s.Closed? {
        var ok := Acquire(Open);
        if !ok { return NoOpenZone; }
        zones[zid] := zones[zid].(state := ImplOpen);
        Settle(zid, zs, c, 0, wrote[zid]);
        return Success;
      }
      status := if IsOpen(s) then Success
                else if s.Full? then ErrFull
                else if s.ReadOnly? then ErrReadOnly
                else ErrOffline;
    }

    /** The write pointer of an open zone passes over n blocks, of the zone if the code knows its end. */
    method Append(zid: nat, n: nat)
      requires Valid() && zid < nz && !zones[zid].zrwav && IsOpen(zones[zid].state)
      requires Ends(zid) ==> zones[zid].wp + n <= Start(zid) + size
      modifies this`cnt, this`leaked, this`wrote, zones
      ensures Valid() && leaked == old(leaked)
      ensures zones[..] == old(zones[..])[zid := Advanced(zid, old(zones[zid]), n)]
      ensures wrote == old(wrote)[zid := old(wrote)[zid] + Range(old(zones[zid]).wp, old(zones[zid]).wp + n)]
    {
      Counted(zones[..], cnt, leaked, total, zid);
      ghost var zs, c, wp := zones[..], cnt, zones[zid].wp;
      RangeJoin(Start(zid), wp, wp + n);
      IncreaseWp(zid, n);
      Settle(zid, zs, c, 0, wrote[zid] + Range(wp, wp + n));
    }

    /** What an accepted write needs besides room in the write buffer. */
    predicate Accepts(z: Zone, slba: nat, n: nat, append: bool, c: Counters)
      requires size > 0 && unit > 0 && n > 0
    {
      && n * 512 % unit == 0 && (append || slba == z.wp)
      && ZoneAt(z.wp) == ZoneAt(z.wp + n - 1) && Writable(z.state, c)
    }

    /** The answer to a write or an append of n blocks: what is wrong with it, looked for in this order. */
    ghost function WriteVerdict(z: Zone, slba: nat, n: nat, append: bool, buffered: bool, c: Counters): Status
      requires size > 0 && unit > 0 && n > 0
    {
      var first := if append then z.wp else slba;
      if n * 512 > p.writeBuffer then BufferStop
      else if !buffered then Busy
      else if n * 512 % unit != 0 then InvalidWrite
      else if ZoneAt(first) != ZoneAt(first + n - 1) then ErrBoundary
      else if first != z.wp then InvalidWrite
      else StateVerdict(z.state, c)
    }

    /**
     __zns_write, for a write or an append of n blocks: accepted exactly when it starts at the write pointer,
     stays in one zone and the zone can be open; then precisely these addresses follow those accepted since the
     last reset.  Where the code knows the end of the zone, that is the zone itself.
     */
    method Write(slba: nat, n: nat, append: bool, buffered: bool) returns (status: Status)
      requires Valid() && n > 0 && ZoneAt(slba) < nz && !zones[ZoneAt(slba)].zrwav
      modifies this`cnt, this`leaked, this`wrote, zones
      ensures Valid() && leaked == old(leaked) && room == old(room)
      ensures status == WriteVerdict(old(zones[ZoneAt(slba)]), slba, n, append, buffered, old(cnt))
      ensures status.BufferStop? <==> n * 512 > p.writeBuffer
      ensures status.Busy? <==> n * 512 <= p.writeBuffer && !buffered
      ensures status.Success? <==>
                n * 512 <= p.writeBuffer && buffered && Accepts(old(zones[ZoneAt(slba)]), slba, n, append, old(cnt))
      ensures status.Success? ==>
                var zid, z := ZoneAt(slba), old(zones[ZoneAt(slba)]);
                && wrote == old(wrote)[zid := old(wrote)[zid] + Range(z.wp, z.wp + n)]
                && zones[..] == old(zones[..])[zid := Advanced(zid, Opened(z), n)]
                && (!append || Ends(zid) ==> z.wp + n <= Start(zid) + size)
      ensures !status.Success? ==> zones[..] == old(zones[..]) && cnt == old(cnt) && wrote == old(wrote)
      ensures !status.DivideByZero?
    {
      var zid := ZoneAt(slba);
      var wp := zones[zid].wp;
      var first := if append then wp else slba;
      if n * 512 > p.writeBuffer { return BufferStop; }
      if !buffered { return Busy; }
      if n * 512 % unit != 0 { return InvalidWrite; }
      ZoneOf(slba, size, zid);
      InZone(first, n, zid);
      if ZoneAt(first) != ZoneAt(first + n - 1) { return ErrBoundary; }
      if first != wp { return InvalidWrite; }
      if zones[zid].state.Empty? && first != Start(zid) { return InvalidWrite; }
      status := OpenImplicitly(zid);
      if status.Success? {
        Append(zid, n);
      }
    }

    /** Writes and appends to a zone whose end the code knows stay in the zone. */
    lemma BlocksInside(zid: nat)
      requires Valid() && zid < nz && Ends(zid) && !zones[zid].zrwav
      ensures forall i :: 0 <= i < |wrote[zid]| ==> ZoneAt(wrote[zid][i]) == zid
    {
      assert ZoneOk(zones[zid], Start(zid), size, perFg, true, wrote[zid]);
      forall i | 0 <= i < |wrote[zid]| ensures ZoneAt(wrote[zid][i]) == zid {
        ZoneOf(wrote[zid][i], size, zid);
      }
    }

    /** For a first address in the zone, the boundary test compares the end of the range with the end of the zone. */
    lemma InZone(first: nat, n: nat, zid: nat)
      requires size > 0 && n > 0
      ensures Start(zid) <= first < Start(zid) + size ==>
                (ZoneAt(first) == ZoneAt(first + n - 1) <==> first + n <= Start(zid) + size)
    {
      ZoneOf(first, size, zid);
      ZoneOf(first + n - 1, size, zid);
    }

    /** The end of a zone is far from wrapping 64 bits. */
    lemma ZoneEnds(zid: nat)
      requires p.Valid() && nz == p.nz && size == p.size && zid < nz
      ensures Start(zid) + size < U32 * MAX_BLOCKS
    {
      MulLe(zid + 1, U32, size);
      Dist(zid, 1, size);
    }

    /** A write up to block elba of a random write area makes the code divide by the size of a granule. */
    predicate Divides(wp: nat, elba: nat) { elba >= wp + perZrwa }

    /** How far such a write moves the write pointer. */
    function ImplicitFlush(zid: nat, wp: nat, elba: nat): nat
      requires wp <= elba && (Divides(wp, elba) ==> perFg > 0)
    {
      if Divides(wp, elba) then (elba - (wp + perZrwa) + perFg) / perFg * perFg
      else if Last(zid, elba) then elba - wp + 1
      else 0
    }

    lemma ImplicitFlushBound(zid: nat, wp: nat, elba: nat)
      requires wp <= elba < Start(zid) + size && (Divides(wp, elba) ==> perFg > 0)
      ensures wp + ImplicitFlush(zid, wp, elba) <= Start(zid) + size + perFg
    {
      if Divides(wp, elba) {
        JoinPair(elba - (wp + perZrwa) + perFg, perFg);
      }
    }

    predicate ZrwaInRange(z: Zone, slba: nat, n: nat)
      requires size > 0 && unit > 0 && n > 0
    {
      && n * 512 % unit == 0 && slba + n <= Start(ZoneAt(slba)) + size
      && z.wp <= slba && InArea(z.wp, 2 * perZrwa, slba + n - 1)
    }

    predicate Shut(s: State) { s.Closed? || s.Empty? }

    /** A write that opens such a zone again takes a whole area from the buffer; it can be had. */
    predicate Reopens(left: nat) { 0 < p.zrwa <= p.zrwaBuffer && p.zrwa <= left }

    /** The zone is open once the write has looked at its state. */
    predicate ZrwaOpens(z: Zone, left: nat, c: Counters)
    {
      IsOpen(z.state) || (Shut(z.state) && c.open < total.open && Reopens(left))
    }

    /** What is left in the buffer then. */
    function LeftOpen(z: Zone, left: nat): nat
    {
      if Shut(z.state) && p.zrwa <= left then left - p.zrwa else left
    }

    /** How far a write of n blocks moves the write pointer of zone z, if it gets that far. */
    function ZrwaMove(z: Zone, slba: nat, n: nat): nat
      requires size > 0 && unit > 0 && n > 0
    {
      if z.wp <= slba && (Divides(z.wp, slba + n - 1) ==> perFg > 0)
      then ImplicitFlush(ZoneAt(slba), z.wp, slba + n - 1) else 0
    }

    /** Such a write is carried out. */
    predicate ZrwaAccepts(z: Zone, left: nat, slba: nat, n: nat, c: Counters)
      requires size > 0 && unit > 0 && n > 0
    {
      && ZrwaInRange(z, slba, n) && ZrwaOpens(z, left, c) && (Divides(z.wp, slba + n - 1) ==> perFg > 0)
      && ZrwaMove(z, slba, n) * 512 <= p.zrwaBuffer && ZrwaMove(z, slba, n) * 512 <= LeftOpen(z, left)
    }

    /** And it fills the zone. */
    predicate ZrwaFills(z: Zone, left: nat, slba: nat, n: nat, c: Counters)
      requires size > 0 && unit > 0 && n > 0
    {
      && z.zrwav && ZrwaAccepts(z, left, slba, n, c) && Ends(ZoneAt(slba))
      && ZrwaMove(z, slba, n) > 0 && z.wp + ZrwaMove(z, slba, n) == Start(ZoneAt(slba)) + size
    }

    /** The answer of the range tests of such a write, */
    ghost function RangeVerdict(z: Zone, slba: nat, n: nat): Status
      requires size > 0 && unit > 0 && n > 0
    {
      if n * 512 % unit != 0 then InvalidWrite
      else if slba + n > Start(ZoneAt(slba)) + size then ErrBoundary
      else if slba < z.wp || !InArea(z.wp, 2 * perZrwa, slba + n - 1) then InvalidWrite
      else Success
    }

    /** of its state switch, */
    ghost function ReopenVerdict(s: State, left: nat, c: Counters): Status
    {
      match s
      case Empty | Closed => if c.open == total.open then NoOpenZone else if Reopens(left) then Success else BufferStop
      case ImplOpen | ExplOpen => Success
      case Full => ErrFull
      case ReadOnly => ErrReadOnly
      case Offline => ErrOffline
    }

    /** and of the implicit flush. */
    ghost function MoveVerdict(z: Zone, left: nat, slba: nat, n: nat): Status
      requires size > 0 && unit > 0 && n > 0
    {
      var k := ZrwaMove(z, slba, n);
      if Divides(z.wp, slba + n - 1) && perFg == 0 then DivideByZero
      else if k * 512 > p.zrwaBuffer then BufferStop
      else if k * 512 > left then Busy
      else Success
    }

    /** The answer to a write of n blocks to a random write area. */
    ghost function ZrwaVerdict(z: Zone, left: nat, slba: nat, n: nat, c: Counters): Status
      requires size > 0 && unit > 0 && n > 0
    {
      if !ZrwaInRange(z, slba, n) then RangeVerdict(z, slba, n)
      else if !ZrwaOpens(z, left, c) then ReopenVerdict(z.state, left, c)
      else MoveVerdict(z, LeftOpen(z, left), slba, n)
    }

    /** When a command on zone z makes the code divide by zero: granules of size 0, and a block in the area. */
    predicate DivisionUndefined(z: Zone, left: nat, cmd: Command, c: Counters)
      requires size > 0 && unit > 0 && (cmd.Write? ==> cmd.n > 0)
    {
      && z.zrwav && perFg == 0
      && match cmd
         case Write(slba, n, _, _) =>
           ZrwaInRange(z, slba, n) && ZrwaOpens(z, left, c) && Divides(z.wp, slba + n - 1)
         case FlushZrwa(slba) => Ends(ZoneAt(slba)) && z.wp <= slba && InArea(z.wp, perZrwa, slba)
         case _ => false
    }

    /**
     When a command on zone z stops at a buffer: a write larger than the write buffer, a write that opens the zone
     again although no area can be had, or an implicit flush larger than the buffer.
     */
    predicate BufferStops(z: Zone, left: nat, cmd: Command, c: Counters)
      requires size > 0 && unit > 0 && (cmd.Write? ==> cmd.n > 0)
    {
      match cmd
      case Write(slba, n, _, _) =>
        if !z.zrwav then n * 512 > p.writeBuffer
        else
          && ZrwaInRange(z, slba, n)
          && (|| (Shut(z.state) && c.open < total.open && !Reopens(left))
              || (ZrwaOpens(z, left, c) && ZrwaMove(z, slba, n) * 512 > p.zrwaBuffer))
      case _ => false
    }

    /**
     Without random write areas in the configuration, as shipped: on an area of zone 0 that is still unwritten, a
     flush and a write to the open zone divide by zero, and a write to the closed zone stops at the buffer.
     */
    lemma ShippedSizes(z: Zone, left: nat, cmd: Command, c: Counters)
      requires size > 0 && unit > 0 && (cmd.Write? ==> cmd.n > 0)
      requires p.zrwa == 0 && perZrwa == 0 && perFg == 0
      ensures DivisionUndefined(z, left, cmd, c) <==>
                && z.zrwav && z.wp == 0
                && match cmd
                   case Write(slba, n, _, _) =>
                     n * 512 % unit == 0 && slba + n <= Start(ZoneAt(slba)) + size && IsOpen(z.state)
                   case FlushZrwa(slba) => Ends(ZoneAt(slba))
                   case _ => false
      ensures BufferStops(z, left, cmd, c) <==>
                && cmd.Write?
                && if !z.zrwav then cmd.n * 512 > p.writeBuffer
                   else
                     && cmd.n * 512 % unit == 0 && cmd.slba + cmd.n <= Start(ZoneAt(cmd.slba)) + size
                     && z.wp == 0 && Shut(z.state) && c.open < total.open
    {
    }

    /** The state switch of a write to a random write area; the zone is never empty. */
    method OpenForZrwa(zid: nat) returns (status: Status)
      requires Valid() && zid < nz && zones[zid].zrwav
      modifies this`cnt, this`room, this`leaked, this`wrote, zones
      ensures Valid() && leaked == old(leaked) && wrote == old(wrote)
      ensures status == ReopenVerdict(old(zones[zid]).state, old(room)[zid], old(cnt))
      ensures status.Success? <==> ZrwaOpens(old(zones[zid]), old(room)[zid], old(cnt))
      ensures status.BufferStop? <==>
                Shut(old(zones[zid]).state) && old(cnt).open < total.open && !Reopens(old(room)[zid])
      ensures status.Success? ==>
              && IsOpen(zones[zid].state) && zones[..] == old(zones[..])[zid := Opened(old(zones[zid]))]
              && room == old(room)[zid := LeftOpen(old(zones[zid]), old(room)[zid])]
      ensures !status.Success? ==> zones[..] == old(zones[..]) && cnt == old(cnt) && room == old(room)
      ensures !status.Busy? && !status.DivideByZero?
    {
      ghost var zs, c := zones[..], cnt;
      var s := zones[zid].state;
      if s.Closed? || s.Empty? {
        if cnt.open == total.open { return NoOpenZone; }
        if p.zrwaBuffer == 0 || p.zrwa > p.zrwaBuffer { return BufferStop; }
        if p.zrwa == 0 || room[zid] < p.zrwa { return BufferStop; }
        var _ := Acquire(Open);
        room := room[zid := room[zid] - p.zrwa];
        zones[zid] := zones[zid].(state := ImplOpen);
        Settle(zid, zs, c, 0, wrote[zid]);
        return Success;
      }
      status := if IsOpen(s) then Success
                else if s.Full? then ErrFull
                else if s.ReadOnly? then ErrReadOnly
                else ErrOffline;
    }

    /** The implicit flush of a random write area.  A zone it fills keeps its area counted. */
    method FlushImplicitly(zid: nat, n: nat)
      requires Valid() && zid < nz && zones[zid].zrwav && IsOpen(zones[zid].state)
      requires zones[zid].wp + n <= Start(zid) + size + perFg
      modifies this`cnt, this`leaked, this`wrote, zones
      ensures Valid() && wrote == old(wrote)
      ensures zones[..] == old(zones[..])[zid := Advanced(zid, old(zones[zid]), n)]
      ensures leaked == old(leaked) + One(Ends(zid) && old(zones[zid]).wp + n == Start(zid) + size)
    {
      Counted(zones[..], cnt, leaked, total, zid);
      ghost var zs, c := zones[..], cnt;
      IncreaseWp(zid, n);
      Settle(zid, zs, c, One(Ends(zid) && zs[zid].wp + n == Start(zid) + size), wrote[zid]);
    }

    /** The zone after a write to its random write area that was carried out. */
    function AfterZrwa(z: Zone, slba: nat, n: nat): Zone
      requires size > 0 && unit > 0 && n > 0
    {
      var k := ZrwaMove(z, slba, n);
      if k > 0 then Advanced(ZoneAt(slba), Opened(z), k) else Opened(z)
    }

    /** __zns_write_zrwa: the counters, the buffer and the write pointer. */
    method WriteZrwa(slba: nat, n: nat) returns (status: Status)
      requires Valid() && n > 0 && ZoneAt(slba) < nz && zones[ZoneAt(slba)].zrwav
      modifies this`cnt, this`room, this`leaked, this`wrote, zones
      ensures Valid() && wrote == old(wrote)
      ensures zones[..] == old(zones[..])[ZoneAt(slba) := zones[ZoneAt(slba)]]
      ensures room == old(room)[ZoneAt(slba) := room[ZoneAt(slba)]]
      ensures var zid, z, left := ZoneAt(slba), old(zones[ZoneAt(slba)]), old(room)[ZoneAt(slba)];
              && status == ZrwaVerdict(z, left, slba, n, old(cnt))
              && (status.Success? <==> ZrwaAccepts(z, left, slba, n, old(cnt)))
              && (status.DivideByZero? <==> DivisionUndefined(z, left, Command.Write(slba, n, false, true), old(cnt)))
              && (status.BufferStop? <==> BufferStops(z, left, Command.Write(slba, n, false, true), old(cnt)))
              && (status.Busy? <==>
                    && ZrwaInRange(z, slba, n) && ZrwaOpens(z, left, old(cnt))
                    && LeftOpen(z, left) < ZrwaMove(z, slba, n) * 512 <= p.zrwaBuffer)
              && leaked == old(leaked) + One(ZrwaFills(z, left, slba, n, old(cnt)))
      ensures var zid, z, left := ZoneAt(slba), old(zones[ZoneAt(slba)]), old(room)[ZoneAt(slba)];
              && (status.Success? ==>
                    && zones[zid] == AfterZrwa(z, slba, n)
                    && room[zid] == LeftOpen(z, left) - ZrwaMove(z, slba, n) * 512)
              && (!status.Success? && ZrwaInRange(z, slba, n) && ZrwaOpens(z, left, old(cnt)) ==>
                    zones[zid] == Opened(z) && room[zid] == LeftOpen(z, left))
              && (!(ZrwaInRange(z, slba, n) && ZrwaOpens(z, left, old(cnt))) ==>
                    zones[..] == old(zones[..]) && cnt == old(cnt) && room == old(room))
    {
      hide ZoneOk, CountsOk, ZrwaInRange, ImplicitFlush, ZrwaMove, Advanced, Reopens, Divides, InArea;
      status := CheckZrwaRange(slba, n);
      if status.Success? {
        status := WriteInRange(slba, n);
      }
    }

    /** What follows the range tests. */
    method WriteInRange(slba: nat, n: nat) returns (status: Status)
      requires Valid() && n > 0 && ZoneAt(slba) < nz && zones[ZoneAt(slba)].zrwav
      requires ZrwaInRange(zones[ZoneAt(slba)], slba, n)
      modifies this`cnt, this`room, this`leaked, this`wrote, zones
      ensures Valid() && wrote == old(wrote)
      ensures zones[..] == old(zones[..])[ZoneAt(slba) := zones[ZoneAt(slba)]]
      ensures room == old(room)[ZoneAt(slba) := room[ZoneAt(slba)]]
      ensures var zid, z, left := ZoneAt(slba), old(zones[ZoneAt(slba)]), old(room)[ZoneAt(slba)];
              var opens, k := ZrwaOpens(z, left, old(cnt)), ZrwaMove(z, slba, n);
              var halts := Divides(z.wp, slba + n - 1) && perFg == 0;
              && status == (if opens then MoveVerdict(z, LeftOpen(z, left), slba, n)
                            else ReopenVerdict(z.state, left, old(cnt)))
              && (status.DivideByZero? <==> opens && halts)
              && (status.BufferStop? <==>
                    || (Shut(z.state) && old(cnt).open < total.open && !Reopens(left))
                    || (opens && k * 512 > p.zrwaBuffer))
              && (status.Busy? <==> opens && LeftOpen(z, left) < k * 512 <= p.zrwaBuffer)
              && (status.Success? <==> opens && !halts && k * 512 <= p.zrwaBuffer && k * 512 <= LeftOpen(z, left))
              && (status.Success? ==> zones[zid] == AfterZrwa(z, slba, n) && room[zid] == LeftOpen(z, left) - k * 512)
              && (!status.Success? && opens ==> zones[zid] == Opened(z) && room[zid] == LeftOpen(z, left))
              && (!opens ==> zones[..] == old(zones[..]) && cnt == old(cnt) && room == old(room))
              && leaked == old(leaked) + One(status.Success? && Ends(zid) && k > 0 && z.wp + k == Start(zid) + size)
    {
      hide ZoneOk, CountsOk, ZrwaInRange, ImplicitFlush, ZrwaMove, Advanced, Reopens, Divides;
      var zid := ZoneAt(slba);
      ghost var z := zones[zid];
      status := OpenForZrwa(zid);
      if status.Success? {
        status := MoveZrwa(slba, n, z);
      }
    }

    /** The tests of a write to a random write area before it looks at the state of the zone. */
    method CheckZrwaRange(slba: nat, n: nat) returns (status: Status)
      requires Valid() && n > 0 && ZoneAt(slba) < nz && zones[ZoneAt(slba)].zrwav
      ensures status == RangeVerdict(zones[ZoneAt(slba)], slba, n)
      ensures status.Success? <==> ZrwaInRange(zones[ZoneAt(slba)], slba, n)
      ensures status in {Success, InvalidWrite, ErrBoundary}
    {
      var zid, elba := ZoneAt(slba), slba + n - 1;
      var wp := zones[zid].wp;
      if n * 512 % unit != 0 { return InvalidWrite; }
      ZoneOf(slba, size, zid);
      InZone(slba, n, zid);
      if ZoneAt(slba) != ZoneAt(elba) { return ErrBoundary; }
      ZoneEnds(zid);
      LastOfArea(wp, 2 * perZrwa, elba);
      if slba < wp || elba > LastOf(wp, 2 * perZrwa) { return InvalidWrite; }
      status := Success;
    }

    /** The rest of it, on a zone that is open by now and was z before. */
    method MoveZrwa(slba: nat, n: nat, ghost z: Zone) returns (status: Status)
      requires Valid() && n > 0 && ZoneAt(slba) < nz && zones[ZoneAt(slba)] == Opened(z) && z.zrwav
      requires ZrwaInRange(z, slba, n) && IsOpen(Opened(z).state)
      modifies this`cnt, this`room, this`leaked, this`wrote, zones
      ensures Valid() && wrote == old(wrote) && status in {Success, Busy, DivideByZero, BufferStop}
      ensures status == MoveVerdict(z, old(room)[ZoneAt(slba)], slba, n)
      ensures status.DivideByZero? <==> Divides(z.wp, slba + n - 1) && perFg == 0
      ensures status.BufferStop? <==> ZrwaMove(z, slba, n) * 512 > p.zrwaBuffer
      ensures status.Busy? <==>
                old(room)[ZoneAt(slba)] < ZrwaMove(z, slba, n) * 512 <= p.zrwaBuffer
      ensures zones[..] == old(zones[..])[ZoneAt(slba) := zones[ZoneAt(slba)]]
      ensures room == old(room)[ZoneAt(slba) := room[ZoneAt(slba)]]
      ensures !status.Success? ==> zones[..] == old(zones[..]) && room == old(room) && leaked == old(leaked)
      ensures status.Success? ==>
                var zid, k := ZoneAt(slba), ZrwaMove(z, slba, n);
                && zones[zid] == AfterZrwa(z, slba, n) && room[zid] == old(room)[zid] - k * 512
                && leaked == old(leaked) + One(Ends(zid) && k > 0 && z.wp + k == Start(zid) + size)
    {
      var zid, elba := ZoneAt(slba), slba + n - 1;
      var wp := zones[zid].wp;
      if elba >= wp + perZrwa && perFg == 0 { return DivideByZero; }
      ZoneOf(slba, size, zid);
      ZoneEnds(zid);
      LastExactly(zid, elba);
      var k := if elba >= wp + perZrwa then (elba - (wp + perZrwa) + perFg) / perFg * perFg
               else if elba == Wrap(Start32(zid + 1) - 1) then elba - wp + 1
               else 0;
      assert k == ZrwaMove(z, slba, n);
      ImplicitFlushBound(zid, wp, elba);
      hide ZoneOk, CountsOk, ZrwaInRange, ImplicitFlush, ZrwaMove;
      if k > 0 {
        if p.zrwaBuffer == 0 || k * 512 > p.zrwaBuffer { return BufferStop; }
        if room[zid] < k * 512 { return Busy; }
        room := room[zid := room[zid] - k * 512];
        FlushImplicitly(zid, k);
      }
      status := Success;
    }

    /** The answer to an explicit flush up to block slba. */
    function FlushVerdict(z: Zone, slba: nat): Status
      requires size > 0
    {
      if !z.zrwav || slba < z.wp || !Ends(ZoneAt(slba)) || !InArea(z.wp, perZrwa, slba) then InvalidOperation
      else if perFg == 0 then DivideByZero
      else if (slba - z.wp + 1) % perFg != 0 then InvalidField
      else if Holds(z, Active) then Success
      else InvalidOperation
    }

    /** An explicit flush moves the write pointer behind slba; a zone it fills gives up all it holds. */
    method FlushExplicitly(slba: nat) returns (status: Status)
      requires Valid() && ZoneAt(slba) < nz
      modifies this`cnt, this`leaked, this`wrote, zones
      ensures Valid() && leaked == old(leaked) && wrote == old(wrote)
      ensures status == FlushVerdict(old(zones[ZoneAt(slba)]), slba)
      ensures !status.Success? ==> zones[..] == old(zones[..]) && cnt == old(cnt)
      ensures status.Success? ==>
                var zid, z := ZoneAt(slba), old(zones[ZoneAt(slba)]);
                zones[..] == old(zones[..])[zid := Advanced(zid, z, slba + 1 - z.wp)]
    {
      var zid := ZoneAt(slba);
      var z := zones[zid];
      if !z.zrwav { return InvalidOperation; }
      ZoneOf(slba, size, zid);
      ZoneEnds(zid);
      LastOfArea(z.wp, perZrwa, slba);
      EndExactly(zid, slba);
      var last := if LastOf(z.wp, perZrwa) < Start32(zid) + size - 1 then LastOf(z.wp, perZrwa)
                  else Start32(zid) + size - 1;
      if !(z.wp <= slba <= last) { return InvalidOperation; }
      if perFg == 0 { return DivideByZero; }
      if (slba - z.wp + 1) % perFg != 0 { return InvalidField; }
      if !(IsOpen(z.state) || z.state.Closed?) { return InvalidOperation; }
      FlushTo(zid, slba + 1);
      status := Success;
    }

    /** The state change of an explicit flush. */
    method FlushTo(zid: nat, wp: nat)
      requires Valid() && zid < nz && zones[zid].zrwav && Holds(zones[zid], Active)
      requires zones[zid].wp <= wp <= Start(zid) + size
      modifies this`cnt, this`leaked, this`wrote, zones
      ensures Valid() && leaked == old(leaked) && wrote == old(wrote)
      ensures zones[..] == old(zones[..])[zid := Advanced(zid, old(zones[zid]), wp - old(zones[zid]).wp)]
    {
      Counted(zones[..], cnt, leaked, total, zid);
      ghost var zs, c := zones[..], cnt;
      var z := zones[zid];
      zones[zid] := z.(wp := wp);
      EndExactly(zid, wp);
      if wp == Start32(zid) + size {
        if !z.state.Closed? {
          Release(Open);
        }
        Release(Active);
        Release(Zrwa);
        zones[zid] := zones[zid].(state := Full);
      }
      Settle(zid, zs, c, 0, wrote[zid]);
    }

    ghost function View(zid: nat): Cell
      reads this`wrote, this`room, zones
      requires Shape() && zid < nz
    {
      Cell(zones[zid], wrote[zid], room[zid])
    }

    predicate Dead(s: State) { s.ReadOnly? || s.Offline? }

    /** The answer to each command on a zone, */
    ghost function Verdict(v: Cell, cmd: Command, c: Counters): Status
      requires size > 0 && unit > 0 && (cmd.Write? ==> cmd.n > 0)
    {
      match cmd
      case CloseZone(_) => if Holds(v.zone, Active) then Success else InvalidTransition
      case FinishZone(_) => if Dead(v.zone.state) then InvalidTransition else Success
      case OpenZone(_, withZrwa) => OpenVerdict(v.zone, withZrwa, c)
      case ResetZone(_) => if Dead(v.zone.state) then InvalidTransition else Success
      case OfflineZone(_) => if Dead(v.zone.state) then Success else InvalidTransition
      case FlushZrwa(slba) => FlushVerdict(v.zone, slba)
      case Write(slba, n, append, buffered) =>
        if v.zone.zrwav then ZrwaVerdict(v.zone, v.room, slba, n, c)
        else WriteVerdict(v.zone, slba, n, append, buffered, c)
    }

    /** what a granted command other than a write makes of the zone, */
    ghost function Managed(v: Cell, cmd: Command): Cell
      requires size > 0 && !cmd.Write? && (cmd.FlushZrwa? ==> v.zone.wp <= cmd.slba)
    {
      var zid, z := ZoneAt(cmd.slba), v.zone;
      match cmd
      case CloseZone(_) => v.(zone := Zone(Closed, z.wp, z.zrwav))
      case FinishZone(_) => v.(zone := Zone(Full, z.wp, z.zrwav))
      case OpenZone(_, withZrwa) => v.(zone := Zone(ExplOpen, z.wp, z.zrwav || (withZrwa && z.state.Empty?)))
      case ResetZone(_) =>
        Cell(Zone(Empty, Start(zid), false), [], if p.zrwaBuffer > 0 then p.zrwaBuffer else v.room)
      case OfflineZone(_) => v.(zone := Zone(Offline, z.wp, z.zrwav))
      case FlushZrwa(slba) => v.(zone := Advanced(zid, z, slba + 1 - z.wp))
    }

    /** and a write to its random write area, which opens the zone also when the flush then fails. */
    ghost function ZrwaWritten(v: Cell, slba: nat, n: nat, c: Counters): Cell
      requires size > 0 && unit > 0 && n > 0
    {
      var z, left := v.zone, LeftOpen(v.zone, v.room);
      if !ZrwaInRange(z, slba, n) || !ZrwaOpens(z, v.room, c) then v
      else if MoveVerdict(z, left, slba, n).Success? then
        Cell(AfterZrwa(z, slba, n), v.wrote, left - ZrwaMove(z, slba, n) * 512)
      else Cell(Opened(z), v.wrote, left)
    }

    /** The zone after a command. */
    ghost function After(v: Cell, cmd: Command, c: Counters): Cell
      requires size > 0 && unit > 0 && (cmd.Write? ==> cmd.n > 0)
    {
      var z := v.zone;
      if cmd.Write? && z.zrwav then ZrwaWritten(v, cmd.slba, cmd.n, c)
      else if !Verdict(v, cmd, c).Success? then v
      else if cmd.Write? then
        Cell(Advanced(ZoneAt(cmd.slba), Opened(z), cmd.n), v.wrote + Range(z.wp, z.wp + cmd.n), v.room)
      else Managed(v, cmd)
    }

    /** __zmgmt_send for the known actions. */
    method Manage(cmd: Command) returns (status: Status)
      requires Valid() && ZoneAt(cmd.slba) < nz && !cmd.Write?
      modifies this`cnt, this`room, this`leaked, this`wrote, zones
      ensures Valid() && leaked == old(leaked) && !status.BufferStop?
      ensures status.DivideByZero? <==>
                DivisionUndefined(old(zones[ZoneAt(cmd.slba)]), old(room)[ZoneAt(cmd.slba)], cmd, old(cnt))
      ensures status == Verdict(old(View(ZoneAt(cmd.slba))), cmd, old(cnt))
      ensures View(ZoneAt(cmd.slba)) == After(old(View(ZoneAt(cmd.slba))), cmd, old(cnt))
      ensures zones[..] == old(zones[..])[ZoneAt(cmd.slba) := zones[ZoneAt(cmd.slba)]]
      ensures wrote == old(wrote)[ZoneAt(cmd.slba) := wrote[ZoneAt(cmd.slba)]]
      ensures room == old(room)[ZoneAt(cmd.slba) := room[ZoneAt(cmd.slba)]]
    {
      hide CountsOk, ZoneOk, Range, ZrwaWritten, ZrwaVerdict, WriteVerdict, Advanced, InArea;
      var zid := ZoneAt(cmd.slba);
      ghost var zs := zones[..];
      assert zs[zid] == zones[zid];
      match cmd {
        case CloseZone(_) => status := Close(zid);
        case FinishZone(_) => status := Finish(zid);
        case OpenZone(_, withZrwa) => status := OpenZone(zid, withZrwa);
        case ResetZone(_) => status := Reset(zid);
        case OfflineZone(_) => status := TakeOffline(zid);
        case FlushZrwa(slba) => status := FlushExplicitly(slba);
      }
      assert zones[..][zid] == zones[zid];
    }

    /** Commands whose effect depends on the zone alone. */
    predicate Plain(cmd: Command) { cmd.CloseZone? || cmd.FinishZone? || cmd.ResetZone? || cmd.OfflineZone? }

    /** They may come twice. */
    lemma PlainTwice(v: Cell, cmd: Command, at: nat, c: Counters, d: Counters)
      requires size > 0 && unit > 0 && Plain(cmd) && ZoneAt(at) == ZoneAt(cmd.slba)
      ensures After(v, Aimed(cmd, at), d) == After(v, cmd, c)
      ensures After(After(v, cmd, c), Aimed(cmd, at), d) == After(v, cmd, c)
    {
    }

    /** The zone that select-all means by zone i: itself, or a lower one if its start does not fit 32 bits. */
    lemma Selected(i: nat)
      requires size > 0
      ensures ZoneAt(Start(i)) == i && Ends(ZoneAt(Start32(i)))
      ensures if Ends(i) then ZoneAt(Start32(i)) == i else ZoneAt(Start32(i)) < i
    {
      var k := ZoneAt(Start32(i));
      ZoneOf(Start32(i), size, k);
      ZoneOf(Start(i), size, i);
      if k > i {
        MulLe(i + 1, k, size);
        Dist(i, 1, size);
      }
    }

    /** One round of select-all. */
    method ManageSelected(i: nat, cmd: Command, ghost c: Counters) returns (status: Status)
      requires Valid() && i < nz && ZoneAt(Start32(i)) < nz && !cmd.Write?
      modifies this`cnt, this`room, this`leaked, this`wrote, zones
      ensures Valid() && leaked == old(leaked) && (status.DivideByZero? ==> cmd.FlushZrwa?)
      ensures Plain(cmd) ==>
                var k := ZoneAt(Start32(i));
                && View(k) == After(old(View(k)), Aimed(cmd, Start(k)), c)
                && forall j :: 0 <= j < nz && j != k ==> View(j) == old(View(j))
    {
      hide CountsOk, ZoneOk, After, Verdict, Ends;
      var k := ZoneAt(Start32(i));
      Selected(k);
      if Plain(cmd) {
        PlainTwice(View(k), Aimed(cmd, Start(k)), Start32(i), c, cnt);
      }
      status := Manage(Aimed(cmd, Start32(i)));
    }

    /**
     zns_zmgmt_send with select-all: of the commands that depend on the zone alone, exactly the zones whose start the
     code finds get it; the others get nothing, and the answer does not tell.
     */
    method ManageAll(cmd: Command) returns (status: Status)
      requires Valid() && !cmd.Write?
      modifies this`cnt, this`room, this`leaked, this`wrote, zones
      ensures Valid() && leaked == old(leaked) && (status.Success? || (cmd.FlushZrwa? && status.DivideByZero?))
      ensures Plain(cmd) ==>
                forall j :: 0 <= j < nz ==>
                  View(j) == if Ends(j) then After(old(View(j)), Aimed(cmd, Start(j)), old(cnt)) else old(View(j))
    {
      hide CountsOk, ZoneOk, After, Verdict, Ends;
      for i := 0 to nz
        invariant Valid() && leaked == old(leaked)
        invariant Plain(cmd) ==>
                    forall j :: 0 <= j < nz ==>
                      View(j) == if j < i && Ends(j) then After(old(View(j)), Aimed(cmd, Start(j)), old(cnt))
                                 else old(View(j))
      {
        Selected(i);
        ghost var k := ZoneAt(Start32(i));
        Selected(k);
        if Plain(cmd) {
          PlainTwice(old(View(k)), Aimed(cmd, Start(k)), Start(k), old(cnt), old(cnt));
        }
        status := ManageSelected(i, cmd, old(cnt));
        if status.DivideByZero? { return; }
      }
      status := Success;
    }

    /**
     zns_write and __zmgmt_send: every command on a zone of the namespace keeps the invariant, whatever it answers,
     and touches no other zone.  Only a write that fills a zone with a random write area leaves the area counted.
     The driver stops exactly where the division is undefined or a buffer is not what the code asserts.
     */
    method Execute(cmd: Command) returns (status: Status)
      requires Valid() && ZoneAt(cmd.slba) < nz && (cmd.Write? ==> cmd.n > 0)
      modifies this`cnt, this`room, this`leaked, this`wrote, zones
      ensures Valid()
      ensures var z, left := old(zones[ZoneAt(cmd.slba)]), old(room)[ZoneAt(cmd.slba)];
              && (status.DivideByZero? <==> DivisionUndefined(z, left, cmd, old(cnt)))
              && (status.BufferStop? <==> BufferStops(z, left, cmd, old(cnt)))
              && leaked == old(leaked) + One(cmd.Write? && ZrwaFills(z, left, cmd.slba, cmd.n, old(cnt)))
      ensures status == Verdict(old(View(ZoneAt(cmd.slba))), cmd, old(cnt))
      ensures View(ZoneAt(cmd.slba)) == After(old(View(ZoneAt(cmd.slba))), cmd, old(cnt))
      ensures zones[..] == old(zones[..])[ZoneAt(cmd.slba) := zones[ZoneAt(cmd.slba)]]
      ensures wrote == old(wrote)[ZoneAt(cmd.slba) := wrote[ZoneAt(cmd.slba)]]
      ensures room == old(room)[ZoneAt(cmd.slba) := room[ZoneAt(cmd.slba)]]
    {
      hide CountsOk, ZoneOk, Range, Holds, ZrwaInRange, ZrwaMove, ZrwaOpens;
      if !cmd.Write? {
        status := Manage(cmd);
      } else if zones[ZoneAt(cmd.slba)].zrwav {
        status := WriteZrwa(cmd.slba, cmd.n);
      } else {
        status := Write(cmd.slba, cmd.n, cmd.append, cmd.buffered);
      }
    }
  }

  /** One zone of 8 blocks, opened with an area and filled by a write. */
  method FillArea() returns (f: ZnsFtl)
    ensures f.Valid() && fresh(f) && fresh(f.zones) && f.nz == 1 && f.size == 8 && f.total == Counters(1, 1, 1)
    ensures f.zones[0] == Zone(Full, 8, true) && f.leaked == 1
  {
    hide ZoneOk, Range, CountsOk;
    f := new ZnsFtl(Params(1, 8, 4096, 4096, 4096, 8192, 4096));
    assert f.Start(0) == 0 && f.ZoneAt(0) == 0;
    var opens := f.OpenZone(0, true);
    assert f.zones[0] == f.zones[..][0] == Zone(ExplOpen, 0, true);
    assert f.ZrwaMove(f.zones[0], 0, 8) == 8;
    var written := f.WriteZrwa(0, 8);
    assert f.zones[0] == f.zones[..][0] == Zone(Full, 8, true);
  }

  /** An area filled by writes alone stays counted: after a reset it cannot be opened again. */
  method FilledAreaStaysCounted() returns (f: ZnsFtl, status: Status)
    ensures f.Valid() && status == NoZrwa && f.zones[..] == [Zone(Empty, 0, false)]
  {
    hide ZoneOk, Range;
    f := FillArea();
    status := f.Reset(0);
    assert f.Start(0) == 0;
    assert f.zones[..] == [Zone(Empty, 0, false)];
    CountNone(f.zones[..], Active);
    CountNone(f.zones[..], Open);
    status := f.OpenZone(0, true);
  }

  /** The sizes of the shipped configuration with zones of 2 GiB. */
  const SHIPPED := Params(8, 0x40_0000, 512, 0, 0, 0, 0xF_0000)

  /** With these sizes: opening zone 0 with an area, then flushing its first block. */
  method ShippedSizesDivide() returns (f: ZnsFtl, granted: Status, flushed: Status)
    ensures f.p == SHIPPED && f.Valid() && granted == Success && flushed == DivideByZero
  {
    hide ZoneOk, Range;
    f := new ZnsFtl(SHIPPED);
    assert f.Start(0) == 0 && f.ZoneAt(0) == 0;
    granted := f.OpenZone(0, true);
    assert f.zones[0] == f.zones[..][0] == Zone(ExplOpen, 0, true);
    flushed := f.Execute(FlushZrwa(0));
  }

  /** With these sizes: opening zone 0 with an area, closing it, then writing its first block. */
  method ShippedSizesStop() returns (f: ZnsFtl, granted: Status, closed: Status, written: Status)
    ensures f.p == SHIPPED && f.Valid() && granted == Success && closed == Success && written == BufferStop
  {
    hide ZoneOk, Range;
    f := new ZnsFtl(SHIPPED);
    assert f.Start(0) == 0 && f.ZoneAt(0) == 0;
    granted := f.OpenZone(0, true);
    assert f.zones[0] == f.zones[..][0] == Zone(ExplOpen, 0, true);
    closed := f.Close(0);
    assert f.zones[0] == f.zones[..][0] == Zone(Closed, 0, true);
    CountNone(f.zones[..], Open);
    written := f.Execute(Write(0, 1, false, true));
  }

  /**
   With positive sizes too: while no flash operation completes, each round of closing the zone and writing to it takes
   one more area from the buffer, and the first round that finds no whole area left stops.
   */
  method ReopensRunOut(f: ZnsFtl, slba: nat, n: nat) returns (rounds: nat, status: Status)
    requires f.Valid() && n > 0 && f.ZoneAt(slba) < f.nz && 0 < f.p.zrwa <= f.p.zrwaBuffer
    requires var z := f.zones[f.ZoneAt(slba)];
             IsOpen(z.state) && z.zrwav && f.ZrwaInRange(z, slba, n) && f.ZrwaMove(z, slba, n) == 0
             && (f.perFg == 0 ==> !f.Divides(z.wp, slba + n - 1))
    modifies f, f.zones
    ensures f.Valid() && status == BufferStop && rounds == old(f.room)[f.ZoneAt(slba)] / f.p.zrwa
  {
    hide ZoneOk, Range, ZnsFtl.ImplicitFlush;
    var zid := f.ZoneAt(slba);
    ghost var wp, left := f.zones[zid].wp, f.room[zid];
    rounds, status := 0, Success;
    while status.Success?
      invariant f.Valid() && (status.Success? || (status.BufferStop? && f.room[zid] < f.p.zrwa))
      invariant status.Success? ==> IsOpen(f.zones[zid].state) && f.zones[zid].zrwav && f.zones[zid].wp == wp
      invariant left == rounds * f.p.zrwa + f.room[zid]
      decreases status.Success?, f.room[zid]
    {
      CountUpdate(f.zones[..], Open, zid, Zone(Closed, wp, true));
      var _ := f.Close(zid);
      assert f.zones[zid] == f.zones[..][zid] == Zone(Closed, wp, true);
      status := WriteAgain(f, slba, n);
      if status.Success? {
        Dist(rounds, 1, f.p.zrwa);
        rounds := rounds + 1;
      }
    }
    SplitPair(rounds, f.room[zid], f.p.zrwa);
  }

  /** A write to the closed zone that moves no write pointer opens the zone if an area is left, and stops otherwise. */
  method WriteAgain(f: ZnsFtl, slba: nat, n: nat) returns (status: Status)
    requires f.Valid() && n > 0 && f.ZoneAt(slba) < f.nz && 0 < f.p.zrwa <= f.p.zrwaBuffer
    requires var z := f.zones[f.ZoneAt(slba)];
             && z.state.Closed? && z.zrwav && f.cnt.open < f.total.open
             && f.ZrwaInRange(z, slba, n) && f.ZrwaMove(z, slba, n) == 0
             && (f.perFg == 0 ==> !f.Divides(z.wp, slba + n - 1))
    modifies f, f.zones
    ensures f.Valid() && |f.room| == |old(f.room)|
    ensures var zid := f.ZoneAt(slba);
            if old(f.room)[zid] < f.p.zrwa then status == BufferStop && f.room == old(f.room)
            else
              && status == Success && f.room[zid] == old(f.room)[zid] - f.p.zrwa
              && f.zones[zid] == old(f.zones[zid]).(state := ImplOpen)
  {
    status := f.WriteZrwa(slba, n);
  }

  /** In a zone whose end the code gets wrong, appends go on behind the end, over the blocks of the next zone. */
  method HighZoneOverruns(f: ZnsFtl, zid: nat) returns (status: Status)
    requires f.Valid() && zid < f.nz && !f.Ends(zid) && f.zones[zid] == Zone(Empty, f.Start(zid), false)
    requires f.cnt.active < f.total.active && f.cnt.open < f.total.open
    requires 512 % f.unit == 0 && f.p.writeBuffer >= 512
    modifies f, f.zones
    ensures f.Valid() && status == Success
    ensures f.Start(zid) + f.size in f.wrote[zid] && f.ZoneAt(f.Start(zid) + f.size) == zid + 1
  {
    hide CountsOk, Range;
    var start := f.Start(zid);
    ZoneOf(start, f.size, zid);
    status := f.Write(start, 1, true, true);
    assert f.zones[zid] == f.zones[..][zid];
    var i := 1;
    while i <= f.size
      invariant 1 <= i <= f.size + 1 && status == Success && f.Valid()
      invariant f.zones[zid] == Zone(ImplOpen, start + i, false)
    {
      status := f.Write(start, 1, true, true);
      assert f.zones[zid] == f.zones[..][zid];
      i := i + 1;
    }
    Dist(zid, 1, f.size);
    ZoneOf(start + f.size, f.size, zid + 1);
    assert ZoneOk(f.zones[zid], start, f.size, f.perFg, false, f.wrote[zid]);
    assert f.wrote[zid][f.size] == start + f.size;
  }
}

/** Whole runs of a zoned namespace: what holds of a zone from one granted command to another. */
module ZnsRuns {
  import opened ZoneModel
  import opened Zns

  /** A command, or the completion of flash operations of a zone, which frees bytes of its buffer. */
  datatype Event = Do(cmd: Command) | FlashDone(zid: nat, bytes: nat)

  datatype Ns = Ns(zones: seq<Zone>, wrote: seq<seq<nat>>, room: seq<nat>, cnt: Counters)
  {
    predicate Has(zid: nat) { zid < |zones| && zid < |wrote| && zid < |room| }

    function At(zid: nat): Cell
      requires Has(zid)
    {
      Cell(zones[zid], wrote[zid], room[zid])
    }
  }

  ghost predicate EventOk(f: ZnsFtl, e: Event)
  {
    match e
    case Do(cmd) => f.size > 0 && f.unit > 0 && f.ZoneAt(cmd.slba) < f.nz && (cmd.Write? ==> cmd.n > 0)
    case FlashDone(zid, _) => zid < f.nz
  }

  function ZoneOfEvent(f: ZnsFtl, e: Event): nat
    requires EventOk(f, e)
  {
    match e
    case Do(cmd) => f.ZoneAt(cmd.slba)
    case FlashDone(zid, _) => zid
  }

  /** What an event does to its own zone. */
  ghost predicate Does(f: ZnsFtl, v: Cell, c: Counters, e: Event, status: Status, w: Cell)
    requires EventOk(f, e)
  {
    match e
    case Do(cmd) => status == f.Verdict(v, cmd, c) && w == f.After(v, cmd, c)
    case FlashDone(_, bytes) => w == v.(room := v.room + bytes)
  }

  /** One event: its own zone changes as the command says, and no other. */
  ghost predicate Next(f: ZnsFtl, a: Ns, e: Event, status: Status, b: Ns)
  {
    && EventOk(f, e) && (forall i :: 0 <= i < f.nz ==> a.Has(i) && b.Has(i))
    && Does(f, a.At(ZoneOfEvent(f, e)), a.cnt, e, status, b.At(ZoneOfEvent(f, e)))
    && forall i :: 0 <= i < f.nz && i != ZoneOfEvent(f, e) ==> b.At(i) == a.At(i)
  }

  datatype Run = Run(states: seq<Ns>, events: seq<Event>, statuses: seq<Status>)
  {
    ghost predicate Of(f: ZnsFtl)
    {
      && |states| == |events| + 1 == |statuses| + 1
      && forall i :: 0 <= i < |events| ==> Next(f, states[i], events[i], statuses[i], states[i + 1])
    }

    /** Zone zid before the i-th event. */
    ghost function At(f: ZnsFtl, i: nat, zid: nat): Cell
      requires Of(f) && i < |states| && |events| > 0 && zid < f.nz
    {
      if i < |events| then
        assert Next(f, states[i], events[i], statuses[i], states[i + 1]);
        states[i].At(zid)
      else
        assert Next(f, states[i - 1], events[i - 1], statuses[i - 1], states[i]);
        states[i].At(zid)
    }

    /** The i-th event is a command on zone zid, and granted. */
    ghost predicate Grants(f: ZnsFtl, i: nat, zid: nat)
      requires Of(f) && i < |events|
    {
      assert Next(f, states[i], events[i], statuses[i], states[i + 1]);
      events[i].Do? && f.ZoneAt(events[i].cmd.slba) == zid && statuses[i].Success?
    }

    ghost predicate Resets(f: ZnsFtl, i: nat, zid: nat)
      requires Of(f) && i < |events|
    {
      Grants(f, i, zid) && events[i].cmd.ResetZone?
    }

    ghost predicate Writes(f: ZnsFtl, i: nat, zid: nat)
      requires Of(f) && i < |events|
    {
      Grants(f, i, zid) && events[i].cmd.Write?
    }

    /** The i-th event gives zone zid a random write area. */
    ghost predicate OpensArea(f: ZnsFtl, i: nat, zid: nat)
      requires Of(f) && i < |events|
    {
      Grants(f, i, zid) && events[i].cmd.OpenZone? && events[i].cmd.withZrwa
    }
  }

  ghost function Whole(f: ZnsFtl): Ns
    reads f, f.zones
  {
    Ns(f.zones[..], f.wrote, f.room, f.cnt)
  }

  /** One event on the namespace. */
  method Handle(f: ZnsFtl, e: Event) returns (status: Status)
    requires f.Valid() && EventOk(f, e)
    modifies f, f.zones
    ensures f.Valid() && Next(f, old(Whole(f)), e, status, Whole(f))
  {
    hide CountsOk, ZoneOk, Range, ZnsFtl.Verdict, ZnsFtl.After;
    ghost var a := Whole(f);
    match e
    case Do(cmd) =>
      status := f.Execute(cmd);
      assert forall i :: 0 <= i < f.nz && i != f.ZoneAt(cmd.slba) ==> Whole(f).At(i) == a.At(i);
    case FlashDone(zid, bytes) =>
      f.FlashDone(zid, bytes);
      status := Success;
  }

  /** Any commands, in any order: the namespace keeps its invariant, and what it does is a run. */
  method HandleAll(f: ZnsFtl, events: seq<Event>) returns (statuses: seq<Status>, ghost states: seq<Ns>)
    requires f.Valid() && forall i :: 0 <= i < |events| ==> EventOk(f, events[i])
    modifies f, f.zones
    ensures f.Valid() && Run(states, events, statuses).Of(f)
    ensures states[0] == old(Whole(f)) && states[|events|] == Whole(f)
  {
    hide CountsOk, ZoneOk, Range, ZnsFtl.Verdict, ZnsFtl.After, Next, EventOk;
    statuses, states := [], [Whole(f)];
    for n := 0 to |events|
      invariant f.Valid() && |statuses| == n && |states| == n + 1
      invariant states[0] == old(Whole(f)) && states[n] == Whole(f)
      invariant forall i :: 0 <= i < n ==> Next(f, states[i], events[i], statuses[i], states[i + 1])
    {
      var status := Handle(f, events[n]);
      statuses, states := statuses + [status], states + [Whole(f)];
    }
  }

  /* ---------- laws of runs ---------- */

  /** A full zone answers no write and does not change until it is reset. */
  lemma FullStep(f: ZnsFtl, v: Cell, c: Counters, e: Event, status: Status, w: Cell)
    requires EventOk(f, e) && Does(f, v, c, e, status, w) && v.zone.state.Full?
    requires !(e.Do? && status.Success? && e.cmd.ResetZone?)
    ensures w.zone == v.zone && w.wrote == v.wrote && !(e.Do? && e.cmd.Write? && status.Success?)
  {
  }

  /** Between resets a zone that is full stays as it is, and no write to it is granted. */
  lemma {:induction false} FullSticks(f: ZnsFtl, r: Run, zid: nat, i: nat, j: nat)
    requires r.Of(f) && zid < f.nz && i <= j <= |r.events| && r.events != []
    requires r.At(f, i, zid).zone.state.Full? && forall k :: i <= k < j ==> !r.Resets(f, k, zid)
    ensures r.At(f, j, zid).zone == r.At(f, i, zid).zone && r.At(f, j, zid).wrote == r.At(f, i, zid).wrote
    ensures forall k :: i <= k < j ==> !r.Writes(f, k, zid)
    decreases j - i
  {
    hide Does, EventOk;
    if i == j {
    } else {
      var k := j - 1;
      FullSticks(f, r, zid, i, k);
      assert Next(f, r.states[k], r.events[k], r.statuses[k], r.states[k + 1]);
      assert !r.Resets(f, k, zid);
      if ZoneOfEvent(f, r.events[k]) == zid {
        FullStep(f, r.At(f, k, zid), r.states[k].cnt, r.events[k], r.statuses[k], r.At(f, j, zid));
      }
    }
  }

  /** A granted finish leaves the write pointer and the record as they were, and ends the writes until a reset. */
  lemma FinishSticks(f: ZnsFtl, r: Run, zid: nat, i: nat, j: nat)
    requires r.Of(f) && zid < f.nz && i < j <= |r.events|
    requires r.Grants(f, i, zid) && r.events[i].cmd.FinishZone? && forall k :: i < k < j ==> !r.Resets(f, k, zid)
    ensures var v, w := r.At(f, i, zid), r.At(f, j, zid);
            w.zone == Zone(Full, v.zone.wp, v.zone.zrwav) && w.wrote == v.wrote
    ensures forall k :: i < k < j ==> !r.Writes(f, k, zid)
  {
    assert Next(f, r.states[i], r.events[i], r.statuses[i], r.states[i + 1]);
    FullSticks(f, r, zid, i + 1, j);
  }

  /** Blocks of the writes to zone zid that were granted from event i to event j. */
  ghost function Blocks(f: ZnsFtl, r: Run, zid: nat, i: nat, j: nat): nat
    requires r.Of(f) && i <= j <= |r.events|
    decreases j - i
  {
    if i == j then 0
    else Blocks(f, r, zid, i, j - 1) + if r.Writes(f, j - 1, zid) then r.events[j - 1].cmd.n else 0
  }

  /** Without an area, the write pointer moves by granted writes alone. */
  lemma PlainStep(f: ZnsFtl, v: Cell, c: Counters, e: Event, status: Status, w: Cell)
    requires EventOk(f, e) && Does(f, v, c, e, status, w) && !v.zone.zrwav
    requires !(e.Do? && status.Success? && (e.cmd.ResetZone? || (e.cmd.OpenZone? && e.cmd.withZrwa)))
    ensures var n := if e.Do? && status.Success? && e.cmd.Write? then e.cmd.n else 0;
            && !w.zone.zrwav && w.zone.wp == v.zone.wp + n
            && w.wrote == v.wrote + Range(v.zone.wp, v.zone.wp + n)
  {
    assert Range(v.zone.wp, v.zone.wp) == [];
  }

  lemma Joined(s: seq<nat>, lo: nat, mid: nat, hi: nat)
    requires lo <= mid <= hi
    ensures s + Range(lo, mid) + Range(mid, hi) == s + Range(lo, hi) && s + Range(lo, lo) == s
  {
    RangeJoin(lo, mid, hi);
  }

  /** What is written to a zone without an area between resets adds up, block after block. */
  lemma {:induction false} WritesAdd(f: ZnsFtl, r: Run, zid: nat, i: nat, j: nat)
    requires r.Of(f) && zid < f.nz && i <= j <= |r.events| && r.events != [] && !r.At(f, i, zid).zone.zrwav
    requires forall k :: i <= k < j ==> !r.Resets(f, k, zid) && !r.OpensArea(f, k, zid)
    ensures var v, w := r.At(f, i, zid), r.At(f, j, zid);
            && !w.zone.zrwav && w.zone.wp == v.zone.wp + Blocks(f, r, zid, i, j)
            && w.wrote == v.wrote + Range(v.zone.wp, w.zone.wp)
    decreases j - i
  {
    hide Range, Does, EventOk;
    var v := r.At(f, i, zid);
    if i == j {
      Joined(v.wrote, v.zone.wp, v.zone.wp, v.zone.wp);
    } else {
      var k := j - 1;
      WritesAdd(f, r, zid, i, k);
      assert Next(f, r.states[k], r.events[k], r.statuses[k], r.states[k + 1]);
      assert !r.Resets(f, k, zid) && !r.OpensArea(f, k, zid);
      var u, w := r.At(f, k, zid), r.At(f, j, zid);
      if ZoneOfEvent(f, r.events[k]) == zid {
        PlainStep(f, u, r.states[k].cnt, r.events[k], r.statuses[k], w);
        Joined(v.wrote, v.zone.wp, u.zone.wp, w.zone.wp);
      }
    }
  }

  /** So after a granted reset the write pointer stands behind exactly the blocks written since. */
  lemma WrittenSinceReset(f: ZnsFtl, r: Run, zid: nat, i: nat, j: nat)
    requires r.Of(f) && zid < f.nz && i < j <= |r.events| && r.Resets(f, i, zid)
    requires forall k :: i < k < j ==> !r.Resets(f, k, zid) && !r.OpensArea(f, k, zid)
    ensures var w := r.At(f, j, zid);
            && w.zone.wp == f.Start(zid) + Blocks(f, r, zid, i + 1, j)
            && w.wrote == Range(f.Start(zid), w.zone.wp)
  {
    assert Next(f, r.states[i], r.events[i], r.statuses[i], r.states[i + 1]);
    WritesAdd(f, r, zid, i + 1, j);
  }

  lemma WpStep(f: ZnsFtl, v: Cell, c: Counters, e: Event, status: Status, w: Cell)
    requires EventOk(f, e) && Does(f, v, c, e, status, w) && !(e.Do? && status.Success? && e.cmd.ResetZone?)
    ensures v.zone.wp <= w.zone.wp
  {
    hide ZnsFtl.ZrwaMove, ZnsFtl.ZrwaInRange, ZnsFtl.ZrwaOpens, Range;
  }

  /** With or without an area, only a reset takes a write pointer back. */
  lemma {:induction false} WpGrows(f: ZnsFtl, r: Run, zid: nat, i: nat, j: nat)
    requires r.Of(f) && zid < f.nz && i <= j <= |r.events| && r.events != []
    requires forall k :: i <= k < j ==> !r.Resets(f, k, zid)
    ensures r.At(f, i, zid).zone.wp <= r.At(f, j, zid).zone.wp
    decreases j - i
  {
    hide Does, EventOk;
    if i == j {
    } else {
      var k := j - 1;
      WpGrows(f, r, zid, i, k);
      assert Next(f, r.states[k], r.events[k], r.statuses[k], r.states[k + 1]);
      assert !r.Resets(f, k, zid);
      if ZoneOfEvent(f, r.events[k]) == zid {
        WpStep(f, r.At(f, k, zid), r.states[k].cnt, r.events[k], r.statuses[k], r.At(f, j, zid));
      }
    }
  }

  lemma LiveStep(f: ZnsFtl, v: Cell, c: Counters, e: Event, status: Status, w: Cell)
    requires EventOk(f, e) && Does(f, v, c, e, status, w) && !f.Dead(v.zone.state)
    ensures !f.Dead(w.zone.state)
    ensures e.Do? ==> !(e.cmd.OfflineZone? && status.Success?) && !status.ErrReadOnly? && !status.ErrOffline?
  {
    hide ZnsFtl.ZrwaMove, ZnsFtl.ZrwaInRange, Range, InArea;
  }

  /** Nothing makes a zone read-only: no zone of a new namespace ever is, or goes offline, and no command says so. */
  lemma {:induction false} NeverDead(f: ZnsFtl, r: Run, zid: nat, j: nat)
    requires r.Of(f) && zid < f.nz && j <= |r.events| && r.events != [] && !f.Dead(r.At(f, 0, zid).zone.state)
    ensures !f.Dead(r.At(f, j, zid).zone.state)
    ensures forall k :: 0 <= k < j ==> !(r.Grants(f, k, zid) && r.events[k].cmd.OfflineZone?)
    decreases j
  {
    hide Does, EventOk;
    if j == 0 {
    } else {
      var k := j - 1;
      NeverDead(f, r, zid, k);
      assert Next(f, r.states[k], r.events[k], r.statuses[k], r.states[k + 1]);
      if ZoneOfEvent(f, r.events[k]) == zid {
        LiveStep(f, r.At(f, k, zid), r.states[k].cnt, r.events[k], r.statuses[k], r.At(f, j, zid));
      }
    }
  }
}
