/** Keys spread over devices by the FNV-1a hash, and what makes the devices together one map. */
module Shards {
  import opened UtHash

  type Value = seq<bv8>

  const MAX_DEVICES: nat := 8
  const MAX_ERRORS: nat := 10

  datatype Device = Device(data: map<Key, Value>, healthy: bool, errs: nat)

  /** Times the prime of the hash, in 32-bit arithmetic. */
  function Times(x: bv32): bv32 { x * 16777619 }

  /** One round of the hash. */
  function Mix(hash: bv32, b: bv8): bv32
  {
    Times(hash ^ (b as bv32))
  }

  function Fnv(key: Key): bv32
  {
    if key == [] then 2166136261 else Mix(Fnv(key[..|key| - 1]), key[|key| - 1])
  }

  function ShardOf(key: Key, n: nat): (d: nat)
    requires n > 0
    ensures d < n
  {
    (Fnv(key) as nat) % n
  }

  /** kv_engine_shard_for_key */
  method Shard(key: Key, n: nat) returns (d: nat)
    requires n > 0
    ensures d == ShardOf(key, n)
  {
    hide Mix;
    var hash: bv32 := 2166136261;
    for i := 0 to |key|
      invariant hash == Fnv(key[..i])
    {
      assert key[..i + 1][..i] == key[..i];
      hash := Mix(hash, key[i]);
    }
    assert key[..|key|] == key;
    d := (hash as nat) % n;
  }

  /** Device d has nothing but its own part of the map, and all of it. */
  ghost predicate Part(dev: Device, d: nat, n: nat, contents: map<Key, Value>)
    requires n > 0
  {
    forall k ::
      && (k in dev.data <==> k in contents && ShardOf(k, n) == d)
      && (k in dev.data ==> dev.data[k] == contents[k])
  }

  ghost predicate Agree(devices: seq<Device>, contents: map<Key, Value>)
  {
    |devices| > 0 && forall d :: 0 <= d < |devices| ==> Part(devices[d], d, |devices|, contents)
  }

  lemma AgreeStore(devices: seq<Device>, contents: map<Key, Value>, key: Key, value: Value, dev: Device)
    requires Agree(devices, contents) && dev.data == devices[ShardOf(key, |devices|)].data[key := value]
    ensures Agree(devices[ShardOf(key, |devices|) := dev], contents[key := value])
  {
    hide ShardOf;
    var n, devs := |devices|, devices[ShardOf(key, |devices|) := dev];
    forall d | 0 <= d < n ensures Part(devs[d], d, n, contents[key := value]) {
      assert Part(devices[d], d, n, contents);
    }
  }

  lemma AgreeRemove(devices: seq<Device>, contents: map<Key, Value>, key: Key, dev: Device)
    requires Agree(devices, contents) && dev.data == devices[ShardOf(key, |devices|)].data - {key}
    ensures Agree(devices[ShardOf(key, |devices|) := dev], contents - {key})
  {
    hide ShardOf;
    var n, devs := |devices|, devices[ShardOf(key, |devices|) := dev];
    forall d | 0 <= d < n ensures Part(devs[d], d, n, contents - {key}) {
      assert Part(devices[d], d, n, contents);
    }
  }

  lemma AgreeSame(devices: seq<Device>, contents: map<Key, Value>, i: nat, dev: Device)
    requires Agree(devices, contents) && i < |devices| && dev.data == devices[i].data
    ensures Agree(devices[i := dev], contents)
  {
    hide ShardOf;
    var devs := devices[i := dev];
    forall d | 0 <= d < |devs| ensures Part(devs[d], d, |devs|, contents) {
      assert Part(devices[d], d, |devices|, contents);
    }
  }

  /** The device of a key decides whether the key is in the map, and its value. */
  lemma AgreeAt(devices: seq<Device>, contents: map<Key, Value>, key: Key)
    requires Agree(devices, contents)
    ensures var data := devices[ShardOf(key, |devices|)].data;
            (key in data <==> key in contents) && (key in data ==> data[key] == contents[key])
  {
    assert Part(devices[ShardOf(key, |devices|)], ShardOf(key, |devices|), |devices|, contents);
  }

  const EMPTY := Device(map[], true, 0)

  /** Devices with these data, fresh and healthy. */
  function Opened(data: seq<map<Key, Value>>): (devices: seq<Device>)
    ensures |devices| == |data| && forall d :: 0 <= d < |data| ==> devices[d] == Device(data[d], true, 0)
  {
    seq(|data|, d requires 0 <= d < |data| => Device(data[d], true, 0))
  }

  /** Everything that some device holds. */
  function Merged(data: seq<map<Key, Value>>): map<Key, Value>
  {
    if data == [] then map[] else Merged(data[..|data| - 1]) + data[|data| - 1]
  }

  lemma {:induction false} MergedAt(data: seq<map<Key, Value>>, k: Key)
    ensures k in Merged(data) <==> exists d :: 0 <= d < |data| && k in data[d]
    ensures k in Merged(data) ==> exists d :: 0 <= d < |data| && k in data[d] && Merged(data)[k] == data[d][k]
  {
    if data == [] {
    } else {
      var n := |data| - 1;
      MergedAt(data[..n], k);
      assert forall d :: 0 <= d < n ==> data[..n][d] == data[d];
      if k in Merged(data) && k !in data[n] {
        var d :| 0 <= d < n && k in data[..n][d] && Merged(data[..n])[k] == data[..n][d][k];
        assert k in data[d] && Merged(data)[k] == data[d][k];
      }
    }
  }

  /** Every key is on the device it belongs to. */
  ghost predicate Placed(data: seq<map<Key, Value>>)
  {
    forall d, k :: 0 <= d < |data| && k in data[d] ==> ShardOf(k, |data|) == d
  }

  /** What the devices hold is one map exactly if every key is on its own device. */
  lemma AgreeMerged(data: seq<map<Key, Value>>)
    requires |data| > 0
    ensures Agree(Opened(data), Merged(data)) <==> Placed(data)
  {
    hide ShardOf, Merged;
    var n, devices := |data|, Opened(data);
    if Placed(data) {
      forall d | 0 <= d < n ensures Part(devices[d], d, n, Merged(data)) {
        forall k ensures (k in data[d] <==> k in Merged(data) && ShardOf(k, n) == d)
          && (k in data[d] ==> data[d][k] == Merged(data)[k])
        {
          MergedAt(data, k);
        }
      }
    } else {
      var d, k :| 0 <= d < n && k in data[d] && ShardOf(k, n) != d;
      assert devices[d].data == data[d];
      assert !Part(devices[d], d, n, Merged(data));
    }
  }

  /**
   One more device keeps the map, with what the device already holds added to it, exactly if no stored key changes
   its device and what the new device holds is its own.
   */
  lemma AddDeviceExactly(devices: seq<Device>, contents: map<Key, Value>, dev: Device)
    requires Agree(devices, contents)
    ensures Agree(devices + [dev], contents + dev.data) <==>
              && (forall k :: k in contents ==> ShardOf(k, |devices| + 1) == ShardOf(k, |devices|))
              && (forall k :: k in dev.data ==> ShardOf(k, |devices| + 1) == |devices|)
  {
    hide ShardOf;
    var n, devs, all := |devices|, devices + [dev], contents + dev.data;
    if k :| k in contents && ShardOf(k, n + 1) != ShardOf(k, n) {
      AgreeAt(devices, contents, k);
      var d := ShardOf(k, n);
      assert devs[d] == devices[d];
      assert !Part(devs[d], d, n + 1, all);
    } else if k :| k in dev.data && ShardOf(k, n + 1) != n {
      assert devs[n] == dev;
      assert !Part(devs[n], n, n + 1, all);
    } else {
      forall d | 0 <= d < n + 1 ensures Part(devs[d], d, n + 1, all) {
        if d < n {
          assert Part(devices[d], d, n, contents);
        }
      }
    }
  }

  ghost function Divided(x: bv32): bv32 { x * 0x359C449B }

  /** The multiplier has an inverse, */
  lemma Inverse(x: bv32)
    ensures Divided(x * 16777619) == x
  {
  }

  lemma TimesDivided(x: bv32)
    ensures Divided(Times(x)) == x
  {
    hide Divided;
    Inverse(x);
  }

  /** so different factors have different products. */
  lemma TimesApart(x: bv32, y: bv32)
    requires Times(x) == Times(y)
    ensures x == y
  {
    hide Times, Divided;
    TimesDivided(x);
    TimesDivided(y);
  }

  lemma XorApart(x: bv32, y: bv32, a: bv8, b: bv8)
    requires (x ^ (a as bv32)) == (y ^ (b as bv32)) && (x == y || a == b)
    ensures x == y && a == b
  {
  }

  /** Neither another hash nor another byte gives the same round. */
  lemma MixApart(x: bv32, y: bv32, a: bv8, b: bv8)
    requires Mix(x, a) == Mix(y, b) && (x == y || a == b)
    ensures x == y && a == b
  {
    hide Times;
    TimesApart(x ^ (a as bv32), y ^ (b as bv32));
    XorApart(x, y, a, b);
  }

  /** Keys that differ in exactly one byte have different hashes. */
  lemma {:induction false} OneByteApart(key: Key, i: nat, b: bv8)
    requires i < |key| && key[i] != b
    ensures Fnv(key[i := b]) != Fnv(key)
  {
    hide Mix;
    var other, n := key[i := b], |key| - 1;
    if i == n {
      assert other[..n] == key[..n];
    } else {
      OneByteApart(key[..n], i, b);
      assert other[..n] == key[..n][i := b];
    }
    if Fnv(other) == Fnv(key) {
      MixApart(Fnv(key[..n]), Fnv(other[..n]), key[n], other[n]);
      assert false;
    }
  }

  /** Published values of the 32-bit FNV-1a hash: of nothing, of "a" and of "foobar". */
  lemma FnvPublished()
    ensures Fnv([]) == 0x811C9DC5 && Fnv([0x61]) == 0xE40C292C
    ensures Fnv([0x66, 0x6F, 0x6F, 0x62, 0x61, 0x72]) == 0xBF9CF968
  {
    var a: Key, f0: Key, f1: Key, f2: Key, f3: Key, f4: Key, f5: Key, f6: Key :=
      [0x61], [], [0x66], [0x66, 0x6F], [0x66, 0x6F, 0x6F], [0x66, 0x6F, 0x6F, 0x62], [0x66, 0x6F, 0x6F, 0x62, 0x61],
      [0x66, 0x6F, 0x6F, 0x62, 0x61, 0x72];
    assert a[..0] == f0 && f1[..0] == f0 && f2[..1] == f1 && f3[..2] == f2;
    assert f4[..3] == f3 && f5[..4] == f4 && f6[..5] == f5;
    assert Fnv(f3) == Mix(Mix(Mix(0x811C9DC5, 0x66), 0x6F), 0x6F);
    assert Fnv(f6) == Mix(Mix(Mix(Fnv(f3), 0x62), 0x61), 0x72);
  }

  /** Four zero bytes move from the only device to the second one. */
  lemma ShardMoves()
    ensures ShardOf([0, 0, 0, 0], 1) == 0 && ShardOf([0, 0, 0, 0], 2) == 1
  {
    var k0: Key, k1: Key, k2: Key, k3: Key, k4: Key := [], [0], [0, 0], [0, 0, 0], [0, 0, 0, 0];
    assert k1[..0] == k0 && k2[..1] == k1 && k3[..2] == k2 && k4[..3] == k3;
    assert Fnv(k4) == 0x4b95f515;
  }

  /** A device added after the write counter was reset hides a stored key: its new device does not have it. */
  lemma ResetHidesKey()
    ensures var key: Key := [0, 0, 0, 0];
            var devices, contents := [Device(map[key := []], true, 0)], map[key := []];
            && Agree(devices, contents) && !Agree(devices + [EMPTY], contents)
            && key !in (devices + [EMPTY])[ShardOf(key, 2)].data
  {
    ShardMoves();
    var key: Key := [0, 0, 0, 0];
    var devices, contents: map<Key, Value> := [Device(map[key := []], true, 0)], map[key := []];
    assert Agree(devices, contents) by {
      assert Part(devices[0], 0, 1, contents);
    }
    AddDeviceExactly(devices, contents, EMPTY);
    assert contents + EMPTY.data == contents && key in contents;
  }
}

/** What the answers of a device do to its health. */
module Answers {
  import opened Base
  import opened Shards
  import Health

  /** What a device call may meet; a fault leaves the device's data alone. */
  datatype Fault = NoFault | Io | Full | Gone

  datatype Kvs = KvsSuccess | KvsMissing | KvsExists | KvsFault(fault: Fault)

  /** device_record_result without other threads in between. */
  function Record(dev: Device, r: Kvs): (d: Device)
    ensures d.data == dev.data && (r.KvsFault? || d.healthy == dev.healthy)
    ensures MarkOk(dev) ==> MarkOk(d)
  {
    if r.KvsFault? then
      dev.(errs := dev.errs + 1, healthy := dev.healthy && !(r.fault.Gone? || dev.errs + 1 >= MAX_ERRORS))
    else
      dev.(errs := 0)
  }

  /** A device at the threshold is marked. */
  predicate MarkOk(dev: Device) { dev.errs >= MAX_ERRORS ==> !dev.healthy }

  /** n answers from the i-th on are faults. */
  ghost predicate Faults(rs: seq<Kvs>, i: nat, n: nat)
  {
    i + n <= |rs| && forall j :: i <= j < i + n ==> rs[j].KvsFault?
  }

  /** Exactly the last n answers are faults. */
  ghost predicate Trailing(rs: seq<Kvs>, n: nat)
  {
    n <= |rs| && Faults(rs, |rs| - n, n) && (n < |rs| ==> !rs[|rs| - n - 1].KvsFault?)
  }

  /** The device was gone once, or MAX_ERRORS faults came in a row. */
  ghost predicate Condemned(rs: seq<Kvs>)
  {
    KvsFault(Gone) in rs || exists i: nat :: Faults(rs, i, MAX_ERRORS)
  }

  /** The health of a device that gave these answers since it was opened or restored. */
  ghost predicate HealthOf(dev: Device, rs: seq<Kvs>)
  {
    Trailing(rs, dev.errs) && (!dev.healthy <==> Condemned(rs))
  }

  lemma HealthMarked(dev: Device, rs: seq<Kvs>)
    requires HealthOf(dev, rs)
    ensures MarkOk(dev)
  {
    if dev.errs >= MAX_ERRORS {
      assert Faults(rs, |rs| - MAX_ERRORS, MAX_ERRORS);
    }
  }

  /** Whatever came before: after MAX_ERRORS faults in a row, and whatever comes then, the device is marked. */
  lemma FaultsCondemn(dev: Device, before: seq<Kvs>, faults: seq<Kvs>, rest: seq<Kvs>)
    requires HealthOf(dev, before + faults + rest)
    requires |faults| >= MAX_ERRORS && forall i :: 0 <= i < |faults| ==> faults[i].KvsFault?
    ensures !dev.healthy
  {
    assert Faults(before + faults + rest, |before|, MAX_ERRORS);
  }

  lemma FreshHealth(dev: Device)
    requires dev.healthy && dev.errs == 0
    ensures HealthOf(dev, [])
  {
  }

  /** Where a run of faults can be after one more answer. */
  lemma FaultsMore(rs: seq<Kvs>, r: Kvs, n: nat, i: nat)
    requires Trailing(rs, n)
    ensures Faults(rs + [r], i, MAX_ERRORS) <==>
              Faults(rs, i, MAX_ERRORS) || (r.KvsFault? && n + 1 >= MAX_ERRORS && i + MAX_ERRORS == |rs| + 1)
  {
    var more := rs + [r];
    assert more[|rs|] == r && forall j :: 0 <= j < |rs| ==> more[j] == rs[j];
    if n < |rs| {
      assert !more[|rs| - n - 1].KvsFault?;
    }
  }

  lemma CondemnedMore(rs: seq<Kvs>, r: Kvs, n: nat)
    requires Trailing(rs, n)
    ensures Condemned(rs + [r]) <==> Condemned(rs) || (r.KvsFault? && (r.fault.Gone? || n + 1 >= MAX_ERRORS))
  {
    forall i: nat ensures Faults(rs + [r], i, MAX_ERRORS) <==>
      Faults(rs, i, MAX_ERRORS) || (r.KvsFault? && n + 1 >= MAX_ERRORS && i + MAX_ERRORS == |rs| + 1) {
      FaultsMore(rs, r, n, i);
    }
    hide Faults;
    if r.KvsFault? && n + 1 >= MAX_ERRORS {
      assert Faults(rs + [r], |rs| + 1 - MAX_ERRORS, MAX_ERRORS);
    }
    assert KvsFault(Gone) in rs + [r] <==> KvsFault(Gone) in rs || r == KvsFault(Gone);
  }

  /** Recording keeps count of them: over any sequence of answers the counter and the mark are these. */
  lemma RecordHealth(dev: Device, rs: seq<Kvs>, r: Kvs)
    requires HealthOf(dev, rs)
    ensures HealthOf(Record(dev, r), rs + [r])
  {
    CondemnedMore(rs, r, dev.errs);
    hide Condemned;
    var more := rs + [r];
    if r.KvsFault? {
      assert Trailing(more, dev.errs + 1);
    } else {
      assert Trailing(more, 0);
    }
  }

  /** It is what the steps of one recording thread do, taken without others in between. */
  lemma RecordIsSteps(dev: Device, r: Kvs, l: Health.Limits, s: Health.State, t: nat)
    requires l.maxErrors == MAX_ERRORS && s.marking == {} && s.errs == dev.errs && s.healthy == dev.healthy
    ensures var first := if r.KvsFault? then Health.Fail(t, r.fault.Gone?) else Health.Answered(t);
            var s1 := Health.Apply(s, l, first);
            var s2 := if t in s1.marking then Health.Apply(s1, l, Health.MarkDown(t)) else s1;
            && s2.errs == Record(dev, r).errs && s2.healthy == Record(dev, r).healthy
            && s2.marking == {} && s2.probe == s.probe
  {
  }
}

/** The synchronous engine over several devices. */
module Engine {
  import opened Base
  import opened Shards
  import opened Answers
  import opened UtHash

  datatype Result =
    | Success | InvalidParam | NoMemory | Degraded | NotFound | AlreadyExists
    | IoError | DeviceFull | DeviceNotFound | OpenError

  /** A call to the device: whether there was a buffer for it, and what the device met. */
  datatype Call = Call(buffer: bool, fault: Fault)

  /** Size of the buffer a retrieve starts with. */
  const RETRIEVE_SIZE: nat := 2 * 1024 * 1024

  function MapResult(r: Kvs): Result
  {
    match r
    case KvsSuccess => Success
    case KvsMissing => NotFound
    case KvsExists => AlreadyExists
    case KvsFault(Full) => DeviceFull
    case KvsFault(Gone) => DeviceNotFound
    case KvsFault(_) => IoError
  }

  ghost predicate KeyOk(key: Key) { 4 <= |key| <= 255 }

  predicate SameHealth(a: seq<Device>, b: seq<Device>)
  {
    |a| == |b| && forall d :: 0 <= d < |a| ==> a[d].healthy == b[d].healthy
  }

  ghost predicate AllHealth(devices: seq<Device>, heard: seq<seq<Kvs>>)
  {
    |heard| == |devices| && forall d :: 0 <= d < |devices| ==> HealthOf(devices[d], heard[d])
  }

  /** Whether a call on this key gets as far as the device. */
  ghost predicate Asks(key: Key, dev: Device, call: Call)
  {
    KeyOk(key) && dev.healthy && call.buffer
  }

  /** What a call on this key answers before it reaches the device's data. */
  ghost function Refusal(key: Key, dev: Device, call: Call): Option<Result>
  {
    if !KeyOk(key) then Some(InvalidParam)
    else if !dev.healthy then Some(Degraded)
    else if !call.buffer then Some(NoMemory)
    else
      match call.fault
      case NoFault => None
      case Io => Some(IoError)
      case Full => Some(DeviceFull)
      case Gone => Some(DeviceNotFound)
  }

  /** The answer of the device, when it met no fault unless told. */
  ghost function Answer(fault: Fault, otherwise: Kvs): Kvs
  {
    if fault.NoFault? then otherwise else KvsFault(fault)
  }

  /** The device of this key gave these answers as well, and no other device did. */
  ghost function Heard(was: seq<seq<Kvs>>, key: Key, rs: seq<Kvs>): seq<seq<Kvs>>
    requires |was| > 0
  {
    var d := ShardOf(key, |was|);
    if rs == [] then was else was[d := was[d] + rs]
  }

  lemma HealthOnly(a: Device, b: Device, rs: seq<Kvs>)
    requires HealthOf(a, rs) && a.healthy == b.healthy && a.errs == b.errs
    ensures HealthOf(b, rs)
  {
  }

  class KvEngine {
    const keys: KeyTable
    var devices: seq<Device>
    var writes: nat
    /** The map the devices make up together. */
    ghost var contents: map<Key, Value>
    /**
     Keys the table may not know although they are stored: they were there before the engine, their entry could not be
     allocated, or a faulty delete took it.
     */
    ghost var missed: set<Key>
    /** Per device, the answers it gave since it was opened or restored. */
    ghost var heard: seq<seq<Kvs>>

    ghost predicate Valid()
      reads this, keys.table, keys.table.buckets, keys.table.all
    {
      && keys.Valid()
      && 1 <= |devices| <= MAX_DEVICES && Agree(devices, contents)
      && |heard| == |devices| && AllHealth(devices, heard)
      && (forall k :: k in contents ==> KeyOk(k) && (k in keys.Contents() || k in missed))
    }

    /** The write counter tells an engine that was never written to. */
    ghost predicate Guarded()
      reads this
    {
      writes == 0 ==> contents == map[]
    }

    /** The device a key goes to. */
    function At(key: Key): Device
      reads this
      requires |devices| > 0
    {
      devices[ShardOf(key, |devices|)]
    }

    /**
     kv_engine_init, on devices that hold `data` from an earlier engine, or nothing: they make up a map exactly if every
     key is on the device it belongs to now.
     */
    constructor (hash: Key -> nat, data: seq<map<Key, Value>>)
      requires 1 <= |data| <= MAX_DEVICES && forall d, k :: 0 <= d < |data| && k in data[d] ==> KeyOk(k)
      ensures Valid() <==> Placed(data)
      ensures contents == Merged(data) && missed == contents.Keys && devices == Opened(data) && writes == 0
      ensures keys.Contents() == {} && (Guarded() <==> contents == map[])
      ensures keys.Valid() && fresh(keys.table) && fresh(keys.table.buckets) && fresh(keys.table.all)
      ensures |heard| == |devices| && forall d :: 0 <= d < |heard| ==> heard[d] == []
    {
      hide Agree, ShardOf, Keys, KeysOk, Holds, InOrder, NoDup, Opened, Merged, HealthOf;
      keys := new KeyTable(hash);
      devices := Opened(data);
      writes, contents, missed := 0, Merged(data), Merged(data).Keys;
      heard := seq(|data|, _ => []);
      new;
      AgreeMerged(data);
      forall d | 0 <= d < |devices| ensures HealthOf(devices[d], heard[d]) {
        FreshHealth(devices[d]);
      }
      forall k | k in contents ensures KeyOk(k) {
        MergedAt(data, k);
      }
    }

    /** Device i goes on with new data `data`, and the map with it, after a call that answered r. */
    method Settle(i: nat, data: map<Key, Value>, r: Kvs, ghost after: map<Key, Value>)
      requires 1 <= |devices| <= MAX_DEVICES && i < |devices| && AllHealth(devices, heard)
      requires Agree(devices[i := devices[i].(data := data)], after)
      modifies this`devices, this`contents, this`heard
      ensures contents == after && |devices| == |old(devices)| && Agree(devices, contents)
      ensures |heard| == |devices| && AllHealth(devices, heard) && heard == old(heard)[i := old(heard)[i] + [r]]
      ensures !r.KvsFault? ==> SameHealth(old(devices), devices)
    {
      hide Agree, ShardOf, HealthOf;
      RecordHealth(devices[i], heard[i], r);
      HealthOnly(Record(devices[i], r), Record(devices[i].(data := data), r), heard[i] + [r]);
      ghost var devs := devices[i := devices[i].(data := data)];
      AgreeSame(devs, after, i, Record(devs[i], r));
      devices := devices[i := Record(devices[i].(data := data), r)];
      assert devices == devs[i := Record(devs[i], r)];
      contents, heard := after, heard[i := heard[i] + [r]];
    }

    /** The key enters the table before the device is asked. */
    method NoteKey(key: Key, memory: bool)
      requires Valid() && KeyOk(key)
      modifies this`missed, keys.table, keys.table.buckets, keys.table.all
      ensures Valid() && (key in keys.Contents() || key in missed)
      ensures missed <= old(missed) + if memory then {} else {key}
      ensures keys.Contents() == old(keys.Contents()) + if memory then {key} else {}
      ensures fresh(keys.table.buckets) || keys.table.buckets == old(keys.table.buckets)
    {
      hide Agree, ShardOf, KeyTable.Valid, KeyTable.Contents, AllHealth, Heard;
      var found := keys.KeyInTable(key);
      if !found {
        keys.AddKey(key, memory);
        if !memory {
          missed := missed + {key};
        }
      }
    }

    /** The store call on the device of the key. */
    method PutOn(d: nat, key: Key, value: Value, overwrite: bool, fault: Fault) returns (r: Kvs)
      requires 1 <= |devices| <= MAX_DEVICES && d == ShardOf(key, |devices|) && Agree(devices, contents)
      requires |heard| == |devices| && AllHealth(devices, heard)
      modifies this`devices, this`contents, this`heard
      ensures |devices| == |old(devices)| && Agree(devices, contents)
      ensures |heard| == |devices| && AllHealth(devices, heard) && heard == Heard(old(heard), key, [r])
      ensures r == if !fault.NoFault? then KvsFault(fault)
                   else if !overwrite && key in old(contents) then KvsExists
                   else KvsSuccess
      ensures contents == if r.KvsSuccess? then old(contents)[key := value] else old(contents)
      ensures fault.NoFault? ==> SameHealth(old(devices), devices)
    {
      hide Agree, ShardOf, AllHealth;
      AgreeAt(devices, contents, key);
      var data := devices[d].data;
      if !fault.NoFault? {
        r := KvsFault(fault);
      } else if !overwrite && key in data {
        r := KvsExists;
      } else {
        r, data := KvsSuccess, data[key := value];
      }
      if r.KvsSuccess? {
        AgreeStore(devices, contents, key, value, devices[d].(data := data));
        Settle(d, data, r, contents[key := value]);
      } else {
        AgreeSame(devices, contents, d, devices[d]);
        Settle(d, data, r, contents);
      }
    }

    /** kv_engine_store: like a map, on the device of the key; `memory` is for the entry of the key table. */
    method Store(key: Key, value: Value, overwrite: bool, call: Call, memory: bool) returns (res: Result)
      requires Valid()
      modifies this, keys.table, keys.table.buckets, keys.table.all
      ensures Valid() && (old(Guarded()) ==> Guarded())
      ensures res == match Refusal(key, old(At(key)), call)
                     case Some(r) => r
                     case None => if !overwrite && key in old(contents) then AlreadyExists else Success
      ensures contents == if res.Success? then old(contents)[key := value] else old(contents)
      ensures missed <= old(missed) + if memory then {} else {key}
      ensures call.fault.NoFault? ==> SameHealth(old(devices), devices)
      ensures var asks := Asks(key, old(At(key)), call);
              && keys.Contents() == old(keys.Contents()) + (if asks && memory then {key} else {})
              && heard == if !asks then old(heard)
                          else Heard(old(heard), key, [Answer(call.fault, if !overwrite && key in old(contents)
                                                                          then KvsExists else KvsSuccess)])
    {
      hide Agree, ShardOf, KeyTable.Valid, KeyTable.Contents, AllHealth, Heard;
      if |key| < 4 || |key| > 255 { return InvalidParam; }
      var d := Shard(key, |devices|);
      if !devices[d].healthy { return Degraded; }
      if !call.buffer { return NoMemory; }
      NoteKey(key, memory);
      var r := PutOn(d, key, value, overwrite, call.fault);
      writes := writes + 1;
      res := MapResult(r);
    }

    /** Takes the key off its device when `take`, and records the answer r. */
    method TakeFrom(d: nat, key: Key, take: bool, r: Kvs)
      requires 1 <= |devices| <= MAX_DEVICES && d == ShardOf(key, |devices|) && Agree(devices, contents)
      requires |heard| == |devices| && AllHealth(devices, heard)
      modifies this`devices, this`contents, this`heard
      ensures |devices| == |old(devices)| && Agree(devices, contents)
      ensures |heard| == |devices| && AllHealth(devices, heard) && heard == Heard(old(heard), key, [r])
      ensures contents == if take then old(contents) - {key} else old(contents)
      ensures !r.KvsFault? ==> SameHealth(old(devices), devices)
    {
      hide Agree, ShardOf, AllHealth;
      if take {
        AgreeRemove(devices, contents, key, devices[d].(data := devices[d].data - {key}));
        Settle(d, devices[d].data - {key}, r, contents - {key});
      } else {
        AgreeSame(devices, contents, d, devices[d]);
        Settle(d, devices[d].data, r, contents);
      }
    }

    /** The key leaves the table. */
    method ForgetKey(key: Key, ghost faulty: bool)
      requires Valid() && (key in contents ==> faulty) && KeyOk(key)
      modifies this`missed, keys.table, keys.table.buckets, keys.table.all
      ensures Valid() && missed <= old(missed) + if faulty then {key} else {}
      ensures keys.Contents() == old(keys.Contents()) - {key}
      ensures keys.table.buckets == old(keys.table.buckets)
    {
      hide Agree, ShardOf, KeyTable.Valid, KeyTable.Contents, AllHealth, Heard;
      keys.DeleteKey(key);
      missed := if faulty then missed + {key} else missed;
    }

    /** What a retrieve of this key answers: a value that does not fit the first buffer takes a second call. */
    ghost function RetrieveVerdict(key: Key, dev: Device, stored: map<Key, Value>, first: Call, second: Call): Result
    {
      match Refusal(key, dev, first)
      case Some(r) => r
      case None =>
        if key !in stored then NotFound
        else if |stored[key]| <= RETRIEVE_SIZE then Success
        else if !second.buffer then NoMemory
        else
          match second.fault
          case NoFault => Success
          case Io => IoError
          case Full => DeviceFull
          case Gone => DeviceNotFound
    }

    /** The answer that counts for the health of the device, if there is one. */
    ghost function RetrieveAnswers(key: Key, dev: Device, stored: map<Key, Value>, first: Call, second: Call): seq<Kvs>
    {
      if !Asks(key, dev, first) then []
      else if !first.fault.NoFault? then [KvsFault(first.fault)]
      else if key !in stored then [KvsMissing]
      else if |stored[key]| <= RETRIEVE_SIZE then [KvsSuccess]
      else if !second.buffer then []
      else [Answer(second.fault, KvsSuccess)]
    }

    /** kv_engine_retrieve: the value last stored; with `take` it leaves the map. */
    method Retrieve(key: Key, take: bool, first: Call, second: Call) returns (res: Result, value: Value)
      requires Valid()
      modifies this, keys.table, keys.table.buckets, keys.table.all
      ensures Valid() && (old(Guarded()) ==> Guarded()) && missed <= old(missed)
      ensures res == RetrieveVerdict(key, old(At(key)), old(contents), first, second)
      ensures res.Success? ==> key in old(contents) && value == old(contents)[key]
      ensures contents == if res.Success? && take then old(contents) - {key} else old(contents)
      ensures first.fault.NoFault? && second.fault.NoFault? ==> SameHealth(old(devices), devices)
      ensures keys.Contents() == old(keys.Contents()) - if res.Success? && take then {key} else {}
      ensures heard == Heard(old(heard), key, RetrieveAnswers(key, old(At(key)), old(contents), first, second))
    {
      hide Agree, ShardOf, KeyTable.Valid, KeyTable.Contents, AllHealth;
      value := [];
      if |key| < 4 || |key| > 255 { return InvalidParam, value; }
      var d := Shard(key, |devices|);
      if !devices[d].healthy { return Degraded, value; }
      if !first.buffer { return NoMemory, value; }
      AgreeAt(devices, contents, key);
      var data := devices[d].data;
      var fault := first.fault;
      if fault.NoFault? && key in data && |data[key]| > RETRIEVE_SIZE {
        if !second.buffer { return NoMemory, value; }
        fault := second.fault;
      }
      var r := if !fault.NoFault? then KvsFault(fault) else if key in data then KvsSuccess else KvsMissing;
      if r.KvsSuccess? {
        value := data[key];
      }
      TakeFrom(d, key, take && r.KvsSuccess?, r);
      if take && r.KvsSuccess? {
        ForgetKey(key, false);
      }
      res := MapResult(r);
    }

    /** kv_engine_delete: also succeeds for an absent key.  A faulty delete still takes the key out of the table. */
    method Delete(key: Key, fault: Fault) returns (res: Result)
      requires Valid()
      modifies this, keys.table, keys.table.buckets, keys.table.all
      ensures Valid() && (old(Guarded()) ==> Guarded())
      ensures res == match Refusal(key, old(At(key)), Call(true, fault)) case Some(r) => r case None => Success
      ensures contents == if res.Success? then old(contents) - {key} else old(contents)
      ensures missed <= old(missed) + if fault.NoFault? then {} else {key}
      ensures fault.NoFault? ==> SameHealth(old(devices), devices)
      ensures var asks := Asks(key, old(At(key)), Call(true, fault));
              && keys.Contents() == old(keys.Contents()) - (if asks then {key} else {})
              && heard == if asks then Heard(old(heard), key, [Answer(fault, KvsSuccess)]) else old(heard)
    {
      hide Agree, ShardOf, KeyTable.Valid, KeyTable.Contents, AllHealth, Heard;
      if |key| < 4 || |key| > 255 { return InvalidParam; }
      var d := Shard(key, |devices|);
      if !devices[d].healthy { return Degraded; }
      var r := if !fault.NoFault? then KvsFault(fault) else KvsSuccess;
      TakeFrom(d, key, r.KvsSuccess?, r);
      ForgetKey(key, !fault.NoFault?);
      res := MapResult(r);
    }

    /** kv_engine_exists: asks both the table and the device, so it misses a stored key exactly if the table does. */
    method Exists(key: Key, fault: Fault) returns (res: Result, found: bool)
      requires Valid()
      modifies this`devices, this`contents, this`heard
      ensures Valid() && contents == old(contents)
      ensures res == match Refusal(key, old(At(key)), Call(true, fault)) case Some(r) => r case None => Success
      ensures res.Success? ==> (found <==> key in contents && key in keys.Contents())
      ensures fault.NoFault? ==> SameHealth(old(devices), devices)
      ensures heard == if Asks(key, old(At(key)), Call(true, fault))
                       then Heard(old(heard), key, [Answer(fault, KvsSuccess)]) else old(heard)
    {
      hide Agree, ShardOf, KeyTable.Valid, KeyTable.Contents, AllHealth, Heard;
      found := false;
      if |key| < 4 || |key| > 255 { return InvalidParam, found; }
      var d := Shard(key, |devices|);
      if !devices[d].healthy { return Degraded, found; }
      var known := keys.KeyInTable(key);
      AgreeAt(devices, contents, key);
      var r := if fault.NoFault? then KvsSuccess else KvsFault(fault);
      found := key in devices[d].data && known;
      TakeFrom(d, key, false, r);
      res := MapResult(r);
    }

    /** The probe brings a device back: as far as health goes, it starts again. */
    method Restore(d: nat)
      requires Valid() && d < |devices|
      modifies this`devices, this`heard
      ensures Valid() && devices == old(devices)[d := old(devices)[d].(healthy := true, errs := 0)]
      ensures heard == old(heard)[d := []]
    {
      hide Agree, ShardOf, KeyTable.Valid, KeyTable.Contents, HealthOf;
      AgreeSame(devices, contents, d, devices[d].(healthy := true, errs := 0));
      devices := devices[d := devices[d].(healthy := true, errs := 0)];
      heard := heard[d := []];
      FreshHealth(devices[d]);
    }

    /**
     kv_engine_add_device: a new device, holding `data` or nothing, refused once a write is counted.  The devices still
     make up a map exactly if every stored key keeps its device and the new data is on its own; for an empty device
     the guard sees to that.
     */
    method AddDevice(opens: bool, data: map<Key, Value>) returns (res: Result)
      requires Valid() && forall k :: k in data ==> KeyOk(k)
      modifies this`devices, this`contents, this`missed, this`heard
      ensures heard == if res.Success? then old(heard) + [[]] else old(heard)
      ensures res == if |old(devices)| == MAX_DEVICES || writes > 0 then InvalidParam
                     else if opens then Success
                     else OpenError
      ensures devices == if res.Success? then old(devices) + [Device(data, true, 0)] else old(devices)
      ensures contents == if res.Success? then old(contents) + data else old(contents)
      ensures Valid() <==>
                (res.Success? ==>
                   && (forall k :: k in old(contents) ==> ShardOf(k, |old(devices)| + 1) == ShardOf(k, |old(devices)|))
                   && (forall k :: k in data ==> ShardOf(k, |old(devices)| + 1) == |old(devices)|))
      ensures old(Guarded()) && data == map[] ==> Valid() && Guarded()
    {
      hide Agree, ShardOf, KeyTable.Valid, KeyTable.Contents, HealthOf;
      if |devices| >= MAX_DEVICES { return InvalidParam; }
      if writes > 0 { return InvalidParam; }
      if !opens { return OpenError; }
      AddDeviceExactly(devices, contents, Device(data, true, 0));
      devices := devices + [Device(data, true, 0)];
      contents, missed, heard := contents + data, missed + data.Keys, heard + [[]];
      FreshHealth(Device(data, true, 0));
      res := Success;
    }

    /** kv_engine_reset_stats: forgets the writes, so the guard of AddDevice holds on only if nothing is stored. */
    method ResetStats()
      requires Valid()
      modifies this`writes
      ensures Valid() && writes == 0 && (Guarded() <==> contents == map[])
    {
      writes := 0;
    }
  }
}
