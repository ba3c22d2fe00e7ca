/**
 Bandwidth of one channel as a ring of credits.  Time is cut into slots of 4 us; the ring holds what
 is left of each slot in a window that starts at the current one.  It is proved to agree with a map
 from absolute slots to what is left of them.
 */
module ChannelModel {
  import opened Arith

  const NR_CREDIT_ENTRIES := 98304
  const UNIT_TIME_INTERVAL := 4000
  const UNIT_XFER_SIZE := 128
  const U32 := 0x1_0000_0000
  const CREDIT_MAX := 255

  function Min(a: nat, b: nat): nat { if a <= b then a else b }
  function SlotOf(t: nat): nat { t / UNIT_TIME_INTERVAL }

  /** A slot is the time from its number of intervals on, up to the next one. */
  lemma SlotTimes(t: nat, s: nat)
    ensures SlotOf(t) == s <==> UNIT_TIME_INTERVAL * s <= t < UNIT_TIME_INTERVAL * (s + 1)
  {
  }

  /* ---------- the window as a value ---------- */

  /** The window: entry k is what is left of slot `now + k`. */
  type Window = seq<nat>
  /** Absolute slot to what is left of it; a slot never charged has all of it. */
  type SlotMap = map<nat, nat>

  function Left(left: SlotMap, full: nat, s: nat): nat {
    if s in left then left[s] else full
  }

  /** The ring agrees with the slot map, and nothing at or past `valid` has been charged. */
  ghost predicate Agrees(w: Window, valid: nat, now: nat, left: SlotMap, full: nat)
  {
    && |w| == NR_CREDIT_ENTRIES && valid <= |w|
    && (forall k :: 0 <= k < |w| ==> w[k] == Left(left, full, now + k))
    && (forall k :: valid <= k < |w| ==> w[k] == full)
    && (forall s :: s >= now + |w| ==> Left(left, full, s) == full)
    && (forall s :: 0 <= s ==> Left(left, full, s) <= full)
  }

  /** The shift that the code makes for a clock gap: 32 bits wide, and at most `valid`. */
  function ClockShift(gap: nat, valid: nat): nat { Min(gap % U32, valid) }

  function Shifted(w: Window, n: nat, full: nat): (r: Window)
    requires n <= |w|
    ensures |r| == |w|
  {
    w[n..] + seq(n, _ => full)
  }

  /** Charges left over in the entries that a 32-bit gap fails to drop. */
  ghost predicate NothingLeftBehind(w: Window, valid: nat, gap: nat, full: nat)
  {
    gap < U32 || forall k :: gap % U32 <= k < valid && k < |w| ==> w[k] == full
  }

  /** Moving the window on keeps it in agreement exactly when no charge is left behind. */
  lemma ClockExact(w: Window, valid: nat, now: nat, left: SlotMap, full: nat, gap: nat)
    requires Agrees(w, valid, now, left, full)
    ensures var n := ClockShift(gap, valid);
            Agrees(Shifted(w, n, full), valid - n, now + gap, left, full) <==> NothingLeftBehind(w, valid, gap, full)
  {
    var n := ClockShift(gap, valid);
    var r := Shifted(w, n, full);
    if NothingLeftBehind(w, valid, gap, full) {
      forall k | 0 <= k < |r|
        ensures r[k] == Left(left, full, now + gap + k)
      {
        if gap < U32 && gap <= valid {
          assert k + n < |w| ==> r[k] == w[k + n];
        } else {
          assert k + n < |w| ==> r[k] == w[k + n] == full;
          if gap + k < |w| { assert w[gap + k] == full; }
        }
      }
    } else {
      assert gap >= U32 > |w|;
      var k :| gap % U32 <= k < valid && k < |w| && w[k] != full;
      assert r[k - n] == w[k];
      assert Left(left, full, now + gap + (k - n)) == full;
    }
  }

  /** A silence of exactly 2^32 slots is enough: a charge made before it is still there after it. */
  lemma StaleCharge() returns (w: Window, left: SlotMap)
    ensures Agrees(w, 1, 0, left, 1) && ClockShift(U32, 1) == 0
    ensures !Agrees(Shifted(w, 0, 1), 1, U32, left, 1)
  {
    w, left := [0] + seq(NR_CREDIT_ENTRIES - 1, _ => 1), map[0 := 0];
    assert w[0] != 1;
    ClockExact(w, 1, 0, left, 1, U32);
  }

  /* ---------- charging a request ---------- */

  datatype Charge = Charge(w: Window, rem: nat, last: nat)

  /** Takes credits slot by slot from index i on, until they suffice or the window ends. */
  function Greedy(w: Window, i: nat, rem: nat): (r: Charge)
    requires i < |w|
    ensures |r.w| == |w| && i <= r.last < |w| && r.rem <= rem
    decreases |w| - i
  {
    var c := Min(rem, w[i]);
    var w1 := w[i := w[i] - c];
    if rem - c == 0 || i + 1 == |w| then Charge(w1, rem - c, i) else Greedy(w1, i + 1, rem - c)
  }

  function Total(w: Window): nat {
    if w == [] then 0 else Total(w[..|w| - 1]) + w[|w| - 1]
  }

  lemma {:induction false} TotalUpdate(w: Window, i: nat, x: nat)
    requires i < |w|
    ensures Total(w[i := x]) == Total(w) - w[i] + x
  {
    var k := |w| - 1;
    if i == k {
      assert w[i := x][..k] == w[..k];
    } else {
      assert w[i := x][..k] == w[..k][i := x];
      TotalUpdate(w[..k], i, x);
    }
  }

  lemma {:induction false} TotalFront(w: Window)
    requires w != []
    ensures Total(w) == w[0] + Total(w[1..])
  {
    var k := |w| - 1;
    if k == 0 {
    } else {
      TotalFront(w[..k]);
      assert w[..k][1..] == w[1..][..k - 1];
    }
  }

  lemma {:induction false} TotalSame(w: Window, x: nat)
    requires forall k :: 0 <= k < |w| ==> w[k] == x
    ensures Total(w) == |w| * x
  {
    if w == [] {
    } else {
      TotalSame(w[..|w| - 1], x);
      Dist(|w| - 1, 1, x);
    }
  }

  /** No slot is overcharged, and slots are used up in order from i on. */
  lemma {:induction false} GreedyPointwise(w: Window, i: nat, rem: nat)
    requires i < |w|
    ensures var r := Greedy(w, i, rem);
            && (forall k :: 0 <= k < |w| ==> r.w[k] <= w[k])
            && (forall k :: 0 <= k < |w| && (k < i || k > r.last) ==> r.w[k] == w[k])
            && (forall k :: i <= k < r.last ==> r.w[k] == 0)
    decreases |w| - i
  {
    var c := Min(rem, w[i]);
    if rem - c == 0 || i + 1 == |w| {
    } else {
      var w1 := w[i := w[i] - c];
      GreedyPointwise(w1, i + 1, rem - c);
      var r := Greedy(w1, i + 1, rem - c);
      assert r.w[i] == w1[i] == 0;
      assert r == Greedy(w, i, rem);
    }
  }

  /**
   Exactly the granted credits leave the window, and credits are refused only when everything from i
   to the end of the window is used up.
   */
  lemma {:induction false} GreedyConserves(w: Window, i: nat, rem: nat)
    requires i < |w|
    ensures var r := Greedy(w, i, rem);
            && Total(w) - Total(r.w) == rem - r.rem
            && (r.rem > 0 ==> r.last == |w| - 1 && r.w[r.last] == 0)
    decreases |w| - i
  {
    hide Total;
    var c := Min(rem, w[i]);
    TotalUpdate(w, i, w[i] - c);
    if rem - c == 0 || i + 1 == |w| {
    } else {
      GreedyConserves(w[i := w[i] - c], i + 1, rem - c);
    }
  }

  /**
   The last slot used is the first up to which there are enough credits, or the end of the window if there are never
   enough.
   */
  lemma {:induction false} GreedyLast(w: Window, i: nat, rem: nat)
    requires i < |w|
    ensures var r := Greedy(w, i, rem);
            && (r.rem == 0 <==> Total(w[i..]) >= rem)
            && (r.rem == 0 ==> Total(w[i..r.last + 1]) >= rem)
            && (r.last > i ==> Total(w[i..r.last]) < rem)
    decreases |w| - i
  {
    hide Total;
    var c := Min(rem, w[i]);
    var w1, r := w[i := w[i] - c], Greedy(w, i, rem);
    TotalFront(w[i..]);
    TotalFront(w[i..r.last + 1]);
    assert w[i..][1..] == w[i + 1..] && w[i..r.last + 1][1..] == w[i + 1..r.last + 1];
    if rem - c == 0 || i + 1 == |w| {
      NoTotal();
      assert w[i + 1..i + 1] == [];
      if i + 1 == |w| { assert w[i + 1..] == []; }
    } else {
      GreedyLast(w1, i + 1, rem - c);
      assert w1[i + 1..] == w[i + 1..] && w1[i + 1..r.last + 1] == w[i + 1..r.last + 1];
      TotalFront(w[i..r.last]);
      assert w[i..r.last][1..] == w[i + 1..r.last] == w1[i + 1..r.last];
      if r.last == i + 1 {
        NoTotal();
        assert w[i + 1..r.last] == [];
      }
    }
  }

  lemma NoTotal()
    ensures Total([]) == 0
  {
  }

  /** With untouched slots from i on, that is no more slots than the credits fill. */
  lemma GreedyIdle(w: Window, i: nat, rem: nat, full: nat)
    requires i < |w| && full > 0 && forall k :: i <= k < |w| ==> w[k] == full
    ensures Greedy(w, i, rem).last - i <= Div(rem, full)
  {
    hide Total;
    var d := Greedy(w, i, rem).last - i;
    GreedyLast(w, i, rem);
    TotalSame(w[i..i + d], full);
    hide Greedy;
    JoinPair(rem, full);
    if d > Div(rem, full) {
      MulLe(Div(rem, full) + 1, d, full);
      Dist(Div(rem, full), 1, full);
    }
  }

  /** The same on the unbounded map: takes credits from slot s on, over at most n slots. */
  function Spend(left: SlotMap, full: nat, s: nat, rem: nat, n: nat): SlotMap
    decreases n
  {
    if n == 0 then left
    else
      var c := Min(rem, Left(left, full, s));
      var less := left[s := Left(left, full, s) - c];
      if rem == c then less else Spend(less, full, s + 1, rem - c, n - 1)
  }

  lemma SpendStep(left: SlotMap, full: nat, s: nat, rem: nat, n: nat)
    requires n > 0
    ensures var c := Min(rem, Left(left, full, s));
            var less := left[s := Left(left, full, s) - c];
            Spend(left, full, s, rem, n) ==
            if rem == c || n == 1 then less else Spend(less, full, s + 1, rem - c, n - 1)
  {
  }

  /**
   A window that shows the map from slot `now` on still shows it after both were charged; other slots are
   untouched.
   */
  lemma {:induction false} SpendShown(w: Window, now: nat, left: SlotMap, full: nat, i: nat, rem: nat, s: nat)
    requires i < |w| && forall k :: 0 <= k < |w| ==> w[k] == Left(left, full, now + k)
    ensures Left(Spend(left, full, now + i, rem, |w| - i), full, s) ==
            if now <= s < now + |w| then Greedy(w, i, rem).w[s - now] else Left(left, full, s)
    decreases |w| - i
  {
    hide Spend;
    var c := Min(rem, w[i]);
    var w1, left1 := w[i := w[i] - c], left[now + i := w[i] - c];
    SpendStep(left, full, now + i, rem, |w| - i);
    assert forall k :: 0 <= k < |w| ==> w1[k] == Left(left1, full, now + k);
    if rem - c == 0 || i + 1 == |w| {
    } else {
      SpendShown(w1, now, left1, full, i + 1, rem - c, s);
    }
  }

  /** The slot map after the window changed. */
  function Recorded(left: SlotMap, now: nat, w: Window): SlotMap {
    left + map s | now <= s < now + |w| :: Entry(w, now, s)
  }

  function Entry(w: Window, now: nat, s: nat): nat
    requires now <= s < now + |w|
  {
    w[s - now]
  }

  lemma RecordedLeft(left: SlotMap, now: nat, w: Window, full: nat, s: nat)
    ensures Left(Recorded(left, now, w), full, s) ==
            if now <= s < now + |w| then w[s - now] else Left(left, full, s)
  {
    if now <= s < now + |w| { assert Recorded(left, now, w)[s] == Entry(w, now, s); }
  }

  /** What the ring shows after a charge is what the unbounded map has. */
  lemma SpendRecorded(w: Window, valid: nat, now: nat, left: SlotMap, full: nat, i: nat, rem: nat)
    requires Agrees(w, valid, now, left, full) && i < |w|
    ensures forall s :: Left(Recorded(left, now, Greedy(w, i, rem).w), full, s) ==
                        Left(Spend(left, full, now + i, rem, |w| - i), full, s)
  {
    forall s: nat
      ensures Left(Recorded(left, now, Greedy(w, i, rem).w), full, s) ==
              Left(Spend(left, full, now + i, rem, |w| - i), full, s)
    {
      RecordedLeft(left, now, Greedy(w, i, rem).w, full, s);
      SpendShown(w, now, left, full, i, rem, s);
    }
  }

  function NewValid(valid: nat, last: nat): nat { if last + 1 > valid then last + 1 else valid }

  /** Charging in the ring is charging in the slot map. */
  lemma ChargeAgrees(w: Window, valid: nat, now: nat, left: SlotMap, full: nat, i: nat, rem: nat)
    requires Agrees(w, valid, now, left, full) && i < |w|
    ensures var r := Greedy(w, i, rem);
            Agrees(r.w, NewValid(valid, r.last), now, Recorded(left, now, r.w), full)
  {
    GreedyPointwise(w, i, rem);
    var r := Greedy(w, i, rem);
    hide Greedy, Recorded, Left;
    RecordAgrees(w, valid, now, left, full, r.w, NewValid(valid, r.last));
  }

  lemma RecordAgrees(w: Window, valid: nat, now: nat, left: SlotMap, full: nat, w': Window, valid': nat)
    requires Agrees(w, valid, now, left, full)
    requires |w'| == |w| && valid' <= |w'| && forall k :: 0 <= k < |w| ==> w'[k] <= w[k]
    requires forall k :: valid' <= k < |w| ==> w'[k] == full
    ensures Agrees(w', valid', now, Recorded(left, now, w'), full)
  {
    hide Recorded, Left;
    var left' := Recorded(left, now, w');
    forall s: nat
      ensures Left(left', full, s) == if now <= s < now + |w'| then w'[s - now] else Left(left, full, s)
    {
      RecordedLeft(left, now, w', full, s);
    }
    assert forall k :: 0 <= k < |w| ==> w[k] <= full;
  }

  /* ---------- bandwidth to credits ---------- */

  function MaxCredits(mbPerSec: nat): nat {
    mbPerSec * 0x10_0000 * UNIT_TIME_INTERVAL / 1_000_000_000 / UNIT_XFER_SIZE
  }

  function TxTime(mbPerSec: nat): nat
    requires mbPerSec > 0
  {
    Div(UNIT_XFER_SIZE * 1_000_000_000, mbPerSec * 0x10_0000)
  }

  /** c is how many whole units a bandwidth in MB/s moves in one slot. */
  predicate CreditsOf(mbPerSec: nat, c: nat)
  {
    c * (UNIT_XFER_SIZE * 1_000_000_000) <= mbPerSec * 0x10_0000 * UNIT_TIME_INTERVAL <
    (c + 1) * (UNIT_XFER_SIZE * 1_000_000_000)
  }

  /** t is how many whole nanoseconds it takes to move one unit. */
  predicate TimeOf(mbPerSec: nat, t: nat)
  {
    t * (mbPerSec * 0x10_0000) <= UNIT_XFER_SIZE * 1_000_000_000 < (t + 1) * (mbPerSec * 0x10_0000)
  }

  lemma RatesExactly(mbPerSec: nat)
    requires mbPerSec > 0
    ensures CreditsOf(mbPerSec, MaxCredits(mbPerSec)) && TimeOf(mbPerSec, TxTime(mbPerSec))
  {
    var b := mbPerSec * 0x10_0000;
    JoinPair(UNIT_XFER_SIZE * 1_000_000_000, b);
    Dist(TxTime(mbPerSec), 1, b);
  }

  /** In MB/s. */
  predicate UsableBandwidth(mbPerSec: nat) { 31 <= mbPerSec <= 7812 }

  /** One byte per slot holds the credits, and there is at least one, exactly for these bandwidths. */
  lemma CreditsFit(mbPerSec: nat)
    ensures 0 < MaxCredits(mbPerSec) <= CREDIT_MAX <==> UsableBandwidth(mbPerSec)
  {
  }

  /* ---------- the ring in memory ---------- */

  function At(head: nat, k: nat): nat { (head + k) % NR_CREDIT_ENTRIES }

  ghost function WindowOf(a: seq<nat>, head: nat): (w: Window)
    requires |a| == NR_CREDIT_ENTRIES
    ensures |w| == |a|
  {
    seq(|a|, k requires 0 <= k => a[At(head, k)])
  }

  lemma WindowUpdate(a: seq<nat>, head: nat, k: nat, x: nat)
    requires |a| == NR_CREDIT_ENTRIES && head < |a| && k < |a|
    ensures WindowOf(a[At(head, k) := x], head) == WindowOf(a, head)[k := x]
  {
  }

  /** Entries that the two memsets of the clock step reset. */
  predicate Dropped(head: nat, n: nat, j: nat) {
    head <= j < head + n || j + NR_CREDIT_ENTRIES < head + n
  }

  lemma WindowShift(a: seq<nat>, b: seq<nat>, head: nat, n: nat, full: nat)
    requires |a| == |b| == NR_CREDIT_ENTRIES && head < |a| && n <= |a|
    requires forall j :: 0 <= j < |a| ==> b[j] == if Dropped(head, n, j) then full else a[j]
    ensures WindowOf(b, At(head, n)) == Shifted(WindowOf(a, head), n, full)
  {
    var r := Shifted(WindowOf(a, head), n, full);
    forall k | 0 <= k < |a|
      ensures b[At(At(head, n), k)] == r[k]
    {
      if k + n < |a| {
        assert At(At(head, n), k) == At(head, k + n);
      }
    }
  }

  function Units(length: nat): nat { (length + UNIT_XFER_SIZE - 1) / UNIT_XFER_SIZE % U32 }

  /** So many bytes take n units, the last one perhaps not full. */
  predicate InUnits(length: nat, n: nat)
  {
    UNIT_XFER_SIZE * (n - 1) < length <= UNIT_XFER_SIZE * n
  }

  /** The code counts them right exactly while the number fits 32 bits. */
  lemma UnitsExactly(length: nat)
    ensures InUnits(length, Units(length)) <==> length <= UNIT_XFER_SIZE * (U32 - 1)
    ensures forall n: nat :: n < U32 && InUnits(length, n) ==> n == Units(length)
  {
  }

  /** Extra slots beyond what the request needs on an idle channel. */
  function ExtraDelay(delay: nat, usual: nat): nat { if delay > usual then delay - usual else 0 }

  /** Whether a request is charged at all: not for the past, and not beyond the ring. */
  predicate Admitted(now: nat, requestTime: nat) {
    requestTime >= now && (SlotOf(requestTime) - SlotOf(now)) % U32 < NR_CREDIT_ENTRIES
  }

  function Offset(now: nat, requestTime: nat): nat { (SlotOf(requestTime) - SlotOf(now)) % U32 }

  /** The slot charged first is the one asked for exactly if the request is less than 2^32 slots away. */
  lemma OwnSlot(now: nat, requestTime: nat)
    requires requestTime >= now
    ensures SlotOf(now) + Offset(now, requestTime) == SlotOf(requestTime) <==> SlotOf(requestTime) - SlotOf(now) < U32
  {
  }

  /** What a request does to the window at the current time. */
  function Charged(w: Window, now: nat, requestTime: nat, length: nat): Charge
    requires |w| == NR_CREDIT_ENTRIES && Admitted(now, requestTime)
  {
    Greedy(w, Offset(now, requestTime), Units(length))
  }

  /** How long so many units take on an idle channel, in 32 bits. */
  function XferTime(xferLat: nat, n: nat): nat { xferLat * n % U32 }

  /** When it is done. */
  function DoneAt(c: Charge, now: nat, requestTime: nat, length: nat, full: nat, xferLat: nat): nat
    requires full > 0
  {
    var delay := if c.last >= Offset(now, requestTime) then c.last - Offset(now, requestTime) else 0;
    requestTime + XferTime(xferLat, Units(length))
    + ExtraDelay(delay, Div(Units(length), full)) * UNIT_TIME_INTERVAL
  }

  /** What a transfer of n units takes in credits. */
  lemma ChargedExactly(w: Window, now: nat, requestTime: nat, length: nat, n: nat)
    requires |w| == NR_CREDIT_ENTRIES && Admitted(now, requestTime) && n < U32 && InUnits(length, n)
    ensures var c, offs := Charged(w, now, requestTime, length), Offset(now, requestTime);
            && c == Greedy(w, offs, n)
            && (Total(w[offs..]) >= n ==> Total(w) - Total(c.w) == n)
  {
    UnitsExactly(length);
    hide Total, Greedy, Units, InUnits, SlotOf;
    var offs := Offset(now, requestTime);
    GreedyConserves(w, offs, n);
    GreedyLast(w, offs, n);
  }

  lemma XferTimeExactly(xferLat: nat, n: nat)
    ensures xferLat * n < U32 ==> XferTime(xferLat, n) == xferLat * n
  {
  }

  /** And in time: never less than on an idle channel, and no more on an idle channel. */
  lemma DoneExactly(w: Window, now: nat, requestTime: nat, length: nat, full: nat, xferLat: nat, n: nat)
    requires |w| == NR_CREDIT_ENTRIES && Admitted(now, requestTime) && full > 0 && n < U32 && InUnits(length, n)
    ensures var c, offs := Charged(w, now, requestTime, length), Offset(now, requestTime);
            var done, usual := DoneAt(c, now, requestTime, length, full, xferLat), Div(n, full);
            && done == requestTime + XferTime(xferLat, n)
                       + UNIT_TIME_INTERVAL * (if c.last - offs > usual then c.last - offs - usual else 0)
            && done >= requestTime + XferTime(xferLat, n)
            && ((forall k :: offs <= k < |w| ==> w[k] == full) ==> done == requestTime + XferTime(xferLat, n))
  {
    UnitsExactly(length);
    ChargedExactly(w, now, requestTime, length, n);
    hide Total, Greedy, Units, InUnits, Div, SlotOf, XferTime, Charged;
    var offs := Offset(now, requestTime);
    if forall k :: offs <= k < |w| ==> w[k] == full {
      GreedyIdle(w, offs, n, full);
    }
  }

  /** The window after the clock moved by gap slots. */
  function AfterClock(w: Window, valid: nat, gap: nat, full: nat): (r: Window)
    requires valid <= |w|
    ensures |r| == |w|
  {
    Shifted(w, ClockShift(gap, valid), full)
  }

  /**
   A transfer of n units that may start at entry offs turned ring w into r: it took n credits if there were so many from
   that entry on, and was done no earlier than n units take, and no later on an idle channel.
   */
  ghost predicate InUnitsDone(w: Window, r: Window, offs: nat, n: nat, full: nat, xferLat: nat, start: nat, done: nat)
  {
    && offs < |w| && r == Greedy(w, offs, n).w
    && (Total(w[offs..]) >= n ==> Total(w) - Total(r) == n)
    && (xferLat * n < U32 ==> done >= start + xferLat * n)
    && (xferLat * n < U32 && (forall k :: offs <= k < |w| ==> w[k] == full) ==> done == start + xferLat * n)
  }

  /** The same for a transfer of so many bytes. */
  ghost predicate InBytes(w: Window, r: Window, offs: nat, length: nat, full: nat, xferLat: nat, start: nat, done: nat)
  {
    forall n: nat :: n < U32 && InUnits(length, n) ==> InUnitsDone(w, r, offs, n, full, xferLat, start, done)
  }

  lemma NothingCharged(a: seq<nat>, full: nat)
    requires |a| == NR_CREDIT_ENTRIES && forall i :: 0 <= i < |a| ==> a[i] == full
    ensures Agrees(WindowOf(a, 0), 0, 0, map[], full)
  {
  }

  /** A transfer asked for at clock reading `at`: it may start at `start` and is done at `done`. */
  datatype Transfer = Transfer(at: nat, start: nat, bytes: nat, done: nat)

  class Channel {
    const avail: array<nat>
    const maxCredits: nat
    const xferLat: nat
    var head: nat
    var validLen: nat
    var curTime: nat
    /** What is left of every slot charged so far. */
    ghost var left: SlotMap
    /** Every transfer so far. */
    ghost var served: seq<Transfer>

    ghost predicate Shape()
      reads this
    {
      avail.Length == NR_CREDIT_ENTRIES && head < NR_CREDIT_ENTRIES && validLen <= NR_CREDIT_ENTRIES
      && 0 < maxCredits <= CREDIT_MAX
    }

    ghost function Ring(): Window
      reads this, avail
      requires Shape()
    {
      WindowOf(avail[..], head)
    }

    ghost predicate Valid()
      reads this, avail
    {
      Shape() && Agrees(Ring(), validLen, SlotOf(curTime), left, maxCredits)
    }

    /** A ring without charges; its entries are bytes, so it is usable exactly for some bandwidths. */
    constructor (bandwidth: nat, firmwareLat: nat)
      requires bandwidth > 0
      ensures (Shape() <==> UsableBandwidth(bandwidth)) && (Valid() <==> UsableBandwidth(bandwidth))
      ensures curTime == 0 && left == map[] && served == [] && fresh(avail)
      ensures CreditsOf(bandwidth, maxCredits) && xferLat >= firmwareLat && TimeOf(bandwidth, xferLat - firmwareLat)
    {
      RatesExactly(bandwidth);
      hide MaxCredits, TxTime, UsableBandwidth, WindowOf, Agrees;
      CreditsFit(bandwidth);
      var full := MaxCredits(bandwidth);
      head, validLen, curTime, left, served := 0, 0, 0, map[], [];
      maxCredits, xferLat := full, TxTime(bandwidth) + firmwareLat;
      avail := new nat[NR_CREDIT_ENTRIES](_ => full % (CREDIT_MAX + 1));
      new;
      if full <= CREDIT_MAX {
        NothingCharged(avail[..], full);
      }
    }

    method Reset(from: nat, n: nat)
      requires from + n <= avail.Length
      modifies avail
      ensures forall j :: 0 <= j < avail.Length ==>
                avail[j] == if from <= j < from + n then maxCredits else old(avail[j])
    {
      for i := from to from + n
        invariant forall j :: 0 <= j < avail.Length ==> avail[j] == if from <= j < i then maxCredits else old(avail[j])
      {
        avail[i] := maxCredits;
      }
    }

    /** The clock may move to `now` without a charge being left behind in the window. */
    ghost predicate SafeGap(now: nat)
      reads this, avail
      requires Shape() && now >= curTime
    {
      NothingLeftBehind(Ring(), validLen, SlotOf(now) - SlotOf(curTime), maxCredits)
    }

    /** Moves the window to the current slot. */
    method AdvanceClock(now: nat)
      requires Shape() && now >= curTime
      modifies this`head, this`validLen, this`curTime, avail
      ensures Shape() && curTime == now
      ensures old(Valid()) ==> (Valid() <==> old(SafeGap(now)))
      ensures Ring() == old(AfterClock(Ring(), validLen, SlotOf(now) - SlotOf(curTime), maxCredits))
    {
      hide Agrees, Shifted, WindowOf, NothingLeftBehind;
      if Valid() {
        ClockExact(Ring(), validLen, SlotOf(curTime), left, maxCredits, SlotOf(now) - SlotOf(curTime));
      }
      var n := (SlotOf(now) - SlotOf(curTime)) % U32;
      n := if n < validLen then n else validLen;
      Drop(n);
      head := (head + n) % NR_CREDIT_ENTRIES;
      curTime := now;
      validLen := validLen - n;
    }

    /** Refills the first n entries of the window. */
    method Drop(n: nat)
      requires Shape() && n <= NR_CREDIT_ENTRIES
      modifies avail
      ensures WindowOf(avail[..], At(head, n)) == Shifted(old(Ring()), n, maxCredits)
    {
      hide WindowOf, Shifted;
      if head + n >= NR_CREDIT_ENTRIES {
        Reset(head, NR_CREDIT_ENTRIES - head);
        Reset(0, n - (NR_CREDIT_ENTRIES - head));
      } else {
        Reset(head, n);
      }
      WindowShift(old(avail[..]), avail[..], head, n, maxCredits);
    }

    /** Takes rem credits from window index i on, as Greedy does. */
    method Consume(i0: nat, rem0: nat) returns (last: nat)
      requires Shape() && i0 < NR_CREDIT_ENTRIES
      modifies avail
      ensures Ring() == Greedy(old(Ring()), i0, rem0).w && last == Greedy(old(Ring()), i0, rem0).last
    {
      hide WindowOf;
      ghost var w0 := Ring();
      var i, rem := i0, rem0;
      var pos := (head + i) % NR_CREDIT_ENTRIES;
      while true
        invariant i0 <= i < NR_CREDIT_ENTRIES && pos == At(head, i)
        invariant Greedy(w0, i0, rem0) == Greedy(Ring(), i, rem)
        decreases NR_CREDIT_ENTRIES - i
      {
        RingAt(avail[..], head, i);
        var consumed := if rem <= avail[pos] then rem else avail[pos];
        WindowUpdate(avail[..], head, i, avail[pos] - consumed);
        ghost var a := avail[..];
        avail[pos] := avail[pos] - consumed;
        assert avail[..] == a[pos := a[pos] - consumed];
        rem := rem - consumed;
        if rem == 0 { return i; }
        var next := (pos + 1) % NR_CREDIT_ENTRIES;
        if next == head { return i; }
        pos := next;
        i := i + 1;
      }
    }

    /** Charges the slots that a transfer uses, and tells when it is done. */
    method Reserve(now: nat, requestTime: nat, length: nat) returns (done: nat)
      requires Shape() && now >= curTime
      modifies this`head, this`validLen, this`curTime, this`left, avail
      ensures Shape() && curTime == now && done >= requestTime
      ensures old(Valid() && SafeGap(now)) ==> Valid()
      ensures Admitted(now, requestTime) && old(Valid() && SafeGap(now)) ==>
                var offs := Offset(now, requestTime);
                forall s :: Left(left, maxCredits, s) ==
                  Left(Spend(old(left), maxCredits, SlotOf(now) + offs, Units(length), NR_CREDIT_ENTRIES - offs),
                       maxCredits, s)
      ensures !Admitted(now, requestTime) ==> left == old(left) && done == requestTime
      ensures Admitted(now, requestTime) ==>
                var c := Charged(old(AfterClock(Ring(), validLen, SlotOf(now) - SlotOf(curTime), maxCredits)),
                                 now, requestTime, length);
                && Ring() == c.w && left == Recorded(old(left), SlotOf(now), c.w)
                && done == DoneAt(c, now, requestTime, length, maxCredits, xferLat)
    {
      hide Agrees, WindowOf, AfterClock, Greedy, Recorded, Units, Spend, Left, SlotOf;
      AdvanceClock(now);
      if requestTime < now { return requestTime; }
      var offs := (SlotOf(requestTime) - SlotOf(now)) % U32;
      if offs >= NR_CREDIT_ENTRIES { return requestTime; }
      var rem := Units(length);
      var usual := Div(rem, maxCredits);
      ghost var w := Ring();
      if Valid() {
        ChargeAgrees(w, validLen, SlotOf(now), left, maxCredits, offs, rem);
        SpendRecorded(w, validLen, SlotOf(now), left, maxCredits, offs, rem);
      }
      var last := Consume(offs, rem);
      left := Recorded(left, SlotOf(now), Ring());
      if last + 1 > validLen { validLen := last + 1; }
      done := requestTime + xferLat * Units(length) % U32 + ExtraDelay(last - offs, usual) * UNIT_TIME_INTERVAL;
    }

    /** When a transfer that may start at requestTime is done, in bytes: what it takes from the ring, and how long. */
    method Request(now: nat, requestTime: nat, length: nat) returns (done: nat)
      requires Shape() && now >= curTime
      modifies this, avail
      ensures Shape() && curTime == now && done >= requestTime
      ensures served == old(served) + [Transfer(now, requestTime, length, done)]
      ensures old(Valid() && SafeGap(now)) ==> Valid()
      ensures Admitted(now, requestTime) && old(Valid() && SafeGap(now)) ==>
                var offs := Offset(now, requestTime);
                forall s :: Left(left, maxCredits, s) ==
                  Left(Spend(old(left), maxCredits, SlotOf(now) + offs, Units(length), NR_CREDIT_ENTRIES - offs),
                       maxCredits, s)
      ensures !Admitted(now, requestTime) ==> left == old(left) && done == requestTime
      ensures Admitted(now, requestTime) ==>
                InBytes(old(AfterClock(Ring(), validLen, SlotOf(now) - SlotOf(curTime), maxCredits)), Ring(),
                        Offset(now, requestTime), length, maxCredits, xferLat, requestTime, done)
    {
      hide Agrees, WindowOf, AfterClock, Greedy, Recorded, Units, Total, InUnits, Charged, DoneAt, Spend;
      ghost var w := AfterClock(Ring(), validLen, SlotOf(now) - SlotOf(curTime), maxCredits);
      done := Reserve(now, requestTime, length);
      served := served + [Transfer(now, requestTime, length, done)];
      if Admitted(now, requestTime) {
        forall n: nat | n < U32 && InUnits(length, n)
          ensures InUnitsDone(w, Ring(), Offset(now, requestTime), n, maxCredits, xferLat, requestTime, done)
        {
          ChargedExactly(w, now, requestTime, length, n);
          DoneExactly(w, now, requestTime, length, maxCredits, xferLat, n);
          XferTimeExactly(xferLat, n);
        }
      }
    }
  }

  lemma RingAt(a: seq<nat>, head: nat, i: nat)
    requires |a| == NR_CREDIT_ENTRIES && head < |a| && i < |a|
    ensures WindowOf(a, head)[i] == a[At(head, i)]
    ensures (At(head, i) + 1) % NR_CREDIT_ENTRIES == head <==> i + 1 == |a|
    ensures i + 1 < |a| ==> (At(head, i) + 1) % NR_CREDIT_ENTRIES == At(head, i + 1)
  {
  }
}
