/**
 A host that plays against the write credits.  States of the translation layer are kept up to the names of lines and
 pages: where the write pointers stand, how many lines are free, how many pages are invalid in which line, and the
 credits.  With five or more pages in a line, a host can make the collection run out of free lines.
 */
module Adversary {
  import opened Arith
  import opened Base

  /* ---------- states without the names of lines and pages ---------- */

  /**
   The user line has u pages written, ui of them invalid, the GC line g and gi; f lines are free; c are the numbers
   of invalid pages in closed lines; then credits, refill, and how many logical pages were written.
   */
  datatype Conf = Conf(u: nat, ui: nat, g: nat, gi: nat, f: nat, c: seq<nat>, cr: int, rf: int, m: nat)

  /** Where the old copy of the next page to be written is. */
  datatype From = New | InUser | InGc | InClosed(i: nat)

  predicate Enabled(p: nat, a: Conf, from: From)
  {
    && (a.u + 1 == p ==> a.f > 0)
    && match from
       case New => true
       case InUser => a.ui < a.u
       case InGc => a.gi < a.g
       case InClosed(i) => i < |a.c| && a.c[i] < p
  }

  function Drop(a: Conf, from: From): Conf
    requires from.InClosed? ==> from.i < |a.c|
  {
    match from
    case New => a.(m := a.m + 1)
    case InUser => a.(ui := a.ui + 1)
    case InGc => a.(gi := a.gi + 1)
    case InClosed(i) => a.(c := a.c[i := a.c[i] + 1])
  }

  /** A write. */
  function Host(p: nat, a: Conf, from: From): Conf
    requires Enabled(p, a, from)
  {
    var b := Drop(a, from).(cr := a.cr - 1);
    if a.u + 1 != p then b.(u := a.u + 1) else b.(u := 0, ui := 0, f := a.f - 1, c := b.c + [b.ui])
  }

  predicate Worst(c: seq<nat>, i: nat)
  {
    i < |c| && c[i] > 0 && forall j :: 0 <= j < |c| ==> c[j] <= c[i]
  }

  predicate Room(p: nat, a: Conf, i: nat)
    requires i < |a.c|
  {
    a.g + (p - a.c[i]) < (a.f + 1) * p
  }

  function Without(c: seq<nat>, i: nat): seq<nat>
    requires i < |c|
  {
    c[..i] + c[i + 1..]
  }

  /** Collecting the i-th closed line, and the new credits. */
  function Collected(p: nat, a: Conf, i: nat): Conf
    requires i < |a.c| && a.c[i] <= p
  {
    var n, b := a.g + (p - a.c[i]), a.(cr := a.cr + a.c[i], rf := a.c[i], c := Without(a.c, i));
    if n < p then b.(g := n, f := a.f + 1) else b.(g := n - p, gi := 0, c := b.c + [a.gi])
  }

  /* ---------- moves ---------- */

  /** A write, with the line to be collected if it uses up the credits; or a full line is left alone from now on. */
  datatype Move = Overwrite(from: From, pick: nat) | LeaveFull

  predicate AllFull(c: seq<nat>) { forall i :: 0 <= i < |c| ==> c[i] == 0 }

  /** The state after a move, within n logical pages, if the move is possible and finds the free lines it needs. */
  function Go(p: nat, n: nat, a: Conf, move: Move): Option<Conf>
  {
    match move
    case LeaveFull => if a.c == [0] then Some(a.(c := [])) else None
    case Overwrite(from, pick) =>
      if !Enabled(p, a, from) || Host(p, a, from).m > n then None
      else
        var h := Host(p, a, from);
        if h.cr > 0 then Some(h)
        else if h.f > 2 || AllFull(h.c) then Some(h.(cr := h.cr + h.rf))
        else if Worst(h.c, pick) && h.c[pick] <= p && Room(p, h, pick) then Some(Collected(p, h, pick))
        else None
  }

  function Walk(p: nat, n: nat, a: Conf, moves: seq<Move>): Option<Conf>
  {
    if moves == [] then Some(a)
    else
      var mid := Walk(p, n, a, moves[..|moves| - 1]);
      if mid.None? then None else Go(p, n, mid.value, moves[|moves| - 1])
  }

  /** Some moves lead from a to b. */
  ghost predicate Leads(p: nat, n: nat, a: Conf, b: Conf)
  {
    exists moves :: Walk(p, n, a, moves) == Some(b)
  }

  lemma Move1(p: nat, n: nat, s: Conf, a: Conf, move: Move, b: Conf)
    requires Leads(p, n, s, a) && Go(p, n, a, move) == Some(b)
    ensures Leads(p, n, s, b)
  {
    hide Go;
    var moves :| Walk(p, n, s, moves) == Some(a);
    var longer := moves + [move];
    assert longer[..|moves|] == moves;
    assert Walk(p, n, s, longer) == Some(b);
  }

  lemma Stay(p: nat, n: nat, s: Conf)
    ensures Leads(p, n, s, s)
  {
    assert Walk(p, n, s, []) == Some(s);
  }

  lemma WriteStep(p: nat, n: nat, s: Conf, a: Conf, from: From)
    requires Leads(p, n, s, a) && Enabled(p, a, from) && Host(p, a, from).m <= n && a.cr > 1
    ensures Leads(p, n, s, Host(p, a, from))
  {
    hide Leads;
    Move1(p, n, s, a, Overwrite(from, 0), Host(p, a, from));
  }

  lemma RefillStep(p: nat, n: nat, s: Conf, a: Conf, from: From)
    requires Leads(p, n, s, a) && Enabled(p, a, from) && Host(p, a, from).m <= n && a.cr <= 1
    requires Host(p, a, from).f > 2 || AllFull(Host(p, a, from).c)
    ensures var b := Host(p, a, from); Leads(p, n, s, b.(cr := b.cr + b.rf))
  {
    hide Leads;
    var b := Host(p, a, from);
    Move1(p, n, s, a, Overwrite(from, 0), b.(cr := b.cr + b.rf));
  }

  lemma CollectStep(p: nat, n: nat, s: Conf, a: Conf, from: From, i: nat)
    requires Leads(p, n, s, a) && Enabled(p, a, from) && Host(p, a, from).m <= n && a.cr <= 1
    requires var b := Host(p, a, from); b.f <= 2 && Worst(b.c, i) && b.c[i] <= p && Room(p, b, i)
    ensures Leads(p, n, s, Collected(p, Host(p, a, from), i))
  {
    hide Leads;
    Move1(p, n, s, a, Overwrite(from, i), Collected(p, Host(p, a, from), i));
  }

  lemma Forget(p: nat, n: nat, s: Conf, a: Conf)
    requires Leads(p, n, s, a) && a.c == [0]
    ensures Leads(p, n, s, a.(c := []))
  {
    hide Leads;
    Move1(p, n, s, a, LeaveFull, a.(c := []));
  }

  /** A write in a makes a line be collected for which there is no room. */
  ghost predicate Stuck(p: nat, n: nat, a: Conf)
  {
    exists from, i :: StuckBy(p, n, a, from, i)
  }

  predicate StuckBy(p: nat, n: nat, a: Conf, from: From, i: nat)
  {
    && Enabled(p, a, from) && Host(p, a, from).m <= n && Host(p, a, from).cr <= 0
    && var h := Host(p, a, from); h.f <= 2 && Worst(h.c, i) && !Room(p, h, i)
  }

  /* ---------- several writes of one kind ---------- */

  function Moved(a: Conf, from: From, k: nat): Conf
  {
    a.(u := a.u + k, ui := a.ui + if from.InUser? then k else 0, gi := a.gi + if from.InGc? then k else 0,
       m := a.m + if from.New? then k else 0)
  }

  predicate Steady(p: nat, a: Conf, from: From, k: nat, n: nat)
  {
    && a.u + k < p && !from.InClosed? && Moved(a, from, k).m <= n
    && (from.InUser? ==> a.ui < a.u) && (from.InGc? ==> a.gi + k <= a.g)
  }

  /** As long as there are credits. */
  lemma {:induction false} Many(p: nat, n: nat, s: Conf, a: Conf, from: From, k: nat)
    requires Leads(p, n, s, a) && Steady(p, a, from, k, n) && a.cr > k
    ensures Leads(p, n, s, Moved(a, from, k).(cr := a.cr - k))
  {
    hide Leads;
    if k == 0 {
      assert Moved(a, from, 0).(cr := a.cr) == a;
    } else {
      Many(p, n, s, a, from, k - 1);
      WriteStep(p, n, s, Moved(a, from, k - 1).(cr := a.cr - (k - 1)), from);
    }
  }

  /** With one credit at a time, while nothing is collected. */
  lemma {:induction false} Ticks(p: nat, n: nat, s: Conf, a: Conf, from: From, k: nat)
    requires Leads(p, n, s, a) && Steady(p, a, from, k, n) && a.cr == a.rf == 1
    requires a.f > 2 || AllFull(a.c)
    ensures Leads(p, n, s, Moved(a, from, k))
  {
    hide Leads;
    if k == 0 {
      assert Moved(a, from, 0) == a;
    } else {
      Ticks(p, n, s, a, from, k - 1);
      RefillStep(p, n, s, Moved(a, from, k - 1), from);
    }
  }

  /* ---------- lines that are filled once and left alone ---------- */

  lemma FillLine(p: nat, n: nat, s: Conf, f: nat, m: nat)
    requires f > 0 && p > 1 && m + p <= n
    requires Leads(p, n, s, Conf(0, 0, 0, 0, f, [], p, p, m))
    ensures Leads(p, n, s, Conf(0, 0, 0, 0, f - 1, [], p, p, m + p))
  {
    hide Leads;
    Many(p, n, s, Conf(0, 0, 0, 0, f, [], p, p, m), New, p - 1);
    var a := Conf(p - 1, 0, 0, 0, f, [], 1, p, m + p - 1);
    assert Host(p, a, New).c == [0];
    RefillStep(p, n, s, a, New);
    Forget(p, n, s, Conf(0, 0, 0, 0, f - 1, [0], p, p, m + p));
  }

  /** The state of a new device with so many lines. */
  function Fresh(p: nat, lines: nat): Conf
    requires lines >= 2
  {
    Conf(0, 0, 0, 0, lines - 2, [], p, p, 0)
  }

  lemma {:induction false} FillLines(p: nat, n: nat, lines: nat, k: nat)
    requires k + 2 <= lines && p > 1 && k * p <= n
    ensures Leads(p, n, Fresh(p, lines), Conf(0, 0, 0, 0, lines - 2 - k, [], p, p, k * p))
  {
    hide Leads;
    if k == 0 {
      Stay(p, n, Fresh(p, lines));
    } else {
      Dist(k - 1, 1, p);
      FillLines(p, n, lines, k - 1);
      FillLine(p, n, Fresh(p, lines), lines - 2 - (k - 1), (k - 1) * p);
    }
  }

  /* ---------- the other five lines ---------- */

  /** With m the number of pages written in the end, p the pages of a line, and three lines free. */
  lemma GcLineFilled(p: nat, m: nat, s: Conf)
    requires p >= 5 && m >= p + 1 && Leads(p, m, s, Conf(0, 0, 0, 0, 3, [], p, p, m - p - 1))
    ensures Leads(p, m, s, Conf(0, 0, p - 1, 0, 3, [], 1, 1, m - 2))
  {
    hide Leads;
    Many(p, m, s, Conf(0, 0, 0, 0, 3, [], p, p, m - p - 1), New, p - 1);
    var a := Conf(p - 1, 0, 0, 0, 3, [], 1, p, m - 2);
    assert Host(p, a, InUser).c == [1];
    CollectStep(p, m, s, a, InUser, 0);
    assert Collected(p, Host(p, a, InUser), 0) == Conf(0, 0, p - 1, 0, 3, [], 1, 1, m - 2);
  }

  /** All but one of the pages on the GC line are written again, on a line that then is full. */
  lemma LineRefilled(p: nat, m: nat, s: Conf)
    requires p >= 5 && m >= p + 1 && Leads(p, m, s, Conf(0, 0, p - 1, 0, 3, [], 1, 1, m - 2))
    ensures Leads(p, m, s, Conf(p - 2, p - 3, p - 1, p - 1, 2, [0], 1, 1, m))
  {
    hide Leads;
    Ticks(p, m, s, Conf(0, 0, p - 1, 0, 3, [], 1, 1, m - 2), New, 2);
    Ticks(p, m, s, Conf(2, 0, p - 1, 0, 3, [], 1, 1, m), InGc, p - 3);
    var a := Conf(p - 1, 0, p - 1, p - 3, 3, [], 1, 1, m);
    assert Host(p, a, InGc).c == [0];
    RefillStep(p, m, s, a, InGc);
    RefillStep(p, m, s, Conf(0, 0, p - 1, p - 2, 2, [0], 1, 1, m), InGc);
    Ticks(p, m, s, Conf(1, 0, p - 1, p - 1, 2, [0], 1, 1, m), InUser, p - 3);
  }

  /** That line is collected after all, and the GC line it was copied to again. */
  lemma GcLineRefilled(p: nat, m: nat, s: Conf)
    requires p >= 5 && Leads(p, m, s, Conf(p - 2, p - 3, p - 1, p - 1, 2, [0], 1, 1, m))
    ensures Leads(p, m, s, Conf(0, 0, p - 1, 0, 2, [p - 2], p - 1, p - 1, m))
  {
    hide Leads;
    var a := Conf(p - 2, p - 3, p - 1, p - 1, 2, [0], 1, 1, m);
    assert Host(p, a, InClosed(0)).c == [1];
    CollectStep(p, m, s, a, InClosed(0), 0);
    var b := Conf(p - 1, p - 3, p - 2, 0, 2, [p - 1], 1, 1, m);
    assert Collected(p, Host(p, a, InClosed(0)), 0) == b;
    assert Host(p, b, InUser).c == [p - 1, p - 2];
    CollectStep(p, m, s, b, InUser, 0);
    assert Collected(p, Host(p, b, InUser), 0) == Conf(0, 0, p - 1, 0, 2, [p - 2], p - 1, p - 1, m);
  }

  /** The closed line loses its last valid pages, and collecting it grants a whole line of credits. */
  lemma WholeLineGranted(p: nat, m: nat, s: Conf)
    requires p >= 5 && Leads(p, m, s, Conf(0, 0, p - 1, 0, 2, [p - 2], p - 1, p - 1, m))
    ensures Leads(p, m, s, Conf(p - 1, 0, p - 1, p - 3, 3, [], p, p, m))
  {
    hide Leads;
    Many(p, m, s, Conf(0, 0, p - 1, 0, 2, [p - 2], p - 1, p - 1, m), InGc, p - 3);
    var a := Conf(p - 3, 0, p - 1, p - 3, 2, [p - 2], 2, p - 1, m);
    assert Host(p, a, InClosed(0)).c == [p - 1];
    WriteStep(p, m, s, a, InClosed(0));
    var b := Conf(p - 2, 0, p - 1, p - 3, 2, [p - 1], 1, p - 1, m);
    assert Host(p, b, InClosed(0)).c == [p];
    CollectStep(p, m, s, b, InClosed(0), 0);
    assert Collected(p, Host(p, b, InClosed(0)), 0) == Conf(p - 1, 0, p - 1, p - 3, 3, [], p, p, m);
  }

  /** The credits are used with nothing to collect, and another line of credits follows: too much. */
  lemma TooMuchGranted(p: nat, m: nat, s: Conf)
    requires p >= 5 && Leads(p, m, s, Conf(p - 1, 0, p - 1, p - 3, 3, [], p, p, m))
    ensures Leads(p, m, s, Conf(p - 1, p - 2, p - 1, p - 1, 2, [0], p, p, m))
  {
    hide Leads;
    var a := Conf(p - 1, 0, p - 1, p - 3, 3, [], p, p, m);
    assert Host(p, a, InGc).c == [0];
    WriteStep(p, m, s, a, InGc);
    WriteStep(p, m, s, Conf(0, 0, p - 1, p - 2, 2, [0], p - 1, p, m), InGc);
    Many(p, m, s, Conf(1, 0, p - 1, p - 1, 2, [0], p - 2, p, m), InUser, p - 3);
    RefillStep(p, m, s, Conf(p - 2, p - 3, p - 1, p - 1, 2, [0], 1, p, m), InUser);
  }

  /** Two pages move to the user line; a line with one valid page is collected, and closes the GC line. */
  lemma OnePageCollected(p: nat, m: nat, s: Conf)
    requires p >= 5 && Leads(p, m, s, Conf(p - 1, p - 2, p - 1, p - 1, 2, [0], p, p, m))
    ensures Leads(p, m, s, Conf(p - 1, p - 3, 0, 0, 1, [2, p - 1], p - 1, p - 1, m))
  {
    hide Leads;
    var e := Conf(p - 1, p - 2, p - 1, p - 1, 2, [0], p, p, m);
    assert Host(p, e, InUser).c == [0, p - 1];
    WriteStep(p, m, s, e, InUser);
    var a := Conf(0, 0, p - 1, p - 1, 1, [0, p - 1], p - 1, p, m);
    assert Host(p, a, InClosed(0)).c == [1, p - 1];
    WriteStep(p, m, s, a, InClosed(0));
    var b := Conf(1, 0, p - 1, p - 1, 1, [1, p - 1], p - 2, p, m);
    assert Host(p, b, InClosed(0)).c == [2, p - 1];
    WriteStep(p, m, s, b, InClosed(0));
    Many(p, m, s, Conf(2, 0, p - 1, p - 1, 1, [2, p - 1], p - 3, p, m), InUser, p - 4);
    var d := Conf(p - 2, p - 4, p - 1, p - 1, 1, [2, p - 1], 1, p, m);
    CollectStep(p, m, s, d, InUser, 1);
    assert Without([2, p - 1], 1) == [2];
    assert Collected(p, Host(p, d, InUser), 1) == Conf(p - 1, p - 3, 0, 0, 1, [2, p - 1], p - 1, p - 1, m);
  }

  /** Two lines with two or more valid pages are closed, a page on the GC line and one on the user line are in use. */
  function Cycle(p: nat, j: nat, m: nat): Conf
    requires 1 <= j <= p - 2
  {
    Conf(p - 1 - j, p - 2 - j, j, j - 1, 1, [3, p - 2], p - 1, p - 1, m)
  }

  lemma CycleStarts(p: nat, m: nat, s: Conf)
    requires p >= 5 && Leads(p, m, s, Conf(p - 1, p - 3, 0, 0, 1, [2, p - 1], p - 1, p - 1, m))
    ensures Leads(p, m, s, Cycle(p, 1, m))
  {
    hide Leads;
    var a := Conf(p - 1, p - 3, 0, 0, 1, [2, p - 1], p - 1, p - 1, m);
    assert Host(p, a, InClosed(0)).c == [3, p - 1, p - 3];
    WriteStep(p, m, s, a, InClosed(0));
    var b := Conf(0, 0, 0, 0, 0, [3, p - 1, p - 3], p - 2, p - 1, m);
    assert Host(p, b, InClosed(2)).c == [3, p - 1, p - 2];
    WriteStep(p, m, s, b, InClosed(2));
    Many(p, m, s, Conf(1, 0, 0, 0, 0, [3, p - 1, p - 2], p - 3, p - 1, m), InUser, p - 4);
    var d := Conf(p - 3, p - 4, 0, 0, 0, [3, p - 1, p - 2], 1, p - 1, m);
    CollectStep(p, m, s, d, InUser, 1);
    assert Without([3, p - 1, p - 2], 1) == [3, p - 2];
    assert Collected(p, Host(p, d, InUser), 1) == Cycle(p, 1, m);
  }

  /** Each round moves the GC pointer on by one page, and the user pointer back by one. */
  lemma CycleStep(p: nat, m: nat, s: Conf, j: nat)
    requires p >= 5 && 1 <= j <= p - 3 && Leads(p, m, s, Cycle(p, j, m))
    ensures Leads(p, m, s, Cycle(p, j + 1, m))
  {
    hide Leads;
    Many(p, m, s, Cycle(p, j, m), InUser, j);
    var a := Conf(p - 1, p - 2, j, j - 1, 1, [3, p - 2], p - 1 - j, p - 1, m);
    assert Host(p, a, InUser).c == [3, p - 2, p - 1];
    WriteStep(p, m, s, a, InUser);
    var b := Conf(0, 0, j, j - 1, 0, [3, p - 2, p - 1], p - 2 - j, p - 1, m);
    assert Without([3, p - 2, p - 1], 2) == [3, p - 2];
    if j == p - 3 {
      CollectStep(p, m, s, b, InGc, 2);
      assert Collected(p, Host(p, b, InGc), 2) == Cycle(p, j + 1, m);
    } else {
      WriteStep(p, m, s, b, InGc);
      Many(p, m, s, Conf(1, 0, j, j, 0, [3, p - 2, p - 1], p - 3 - j, p - 1, m), InUser, p - 4 - j);
      var d := Conf(p - 3 - j, p - 4 - j, j, j, 0, [3, p - 2, p - 1], 1, p - 1, m);
      CollectStep(p, m, s, d, InUser, 2);
      assert Collected(p, Host(p, d, InUser), 2) == Cycle(p, j + 1, m);
    }
  }

  lemma {:induction false} Cycles(p: nat, m: nat, s: Conf, j: nat)
    requires p >= 5 && 1 <= j <= p - 2 && Leads(p, m, s, Cycle(p, 1, m))
    ensures Leads(p, m, s, Cycle(p, j, m))
  {
    hide Leads, Cycle;
    if j == 1 {
    } else {
      Cycles(p, m, s, j - 1);
      CycleStep(p, m, s, j - 1);
    }
  }

  /** Three closed lines with two valid pages, no free line, and a GC line with room for only one more page. */
  lemma LastRound(p: nat, m: nat, s: Conf) returns (a: Conf)
    requires p >= 5 && Leads(p, m, s, Cycle(p, p - 2, m))
    ensures Leads(p, m, s, a) && Stuck(p, m, a)
  {
    hide Leads;
    WriteStep(p, m, s, Cycle(p, p - 2, m), InGc);
    Many(p, m, s, Conf(2, 0, p - 2, p - 2, 1, [3, p - 2], p - 2, p - 1, m), InUser, p - 3);
    a := Conf(p - 1, p - 3, p - 2, p - 2, 1, [3, p - 2], 1, p - 1, m);
    assert Host(p, a, InUser).c == [3, p - 2, p - 2];
    assert StuckBy(p, m, a, InUser, 1);
  }

  /** With one page more than (lines - 4) * p, the host wins. */
  lemma HostWins(p: nat, lines: nat) returns (a: Conf)
    requires p >= 5 && lines >= 5
    ensures Leads(p, (lines - 4) * p + 1, Fresh(p, lines), a) && Stuck(p, (lines - 4) * p + 1, a)
  {
    hide Leads, Stuck, Fresh;
    var m, s := (lines - 4) * p + 1, Fresh(p, lines);
    Dist(lines - 5, 1, p);
    FillLines(p, m, lines, lines - 5);
    GcLineFilled(p, m, s);
    LineRefilled(p, m, s);
    GcLineRefilled(p, m, s);
    WholeLineGranted(p, m, s);
    TooMuchGranted(p, m, s);
    OnePageCollected(p, m, s);
    CycleStarts(p, m, s);
    Cycles(p, m, s, p - 2);
    a := LastRound(p, m, s);
  }
}
