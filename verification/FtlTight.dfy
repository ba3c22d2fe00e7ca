/**
 The space bound is tight.  With five or more pages in a line, and any number of lines from five on, a host that
 keeps to (lines - 4) * perLine + 1 logical pages can make the translation layer run out of free lines.  A host that
 keeps to one page less cannot.
 */
module FtlTight {
  import opened Arith
  import opened Base
  import opened FtlModel
  import opened FtlRuns
  import opened Adversary
  import opened FtlConf

  /**
   The bound of `RunsRefineMap` is the best there is: one more logical page, and some run within that range runs out
   of free lines.
   */
  lemma BoundIsTight(lay: Layout)
    requires lay.Valid() && lay.lines >= 5 && lay.perLine >= 5
    requires (lay.lines - 4) * lay.perLine + 1 <= |lay.line|
    ensures Exhausts(lay, (lay.lines - 4) * lay.perLine + 1)
  {
    hide Reaches, Exhausts, Layout.Valid, Walk, Host, Fresh;
    var p, n := lay.perLine, (lay.lines - 4) * lay.perLine + 1;
    var a := HostWins(p, lay.lines);
    Started(lay, n);
    var moves :| Walk(p, n, Fresh(p, lay.lines), moves) == Some(a);
    WalkLifts(lay, n, Fresh(p, lay.lines), moves, a);
    var from, i :| StuckBy(p, n, a, from, i);
    StuckCredits(p, n, a, from, i);
    CollectLifts(lay, n, a, from, i);
  }

  lemma StuckCredits(p: nat, n: nat, a: Conf, from: From, i: nat)
    requires StuckBy(p, n, a, from, i)
    ensures a.cr <= 1
  {
  }

  lemma Within(writes: seq<Write>, n: nat)
    requires forall i :: 0 <= i < |writes| ==> writes[i].lpn < n
    ensures |Lpns(writes)| <= n
  {
    Below(n, Lpns(writes));
  }

  lemma MorePages(lay: Layout, n: nat, n': nat)
    requires Exhausts(lay, n) && n <= n' <= |lay.line|
    ensures Exhausts(lay, n')
  {
    hide Layout.Valid, Run, Init;
    var states: seq<Ftl>, writes: seq<Write> :| RunTo(lay, n, states, writes) && !states[|writes|].ls.alive;
    assert RunTo(lay, n', states, writes);
  }

  /** Of all hosts that keep to the first n logical pages, one makes it run out exactly if n passes the bound. */
  lemma BoundExactly(lay: Layout, n: nat)
    requires lay.Valid() && lay.lines >= 5 && lay.perLine >= 5 && n <= |lay.line|
    ensures Exhausts(lay, n) <==> n > (lay.lines - 4) * lay.perLine
  {
    hide Layout.Valid, Run, Init, Inv, SpaceOk, View;
    if n > (lay.lines - 4) * lay.perLine {
      BoundIsTight(lay);
      MorePages(lay, (lay.lines - 4) * lay.perLine + 1, n);
    } else if Exhausts(lay, n) {
      var states: seq<Ftl>, writes: seq<Write> :| RunTo(lay, n, states, writes) && !states[|writes|].ls.alive;
      Within(writes, n);
      RunsRefineMap(lay, states, writes, |writes|);
    }
  }
}
