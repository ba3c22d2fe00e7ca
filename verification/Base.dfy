/** Small shared vocabulary: optional values and duplicate-free sequences. */
module Base {

  datatype Option<+T> = None | Some(value: T)

  ghost predicate NoDup<T>(s: seq<T>)
  {
    forall i, j :: 0 <= i < j < |s| ==> s[i] != s[j]
  }

  ghost function SetOf<T>(s: seq<T>): set<T> {
    set x | x in s
  }

  lemma InSetOf(s: seq<nat>, x: nat)
    ensures x in s <==> x in SetOf(s)
  {
  }

  lemma SetOfTail<T(!new)>(s: seq<T>)
    requires s != [] && NoDup(s)
    ensures NoDup(s[1..]) && s[0] in SetOf(s) && SetOf(s[1..]) == SetOf(s) - {s[0]}
  {
    assert forall x :: x in s <==> x == s[0] || x in s[1..];
  }

  lemma SetOfAppend<T(!new)>(s: seq<T>, x: T)
    ensures SetOf(s + [x]) == SetOf(s) + {x}
    ensures NoDup(s) && x !in s ==> NoDup(s + [x])
  {
  }

  /** Unlinks x from a list, as `list_del_init` does. */
  function Remove<T(==)>(s: seq<T>, x: T): (r: seq<T>)
    ensures x !in s ==> r == s
  {
    if s == [] then []
    else if s[0] == x then s[1..]
    else [s[0]] + Remove(s[1..], x)
  }

  lemma {:induction false} RemoveNoDup<T(!new)>(s: seq<T>, x: T)
    requires NoDup(s) && x in s
    ensures NoDup(Remove(s, x)) && |Remove(s, x)| == |s| - 1
    ensures forall y :: y in Remove(s, x) <==> y in s && y != x
  {
    if s[0] == x {
      assert s == [x] + s[1..];
    } else {
      RemoveNoDup(s[1..], x);
      var r := Remove(s[1..], x);
      assert forall y :: y in s <==> y == s[0] || y in s[1..];
      assert s[0] !in s[1..];
      assert forall y :: y in [s[0]] + r <==> y == s[0] || y in r;
    }
  }

  lemma SubsetSize<T>(a: set<T>, b: set<T>)
    requires a <= b
    ensures |a| <= |b|
    ensures |a| == |b| ==> a == b
  {
    assert b == a + (b - a);
  }

  /** An element without duplicates is in one place only. */
  lemma NoDupAt<T>(s: seq<T>, i: nat)
    requires NoDup(s) && i < |s|
    ensures forall j :: 0 <= j < |s| && j != i ==> s[j] != s[i]
  {
    forall j | 0 <= j < |s| && j != i ensures s[j] != s[i] {
      assert if j < i then s[j] != s[i] else s[i] != s[j];
    }
  }

  ghost function Interval(lo: nat, hi: nat): (r: set<nat>)
    requires lo <= hi
    ensures |r| == hi - lo && forall i :: i in r <==> lo <= i < hi
  {
    if lo == hi then {} else Interval(lo, hi - 1) + {hi - 1}
  }

  lemma Below(n: nat, s: set<nat>)
    requires forall x :: x in s ==> x < n
    ensures |s| <= n
  {
    assert s <= Interval(0, n);
    SubsetSize(s, Interval(0, n));
  }

  function One(b: bool): nat { if b then 1 else 0 }

  function Max(a: nat, b: nat): nat { if a >= b then a else b }
}
