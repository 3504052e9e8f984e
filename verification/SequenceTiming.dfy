/**
 * When every packet comes in time: the sequencer then passes on exactly what was sent, and whether packets come
 * in time can be told from the order of arrival alone.
 */
module SequenceTiming {
  import SerialNumbers
  import opened Sequencer
  import opened SequenceOrder
  import opened SequenceGuarantees
  import SequenceRefinement

  // ---- good copies before their turn is over ----

  /** Arrival `i` is a good copy of number `t` that comes before the turn of `t` is over. */
  predicate Timely(from: int, giveUp: nat, arrivals: seq<Arrival>, t: int, i: nat)
    requires i < |arrivals|
  {
    arrivals[i].t == t && arrivals[i].p.crcOk && Run(from, giveUp, arrivals[..i]).0.next <= t
  }

  predicate HasTimely(from: int, giveUp: nat, arrivals: seq<Arrival>, t: int) {
    exists i :: 0 <= i < |arrivals| && Timely(from, giveUp, arrivals, t, i)
  }

  predicate AllTimely(from: int, giveUp: nat, arrivals: seq<Arrival>, to: int) {
    forall t :: from <= t < to ==> HasTimely(from, giveUp, arrivals, t)
  }

  predicate AllBelow(arrivals: seq<Arrival>, to: int) {
    forall i :: 0 <= i < |arrivals| ==> arrivals[i].t < to
  }

  /** The sequencer gets past every number that had a timely good copy. */
  lemma TimelyIsReached(from: int, giveUp: nat, arrivals: seq<Arrival>, to: int)
    requires giveUp > 0 && AllNear(from, giveUp, arrivals) && AllTimely(from, giveUp, arrivals, to)
    ensures Run(from, giveUp, arrivals).0.next >= to
  {
    hide Run, Turns, Range, AllNear;
    var (o, es) := Run(from, giveUp, arrivals);
    EveryNumberHasItsTurn(from, giveUp, arrivals);
    if o.next < to {
      assert HasTimely(from, giveUp, arrivals, o.next);
      var i :| 0 <= i < |arrivals| && Timely(from, giveUp, arrivals, o.next, i);
      GoodCopyStays(from, giveUp, arrivals, i);
      RunKeeps(from, giveUp, arrivals);
      NotYetPassed(es, from, o.next, o.next);
    }
  }

  lemma NotYetPassed(es: seq<Event>, a: int, b: int, t: int)
    requires a <= b <= t && Turns(es) == Range(a, b)
    ensures !WasPassed(es, t)
  {
    hide Turns, Range;
    if WasPassed(es, t) {
      var k :| 0 <= k < |es| && es[k].Passed? && es[k].t == t;
      TurnAt(es, k);
      RangeLength(a, b);
      RangeAt(a, b, |Turns(es[..k])|);
    }
  }

  /** None of the numbers that had a timely good copy is given up. */
  lemma TimelyIsNotSkipped(from: int, giveUp: nat, arrivals: seq<Arrival>, to: int, j: nat)
    requires giveUp > 0 && AllNear(from, giveUp, arrivals) && AllTimely(from, giveUp, arrivals, to)
    requires j < |Run(from, giveUp, arrivals).1| && Run(from, giveUp, arrivals).1[j].Skipped?
    ensures Run(from, giveUp, arrivals).1[j].t >= to
  {
    hide Run, Turns, Range, AllNear;
    var (o, es) := Run(from, giveUp, arrivals);
    var u := es[j].t;
    EveryNumberHasItsTurn(from, giveUp, arrivals);
    TurnAt(es, j);
    RangeAt(from, o.next, |Turns(es[..j])|);
    RangeLength(from, o.next);
    if u < to {
      assert HasTimely(from, giveUp, arrivals, u);
      var i :| 0 <= i < |arrivals| && Timely(from, giveUp, arrivals, u, i);
      GoodCopyIsPassed(from, giveUp, arrivals, i);
      var k :| 0 <= k < |es| && es[k].Passed? && es[k].t == u;
      if k < j { OneTurnEach(es, from, o.next, k, j); } else { OneTurnEach(es, from, o.next, j, k); }
    }
  }

  /** The events up to the end of the first `n` turns. */
  lemma UpToTurn(es: seq<Event>, n: nat) returns (k: nat)
    requires n <= |Turns(es)|
    ensures k <= |es| && |Turns(es[..k])| == n && Turns(es[..k]) == Turns(es)[..n]
    ensures forall j :: 0 <= j < k ==> |Turns(es[..j])| < n
  {
    hide Turns;
    k := 0;
    NoTurnsYet(es);
    while |Turns(es[..k])| < n
      invariant k <= |es| && |Turns(es[..k])| <= n
      invariant forall j :: 0 <= j < k ==> |Turns(es[..j])| < n
      decreases |es| - k
    {
      assert es[..|es|] == es;
      OneMoreTurn(es, k);
      k := k + 1;
    }
    assert es == es[..k] + es[k..];
    assert Turns(es) == Turns(es[..k]) + Turns(es[k..]) by { TurnsConcat(es[..k], es[k..]); }
  }

  lemma NoTurnsYet(es: seq<Event>)
    ensures Turns(es[..0]) == []
  {
  }

  lemma TurnsConcat(a: seq<Event>, b: seq<Event>)
    ensures Turns(a + b) == Turns(a) + Turns(b)
  {
    CollectConcat(TurnOf, a, b);
  }

  lemma OneMoreTurn(es: seq<Event>, k: nat)
    requires k < |es|
    ensures |Turns(es[..k])| <= |Turns(es[..k + 1])| <= |Turns(es[..k])| + 1
  {
    assert es[..k + 1] == es[..k] + [es[k]];
    TurnsConcat(es[..k], [es[k]]);
    CollectOne(TurnOf, es[k]);
  }

  /** When every number below `to` had a timely good copy, the sender's packets below `to` come first, in order. */
  lemma TimelyComesFirst(from: int, giveUp: nat, arrivals: seq<Arrival>, sender: int -> Packet, to: int)
    requires giveUp > 0 && AllNear(from, giveUp, arrivals) && from <= to
    requires Honest(arrivals, sender) && AllTimely(from, giveUp, arrivals, to)
    ensures Run(from, giveUp, arrivals).0.next >= to
    ensures Sent(sender, Range(from, to)) <= Collect(PassedOf, Run(from, giveUp, arrivals).1)
  {
    hide Run, Turns, Range, Collect, Sent, AllTimely, AllNear;
    var (o, es) := Run(from, giveUp, arrivals);
    TimelyIsReached(from, giveUp, arrivals, to);
    EveryNumberHasItsTurn(from, giveUp, arrivals);
    RangeLength(from, o.next);
    RangeLength(from, to);
    RangeSplit(from, to, o.next);
    var k := UpToTurn(es, to - from);
    forall j | 0 <= j < k
      ensures !es[j].Skipped?
    {
      if es[j].Skipped? {
        TimelyIsNotSkipped(from, giveUp, arrivals, to, j);
        TurnAt(es, j);
        RangeAt(from, o.next, |Turns(es[..j])|);
      }
    }
    RunAsSent(from, giveUp, arrivals, sender);
    PassedInTurn(es[..k], sender);
    assert Turns(es[..k]) == Range(from, to);
    CollectConcat(PassedOf, es[..k], es[k..]);
    assert es == es[..k] + es[k..];
  }

  // ---- nothing comes from beyond ----

  lemma {:induction false} FlushStaysBelow(o: Order, to: int)
    requires o.next <= to && forall t :: t in o.kept ==> t < to
    ensures Flush(o).0.next <= to && forall t :: t in Flush(o).0.kept ==> t < to
    decreases |o.kept|
  {
    if o.next in o.kept {
      Shrinks(o.kept, o.next);
      if o.kept[o.next].crcOk { FlushStaysBelow(Order(o.next + 1, o.kept - {o.next}), to); }
    }
  }

  lemma HandleStaysBelowTo(o: Order, giveUp: nat, t: int, p: Packet, to: int)
    requires Ahead(o) && Near(o, t) && giveUp > 0 && t < to
    requires o.next <= to && forall u :: u in o.kept ==> u < to
    ensures var o' := Handle(o, giveUp, t, p).0; o'.next <= to && forall u :: u in o'.kept ==> u < to
  {
    hide Flush, Advance;
    var o1 := Take(o, t, p).0;
    AbandonKeeps(o1, giveUp);
    if |o1.kept| >= giveUp { SomeKey(o1.kept); }
    FlushStaysBelow(Abandon(o1, giveUp).0, to);
  }

  lemma {:induction false} RunStaysBelow(from: int, giveUp: nat, arrivals: seq<Arrival>, to: int)
    requires giveUp > 0 && AllNear(from, giveUp, arrivals) && from <= to && AllBelow(arrivals, to)
    ensures var o := Run(from, giveUp, arrivals).0; o.next <= to && forall u :: u in o.kept ==> u < to
  {
    hide Handle, Near;
    if arrivals != [] {
      var before, a := arrivals[..|arrivals| - 1], arrivals[|arrivals| - 1];
      RunStaysBelow(from, giveUp, before, to);
      RunKeeps(from, giveUp, before);
      HandleStaysBelowTo(Run(from, giveUp, before).0, giveUp, a.t, a.p, to);
    }
  }

  /** When moreover nothing numbered `to` or above arrived, exactly the sender's packets are passed on. */
  lemma TimelyRunIsExact(from: int, giveUp: nat, arrivals: seq<Arrival>, sender: int -> Packet, to: int)
    requires giveUp > 0 && AllNear(from, giveUp, arrivals) && from <= to
    requires Honest(arrivals, sender) && AllTimely(from, giveUp, arrivals, to) && AllBelow(arrivals, to)
    ensures Run(from, giveUp, arrivals).0.next == to
    ensures Collect(PassedOf, Run(from, giveUp, arrivals).1) == Sent(sender, Range(from, to))
  {
    hide Run, Turns, Range, Collect, Sent, AllTimely, AllNear, AllBelow;
    var (o, es) := Run(from, giveUp, arrivals);
    TimelyIsReached(from, giveUp, arrivals, to);
    RunStaysBelow(from, giveUp, arrivals, to);
    EveryNumberHasItsTurn(from, giveUp, arrivals);
    RangeLength(from, to);
    forall j | 0 <= j < |es|
      ensures !es[j].Skipped?
    {
      if es[j].Skipped? {
        TimelyIsNotSkipped(from, giveUp, arrivals, to, j);
        TurnAt(es, j);
        RangeAt(from, to, |Turns(es[..j])|);
      }
    }
    RunAsSent(from, giveUp, arrivals, sender);
    PassedInTurn(es, sender);
  }

  // ---- told from the order of arrival alone ----

  /** The numbers above `t` that arrived. */
  function Higher(arrivals: seq<Arrival>, t: int): set<int> {
    set i | 0 <= i < |arrivals| && arrivals[i].t > t :: arrivals[i].t
  }

  /** Arrival `i` is a good copy of `t`, and fewer than `giveUp` higher numbers came before it. */
  predicate EarlyAt(giveUp: nat, arrivals: seq<Arrival>, t: int, i: nat)
    requires i < |arrivals|
  {
    arrivals[i].t == t && arrivals[i].p.crcOk && |Higher(arrivals[..i], t)| < giveUp
  }

  predicate Early(giveUp: nat, arrivals: seq<Arrival>, t: int) {
    exists i :: 0 <= i < |arrivals| && EarlyAt(giveUp, arrivals, t, i)
  }

  predicate AllEarly(giveUp: nat, arrivals: seq<Arrival>, from: int, to: int) {
    forall t :: from <= t < to ==> Early(giveUp, arrivals, t)
  }

  /** No packet arrives 1024 or more ahead of a number still missing, or more than 1023 behind one that has come. */
  predicate Close(from: int, giveUp: nat, arrivals: seq<Arrival>) {
    arrivals != [] ==>
      var before, t := arrivals[..|arrivals| - 1], arrivals[|arrivals| - 1].t;
      && Close(from, giveUp, before)
      && AllEarly(giveUp, before, from, t - (WRAP_CUTOFF - 1))
      && from - WRAP_CUTOFF <= t && AllBelow(before, t + WRAP_CUTOFF)
  }

  /** As long as `t` has not come, and too few above it, the sequencer is not past it and does not hold it. */
  predicate Waits(o: Order, arrivals: seq<Arrival>, t: int) {
    o.next <= t && forall u :: u in o.kept ==> u < t || u in Higher(arrivals, t)
  }

  lemma HigherGrows(before: seq<Arrival>, a: Arrival, t: int)
    ensures Higher(before + [a], t) == Higher(before, t) + if a.t > t then {a.t} else {}
  {
    var more := before + [a];
    assert more[|before|] == a;
    forall u | u in Higher(before, t)
      ensures u in Higher(more, t)
    {
      var i :| 0 <= i < |before| && before[i].t > t && before[i].t == u;
      assert more[i].t == u;
    }
  }

  lemma {:induction false} FlushWaits(o: Order, arrivals: seq<Arrival>, t: int)
    requires Waits(o, arrivals, t)
    ensures Waits(Flush(o).0, arrivals, t)
    decreases |o.kept|
  {
    hide Higher;
    if o.next in o.kept {
      NotHigher(arrivals, t);
      Shrinks(o.kept, o.next);
      if o.kept[o.next].crcOk { FlushWaits(Order(o.next + 1, o.kept - {o.next}), arrivals, t); }
    }
  }

  lemma NotHigher(arrivals: seq<Arrival>, t: int)
    ensures forall u :: u in Higher(arrivals, t) ==> u > t
  {
  }

  /** Fewer higher numbers than the limit cannot fill the cache by themselves. */
  lemma FullHoldsLower(o: Order, arrivals: seq<Arrival>, t: int, giveUp: nat)
    requires Waits(o, arrivals, t) && |Higher(arrivals, t)| < giveUp <= |o.kept|
    ensures exists u :: u in o.kept && u < t
  {
    hide Higher;
    if forall u :: u in o.kept ==> u in Higher(arrivals, t) {
      assert |o.kept.Keys| == |o.kept|;
      SmallerSet(o.kept.Keys, Higher(arrivals, t));
    }
  }

  lemma SmallerSet(a: set<int>, b: set<int>)
    requires a <= b
    ensures |a| <= |b|
  {
    assert b == a + (b - a);
  }

  lemma HandleWaits(o: Order, giveUp: nat, before: seq<Arrival>, a: Arrival, t: int)
    requires Ahead(o) && Near(o, a.t) && giveUp > 0 && Waits(o, before, t)
    requires a.t != t && |Higher(before + [a], t)| < giveUp
    ensures Waits(Handle(o, giveUp, a.t, a.p).0, before + [a], t)
  {
    hide Flush, Advance, Higher;
    var arrivals, o1 := before + [a], Take(o, a.t, a.p).0;
    HigherGrows(before, a, t);
    NotHigher(arrivals, t);
    assert Waits(o1, arrivals, t);
    AbandonKeeps(o1, giveUp);
    if |o1.kept| >= giveUp { FullHoldsLower(o1, arrivals, t, giveUp); }
    FlushWaits(Abandon(o1, giveUp).0, arrivals, t);
  }

  lemma {:induction false} RunWaits(from: int, giveUp: nat, arrivals: seq<Arrival>, t: int)
    requires giveUp > 0 && AllNear(from, giveUp, arrivals) && from <= t
    requires |Higher(arrivals, t)| < giveUp && forall i :: 0 <= i < |arrivals| ==> arrivals[i].t != t
    ensures Waits(Run(from, giveUp, arrivals).0, arrivals, t)
  {
    hide Handle, Higher, Near;
    if arrivals != [] {
      var before, a := arrivals[..|arrivals| - 1], arrivals[|arrivals| - 1];
      assert arrivals == before + [a];
      HigherGrows(before, a, t);
      SmallerSet(Higher(before, t), Higher(arrivals, t));
      RunWaits(from, giveUp, before, t);
      RunKeeps(from, giveUp, before);
      HandleWaits(Run(from, giveUp, before).0, giveUp, before, a, t);
    }
  }

  lemma {:induction false} NearBefore(from: int, giveUp: nat, arrivals: seq<Arrival>, i: nat)
    requires i <= |arrivals| && AllNear(from, giveUp, arrivals)
    ensures AllNear(from, giveUp, arrivals[..i])
  {
    if i < |arrivals| {
      NearBefore(from, giveUp, arrivals[..|arrivals| - 1], i);
      assert arrivals[..|arrivals| - 1][..i] == arrivals[..i];
    } else {
      assert arrivals[..i] == arrivals;
    }
  }

  lemma HigherOfPrefix(arrivals: seq<Arrival>, i: nat, j: nat, t: int)
    requires i <= j <= |arrivals|
    ensures |Higher(arrivals[..i], t)| <= |Higher(arrivals[..j], t)|
  {
    forall u | u in Higher(arrivals[..i], t)
      ensures u in Higher(arrivals[..j], t)
    {
      var x :| 0 <= x < i && arrivals[..i][x].t > t && arrivals[..i][x].t == u;
      assert arrivals[..j][x].t == u;
    }
    SmallerSet(Higher(arrivals[..i], t), Higher(arrivals[..j], t));
  }

  /** A number of which a good copy arrives before `giveUp` higher numbers do has a timely copy: its first. */
  lemma {:induction false} EarlyIsTimely(from: int, giveUp: nat, arrivals: seq<Arrival>, sender: int -> Packet,
                                         t: int, i: nat)
    requires giveUp > 0 && AllNear(from, giveUp, arrivals) && Honest(arrivals, sender) && from <= t
    requires i < |arrivals| && EarlyAt(giveUp, arrivals, t, i)
    ensures HasTimely(from, giveUp, arrivals, t)
    decreases i
  {
    hide Run, Higher, AllNear;
    if i' :| 0 <= i' < i && arrivals[i'].t == t {
      HigherOfPrefix(arrivals, i', i, t);
      EarlyIsTimely(from, giveUp, arrivals, sender, t, i');
    } else {
      NearBefore(from, giveUp, arrivals, i);
      RunWaits(from, giveUp, arrivals[..i], t);
      assert Timely(from, giveUp, arrivals, t, i);
    }
  }

  lemma AllEarlyIsTimely(from: int, giveUp: nat, arrivals: seq<Arrival>, sender: int -> Packet, to: int)
    requires giveUp > 0 && AllNear(from, giveUp, arrivals) && Honest(arrivals, sender)
    requires AllEarly(giveUp, arrivals, from, to)
    ensures AllTimely(from, giveUp, arrivals, to)
  {
    hide Run, AllNear, EarlyAt, Honest;
    forall t | from <= t < to
      ensures HasTimely(from, giveUp, arrivals, t)
    {
      assert Early(giveUp, arrivals, t);
      var i :| 0 <= i < |arrivals| && EarlyAt(giveUp, arrivals, t, i);
      EarlyIsTimely(from, giveUp, arrivals, sender, t, i);
    }
  }

  /** Arrivals that stay close to one another stay within the window of the expected number. */
  lemma {:induction false} CloseIsNear(from: int, giveUp: nat, arrivals: seq<Arrival>, sender: int -> Packet)
    requires giveUp > 0 && Honest(arrivals, sender) && Close(from, giveUp, arrivals)
    ensures AllNear(from, giveUp, arrivals)
  {
    hide Run, AllEarly, AllTimely, AllBelow;
    if arrivals != [] {
      var before, t := arrivals[..|arrivals| - 1], arrivals[|arrivals| - 1].t;
      CloseIsNear(from, giveUp, before, sender);
      AllEarlyIsTimely(from, giveUp, before, sender, t - (WRAP_CUTOFF - 1));
      TimelyIsReached(from, giveUp, before, t - (WRAP_CUTOFF - 1));
      RunStaysBelow(from, giveUp, before, t + WRAP_CUTOFF);
    }
  }

  /**
   * A condition on the network alone: if a good copy of every number below `to` arrives before `giveUp` higher
   * numbers do, and arrivals stay close, the 16-bit sequencer passes on exactly the sender's packets, in order,
   * once each.
   */
  lemma EarlyRunIsExact(from: int, giveUp: nat, arrivals: seq<Arrival>, sender: int -> Packet, to: int)
    requires giveUp > 0 && SequenceRefinement.OnWire(arrivals) && Honest(arrivals, sender) && from <= to
    requires Close(from, giveUp, arrivals) && AllEarly(giveUp, arrivals, from, to) && AllBelow(arrivals, to)
    ensures ProcessAll(SerialNumbers.Wire(from), giveUp, SequenceRefinement.Packets(arrivals)).1
         == Sent(sender, Range(from, to))
  {
    hide Run, ProcessAll, AllNear, SequenceRefinement.Refines, Sent, Range, Collect, Close, AllEarly, AllBelow, Honest;
    CloseIsNear(from, giveUp, arrivals, sender);
    AllEarlyIsTimely(from, giveUp, arrivals, sender, to);
    TimelyRunIsExact(from, giveUp, arrivals, sender, to);
    SequenceRefinement.SequencerRefines(from, giveUp, arrivals);
  }
}
