/** What the sequencer guarantees: good copies in time are passed on, and numbers are given up only when need be. */
module SequenceGuarantees {
  import opened Sequencer
  import opened SequenceOrder

  // ---- a good copy that comes in time is never lost ----

  predicate WasPassed(es: seq<Event>, t: int) {
    exists i :: 0 <= i < |es| && es[i].Passed? && es[i].t == t
  }

  predicate KeptGood(o: Order, t: int) {
    t in o.kept && o.kept[t].crcOk
  }

  lemma WasPassedConcat(a: seq<Event>, b: seq<Event>, t: int)
    ensures WasPassed(a + b, t) <==> WasPassed(a, t) || WasPassed(b, t)
  {
    if WasPassed(a, t) {
      var i :| 0 <= i < |a| && a[i].Passed? && a[i].t == t;
      assert (a + b)[i] == a[i];
    }
    if WasPassed(b, t) {
      var i :| 0 <= i < |b| && b[i].Passed? && b[i].t == t;
      assert (a + b)[|a| + i] == b[i];
    }
  }

  lemma TakeSecures(o: Order, t: int, p: Packet, u: int)
    requires KeptGood(o, u) || (u == t && p.crcOk && o.next <= t)
    ensures var (o', es) := Take(o, t, p); WasPassed(es, u) || KeptGood(o', u)
  {
    if t == o.next && u == t {
      assert [Passed(t, p)][0].Passed?;
    }
  }

  lemma {:induction false} FlushSecures(o: Order, u: int)
    requires KeptGood(o, u)
    ensures var (o', es) := Flush(o); WasPassed(es, u) || KeptGood(o', u)
    decreases |o.kept|
  {
    if o.next in o.kept {
      var p, rest := o.kept[o.next], o.kept - {o.next};
      Shrinks(o.kept, o.next);
      if p.crcOk {
        var es := Flush(Order(o.next + 1, rest)).1;
        WasPassedConcat([Passed(o.next, p)], es, u);
        if u == o.next {
          assert [Passed(o.next, p)][0].Passed?;
        } else {
          FlushSecures(Order(o.next + 1, rest), u);
        }
      }
    }
  }

  lemma {:induction false} AdvanceKeepsAll(o: Order, n: nat)
    requires n <= WRAP_CUTOFF
    ensures Advance(o, n).0.kept == o.kept
    decreases WRAP_CUTOFF - n
  {
    if n < WRAP_CUTOFF && o.next + n !in o.kept { AdvanceKeepsAll(o, n + 1); }
  }

  lemma HandleSecures(o: Order, giveUp: nat, t: int, p: Packet, u: int)
    requires KeptGood(o, u) || (u == t && p.crcOk && o.next <= t)
    ensures var (o', es) := Handle(o, giveUp, t, p); WasPassed(es, u) || KeptGood(o', u)
  {
    hide WasPassed, Take, Flush, Advance;
    var (o1, es1) := Take(o, t, p);
    var (o2, es2) := Abandon(o1, giveUp);
    var es3 := Flush(o2).1;
    TakeSecures(o, t, p, u);
    AdvanceKeepsAll(o1, 0);
    if KeptGood(o1, u) { FlushSecures(o2, u); }
    WasPassedConcat(es1 + es2, es3, u);
    WasPassedConcat(es1, es2, u);
  }

  /** A good copy that arrives before its number's turn has passed is passed on, or a good copy is still kept. */
  lemma {:induction false} GoodCopyStays(from: int, giveUp: nat, arrivals: seq<Arrival>, i: nat)
    requires i < |arrivals| && arrivals[i].p.crcOk
    requires Run(from, giveUp, arrivals[..i]).0.next <= arrivals[i].t
    ensures var (o, es) := Run(from, giveUp, arrivals);
            WasPassed(es, arrivals[i].t) || KeptGood(o, arrivals[i].t)
  {
    hide Handle, WasPassed, KeptGood;
    var last := |arrivals| - 1;
    var before, a, u := arrivals[..last], arrivals[last], arrivals[i].t;
    var (o, es) := Run(from, giveUp, before);
    if i < last {
      assert before[..i] == arrivals[..i];
      GoodCopyStays(from, giveUp, before, i);
    }
    if i == last || KeptGood(o, u) {
      HandleSecures(o, giveUp, a.t, a.p, u);
    }
    WasPassedConcat(es, Handle(o, giveUp, a.t, a.p).1, u);
  }

  /** So once its turn is over it has been passed on: the number was not given up. */
  lemma GoodCopyIsPassed(from: int, giveUp: nat, arrivals: seq<Arrival>, i: nat)
    requires giveUp > 0 && AllNear(from, giveUp, arrivals)
    requires i < |arrivals| && arrivals[i].p.crcOk
    requires Run(from, giveUp, arrivals[..i]).0.next <= arrivals[i].t < Run(from, giveUp, arrivals).0.next
    ensures WasPassed(Run(from, giveUp, arrivals).1, arrivals[i].t)
  {
    GoodCopyStays(from, giveUp, arrivals, i);
    RunKeeps(from, giveUp, arrivals);
  }

  // ---- what is passed on, and what its checksum is ----

  predicate PassedAs(es: seq<Event>, t: int, p: Packet) {
    exists i :: 0 <= i < |es| && es[i] == Passed(t, p)
  }

  lemma PassedAsConcat(a: seq<Event>, b: seq<Event>, t: int, p: Packet)
    ensures PassedAs(a + b, t, p) <==> PassedAs(a, t, p) || PassedAs(b, t, p)
  {
    if PassedAs(a, t, p) {
      var i :| 0 <= i < |a| && a[i] == Passed(t, p);
      assert (a + b)[i] == a[i];
    }
    if PassedAs(b, t, p) {
      var i :| 0 <= i < |b| && b[i] == Passed(t, p);
      assert (a + b)[|a| + i] == b[i];
    }
  }

  /** A packet that arrives when it is expected is passed on at once, whatever its checksum. */
  lemma {:induction false} ExpectedIsPassed(from: int, giveUp: nat, arrivals: seq<Arrival>, i: nat)
    requires i < |arrivals| && arrivals[i].t == Run(from, giveUp, arrivals[..i]).0.next
    ensures PassedAs(Run(from, giveUp, arrivals).1, arrivals[i].t, arrivals[i].p)
  {
    hide Handle, PassedAs;
    var last := |arrivals| - 1;
    var before, a := arrivals[..last], arrivals[last];
    var (o, es) := Run(from, giveUp, before);
    PassedAsConcat(es, Handle(o, giveUp, a.t, a.p).1, arrivals[i].t, arrivals[i].p);
    if i < last {
      assert before[..i] == arrivals[..i];
      ExpectedIsPassed(from, giveUp, before, i);
    } else {
      HandlePasses(o, giveUp, a.t, a.p);
    }
  }

  lemma HandlePasses(o: Order, giveUp: nat, t: int, p: Packet)
    requires t == o.next
    ensures PassedAs(Handle(o, giveUp, t, p).1, t, p)
  {
    hide Flush, Advance;
    assert Handle(o, giveUp, t, p).1[0] == Passed(t, p);
  }

  /** Some arrival brought packet `p` as number `t`. */
  predicate Arrived(arrivals: seq<Arrival>, t: int, p: Packet) {
    exists i :: 0 <= i < |arrivals| && arrivals[i] == Arrival(t, p)
  }

  /** It came just when it was expected. */
  predicate CameInTurn(from: int, giveUp: nat, arrivals: seq<Arrival>, t: int, p: Packet) {
    exists i :: 0 <= i < |arrivals| && arrivals[i] == Arrival(t, p) && Expects(from, giveUp, arrivals[..i], t)
  }

  predicate Expects(from: int, giveUp: nat, arrivals: seq<Arrival>, t: int) {
    Run(from, giveUp, arrivals).0.next == t
  }

  lemma ArrivedBefore(from: int, giveUp: nat, before: seq<Arrival>, a: Arrival, t: int, p: Packet)
    ensures Arrived(before, t, p) ==> Arrived(before + [a], t, p)
    ensures CameInTurn(from, giveUp, before, t, p) ==> CameInTurn(from, giveUp, before + [a], t, p)
    ensures Arrived(before + [a], a.t, a.p)
    ensures Expects(from, giveUp, before, a.t) ==> CameInTurn(from, giveUp, before + [a], a.t, a.p)
  {
    hide Expects;
    var more := before + [a];
    assert more[|before|] == a && more[..|before|] == before;
    if Arrived(before, t, p) {
      var i :| 0 <= i < |before| && before[i] == Arrival(t, p);
      assert more[i] == before[i];
    }
    if CameInTurn(from, giveUp, before, t, p) {
      var i :| 0 <= i < |before| && before[i] == Arrival(t, p) && Expects(from, giveUp, before[..i], t);
      assert more[i] == before[i] && more[..i] == before[..i];
    }
  }

  lemma {:induction false} FlushPassesKept(o: Order, t: int, p: Packet)
    ensures PassedAs(Flush(o).1, t, p) ==> p.crcOk && t in o.kept && o.kept[t] == p
    ensures t in Flush(o).0.kept ==> t in o.kept && Flush(o).0.kept[t] == o.kept[t]
    decreases |o.kept|
  {
    if o.next in o.kept {
      Shrinks(o.kept, o.next);
      var rest := Order(o.next + 1, o.kept - {o.next});
      if o.kept[o.next].crcOk {
        FlushPassesKept(rest, t, p);
        PassedAsConcat([Passed(o.next, o.kept[o.next])], Flush(rest).1, t, p);
      }
    }
  }

  lemma {:induction false} AdvancePassesNone(o: Order, n: nat, t: int, p: Packet)
    requires n <= WRAP_CUTOFF
    ensures !PassedAs(Advance(o, n).1, t, p)
    decreases WRAP_CUTOFF - n
  {
    if n < WRAP_CUTOFF && o.next + n !in o.kept {
      AdvancePassesNone(o, n + 1, t, p);
      PassedAsConcat([Skipped(o.next + n)], Advance(o, n + 1).1, t, p);
    }
  }

  /** What one step passes on is the arriving packet in its turn, or a kept one with a good checksum. */
  lemma HandlePassesOnly(o: Order, giveUp: nat, at: int, a: Packet, t: int, p: Packet)
    ensures var (o', es) := Handle(o, giveUp, at, a);
            && (PassedAs(es, t, p) ==>
                  || (t == at == o.next && p == a)
                  || (p.crcOk && ((t == at && p == a) || (t in o.kept && o.kept[t] == p))))
            && (t in o'.kept ==> (t == at && o'.kept[t] == a) || (t in o.kept && o'.kept[t] == o.kept[t]))
  {
    hide Flush, Advance, PassedAs;
    var (o1, es1) := Take(o, at, a);
    var (o2, es2) := Abandon(o1, giveUp);
    var es3 := Flush(o2).1;
    TakePassesOnly(o, at, a, t, p);
    AdvanceKeepsAll(o1, 0);
    AdvancePassesNone(o1, 0, t, p);
    NonePassed(t, p);
    FlushPassesKept(o2, t, p);
    PassedAsConcat(es1 + es2, es3, t, p);
    PassedAsConcat(es1, es2, t, p);
  }

  lemma TakePassesOnly(o: Order, at: int, a: Packet, t: int, p: Packet)
    ensures PassedAs(Take(o, at, a).1, t, p) ==> t == at == o.next && p == a
  {
  }

  lemma NonePassed(t: int, p: Packet)
    ensures !PassedAs([], t, p)
  {
  }

  /** Only packets that arrived are passed on, and one with a bad checksum only if it came just when it was expected. */
  lemma {:induction false} PassedIsGoodOrInTurn(from: int, giveUp: nat, arrivals: seq<Arrival>, t: int, p: Packet)
    ensures var (o, es) := Run(from, giveUp, arrivals);
            && (PassedAs(es, t, p) ==>
                  Arrived(arrivals, t, p) && (p.crcOk || CameInTurn(from, giveUp, arrivals, t, p)))
            && (t in o.kept && o.kept[t] == p ==> Arrived(arrivals, t, p))
  {
    hide Handle, PassedAs, Arrived, CameInTurn;
    if arrivals == [] {
      NonePassed(t, p);
    } else {
      var before, a := arrivals[..|arrivals| - 1], arrivals[|arrivals| - 1];
      assert arrivals == before + [a];
      var (o, es) := Run(from, giveUp, before);
      PassedIsGoodOrInTurn(from, giveUp, before, t, p);
      ArrivedBefore(from, giveUp, before, a, t, p);
      HandlePassesOnly(o, giveUp, a.t, a.p, t, p);
      PassedAsConcat(es, Handle(o, giveUp, a.t, a.p).1, t, p);
    }
  }

  // ---- when numbers are given up ----

  /** After taking arrival `i` the cache holds at least `giveUp` packets, none of them number `u`. */
  predicate FullWithout(from: int, giveUp: nat, arrivals: seq<Arrival>, u: int, i: nat)
    requires i < |arrivals|
  {
    var o := Take(Run(from, giveUp, arrivals[..i]).0, arrivals[i].t, arrivals[i].p).0;
    |o.kept| >= giveUp && u !in o.kept
  }

  lemma {:induction false} AdvanceSkips(o: Order, n: nat, u: int)
    requires n <= WRAP_CUTOFF && Skipped(u) in Advance(o, n).1
    ensures u !in o.kept
    decreases WRAP_CUTOFF - n
  {
    if n < WRAP_CUTOFF && o.next + n !in o.kept && u != o.next + n { AdvanceSkips(o, n + 1, u); }
  }

  lemma {:induction false} FlushSkipsNone(o: Order, u: int)
    ensures Skipped(u) !in Flush(o).1
    decreases |o.kept|
  {
    if o.next in o.kept {
      Shrinks(o.kept, o.next);
      FlushSkipsNone(Order(o.next + 1, o.kept - {o.next}), u);
    }
  }

  /** A number is given up only when the cache is full enough and does not hold it. */
  lemma {:induction false} SkippedMeansFull(from: int, giveUp: nat, arrivals: seq<Arrival>, u: int)
    requires Skipped(u) in Run(from, giveUp, arrivals).1
    ensures exists i :: 0 <= i < |arrivals| && FullWithout(from, giveUp, arrivals, u, i)
  {
    hide Take, Flush, Advance;
    var last := |arrivals| - 1;
    var before, a := arrivals[..last], arrivals[last];
    var (o, es) := Run(from, giveUp, before);
    if Skipped(u) in es {
      SkippedMeansFull(from, giveUp, before, u);
      var i :| 0 <= i < |before| && FullWithout(from, giveUp, before, u, i);
      assert before[..i] == arrivals[..i];
      assert FullWithout(from, giveUp, arrivals, u, i);
    } else {
      HandleSkips(o, giveUp, a.t, a.p, u);
      assert FullWithout(from, giveUp, arrivals, u, last);
    }
  }

  lemma HandleSkips(o: Order, giveUp: nat, t: int, p: Packet, u: int)
    requires Skipped(u) in Handle(o, giveUp, t, p).1
    ensures var o1 := Take(o, t, p).0; |o1.kept| >= giveUp && u !in o1.kept
  {
    hide Flush, Advance;
    var o1 := Take(o, t, p).0;
    FlushSkipsNone(Abandon(o1, giveUp).0, u);
    if |o1.kept| >= giveUp { AdvanceSkips(o1, 0, u); }
  }

  // ---- the cache stays small ----

  lemma {:induction false} FlushShrinks(o: Order)
    ensures |Flush(o).0.kept| <= |o.kept|
    ensures o.next in o.kept ==> |Flush(o).0.kept| < |o.kept|
    decreases |o.kept|
  {
    if o.next in o.kept {
      Shrinks(o.kept, o.next);
      FlushShrinks(Order(o.next + 1, o.kept - {o.next}));
    }
  }

  /** Giving up makes room: a full cache always loses a packet. */
  lemma HandleStaysBelow(o: Order, giveUp: nat, t: int, p: Packet)
    requires Ahead(o) && Near(o, t) && |o.kept| < giveUp
    ensures |Handle(o, giveUp, t, p).0.kept| < giveUp
  {
    hide Flush, Advance;
    var o1 := Take(o, t, p).0;
    Grows(o.kept, t, p);
    if |o1.kept| >= giveUp {
      SomeKey(o1.kept);
      var u :| u in o1.kept;
      AdvanceLands(o1, 0, u - o1.next);
    }
    FlushShrinks(Abandon(o1, giveUp).0);
  }

  /** The cache never reaches the give-up limit between arrivals. */
  lemma {:induction false} CacheStaysBelowLimit(from: int, giveUp: nat, arrivals: seq<Arrival>)
    requires giveUp > 0 && AllNear(from, giveUp, arrivals)
    ensures |Run(from, giveUp, arrivals).0.kept| < giveUp
  {
    hide Handle;
    if arrivals != [] {
      var before, a := arrivals[..|arrivals| - 1], arrivals[|arrivals| - 1];
      CacheStaysBelowLimit(from, giveUp, before);
      RunKeeps(from, giveUp, before);
      HandleStaysBelow(Run(from, giveUp, before).0, giveUp, a.t, a.p);
    }
  }

  // ---- an honest sender ----

  /** Every copy of a number is the packet the sender numbered so. */
  predicate Honest(arrivals: seq<Arrival>, sender: int -> Packet) {
    forall i :: 0 <= i < |arrivals| ==> arrivals[i].p == sender(arrivals[i].t)
  }

  function Sent(sender: int -> Packet, ts: seq<int>): seq<Packet> {
    if ts == [] then [] else [sender(ts[0])] + Sent(sender, ts[1..])
  }

  predicate KeptAsSent(o: Order, sender: int -> Packet) {
    forall t :: t in o.kept ==> o.kept[t] == sender(t)
  }

  predicate PassedAsSent(es: seq<Event>, sender: int -> Packet) {
    forall i :: 0 <= i < |es| && es[i].Passed? ==> es[i].p == sender(es[i].t)
  }

  lemma {:induction false} FlushAsSent(o: Order, sender: int -> Packet)
    requires KeptAsSent(o, sender)
    ensures KeptAsSent(Flush(o).0, sender) && PassedAsSent(Flush(o).1, sender)
    decreases |o.kept|
  {
    if o.next in o.kept {
      Shrinks(o.kept, o.next);
      FlushAsSent(Order(o.next + 1, o.kept - {o.next}), sender);
    }
  }

  lemma {:induction false} AdvanceAsSent(o: Order, n: nat, sender: int -> Packet)
    requires n <= WRAP_CUTOFF
    ensures Advance(o, n).0.kept == o.kept && PassedAsSent(Advance(o, n).1, sender)
    decreases WRAP_CUTOFF - n
  {
    if n < WRAP_CUTOFF && o.next + n !in o.kept { AdvanceAsSent(o, n + 1, sender); }
  }

  lemma HandleAsSent(o: Order, giveUp: nat, t: int, p: Packet, sender: int -> Packet)
    requires KeptAsSent(o, sender) && p == sender(t)
    ensures KeptAsSent(Handle(o, giveUp, t, p).0, sender) && PassedAsSent(Handle(o, giveUp, t, p).1, sender)
  {
    hide Flush, Advance;
    var o1 := Take(o, t, p).0;
    AdvanceAsSent(o1, 0, sender);
    FlushAsSent(Abandon(o1, giveUp).0, sender);
  }

  lemma {:induction false} RunAsSent(from: int, giveUp: nat, arrivals: seq<Arrival>, sender: int -> Packet)
    requires Honest(arrivals, sender)
    ensures KeptAsSent(Run(from, giveUp, arrivals).0, sender) && PassedAsSent(Run(from, giveUp, arrivals).1, sender)
  {
    hide Handle;
    if arrivals != [] {
      var before, a := arrivals[..|arrivals| - 1], arrivals[|arrivals| - 1];
      RunAsSent(from, giveUp, before, sender);
      HandleAsSent(Run(from, giveUp, before).0, giveUp, a.t, a.p, sender);
    }
  }

  lemma {:induction false} SentConcat(sender: int -> Packet, a: seq<int>, b: seq<int>)
    ensures Sent(sender, a + b) == Sent(sender, a) + Sent(sender, b)
  {
    if a == [] {
      assert a + b == b;
    } else {
      SentConcat(sender, a[1..], b);
      assert (a + b)[0] == a[0] && (a + b)[1..] == a[1..] + b;
      Associate([sender(a[0])], Sent(sender, a[1..]), Sent(sender, b));
    }
  }

  /** Without a number given up, what is passed on is the sender's packets in turn. */
  lemma {:induction false} PassedInTurn(es: seq<Event>, sender: int -> Packet)
    requires PassedAsSent(es, sender) && forall i :: 0 <= i < |es| ==> !es[i].Skipped?
    ensures Collect(PassedOf, es) == Sent(sender, Turns(es))
  {
    if es != [] {
      PassedInTurn(es[1..], sender);
      SentConcat(sender, TurnOf(es[0]), Turns(es[1..]));
      assert Sent(sender, []) == [];
      assert Sent(sender, [es[0].t]) == [sender(es[0].t)] + Sent(sender, []);
    }
  }

  lemma {:induction false} RangeAt(a: int, b: int, k: nat)
    requires k < |Range(a, b)|
    ensures Range(a, b)[k] == a + k
    decreases b - a
  {
    if k > 0 { RangeAt(a + 1, b, k - 1); }
  }

  /** Where the turn that event `i` ends stands among the turns. */
  lemma TurnAt(es: seq<Event>, i: nat)
    requires i < |es| && (es[i].Passed? || es[i].Skipped?)
    ensures |Turns(es[..i])| < |Turns(es)| && Turns(es)[|Turns(es[..i])|] == es[i].t
    ensures |Turns(es[..i + 1])| == |Turns(es[..i])| + 1
  {
    assert es == (es[..i] + [es[i]]) + es[i + 1..];
    assert es[..i + 1] == es[..i] + [es[i]];
    CollectConcat(TurnOf, es[..i] + [es[i]], es[i + 1..]);
    CollectConcat(TurnOf, es[..i], [es[i]]);
    CollectOne(TurnOf, es[i]);
  }

  lemma TurnsGrow(es: seq<Event>, i: nat, j: nat)
    requires i <= j <= |es|
    ensures |Turns(es[..i])| <= |Turns(es[..j])|
  {
    assert es[..j] == es[..i] + es[i..j];
    CollectConcat(TurnOf, es[..i], es[i..j]);
  }

  /** When the turns are consecutive numbers, no number has two. */
  lemma OneTurnEach(es: seq<Event>, a: int, b: int, i: nat, j: nat)
    requires Turns(es) == Range(a, b)
    requires i < j < |es| && (es[i].Passed? || es[i].Skipped?) && (es[j].Passed? || es[j].Skipped?)
    ensures es[i].t != es[j].t
  {
    hide Turns, Range;
    TurnAt(es, i);
    TurnAt(es, j);
    TurnsGrow(es, i + 1, j);
    RangeAt(a, b, |Turns(es[..i])|);
    RangeAt(a, b, |Turns(es[..j])|);
  }

  lemma {:induction false} RangeLength(a: int, b: int)
    requires a <= b
    ensures |Range(a, b)| == b - a
    decreases b - a
  {
    if a < b { RangeLength(a + 1, b); }
  }
}
