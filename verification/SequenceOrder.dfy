/** The sequencer over unbounded sequence numbers: the order in which it passes packets on, and their conservation. */
module SequenceOrder {
  import opened Sequencer

  /** The next number to pass on, and the packets kept for later under their true numbers. */
  datatype Order = Order(next: int, kept: map<int, Packet>)

  /** What becomes of a packet or of a number. */
  datatype Event =
    | Passed(t: int, p: Packet)      // handed to the application level
    | BadCrc(t: int, p: Packet)      // its turn came and its checksum was wrong
    | Stale(t: int, p: Packet)       // arrived after its turn
    | Superseded(t: int, p: Packet)  // kept, then replaced by a copy with a good checksum
    | Refused(t: int, p: Packet)     // a bad copy of a number already kept
    | Skipped(t: int)                // a number given up

  function Take(o: Order, t: int, p: Packet): (Order, seq<Event>) {
    if t == o.next then (Order(o.next + 1, o.kept), [Passed(t, p)])
    else if t < o.next then (o, [Stale(t, p)])
    else if t !in o.kept then (Order(o.next, o.kept[t := p]), [])
    else if p.crcOk then (Order(o.next, o.kept[t := p]), [Superseded(t, o.kept[t])])
    else (o, [Refused(t, p)])
  }

  /** Move to the nearest kept number, giving up those before it. */
  function Advance(o: Order, n: nat): (Order, seq<Event>)
    requires n <= WRAP_CUTOFF
    decreases WRAP_CUTOFF - n
  {
    if n == WRAP_CUTOFF || o.next + n in o.kept then (Order(o.next + n, o.kept), [])
    else
      var (o', es) := Advance(o, n + 1);
      (o', [Skipped(o.next + n)] + es)
  }

  function Abandon(o: Order, giveUp: nat): (Order, seq<Event>) {
    if |o.kept| >= giveUp then Advance(o, 0) else (o, [])
  }

  function Flush(o: Order): (Order, seq<Event>)
    decreases |o.kept|
  {
    if o.next !in o.kept then (o, [])
    else
      var p, rest := o.kept[o.next], o.kept - {o.next};
      Shrinks(o.kept, o.next);
      if !p.crcOk then (Order(o.next, rest), [BadCrc(o.next, p)])
      else
        var (o', es) := Flush(Order(o.next + 1, rest));
        (o', [Passed(o.next, p)] + es)
  }

  /** What `f` reads off each event, in order. */
  function Collect<T>(f: Event -> seq<T>, es: seq<Event>): seq<T> {
    if es == [] then [] else f(es[0]) + Collect(f, es[1..])
  }

  lemma {:induction false} CollectConcat<T>(f: Event -> seq<T>, a: seq<Event>, b: seq<Event>)
    ensures Collect(f, a + b) == Collect(f, a) + Collect(f, b)
  {
    if a == [] {
      assert a + b == b;
    } else {
      CollectConcat(f, a[1..], b);
      assert (a + b)[0] == a[0] && (a + b)[1..] == a[1..] + b;
      Associate(f(a[0]), Collect(f, a[1..]), Collect(f, b));
    }
  }

  lemma Associate<T>(a: seq<T>, b: seq<T>, c: seq<T>)
    ensures (a + b) + c == a + (b + c)
  {
  }

  lemma CollectNone<T>(f: Event -> seq<T>)
    ensures Collect(f, []) == []
  {
  }

  lemma CollectOne<T>(f: Event -> seq<T>, e: Event)
    ensures Collect(f, [e]) == f(e)
  {
    assert [e][1..] == [];
  }

  /** The packet an event hands to the application level. */
  function PassedOf(e: Event): seq<Packet> {
    if e.Passed? then [e.p] else []
  }

  /** One processPacket followed by one processCache. */
  function Handle(o: Order, giveUp: nat, t: int, p: Packet): (Order, seq<Event>) {
    var (o1, es1) := Take(o, t, p);
    var (o2, es2) := Abandon(o1, giveUp);
    var (o3, es3) := Flush(o2);
    (o3, es1 + es2 + es3)
  }

  datatype Arrival = Arrival(t: int, p: Packet)

  function Run(from: int, giveUp: nat, arrivals: seq<Arrival>): (Order, seq<Event>) {
    if arrivals == [] then (Order(from, map[]), [])
    else
      var a := arrivals[|arrivals| - 1];
      var (o, es) := Run(from, giveUp, arrivals[..|arrivals| - 1]);
      var (o', more) := Handle(o, giveUp, a.t, a.p);
      (o', es + more)
  }

  // ---- the window ----

  /** Everything kept is ahead of the next number, within the window. */
  predicate Ahead(o: Order) {
    forall t :: t in o.kept ==> o.next < t < o.next + WRAP_CUTOFF
  }

  /** The same between the steps of one arrival, when the next number itself may be kept. */
  predicate AtOrAhead(o: Order) {
    forall t :: t in o.kept ==> o.next <= t < o.next + WRAP_CUTOFF
  }

  predicate Near(o: Order, t: int) {
    -WRAP_CUTOFF <= t - o.next < WRAP_CUTOFF
  }

  /** Every packet arrives at most 1024 behind or 1023 ahead of the number expected then. */
  predicate AllNear(from: int, giveUp: nat, arrivals: seq<Arrival>) {
    arrivals != [] ==>
      var before := arrivals[..|arrivals| - 1];
      AllNear(from, giveUp, before) && Near(Run(from, giveUp, before).0, arrivals[|arrivals| - 1].t)
  }

  lemma {:induction false} AdvanceLands(o: Order, n: nat, d: nat)
    requires n <= d < WRAP_CUTOFF && o.next + d in o.kept
    ensures var o' := Advance(o, n).0;
            o'.kept == o.kept && o.next + n <= o'.next <= o.next + d && o'.next in o.kept
    ensures var o' := Advance(o, n).0; forall t :: o.next + n <= t < o'.next ==> t !in o.kept
    decreases d - n
  {
    if o.next + n !in o.kept { AdvanceLands(o, n + 1, d); }
  }

  lemma SomeKey(m: map<int, Packet>)
    requires |m| > 0
    ensures exists t :: t in m
  {
    if !exists t :: t in m {
      assert false;
    }
  }

  lemma Grows<K, V>(m: map<K, V>, k: K, v: V)
    ensures |m[k := v]| == if k in m then |m| else |m| + 1
  {
    assert m[k := v].Keys == m.Keys + {k};
    assert |m.Keys| == |m| && |m[k := v].Keys| == |m[k := v]|;
  }

  lemma AbandonKeeps(o: Order, giveUp: nat)
    requires AtOrAhead(o) && giveUp > 0
    ensures AtOrAhead(Abandon(o, giveUp).0)
    ensures Abandon(o, giveUp).0.kept == o.kept
    ensures o.next <= Abandon(o, giveUp).0.next
    ensures forall t :: t in o.kept ==> Abandon(o, giveUp).0.next <= t
  {
    if |o.kept| >= giveUp {
      SomeKey(o.kept);
      var t :| t in o.kept;
      AdvanceLands(o, 0, t - o.next);
    }
  }

  lemma {:induction false} FlushKeeps(o: Order)
    requires AtOrAhead(o)
    ensures Ahead(Flush(o).0)
    ensures o.next <= Flush(o).0.next
    decreases |o.kept|
  {
    if o.next in o.kept {
      Shrinks(o.kept, o.next);
      if o.kept[o.next].crcOk { FlushKeeps(Order(o.next + 1, o.kept - {o.next})); }
    }
  }

  /** The expected number never overtakes a kept packet, and never is one after a whole step. */
  lemma HandleKeeps(o: Order, giveUp: nat, t: int, p: Packet)
    requires Ahead(o) && Near(o, t) && giveUp > 0
    ensures Ahead(Handle(o, giveUp, t, p).0)
    ensures AtOrAhead(Take(o, t, p).0)
    ensures o.next <= Handle(o, giveUp, t, p).0.next
  {
    var o1 := Take(o, t, p).0;
    AbandonKeeps(o1, giveUp);
    FlushKeeps(Abandon(o1, giveUp).0);
  }

  lemma {:induction false} RunKeeps(from: int, giveUp: nat, arrivals: seq<Arrival>)
    requires giveUp > 0 && AllNear(from, giveUp, arrivals)
    ensures Ahead(Run(from, giveUp, arrivals).0)
  {
    hide Handle;
    if arrivals != [] {
      var before, a := arrivals[..|arrivals| - 1], arrivals[|arrivals| - 1];
      RunKeeps(from, giveUp, before);
      HandleKeeps(Run(from, giveUp, before).0, giveUp, a.t, a.p);
    }
  }

  // ---- order: every number is passed on or given up, in turn ----

  function Range(a: int, b: int): seq<int>
    decreases b - a
  {
    if a >= b then [] else [a] + Range(a + 1, b)
  }

  lemma {:induction false} RangeSplit(a: int, b: int, c: int)
    requires a <= b <= c
    ensures Range(a, b) + Range(b, c) == Range(a, c)
    decreases b - a
  {
    if a < b {
      RangeSplit(a + 1, b, c);
      Prepend(a, Range(a + 1, b), Range(b, c));
    }
  }

  lemma Prepend<T>(x: T, a: seq<T>, b: seq<T>)
    ensures ([x] + a) + b == [x] + (a + b)
  {
  }

  /** The number whose turn an event ends. */
  function TurnOf(e: Event): seq<int> {
    if e.Passed? || e.Skipped? then [e.t] else []
  }

  function Turns(es: seq<Event>): seq<int> {
    Collect(TurnOf, es)
  }

  lemma {:induction false} AdvanceTurns(o: Order, n: nat)
    requires n <= WRAP_CUTOFF
    ensures Advance(o, n).0.next >= o.next + n
    ensures Turns(Advance(o, n).1) == Range(o.next + n, Advance(o, n).0.next)
    decreases WRAP_CUTOFF - n
  {
    if n < WRAP_CUTOFF && o.next + n !in o.kept {
      AdvanceTurns(o, n + 1);
      CollectConcat(TurnOf, [Skipped(o.next + n)], Advance(o, n + 1).1);
      CollectOne(TurnOf, Skipped(o.next + n));
    }
  }

  lemma {:induction false} FlushTurns(o: Order)
    ensures Flush(o).0.next >= o.next
    ensures Turns(Flush(o).1) == Range(o.next, Flush(o).0.next)
    decreases |o.kept|
  {
    if o.next in o.kept {
      var p, rest := o.kept[o.next], o.kept - {o.next};
      Shrinks(o.kept, o.next);
      if p.crcOk {
        FlushTurns(Order(o.next + 1, rest));
        CollectConcat(TurnOf, [Passed(o.next, p)], Flush(Order(o.next + 1, rest)).1);
        CollectOne(TurnOf, Passed(o.next, p));
      } else {
        CollectOne(TurnOf, BadCrc(o.next, p));
      }
    }
  }

  lemma TakeTurns(o: Order, t: int, p: Packet)
    ensures Take(o, t, p).0.next >= o.next
    ensures Turns(Take(o, t, p).1) == Range(o.next, Take(o, t, p).0.next)
  {
    assert Range(o.next, o.next + 1) == [o.next] + Range(o.next + 1, o.next + 1);
    CollectOne(TurnOf, Passed(t, p));
    CollectOne(TurnOf, Stale(t, p));
    CollectOne(TurnOf, Refused(t, p));
    if t in o.kept { CollectOne(TurnOf, Superseded(t, o.kept[t])); }
  }

  lemma HandleTurns(o: Order, giveUp: nat, t: int, p: Packet)
    ensures var (o', es) := Handle(o, giveUp, t, p);
            o'.next >= o.next && Turns(es) == Range(o.next, o'.next)
  {
    hide Collect, Range, Take, Flush, Advance;
    var (o1, es1) := Take(o, t, p);
    var (o2, es2) := Abandon(o1, giveUp);
    var (o3, es3) := Flush(o2);
    TakeTurns(o, t, p);
    if |o1.kept| >= giveUp { AdvanceTurns(o1, 0); } else { NoTurns(o1.next); }
    FlushTurns(o2);
    CollectConcat(TurnOf, es1 + es2, es3);
    CollectConcat(TurnOf, es1, es2);
    RangeSplit(o.next, o1.next, o2.next);
    RangeSplit(o.next, o2.next, o3.next);
  }

  lemma NoTurns(a: int)
    ensures Turns([]) == Range(a, a) == []
  {
  }

  /**
   * Over a whole run, in any order of arrival, the numbers passed on or given up are exactly the consecutive
   * numbers from the first expected one: none twice, none out of order, none unaccounted for.
   */
  lemma {:induction false} EveryNumberHasItsTurn(from: int, giveUp: nat, arrivals: seq<Arrival>)
    ensures var (o, es) := Run(from, giveUp, arrivals);
            o.next >= from && Turns(es) == Range(from, o.next)
  {
    hide Collect, Range, Handle;
    if arrivals == [] {
      NoTurns(from);
    } else {
      var before, a := arrivals[..|arrivals| - 1], arrivals[|arrivals| - 1];
      EveryNumberHasItsTurn(from, giveUp, before);
      var (o, es) := Run(from, giveUp, before);
      var (o', more) := Handle(o, giveUp, a.t, a.p);
      HandleTurns(o, giveUp, a.t, a.p);
      CollectConcat(TurnOf, es, more);
      RangeSplit(from, o.next, o'.next);
    }
  }

  // ---- conservation: every packet is kept or ends in one event ----

  /** The packet an event disposes of. */
  function EndOf(e: Event): seq<(int, Packet)> {
    if e.Skipped? then [] else [(e.t, e.p)]
  }

  function Ended(es: seq<Event>): multiset<(int, Packet)> {
    multiset(Collect(EndOf, es))
  }

  function Kept(kept: map<int, Packet>): multiset<(int, Packet)> {
    multiset(Pairs(kept))
  }

  function Pairs(kept: map<int, Packet>): set<(int, Packet)> {
    set t | t in kept :: (t, kept[t])
  }

  function Arrived(arrivals: seq<Arrival>): multiset<(int, Packet)> {
    if arrivals == [] then multiset{}
    else var a := arrivals[|arrivals| - 1]; Arrived(arrivals[..|arrivals| - 1]) + multiset{(a.t, a.p)}
  }

  lemma EndedConcat(a: seq<Event>, b: seq<Event>)
    ensures Ended(a + b) == Ended(a) + Ended(b)
    ensures Ended([]) == multiset{}
  {
    CollectConcat(EndOf, a, b);
  }

  lemma EndedOne(e: Event)
    ensures Ended([e]) == if e.Skipped? then multiset{} else multiset{(e.t, e.p)}
  {
    CollectOne(EndOf, e);
  }

  lemma KeepNew(kept: map<int, Packet>, t: int, p: Packet)
    requires t !in kept
    ensures Kept(kept[t := p]) == Kept(kept) + multiset{(t, p)}
  {
    var more := kept[t := p];
    forall x | x in Pairs(more)
      ensures x in Pairs(kept) + {(t, p)}
    {
      assert x.0 in more && more[x.0] == x.1;
    }
    forall x | x in Pairs(kept) + {(t, p)}
      ensures x in Pairs(more)
    {
      assert x.0 in more && more[x.0] == x.1;
    }
    assert Pairs(more) == Pairs(kept) + {(t, p)};
    assert (t, p) !in Pairs(kept);
  }

  lemma KeepNot(kept: map<int, Packet>, t: int)
    requires t in kept
    ensures Kept(kept) == Kept(kept - {t}) + multiset{(t, kept[t])}
  {
    KeepNew(kept - {t}, t, kept[t]);
    assert (kept - {t})[t := kept[t]] == kept;
  }

  lemma KeepOther(kept: map<int, Packet>, t: int, p: Packet)
    requires t in kept
    ensures Kept(kept[t := p]) + multiset{(t, kept[t])} == Kept(kept) + multiset{(t, p)}
  {
    hide Kept;
    KeepNot(kept, t);
    KeepNew(kept - {t}, t, p);
    assert (kept - {t})[t := p] == kept[t := p];
  }

  lemma TakeConserves(o: Order, t: int, p: Packet)
    ensures var (o', es) := Take(o, t, p); Kept(o.kept) + multiset{(t, p)} == Kept(o'.kept) + Ended(es)
  {
    hide Ended, Kept;
    EndedConcat([], []);
    if t == o.next {
      EndedOne(Passed(t, p));
    } else if t < o.next {
      EndedOne(Stale(t, p));
    } else if t !in o.kept {
      KeepNew(o.kept, t, p);
    } else if p.crcOk {
      EndedOne(Superseded(t, o.kept[t]));
      KeepOther(o.kept, t, p);
    } else {
      EndedOne(Refused(t, p));
    }
  }

  lemma {:induction false} AdvanceConserves(o: Order, n: nat)
    requires n <= WRAP_CUTOFF
    ensures Advance(o, n).0.kept == o.kept && Ended(Advance(o, n).1) == multiset{}
    decreases WRAP_CUTOFF - n
  {
    hide Ended;
    EndedConcat([], []);
    if n < WRAP_CUTOFF && o.next + n !in o.kept {
      AdvanceConserves(o, n + 1);
      EndedOne(Skipped(o.next + n));
      EndedConcat([Skipped(o.next + n)], Advance(o, n + 1).1);
    }
  }

  lemma {:induction false} FlushConserves(o: Order)
    ensures Kept(o.kept) == Kept(Flush(o).0.kept) + Ended(Flush(o).1)
    decreases |o.kept|
  {
    hide Ended, Kept;
    EndedConcat([], []);
    if o.next in o.kept {
      var p, rest := o.kept[o.next], o.kept - {o.next};
      Shrinks(o.kept, o.next);
      KeepNot(o.kept, o.next);
      if p.crcOk {
        EndedOne(Passed(o.next, p));
        FlushConserves(Order(o.next + 1, rest));
        EndedConcat([Passed(o.next, p)], Flush(Order(o.next + 1, rest)).1);
      } else {
        EndedOne(BadCrc(o.next, p));
      }
    }
  }

  lemma HandleConserves(o: Order, giveUp: nat, t: int, p: Packet)
    ensures var (o', es) := Handle(o, giveUp, t, p); Kept(o.kept) + multiset{(t, p)} == Kept(o'.kept) + Ended(es)
  {
    hide Ended, Kept, Take, Flush, Advance;
    var (o1, es1) := Take(o, t, p);
    var (o2, es2) := Abandon(o1, giveUp);
    var (o3, es3) := Flush(o2);
    TakeConserves(o, t, p);
    if |o1.kept| >= giveUp { AdvanceConserves(o1, 0); }
    FlushConserves(o2);
    EndedConcat(es1 + es2, es3);
    EndedConcat(es1, es2);
  }

  /** Packets that arrived = still kept + passed on, stale, superseded, refused or dropped for their checksum. */
  lemma {:induction false} PacketsAreConserved(from: int, giveUp: nat, arrivals: seq<Arrival>)
    ensures var (o, es) := Run(from, giveUp, arrivals); Arrived(arrivals) == Kept(o.kept) + Ended(es)
  {
    hide Ended, Handle;
    EndedConcat([], []);
    if arrivals == [] {
      var none: map<int, Packet> := map[];
      assert Pairs(none) == {};
    } else {
      var before, a := arrivals[..|arrivals| - 1], arrivals[|arrivals| - 1];
      PacketsAreConserved(from, giveUp, before);
      var (o, es) := Run(from, giveUp, before);
      HandleConserves(o, giveUp, a.t, a.p);
      var (o', more) := Handle(o, giveUp, a.t, a.p);
      EndedConcat(es, more);
      Regroup(Arrived(before), Kept(o.kept), Ended(es), multiset{(a.t, a.p)}, Kept(o'.kept), Ended(more));
    }
  }

  lemma Regroup<T>(arrived: multiset<T>, kept: multiset<T>, ended: multiset<T>,
                   x: multiset<T>, kept': multiset<T>, more: multiset<T>)
    requires arrived == kept + ended && kept + x == kept' + more
    ensures arrived + x == kept' + (ended + more)
  {
    assert arrived + x == (kept + x) + ended;
  }
}
