/** The 16-bit sequencer passes on what the unbounded one does, as long as arrivals stay within the window. */
module SequenceRefinement {
  import opened SerialNumbers
  import opened Sequencer
  import opened SequenceOrder

  // ---- the 16-bit sequencer refines this one ----

  /** Number `t` is cached under its wire number exactly when it is kept, and it is the same packet. */
  predicate SameAt(cache: Cache, kept: map<int, Packet>, t: int) {
    && (Wire(t) in cache <==> t in kept)
    && (t in kept ==> cache[Wire(t)] == kept[t])
  }

  /** The 16-bit cache holds the kept packets under their wire numbers, and nothing else. */
  predicate Refines(w: Window, o: Order) {
    && w.exp == Wire(o.next) && AtOrAhead(o)
    && |w.cache| == |o.kept|
    && forall t :: o.next <= t < o.next + SPACE ==> SameAt(w.cache, o.kept, t)
  }

  lemma WireInjective(t: int, u: int)
    requires t != u && -SPACE < t - u < SPACE
    ensures Wire(t) != Wire(u)
  {
    WireDifference(t, u);
  }

  lemma WireWraps(t: int)
    ensures Wire(t - SPACE) == Wire(t)
    ensures Next(Wire(t)) == Wire(t + 1)
  {
  }

  lemma SameSlot(w: Window, o: Order, d: nat)
    requires Refines(w, o) && d < SPACE
    ensures SameAt(w.cache, o.kept, o.next + d)
  {
  }

  /** Moving on past a number that is not kept keeps the correspondence. */
  lemma MoveOn(w: Window, o: Order)
    requires Refines(w, o) && o.next !in o.kept
    ensures Refines(Window(Next(w.exp), w.cache), Order(o.next + 1, o.kept))
  {
    hide Wire, Next;
    WireWraps(o.next);
    WireWraps(o.next + SPACE);
    assert SameAt(w.cache, o.kept, o.next);
    assert SameAt(w.cache, o.kept, o.next + SPACE);
  }

  lemma DropSlot(w: Window, o: Order)
    requires Refines(w, o) && o.next in o.kept
    ensures w.exp in w.cache && w.cache[w.exp] == o.kept[o.next]
    ensures Refines(Window(w.exp, w.cache - {w.exp}), Order(o.next, o.kept - {o.next}))
  {
    hide Wire;
    assert SameAt(w.cache, o.kept, o.next);
    Shrinks(w.cache, w.exp);
    Shrinks(o.kept, o.next);
    forall t | o.next <= t < o.next + SPACE
      ensures SameAt(w.cache - {w.exp}, o.kept - {o.next}, t)
    {
      assert SameAt(w.cache, o.kept, t);
      if t != o.next { WireInjective(t, o.next); }
    }
  }

  lemma PutRefines(w: Window, o: Order, t: int, p: Packet)
    requires Refines(w, o) && p.arqSeq == Wire(t) && o.next < t < o.next + WRAP_CUTOFF
    ensures Wire(t) in w.cache <==> t in o.kept
    ensures Refines(Window(w.exp, w.cache[Wire(t) := p]), Order(o.next, o.kept[t := p]))
  {
    hide Wire;
    assert SameAt(w.cache, o.kept, t);
    Grows(w.cache, Wire(t), p);
    Grows(o.kept, t, p);
    var cache, kept := w.cache[Wire(t) := p], o.kept[t := p];
    forall u | o.next <= u < o.next + SPACE
      ensures SameAt(cache, kept, u)
    {
      assert SameAt(w.cache, o.kept, u);
      if u != t { WireInjective(u, t); }
    }
  }

  lemma TakeRefines(w: Window, o: Order, t: int, p: Packet)
    requires Refines(w, o) && Ahead(o) && Near(o, t) && p.arqSeq == Wire(t)
    ensures Refines(Receive(w, p).0, Take(o, t, p).0)
    ensures Receive(w, p).1 == Collect(PassedOf, Take(o, t, p).1)
  {
    hide Refines, Collect, Wire, Next, Future;
    FutureInWindow(o.next, t);
    RefinesExp(w, o);
    CollectNone(PassedOf);
    CollectOne(PassedOf, Passed(t, p));
    CollectOne(PassedOf, Stale(t, p));
    CollectOne(PassedOf, Refused(t, p));
    if t in o.kept { CollectOne(PassedOf, Superseded(t, o.kept[t])); }
    if t == o.next {
      MoveOn(w, o);
    } else if t > o.next {
      PutRefines(w, o, t, p);
    }
  }

  lemma RefinesExp(w: Window, o: Order)
    requires Refines(w, o)
    ensures w.exp == Wire(o.next) && AtOrAhead(o) && |w.cache| == |o.kept|
  {
  }

  lemma {:induction false} AdvanceRefines(w: Window, o: Order, n: nat, d: nat)
    requires Refines(w, o) && n <= d < WRAP_CUTOFF && o.next + d in o.kept
    ensures Scan(w.cache, w.exp, n) == Wire(Advance(o, n).0.next)
    ensures Collect(PassedOf, Advance(o, n).1) == []
    decreases d - n
  {
    hide Refines, Collect, Wire;
    CollectNone(PassedOf);
    RefinesExp(w, o);
    SameSlot(w, o, n);
    WireShift(o.next, n);
    if o.next + n !in o.kept {
      AdvanceRefines(w, o, n + 1, d);
      CollectConcat(PassedOf, [Skipped(o.next + n)], Advance(o, n + 1).1);
      CollectOne(PassedOf, Skipped(o.next + n));
    }
  }

  lemma AbandonRefines(w: Window, o: Order, giveUp: nat)
    requires Refines(w, o) && giveUp > 0
    ensures Refines(GiveUp(w, giveUp), Abandon(o, giveUp).0)
    ensures Collect(PassedOf, Abandon(o, giveUp).1) == []
  {
    RefinesExp(w, o);
    hide Collect, Scan, Advance, Refines, Wire;
    CollectNone(PassedOf);
    if |o.kept| >= giveUp {
      SomeKey(o.kept);
      var t :| t in o.kept;
      AdvanceRefines(w, o, 0, t - o.next);
      AdvanceLands(o, 0, t - o.next);
      var o' := Advance(o, 0).0;
      JumpRefines(w, o, o'.next);
    }
  }

  /** Jumping ahead to a number none of the kept ones is below keeps the correspondence. */
  lemma JumpRefines(w: Window, o: Order, to: int)
    requires Refines(w, o) && to in o.kept && forall t :: o.next <= t < to ==> t !in o.kept
    ensures Refines(Window(Wire(to), w.cache), Order(to, o.kept))
  {
    hide Wire;
    forall t | to <= t < to + SPACE
      ensures SameAt(w.cache, o.kept, t)
    {
      if t >= o.next + SPACE {
        WireWraps(t);
        assert SameAt(w.cache, o.kept, t - SPACE);
      }
    }
  }

  lemma WireShift(n: int, d: int)
    ensures Wire(Wire(n) + d) == Wire(n + d)
  {
  }

  lemma {:induction false} FlushRefines(w: Window, o: Order)
    requires Refines(w, o)
    ensures Refines(Drain(w).0, Flush(o).0)
    ensures Drain(w).1 == Collect(PassedOf, Flush(o).1)
    decreases |o.kept|
  {
    hide Refines, Collect, Wire, Next;
    CollectNone(PassedOf);
    RefinesExp(w, o);
    SameSlot(w, o, 0);
    if o.next in o.kept {
      var p, rest := o.kept[o.next], o.kept - {o.next};
      DropSlot(w, o);
      Shrinks(o.kept, o.next);
      Shrinks(w.cache, w.exp);
      CollectOne(PassedOf, BadCrc(o.next, p));
      if p.crcOk {
        MoveOn(Window(w.exp, w.cache - {w.exp}), Order(o.next, rest));
        FlushRefines(Window(Next(w.exp), w.cache - {w.exp}), Order(o.next + 1, rest));
        CollectConcat(PassedOf, [Passed(o.next, p)], Flush(Order(o.next + 1, rest)).1);
        CollectOne(PassedOf, Passed(o.next, p));
      }
    }
  }

  lemma HandleRefines(w: Window, o: Order, giveUp: nat, t: int, p: Packet)
    requires Refines(w, o) && Ahead(o) && Near(o, t) && p.arqSeq == Wire(t) && giveUp > 0
    ensures Refines(Process(w, giveUp, p).0, Handle(o, giveUp, t, p).0)
    ensures Process(w, giveUp, p).1 == Collect(PassedOf, Handle(o, giveUp, t, p).1)
  {
    hide Refines, Collect, Take, Receive, Abandon, GiveUp, Flush, Drain;
    var (o1, es1) := Take(o, t, p);
    var (o2, es2) := Abandon(o1, giveUp);
    var es3 := Flush(o2).1;
    var w1 := Receive(w, p).0;
    TakeRefines(w, o, t, p);
    AbandonRefines(w1, o1, giveUp);
    FlushRefines(GiveUp(w1, giveUp), o2);
    CollectConcat(PassedOf, es1 + es2, es3);
    CollectConcat(PassedOf, es1, es2);
  }

  lemma StartRefines(from: int)
    ensures Refines(Window(Wire(from), map[]), Order(from, map[]))
  {
  }

  function Packets(arrivals: seq<Arrival>): (ps: seq<Packet>)
    ensures |ps| == |arrivals|
  {
    if arrivals == [] then []
    else Packets(arrivals[..|arrivals| - 1]) + [arrivals[|arrivals| - 1].p]
  }

  predicate OnWire(arrivals: seq<Arrival>) {
    forall i :: 0 <= i < |arrivals| ==> arrivals[i].p.arqSeq == Wire(arrivals[i].t)
  }

  /** Across any number of wraps, the 16-bit sequencer passes on what the unbounded one does, in the same order. */
  lemma {:induction false} SequencerRefines(from: int, giveUp: nat, arrivals: seq<Arrival>)
    requires giveUp > 0 && AllNear(from, giveUp, arrivals) && OnWire(arrivals)
    ensures var (w, out) := ProcessAll(Wire(from), giveUp, Packets(arrivals));
            var (o, es) := Run(from, giveUp, arrivals);
            Refines(w, o) && out == Collect(PassedOf, es)
  {
    CollectNone(PassedOf);
    hide Collect, Handle, Process, Wire, Refines, Ahead;
    if arrivals == [] {
      StartRefines(from);
    } else {
      var before, a := arrivals[..|arrivals| - 1], arrivals[|arrivals| - 1];
      SequencerRefines(from, giveUp, before);
      RunKeeps(from, giveUp, before);
      var (o, es) := Run(from, giveUp, before);
      assert Packets(arrivals)[..|arrivals| - 1] == Packets(before);
      HandleRefines(ProcessAll(Wire(from), giveUp, Packets(before)).0, o, giveUp, a.t, a.p);
      CollectConcat(PassedOf, es, Handle(o, giveUp, a.t, a.p).1);
    }
  }
}
