/**
 * What the fragment table holds after any packets at all, said from the history alone: for each group number,
 * the fragments since its last first fragment, duplicates left out, unless one was out of range or they are all there.
 */
module History {
  import opened Bytes
  import opened Options
  import WireFormat
  import opened Fragments
  import opened Decoder

  datatype Event = Event(f: WireFormat.FragInfo, opcode: uint16, payload: seq<byte>)

  function AsmAfter(log: seq<Event>): Assembly {
    if log == [] then map[]
    else
      var e := log[|log| - 1];
      Accept(AsmAfter(log[..|log| - 1]), e.f, e.opcode, e.payload).0
  }

  /** The fragments of group `key` from its last first one on; those that announce no fragments at all do not count. */
  function Live(log: seq<Event>, key: uint16): (r: seq<Event>)
    ensures r != [] ==> r[0].f.index == 0 && r[0].f.total > 0
    ensures forall i :: 1 <= i < |r| ==> r[i].f.index > 0
    ensures forall i :: 0 <= i < |r| ==> r[i].f.group == key
  {
    if log == [] then []
    else
      var e, before := log[|log| - 1], Live(log[..|log| - 1], key);
      if e.f.group != key || e.f.total == 0 then before
      else if e.f.index == 0 then [e]
      else if before == [] then []
      else before + [e]
  }

  lemma LiveSnoc(log: seq<Event>, e: Event, key: uint16)
    ensures Live(log + [e], key)
         == if e.f.group != key || e.f.total == 0 then Live(log, key)
            else if e.f.index == 0 then [e]
            else if Live(log, key) == [] then []
            else Live(log, key) + [e]
  {
    assert (log + [e])[..|log|] == log;
  }

  /** The first copy of each index, in order of arrival. */
  function FirstCopies(es: seq<Event>): seq<Part> {
    if es == [] then []
    else
      var e, before := es[|es| - 1], FirstCopies(es[..|es| - 1]);
      if e.f.index as int in Indices(before) then before else before + [Part(e.f.index, e.payload)]
  }

  predicate InRange(es: seq<Event>) {
    forall i :: 0 <= i < |es| ==> es[i].f.index < es[0].f.total
  }

  function Collected(es: seq<Event>): Group
    requires es != []
  {
    Group(es[0].opcode, es[0].f.total, FirstCopies(es))
  }

  predicate Whole(es: seq<Event>)
    requires es != []
  {
    Complete(Collected(es))
  }

  function Holding(es: seq<Event>): Option<Group> {
    if es == [] || !InRange(es) || Whole(es) then None else Some(Collected(es))
  }

  lemma CollectOne(e: Event)
    requires e.f.index == 0
    ensures FirstCopies([e]) == [Part(0, e.payload)]
  {
    assert [e][..0] == [];
    assert FirstCopies([]) == [];
  }

  lemma CollectMore(es: seq<Event>, e: Event)
    requires es != []
    ensures var was, now := Collected(es), Collected(es + [e]);
            now == if e.f.index as int in Indices(was.parts) then was
                   else was.(parts := was.parts + [Part(e.f.index, e.payload)])
    ensures InRange(es + [e]) <==> InRange(es) && e.f.index < es[0].f.total
    ensures Whole(es) ==> Whole(es + [e])
  {
    hide Indices;
    assert (es + [e])[..|es|] == es;
    assert (es + [e])[0] == es[0];
    IndicesOfSnoc(FirstCopies(es), Part(e.f.index, e.payload));
    assert forall i :: 0 <= i < |es| ==> (es + [e])[i] == es[i];
    assert (es + [e])[|es|] == e;
  }

  predicate Occurs(es: seq<Event>, i: int) {
    exists x :: 0 <= x < |es| && es[x].f.index == i
  }

  /** Every index the first fragment calls for occurs. */
  predicate Covers(es: seq<Event>) {
    es != [] && forall i :: 0 <= i < es[0].f.total ==> Occurs(es, i)
  }

  lemma OccursSnoc(es: seq<Event>, e: Event, i: int)
    ensures Occurs(es + [e], i) <==> Occurs(es, i) || e.f.index == i
  {
    var more := es + [e];
    assert more[|es|] == e;
    if Occurs(es, i) {
      var x :| 0 <= x < |es| && es[x].f.index == i;
      assert more[x].f.index == i;
    }
  }

  lemma {:induction false} FirstCopiesHaveAll(es: seq<Event>, i: int)
    ensures i in Indices(FirstCopies(es)) <==> Occurs(es, i)
  {
    hide Indices, Occurs;
    if es == [] {
      NoIndices(i);
    } else {
      var init, e := es[..|es| - 1], es[|es| - 1];
      assert es == init + [e];
      FirstCopiesHaveAll(init, i);
      OccursSnoc(init, e, i);
      IndicesOfSnoc(FirstCopies(init), Part(e.f.index, e.payload));
    }
  }

  lemma NoIndices(i: int)
    ensures i !in Indices([]) && !Occurs([], i)
  {
  }

  lemma WholeIffCovers(es: seq<Event>)
    requires es != []
    ensures Whole(es) <==> Covers(es)
  {
    hide Indices, Occurs, FirstCopies;
    forall i: int
      ensures i in Indices(FirstCopies(es)) <==> Occurs(es, i)
    {
      FirstCopiesHaveAll(es, i);
    }
  }

  /** The table, group by group, is what the history says. */
  lemma {:induction false} TableFromHistory(log: seq<Event>, key: uint16)
    ensures Lookup(AsmAfter(log), key) == Holding(Live(log, key))
  {
    hide Complete, Indices, FirstCopies, InRange, Whole;
    if log != [] {
      var before, e := log[..|log| - 1], log[|log| - 1];
      TableFromHistory(before, key);
      if e.f.group == key && e.f.total != 0 {
        if e.f.index == 0 {
          OpenedBy(e);
        } else if Live(before, key) != [] {
          CollectMore(Live(before, key), e);
          WholeIs(Live(before, key));
          WholeIs(Live(before, key) + [e]);
        }
      }
    }
  }

  lemma OpenedBy(e: Event)
    requires e.f.index == 0 && e.f.total > 0
    ensures InRange([e]) && Collected([e]) == Group(e.opcode, e.f.total, [Part(0, e.payload)])
    ensures Whole([e]) <==> Complete(Group(e.opcode, e.f.total, [Part(0, e.payload)]))
  {
    CollectOne(e);
  }

  lemma WholeIs(es: seq<Event>)
    requires es != []
    ensures Whole(es) <==> Complete(Collected(es))
  {
  }

  /** The fragments that count together with `e` once it has arrived. */
  function With(log: seq<Event>, e: Event): seq<Event> {
    if e.f.index == 0 then [e]
    else
      var before := Live(log, e.f.group);
      if before == [] then [] else before + [e]
  }

  /** The message due on arrival of `e`: all indices in range, all there, and not all there before. */
  function Due(log: seq<Event>, e: Event): Option<Message> {
    var es := With(log, e);
    if e.f.total > 0 && es != [] && InRange(es) && Whole(es) && (|es| > 1 ==> !Whole(Live(log, e.f.group)))
    then Some(Message(es[0].opcode, Joined(FirstCopies(es))))
    else None
  }

  /** A message comes out exactly when the last missing index arrives, every index having been in range. */
  lemma EmittedWhenDue(log: seq<Event>, e: Event)
    ensures Accept(AsmAfter(log), e.f, e.opcode, e.payload).1 == Due(log, e)
  {
    hide Complete, Indices, FirstCopies, InRange, Whole, Joined;
    TableFromHistory(log, e.f.group);
    if e.f.total != 0 {
      var before := Live(log, e.f.group);
      if e.f.index == 0 {
        OpenedBy(e);
      } else if before != [] {
        CollectMore(before, e);
        WholeIs(before);
        WholeIs(before + [e]);
      }
    }
  }

  // ---- arbitrary datagrams ----

  /** The fragment a datagram adds to the history, if it carries one and is not a retransmission. */
  function FragmentIn(st: DecoderState, buf: seq<byte>): Option<Event>
    requires StateOk(st)
  {
    var p := WireFormat.Parse(buf);
    if p.None? || p.value.body.None? || p.value.body.value.frag.None? || Filter(st.lastArq, p.value.arq).None? then None
    else var b := p.value.body.value; Some(Event(b.frag.value, b.opcode, b.payload))
  }

  function LogOf(bufs: seq<seq<byte>>): seq<Event> {
    if bufs == [] then []
    else
      var before, buf := bufs[..|bufs| - 1], bufs[|bufs| - 1];
      var e := FragmentIn(AssembleAll(before).0, buf);
      LogOf(before) + if e.Some? then [e.value] else []
  }

  lemma {:induction false} RunKeepsLog(bufs: seq<seq<byte>>)
    ensures AssembleAll(bufs).0.asm == AsmAfter(LogOf(bufs))
  {
    hide WireFormat.Parse, Accept, Filter;
    if bufs != [] {
      var before, buf := bufs[..|bufs| - 1], bufs[|bufs| - 1];
      RunKeepsLog(before);
      var log := LogOf(before);
      var e := FragmentIn(AssembleAll(before).0, buf);
      if e.Some? {
        assert (log + [e.value])[..|log|] == log;
      } else {
        assert LogOf(bufs) == log;
      }
    }
  }

  /**
   * After any datagrams whatever, every group is what the fragments so far make of it and is never complete, and the
   * next fragment that is not a retransmission brings a message out exactly when one is due.
   */
  lemma AnyRun(bufs: seq<seq<byte>>, key: uint16, next: seq<byte>)
    ensures var st, log := AssembleAll(bufs).0, LogOf(bufs);
            && Lookup(st.asm, key) == Holding(Live(log, key))
            && (key in st.asm ==> GroupOk(st.asm[key]))
            && (FragmentIn(st, next).Some? ==>
                  Assemble(st, next).1 == DueAsList(log, FragmentIn(st, next).value))
  {
    hide GroupOk, AssembleAll, Assemble, Holding, Live, FragmentIn, LogOf, DueAsList, AsmAfter;
    RunKeepsLog(bufs);
    TableFromHistory(LogOf(bufs), key);
    StoredIsOk(AssembleAll(bufs).0.asm, key);
    NextBrings(AssembleAll(bufs).0, LogOf(bufs), next);
  }

  lemma StoredIsOk(asm: Assembly, key: uint16)
    requires AssemblyOk(asm)
    ensures key in asm ==> GroupOk(asm[key])
  {
  }

  lemma NextBrings(st: DecoderState, log: seq<Event>, next: seq<byte>)
    requires StateOk(st) && st.asm == AsmAfter(log)
    ensures FragmentIn(st, next).Some? ==> Assemble(st, next).1 == DueAsList(log, FragmentIn(st, next).value)
  {
    hide Due, WireFormat.Parse, Filter, Accept, AsmAfter, AssemblyOk;
    if FragmentIn(st, next).Some? {
      EmittedWhenDue(log, FragmentIn(st, next).value);
    }
  }

  function DueAsList(log: seq<Event>, e: Event): seq<Message> {
    if Due(log, e).Some? then [Due(log, e).value] else []
  }

  /** What the decoder keeps for an open group: counter and flags agree, flag 0 is set, and one is missing. */
  lemma OpenGroupCounts(c: FragmentGroup, g: Group)
    requires Represents(c, g) && GroupOk(g)
    ensures |c.received| == c.total
    ensures c.receivedCount == |set i: int | 0 <= i < |c.received| && c.received[i]|
    ensures 1 <= c.receivedCount < c.total && c.received[0]
  {
    CountsWhenComplete(g);
    DistinctCount(g.parts);
    assert g.parts[0].index == 0;
    assert Indices(g.parts) == set i: int | 0 <= i < |c.received| && c.received[i];
  }
}
