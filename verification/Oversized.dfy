/** Oversized messages: sequenced chunks copied into one growing buffer, the first behind a 4-byte total. */
module Oversized {
  import opened Bytes
  import opened Sequencer
  import opened SequenceOrder
  import opened SequenceGuarantees
  import opened SequenceRefinement
  import opened SequenceTiming
  import SerialNumbers

  function Be32(buf: seq<byte>): uint32
    requires |buf| >= 4
  {
    Be16(buf, 0) * 0x1_0000 + Be16(buf, 2)
  }

  function PutBe32(x: uint32): (r: seq<byte>)
    ensures |r| == 4 && Be32(r) == x
  {
    var r := PutBe16(x / 0x1_0000) + PutBe16(x % 0x1_0000);
    Be16OfPut(x / 0x1_0000, r, 0);
    Be16OfPut(x % 0x1_0000, r, 2);
    r
  }

  /** The most significant byte first. */
  lemma TotalIs(buf: seq<byte>)
    requires |buf| >= 4
    ensures Be32(buf)
         == 0x100_0000 * Value(buf[0]) + 0x1_0000 * Value(buf[1]) + 0x100 * Value(buf[2]) + Value(buf[3])
  {
    hide Value;
  }

  /** The announced total and what has been copied so far. */
  datatype Partial = Partial(total: uint32, content: seq<byte>)

  const EMPTY := Partial(0, [])

  predicate IsComplete(a: Partial) {
    a.content != [] && a.total == |a.content|
  }

  /** A partial message in a buffer of `capacity` bytes. */
  datatype Store = Store(capacity: nat, partial: Partial)

  /**
   * What becomes of a chunk. A later one that does not fit ends the process; a first one that is shorter than its
   * total field, or does not fit, is copied all the same, and nothing is said of what happens then.
   */
  datatype Outcome = Added | Fatal | Unchecked

  function Max(a: nat, b: nat): nat {
    if a > b then a else b
  }

  function Add(b: Store, payload: seq<byte>): (Outcome, Store) {
    if b.partial.content != [] then
      if |b.partial.content| + |payload| > b.capacity then (Fatal, b)
      else (Added, b.(partial := Partial(b.partial.total, b.partial.content + payload)))
    else if |payload| < 4 || |payload| - 4 > Max(b.capacity, Be32(payload)) then (Unchecked, b)
    else (Added, Store(Max(b.capacity, Be32(payload)), Partial(Be32(payload), payload[4..])))
  }

  // ---- the sequenced packets as the application sees them ----

  datatype Result = Result(outcome: Outcome, store: Store, out: seq<seq<byte>>)

  function After(out: seq<seq<byte>>, rest: Result): Result {
    rest.(out := out + rest.out)
  }

  /** One sequenced packet: a plain one is a message, an oversized one adds to the buffer and may complete it. */
  function HandOver(b: Store, p: Packet): Result {
    if !p.oversized then Result(Added, b, [p.payload])
    else
      var (r, b') := Add(b, p.payload);
      if r == Added && IsComplete(b'.partial) then Result(r, b'.(partial := EMPTY), [b'.partial.content])
      else Result(r, b', [])
  }

  /** Sequenced packets in order, up to one that cannot be taken. */
  function Deliver(b: Store, ps: seq<Packet>): Result
    decreases |ps|
  {
    if ps == [] then Result(Added, b, [])
    else
      var r := HandOver(b, ps[0]);
      if r.outcome != Added then r else After(r.out, Deliver(r.store, ps[1..]))
  }

  /** A message put together from chunks is handed over at exactly the length that was announced, and never past it. */
  lemma HandedOverAsAnnounced(b: Store, p: Packet)
    requires p.oversized && Add(b, p.payload).0 == Added
    ensures var a := Add(b, p.payload).1.partial;
            HandOver(b, p).out == if 0 < |a.content| == a.total then [a.content] else []
  {
  }

  // ---- the buffer ----

  class FragmentSequence {
    /** Allocated once the first total is known, and again only for a larger one. */
    var data: array<byte>
    var totalLength: uint32
    var dataSize: nat

    ghost predicate Valid()
      reads this
    {
      dataSize <= data.Length
    }

    ghost function View(): Store
      requires Valid()
      reads this, data
    {
      Store(data.Length, Partial(totalLength, data[..dataSize]))
    }

    constructor ()
      ensures Valid() && View() == Store(0, EMPTY) && fresh(data)
    {
      data := new byte[0];
      totalLength, dataSize := 0, 0;
    }

    method Reset()
      requires Valid()
      modifies this`totalLength, this`dataSize
      ensures Valid() && View() == old(View()).(partial := EMPTY)
    {
      dataSize, totalLength := 0, 0;
    }

    /** Copies one chunk in, behind what is there; the first one comes behind the total and may enlarge the buffer. */
    method AddFragment(payload: seq<byte>) returns (r: Outcome)
      requires Valid()
      modifies this, data
      ensures Valid() && (data == old(data) || fresh(data))
      ensures r == Add(old(View()), payload).0
      ensures r != Unchecked ==> View() == Add(old(View()), payload).1
    {
      hide Be16;
      if dataSize == 0 {
        if |payload| < 4 {
          return Unchecked;
        }
        totalLength := Be32(payload);
        if totalLength > data.Length {
          data := new byte[totalLength];
        }
        if |payload| - 4 > data.Length {
          return Unchecked;
        }
        CopyIn(0, payload[4..]);
        dataSize := |payload| - 4;
      } else {
        if dataSize + |payload| > data.Length {
          return Fatal;
        }
        CopyIn(dataSize, payload);
        assert data[..dataSize + |payload|] == data[..dataSize] + payload;
        dataSize := dataSize + |payload|;
      }
      r := Added;
    }

    method CopyIn(at: nat, bs: seq<byte>)
      requires at + |bs| <= data.Length
      modifies data
      ensures data[at..at + |bs|] == bs && data[..at] == old(data[..at])
    {
      for i := 0 to |bs|
        invariant data[at..at + i] == bs[..i] && data[..at] == old(data[..at])
      {
        data[at + i] := bs[i];
      }
    }

    method Complete() returns (r: bool)
      requires Valid()
      ensures r == IsComplete(View().partial)
    {
      r := dataSize != 0 && totalLength == dataSize;
    }

    /** The oversized branch: copy the chunk in and, when that completes the message, hand it over and start afresh. */
    method Take(p: Packet) returns (r: Outcome, out: seq<seq<byte>>)
      requires Valid() && p.oversized
      modifies this, data
      ensures Valid() && (data == old(data) || fresh(data))
      ensures (r, out) == (HandOver(old(View()), p).outcome, HandOver(old(View()), p).out)
      ensures r != Unchecked ==> View() == HandOver(old(View()), p).store
    {
      hide Be32;
      out := [];
      r := AddFragment(p.payload);
      if r == Added {
        var complete := Complete();
        if complete {
          out := [data[..dataSize]];
          Reset();
        }
      }
    }

    /** One sequenced packet after another, through the one buffer. */
    method TakeAll(ps: seq<Packet>) returns (r: Outcome, out: seq<seq<byte>>)
      requires Valid()
      modifies this, data
      ensures Valid()
      ensures (r, out) == (Deliver(old(View()), ps).outcome, Deliver(old(View()), ps).out)
      ensures r != Unchecked ==> View() == Deliver(old(View()), ps).store
    {
      hide HandOver;
      r, out := Added, [];
      assert ps[0..] == ps;
      for i := 0 to |ps|
        invariant Valid() && r == Added && (data == old(data) || fresh(data))
        invariant Deliver(old(View()), ps) == After(out, Deliver(View(), ps[i..]))
      {
        assert ps[i..][0] == ps[i] && ps[i..][1..] == ps[i + 1..];
        ghost var before := View();
        var more: seq<seq<byte>>;
        if ps[i].oversized {
          r, more := Take(ps[i]);
        } else {
          PlainIsMessage(before, ps[i]);
          more := [ps[i].payload];
        }
        AfterAfter(out, more, Deliver(HandOver(before, ps[i]).store, ps[i + 1..]));
        out := out + more;
        if r != Added {
          return;
        }
      }
      assert ps[|ps|..] == [] && out + [] == out;
    }

    /** However messages are cut, and whatever the buffer was used for before, they come out whole and nothing stops. */
    method TakeSeries(ps: seq<Packet>, ghost msgs: seq<Cut>) returns (r: Outcome, out: seq<seq<byte>>)
      requires Valid() && View().partial == EMPTY
      requires (forall j :: 0 <= j < |msgs| ==> CutOk(msgs[j])) && CarriesAll(ps, msgs)
      modifies this, data
      ensures Valid()
      ensures r == Added && out == Contents(msgs)
      ensures View() == Store(Grown(old(data.Length), msgs), EMPTY)
    {
      hide Deliver, CarriesAll, Contents, Grown, CutOk;
      SeriesReassembles(data.Length, msgs, ps, []);
      NothingMore(Grown(data.Length, msgs), ps);
      r, out := TakeAll(ps);
    }
  }

  lemma PlainIsMessage(b: Store, p: Packet)
    requires !p.oversized
    ensures HandOver(b, p) == Result(Added, b, [p.payload])
  {
  }

  lemma AfterAfter(a: seq<seq<byte>>, b: seq<seq<byte>>, rest: Result)
    ensures After(a + b, rest) == After(a, After(b, rest))
  {
  }

  lemma NothingMore(capacity: nat, ps: seq<Packet>)
    ensures Deliver(Store(capacity, EMPTY), []) == Result(Added, Store(capacity, EMPTY), [])
    ensures ps + [] == ps && ps[|ps|..] == []
  {
  }

  // ---- an honest sender ----

  /** A message as a sender cuts it: whole, or in chunks none of which is empty. */
  datatype Cut = Small(bytes: seq<byte>) | Large(chunks: seq<seq<byte>>)

  predicate CutOk(m: Cut) {
    m.Large? ==>
      && m.chunks != [] && |Concat(m.chunks)| < 0x1_0000_0000
      && forall i :: 0 <= i < |m.chunks| ==> m.chunks[i] != []
  }

  function Content(m: Cut): seq<byte> {
    if m.Small? then m.bytes else Concat(m.chunks)
  }

  /** The packets that carry a list of chunks, the first chunk behind the total; numbers are left to the caller. */
  predicate Carries(ps: seq<Packet>, m: Cut)
    requires CutOk(m)
  {
    match m
    case Small(bytes) => |ps| == 1 && !ps[0].oversized && ps[0].payload == bytes
    case Large(chunks) =>
      && |ps| == |chunks|
      && (forall i :: 0 <= i < |ps| ==> ps[i].oversized)
      && ps[0].payload == PutBe32(|Concat(chunks)|) + chunks[0]
      && forall i :: 1 <= i < |ps| ==> ps[i].payload == chunks[i]
  }

  /** `ps` carries the messages one after another. */
  predicate CarriesAll(ps: seq<Packet>, msgs: seq<Cut>)
    requires forall j :: 0 <= j < |msgs| ==> CutOk(msgs[j])
  {
    if msgs == [] then ps == []
    else exists n :: 0 <= n <= |ps| && Carries(ps[..n], msgs[0]) && CarriesAll(ps[n..], msgs[1..])
  }

  function Contents(msgs: seq<Cut>): seq<seq<byte>> {
    if msgs == [] then [] else [Content(msgs[0])] + Contents(msgs[1..])
  }

  /** The buffer only grows, to the largest total announced. */
  function Grown(capacity: nat, msgs: seq<Cut>): nat
    decreases |msgs|
  {
    if msgs == [] then capacity
    else Grown(if msgs[0].Large? then Max(capacity, |Concat(msgs[0].chunks)|) else capacity, msgs[1..])
  }

  lemma {:induction false} ConcatGrows(chunks: seq<seq<byte>>)
    requires chunks != [] && forall i :: 0 <= i < |chunks| ==> chunks[i] != []
    ensures |Concat(chunks)| > 0
  {
  }

  lemma SplitHead<T>(a: seq<T>, b: seq<T>)
    requires a != []
    ensures (a + b)[0] == a[0] && (a + b)[1..] == a[1..] + b
    ensures |a| == 1 ==> a[1..] + b == b
  {
  }

  lemma ConcatHead(chunks: seq<seq<byte>>, before: seq<byte>)
    requires chunks != []
    ensures before + Concat(chunks) == (before + chunks[0]) + Concat(chunks[1..])
    ensures |Concat(chunks)| == |chunks[0]| + |Concat(chunks[1..])|
    ensures |chunks| == 1 ==> Concat(chunks) == chunks[0]
  {
    var head, tail := chunks[0], Concat(chunks[1..]);
    assert Concat(chunks) == head + tail;
    assert before + (head + tail) == (before + head) + tail;
    if |chunks| == 1 { assert chunks[1..] == [] && head + [] == head; }
  }

  predicate Follow(ps: seq<Packet>, chunks: seq<seq<byte>>) {
    && |ps| == |chunks|
    && forall i :: 0 <= i < |chunks| ==> chunks[i] != [] && ps[i].oversized && ps[i].payload == chunks[i]
  }

  lemma FollowHead(ps: seq<Packet>, chunks: seq<seq<byte>>)
    requires Follow(ps, chunks) && chunks != []
    ensures |ps| == |chunks| && ps[0].oversized && ps[0].payload == chunks[0] && Follow(ps[1..], chunks[1..])
    ensures |Concat(chunks)| > 0
  {
    ConcatGrows(chunks);
  }

  /** A later chunk that fits. */
  lemma HandLater(b: Store, p: Packet)
    requires p.oversized && b.partial.content != [] && |b.partial.content| + |p.payload| <= b.capacity
    ensures var a := Partial(b.partial.total, b.partial.content + p.payload);
            HandOver(b, p) == if IsComplete(a) then Result(Added, b.(partial := EMPTY), [a.content])
                             else Result(Added, b.(partial := a), [])
  {
  }

  lemma DeliverNext(b: Store, ps: seq<Packet>)
    requires ps != [] && HandOver(b, ps[0]).outcome == Added
    ensures Deliver(b, ps) == After(HandOver(b, ps[0]).out, Deliver(HandOver(b, ps[0]).store, ps[1..]))
  {
  }

  lemma AfterNothing(rest: Result)
    ensures After([], rest) == rest
  {
  }

  /** The chunks after the first ones complete the buffer exactly at the last of them. */
  lemma {:induction false} RestCompletes(b: Store, chunks: seq<seq<byte>>, ps: seq<Packet>, more: seq<Packet>)
    requires chunks != [] && b.partial.content != [] && Follow(ps, chunks)
    requires b.partial.total == |b.partial.content| + |Concat(chunks)| <= b.capacity
    ensures Deliver(b, ps + more)
         == After([b.partial.content + Concat(chunks)], Deliver(b.(partial := EMPTY), more))
    decreases |chunks|
  {
    hide Deliver, Follow, After, Concat, HandOver;
    FollowHead(ps, chunks);
    SplitHead(ps, more);
    ConcatHead(chunks, b.partial.content);
    HandLater(b, ps[0]);
    DeliverNext(b, ps + more);
    if |chunks| > 1 {
      FollowHead(ps[1..], chunks[1..]);
      var b' := b.(partial := Partial(b.partial.total, b.partial.content + chunks[0]));
      AfterNothing(Deliver(b', ps[1..] + more));
      RestCompletes(b', chunks[1..], ps[1..], more);
    }
  }

  lemma LargeCompletes(capacity: nat, m: Cut, ps: seq<Packet>, more: seq<Packet>)
    requires CutOk(m) && m.Large? && Carries(ps, m)
    ensures Deliver(Store(capacity, EMPTY), ps + more)
         == After([Concat(m.chunks)], Deliver(Store(Max(capacity, |Concat(m.chunks)|), EMPTY), more))
  {
    hide PutBe32, Be32, Deliver, After;
    var total, chunks := |Concat(m.chunks)|, m.chunks;
    var b := Store(Max(capacity, total), Partial(total, chunks[0]));
    SplitHead(ps, more);
    ConcatHead(chunks, []);
    FirstChunk(total, chunks[0], ps[0].payload);
    DeliverNext(Store(capacity, EMPTY), ps + more);
    if |chunks| > 1 {
      ConcatGrows(chunks[1..]);
      assert Follow(ps[1..], chunks[1..]);
      AfterNothing(Deliver(b, ps[1..] + more));
      RestCompletes(b, chunks[1..], ps[1..], more);
    }
  }

  lemma FirstChunk(total: uint32, chunk: seq<byte>, payload: seq<byte>)
    requires payload == PutBe32(total) + chunk
    ensures |payload| >= 4 && Be32(payload) == total && payload[4..] == chunk
  {
    var head := PutBe32(total);
    assert payload[0] == head[0] && payload[1] == head[1] && payload[2] == head[2] && payload[3] == head[3];
  }

  /** Any series of messages, cut in any way, comes out message by message, and what follows meets an empty buffer. */
  lemma {:induction false} SeriesReassembles(capacity: nat, msgs: seq<Cut>, ps: seq<Packet>, more: seq<Packet>)
    requires forall j :: 0 <= j < |msgs| ==> CutOk(msgs[j])
    requires CarriesAll(ps, msgs)
    ensures Deliver(Store(capacity, EMPTY), ps + more)
         == After(Contents(msgs), Deliver(Store(Grown(capacity, msgs), EMPTY), more))
    decreases |msgs|
  {
    hide Carries, CutOk, Deliver;
    if msgs == [] {
      assert [] + more == more;
      AfterNothing(Deliver(Store(capacity, EMPTY), more));
    } else {
      var n :| 0 <= n <= |ps| && Carries(ps[..n], msgs[0]) && CarriesAll(ps[n..], msgs[1..]);
      assert ps + more == ps[..n] + (ps[n..] + more);
      OneReassembles(capacity, msgs[0], ps[..n], ps[n..] + more);
      SeriesReassembles(Grown(capacity, [msgs[0]]), msgs[1..], ps[n..], more);
      GrownHead(capacity, msgs);
    }
  }

  lemma GrownHead(capacity: nat, msgs: seq<Cut>)
    requires msgs != []
    ensures Grown(capacity, msgs) == Grown(Grown(capacity, [msgs[0]]), msgs[1..])
  {
    assert [msgs[0]][1..] == [];
  }

  lemma OneReassembles(capacity: nat, m: Cut, ps: seq<Packet>, more: seq<Packet>)
    requires CutOk(m) && Carries(ps, m)
    ensures Deliver(Store(capacity, EMPTY), ps + more)
         == After([Content(m)], Deliver(Store(Grown(capacity, [m]), EMPTY), more))
  {
    assert [m][1..] == [];
    if m.Large? {
      LargeCompletes(capacity, m, ps, more);
    } else {
      SplitHead(ps, more);
    }
  }

  // ---- behind the sequencer ----

  /**
   * If a good copy of every number below `to` arrived before its turn was over, then however the packets were reordered
   * and repeated, the messages those numbers carry come out first, whole, in order, and once each.
   */
  lemma SequencedEndToEnd(from: int, giveUp: nat, arrivals: seq<Arrival>, sender: int -> Packet, to: int,
                          msgs: seq<Cut>, capacity: nat)
    requires giveUp > 0 && AllNear(from, giveUp, arrivals) && OnWire(arrivals) && from <= to
    requires Honest(arrivals, sender) && AllTimely(from, giveUp, arrivals, to)
    requires forall j :: 0 <= j < |msgs| ==> CutOk(msgs[j])
    requires CarriesAll(Sent(sender, Range(from, to)), msgs)
    ensures var passed := ProcessAll(SerialNumbers.Wire(from), giveUp, Packets(arrivals)).1;
            && Sent(sender, Range(from, to)) <= passed
            && Deliver(Store(capacity, EMPTY), passed)
               == After(Contents(msgs), Deliver(Store(Grown(capacity, msgs), EMPTY),
                                                passed[|Sent(sender, Range(from, to))|..]))
  {
    hide Deliver, CarriesAll, Contents, CutOk, Grown;
    hide Run, ProcessAll, AllNear, AllTimely, Refines, Sent, Range, Collect;
    var sent := Sent(sender, Range(from, to));
    var passed := ProcessAll(SerialNumbers.Wire(from), giveUp, Packets(arrivals)).1;
    SequencerRefines(from, giveUp, arrivals);
    TimelyComesFirst(from, giveUp, arrivals, sender, to);
    SeriesReassembles(capacity, msgs, sent, passed[|sent|..]);
    assert sent + passed[|sent|..] == passed;
  }

  /** With a condition on the network alone, and nothing from `to` on, the messages are all that comes out. */
  lemma EarlyEndToEnd(from: int, giveUp: nat, arrivals: seq<Arrival>, sender: int -> Packet, to: int,
                      msgs: seq<Cut>, capacity: nat)
    requires giveUp > 0 && OnWire(arrivals) && Honest(arrivals, sender) && from <= to
    requires Close(from, giveUp, arrivals) && AllEarly(giveUp, arrivals, from, to) && AllBelow(arrivals, to)
    requires forall j :: 0 <= j < |msgs| ==> CutOk(msgs[j])
    requires CarriesAll(Sent(sender, Range(from, to)), msgs)
    ensures Deliver(Store(capacity, EMPTY), ProcessAll(SerialNumbers.Wire(from), giveUp, Packets(arrivals)).1)
         == Result(Added, Store(Grown(capacity, msgs), EMPTY), Contents(msgs))
  {
    hide Deliver, CarriesAll, Contents, CutOk, ProcessAll, Close, AllEarly, AllBelow, Sent, Range, Grown;
    var sent := Sent(sender, Range(from, to));
    EarlyRunIsExact(from, giveUp, arrivals, sender, to);
    SeriesReassembles(capacity, msgs, sent, []);
    NothingMore(Grown(capacity, msgs), sent);
  }
}
