/**
 * End to end. The decoder assembles exactly the messages all of whose packets passed the retransmit filter, in sending
 * order, if and only if no message that lost its first fragment completes one left incomplete under its group number.
 */
module Delivery {
  import opened Bytes
  import opened Options
  import WireFormat
  import opened Fragments
  import SerialNumbers
  import opened Decoder
  import opened History
  import opened Network

  // ---- what should come out ----

  /** One message, before deobfuscation; a lone packet with opcode 0 is not an application message. */
  function Assembled(m: Sent): seq<Message> {
    match m
    case Single(opcode, body) => if opcode == 0 then [] else [Message(opcode, body)]
    case Split(opcode, _, chunks) => [Message(opcode, Concat(chunks))]
    case Bare => []
  }

  /** What the last arrival should bring: the message whose last packet it is, or the one it carries by itself. */
  function Brings(s: Stream, arrivals: seq<Arrival>): seq<Message>
    requires ArrivalsOk(s, arrivals) && arrivals != []
  {
    var a := Last(arrivals);
    if InStream(a) then
      if Number(s, a) > High(s, Init(arrivals)) && AllIn(s, Accepted(s, arrivals), a.j)
      then Assembled(s.msgs[a.j]) else []
    else if a.Plain? then Assembled(Single(a.opcode, a.body))
    else []
  }

  function Wanted(s: Stream, arrivals: seq<Arrival>): seq<Message>
    requires ArrivalsOk(s, arrivals)
  {
    if arrivals == [] then [] else Wanted(s, Init(arrivals)) + Brings(s, arrivals)
  }

  // ---- the accepted fragments, in sending order ----

  function EventOf(m: Sent, k: nat): Event
    requires SentOk(m) && m.Split? && k < |m.chunks|
  {
    Event(WireFormat.FragInfo(m.group, k, |m.chunks|), if k == 0 then m.opcode else 0, m.chunks[k])
  }

  /** The accepted ones of the first `n` fragments of message `j`. */
  function EventsIn(s: Stream, acc: set<int>, j: nat, n: nat): (r: seq<Event>)
    requires StreamOk(s) && j < |s.msgs| && s.msgs[j].Split? && n <= |s.msgs[j].chunks|
    ensures forall i :: 0 <= i < |r| ==>
              r[i].f == WireFormat.FragInfo(s.msgs[j].group, r[i].f.index, |s.msgs[j].chunks|)
    ensures forall i :: 0 <= i < |r| ==> r[i].f.index < n && Has(s, acc, j, r[i].f.index)
  {
    if n == 0 then []
    else EventsIn(s, acc, j, n - 1) + if Has(s, acc, j, n - 1) then [EventOf(s.msgs[j], n - 1)] else []
  }

  function Log(s: Stream, acc: set<int>, n: nat): seq<Event>
    requires StreamOk(s) && n <= |s.msgs|
  {
    if n == 0 then []
    else Log(s, acc, n - 1) + if s.msgs[n - 1].Split? then EventsIn(s, acc, n - 1, |s.msgs[n - 1].chunks|) else []
  }

  /** Of the first `n` messages, the accepted fragments of group `key` since a first fragment last opened it. */
  function Since(s: Stream, acc: set<int>, key: uint16, n: nat): seq<Event>
    requires StreamOk(s) && n <= |s.msgs|
    decreases n, 0
  {
    if n == 0 then []
    else if SplitAs(s, n - 1, key) then Pending(s, acc, n - 1, |s.msgs[n - 1].chunks|)
    else Since(s, acc, key, n - 1)
  }

  /** The same, up to the first `n` fragments of message `j`. */
  function Pending(s: Stream, acc: set<int>, j: nat, n: nat): seq<Event>
    requires StreamOk(s) && j < |s.msgs| && s.msgs[j].Split? && n <= |s.msgs[j].chunks|
    decreases j, 1
  {
    Extended(Since(s, acc, s.msgs[j].group, j), Has(s, acc, j, 0), EventsIn(s, acc, j, n))
  }

  function Extended(before: seq<Event>, headed: bool, es: seq<Event>): seq<Event> {
    if headed then es else if before == [] then [] else before + es
  }

  /** The last of the first `n` messages that opened group `key`; -1 if none did. */
  function Opener(s: Stream, acc: set<int>, key: uint16, n: nat): (o: int)
    requires n <= |s.msgs|
    ensures -1 <= o < n
    ensures o >= 0 ==> SplitAs(s, o, key) && Has(s, acc, o, 0)
  {
    if n == 0 then -1
    else if SplitAs(s, n - 1, key) && Has(s, acc, n - 1, 0) then n - 1
    else Opener(s, acc, key, n - 1)
  }

  // ---- when two messages are spliced ----

  /**
   * Fragment `k` of message `j`, whose first fragment was lost, makes up what the message that last opened its group
   * is missing: since then every index was in range and every index has come.
   */
  predicate Spliced(s: Stream, acc: set<int>, j: nat, k: nat)
    requires StreamOk(s) && j < |s.msgs|
  {
    && s.msgs[j].Split? && 1 <= k < |s.msgs[j].chunks| && Has(s, acc, j, k) && !Has(s, acc, j, 0)
    && var o := Opener(s, acc, s.msgs[j].group, j);
    && o >= 0 && !AllIn(s, acc, o)
    && InRange(Pending(s, acc, j, k + 1)) && Covers(Pending(s, acc, j, k + 1))
  }

  predicate NoSplice(s: Stream, acc: set<int>)
    requires StreamOk(s)
  {
    forall j, k :: 0 <= j < |s.msgs| && 0 <= k < Size(s.msgs[j]) ==> !Spliced(s, acc, j, k)
  }

  // ---- events ----

  predicate Agree(s: Stream, a: set<int>, b: set<int>, j: nat, n: nat)
    requires j < |s.msgs|
  {
    forall k :: 0 <= k < n ==> (Has(s, a, j, k) <==> Has(s, b, j, k))
  }

  lemma {:induction false} SameEvents(s: Stream, a: set<int>, b: set<int>, j: nat, n: nat)
    requires StreamOk(s) && j < |s.msgs| && s.msgs[j].Split? && n <= |s.msgs[j].chunks| && Agree(s, a, b, j, n)
    ensures EventsIn(s, a, j, n) == EventsIn(s, b, j, n)
  {
    if n > 0 { SameEvents(s, a, b, j, n - 1); }
  }

  lemma {:induction false} NoMoreEvents(s: Stream, acc: set<int>, j: nat, k: nat, n: nat)
    requires StreamOk(s) && j < |s.msgs| && s.msgs[j].Split? && k <= n <= |s.msgs[j].chunks|
    requires forall i :: k <= i < n ==> !Has(s, acc, j, i)
    ensures EventsIn(s, acc, j, n) == EventsIn(s, acc, j, k)
  {
    if k < n { NoMoreEvents(s, acc, j, k, n - 1); }
  }

  lemma {:induction false} EventsOccur(s: Stream, acc: set<int>, j: nat, n: nat, i: int)
    requires StreamOk(s) && j < |s.msgs| && s.msgs[j].Split? && n <= |s.msgs[j].chunks|
    ensures Occurs(EventsIn(s, acc, j, n), i) <==> 0 <= i < n && Has(s, acc, j, i)
  {
    hide Occurs;
    if n == 0 {
      NoIndices(i);
    } else {
      EventsOccur(s, acc, j, n - 1, i);
      if Has(s, acc, j, n - 1) {
        OccursSnoc(EventsIn(s, acc, j, n - 1), EventOf(s.msgs[j], n - 1), i);
      } else {
        assert EventsIn(s, acc, j, n) == EventsIn(s, acc, j, n - 1);
      }
    }
  }

  lemma {:induction false} EventsHead(s: Stream, acc: set<int>, j: nat, n: nat)
    requires StreamOk(s) && j < |s.msgs| && s.msgs[j].Split? && 1 <= n <= |s.msgs[j].chunks| && Has(s, acc, j, 0)
    ensures var r := EventsIn(s, acc, j, n); r != [] && r[0] == EventOf(s.msgs[j], 0)
  {
    if n == 1 {
      assert EventsIn(s, acc, j, 0) == [];
    } else {
      EventsHead(s, acc, j, n - 1);
    }
  }

  /** The fragments of a message whose first one is in cover it exactly when all are in. */
  lemma EventsCover(s: Stream, acc: set<int>, j: nat)
    requires StreamOk(s) && j < |s.msgs| && s.msgs[j].Split? && Has(s, acc, j, 0)
    ensures var es := EventsIn(s, acc, j, |s.msgs[j].chunks|);
            es != [] && es[0] == EventOf(s.msgs[j], 0) && InRange(es) && (Whole(es) <==> AllIn(s, acc, j))
  {
    hide Occurs, EventsIn, Whole;
    var n := |s.msgs[j].chunks|;
    var es := EventsIn(s, acc, j, n);
    assert SentOk(s.msgs[j]);
    EventsHead(s, acc, j, n);
    forall i: int
      ensures Occurs(es, i) <==> 0 <= i < n && Has(s, acc, j, i)
    {
      EventsOccur(s, acc, j, n, i);
    }
    WholeIffCovers(es);
  }

  lemma {:induction false} EventsJoin(s: Stream, acc: set<int>, j: nat, n: nat)
    requires StreamOk(s) && j < |s.msgs| && s.msgs[j].Split? && n <= |s.msgs[j].chunks|
    requires forall k :: 0 <= k < n ==> Has(s, acc, j, k)
    ensures Joined(FirstCopies(EventsIn(s, acc, j, n))) == Concat(s.msgs[j].chunks[..n])
  {
    hide Indices, Concat, Occurs, EventsIn, FirstCopies, Joined, StreamOk;
    var chunks := s.msgs[j].chunks;
    if n == 0 {
      assert chunks[..0] == [];
      EventsNone(s, acc, j);
      NothingJoined();
    } else {
      EventsMore(s, acc, j, n);
      var init, e := EventsIn(s, acc, j, n - 1), EventOf(s.msgs[j], n - 1);
      EventsJoin(s, acc, j, n - 1);
      EventsOccur(s, acc, j, n - 1, n - 1);
      FirstCopiesHaveAll(init, n - 1);
      assert Has(s, acc, j, n - 1);
      JoinOneMore(init, e);
      ConcatSnoc(chunks[..n - 1], chunks[n - 1]);
      assert chunks[..n] == chunks[..n - 1] + [chunks[n - 1]];
    }
  }

  lemma NothingJoined()
    ensures Joined(FirstCopies([])) == [] && Concat([]) == []
  {
  }

  lemma JoinOneMore(es: seq<Event>, e: Event)
    requires e.f.index as int !in Indices(FirstCopies(es))
    ensures Joined(FirstCopies(es + [e])) == Joined(FirstCopies(es)) + e.payload
  {
    hide Indices;
    var was := FirstCopies(es);
    assert (es + [e])[..|es|] == es;
    var now := was + [Part(e.f.index, e.payload)];
    assert now[..|was|] == was;
  }

  // ---- the log says what is pending ----

  lemma OtherGroup(log: seq<Event>, es: seq<Event>, key: uint16)
    requires forall i :: 0 <= i < |es| ==> es[i].f.group != key
    ensures Live(log + es, key) == Live(log, key)
  {
    hide Live;
    if es == [] {
      assert log + es == log;
    } else {
      var init, e := es[..|es| - 1], es[|es| - 1];
      OtherGroup(log, init, key);
      assert log + es == (log + init) + [e];
      LiveSnoc(log + init, e, key);
    }
  }

  /** One more fragment of a group, when those of its message so far are `init`. */
  lemma ExtendedMore(log: seq<Event>, before: seq<Event>, headed: bool, init: seq<Event>, e: Event)
    requires Live(log, e.f.group) == (if init == [] then before else Extended(before, headed, init))
    requires e.f.total > 0 && (e.f.index == 0 ==> init == [] && headed)
    requires headed && e.f.index > 0 ==> init != []
    ensures Live(log + [e], e.f.group) == Extended(before, headed, init + [e])
  {
    hide Live;
    LiveSnoc(log, e, e.f.group);
    assert before + (init + [e]) == (before + init) + [e];
    assert before + [] == before;
    if e.f.index == 0 { assert init + [e] == [e]; }
  }

  /** What appending fragments of message `j` does to the live fragments of its group. */
  lemma {:induction false} OwnGroup(log: seq<Event>, s: Stream, acc: set<int>, j: nat, n: nat)
    requires StreamOk(s) && j < |s.msgs| && s.msgs[j].Split? && n <= |s.msgs[j].chunks|
    ensures var es, before := EventsIn(s, acc, j, n), Live(log, s.msgs[j].group);
            Live(log + es, s.msgs[j].group) == (if es == [] then before else Extended(before, Has(s, acc, j, 0), es))
  {
    hide Live, EventsIn, Has, StreamOk, Extended;
    var key, before := s.msgs[j].group, Live(log, s.msgs[j].group);
    if n == 0 {
      EventsNone(s, acc, j);
      assert log + [] == log;
    } else {
      var init, es := EventsIn(s, acc, j, n - 1), EventsIn(s, acc, j, n);
      OwnGroup(log, s, acc, j, n - 1);
      EventsMore(s, acc, j, n);
      if Has(s, acc, j, n - 1) {
        var e := EventOf(s.msgs[j], n - 1);
        if Has(s, acc, j, 0) && n > 1 { EventsHead(s, acc, j, n - 1); }
        assert log + es == (log + init) + [e];
        if n == 1 { EventsNone(s, acc, j); }
        ExtendedMore(log + init, before, Has(s, acc, j, 0), init, e);
      } else {
        assert es == init;
      }
    }
  }

  lemma EventsMore(s: Stream, acc: set<int>, j: nat, n: nat)
    requires StreamOk(s) && j < |s.msgs| && s.msgs[j].Split? && 1 <= n <= |s.msgs[j].chunks|
    ensures SentOk(s.msgs[j]) && EventsIn(s, acc, j, 0) == []
    ensures EventsIn(s, acc, j, n)
         == EventsIn(s, acc, j, n - 1) + if Has(s, acc, j, n - 1) then [EventOf(s.msgs[j], n - 1)] else []
  {
  }

  /** What the fragments of a whole message do to the live fragments of a group. */
  lemma LiveOfMessage(log: seq<Event>, s: Stream, acc: set<int>, j: nat, key: uint16)
    requires StreamOk(s) && j < |s.msgs| && s.msgs[j].Split?
    ensures Live(log + EventsIn(s, acc, j, |s.msgs[j].chunks|), key)
         == if s.msgs[j].group != key then Live(log, key)
            else Extended(Live(log, key), Has(s, acc, j, 0), EventsIn(s, acc, j, |s.msgs[j].chunks|))
  {
    hide Live, EventsIn, Has, Extended;
    var size := |s.msgs[j].chunks|;
    var es := EventsIn(s, acc, j, size);
    if s.msgs[j].group == key {
      assert SentOk(s.msgs[j]);
      OwnGroup(log, s, acc, j, size);
      if Has(s, acc, j, 0) { EventsHead(s, acc, j, size); }
      NoneExtends(Live(log, key));
    } else {
      OtherGroup(log, es, key);
    }
  }

  lemma NoneExtends(before: seq<Event>)
    ensures Extended(before, false, []) == before
  {
  }

  lemma {:induction false} LiveOfLog(s: Stream, acc: set<int>, key: uint16, n: nat)
    requires StreamOk(s) && n <= |s.msgs|
    ensures Live(Log(s, acc, n), key) == Since(s, acc, key, n)
  {
    hide Live, EventsIn, Has, Extended;
    if n == 0 {
      NothingLive(key);
    } else {
      LiveOfLog(s, acc, key, n - 1);
      if s.msgs[n - 1].Split? {
        LiveOfMessage(Log(s, acc, n - 1), s, acc, n - 1, key);
      } else {
        assert Log(s, acc, n) == Log(s, acc, n - 1);
      }
    }
  }

  lemma NothingLive(key: uint16)
    ensures Live([], key) == []
  {
  }

  // ---- accepting one more packet ----

  lemma OthersAgree(s: Stream, acc: set<int>, j: nat, k: nat, j': nat)
    requires Extends(s, acc, j, k) && j' < |s.msgs| && j' != j
    ensures Agree(s, acc + {Start(s, j) + k}, acc, j', Size(s.msgs[j']))
    ensures j' > j ==> forall k' :: 0 <= k' < Size(s.msgs[j']) ==> !Has(s, acc, j', k')
  {
    forall k' | 0 <= k' < Size(s.msgs[j'])
      ensures Has(s, acc + {Start(s, j) + k}, j', k') <==> Has(s, acc, j', k')
      ensures j' > j ==> !Has(s, acc, j', k')
    {
      OneOwner(s, j, k, j', k');
    }
  }

  /** What came before the new packet's message is as it was. */
  lemma {:induction false} SinceKeeps(s: Stream, acc: set<int>, j: nat, k: nat, key: uint16, n: nat)
    requires Extends(s, acc, j, k) && n <= j
    ensures Since(s, acc + {Start(s, j) + k}, key, n) == Since(s, acc, key, n)
    ensures Opener(s, acc + {Start(s, j) + k}, key, n) == Opener(s, acc, key, n)
  {
    hide EventsIn;
    if n > 0 {
      SinceKeeps(s, acc, j, k, key, n - 1);
      OthersKeep(s, acc, j, k, n - 1);
      if SplitAs(s, n - 1, key) {
        OthersAgree(s, acc, j, k, n - 1);
        SameEvents(s, acc + {Start(s, j) + k}, acc, n - 1, |s.msgs[n - 1].chunks|);
      }
    }
  }

  lemma {:induction false} LogStep(s: Stream, acc: set<int>, j: nat, k: nat, n: nat)
    requires Extends(s, acc, j, k) && n <= |s.msgs|
    ensures Log(s, acc + {Start(s, j) + k}, n)
         == Log(s, acc, n) + if j < n && s.msgs[j].Split? then [EventOf(s.msgs[j], k)] else []
  {
    hide EventsIn;
    if n > 0 {
      var acc' := acc + {Start(s, j) + k};
      LogStep(s, acc, j, k, n - 1);
      if s.msgs[n - 1].Split? {
        if n - 1 == j {
          EventsStep(s, acc, j, k);
        } else {
          OthersAgree(s, acc, j, k, n - 1);
          SameEvents(s, acc', acc, n - 1, |s.msgs[n - 1].chunks|);
          if n - 1 > j { NoEvents(s, acc, n - 1); }
        }
      }
    }
  }

  lemma NoEvents(s: Stream, acc: set<int>, j: nat)
    requires StreamOk(s) && j < |s.msgs| && s.msgs[j].Split?
    requires forall k :: 0 <= k < |s.msgs[j].chunks| ==> !Has(s, acc, j, k)
    ensures EventsIn(s, acc, j, |s.msgs[j].chunks|) == []
  {
    NoMoreEvents(s, acc, j, 0, |s.msgs[j].chunks|);
  }

  lemma EventsStep(s: Stream, acc: set<int>, j: nat, k: nat)
    requires Extends(s, acc, j, k) && s.msgs[j].Split?
    ensures var acc', n := acc + {Start(s, j) + k}, |s.msgs[j].chunks|;
            && EventsIn(s, acc, j, n) == EventsIn(s, acc, j, k)
            && EventsIn(s, acc', j, n) == EventsIn(s, acc', j, k + 1)
            && EventsIn(s, acc', j, n) == EventsIn(s, acc, j, k) + [EventOf(s.msgs[j], k)]
  {
    var acc', n := acc + {Start(s, j) + k}, |s.msgs[j].chunks|;
    OwnKeep(s, acc, j, k);
    NoMoreEvents(s, acc, j, k, n);
    NoMoreEvents(s, acc', j, k + 1, n);
    SameEvents(s, acc', acc, j, k);
  }

  /** Later messages have nothing accepted yet, so the log ends with the new packet's message. */
  lemma {:induction false} LogEnds(s: Stream, acc: set<int>, j: nat, k: nat, n: nat)
    requires Extends(s, acc, j, k) && j < n <= |s.msgs|
    ensures Log(s, acc, n) == Log(s, acc, j + 1)
  {
    hide EventsIn;
    if n - 1 > j {
      LogEnds(s, acc, j, k, n - 1);
      OthersAgree(s, acc, j, k, n - 1);
      if s.msgs[n - 1].Split? { NoEvents(s, acc, n - 1); }
    }
  }

  /** The fragments that count with the new one, and those that counted before it. */
  lemma WithIsPending(s: Stream, acc: set<int>, j: nat, k: nat)
    requires Extends(s, acc, j, k) && s.msgs[j].Split?
    ensures var acc', log, e := acc + {Start(s, j) + k}, Log(s, acc, |s.msgs|), EventOf(s.msgs[j], k);
            && With(log, e) == Pending(s, acc', j, k + 1)
            && Live(log, s.msgs[j].group) == Pending(s, acc, j, k)
  {
    hide Live, Log, EventsIn;
    var acc', log, e := acc + {Start(s, j) + k}, Log(s, acc, |s.msgs|), EventOf(s.msgs[j], k);
    LogEnds(s, acc, j, k, |s.msgs|);
    LiveOfLog(s, acc, s.msgs[j].group, j + 1);
    EventsStep(s, acc, j, k);
    SinceKeeps(s, acc, j, k, s.msgs[j].group, j);
    OwnKeep(s, acc, j, k);
    if k == 0 {
      assert EventsIn(s, acc, j, 0) == [] by { EventsNone(s, acc, j); }
    } else if Has(s, acc, j, 0) {
      EventsHead(s, acc, j, k);
    } else {
      var before := Since(s, acc, s.msgs[j].group, j);
      assert before + (EventsIn(s, acc, j, k) + [e]) == (before + EventsIn(s, acc, j, k)) + [e];
    }
  }

  lemma EventsNone(s: Stream, acc: set<int>, j: nat)
    requires StreamOk(s) && j < |s.msgs| && s.msgs[j].Split?
    ensures EventsIn(s, acc, j, 0) == []
  {
  }

  // ---- whose fragments are pending ----

  /** Pending fragments begin with all the accepted ones of the opener; without an opener there are none. */
  lemma {:induction false} SinceOpened(s: Stream, acc: set<int>, key: uint16, n: nat)
    requires StreamOk(s) && n <= |s.msgs|
    ensures var o, es := Opener(s, acc, key, n), Since(s, acc, key, n);
            if o < 0 then es == [] else EventsIn(s, acc, o, |s.msgs[o].chunks|) <= es
  {
    hide EventsIn;
    if n > 0 && !(SplitAs(s, n - 1, key) && Has(s, acc, n - 1, 0)) {
      SinceOpened(s, acc, key, n - 1);
    }
  }

  lemma PrefixOccurs(a: seq<Event>, b: seq<Event>)
    requires a != [] && a <= b && Covers(a)
    ensures Covers(b)
  {
    forall i | 0 <= i < b[0].f.total
      ensures Occurs(b, i)
    {
      assert Occurs(a, i);
      var x :| 0 <= x < |a| && a[x].f.index == i;
      assert b[x].f.index == i;
    }
  }

  /** Once the opener is all in, whatever follows covers. */
  lemma AllInCovers(s: Stream, acc: set<int>, key: uint16, n: nat, es: seq<Event>)
    requires StreamOk(s) && n <= |s.msgs| && Since(s, acc, key, n) <= es
    requires Opener(s, acc, key, n) >= 0 && AllIn(s, acc, Opener(s, acc, key, n))
    ensures Covers(es)
  {
    hide EventsIn, AllIn, Since, Opener, Covers, Whole;
    var o := Opener(s, acc, key, n);
    var own := EventsIn(s, acc, o, |s.msgs[o].chunks|);
    SinceOpened(s, acc, key, n);
    EventsCover(s, acc, o);
    WholeIffCovers(own);
    PrefixOccurs(own, es);
  }

  // ---- a stray fragment ----

  /** If what is pending covers although its opener is not all in, there was a splice. */
  lemma {:induction false} CoveredMeansSpliced(s: Stream, acc: set<int>, key: uint16, n: nat)
    requires StreamOk(s) && n <= |s.msgs|
    requires Opener(s, acc, key, n) >= 0 && !AllIn(s, acc, Opener(s, acc, key, n))
    requires InRange(Since(s, acc, key, n)) && Covers(Since(s, acc, key, n))
    ensures !NoSplice(s, acc)
    decreases n, 0
  {
    hide EventsIn, AllIn, Covers, InRange, NoSplice, Whole;
    if !SplitAs(s, n - 1, key) {
      CoveredMeansSpliced(s, acc, key, n - 1);
    } else if Has(s, acc, n - 1, 0) {
      EventsCover(s, acc, n - 1);
      WholeIffCovers(EventsIn(s, acc, n - 1, |s.msgs[n - 1].chunks|));
    } else {
      StrayCovers(s, acc, n - 1, |s.msgs[n - 1].chunks|);
    }
  }

  /** The same, up to fragment `n` of a message that lost its first one. */
  lemma {:induction false} StrayCovers(s: Stream, acc: set<int>, j: nat, n: nat)
    requires StreamOk(s) && j < |s.msgs| && s.msgs[j].Split? && n <= |s.msgs[j].chunks| && !Has(s, acc, j, 0)
    requires var o := Opener(s, acc, s.msgs[j].group, j); o >= 0 && !AllIn(s, acc, o)
    requires InRange(Pending(s, acc, j, n)) && Covers(Pending(s, acc, j, n))
    ensures !NoSplice(s, acc)
    decreases j, 1, n
  {
    hide EventsIn, AllIn, Covers, InRange, Since, Opener, NoSplice, Has;
    if n == 0 {
      EventsNone(s, acc, j);
      var before := Since(s, acc, s.msgs[j].group, j);
      assert before + [] == before;
      NothingCovers();
      CoveredMeansSpliced(s, acc, s.msgs[j].group, j);
    } else if Has(s, acc, j, n - 1) {
      SpliceFound(s, acc, j, n - 1);
    } else {
      EventsMore(s, acc, j, n);
      assert EventsIn(s, acc, j, n) == EventsIn(s, acc, j, n - 1);
      StrayCovers(s, acc, j, n - 1);
    }
  }

  lemma NothingCovers()
    ensures !Covers([])
  {
  }

  lemma SpliceFound(s: Stream, acc: set<int>, j: nat, k: nat)
    requires StreamOk(s) && j < |s.msgs| && k < Size(s.msgs[j]) && Spliced(s, acc, j, k)
    ensures !NoSplice(s, acc)
  {
    hide Spliced;
  }

  /** A stray fragment brings a message out exactly when it splices one. */
  lemma StrayDue(s: Stream, acc: set<int>, j: nat, k: nat)
    requires Extends(s, acc, j, k) && s.msgs[j].Split? && k > 0 && !Has(s, acc, j, 0)
    requires NoSplice(s, acc)
    ensures Due(Log(s, acc, |s.msgs|), EventOf(s.msgs[j], k)).Some? <==> Spliced(s, acc + {Start(s, j) + k}, j, k)
  {
    hide EventsIn, AllIn, Covers, InRange, Since, Opener, NoSplice, Live, Log, Whole, FirstCopies, Joined, With, Has;
    var acc', e, key := acc + {Start(s, j) + k}, EventOf(s.msgs[j], k), s.msgs[j].group;
    var before, es := Pending(s, acc, j, k), Pending(s, acc', j, k + 1);
    var o := Opener(s, acc, key, j);
    WithIsPending(s, acc, j, k);
    SinceKeeps(s, acc, j, k, key, j);
    SinceOpened(s, acc, key, j);
    EventsStep(s, acc, j, k);
    HasNow(s, acc, j, k);
    if o >= 0 {
      OpenedIsSomething(s, acc, o);
      OthersKeep(s, acc, j, k, o);
      assert es == before + [e];
      CollectMore(before, e);
      WholeIffCovers(before);
      WholeIffCovers(es);
      if AllIn(s, acc, o) { AllInCovers(s, acc, key, j, before); }
      if Covers(before) && InRange(before) && !AllIn(s, acc, o) { StrayCovers(s, acc, j, k); }
    } else {
      NothingCovers();
    }
  }

  lemma HasNow(s: Stream, acc: set<int>, j: nat, k: nat)
    requires Extends(s, acc, j, k)
    ensures Has(s, acc + {Start(s, j) + k}, j, k)
    ensures k > 0 ==> (Has(s, acc + {Start(s, j) + k}, j, 0) <==> Has(s, acc, j, 0))
  {
  }

  lemma OpenedIsSomething(s: Stream, acc: set<int>, o: nat)
    requires StreamOk(s) && o < |s.msgs| && s.msgs[o].Split? && Has(s, acc, o, 0)
    ensures EventsIn(s, acc, o, |s.msgs[o].chunks|) != []
  {
    assert SentOk(s.msgs[o]);
    EventsHead(s, acc, o, |s.msgs[o].chunks|);
  }

  // ---- a fragment of a message whose first one is in ----

  /** It brings the message out exactly when it is the last one missing, and the message is whole. */
  lemma HeadedDue(s: Stream, acc: set<int>, j: nat, k: nat)
    requires Extends(s, acc, j, k) && s.msgs[j].Split? && (k == 0 || Has(s, acc, j, 0))
    ensures Due(Log(s, acc, |s.msgs|), EventOf(s.msgs[j], k))
         == if AllIn(s, acc + {Start(s, j) + k}, j)
            then Some(Message(s.msgs[j].opcode, Concat(s.msgs[j].chunks))) else None
  {
    hide EventsIn, AllIn, Covers, InRange, Since, Live, Log, Whole, FirstCopies, Joined, Concat, With, Has;
    var acc', m := acc + {Start(s, j) + k}, s.msgs[j];
    var es := EventsIn(s, acc', j, |m.chunks|);
    WithIsPending(s, acc, j, k);
    EventsStep(s, acc, j, k);
    HasNow(s, acc, j, k);
    NotYet(s, acc, j, k);
    EventsCover(s, acc', j);
    if k > 0 { EventsCover(s, acc, j); }
    if k > 0 && |es| == 1 { OpenedIsSomething(s, acc, j); }
    if AllIn(s, acc', j) { WholeMessage(s, acc', j); }
  }

  lemma WholeMessage(s: Stream, acc: set<int>, j: nat)
    requires StreamOk(s) && j < |s.msgs| && s.msgs[j].Split? && AllIn(s, acc, j)
    ensures Joined(FirstCopies(EventsIn(s, acc, j, |s.msgs[j].chunks|))) == Concat(s.msgs[j].chunks)
  {
    hide Joined, FirstCopies, Concat;
    EventsJoin(s, acc, j, |s.msgs[j].chunks|);
    assert s.msgs[j].chunks[..|s.msgs[j].chunks|] == s.msgs[j].chunks;
  }

  // ---- one accepted packet ----

  /** Nothing else is spliced by accepting one more packet than what that packet completes. */
  lemma NoSpliceStep(s: Stream, acc: set<int>, j: nat, k: nat)
    requires Extends(s, acc, j, k)
    ensures NoSplice(s, acc + {Start(s, j) + k}) <==> NoSplice(s, acc) && !Spliced(s, acc + {Start(s, j) + k}, j, k)
  {
    hide Spliced;
    var acc' := acc + {Start(s, j) + k};
    forall j': nat, k': nat | j' < |s.msgs| && k' < Size(s.msgs[j'])
      ensures Spliced(s, acc', j', k') <==> Spliced(s, acc, j', k') || (j' == j && k' == k && Spliced(s, acc', j, k))
    {
      SplicedStep(s, acc, j, k, j', k');
    }
  }

  lemma SplicedStep(s: Stream, acc: set<int>, j: nat, k: nat, j': nat, k': nat)
    requires Extends(s, acc, j, k) && j' < |s.msgs| && k' < Size(s.msgs[j'])
    ensures var acc' := acc + {Start(s, j) + k};
            Spliced(s, acc', j', k') <==> Spliced(s, acc, j', k') || (j' == j && k' == k && Spliced(s, acc', j, k))
  {
    hide EventsIn, AllIn, Covers, InRange, Since, Opener;
    var acc' := acc + {Start(s, j) + k};
    OwnKeep(s, acc, j, k);
    if j' != j { OthersAgree(s, acc, j, k, j'); }
    if s.msgs[j'].Split? && Has(s, acc, j', k') {
      assert j' <= j && (j' == j ==> k' < k);
      var key := s.msgs[j'].group;
      SinceKeeps(s, acc, j, k, key, j');
      SameEvents(s, acc', acc, j', k' + 1);
      var o := Opener(s, acc, key, j');
      if o >= 0 { OthersKeep(s, acc, j, k, o); }
    }
  }

  /** What a packet brings out is what it should, or a message where none was due. */
  predicate OneMore(out: seq<Message>, wanted: seq<Message>) {
    out == wanted || (|out| == 1 && wanted == [])
  }

  /** The decoder meets one accepted packet of the stream. */
  lemma AcceptedStep(s: Stream, acc: set<int>, j: nat, k: nat)
    requires Extends(s, acc, j, k) && !s.msgs[j].Bare?
    ensures var acc' := acc + {Start(s, j) + k};
            var (asm, out) := Deliver(AsmAfter(Log(s, acc, |s.msgs|)), PacketOf(s.msgs[j], k));
            var wanted := if AllIn(s, acc', j) then Assembled(s.msgs[j]) else [];
            && asm == AsmAfter(Log(s, acc', |s.msgs|))
            && OneMore(out, wanted)
            && (NoSplice(s, acc) ==> (out == wanted <==> !Spliced(s, acc', j, k)))
  {
    hide NoSplice, AllIn, Log, Accept, Due, Has, Concat, Since, Opener, Pending, Covers;
    var acc', log := acc + {Start(s, j) + k}, Log(s, acc, |s.msgs|);
    LogStep(s, acc, j, k, |s.msgs|);
    if s.msgs[j].Single? {
      OnlyOne(s, acc, j);
      assert log + [] == log;
    } else {
      var e := EventOf(s.msgs[j], k);
      assert (log + [e])[..|log|] == log;
      EmittedWhenDue(log, e);
      if k == 0 || Has(s, acc, j, 0) {
        HeadedDue(s, acc, j, k);
        HeadedIn(s, acc, j, k);
      } else {
        HasNow(s, acc, j, k);
        MissingHead(s, acc', j);
        if NoSplice(s, acc) { StrayDue(s, acc, j, k); }
      }
    }
  }

  lemma OnlyOne(s: Stream, acc: set<int>, j: nat)
    requires j < |s.msgs| && s.msgs[j].Single?
    ensures AllIn(s, acc + {Start(s, j) + 0}, j)
  {
  }

  lemma HeadedIn(s: Stream, acc: set<int>, j: nat, k: nat)
    requires Extends(s, acc, j, k) && (k == 0 || Has(s, acc, j, 0))
    ensures Has(s, acc + {Start(s, j) + k}, j, 0)
  {
  }

  lemma MissingHead(s: Stream, acc: set<int>, j: nat)
    requires j < |s.msgs| && Size(s.msgs[j]) > 0 && !Has(s, acc, j, 0)
    ensures !AllIn(s, acc, j)
  {
  }

  // ---- the whole run ----

  /** The decoder's state, from the accepted numbers alone. */
  function StateAfter(s: Stream, arrivals: seq<Arrival>): DecoderState
    requires StreamOk(s) && ArrivalsOk(s, arrivals)
  {
    var high := High(s, arrivals);
    DecoderState(if high < 0 then -1 else SerialNumbers.Wire(s.base + high),
                 AsmAfter(Log(s, Accepted(s, arrivals), |s.msgs|)))
  }

  lemma DataArrives(s: Stream, arrivals: seq<Arrival>)
    requires StreamOk(s) && ArrivalsOk(s, arrivals) && InWindow(s, arrivals) && arrivals != [] && Last(arrivals).Data?
    ensures var (st, out) := Assemble(StateAfter(s, Init(arrivals)), Datagram(s, Last(arrivals)));
            && st == StateAfter(s, arrivals) && OneMore(out, Brings(s, arrivals))
            && (NoSplice(s, Accepted(s, arrivals))
                <==> NoSplice(s, Accepted(s, Init(arrivals))) && out == Brings(s, arrivals))
  {
    hide NoSplice, Log, Deliver, Filter, AllIn, Assembled, Spliced, AsmAfter, PacketOf;
    hide WireFormat.Parse, WireFormat.Print, SerialNumbers.Wire;
    var a, before := Last(arrivals), Init(arrivals);
    var n, high := Number(s, a), High(s, before);
    WireFormat.ParseOfPrint(a.env, Some(SerialNumbers.Wire(s.base + n)), PacketOf(s.msgs[a.j], a.k));
    FilterIsTrueOrder(s, high, n);
    if n > high {
      AcceptedStep(s, Accepted(s, before), a.j, a.k);
      NoSpliceStep(s, Accepted(s, before), a.j, a.k);
    }
  }

  /** A numbered packet without a message moves the high-water mark and nothing else. */
  lemma EmptyArrives(s: Stream, arrivals: seq<Arrival>)
    requires StreamOk(s) && ArrivalsOk(s, arrivals) && InWindow(s, arrivals) && arrivals != [] && Last(arrivals).Empty?
    ensures Assemble(StateAfter(s, Init(arrivals)), Datagram(s, Last(arrivals))) == (StateAfter(s, arrivals), [])
    ensures Brings(s, arrivals) == []
    ensures NoSplice(s, Accepted(s, arrivals)) <==> NoSplice(s, Accepted(s, Init(arrivals)))
  {
    hide NoSplice, Log, WireFormat.Parse, Filter, AllIn, AsmAfter, SerialNumbers.Wire;
    var a, before := Last(arrivals), Init(arrivals);
    var n, high := Number(s, a), High(s, before);
    FilterIsTrueOrder(s, high, n);
    if n > high {
      var acc := Accepted(s, before);
      LogStep(s, acc, a.j, 0, |s.msgs|);
      assert Log(s, acc, |s.msgs|) + [] == Log(s, acc, |s.msgs|);
      NoSpliceStep(s, acc, a.j, 0);
    }
  }

  /** An arrival without a number moves nothing but brings its own message. */
  lemma OthersArrive(s: Stream, arrivals: seq<Arrival>)
    requires StreamOk(s) && ArrivalsOk(s, arrivals) && arrivals != [] && !InStream(Last(arrivals))
    ensures Assemble(StateAfter(s, Init(arrivals)), Datagram(s, Last(arrivals)))
         == (StateAfter(s, arrivals), Brings(s, arrivals))
    ensures Accepted(s, arrivals) == Accepted(s, Init(arrivals))
  {
    hide Log, WireFormat.Parse, WireFormat.Print;
    var a := Last(arrivals);
    if a.Plain? {
      WireFormat.ParseOfPrint(a.env, None, WireFormat.Body(None, a.opcode, a.body));
    }
  }

  /** `part` is what is left of `all` when some of it is dropped. */
  predicate Subsequence(part: seq<Message>, all: seq<Message>) {
    if part == [] || all == [] then part == []
    else (Last(part) == Last(all) && Subsequence(Init(part), Init(all))) || Subsequence(part, Init(all))
  }

  lemma {:induction false} SubsequenceIsShorter(part: seq<Message>, all: seq<Message>)
    requires Subsequence(part, all)
    ensures |part| <= |all|
  {
    if part != [] && all != [] {
      if Subsequence(part, Init(all)) {
        SubsequenceIsShorter(part, Init(all));
      } else {
        SubsequenceIsShorter(Init(part), Init(all));
      }
    }
  }

  lemma {:induction false} SubsequenceConcat(part: seq<Message>, all: seq<Message>, more: seq<Message>)
    requires Subsequence(part, all)
    ensures Subsequence(part + more, all + more)
    decreases |more|
  {
    if more == [] {
      assert part + more == part && all + more == all;
    } else {
      SubsequenceConcat(part, all, Init(more));
      assert Init(part + more) == part + Init(more) && Init(all + more) == all + Init(more);
    }
  }

  lemma OneMoreConcat(out: seq<Message>, wanted: seq<Message>, more: seq<Message>, moreWanted: seq<Message>)
    requires Subsequence(wanted, out) && OneMore(more, moreWanted)
    ensures Subsequence(wanted + moreWanted, out + more)
    ensures out + more == wanted + moreWanted <==> out == wanted && more == moreWanted
  {
    SubsequenceIsShorter(wanted, out);
    if more == moreWanted {
      SubsequenceConcat(wanted, out, more);
    } else {
      assert Init(out + more) == out && wanted + moreWanted == wanted;
    }
    if out + more == wanted + moreWanted {
      assert out == (out + more)[..|out|] && wanted == (wanted + moreWanted)[..|wanted|];
      assert more == (out + more)[|out|..] && moreWanted == (wanted + moreWanted)[|wanted|..];
    }
  }

  /**
   * Whatever the network loses, repeats and reorders: the state is that of the accepted packets fed in sending order,
   * and the messages all of whose packets were accepted are assembled, each once and whole and when its last packet is
   * accepted. Nothing else is assembled if and only if nothing is spliced.
   */
  lemma {:induction false} AssembledIff(s: Stream, arrivals: seq<Arrival>)
    requires StreamOk(s) && ArrivalsOk(s, arrivals) && InWindow(s, arrivals)
    ensures AssembleAll(Datagrams(s, arrivals)).0 == StateAfter(s, arrivals)
    ensures Subsequence(Wanted(s, arrivals), AssembleAll(Datagrams(s, arrivals)).1)
    ensures AssembleAll(Datagrams(s, arrivals)).1 == Wanted(s, arrivals) <==> NoSplice(s, Accepted(s, arrivals))
  {
    hide NoSplice, Assemble, Brings, OneMore, Datagram, Subsequence;
    if arrivals == [] {
      NothingArrived(s);
    } else {
      var before, a := Init(arrivals), Last(arrivals);
      AssembledIff(s, before);
      assert Datagrams(s, arrivals)[..|arrivals| - 1] == Datagrams(s, before);
      JustThat(Brings(s, arrivals));
      if a.Data? {
        DataArrives(s, arrivals);
      } else if a.Empty? {
        EmptyArrives(s, arrivals);
      } else {
        OthersArrive(s, arrivals);
      }
      var more := Assemble(StateAfter(s, before), Datagram(s, a)).1;
      OneMoreConcat(AssembleAll(Datagrams(s, before)).1, Wanted(s, before), more, Brings(s, arrivals));
    }
  }

  lemma JustThat(ms: seq<Message>)
    ensures OneMore(ms, ms)
  {
  }

  lemma NothingArrived(s: Stream)
    requires StreamOk(s)
    ensures StateAfter(s, []) == INITIAL && Wanted(s, []) == [] && NoSplice(s, {}) && Subsequence([], [])
  {
    NothingLogged(s, |s.msgs|);
  }

  lemma {:induction false} NothingLogged(s: Stream, n: nat)
    requires StreamOk(s) && n <= |s.msgs|
    ensures Log(s, {}, n) == []
  {
    if n > 0 {
      NothingLogged(s, n - 1);
      if s.msgs[n - 1].Split? { NoEvents(s, {}, n - 1); }
    }
  }

  /** After every arrival a group holds what the accepted fragments since it was last opened make of it. */
  lemma TableIs(s: Stream, arrivals: seq<Arrival>, key: uint16)
    requires StreamOk(s) && ArrivalsOk(s, arrivals) && InWindow(s, arrivals)
    ensures Lookup(AssembleAll(Datagrams(s, arrivals)).0.asm, key)
         == Holding(Since(s, Accepted(s, arrivals), key, |s.msgs|))
  {
    hide AssembleAll, Datagrams, Log, Live, Holding;
    AssembledIff(s, arrivals);
    TableFromHistory(Log(s, Accepted(s, arrivals), |s.msgs|), key);
    LiveOfLog(s, Accepted(s, arrivals), key, |s.msgs|);
  }

  // ---- in sending order ----

  /** The first `n` messages, less those of which a packet was not accepted. */
  function WholeMessages(s: Stream, acc: set<int>, n: nat): seq<Message>
    requires n <= |s.msgs|
  {
    if n == 0 then []
    else WholeMessages(s, acc, n - 1) + if AllIn(s, acc, n - 1) then Assembled(s.msgs[n - 1]) else []
  }

  lemma {:induction false} WholeMessagesStep(s: Stream, acc: set<int>, j: nat, k: nat, n: nat)
    requires Extends(s, acc, j, k) && n <= |s.msgs|
    ensures var acc' := acc + {Start(s, j) + k};
            WholeMessages(s, acc', n) == WholeMessages(s, acc, n)
            + if j < n && AllIn(s, acc', j) then Assembled(s.msgs[j]) else []
  {
    hide Assembled, AllIn;
    if n > 0 {
      WholeMessagesStep(s, acc, j, k, n - 1);
      if n - 1 != j {
        OthersKeep(s, acc, j, k, n - 1);
      } else {
        NotYet(s, acc, j, k);
      }
    }
  }

  lemma {:induction false} NothingWhole(s: Stream, n: nat)
    requires StreamOk(s) && n <= |s.msgs|
    ensures WholeMessages(s, {}, n) == []
  {
    if n > 0 {
      NothingWhole(s, n - 1);
      assert SentOk(s.msgs[n - 1]);
      assert !Has(s, {}, n - 1, 0);
    }
  }

  /** The arrivals that belong to the stream. */
  function Numbered(s: Stream, arrivals: seq<Arrival>): (r: seq<Arrival>)
    requires ArrivalsOk(s, arrivals)
    ensures ArrivalsOk(s, r) && forall i :: 0 <= i < |r| ==> InStream(r[i])
    ensures (forall i :: 0 <= i < |arrivals| ==> InStream(arrivals[i])) ==> r == arrivals
  {
    if arrivals == [] then []
    else Numbered(s, Init(arrivals)) + if InStream(Last(arrivals)) then [Last(arrivals)] else []
  }

  lemma {:induction false} NumberedDecide(s: Stream, arrivals: seq<Arrival>)
    requires ArrivalsOk(s, arrivals)
    ensures High(s, Numbered(s, arrivals)) == High(s, arrivals)
    ensures Accepted(s, Numbered(s, arrivals)) == Accepted(s, arrivals)
  {
    if arrivals != [] {
      var before, kept := Init(arrivals), Numbered(s, Init(arrivals));
      NumberedDecide(s, before);
      if InStream(Last(arrivals)) {
        assert Init(kept + [Last(arrivals)]) == kept;
      } else {
        assert Numbered(s, arrivals) == kept;
      }
    }
  }

  lemma NumberedLast(s: Stream, arrivals: seq<Arrival>)
    requires ArrivalsOk(s, arrivals) && arrivals != []
    ensures var kept, a := Numbered(s, Init(arrivals)), Last(arrivals);
            && Numbered(s, arrivals) == (if InStream(a) then kept + [a] else kept)
            && (InStream(a) ==> Init(kept + [a]) == kept)
  {
    var kept := Numbered(s, Init(arrivals));
    if !InStream(Last(arrivals)) {
      assert Numbered(s, arrivals) == kept;
    }
  }

  /** A numbered arrival brings the same whether or not others came in between. */
  lemma BringsSame(s: Stream, arrivals: seq<Arrival>)
    requires ArrivalsOk(s, arrivals) && arrivals != [] && InStream(Last(arrivals))
    ensures var kept := Numbered(s, arrivals); kept != [] && Brings(s, kept) == Brings(s, arrivals)
  {
    hide Assembled, AllIn, Accepted, High;
    NumberedLast(s, arrivals);
    NumberedDecide(s, arrivals);
    NumberedDecide(s, Init(arrivals));
  }

  lemma WholeMessagesStepOf(s: Stream, arrivals: seq<Arrival>)
    requires StreamOk(s) && ArrivalsOk(s, arrivals) && arrivals != [] && InStream(Last(arrivals))
    ensures WholeMessages(s, Accepted(s, arrivals), |s.msgs|)
         == WholeMessages(s, Accepted(s, Init(arrivals)), |s.msgs|) + Brings(s, arrivals)
  {
    hide Assembled, AllIn, WholeMessages;
    var before, a := Init(arrivals), Last(arrivals);
    if Number(s, a) > High(s, before) { WholeMessagesStep(s, Accepted(s, before), a.j, a.k, |s.msgs|); }
  }

  /** What the stream's own arrivals bring is its whole messages, in sending order. */
  lemma {:induction false} WantedInOrder(s: Stream, arrivals: seq<Arrival>)
    requires StreamOk(s) && ArrivalsOk(s, arrivals)
    ensures Wanted(s, Numbered(s, arrivals)) == WholeMessages(s, Accepted(s, arrivals), |s.msgs|)
  {
    hide WholeMessages, Brings;
    if arrivals == [] {
      NothingWhole(s, |s.msgs|);
    } else {
      WantedInOrder(s, Init(arrivals));
      NumberedLast(s, arrivals);
      if InStream(Last(arrivals)) {
        BringsSame(s, arrivals);
        WholeMessagesStepOf(s, arrivals);
      }
    }
  }

  /** Every arrival with a message of its own belongs to the stream. */
  predicate NoPlain(arrivals: seq<Arrival>) {
    forall i :: 0 <= i < |arrivals| ==> !arrivals[i].Plain?
  }

  lemma {:induction false} SilentBringNothing(s: Stream, arrivals: seq<Arrival>)
    requires ArrivalsOk(s, arrivals) && NoPlain(arrivals)
    ensures Wanted(s, arrivals) == Wanted(s, Numbered(s, arrivals))
  {
    hide Brings;
    if arrivals != [] {
      SilentBringNothing(s, Init(arrivals));
      NumberedLast(s, arrivals);
      if InStream(Last(arrivals)) { BringsSame(s, arrivals); } else { BringsNothing(s, arrivals); }
    }
  }

  lemma BringsNothing(s: Stream, arrivals: seq<Arrival>)
    requires ArrivalsOk(s, arrivals) && arrivals != [] && Last(arrivals).Other?
    ensures Brings(s, arrivals) == []
  {
  }

  /**
   * When nothing is spliced the callback sees what was wanted, deobfuscated, and of the stream that is
   * exactly the messages all of whose packets were accepted, in sending order.
   */
  lemma EndToEnd(inflate: Inflate, s: Stream, arrivals: seq<Arrival>)
    requires StreamOk(s) && ArrivalsOk(s, arrivals) && InWindow(s, arrivals)
    requires NoSplice(s, Accepted(s, arrivals))
    ensures Run(inflate, Datagrams(s, arrivals)).1 == EmitEach(inflate, Wanted(s, arrivals))
    ensures Wanted(s, Numbered(s, arrivals)) == WholeMessages(s, Accepted(s, arrivals), |s.msgs|)
    ensures NoPlain(arrivals) ==> Wanted(s, arrivals) == WholeMessages(s, Accepted(s, arrivals), |s.msgs|)
  {
    hide Run, AssembleAll, Datagrams, NoSplice, EmitEach, Wanted, Numbered, WholeMessages, NoPlain;
    AssembledIff(s, arrivals);
    RunIsAssembleAll(inflate, Datagrams(s, arrivals));
    WantedInOrder(s, arrivals);
    if NoPlain(arrivals) { SilentBringNothing(s, arrivals); }
  }
}
