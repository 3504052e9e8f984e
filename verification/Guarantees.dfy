/** What the end-to-end theorem means for a sender. */
module Guarantees {
  import opened Bytes
  import Fragments
  import Decoder
  import opened Network
  import opened Delivery
  import Demux

  // ---- which messages come out ----

  /** Arrival `i` is a copy of number `n`, and nothing before it was numbered `n` or higher. */
  predicate ArrivesFirst(s: Stream, arrivals: seq<Arrival>, n: int, i: nat)
    requires ArrivalsOk(s, arrivals) && i < |arrivals|
  {
    && InStream(arrivals[i]) && Number(s, arrivals[i]) == n
    && forall i' :: 0 <= i' < i && InStream(arrivals[i']) ==> Number(s, arrivals[i']) < n
  }

  /** Some copy of number `n` arrives before everything numbered higher. */
  predicate Leads(s: Stream, arrivals: seq<Arrival>, n: int)
    requires ArrivalsOk(s, arrivals)
  {
    exists i :: 0 <= i < |arrivals| && ArrivesFirst(s, arrivals, n, i)
  }

  lemma {:induction false} HighBounds(s: Stream, arrivals: seq<Arrival>, n: int)
    requires ArrivalsOk(s, arrivals) && n >= 0
    ensures High(s, arrivals) < n
       <==> forall i :: 0 <= i < |arrivals| && InStream(arrivals[i]) ==> Number(s, arrivals[i]) < n
  {
    if arrivals != [] {
      var before := Init(arrivals);
      HighBounds(s, before, n);
      assert arrivals == before + [Last(arrivals)];
    }
  }

  /** The last arrival is a first copy exactly when it is above all before it; earlier ones stay what they were. */
  lemma ArrivesFirstStep(s: Stream, arrivals: seq<Arrival>, n: int)
    requires ArrivalsOk(s, arrivals) && n >= 0 && arrivals != []
    ensures Leads(s, arrivals, n)
       <==> || Leads(s, Init(arrivals), n)
            || (InStream(Last(arrivals)) && Number(s, Last(arrivals)) == n && High(s, Init(arrivals)) < n)
  {
    hide High, Number;
    var before, last := Init(arrivals), |arrivals| - 1;
    HighBounds(s, before, n);
    forall i: nat | i < last
      ensures ArrivesFirst(s, before, n, i) <==> ArrivesFirst(s, arrivals, n, i)
    {
      SameBefore(s, arrivals, n, i);
    }
    assert ArrivesFirst(s, arrivals, n, last)
      <==> InStream(Last(arrivals)) && Number(s, Last(arrivals)) == n && High(s, before) < n;
    if Leads(s, before, n) {
      var i :| 0 <= i < |before| && ArrivesFirst(s, before, n, i);
      assert ArrivesFirst(s, arrivals, n, i);
    }
  }

  lemma SameBefore(s: Stream, arrivals: seq<Arrival>, n: int, i: nat)
    requires ArrivalsOk(s, arrivals) && i < |arrivals| - 1
    ensures ArrivesFirst(s, Init(arrivals), n, i) <==> ArrivesFirst(s, arrivals, n, i)
  {
    hide Number;
    assert forall k :: 0 <= k < |arrivals| - 1 ==> Init(arrivals)[k] == arrivals[k];
  }

  /** A number is accepted exactly when a copy of it arrives before everything numbered higher. */
  lemma {:induction false} AcceptedIff(s: Stream, arrivals: seq<Arrival>, n: int)
    requires ArrivalsOk(s, arrivals) && n >= 0
    ensures n in Accepted(s, arrivals) <==> Leads(s, arrivals, n)
  {
    hide Number, Leads, High;
    if arrivals == [] {
      NoneLeads(s, n);
    } else {
      AcceptedIff(s, Init(arrivals), n);
      ArrivesFirstStep(s, arrivals, n);
    }
  }

  lemma NoneLeads(s: Stream, n: int)
    ensures !Leads(s, [], n)
  {
  }

  /** The messages that come out, by their place in the stream. */
  function Kept(s: Stream, acc: set<int>, n: nat): (ks: seq<nat>)
    requires n <= |s.msgs|
    ensures forall i :: 0 <= i < |ks| ==> ks[i] < n && AllIn(s, acc, ks[i])
    ensures forall i, j :: 0 <= i < j < |ks| ==> ks[i] < ks[j]
    ensures forall j :: 0 <= j < n && AllIn(s, acc, j) ==> j in ks
  {
    if n == 0 then [] else Kept(s, acc, n - 1) + if AllIn(s, acc, n - 1) then [n - 1] else []
  }

  function MessagesAt(s: Stream, ks: seq<nat>): seq<Fragments.Message>
    requires forall i :: 0 <= i < |ks| ==> ks[i] < |s.msgs|
  {
    if ks == [] then [] else MessagesAt(s, Init(ks)) + Assembled(s.msgs[Last(ks)])
  }

  lemma NoMessages(s: Stream)
    ensures MessagesAt(s, []) == []
  {
  }

  lemma MessagesAtSnoc(s: Stream, ks: seq<nat>, k: nat)
    requires k < |s.msgs| && forall i :: 0 <= i < |ks| ==> ks[i] < |s.msgs|
    ensures MessagesAt(s, ks + [k]) == MessagesAt(s, ks) + Assembled(s.msgs[k])
  {
    hide Assembled;
    assert Init(ks + [k]) == ks;
  }

  lemma {:induction false} WholeAreKept(s: Stream, acc: set<int>, n: nat)
    requires n <= |s.msgs|
    ensures WholeMessages(s, acc, n) == MessagesAt(s, Kept(s, acc, n))
  {
    hide Assembled, AllIn, MessagesAt;
    if n == 0 {
      NoMessages(s);
    } else {
      WholeAreKept(s, acc, n - 1);
      if AllIn(s, acc, n - 1) {
        MessagesAtSnoc(s, Kept(s, acc, n - 1), n - 1);
      } else {
        assert Kept(s, acc, n) == Kept(s, acc, n - 1);
      }
    }
  }

  /** Of the stream, what comes out is a subsequence of what was sent: increasing places, so each at most once. */
  lemma EmittedIsSubsequence(inflate: Decoder.Inflate, s: Stream, arrivals: seq<Arrival>) returns (ks: seq<nat>)
    requires StreamOk(s) && ArrivalsOk(s, arrivals) && InWindow(s, arrivals)
    requires NoSplice(s, Accepted(s, arrivals))
    ensures forall i :: 0 <= i < |ks| ==> ks[i] < |s.msgs|
    ensures forall i, j :: 0 <= i < j < |ks| ==> ks[i] < ks[j]
    ensures forall j :: 0 <= j < |s.msgs| ==> (j in ks <==> AllIn(s, Accepted(s, arrivals), j))
    ensures Decoder.Run(inflate, Datagrams(s, arrivals)).1 == Decoder.EmitEach(inflate, Wanted(s, arrivals))
    ensures Wanted(s, Numbered(s, arrivals)) == MessagesAt(s, ks)
  {
    hide AllIn, Decoder.Run, Datagrams, NoSplice, Decoder.EmitEach, MessagesAt, Wanted;
    var acc := Accepted(s, arrivals);
    ks := Kept(s, acc, |s.msgs|);
    EndToEnd(inflate, s, arrivals);
    WholeAreKept(s, acc, |s.msgs|);
  }

  // ---- when nothing is lost ----

  /** Every packet of the stream has a copy that arrives before all later packets; duplicates may be anywhere. */
  predicate FirstCopiesInOrder(s: Stream, arrivals: seq<Arrival>)
    requires ArrivalsOk(s, arrivals)
  {
    forall n :: 0 <= n < Start(s, |s.msgs|) ==> Leads(s, arrivals, n)
  }

  function EverySent(msgs: seq<Sent>): seq<Fragments.Message> {
    if msgs == [] then [] else EverySent(Init(msgs)) + Assembled(Last(msgs))
  }

  lemma {:induction false} EverythingWhole(s: Stream, acc: set<int>, n: nat)
    requires n <= |s.msgs| && forall x :: 0 <= x < Start(s, n) ==> x in acc
    ensures WholeMessages(s, acc, n) == EverySent(s.msgs[..n])
  {
    hide Assembled;
    if n > 0 {
      EverythingWhole(s, acc, n - 1);
      assert AllIn(s, acc, n - 1);
      assert Init(s.msgs[..n]) == s.msgs[..n - 1];
    }
  }

  lemma AllAcceptedNoSplice(s: Stream, acc: set<int>)
    requires StreamOk(s) && forall x :: 0 <= x < Start(s, |s.msgs|) ==> x in acc
    ensures NoSplice(s, acc)
  {
    forall j | 0 <= j < |s.msgs|
      ensures Has(s, acc, j, 0)
    {
      assert SentOk(s.msgs[j]);
      StartMonotone(s, j, |s.msgs|);
    }
  }

  /** Retransmissions and duplicates alone change nothing: every message is emitted, once and in order. */
  lemma NothingLost(inflate: Decoder.Inflate, s: Stream, arrivals: seq<Arrival>)
    requires StreamOk(s) && ArrivalsOk(s, arrivals) && InWindow(s, arrivals)
    requires FirstCopiesInOrder(s, arrivals)
    ensures Decoder.Run(inflate, Datagrams(s, arrivals)).1 == Decoder.EmitEach(inflate, Wanted(s, arrivals))
    ensures Wanted(s, Numbered(s, arrivals)) == EverySent(s.msgs)
  {
    hide Decoder.Run, Datagrams, NoSplice, Leads, InWindow, WholeMessages, EverySent, Decoder.EmitEach, Wanted;
    var acc := Accepted(s, arrivals);
    forall n | 0 <= n < Start(s, |s.msgs|)
      ensures n in acc
    {
      AcceptedIff(s, arrivals, n);
    }
    AllAcceptedNoSplice(s, acc);
    EndToEnd(inflate, s, arrivals);
    EverythingWhole(s, acc, |s.msgs|);
    assert s.msgs[..|s.msgs|] == s.msgs;
  }

  // ---- many flows ----

  /** The same guarantee for one flow among many, through the stream that keeps a decoder for each. */
  lemma FlowEndToEnd(inflate: Decoder.Inflate, latch: Demux.Latch, ds: seq<Demux.Datagram>,
                     srcPort: uint16, dstPort: uint16, s: Stream, arrivals: seq<Arrival>)
    requires StreamOk(s) && ArrivalsOk(s, arrivals) && InWindow(s, arrivals)
    requires Demux.Flow(latch, ds, srcPort, dstPort) == Datagrams(s, arrivals)
    requires NoSplice(s, Accepted(s, arrivals))
    ensures Demux.For(Demux.HandleAll(inflate, latch, ds).1, Demux.TupleKey(srcPort, dstPort))
         == Decoder.EmitEach(inflate, Wanted(s, arrivals))
    ensures Wanted(s, Numbered(s, arrivals)) == WholeMessages(s, Accepted(s, arrivals), |s.msgs|)
  {
    hide Decoder.Run, Datagrams, Wanted, Numbered, WholeMessages, NoSplice;
    Demux.FlowsAreIndependent(inflate, latch, ds, srcPort, dstPort);
    EndToEnd(inflate, s, arrivals);
  }
}
