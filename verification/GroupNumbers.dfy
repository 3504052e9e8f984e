/** Which senders are safe from splices, whatever the network loses. */
module GroupNumbers {
  import opened Bytes
  import opened Options
  import WireFormat
  import opened Fragments
  import SerialNumbers
  import opened Decoder
  import History
  import opened Network
  import opened Delivery

  // ---- conditions on what is lost ----

  /** Some later fragment of message `j` was accepted although its first one was not. */
  predicate Headless(s: Stream, acc: set<int>, j: nat)
    requires j < |s.msgs|
  {
    s.msgs[j].Split? && !Has(s, acc, j, 0) && exists k :: 1 <= k < Size(s.msgs[j]) && Has(s, acc, j, k)
  }

  predicate Fragmented(m: Sent) {
    m.Split? && |m.chunks| >= 2
  }

  lemma SplicedMeans(s: Stream, acc: set<int>, j: nat, k: nat)
    requires StreamOk(s) && j < |s.msgs|
    ensures var o := if s.msgs[j].Split? then Opener(s, acc, s.msgs[j].group, j) else -1;
            Spliced(s, acc, j, k) ==>
              && Headless(s, acc, j) && Fragmented(s.msgs[j])
              && o >= 0 && !AllIn(s, acc, o) && Fragmented(s.msgs[o])
  {
    hide Pending, History.Covers, History.InRange;
    if Spliced(s, acc, j, k) {
      var o := Opener(s, acc, s.msgs[j].group, j);
      assert Has(s, acc, o, 0);
    }
  }

  /** A headless message does no harm when the message that last opened its group is whole. */
  lemma WholeOpenersNoSplice(s: Stream, acc: set<int>)
    requires StreamOk(s)
    requires forall j :: 0 <= j < |s.msgs| && Headless(s, acc, j) ==>
      var o := Opener(s, acc, s.msgs[j].group, j); o >= 0 ==> AllIn(s, acc, o)
    ensures NoSplice(s, acc)
  {
    hide AllIn, Spliced, Headless, Opener;
    forall j: nat, k: nat | j < |s.msgs| && k < Size(s.msgs[j])
      ensures !Spliced(s, acc, j, k)
    {
      SplicedMeans(s, acc, j, k);
    }
  }

  /** No two messages of two fragments or more share a group number. */
  predicate DistinctGroups(s: Stream) {
    forall i, j :: 0 <= i < j < |s.msgs| && Fragmented(s.msgs[i]) && Fragmented(s.msgs[j]) ==>
      s.msgs[i].group != s.msgs[j].group
  }

  lemma DistinctGroupsNoSplice(s: Stream, acc: set<int>)
    requires StreamOk(s) && DistinctGroups(s)
    ensures NoSplice(s, acc)
  {
    hide AllIn, Spliced, Headless, Opener;
    forall j: nat, k: nat | j < |s.msgs| && k < Size(s.msgs[j])
      ensures !Spliced(s, acc, j, k)
    {
      SplicedMeans(s, acc, j, k);
      if s.msgs[j].Split? { OpenerIs(s, acc, s.msgs[j].group, j); }
    }
  }

  lemma OpenerIs(s: Stream, acc: set<int>, key: uint16, n: nat)
    requires n <= |s.msgs|
    ensures var o := Opener(s, acc, key, n); o < n && (o >= 0 ==> SplitAs(s, o, key))
  {
  }

  // ---- which numbers a run can accept ----

  predicate Least(acc: set<int>, n: int) {
    forall m :: m in acc ==> n <= m
  }

  /** Some smaller member is within the reach of a 16-bit signed difference. */
  predicate CloseBelow(acc: set<int>, n: int) {
    exists m :: m in acc && m < n && n - m < 0x8000
  }

  /** Numbers of the stream, no two consecutive ones 32768 or more apart. */
  predicate Reachable(s: Stream, acc: set<int>) {
    forall n :: n in acc ==> 0 <= n < Start(s, |s.msgs|) && (Least(acc, n) || CloseBelow(acc, n))
  }

  predicate Accepts(s: Stream, arrivals: seq<Arrival>, acc: set<int>) {
    ArrivalsOk(s, arrivals) && InWindow(s, arrivals) && Accepted(s, arrivals) == acc
  }

  lemma NumberInStream(s: Stream, a: Arrival)
    requires InStream(a) && ArrivalOk(s, a)
    ensures Number(s, a) < Start(s, |s.msgs|)
  {
    StartMonotone(s, a.j, |s.msgs|);
  }

  lemma {:induction false} HighIsAccepted(s: Stream, arrivals: seq<Arrival>)
    requires ArrivalsOk(s, arrivals)
    ensures High(s, arrivals) >= 0 ==> High(s, arrivals) in Accepted(s, arrivals)
    ensures High(s, arrivals) < 0 ==> Accepted(s, arrivals) == {}
  {
    if arrivals != [] {
      HighIsAccepted(s, Init(arrivals));
    }
  }

  lemma ReachableStep(s: Stream, acc: set<int>, n: int)
    requires Reachable(s, acc) && 0 <= n < Start(s, |s.msgs|) && forall m :: m in acc ==> m < n
    requires acc == {} || CloseBelow(acc, n)
    ensures Reachable(s, acc + {n})
  {
    var more := acc + {n};
    if acc != {} {
      var m :| m in acc && m < n && n - m < 0x8000;
      assert m in more;
    }
    forall x | x in acc
      ensures Least(more, x) || CloseBelow(more, x)
    {
      if !Least(acc, x) {
        var m :| m in acc && m < x && x - m < 0x8000;
        assert m in more;
      }
    }
  }

  lemma {:induction false} AcceptedIsReachable(s: Stream, arrivals: seq<Arrival>)
    requires ArrivalsOk(s, arrivals) && InWindow(s, arrivals)
    ensures Reachable(s, Accepted(s, arrivals))
  {
    hide Reachable, CloseBelow;
    if arrivals == [] {
      NothingIsReachable(s);
    } else {
      var before, a := Init(arrivals), Last(arrivals);
      AcceptedIsReachable(s, before);
      if InStream(a) && Number(s, a) > High(s, before) {
        NumberInStream(s, a);
        HighIsAccepted(s, before);
        if High(s, before) >= 0 { IsCloseBelow(Accepted(s, before), High(s, before), Number(s, a)); }
        ReachableStep(s, Accepted(s, before), Number(s, a));
      }
    }
  }

  lemma NothingIsReachable(s: Stream)
    ensures Reachable(s, {})
  {
  }

  lemma IsCloseBelow(acc: set<int>, m: int, n: int)
    requires m in acc && m < n && n - m < 0x8000
    ensures CloseBelow(acc, n)
  {
  }

  const PLAIN_ENVELOPE := WireFormat.Envelope(0, None, None, [], false, [], 0, 0, [0, 0, 0, 0])

  /** The shortest packet with a number and nothing else. */
  function PutEmpty(arq: uint16): seq<byte> {
    [0x02, 0x00, 0x00, 0x00] + PutBe16(arq) + [0x00, 0x00, 0x00, 0x00]
  }

  lemma EmptyHoldsNothing(arq: uint16)
    ensures HoldsNothing(PutEmpty(arq), arq)
  {
    hide Be16, PutBe16, WireFormat.Flag, Value;
    var buf := PutEmpty(arq);
    EmptyHeader();
    assert buf[4..6] == PutBe16(arq);
    Be16OfPut(arq, buf, 4);
  }

  lemma EmptyHeader()
    ensures WireFormat.HeaderOf(0x02, 0x00) == WireFormat.Header(true, false, false, false, false, false, 0)
  {
    assert (((0 as byte >> 4) & 1) | (((0 as byte >> 5) & 1) << 1) | (((0 as byte >> 6) & 1) << 2)
            | (((0 as byte >> 7) & 1) << 3)) == 0;
  }

  /** Which packet of which message has number `n`. */
  function Owner(s: Stream, n: nat, upto: nat): (r: (nat, nat))
    requires upto <= |s.msgs| && n < Start(s, upto)
    ensures r.0 < upto && r.1 < Size(s.msgs[r.0]) && Start(s, r.0) + r.1 == n
  {
    if n >= Start(s, upto - 1) then (upto - 1, n - Start(s, upto - 1)) else Owner(s, n, upto - 1)
  }

  function CopyOf(s: Stream, n: nat): (a: Arrival)
    requires n < Start(s, |s.msgs|)
    ensures InStream(a) && ArrivalOk(s, a) && Number(s, a) == n
  {
    var (j, k) := Owner(s, n, |s.msgs|);
    if s.msgs[j].Bare? then
      EmptyHoldsNothing(SerialNumbers.Wire(s.base + n));
      Empty(j, k, PutEmpty(SerialNumbers.Wire(s.base + n)))
    else Data(j, k, PLAIN_ENVELOPE)
  }

  /** One copy of each member below `n`, in order. */
  function Schedule(s: Stream, acc: set<int>, n: nat): (r: seq<Arrival>)
    requires n <= Start(s, |s.msgs|)
    ensures ArrivalsOk(s, r)
  {
    if n == 0 then []
    else Schedule(s, acc, n - 1) + if n - 1 in acc then [CopyOf(s, n - 1)] else []
  }

  /** What was accepted so far is what `acc` holds below `n`. */
  ghost predicate Follows(s: Stream, arrivals: seq<Arrival>, acc: set<int>, n: nat) {
    && ArrivalsOk(s, arrivals) && InWindow(s, arrivals)
    && forall x :: x in Accepted(s, arrivals) <==> x in acc && x < n
  }

  lemma FollowsStep(s: Stream, before: seq<Arrival>, acc: set<int>, n: nat, a: Arrival)
    requires Reachable(s, acc) && n in acc && Follows(s, before, acc, n)
    requires InStream(a) && ArrivalOk(s, a) && Number(s, a) == n
    ensures Follows(s, before + [a], acc, n + 1)
  {
    hide Start, Least, CloseBelow;
    assert Init(before + [a]) == before;
    HighIsAccepted(s, before);
    if High(s, before) >= 0 {
      var m := BelowIn(s, acc, n, High(s, before));
      assert m in Accepted(s, before);
    }
  }

  lemma {:induction false} ScheduleAccepts(s: Stream, acc: set<int>, n: nat)
    requires n <= Start(s, |s.msgs|) && Reachable(s, acc)
    ensures Follows(s, Schedule(s, acc, n), acc, n)
  {
    hide CopyOf, Start, Follows, Reachable;
    if n == 0 {
      NothingFollows(s, acc);
    } else {
      var before := Schedule(s, acc, n - 1);
      ScheduleAccepts(s, acc, n - 1);
      if n - 1 in acc {
        FollowsStep(s, before, acc, n - 1, CopyOf(s, n - 1));
      } else {
        assert Schedule(s, acc, n) == before;
        FollowsOn(s, before, acc, n - 1);
      }
    }
  }

  lemma NothingFollows(s: Stream, acc: set<int>)
    requires Reachable(s, acc)
    ensures Follows(s, [], acc, 0)
  {
  }

  lemma FollowsOn(s: Stream, before: seq<Arrival>, acc: set<int>, n: nat)
    requires Follows(s, before, acc, n) && n !in acc
    ensures Follows(s, before, acc, n + 1)
  {
  }

  /** A set of numbers is what some run within the window accepts if and only if it has no gap of 32768 or more. */
  lemma AcceptedIffReachable(s: Stream, acc: set<int>)
    ensures (exists arrivals :: Accepts(s, arrivals, acc)) <==> Reachable(s, acc)
  {
    hide Reachable;
    if arrivals :| Accepts(s, arrivals, acc) {
      AcceptedIsReachable(s, arrivals);
    }
    if Reachable(s, acc) {
      ScheduleIsExact(s, acc);
      assert Accepts(s, Schedule(s, acc, Start(s, |s.msgs|)), acc);
    }
  }

  lemma ScheduleIsExact(s: Stream, acc: set<int>)
    requires Reachable(s, acc)
    ensures Accepts(s, Schedule(s, acc, Start(s, |s.msgs|)), acc)
  {
    hide Start, Reachable;
    var total := Start(s, |s.msgs|);
    ScheduleAccepts(s, acc, total);
    MembersInStream(s, acc);
    var got := Accepted(s, Schedule(s, acc, total));
    forall x: int
      ensures x in got <==> x in acc
    {
      assert x in got <==> x in acc && x < total;
    }
  }

  lemma MembersInStream(s: Stream, acc: set<int>)
    requires Reachable(s, acc)
    ensures forall n :: n in acc ==> 0 <= n < Start(s, |s.msgs|)
  {
  }

  // ---- when a group number can be used again ----

  /** `j` is the next message of two fragments or more under the number of message `i`. */
  predicate NextOfGroup(s: Stream, i: nat, j: nat) {
    && i < j < |s.msgs| && Fragmented(s.msgs[i]) && Fragmented(s.msgs[j]) && SplitAs(s, j, s.msgs[i].group)
    && forall m :: i < m < j && Fragmented(s.msgs[m]) ==> s.msgs[m].group != s.msgs[i].group
  }

  /** Number `x` is fragment 1 of message `i`, or opens its group again before message `j` is under way. */
  predicate Skip(s: Stream, i: nat, j: nat, x: int)
    requires i < j < |s.msgs| && s.msgs[i].Split?
  {
    x == Start(s, i) + 1 || exists m :: i < m <= j && SplitAs(s, m, s.msgs[i].group) && Start(s, m) == x
  }

  function Block(a: int, n: nat): (r: set<int>)
    ensures forall x :: x in r <==> a <= x < a + n
  {
    if n == 0 then {} else Block(a, n - 1) + {a + n - 1}
  }

  /** Everything up to fragment 1 of message `j`, less what would keep it from being taken for fragment 1 of `i`. */
  function AllButHeads(s: Stream, i: nat, j: nat): set<int>
    requires i < j < |s.msgs| && s.msgs[i].Split?
  {
    set x | x in Block(0, Start(s, j) + 2) && !Skip(s, i, j, x)
  }

  lemma HeadsAre(s: Stream, i: nat, j: nat, x: int)
    requires i < j < |s.msgs| && s.msgs[i].Split?
    ensures x in AllButHeads(s, i, j) <==> 0 <= x < Start(s, j) + 2 && !Skip(s, i, j, x)
  {
    hide Start, Skip;
  }

  /** The network can lose just that. */
  predicate Spliceable(s: Stream, i: nat, j: nat) {
    NextOfGroup(s, i, j) && Reachable(s, AllButHeads(s, i, j))
  }

  ghost predicate Safe(s: Stream)
    requires StreamOk(s)
  {
    forall arrivals :: ArrivalsOk(s, arrivals) && InWindow(s, arrivals) ==> NoSplice(s, Accepted(s, arrivals))
  }

  /** Fragment `k` of message `m` is skipped only as a first fragment of the group, or as fragment 1 of message `i`. */
  lemma SkipOf(s: Stream, i: nat, j: nat, m: nat, k: nat)
    requires StreamOk(s) && i < j < |s.msgs| && s.msgs[i].Split? && Fragmented(s.msgs[i])
    requires m < |s.msgs| && k < Size(s.msgs[m])
    ensures Skip(s, i, j, Start(s, m) + k)
       <==> (m == i && k == 1) || (k == 0 && i < m <= j && SplitAs(s, m, s.msgs[i].group))
  {
    hide Start;
    var x := Start(s, m) + k;
    if m != i { OneOwner(s, m, k, i, 1); }
    forall m' | i < m' <= j && m' != m
      ensures Start(s, m') != x
    {
      assert SentOk(s.msgs[m']);
      OneOwner(s, m, k, m', 0);
    }
    assert Start(s, m) == x <==> k == 0;
  }

  lemma HeadsHas(s: Stream, i: nat, j: nat, m: nat, k: nat)
    requires StreamOk(s) && i < j < |s.msgs| && Fragmented(s.msgs[i]) && Fragmented(s.msgs[j])
    requires m < |s.msgs| && k < Size(s.msgs[m])
    ensures Has(s, AllButHeads(s, i, j), m, k)
       <==> (m < j || (m == j && k <= 1))
            && !((m == i && k == 1) || (k == 0 && i < m <= j && SplitAs(s, m, s.msgs[i].group)))
  {
    hide Start, Skip, AllButHeads;
    HeadsAre(s, i, j, Start(s, m) + k);
    SkipOf(s, i, j, m, k);
    if m != j { OneOwner(s, m, k, j, 1); }
  }

  /** Between the two messages nothing of the group is accepted, so the first one stays its last opener. */
  lemma {:induction false} HeadsSince(s: Stream, i: nat, j: nat, n: nat)
    requires StreamOk(s) && NextOfGroup(s, i, j) && i < n <= j
    ensures var acc, key := AllButHeads(s, i, j), s.msgs[i].group;
            Opener(s, acc, key, n) == i && Since(s, acc, key, n) == EventsIn(s, acc, i, |s.msgs[i].chunks|)
  {
    hide EventsIn, AllButHeads;
    assert SentOk(s.msgs[n - 1]);
    HeadsHas(s, i, j, n - 1, 0);
    if n - 1 > i {
      HeadsSince(s, i, j, n - 1);
      if SplitAs(s, n - 1, s.msgs[i].group) {
        NoEvents(s, AllButHeads(s, i, j), n - 1);
        var own := EventsIn(s, AllButHeads(s, i, j), i, |s.msgs[i].chunks|);
        assert own + [] == own;
      }
    }
  }

  lemma HeadsSplice(s: Stream, i: nat, j: nat)
    requires StreamOk(s) && NextOfGroup(s, i, j)
    ensures Spliced(s, AllButHeads(s, i, j), j, 1)
  {
    hide AllButHeads, EventsIn, Since, History.Occurs;
    var acc, e := AllButHeads(s, i, j), EventOf(s.msgs[j], 1);
    HeadsHas(s, i, j, j, 0);
    HeadsHas(s, i, j, j, 1);
    HeadsHas(s, i, j, i, 0);
    HeadsHas(s, i, j, i, 1);
    HeadsSince(s, i, j, j);
    EventsMore(s, acc, j, 1);
    EventsMore(s, acc, j, 2);
    var own := EventsIn(s, acc, i, |s.msgs[i].chunks|);
    EventsHead(s, acc, i, |s.msgs[i].chunks|);
    assert Pending(s, acc, j, 2) == own + [e];
    forall x: nat | x < |s.msgs[i].chunks|
      ensures History.Occurs(own + [e], x)
    {
      History.OccursSnoc(own, e, x);
      EventsOccur(s, acc, i, |s.msgs[i].chunks|, x);
      HeadsHas(s, i, j, i, x);
    }
  }

  // ---- if any run splices, the one that loses least does ----

  lemma {:induction false} NothingOpensAfter(s: Stream, acc: set<int>, key: uint16, n: nat, m: nat)
    requires n <= |s.msgs| && Opener(s, acc, key, n) < m < n && SplitAs(s, m, key)
    ensures !Has(s, acc, m, 0)
  {
    if m < n - 1 { NothingOpensAfter(s, acc, key, n - 1, m); }
  }

  lemma NextExists(s: Stream, i: nat, j: nat) returns (m: nat)
    requires i < j < |s.msgs| && Fragmented(s.msgs[i]) && Fragmented(s.msgs[j]) && SplitAs(s, j, s.msgs[i].group)
    ensures NextOfGroup(s, i, m) && m <= j
  {
    m := i + 1;
    while !(Fragmented(s.msgs[m]) && SplitAs(s, m, s.msgs[i].group))
      invariant i < m <= j
      invariant forall m' :: i < m' < m && Fragmented(s.msgs[m']) ==> s.msgs[m'].group != s.msgs[i].group
      decreases j - m
    {
      m := m + 1;
    }
  }

  lemma Previous(b: set<int>, n: int) returns (p: int)
    requires 0 in b && n > 0
    ensures p in b && 0 <= p < n && forall x :: p < x < n ==> x !in b
  {
    p := n - 1;
    while p !in b
      invariant 0 <= p < n && forall x :: p < x < n ==> x !in b
      decreases p
    {
      p := p - 1;
    }
  }

  lemma Following(b: set<int>, n: int, last: int) returns (q: int)
    requires last in b && n <= last
    ensures q in b && n <= q <= last && forall x :: n <= x < q ==> x !in b
  {
    q := n;
    while q !in b
      invariant n <= q <= last && forall x :: n <= x < q ==> x !in b
      decreases last - q
    {
      q := q + 1;
    }
  }

  lemma SkipIsAbove(s: Stream, i: nat, j: nat, x: int)
    requires StreamOk(s) && i < j < |s.msgs| && Fragmented(s.msgs[i]) && Skip(s, i, j, x)
    ensures x == Start(s, i) + 1 || x >= Start(s, i) + Size(s.msgs[i])
  {
    if x != Start(s, i) + 1 {
      var m :| i < m <= j && SplitAs(s, m, s.msgs[i].group) && Start(s, m) == x;
      StartMonotone(s, i, m);
    }
  }

  /** Nothing the group needs skipped between the two messages is in `acc`, except perhaps a lone fragment 1. */
  predicate Leaves(s: Stream, acc: set<int>, i: nat, j: nat)
    requires i < j < |s.msgs| && s.msgs[i].Split?
  {
    forall x :: Skip(s, i, j, x) && x in acc ==> x == Start(s, i) + 1 && Size(s.msgs[i]) > 2
  }

  /** What lies between two members of the set is skipped, so it lies behind the start of message `i`. */
  lemma BetweenIsSkipped(s: Stream, i: nat, j: nat, p: int, n: int, x: int)
    requires StreamOk(s) && NextOfGroup(s, i, j)
    requires 0 <= p < x < n && n in AllButHeads(s, i, j) && x !in AllButHeads(s, i, j)
    ensures Skip(s, i, j, x) && x > Start(s, i)
  {
    hide Start, Skip, AllButHeads;
    HeadsAre(s, i, j, n);
    HeadsAre(s, i, j, x);
    SkipIsAbove(s, i, j, x);
  }

  lemma GapIsCovered(s: Stream, acc: set<int>, i: nat, j: nat, last: int, n: int)
    requires StreamOk(s) && NextOfGroup(s, i, j) && Reachable(s, acc) && Leaves(s, acc, i, j)
    requires Start(s, i) in acc && last in acc && last > Start(s, j)
    requires n in AllButHeads(s, i, j) && n > 0
    ensures CloseBelow(AllButHeads(s, i, j), n)
  {
    hide Start, Skip, Reachable, CloseBelow, AllButHeads;
    var b, start := AllButHeads(s, i, j), Start(s, i);
    HeadsHoldZero(s, i, j);
    HeadsAre(s, i, j, n);
    var p := Previous(b, n);
    forall x | p < x < n
      ensures Skip(s, i, j, x) && x > start
    {
      BetweenIsSkipped(s, i, j, p, n, x);
    }
    if p < n - 1 {
      assert Skip(s, i, j, p + 1);
      if Size(s.msgs[i]) > 2 && p < start + 1 < n {
        HeadsHoldThird(s, i, j);
        assert n <= start + 2;
      } else {
        var q := Following(acc, n, last);
        var m := BelowIn(s, acc, q, start);
        assert m <= p;
      }
    }
    IsCloseBelow(b, p, n);
  }

  lemma BelowIn(s: Stream, acc: set<int>, q: int, lower: int) returns (m: int)
    requires Reachable(s, acc) && q in acc && lower in acc && lower < q
    ensures m in acc && m < q && q - m < 0x8000
  {
    m :| m in acc && m < q && q - m < 0x8000;
  }

  lemma HeadsHoldZero(s: Stream, i: nat, j: nat)
    requires StreamOk(s) && NextOfGroup(s, i, j)
    ensures 0 in AllButHeads(s, i, j)
  {
    hide Start, Skip, AllButHeads;
    HeadsAre(s, i, j, 0);
    if Skip(s, i, j, 0) { SkipIsAbove(s, i, j, 0); }
  }

  lemma HeadsHoldThird(s: Stream, i: nat, j: nat)
    requires StreamOk(s) && NextOfGroup(s, i, j) && Size(s.msgs[i]) > 2
    ensures Start(s, i) + 2 in AllButHeads(s, i, j)
  {
    HeadsHas(s, i, j, i, 2);
  }

  lemma LeastLossIsReachable(s: Stream, acc: set<int>, i: nat, j: nat, last: int)
    requires StreamOk(s) && NextOfGroup(s, i, j) && Reachable(s, acc) && Leaves(s, acc, i, j)
    requires Start(s, i) in acc && last in acc && last > Start(s, j)
    ensures Reachable(s, AllButHeads(s, i, j))
  {
    hide Start, Skip, CloseBelow;
    var b := AllButHeads(s, i, j);
    StartMonotone(s, j, |s.msgs|);
    forall n | n in b
      ensures 0 <= n < Start(s, |s.msgs|) && (Least(b, n) || CloseBelow(b, n))
    {
      if n > 0 { GapIsCovered(s, acc, i, j, last, n); }
    }
  }

  lemma SplicedLeaves(s: Stream, acc: set<int>, j: nat, k: nat, m: nat)
    requires StreamOk(s) && j < |s.msgs| && Spliced(s, acc, j, k)
    requires var i := Opener(s, acc, s.msgs[j].group, j); i < m <= j && NextOfGroup(s, i, m)
    ensures Leaves(s, acc, Opener(s, acc, s.msgs[j].group, j), m)
  {
    hide Start, Pending, History.Covers, History.InRange, Opener;
    var key := s.msgs[j].group;
    var i := Opener(s, acc, key, j);
    forall x | Skip(s, i, m, x) && x in acc
      ensures x == Start(s, i) + 1 && Size(s.msgs[i]) > 2
    {
      if x == Start(s, i) + 1 {
        assert Has(s, acc, i, 1);
      } else {
        var m' :| i < m' <= m && SplitAs(s, m', s.msgs[i].group) && Start(s, m') == x;
        assert Has(s, acc, m', 0);
        if m' < j { NothingOpensAfter(s, acc, key, j, m'); }
      }
    }
  }

  lemma SplicedMeansSpliceable(s: Stream, acc: set<int>, j: nat, k: nat)
    requires StreamOk(s) && j < |s.msgs| && Spliced(s, acc, j, k) && Reachable(s, acc)
    ensures exists i, m :: Spliceable(s, i, m)
  {
    hide Start, Pending, History.Covers, History.InRange, Opener, Reachable, Skip, Leaves, AllIn;
    SplicedMeans(s, acc, j, k);
    var i := Opener(s, acc, s.msgs[j].group, j);
    var m := NextExists(s, i, j);
    SplicedLeaves(s, acc, j, k, m);
    if m < j { StartMonotone(s, m, j); }
    assert Has(s, acc, i, 0);
    LeastLossIsReachable(s, acc, i, m, Start(s, j) + k);
    assert Spliceable(s, i, m);
  }

  /**
   * The exact condition on a sender: no run within the window can splice two of its messages if and only if, for any
   * message and the next one of its group, the numbers that would have to be lost leave a gap of 32768 or more.
   */
  lemma SafeIff(s: Stream)
    requires StreamOk(s)
    ensures Safe(s) <==> forall i, j :: !Spliceable(s, i, j)
  {
    hide Reachable, NextOfGroup, Spliced;
    if i, j :| Spliceable(s, i, j) {
      NextInStream(s, i, j);
      var acc := AllButHeads(s, i, j);
      HeadsSplice(s, i, j);
      AcceptedIffReachable(s, acc);
      var arrivals :| Accepts(s, arrivals, acc);
      assert !NoSplice(s, Accepted(s, arrivals));
    } else {
      forall arrivals | ArrivalsOk(s, arrivals) && InWindow(s, arrivals)
        ensures NoSplice(s, Accepted(s, arrivals))
      {
        AcceptedIsReachable(s, arrivals);
        UnsplicedWhenNoneCan(s, Accepted(s, arrivals));
      }
    }
  }

  lemma NextInStream(s: Stream, i: nat, j: nat)
    requires NextOfGroup(s, i, j)
    ensures i < j < |s.msgs| && s.msgs[i].Split? && Size(s.msgs[j]) >= 2
  {
  }

  lemma UnsplicedWhenNoneCan(s: Stream, acc: set<int>)
    requires StreamOk(s) && Reachable(s, acc) && forall i, j :: !Spliceable(s, i, j)
    ensures NoSplice(s, acc)
  {
    hide Reachable, Spliced, Spliceable;
    if !NoSplice(s, acc) {
      var j, k :| 0 <= j < |s.msgs| && 0 <= k < Size(s.msgs[j]) && Spliced(s, acc, j, k);
      SplicedMeansSpliceable(s, acc, j, k);
    }
  }

  /** For a sender that splits only into two fragments or more: if and only if it never uses a group number twice. */
  lemma SafeIffDistinctGroups(s: Stream)
    requires StreamOk(s) && forall j :: 0 <= j < |s.msgs| && s.msgs[j].Split? ==> Fragmented(s.msgs[j])
    ensures Safe(s) <==> DistinctGroups(s)
  {
    hide Reachable, Spliceable, NoSplice, InWindow, Accepted;
    if DistinctGroups(s) {
      forall arrivals | ArrivalsOk(s, arrivals) && InWindow(s, arrivals)
        ensures NoSplice(s, Accepted(s, arrivals))
      {
        DistinctGroupsNoSplice(s, Accepted(s, arrivals));
      }
    } else {
      var i, j :| 0 <= i < j < |s.msgs| && Fragmented(s.msgs[i]) && Fragmented(s.msgs[j])
                  && s.msgs[i].group == s.msgs[j].group;
      var m := NextExists(s, i, j);
      ShortGaps(s, i, m);
      SafeIff(s);
    }
  }

  lemma ShortGaps(s: Stream, i: nat, j: nat)
    requires StreamOk(s) && NextOfGroup(s, i, j)
    requires forall m :: 0 <= m < |s.msgs| && s.msgs[m].Split? ==> Fragmented(s.msgs[m])
    ensures Spliceable(s, i, j)
  {
    hide Start, CloseBelow;
    var b := AllButHeads(s, i, j);
    StartMonotone(s, j, |s.msgs|);
    forall x | Skip(s, i, j, x)
      ensures x == Start(s, i) + 1 || x == Start(s, j)
      ensures x > 0
    {
      SkipIsAbove(s, i, j, x);
    }
    forall n | n in b
      ensures 0 <= n < Start(s, |s.msgs|) && (Least(b, n) || CloseBelow(b, n))
    {
      if n > 0 {
        var p := if n - 1 in b then n - 1 else if n - 2 in b then n - 2 else n - 3;
        assert p in b;
        IsCloseBelow(b, p, n);
      }
    }
  }

  /** With distinct group numbers there is no condition on the network's losses. */
  lemma FreshGroupsEndToEnd(inflate: Inflate, s: Stream, arrivals: seq<Arrival>)
    requires StreamOk(s) && ArrivalsOk(s, arrivals) && InWindow(s, arrivals)
    requires DistinctGroups(s)
    ensures Run(inflate, Datagrams(s, arrivals)).1 == EmitEach(inflate, Wanted(s, arrivals))
    ensures Wanted(s, Numbered(s, arrivals)) == WholeMessages(s, Accepted(s, arrivals), |s.msgs|)
  {
    hide Run, Datagrams, Wanted, Numbered, WholeMessages, NoSplice, DistinctGroups;
    DistinctGroupsNoSplice(s, Accepted(s, arrivals));
    EndToEnd(inflate, s, arrivals);
  }

  /** Two messages of two fragments that share a group number. */
  function TwoOfOneGroup(op: uint16, op': uint16, g: uint16,
                         a: seq<byte>, b: seq<byte>, c: seq<byte>, d: seq<byte>): Stream
  {
    Stream(0, [Split(op, g, [a, b]), Split(op', g, [c, d])])
  }

  /**
   * The smallest splice: when the second fragment of one message and the first of the next
   * under the same group number are lost, the decoder emits a message nobody sent.
   */
  lemma StaleGroupMixes(inflate: Inflate, op: uint16, op': uint16, g: uint16,
                        a: seq<byte>, b: seq<byte>, c: seq<byte>, d: seq<byte>,
                        env: WireFormat.Envelope, env': WireFormat.Envelope)
    requires b != [] && d != [] && WireFormat.EnvelopeOk(env, true) && WireFormat.EnvelopeOk(env', true)
    ensures var s := TwoOfOneGroup(op, op', g, a, b, c, d);
            var arrivals := [Data(0, 0, env), Data(1, 1, env')];
            && StreamOk(s) && ArrivalsOk(s, arrivals) && InWindow(s, arrivals)
            && !NoSplice(s, Accepted(s, arrivals))
            && Run(inflate, Datagrams(s, arrivals)).1 == Emit(inflate, Message(op, a + d))
            && Wanted(s, arrivals) == []
  {
    hide WireFormat.Parse, WireFormat.Print, Emit, EmitEach, Run, AssembleAll, Datagrams;
    hide Spliced, NoSplice, AllIn, Accepted, Wanted, InWindow;
    var s := TwoOfOneGroup(op, op', g, a, b, c, d);
    var first, second := Data(0, 0, env), Data(1, 1, env');
    assert SentOk(s.msgs[0]) && SentOk(s.msgs[1]);
    assert Start(s, 1) == 2;
    TwoAccepted(s, first, second);
    HeadsSplice(s, 0, 1);
    SpliceFound(s, AllButHeads(s, 0, 1), 1, 1);
    TwoSteps(s, first, second, a, d);
    RunIsAssembleAll(inflate, Datagrams(s, [first, second]));
    EmitOne(inflate, Message(op, a + d));
  }

  lemma TwoAccepted(s: Stream, first: Arrival, second: Arrival)
    requires StreamOk(s) && ArrivalOk(s, first) && ArrivalOk(s, second)
    requires |s.msgs| == 2 && Fragmented(s.msgs[0]) && Fragmented(s.msgs[1]) && Start(s, 1) == 2
    requires s.msgs[0].group == s.msgs[1].group
    requires first.Data? && first.j == first.k == 0 && second.Data? && second.j == second.k == 1
    ensures var arrivals := [first, second];
            && InWindow(s, arrivals) && Accepted(s, arrivals) == AllButHeads(s, 0, 1) && Wanted(s, arrivals) == []
  {
    hide AllButHeads, Brings, Start, AllIn;
    var arrivals := [first, second];
    assert Init(arrivals) == [first] && Init([first]) == [];
    FirstStarts(s);
    OneArrived(s, first);
    assert Accepted(s, arrivals) == {0, 3};
    forall x: int
      ensures x in AllButHeads(s, 0, 1) <==> x in {0, 3}
    {
      HeadsOfTwo(s, x);
    }
    assert Accepted(s, arrivals) == AllButHeads(s, 0, 1);
    HeadsHas(s, 0, 1, 1, 0);
    MissingHead(s, AllButHeads(s, 0, 1), 1);
    BringsOnlyWhole(s, arrivals);
  }

  lemma HeadsOfTwo(s: Stream, x: int)
    requires StreamOk(s) && |s.msgs| == 2 && Fragmented(s.msgs[0]) && Fragmented(s.msgs[1]) && Start(s, 1) == 2
    requires s.msgs[0].group == s.msgs[1].group
    ensures x in AllButHeads(s, 0, 1) <==> x in {0, 3}
  {
    hide Start, Skip, AllButHeads;
    HeadsAre(s, 0, 1, x);
    FirstStarts(s);
    if 0 <= x < 2 { SkipOf(s, 0, 1, 0, x); }
    if 2 <= x < 4 { SkipOf(s, 0, 1, 1, x - 2); }
  }

  lemma FirstStarts(s: Stream)
    requires s.msgs != []
    ensures Start(s, 0) == 0 && Start(s, 1) == Size(s.msgs[0])
  {
  }

  lemma BringsOnlyWhole(s: Stream, arrivals: seq<Arrival>)
    requires ArrivalsOk(s, arrivals) && arrivals != [] && Last(arrivals).Data?
    requires !AllIn(s, Accepted(s, arrivals), Last(arrivals).j)
    ensures Brings(s, arrivals) == []
  {
  }

  lemma OneArrived(s: Stream, first: Arrival)
    requires StreamOk(s) && ArrivalOk(s, first) && first.Data? && first.j == first.k == 0
    requires |s.msgs| == 2 && Fragmented(s.msgs[0])
    ensures InWindow(s, [first]) && High(s, [first]) == 0 && Accepted(s, [first]) == {0} && Wanted(s, [first]) == []
  {
    assert Init([first]) == [];
    assert !Has(s, {0}, 0, 1);
    assert !AllIn(s, {0}, 0);
    assert Wanted(s, []) == [];
  }

  lemma TwoSteps(s: Stream, first: Arrival, second: Arrival, a: seq<byte>, d: seq<byte>)
    requires StreamOk(s) && ArrivalOk(s, first) && ArrivalOk(s, second)
    requires s.base == 0 && |s.msgs| == 2 && s.msgs[0].Split? && s.msgs[1].Split?
    requires s.msgs[1].group == s.msgs[0].group && |s.msgs[0].chunks| == |s.msgs[1].chunks| == 2
    requires first.Data? && first.j == first.k == 0 && second.Data? && second.j == second.k == 1
    requires a == s.msgs[0].chunks[0] && d == s.msgs[1].chunks[1]
    ensures AssembleAll(Datagrams(s, [first, second])).1 == [Message(s.msgs[0].opcode, a + d)]
  {
    hide WireFormat.Parse, WireFormat.Print, Complete, Indices, Joined;
    var g, op := s.msgs[0].group, s.msgs[0].opcode;
    var bufs := [Datagram(s, first), Datagram(s, second)];
    assert Init([first, second]) == [first] && Init([first]) == [];
    assert Datagrams(s, [first, second]) == bufs;
    assert bufs[..1] == [bufs[0]] && bufs[..1][..0] == [];
    assert Start(s, 1) == 2;
    WireFormat.ParseOfPrint(first.env, Some(SerialNumbers.Wire(0)), PacketOf(s.msgs[0], 0));
    WireFormat.ParseOfPrint(second.env, Some(SerialNumbers.Wire(3)), PacketOf(s.msgs[1], 1));
    var open := Group(op, 2, [Part(0, a)]);
    OneOfTwo(op, a, d);
    assert Assemble(INITIAL, bufs[0]) == (DecoderState(0, map[g := open]), []);
    AssembleOne(bufs[0]);
    assert [Part(0, a)] + [Part(1, d)] == [Part(0, a), Part(1, d)];
    assert Assemble(DecoderState(0, map[g := open]), bufs[1]).1 == [Message(op, a + d)];
  }

  lemma AssembleOne(buf: seq<byte>)
    ensures AssembleAll([buf]) == Assemble(INITIAL, buf)
  {
    hide Assemble;
    assert [buf][..0] == [];
    assert AssembleAll([]) == (INITIAL, []);
    var (st, out) := Assemble(INITIAL, buf);
    assert [] + out == out;
  }

  lemma OneOfTwo(op: uint16, a: seq<byte>, d: seq<byte>)
    ensures !Complete(Group(op, 2, [Part(0, a)]))
    ensures Complete(Group(op, 2, [Part(0, a), Part(1, d)]))
    ensures 1 !in Indices([Part(0, a)])
    ensures Joined([Part(0, a), Part(1, d)]) == a + d
  {
    var one, two := [Part(0, a)], [Part(0, a), Part(1, d)];
    assert two == one + [Part(1, d)] && one == [] + [Part(0, a)];
    IndicesOfSnoc([], Part(0, a));
    IndicesOfSnoc(one, Part(1, d));
    assert two[..1] == one && one[..0] == [];
    assert Joined(one) == [] + a == a;
  }
}
