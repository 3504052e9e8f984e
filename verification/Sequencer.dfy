/** The ARQ sequencer of EQPacketStream: a reorder buffer keyed by 16-bit sequence numbers. */
module Sequencer {
  import opened Bytes
  import opened Options
  import opened SerialNumbers

  const WRAP_CUTOFF := 1024

  /** A sequenced packet; `crcOk` says that it carries no checksum or a matching one under the stream's key. */
  datatype Packet = Packet(arqSeq: uint16, oversized: bool, payload: seq<byte>, crcOk: bool)

  type Cache = map<uint16, Packet>

  function Next(x: uint16): uint16 { (x + 1) % SPACE }

  /** The window test: C++ promotes every operand to int, or to an unsigned that cannot wrap here. */
  predicate Future(seqNo: uint16, exp: uint16) {
    (seqNo > exp && seqNo < exp as int + WRAP_CUTOFF) || seqNo < exp as int - WRAP_CUTOFF
  }

  // ---- the sequencer as functions of the cache and the expected number ----

  predicate CacheOk(cache: Cache) {
    forall k :: k in cache ==> cache[k].arqSeq == k
  }

  /** A second copy replaces the first only when its checksum is good. */
  function Put(cache: Cache, p: Packet): Cache {
    if p.arqSeq in cache && !p.crcOk then cache else cache[p.arqSeq := p]
  }

  datatype Window = Window(exp: uint16, cache: Cache)

  /** processPacket on a sequenced packet: pass it on, keep it for later, or drop it. */
  function Receive(w: Window, p: Packet): (Window, seq<Packet>) {
    if p.arqSeq == w.exp then (Window(Next(w.exp), w.cache), [p])
    else if Future(p.arqSeq, w.exp) then (Window(w.exp, Put(w.cache, p)), [])
    else (w, [])
  }

  predicate CachedAt(cache: Cache, exp: uint16, n: nat) {
    Wire(exp + n) in cache
  }

  /** The first cached number at or after `exp`, going round. */
  function Scan(cache: Cache, exp: uint16, n: nat): uint16
    requires n <= SPACE
    decreases SPACE - n
  {
    if n == SPACE || CachedAt(cache, exp, n) then Wire(exp + n) else Scan(cache, exp, n + 1)
  }

  function GiveUp(w: Window, giveUp: nat): Window {
    if |w.cache| >= giveUp then Window(Scan(w.cache, w.exp, 0), w.cache) else w
  }

  /** The run of cached packets from the expected one on; a bad checksum ends it and loses the packet. */
  function Drain(w: Window): (Window, seq<Packet>)
    decreases |w.cache|
  {
    if w.exp !in w.cache then (w, [])
    else
      var p, rest := w.cache[w.exp], w.cache - {w.exp};
      Shrinks(w.cache, w.exp);
      if !p.crcOk then (Window(w.exp, rest), [])
      else
        var (w', out) := Drain(Window(Next(w.exp), rest));
        (w', [p] + out)
  }

  lemma Shrinks<K, V>(m: map<K, V>, k: K)
    requires k in m
    ensures |m - {k}| == |m| - 1
  {
    assert (m - {k}).Keys == m.Keys - {k};
    assert |m.Keys| == |m| && |(m - {k}).Keys| == |m - {k}|;
  }

  /** One processPacket followed by one processCache. */
  function Process(w: Window, giveUp: nat, p: Packet): (Window, seq<Packet>) {
    var (w1, out) := Receive(w, p);
    var (w2, more) := Drain(GiveUp(w1, giveUp));
    (w2, out + more)
  }

  function ProcessAll(exp: uint16, giveUp: nat, ps: seq<Packet>): (Window, seq<Packet>) {
    if ps == [] then (Window(exp, map[]), [])
    else
      var (w, out) := ProcessAll(exp, giveUp, ps[..|ps| - 1]);
      var (w', more) := Process(w, giveUp, ps[|ps| - 1]);
      (w', out + more)
  }

  // ---- properties for any cache whatever ----

  /** However the cache was filled, processing it leaves nothing under the expected number. */
  lemma {:induction false} DrainExhausts(w: Window)
    ensures Drain(w).0.exp !in Drain(w).0.cache
    ensures Drain(w).0.cache.Keys <= w.cache.Keys
    decreases |w.cache|
  {
    if w.exp in w.cache {
      Shrinks(w.cache, w.exp);
      if w.cache[w.exp].crcOk {
        DrainExhausts(Window(Next(w.exp), w.cache - {w.exp}));
      }
    }
  }

  /** Counting up from the expected number meets a cached one exactly when there is one to meet. */
  lemma ScanMeets(cache: Cache, exp: uint16)
    ensures cache != map[] <==> exists n :: 0 <= n < SPACE && CachedAt(cache, exp, n)
  {
    if cache != map[] {
      var k :| k in cache;
      var n := (k - exp) % SPACE;
      AheadBy(exp, k);
      assert CachedAt(cache, exp, n);
    }
  }

  lemma AheadBy(exp: uint16, k: uint16)
    ensures Wire(exp + (k as int - exp as int) % SPACE) == k
  {
  }

  /** The scan stops at the nearest cached number ahead; everything it passes is absent. */
  lemma {:induction false} ScanIsNearest(cache: Cache, exp: uint16, n: nat, d: nat)
    requires n <= d < SPACE
    requires CachedAt(cache, exp, d) && forall i :: n <= i < d ==> !CachedAt(cache, exp, i)
    ensures Scan(cache, exp, n) == Wire(exp + d)
    decreases d - n
  {
    if n < d { ScanIsNearest(cache, exp, n + 1, d); }
  }

  // ---- the window test ----

  /** 1 to 1023 ahead is always future, 0 to 1024 behind never is, on both sides of the wrap. */
  lemma FutureInWindow(next: int, t: int)
    requires -1024 <= t - next < 1024
    ensures Future(Wire(t), Wire(next)) <==> t > next
    ensures Wire(t) == Wire(next) <==> t == next
  {
  }

  /**
   * What becomes of an arriving packet, by its true distance from the expected one: passed on, kept under its number
   * unless a copy is there and it has a bad checksum, or dropped.
   */
  lemma ReceiveIs(w: Window, p: Packet, next: int, t: int)
    requires w.exp == Wire(next) && p.arqSeq == Wire(t) && -1024 <= t - next < 1024
    ensures t == next ==> Receive(w, p) == (Window(Wire(next + 1), w.cache), [p])
    ensures t > next && (p.arqSeq !in w.cache || p.crcOk) ==>
              Receive(w, p) == (Window(w.exp, w.cache[p.arqSeq := p]), [])
    ensures t > next && p.arqSeq in w.cache && !p.crcOk ==> Receive(w, p) == (w, [])
    ensures t < next ==> Receive(w, p) == (w, [])
  {
    hide Future;
    FutureInWindow(next, t);
  }

  // ---- the sequencer as an object ----

  /** The smallest key at or after `k`, which is where an ordered map's iterator goes. */
  function From(cache: Cache, k: nat): (r: Option<uint16>)
    requires k <= SPACE
    ensures r.Some? ==> r.value in cache && r.value >= k
    ensures k < SPACE && k in cache ==> r == Some(k)
    decreases SPACE - k
  {
    if k == SPACE then None else if k in cache then Some(k) else From(cache, k + 1)
  }

  lemma {:induction false} FromAfterErase(cache: Cache, gone: uint16, k: nat)
    requires gone < k <= SPACE
    ensures From(cache - {gone}, k) == From(cache, k)
    decreases SPACE - k
  {
    if k < SPACE && k !in cache { FromAfterErase(cache, gone, k + 1); }
  }

  lemma FromBelow(cache: Cache, k: nat)
    requires k <= SPACE
    ensures k == SPACE ==> From(cache, k) == None
  {
  }

  /** One turn of the drain. */
  lemma DrainStep(w: Window)
    ensures w.exp !in w.cache ==> Drain(w) == (w, [])
    ensures w.exp in w.cache ==>
      var p, rest := w.cache[w.exp], w.cache - {w.exp};
      && |rest| < |w.cache|
      && (!p.crcOk ==> Drain(w) == (Window(w.exp, rest), []))
      && (p.crcOk ==> var d := Drain(Window(Next(w.exp), rest)); Drain(w) == (d.0, [p] + d.1))
  {
    if w.exp in w.cache { Shrinks(w.cache, w.exp); }
  }

  class PacketStream {
    var cache: Cache
    var arqSeqExp: uint16
    var arqSeqFound: bool
    var arqSeqGiveUp: uint16
    var sessionKey: uint32
    /** Everything passed on to the application level, in order. */
    ghost var passed: seq<Packet>

    ghost predicate Valid()
      reads this
    {
      && CacheOk(cache)
      && forall k :: k in cache ==> !Joins(cache[k])
    }

    function View(): Window
      reads this
    {
      Window(arqSeqExp, cache)
    }

    constructor (giveUp: uint16)
      ensures Valid() && View() == Window(0, map[]) && passed == []
      ensures !arqSeqFound && arqSeqGiveUp == giveUp && sessionKey == 0
    {
      cache, arqSeqExp, arqSeqFound, arqSeqGiveUp, sessionKey := map[], 0, false, giveUp, 0;
      passed := [];
    }

    method SetCache(p: Packet)
      requires Valid() && !Joins(p)
      modifies this`cache
      ensures Valid() && cache == Put(old(cache), p)
    {
      if p.arqSeq !in cache {
        cache := cache[p.arqSeq := p];
      } else if p.crcOk {
        cache := cache[p.arqSeq := p];
      }
    }

    /** A stream without a session key that has met no packet yet takes its expected number from the first. */
    ghost predicate Joins(p: Packet)
      reads this
    {
      sessionKey == 0 && !arqSeqFound && !p.oversized
    }

    method ProcessPacket(p: Packet)
      requires Valid()
      modifies this`cache, this`arqSeqExp, this`arqSeqFound, this`passed
      ensures Valid()
      ensures arqSeqFound == (old(arqSeqFound) || old(Joins(p)))
      ensures var from := if old(Joins(p)) then Window(p.arqSeq, old(cache)) else old(View());
              var (w, out) := Receive(from, p);
              View() == w && passed == old(passed) + out
    {
      if !p.oversized && sessionKey == 0 && !arqSeqFound {
        arqSeqExp := p.arqSeq;
        arqSeqFound := true;
      }
      if p.arqSeq == arqSeqExp {
        arqSeqExp := Next(arqSeqExp);
        passed := passed + [p];
      } else if Future(p.arqSeq, arqSeqExp) {
        SetCache(p);
      }
    }

    /** The source never returns from here when the cache is empty and giving up needs no entries. */
    method ProcessCache()
      requires Valid()
      requires cache == map[] ==> arqSeqGiveUp > 0
      modifies this`cache, this`arqSeqExp, this`arqSeqFound, this`passed
      ensures Valid()
      ensures var (w, out) := Drain(GiveUp(old(View()), arqSeqGiveUp));
              View() == w && passed == old(passed) + out
      ensures arqSeqExp !in cache && arqSeqFound == old(arqSeqFound)
    {
      DrainExhausts(GiveUp(View(), arqSeqGiveUp));
      if |cache| >= arqSeqGiveUp {
        SkipMissing();
      }
      ProcessRun();
    }

    /** The loop over immediate followers, with the iterator's jump to the front when the number wraps. */
    method ProcessRun()
      requires Valid()
      modifies this`cache, this`arqSeqExp, this`arqSeqFound, this`passed
      ensures Valid()
      ensures var (w, out) := Drain(old(View()));
              View() == w && passed == old(passed) + out
      ensures arqSeqFound == old(arqSeqFound)
    {
      hide Drain, Future, Put, From;
      ghost var before := passed;
      ghost var goal := Drain(View());
      var it := if arqSeqExp in cache then Some(arqSeqExp) else None;
      while it.Some?
        invariant Valid() && arqSeqFound == old(arqSeqFound)
        invariant it.Some? ==> it.value in cache
        invariant it == Some(arqSeqExp) <==> arqSeqExp in cache
        invariant goal.0 == Drain(View()).0
        invariant before + goal.1 == passed + Drain(View()).1
        decreases |cache|
      {
        var packet := cache[it.value];
        if packet.arqSeq != arqSeqExp { break; }
        var gone := it.value;
        DrainStep(View());
        FromAfterErase(cache, gone, gone as int + 1);
        FromBelow(cache - {gone}, gone as int + 1);
        if !packet.crcOk {
          it := From(cache, gone as int + 1);
          cache := cache - {gone};
          return;
        }
        ProcessPacket(packet);
        it := From(cache, gone as int + 1);
        cache := cache - {gone};
        if arqSeqExp == 0 {
          it := From(cache, 0);
        }
      }
      DrainStep(View());
    }

    /** The driver: one packet in, then whatever it releases. */
    method Arrive(p: Packet)
      requires Valid() && arqSeqGiveUp > 0
      modifies this`cache, this`arqSeqExp, this`arqSeqFound, this`passed
      ensures Valid()
      ensures var from := if old(Joins(p)) then Window(p.arqSeq, old(cache)) else old(View());
              var (w, out) := Process(from, arqSeqGiveUp, p);
              View() == w && passed == old(passed) + out
      ensures arqSeqFound == (old(arqSeqFound) || old(Joins(p)))
    {
      ProcessPacket(p);
      ProcessCache();
    }

    /**
     * A new stream that meets its packets one by one. Without a session key, if the first is a plain one, it takes up
     * the sequence there, wherever in it that is; with a session key, or while none is plain, it expects number 0.
     */
    method ArriveAll(ps: seq<Packet>)
      requires Valid() && View() == Window(0, map[]) && passed == [] && !arqSeqFound
      requires arqSeqGiveUp > 0
      modifies this`cache, this`arqSeqExp, this`arqSeqFound, this`passed
      ensures Valid()
      ensures sessionKey == 0 && ps != [] && !ps[0].oversized ==>
                (View(), passed) == ProcessAll(ps[0].arqSeq, arqSeqGiveUp, ps) && passed != [] && passed[0] == ps[0]
      ensures sessionKey != 0 || (forall i :: 0 <= i < |ps| ==> ps[i].oversized) ==>
                (View(), passed) == ProcessAll(0, arqSeqGiveUp, ps)
    {
      hide Drain, GiveUp, Future;
      for i := 0 to |ps|
        invariant Valid()
        invariant i == 0 ==> View() == Window(0, map[]) && passed == [] && !arqSeqFound
        invariant sessionKey == 0 && i > 0 && !ps[0].oversized ==>
                    && arqSeqFound && passed != [] && passed[0] == ps[0]
                    && (View(), passed) == ProcessAll(ps[0].arqSeq, arqSeqGiveUp, ps[..i])
        invariant sessionKey != 0 || (forall k :: 0 <= k < i ==> ps[k].oversized) ==>
                    !arqSeqFound && (View(), passed) == ProcessAll(0, arqSeqGiveUp, ps[..i])
      {
        assert ps[..i + 1][..i] == ps[..i];
        Arrive(ps[i]);
      }
      assert ps[..|ps|] == ps;
    }

    method SkipMissing()
      requires cache != map[]
      modifies this`arqSeqExp
      ensures arqSeqExp == Scan(cache, old(arqSeqExp), 0)
    {
      ghost var start := arqSeqExp;
      ghost var n := 0;
      ScanMeets(cache, start);
      ghost var d :| 0 <= d < SPACE && CachedAt(cache, start, d);
      while arqSeqExp !in cache
        invariant 0 <= n <= d && arqSeqExp == Wire(start + n)
        invariant forall i :: 0 <= i < n ==> !CachedAt(cache, start, i)
        decreases d - n
      {
        arqSeqExp := Next(arqSeqExp);
        n := n + 1;
      }
      ScanIsNearest(cache, start, 0, n);
    }
  }
}
