/**
 * The linked queue between the capture thread and the reader. Each method below is what one thread does while it
 * holds the mutex, or the copy the reader makes after releasing it, so any interleaving is a sequence of these calls.
 */
module CaptureQueue {
  import opened Bytes

  class Node {
    const data: seq<byte>
    var next: Node?

    constructor (data: seq<byte>)
      ensures this.data == data && next == null
    {
      this.data, next := data, null;
    }
  }

  function DataOf(nodes: seq<Node>): (r: seq<seq<byte>>)
    ensures |r| == |nodes|
  {
    if nodes == [] then [] else [nodes[0].data] + DataOf(nodes[1..])
  }

  lemma {:induction false} DataOfSnoc(nodes: seq<Node>, n: Node)
    ensures DataOf(nodes + [n]) == DataOf(nodes) + [n.data]
  {
    if nodes != [] {
      DataOfSnoc(nodes[1..], n);
      assert (nodes + [n])[1..] == nodes[1..] + [n];
    }
  }

  function FirstOf(nodes: seq<Node>): Node? {
    if nodes == [] then null else nodes[0]
  }

  function LastOf(nodes: seq<Node>): Node? {
    if nodes == [] then null else nodes[|nodes| - 1]
  }

  /** Each node links to the one after it, and the last to nothing; no node stands twice. */
  ghost predicate Chained(nodes: seq<Node>)
    reads nodes
  {
    && (forall i {:trigger nodes[i].next} :: 0 <= i < |nodes| - 1 ==> nodes[i].next == nodes[i + 1])
    && (nodes != [] ==> nodes[|nodes| - 1].next == null)
    && (forall i, j :: 0 <= i < j < |nodes| ==> nodes[i] != nodes[j])
  }

  class Queue {
    var first: Node?
    var last: Node?
    var closed: bool
    /** The nodes from `first` on. */
    ghost var nodes: seq<Node>
    /** The node the reader has unlinked but not copied yet. */
    ghost var inFlight: Node?
    ghost var freed: set<Node>
    /** Packets put into the queue since the last start, and packets copied out of it. */
    ghost var accepted: seq<seq<byte>>
    ghost var delivered: seq<seq<byte>>

    ghost predicate Linked()
      reads this, nodes
    {
      && first == FirstOf(nodes) && last == LastOf(nodes)
      && Chained(nodes)
    }

    ghost function Pending(): (r: seq<seq<byte>>)
      reads this
    {
      if inFlight == null then [] else [inFlight.data]
    }

    /** Nothing is lost, repeated or reordered, and neither the unlinked node nor a freed one can be reached. */
    ghost predicate Valid()
      reads this, nodes
    {
      && Linked()
      && accepted == delivered + Pending() + DataOf(nodes)
      && (forall n :: n in freed ==> n !in nodes && n != inFlight)
      && (inFlight != null ==> inFlight !in nodes)
    }

    constructor ()
      ensures Valid() && nodes == [] && closed && accepted == [] && delivered == []
    {
      first, last, closed := null, null, true;
      nodes, inFlight, freed := [], null, {};
      accepted, delivered := [], [];
    }

    /** The capture callback: append under the lock, or drop the packet once the queue is closed. */
    method Enqueue(data: seq<byte>)
      requires Valid()
      modifies this`first, this`last, this`nodes, this`freed, this`accepted, last
      ensures Valid()
      ensures inFlight == old(inFlight) && delivered == old(delivered)
      ensures accepted == if closed then old(accepted) else old(accepted) + [data]
      ensures closed ==> nodes == old(nodes) && old(freed) < freed
      ensures !closed ==> freed == old(freed)
      ensures !closed ==> |nodes| == |old(nodes)| + 1
      ensures !closed ==> nodes[..|old(nodes)|] == old(nodes) && fresh(nodes[|old(nodes)|])
    {
      var pc := new Node(data);
      if !closed {
        if last != null {
          last.next := pc;
        }
        last := pc;
        if first == null {
          first := pc;
        }
        nodes := nodes + [pc];
        accepted := accepted + [data];
        DataOfSnoc(old(nodes), pc);
      } else {
        freed := freed + {pc};
      }
    }

    /** The locked half of getPacket: take the first node off, whose own link still points into the queue. */
    method Unlink() returns (pc: Node?)
      requires Valid() && inFlight == null
      modifies this`first, this`last, this`nodes, this`inFlight
      ensures Valid() && pc == inFlight
      ensures pc == null <==> old(nodes) == []
      ensures pc != null ==> pc == old(nodes)[0] && nodes == old(nodes)[1..] && pc.next == first
    {
      pc := first;
      if pc != null {
        first := pc.next;
        if first == null {
          last := null;
        }
        inFlight := pc;
        nodes := nodes[1..];
        assert accepted == delivered + [pc.data] + DataOf(nodes);
      }
    }

    /** The unlocked half: copy the bytes out and free the node. Only the low 16 bits of the length survive. */
    method CopyAndFree(pc: Node) returns (bytes: seq<byte>)
      requires Valid() && pc == inFlight
      modifies this`inFlight, this`freed, this`delivered
      ensures Valid() && inFlight == null && freed == old(freed) + {pc}
      ensures delivered == old(delivered) + [pc.data]
      ensures bytes == pc.data[..|pc.data| % 0x1_0000]
      ensures bytes == pc.data <==> |pc.data| < 0x1_0000
    {
      bytes := pc.data[..|pc.data| % 0x1_0000];
      inFlight := null;
      freed := freed + {pc};
      delivered := delivered + [pc.data];
      assert |pc.data| < 0x1_0000 ==> bytes == pc.data;
    }

    /** getPacket as the reader calls it: the oldest queued packet, or no bytes when there is none. */
    method GetPacket() returns (bytes: seq<byte>)
      requires Valid() && inFlight == null
      modifies this`first, this`last, this`nodes, this`inFlight, this`freed, this`delivered
      ensures Valid() && inFlight == null && accepted == old(accepted)
      ensures old(nodes) == [] ==> bytes == [] && nodes == [] && delivered == old(delivered)
      ensures old(nodes) != [] ==>
        && nodes == old(nodes)[1..] && delivered == old(delivered) + [old(nodes)[0].data]
        && bytes == old(nodes)[0].data[..|old(nodes)[0].data| % 0x1_0000]
    {
      bytes := [];
      var pc := Unlink();
      if pc != null {
        bytes := CopyAndFree(pc);
      }
    }

    /** stop: no packet is accepted from here on; those already queued can still be read. */
    method Close()
      requires Valid()
      modifies this`closed
      ensures Valid() && closed
    {
      closed := true;
    }

    method Open()
      requires Valid()
      modifies this`closed
      ensures Valid() && !closed
    {
      closed := false;
    }

    /** The destructor frees every queued node, each once. */
    method FreeAll()
      requires Valid() && inFlight == null
      modifies this`first, this`last, this`closed, this`nodes, this`freed, this`delivered, this`accepted
      ensures Valid() && nodes == [] && closed
      ensures freed == old(freed) + (set n | n in old(nodes))
    {
      var pc := first;
      ghost var i := 0;
      ghost var gone: set<Node> := {};
      while pc != null
        invariant 0 <= i <= |nodes|
        invariant pc == if i < |nodes| then nodes[i] else null
        invariant gone == set n | n in nodes[..i]
        invariant forall j :: i <= j < |nodes| ==> nodes[j] !in gone
        decreases |nodes| - i
      {
        var freeMe := pc;
        pc := pc.next;
        assert nodes[..i + 1] == nodes[..i] + [freeMe];
        gone := gone + {freeMe};
        i := i + 1;
      }
      assert nodes[..i] == nodes;
      first, last, closed := null, null, true;
      freed := freed + gone;
      nodes, delivered, accepted := [], [], [];
    }
  }
}
