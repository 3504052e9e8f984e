/**
 * Fragment reassembly. An abstract assembly keeps, for every open group, the list of parts accepted so far;
 * the counters, flag vector and growing buffer the decoder really keeps are related to it by `Represents`.
 */
module Fragments {
  import opened Bytes
  import opened Options
  import WireFormat

  /** An application message: opcode and body. */
  datatype Message = Message(opcode: uint16, body: seq<byte>)

  datatype Part = Part(index: uint16, payload: seq<byte>)

  datatype Group = Group(opcode: uint16, total: uint16, parts: seq<Part>)

  type Assembly = map<uint16, Group>

  function Indices(parts: seq<Part>): set<int> {
    set i | 0 <= i < |parts| :: parts[i].index
  }

  function Joined(parts: seq<Part>): seq<byte> {
    if parts == [] then [] else Joined(parts[..|parts| - 1]) + parts[|parts| - 1].payload
  }

  /** Every index below the total has arrived. */
  predicate Complete(g: Group) {
    forall i :: 0 <= i < g.total ==> i in Indices(g.parts)
  }

  predicate Distinct(parts: seq<Part>) {
    forall i, j :: 0 <= i < j < |parts| ==> parts[i].index != parts[j].index
  }

  /** An open group: it was opened by fragment 0, holds no index twice, and is not complete. */
  predicate GroupOk(g: Group) {
    && g.parts != [] && g.parts[0].index == 0
    && Distinct(g.parts)
    && (forall i :: 0 <= i < |g.parts| ==> g.parts[i].index < g.total)
    && !Complete(g)
  }

  predicate AssemblyOk(asm: Assembly) {
    forall key :: key in asm ==> GroupOk(asm[key])
  }

  // ---- one fragment ----

  function Lookup(asm: Assembly, key: uint16): Option<Group> {
    if key in asm then Some(asm[key]) else None
  }

  function Settle(asm: Assembly, key: uint16, g: Group): (Assembly, Option<Message>) {
    if Complete(g) then (asm - {key}, Some(Message(g.opcode, Joined(g.parts))))
    else (asm[key := g], None)
  }

  function Accept(asm: Assembly, f: WireFormat.FragInfo, opcode: uint16, payload: seq<byte>)
    : (Assembly, Option<Message>)
  {
    if f.total == 0 then (asm, None)
    else if f.index == 0 then Settle(asm, f.group, Group(opcode, f.total, [Part(0, payload)]))
    else if f.group !in asm || f.index >= asm[f.group].total then (asm - {f.group}, None)
    else
      var g := asm[f.group];
      if f.index in Indices(g.parts) then (asm, None)
      else Settle(asm, f.group, g.(parts := g.parts + [Part(f.index, payload)]))
  }

  lemma IndicesOfSnoc(parts: seq<Part>, p: Part)
    ensures Indices(parts + [p]) == Indices(parts) + {p.index as int}
  {
    var more := parts + [p];
    forall i | 0 <= i < |parts|
      ensures more[i].index as int in Indices(more) && parts[i].index as int in Indices(parts)
    {
      assert more[i] == parts[i];
    }
    assert more[|parts|].index == p.index;
    forall x | x in Indices(more)
      ensures x in Indices(parts) + {p.index as int}
    {
      var i :| 0 <= i < |more| && more[i].index == x;
      assert i < |parts| ==> parts[i].index == x;
    }
    forall x | x in Indices(parts)
      ensures x in Indices(more)
    {
      var i :| 0 <= i < |parts| && parts[i].index == x;
      assert more[i].index == x;
    }
  }

  lemma AcceptKeepsOk(asm: Assembly, f: WireFormat.FragInfo, opcode: uint16, payload: seq<byte>)
    requires AssemblyOk(asm)
    ensures AssemblyOk(Accept(asm, f, opcode, payload).0)
  {
    if f.total != 0 && f.index != 0 && f.group in asm {
      var g := asm[f.group];
      IndicesOfSnoc(g.parts, Part(f.index, payload));
    }
  }

  // ---- the counters ----

  /** What the decoder keeps for an open group. */
  datatype FragmentGroup = FragmentGroup(
    opcode: uint16, total: uint16, receivedCount: nat, received: seq<bool>, data: seq<byte>)

  predicate Represents(c: FragmentGroup, g: Group) {
    && c.opcode == g.opcode && c.total == g.total
    && |c.received| == g.total
    && (forall i :: 0 <= i < g.total ==> (c.received[i] <==> i in Indices(g.parts)))
    && c.receivedCount == |g.parts|
    && c.data == Joined(g.parts)
  }

  function Upto(n: nat): (s: set<int>)
    ensures forall i :: i in s <==> 0 <= i < n
    ensures |s| == n
  {
    if n == 0 then {} else Upto(n - 1) + {n - 1}
  }

  lemma {:induction false} DistinctCount(parts: seq<Part>)
    requires Distinct(parts)
    ensures |Indices(parts)| == |parts|
  {
    if parts != [] {
      var init, last := parts[..|parts| - 1], parts[|parts| - 1];
      assert parts == init + [last];
      IndicesOfSnoc(init, last);
      DistinctCount(init);
      assert last.index as int !in Indices(init);
    }
  }

  lemma SubsetOfSameSize(a: set<int>, b: set<int>)
    requires a <= b && |a| == |b|
    ensures a == b
  {
    assert |b - a| == 0;
  }

  /** The counter reaches the total exactly when every flag is set. */
  lemma CountsWhenComplete(g: Group)
    requires Distinct(g.parts) && forall i :: 0 <= i < |g.parts| ==> g.parts[i].index < g.total
    ensures |g.parts| <= g.total
    ensures |g.parts| == g.total <==> Complete(g)
  {
    var have, want := Indices(g.parts), Upto(g.total);
    DistinctCount(g.parts);
    assert have <= want;
    CardinalityOfSubset(have, want);
    if |g.parts| == g.total {
      SubsetOfSameSize(have, want);
    }
    if Complete(g) {
      assert want <= have;
      assert want == have;
    }
  }

  lemma CardinalityOfSubset(a: set<int>, b: set<int>)
    requires a <= b
    ensures |a| <= |b|
  {
    assert |b| == |a| + |b - a| by { assert b == a + (b - a); }
  }
}
