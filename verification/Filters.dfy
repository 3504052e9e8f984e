/** Message filters in 32 slots, and the filter flags cached with every stored message. */
module Filters {
  import opened Options

  const SLOTS := 32

  /** A 32-bit flag word, as the set of its one bits: `1 << i` is `{i}`, `|` is union and `& ~` is difference. */
  type Flags = set<int>

  type Kind = bv6

  datatype Filter = Filter(name: string, types: bv64, pattern: string, patternOptions: int)

  datatype Entry = Entry(kind: Kind, text: string, flags: Flags)

  /** Whether a pattern, under its options, has a match in a text. */
  type Matcher = (string, int, string) -> bool

  predicate IsFiltered(has: Matcher, f: Filter, kind: Kind, text: string) {
    f.types & (1 << kind) != 0 && has(f.pattern, f.patternOptions, text)
  }

  type Slots = s: seq<Option<Filter>> | |s| == SLOTS witness seq(SLOTS, _ => None)

  predicate Hit(has: Matcher, slots: Slots, i: int, kind: Kind, text: string)
    requires 0 <= i < SLOTS
  {
    slots[i].Some? && IsFiltered(has, slots[i].value, kind, text)
  }

  /** The slots whose filter a message passes. */
  function FlagsFor(has: Matcher, slots: Slots, kind: Kind, text: string): Flags {
    set i | 0 <= i < SLOTS && Hit(has, slots, i, kind, text)
  }

  // ---- the store as a transition system ----

  datatype Store = Store(slots: Slots, messages: seq<Entry>)

  datatype Op =
    | AddMessage(kind: Kind, text: string)
    | Clear
    | AddFilter(f: Filter)
    | RemoveSlot(i: nat)
    | RemoveFilter(f: Filter)
    | RemoveNamed(name: string)

  predicate OpOk(op: Op) {
    op.RemoveSlot? ==> op.i < SLOTS
  }

  /** The first slot from `i` on that `p` accepts; None when there is none. */
  function FirstSlot(slots: Slots, p: Option<Filter> -> bool, i: nat): (r: Option<nat>)
    requires i <= SLOTS
    ensures r.Some? ==> i <= r.value < SLOTS && p(slots[r.value])
    ensures r.Some? ==> forall j :: i <= j < r.value ==> !p(slots[j])
    ensures r.None? ==> forall j :: i <= j < SLOTS ==> !p(slots[j])
    decreases SLOTS - i
  {
    if i == SLOTS then None else if p(slots[i]) then Some(i) else FirstSlot(slots, p, i + 1)
  }

  lemma FoundIffHeld(slots: Slots, f: Filter)
    ensures var i := FirstSlot(slots, (x: Option<Filter>) => x == Some(f), 0);
            (i.Some? <==> Some(f) in slots) && (i.Some? ==> slots[i.value] == Some(f))
  {
    var p := (x: Option<Filter>) => x == Some(f);
    var i := FirstSlot(slots, p, 0);
    assert forall j :: 0 <= j < SLOTS ==> (p(slots[j]) <==> slots[j] == Some(f));
  }

  /** Flag `i` is set on the messages the new filter passes, and left alone on the others. */
  function Flagged(has: Matcher, messages: seq<Entry>, i: int, f: Filter): (r: seq<Entry>)
    ensures |r| == |messages|
  {
    seq(|messages|, k requires 0 <= k < |messages| =>
      var m := messages[k]; if IsFiltered(has, f, m.kind, m.text) then m.(flags := m.flags + {i}) else m)
  }

  function Unflagged(messages: seq<Entry>, i: int): (r: seq<Entry>)
    ensures |r| == |messages|
  {
    seq(|messages|, k requires 0 <= k < |messages| => messages[k].(flags := messages[k].flags - {i}))
  }

  function Remove(s: Store, i: nat): Store
    requires i < SLOTS
  {
    if s.slots[i].None? then s else Store(s.slots[i := None], Unflagged(s.messages, i))
  }

  function RemoveFirst(s: Store, p: Option<Filter> -> bool): Store {
    var i := FirstSlot(s.slots, p, 0);
    if i.None? then s else Remove(s, i.value)
  }

  function Apply(has: Matcher, s: Store, op: Op): Store
    requires OpOk(op)
  {
    match op
    case AddMessage(kind, text) => s.(messages := s.messages + [Entry(kind, text, FlagsFor(has, s.slots, kind, text))])
    case Clear => s.(messages := [])
    case AddFilter(f) =>
      var i := FirstSlot(s.slots, (x: Option<Filter>) => x.None?, 0);
      if i.None? then s else Store(s.slots[i.value := Some(f)], Flagged(has, s.messages, i.value, f))
    case RemoveSlot(i) => Remove(s, i)
    case RemoveFilter(f) => RemoveFirst(s, (x: Option<Filter>) => x == Some(f))
    case RemoveNamed(name) => RemoveFirst(s, (x: Option<Filter>) => x.Some? && x.value.name == name)
  }

  function ApplyAll(has: Matcher, slots: Slots, ops: seq<Op>): Store
    requires forall k :: 0 <= k < |ops| ==> OpOk(ops[k])
  {
    if ops == [] then Store(slots, [])
    else Apply(has, ApplyAll(has, slots, ops[..|ops| - 1]), ops[|ops| - 1])
  }

  /** Every cached flag word is what filtering the message now would give. */
  predicate Agrees(has: Matcher, s: Store) {
    forall k :: 0 <= k < |s.messages| ==>
      s.messages[k].flags == FlagsFor(has, s.slots, s.messages[k].kind, s.messages[k].text)
  }

  lemma FilledSlot(has: Matcher, slots: Slots, i: nat, f: Filter, kind: Kind, text: string)
    requires i < SLOTS && slots[i].None?
    ensures FlagsFor(has, slots[i := Some(f)], kind, text)
         == FlagsFor(has, slots, kind, text) + if IsFiltered(has, f, kind, text) then {i as int} else {}
  {
    hide IsFiltered;
    forall j | 0 <= j < SLOTS && j != i
      ensures Hit(has, slots[i := Some(f)], j, kind, text) <==> Hit(has, slots, j, kind, text)
    {
    }
  }

  lemma EmptiedSlot(has: Matcher, slots: Slots, i: nat, kind: Kind, text: string)
    requires i < SLOTS
    ensures FlagsFor(has, slots[i := None], kind, text) == FlagsFor(has, slots, kind, text) - {i as int}
  {
    hide IsFiltered;
    forall j | 0 <= j < SLOTS && j != i
      ensures Hit(has, slots[i := None], j, kind, text) <==> Hit(has, slots, j, kind, text)
    {
    }
  }

  lemma RemoveAgrees(has: Matcher, s: Store, i: nat)
    requires i < SLOTS && Agrees(has, s)
    ensures Agrees(has, Remove(s, i))
  {
    hide FlagsFor;
    forall k | 0 <= k < |s.messages|
      ensures s.messages[k].flags - {i as int}
           == FlagsFor(has, s.slots[i := None], s.messages[k].kind, s.messages[k].text)
    {
      EmptiedSlot(has, s.slots, i, s.messages[k].kind, s.messages[k].text);
    }
  }

  lemma ApplyAgrees(has: Matcher, s: Store, op: Op)
    requires OpOk(op) && Agrees(has, s)
    ensures Agrees(has, Apply(has, s, op))
  {
    hide FlagsFor, IsFiltered;
    match op
    case AddMessage(kind, text) =>
    case Clear =>
    case AddFilter(f) =>
      var i := FirstSlot(s.slots, (x: Option<Filter>) => x.None?, 0);
      if i.Some? {
        forall k | 0 <= k < |s.messages|
          ensures FlagsFor(has, s.slots[i.value := Some(f)], s.messages[k].kind, s.messages[k].text)
               == Flagged(has, s.messages, i.value, f)[k].flags
        {
          FilledSlot(has, s.slots, i.value, f, s.messages[k].kind, s.messages[k].text);
        }
      }
    case RemoveSlot(i) => RemoveAgrees(has, s, i);
    case RemoveFilter(f) =>
      var i := FirstSlot(s.slots, (x: Option<Filter>) => x == Some(f), 0);
      if i.Some? { RemoveAgrees(has, s, i.value); }
    case RemoveNamed(name) =>
      var i := FirstSlot(s.slots, (x: Option<Filter>) => x.Some? && x.value.name == name, 0);
      if i.Some? { RemoveAgrees(has, s, i.value); }
  }

  /** Whatever messages and filters come and go, and however slots are reused, the cache never goes stale. */
  lemma {:induction false} CacheIsNeverStale(has: Matcher, slots: Slots, ops: seq<Op>)
    requires forall k :: 0 <= k < |ops| ==> OpOk(ops[k])
    ensures Agrees(has, ApplyAll(has, slots, ops))
  {
    if ops != [] {
      CacheIsNeverStale(has, slots, ops[..|ops| - 1]);
      ApplyAgrees(has, ApplyAll(has, slots, ops[..|ops| - 1]), ops[|ops| - 1]);
    }
  }

  // ---- what is stored ----

  /** The messages added since the last clear, with their kinds. */
  function Added(ops: seq<Op>): seq<(Kind, string)> {
    if ops == [] then []
    else
      var op, before := ops[|ops| - 1], Added(ops[..|ops| - 1]);
      if op.AddMessage? then before + [(op.kind, op.text)] else if op.Clear? then [] else before
  }

  function TextsOf(messages: seq<Entry>): seq<(Kind, string)> {
    seq(|messages|, k requires 0 <= k < |messages| => (messages[k].kind, messages[k].text))
  }

  /** Filters come and go, but the messages stored are always those added since the last clear, in order. */
  lemma {:induction false} MessagesAreKept(has: Matcher, slots: Slots, ops: seq<Op>)
    requires forall k :: 0 <= k < |ops| ==> OpOk(ops[k])
    ensures TextsOf(ApplyAll(has, slots, ops).messages) == Added(ops)
  {
    hide FlagsFor, IsFiltered, FirstSlot;
    if ops != [] { MessagesAreKept(has, slots, ops[..|ops| - 1]); }
  }

  /** Only slot `i` is different. */
  predicate OthersSame(a: Slots, b: Slots, i: int) {
    forall j :: 0 <= j < 32 && j != i ==> a[j] == b[j]
  }

  /** Adding fills the lowest vacant slot, if any is vacant. */
  lemma AddingFillsLowest(has: Matcher, s: Store, f: Filter, i: nat)
    requires i < 32 && s.slots[i].None? && forall j :: 0 <= j < i ==> s.slots[j].Some?
    ensures var now := Apply(has, s, Op.AddFilter(f)).slots; now[i] == Some(f) && OthersSame(now, s.slots, i)
  {
    hide FlagsFor, IsFiltered;
    var p := (x: Option<Filter>) => x.None?;
    var r := FirstSlot(s.slots, p, 0);
    assert p(s.slots[i]);
  }

  lemma AddingToFullChangesNothing(has: Matcher, s: Store, f: Filter)
    requires forall j :: 0 <= j < 32 ==> s.slots[j].Some?
    ensures Apply(has, s, Op.AddFilter(f)) == s
  {
  }

  /** Removing a slot vacates that one, removing a filter or a name the lowest slot that holds it. */
  lemma RemovingVacatesLowest(has: Matcher, s: Store, op: Op, i: nat)
    requires OpOk(op) && i < 32 && match op
      case RemoveSlot(k) => k == i
      case RemoveFilter(f) => s.slots[i] == Some(f) && forall j :: 0 <= j < i ==> s.slots[j] != Some(f)
      case RemoveNamed(name) =>
        && s.slots[i].Some? && s.slots[i].value.name == name
        && forall j :: 0 <= j < i && s.slots[j].Some? ==> s.slots[j].value.name != name
      case _ => false
    ensures var now := Apply(has, s, op).slots; now[i] == None && OthersSame(now, s.slots, i)
  {
    match op
    case RemoveSlot(_) =>
    case RemoveFilter(f) =>
      var p := (x: Option<Filter>) => x == Some(f);
      assert p(s.slots[i]);
    case RemoveNamed(name) =>
      var p := (x: Option<Filter>) => x.Some? && x.value.name == name;
      assert p(s.slots[i]);
  }

  // ---- which messages a filter passes ----

  /** The type word of a list of kinds: one bit for each. */
  function TypeWord(kinds: seq<Kind>): bv64 {
    if kinds == [] then 0 else TypeWord(kinds[..|kinds| - 1]) | (1 << kinds[|kinds| - 1])
  }

  lemma OneBit(a: Kind, b: Kind)
    ensures (1 as bv64 << a) & (1 << b) != 0 <==> a == b
  {
  }

  lemma EitherBit(x: bv64, y: bv64, m: bv64)
    ensures (x | y) & m != 0 <==> x & m != 0 || y & m != 0
  {
  }

  lemma {:induction false} TypeWordHas(kinds: seq<Kind>, kind: Kind)
    ensures TypeWord(kinds) & (1 << kind) != 0 <==> kind in kinds
  {
    if kinds != [] {
      var init, last := kinds[..|kinds| - 1], kinds[|kinds| - 1];
      assert kinds == init + [last];
      TypeWordHas(init, kind);
      OneBit(last, kind);
      EitherBit(TypeWord(init), 1 << last, 1 << kind);
    }
  }

  /** The filter in a slot is for kinds that include this one, and its pattern matches. */
  predicate Selects(has: Matcher, slots: Slots, i: int, kinds: seq<Kind>, kind: Kind, text: string) {
    && 0 <= i < 32 && slots[i].Some? && kind in kinds
    && has(slots[i].value.pattern, slots[i].value.patternOptions, text)
  }

  /** The kinds are those of the filter in slot `i`, if there is one. */
  predicate KindsAre(slots: Slots, i: int, kinds: seq<Kind>) {
    0 <= i < 32 && slots[i].Some? ==> slots[i].value.types == TypeWord(kinds)
  }

  /** A message has flag `i` exactly when slot `i` holds a filter for its kind whose pattern matches its text. */
  lemma FlagsAre(has: Matcher, slots: Slots, kind: Kind, text: string, i: int, kinds: seq<Kind>)
    requires KindsAre(slots, i, kinds)
    ensures i in FlagsFor(has, slots, kind, text) <==> Selects(has, slots, i, kinds, kind, text)
  {
    TypeWordHas(kinds, kind);
  }

  /** And so have the flags stored with every message, whatever was added, removed and cleared on the way. */
  lemma StoredFlagsAre(has: Matcher, slots: Slots, ops: seq<Op>, k: nat, i: int, kinds: seq<Kind>)
    requires forall k :: 0 <= k < |ops| ==> OpOk(ops[k])
    requires k < |ApplyAll(has, slots, ops).messages| && KindsAre(ApplyAll(has, slots, ops).slots, i, kinds)
    ensures var s := ApplyAll(has, slots, ops);
            i in s.messages[k].flags <==> Selects(has, s.slots, i, kinds, s.messages[k].kind, s.messages[k].text)
  {
    hide FlagsFor, ApplyAll;
    var s := ApplyAll(has, slots, ops);
    CacheIsNeverStale(has, slots, ops);
    FlagsAre(has, s.slots, s.messages[k].kind, s.messages[k].text, i, kinds);
  }

  // ---- the store as objects ----

  class MessageFilters {
    const has: Matcher
    const filters: array<Option<Filter>>

    ghost predicate Valid() { filters.Length == SLOTS }

    constructor (has: Matcher, slots: Slots)
      ensures Valid() && this.has == has && filters[..] == slots && fresh(filters)
    {
      this.has := has;
      filters := new Option<Filter>[SLOTS](i requires 0 <= i < SLOTS => slots[i]);
      new;
      assert filters[..] == slots;
    }

    /** The loop over the slots that accumulates the flag word. */
    method FilterMessage(kind: Kind, text: string) returns (mask: Flags)
      requires Valid()
      ensures mask == FlagsFor(has, filters[..], kind, text)
    {
      hide IsFiltered;
      mask := {};
      for i := 0 to SLOTS
        invariant mask == set j | 0 <= j < i && Hit(has, filters[..], j, kind, text)
      {
        if filters[i].Some? && IsFiltered(has, filters[i].value, kind, text) {
          mask := mask + {i};
        }
      }
    }

    /** The first vacant slot, or 0xFF. */
    method AddFilter(f: Filter) returns (slot: nat)
      requires Valid()
      modifies filters
      ensures var i := FirstSlot(old(filters[..]), (x: Option<Filter>) => x.None?, 0);
              if i.None? then slot == 0xFF && filters[..] == old(filters[..])
              else slot == i.value && filters[..] == old(filters[..])[slot := Some(f)]
    {
      ghost var vacant := (x: Option<Filter>) => x.None?;
      ghost var was := filters[..];
      for i := 0 to SLOTS
        invariant filters[..] == was
        invariant FirstSlot(was, vacant, 0) == FirstSlot(was, vacant, i)
      {
        if filters[i].None? {
          filters[i] := Some(f);
          return i;
        }
      }
      slot := 0xFF;
    }

    /** Vacates a slot; false when it was vacant already. */
    method RemFilter(i: nat) returns (removed: bool)
      requires Valid() && i < SLOTS
      modifies filters
      ensures removed == old(filters[i]).Some?
      ensures filters[..] == old(filters[..])[i := None]
    {
      if filters[i].None? {
        assert filters[..] == filters[..][i := None];
        return false;
      }
      filters[i] := None;
      removed := true;
    }

    /** The first slot that holds an equal filter. */
    method FindFilter(f: Filter) returns (slot: Option<nat>)
      requires Valid()
      ensures slot == FirstSlot(filters[..], (x: Option<Filter>) => x == Some(f), 0)
    {
      ghost var equal := (x: Option<Filter>) => x == Some(f);
      for i := 0 to SLOTS
        invariant FirstSlot(filters[..], equal, 0) == FirstSlot(filters[..], equal, i)
      {
        if filters[i].Some? && filters[i].value == f { return Some(i); }
      }
      slot := None;
    }
  }

  class Messages {
    const filters: MessageFilters
    var messages: seq<Entry>

    ghost predicate Valid()
      reads this, filters, filters.filters
    {
      filters.Valid() && Agrees(filters.has, View())
    }

    ghost function View(): Store
      requires filters.Valid()
      reads this, filters, filters.filters
    {
      Store(filters.filters[..], messages)
    }

    constructor (filters: MessageFilters)
      requires filters.Valid()
      ensures Valid() && this.filters == filters && View() == Store(filters.filters[..], [])
    {
      this.filters, messages := filters, [];
    }

    method AddMessage(kind: Kind, text: string)
      requires Valid()
      modifies this
      ensures Valid() && View() == Apply(filters.has, old(View()), Op.AddMessage(kind, text))
    {
      ApplyAgrees(filters.has, View(), Op.AddMessage(kind, text));
      var flags := filters.FilterMessage(kind, text);
      messages := messages + [Entry(kind, text, flags)];
    }

    method ClearAll()
      requires Valid()
      modifies this
      ensures Valid() && View() == Apply(filters.has, old(View()), Clear)
    {
      messages := [];
    }

    /** addFilter and the slot its signal reaches. */
    method AddFilter(f: Filter)
      requires Valid()
      modifies this, filters.filters
      ensures Valid() && View() == Apply(filters.has, old(View()), Op.AddFilter(f))
    {
      ApplyAgrees(filters.has, View(), Op.AddFilter(f));
      var slot := filters.AddFilter(f);
      if slot != 0xFF {
        AddedFilter(slot, f);
      }
    }

    method RemoveSlot(i: nat) returns (removed: bool)
      requires Valid() && i < SLOTS
      modifies this, filters.filters
      ensures Valid() && removed == old(filters.filters[i]).Some?
      ensures View() == Apply(filters.has, old(View()), Op.RemoveSlot(i))
    {
      ApplyAgrees(filters.has, View(), Op.RemoveSlot(i));
      removed := filters.RemFilter(i);
      if removed {
        RemovedFilter(i);
      } else {
        assert filters.filters[..] == old(filters.filters[..]);
      }
    }

    method RemoveFilter(f: Filter) returns (removed: bool)
      requires Valid()
      modifies this, filters.filters
      ensures Valid() && View() == Apply(filters.has, old(View()), Op.RemoveFilter(f))
      ensures removed <==> Some(f) in old(filters.filters[..])
    {
      ghost var slots := filters.filters[..];
      var slot := filters.FindFilter(f);
      removed := false;
      FoundIffHeld(slots, f);
      if slot.Some? {
        removed := RemoveSlot(slot.value);
      }
    }

    method AddedFilter(i: nat, f: Filter)
      modifies this
      ensures messages == Flagged(filters.has, old(messages), i, f)
    {
      hide IsFiltered;
      for k := 0 to |messages|
        invariant |messages| == |old(messages)|
        invariant messages[..k] == Flagged(filters.has, old(messages), i, f)[..k]
        invariant messages[k..] == old(messages)[k..]
      {
        var m := messages[k];
        assert m == old(messages)[k];
        if IsFiltered(filters.has, f, m.kind, m.text) {
          messages := messages[k := m.(flags := m.flags + {i})];
        }
        assert messages[k] == Flagged(filters.has, old(messages), i, f)[k];
      }
    }

    method RemovedFilter(i: nat)
      modifies this
      ensures messages == Unflagged(old(messages), i)
    {
      for k := 0 to |messages|
        invariant |messages| == |old(messages)|
        invariant messages[..k] == Unflagged(old(messages), i)[..k]
        invariant messages[k..] == old(messages)[k..]
      {
        var m := messages[k];
        assert m == old(messages)[k];
        messages := messages[k := m.(flags := m.flags - {i})];
        assert messages[k] == Unflagged(old(messages), i)[k];
      }
    }
  }
}
