/** The ownership-flow analysis itself (Talac/Analysis/OwnershipFlow.cpp): five packed bit sets,
    updated in place, a forward may-analysis over them, and the checks of every action. */
module OwnershipFlow {
  import opened Graphs
  import opened Wrappers
  import opened DenseBits
  import opened ReachableGraph
  import opened Worklist
  import opened Scheduling
  import opened ForwardFlow
  import opened OwnershipTheory
  import opened OwnershipGuarantee
  import CF = ControlFlow

  // ---------------------------------------------------------------------------
  // Packed states

  /** The number of the bit set that holds a state. */
  function Bit(t: Token): (k: nat)
    ensures k < 5
  {
    match t
    case Absent => 0
    case Strong => 1
    case Weak => 2
    case Unowned => 3
    case Consumed => 4
  }

  function TokenOf(bit: nat): (t: Token)
    requires bit < 5
    ensures Bit(t) == bit
  {
    if bit == 0 then Absent else if bit == 1 then Strong else if bit == 2 then Weak else if bit == 3 then Unowned
        else Consumed
  }

  /** The value of a packed state: a bit set for each of the five states. */
  datatype Packed = Packed(handleCount: nat, states: seq<Bits>)
  {
    ghost predicate Valid() {
      |states| == 5 && forall k :: 0 <= k < 5 ==> states[k].Valid() && states[k].size == handleCount
    }
  }

  ghost function MaskOf(p: Packed, index: nat): (m: StateMask)
    requires p.Valid()
    ensures forall t :: t in m <==> index in p.states[Bit(t)].members
  {
    set t: Token | index in p.states[Bit(t)].members
  }

  function WithBit(b: Bits, index: nat, value: bool): Bits {
    Bits(b.size, if value then b.members + {index} else b.members - {index})
  }

  class PackedState {
    var handleCount: nat
    var states: seq<Bits>

    function Value(): Packed
      reads this
    {
      Packed(handleCount, states)
    }

    constructor (count: nat, initial: StateMask)
      ensures Value().Valid() && Value().handleCount == count
      ensures forall i: nat :: i < count ==> MaskOf(Value(), i) == initial
    {
      handleCount := count;
      states := seq(5, bit requires 0 <= bit < 5 => if TokenOf(bit) in initial then Full(count) else Empty(count));
      new;
      assert forall t: Token :: TokenOf(Bit(t)) == t;
    }

    constructor Copy(value: Packed)
      ensures Value() == value
    {
      handleCount, states := value.handleCount, value.states;
    }

    method At(index: nat) returns (mask: StateMask)
      requires Value().Valid()
      ensures mask == if index < handleCount then MaskOf(Value(), index) else {Absent}
    {
      if index >= handleCount {
        return {Absent};
      }
      mask := {};
      assert forall t: Token :: TokenOf(Bit(t)) == t;
      for bit := 0 to 5
        invariant forall t :: t in mask <==> Bit(t) < bit && index in states[Bit(t)].members
      {
        var bits := new DenseBitSet.Of(states[bit]);
        var held := bits.Test(index);
        if held {
          mask := mask + {TokenOf(bit)};
        }
      }
    }

    method Assign(index: nat, value: StateMask)
      requires Value().Valid()
      modifies this
      ensures Value().Valid() && handleCount == old(handleCount)
      ensures forall i: nat :: i < handleCount ==>
        MaskOf(Value(), i) == if i == index then value else old(MaskOf(Value(), i))
    {
      if index >= handleCount {
        return;
      }
      ghost var before := states;
      assert forall t: Token :: TokenOf(Bit(t)) == t;
      for bit := 0 to 5
        invariant |states| == 5 && handleCount == old(handleCount)
        invariant forall k :: 0 <= k < bit ==> states[k] == WithBit(before[k], index, TokenOf(k) in value)
        invariant forall k :: bit <= k < 5 ==> states[k] == before[k]
      {
        var bits := new DenseBitSet.Of(states[bit]);
        bits.Assign(index, TokenOf(bit) in value);
        var updated := bits.Contents();
        assert updated == WithBit(before[bit], index, TokenOf(bit) in value);
        states := states[bit := updated];
      }
      AssignedMasks(Packed(handleCount, before), Value(), index, value);
    }

    method UnionWith(other: Packed)
      requires Value().Valid() && other.Valid() && other.handleCount == handleCount
      modifies this
      ensures Value().Valid() && handleCount == old(handleCount)
      ensures forall i: nat :: i < handleCount ==> MaskOf(Value(), i) == old(MaskOf(Value(), i)) + MaskOf(other, i)
    {
      ghost var before := states;
      for bit := 0 to 5
        invariant |states| == 5 && handleCount == old(handleCount)
        invariant forall k :: 0 <= k < bit ==>
          states[k] == Bits(handleCount, before[k].members + other.states[k].members)
        invariant forall k :: bit <= k < 5 ==> states[k] == before[k]
      {
        var bits := new DenseBitSet.Of(states[bit]);
        var partner := new DenseBitSet.Of(other.states[bit]);
        var compatible := bits.UnionWith(partner);
        var united := bits.Contents();
        states := states[bit := united];
      }
      UnitedMasks(Packed(handleCount, before), other, Value());
    }
  }

  lemma AssignedMasks(p: Packed, q: Packed, index: nat, value: StateMask)
    requires p.Valid() && |q.states| == 5 && q.handleCount == p.handleCount && index < p.handleCount
    requires forall k :: 0 <= k < 5 ==> q.states[k] == WithBit(p.states[k], index, TokenOf(k) in value)
    ensures q.Valid()
    ensures forall i: nat :: i < p.handleCount ==> MaskOf(q, i) == if i == index then value else MaskOf(p, i)
  {
    assert forall t: Token :: TokenOf(Bit(t)) == t;
    forall i: nat, t: Token | i < p.handleCount
      ensures t in MaskOf(q, i) <==> t in if i == index then value else MaskOf(p, i)
    {
      assert q.states[Bit(t)] == WithBit(p.states[Bit(t)], index, t in value);
    }
  }

  lemma UnitedMasks(p: Packed, other: Packed, q: Packed)
    requires p.Valid() && other.Valid() && |q.states| == 5 && q.handleCount == p.handleCount == other.handleCount
    requires forall k :: 0 <= k < 5 ==>
      q.states[k] == Bits(p.handleCount, p.states[k].members + other.states[k].members)
    ensures q.Valid()
    ensures forall i: nat :: i < p.handleCount ==> MaskOf(q, i) == MaskOf(p, i) + MaskOf(other, i)
  {
    forall i: nat, t: Token | i < p.handleCount
      ensures t in MaskOf(q, i) <==> t in MaskOf(p, i) + MaskOf(other, i)
    {
      assert q.states[Bit(t)] == Bits(p.handleCount, p.states[Bit(t)].members + other.states[Bit(t)].members);
    }
  }

  // ---------------------------------------------------------------------------
  // Packed states as sets of facts

  type FactMap = map<BlockId, Packed>

  ghost predicate Fits(c: Catalog, p: Packed) {
    p.Valid() && p.handleCount == |c.storage|
  }

  ghost predicate Sized(c: Catalog, m: FactMap) {
    forall b :: b in m ==> Fits(c, m[b])
  }

  /** What a packed state says about the handles of the catalogue. */
  ghost function FactsIn(c: Catalog, p: Packed): (s: set<Held>)
    requires c.Valid() && Fits(c, p)
    ensures forall h :: h in c.indices ==> Mask(s, h) == MaskOf(p, c.indices[h])
    ensures forall x :: x in s ==> x.handle in c.indices
  {
    var s := set x | x in Every(Elements(c.storage)) && x.token in MaskOf(p, c.indices[x.handle]);
    assert forall h, t :: h in c.indices ==> (Held(h, t) in s <==> t in MaskOf(p, c.indices[h]));
    s
  }

  ghost function HeldFacts(c: Catalog, m: FactMap): Facts<Held>
    requires c.Valid() && Sized(c, m)
  {
    map b | b in m :: FactsIn(c, m[b])
  }

  /** Sets of facts about known handles are equal when all their masks are. */
  lemma SameFacts(c: Catalog, s: set<Held>, r: set<Held>)
    requires forall x :: x in s || x in r ==> x.handle in c.indices
    requires forall h :: h in c.indices ==> Mask(s, h) == Mask(r, h)
    ensures s == r
  {
    forall x
      ensures x in s <==> x in r
    {
      assert x == Held(x.handle, x.token);
      if x.handle in c.indices {
        assert x.token in Mask(s, x.handle) <==> x in s;
        assert x.token in Mask(r, x.handle) <==> x in r;
      }
    }
  }

  lemma FactsInjective(c: Catalog, p: Packed, q: Packed)
    requires c.Valid() && Fits(c, p) && Fits(c, q)
    ensures p == q <==> FactsIn(c, p) == FactsIn(c, q)
  {
    hide FactsIn;
    if FactsIn(c, p) == FactsIn(c, q) {
      forall k | 0 <= k < 5
        ensures p.states[k] == q.states[k]
      {
        forall i: nat
          ensures i in p.states[k].members <==> i in q.states[k].members
        {
          if i < |c.storage| {
            var h := c.storage[i];
            assert h in c.storage;
            PositionIs(c, h, i);
            assert Mask(FactsIn(c, p), h) == MaskOf(p, i) && Mask(FactsIn(c, q), h) == MaskOf(q, i);
            assert TokenOf(k) in MaskOf(p, i) <==> TokenOf(k) in MaskOf(q, i);
          }
        }
      }
      assert p.states == q.states;
    }
  }

  lemma FactsAt(c: Catalog, m: FactMap, b: BlockId)
    requires c.Valid() && Sized(c, m) && b in m
    ensures ForwardFlow.At(HeldFacts(c, m), b) == FactsIn(c, m[b])
  {
  }

  lemma FactsKeys(c: Catalog, m: FactMap)
    requires c.Valid() && Sized(c, m)
    ensures HeldFacts(c, m).Keys == m.Keys
  {
  }

  lemma FactsUpdate(c: Catalog, m: FactMap, b: BlockId, v: Packed)
    requires c.Valid() && Sized(c, m) && Fits(c, v)
    ensures Sized(c, m[b := v]) && HeldFacts(c, m[b := v]) == HeldFacts(c, m)[b := FactsIn(c, v)]
  {
    hide Fits, FactsIn;
  }

  // ---------------------------------------------------------------------------
  // Catalogue and entry state

  ghost predicate Catalogues(c: Catalog, f: Function) {
    c.Valid() && Elements(c.storage) == Handles(f)
  }

  /** The nonzero handles of a list of actions, appended. */
  method MentionedHandles(actions: seq<Action>, before: seq<Identity>) returns (handles: seq<Identity>)
    ensures Elements(handles) == Elements(before) + MentionedIn(actions)
  {
    handles := before;
    for i := 0 to |actions|
      invariant forall h :: h in handles <==>
        h in before || exists k :: 0 <= k < i && actions[k].handle != 0 && actions[k].handle == h
    {
      if actions[i].handle != 0 {
        handles := handles + [actions[i].handle];
      }
    }
  }

  method GivenHandles(given: seq<InitialHandle>) returns (handles: seq<Identity>)
    ensures forall h :: h in Elements(handles) <==>
      exists k :: 0 <= k < |given| && given[k].handle != 0 && given[k].handle == h
  {
    handles := [];
    for i := 0 to |given|
      invariant forall h :: h in handles <==> exists k :: 0 <= k < i && given[k].handle != 0 && given[k].handle == h
    {
      if given[i].handle != 0 {
        handles := handles + [given[i].handle];
      }
    }
  }

  method BuildHandleCatalog(f: Function) returns (c: Catalog)
    ensures Catalogues(c, f)
  {
    hide MentionedIn, Catalog.Valid;
    var handles := GivenHandles(f.initialHandles);
    ghost var initial := Elements(handles);
    for i := 0 to |f.blocks|
      invariant Elements(handles) == initial + set k, h | 0 <= k < i && h in MentionedIn(f.blocks[k].actions) :: h
    {
      handles := MentionedHandles(f.blocks[i].actions, handles);
    }
    var unique := SortUnique(handles);
    c := IndexStorage(unique);
  }

  /** The masks recorded for a prefix of the entry handles. */
  ghost predicate Records(c: Catalog, p: Packed, given: seq<InitialHandle>)
    requires c.Valid() && Fits(c, p)
  {
    forall h :: h in c.indices ==> MaskOf(p, c.indices[h]) == InitialMask(given, h)
  }

  method InitialState(f: Function, c: Catalog, issues: seq<Issue>) returns (initial: Packed, issues': seq<Issue>)
    requires Catalogues(c, f)
    ensures issues' == issues + InitialIssues(f, |f.initialHandles|)
    ensures Fits(c, initial) && FactsIn(c, initial) == InitialFacts(f)
  {
    var given := f.initialHandles;
    var states := new PackedState(|c.storage|, {Absent});
    issues' := issues;
    NothingGiven(given);
    assert Fits(c, states.Value()) && Records(c, states.Value(), given[..0]);
    hide FactsIn, MaskOf, Handles, InitialMask, Records, Fits, InitialIssue, Catalogues;
    for i := 0 to |given|
      invariant fresh(states) && Fits(c, states.Value()) && Records(c, states.Value(), given[..i])
      invariant issues' == issues + InitialIssues(f, i)
    {
      var issue := GiveInitial(f, c, states, i);
      issues' := issues' + issue;
    }
    assert given[..|given|] == given;
    initial := states.Value();
    InitialFactsAre(c, f, initial);
  }

  /** Record one entry handle. */
  method GiveInitial(f: Function, c: Catalog, states: PackedState, i: nat) returns (issue: seq<Issue>)
    requires Catalogues(c, f) && Fits(c, states.Value()) && i < |f.initialHandles|
    requires Records(c, states.Value(), f.initialHandles[..i])
    modifies states
    ensures Fits(c, states.Value()) && Records(c, states.Value(), f.initialHandles[..i + 1])
    ensures issue == InitialIssue(f, i)
  {
    hide FactsIn, MaskOf, Handles, InitialMask, Records, Fits;
    var x := f.initialHandles[i];
    ghost var before := states.Value();
    issue := [];
    if x.handle == 0 {
      ZeroIsUnknown(c, f);
      RecordsSkip(c, before, f.initialHandles, i);
      issue := [Issue(InvalidInitialHandle, f.entry, 0, false, 0, x.kind, {Absent})];
    } else {
      GivenIsKnown(c, f, i);
      var actual := GiveHandle(c, states, x);
      RecordsGive(c, before, states.Value(), f.initialHandles, i, actual);
      if actual != {Absent} && actual != {StateFor(x.kind)} {
        issue := [Issue(ConflictingInitialKind, f.entry, 0, false, x.handle, x.kind, actual)];
      }
    }
  }

  lemma RecordsSkip(c: Catalog, p: Packed, given: seq<InitialHandle>, i: nat)
    requires c.Valid() && Fits(c, p) && i < |given| && given[i].handle !in c.indices && Records(c, p, given[..i])
    ensures Records(c, p, given[..i + 1])
  {
    hide MaskOf, InitialMask;
    GivenPrefix(given, i);
  }

  lemma RecordsGive(c: Catalog, p: Packed, q: Packed, given: seq<InitialHandle>, i: nat, actual: StateMask)
    requires c.Valid() && Fits(c, p) && Fits(c, q) && i < |given| && Records(c, p, given[..i])
    requires given[i].handle in c.indices && actual == MaskOf(p, c.indices[given[i].handle])
    requires forall h :: h in c.indices ==>
      MaskOf(q, c.indices[h]) == (if h != given[i].handle then MaskOf(p, c.indices[h])
          else WithKind(actual, given[i].kind))
    ensures Records(c, q, given[..i + 1])
    ensures actual == InitialMask(given[..i], given[i].handle)
  {
    hide MaskOf, InitialMask;
    GivenPrefix(given, i);
  }

  /** Add an entry handle in place; the result is what was recorded before. */
  method GiveHandle(c: Catalog, states: PackedState, x: InitialHandle) returns (actual: StateMask)
    requires c.Valid() && Fits(c, states.Value()) && x.handle in c.indices
    modifies states
    ensures Fits(c, states.Value())
    ensures actual == old(MaskOf(states.Value(), c.indices[x.handle]))
    ensures forall h :: h in c.indices ==>
      MaskOf(states.Value(), c.indices[h])
          == (if h != x.handle then old(MaskOf(states.Value(), c.indices[h])) else WithKind(actual, x.kind))
  {
    hide MaskOf;
    var index := c.indices[x.handle];
    actual := states.At(index);
    IndicesDiffer(c, x.handle);
    states.Assign(index, WithKind(actual, x.kind));
  }

  lemma InitialFactsAre(c: Catalog, f: Function, initial: Packed)
    requires Catalogues(c, f) && Fits(c, initial)
    requires Records(c, initial, f.initialHandles)
    ensures FactsIn(c, initial) == InitialFacts(f)
  {
    hide FactsIn, MaskOf, Handles, Given, InitialMask;
    assert forall h :: h in c.indices <==> h in Elements(c.storage);
    forall h | h in c.indices
      ensures Mask(FactsIn(c, initial), h) == Mask(InitialFacts(f), h)
    {
      assert forall t :: Held(h, t) in InitialFacts(f) <==> t in InitialMask(f.initialHandles, h);
    }
    SameFacts(c, FactsIn(c, initial), InitialFacts(f));
  }

  lemma NothingGiven(given: seq<InitialHandle>)
    ensures forall h :: InitialMask(given[..0], h) == {Absent}
  {
    assert given[..0] == [];
  }

  /** One more entry handle: the first kind replaces absence, later kinds are added. */
  lemma GivenPrefix(given: seq<InitialHandle>, i: nat)
    requires i < |given|
    ensures forall h ::
      InitialMask(given[..i + 1], h) == (if h != given[i].handle then InitialMask(given[..i], h)
          else WithKind(InitialMask(given[..i], h), given[i].kind))
  {
    assert given[..i + 1][..i] == given[..i];
    forall h
      ensures Absent !in Given(given[..i], h)
    {
      GivenIsLive(given[..i], h);
    }
    forall h
      ensures Given(given[..i + 1], h) == Given(given[..i], h) + if given[i].handle == h
        then {StateFor(given[i].kind)} else {}
    {
    }
    forall h | h == given[i].handle
      ensures InitialMask(given[..i + 1], h) == WithKind(InitialMask(given[..i], h), given[i].kind)
    {
      assert StateFor(given[i].kind) in Given(given[..i + 1], h);
      if Given(given[..i], h) != {} {
        assert Absent in {Absent};
      }
    }
  }

  lemma {:induction false} GivenIsLive(given: seq<InitialHandle>, h: Identity)
    ensures Absent !in Given(given, h)
  {
    if given != [] {
      GivenIsLive(given[..|given| - 1], h);
    }
  }

  lemma ZeroIsUnknown(c: Catalog, f: Function)
    requires Catalogues(c, f)
    ensures 0 !in c.indices
  {
    HandlesAreNotZero(f);
    assert 0 in c.indices ==> 0 in Elements(c.storage);
  }

  lemma GivenIsKnown(c: Catalog, f: Function, i: nat)
    requires Catalogues(c, f) && i < |f.initialHandles| && f.initialHandles[i].handle != 0
    ensures f.initialHandles[i].handle in c.indices
  {
    assert f.initialHandles[i].handle in Elements(c.storage);
  }

  lemma IndicesDiffer(c: Catalog, h: Identity)
    requires c.Valid() && h in c.indices
    ensures forall k :: k in c.indices && k != h ==> c.indices[k] != c.indices[h]
    ensures forall k :: k in c.indices ==> c.indices[k] < |c.storage|
  {
  }

  // ---------------------------------------------------------------------------
  // Transfer and join

  /** Apply an action in place. */
  method Apply(action: Action, c: Catalog, states: PackedState)
    requires c.Valid() && Fits(c, states.Value()) && 0 !in c.indices
    requires action.handle != 0 ==> action.handle in c.indices
    modifies states
    ensures Fits(c, states.Value())
    ensures FactsIn(c, states.Value()) == ActOnFacts(action, old(FactsIn(c, states.Value())))
  {
    hide FactsIn, MaskOf, ActOnFacts;
    ghost var before := states.Value();
    if action.handle !in c.indices {
      ActedFacts(c, action, before, before);
      return;
    }
    var index := c.indices[action.handle];
    var actual := states.At(index);
    IndicesDiffer(c, action.handle);
    match action.kind {
      case Observe =>
      case Consume =>
        var expected := StateFor(action.expected);
        if expected in actual {
          actual := actual - {expected};
          actual := actual + {Consumed};
          states.Assign(index, actual);
        }
      case Define =>
        states.Assign(index, {StateFor(action.expected)});
      case Forget =>
        states.Assign(index, {Absent});
    }
    ActedFacts(c, action, before, states.Value());
  }

  lemma ActedFacts(c: Catalog, a: Action, p: Packed, q: Packed)
    requires c.Valid() && Fits(c, p) && Fits(c, q) && 0 !in c.indices && (a.handle != 0 ==> a.handle in c.indices)
    requires forall h :: h in c.indices && h != a.handle ==> MaskOf(q, c.indices[h]) == MaskOf(p, c.indices[h])
    requires a.handle != 0 ==> MaskOf(q, c.indices[a.handle]) == ActOn(a, MaskOf(p, c.indices[a.handle]))
    ensures FactsIn(c, q) == ActOnFacts(a, FactsIn(c, p))
  {
    hide FactsIn, MaskOf, ActOn, ActOnFacts;
    var after := ActOnFacts(a, FactsIn(c, p));
    forall x | x in after
      ensures x.handle in c.indices
    {
      assert x == Held(x.handle, x.token) && x.token in Mask(after, x.handle);
      if x.handle != a.handle || a.handle == 0 {
        assert x.token in Mask(FactsIn(c, p), x.handle);
      }
    }
    SameFacts(c, FactsIn(c, q), after);
  }

  ghost predicate Covers(c: Catalog, actions: seq<Action>) {
    c.Valid() && 0 !in c.indices && forall i :: 0 <= i < |actions| && actions[i].handle != 0 ==>
        actions[i].handle in c.indices
  }

  lemma CoversBlock(c: Catalog, f: Function, b: BlockId)
    requires Catalogues(c, f)
    ensures Covers(c, ActionsOf(f, b))
  {
    hide ActionsOf, Handles;
    ZeroIsUnknown(c, f);
    forall i | 0 <= i < |ActionsOf(f, b)| && ActionsOf(f, b)[i].handle != 0
      ensures ActionsOf(f, b)[i].handle in c.indices
    {
      ActionHandleIsKnown(f, b, i);
      assert ActionsOf(f, b)[i].handle in Elements(c.storage);
    }
  }

  method Transfer(actions: seq<Action>, c: Catalog, incoming: Packed) returns (outgoing: Packed)
    requires Covers(c, actions) && Fits(c, incoming)
    ensures Fits(c, outgoing)
    ensures FactsIn(c, outgoing) == ActAllOnFacts(actions, FactsIn(c, incoming))
  {
    hide FactsIn, ActOnFacts, Fits, Catalog.Valid;
    var states := new PackedState.Copy(incoming);
    assert actions[..0] == [];
    for i := 0 to |actions|
      invariant fresh(states) && Fits(c, states.Value())
      invariant FactsIn(c, states.Value()) == ActAllOnFacts(actions[..i], FactsIn(c, incoming))
    {
      ActAllOnFactsPrefix(actions, i, FactsIn(c, incoming));
      Apply(actions[i], c, states);
    }
    assert actions[..|actions|] == actions;
    outgoing := states.Value();
  }

  /** The union of what leaves the blocks of a list. */
  ghost predicate Joined(c: Catalog, blocks: seq<BlockId>, outgoing: FactMap, s: set<Held>)
    requires c.Valid() && Sized(c, outgoing)
  {
    forall x :: x in s <==> exists q :: q in blocks && x in ForwardFlow.At(HeldFacts(c, outgoing), q)
  }

  lemma JoinGrows(c: Catalog, blocks: seq<BlockId>, outgoing: FactMap, s: set<Held>, q: BlockId)
    requires c.Valid() && Sized(c, outgoing) && Joined(c, blocks, outgoing, s)
    ensures q in outgoing ==> Joined(c, blocks + [q], outgoing, s + FactsIn(c, outgoing[q]))
    ensures q !in outgoing ==> Joined(c, blocks + [q], outgoing, s)
  {
    hide FactsIn, Fits;
    FactsKeys(c, outgoing);
    if q in outgoing {
      FactsAt(c, outgoing, q);
    }
    hide HeldFacts, Sized;
    assert forall r :: r in blocks + [q] <==> r in blocks || r == q;
  }

  lemma UnionIs(c: Catalog, p: Packed, other: Packed, q: Packed)
    requires c.Valid() && Fits(c, p) && Fits(c, other) && Fits(c, q)
    requires forall i: nat :: i < |c.storage| ==> MaskOf(q, i) == MaskOf(p, i) + MaskOf(other, i)
    ensures FactsIn(c, q) == FactsIn(c, p) + FactsIn(c, other)
  {
    hide FactsIn, MaskOf;
    var s := FactsIn(c, p) + FactsIn(c, other);
    forall h | h in c.indices
      ensures Mask(s, h) == Mask(FactsIn(c, q), h)
    {
      assert Mask(s, h) == Mask(FactsIn(c, p), h) + Mask(FactsIn(c, other), h);
    }
    SameFacts(c, FactsIn(c, q), s);
  }

  lemma EmptyFactsIn(c: Catalog, p: Packed)
    requires c.Valid() && Fits(c, p) && forall i: nat :: i < |c.storage| ==> MaskOf(p, i) == {}
    ensures FactsIn(c, p) == {}
  {
    hide MaskOf, FactsIn;
    forall h | h in c.indices
      ensures Mask(FactsIn(c, p), h) == Mask({}, h)
    {
    }
    SameFacts(c, FactsIn(c, p), {});
  }

  /** Entry facts are fixed by the caller; any other block unites what its predecessors leave. */
  method JoinPredecessors(f: Function, b: BlockId, predecessors: seq<BlockId>, c: Catalog, initial: Packed,
      outgoing: FactMap)
    returns (incoming: Packed)
    requires c.Valid() && Fits(c, initial) && Sized(c, outgoing)
    ensures Fits(c, incoming)
    ensures b == f.entry ==> incoming == initial
    ensures b != f.entry && predecessors != [] ==> Joined(c, predecessors, outgoing, FactsIn(c, incoming))
  {
    hide FactsIn, MaskOf, HeldFacts, Joined;
    if b == f.entry {
      return initial;
    }
    if predecessors == [] {
      var absent := new PackedState(|c.storage|, {Absent});
      return absent.Value();
    }
    var joined := new PackedState(|c.storage|, {});
    EmptyFactsIn(c, joined.Value());
    assert predecessors[..0] == [];
    NothingJoined(c, outgoing);
    for i := 0 to |predecessors|
      invariant fresh(joined) && Fits(c, joined.Value())
      invariant Joined(c, predecessors[..i], outgoing, FactsIn(c, joined.Value()))
    {
      var q := predecessors[i];
      assert predecessors[..i + 1] == predecessors[..i] + [q];
      JoinGrows(c, predecessors[..i], outgoing, FactsIn(c, joined.Value()), q);
      if q in outgoing {
        ghost var before := joined.Value();
        joined.UnionWith(outgoing[q]);
        UnionIs(c, before, outgoing[q], joined.Value());
      }
    }
    assert predecessors[..|predecessors|] == predecessors;
    incoming := joined.Value();
  }

  lemma NothingJoined(c: Catalog, outgoing: FactMap)
    requires c.Valid() && Sized(c, outgoing)
    ensures Joined(c, [], outgoing, {})
  {
  }

  // ---------------------------------------------------------------------------
  // The fixed point

  /** What one evaluation of block b computes. */
  ghost predicate EvaluatedPacked(f: Function, c: Catalog, outgoing: FactMap, b: BlockId, entry: Packed, exit: Packed)
    requires c.Valid() && Sized(c, outgoing)
  {
    && Fits(c, entry) && Fits(c, exit)
    && Evaluated(Ownership(f), HeldFacts(c, outgoing), b, FactsIn(c, entry), FactsIn(c, exit))
  }

  method Evaluate(f: Function, b: BlockId, predecessors: seq<BlockId>, c: Catalog, initial: Packed, outgoing: FactMap)
    returns (entry: Packed, exit: Packed)
    requires Catalogues(c, f) && Fits(c, initial) && FactsIn(c, initial) == InitialFacts(f)
    requires Sized(c, outgoing) && outgoing.Keys == Reachables(ControlFlowFor(f)) && b in outgoing
    requires predecessors == Targets(Predecessors(ControlFlowFor(f)), b)
    ensures EvaluatedPacked(f, c, outgoing, b, entry, exit)
  {
    hide Sized, Fits, FactsIn, HeldFacts, Joined, Covers, Handles, CF.Reachable, Predecessors, Targets, InitialFacts,
        ActionsOf;
    entry := JoinPredecessors(f, b, predecessors, c, initial, outgoing);
    CoversBlock(c, f, b);
    exit := Transfer(ActionsOf(f, b), c, entry);
    ArrivesIs(f, b, predecessors, c, outgoing, entry);
  }

  lemma ArrivesIs(f: Function, b: BlockId, predecessors: seq<BlockId>, c: Catalog, outgoing: FactMap, entry: Packed)
    requires c.Valid() && Sized(c, outgoing) && Fits(c, entry)
    requires outgoing.Keys == Reachables(ControlFlowFor(f)) && b in outgoing
    requires predecessors == Targets(Predecessors(ControlFlowFor(f)), b)
    requires b == f.entry ==> FactsIn(c, entry) == InitialFacts(f)
    requires b != f.entry && predecessors != [] ==> Joined(c, predecessors, outgoing, FactsIn(c, entry))
    ensures forall x :: x in FactsIn(c, entry) <==> Arrives(Ownership(f), HeldFacts(c, outgoing), b, x)
  {
    hide FactsIn, HeldFacts, Predecessors, Successors, Targets, InitialFacts, CF.Reachable, Reachables;
    var g := ControlFlowFor(f);
    if b != f.entry {
      forall q
        ensures Edge(Successors(g), q, b) <==> q in predecessors
      {
        SuccessorEdge(g, q, b);
        PredecessorEdge(g, q, b);
      }
      HasPredecessor(g, b);
    }
  }

  method EmptyFacts(ghost f: Function, preorder: seq<BlockId>, c: Catalog) returns (facts: FactMap)
    requires c.Valid() && Elements(preorder) == Reachables(ControlFlowFor(f))
    ensures Sized(c, facts) && facts.Keys == Reachables(ControlFlowFor(f))
    ensures forall b :: b in facts ==> FactsIn(c, facts[b]) == {}
  {
    hide FactsIn, CF.Reachable, Reachables;
    facts := map[];
    assert preorder[..0] == [];
    for i := 0 to |preorder|
      invariant Sized(c, facts) && facts.Keys == Elements(preorder[..i])
      invariant forall b :: b in facts ==> FactsIn(c, facts[b]) == {}
    {
      ElementsPrefix(preorder, i);
      var empty := new PackedState(|c.storage|, {});
      EmptyFactsIn(c, empty.Value());
      facts := facts[preorder[i] := empty.Value()];
    }
    assert preorder[..|preorder|] == preorder;
  }

  lemma EmptyIsInitial(f: Function, c: Catalog, facts: FactMap)
    requires c.Valid() && Sized(c, facts) && facts.Keys == Reachables(ControlFlowFor(f))
    requires forall b :: b in facts ==> FactsIn(c, facts[b]) == {}
    ensures Initially(Ownership(f), HeldFacts(c, facts), HeldFacts(c, facts))
  {
    hide FactsIn, CF.Reachable, Reachables, InitialFacts;
  }

  lemma EvaluatedIs(f: Function, c: Catalog, incoming: FactMap, outgoing: FactMap, b: BlockId, entry: Packed,
      exit: Packed)
    requires c.Valid() && Sized(c, incoming) && Sized(c, outgoing) && b in incoming && b in outgoing
    requires EvaluatedPacked(f, c, outgoing, b, entry, exit)
    ensures Fits(c, entry) && Fits(c, exit)
    ensures Evaluated(Ownership(f), HeldFacts(c, outgoing), b, FactsIn(c, entry), FactsIn(c, exit))
    ensures incoming[b] == entry <==> ForwardFlow.At(HeldFacts(c, incoming), b) == FactsIn(c, entry)
    ensures outgoing[b] == exit <==> ForwardFlow.At(HeldFacts(c, outgoing), b) == FactsIn(c, exit)
  {
    hide Fits, FactsIn, Ownership, Evaluated;
    FactsAt(c, incoming, b);
    FactsAt(c, outgoing, b);
    FactsInjective(c, incoming[b], entry);
    FactsInjective(c, outgoing[b], exit);
  }

  /** How far the facts may still rise. */
  ghost function Left(f: Function, order: seq<BlockId>, incoming: Facts<Held>, outgoing: Facts<Held>): nat {
    var room := Room(Ownership(f), order, incoming, outgoing);
    if room >= 0 then room else 0
  }

  lemma LeftIs(f: Function, order: seq<BlockId>, incoming: Facts<Held>, outgoing: Facts<Held>)
    requires Room(Ownership(f), order, incoming, outgoing) >= 0
    ensures Left(f, order, incoming, outgoing) == Room(Ownership(f), order, incoming, outgoing)
  {
    hide Room;
  }

  /** Take one block from the queue, evaluate it and propagate a change. */
  method Step(f: Function, ghost flow: CF.Result, c: Catalog, edges: EdgeMap, initial: Packed,
      ghost order: seq<BlockId>,
              worklist: DataflowWorklist, incoming0: FactMap, outgoing0: FactMap)
                  returns (incoming: FactMap, outgoing: FactMap)
    requires Catalogues(c, f) && Fits(c, initial) && FactsIn(c, initial) == InitialFacts(f)
    requires CF.Describes(ControlFlowFor(f), flow)
    requires forall b :: b in Reachables(ControlFlowFor(f)) ==>
      Targets(edges, b) == Targets(Predecessors(ControlFlowFor(f)), b)
    requires worklist.Valid() && worklist.pending != [] && Driving(ControlFlowFor(f), flow, worklist)
    requires Sized(c, incoming0) && Sized(c, outgoing0)
    requires State(Ownership(f), order, HeldFacts(c, incoming0), HeldFacts(c, outgoing0), worklist.pending,
      worklist.statistics.scheduledBlocks)
    modifies worklist
    ensures worklist.Valid() && Sized(c, incoming) && Sized(c, outgoing)
    ensures State(Ownership(f), order, HeldFacts(c, incoming), HeldFacts(c, outgoing), worklist.pending,
      worklist.statistics.scheduledBlocks)
    ensures Left(f, order, HeldFacts(c, incoming), HeldFacts(c, outgoing)) < Left(f, order, HeldFacts(c, incoming0),
      HeldFacts(c, outgoing0))
      || (Left(f, order, HeldFacts(c, incoming), HeldFacts(c, outgoing))
          == Left(f, order, HeldFacts(c, incoming0), HeldFacts(c, outgoing0))
          && |worklist.pending| < |old(worklist.pending)|)
  {
    ghost var g := ControlFlowFor(f);
    ghost var p := Ownership(f);
    hide State, EvaluatedPacked, CF.Describes, CF.Reachable, Room, Successors, Predecessors, FactEdges, Sized, Fits,
        FactsIn, Handles,
         HeldFacts, Enqueue, EnqueueAll, Targets, Reachables, Ownership, Left, Catalog.Valid, InitialFacts,
             ForwardFlow.At;
    incoming, outgoing := incoming0, outgoing0;
    ghost var waiting := worklist.pending;
    ghost var scheduled := worklist.statistics.scheduledBlocks;
    OwnershipIsWellPosed(f);
    OwnershipGraph(f);
    StateFacts(p, order, HeldFacts(c, incoming), HeldFacts(c, outgoing), waiting, scheduled);
    FactsKeys(c, incoming);
    FactsKeys(c, outgoing);
    HeadAndTail(waiting);
    assert waiting[0] in Elements(waiting);
    var next := worklist.Next();
    var b := next.value;
    ghost var rest := worklist.pending;
    var entry, exit := Evaluate(f, b, Targets(edges, b), c, initial, outgoing);
    EvaluatedIs(f, c, incoming, outgoing, b, entry, exit);
    if incoming[b] == entry && outgoing[b] == exit {
      StateStays(p, order, HeldFacts(c, incoming), HeldFacts(c, outgoing), rest, scheduled, b, FactsIn(c, entry),
          FactsIn(c, exit));
    } else {
      worklist.NotifyChanged(b);
      AffectedIs(worklist, flow, g, b);
      StateUpdates(p, order, HeldFacts(c, incoming), HeldFacts(c, outgoing), rest, scheduled, b,
                   FactsIn(c, entry), FactsIn(c, exit), worklist.pending, worklist.statistics.scheduledBlocks);
      FactsUpdate(c, incoming, b, entry);
      FactsUpdate(c, outgoing, b, exit);
      LeftIs(f, order, HeldFacts(c, incoming), HeldFacts(c, outgoing));
      incoming := incoming[b := entry];
      outgoing := outgoing[b := exit];
      LeftIs(f, order, HeldFacts(c, incoming), HeldFacts(c, outgoing));
    }
  }

  /** Forward worklist iteration over N blocks, E edges and H handles, each with five state bits:
      at most N + 10 H E evaluations. */
  method ComputeFixedPoint(f: Function, flow: CF.Result, c: Catalog, initial: Packed)
    returns (incoming: FactMap, outgoing: FactMap, statistics: Statistics)
    requires Catalogues(c, f) && Fits(c, initial) && FactsIn(c, initial) == InitialFacts(f)
    requires CF.Describes(ControlFlowFor(f), flow)
    ensures incoming.Keys == outgoing.Keys == Reachables(ControlFlowFor(f)) && Sized(c, incoming) && Sized(c, outgoing)
    ensures IsFlow(Ownership(f), HeldFacts(c, incoming), HeldFacts(c, outgoing))
    ensures statistics.blockEvaluations == statistics.scheduledBlocks
    ensures statistics.blockEvaluations <=
      |flow.preorder| + 10 * |Handles(f)| * EdgeCount(ControlFlowFor(f), flow.preorder, Forward)
  {
    ghost var g := ControlFlowFor(f);
    ghost var p := Ownership(f);
    hide State, Initially, CF.Describes, CF.Reachable, Room, IsFlow, Successors, Predecessors, Propagation,
        FactEdges, EdgeCount, Every,
         Sized, Fits, FactsIn, HeldFacts, EnqueueAll, Targets, Distinct, Reachables, Ownership, Left, Catalog.Valid,
             Handles, InitialFacts;
    SeededFor(g, flow, Forward);
    SeededFor(g, flow, Backward);
    EveryBlockWaits(g, flow);
    PropagationIs(g);
    OwnershipIsWellPosed(f);
    OwnershipGraph(f);
    EveryCounts(Handles(f));
    var order := flow.preorder;
    incoming := EmptyFacts(f, order, c);
    outgoing := incoming;
    EmptyIsInitial(f, c, incoming);
    var edges := FactEdges(flow.facts, false);
    var worklist := new DataflowWorklist(flow, Forward);
    StateStarts(p, order, HeldFacts(c, incoming), HeldFacts(c, outgoing), worklist.pending,
        worklist.statistics.scheduledBlocks);
    while worklist.pending != []
      invariant worklist.Valid() && fresh(worklist)
      invariant Driving(g, flow, worklist)
      invariant Sized(c, incoming) && Sized(c, outgoing)
      invariant State(p, order, HeldFacts(c, incoming), HeldFacts(c, outgoing), worklist.pending,
        worklist.statistics.scheduledBlocks)
      decreases Left(f, order, HeldFacts(c, incoming), HeldFacts(c, outgoing)), |worklist.pending|
    {
      incoming, outgoing := Step(f, flow, c, edges, initial, order, worklist, incoming, outgoing);
    }
    StateFacts(p, order, HeldFacts(c, incoming), HeldFacts(c, outgoing), [], worklist.statistics.scheduledBlocks);
    FactsKeys(c, incoming);
    FactsKeys(c, outgoing);
    StateEnds(p, order, HeldFacts(c, incoming), HeldFacts(c, outgoing), worklist.statistics.scheduledBlocks);
    TenTimes(|Handles(f)|, EdgeCount(g, order, Forward));
    statistics := worklist.statistics;
  }

  lemma TenTimes(h: nat, e: nat)
    ensures 2 * (5 * h) * e == 10 * h * e
  {
  }

  // ---------------------------------------------------------------------------
  // Validation and facts

  method AppendControlFlowIssues(f: Function, flow: CF.Result) returns (issues: seq<Issue>)
    ensures issues == AllLocated(f, flow.issues)
  {
    issues := [];
    for i := 0 to |flow.issues|
      invariant issues == AllLocated(f, flow.issues[..i])
    {
      var issue := flow.issues[i];
      var instruction, terminator := 0, false;
      if issue.kind == CF.MissingTarget {
        if issue.block in BlockIds(f) {
          instruction := |ActionsOf(f, issue.block)|;
        }
        terminator := true;
      }
      assert flow.issues[..i + 1][..i] == flow.issues[..i];
      issues := issues + [Issue(KindOf(issue.kind), issue.block, instruction, terminator, 0, StrongKind, {Absent})];
    }
    assert flow.issues[..|flow.issues|] == flow.issues;
  }

  method ValidateRequirement(action: Action, b: BlockId, actual: StateMask, issues: seq<Issue>)
      returns (issues': seq<Issue>)
    ensures issues' == issues + match Verdict(action.expected, actual)
      case None => []
      case Some(kind) => [Issue(kind, b, action.instruction, action.terminator, action.handle, action.expected, actual)]
  {
    issues' := issues;
    var verdict := Verdict(action.expected, actual);
    if verdict.Some? {
      issues' := issues' + [Issue(verdict.value, b, action.instruction, action.terminator, action.handle,
          action.expected, actual)];
    }
  }

  method ValidateAction(action: Action, b: BlockId, c: Catalog, state: PackedState, issues: seq<Issue>)
      returns (issues': seq<Issue>)
    requires c.Valid() && Fits(c, state.Value()) && 0 !in c.indices
      && (action.handle != 0 ==> action.handle in c.indices)
    modifies state
    ensures Fits(c, state.Value())
    ensures FactsIn(c, state.Value()) == ActOnFacts(action, old(FactsIn(c, state.Value())))
    ensures issues' == issues + ActionIssues(b, action, old(FactsIn(c, state.Value())))
  {
    hide FactsIn, Verdict, ActOnFacts;
    issues' := issues;
    if action.handle == 0 {
      issues' := issues' + [Issue(InvalidActionHandle, b, action.instruction, action.terminator, 0, action.expected,
          {Absent})];
      ActedFacts(c, action, state.Value(), state.Value());
      return;
    }
    if action.kind == Observe || action.kind == Consume {
      var actual := state.At(c.indices[action.handle]);
      issues' := ValidateRequirement(action, b, actual, issues');
    }
    Apply(action, c, state);
  }

  method ValidateBlock(f: Function, b: BlockId, c: Catalog, incoming: Packed, issues: seq<Issue>)
      returns (issues': seq<Issue>)
    requires Covers(c, ActionsOf(f, b)) && Fits(c, incoming)
    ensures issues' == issues + BlockIssues(b, ActionsOf(f, b), FactsIn(c, incoming))
  {
    hide FactsIn, Fits, Catalog.Valid, ActionsOf, ActionIssues, ActOnFacts;
    var actions := ActionsOf(f, b);
    var state := new PackedState.Copy(incoming);
    issues' := issues;
    assert actions[..0] == [];
    for i := 0 to |actions|
      invariant fresh(state) && Fits(c, state.Value())
      invariant FactsIn(c, state.Value()) == ActAllOnFacts(actions[..i], FactsIn(c, incoming))
      invariant issues' == issues + BlockIssues(b, actions[..i], FactsIn(c, incoming))
    {
      assert actions[..i + 1][..i] == actions[..i];
      ActAllOnFactsPrefix(actions, i, FactsIn(c, incoming));
      issues' := ValidateAction(actions[i], b, c, state, issues');
    }
    assert actions[..|actions|] == actions;
  }

  method ValidateActions(f: Function, preorder: seq<BlockId>, c: Catalog, incoming: FactMap, issues: seq<Issue>)
      returns (issues': seq<Issue>)
    requires Catalogues(c, f) && Sized(c, incoming) && incoming.Keys == Elements(preorder)
    ensures issues' == issues + FlowIssues(f, preorder, HeldFacts(c, incoming))
  {
    hide FactsIn, Fits, ActionsOf, BlockIssues, HeldFacts, Handles, Covers;
    issues' := issues;
    for i := 0 to |preorder|
      invariant issues' == issues + FlowIssues(f, preorder[..i], HeldFacts(c, incoming))
    {
      var b := preorder[i];
      assert b in Elements(preorder);
      assert preorder[..i + 1][..i] == preorder[..i];
      FactsAt(c, incoming, b);
      CoversBlock(c, f, b);
      issues' := ValidateBlock(f, b, c, incoming[b], issues');
    }
    assert preorder[..|preorder|] == preorder;
  }

  datatype HandleFact = HandleFact(handle: Identity, states: StateMask)

  datatype BlockFacts = BlockFacts(block: BlockId, reachable: bool, incoming: seq<HandleFact>,
      outgoing: seq<HandleFact>)

  datatype Result = Result(facts: seq<BlockFacts>, issues: seq<Issue>, statistics: Statistics)

  /** One entry a handle in ascending order; a handle without a state counts as absent. */
  ghost predicate Shows(f: Function, facts: seq<HandleFact>, s: set<Held>) {
    && (forall i, j :: 0 <= i < j < |facts| ==> facts[i].handle < facts[j].handle)
    && (forall h :: h in Handles(f) <==> exists i :: 0 <= i < |facts| && facts[i].handle == h)
    && (forall i :: 0 <= i < |facts| ==>
          facts[i].states == if Mask(s, facts[i].handle) == {} then {Absent} else Mask(s, facts[i].handle))
  }

  method VisibleFacts(f: Function, c: Catalog, states: Packed) returns (facts: seq<HandleFact>)
    requires Catalogues(c, f) && Fits(c, states)
    ensures Shows(f, facts, FactsIn(c, states))
  {
    hide FactsIn, Handles, MaskOf;
    var packed := new PackedState.Copy(states);
    facts := [];
    for i := 0 to |c.storage|
      invariant packed.Value() == states
      invariant |facts| == i
      invariant forall k :: 0 <= k < i ==>
        facts[k].handle == c.storage[k] && facts[k].states == if MaskOf(states, k) == {} then {Absent}
            else MaskOf(states, k)
    {
      var state := packed.At(i);
      facts := facts + [HandleFact(c.storage[i], if state == {} then {Absent} else state)];
    }
    ShowsCatalogue(f, c, states, facts);
  }

  lemma ShowsCatalogue(f: Function, c: Catalog, states: Packed, facts: seq<HandleFact>)
    requires Catalogues(c, f) && Fits(c, states) && |facts| == |c.storage|
    requires forall k :: 0 <= k < |facts| ==>
      facts[k].handle == c.storage[k] && facts[k].states == if MaskOf(states, k) == {} then {Absent}
          else MaskOf(states, k)
    ensures Shows(f, facts, FactsIn(c, states))
  {
    ListsHandles(f, c, facts);
    CatalogueAscends(f, c);
    forall i | 0 <= i < |facts|
      ensures Mask(FactsIn(c, states), facts[i].handle) == MaskOf(states, i)
    {
      MaskAt(f, c, states, i);
    }
    hide FactsIn, Handles, Mask, MaskOf, Catalogues, Fits;
    assert Shows(f, facts, FactsIn(c, states));
  }

  lemma CatalogueAscends(f: Function, c: Catalog)
    requires Catalogues(c, f)
    ensures forall i, j :: 0 <= i < j < |c.storage| ==> c.storage[i] < c.storage[j]
  {
    hide Handles;
  }

  lemma MaskAt(f: Function, c: Catalog, states: Packed, i: nat)
    requires Catalogues(c, f) && Fits(c, states) && i < |c.storage|
    ensures Mask(FactsIn(c, states), c.storage[i]) == MaskOf(states, i)
  {
    hide FactsIn, Handles, MaskOf;
    PositionIs(c, c.storage[i], i);
  }

  /** The facts are those of the handles of the function, one each. */
  lemma ListsHandles(f: Function, c: Catalog, facts: seq<HandleFact>)
    requires Catalogues(c, f) && |facts| == |c.storage| && forall k :: 0 <= k < |facts| ==>
      facts[k].handle == c.storage[k]
    ensures forall h :: h in Handles(f) <==> exists i :: 0 <= i < |facts| && facts[i].handle == h
  {
    hide Handles;
    forall h | h in Handles(f)
      ensures exists i :: 0 <= i < |facts| && facts[i].handle == h
    {
      assert h in Elements(c.storage);
      var i :| 0 <= i < |c.storage| && c.storage[i] == h;
      assert facts[i].handle == h;
    }
    forall i | 0 <= i < |facts|
      ensures facts[i].handle in Handles(f)
    {
      assert c.storage[i] in Elements(c.storage);
    }
  }

  /** The states a block that cannot execute is shown with: every handle absent. */
  ghost predicate FactDescribes(f: Function, incoming: Facts<Held>, outgoing: Facts<Held>, fact: BlockFacts) {
    && (fact.reachable <==> fact.block in Reachables(ControlFlowFor(f)))
    && Shows(f, fact.incoming, if fact.reachable then ForwardFlow.At(incoming, fact.block) else {})
    && Shows(f, fact.outgoing, if fact.reachable then ForwardFlow.At(outgoing, fact.block) else {})
  }

  method BuildFact(f: Function, c: Catalog, incoming: FactMap, outgoing: FactMap, unreachable: Packed, b: BlockId,
      reachable: bool)
    returns (fact: BlockFacts)
    requires Catalogues(c, f) && Sized(c, incoming) && Sized(c, outgoing)
    requires incoming.Keys == outgoing.Keys == Reachables(ControlFlowFor(f))
    requires reachable <==> b in Reachables(ControlFlowFor(f))
    requires Fits(c, unreachable) && forall i: nat :: i < |c.storage| ==> MaskOf(unreachable, i) == {Absent}
    ensures fact.block == b && FactDescribes(f, HeldFacts(c, incoming), HeldFacts(c, outgoing), fact)
  {
    hide FactsIn, Fits, CF.Reachable, Reachables, HeldFacts, Handles, MaskOf, Shows;
    if reachable {
      FactsAt(c, incoming, b);
      FactsAt(c, outgoing, b);
      var entry := VisibleFacts(f, c, incoming[b]);
      var exit := VisibleFacts(f, c, outgoing[b]);
      fact := BlockFacts(b, true, entry, exit);
    } else {
      var shown := VisibleFacts(f, c, unreachable);
      ShowsAbsent(f, c, unreachable, shown);
      fact := BlockFacts(b, false, shown, shown);
    }
  }

  lemma ShowsAbsent(f: Function, c: Catalog, unreachable: Packed, shown: seq<HandleFact>)
    requires Catalogues(c, f) && Fits(c, unreachable) && forall i: nat :: i < |c.storage| ==>
      MaskOf(unreachable, i) == {Absent}
    requires Shows(f, shown, FactsIn(c, unreachable))
    ensures Shows(f, shown, {})
  {
    hide FactsIn, Handles, MaskOf;
    forall i | 0 <= i < |shown|
      ensures shown[i].states == {Absent} && Mask({}, shown[i].handle) == {}
    {
      assert shown[i].handle in Elements(c.storage);
      assert shown[i].handle in c.indices;
    }
  }

  method BuildFacts(f: Function, flow: CF.Result, c: Catalog, incoming: FactMap, outgoing: FactMap)
      returns (facts: seq<BlockFacts>)
    requires Catalogues(c, f) && Sized(c, incoming) && Sized(c, outgoing)
    requires CF.Describes(ControlFlowFor(f), flow)
    requires incoming.Keys == outgoing.Keys == Reachables(ControlFlowFor(f))
    ensures |facts| == |flow.facts|
    ensures forall i :: 0 <= i < |facts| ==>
      facts[i].block == flow.facts[i].block
          && FactDescribes(f, HeldFacts(c, incoming), HeldFacts(c, outgoing), facts[i])
  {
    hide FactsIn, CF.Reachable, Reachables, HeldFacts, Handles, MaskOf, FactDescribes, CF.Describes, Sized;
    var unreachable := new PackedState(|c.storage|, {Absent});
    var absent := unreachable.Value();
    facts := [];
    for n := 0 to |flow.facts|
      invariant |facts| == n
      invariant forall i :: 0 <= i < n ==>
        facts[i].block == flow.facts[i].block
            && FactDescribes(f, HeldFacts(c, incoming), HeldFacts(c, outgoing), facts[i])
    {
      RecordReachable(ControlFlowFor(f), flow, n);
      var fact := BuildFact(f, c, incoming, outgoing, absent, flow.facts[n].block, flow.facts[n].reachable);
      facts := facts + [fact];
    }
  }

  /** One record a block in ascending order, or none where they are not asked for. */
  ghost predicate FactsDescribe(f: Function, incoming: Facts<Held>, outgoing: Facts<Held>, materializeFacts: bool,
      facts: seq<BlockFacts>) {
    var blocks := ToVector(CF.IdSet(ControlFlowFor(f)));
    if !materializeFacts then facts == []
    else
      |facts| == |blocks| && forall i :: 0 <= i < |facts| ==>
        facts[i].block == blocks[i] && FactDescribes(f, incoming, outgoing, facts[i])
  }

  method MaterializedFacts(f: Function, flow: CF.Result, c: Catalog, incoming: FactMap, outgoing: FactMap,
      materializeFacts: bool)
    returns (facts: seq<BlockFacts>)
    requires Catalogues(c, f) && Sized(c, incoming) && Sized(c, outgoing)
    requires CF.Describes(ControlFlowFor(f), flow)
    requires incoming.Keys == outgoing.Keys == Reachables(ControlFlowFor(f))
    ensures FactsDescribe(f, HeldFacts(c, incoming), HeldFacts(c, outgoing), materializeFacts, facts)
  {
    hide CF.Describes, CF.Reachable, CF.IdSet, Reachables, ToVector, FactDescribes, HeldFacts, Sized, Catalog.Valid;
    facts := [];
    if materializeFacts {
      facts := BuildFacts(f, flow, c, incoming, outgoing);
      FactsInOrder(ControlFlowFor(f), flow);
    }
  }

  /** The whole analysis. The two ghost results are the facts around each block. */
  method Analyze(f: Function, materializeFacts: bool)
    returns (result: Result, ghost order: seq<BlockId>, ghost incoming: Facts<Held>, ghost outgoing: Facts<Held>)
    ensures order == CF.VisitOrder(ControlFlowFor(f)) && Distinct(order)
      && Elements(order) == Reachables(ControlFlowFor(f))
    ensures IsFlow(Ownership(f), incoming, outgoing)
    ensures result.issues == AllIssues(f, order, incoming)
    ensures FactsDescribe(f, incoming, outgoing, materializeFacts, result.facts)
    ensures result.statistics.blockEvaluations == result.statistics.scheduledBlocks
    ensures result.statistics.blockEvaluations <= |order|
      + 10 * |Handles(f)| * EdgeCount(ControlFlowFor(f), order, Forward)
  {
    hide FactsDescribe, CF.VisitOrder, Distinct, CF.Describes, CF.OrdersDescribe, CF.FactsDescribe, CF.Issues,
        IsFlow, EdgeCount, FactDescribes, FactsIn, Fits, Catalog.Valid, HeldFacts,
         Sized, AllLocated, InitialIssues, FlowIssues, CF.Reachable, Reachables, Handles, Ownership, InitialFacts;
    var flow := CF.AnalyzeControlFlow(ControlFlowFor(f));
    var located := AppendControlFlowIssues(f, flow);
    var c := BuildHandleCatalog(f);
    var initial, known := InitialState(f, c, located);
    var entries, exits, statistics := ComputeFixedPoint(f, flow, c, initial);
    SeededFor(ControlFlowFor(f), flow, Forward);
    var issues := ValidateActions(f, flow.preorder, c, entries, known);
    var facts := MaterializedFacts(f, flow, c, entries, exits, materializeFacts);
    FactsInOrder(ControlFlowFor(f), flow);
    order, incoming, outgoing := flow.preorder, HeldFacts(c, entries), HeldFacts(c, exits);
    result := Result(facts, issues, statistics);
  }
}
