/** Ownership flow: the actions of a function, the ownership states a handle goes through along
    a path, the diagnostics, and when the masks of the analysis are exact. */
module OwnershipTheory {
  import opened Graphs
  import opened DenseBits
  import opened ReachableGraph
  import opened ForwardFlow
  import CF = ControlFlow

  datatype HandleKind = StrongKind | WeakKind | UnownedKind

  datatype ActionKind = Observe | Consume | Define | Forget

  datatype Action = Action(
    kind: ActionKind,
    handle: Identity,
    expected: HandleKind,
    instruction: nat,
    terminator: bool)

  datatype Block = Block(id: BlockId, successors: seq<BlockId>, actions: seq<Action>)

  datatype InitialHandle = InitialHandle(handle: Identity, kind: HandleKind)

  datatype Function = Function(entry: BlockId, initialHandles: seq<InitialHandle>, blocks: seq<Block>)

  /** The ownership state of one handle at one point of one execution. */
  datatype Token = Absent | Strong | Weak | Unowned | Consumed

  /** A mask is the set of its state bits. */
  type StateMask = set<Token>

  function StateFor(kind: HandleKind): Token {
    match kind
    case StrongKind => Strong
    case WeakKind => Weak
    case UnownedKind => Unowned
  }

  function ControlFlowFor(f: Function): CF.Graph {
    CF.Graph(f.entry, seq(|f.blocks|, i requires 0 <= i < |f.blocks| => CF.Block(f.blocks[i].id,
        f.blocks[i].successors)))
  }

  function BlockIds(f: Function): seq<BlockId> {
    seq(|f.blocks|, i requires 0 <= i < |f.blocks| => f.blocks[i].id)
  }

  /** The actions of the first record of a block. */
  function ActionsOf(f: Function, b: BlockId): seq<Action> {
    if b in BlockIds(f) then f.blocks[FirstIndex(BlockIds(f), b)].actions else []
  }

  // ---------------------------------------------------------------------------
  // One execution

  /** What an action does to the state of handle h. */
  function Act(a: Action, h: Identity, t: Token): Token {
    if a.handle != h then t else
    match a.kind
    case Observe => t
    case Consume => if t == StateFor(a.expected) then Consumed else t
    case Define => StateFor(a.expected)
    case Forget => Absent
  }

  function ActAll(actions: seq<Action>, h: Identity, t: Token): Token {
    if actions == [] then t else ActAll(actions[1..], h, Act(actions[0], h, t))
  }

  /** The state of h when the last block of a path is entered. */
  function TokenAt(f: Function, path: seq<BlockId>, h: Identity, t: Token): Token
    requires path != []
  {
    if |path| == 1 then t
    else ActAll(ActionsOf(f, path[|path| - 2]), h, TokenAt(f, path[..|path| - 1], h, t))
  }

  /** The states the caller may leave h in: the kinds it lists for h, or absent. */
  function Given(initial: seq<InitialHandle>, h: Identity): StateMask {
    if initial == [] then {}
    else
      var k := |initial| - 1;
      Given(initial[..k], h) + if initial[k].handle == h then {StateFor(initial[k].kind)} else {}
  }

  function InitialMask(initial: seq<InitialHandle>, h: Identity): StateMask {
    if Given(initial, h) == {} then {Absent} else Given(initial, h)
  }

  /** One more kind for a handle: the first replaces absence. */
  function WithKind(mask: StateMask, kind: HandleKind): StateMask {
    (if mask == {Absent} then {} else mask) + {StateFor(kind)}
  }

  // ---------------------------------------------------------------------------
  // The facts of all executions together

  datatype Held = Held(handle: Identity, token: Token)

  function AllTokens(): (s: StateMask)
    ensures forall t :: t in s
  {
    set t: Token | t.Absent? || !t.Absent?
  }

  function HeldBy(h: Identity, mask: StateMask): (s: set<Held>)
    ensures forall x :: x in s <==> x.handle == h && x.token in mask
  {
    set t | t in mask :: Held(h, t)
  }

  function Every(handles: set<Identity>): (s: set<Held>)
    ensures forall x :: x in s <==> x.handle in handles
  {
    set h, t | h in handles && t in AllTokens() :: Held(h, t)
  }

  function Mask(s: set<Held>, h: Identity): (m: StateMask)
    ensures forall t :: t in m <==> Held(h, t) in s
  {
    set x | x in s && x.handle == h :: x.token
  }

  /** What an action does to the mask of its handle. */
  function ActOn(a: Action, mask: StateMask): StateMask {
    var e := StateFor(a.expected);
    match a.kind
    case Observe => mask
    case Consume => if e in mask then mask - {e} + {Consumed} else mask
    case Define => {e}
    case Forget => {Absent}
  }

  function ActOnFacts(a: Action, s: set<Held>): (r: set<Held>)
    ensures forall h :: h != a.handle || a.handle == 0 ==> Mask(r, h) == Mask(s, h)
    ensures a.handle != 0 ==> Mask(r, a.handle) == ActOn(a, Mask(s, a.handle))
  {
    if a.handle == 0 then s
    else
      var r := (s - HeldBy(a.handle, AllTokens())) + HeldBy(a.handle, ActOn(a, Mask(s, a.handle)));
      assert forall h, t :: h != a.handle ==> (Held(h, t) in r <==> Held(h, t) in s);
      assert forall t :: Held(a.handle, t) in r <==> t in ActOn(a, Mask(s, a.handle));
      r
  }

  function ActAllOnFacts(actions: seq<Action>, s: set<Held>): set<Held> {
    if actions == [] then s else ActAllOnFacts(actions[1..], ActOnFacts(actions[0], s))
  }

  function MentionedIn(actions: seq<Action>): set<Identity> {
    set i | 0 <= i < |actions| && actions[i].handle != 0 :: actions[i].handle
  }

  /** Every handle the function mentions; zero is no handle. */
  function Handles(f: Function): set<Identity> {
    (set i | 0 <= i < |f.initialHandles| && f.initialHandles[i].handle != 0 :: f.initialHandles[i].handle)
    + (set i, h | 0 <= i < |f.blocks| && h in MentionedIn(f.blocks[i].actions) :: h)
  }

  function InitialFacts(f: Function): (s: set<Held>)
    ensures forall x :: x in s <==> x.handle in Handles(f) && x.token in InitialMask(f.initialHandles, x.handle)
  {
    set x | x in Every(Handles(f)) && x.token in InitialMask(f.initialHandles, x.handle)
  }

  ghost function Ownership(f: Function): Problem<Held> {
    Problem(ControlFlowFor(f), InitialFacts(f), (b: BlockId, s: set<Held>) => ActAllOnFacts(ActionsOf(f, b), s),
        Every(Handles(f)))
  }

  lemma SameMasks(s: set<Held>, r: set<Held>)
    requires forall h :: Mask(s, h) <= Mask(r, h)
    ensures s <= r
  {
    forall x | x in s
      ensures x in r
    {
      assert x == Held(x.handle, x.token) && x.token in Mask(s, x.handle);
    }
  }

  lemma ActMonotone(a: Action, s: set<Held>, r: set<Held>)
    requires s <= r
    ensures ActOnFacts(a, s) <= ActOnFacts(a, r)
  {
    forall h
      ensures Mask(ActOnFacts(a, s), h) <= Mask(ActOnFacts(a, r), h)
    {
      assert Mask(s, h) <= Mask(r, h);
    }
    SameMasks(ActOnFacts(a, s), ActOnFacts(a, r));
  }

  lemma {:induction false} ActAllMonotone(actions: seq<Action>, s: set<Held>, r: set<Held>)
    requires s <= r
    ensures ActAllOnFacts(actions, s) <= ActAllOnFacts(actions, r)
    decreases |actions|
  {
    if actions != [] {
      ActMonotone(actions[0], s, r);
      ActAllMonotone(actions[1..], ActOnFacts(actions[0], s), ActOnFacts(actions[0], r));
    }
  }

  /** A fact after an action comes from one fact before it, or from none. */
  lemma ActHasReason(a: Action, s: set<Held>, x: Held)
    requires x in ActOnFacts(a, s)
    ensures x in ActOnFacts(a, {}) || exists y :: y in s && x in ActOnFacts(a, {y})
  {
    hide ActOnFacts;
    var t := x.token;
    assert x == Held(x.handle, t) && t in Mask(ActOnFacts(a, s), x.handle);
    if t in Mask(ActOnFacts(a, {}), x.handle) {
    } else if x in s && t in Mask(ActOnFacts(a, {x}), x.handle) {
    } else {
      var y := Held(a.handle, StateFor(a.expected));
      assert y in s;
      assert Mask({y}, a.handle) == {StateFor(a.expected)};
      assert t in Mask(ActOnFacts(a, {y}), x.handle);
    }
  }

  lemma {:induction false} ActAllHasReason(actions: seq<Action>, s: set<Held>, x: Held)
    requires x in ActAllOnFacts(actions, s)
    ensures x in ActAllOnFacts(actions, {}) || exists y :: y in s && x in ActAllOnFacts(actions, {y})
    decreases |actions|
  {
    hide ActOnFacts;
    if actions == [] {
      assert x in s && x in ActAllOnFacts(actions, {x});
    } else {
      var a, rest := actions[0], actions[1..];
      ActAllHasReason(rest, ActOnFacts(a, s), x);
      if x in ActAllOnFacts(rest, {}) {
        ActAllMonotone(rest, {}, ActOnFacts(a, {}));
      } else {
        var z :| z in ActOnFacts(a, s) && x in ActAllOnFacts(rest, {z});
        ActHasReason(a, s, z);
        if z in ActOnFacts(a, {}) {
          ActAllMonotone(rest, {z}, ActOnFacts(a, {}));
        } else {
          var y :| y in s && z in ActOnFacts(a, {y});
          ActAllMonotone(rest, {z}, ActOnFacts(a, {y}));
          assert y in s && x in ActAllOnFacts(actions, {y});
        }
      }
    }
  }

  lemma {:induction false} ActAllWithin(actions: seq<Action>, handles: set<Identity>, s: set<Held>)
    requires s <= Every(handles) && MentionedIn(actions) <= handles
    ensures ActAllOnFacts(actions, s) <= Every(handles)
    decreases |actions|
  {
    if actions != [] {
      var a, rest := actions[0], actions[1..];
      assert a.handle != 0 ==> a.handle in MentionedIn(actions);
      forall h | h in MentionedIn(rest)
        ensures h in handles
      {
        var i :| 0 <= i < |rest| && rest[i].handle != 0 && rest[i].handle == h;
        assert actions[i + 1].handle in MentionedIn(actions);
      }
      ActAllWithin(rest, handles, ActOnFacts(a, s));
    }
  }

  lemma ActionsAreMentioned(f: Function, b: BlockId)
    ensures MentionedIn(ActionsOf(f, b)) <= Handles(f)
  {
  }

  lemma OwnershipIsMonotone(f: Function)
    ensures Monotone(Ownership(f))
  {
    hide ActAllOnFacts, ActionsOf, Every, InitialFacts;
    var p := Ownership(f);
    forall b, small, large | small <= large
      ensures p.flow(b, small) <= p.flow(b, large)
    {
      ActAllMonotone(ActionsOf(f, b), small, large);
    }
  }

  lemma OwnershipIsDistributive(f: Function)
    ensures Distributive(Ownership(f))
  {
    hide ActAllOnFacts, ActionsOf, Every, InitialFacts;
    var p := Ownership(f);
    forall b, s, x | x in p.flow(b, s)
      ensures x in p.flow(b, {}) || exists y :: y in s && x in p.flow(b, {y})
    {
      ActAllHasReason(ActionsOf(f, b), s, x);
      if y :| y in s && x in ActAllOnFacts(ActionsOf(f, b), {y}) {
        assert x in p.flow(b, {y});
      }
    }
  }

  lemma OwnershipIsWellPosed(f: Function)
    ensures WellPosed(Ownership(f))
  {
    hide ActAllOnFacts, ActionsOf, Handles, Monotone, Distributive, InitialMask;
    OwnershipIsMonotone(f);
    OwnershipIsDistributive(f);
    var p := Ownership(f);
    forall b, s | s <= p.universe
      ensures p.flow(b, s) <= p.universe
    {
      ActionsAreMentioned(f, b);
      ActAllWithin(ActionsOf(f, b), Handles(f), s);
    }
  }

  lemma {:induction false} EveryCounts(handles: set<Identity>)
    ensures |Every(handles)| == 5 * |handles|
  {
    if handles == {} {
      assert Every(handles) == {};
    } else {
      var h :| h in handles;
      var rest := handles - {h};
      EveryCounts(rest);
      OwnCounts(h);
      var own := HeldBy(h, AllTokens());
      assert Every(handles) == Every(rest) + own && Every(rest) * own == {};
      hide Every, HeldBy, AllTokens;
      assert |Every(rest) + own| == |Every(rest)| + |own|;
      assert |handles| == |rest| + 1;
    }
  }

  lemma OwnCounts(h: Identity)
    ensures |HeldBy(h, AllTokens())| == 5
  {
    var own := {Held(h, Absent), Held(h, Strong), Held(h, Weak), Held(h, Unowned), Held(h, Consumed)};
    forall x: Held | x.handle == h
      ensures x in own
    {
      match x.token
      case Absent =>
      case Strong =>
      case Weak =>
      case Unowned =>
      case Consumed =>
    }
    assert HeldBy(h, AllTokens()) == own;
  }

  // ---------------------------------------------------------------------------
  // Masks are the states of all paths

  ghost predicate Becomes(s: set<Held>, h: Identity, actions: seq<Action>, t: Token) {
    exists u :: u in Mask(s, h) && ActAll(actions, h, u) == t
  }

  lemma {:induction false} MaskIsImage(actions: seq<Action>, s: set<Held>, h: Identity, t: Token)
    requires h != 0 && Mask(s, h) != {}
    ensures t in Mask(ActAllOnFacts(actions, s), h) <==> Becomes(s, h, actions, t)
    ensures Mask(ActAllOnFacts(actions, s), h) != {}
    decreases |actions|
  {
    hide ActOnFacts;
    if actions == [] {
      assert Becomes(s, h, actions, t) <==> t in Mask(s, h);
    } else {
      var a, rest := actions[0], actions[1..];
      var after := ActOnFacts(a, s);
      OneActionIsImage(a, s, h);
      MaskIsImage(rest, after, h, t);
      if Becomes(after, h, rest, t) {
        var u :| u in Mask(after, h) && ActAll(rest, h, u) == t;
        var v :| v in Mask(s, h) && Act(a, h, v) == u;
        assert v in Mask(s, h) && ActAll(actions, h, v) == t;
      }
      if Becomes(s, h, actions, t) {
        var v :| v in Mask(s, h) && ActAll(actions, h, v) == t;
        assert Act(a, h, v) in Mask(after, h) && ActAll(rest, h, Act(a, h, v)) == t;
      }
    }
  }

  lemma OneActionIsImage(a: Action, s: set<Held>, h: Identity)
    requires h != 0 && Mask(s, h) != {}
    ensures Mask(ActOnFacts(a, s), h) != {}
    ensures forall v :: v in Mask(s, h) ==> Act(a, h, v) in Mask(ActOnFacts(a, s), h)
    ensures forall u :: u in Mask(ActOnFacts(a, s), h) ==> exists v :: v in Mask(s, h) && Act(a, h, v) == u
  {
    hide ActOnFacts;
    var v :| v in Mask(s, h);
    var e := StateFor(a.expected);
    forall w | w in Mask(s, h)
      ensures Act(a, h, w) in Mask(ActOnFacts(a, s), h)
    {
    }
    assert Act(a, h, v) in Mask(ActOnFacts(a, s), h);
    forall u | u in Mask(ActOnFacts(a, s), h)
      ensures exists w :: w in Mask(s, h) && Act(a, h, w) == u
    {
      if a.handle != h || a.kind == Observe {
        assert Act(a, h, u) == u;
      } else if a.kind == Consume {
        if u in Mask(s, h) && u != e {
          assert Act(a, h, u) == u;
        } else {
          assert e in Mask(s, h) && Act(a, h, e) == u;
        }
      } else {
        assert Act(a, h, v) == u;
      }
    }
  }

  /** Some start state of h leads to state t along the path. */
  ghost predicate Reached(f: Function, path: seq<BlockId>, h: Identity, t: Token)
    requires path != []
  {
    exists u :: u in InitialMask(f.initialHandles, h) && TokenAt(f, path, h, u) == t
  }

  lemma {:induction false} AlongIsReached(f: Function, path: seq<BlockId>, h: Identity, t: Token)
    requires path != [] && path[0] == f.entry && h in Handles(f) && h != 0
    ensures t in Mask(Along(Ownership(f), path), h) <==> Reached(f, path, h, t)
    ensures Mask(Along(Ownership(f), path), h) != {}
    decreases |path|
  {
    hide ActAll, ActAllOnFacts, ActionsOf, Handles, InitialMask;
    if |path| == 1 {
      InitialMaskIsInhabited(f.initialHandles, h);
      assert Mask(InitialFacts(f), h) == InitialMask(f.initialHandles, h);
      assert Reached(f, path, h, t) <==> t in InitialMask(f.initialHandles, h);
    } else {
      var shorter, q := path[..|path| - 1], path[|path| - 2];
      var before := Along(Ownership(f), shorter);
      AlongIsReached(f, shorter, h, t);
      forall u
        ensures u in Mask(before, h) <==> Reached(f, shorter, h, u)
      {
        AlongIsReached(f, shorter, h, u);
      }
      MaskIsImage(ActionsOf(f, q), before, h, t);
      assert Along(Ownership(f), path) == ActAllOnFacts(ActionsOf(f, q), before);
      ReachedExtends(f, path, shorter, q, h, t);
    }
  }

  lemma InitialMaskIsInhabited(initial: seq<InitialHandle>, h: Identity)
    ensures InitialMask(initial, h) != {}
  {
    if Given(initial, h) != {} {
      var t :| t in Given(initial, h);
    } else {
      assert Absent in InitialMask(initial, h);
    }
  }

  lemma ReachedExtends(f: Function, path: seq<BlockId>, shorter: seq<BlockId>, q: BlockId, h: Identity, t: Token)
    requires |path| > 1 && shorter == path[..|path| - 1] && q == path[|path| - 2]
    ensures Reached(f, path, h, t) <==> exists u :: Reached(f, shorter, h, u) && ActAll(ActionsOf(f, q), h, u) == t
  {
    hide ActAll, ActionsOf, InitialMask;
    if Reached(f, path, h, t) {
      var v :| v in InitialMask(f.initialHandles, h) && TokenAt(f, path, h, v) == t;
      assert Reached(f, shorter, h, TokenAt(f, shorter, h, v));
    }
    if u :| Reached(f, shorter, h, u) && ActAll(ActionsOf(f, q), h, u) == t {
      var v :| v in InitialMask(f.initialHandles, h) && TokenAt(f, shorter, h, v) == u;
      assert TokenAt(f, path, h, v) == t;
    }
  }

  /** A path that starts later establishes no more than one that starts at the entry. */
  lemma {:induction false} LaterStartEstablishesLess(f: Function, track: seq<BlockId>, path: seq<BlockId>)
    requires track != [] && path != [] && track[|track| - 1] == path[0] && path[0] != f.entry
    ensures Along(Ownership(f), path) <= Along(Ownership(f), track + path[1..])
    decreases |path|
  {
    hide ActAllOnFacts, ActionsOf, InitialFacts, Every;
    if |path| == 1 {
      assert track + path[1..] == track;
    } else {
      var whole := track + path[1..];
      var shorter := path[..|path| - 1];
      LaterStartEstablishesLess(f, track, shorter);
      assert shorter[1..] == path[1..|path| - 1];
      assert whole[..|whole| - 1] == track + shorter[1..];
      assert whole[|whole| - 2] == path[|path| - 2];
      ActAllMonotone(ActionsOf(f, path[|path| - 2]), Along(Ownership(f), shorter),
          Along(Ownership(f), track + shorter[1..]));
    }
  }

  /** Handle h can be in state t when b is entered for the first time since the entry. */
  ghost predicate MayHold(f: Function, b: BlockId, h: Identity, t: Token) {
    exists path: seq<BlockId> :: Tracks(ControlFlowFor(f), path) && path[0] == f.entry && path[|path| - 1] == b
        && Reached(f, path, h, t)
  }

  lemma TraceIsHeld(f: Function, b: BlockId, h: Identity, t: Token)
    requires h in Handles(f) && h != 0
    ensures Trace(Ownership(f), b, Held(h, t)) <==> MayHold(f, b, h, t)
  {
    hide Along, Successors, CF.Reachable, Reachables, Reached, Handles;
    var g := ControlFlowFor(f);
    if Trace(Ownership(f), b, Held(h, t)) {
      var path: seq<BlockId> :| Tracks(g, path) && path[|path| - 1] == b && Held(h, t) in Along(Ownership(f), path);
      var whole := FromEntry(f, path);
      AlongIsReached(f, whole, h, t);
    }
    if MayHold(f, b, h, t) {
      var path: seq<BlockId> :| Tracks(g, path) && path[0] == f.entry && path[|path| - 1] == b
          && Reached(f, path, h, t);
      AlongIsReached(f, path, h, t);
    }
  }

  /** Any tracked path, completed back to the entry. */
  lemma FromEntry(f: Function, path: seq<BlockId>) returns (whole: seq<BlockId>)
    requires path != [] && Tracks(ControlFlowFor(f), path)
    ensures whole != [] && Tracks(ControlFlowFor(f), whole) && whole[0] == f.entry
      && whole[|whole| - 1] == path[|path| - 1]
    ensures Along(Ownership(f), path) <= Along(Ownership(f), whole)
  {
    hide Along, Successors, CF.Reachable, Reachables;
    if path[0] == f.entry {
      whole := path;
    } else {
      var g := ControlFlowFor(f);
      var track := HasTrack(g, path[0]);
      whole := track + path[1..];
      LaterStartEstablishesLess(f, track, path);
      JoinPaths(Successors(g), track, path, f.entry, path[0], path[|path| - 1]);
    }
  }

  /** The mask of a handle on entry to a block is the set of the states some path leaves it in. */
  lemma MaskIsExact(f: Function, incoming: Facts<Held>, outgoing: Facts<Held>, b: BlockId, h: Identity, t: Token)
    requires IsFlow(Ownership(f), incoming, outgoing)
    requires b in Reachables(ControlFlowFor(f)) && h in Handles(f) && h != 0
    ensures t in Mask(At(incoming, b), h) <==> MayHold(f, b, h, t)
    ensures Mask(At(incoming, b), h) != {}
  {
    hide Solved, Trace, MayHold, CF.Reachable, Reachables, Handles;
    TraceIsHeld(f, b, h, t);
    MaskIsInhabited(f, incoming, outgoing, b, h);
  }

  lemma MaskIsInhabited(f: Function, incoming: Facts<Held>, outgoing: Facts<Held>, b: BlockId, h: Identity)
    requires IsFlow(Ownership(f), incoming, outgoing)
    requires b in Reachables(ControlFlowFor(f)) && h in Handles(f) && h != 0
    ensures Mask(At(incoming, b), h) != {}
  {
    hide Solved, CF.Reachable, Reachables, Handles, Along, Tracks;
    var track := HasTrack(ControlFlowFor(f), b);
    AlongIsReached(f, track, h, Absent);
    var t :| t in Mask(Along(Ownership(f), track), h);
    assert Trace(Ownership(f), b, Held(h, t));
    assert t in Mask(At(incoming, b), h);
  }

  lemma HandlesAreNotZero(f: Function)
    ensures 0 !in Handles(f)
  {
  }
}
