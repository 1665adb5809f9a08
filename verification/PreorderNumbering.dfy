/** The block numbering of the parity check (Talac/Fuzzing/CorePrepParity.cpp): a pending stack
    that follows the true edge before the false edge numbers two graphs alike exactly when they
    are isomorphic with matching edge roles. */
module PreorderNumbering {
  import opened Graphs
  import DepthFirst

  /** What a target becomes that names no numbered block. */
  const DANGLING: nat := 0xffffffff

  function Reversed(s: seq<BlockId>): (r: seq<BlockId>)
    ensures |r| == |s| && forall i :: 0 <= i < |s| ==> r[i] == s[|s| - 1 - i]
  {
    if s == [] then [] else Reversed(s[1..]) + [s[0]]
  }

  /** The walk from a pending stack, whose top is its last element, after the blocks in order were
      numbered. */
  function Walk(e: EdgeMap, pending: seq<BlockId>, order: seq<BlockId>): seq<BlockId>
    decreases |e.Keys - Elements(order)|, |pending|
  {
    if pending == [] then order
    else
      var id, rest := pending[|pending| - 1], pending[..|pending| - 1];
      if id !in e || id in order then Walk(e, rest, order)
      else
        Fewer(e, order, id);
        Walk(e, rest + Reversed(e[id]), order + [id])
  }

  lemma Fewer(e: EdgeMap, order: seq<BlockId>, id: BlockId)
    requires id in e && id !in order
    ensures |e.Keys - Elements(order + [id])| < |e.Keys - Elements(order)|
  {
    var before, after := e.Keys - Elements(order), e.Keys - Elements(order + [id]);
    assert before == after + {id} && id !in after;
  }

  function Numbering(e: EdgeMap, entry: BlockId): seq<BlockId> {
    Walk(e, [entry], [])
  }

  function Target(order: seq<BlockId>, t: BlockId): nat {
    if t in order then FirstIndex(order, t) else DANGLING
  }

  function TargetList(order: seq<BlockId>, targets: seq<BlockId>): seq<nat> {
    seq(|targets|, k requires 0 <= k < |targets| => Target(order, targets[k]))
  }

  /** The exits of the numbered blocks, by number. */
  function CanonicalExits(e: EdgeMap, order: seq<BlockId>): seq<seq<nat>> {
    seq(|order|, i requires 0 <= i < |order| => TargetList(order, Targets(e, order[i])))
  }

  /** The walk of the source. */
  method NumberBlocks(e: EdgeMap, entry: BlockId) returns (order: seq<BlockId>, renumbered: map<BlockId, nat>)
    ensures order == Numbering(e, entry)
    ensures renumbered.Keys == Elements(order)
    ensures forall i :: 0 <= i < |order| ==> order[i] in renumbered && renumbered[order[i]] == i
  {
    order, renumbered := [], map[];
    var pending := [entry];
    assert Numbers(order, renumbered);
    hide Walk, Numbers;
    while pending != []
      invariant Walk(e, pending, order) == Numbering(e, entry)
      invariant Numbers(order, renumbered)
      decreases |e.Keys - Elements(order)|, |pending|
    {
      WalkStep(e, pending, order);
      var id := pending[|pending| - 1];
      pending := pending[..|pending| - 1];
      NumberedAlready(order, renumbered, id);
      if id !in e || id in renumbered {
        continue;
      }
      Fewer(e, order, id);
      renumbered := renumbered[id := |order|];
      order := order + [id];
      pending := pending + Reversed(e[id]);
    }
    WalkEnds(e, order);
    NumbersMean(order, renumbered);
  }

  /** Each numbered block is mapped to its number. */
  ghost predicate Numbers(order: seq<BlockId>, renumbered: map<BlockId, nat>) {
    && (forall b :: b in renumbered <==> b in order)
    && (forall i :: 0 <= i < |order| ==> order[i] in renumbered && renumbered[order[i]] == i)
  }

  lemma NumbersMean(order: seq<BlockId>, renumbered: map<BlockId, nat>)
    requires Numbers(order, renumbered)
    ensures renumbered.Keys == Elements(order)
    ensures forall i :: 0 <= i < |order| ==> order[i] in renumbered && renumbered[order[i]] == i
  {
  }

  lemma NumberedAlready(order: seq<BlockId>, renumbered: map<BlockId, nat>, id: BlockId)
    requires Numbers(order, renumbered)
    ensures id in renumbered <==> id in order
    ensures id !in order ==> Numbers(order + [id], renumbered[id := |order|])
  {
    assert forall b :: b in order + [id] <==> b in order || b == id;
  }

  lemma WalkStep(e: EdgeMap, pending: seq<BlockId>, order: seq<BlockId>)
    requires pending != []
    ensures
      var id, rest := pending[|pending| - 1], pending[..|pending| - 1];
      Walk(e, pending, order)
        == if id !in e || id in order then Walk(e, rest, order) else Walk(e, rest + Reversed(e[id]), order + [id])
  {
  }

  lemma WalkEnds(e: EdgeMap, order: seq<BlockId>)
    ensures Walk(e, [], order) == order
  {
  }

  // ---------------------------------------------------------------------------
  // What is numbered

  ghost predicate Known(e: EdgeMap, entry: BlockId, b: BlockId) {
    b in e && Reaches(e, entry, b)
  }

  ghost predicate WalkState(e: EdgeMap, entry: BlockId, pending: seq<BlockId>, order: seq<BlockId>) {
    && Distinct(order)
    && (forall b :: b in order ==> Known(e, entry, b))
    && (forall b :: b in pending ==> Reaches(e, entry, b))
    && (forall b, t :: b in order && t in Targets(e, b) && t in e ==> t in order || t in pending)
    && (entry in e ==> entry in order || entry in pending)
  }

  lemma {:induction false} WalkKeeps(e: EdgeMap, entry: BlockId, pending: seq<BlockId>, order: seq<BlockId>)
    requires WalkState(e, entry, pending, order)
    ensures WalkState(e, entry, [], Walk(e, pending, order))
    decreases |e.Keys - Elements(order)|, |pending|
  {
    if pending != [] {
      var id, rest := pending[|pending| - 1], pending[..|pending| - 1];
      assert pending == rest + [id];
      if id !in e || id in order {
        WalkKeeps(e, entry, rest, order);
      } else {
        Fewer(e, order, id);
        WalkTakes(e, entry, rest, order, id);
        WalkKeeps(e, entry, rest + Reversed(e[id]), order + [id]);
      }
    }
  }

  lemma WalkTakes(e: EdgeMap, entry: BlockId, rest: seq<BlockId>, order: seq<BlockId>, id: BlockId)
    requires WalkState(e, entry, rest + [id], order) && id in e && id !in order
    ensures WalkState(e, entry, rest + Reversed(e[id]), order + [id])
  {
    hide Reaches;
    var pending, longer := rest + Reversed(e[id]), order + [id];
    assert forall b :: b in rest + [id] <==> b in rest || b == id;
    assert forall b :: b in pending <==> b in rest || b in Reversed(e[id]);
    assert forall b :: b in longer <==> b in order || b == id;
    ReversedSame(e[id]);
    forall b | b in e[id]
      ensures Reaches(e, entry, b)
    {
      assert Edge(e, id, b);
      ReachesThenEdge(e, entry, id, b);
    }
  }

  lemma ReversedSame(s: seq<BlockId>)
    ensures forall b :: b in Reversed(s) <==> b in s
  {
    var r := Reversed(s);
    forall b | b in s
      ensures b in r
    {
      var i :| 0 <= i < |s| && s[i] == b;
      assert r[|s| - 1 - i] == b;
    }
  }

  lemma ReversedSplit(s: seq<BlockId>, t: seq<BlockId>)
    ensures Reversed(s + t) == Reversed(t) + Reversed(s)
  {
    hide Reversed;
  }

  lemma ReversedTwice(s: seq<BlockId>)
    ensures Reversed(Reversed(s)) == s
  {
    hide Reversed;
  }

  /** The stack holds what is still to visit from the right: popping it visits from the left. */
  lemma {:induction false} WalkVisits(e: EdgeMap, pending: seq<BlockId>, order: seq<BlockId>)
    ensures Walk(e, pending, order) == DepthFirst.Visit(e, Reversed(pending), order)
    decreases |e.Keys - Elements(order)|, |pending|
  {
    if pending != [] {
      var id, rest := pending[|pending| - 1], pending[..|pending| - 1];
      assert pending == rest + [id];
      ReversedSplit(rest, [id]);
      var todo := Reversed(pending);
      assert todo[0] == id && todo[1..] == Reversed(rest);
      if id !in e || id in order {
        WalkVisits(e, rest, order);
      } else {
        Fewer(e, order, id);
        ReversedSplit(rest, Reversed(e[id]));
        ReversedTwice(e[id]);
        WalkVisits(e, rest + Reversed(e[id]), order + [id]);
      }
    }
  }

  /** The numbering is the recursive depth-first preorder that takes the targets of a block in
      their order, the true one first. */
  lemma NumberingIsPreorder(e: EdgeMap, entry: BlockId)
    ensures Numbering(e, entry) == DepthFirst.Preorder(e, entry)
  {
    WalkVisits(e, [entry], []);
    assert Reversed([entry]) == [entry];
  }

  /** Exactly the known blocks that can be reached are numbered, each once. */
  lemma NumberedIffReached(e: EdgeMap, entry: BlockId)
    ensures Distinct(Numbering(e, entry))
    ensures forall b :: b in Numbering(e, entry) <==> Known(e, entry, b) && entry in e
  {
    var order := Numbering(e, entry);
    ReachesSelf(e, entry);
    WalkKeeps(e, entry, [entry], []);
    forall b | Known(e, entry, b) && entry in e
      ensures b in order
    {
      var path :| PathBetween(e, path, entry, b);
      PathIsNumbered(e, order, path);
    }
    forall b | b in order
      ensures entry in e
    {
      OnlyItself(e, entry, b);
    }
  }

  lemma OnlyItself(e: EdgeMap, a: BlockId, b: BlockId)
    requires Reaches(e, a, b)
    ensures a in e || a == b
  {
    var path :| PathBetween(e, path, a, b);
    if |path| > 1 {
      assert Edge(e, path[0], path[1]);
    }
  }

  lemma {:induction false} PathIsNumbered(e: EdgeMap, order: seq<BlockId>, path: seq<BlockId>)
    requires IsPath(e, path) && path[0] in order && path[|path| - 1] in e
    requires forall b, t :: b in order && t in Targets(e, b) && t in e ==> t in order
    ensures path[|path| - 1] in order
    decreases |path|
  {
    if |path| > 1 {
      assert Edge(e, path[0], path[1]);
      SliceIsPath(e, path, 1, |path| - 1);
      assert path[1..] == path[1..|path| - 1 + 1];
      if |path| > 2 {
        assert Edge(e, path[1], path[2]);
      }
      PathIsNumbered(e, order, path[1..]);
    }
  }

  // ---------------------------------------------------------------------------
  // Isomorphism

  /** The targets of two blocks in the same role either both name no block, or correspond. */
  ghost predicate Corresponds(e: EdgeMap, f: EdgeMap, phi: map<BlockId, BlockId>, s: BlockId, t: BlockId) {
    && (s in e <==> t in f)
    && (s in e ==> s in phi && phi[s] == t)
  }

  ghost predicate AllCorrespond(e: EdgeMap, f: EdgeMap, phi: map<BlockId, BlockId>, s: seq<BlockId>, t: seq<BlockId>) {
    |s| == |t| && forall k :: 0 <= k < |s| ==> Corresponds(e, f, phi, s[k], t[k])
  }

  predicate Injective(phi: map<BlockId, BlockId>) {
    forall a, b :: a in phi && b in phi && phi[a] == phi[b] ==> a == b
  }

  /** A bijection between the reachable blocks that keeps the entry and the role of every edge. */
  ghost predicate Isomorphism(e: EdgeMap, a: BlockId, f: EdgeMap, b: BlockId, phi: map<BlockId, BlockId>) {
    && phi.Keys == Elements(Numbering(e, a)) && phi.Values == Elements(Numbering(f, b)) && Injective(phi)
    && Corresponds(e, f, phi, a, b)
    && (forall x :: x in phi ==> AllCorrespond(e, f, phi, Targets(e, x), Targets(f, phi[x])))
  }

  function Image(phi: map<BlockId, BlockId>, s: seq<BlockId>): seq<BlockId>
    requires forall x :: x in s ==> x in phi
  {
    seq(|s|, i requires 0 <= i < |s| => phi[s[i]])
  }

  /** Two walks in step: the stacks correspond and the orders are images. */
  ghost predicate InStep(e: EdgeMap, f: EdgeMap, phi: map<BlockId, BlockId>, pending: seq<BlockId>, order: seq<BlockId>,
                         pending': seq<BlockId>, order': seq<BlockId>)
  {
    && AllCorrespond(e, f, phi, pending, pending')
    && (forall x :: x in order ==> x in phi)
    && order' == Image(phi, order)
  }

  lemma {:induction false} WalksInStep(e: EdgeMap, f: EdgeMap, phi: map<BlockId, BlockId>, pending: seq<BlockId>,
      order: seq<BlockId>,
                                       pending': seq<BlockId>, order': seq<BlockId>)
    requires Injective(phi) && InStep(e, f, phi, pending, order, pending', order')
    requires forall x :: x in phi ==> x in e && AllCorrespond(e, f, phi, Targets(e, x), Targets(f, phi[x]))
    ensures InStep(e, f, phi, [], Walk(e, pending, order), [], Walk(f, pending', order'))
    decreases |e.Keys - Elements(order)|, |pending|
  {
    if pending != [] {
      var id, rest := pending[|pending| - 1], pending[..|pending| - 1];
      var id', rest' := pending'[|pending'| - 1], pending'[..|pending'| - 1];
      assert Corresponds(e, f, phi, id, id');
      if id in e {
        ImageMembers(phi, order, id);
      }
      if id !in e || id in order {
        WalksInStep(e, f, phi, rest, order, rest', order');
      } else {
        Fewer(e, order, id);
        VisitsInStep(e, f, phi, rest, order, id, rest', order', id');
        WalksInStep(e, f, phi, rest + Reversed(e[id]), order + [id], rest' + Reversed(f[id']), order' + [id']);
      }
    }
  }

  lemma VisitsInStep(e: EdgeMap, f: EdgeMap, phi: map<BlockId, BlockId>, rest: seq<BlockId>, order: seq<BlockId>,
      id: BlockId,
                     rest': seq<BlockId>, order': seq<BlockId>, id': BlockId)
    requires InStep(e, f, phi, rest, order, rest', order') && id in phi && phi[id] == id' && id in e && id' in f
    requires AllCorrespond(e, f, phi, Targets(e, id), Targets(f, id'))
    ensures InStep(e, f, phi, rest + Reversed(e[id]), order + [id], rest' + Reversed(f[id']), order' + [id'])
  {
    ReversedCorrespond(e, f, phi, e[id], f[id']);
    BothCorrespond(e, f, phi, rest, Reversed(e[id]), rest', Reversed(f[id']));
    assert Image(phi, order + [id]) == Image(phi, order) + [id'];
  }

  lemma ImageMembers(phi: map<BlockId, BlockId>, order: seq<BlockId>, id: BlockId)
    requires Injective(phi) && id in phi && forall x :: x in order ==> x in phi
    ensures phi[id] in Image(phi, order) <==> id in order
  {
    var image := Image(phi, order);
    if id in order {
      var i :| 0 <= i < |order| && order[i] == id;
      assert image[i] == phi[id];
    }
    if phi[id] in image {
      var i :| 0 <= i < |image| && image[i] == phi[id];
      assert order[i] in order && phi[order[i]] == phi[id];
    }
  }

  lemma ReversedCorrespond(e: EdgeMap, f: EdgeMap, phi: map<BlockId, BlockId>, s: seq<BlockId>, t: seq<BlockId>)
    requires AllCorrespond(e, f, phi, s, t)
    ensures AllCorrespond(e, f, phi, Reversed(s), Reversed(t))
  {
  }

  lemma BothCorrespond(e: EdgeMap, f: EdgeMap, phi: map<BlockId, BlockId>, s: seq<BlockId>, u: seq<BlockId>,
      t: seq<BlockId>, v: seq<BlockId>)
    requires AllCorrespond(e, f, phi, s, t) && AllCorrespond(e, f, phi, u, v)
    ensures AllCorrespond(e, f, phi, s + u, t + v)
  {
  }

  /** An isomorphism maps the one numbering to the other. */
  lemma IsomorphismKeepsNumbering(e: EdgeMap, a: BlockId, f: EdgeMap, b: BlockId, phi: map<BlockId, BlockId>)
    requires Isomorphism(e, a, f, b, phi)
    ensures forall x :: x in Numbering(e, a) ==> x in phi
    ensures Numbering(f, b) == Image(phi, Numbering(e, a))
  {
    NumberedIffReached(e, a);
    assert forall x :: x in phi ==> x in Numbering(e, a);
    hide Reaches;
    WalksInStep(e, f, phi, [a], [], [b], []);
  }

  lemma ImageTargets(phi: map<BlockId, BlockId>, order: seq<BlockId>, e: EdgeMap, f: EdgeMap, s: seq<BlockId>,
      t: seq<BlockId>)
    requires Injective(phi) && Distinct(order) && phi.Keys == Elements(order)
    requires AllCorrespond(e, f, phi, s, t)
    requires forall x :: x in order ==> x in e
    requires forall x :: x in Image(phi, order) ==> x in f
    ensures TargetList(order, s) == TargetList(Image(phi, order), t)
  {
    var image := Image(phi, order);
    forall k | 0 <= k < |s|
      ensures Target(order, s[k]) == Target(image, t[k])
    {
      assert Corresponds(e, f, phi, s[k], t[k]);
      if s[k] in e {
        ImageMembers(phi, order, s[k]);
        var i, j := FirstIndex(order, s[k]), FirstIndex(image, t[k]);
        assert phi[order[j]] == phi[s[k]] && order[j] in order;
      }
    }
    assert TargetList(order, s) == TargetList(image, t);
  }

  lemma IsomorphicExits(e: EdgeMap, a: BlockId, f: EdgeMap, b: BlockId, phi: map<BlockId, BlockId>)
    requires Isomorphism(e, a, f, b, phi)
    ensures CanonicalExits(e, Numbering(e, a)) == CanonicalExits(f, Numbering(f, b))
  {
    var order, image := Numbering(e, a), Numbering(f, b);
    NumberedIffReached(e, a);
    NumberedIffReached(f, b);
    IsomorphismKeepsNumbering(e, a, f, b, phi);
    hide Reaches, Walk;
    forall i | 0 <= i < |order|
      ensures TargetList(order, Targets(e, order[i])) == TargetList(image, Targets(f, image[i]))
    {
      assert order[i] in order && order[i] in phi;
      ImageTargets(phi, order, e, f, Targets(e, order[i]), Targets(f, image[i]));
    }
  }

  /** The bijection that pairs equal numbers. */
  function Pairing(order: seq<BlockId>, order': seq<BlockId>): (phi: map<BlockId, BlockId>)
    requires |order| == |order'|
    ensures phi.Keys == Elements(order)
  {
    map x | x in order :: order'[FirstIndex(order, x)]
  }

  lemma IndexOfDistinct(order: seq<BlockId>, i: nat)
    requires Distinct(order) && i < |order|
    ensures FirstIndex(order, order[i]) == i
  {
    assert order[FirstIndex(order, order[i])] == order[i];
  }

  lemma PairingIsBijective(order: seq<BlockId>, order': seq<BlockId>)
    requires |order| == |order'| && Distinct(order) && Distinct(order')
    ensures Injective(Pairing(order, order')) && Pairing(order, order').Values == Elements(order')
  {
    var phi := Pairing(order, order');
    forall y | y in order'
      ensures y in phi.Values
    {
      var i :| 0 <= i < |order'| && order'[i] == y;
      IndexOfDistinct(order, i);
      assert order[i] in phi && phi[order[i]] == y;
    }
    forall x, y | x in phi && y in phi && phi[x] == phi[y]
      ensures x == y
    {
      assert order'[FirstIndex(order, x)] == order'[FirstIndex(order, y)];
    }
  }

  lemma SameNumberCorresponds(e: EdgeMap, f: EdgeMap, order: seq<BlockId>, order': seq<BlockId>, s: BlockId, t: BlockId)
    requires |order| == |order'| <= DANGLING && Distinct(order) && Distinct(order')
    requires (s in e <==> s in order) && (t in f <==> t in order')
    requires Target(order, s) == Target(order', t)
    ensures Corresponds(e, f, Pairing(order, order'), s, t)
  {
    if s in order {
      assert t in order' by {
        assert FirstIndex(order, s) < DANGLING;
      }
      assert order'[FirstIndex(order', t)] == t;
    }
  }

  /** Equal canonical exits pair up to an isomorphism. */
  lemma EqualExitsPair(e: EdgeMap, a: BlockId, f: EdgeMap, b: BlockId)
    requires |Numbering(e, a)| <= DANGLING
    requires CanonicalExits(e, Numbering(e, a)) == CanonicalExits(f, Numbering(f, b))
    ensures |Numbering(e, a)| == |Numbering(f, b)|
    ensures Isomorphism(e, a, f, b, Pairing(Numbering(e, a), Numbering(f, b)))
  {
    var order, order' := Numbering(e, a), Numbering(f, b);
    assert |CanonicalExits(e, order)| == |CanonicalExits(f, order')|;
    NumberedIffReached(e, a);
    NumberedIffReached(f, b);
    EntryIsFirst(e, a);
    EntryIsFirst(f, b);
    PairingIsBijective(order, order');
    var phi := Pairing(order, order');
    EntriesPair(e, a, f, b);
    forall x | x in phi
      ensures AllCorrespond(e, f, phi, Targets(e, x), Targets(f, phi[x]))
    {
      ExitsPair(e, a, f, b, x);
    }
  }

  lemma EntriesPair(e: EdgeMap, a: BlockId, f: EdgeMap, b: BlockId)
    requires |Numbering(e, a)| == |Numbering(f, b)|
    ensures Corresponds(e, f, Pairing(Numbering(e, a), Numbering(f, b)), a, b)
  {
    EntryIsFirst(e, a);
    EntryIsFirst(f, b);
    NumberedIffReached(e, a);
    hide Reaches, Walk;
    if a in e {
      IndexOfDistinct(Numbering(e, a), 0);
    }
  }

  lemma ExitsPair(e: EdgeMap, a: BlockId, f: EdgeMap, b: BlockId, x: BlockId)
    requires |Numbering(e, a)| == |Numbering(f, b)| <= DANGLING && x in Numbering(e, a)
    requires CanonicalExits(e, Numbering(e, a)) == CanonicalExits(f, Numbering(f, b))
    ensures
      var phi := Pairing(Numbering(e, a), Numbering(f, b));
      AllCorrespond(e, f, phi, Targets(e, x), Targets(f, phi[x]))
  {
    var order, order' := Numbering(e, a), Numbering(f, b);
    NumberedIffReached(e, a);
    NumberedIffReached(f, b);
    hide Walk;
    var i := FirstIndex(order, x);
    var s, t := Targets(e, x), Targets(f, order'[i]);
    assert CanonicalExits(e, order)[i] == CanonicalExits(f, order')[i];
    assert TargetList(order, s) == TargetList(order', t);
    assert |TargetList(order, s)| == |TargetList(order', t)|;
    forall k | 0 <= k < |s|
      ensures Corresponds(e, f, Pairing(order, order'), s[k], t[k])
    {
      assert TargetList(order, s)[k] == TargetList(order', t)[k];
      TargetIsNumbered(e, a, x, s[k]);
      TargetIsNumbered(f, b, order'[i], t[k]);
      SameNumberCorresponds(e, f, order, order', s[k], t[k]);
    }
  }

  lemma TargetIsNumbered(e: EdgeMap, a: BlockId, x: BlockId, t: BlockId)
    requires x in Numbering(e, a) && t in Targets(e, x)
    ensures t in e <==> t in Numbering(e, a)
  {
    NumberedIffReached(e, a);
    hide Walk;
    assert Edge(e, x, t);
    ReachesThenEdge(e, a, x, t);
  }

  /** The entry, when there is one, gets the first number; without one nothing is numbered. */
  lemma EntryIsFirst(e: EdgeMap, a: BlockId)
    ensures a in e ==> Numbering(e, a) != [] && Numbering(e, a)[0] == a
    ensures a !in e ==> Numbering(e, a) == []
  {
    assert [a][..0] == [];
    assert Walk(e, [], []) == [];
    if a in e {
      WalkExtends(e, [] + Reversed(e[a]), [] + [a]);
    }
  }

  lemma {:induction false} WalkExtends(e: EdgeMap, pending: seq<BlockId>, order: seq<BlockId>)
    ensures order <= Walk(e, pending, order)
    decreases |e.Keys - Elements(order)|, |pending|
  {
    if pending != [] {
      var id, rest := pending[|pending| - 1], pending[..|pending| - 1];
      if id !in e || id in order {
        WalkExtends(e, rest, order);
      } else {
        Fewer(e, order, id);
        WalkExtends(e, rest + Reversed(e[id]), order + [id]);
      }
    }
  }

  /** Two graphs get the same numbered exits exactly when some isomorphism relates them. */
  lemma NumberingDecidesIsomorphism(e: EdgeMap, a: BlockId, f: EdgeMap, b: BlockId)
    requires |Numbering(e, a)| <= DANGLING
    ensures CanonicalExits(e, Numbering(e, a)) == CanonicalExits(f, Numbering(f, b)) <==>
      exists phi :: Isomorphism(e, a, f, b, phi)
  {
    hide Isomorphism, CanonicalExits, Numbering;
    if CanonicalExits(e, Numbering(e, a)) == CanonicalExits(f, Numbering(f, b)) {
      EqualExitsPair(e, a, f, b);
    }
    if phi :| Isomorphism(e, a, f, b, phi) {
      IsomorphicExits(e, a, f, b, phi);
    }
  }

  /** There is at most one isomorphism: the one that pairs equal numbers. */
  lemma IsomorphismIsPairing(e: EdgeMap, a: BlockId, f: EdgeMap, b: BlockId, phi: map<BlockId, BlockId>)
    requires Isomorphism(e, a, f, b, phi)
    ensures |Numbering(e, a)| == |Numbering(f, b)| && phi == Pairing(Numbering(e, a), Numbering(f, b))
  {
    IsomorphismKeepsNumbering(e, a, f, b, phi);
    hide Walk;
    var order, order' := Numbering(e, a), Numbering(f, b);
    forall x | x in phi
      ensures phi[x] == Pairing(order, order')[x]
    {
      assert order'[FirstIndex(order, x)] == phi[order[FirstIndex(order, x)]];
    }
  }
}
