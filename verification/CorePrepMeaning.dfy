/** What it means that two prepared modules are equivalent, field by field: which parts have to be
    equal, which symbols have to correspond, and how blocks are paired along their targets. */
module CorePrepMeaning {
  import opened Graphs
  import opened PreorderNumbering
  import opened SymbolRenaming
  import opened CorePrepModel
  import opened CorePrepParity
  import opened CorePrepBehaviour

  /** Both targets name no block, or they name paired blocks. */
  ghost predicate TargetsPaired(f: Function, g: Function, phi: map<BlockId, BlockId>, s: BlockId, t: BlockId) {
    && (s in Ids(f) <==> t in Ids(g))
    && (s in Ids(f) ==> s in phi && phi[s] == t)
  }

  /** The targets that the kind of a terminator uses. */
  ghost predicate ExitsPaired(f: Function, g: Function, phi: map<BlockId, BlockId>, s: Terminator, t: Terminator) {
    && (s.kind == Jump || s.kind == Branch ==> TargetsPaired(f, g, phi, s.trueTarget, t.trueTarget))
    && (s.kind == Branch ==> TargetsPaired(f, g, phi, s.falseTarget, t.falseTarget))
  }

  ghost predicate BlocksPaired(sigma: map<nat, nat>, f: Function, g: Function, phi: map<BlockId, BlockId>, b: Block,
      c: Block) {
    && ListsMatch(sigma, b.instructions, c.instructions)
    && TerminatorsMatch(sigma, b.terminator, c.terminator)
    && ExitsPaired(f, g, phi, b.terminator, c.terminator)
  }

  /** Blocks are paired one to one: the entries, and with any two blocks the targets of both. */
  ghost predicate BodiesMatch(sigma: map<nat, nat>, f: Function, g: Function, phi: map<BlockId, BlockId>) {
    && Injective(phi) && TargetsPaired(f, g, phi, f.entry, g.entry)
    && forall b :: b in phi ==>
         b in Ids(f) && phi[b] in Ids(g) && BlocksPaired(sigma, f, g, phi, RecordOf(f, b), RecordOf(g, phi[b]))
  }

  ghost predicate ParametersMatch(sigma: map<nat, nat>, s: seq<Parameter>, t: seq<Parameter>) {
    |s| == |t| && forall i :: 0 <= i < |s| ==> SameSymbol(sigma, s[i].symbol, t[i].symbol) && s[i].shape == t[i].shape
  }

  ghost predicate FunctionsMatch(sigma: map<nat, nat>, f: Function, g: Function) {
    && SameSymbol(sigma, f.symbol, g.symbol) && f.shape == g.shape
    && ParametersMatch(sigma, f.parameters, g.parameters)
    && exists phi :: BodiesMatch(sigma, f, g, phi)
  }

  ghost predicate ModulesMatch(sigma: map<nat, nat>, x: Module, y: Module) {
    && x.header == y.header && |x.functions| == |y.functions|
    && forall i :: 0 <= i < |x.functions| ==> FunctionsMatch(sigma, x.functions[i], y.functions[i])
  }

  // ---------------------------------------------------------------------------
  // Proof

  lemma ExitsPairedIs(f: Function, g: Function, phi: map<BlockId, BlockId>, s: Terminator, t: Terminator)
    requires s.kind == t.kind
    ensures ExitsPaired(f, g, phi, s, t) <==> AllCorrespond(ExitMap(f), ExitMap(g), phi, Successors(s), Successors(t))
  {
    var e, c := ExitMap(f), ExitMap(g);
    assert forall b :: b in e <==> b in Ids(f);
    assert forall b :: b in c <==> b in Ids(g);
    hide ExitMap, Ids, Successors;
    assert forall a, b :: TargetsPaired(f, g, phi, a, b) <==> Corresponds(e, c, phi, a, b);
    hide TargetsPaired, Corresponds;
    SuccessorsAre(s);
    SuccessorsAre(t);
    if AllCorrespond(e, c, phi, Successors(s), Successors(t)) {
      forall k | 0 <= k < |Successors(s)|
        ensures Corresponds(e, c, phi, Successors(s)[k], Successors(t)[k])
      {
      }
    }
  }

  lemma SuccessorsAre(t: Terminator)
    ensures t.kind == Jump ==> |Successors(t)| == 1 && Successors(t)[0] == t.trueTarget
    ensures t.kind == Branch ==>
      |Successors(t)| == 2 && Successors(t)[0] == t.trueTarget && Successors(t)[1] == t.falseTarget
    ensures t.kind == Return || t.kind == Unreachable ==> |Successors(t)| == 0
  {
  }

  lemma ExitMapAt(f: Function, b: BlockId)
    requires b in Ids(f)
    ensures b in ExitMap(f) && Targets(ExitMap(f), b) == Successors(RecordOf(f, b).terminator)
  {
    hide Successors;
  }

  lemma BlocksPairedIs(sigma: map<nat, nat>, f: Function, g: Function, phi: map<BlockId, BlockId>, b: BlockId,
      c: BlockId)
    requires b in Ids(f) && c in Ids(g)
    ensures BlocksPaired(sigma, f, g, phi, RecordOf(f, b), RecordOf(g, c)) <==>
      BlocksAlike(sigma, RecordOf(f, b), RecordOf(g, c))
      && AllCorrespond(ExitMap(f), ExitMap(g), phi, Targets(ExitMap(f), b), Targets(ExitMap(g), c))
  {
    hide BlocksAlike, RecordOf, Ids, ListsMatch, ExitsPaired, AllCorrespond, Successors, ExitMap, Targets;
    var u, v := RecordOf(f, b), RecordOf(g, c);
    BlocksAlikeMatch(sigma, u, v);
    ExitMapAt(f, b);
    ExitMapAt(g, c);
    if u.terminator.kind == v.terminator.kind {
      ExitsPairedIs(f, g, phi, u.terminator, v.terminator);
    }
  }

  lemma TargetsPairedIs(f: Function, g: Function, phi: map<BlockId, BlockId>, s: BlockId, t: BlockId)
    ensures TargetsPaired(f, g, phi, s, t) <==> Corresponds(ExitMap(f), ExitMap(g), phi, s, t)
  {
    var e, c := ExitMap(f), ExitMap(g);
    assert s in e <==> s in Ids(f);
    assert t in c <==> t in Ids(g);
  }

  lemma IsomorphismParts(sigma: map<nat, nat>, f: Function, g: Function, phi: map<BlockId, BlockId>)
    requires BodiesAlike(sigma, f, g, phi)
    ensures Injective(phi) && Corresponds(ExitMap(f), ExitMap(g), phi, f.entry, g.entry)
    ensures forall b :: b in phi ==>
      AllCorrespond(ExitMap(f), ExitMap(g), phi, Targets(ExitMap(f), b), Targets(ExitMap(g), phi[b]))
  {
    hide BlocksAlike, RecordOf, AllCorrespond, Corresponds, ExitMap, Ids, Numbering, Targets, Injective;
  }

  lemma AlikeBodiesMatch(sigma: map<nat, nat>, f: Function, g: Function, phi: map<BlockId, BlockId>)
    requires BodiesAlike(sigma, f, g, phi)
    ensures BodiesMatch(sigma, f, g, phi)
  {
    hide BlocksAlike, RecordOf, BlocksPaired, AllCorrespond, ExitMap, Ids, Targets, Isomorphism, TargetsPaired,
        Corresponds, Injective;
    IsomorphismParts(sigma, f, g, phi);
    TargetsPairedIs(f, g, phi, f.entry, g.entry);
    forall b | b in phi
      ensures b in Ids(f) && phi[b] in Ids(g) && BlocksPaired(sigma, f, g, phi, RecordOf(f, b), RecordOf(g, phi[b]))
    {
      BlocksPairedIs(sigma, f, g, phi, b, phi[b]);
    }
  }

  lemma MatchingBlocks(sigma: map<nat, nat>, f: Function, g: Function, phi: map<BlockId, BlockId>)
    requires BodiesMatch(sigma, f, g, phi)
    ensures Injective(phi) && Corresponds(ExitMap(f), ExitMap(g), phi, f.entry, g.entry)
    ensures forall b :: b in phi ==>
      && b in ExitMap(f) && b in Ids(f) && phi[b] in Ids(g)
      && AllCorrespond(ExitMap(f), ExitMap(g), phi, Targets(ExitMap(f), b), Targets(ExitMap(g), phi[b]))
      && BlocksAlike(sigma, RecordOf(f, b), RecordOf(g, phi[b]))
  {
    hide BlocksAlike, RecordOf, BlocksPaired, AllCorrespond, ExitMap, Ids, Targets, TargetsPaired, Corresponds,
        Injective;
    TargetsPairedIs(f, g, phi, f.entry, g.entry);
    forall b | b in phi
      ensures b in ExitMap(f) && b in Ids(f) && phi[b] in Ids(g)
      ensures AllCorrespond(ExitMap(f), ExitMap(g), phi, Targets(ExitMap(f), b), Targets(ExitMap(g), phi[b]))
      ensures BlocksAlike(sigma, RecordOf(f, b), RecordOf(g, phi[b]))
    {
      BlocksPairedIs(sigma, f, g, phi, b, phi[b]);
      ExitMapAt(f, b);
    }
  }

  /** A pairing may go beyond what can be reached: the reachable part of it is an isomorphism. */
  lemma ReachedIsIsomorphism(e: EdgeMap, a: BlockId, c: EdgeMap, b: BlockId, phi: map<BlockId, BlockId>)
    returns (reached: map<BlockId, BlockId>)
    requires Injective(phi) && Corresponds(e, c, phi, a, b)
    requires forall x :: x in phi ==> x in e && AllCorrespond(e, c, phi, Targets(e, x), Targets(c, phi[x]))
    ensures (forall x :: x in reached ==> x in phi && reached[x] == phi[x]) && Isomorphism(e, a, c, b, reached)
  {
    hide Targets, Corresponds, AllCorrespond, Numbering;
    NumberingIsImage(e, a, c, b, phi);
    var order := Numbering(e, a);
    reached := map x | x in order :: phi[x];
    assert reached.Keys == Elements(order);
    ReachedIsImage(phi, order, reached);
    ImageIsValues(reached, order);
    ReachedCorresponds(e, a, c, phi, reached);
    EntryIsPaired(e, a, c, b, phi, reached);
  }

  lemma MatchingBodiesAlike(sigma: map<nat, nat>, f: Function, g: Function, phi: map<BlockId, BlockId>)
    returns (reached: map<BlockId, BlockId>)
    requires BodiesMatch(sigma, f, g, phi)
    ensures BodiesAlike(sigma, f, g, reached)
  {
    hide BlocksAlike, RecordOf, ExitMap, Ids, Targets, BodiesMatch, Corresponds, AllCorrespond, Injective, Isomorphism;
    MatchingBlocks(sigma, f, g, phi);
    reached := ReachedIsIsomorphism(ExitMap(f), f.entry, ExitMap(g), g.entry, phi);
  }

  lemma ReachedIsImage(phi: map<BlockId, BlockId>, order: seq<BlockId>, reached: map<BlockId, BlockId>)
    requires (forall b :: b in order ==> b in phi) && reached == map b | b in order :: phi[b]
    ensures (forall x :: x in order ==> x in reached) && Image(reached, order) == Image(phi, order)
  {
  }

  lemma EntryIsPaired(e: EdgeMap, a: BlockId, c: EdgeMap, b: BlockId, phi: map<BlockId, BlockId>,
      reached: map<BlockId, BlockId>)
    requires Corresponds(e, c, phi, a, b) && (forall x :: x in Numbering(e, a) ==> x in phi)
    requires reached == map x | x in Numbering(e, a) :: phi[x]
    ensures Corresponds(e, c, reached, a, b)
  {
    hide Numbering;
    EntryIsFirst(e, a);
    if a in e {
      assert Numbering(e, a)[0] == a;
    }
  }

  lemma ReachedCorresponds(e: EdgeMap, a: BlockId, c: EdgeMap, phi: map<BlockId, BlockId>,
      reached: map<BlockId, BlockId>)
    requires (forall x :: x in Numbering(e, a) ==> x in phi) && reached == map x | x in Numbering(e, a) :: phi[x]
    requires forall x :: x in phi ==> x in e && AllCorrespond(e, c, phi, Targets(e, x), Targets(c, phi[x]))
    ensures forall x :: x in reached ==> AllCorrespond(e, c, reached, Targets(e, x), Targets(c, reached[x]))
  {
    hide Numbering, Targets;
    forall x | x in reached
      ensures AllCorrespond(e, c, reached, Targets(e, x), Targets(c, reached[x]))
    {
      var s, t := Targets(e, x), Targets(c, phi[x]);
      forall k | 0 <= k < |s|
        ensures Corresponds(e, c, reached, s[k], t[k])
      {
        if s[k] in e {
          TargetIsNumbered(e, a, x, s[k]);
        }
      }
    }
  }

  lemma ParametersAlikeMatch(sigma: map<nat, nat>, s: seq<Parameter>, t: seq<Parameter>)
    ensures ParametersAlike(sigma, s, t) <==> ParametersMatch(sigma, s, t)
  {
    hide SameSymbol;
    if |s| == |t| {
      forall i | 0 <= i < |s|
        ensures Alike(ParameterPlaces, ParameterChanged, sigma, s[i], t[i]) <==>
          SameSymbol(sigma, s[i].symbol, t[i].symbol) && s[i].shape == t[i].shape
      {
        OneRelated(sigma, s[i].symbol, t[i].symbol);
        assert ParameterChanged(Blank(), s[i]) == ParameterChanged(Blank(), t[i]) <==> s[i].shape == t[i].shape;
      }
    }
  }

  lemma FunctionsAlikeMatch(sigma: map<nat, nat>, f: Function, g: Function)
    ensures FunctionsAlike(sigma, f, g) <==> FunctionsMatch(sigma, f, g)
  {
    hide SameSymbol, ParametersAlike, ParametersMatch, BodiesAlike, BodiesMatch;
    ParametersAlikeMatch(sigma, f.parameters, g.parameters);
    if phi :| BodiesAlike(sigma, f, g, phi) {
      AlikeBodiesMatch(sigma, f, g, phi);
    }
    if phi :| BodiesMatch(sigma, f, g, phi) {
      var reached := MatchingBodiesAlike(sigma, f, g, phi);
    }
  }

  /** The check finds no difference exactly when, under one correspondence of generated symbols, the
      modules match field by field, and each generated symbol has the same kind where it is used first. */
  lemma NoDifferenceIffModulesMatch(x: Module, y: Module)
    requires Numbered(x)
    ensures Canonicalize(x) == Canonicalize(y) <==>
      && FirstKindsAgree(RunningPlaces(x), RunningPlaces(y))
      && exists sigma :: OneToOne(sigma) && ModulesMatch(sigma, x, y)
  {
    hide Canonicalize, RunningPlaces, OneToOne, FirstKindsAgree, FunctionsAlike, FunctionsMatch, Numbered;
    NoDifferenceIffEquivalent(x, y);
    forall sigma
      ensures EquivalentUnder(sigma, x, y) <==> ModulesMatch(sigma, x, y)
    {
      if |x.functions| == |y.functions| {
        forall i | 0 <= i < |x.functions|
          ensures FunctionsAlike(sigma, x.functions[i], y.functions[i])
            <==> FunctionsMatch(sigma, x.functions[i], y.functions[i])
        {
          FunctionsAlikeMatch(sigma, x.functions[i], y.functions[i]);
        }
      }
    }
  }
}
