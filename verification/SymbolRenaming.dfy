/** Generated symbols in first-use order (Talac/Fuzzing/CorePrepParity.cpp): when two lists of
    symbols become the same list under the renaming. */
module SymbolRenaming {

  datatype SymbolName = SymbolName(id: nat, spelling: string)

  /** Canonical identities start above every real symbol. */
  const CANONICAL_BASE: nat := 0x1000000000000

  predicate IsGenerated(s: SymbolName) {
    s.spelling != "" && s.spelling[0] == '$'
  }

  function WithoutDigits(spelling: string): string {
    if spelling != "" && '0' <= spelling[|spelling| - 1] <= '9' then WithoutDigits(spelling[..|spelling| - 1])
        else spelling
  }

  method KindOf(spelling: string) returns (kind: string)
    ensures kind == WithoutDigits(spelling)
  {
    var end := |spelling|;
    assert spelling[..end] == spelling;
    while end > 0 && '0' <= spelling[end - 1] <= '9'
      invariant 0 <= end <= |spelling|
      invariant WithoutDigits(spelling[..end]) == WithoutDigits(spelling)
    {
      assert spelling[..end][..end - 1] == spelling[..end - 1];
      end := end - 1;
    }
    kind := spelling[..end];
  }

  // ---------------------------------------------------------------------------
  // The renaming

  type Names = map<nat, SymbolName>

  function Extend(names: Names, s: SymbolName): Names {
    if !IsGenerated(s) || s.id in names then names
    else names[s.id := SymbolName(CANONICAL_BASE + |names| + 1, WithoutDigits(s.spelling))]
  }

  function ExtendAll(names: Names, list: seq<SymbolName>): Names {
    if list == [] then names else Extend(ExtendAll(names, list[..|list| - 1]), list[|list| - 1])
  }

  function Renamed(names: Names, s: SymbolName): SymbolName {
    if IsGenerated(s) && s.id in names then names[s.id] else s
  }

  function NamesOf(list: seq<SymbolName>): Names {
    ExtendAll(map[], list)
  }

  function RenamedAll(names: Names, list: seq<SymbolName>): seq<SymbolName> {
    seq(|list|, i requires 0 <= i < |list| => Renamed(names, list[i]))
  }

  /** The renamer of the source: it names a generated symbol at its first use and never again. */
  class Renamer {
    var names: Names

    constructor ()
      ensures names == map[]
    {
      names := map[];
    }

    method Apply(symbol: SymbolName) returns (r: SymbolName)
      modifies this
      ensures names == Extend(old(names), symbol)
      ensures r == Renamed(names, symbol)
    {
      if !IsGenerated(symbol) {
        return symbol;
      }
      if symbol.id !in names {
        var kind := KindOf(symbol.spelling);
        names := names[symbol.id := SymbolName(CANONICAL_BASE + |names| + 1, kind)];
      }
      r := names[symbol.id];
    }
  }

  /** Every generated symbol of the list has a name. */
  ghost predicate Covers(names: Names, list: seq<SymbolName>) {
    forall i :: 0 <= i < |list| && IsGenerated(list[i]) ==> list[i].id in names
  }

  lemma {:induction false} ExtendAllCovers(names: Names, list: seq<SymbolName>)
    ensures Covers(ExtendAll(names, list), list)
    ensures forall id :: id in names ==> id in ExtendAll(names, list) && ExtendAll(names, list)[id] == names[id]
  {
    if list != [] {
      var k := |list| - 1;
      ExtendAllCovers(names, list[..k]);
      forall i | 0 <= i < |list| && IsGenerated(list[i])
        ensures list[i].id in ExtendAll(names, list)
      {
        if i < k {
          assert list[..k][i] == list[i];
        }
      }
    }
  }

  // ---------------------------------------------------------------------------
  // Correspondence

  /** The same source symbol, or generated symbols that correspond. */
  predicate SameSymbol(sigma: map<nat, nat>, s: SymbolName, t: SymbolName) {
    && (IsGenerated(s) <==> IsGenerated(t))
    && (if IsGenerated(s) then s.id in sigma && sigma[s.id] == t.id else s == t)
  }

  predicate OneToOne(sigma: map<nat, nat>) {
    forall a, b :: a in sigma && b in sigma && sigma[a] == sigma[b] ==> a == b
  }

  ghost predicate Related(sigma: map<nat, nat>, s: seq<SymbolName>, t: seq<SymbolName>) {
    |s| == |t| && forall i :: 0 <= i < |s| ==> SameSymbol(sigma, s[i], t[i])
  }

  /** The place where a generated identity is used first. */
  predicate IsFirst(list: seq<SymbolName>, i: nat) {
    i < |list| && IsGenerated(list[i]) && forall j :: 0 <= j < i && IsGenerated(list[j]) ==> list[j].id != list[i].id
  }

  /** Where an identity is used first, it is spelled as the same kind in both lists. */
  ghost predicate FirstKindsAgree(s: seq<SymbolName>, t: seq<SymbolName>) {
    |s| == |t| && forall i: nat :: IsFirst(s, i) ==> WithoutDigits(s[i].spelling) == WithoutDigits(t[i].spelling)
  }

  /** Wherever an identity is used, it is spelled as the same kind in both lists. */
  ghost predicate KindsAgree(s: seq<SymbolName>, t: seq<SymbolName>) {
    |s| == |t| && forall i :: 0 <= i < |s| && IsGenerated(s[i]) ==>
        WithoutDigits(s[i].spelling) == WithoutDigits(t[i].spelling)
  }

  /** One identity is always spelled as the same kind. */
  ghost predicate WellSpelled(list: seq<SymbolName>) {
    forall i, j ::
      0 <= i < |list| && 0 <= j < |list| && IsGenerated(list[i]) && IsGenerated(list[j]) && list[i].id == list[j].id ==>
        WithoutDigits(list[i].spelling) == WithoutDigits(list[j].spelling)
  }

  /** The two name tables so far agree along the correspondence. */
  ghost predicate NamesAgree(sigma: map<nat, nat>, a: Names, b: Names) {
    && |a| == |b|
    && (forall id :: id in a ==> id in sigma && sigma[id] in b && b[sigma[id]] == a[id])
    && (forall id :: id in sigma && sigma[id] in b ==> id in a)
  }

  lemma {:induction false} RelatedNamesAgree(sigma: map<nat, nat>, s: seq<SymbolName>, t: seq<SymbolName>)
    requires OneToOne(sigma) && Related(sigma, s, t) && FirstKindsAgree(s, t)
    ensures NamesAgree(sigma, NamesOf(s), NamesOf(t))
  {
    if s != [] {
      var k := |s| - 1;
      FirstKindsBefore(s, t);
      RelatedNamesAgree(sigma, s[..k], t[..k]);
      if IsGenerated(s[k]) && s[k].id !in NamesOf(s[..k]) {
        UnnamedIsFirst(s);
      }
      NamesStayAgreed(sigma, NamesOf(s[..k]), NamesOf(t[..k]), s[k], t[k]);
    }
  }

  lemma FirstStaysBehind(s: seq<SymbolName>, i: nat)
    requires s != [] && IsFirst(s[..|s| - 1], i)
    ensures IsFirst(s, i)
  {
    hide IsGenerated;
    assert forall j :: 0 <= j <= i ==> s[..|s| - 1][j] == s[j];
  }

  lemma FirstKindsBefore(s: seq<SymbolName>, t: seq<SymbolName>)
    requires FirstKindsAgree(s, t) && s != []
    ensures FirstKindsAgree(s[..|s| - 1], t[..|s| - 1])
  {
    hide IsFirst, WithoutDigits;
    var u, v := s[..|s| - 1], t[..|s| - 1];
    forall i: nat | IsFirst(u, i)
      ensures i < |u| && WithoutDigits(u[i].spelling) == WithoutDigits(v[i].spelling)
    {
      FirstStaysBehind(s, i);
      FirstIsPlace(u, i);
    }
  }

  lemma FirstIsPlace(s: seq<SymbolName>, i: nat)
    requires IsFirst(s, i)
    ensures i < |s|
  {
  }

  lemma UnnamedIsFirst(s: seq<SymbolName>)
    requires s != [] && IsGenerated(s[|s| - 1]) && s[|s| - 1].id !in NamesOf(s[..|s| - 1])
    ensures IsFirst(s, |s| - 1)
  {
    var k := |s| - 1;
    ExtendAllCovers(map[], s[..k]);
    forall j | 0 <= j < k && IsGenerated(s[j])
      ensures s[j].id != s[k].id
    {
      assert s[..k][j] == s[j];
    }
  }

  lemma NamesStayAgreed(sigma: map<nat, nat>, a: Names, b: Names, s: SymbolName, t: SymbolName)
    requires OneToOne(sigma) && NamesAgree(sigma, a, b) && SameSymbol(sigma, s, t)
    requires IsGenerated(s) && s.id !in a ==> WithoutDigits(s.spelling) == WithoutDigits(t.spelling)
    ensures NamesAgree(sigma, Extend(a, s), Extend(b, t))
  {
  }

  lemma RelatedRenameAlike(sigma: map<nat, nat>, s: seq<SymbolName>, t: seq<SymbolName>)
    requires OneToOne(sigma) && Related(sigma, s, t) && FirstKindsAgree(s, t)
    ensures RenamedAll(NamesOf(s), s) == RenamedAll(NamesOf(t), t)
  {
    RelatedNamesAgree(sigma, s, t);
    NamesAreCanonical(s);
    NamesAreCanonical(t);
    hide NamesOf;
    var u, v := RenamedAll(NamesOf(s), s), RenamedAll(NamesOf(t), t);
    forall i | 0 <= i < |s|
      ensures u[i] == v[i]
    {
      assert SameSymbol(sigma, s[i], t[i]);
    }
  }

  /** Some use of the identity has the given kind. */
  ghost predicate UsedAs(list: seq<SymbolName>, id: nat, kind: string) {
    exists i :: 0 <= i < |list| && IsGenerated(list[i]) && list[i].id == id && WithoutDigits(list[i].spelling) == kind
  }

  /** Canonical names are numbered apart and have the kind of a use. */
  ghost predicate Canonical(names: Names, list: seq<SymbolName>) {
    && (forall id :: id in names ==> CANONICAL_BASE < names[id].id <= CANONICAL_BASE + |names|)
    && (forall a, b :: a in names && b in names && names[a].id == names[b].id ==> a == b)
    && (forall id :: id in names ==> UsedAs(list, id, names[id].spelling))
  }

  lemma UsedStill(list: seq<SymbolName>, s: SymbolName, id: nat, kind: string)
    ensures UsedAs(list, id, kind) ==> UsedAs(list + [s], id, kind)
    ensures IsGenerated(s) ==> UsedAs(list + [s], s.id, WithoutDigits(s.spelling))
  {
    var longer := list + [s];
    if UsedAs(list, id, kind) {
      var i :| 0 <= i < |list| && IsGenerated(list[i]) && list[i].id == id && WithoutDigits(list[i].spelling) == kind;
      assert longer[i] == list[i];
    }
    assert longer[|list|] == s;
  }

  lemma CanonicalStep(names: Names, list: seq<SymbolName>, s: SymbolName)
    requires Canonical(names, list)
    ensures Canonical(Extend(names, s), list + [s])
  {
    hide UsedAs, WithoutDigits;
    var after := Extend(names, s);
    forall id | id in after
      ensures UsedAs(list + [s], id, after[id].spelling)
    {
      UsedStill(list, s, id, after[id].spelling);
    }
  }

  lemma {:induction false} NamesAreCanonical(list: seq<SymbolName>)
    ensures Canonical(NamesOf(list), list) && Covers(NamesOf(list), list)
  {
    ExtendAllCovers(map[], list);
    if list != [] {
      var k := |list| - 1;
      NamesAreCanonical(list[..k]);
      CanonicalStep(NamesOf(list[..k]), list[..k], list[k]);
      assert list == list[..k] + [list[k]];
    }
  }

  lemma {:induction false} KindStartsAlike(spelling: string)
    requires spelling != "" && spelling[0] == '$'
    ensures WithoutDigits(spelling) != "" && WithoutDigits(spelling)[0] == '$'
  {
    var k := |spelling| - 1;
    if '0' <= spelling[k] <= '9' {
      KindStartsAlike(spelling[..k]);
    }
  }

  lemma RenamedIsGenerated(list: seq<SymbolName>, i: nat)
    requires i < |list|
    ensures IsGenerated(Renamed(NamesOf(list), list[i])) <==> IsGenerated(list[i])
    ensures !IsGenerated(list[i]) ==> Renamed(NamesOf(list), list[i]) == list[i]
  {
    if IsGenerated(list[i]) {
      NamesAreCanonical(list);
      hide NamesOf;
      var names, id := NamesOf(list), list[i].id;
      var j :| 0 <= j < |list| && IsGenerated(list[j]) && list[j].id == id
          && WithoutDigits(list[j].spelling) == names[id].spelling;
      KindStartsAlike(list[j].spelling);
    }
  }

  /** A name has the kind of the first use. */
  lemma {:induction false} NamedAtFirst(list: seq<SymbolName>, i: nat)
    requires IsFirst(list, i)
    ensures list[i].id in NamesOf(list) && NamesOf(list)[list[i].id].spelling == WithoutDigits(list[i].spelling)
  {
    var k := |list| - 1;
    var before := NamesOf(list[..k]);
    assert NamesOf(list) == Extend(before, list[k]);
    hide NamesOf, WithoutDigits;
    if i < k {
      FirstBefore(list, i);
      NamedAtFirst(list[..k], i);
    } else {
      FirstIsUnnamed(list);
    }
  }

  lemma FirstBefore(list: seq<SymbolName>, i: nat)
    requires IsFirst(list, i) && i < |list| - 1
    ensures IsFirst(list[..|list| - 1], i)
  {
  }

  lemma FirstIsUnnamed(list: seq<SymbolName>)
    requires list != [] && IsFirst(list, |list| - 1)
    ensures list[|list| - 1].id !in NamesOf(list[..|list| - 1])
  {
    var k := |list| - 1;
    var before := list[..k];
    NamesAreCanonical(before);
    hide NamesOf, WithoutDigits;
    assert forall j :: 0 <= j < |before| ==> before[j] == list[j];
  }

  /** The first generated symbol of an identity. */
  function FirstUse(list: seq<SymbolName>, id: nat): (i: nat)
    requires exists k :: 0 <= k < |list| && IsGenerated(list[k]) && list[k].id == id
    ensures i < |list| && IsGenerated(list[i]) && list[i].id == id
  {
    if IsGenerated(list[0]) && list[0].id == id then 0
    else
      var k :| 0 <= k < |list| && IsGenerated(list[k]) && list[k].id == id;
      assert list[1..][k - 1] == list[k];
      1 + FirstUse(list[1..], id)
  }

  function GeneratedIds(list: seq<SymbolName>): set<nat> {
    set i | 0 <= i < |list| && IsGenerated(list[i]) :: list[i].id
  }

  /** Each identity goes to the one at the same place of the other list. */
  function Matching(s: seq<SymbolName>, t: seq<SymbolName>): map<nat, nat>
    requires |s| == |t|
  {
    map id | id in GeneratedIds(s) :: t[FirstUse(s, id)].id
  }

  /** At equal renamed places the identities determine each other. */
  lemma PlacesMatch(s: seq<SymbolName>, t: seq<SymbolName>, i: nat, j: nat)
    requires RenamedAll(NamesOf(s), s) == RenamedAll(NamesOf(t), t)
    requires i < |s| && j < |s| && IsGenerated(s[i]) && IsGenerated(s[j])
    ensures |s| == |t| && IsGenerated(t[i]) && IsGenerated(t[j])
    ensures s[i].id == s[j].id <==> t[i].id == t[j].id
  {
    var u, v := RenamedAll(NamesOf(s), s), RenamedAll(NamesOf(t), t);
    assert |u| == |v|;
    RenamedIsGenerated(s, i);
    RenamedIsGenerated(s, j);
    RenamedIsGenerated(t, i);
    RenamedIsGenerated(t, j);
    NamesAreCanonical(s);
    NamesAreCanonical(t);
    hide NamesOf, IsGenerated;
    assert u[i] == v[i] && u[j] == v[j];
  }

  lemma RenamedAlikeAreRelated(s: seq<SymbolName>, t: seq<SymbolName>)
    requires RenamedAll(NamesOf(s), s) == RenamedAll(NamesOf(t), t)
    ensures |s| == |t| && OneToOne(Matching(s, t)) && Related(Matching(s, t), s, t)
  {
    var u, v := RenamedAll(NamesOf(s), s), RenamedAll(NamesOf(t), t);
    assert |u| == |v|;
    hide NamesOf;
    var sigma := Matching(s, t);
    forall a, b | a in sigma && b in sigma && sigma[a] == sigma[b]
      ensures a == b
    {
      PlacesMatch(s, t, FirstUse(s, a), FirstUse(s, b));
    }
    forall i | 0 <= i < |s|
      ensures SameSymbol(sigma, s[i], t[i])
    {
      assert u[i] == v[i];
      RenamedIsGenerated(s, i);
      RenamedIsGenerated(t, i);
      if IsGenerated(s[i]) {
        assert s[i].id in GeneratedIds(s);
        PlacesMatch(s, t, i, FirstUse(s, s[i].id));
      }
    }
  }

  lemma RenamedAlikeFirstKinds(s: seq<SymbolName>, t: seq<SymbolName>)
    requires RenamedAll(NamesOf(s), s) == RenamedAll(NamesOf(t), t)
    ensures FirstKindsAgree(s, t)
  {
    var u, v := RenamedAll(NamesOf(s), s), RenamedAll(NamesOf(t), t);
    assert |u| == |v|;
    hide NamesOf;
    forall i: nat | IsFirst(s, i)
      ensures WithoutDigits(s[i].spelling) == WithoutDigits(t[i].spelling)
    {
      assert u[i] == v[i];
      FirstStaysFirst(s, t, i);
      NamedAtFirst(s, i);
      NamedAtFirst(t, i);
    }
  }

  lemma FirstStaysFirst(s: seq<SymbolName>, t: seq<SymbolName>, i: nat)
    requires RenamedAll(NamesOf(s), s) == RenamedAll(NamesOf(t), t) && IsFirst(s, i)
    ensures |s| == |t| && IsFirst(t, i)
  {
    var u, v := RenamedAll(NamesOf(s), s), RenamedAll(NamesOf(t), t);
    assert |u| == |v|;
    PlacesMatch(s, t, i, i);
    hide NamesOf;
    forall j | 0 <= j < i && IsGenerated(t[j])
      ensures t[j].id != t[i].id
    {
      assert u[j] == v[j];
      RenamedIsGenerated(s, j);
      RenamedIsGenerated(t, j);
      PlacesMatch(s, t, j, i);
    }
  }

  /** Two lists become equal under the renaming exactly when a one-to-one correspondence of generated
      symbols turns one into the other and each has the same kind where it is used first. */
  lemma RenamingDecidesCorrespondence(s: seq<SymbolName>, t: seq<SymbolName>)
    ensures RenamedAll(NamesOf(s), s) == RenamedAll(NamesOf(t), t) <==>
      FirstKindsAgree(s, t) && exists sigma :: OneToOne(sigma) && Related(sigma, s, t)
  {
    hide RenamedAll, NamesOf, OneToOne, Related, FirstKindsAgree, Matching;
    if RenamedAll(NamesOf(s), s) == RenamedAll(NamesOf(t), t) {
      RenamedAlikeAreRelated(s, t);
      RenamedAlikeFirstKinds(s, t);
    }
    if sigma :| FirstKindsAgree(s, t) && OneToOne(sigma) && Related(sigma, s, t) {
      RelatedRenameAlike(sigma, s, t);
    }
  }

  /** Where one identity always has one kind, agreeing at first uses is agreeing everywhere. */
  lemma FirstKindsAreAllKinds(sigma: map<nat, nat>, s: seq<SymbolName>, t: seq<SymbolName>)
    requires OneToOne(sigma) && Related(sigma, s, t) && WellSpelled(s) && WellSpelled(t)
    ensures FirstKindsAgree(s, t) <==> KindsAgree(s, t)
  {
    if FirstKindsAgree(s, t) {
      forall i | 0 <= i < |s| && IsGenerated(s[i])
        ensures WithoutDigits(s[i].spelling) == WithoutDigits(t[i].spelling)
      {
        var k := FirstUse(s, s[i].id);
        FirstUseIsFirst(s, s[i].id);
        assert SameSymbol(sigma, s[i], t[i]) && SameSymbol(sigma, s[k], t[k]);
      }
    }
  }

  lemma {:induction false} FirstUseIsFirst(list: seq<SymbolName>, id: nat)
    requires exists k :: 0 <= k < |list| && IsGenerated(list[k]) && list[k].id == id
    ensures IsFirst(list, FirstUse(list, id))
    decreases |list|
  {
    if !(IsGenerated(list[0]) && list[0].id == id) {
      var k :| 0 <= k < |list| && IsGenerated(list[k]) && list[k].id == id;
      assert list[1..][k - 1] == list[k];
      FirstUseIsFirst(list[1..], id);
      var f := FirstUse(list[1..], id);
      forall j | 0 <= j < f + 1 && IsGenerated(list[j])
        ensures list[j].id != id
      {
        if j > 0 {
          assert list[1..][j - 1] == list[j];
        }
      }
    }
  }
}
