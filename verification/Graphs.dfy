/** Directed graphs over block identities, paths and reachability: the vocabulary every
    analysis theorem is stated in. */
module Graphs {

  /** A block identity: an integer that is compared and ordered, never computed with. */
  type BlockId = nat

  /** Outgoing (or incoming) edges of each block, in order. */
  type EdgeMap = map<BlockId, seq<BlockId>>

  function Targets(e: EdgeMap, b: BlockId): seq<BlockId> {
    if b in e then e[b] else []
  }

  predicate Edge(e: EdgeMap, a: BlockId, b: BlockId) {
    b in Targets(e, a)
  }

  function Elements<T>(s: seq<T>): set<T> {
    set x | x in s
  }

  lemma ElementsPrefix<T>(s: seq<T>, i: nat)
    requires i < |s|
    ensures Elements(s[..i + 1]) == Elements(s[..i]) + {s[i]}
  {
    assert s[..i + 1] == s[..i] + [s[i]];
  }

  lemma Associative<T>(a: seq<T>, b: seq<T>, c: seq<T>)
    ensures (a + b) + c == a + (b + c)
  {
  }

  predicate Distinct<T(==)>(s: seq<T>) {
    forall i, j :: 0 <= i < j < |s| ==> s[i] != s[j]
  }

  predicate Ascending(s: seq<BlockId>) {
    forall i, j :: 0 <= i < j < |s| ==> s[i] < s[j]
  }

  /** Every edge leads to a block that has edges of its own recorded. */
  predicate Closed(e: EdgeMap) {
    forall a, b :: a in e && b in e[a] ==> b in e
  }

  ghost predicate IsPath(e: EdgeMap, p: seq<BlockId>) {
    |p| > 0 && forall i :: 0 <= i < |p| - 1 ==> Edge(e, p[i], p[i + 1])
  }

  ghost predicate PathBetween(e: EdgeMap, p: seq<BlockId>, a: BlockId, b: BlockId) {
    IsPath(e, p) && p[0] == a && p[|p| - 1] == b
  }

  ghost predicate Reaches(e: EdgeMap, a: BlockId, b: BlockId) {
    exists p :: PathBetween(e, p, a, b)
  }

  lemma ReachesSelf(e: EdgeMap, a: BlockId)
    ensures Reaches(e, a, a)
  {
    assert PathBetween(e, [a], a, a);
  }

  lemma ReachesEdge(e: EdgeMap, a: BlockId, b: BlockId)
    requires Edge(e, a, b)
    ensures Reaches(e, a, b)
  {
    assert PathBetween(e, [a, b], a, b);
  }

  lemma JoinPaths(e: EdgeMap, p: seq<BlockId>, q: seq<BlockId>, a: BlockId, b: BlockId, c: BlockId)
    requires PathBetween(e, p, a, b) && PathBetween(e, q, b, c)
    ensures PathBetween(e, p + q[1..], a, c)
  {
    var r := p + q[1..];
    forall i | 0 <= i < |r| - 1
      ensures Edge(e, r[i], r[i + 1])
    {
      if i >= |p| - 1 {
        assert r[i] == q[i - (|p| - 1)];
        assert r[i + 1] == q[i + 1 - (|p| - 1)];
      }
    }
  }

  lemma ReachesTransitive(e: EdgeMap, a: BlockId, b: BlockId, c: BlockId)
    requires Reaches(e, a, b) && Reaches(e, b, c)
    ensures Reaches(e, a, c)
  {
    var p :| PathBetween(e, p, a, b);
    var q :| PathBetween(e, q, b, c);
    JoinPaths(e, p, q, a, b, c);
  }

  lemma ReachesThenEdge(e: EdgeMap, a: BlockId, b: BlockId, c: BlockId)
    requires Reaches(e, a, b) && Edge(e, b, c)
    ensures Reaches(e, a, c)
  {
    ReachesEdge(e, b, c);
    ReachesTransitive(e, a, b, c);
  }

  lemma SliceIsPath(e: EdgeMap, p: seq<BlockId>, i: nat, j: nat)
    requires IsPath(e, p) && i <= j < |p|
    ensures PathBetween(e, p[i..j + 1], p[i], p[j])
  {
    var q := p[i..j + 1];
    forall k | 0 <= k < |q| - 1
      ensures Edge(e, q[k], q[k + 1])
    {
      assert Edge(e, p[i + k], p[i + k + 1]);
    }
  }

  /** A set that contains the start of a path and every target of its own edges contains
      the whole path. */
  lemma {:induction false} ClosedSetHoldsPath(e: EdgeMap, p: seq<BlockId>, s: set<BlockId>)
    requires IsPath(e, p) && p[0] in s
    requires forall a, b :: a in s && Edge(e, a, b) ==> b in s
    ensures forall b :: b in p ==> b in s
    decreases |p|
  {
    if |p| > 1 {
      assert Edge(e, p[0], p[1]);
      SliceIsPath(e, p, 1, |p| - 1);
      assert p[1..] == p[1..|p| - 1 + 1];
      ClosedSetHoldsPath(e, p[1..], s);
      assert p == [p[0]] + p[1..];
    }
  }

  lemma ClosedSetHoldsReachable(e: EdgeMap, a: BlockId, b: BlockId, s: set<BlockId>)
    requires Reaches(e, a, b) && a in s
    requires forall x, y :: x in s && Edge(e, x, y) ==> y in s
    ensures b in s
  {
    var p :| PathBetween(e, p, a, b);
    ClosedSetHoldsPath(e, p, s);
  }

  // ---------------------------------------------------------------------------
  // Catalogues keep the first record of an identity

  /** Position of the first occurrence. */
  function FirstIndex(ids: seq<BlockId>, id: BlockId): (i: nat)
    requires id in ids
    ensures i < |ids| && ids[i] == id && id !in ids[..i]
  {
    if ids[0] == id then 0 else 1 + FirstIndex(ids[1..], id)
  }

  lemma {:induction false} FirstIndexIs(ids: seq<BlockId>, i: nat)
    requires i < |ids| && ids[i] !in ids[..i]
    ensures FirstIndex(ids, ids[i]) == i
  {
    if i > 0 {
      assert ids[0] in ids[..i];
      assert ids[1..][..i - 1] == ids[..i][1..];
      FirstIndexIs(ids[1..], i - 1);
    }
  }

  // ---------------------------------------------------------------------------
  // Ordered views of sets and sequences

  /** Insertion into an ascending sequence, keeping duplicates out. */
  function Insert(s: seq<BlockId>, x: BlockId): (r: seq<BlockId>)
    requires Ascending(s)
    ensures Ascending(r)
    ensures forall y :: y in r <==> y in s || y == x
  {
    if s == [] then [x]
    else if x < s[0] then [x] + s
    else if x == s[0] then s
    else
      var rest := Insert(s[1..], x);
      assert s == [s[0]] + s[1..];
      assert forall i :: 0 <= i < |rest| ==> rest[i] in rest;
      [s[0]] + rest
  }

  /** Sorting followed by removal of equal neighbours. */
  function SortUnique(s: seq<BlockId>): (r: seq<BlockId>)
    ensures Ascending(r) && Elements(r) == Elements(s)
  {
    if s == [] then [] else
      var k := |s| - 1;
      ElementsPrefix(s, k);
      assert s[..k + 1] == s;
      Insert(SortUnique(s[..k]), s[k])
  }

  lemma FirstIsElement(s: seq<BlockId>)
    ensures s != [] ==> s[0] in Elements(s)
  {
  }

  /** Two ascending sequences over the same elements are equal. */
  lemma {:induction false} AscendingUnique(s: seq<BlockId>, t: seq<BlockId>)
    requires Ascending(s) && Ascending(t) && Elements(s) == Elements(t)
    ensures s == t
  {
    if s == [] || t == [] {
      FirstIsElement(s);
      FirstIsElement(t);
    } else {
      FirstIsElement(s);
      FirstIsElement(t);
      assert s[0] == t[0];
      assert s == [s[0]] + s[1..] && t == [t[0]] + t[1..];
      assert s[0] !in s[1..] && t[0] !in t[1..];
      assert Elements(s[1..]) == Elements(s) - {s[0]};
      assert Elements(t[1..]) == Elements(t) - {t[0]};
      AscendingUnique(s[1..], t[1..]);
    }
  }

  lemma AscendingIsDistinct(s: seq<BlockId>)
    requires Ascending(s)
    ensures Distinct(s)
  {
  }

  lemma {:induction false} DistinctSize<T>(s: seq<T>)
    requires Distinct(s)
    ensures |Elements(s)| == |s|
  {
    if s != [] {
      var k := |s| - 1;
      DistinctSize(s[..k]);
      assert s == s[..k] + [s[k]];
      assert Elements(s) == Elements(s[..k]) + {s[k]};
      assert s[k] !in Elements(s[..k]);
    }
  }

  lemma SubsetSize<T>(a: set<T>, b: set<T>)
    requires a <= b
    ensures |a| <= |b| && (a != b ==> |a| < |b|)
  {
    assert b == a + (b - a);
    assert |b| == |a| + |b - a|;
  }

  predicate IsLeast(m: BlockId, s: set<BlockId>) {
    m in s && forall x :: x in s ==> m <= x
  }

  /** The members of a set in ascending order, the order a sorted container is walked in. */
  function ToVector(s: set<BlockId>): (v: seq<BlockId>)
    ensures Ascending(v) && Elements(v) == s
  {
    if s == {} then [] else
      HasLeast(s);
      var m :| IsLeast(m, s);
      var rest := ToVector(s - {m});
      PrependLeast(m, rest, s);
      [m] + rest
  }

  lemma PrependLeast(m: BlockId, rest: seq<BlockId>, s: set<BlockId>)
    requires IsLeast(m, s) && Ascending(rest) && Elements(rest) == s - {m}
    ensures Ascending([m] + rest) && Elements([m] + rest) == s
  {
    forall i | 0 <= i < |rest|
      ensures m < rest[i]
    {
      assert rest[i] in Elements(rest);
    }
    assert Elements([m] + rest) == {m} + Elements(rest);
  }

  lemma {:induction false} HasLeast(s: set<BlockId>)
    requires s != {}
    ensures exists m :: IsLeast(m, s)
    decreases |s|
  {
    var y :| y in s;
    var rest := s - {y};
    if rest == {} {
      assert s == {y};
      assert IsLeast(y, s);
    } else {
      HasLeast(rest);
      var m :| IsLeast(m, rest);
      assert forall x :: x in s ==> x == y || x in rest;
      assert IsLeast(if m < y then m else y, s);
    }
  }
}
