/** Dense bit sets over a finite universe (Talac/Analysis/DenseBitSet.cpp) and the catalogues
    that give sparse identities their bit positions. */
module DenseBits {
  import opened Graphs

  /** The value of a bit set: the size of its universe and the indices that are set. The analyses pass
      bit sets and keep them in maps by value, and change one as an object of the class below. */
  datatype Bits = Bits(size: nat, members: set<nat>)
  {
    ghost predicate Valid() {
      forall i :: i in members ==> i < size
    }
  }

  function Empty(size: nat): (b: Bits)
    ensures b.Valid()
  {
    Bits(size, {})
  }

  function Full(size: nat): (b: Bits)
    ensures b.Valid()
  {
    Bits(size, Universe(size))
  }

  function Universe(size: nat): (s: set<nat>)
    ensures forall i: nat :: i in s <==> i < size
  {
    if size == 0 then {} else Universe(size - 1) + {size - 1}
  }

  /** The packed set. Queries outside the universe are false, mutations there do nothing, and
      set algebra refuses a partner of another size without changing anything. */
  class DenseBitSet {
    var bits: array<bool>

    /** The finite set the bits stand for. */
    ghost function Value(): (b: Bits)
      reads this, bits
      ensures b.Valid()
    {
      Bits(bits.Length, set i: nat | i < bits.Length && bits[i])
    }

    constructor (bitCount: nat, value: bool)
      ensures fresh(bits)
      ensures Value() == if value then Full(bitCount) else Empty(bitCount)
    {
      bits := new bool[bitCount](_ => value);
    }

    /** A copy of a bit set. */
    constructor Of(value: Bits)
      requires value.Valid()
      ensures fresh(bits) && Value() == value
    {
      bits := new bool[value.size](i => i in value.members);
    }

    /** The bit set as a value. */
    method Contents() returns (b: Bits)
      ensures b == Value()
    {
      b := Bits(bits.Length, set i | 0 <= i < bits.Length && bits[i]);
    }

    method Size() returns (n: nat)
      ensures n == Value().size
    {
      n := bits.Length;
    }

    method None() returns (r: bool)
      ensures r <==> Value().members == {}
    {
      r := forall i :: 0 <= i < bits.Length ==> !bits[i];
      if !r {
        var i :| 0 <= i < bits.Length && bits[i];
        assert i in Value().members;
      }
    }

    method Any() returns (r: bool)
      ensures r <==> Value().members != {}
    {
      r := None();
      r := !r;
    }

    method Count() returns (n: nat)
      ensures n == |Value().members|
    {
      n := 0;
      ghost var seen: set<nat> := {};
      for i := 0 to bits.Length
        invariant seen == set k: nat | k < i && bits[k]
        invariant n == |seen|
      {
        if bits[i] {
          seen := seen + {i};
          n := n + 1;
        }
      }
    }

    method Test(index: nat) returns (r: bool)
      ensures r <==> index in Value().members
    {
      r := index < bits.Length && bits[index];
    }

    method Set(index: nat)
      modifies bits
      ensures Value() == old(Value()).(members := old(Value()).members + if index < old(Value()).size then {index}
        else {})
    {
      if index < bits.Length {
        bits[index] := true;
      }
    }

    method Reset(index: nat)
      modifies bits
      ensures Value() == old(Value()).(members := old(Value()).members - {index})
    {
      if index < bits.Length {
        bits[index] := false;
      }
    }

    method Assign(index: nat, value: bool)
      modifies bits
      ensures index in Value().members <==> value && index < Value().size
      ensures Value().size == old(Value()).size
      ensures forall i :: i != index ==> (i in Value().members <==> i in old(Value()).members)
    {
      if value {
        Set(index);
      } else {
        Reset(index);
      }
    }

    method Clear()
      modifies bits
      ensures Value() == Empty(old(Value()).size)
    {
      for i := 0 to bits.Length
        invariant forall k :: 0 <= k < i ==> !bits[k]
      {
        bits[i] := false;
      }
    }

    method Fill()
      modifies bits
      ensures Value() == Full(old(Value()).size)
    {
      for i := 0 to bits.Length
        invariant forall k :: 0 <= k < i ==> bits[k]
      {
        bits[i] := true;
      }
    }

    method UnionWith(other: DenseBitSet) returns (ok: bool)
      modifies bits
      ensures ok <==> old(Value()).size == old(other.Value()).size
      ensures Value() == if ok
        then old(Value()).(members := old(Value()).members + old(other.Value()).members)
        else old(Value())
    {
      if bits.Length != other.bits.Length {
        return false;
      }
      ghost var mine, theirs := bits[..], other.bits[..];
      for i := 0 to bits.Length
        invariant forall k :: 0 <= k < i ==> bits[k] == (mine[k] || theirs[k])
        invariant forall k :: i <= k < bits.Length ==> bits[k] == mine[k] && other.bits[k] == theirs[k]
      {
        bits[i] := bits[i] || other.bits[i];
      }
      ok := true;
    }

    method IntersectWith(other: DenseBitSet) returns (ok: bool)
      modifies bits
      ensures ok <==> old(Value()).size == old(other.Value()).size
      ensures Value() == if ok
        then old(Value()).(members := old(Value()).members * old(other.Value()).members)
        else old(Value())
    {
      if bits.Length != other.bits.Length {
        return false;
      }
      ghost var mine, theirs := bits[..], other.bits[..];
      for i := 0 to bits.Length
        invariant forall k :: 0 <= k < i ==> bits[k] == (mine[k] && theirs[k])
        invariant forall k :: i <= k < bits.Length ==> bits[k] == mine[k] && other.bits[k] == theirs[k]
      {
        bits[i] := bits[i] && other.bits[i];
      }
      ok := true;
    }

    method Subtract(other: DenseBitSet) returns (ok: bool)
      modifies bits
      ensures ok <==> old(Value()).size == old(other.Value()).size
      ensures Value() == if ok
        then old(Value()).(members := old(Value()).members - old(other.Value()).members)
        else old(Value())
    {
      if bits.Length != other.bits.Length {
        return false;
      }
      ghost var mine, theirs := bits[..], other.bits[..];
      for i := 0 to bits.Length
        invariant forall k :: 0 <= k < i ==> bits[k] == (mine[k] && !theirs[k])
        invariant forall k :: i <= k < bits.Length ==> bits[k] == mine[k] && other.bits[k] == theirs[k]
      {
        bits[i] := bits[i] && !other.bits[i];
      }
      ok := true;
    }

    method SetIndices() returns (indices: seq<nat>)
      ensures Ascending(indices) && Elements(indices) == Value().members
    {
      indices := [];
      for i := 0 to bits.Length
        invariant Ascending(indices)
        invariant forall k :: 0 <= k < |indices| ==> indices[k] < i
        invariant forall k: nat :: k in indices <==> k < i && bits[k]
      {
        if bits[i] {
          indices := indices + [i];
        }
      }
    }
  }

  // ---------------------------------------------------------------------------
  // Catalogues

  /** A sparse identity: a storage, a register or a handle. */
  type Identity = nat

  /** Sparse identities in ascending order and their positions. */
  datatype Catalog = Catalog(storage: seq<Identity>, indices: map<Identity, nat>)
  {
    ghost predicate Valid() {
      && Ascending(storage)
      && (forall s :: s in indices <==> s in storage)
      && (forall s :: s in indices ==> indices[s] < |storage| && storage[indices[s]] == s)
    }
  }

  /** Give every identity of an ascending list its position. */
  method IndexStorage(storage: seq<Identity>) returns (c: Catalog)
    requires Ascending(storage)
    ensures c.Valid() && c.storage == storage
  {
    var indices: map<Identity, nat> := map[];
    for i := 0 to |storage|
      invariant forall s :: s in indices <==> s in storage[..i]
      invariant forall s :: s in indices ==> indices[s] < |storage| && storage[indices[s]] == s
    {
      assert storage[..i + 1] == storage[..i] + [storage[i]];
      indices := indices[storage[i] := i];
    }
    assert storage[..|storage|] == storage;
    c := Catalog(storage, indices);
  }

  /** The identities whose bits are set. */
  ghost function Named(c: Catalog, bits: set<nat>): (s: set<Identity>) {
    set i | i in bits && i < |c.storage| :: c.storage[i]
  }

  lemma AscendingAt(s: seq<Identity>, i: nat, j: nat)
    requires Ascending(s) && i < |s| && j < |s| && s[i] == s[j]
    ensures i == j
  {
  }

  lemma PositionIs(c: Catalog, s: Identity, i: nat)
    requires c.Valid() && i < |c.storage|
    ensures c.storage[i] == s <==> s in c.indices && c.indices[s] == i
  {
    if c.storage[i] == s {
      assert s in c.storage;
      AscendingAt(c.storage, i, c.indices[s]);
    }
  }

  /** A bit is set exactly when its identity is named. */
  lemma TestMeans(c: Catalog, bits: set<nat>, s: Identity)
    requires c.Valid() && s in c.indices
    ensures c.indices[s] in bits <==> s in Named(c, bits)
  {
    if s in Named(c, bits) {
      var i :| i in bits && i < |c.storage| && c.storage[i] == s;
      PositionIs(c, s, i);
    }
  }

  lemma NamedSet(c: Catalog, bits: set<nat>, s: Identity)
    requires c.Valid() && s in c.indices
    ensures Named(c, bits + {c.indices[s]}) == Named(c, bits) + {s}
  {
  }

  lemma NamedReset(c: Catalog, bits: set<nat>, s: Identity)
    requires c.Valid() && s in c.indices
    ensures Named(c, bits - {c.indices[s]}) == Named(c, bits) - {s}
  {
    forall x | x in Named(c, bits) && x != s
      ensures x in Named(c, bits - {c.indices[s]})
    {
      var i :| i in bits && i < |c.storage| && c.storage[i] == x;
    }
    if s in Named(c, bits - {c.indices[s]}) {
      var i :| i in bits && i != c.indices[s] && i < |c.storage| && c.storage[i] == s;
      PositionIs(c, s, i);
    }
  }

  lemma NamedUnion(c: Catalog, a: set<nat>, b: set<nat>)
    ensures Named(c, a + b) == Named(c, a) + Named(c, b)
  {
  }

  lemma NamedIntersection(c: Catalog, a: set<nat>, b: set<nat>)
    requires c.Valid()
    ensures Named(c, a * b) == Named(c, a) * Named(c, b)
  {
    forall x | x in Named(c, a) && x in Named(c, b)
      ensures x in Named(c, a * b)
    {
      var i :| i in a && i < |c.storage| && c.storage[i] == x;
      var j :| j in b && j < |c.storage| && c.storage[j] == x;
      PositionIs(c, x, i);
      PositionIs(c, x, j);
    }
  }

  /** Sets of positions of the universe are equal exactly when they name the same identities. */
  lemma NamedInjective(c: Catalog, a: Bits, b: Bits)
    requires c.Valid() && a.Valid() && b.Valid() && a.size == b.size == |c.storage|
    ensures a == b <==> Named(c, a.members) == Named(c, b.members)
  {
    if Named(c, a.members) == Named(c, b.members) {
      forall i | i in a.members || i in b.members
        ensures i in a.members <==> i in b.members
      {
        assert i < |c.storage|;
        assert c.storage[i] in c.storage;
        PositionIs(c, c.storage[i], i);
        TestMeans(c, a.members, c.storage[i]);
        TestMeans(c, b.members, c.storage[i]);
      }
    }
  }

  /** The set bits as identities in ascending order. */
  method Visible(c: Catalog, values: Bits) returns (result: seq<Identity>)
    requires c.Valid() && values.Valid() && values.size == |c.storage|
    ensures Ascending(result) && Elements(result) == Named(c, values.members)
  {
    result := [];
    for i := 0 to |c.storage|
      invariant Ascending(result)
      invariant forall k :: 0 <= k < |result| && i < |c.storage| ==> result[k] < c.storage[i]
      invariant forall s :: s in result <==> exists j: nat :: j < i && j in values.members && c.storage[j] == s
    {
      if i in values.members {
        result := result + [c.storage[i]];
      }
    }
    assert forall s :: s in Elements(result) <==> s in Named(c, values.members);
  }

  lemma MembersBounded(b: Bits)
    requires b.Valid()
    ensures |b.members| <= b.size
  {
    BoundedSize(b.members, b.size);
  }

  lemma {:induction false} BoundedSize(s: set<nat>, n: nat)
    requires forall i :: i in s ==> i < n
    ensures |s| <= n
  {
    if n > 0 {
      BoundedSize(s - {n - 1}, n - 1);
      if n - 1 in s {
        assert |s| == |s - {n - 1}| + 1;
      }
    } else {
      assert s == {};
    }
  }
}
