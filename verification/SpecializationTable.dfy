/** The intern table of specializations (Talac/Core/Template.cpp): a shared lookup, then a second
    lookup and the insertion under the exclusive lock, in every interleaving of any threads. */
module SpecializationTable {
  import opened Wrappers
  import opened TypeIdentity

  datatype Specialization = Specialization(id: nat, identity: string, original: Type)

  datatype Table = Table(entries: seq<Specialization>, byIdentity: map<string, nat>)
  {
    /** Identifiers count from one without a gap, identities are distinct, and the index agrees. */
    ghost predicate Numbered() {
      forall k :: 0 <= k < |entries| ==>
        entries[k].id == k + 1 && entries[k].identity == RenderIdentity(entries[k].original)
    }

    ghost predicate Indexed() {
      forall k :: 0 <= k < |entries| ==> entries[k].identity in byIdentity && byIdentity[entries[k].identity] == k + 1
    }

    ghost predicate Pointed() {
      forall s :: s in byIdentity ==> 1 <= byIdentity[s] <= |entries| && entries[byIdentity[s] - 1].identity == s
    }

    ghost predicate Valid() {
      Numbered() && Indexed() && Pointed()
    }
  }

  const EMPTY := Table([], map[])

  // ---------------------------------------------------------------------------
  // The two critical sections

  /** What the shared lookup finds. */
  function Lookup(table: Table, identity: string): Option<nat> {
    if identity in table.byIdentity then Some(table.byIdentity[identity]) else None
  }

  /** What the exclusive section leaves behind, and the identifier it answers with. */
  function InsertOrFind(table: Table, identity: string, t: Type): (Table, nat, bool) {
    if identity in table.byIdentity then (table, table.byIdentity[identity], false)
    else (WithEntry(table, identity, t), |table.entries| + 1, true)
  }

  /** The table object with both sections run one after the other, as a single caller sees it. */
  class Specializations {
    var table: Table

    constructor ()
      ensures table == EMPTY && table.Valid()
    {
      table := EMPTY;
    }

    method Intern(t: Type) returns (id: nat, inserted: bool)
      requires table.Valid()
      modifies this
      ensures table.Valid()
      ensures old(table.entries) <= table.entries && |table.entries| == |old(table.entries)| + if inserted then 1 else 0
      ensures 1 <= id <= |table.entries| && Meaning(table.entries[id - 1].original) == Meaning(t)
      ensures inserted ==> id == |table.entries| && table.entries[id - 1] == Specialization(id, RenderIdentity(t), t)
      ensures inserted <==> forall k :: 0 <= k < |old(table.entries)| ==>
        Meaning(old(table.entries)[k].original) != Meaning(t)
    {
      hide RenderIdentity, Meaning;
      var identity := Identity(t);
      var found := Lookup(table, identity);
      EntriesMean(table, t);
      if found.Some? {
        IdentityIsMeaning(table.entries[found.value - 1].original, t);
        return found.value, false;
      }
      InsertKeepsValid(table, identity, t);
      IdentityIsMeaning(t, t);
      var section := InsertOrFind(table, identity, t);
      table, id, inserted := section.0, section.1, section.2;
    }

    method FindById(id: nat) returns (entry: Option<Specialization>)
      requires table.Valid()
      ensures entry.Some? <==> 1 <= id <= |table.entries|
      ensures entry.Some? ==> entry.value == table.entries[id - 1] && entry.value.id == id
    {
      entry := if id == 0 || id > |table.entries| then None else Some(table.entries[id - 1]);
    }

    method FindByType(t: Type) returns (entry: Option<Specialization>)
      requires table.Valid()
      ensures entry.Some? <==> exists k :: 0 <= k < |table.entries| && Meaning(table.entries[k].original) == Meaning(t)
      ensures entry.Some? ==> entry.value in table.entries && Meaning(entry.value.original) == Meaning(t)
    {
      hide RenderIdentity, Meaning;
      var identity := Identity(t);
      var found := Lookup(table, identity);
      EntriesMean(table, t);
      entry := None;
      if found.Some? {
        entry := Some(table.entries[found.value - 1]);
        IdentityIsMeaning(entry.value.original, t);
      }
    }
  }

  /** The index knows an identity exactly when some entry means the type. */
  lemma EntriesMean(table: Table, t: Type)
    requires table.Valid()
    ensures RenderIdentity(t) in table.byIdentity <==>
      exists k :: 0 <= k < |table.entries| && Meaning(table.entries[k].original) == Meaning(t)
  {
    hide RenderIdentity, Meaning;
    forall k | 0 <= k < |table.entries|
      ensures Meaning(table.entries[k].original) == Meaning(t) <==> table.entries[k].identity == RenderIdentity(t)
    {
      IdentityIsMeaning(table.entries[k].original, t);
    }
    if RenderIdentity(t) in table.byIdentity {
      var k := table.byIdentity[RenderIdentity(t)] - 1;
      assert table.entries[k].identity == RenderIdentity(t);
    }
  }

  lemma InsertKeepsValid(table: Table, identity: string, t: Type)
    requires table.Valid() && identity == RenderIdentity(t)
    ensures
      var section := InsertOrFind(table, identity, t);
      && section.0.Valid() && table.entries <= section.0.entries
      && 1 <= section.1 <= |section.0.entries| && section.0.entries[section.1 - 1].identity == identity
  {
    hide RenderIdentity;
    if identity in table.byIdentity {
    } else {
      NewEntryNumbered(table, identity, t);
      NewEntryIndexed(table, identity, t);
      NewEntryPointed(table, identity, t);
    }
  }

  function WithEntry(table: Table, identity: string, t: Type): Table {
    var id := |table.entries| + 1;
    Table(table.entries + [Specialization(id, identity, t)], table.byIdentity[identity := id])
  }

  lemma NewEntryNumbered(table: Table, identity: string, t: Type)
    requires table.Numbered() && identity == RenderIdentity(t)
    ensures WithEntry(table, identity, t).Numbered()
  {
    hide RenderIdentity;
  }

  lemma NewEntryIndexed(table: Table, identity: string, t: Type)
    requires table.Indexed() && identity !in table.byIdentity
    ensures WithEntry(table, identity, t).Indexed()
  {
    var after := WithEntry(table, identity, t);
    forall k | 0 <= k < |after.entries|
      ensures after.entries[k].identity in after.byIdentity && after.byIdentity[after.entries[k].identity] == k + 1
    {
      if k < |table.entries| {
        assert after.entries[k] == table.entries[k];
      }
    }
  }

  lemma NewEntryPointed(table: Table, identity: string, t: Type)
    requires table.Pointed()
    ensures WithEntry(table, identity, t).Pointed()
  {
    var after := WithEntry(table, identity, t);
    forall s | s in after.byIdentity
      ensures 1 <= after.byIdentity[s] <= |after.entries| && after.entries[after.byIdentity[s] - 1].identity == s
    {
      if s != identity {
        assert s in table.byIdentity;
      }
    }
  }

  // ---------------------------------------------------------------------------
  // Threads

  /** One call of Intern: before the shared lookup, between the two locks, and answered. */
  datatype Thread = Ready(wanted: Type) | Missed(wanted: Type) | Done(wanted: Type, id: nat, inserted: bool)

  datatype System = System(table: Table, threads: seq<Thread>)

  /** Thread i passes one critical section. */
  function Step(s: System, i: nat): System
    requires i < |s.threads|
  {
    match s.threads[i]
    case Ready(t) =>
      var found := Lookup(s.table, RenderIdentity(t));
      s.(threads := s.threads[i := if found.Some? then Done(t, found.value, false) else Missed(t)])
    case Missed(t) =>
      var section := InsertOrFind(s.table, RenderIdentity(t), t);
      System(section.0, s.threads[i := Done(t, section.1, section.2)])
    case Done(_, _, _) => s
  }

  /** Any interleaving: the threads that pass a section, one after another. */
  ghost function Run(s: System, schedule: seq<nat>): (r: System)
    requires forall k :: 0 <= k < |schedule| ==> schedule[k] < |s.threads|
    ensures |r.threads| == |s.threads|
  {
    if schedule == [] then s else Step(Run(s, schedule[..|schedule| - 1]), schedule[|schedule| - 1])
  }

  ghost predicate Answered(table: Table, thread: Thread) {
    thread.Done? ==>
      1 <= thread.id <= |table.entries| && table.entries[thread.id - 1].identity == RenderIdentity(thread.wanted)
  }

  /** Entry k was inserted by this thread. */
  predicate InsertedBy(thread: Thread, k: nat) {
    thread.Done? && thread.inserted && thread.id == k + 1
  }

  ghost predicate HasInserter(threads: seq<Thread>, k: nat) {
    exists i :: 0 <= i < |threads| && InsertedBy(threads[i], k)
  }

  ghost predicate AtMostOneInserter(threads: seq<Thread>, k: nat) {
    forall i, j ::
      0 <= i < |threads| && 0 <= j < |threads| && InsertedBy(threads[i], k) && InsertedBy(threads[j], k) ==> i == j
  }

  ghost predicate AllAnswered(table: Table, threads: seq<Thread>) {
    forall i :: 0 <= i < |threads| ==> Answered(table, threads[i])
  }

  /** Each entry from position kept on has exactly one inserter, and no earlier one has any. */
  ghost predicate Inserters(table: Table, threads: seq<Thread>, kept: nat) {
    && (forall k: nat :: HasInserter(threads, k) <==> kept <= k < |table.entries|)
    && (forall k: nat :: AtMostOneInserter(threads, k))
  }

  /** What every interleaving keeps: a valid table, right answers, and one inserter an entry. */
  ghost predicate Consistent(s: System, kept: nat) {
    && s.table.Valid() && kept <= |s.table.entries|
    && AllAnswered(s.table, s.threads) && Inserters(s.table, s.threads, kept)
  }

  /** A thread that moves on changes the inserters of at most the entry it inserts. */
  lemma InsertersAfter(threads: seq<Thread>, i: nat, thread: Thread, k: nat)
    requires i < |threads| && !threads[i].Done?
    ensures HasInserter(threads[i := thread], k) <==> HasInserter(threads, k) || InsertedBy(thread, k)
    ensures AtMostOneInserter(threads, k) && (InsertedBy(thread, k) ==> !HasInserter(threads, k)) ==>
      AtMostOneInserter(threads[i := thread], k)
  {
    var after := threads[i := thread];
    if HasInserter(threads, k) {
      var j :| 0 <= j < |threads| && InsertedBy(threads[j], k);
      assert after[j] == threads[j];
    }
    if InsertedBy(thread, k) {
      assert after[i] == thread;
    }
    forall j | 0 <= j < |after| && j != i
      ensures InsertedBy(after[j], k) ==> HasInserter(threads, k)
    {
      assert after[j] == threads[j];
    }
  }

  lemma InsertersFollow(table: Table, table': Table, threads: seq<Thread>, i: nat, thread: Thread, kept: nat)
    requires i < |threads| && !threads[i].Done? && Inserters(table, threads, kept) && kept <= |table.entries|
    requires if thread.Done? && thread.inserted then |table'.entries| == |table.entries| + 1 == thread.id
             else |table'.entries| == |table.entries|
    ensures Inserters(table', threads[i := thread], kept)
  {
    hide HasInserter, AtMostOneInserter;
    var after := threads[i := thread];
    forall k: nat
      ensures HasInserter(after, k) <==> kept <= k < |table'.entries|
      ensures AtMostOneInserter(after, k)
    {
      InsertersAfter(threads, i, thread, k);
      assert HasInserter(threads, k) <==> kept <= k < |table.entries|;
    }
  }

  lemma AnswersFollow(table: Table, table': Table, threads: seq<Thread>, i: nat, thread: Thread)
    requires i < |threads| && AllAnswered(table, threads) && table.entries <= table'.entries && Answered(table', thread)
    ensures AllAnswered(table', threads[i := thread])
  {
    hide RenderIdentity;
    var after := threads[i := thread];
    forall j | 0 <= j < |threads|
      ensures Answered(table', after[j])
    {
      assert Answered(table, threads[j]);
    }
  }

  /** A thread moves on while the table stays or gets its entry. */
  lemma MoveKeepsConsistent(s: System, i: nat, kept: nat, table: Table, thread: Thread)
    requires Consistent(s, kept) && i < |s.threads| && !s.threads[i].Done?
    requires table.Valid() && s.table.entries <= table.entries && Answered(table, thread)
    requires if thread.Done? && thread.inserted then |table.entries| == |s.table.entries| + 1 == thread.id
             else |table.entries| == |s.table.entries|
    ensures Consistent(System(table, s.threads[i := thread]), kept)
  {
    hide RenderIdentity, Inserters, AllAnswered, Answered, Table.Valid;
    InsertersFollow(s.table, table, s.threads, i, thread, kept);
    AnswersFollow(s.table, table, s.threads, i, thread);
  }

  lemma LookupAnswers(table: Table, t: Type)
    requires table.Valid() && Lookup(table, RenderIdentity(t)).Some?
    ensures Answered(table, Done(t, Lookup(table, RenderIdentity(t)).value, false))
  {
    hide RenderIdentity;
  }

  lemma InsertAnswers(table: Table, t: Type)
    requires table.Valid()
    ensures
      var section := InsertOrFind(table, RenderIdentity(t), t);
      && section.0.Valid() && table.entries <= section.0.entries && Answered(section.0, Done(t, section.1, section.2))
      && if section.2 then |section.0.entries| == |table.entries| + 1 == section.1
         else |section.0.entries| == |table.entries|
  {
    hide RenderIdentity, Table.Valid;
    var identity := RenderIdentity(t);
    InsertKeepsValid(table, identity, t);
    InsertCounts(table, identity, t);
    hide InsertOrFind;
    var section := InsertOrFind(table, identity, t);
    assert Answered(section.0, Done(t, section.1, section.2));
  }

  lemma InsertCounts(table: Table, identity: string, t: Type)
    ensures
      var section := InsertOrFind(table, identity, t);
      if section.2 then |section.0.entries| == |table.entries| + 1 == section.1
      else |section.0.entries| == |table.entries|
  {
    hide RenderIdentity;
  }

  lemma StepKeepsConsistent(s: System, i: nat, kept: nat)
    requires Consistent(s, kept) && i < |s.threads|
    ensures Consistent(Step(s, i), kept) && s.table.entries <= Step(s, i).table.entries
  {
    assert s.table.Valid();
    hide Consistent, RenderIdentity, Table.Valid, Answered, Lookup, InsertOrFind;
    match s.threads[i]
    case Ready(t) =>
      var found := Lookup(s.table, RenderIdentity(t));
      if found.Some? {
        LookupAnswers(s.table, t);
        MoveKeepsConsistent(s, i, kept, s.table, Done(t, found.value, false));
      } else {
        NotAnswered(s.table, t);
        MoveKeepsConsistent(s, i, kept, s.table, Missed(t));
      }
    case Missed(t) =>
      var section := InsertOrFind(s.table, RenderIdentity(t), t);
      InsertAnswers(s.table, t);
      MoveKeepsConsistent(s, i, kept, section.0, Done(t, section.1, section.2));
    case Done(_, _, _) =>
  }

  lemma NotAnswered(table: Table, t: Type)
    ensures Answered(table, Missed(t))
  {
  }

  lemma {:induction false} RunKeepsConsistent(s: System, schedule: seq<nat>, kept: nat)
    requires forall k :: 0 <= k < |schedule| ==> schedule[k] < |s.threads|
    requires Consistent(s, kept)
    ensures Consistent(Run(s, schedule), kept) && s.table.entries <= Run(s, schedule).table.entries
  {
    hide Consistent, Step;
    if schedule != [] {
      RunKeepsConsistent(s, schedule[..|schedule| - 1], kept);
      StepKeepsConsistent(Run(s, schedule[..|schedule| - 1]), schedule[|schedule| - 1], kept);
    }
  }

  /** All calls about to start on an existing table. */
  ghost predicate Starts(s: System) {
    s.table.Valid() && forall i :: 0 <= i < |s.threads| ==> s.threads[i].Ready?
  }

  lemma StartIsConsistent(s: System)
    requires Starts(s)
    ensures Consistent(s, |s.table.entries|)
  {
    hide RenderIdentity;
    assert forall k: nat :: !HasInserter(s.threads, k) && AtMostOneInserter(s.threads, k);
  }

  /** In every interleaving, two calls that were answered got the same identifier exactly when
      their types mean the same. */
  lemma AnswersAgree(s: System, schedule: seq<nat>, i: nat, j: nat)
    requires Starts(s) && forall k :: 0 <= k < |schedule| ==> schedule[k] < |s.threads|
    requires i < |s.threads| && j < |s.threads|
    ensures
      var r := Run(s, schedule);
      r.threads[i].Done? && r.threads[j].Done? ==>
        (r.threads[i].id == r.threads[j].id <==> Meaning(r.threads[i].wanted) == Meaning(r.threads[j].wanted))
  {
    hide RenderIdentity, Meaning, Run, Inserters;
    StartIsConsistent(s);
    RunKeepsConsistent(s, schedule, |s.table.entries|);
    var r := Run(s, schedule);
    if r.threads[i].Done? && r.threads[j].Done? {
      assert Answered(r.table, r.threads[i]) && Answered(r.table, r.threads[j]);
      IdentityIsMeaning(r.threads[i].wanted, r.threads[j].wanted);
    }
  }

  /** In every interleaving existing entries stay, identifiers stay dense, and each new entry has
      exactly one call that inserted it. */
  lemma TableGrowsOnce(s: System, schedule: seq<nat>, k: nat)
    requires Starts(s) && forall n :: 0 <= n < |schedule| ==> schedule[n] < |s.threads|
    requires |s.table.entries| <= k < |Run(s, schedule).table.entries|
    ensures
      var r := Run(s, schedule);
      && s.table.entries <= r.table.entries && r.table.entries[k].id == k + 1
      && HasInserter(r.threads, k) && AtMostOneInserter(r.threads, k)
  {
    hide RenderIdentity, Run;
    StartIsConsistent(s);
    RunKeepsConsistent(s, schedule, |s.table.entries|);
  }

  /** How many sections a thread has passed. */
  function Passed(schedule: seq<nat>, i: nat): nat {
    if schedule == [] then 0 else Passed(schedule[..|schedule| - 1], i) + if schedule[|schedule| - 1] == i then 1 else 0
  }

  /** A call is answered after two sections, whatever the others do. */
  lemma {:induction false} TwoSectionsAnswer(s: System, schedule: seq<nat>, i: nat)
    requires Starts(s) && forall k :: 0 <= k < |schedule| ==> schedule[k] < |s.threads|
    requires i < |s.threads|
    ensures Run(s, schedule).threads[i].wanted == s.threads[i].wanted
    ensures Passed(schedule, i) == 0 ==> Run(s, schedule).threads[i].Ready?
    ensures Passed(schedule, i) == 1 ==> !Run(s, schedule).threads[i].Ready?
    ensures Passed(schedule, i) >= 2 ==> Run(s, schedule).threads[i].Done?
  {
    hide RenderIdentity;
    if schedule != [] {
      TwoSectionsAnswer(s, schedule[..|schedule| - 1], i);
    }
  }
}
