/** Committing a batch of project artifacts (Talac/Driver/ProjectArtifacts.cpp): staged files are
    renamed over existing ones, with backups and a rollback, over every schedule of failures. */
module ProjectArtifacts {
  import opened Wrappers

  type Bytes = seq<nat>

  /** A place in the output directory, or one of the two kinds of files of the private staging
      directory. */
  datatype Path = Destination(name: string) | NewFile(index: nat) | Backup(index: nat)

  type Files = map<Path, Bytes>

  datatype ArtifactFile = ArtifactFile(fileName: string, bytes: Bytes)

  datatype Failure =
    | EmptyBatch
    | UnsafeName
    | UnsupportedName
    | CollidingName
    | StagingFailed
    | InspectionFailed
    | NotPreserved(index: nat)
    | NotInstalled(index: nat)

  /** The reported error: what went wrong first and whether recovery files were kept. */
  datatype Report = Report(primary: Failure, rollbackIncomplete: bool)

  datatype PendingReplacement = PendingReplacement(
    destination: Path,
    backup: Path,
    hadOriginal: bool,
    backedUp: bool,
    installed: bool)

  // ---------------------------------------------------------------------------
  // A file system whose operations may fail

  function Moved(files: Files, source: Path, target: Path): Files
    requires source in files
  {
    (files - {source})[target := files[source]]
  }

  predicate IsStaged(p: Path) {
    !p.Destination?
  }

  /** What is left when any part of the staging directory is removed. */
  function WithoutStaging(files: Files, left: set<Path>): Files {
    map p | p in files && (!IsStaged(p) || p in left) :: files[p]
  }

  /** The operations of one commit. Which calls fail is arbitrary; a failing rename or removal
      changes nothing. The history holds every state the files went through. */
  class FileSystem {
    const failing: nat -> bool
    var files: Files
    var calls: nat
    ghost var history: seq<Files>

    constructor (initial: Files, schedule: nat -> bool)
      ensures files == initial && failing == schedule && calls == 0 && history == [initial]
    {
      failing, files, calls, history := schedule, initial, 0, [initial];
    }

    method Rename(source: Path, target: Path) returns (ok: bool)
      modifies this
      ensures ok <==> source in old(files) && !failing(old(calls))
      ensures calls == old(calls) + 1
      ensures files == if ok then Moved(old(files), source, target) else old(files)
      ensures history == old(history) + [files]
    {
      ok := source in files && !failing(calls);
      if ok {
        files := Moved(files, source, target);
      }
      calls := calls + 1;
      history := history + [files];
    }

    method Remove(path: Path) returns (ok: bool)
      modifies this
      ensures ok <==> !failing(old(calls))
      ensures calls == old(calls) + 1
      ensures files == if ok then old(files) - {path} else old(files)
      ensures history == old(history) + [files]
    {
      ok := !failing(calls);
      if ok {
        files := files - {path};
      }
      calls := calls + 1;
      history := history + [files];
    }

    /** A write that fails may leave any part of the file behind. */
    method Write(path: Path, bytes: Bytes) returns (ok: bool)
      modifies this
      ensures ok <==> !failing(old(calls))
      ensures calls == old(calls) + 1
      ensures path in files && (ok ==> files[path] == bytes)
      ensures forall p: Path :: p != path ==> SameAt(files, old(files), p)
      ensures history == old(history) + [files]
    {
      ok := !failing(calls);
      var cut: nat :| cut <= |bytes|;
      var written := if ok then bytes else bytes[..cut];
      files := files[path := written];
      calls := calls + 1;
      history := history + [files];
    }

    method Inspect(path: Path) returns (found: Option<bool>)
      modifies this
      ensures files == old(files) && history == old(history) && calls == old(calls) + 1
      ensures found.Some? <==> !failing(old(calls))
      ensures found.Some? ==> (found.value <==> path in files)
    {
      found := if failing(calls) then None else Some(path in files);
      calls := calls + 1;
    }

    /** Remove the staging directory; where that fails, any part of it may be left. */
    method RemoveStaging()
      modifies this
      ensures exists left :: files == WithoutStaging(old(files), left)
      ensures !failing(old(calls)) ==> files == WithoutStaging(old(files), {})
      ensures calls == old(calls) + 1
      ensures history == old(history) + [files]
    {
      var left: set<Path> := {};
      if failing(calls) {
        left :| left <= files.Keys;
      }
      files := WithoutStaging(files, left);
      calls := calls + 1;
      history := history + [files];
    }
  }

  /** One of the calls of a stretch failed. */
  ghost predicate Fails(failing: nat -> bool, from: nat, to: nat) {
    exists k :: from <= k < to && failing(k)
  }

  /** Two of them did. */
  ghost predicate FailsTwice(failing: nat -> bool, from: nat, to: nat) {
    exists k, l :: from <= k < l < to && failing(k) && failing(l)
  }

  // ---------------------------------------------------------------------------
  // What must never be lost

  ghost predicate Batch(files: seq<ArtifactFile>) {
    forall i, j :: 0 <= i < j < |files| ==> files[i].fileName != files[j].fileName
  }

  function DestinationOf(batch: seq<ArtifactFile>, i: nat): Path
    requires i < |batch|
  {
    Destination(batch[i].fileName)
  }

  /** Two states agree at a path. */
  ghost predicate SameAt(a: Files, b: Files, p: Path) {
    (p in a <==> p in b) && (p in a ==> a[p] == b[p])
  }

  /** The bytes that were at a destination are still there, or in its backup. */
  ghost predicate Kept(batch: seq<ArtifactFile>, initial: Files, state: Files, i: nat)
    requires i < |batch|
  {
    var d := DestinationOf(batch, i);
    d in initial ==> SameAt(state, initial, d) || (Backup(i) in state && state[Backup(i)] == initial[d])
  }

  /** Nothing the batch does not name is touched. */
  ghost predicate OthersSame(batch: seq<ArtifactFile>, initial: Files, state: Files) {
    forall name: string :: (forall i :: 0 <= i < |batch| ==> batch[i].fileName != name) ==>
        SameAt(state, initial, Destination(name))
  }

  ghost predicate NothingLost(batch: seq<ArtifactFile>, initial: Files, state: Files) {
    && (forall i :: 0 <= i < |batch| ==> Kept(batch, initial, state, i))
    && OthersSame(batch, initial, state)
  }

  /** Every destination is exactly as it was. */
  ghost predicate Restored(initial: Files, state: Files) {
    forall name: string :: SameAt(state, initial, Destination(name))
  }

  ghost predicate Installed(batch: seq<ArtifactFile>, initial: Files, state: Files) {
    && (forall i :: 0 <= i < |batch| ==>
          DestinationOf(batch, i) in state && state[DestinationOf(batch, i)] == batch[i].bytes)
    && OthersSame(batch, initial, state)
  }

  // ---------------------------------------------------------------------------
  // The state of one replacement

  /** What the flags of a replacement say about the files. */
  ghost predicate Tracked(batch: seq<ArtifactFile>, initial: Files, state: Files, r: PendingReplacement, i: nat)
    requires i < |batch|
  {
    var d := DestinationOf(batch, i);
    && r.destination == d && r.backup == Backup(i) && (r.hadOriginal <==> d in initial)
    && (r.backedUp ==> r.hadOriginal && Backup(i) in state && state[Backup(i)] == initial[d])
    && (r.installed ==> (r.hadOriginal ==> r.backedUp) && d in state && state[d] == batch[i].bytes)
    && (!r.installed && r.backedUp ==> d !in state)
    && (!r.installed && !r.backedUp ==> SameAt(state, initial, d))
  }

  ghost predicate AllTracked(batch: seq<ArtifactFile>, initial: Files, state: Files, rs: seq<PendingReplacement>) {
    && |rs| == |batch| && Batch(batch)
    && (forall i :: 0 <= i < |batch| ==> Tracked(batch, initial, state, rs[i], i))
    && OthersSame(batch, initial, state)
  }

  lemma TrackedLosesNothing(batch: seq<ArtifactFile>, initial: Files, state: Files, rs: seq<PendingReplacement>)
    requires AllTracked(batch, initial, state, rs)
    ensures NothingLost(batch, initial, state)
  {
    forall i | 0 <= i < |batch|
      ensures Kept(batch, initial, state, i)
    {
      assert Tracked(batch, initial, state, rs[i], i);
    }
  }

  /** A step that changes only the files of replacement i keeps the others tracked. */
  lemma OthersTracked(batch: seq<ArtifactFile>, initial: Files, state: Files, state': Files,
      rs: seq<PendingReplacement>, i: nat, r: PendingReplacement)
    requires AllTracked(batch, initial, state, rs) && i < |rs|
    requires forall p: Path :: p != DestinationOf(batch, i) && p != Backup(i) && p != NewFile(i) ==>
      SameAt(state', state, p)
    requires Tracked(batch, initial, state', r, i)
    ensures AllTracked(batch, initial, state', rs[i := r])
  {
    var rs' := rs[i := r];
    forall j | 0 <= j < |batch|
      ensures Tracked(batch, initial, state', rs'[j], j)
    {
      if j != i {
        assert Tracked(batch, initial, state, rs[j], j);
        assert batch[j].fileName != batch[i].fileName;
        assert SameAt(state', state, DestinationOf(batch, j)) && SameAt(state', state, Backup(j));
      }
    }
    forall name: string | forall k :: 0 <= k < |batch| ==> batch[k].fileName != name
      ensures SameAt(state', initial, Destination(name))
    {
      assert SameAt(state', state, Destination(name)) && SameAt(state, initial, Destination(name));
    }
  }

  /** All states of a stretch of history lose nothing. */
  ghost predicate SafeSince(batch: seq<ArtifactFile>, initial: Files, history: seq<Files>, from: nat) {
    forall k :: from <= k < |history| ==> NothingLost(batch, initial, history[k])
  }

  lemma SafeExtends(batch: seq<ArtifactFile>, initial: Files, history: seq<Files>, state: Files, from: nat)
    requires SafeSince(batch, initial, history, from) && NothingLost(batch, initial, state)
    ensures SafeSince(batch, initial, history + [state], from)
  {
    hide NothingLost;
  }

  // ---------------------------------------------------------------------------
  // Rolling back

  /** Undo one replacement as far as the file system lets it. */
  method UndoOne(batch: seq<ArtifactFile>, ghost initial: Files, fs: FileSystem, rs: seq<PendingReplacement>, i: nat,
      ghost from: nat)
    returns (r: PendingReplacement, ok: bool)
    requires AllTracked(batch, initial, fs.files, rs) && i < |rs|
    requires from <= |fs.history| && SafeSince(batch, initial, fs.history, from)
    modifies fs
    ensures AllTracked(batch, initial, fs.files, rs[i := r])
    ensures ok <==> !r.installed && !r.backedUp
    ensures fs.calls >= old(fs.calls) && (!ok ==> Fails(fs.failing, old(fs.calls), fs.calls))
    ensures from <= |fs.history| && SafeSince(batch, initial, fs.history, from)
  {
    hide NothingLost, OthersSame, SafeSince;
    r := rs[i];
    assert Tracked(batch, initial, fs.files, r, i);
    assert rs[i := r] == rs;
    ok := true;
    if r.installed {
      ghost var before := fs.files;
      ghost var history := fs.history;
      ok := fs.Remove(r.destination);
      ghost var undone := if ok then r.(installed := false) else r;
      OthersTracked(batch, initial, before, fs.files, rs, i, undone);
      TrackedLosesNothing(batch, initial, fs.files, rs[i := undone]);
      SafeExtends(batch, initial, history, fs.files, from);
      if !ok {
        return;
      }
      r := r.(installed := false);
    }
    if r.backedUp {
      ghost var before := fs.files;
      ghost var history := fs.history;
      ok := fs.Rename(r.backup, r.destination);
      ghost var undone := if ok then r.(backedUp := false) else r;
      OthersTracked(batch, initial, before, fs.files, rs[i := r], i, undone);
      assert rs[i := r][i := undone] == rs[i := undone];
      TrackedLosesNothing(batch, initial, fs.files, rs[i := undone]);
      SafeExtends(batch, initial, history, fs.files, from);
      if !ok {
        return;
      }
      r := r.(backedUp := false);
    }
  }

  ghost predicate Undone(r: PendingReplacement) {
    !r.installed && !r.backedUp
  }

  method RollBack(batch: seq<ArtifactFile>, ghost initial: Files, fs: FileSystem,
      replacements: seq<PendingReplacement>, ghost from: nat)
    returns (rs: seq<PendingReplacement>, complete: bool)
    requires AllTracked(batch, initial, fs.files, replacements)
    requires from <= |fs.history| && SafeSince(batch, initial, fs.history, from)
    modifies fs
    ensures AllTracked(batch, initial, fs.files, rs)
    ensures complete <==> forall i :: 0 <= i < |rs| ==> Undone(rs[i])
    ensures fs.calls >= old(fs.calls) && (!complete ==> Fails(fs.failing, old(fs.calls), fs.calls))
    ensures from <= |fs.history| && SafeSince(batch, initial, fs.history, from)
  {
    hide Tracked, NothingLost, OthersSame, SafeSince;
    rs := replacements;
    complete := true;
    var i := |rs|;
    while i > 0
      invariant 0 <= i <= |rs| == |replacements|
      invariant AllTracked(batch, initial, fs.files, rs)
      invariant complete <==> forall j :: i <= j < |rs| ==> Undone(rs[j])
      invariant fs.calls >= old(fs.calls) && (!complete ==> Fails(fs.failing, old(fs.calls), fs.calls))
      invariant from <= |fs.history| && SafeSince(batch, initial, fs.history, from)
    {
      i := i - 1;
      var r, ok := UndoOne(batch, initial, fs, rs, i, from);
      ghost var before := rs;
      rs := rs[i := r];
      assert forall j :: i < j < |rs| ==> rs[j] == before[j];
      assert rs[i] == r;
      complete := complete && ok;
    }
  }

  lemma UndoneIsRestored(batch: seq<ArtifactFile>, initial: Files, state: Files, rs: seq<PendingReplacement>)
    requires AllTracked(batch, initial, state, rs) && forall i :: 0 <= i < |rs| ==> Undone(rs[i])
    ensures Restored(initial, state)
  {
    forall name: string
      ensures SameAt(state, initial, Destination(name))
    {
      if i :| 0 <= i < |batch| && batch[i].fileName == name {
        assert Tracked(batch, initial, state, rs[i], i) && Undone(rs[i]);
      }
    }
  }

  // ---------------------------------------------------------------------------
  // Replacing

  ghost predicate Staged(batch: seq<ArtifactFile>, state: Files, i: nat)
    requires i < |batch|
  {
    NewFile(i) in state && state[NewFile(i)] == batch[i].bytes
  }

  /** How far the replacement loop has come. */
  ghost predicate Progress(batch: seq<ArtifactFile>, state: Files, rs: seq<PendingReplacement>, n: nat) {
    && |rs| == |batch|
    && (forall i :: 0 <= i < n && i < |rs| ==> rs[i].installed)
    && (forall i :: n <= i < |rs| ==> Undone(rs[i]) && Staged(batch, state, i))
  }

  /** Replace file i; on failure the step that failed is reported. */
  method ReplaceOne(batch: seq<ArtifactFile>, ghost initial: Files, fs: FileSystem, rs: seq<PendingReplacement>,
      i: nat, ghost from: nat)
    returns (r: PendingReplacement, failure: Option<Failure>)
    requires AllTracked(batch, initial, fs.files, rs) && i < |rs| && Progress(batch, fs.files, rs, i)
    requires from <= |fs.history| && SafeSince(batch, initial, fs.history, from)
    modifies fs
    ensures AllTracked(batch, initial, fs.files, rs[i := r])
    ensures failure == None ==> Progress(batch, fs.files, rs[i := r], i + 1)
    ensures fs.calls >= old(fs.calls)
    ensures failure.Some? ==> Fails(fs.failing, old(fs.calls), fs.calls)
    ensures failure.Some? ==>
      || (failure.value == NotPreserved(i) && r == rs[i] && r.hadOriginal && fs.files == old(fs.files))
      || (failure.value == NotInstalled(i) && r == rs[i].(backedUp := r.hadOriginal))
    ensures from <= |fs.history| && SafeSince(batch, initial, fs.history, from)
  {
    hide NothingLost, OthersSame, SafeSince;
    r := rs[i];
    assert Tracked(batch, initial, fs.files, r, i);
    assert rs[i := r] == rs;
    failure := None;
    if r.hadOriginal {
      ghost var before := fs.files;
      ghost var history := fs.history;
      var ok := fs.Rename(r.destination, r.backup);
      ghost var moved := if ok then r.(backedUp := true) else r;
      OthersTracked(batch, initial, before, fs.files, rs, i, moved);
      TrackedLosesNothing(batch, initial, fs.files, rs[i := moved]);
      SafeExtends(batch, initial, history, fs.files, from);
      if !ok {
        failure := Some(NotPreserved(i));
        return;
      }
      r := r.(backedUp := true);
    }
    assert Staged(batch, fs.files, i);
    ghost var before := fs.files;
    ghost var history := fs.history;
    var ok := fs.Rename(NewFile(i), r.destination);
    ghost var placed := if ok then r.(installed := true) else r;
    OthersTracked(batch, initial, before, fs.files, rs[i := r], i, placed);
    assert rs[i := r][i := placed] == rs[i := placed];
    TrackedLosesNothing(batch, initial, fs.files, rs[i := placed]);
    SafeExtends(batch, initial, history, fs.files, from);
    if !ok {
      failure := Some(NotInstalled(i));
      return;
    }
    r := r.(installed := true);
  }

  lemma AllInstalled(batch: seq<ArtifactFile>, initial: Files, state: Files, rs: seq<PendingReplacement>)
    requires AllTracked(batch, initial, state, rs) && Progress(batch, state, rs, |rs|)
    ensures Installed(batch, initial, state)
  {
    forall i | 0 <= i < |batch|
      ensures DestinationOf(batch, i) in state && state[DestinationOf(batch, i)] == batch[i].bytes
    {
      assert Tracked(batch, initial, state, rs[i], i) && rs[i].installed;
    }
  }

  /** The replacement loop with its abort path. */
  method ReplaceAll(batch: seq<ArtifactFile>, ghost initial: Files, fs: FileSystem,
      replacements: seq<PendingReplacement>, ghost from: nat)
    returns (report: Option<Report>)
    requires AllTracked(batch, initial, fs.files, replacements) && Progress(batch, fs.files, replacements, 0)
    requires from <= |fs.history| && SafeSince(batch, initial, fs.history, from)
    modifies fs
    ensures from <= |fs.history| && SafeSince(batch, initial, fs.history, from)
    ensures NothingLost(batch, initial, fs.files)
    ensures report == None ==> Installed(batch, initial, fs.files)
    ensures report.Some? && !report.value.rollbackIncomplete ==> Restored(initial, fs.files)
    ensures fs.calls >= old(fs.calls) && (report.Some? ==> Fails(fs.failing, old(fs.calls), fs.calls))
    ensures report.Some? && report.value.rollbackIncomplete ==> FailsTwice(fs.failing, old(fs.calls), fs.calls)
    ensures report.Some? ==> exists i :: 0 <= i < |batch| && report.value.primary in {NotPreserved(i), NotInstalled(i)}
  {
    hide Tracked, NothingLost, OthersSame, SafeSince, Progress, AllTracked, Restored, Installed;
    var rs := replacements;
    AllTrackedSize(batch, initial, fs.files, rs);
    for i := 0 to |batch|
      invariant |rs| == |batch|
      invariant AllTracked(batch, initial, fs.files, rs) && Progress(batch, fs.files, rs, i)
      invariant fs.calls >= old(fs.calls)
      invariant from <= |fs.history| && SafeSince(batch, initial, fs.history, from)
    {
      var r, failure := ReplaceOne(batch, initial, fs, rs, i, from);
      rs := rs[i := r];
      if failure.Some? {
        var undone, complete := RollBack(batch, initial, fs, rs, from);
        TrackedLosesNothing(batch, initial, fs.files, undone);
        if complete {
          UndoneIsRestored(batch, initial, fs.files, undone);
        }
        return Some(Report(failure.value, !complete));
      }
    }
    TrackedLosesNothing(batch, initial, fs.files, rs);
    AllInstalled(batch, initial, fs.files, rs);
    report := None;
  }

  lemma AllTrackedSize(batch: seq<ArtifactFile>, initial: Files, state: Files, rs: seq<PendingReplacement>)
    requires AllTracked(batch, initial, state, rs)
    ensures |rs| == |batch|
  {
  }

  // ---------------------------------------------------------------------------
  // The whole commit

  function FoldAscii(c: char): char {
    if 'A' <= c <= 'Z' then (c as int + 32) as char else c
  }

  function FoldName(name: string): string {
    seq(|name|, i requires 0 <= i < |name| => FoldAscii(name[i]))
  }

  predicate EndsWith(name: string, suffix: string) {
    |name| >= |suffix| && name[|name| - |suffix|..] == suffix
  }

  /** The same letter in either case. */
  predicate SameLetter(a: char, b: char) {
    || a == b
    || ('a' <= a <= 'z' && a as int == b as int + 32)
    || ('a' <= b <= 'z' && b as int == a as int + 32)
  }

  /** Names fold alike exactly when they differ in the case of ASCII letters at most. */
  lemma FoldMeaning(m: string, n: string)
    ensures FoldName(m) == FoldName(n) <==> |m| == |n| && forall i :: 0 <= i < |m| ==> SameLetter(m[i], n[i])
  {
    if |m| == |n| {
      forall i | 0 <= i < |m|
        ensures FoldName(m)[i] == FoldName(n)[i] <==> SameLetter(m[i], n[i])
      {
      }
      if FoldName(m) == FoldName(n) {
        forall i | 0 <= i < |m|
          ensures SameLetter(m[i], n[i])
        {
          assert FoldName(m)[i] == FoldName(n)[i];
        }
      }
    } else {
      assert |FoldName(m)| != |FoldName(n)|;
    }
  }

  predicate Supported(name: string) {
    EndsWith(name, ".o") || EndsWith(name, ".asm")
  }

  /** The name folds like one before it. */
  ghost predicate Collides(batch: seq<ArtifactFile>, n: nat)
    requires n < |batch|
  {
    exists i :: 0 <= i < n && FoldName(batch[i].fileName) == FoldName(batch[n].fileName)
  }

  /** What is wrong with name n, in the order of the checks. */
  ghost predicate NameFails(batch: seq<ArtifactFile>, isSafe: string -> bool, n: nat, failure: Failure)
    requires n < |batch|
  {
    var name := batch[n].fileName;
    match failure
    case UnsafeName => !isSafe(name)
    case UnsupportedName => isSafe(name) && !Supported(name)
    case CollidingName => isSafe(name) && Supported(name) && Collides(batch, n)
    case _ => false
  }

  ghost predicate NamePasses(batch: seq<ArtifactFile>, isSafe: string -> bool, n: nat)
    requires n < |batch|
  {
    isSafe(batch[n].fileName) && Supported(batch[n].fileName) && !Collides(batch, n)
  }

  ghost predicate AllPass(batch: seq<ArtifactFile>, isSafe: string -> bool) {
    batch != [] && forall n :: 0 <= n < |batch| ==> NamePasses(batch, isSafe, n)
  }

  predicate IsNameFailure(failure: Failure) {
    failure.EmptyBatch? || failure.UnsafeName? || failure.UnsupportedName? || failure.CollidingName?
  }

  predicate IsStepFailure(batch: seq<ArtifactFile>, failure: Failure) {
    match failure
    case StagingFailed => true
    case InspectionFailed => true
    case NotPreserved(i) => i < |batch|
    case NotInstalled(i) => i < |batch|
    case _ => false
  }

  lemma AllNamesPass(batch: seq<ArtifactFile>, isSafe: string -> bool)
    ensures (forall n :: 0 <= n < |batch| ==> NamePasses(batch, isSafe, n)) <==>
      && (forall i :: 0 <= i < |batch| ==> isSafe(batch[i].fileName))
      && (forall i :: 0 <= i < |batch| ==> EndsWith(batch[i].fileName, ".o") || EndsWith(batch[i].fileName, ".asm"))
      && (forall i, j :: 0 <= i < j < |batch| ==> FoldName(batch[i].fileName) != FoldName(batch[j].fileName))
  {
    hide EndsWith, FoldName;
    if forall n :: 0 <= n < |batch| ==> NamePasses(batch, isSafe, n) {
      forall i, j | 0 <= i < j < |batch|
        ensures FoldName(batch[i].fileName) != FoldName(batch[j].fileName)
      {
        assert NamePasses(batch, isSafe, j);
      }
      forall i | 0 <= i < |batch|
        ensures isSafe(batch[i].fileName) && Supported(batch[i].fileName)
      {
        assert NamePasses(batch, isSafe, i);
      }
    }
  }

  lemma FailureDoesNotPass(batch: seq<ArtifactFile>, isSafe: string -> bool, n: nat, failure: Failure)
    requires n < |batch| && NameFails(batch, isSafe, n, failure)
    ensures !NamePasses(batch, isSafe, n) && IsNameFailure(failure)
  {
    hide EndsWith, FoldName;
  }

  /** Names must be safe, carry a supported extension, and stay apart when their ASCII letters
      are folded. The first name that does not decides the failure. */
  method CheckNames(batch: seq<ArtifactFile>, isSafe: string -> bool) returns (failure: Option<Failure>)
    ensures failure == None <==>
      && batch != []
      && (forall i :: 0 <= i < |batch| ==> isSafe(batch[i].fileName))
      && (forall i :: 0 <= i < |batch| ==> EndsWith(batch[i].fileName, ".o") || EndsWith(batch[i].fileName, ".asm"))
      && (forall i, j :: 0 <= i < j < |batch| ==> FoldName(batch[i].fileName) != FoldName(batch[j].fileName))
    ensures failure == Some(EmptyBatch) <==> batch == []
    ensures failure.Some? && batch != [] ==>
      exists n ::
        && 0 <= n < |batch| && NameFails(batch, isSafe, n, failure.value)
        && forall i :: 0 <= i < n ==> NamePasses(batch, isSafe, i)
  {
    if batch == [] {
      return Some(EmptyBatch);
    }
    AllNamesPass(batch, isSafe);
    var names: set<string> := {};
    for n := 0 to |batch|
      invariant forall x :: x in names <==> exists i :: 0 <= i < n && FoldName(batch[i].fileName) == x
      invariant forall i :: 0 <= i < n ==> NamePasses(batch, isSafe, i)
    {
      failure := CheckName(batch, isSafe, n, names);
      if failure.Some? {
        FailureDoesNotPass(batch, isSafe, n, failure.value);
        return;
      }
      names := names + {FoldName(batch[n].fileName)};
    }
    failure := None;
  }

  /** One name against the folded names before it. */
  method CheckName(batch: seq<ArtifactFile>, isSafe: string -> bool, n: nat, names: set<string>)
      returns (failure: Option<Failure>)
    requires n < |batch|
    requires forall x :: x in names <==> exists i :: 0 <= i < n && FoldName(batch[i].fileName) == x
    ensures failure.None? ==> NamePasses(batch, isSafe, n)
    ensures failure.Some? ==> NameFails(batch, isSafe, n, failure.value) && failure.value != EmptyBatch
  {
    hide FoldName, EndsWith;
    var name := batch[n].fileName;
    if !isSafe(name) {
      return Some(UnsafeName);
    }
    if !Supported(name) {
      return Some(UnsupportedName);
    }
    if FoldName(name) in names {
      return Some(CollidingName);
    }
    failure := None;
  }

  lemma DistinctFoldsAreABatch(batch: seq<ArtifactFile>)
    requires forall i, j :: 0 <= i < j < |batch| ==> FoldName(batch[i].fileName) != FoldName(batch[j].fileName)
    ensures Batch(batch)
  {
  }

  /** Only staging files differ. */
  ghost predicate DestinationsSame(initial: Files, state: Files) {
    forall p: Path :: !IsStaged(p) ==> SameAt(state, initial, p)
  }

  lemma UntouchedLosesNothing(batch: seq<ArtifactFile>, initial: Files, state: Files)
    requires DestinationsSame(initial, state)
    ensures NothingLost(batch, initial, state) && OthersSame(batch, initial, state) && Restored(initial, state)
  {
    forall i | 0 <= i < |batch|
      ensures Kept(batch, initial, state, i)
    {
      assert SameAt(state, initial, DestinationOf(batch, i));
    }
  }

  method StageFiles(batch: seq<ArtifactFile>, ghost initial: Files, fs: FileSystem, ghost from: nat) returns (ok: bool)
    requires DestinationsSame(initial, fs.files)
    requires from <= |fs.history| && SafeSince(batch, initial, fs.history, from)
    modifies fs
    ensures DestinationsSame(initial, fs.files)
    ensures ok ==> forall i :: 0 <= i < |batch| ==> Staged(batch, fs.files, i)
    ensures fs.calls >= old(fs.calls) && (!ok ==> Fails(fs.failing, old(fs.calls), fs.calls))
    ensures from <= |fs.history| && SafeSince(batch, initial, fs.history, from)
  {
    hide NothingLost, OthersSame, SafeSince, Restored;
    for n := 0 to |batch|
      invariant DestinationsSame(initial, fs.files) && fs.calls >= old(fs.calls)
      invariant forall i :: 0 <= i < n ==> Staged(batch, fs.files, i)
      invariant from <= |fs.history| && SafeSince(batch, initial, fs.history, from)
    {
      ghost var history := fs.history;
      ghost var before := fs.files;
      var written := fs.Write(NewFile(n), batch[n].bytes);
      assert forall p: Path :: p != NewFile(n) ==> SameAt(fs.files, before, p);
      forall i | 0 <= i < n
        ensures Staged(batch, fs.files, i)
      {
        assert Staged(batch, before, i) && SameAt(fs.files, before, NewFile(i));
      }
      assert forall p: Path :: !IsStaged(p) ==> SameAt(before, initial, p) && SameAt(fs.files, before, p);
      UntouchedLosesNothing(batch, initial, fs.files);
      SafeExtends(batch, initial, history, fs.files, from);
      if !written {
        return false;
      }
    }
    ok := true;
  }

  method PlanReplacements(batch: seq<ArtifactFile>, ghost initial: Files, fs: FileSystem)
      returns (plan: Option<seq<PendingReplacement>>)
    requires Batch(batch) && DestinationsSame(initial, fs.files)
    requires forall i :: 0 <= i < |batch| ==> Staged(batch, fs.files, i)
    modifies fs
    ensures fs.files == old(fs.files) && fs.history == old(fs.history)
    ensures fs.calls >= old(fs.calls) && (plan.None? ==> Fails(fs.failing, old(fs.calls), fs.calls))
    ensures plan.Some? ==> AllTracked(batch, initial, fs.files, plan.value) && Progress(batch, fs.files, plan.value, 0)
  {
    var rs: seq<PendingReplacement> := [];
    for i := 0 to |batch|
      invariant |rs| == i && fs.files == old(fs.files) && fs.history == old(fs.history) && fs.calls >= old(fs.calls)
      invariant forall j :: 0 <= j < i ==> Tracked(batch, initial, fs.files, rs[j], j) && Undone(rs[j])
    {
      var d := DestinationOf(batch, i);
      assert SameAt(fs.files, initial, d);
      var found := fs.Inspect(d);
      if found == None {
        return None;
      }
      rs := rs + [PendingReplacement(d, Backup(i), found.value, false, false)];
    }
    UntouchedLosesNothing(batch, initial, fs.files);
    plan := Some(rs);
  }

  lemma CleanupKeepsDestinations(batch: seq<ArtifactFile>, initial: Files, before: Files, after: Files)
    requires exists left :: after == WithoutStaging(before, left)
    ensures Restored(initial, before) ==> Restored(initial, after) && NothingLost(batch, initial, after)
    ensures Installed(batch, initial, before) ==> Installed(batch, initial, after)
  {
    assert forall p: Path :: !IsStaged(p) ==> SameAt(after, before, p);
    if Restored(initial, before) {
      forall p: Path | !IsStaged(p)
        ensures SameAt(after, initial, p)
      {
        assert SameAt(before, initial, Destination(p.name));
      }
      UntouchedLosesNothing(batch, initial, after);
    }
    if Installed(batch, initial, before) {
      forall i | 0 <= i < |batch|
        ensures DestinationOf(batch, i) in after && after[DestinationOf(batch, i)] == batch[i].bytes
      {
        assert SameAt(after, before, DestinationOf(batch, i));
      }
      forall name: string | forall i :: 0 <= i < |batch| ==> batch[i].fileName != name
        ensures SameAt(after, initial, Destination(name))
      {
        assert SameAt(after, before, Destination(name)) && SameAt(before, initial, Destination(name));
      }
    }
  }

  /** Commit a batch. Whatever fails, and whenever: at every moment before success each original
      is at its destination or in its backup and other files are untouched; success installs every
      file; a failure leaves every destination as it was, unless the report says that the rollback
      was incomplete, and then the staging directory with the backups is kept. */
  method CommitArtifactFiles(batch: seq<ArtifactFile>, isSafe: string -> bool, fs: FileSystem)
      returns (report: Option<Report>)
    requires forall p :: p in fs.files ==> !IsStaged(p)
    modifies fs
    ensures |fs.history| >= |old(fs.history)|
    ensures forall k :: |old(fs.history)| <= k < |fs.history| && (report.Some? || k < |fs.history| - 1) ==>
      NothingLost(batch, old(fs.files), fs.history[k])
    ensures report == None ==> Installed(batch, old(fs.files), fs.files)
    ensures report.Some? ==> NothingLost(batch, old(fs.files), fs.files)
    ensures report.Some? && !report.value.rollbackIncomplete ==> Restored(old(fs.files), fs.files)
    ensures report.Some? ==> !AllPass(batch, isSafe) || Fails(fs.failing, old(fs.calls), fs.calls)
    ensures report.Some? && report.value.rollbackIncomplete ==> FailsTwice(fs.failing, old(fs.calls), fs.calls)
    ensures !AllPass(batch, isSafe) ==>
      report.Some? && IsNameFailure(report.value.primary) && fs.files == old(fs.files) && fs.calls == old(fs.calls)
    ensures AllPass(batch, isSafe) && report.Some? ==> IsStepFailure(batch, report.value.primary)
    ensures AllPass(batch, isSafe) && (report == None || !report.value.rollbackIncomplete) ==>
      fs.calls > old(fs.calls) && (fs.failing(fs.calls - 1) || forall p :: p in fs.files ==> !IsStaged(p))
  {
    hide NothingLost, OthersSame, Restored, Installed, AllTracked, Progress, Staged, NamePasses, NameFails;
    ghost var initial := fs.files;
    ghost var from := |fs.history|;
    UntouchedLosesNothing(batch, initial, fs.files);
    var unnamed := CheckNames(batch, isSafe);
    AllNamesPass(batch, isSafe);
    if unnamed.Some? {
      if batch != [] {
        ghost var n :| 0 <= n < |batch| && NameFails(batch, isSafe, n, unnamed.value);
        FailureDoesNotPass(batch, isSafe, n, unnamed.value);
      }
      return Some(Report(unnamed.value, false));
    }
    DistinctFoldsAreABatch(batch);
    var staged := StageFiles(batch, initial, fs, from);
    var plan: Option<seq<PendingReplacement>> := None;
    if staged {
      plan := PlanReplacements(batch, initial, fs);
    }
    UntouchedLosesNothing(batch, initial, fs.files);
    if plan == None {
      report := Some(Report(if staged then InspectionFailed else StagingFailed, false));
    } else {
      report := ReplaceAll(batch, initial, fs, plan.value, from);
    }
    if report.None? || !report.value.rollbackIncomplete {
      ghost var before := fs.files;
      fs.RemoveStaging();
      CleanupKeepsDestinations(batch, initial, before, fs.files);
    }
  }
}
