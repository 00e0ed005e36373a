/** How a commit reaches the disk, step by step, with a crash possible at every step. */
module Durability {
  import opened Wrappers
  import opened Catalogs
  import opened Ddl
  import opened CatalogInvariant
  import opened CatalogTheorems
  import opened Snapshot
  import opened SnapshotTheorems
  import opened SnapshotRoundTrip
  import opened Manager
  import opened PrintableRuns

  /** The temporary file: what was written to it, and whether it was flushed to the device. */
  datatype TempFile = TempFile(text: string, durable: bool)

  /** Between commands, writing the next snapshot, or renamed but not yet swapped in. */
  datatype Phase = Idle | Writing(next: Catalog, text: string) | Renamed(next: Catalog)

  /** `heard` is what a watcher registered since the last start was told. */
  datatype Machine = Machine(memory: Catalog, path: Option<string>, tmp: Option<TempFile>, phase: Phase, heard: seq<nat>)

  /** A command a caller may give: distinct column names and printable texts. */
  predicate Proper(cmd: Command) {
    Sensible(cmd) && Storable(cmd)
  }

  /** A proper command passes the check made before writing, before the version has used up half
      of its range. */
  ghost predicate Begins(s: Machine, t: Machine) {
    && s.phase.Idle? && t.phase.Writing? && s.memory.version < HALF - 1
    && (exists cmd :: Proper(cmd) && Apply(s.memory, cmd) == Changed(t.phase.next))
    && Writable(t.phase.next) && IsTextOf(t.phase.next, t.phase.text)
    && t == s.(phase := t.phase, tmp := Some(TempFile("", false)))
  }

  /** Some more of the text reaches the temporary file. */
  predicate Writes(s: Machine, t: Machine) {
    && s.phase.Writing? && s.tmp.Some? && t.tmp.Some?
    && s.tmp.value.text <= t.tmp.value.text <= s.phase.text && !t.tmp.value.durable
    && t == s.(tmp := t.tmp)
  }

  predicate Syncs(s: Machine, t: Machine) {
    && s.phase.Writing? && s.tmp.Some? && s.tmp.value.text == s.phase.text
    && t == s.(tmp := Some(TempFile(s.phase.text, true)))
  }

  /** The rename comes after the flush, and replaces the file at once. */
  predicate Renames(s: Machine, t: Machine) {
    && s.phase.Writing? && s.tmp.Some? && s.tmp.value.durable
    && t == s.(path := Some(s.tmp.value.text), tmp := None, phase := Renamed(s.phase.next))
  }

  predicate Swaps(s: Machine, t: Machine) {
    && s.phase.Renamed?
    && t == s.(memory := s.phase.next, phase := Idle, heard := s.heard + [s.phase.next.version])
  }

  /** A short write or a failed rename: the temporary file is removed. */
  predicate Aborts(s: Machine, t: Machine) {
    s.phase.Writing? && t == s.(tmp := None, phase := Idle)
  }

  /** Memory is lost and read again from the file; of a temporary file anything may be left. */
  predicate Crashes(s: Machine, t: Machine) {
    && t.path == s.path && t.phase == Idle && t.heard == []
    && t.memory == (if Reloaded(s.path).Some? then Reloaded(s.path).value else EMPTY)
  }

  ghost predicate Next(s: Machine, t: Machine) {
    Begins(s, t) || Writes(s, t) || Syncs(s, t) || Renames(s, t) || Swaps(s, t) || Aborts(s, t) || Crashes(s, t) || t == s
  }

  ghost predicate IsRun(run: seq<Machine>) {
    && run != [] && run[0] == Machine(EMPTY, None, None, Idle, [])
    && forall i :: 0 <= i < |run| - 1 ==> Next(run[i], run[i + 1])
  }

  // ----- The invariant -----

  ghost predicate Stored(c: Catalog, path: Option<string>) {
    Inv(c, false) && InSync(c, path) && Spacious(c) && Printable(c)
  }

  predicate Consecutive(heard: seq<nat>) {
    forall i :: 0 <= i < |heard| - 1 ==> heard[i + 1] == heard[i] + 1
  }

  /** The catalog the file holds: the one in memory, until the rename; then the next one. */
  function OnDisk(s: Machine): Catalog {
    if s.phase.Renamed? then s.phase.next else s.memory
  }

  ghost predicate Consistent(s: Machine) {
    && Inv(s.memory, false) && Spacious(s.memory) && Stored(OnDisk(s), s.path)
    && Consecutive(s.heard) && (s.heard != [] ==> s.heard[|s.heard| - 1] == s.memory.version)
    && (!s.phase.Idle? ==> s.phase.next.version == s.memory.version + 1)
    && (s.phase.Writing? ==>
          && Inv(s.phase.next, false) && Spacious(s.phase.next) && Printable(s.phase.next) && IsTextOf(s.phase.next, s.phase.text)
          && (s.tmp.Some? && s.tmp.value.durable ==> s.tmp.value.text == s.phase.text))
  }

  lemma StoredReloads(c: Catalog, path: Option<string>)
    requires Stored(c, path)
    ensures Reloaded(path) == Some(c)
  {
    hide Printable, Spacious, Reloaded, InSync, IdsBelow, TablesOk, ReferencesOk, IndexesOk, IdsDistinct;
    ReloadGivesMemory(c, path);
  }

  lemma BeginKeeps(s: Machine, t: Machine)
    requires Consistent(s) && Begins(s, t)
    ensures Consistent(t)
  {
    hide Inv, Stored, Apply, Printable, Spacious, Writable, IsTextOf, Sensible, Storable;
    var cmd :| Proper(cmd) && Apply(s.memory, cmd) == Changed(t.phase.next);
    StepKeepsInv(s.memory, cmd, false);
    VersionStep(s.memory, cmd);
    StepKeepsSpacious(s.memory, cmd);
    SpaciousIsPrintable(t.phase.next);
  }

  lemma RenameKeeps(s: Machine, t: Machine)
    requires Consistent(s) && Renames(s, t)
    ensures Consistent(t)
  {
    hide Inv, Printable, Spacious, IsTextOf;
  }

  lemma CrashKeeps(s: Machine, t: Machine)
    requires Consistent(s) && Crashes(s, t)
    ensures Consistent(t)
  {
    hide Inv, Printable, Spacious, IsTextOf, Reloaded;
    StoredReloads(OnDisk(s), s.path);
  }

  lemma SwapKeeps(s: Machine, t: Machine)
    requires Consistent(s) && Swaps(s, t)
    ensures Consistent(t)
  {
    hide Inv, Printable, Spacious, IsTextOf, InSync;
  }

  lemma StepKeeps(s: Machine, t: Machine)
    requires Consistent(s) && Next(s, t)
    ensures Consistent(t)
  {
    hide Inv, Stored, Printable, Spacious, IsTextOf, Begins, Renames, Crashes;
    if Begins(s, t) {
      BeginKeeps(s, t);
    } else if Renames(s, t) {
      RenameKeeps(s, t);
    } else if Swaps(s, t) {
      SwapKeeps(s, t);
    } else if Crashes(s, t) {
      CrashKeeps(s, t);
    }
  }

  lemma StartIsConsistent()
    ensures Consistent(Machine(EMPTY, None, None, Idle, []))
  {
    hide Inv, Spacious, Printable;
    EmptyIsOk();
    StrictImplies(EMPTY);
    EmptyIsSpacious();
    SpaciousIsPrintable(EMPTY);
  }

  lemma {:induction false} RunIsConsistent(run: seq<Machine>, i: nat)
    requires IsRun(run) && i < |run|
    ensures Consistent(run[i])
  {
    hide Consistent, Next;
    StartIsConsistent();
    if i > 0 {
      RunIsConsistent(run, i - 1);
      StepKeeps(run[i - 1], run[i]);
    }
  }

  // ----- The theorems -----

  /** Wherever a run is cut, the file reads back as the catalog before the command under way or
      as the one after it; between commands it is the catalog in memory. */
  lemma CrashIsAtomic(run: seq<Machine>, i: nat)
    requires IsRun(run) && i < |run|
    ensures var s := run[i];
            && Reloaded(s.path) == Some(if s.phase.Renamed? then s.phase.next else s.memory)
            && (s.phase.Idle? ==> Reloaded(s.path) == Some(s.memory))
  {
    hide Stored, Reloaded, Inv, Printable, Spacious, Next;
    RunIsConsistent(run, i);
    StoredReloads(OnDisk(run[i]), run[i].path);
  }

  /** A crash itself therefore brings memory to one of the two. */
  lemma CrashRestores(run: seq<Machine>, i: nat)
    requires IsRun(run) && i + 1 < |run| && Crashes(run[i], run[i + 1])
    ensures run[i + 1].memory == run[i].memory || (run[i].phase.Renamed? && run[i + 1].memory == run[i].phase.next)
  {
    hide Reloaded, Next;
    CrashIsAtomic(run, i);
  }

  /** Since the last start a watcher has heard consecutive versions, the current one last. */
  lemma VersionsAreConsecutive(run: seq<Machine>, i: nat)
    requires IsRun(run) && i < |run|
    ensures Consecutive(run[i].heard)
    ensures run[i].heard != [] ==> run[i].heard[|run[i].heard| - 1] == run[i].memory.version
  {
    hide Stored, Inv, Printable, Spacious, Next;
    RunIsConsistent(run, i);
  }

  /** What memory holds always satisfies the catalog invariant. */
  lemma MemoryIsInvariant(run: seq<Machine>, i: nat)
    requires IsRun(run) && i < |run|
    ensures Inv(run[i].memory, false)
  {
    hide Stored, Inv, Printable, Spacious, Next;
    RunIsConsistent(run, i);
  }

  /** A commit carried through its steps does to catalog and file what the manager's method
      says it does. */
  lemma CommitAccounts(s: Machine, a: Machine, b: Machine, c: Machine, d: Machine, t: Machine, cmd: Command)
    requires Consistent(s) && Proper(cmd) && Begins(s, a) && Apply(s.memory, cmd) == Changed(a.phase.next)
    requires Writes(a, b) && Syncs(b, c) && Renames(c, d) && Swaps(d, t)
    ensures Accounts(World(s.memory, s.path, [s.heard]), World(t.memory, t.path, [t.heard]), cmd, true, DdlResult(true, t.memory.version))
  {
    hide Inv, Stored, Apply, Printable, Spacious, Writable, IsTextOf, Sensible;
    VersionStep(s.memory, cmd);
    assert Told([s.heard], a.phase.next.version) == [t.heard];
  }
}
