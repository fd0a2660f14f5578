/** `migrateProject`: plan, journal, execute, resume. Every file operation and journal write may fail. */
module MigrationRun {
  import opened Wrappers
  import opened FileTree
  import opened MigrationJournal
  import opened MigrationPlan

  datatype JournalEntry = JournalEntry(entry: Entry, executed: bool, failed: bool)

  datatype Journal = Journal(entries: seq<JournalEntry>, finished: bool)

  function Plain(entries: seq<JournalEntry>): seq<Entry> {
    seq(|entries|, i requires 0 <= i < |entries| => entries[i].entry)
  }

  /** The executed entries are exactly the first `n`. */
  predicate ExecutedUpTo(entries: seq<JournalEntry>, n: nat) {
    n <= |entries| && forall i | 0 <= i < |entries| :: entries[i].executed <==> i < n
  }

  datatype Outcome = Skipped | NotAssembled | Migrated | Halted | Threw

  /** No delete entry names a protected path. */
  predicate DeletesAllowed(plan: seq<Entry>, repo: Path) {
    forall e | e in plan && e.Delete? :: !IsProtected(repo, e.path)
  }

  /** One project's disk, with the plan it is working through and the schedule since its first journal. */
  class Machine {
    const strip: Strip
    const project: Project
    var fs: FileSystem
    var journal: Option<Journal>
    /** No file operation, journal write or assemble fails. */
    const reliable: bool
    ghost var plan: seq<Entry>
    ghost var run: seq<State>

    ghost predicate Valid()
      reads `fs, `journal, `plan, `run
    {
      journal.Some? ==>
        && plan == Plain(journal.value.entries)
        && Schedule(plan, strip, project.Site(), run)
        && (Executed() < |plan| ==> Current() && !journal.value.finished)
        && ExecutedUpTo(journal.value.entries, Executed())
    }

    /** The schedule ends with what is on disk now. */
    ghost predicate Current()
      reads `fs, `run
    {
      run != [] && run[|run| - 1].fs == fs
    }

    /** How many entries the journal on disk records as executed. */
    ghost function Executed(): nat
      reads `run
    {
      if run == [] then 0 else run[|run| - 1].done
    }

    /** The plan is the same and the schedule has only grown. */
    twostate predicate Extended()
      reads this
    {
      && Valid() && Current() && journal.Some? && old(journal).Some?
      && plan == old(plan) && old(run) <= run
    }

    ghost predicate Working(e: Entry)
      reads `fs, `journal, `plan, `run
    {
      && Valid() && journal.Some? && Executed() < |plan| && plan[Executed()] == e
      && MovesApart(plan) && Idempotent(strip)
    }

    /** Where the entries that the journal does not record as executed would take the disk. */
    ghost function Remaining(): FileSystem
      reads `fs, `plan, `run
    {
      if Executed() <= |plan| then MigrationJournal.Outcome(plan, strip, State(fs, Executed())) else fs
    }

    /** Whether an operation of the environment goes through. */
    method Succeeds() returns (ok: bool)
      ensures reliable ==> ok
    {
      var fails := MayFail(reliable);
      ok := !fails;
    }

    /** Some file operation of the current entry leaves `g` behind. */
    method Act(e: Entry, g: FileSystem)
      requires Working(e) && Attempt(e, strip, fs, g)
      modifies this`fs, this`run
      ensures Working(e) && fs == g && old(run) <= run && Executed() == old(Executed())
      ensures Remaining() == old(Remaining())
    {
      StepKeepsOutcome(plan, strip, State(fs, Executed()), State(g, Executed()));
      ScheduleGrows(plan, strip, project.Site(), run, State(g, Executed()));
      fs := g;
      run := run + [State(g, Executed())];
    }

    /** A removal of the copied source that stops half-way leaves `g` behind. */
    method ActInPart(src: Path, dest: Path, g: FileSystem)
      requires Working(Move(src, dest)) && !project.renames && PartlyRemoved(src, dest, fs, g)
      modifies this`fs, this`run
      ensures Working(Move(src, dest)) && fs == g && old(run) <= run && Executed() == old(Executed())
    {
      assert Current() && PartRemoval(plan, project.Site(), run[|run| - 1], State(g, Executed()));
      ScheduleGrows(plan, strip, project.Site(), run, State(g, Executed()));
      fs := g;
      run := run + [State(g, Executed())];
    }

    /** Replace the journal on disk; a failed write leaves the old one. */
    method WriteJournal(entries: seq<JournalEntry>, ghost n: nat, finished: bool) returns (ok: bool)
      requires Valid() && Current() && journal.Some? && Plain(entries) == plan && ExecutedUpTo(entries, n)
      requires finished ==> n == |plan|
      requires n == Executed() || (n == Executed() + 1 && Effect(plan[n - 1], strip, fs) == fs)
      requires MovesApart(plan) && Idempotent(strip)
      modifies this`journal, this`run
      ensures Extended()
      ensures ok ==> journal == Some(Journal(entries, finished)) && Executed() == n
      ensures !ok ==> journal == old(journal) && run == old(run)
      ensures reliable ==> ok && Remaining() == old(Remaining())
    {
      ok := Succeeds();
      if !ok { return; }
      ghost var next := State(fs, n);
      if n != Executed() {
        StepKeepsOutcome(plan, strip, State(fs, Executed()), next);
        ScheduleGrows(plan, strip, project.Site(), run, next);
        run := run + [next];
      }
      journal := Some(Journal(entries, finished));
    }

    /** Put `tree` at the destination of the current move, whose source stays whole. */
    method Replace(src: Path, dest: Path, tree: FileSystem)
      requires Working(Move(src, dest)) && Apart(src, dest) && src in fs
      modifies this`fs, this`run
      ensures Working(Move(src, dest)) && fs == Graft(old(fs), dest, tree) && src in fs
      ensures old(run) <= run && Executed() == old(Executed()) && Remaining() == old(Remaining())
    {
      ReplacedIsAttempt(src, dest, strip, fs, tree);
      Act(Move(src, dest), Graft(fs, dest, tree));
    }

    /**
     * `moveOverwriting`: clear the destination, rename, or copy across devices and then remove the
     * source. Any of these may fail; a failed clear or copy leaves anything at the destination, and a
     * failed removal any part of the source.
     */
    method MoveOverwriting(src: Path, dest: Path) returns (ok: bool)
      requires Working(Move(src, dest)) && Apart(src, dest) && src in fs
      modifies this`fs, this`run
      ensures Working(Move(src, dest)) && Extended() && Executed() == old(Executed())
      ensures ok ==> src !in fs
      ensures reliable ==> ok && Remaining() == old(Remaining())
    {
      var cleared := Succeeds();
      if !cleared {
        Spoil(src, dest);
        return false;
      }
      Replace(src, dest, map[]);
      ok := RenameOrCopy(src, dest);
    }

    /** A clear or a copy that fails leaves anything at the destination. */
    method Spoil(src: Path, dest: Path)
      requires Working(Move(src, dest)) && Apart(src, dest) && src in fs
      modifies this`fs, this`run
      ensures Working(Move(src, dest)) && Extended() && Executed() == old(Executed())
    {
      var junk: FileSystem := *;
      ReplacedIsAttempt(src, dest, strip, fs, junk);
      Act(Move(src, dest), Graft(fs, dest, junk));
    }

    method RenameOrCopy(src: Path, dest: Path) returns (ok: bool)
      requires Working(Move(src, dest)) && Apart(src, dest) && src in fs
      modifies this`fs, this`run
      ensures Working(Move(src, dest)) && Extended() && Executed() == old(Executed())
      ensures ok ==> src !in fs
      ensures reliable ==> ok && Remaining() == old(Remaining())
    {
      var renamed: bool := *;
      if renamed || project.renames {
        Act(Move(src, dest), Effect(Move(src, dest), strip, fs));
        return true;
      }
      ok := CopyAcross(src, dest);
    }

    /** The fallback where a rename fails: copy, then remove the source only after copying succeeded. */
    method CopyAcross(src: Path, dest: Path) returns (ok: bool)
      requires Working(Move(src, dest)) && Apart(src, dest) && src in fs && !project.renames
      modifies this`fs, this`run
      ensures Working(Move(src, dest)) && Extended() && Executed() == old(Executed())
      ensures ok ==> src !in fs
      ensures reliable ==> ok && Remaining() == old(Remaining())
    {
      var copied := Succeeds();
      if !copied {
        Spoil(src, dest);
        return false;
      }
      Copy(src, dest);
      ok := RemoveSource(src, dest);
    }

    /** A complete copy, after which removing the source finishes the move. */
    method Copy(src: Path, dest: Path)
      requires Working(Move(src, dest)) && Apart(src, dest) && src in fs
      modifies this`fs, this`run
      ensures Working(Move(src, dest)) && Attempt(Move(src, dest), strip, fs, Without(fs, src))
      ensures fs == Graft(old(fs), dest, Subtree(old(fs), src)) && src in fs
      ensures Subtree(fs, dest) == Subtree(fs, src)
      ensures old(run) <= run && Executed() == old(Executed()) && Remaining() == old(Remaining())
    {
      CopiedThenRemoved(src, dest, strip, fs);
      CopyIsTwin(src, dest, fs);
      Replace(src, dest, Subtree(fs, src));
    }

    /** Some of the source goes; its root is still there. */
    method RemovePart(src: Path, dest: Path)
      requires Working(Move(src, dest)) && Apart(src, dest) && src in fs && !project.renames
      requires Subtree(fs, dest) == Subtree(fs, src)
      modifies this`fs, this`run
      ensures Working(Move(src, dest)) && Executed() == old(Executed()) && old(run) <= run
      ensures PartlyRemoved(src, dest, old(fs), fs)
    {
      var left: set<Path> := *;
      var part := LeavePart(fs, src, left);
      PartIsLeft(src, dest, fs, part, left);
      ActInPart(src, dest, part);
    }

    /** The copy is complete: remove what it was made from, or some of it. */
    method RemoveSource(src: Path, dest: Path) returns (ok: bool)
      requires Working(Move(src, dest)) && Attempt(Move(src, dest), strip, fs, Without(fs, src))
      requires Apart(src, dest) && src in fs && Subtree(fs, dest) == Subtree(fs, src) && !project.renames
      modifies this`fs, this`run
      ensures Working(Move(src, dest)) && Executed() == old(Executed()) && old(run) <= run
      ensures ok ==> src !in fs
      ensures reliable ==> ok && Remaining() == old(Remaining())
    {
      var removed := Succeeds();
      if !removed {
        RemovePart(src, dest);
        return false;
      }
      Act(Move(src, dest), Without(fs, src));
      ok := true;
    }

    /** One entry's action; `ok` means it has nothing left to do. */
    method Perform(e: Entry, repo: Path) returns (ok: bool)
      requires Working(e) && (e.Move? ==> Apart(e.src, e.dest)) && Idempotent(strip)
      modifies this`fs, this`run
      ensures Working(e) && Extended() && Executed() == old(Executed())
      ensures ok ==> Effect(e, strip, fs) == fs
      ensures e.Delete? && IsProtected(repo, e.path) ==> !ok && fs == old(fs)
      ensures reliable ==> Remaining() == old(Remaining())
      ensures reliable && !(e.Delete? && IsProtected(repo, e.path)) ==> ok
    {
      match e
      case Move(src, dest) =>
        ok := true;
        if src in fs { ok := MoveOverwriting(src, dest); }
      case Delete(path) =>
        if IsProtected(repo, path) { return false; }
        ok := Succeeds();
        if ok {
          Act(e, Without(fs, path));
          assert Without(fs, path) == fs;
        } else {
          var left: set<Path> := *;
          Act(e, map p | p in fs && (p in left || !(path <= p)) :: fs[p]);
        }
      case McpKeyRemove(path) =>
        ok := Succeeds();
        if ok { Act(e, Effect(e, strip, fs)); }
    }

    /** One turn of the execution loop: act, record the entry as executed, or record the failure. */
    method ExecuteEntry(entries: seq<JournalEntry>, i: nat, repo: Path)
      returns (next: seq<JournalEntry>, stop: Option<Outcome>)
      requires i < |entries| && Working(entries[i].entry) && i == Executed() && Idempotent(strip)
      requires journal.value.entries == entries
      requires entries[i].entry.Move? ==> Apart(entries[i].entry.src, entries[i].entry.dest)
      modifies this
      ensures Extended()
      ensures stop.None? ==> journal == Some(Journal(next, false)) && Executed() == i + 1
      ensures stop.Some? ==> stop.value == Halted || stop.value == Threw
      // A halt is on record at the entry it was at.
      ensures stop == Some(Halted) ==> i < |journal.value.entries| && journal.value.entries[i].failed
      ensures reliable ==> Remaining() == old(Remaining())
      ensures reliable && !(entries[i].entry.Delete? && IsProtected(repo, entries[i].entry.path)) ==> stop.None?
    {
      next := entries;
      var acted := Perform(entries[i].entry, repo);
      ghost var n := i;
      if acted {
        n := i + 1;
        next := next[i := next[i].(executed := true)];
        var saved := WriteJournal(next, n, false);
        if saved { return next, None; }
      }
      next := next[i := next[i].(failed := true)];
      var recorded := WriteJournal(next, n, false);
      stop := Some(if recorded then Halted else Threw);
    }

    /** Execute the journal on disk from its first entry not recorded as executed. */
    method Execute(repo: Path) returns (outcome: Outcome)
      requires Valid() && Current() && journal.Some? && Idempotent(strip) && MovesApart(plan)
      modifies this
      ensures Extended()
      ensures outcome in {Migrated, Halted, Threw}
      ensures outcome == Migrated ==> Executed() == |plan| && journal.value.finished
      ensures outcome == Halted ==> exists e | e in journal.value.entries :: e.failed
      ensures reliable && DeletesAllowed(plan, repo) ==> outcome == Migrated && fs == old(Remaining())
    {
      var entries := journal.value.entries;
      for i := 0 to |entries|
        invariant Extended() && journal.value.entries == entries && i <= Executed()
        invariant reliable ==> Remaining() == old(Remaining())
      {
        if entries[i].executed { continue; }
        assert plan[i] == entries[i].entry && plan[i] in plan;
        var stop;
        entries, stop := ExecuteEntry(entries, i, repo);
        if stop.Some? { return stop.value; }
      }
      assert plan[|plan|..] == [];
      var ok := WriteJournal(entries, |entries|, true);
      return if ok then Migrated else Threw;
    }

    /** Write the first journal of a plan, ahead of everything it lists. */
    method Begin(prepared: FileSystem, entries: seq<Entry>)
      modifies `fs, `journal, `plan, `run
      ensures Valid() && Current() && journal.Some? && fs == prepared && plan == entries && run == [State(prepared, 0)]
    {
      fs := prepared;
      journal := Some(Journal(seq(|entries|,
                i requires 0 <= i < |entries| => JournalEntry(entries[i], false, false)), false));
      plan, run := entries, [State(prepared, 0)];
      assert Plain(journal.value.entries) == plan;
    }

    /** The version marker of the workspace is on disk. */
    predicate Populated()
      reads `fs
    {
      project.workspace + MARKER in fs
    }

    /**
     * Assemble the workspace. Whether it throws, or returns though every provider failed, it may have
     * left anything in the places it seeds.
     */
    method Assemble() returns (ok: bool)
      requires Valid() && !Populated()
      modifies this`fs, this`run
      ensures Valid() && journal == old(journal) && (reliable ==> ok)
      ensures SameUnder(old(fs), fs, project.repo) && SameUnseeded(old(fs), fs, project.Site().seeds)
      ensures if old(Resumable()) then Extended() && Executed() == old(Executed()) else run == old(run)
    {
      var written: FileSystem := *;
      var assembled := Assembled(fs, written, project.Site());
      if Resumable() {
        ScheduleGrows(plan, strip, project.Site(), run, State(assembled, Executed()));
        run := run + [State(assembled, Executed())];
      }
      fs := assembled;
      ok := Succeeds();
    }

    /** Plan the assembled project, write its journal and execute it. */
    method Start() returns (outcome: Outcome)
      requires Idempotent(strip) && project.DirsOk() && Apart(project.repo, project.workspace)
      requires Valid() && MovesApart(plan)
      modifies this
      ensures Valid() && MovesApart(plan)
      ensures outcome == Threw || outcome == Migrated || outcome == Halted
      ensures outcome != Threw ==> run != [] && run[0].done == 0 && plan == project.Plan(run[0].fs)
      ensures outcome == Migrated ==> journal.Some? && journal.value.finished && Executed() == |plan| && Current()
      ensures reliable ==> outcome == Migrated && fs == Effects(project.Plan(old(fs)), strip, old(fs))
    {
      var entries := PlanProject(project, fs);
      PlanIsSound(project, fs);
      var planned := Succeeds();
      if !planned { return Threw; }
      PlanDeletes(project, fs);
      Begin(fs, entries);
      assert plan[0..] == plan;
      outcome := Execute(project.repo);
    }

    /** The test as written: some journal entry is not executed. */
    method IsResumable() returns (r: bool)
      requires Valid()
      ensures r == Resumable()
    {
      r := journal.Some? && !journal.value.finished
           && exists i :: 0 <= i < |journal.value.entries| && !journal.value.entries[i].executed;
      if journal.Some? && Executed() < |plan| { assert !journal.value.entries[Executed()].executed; }
    }

    /** A resume: assemble again if the workspace is not populated, then go on with the journal. */
    method Resume() returns (outcome: Outcome)
      requires Valid() && Idempotent(strip) && MovesApart(plan) && Resumable()
      modifies this
      ensures Extended() && outcome != Skipped
      ensures outcome == NotAssembled ==>
                !old(Populated()) && SameUnder(old(fs), fs, project.repo) && journal == old(journal)
      ensures old(BegunPopulated()) ==> outcome != NotAssembled
      ensures outcome == Migrated ==> journal.value.finished && Executed() == |plan|
      ensures reliable && DeletesAllowed(plan, project.repo) ==>
                outcome == Migrated && (old(Populated()) ==> fs == old(Remaining()))
    {
      if BegunPopulated() {
        NeverReassembles(plan, strip, project.Site(), run, |run| - 1);
      }
      if !Populated() {
        var assembled := Assemble();
        if !assembled { return NotAssembled; }
      }
      outcome := Execute(project.repo);
    }

    /** A first run: assemble the workspace if it is not populated, then plan and execute. */
    method MigrateFresh() returns (outcome: Outcome)
      requires Valid() && Idempotent(strip) && MovesApart(plan) && !Resumable() && !Populated()
      requires project.DirsOk() && Apart(project.repo, project.workspace)
      modifies this
      ensures Valid() && MovesApart(plan) && outcome != Skipped
      ensures outcome == NotAssembled ==> SameUnder(old(fs), fs, project.repo) && journal == old(journal)
      ensures outcome in {Migrated, Halted} ==> run != [] && run[0].done == 0 && plan == project.Plan(run[0].fs)
      ensures outcome == Migrated ==> journal.Some? && journal.value.finished && Executed() == |plan| && Current()
      ensures reliable ==> outcome == Migrated && LeftTheRepository(project, old(fs), fs)
      ensures reliable ==> CleansUp(project, strip, old(fs), fs)
    {
      var assembled := Assemble();
      if !assembled { return NotAssembled; }
      ghost var start := fs;
      outcome := Start();
      PlanCarriesOver(project, strip, start);
      PlanCleansUp(project, strip, start);
      if reliable { CarriedFromBefore(project, strip, old(fs), start, fs); }
    }

    /**
     * `migrateProject`. A journal with unexecuted entries is resumed; otherwise a project that still
     * runs from the repository is planned and journaled before anything moves. Either way the
     * workspace is assembled first if it is not populated.
     */
    method MigrateProject() returns (outcome: Outcome)
      requires Valid() && Idempotent(strip) && MovesApart(plan)
      requires project.DirsOk() && Apart(project.repo, project.workspace)
      modifies this
      ensures Valid() && MovesApart(plan)
      // Nothing is resumed, and there is no install in the repository or the workspace has taken over.
      ensures outcome == Skipped <==>
                && !old(Resumable())
                && (project.repo + [".specrails", "specrails-version"] !in old(fs)
                    || project.workspace + [".specrails", "specrails-version"] in old(fs))
      ensures outcome == Skipped ==> fs == old(fs) && journal == old(journal) && run == old(run)
      ensures outcome == NotAssembled ==>
                !old(Populated()) && SameUnder(old(fs), fs, project.repo) && journal == old(journal)
      // A resumed migration continues the schedule it was interrupted in.
      ensures old(Resumable()) ==> Extended()
      // It never fails to assemble when the workspace was populated as its first journal was written.
      ensures old(Resumable() && BegunPopulated()) ==> outcome != NotAssembled
      // A fresh one starts a schedule for the plan of the assembled project, once its journal is on disk.
      ensures !old(Resumable()) && outcome in {Migrated, Halted} ==>
                run != [] && run[0].done == 0 && plan == project.Plan(run[0].fs)
      ensures outcome == Migrated ==> journal.Some? && journal.value.finished && Executed() == |plan| && Current()
      // When nothing fails, an install leaves the repository with all its state, and a resumed migration
      // ends where the interrupted one would have.
      ensures reliable && !old(Resumable()) && outcome != Skipped ==>
                outcome == Migrated && LeftTheRepository(project, old(fs), fs) && CleansUp(project, strip, old(fs), fs)
      ensures reliable && old(Resumable()) && DeletesAllowed(plan, project.repo) ==>
                outcome == Migrated && (old(Populated()) ==> fs == old(Remaining()))
    {
      var resuming := IsResumable();
      if !resuming && (project.repo + MARKER !in fs || Populated()) { return Skipped; }
      if resuming {
        outcome := Resume();
      } else {
        outcome := MigrateFresh();
      }
    }

    /** The schedule began with the workspace populated, and its plan leaves the marker alone. */
    ghost predicate BegunPopulated()
      reads `plan, `run
    {
      run != [] && project.Site().marker in run[0].fs && KeepsMarker(plan, project.Site().marker)
    }

    /** The journal on disk has entries left to execute. */
    ghost predicate Resumable()
      reads `journal, `plan, `run
    {
      journal.Some? && !journal.value.finished && Executed() < |plan|
    }
  }

  lemma PlanDeletes(project: Project, fs: FileSystem)
    requires project.DirsOk() && Apart(project.repo, project.workspace)
    ensures DeletesAllowed(project.Plan(fs), project.repo)
  {
    var entries := STATE_ENTRIES;
    StatePlacesOk(entries, project.dirs);
    PlanForIsSound(project, fs, StatePlaces(entries, project.dirs));
    CleanupShape(project, fs);
  }

  /** An assemble in between, which stays out of the repository, makes no difference to what becomes of it. */
  lemma CarriedFromBefore(project: Project, strip: Strip, before: FileSystem, assembled: FileSystem, after: FileSystem)
    requires SameUnder(before, assembled, project.repo)
    requires LeftTheRepository(project, assembled, after) && CleansUp(project, strip, assembled, after)
    ensures LeftTheRepository(project, before, after) && CleansUp(project, strip, before, after)
  {
    forall place | HoldsState(project, place) ensures CarriedOver(project, before, after, place) {
      SameUnderPart(before, assembled, project.repo, place);
    }
    forall p ensures Unlisted(project, before, p) <==> Unlisted(project, assembled, p) {
      SameListing(project, before, assembled, p);
    }
    forall p | Unconcerned(project, before, p)
      ensures (p in after <==> p in before) && (p in before ==> after[p] == before[p])
    {
      assert Unlisted(project, assembled, p);
      assert Unconcerned(project, assembled, p);
    }
  }

  lemma SameUnderPart(f: FileSystem, g: FileSystem, root: Path, place: Path)
    requires SameUnder(f, g, root)
    ensures Subtree(f, root + place) == Subtree(g, root + place) && (root + place in f <==> root + place in g)
  {
    assert root <= root + place;
    SameSubtree(f, g, root + place);
  }

  lemma CopyIsTwin(src: Path, dest: Path, fs: FileSystem)
    requires Apart(src, dest)
    ensures var g := Graft(fs, dest, Subtree(fs, src)); Subtree(g, dest) == Subtree(g, src)
  {
    var g := Graft(fs, dest, Subtree(fs, src));
    SubtreeOfGraft(fs, dest, Subtree(fs, src));
    forall p | src <= p ensures p in g <==> p in fs
                        ensures p in fs ==> g[p] == fs[p]
    {
      if dest <= p { PrefixesOfOne(src, dest, p); }
      GraftAt(fs, dest, Subtree(fs, src), p);
    }
    SameSubtree(fs, g, src);
  }

  function LeavePart(fs: FileSystem, src: Path, left: set<Path>): FileSystem {
    map p | p in fs && (!(src <= p) || p == src || p in left) :: fs[p]
  }

  lemma PartIsLeft(src: Path, dest: Path, fs: FileSystem, part: FileSystem, left: set<Path>)
    requires Apart(src, dest) && src in fs && Subtree(fs, dest) == Subtree(fs, src)
    requires part == LeavePart(fs, src, left)
    ensures PartlyRemoved(src, dest, fs, part)
  {
    forall p | p in fs && dest <= p ensures !(src <= p) {
      if src <= p { PrefixesOfOne(src, dest, p); }
    }
    SameSubtree(fs, part, dest);
  }

  /** What an assemble leaves: anything where it writes outside the repository, the rest as it was. */
  function Assembled(fs: FileSystem, written: FileSystem, home: Home): (r: FileSystem)
    ensures SameUnder(fs, r, home.repo) && SameUnseeded(fs, r, home.seeds)
  {
    (map p | p in fs && (home.repo <= p || !Seeded(home.seeds, p)) :: fs[p])
    + map p | p in written && Seeded(home.seeds, p) && !(home.repo <= p) :: written[p]
  }

  /** Build the whole plan, in the order the journal lists it. */
  method PlanProject(project: Project, fs: FileSystem) returns (plan: seq<Entry>)
    ensures plan == project.Plan(fs)
  {
    var moves := PlanStateMoves(fs, project.repo, project.workspace, STATE_ENTRIES, project.dirs);
    var cleanup := BuildCleanupManifest(fs, project.repo, project.candidates);
    cleanup := cleanup + [Delete(project.repo + [".specrails"])];
    if project.ownsMcpKeys && project.repo + [".mcp.json"] in fs {
      cleanup := cleanup + [McpKeyRemove(project.repo + [".mcp.json"])];
    }
    assert cleanup == project.Cleanup(fs);
    plan := moves + cleanup;
  }
}
