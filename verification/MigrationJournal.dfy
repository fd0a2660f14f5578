/**
 * The journaled migration of a repo-resident install into its relocated workspace.
 *
 * A plan of moves, deletes and one MCP edit is written to a journal before anything happens;
 * entries are executed in order and journaled one by one; a later run resumes with the entries not
 * journaled as executed. An action may have happened without being journaled, and a failed or
 * interrupted one may leave its destination in any state. Where a rename fails, a move is a copy and a
 * removal, which may stop half-way. A resume that finds the workspace without its version marker
 * assembles it again first, which may leave anything where an assemble writes. A `Schedule` is any
 * sequence of such steps: because a crash keeps the disk and a resume starts from the disk, crashes
 * need no step of their own.
 */
module MigrationJournal {
  import opened Wrappers
  import opened FileTree

  // ---- Journal entries ----

  datatype Entry =
    | Move(src: Path, dest: Path)
    | Delete(path: Path)
    | McpKeyRemove(path: Path)

  /** What removing the owned keys does to the text of `.mcp.json`. */
  type Strip = string -> string

  ghost predicate Idempotent(strip: Strip) {
    forall c :: strip(strip(c)) == strip(c)
  }

  /** The effect of an entry that runs to completion. A move whose source is gone has been done. */
  function Effect(e: Entry, strip: Strip, fs: FileSystem): FileSystem {
    match e
    case Move(src, dest) =>
      if src in fs then Without(Graft(fs, dest, Subtree(fs, src)), src) else fs
    case Delete(path) => Without(fs, path)
    case McpKeyRemove(path) =>
      if path in fs && fs[path].File? then fs[path := File(strip(fs[path].content))] else fs
  }

  function Effects(plan: seq<Entry>, strip: Strip, fs: FileSystem): FileSystem {
    if plan == [] then fs else Effects(plan[1..], strip, Effect(plan[0], strip, fs))
  }

  /**
   * What one interrupted, failed or completed action can leave: a move either still has its whole
   * source, with anything at the destination, or has completed; a delete may have removed a part.
   */
  predicate Attempt(e: Entry, strip: Strip, f: FileSystem, g: FileSystem) {
    || g == f
    || g == Effect(e, strip, f)
    || match e
       case Move(src, dest) => src in f && SameOutside(f, g, dest)
       case Delete(path) => SameOutside(f, g, path) && forall p | p in g :: p in f && g[p] == f[p]
       case McpKeyRemove(_) => false
  }

  /** The disk: the files, and how many leading entries the journal records as executed. */
  datatype State = State(fs: FileSystem, done: nat)

  predicate Step(plan: seq<Entry>, strip: Strip, s: State, t: State) {
    && s.done < |plan|
    && (|| (t.done == s.done && Attempt(plan[s.done], strip, s.fs, t.fs))
        || (t.done == s.done + 1 && t.fs == s.fs && Effect(plan[s.done], strip, s.fs) == s.fs))
  }

  /**
   * The repository being migrated, the file that says its workspace is populated, where assembles
   * write, and whether every rename into the workspace succeeds.
   */
  datatype Home = Home(repo: Path, marker: Path, seeds: set<Path>, renames: bool)

  predicate Seeded(seeds: set<Path>, p: Path) {
    exists q | q in seeds :: q <= p
  }

  /** `f` and `g` hold the same things wherever an assemble does not write. */
  ghost predicate SameUnseeded(f: FileSystem, g: FileSystem, seeds: set<Path>) {
    forall p | !Seeded(seeds, p) :: (p in g <==> p in f) && (p in f ==> g[p] == f[p])
  }

  /**
   * A resume's assemble, whether it succeeds, throws or is cut short: made only while the marker is
   * missing, it may leave anything outside the repository at and below the places it seeds.
   */
  ghost predicate Reassembly(plan: seq<Entry>, home: Home, s: State, t: State) {
    && s.done < |plan| && t.done == s.done
    && home.marker !in s.fs && SameUnder(s.fs, t.fs, home.repo) && SameUnseeded(s.fs, t.fs, home.seeds)
  }

  /**
   * Where a rename fails: the copy is complete, and the removal of the source fails or is cut short. The
   * root of the source goes last.
   */
  ghost predicate PartRemoval(plan: seq<Entry>, home: Home, s: State, t: State) {
    && !home.renames && s.done < |plan| && t.done == s.done && plan[s.done].Move?
    && PartlyRemoved(plan[s.done].src, plan[s.done].dest, s.fs, t.fs)
  }

  ghost predicate PartlyRemoved(src: Path, dest: Path, f: FileSystem, g: FileSystem) {
    && src in f && src in g && Subtree(g, dest) == Subtree(f, src)
    && (forall p | p in g && src <= p :: p in f && g[p] == f[p])
    && forall p | !(src <= p) && !(dest <= p) :: (p in g <==> p in f) && (p in f ==> g[p] == f[p])
  }

  /** One step of a schedule. */
  ghost predicate Next(plan: seq<Entry>, strip: Strip, home: Home, s: State, t: State) {
    Step(plan, strip, s, t) || Reassembly(plan, home, s, t) || PartRemoval(plan, home, s, t)
  }

  /** A schedule in which no resume assembles and no source is left half removed. */
  ghost predicate Undisturbed(plan: seq<Entry>, strip: Strip, run: seq<State>) {
    && run != [] && run[0].done <= |plan|
    && forall i | 0 <= i < |run| - 1 :: Step(plan, strip, run[i], run[i + 1])
  }

  ghost predicate Schedule(plan: seq<Entry>, strip: Strip, home: Home, run: seq<State>) {
    && run != [] && run[0].done <= |plan|
    && forall i | 0 <= i < |run| - 1 :: Next(plan, strip, home, run[i], run[i + 1])
  }

  lemma ScheduleGrows(plan: seq<Entry>, strip: Strip, home: Home, run: seq<State>, next: State)
    requires Schedule(plan, strip, home, run)
    requires Next(plan, strip, home, run[|run| - 1], next)
    ensures Schedule(plan, strip, home, run + [next])
  {
    var longer := run + [next];
    forall i | 0 <= i < |longer| - 1 ensures Next(plan, strip, home, longer[i], longer[i + 1]) {
      if i < |run| - 1 {
        assert Next(plan, strip, home, run[i], run[i + 1]);
      }
    }
  }

  // ---- A populated workspace is not assembled again ----

  /** No entry moves the marker, moves anything over it or deletes it. */
  predicate KeepsMarker(plan: seq<Entry>, marker: Path) {
    NotMoved(plan, marker) && !Deleted(plan, marker)
  }

  lemma AttemptKeepsMarker(plan: seq<Entry>, k: nat, strip: Strip, f: FileSystem, g: FileSystem, marker: Path)
    requires k < |plan| && MovesApart(plan) && KeepsMarker(plan, marker)
    requires Attempt(plan[k], strip, f, g) && marker in f
    ensures marker in g
  {
    var e := plan[k];
    assert e in plan;
    if e.Move? && e.src in f {
      MovedAt(e.src, e.dest, strip, f, marker);
    }
  }

  lemma NextKeepsMarker(plan: seq<Entry>, strip: Strip, home: Home, s: State, t: State)
    requires MovesApart(plan) && KeepsMarker(plan, home.marker) && Next(plan, strip, home, s, t)
    requires home.marker in s.fs
    ensures home.marker in t.fs && !Reassembly(plan, home, s, t)
  {
    if Step(plan, strip, s, t) {
      if t.done == s.done {
        AttemptKeepsMarker(plan, s.done, strip, s.fs, t.fs, home.marker);
      }
    } else {
      assert plan[s.done] in plan;
    }
  }

  /** A schedule that starts with the marker on disk keeps it, so that no resume in it ever assembles. */
  lemma {:induction false} NeverReassembles(plan: seq<Entry>, strip: Strip, home: Home, run: seq<State>, k: nat)
    requires MovesApart(plan) && KeepsMarker(plan, home.marker)
    requires Schedule(plan, strip, home, run) && home.marker in run[0].fs && k < |run|
    ensures home.marker in run[k].fs
    ensures k < |run| - 1 ==> !Reassembly(plan, home, run[k], run[k + 1])
  {
    if k > 0 {
      NeverReassembles(plan, strip, home, run, k - 1);
      NextKeepsMarker(plan, strip, home, run[k - 1], run[k]);
    }
  }

  /** From any state on, the rest can be carried out without interruption. */
  lemma {:induction false} CanFinish(plan: seq<Entry>, strip: Strip, home: Home, s: State) returns (run: seq<State>)
    requires MovesApart(plan) && Idempotent(strip) && s.done <= |plan|
    ensures Schedule(plan, strip, home, run) && Undisturbed(plan, strip, run) && run[0] == s
    ensures run[|run| - 1] == State(Outcome(plan, strip, s), |plan|)
    decreases |plan| - s.done
  {
    run := [s];
    if s.done < |plan| {
      var e, rest := plan[s.done], plan[s.done..];
      var acted := State(Effect(e, strip, s.fs), s.done);
      var journaled := State(acted.fs, s.done + 1);
      assert rest[0] == e && rest[1..] == plan[s.done + 1..];
      AttemptIsHarmless(e, strip, s.fs, acted.fs);
      var tail := CanFinish(plan, strip, home, journaled);
      run := [s, acted] + tail;
      forall i | 0 <= i < |run| - 1 ensures Step(plan, strip, run[i], run[i + 1]) {
        if i >= 2 {
          assert Step(plan, strip, tail[i - 2], tail[i - 1]);
        }
      }
    } else {
      assert plan[s.done..] == [];
    }
  }

  // ---- Every schedule ends in the same place ----

  ghost predicate MovesApart(plan: seq<Entry>) {
    && (forall i | 0 <= i < |plan| && plan[i].Move? :: Apart(plan[i].src, plan[i].dest))
    && forall i, j | 0 <= i < |plan| && 0 <= j < |plan| && i != j && plan[i].Move? && plan[j].Move? ::
         Apart(plan[i].src, plan[j].src) && Apart(plan[i].src, plan[j].dest) && Apart(plan[i].dest, plan[j].dest)
  }

  lemma MovedAt(src: Path, dest: Path, strip: Strip, fs: FileSystem, p: Path)
    requires Apart(src, dest) && src in fs
    ensures var g := Effect(Move(src, dest), strip, fs);
            && (src <= p ==> p !in g)
            && (dest <= p ==> (p in g <==> src + p[|dest|..] in fs) && (p in g ==> g[p] == fs[src + p[|dest|..]]))
            && (!(src <= p) && !(dest <= p) ==> (p in g <==> p in fs) && (p in g ==> g[p] == fs[p]))
  {
    GraftAt(fs, dest, Subtree(fs, src), p);
    if dest <= p {
      SubtreeAt(fs, src, p[|dest|..]);
      if src <= p {
        PrefixesOfOne(src, dest, p);
      }
    }
  }

  /** Redoing an entry after any attempt has the effect it would have had without the attempt. */
  lemma AttemptIsHarmless(e: Entry, strip: Strip, f: FileSystem, g: FileSystem)
    requires Attempt(e, strip, f, g) && Idempotent(strip)
    requires e.Move? ==> Apart(e.src, e.dest)
    ensures Effect(e, strip, g) == Effect(e, strip, f)
  {
    match e
    case Move(src, dest) =>
      if src in f && SameOutside(f, g, dest) {
        var fe, ge := Effect(e, strip, f), Effect(e, strip, g);
        forall p ensures p in fe <==> p in ge
                 ensures p in fe ==> fe[p] == ge[p]
        {
          MovedAt(src, dest, strip, f, p);
          MovedAt(src, dest, strip, g, p);
          if dest <= p {
            var q := src + p[|dest|..];
            if dest <= q {
              PrefixesOfOne(src, dest, q);
            }
          }
        }
      } else if src in f && g == Effect(e, strip, f) {
        MovedAt(src, dest, strip, f, src);
      }
    case Delete(path) =>
      if SameOutside(f, g, path) {
        assert Without(g, path) == Without(f, path);
      } else {
        assert Without(Without(f, path), path) == Without(f, path);
      }
    case McpKeyRemove(path) =>
  }

  /** Where the entries that are not journaled yet will take the disk. */
  function Outcome(plan: seq<Entry>, strip: Strip, s: State): FileSystem
    requires s.done <= |plan|
  {
    Effects(plan[s.done..], strip, s.fs)
  }

  lemma StepKeepsOutcome(plan: seq<Entry>, strip: Strip, s: State, t: State)
    requires MovesApart(plan) && Idempotent(strip) && Step(plan, strip, s, t)
    ensures Outcome(plan, strip, t) == Outcome(plan, strip, s)
  {
    var rest := plan[s.done..];
    assert rest[0] == plan[s.done] && rest[1..] == plan[s.done + 1..];
    if t.done == s.done {
      AttemptIsHarmless(plan[s.done], strip, s.fs, t.fs);
    }
  }

  /** The remaining entries will take the disk to `end`. */
  ghost predicate Ends(plan: seq<Entry>, strip: Strip, s: State, end: FileSystem) {
    s.done <= |plan| && Outcome(plan, strip, s) == end
  }

  lemma RunKeepsOutcome(plan: seq<Entry>, strip: Strip, run: seq<State>, k: nat)
    requires MovesApart(plan) && Idempotent(strip) && Undisturbed(plan, strip, run) && k < |run|
    ensures run[k].done <= |plan|
    ensures Outcome(plan, strip, run[k]) == Outcome(plan, strip, run[0])
  {
    var end := Outcome(plan, strip, run[0]);
    forall n | 0 <= n < |run| - 1 && Ends(plan, strip, run[n], end) ensures Ends(plan, strip, run[n + 1], end) {
      StepKeepsOutcome(plan, strip, run[n], run[n + 1]);
    }
    HoldsThroughout(run, s => Ends(plan, strip, s, end), k);
  }

  /** Any undisturbed schedule leaves, once every entry is journaled, exactly what an uninterrupted run leaves. */
  lemma FinishedRunsAgree(plan: seq<Entry>, strip: Strip, run: seq<State>, k: nat)
    requires MovesApart(plan) && Idempotent(strip) && Undisturbed(plan, strip, run)
    requires k < |run| && run[0].done == 0 && run[k].done == |plan|
    ensures run[k].fs == Effects(plan, strip, run[0].fs)
  {
    RunKeepsOutcome(plan, strip, run, k);
    assert plan[0..] == plan && plan[|plan|..] == [];
  }

  // ---- State is never lost ----

  predicate MovesFirst(plan: seq<Entry>) {
    forall i, j | 0 <= i < j < |plan| && plan[j].Move? :: plan[i].Move?
  }

  /** `e` is not a move, and acts on nothing that the tree `tree` would contain below `dest`. */
  ghost predicate Spares(e: Entry, dest: Path, tree: FileSystem) {
    forall r | r in tree :: match e
                            case Move(_, _) => true
                            case Delete(path) => !(path <= dest + r)
                            case McpKeyRemove(path) => path != dest + r
  }

  /** The plan's later entries leave alone what its moves carry over from `f0`. */
  ghost predicate SparesMoved(plan: seq<Entry>, f0: FileSystem) {
    forall i, j | 0 <= i < |plan| && 0 <= j < |plan| && plan[i].Move? ::
      Spares(plan[j], plan[i].dest, Subtree(f0, plan[i].src))
  }

  predicate AtSource(fs: FileSystem, f0: FileSystem, m: Entry)
    requires m.Move?
  {
    Subtree(fs, m.src) == Subtree(f0, m.src)
  }

  predicate AtDestination(fs: FileSystem, f0: FileSystem, m: Entry)
    requires m.Move?
  {
    Subtree(fs, m.dest) == Subtree(f0, m.src)
  }

  /** A journaled move has arrived, a later one has not left, the current one is in one place or the other. */
  predicate MoveInPlace(m: Entry, i: int, f0: FileSystem, s: State)
    requires m.Move?
  {
    if i < s.done then AtDestination(s.fs, f0, m)
    else if i > s.done then AtSource(s.fs, f0, m)
    else AtSource(s.fs, f0, m) || (m.src !in s.fs && AtDestination(s.fs, f0, m))
  }

  predicate InPlace(plan: seq<Entry>, f0: FileSystem, s: State) {
    forall i | 0 <= i < |plan| && plan[i].Move? :: MoveInPlace(plan[i], i, f0, s)
  }

  lemma MoveLeavesAlone(m: Entry, strip: Strip, f: FileSystem, g: FileSystem, root: Path)
    requires m.Move? && Apart(m.src, m.dest) && Attempt(m, strip, f, g)
    requires Apart(root, m.src) && Apart(root, m.dest)
    ensures Subtree(g, root) == Subtree(f, root)
  {
    forall p | root <= p ensures p in g <==> p in f
                         ensures p in f ==> g[p] == f[p]
    {
      if m.src <= p { PrefixesOfOne(m.src, root, p); }
      if m.dest <= p { PrefixesOfOne(m.dest, root, p); }
      if m.src in f { MovedAt(m.src, m.dest, strip, f, p); }
    }
    SameSubtree(f, g, root);
  }

  /** A completed move carries the whole tree over. */
  lemma MovedArrives(m: Entry, strip: Strip, f: FileSystem)
    requires m.Move? && Apart(m.src, m.dest) && m.src in f
    ensures Subtree(Effect(m, strip, f), m.dest) == Subtree(f, m.src)
  {
    var g := Effect(m, strip, f);
    forall r ensures r in Subtree(g, m.dest) <==> r in Subtree(f, m.src)
             ensures r in Subtree(f, m.src) ==> Subtree(g, m.dest)[r] == Subtree(f, m.src)[r]
    {
      SubtreeAt(g, m.dest, r);
      SubtreeAt(f, m.src, r);
      MovedAt(m.src, m.dest, strip, f, m.dest + r);
      assert (m.dest + r)[|m.dest|..] == r;
    }
  }

  lemma OutsideKeepsApart(src: Path, dest: Path, f: FileSystem, g: FileSystem)
    requires Apart(src, dest) && SameOutside(f, g, dest)
    ensures Subtree(g, src) == Subtree(f, src)
  {
    forall p | (p in f || p in g) && src <= p ensures !(dest <= p) {
      if dest <= p { PrefixesOfOne(src, dest, p); }
    }
    SameSubtree(f, g, src);
  }

  lemma MoveAttempted(m: Entry, strip: Strip, f: FileSystem, g: FileSystem)
    requires m.Move? && Apart(m.src, m.dest) && Attempt(m, strip, f, g) && m.src in f
    ensures Subtree(g, m.src) == Subtree(f, m.src) || (m.src !in g && Subtree(g, m.dest) == Subtree(f, m.src))
  {
    if g == Effect(m, strip, f) {
      MovedAt(m.src, m.dest, strip, f, m.src);
      MovedArrives(m, strip, f);
    } else if g != f {
      OutsideKeepsApart(m.src, m.dest, f, g);
    }
  }

  lemma CleanupLeavesAlone(e: Entry, strip: Strip, f: FileSystem, g: FileSystem, dest: Path, tree: FileSystem)
    requires !e.Move? && Attempt(e, strip, f, g) && Spares(e, dest, tree) && Subtree(f, dest) == tree
    ensures Subtree(g, dest) == tree
  {
    forall p | p in f && dest <= p ensures p in g && g[p] == f[p] {
      SubtreeAt(f, dest, p[|dest|..]);
      assert dest + p[|dest|..] == p;
      assert p[|dest|..] in tree;
    }
    SameSubtree(f, g, dest);
  }

  lemma RootOf(f0: FileSystem, fs: FileSystem, src: Path)
    requires Subtree(fs, src) == Subtree(f0, src) && src in f0
    ensures src in fs
  {
    SubtreeAt(f0, src, []);
    SubtreeAt(fs, src, []);
    assert src + [] == src;
  }

  lemma StepKeepsMove(plan: seq<Entry>, strip: Strip, f0: FileSystem, s: State, t: State, i: nat)
    requires MovesApart(plan) && MovesFirst(plan) && SparesMoved(plan, f0)
    requires i < |plan| && plan[i].Move? && plan[i].src in f0
    requires MoveInPlace(plan[i], i, f0, s) && Step(plan, strip, s, t)
    ensures MoveInPlace(plan[i], i, f0, t)
  {
    var e, m := plan[s.done], plan[i];
    if AtSource(s.fs, f0, m) {
      RootOf(f0, s.fs, m.src);
    }
    if t.done == s.done + 1 {
      if i == s.done && m.src in s.fs {
        MovedDisappears(m, strip, s.fs);
        assert false;
      }
    } else if i == s.done {
      if m.src in s.fs {
        MoveAttempted(m, strip, s.fs, t.fs);
      }
    } else if e.Move? {
      MoveLeavesAlone(e, strip, s.fs, t.fs, m.src);
      MoveLeavesAlone(e, strip, s.fs, t.fs, m.dest);
    } else {
      CleanupLeavesAlone(e, strip, s.fs, t.fs, m.dest, Subtree(f0, m.src));
    }
  }

  lemma StepKeepsInPlace(plan: seq<Entry>, strip: Strip, f0: FileSystem, s: State, t: State)
    requires MovesApart(plan) && MovesFirst(plan) && SparesMoved(plan, f0)
    requires forall i | 0 <= i < |plan| && plan[i].Move? :: plan[i].src in f0
    requires InPlace(plan, f0, s) && Step(plan, strip, s, t)
    ensures InPlace(plan, f0, t)
  {
    forall i | 0 <= i < |plan| && plan[i].Move? ensures MoveInPlace(plan[i], i, f0, t) {
      StepKeepsMove(plan, strip, f0, s, t, i);
    }
  }

  /** A completed move is visible: it cannot leave the file system as it was. */
  lemma MovedDisappears(m: Entry, strip: Strip, fs: FileSystem)
    requires m.Move? && m.src in fs
    ensures Effect(m, strip, fs) != fs
  {
    assert m.src !in Effect(m, strip, fs);
  }

  lemma RunKeepsInPlace(plan: seq<Entry>, strip: Strip, run: seq<State>, k: nat)
    requires Undisturbed(plan, strip, run) && run[0].done == 0 && k < |run|
    requires MovesApart(plan) && MovesFirst(plan) && SparesMoved(plan, run[0].fs)
    requires forall i | 0 <= i < |plan| && plan[i].Move? :: plan[i].src in run[0].fs
    ensures InPlace(plan, run[0].fs, run[k])
  {
    var f0 := run[0].fs;
    forall n | 0 <= n < |run| - 1 && InPlace(plan, f0, run[n]) ensures InPlace(plan, f0, run[n + 1]) {
      StepKeepsInPlace(plan, strip, f0, run[n], run[n + 1]);
    }
    HoldsThroughout(run, s => InPlace(plan, f0, s), k);
  }

  /** At every point of every undisturbed schedule each moved tree is whole at its source or at its destination. */
  lemma StateIsNeverLost(plan: seq<Entry>, strip: Strip, run: seq<State>, k: nat, i: nat)
    requires Undisturbed(plan, strip, run) && run[0].done == 0
    requires MovesApart(plan) && MovesFirst(plan) && SparesMoved(plan, run[0].fs)
    requires k < |run|
    requires forall j | 0 <= j < |plan| && plan[j].Move? :: plan[j].src in run[0].fs
    requires i < |plan| && plan[i].Move?
    ensures AtSource(run[k].fs, run[0].fs, plan[i]) || AtDestination(run[k].fs, run[0].fs, plan[i])
    ensures run[k].done == |plan| ==> AtDestination(run[k].fs, run[0].fs, plan[i])
  {
    RunKeepsInPlace(plan, strip, run, k);
    assert MoveInPlace(plan[i], i, run[0].fs, run[k]);
  }

  /** Of a single file, or an empty directory, no part can be removed. */
  predicate IsSingle(m: Entry, fs: FileSystem)
    requires m.Move?
  {
    forall r | r in Subtree(fs, m.src) :: r == []
  }

  predicate AllSingle(plan: seq<Entry>, fs: FileSystem) {
    forall i | 0 <= i < |plan| && plan[i].Move? :: IsSingle(plan[i], fs)
  }

  lemma PartOfSingle(m: Entry, strip: Strip, f: FileSystem, g: FileSystem)
    requires m.Move? && Apart(m.src, m.dest) && IsSingle(m, f) && PartlyRemoved(m.src, m.dest, f, g)
    ensures Attempt(m, strip, f, g)
  {
    forall p | p in f && m.src <= p ensures p == m.src {
      SubtreeAt(f, m.src, p[|m.src|..]);
      assert m.src + p[|m.src|..] == p;
    }
    assert SameOutside(f, g, m.dest);
  }

  /**
   * When a schedule is undisturbed: when the workspace is populated as it starts, and every rename
   * succeeds, or nothing that is moved can be removed in part.
   */
  lemma {:induction false} NeverDisturbed(plan: seq<Entry>, strip: Strip, home: Home, run: seq<State>)
    requires Schedule(plan, strip, home, run) && run[0].done == 0
    requires KeepsMarker(plan, home.marker) && home.marker in run[0].fs
    requires MovesApart(plan) && MovesFirst(plan) && SparesMoved(plan, run[0].fs)
    requires forall i | 0 <= i < |plan| && plan[i].Move? :: plan[i].src in run[0].fs
    requires home.renames || AllSingle(plan, run[0].fs)
    ensures Undisturbed(plan, strip, run)
  {
    if |run| > 1 {
      var shorter, s, t := run[..|run| - 1], run[|run| - 2], run[|run| - 1];
      NeverDisturbed(plan, strip, home, shorter);
      NeverReassembles(plan, strip, home, run, |run| - 2);
      assert Next(plan, strip, home, s, t);
      if PartRemoval(plan, home, s, t) {
        RunKeepsInPlace(plan, strip, shorter, |run| - 2);
        assert MoveInPlace(plan[s.done], s.done, run[0].fs, s);
        assert IsSingle(plan[s.done], run[0].fs);
        PartOfSingle(plan[s.done], strip, s.fs, t.fs);
      }
      OneMoreStep(plan, strip, run);
    }
  }

  lemma OneMoreStep(plan: seq<Entry>, strip: Strip, run: seq<State>)
    requires |run| > 1 && Undisturbed(plan, strip, run[..|run| - 1])
    requires Step(plan, strip, run[|run| - 2], run[|run| - 1])
    ensures Undisturbed(plan, strip, run)
  {
    var shorter := run[..|run| - 1];
    forall i | 0 <= i < |run| - 1 ensures Step(plan, strip, run[i], run[i + 1]) {
      if i < |run| - 2 { assert Step(plan, strip, shorter[i], shorter[i + 1]); }
    }
  }

  lemma {:induction false} EffectsKeepInPlace(plan: seq<Entry>, strip: Strip, f0: FileSystem, s: State)
    requires MovesApart(plan) && MovesFirst(plan) && SparesMoved(plan, f0) && Idempotent(strip)
    requires forall i | 0 <= i < |plan| && plan[i].Move? :: plan[i].src in f0
    requires s.done <= |plan| && InPlace(plan, f0, s)
    ensures InPlace(plan, f0, State(Outcome(plan, strip, s), |plan|))
    decreases |plan| - s.done
  {
    if s.done < |plan| {
      var e := plan[s.done];
      var acted := State(Effect(e, strip, s.fs), s.done);
      var journaled := State(acted.fs, s.done + 1);
      AttemptIsHarmless(e, strip, s.fs, acted.fs);
      StepKeepsInPlace(plan, strip, f0, s, acted);
      StepKeepsInPlace(plan, strip, f0, acted, journaled);
      StepKeepsOutcome(plan, strip, s, acted);
      StepKeepsOutcome(plan, strip, acted, journaled);
      EffectsKeepInPlace(plan, strip, f0, journaled);
    }
  }

  /** No move carries `p` away or puts something at it. */
  predicate NotMoved(plan: seq<Entry>, p: Path) {
    forall e | e in plan && e.Move? :: !(e.src <= p) && !(e.dest <= p)
  }

  predicate Deleted(plan: seq<Entry>, p: Path) {
    exists e | e in plan && e.Delete? :: e.path <= p
  }

  /** Outside the moved trees, a path is gone at the end exactly when a delete entry contains it. */
  lemma {:induction false} GoneIffDeleted(plan: seq<Entry>, strip: Strip, fs: FileSystem, p: Path)
    requires forall e | e in plan && e.Move? :: Apart(e.src, e.dest)
    requires NotMoved(plan, p)
    ensures p in Effects(plan, strip, fs) <==> p in fs && !Deleted(plan, p)
    ensures p in Effects(plan, strip, fs) && McpKeyRemove(p) !in plan ==> Effects(plan, strip, fs)[p] == fs[p]
  {
    if plan != [] {
      var e, rest := plan[0], plan[1..];
      assert plan == [e] + rest;
      if e.Move? && e.src in fs { MovedAt(e.src, e.dest, strip, fs, p); }
      GoneIffDeleted(rest, strip, Effect(e, strip, fs), p);
    }
  }

  /** No delete entry contains anything a move carries over. */
  ghost predicate DeletesSpareMoved(plan: seq<Entry>, f0: FileSystem) {
    forall i, r | 0 <= i < |plan| && plan[i].Move? && r in Subtree(f0, plan[i].src) :: !Deleted(plan, plan[i].dest + r)
  }

  ghost predicate McpNotMoved(plan: seq<Entry>) {
    forall m, e | m in plan && e in plan && m.Move? && e.McpKeyRemove? :: !(m.dest <= e.path)
  }

  predicate Arrived(plan: seq<Entry>, f0: FileSystem, fs: FileSystem) {
    forall i | 0 <= i < |plan| && plan[i].Move? :: AtDestination(fs, f0, plan[i])
  }

  lemma DeletedIsGone(plan: seq<Entry>, strip: Strip, fs: FileSystem, p: Path, j: nat)
    requires j < |plan| && plan[j].Delete? && plan[j].path <= p && MovesFirst(plan)
    ensures p !in Effects(plan, strip, fs)
    decreases j
  {
    if j > 0 {
      DeletedIsGone(plan[1..], strip, Effect(plan[0], strip, fs), p, j - 1);
    } else {
      var rest := plan[1..];
      forall e | e in rest ensures !e.Move? {
        var i :| 0 <= i < |rest| && rest[i] == e;
        assert plan[i + 1] == e;
      }
      GoneIffDeleted(rest, strip, Effect(plan[0], strip, fs), p);
    }
  }

  lemma MovesApartTail(plan: seq<Entry>)
    requires plan != [] && MovesApart(plan)
    ensures MovesApart(plan[1..])
    ensures plan[0].Move? ==> NotMoved(plan[1..], plan[0].src)
  {
    var rest := plan[1..];
    forall i | 0 <= i < |rest| ensures rest[i] == plan[i + 1] {
    }
    assert forall i | 0 <= i < |rest| && rest[i].Move? :: Apart(plan[i + 1].src, plan[i + 1].dest);
  }

  /** What is moved is gone from where it was. */
  lemma {:induction false} SourceIsGone(plan: seq<Entry>, strip: Strip, fs: FileSystem, j: nat)
    requires MovesApart(plan) && j < |plan| && plan[j].Move?
    ensures plan[j].src !in Effects(plan, strip, fs)
    decreases j
  {
    MovesApartTail(plan);
    var rest, next := plan[1..], Effect(plan[0], strip, fs);
    if j > 0 {
      SourceIsGone(rest, strip, next, j - 1);
    } else {
      assert plan[0].src !in next;
      forall e | e in rest && e.Move? ensures Apart(e.src, e.dest) {
        var i :| 0 <= i < |rest| && rest[i] == e;
      }
      GoneIffDeleted(rest, strip, next, plan[0].src);
    }
  }

  /** A finished migration has carried every planned tree over exactly when no delete reaches into one. */
  lemma ArrivedIffSpared(plan: seq<Entry>, strip: Strip, f0: FileSystem)
    requires MovesApart(plan) && MovesFirst(plan) && McpNotMoved(plan) && Idempotent(strip)
    requires forall i | 0 <= i < |plan| && plan[i].Move? :: plan[i].src in f0
    ensures Arrived(plan, f0, Effects(plan, strip, f0)) <==> DeletesSpareMoved(plan, f0)
  {
    if DeletesSpareMoved(plan, f0) {
      forall i, j | 0 <= i < |plan| && 0 <= j < |plan| && plan[i].Move?
        ensures Spares(plan[j], plan[i].dest, Subtree(f0, plan[i].src))
      {
        assert plan[i] in plan && plan[j] in plan;
      }
      assert plan[0..] == plan;
      EffectsKeepInPlace(plan, strip, f0, State(f0, 0));
    } else {
      var i, r :| 0 <= i < |plan| && plan[i].Move? && r in Subtree(f0, plan[i].src) && Deleted(plan, plan[i].dest + r);
      var e :| e in plan && e.Delete? && e.path <= plan[i].dest + r;
      var j :| 0 <= j < |plan| && plan[j] == e;
      DeletedIsGone(plan, strip, f0, plan[i].dest + r, j);
      SubtreeAt(Effects(plan, strip, f0), plan[i].dest, r);
    }
  }

  lemma ReplacedIsAttempt(src: Path, dest: Path, strip: Strip, fs: FileSystem, tree: FileSystem)
    requires Apart(src, dest) && src in fs
    ensures Attempt(Move(src, dest), strip, fs, Graft(fs, dest, tree))
    ensures src in Graft(fs, dest, tree)
  {
    forall p
      ensures !(dest <= p) ==>
                (p in Graft(fs, dest, tree) <==> p in fs) && (p in fs ==> Graft(fs, dest, tree)[p] == fs[p])
    {
      GraftAt(fs, dest, tree, p);
    }
  }

  /** After a complete copy, removing the source is what the move would have done. */
  lemma CopiedThenRemoved(src: Path, dest: Path, strip: Strip, fs: FileSystem)
    requires Apart(src, dest) && src in fs
    ensures var copied := Graft(fs, dest, Subtree(fs, src));
            && Effect(Move(src, dest), strip, copied) == Without(copied, src)
            && Attempt(Move(src, dest), strip, copied, Without(copied, src))
  {
    var copied := Graft(fs, dest, Subtree(fs, src));
    GraftAt(fs, dest, Subtree(fs, src), src);
    var g := Effect(Move(src, dest), strip, copied);
    forall p ensures p in g <==> p in Without(copied, src)
             ensures p in g ==> g[p] == copied[p]
    {
      MovedAt(src, dest, strip, copied, p);
      GraftAt(fs, dest, Subtree(fs, src), p);
      if dest <= p {
        var q := src + p[|dest|..];
        if dest <= q { PrefixesOfOne(src, dest, q); }
        GraftAt(fs, dest, Subtree(fs, src), q);
        SubtreeAt(fs, src, p[|dest|..]);
        if src <= p { PrefixesOfOne(src, dest, p); }
      }
    }
  }
}
