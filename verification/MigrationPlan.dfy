/**
 * What a migration plans: state moves from the repository to the workspace, then the cleanup of
 * listed framework files, the `.specrails` residue and the owned MCP keys.
 */
module MigrationPlan {
  import opened FileTree
  import opened MigrationJournal

  const STATE_ENTRIES: seq<string> :=
    ["profiles", "local-tickets.json", "backlog-config.json", "state", "file-summaries", "plugins"]

  /** The file that says a core install or a workspace is populated, relative to it. */
  const MARKER: Path := [".specrails", "specrails-version"]

  /** Hard exclusions, judged by the path relative to the repository and by its last component. */
  predicate IsProtected(repo: Path, abs: Path) {
    !(repo <= abs) ||
    var rel := abs[|repo|..];
    var base := if abs == [] then "" else abs[|abs| - 1];
    || (rel != [] && (".." <= rel[0] || rel[0] == "openspec"))
    || "worktrees" in rel
    || "custom-" <= base || "openspec" <= base
    || base in ["CLAUDE.md", "AGENTS.md", "GEMINI.md", "settings.json", "settings.local.json", ".mcp.json"]
  }

  /** Where per-project state lives, relative to the repository and to the workspace alike. */
  function StatePlaces(entries: seq<string>, dirs: seq<string>): seq<Path> {
    if entries != [] then [[".specrails", entries[0]]] + StatePlaces(entries[1..], dirs)
    else if dirs != [] then [[dirs[0], "agent-memory"]] + StatePlaces([], dirs[1..])
    else []
  }

  /** The move of one place, if there is something there. */
  function MoveOf(fs: FileSystem, repo: Path, workspace: Path, place: Path): seq<Entry> {
    if repo + place in fs then [Move(repo + place, workspace + place)] else []
  }

  function MovesFor(fs: FileSystem, repo: Path, workspace: Path, places: seq<Path>): seq<Entry> {
    if places == [] then []
    else MoveOf(fs, repo, workspace, places[0]) + MovesFor(fs, repo, workspace, places[1..])
  }

  lemma NextPlace(fs: FileSystem, repo: Path, workspace: Path, moves: seq<Entry>, place: Path, places: seq<Path>)
    ensures moves + MovesFor(fs, repo, workspace, [place] + places) ==
              (moves + MoveOf(fs, repo, workspace, place)) + MovesFor(fs, repo, workspace, places)
  {
    assert ([place] + places)[1..] == places;
  }

  lemma NextEntryPlace(fs: FileSystem, repo: Path, workspace: Path, moves: seq<Entry>,
            entries: seq<string>, i: nat, dirs: seq<string>)
    requires i < |entries|
    ensures moves + MovesFor(fs, repo, workspace, StatePlaces(entries[i..], dirs)) ==
              (moves + MoveOf(fs, repo, workspace, [".specrails", entries[i]])) +
              MovesFor(fs, repo, workspace, StatePlaces(entries[i + 1..], dirs))
  {
    assert entries[i..][1..] == entries[i + 1..];
    NextPlace(fs, repo, workspace, moves, [".specrails", entries[i]], StatePlaces(entries[i + 1..], dirs));
  }

  lemma NextMemoryPlace(fs: FileSystem, repo: Path, workspace: Path, moves: seq<Entry>, dirs: seq<string>, i: nat)
    requires i < |dirs|
    ensures moves + MovesFor(fs, repo, workspace, StatePlaces([], dirs[i..])) ==
              (moves + MoveOf(fs, repo, workspace, [dirs[i], "agent-memory"])) +
              MovesFor(fs, repo, workspace, StatePlaces([], dirs[i + 1..]))
  {
    assert dirs[i..][1..] == dirs[i + 1..];
    NextPlace(fs, repo, workspace, moves, [dirs[i], "agent-memory"], StatePlaces([], dirs[i + 1..]));
  }

  /** Extend the moves by the one of a place, if there is something there. */
  method AddMove(fs: FileSystem, repo: Path, workspace: Path, moves: seq<Entry>, place: Path)
    returns (longer: seq<Entry>)
    ensures longer == moves + MoveOf(fs, repo, workspace, place)
  {
    longer := moves;
    if repo + place in fs { longer := longer + [Move(repo + place, workspace + place)]; }
  }

  /** Plan the state inside `.specrails`, then each provider's memory. */
  method PlanStateMoves(fs: FileSystem, repo: Path, workspace: Path, entries: seq<string>, dirs: seq<string>)
    returns (moves: seq<Entry>)
    ensures moves == MovesFor(fs, repo, workspace, StatePlaces(entries, dirs))
    ensures MovesAllState(moves, fs, repo, workspace, entries, dirs)
    ensures forall m | m in moves :: m.Move? && m.src in fs
  {
    StateIsAllMoved(fs, repo, workspace, entries, dirs);
    MovesForExist(fs, repo, workspace, StatePlaces(entries, dirs));
    moves := [];
    ghost var all := MovesFor(fs, repo, workspace, StatePlaces(entries, dirs));
    assert entries[0..] == entries;
    for i := 0 to |entries|
      invariant all == moves + MovesFor(fs, repo, workspace, StatePlaces(entries[i..], dirs))
    {
      NextEntryPlace(fs, repo, workspace, moves, entries, i, dirs);
      moves := AddMove(fs, repo, workspace, moves, [".specrails", entries[i]]);
    }
    assert entries[|entries|..] == [] && dirs[0..] == dirs;
    for i := 0 to |dirs|
      invariant all == moves + MovesFor(fs, repo, workspace, StatePlaces([], dirs[i..]))
    {
      NextMemoryPlace(fs, repo, workspace, moves, dirs, i);
      moves := AddMove(fs, repo, workspace, moves, [dirs[i], "agent-memory"]);
    }
  }

  /** Keep a candidate the first time it is seen, if it exists and is not protected. */
  function Manifest(fs: FileSystem, repo: Path, candidates: seq<Path>, seen: set<Path>): seq<Entry> {
    if candidates == [] then []
    else if candidates[0] in seen || candidates[0] !in fs || IsProtected(repo, candidates[0]) then
      Manifest(fs, repo, candidates[1..], seen)
    else [Delete(candidates[0])] + Manifest(fs, repo, candidates[1..], seen + {candidates[0]})
  }

  lemma NextCandidate(fs: FileSystem, repo: Path, candidates: seq<Path>, i: nat, seen: set<Path>)
    requires i < |candidates|
    ensures var d, rest := candidates[i], candidates[i + 1..];
            Manifest(fs, repo, candidates[i..], seen) ==
              if d in seen || d !in fs || IsProtected(repo, d) then Manifest(fs, repo, rest, seen)
              else [Delete(d)] + Manifest(fs, repo, rest, seen + {d})
  {
    assert candidates[i..][1..] == candidates[i + 1..];
  }

  method BuildCleanupManifest(fs: FileSystem, repo: Path, candidates: seq<Path>) returns (deletes: seq<Entry>)
    ensures deletes == Manifest(fs, repo, candidates, {})
    ensures forall d | d in candidates :: Delete(d) in deletes <==> d in fs && !IsProtected(repo, d)
    ensures forall e | e in deletes :: e.Delete? && e.path in candidates
    ensures forall i, j | 0 <= i < j < |deletes| :: deletes[i] != deletes[j]
  {
    deletes := [];
    var seen: set<Path> := {};
    for i := 0 to |candidates|
      invariant Manifest(fs, repo, candidates, {}) == deletes + Manifest(fs, repo, candidates[i..], seen)
    {
      NextCandidate(fs, repo, candidates, i, seen);
      if candidates[i] in seen || candidates[i] !in fs || IsProtected(repo, candidates[i]) { continue; }
      seen := seen + {candidates[i]};
      deletes := deletes + [Delete(candidates[i])];
    }
    ManifestExactly(fs, repo, candidates);
  }

  /**
   * The project's places: repository, workspace, provider directories, what cleanup may list, and the
   * workspace places, relative to it, that an assemble writes; and whether every rename succeeds.
   */
  datatype Project = Project(repo: Path, workspace: Path, dirs: seq<string>, candidates: seq<Path>,
                             ownsMcpKeys: bool, seeds: set<Path>, renames: bool)
  {
    /** Everything after the moves: listed framework files, the `.specrails` residue, owned MCP keys. */
    function Cleanup(fs: FileSystem): seq<Entry> {
      Manifest(fs, repo, candidates, {}) + [Delete(repo + [".specrails"])]
      + if ownsMcpKeys && repo + [".mcp.json"] in fs then [McpKeyRemove(repo + [".mcp.json"])] else []
    }

    function PlanFor(fs: FileSystem, places: seq<Path>): seq<Entry> {
      MovesFor(fs, repo, workspace, places) + Cleanup(fs)
    }

    function Plan(fs: FileSystem): seq<Entry> {
      PlanFor(fs, StatePlaces(STATE_ENTRIES, dirs))
    }

    function Site(): Home {
      Home(repo, workspace + MARKER, {workspace + MARKER} + (set q | q in seeds :: workspace + q), renames)
    }

    /** Provider directories are distinct and are not the directory the migration itself owns. */
    predicate DirsOk() {
      ".specrails" !in dirs && forall i, j | 0 <= i < j < |dirs| :: dirs[i] != dirs[j]
    }
  }

  /** Distinct places of two components. */
  predicate PlacesOk(places: seq<Path>) {
    && (forall p | p in places :: |p| == 2)
    && forall i, j | 0 <= i < j < |places| :: places[i] != places[j]
  }

  /** A state entry in `.specrails`, or the memory of a provider. */
  predicate IsStatePlace(p: Path, entries: seq<string>, dirs: seq<string>) {
    |p| == 2 && if p[0] == ".specrails" then p[1] in entries else p[0] in dirs && p[1] == "agent-memory"
  }

  predicate AreStatePlaces(places: seq<Path>, entries: seq<string>, dirs: seq<string>) {
    && (forall p | p in places :: IsStatePlace(p, entries, dirs))
    && forall i, j | 0 <= i < j < |places| :: places[i] != places[j]
  }

  lemma OneMorePlace(place: Path, rest: seq<Path>, less: (seq<string>, seq<string>), more: (seq<string>, seq<string>))
    requires AreStatePlaces(rest, less.0, less.1) && place !in rest && IsStatePlace(place, more.0, more.1)
    requires (forall x | x in less.0 :: x in more.0) && forall x | x in less.1 :: x in more.1
    ensures AreStatePlaces([place] + rest, more.0, more.1)
  {
    forall p | p in [place] + rest ensures IsStatePlace(p, more.0, more.1) {
      assert p == place || p in rest;
    }
  }

  lemma {:induction false} PlacesDiffer(entries: seq<string>, dirs: seq<string>)
    requires forall i, j | 0 <= i < j < |entries| :: entries[i] != entries[j]
    requires ".specrails" !in dirs && forall i, j | 0 <= i < j < |dirs| :: dirs[i] != dirs[j]
    ensures AreStatePlaces(StatePlaces(entries, dirs), entries, dirs)
  {
    if entries != [] {
      var place, rest := [".specrails", entries[0]], StatePlaces(entries[1..], dirs);
      PlacesDiffer(entries[1..], dirs);
      assert entries[0] !in entries[1..] && entries[0] in entries;
      assert !IsStatePlace(place, entries[1..], dirs);
      OneMorePlace(place, rest, (entries[1..], dirs), (entries, dirs));
    } else if dirs != [] {
      var place, rest := [dirs[0], "agent-memory"], StatePlaces([], dirs[1..]);
      PlacesDiffer([], dirs[1..]);
      assert dirs[0] !in dirs[1..] && dirs[0] in dirs;
      assert !IsStatePlace(place, [], dirs[1..]);
      OneMorePlace(place, rest, ([], dirs[1..]), ([], dirs));
    }
  }

  /** `e` moves one of `places` from the repository to the workspace. */
  predicate MovesOneOf(e: Entry, fs: FileSystem, repo: Path, workspace: Path, places: seq<Path>) {
    && e.Move? && e.src in fs && repo <= e.src
    && e.src[|repo|..] in places && e.dest == workspace + e.src[|repo|..]
  }

  /** Moves of places, each from another one. */
  predicate DistinctMoves(moves: seq<Entry>, fs: FileSystem, repo: Path, workspace: Path, places: seq<Path>) {
    && (forall i | 0 <= i < |moves| :: MovesOneOf(moves[i], fs, repo, workspace, places))
    && (forall i, j | 0 <= i < j < |moves| :: moves[i].src[|repo|..] != moves[j].src[|repo|..])
  }

  /** The shape of a plan: moves of distinct two-step places first, then entries inside the repository. */
  ghost predicate WellShaped(plan: seq<Entry>, n: nat, fs: FileSystem, repo: Path, workspace: Path, places: seq<Path>) {
    && n <= |plan|
    && (forall p | p in places :: |p| == 2)
    && (forall i | 0 <= i < n :: MovesOneOf(plan[i], fs, repo, workspace, places))
    && (forall i, j | 0 <= i < j < n :: plan[i].src[|repo|..] != plan[j].src[|repo|..])
    && forall i | n <= i < |plan| :: !plan[i].Move? && repo <= plan[i].path
  }

  lemma OneOfMore(e: Entry, fs: FileSystem, repo: Path, workspace: Path, places: seq<Path>)
    requires places != [] && MovesOneOf(e, fs, repo, workspace, places[1..])
    ensures MovesOneOf(e, fs, repo, workspace, places)
  {
  }

  lemma MoveOfIsOneOf(fs: FileSystem, repo: Path, workspace: Path, places: seq<Path>)
    requires places != [] && repo + places[0] in fs
    ensures MovesOneOf(Move(repo + places[0], workspace + places[0]), fs, repo, workspace, places)
    ensures (repo + places[0])[|repo|..] == places[0]
  {
  }

  lemma OneMoreMove(first: seq<Entry>, rest: seq<Entry>, fs: FileSystem, repo: Path, workspace: Path, places: seq<Path>)
    requires places != [] && places[0] !in places[1..] && first == MoveOf(fs, repo, workspace, places[0])
    requires DistinctMoves(rest, fs, repo, workspace, places[1..])
    ensures DistinctMoves(first + rest, fs, repo, workspace, places)
  {
    var moves, n := first + rest, |first|;
    if n > 0 { MoveOfIsOneOf(fs, repo, workspace, places); }
    forall i | n <= i < |moves|
      ensures MovesOneOf(moves[i], fs, repo, workspace, places) && moves[i].src[|repo|..] != places[0]
    {
      var e := rest[i - n];
      assert moves[i] == e;
      OneOfMore(e, fs, repo, workspace, places);
    }
    forall i, j | n <= i < j < |moves| ensures moves[i].src[|repo|..] != moves[j].src[|repo|..] {
      assert moves[i] == rest[i - n] && moves[j] == rest[j - n];
    }
  }

  lemma {:induction false} MovesForShape(fs: FileSystem, repo: Path, workspace: Path, places: seq<Path>)
    requires forall i, j | 0 <= i < j < |places| :: places[i] != places[j]
    ensures DistinctMoves(MovesFor(fs, repo, workspace, places), fs, repo, workspace, places)
  {
    if places != [] {
      MovesForShape(fs, repo, workspace, places[1..]);
      OneMoreMove(MoveOf(fs, repo, workspace, places[0]), MovesFor(fs, repo, workspace, places[1..]),
                  fs, repo, workspace, places);
    }
  }

  lemma {:induction false} MovesForComplete(fs: FileSystem, repo: Path, workspace: Path, places: seq<Path>, place: Path)
    requires place in places && repo + place in fs
    ensures Move(repo + place, workspace + place) in MovesFor(fs, repo, workspace, places)
  {
    if places[0] != place {
      MovesForComplete(fs, repo, workspace, places[1..], place);
    }
  }

  lemma {:induction false} MovesForExist(fs: FileSystem, repo: Path, workspace: Path, places: seq<Path>)
    ensures forall m | m in MovesFor(fs, repo, workspace, places) :: m.Move? && m.src in fs
  {
    if places != [] {
      MovesForExist(fs, repo, workspace, places[1..]);
    }
  }

  lemma {:induction false} EveryStatePlace(entries: seq<string>, dirs: seq<string>)
    ensures forall e | e in entries :: [".specrails", e] in StatePlaces(entries, dirs)
    ensures forall d | d in dirs :: [d, "agent-memory"] in StatePlaces(entries, dirs)
  {
    if entries != [] {
      EveryStatePlace(entries[1..], dirs);
      assert entries == [entries[0]] + entries[1..];
    } else if dirs != [] {
      EveryStatePlace([], dirs[1..]);
      assert dirs == [dirs[0]] + dirs[1..];
    }
  }

  /** The residue delete takes all of `.specrails`: every place of state in it that exists is moved first. */
  predicate MovesAllState(moves: seq<Entry>, fs: FileSystem, repo: Path, workspace: Path, entries: seq<string>,
                          dirs: seq<string>)
  {
    && (forall e | e in entries && repo + [".specrails", e] in fs ::
          Move(repo + [".specrails", e], workspace + [".specrails", e]) in moves)
    && (forall d | d in dirs && repo + [d, "agent-memory"] in fs ::
          Move(repo + [d, "agent-memory"], workspace + [d, "agent-memory"]) in moves)
  }

  lemma StateIsAllMoved(fs: FileSystem, repo: Path, workspace: Path, entries: seq<string>, dirs: seq<string>)
    ensures MovesAllState(MovesFor(fs, repo, workspace, StatePlaces(entries, dirs)), fs, repo, workspace, entries, dirs)
  {
    var places := StatePlaces(entries, dirs);
    EveryStatePlace(entries, dirs);
    forall e | e in entries && repo + [".specrails", e] in fs
      ensures Move(repo + [".specrails", e], workspace + [".specrails", e]) in MovesFor(fs, repo, workspace, places)
    {
      MovesForComplete(fs, repo, workspace, places, [".specrails", e]);
    }
    forall d | d in dirs && repo + [d, "agent-memory"] in fs
      ensures Move(repo + [d, "agent-memory"], workspace + [d, "agent-memory"]) in MovesFor(fs, repo, workspace, places)
    {
      MovesForComplete(fs, repo, workspace, places, [d, "agent-memory"]);
    }
  }

  lemma {:induction false} ManifestShape(fs: FileSystem, repo: Path, candidates: seq<Path>, seen: set<Path>)
    ensures forall e | e in Manifest(fs, repo, candidates, seen) ::
              e.Delete? && repo <= e.path && !IsProtected(repo, e.path)
  {
    if candidates != [] {
      ManifestShape(fs, repo, candidates[1..], seen);
      ManifestShape(fs, repo, candidates[1..], seen + {candidates[0]});
    }
  }

  lemma {:induction false} ManifestSource(fs: FileSystem, repo: Path, candidates: seq<Path>, seen: set<Path>)
    ensures forall e | e in Manifest(fs, repo, candidates, seen) :: e.Delete? && e.path in candidates
  {
    if candidates != [] {
      ManifestSource(fs, repo, candidates[1..], seen);
      ManifestSource(fs, repo, candidates[1..], seen + {candidates[0]});
    }
  }

  lemma {:induction false} ManifestListsOnce(fs: FileSystem, repo: Path, candidates: seq<Path>, seen: set<Path>)
    ensures var m := Manifest(fs, repo, candidates, seen);
            && (forall e | e in m :: e.Delete? && e.path !in seen && e.path in fs)
            && forall i, j | 0 <= i < j < |m| :: m[i] != m[j]
  {
    if candidates != [] {
      ManifestListsOnce(fs, repo, candidates[1..], seen);
      ManifestListsOnce(fs, repo, candidates[1..], seen + {candidates[0]});
      var rest := Manifest(fs, repo, candidates[1..], seen + {candidates[0]});
      var m := Manifest(fs, repo, candidates, seen);
      if m == [Delete(candidates[0])] + rest {
        forall i, j | 0 <= i < j < |m| ensures m[i] != m[j] {
          assert m[j] == rest[j - 1] && rest[j - 1] in rest;
        }
      }
    }
  }

  /** What the manifest lists: each candidate that exists and is not protected, once, and nothing else. */
  lemma ManifestExactly(fs: FileSystem, repo: Path, candidates: seq<Path>)
    ensures var m := Manifest(fs, repo, candidates, {});
            && (forall d | d in candidates :: Delete(d) in m <==> d in fs && !IsProtected(repo, d))
            && (forall e | e in m :: e.Delete? && e.path in candidates)
            && forall i, j | 0 <= i < j < |m| :: m[i] != m[j]
  {
    ManifestShape(fs, repo, candidates, {});
    ManifestSource(fs, repo, candidates, {});
    ManifestListsOnce(fs, repo, candidates, {});
    forall d | d in candidates && d in fs && !IsProtected(repo, d)
      ensures Delete(d) in Manifest(fs, repo, candidates, {})
    {
      ManifestComplete(fs, repo, candidates, {}, d);
    }
  }

  lemma SeparatePlaces(repo: Path, workspace: Path, p: Path, q: Path)
    requires Apart(repo, workspace)
    requires repo <= p && workspace <= q
    ensures Apart(p, q)
  {
    if p <= q { PrefixesOfOne(repo, workspace, q); }
    if q <= p { PrefixesOfOne(repo, workspace, p); }
  }

  lemma ShapedMovesApart(plan: seq<Entry>, n: nat, fs: FileSystem, repo: Path, workspace: Path, places: seq<Path>)
    requires WellShaped(plan, n, fs, repo, workspace, places) && Apart(repo, workspace)
    ensures MovesApart(plan)
  {
    forall i, j | 0 <= i < n && 0 <= j < n
      ensures Apart(plan[i].src, plan[j].dest)
      ensures i != j ==> Apart(plan[i].src, plan[j].src) && Apart(plan[i].dest, plan[j].dest)
    {
      assert MovesOneOf(plan[i], fs, repo, workspace, places) && MovesOneOf(plan[j], fs, repo, workspace, places);
      var p, q := plan[i].src[|repo|..], plan[j].src[|repo|..];
      SeparatePlaces(repo, workspace, plan[i].src, plan[j].dest);
      assert |p| == |q| == 2 && plan[i].src == repo + p && plan[j].src == repo + q;
      assert plan[i].dest[|workspace|..] == p && plan[j].dest[|workspace|..] == q;
      if i != j { assert p != q; }
    }
  }

  lemma ShapedSparesMoved(plan: seq<Entry>, n: nat, fs: FileSystem, repo: Path, workspace: Path, places: seq<Path>)
    requires WellShaped(plan, n, fs, repo, workspace, places) && Apart(repo, workspace)
    ensures SparesMoved(plan, fs) && McpNotMoved(plan)
  {
    forall i, j, r: Path | 0 <= i < n && n <= j < |plan|
      ensures Apart(plan[j].path, plan[i].dest + r)
    {
      assert MovesOneOf(plan[i], fs, repo, workspace, places);
      SeparatePlaces(repo, workspace, plan[j].path, plan[i].dest + r);
    }
    forall i, j | 0 <= i < |plan| && 0 <= j < |plan| && plan[i].Move?
      ensures Spares(plan[j], plan[i].dest, Subtree(fs, plan[i].src))
    {
      assert i < n;
    }
    forall m, e | m in plan && e in plan && m.Move? && e.McpKeyRemove? ensures !(m.dest <= e.path) {
      var i, j :| 0 <= i < |plan| && 0 <= j < |plan| && plan[i] == m && plan[j] == e;
      assert i < n <= j;
      assert m.dest + [] == m.dest;
    }
  }

  lemma StateEntriesDiffer(i: nat, j: nat)
    requires i < j < |STATE_ENTRIES|
    ensures STATE_ENTRIES[i] != STATE_ENTRIES[j]
  {
    var lengths := [8, 18, 19, 5, 14, 7];
    assert |STATE_ENTRIES[i]| == lengths[i] && |STATE_ENTRIES[j]| == lengths[j];
  }

  lemma MarkerIsNoState(i: nat)
    requires i < |STATE_ENTRIES|
    ensures STATE_ENTRIES[i] != "specrails-version"
  {
    var lengths := [8, 18, 19, 5, 14, 7];
    assert |STATE_ENTRIES[i]| == lengths[i] && |"specrails-version"| == 17;
  }

  lemma StatePlacesOk(entries: seq<string>, dirs: seq<string>)
    requires entries == STATE_ENTRIES
    requires ".specrails" !in dirs && forall i, j | 0 <= i < j < |dirs| :: dirs[i] != dirs[j]
    ensures PlacesOk(StatePlaces(entries, dirs))
    ensures forall p | p in StatePlaces(entries, dirs) :: p != MARKER && (p[0] == ".specrails" || p[0] in dirs)
  {
    forall e | e in entries ensures e != "specrails-version" {
      var i :| 0 <= i < |entries| && entries[i] == e;
      MarkerIsNoState(i);
    }
    forall i, j | 0 <= i < j < |entries| ensures entries[i] != entries[j] {
      StateEntriesDiffer(i, j);
    }
    PlacesDiffer(entries, dirs);
  }

  lemma CleanupShape(project: Project, fs: FileSystem)
    ensures forall e | e in project.Cleanup(fs) ::
              !e.Move? && project.repo <= e.path && (e.Delete? ==> !IsProtected(project.repo, e.path))
  {
    ManifestShape(fs, project.repo, project.candidates, {});
    var residue := project.repo + [".specrails"];
    assert residue[|project.repo|..] == [".specrails"] && residue[|residue| - 1] == ".specrails";
    assert !("custom-" <= ".specrails") && !("openspec" <= ".specrails") && !(".." <= ".specrails") by {
      assert ".specrails"[0] == '.' && ".specrails"[1] == 's';
    }
  }

  lemma ShapeOfConcat(moves: seq<Entry>, cleanup: seq<Entry>, fs: FileSystem,
            repo: Path, workspace: Path, places: seq<Path>)
    requires DistinctMoves(moves, fs, repo, workspace, places) && forall p | p in places :: |p| == 2
    requires forall e | e in cleanup :: !e.Move? && repo <= e.path
    ensures WellShaped(moves + cleanup, |moves|, fs, repo, workspace, places)
    ensures forall e | e in moves + cleanup && !e.Move? :: e in cleanup
  {
    var plan := moves + cleanup;
    forall i | |moves| <= i < |plan| ensures !plan[i].Move? && repo <= plan[i].path {
      assert plan[i] == cleanup[i - |moves|];
    }
    assert forall i | 0 <= i < |moves| :: plan[i] == moves[i];
    forall e | e in plan && !e.Move? ensures e in cleanup {
      assert e !in moves;
    }
  }

  /** With repository and workspace apart, a plan meets everything the safety results ask of one. */
  lemma PlanForIsSound(project: Project, fs: FileSystem, places: seq<Path>)
    requires PlacesOk(places) && Apart(project.repo, project.workspace)
    ensures var plan := project.PlanFor(fs, places);
            && WellShaped(plan, |MovesFor(fs, project.repo, project.workspace, places)|,
                          fs, project.repo, project.workspace, places)
            && MovesApart(plan) && MovesFirst(plan) && SparesMoved(plan, fs) && McpNotMoved(plan)
            && (forall i | 0 <= i < |plan| && plan[i].Move? :: plan[i].src in fs)
            && forall e | e in plan && !e.Move? :: e in project.Cleanup(fs)
  {
    var repo, workspace := project.repo, project.workspace;
    var moves, cleanup := MovesFor(fs, repo, workspace, places), project.Cleanup(fs);
    MovesForShape(fs, repo, workspace, places);
    CleanupShape(project, fs);
    ShapeOfConcat(moves, cleanup, fs, repo, workspace, places);
    ShapedMovesApart(moves + cleanup, |moves|, fs, repo, workspace, places);
    ShapedSparesMoved(moves + cleanup, |moves|, fs, repo, workspace, places);
  }

  /** The plan a migration actually makes. */
  lemma PlanIsSound(project: Project, fs: FileSystem)
    requires project.DirsOk() && Apart(project.repo, project.workspace)
    ensures var plan := project.Plan(fs);
            && MovesApart(plan) && MovesFirst(plan) && SparesMoved(plan, fs) && McpNotMoved(plan)
            && forall i | 0 <= i < |plan| && plan[i].Move? :: plan[i].src in fs
  {
    var entries := STATE_ENTRIES;
    StatePlacesOk(entries, project.dirs);
    PlanForIsSound(project, fs, StatePlaces(entries, project.dirs));
  }

  lemma SameLengthPrefix(p: Path, q: Path)
    requires |p| == |q| && p != q
    ensures !(p <= q)
  {
  }

  lemma ShapedKeepsMarker(plan: seq<Entry>, n: nat, fs: FileSystem, repo: Path, workspace: Path, places: seq<Path>,
                          mark: Path)
    requires WellShaped(plan, n, fs, repo, workspace, places) && Apart(repo, workspace)
    requires |mark| == 2 && mark !in places
    ensures KeepsMarker(plan, workspace + mark)
  {
    var marker := workspace + mark;
    assert marker[|workspace|..] == mark;
    forall i | 0 <= i < |plan|
      ensures if plan[i].Move? then !(plan[i].src <= marker) && !(plan[i].dest <= marker) else !(plan[i].path <= marker)
    {
      if i < n {
        assert MovesOneOf(plan[i], fs, repo, workspace, places);
        SeparatePlaces(repo, workspace, plan[i].src, marker);
        var place := plan[i].src[|repo|..];
        assert plan[i].dest == workspace + place && |place| == 2;
        assert plan[i].dest[|workspace|..] == place;
        SameLengthPrefix(plan[i].dest, marker);
      } else {
        SeparatePlaces(repo, workspace, plan[i].path, marker);
      }
    }
  }

  /** No entry of a plan touches the workspace's marker: it is no planned place, and outside the repository. */
  lemma PlanKeepsMarker(project: Project, fs: FileSystem)
    requires project.DirsOk() && Apart(project.repo, project.workspace)
    ensures KeepsMarker(project.Plan(fs), project.Site().marker)
  {
    var entries, repo, workspace := STATE_ENTRIES, project.repo, project.workspace;
    var places, mark := StatePlaces(entries, project.dirs), MARKER;
    StatePlacesOk(entries, project.dirs);
    PlanForIsSound(project, fs, places);
    ShapedKeepsMarker(project.PlanFor(fs, places), |MovesFor(fs, repo, workspace, places)|, fs, repo, workspace,
                      places, mark);
  }

  /**
   * The migration as a whole, from a first journal written with the workspace populated, where renames
   * succeed or what is moved cannot be removed in part. At every point of every schedule of crashes,
   * failures and resumes each planned tree is whole at its source or at its destination; and once every
   * entry is journaled, each has arrived and the disk is the one an uninterrupted run would have left.
   */
  lemma MigrationIsSafe(project: Project, strip: Strip, run: seq<State>, k: nat)
    requires project.DirsOk() && Apart(project.repo, project.workspace) && Idempotent(strip)
    requires run != [] && run[0].done == 0 && k < |run|
    requires Schedule(project.Plan(run[0].fs), strip, project.Site(), run) && project.Site().marker in run[0].fs
    requires project.renames || AllSingle(project.Plan(run[0].fs), run[0].fs)
    ensures var plan := project.Plan(run[0].fs);
            && (forall i | 0 <= i < |plan| && plan[i].Move? ::
                  AtSource(run[k].fs, run[0].fs, plan[i]) || AtDestination(run[k].fs, run[0].fs, plan[i]))
            && (run[k].done == |plan| ==>
                  Arrived(plan, run[0].fs, run[k].fs) && run[k].fs == Effects(plan, strip, run[0].fs))
  {
    PlanIsSound(project, run[0].fs);
    PlanKeepsMarker(project, run[0].fs);
    SoundPlanIsSafe(project.Plan(run[0].fs), strip, project.Site(), run, k);
  }

  lemma SoundPlanIsSafe(plan: seq<Entry>, strip: Strip, home: Home, run: seq<State>, k: nat)
    requires Schedule(plan, strip, home, run) && run[0].done == 0 && k < |run| && Idempotent(strip)
    requires KeepsMarker(plan, home.marker) && home.marker in run[0].fs
    requires MovesApart(plan) && MovesFirst(plan) && SparesMoved(plan, run[0].fs)
    requires forall i | 0 <= i < |plan| && plan[i].Move? :: plan[i].src in run[0].fs
    requires home.renames || AllSingle(plan, run[0].fs)
    ensures forall i | 0 <= i < |plan| && plan[i].Move? ::
              AtSource(run[k].fs, run[0].fs, plan[i]) || AtDestination(run[k].fs, run[0].fs, plan[i])
    ensures run[k].done == |plan| ==>
              Arrived(plan, run[0].fs, run[k].fs) && run[k].fs == Effects(plan, strip, run[0].fs)
  {
    NeverDisturbed(plan, strip, home, run);
    forall i | 0 <= i < |plan| && plan[i].Move?
      ensures AtSource(run[k].fs, run[0].fs, plan[i]) || AtDestination(run[k].fs, run[0].fs, plan[i])
      ensures run[k].done == |plan| ==> AtDestination(run[k].fs, run[0].fs, plan[i])
    {
      StateIsNeverLost(plan, strip, run, k, i);
    }
    if run[k].done == |plan| {
      FinishedRunsAgree(plan, strip, run, k);
    }
  }

  lemma ShapedNotMoved(plan: seq<Entry>, n: nat, fs: FileSystem, repo: Path,
            workspace: Path, places: seq<Path>, p: Path)
    requires WellShaped(plan, n, fs, repo, workspace, places) && Apart(repo, workspace)
    requires repo <= p && |p| > |repo| && forall place | place in places :: place[0] != p[|repo|]
    ensures NotMoved(plan, p)
  {
    forall e | e in plan && e.Move? ensures !(e.src <= p) && !(e.dest <= p) {
      var i :| 0 <= i < |plan| && plan[i] == e;
      assert MovesOneOf(e, fs, repo, workspace, places);
      assert e.src[|repo|] == e.src[|repo|..][0];
      SeparatePlaces(repo, workspace, p, e.dest);
    }
  }

  lemma NotDeleted(project: Project, fs: FileSystem, p: Path, e: Entry)
    requires project.repo !in project.candidates && project.repo + ["openspec"] <= p
    requires e in project.Cleanup(fs)
    ensures !e.Move? && !(e.path <= p) && e != McpKeyRemove(p)
  {
    var repo := project.repo;
    CleanupShape(project, fs);
    ManifestSource(fs, repo, project.candidates, {});
    assert p[|repo|] == (repo + ["openspec"])[|repo|] == "openspec";
    assert (repo + [".specrails"]) != repo && (repo + [".mcp.json"])[|repo|] == ".mcp.json";
    assert e.path != repo && e.path[..|repo|] == repo;
    assert e.path[|repo|..][0] == e.path[|repo|];
    assert e.path[|repo|] != "openspec" && e != McpKeyRemove(p);
    DifferAt(e.path, p, |repo|);
  }

  /** What a protected first component buys: `openspec/` comes through any finished migration untouched. */
  lemma OpenspecUntouched(project: Project, strip: Strip, fs: FileSystem, places: seq<Path>, p: Path)
    requires PlacesOk(places) && Apart(project.repo, project.workspace)
    requires forall place | place in places :: place[0] != "openspec"
    requires project.repo !in project.candidates && project.repo + ["openspec"] <= p
    ensures var g := Effects(project.PlanFor(fs, places), strip, fs);
            (p in g <==> p in fs) && (p in g ==> g[p] == fs[p])
  {
    var repo, plan := project.repo, project.PlanFor(fs, places);
    PlanForIsSound(project, fs, places);
    assert p[|repo|] == (repo + ["openspec"])[|repo|] == "openspec" && repo <= p;
    ShapedNotMoved(plan, |MovesFor(fs, repo, project.workspace, places)|, fs, repo, project.workspace, places, p);
    forall e | e in plan && !e.Move? ensures !(e.path <= p) && e != McpKeyRemove(p) {
      NotDeleted(project, fs, p, e);
    }
    MovesApartEntries(plan);
    GoneIffDeleted(plan, strip, fs, p);
  }

  lemma MovesApartEntries(plan: seq<Entry>)
    requires MovesApart(plan)
    ensures forall e | e in plan && e.Move? :: Apart(e.src, e.dest)
  {
  }

  /**
   * Where the guard stops: it judges the path being removed, not what lies below it. Whatever is
   * inside an unprotected listed directory goes with it, `custom-` names included.
   */
  lemma DeletedDirectoryTakesAll(project: Project, strip: Strip, fs: FileSystem, places: seq<Path>, d: Path, p: Path)
    requires PlacesOk(places) && Apart(project.repo, project.workspace)
    requires d in project.candidates && d in fs && !IsProtected(project.repo, d) && d <= p
    requires NotMoved(project.PlanFor(fs, places), p)
    ensures p !in Effects(project.PlanFor(fs, places), strip, fs)
  {
    var plan := project.PlanFor(fs, places);
    PlanForIsSound(project, fs, places);
    MovesApartEntries(plan);
    ManifestComplete(fs, project.repo, project.candidates, {}, d);
    assert Delete(d) in plan;
    GoneIffDeleted(plan, strip, fs, p);
  }

  /** The migration's own plan, finished, leaves everything below `openspec/` byte for byte. */
  lemma MigrationLeavesOpenspec(project: Project, strip: Strip, fs: FileSystem, p: Path)
    requires project.DirsOk() && Apart(project.repo, project.workspace) && "openspec" !in project.dirs
    requires project.repo !in project.candidates && project.repo + ["openspec"] <= p
    ensures var g := Effects(project.Plan(fs), strip, fs);
            (p in g <==> p in fs) && (p in g ==> g[p] == fs[p])
  {
    var entries := STATE_ENTRIES;
    StatePlacesOk(entries, project.dirs);
    OpenspecUntouched(project, strip, fs, StatePlaces(entries, project.dirs), p);
  }

  /** The migration's own plan, finished, takes everything inside an unprotected listed directory. */
  lemma MigrationTakesListedDirectory(project: Project, strip: Strip, fs: FileSystem, d: Path, p: Path)
    requires project.DirsOk() && Apart(project.repo, project.workspace)
    requires d in project.candidates && d in fs && !IsProtected(project.repo, d) && d <= p
    requires NotMoved(project.Plan(fs), p)
    ensures p !in Effects(project.Plan(fs), strip, fs)
  {
    var entries := STATE_ENTRIES;
    StatePlacesOk(entries, project.dirs);
    DeletedDirectoryTakesAll(project, strip, fs, StatePlaces(entries, project.dirs), d, p);
  }

  lemma {:induction false} ManifestComplete(fs: FileSystem, repo: Path, candidates: seq<Path>, seen: set<Path>, d: Path)
    requires d in candidates && d in fs && !IsProtected(repo, d) && d !in seen
    ensures Delete(d) in Manifest(fs, repo, candidates, seen)
  {
    if candidates[0] != d {
      ManifestComplete(fs, repo, candidates[1..], seen, d);
      ManifestComplete(fs, repo, candidates[1..], seen + {candidates[0]}, d);
    }
  }

  /**
   * Why repository and workspace must be apart: when the workspace lies inside the repository's own
   * `.specrails` (the repository is the home directory), the final residue delete takes the moved
   * state with it, and a migration with any state to move finishes without it.
   */
  lemma WorkspaceInsideResidueIsLost(project: Project, strip: Strip, fs: FileSystem, places: seq<Path>)
    requires project.repo + [".specrails"] <= project.workspace && PlacesOk(places)
    requires MovesFor(fs, project.repo, project.workspace, places) != []
    ensures !Arrived(project.PlanFor(fs, places), fs, Effects(project.PlanFor(fs, places), strip, fs))
  {
    var repo, workspace := project.repo, project.workspace;
    var moves, cleanup := MovesFor(fs, repo, workspace, places), project.Cleanup(fs);
    MovesForShape(fs, repo, workspace, places);
    CleanupShape(project, fs);
    ShapeOfConcat(moves, cleanup, fs, repo, workspace, places);
    assert MovesOneOf(moves[0], fs, repo, workspace, places);
    assert Delete(repo + [".specrails"]) in cleanup;
    FirstMoveTaken(moves + cleanup, strip, fs, repo + [".specrails"]);
  }

  lemma RootIsThere(fs: FileSystem, root: Path)
    ensures [] in Subtree(fs, root) <==> root in fs
  {
    SubtreeAt(fs, root, []);
    assert root + [] == root;
  }

  lemma FirstMoveTaken(plan: seq<Entry>, strip: Strip, fs: FileSystem, residue: Path)
    requires plan != [] && plan[0].Move? && plan[0].src in fs && MovesFirst(plan)
    requires Delete(residue) in plan && residue <= plan[0].dest
    ensures !Arrived(plan, fs, Effects(plan, strip, fs))
  {
    var j :| 0 <= j < |plan| && plan[j] == Delete(residue);
    DeletedIsGone(plan, strip, fs, plan[0].dest, j);
    var g := Effects(plan, strip, fs);
    RootIsThere(g, plan[0].dest);
    RootIsThere(fs, plan[0].src);
    assert !AtDestination(g, fs, plan[0]);
  }

  // ---- What cleanup lists ----

  /** A name that is the user's, wherever it stands. */
  ghost predicate UserName(name: string) {
    || name in ["CLAUDE.md", "AGENTS.md", "GEMINI.md", "settings.json", "settings.local.json", ".mcp.json"]
    || "custom-" <= name || "openspec" <= name
  }

  lemma NotPlanned(project: Project, fs: FileSystem, p: Path)
    requires IsProtected(project.repo, p)
    ensures Delete(p) !in project.Plan(fs)
  {
    var entries := STATE_ENTRIES;
    MovesForExist(fs, project.repo, project.workspace, StatePlaces(entries, project.dirs));
    CleanupShape(project, fs);
  }

  /** Whatever the candidates: nothing outside the repository, in `openspec`, in a worktree or the user's is listed. */
  lemma UserFilesAreNotListed(project: Project, fs: FileSystem, p: Path, i: nat)
    requires project.repo < p ==>
               || p[|project.repo|] == "openspec" || UserName(p[|p| - 1])
               || (|project.repo| <= i < |p| && p[i] == "worktrees")
    requires p != project.repo
    ensures Delete(p) !in project.Plan(fs)
  {
    if project.repo < p {
      var rel := p[|project.repo|..];
      assert rel[0] == p[|project.repo|];
      if |project.repo| <= i < |p| && p[i] == "worktrees" { assert rel[i - |project.repo|] == "worktrees"; }
    }
    NotPlanned(project, fs, p);
  }

  /** Framework agents and skills, which a provider directory holds by name, are listed where they exist. */
  lemma FrameworkFilesAreListed(project: Project, fs: FileSystem, dir: string, kind: string, name: string)
    requires dir != "openspec" && dir != "worktrees" && !(".." <= dir) && kind != "worktrees"
    requires "sr-" <= name || "specrails-" <= name
    requires project.repo + [dir, kind, name] in project.candidates && project.repo + [dir, kind, name] in fs
    ensures Delete(project.repo + [dir, kind, name]) in project.Plan(fs)
  {
    var p := project.repo + [dir, kind, name];
    assert p[|project.repo|..] == [dir, kind, name] && p[|p| - 1] == name;
    assert name[0] == 's' && name[1] != 'e';
    assert "custom-"[0] == 'c' && "openspec"[0] == 'o' && "settings.json"[1] == 'e' && "settings.local.json"[1] == 'e';
    assert "CLAUDE.md"[0] == 'C' && "AGENTS.md"[0] == 'A' && "GEMINI.md"[0] == 'G' && ".mcp.json"[0] == '.';
    assert "worktrees"[0] == 'w';
    ManifestComplete(fs, project.repo, project.candidates, {}, p);
  }

  // ---- What a completed migration comes to ----

  /** What was at a place of the repository is whole at the same place of the workspace, and nowhere else. */
  ghost predicate CarriedOver(project: Project, before: FileSystem, after: FileSystem, place: Path) {
    project.repo + place in before ==>
      && Subtree(after, project.workspace + place) == Subtree(before, project.repo + place)
      && project.repo + place !in after
  }

  /** Where a project keeps what is its own, in the repository as in the workspace. */
  ghost predicate HoldsState(project: Project, place: Path) {
    |place| == 2 &&
    if place[0] == ".specrails" then
      || place[1] == "profiles" || place[1] == "local-tickets.json" || place[1] == "backlog-config.json"
      || place[1] == "state" || place[1] == "file-summaries" || place[1] == "plugins"
    else place[0] in project.dirs && place[1] == "agent-memory"
  }

  /** All state is carried over, and `.specrails` is gone from the repository. */
  ghost predicate LeftTheRepository(project: Project, before: FileSystem, after: FileSystem) {
    && (forall place | HoldsState(project, place) :: CarriedOver(project, before, after, place))
    && forall p | project.repo + [".specrails"] <= p :: p !in after
  }

  lemma StateIsPlanned(project: Project, place: Path)
    requires HoldsState(project, place)
    ensures place in StatePlaces(STATE_ENTRIES, project.dirs)
  {
    var entries := STATE_ENTRIES;
    EveryStatePlace(entries, project.dirs);
    assert place == [place[0], place[1]];
    if place[0] == ".specrails" {
      assert entries[0] == "profiles" && entries[1] == "local-tickets.json" && entries[2] == "backlog-config.json";
      assert entries[3] == "state" && entries[4] == "file-summaries" && entries[5] == "plugins";
      assert place[1] in entries;
    }
  }

  lemma MoveCarriesOver(plan: seq<Entry>, strip: Strip, fs: FileSystem, m: Entry)
    requires MovesApart(plan) && MovesFirst(plan) && SparesMoved(plan, fs) && Idempotent(strip)
    requires forall i | 0 <= i < |plan| && plan[i].Move? :: plan[i].src in fs
    requires m in plan && m.Move?
    ensures Subtree(Effects(plan, strip, fs), m.dest) == Subtree(fs, m.src) && m.src !in Effects(plan, strip, fs)
  {
    var j :| 0 <= j < |plan| && plan[j] == m;
    SourceIsGone(plan, strip, fs, j);
    assert plan[0..] == plan;
    EffectsKeepInPlace(plan, strip, fs, State(fs, 0));
    assert MoveInPlace(plan[j], j, fs, State(MigrationJournal.Outcome(plan, strip, State(fs, 0)), |plan|));
  }

  lemma DeleteTakesAll(plan: seq<Entry>, strip: Strip, fs: FileSystem, d: Path, p: Path)
    requires MovesFirst(plan) && Delete(d) in plan && d <= p
    ensures p !in Effects(plan, strip, fs)
  {
    var j :| 0 <= j < |plan| && plan[j] == Delete(d);
    DeletedIsGone(plan, strip, fs, p, j);
  }

  lemma PlaceIsCarriedOver(project: Project, strip: Strip, fs: FileSystem, places: seq<Path>, place: Path)
    requires PlacesOk(places) && Apart(project.repo, project.workspace) && Idempotent(strip) && place in places
    ensures CarriedOver(project, fs, Effects(project.PlanFor(fs, places), strip, fs), place)
  {
    if project.repo + place in fs {
      PlanForIsSound(project, fs, places);
      MovesForComplete(fs, project.repo, project.workspace, places, place);
      MoveCarriesOver(project.PlanFor(fs, places), strip, fs, Move(project.repo + place, project.workspace + place));
    }
  }

  lemma ResidueIsGone(project: Project, strip: Strip, fs: FileSystem, places: seq<Path>, p: Path)
    requires PlacesOk(places) && Apart(project.repo, project.workspace) && project.repo + [".specrails"] <= p
    ensures p !in Effects(project.PlanFor(fs, places), strip, fs)
  {
    PlanForIsSound(project, fs, places);
    var residue := project.repo + [".specrails"];
    assert Delete(residue) in project.Cleanup(fs);
    DeleteTakesAll(project.PlanFor(fs, places), strip, fs, residue, p);
  }

  /** The plan of a project, carried out, moves all its state and takes the residue away. */
  lemma PlanCarriesOver(project: Project, strip: Strip, fs: FileSystem)
    requires project.DirsOk() && Apart(project.repo, project.workspace) && Idempotent(strip)
    ensures LeftTheRepository(project, fs, Effects(project.Plan(fs), strip, fs))
  {
    var entries := STATE_ENTRIES;
    var places := StatePlaces(entries, project.dirs);
    StatePlacesOk(entries, project.dirs);
    forall place | HoldsState(project, place)
      ensures CarriedOver(project, fs, Effects(project.PlanFor(fs, places), strip, fs), place)
    {
      StateIsPlanned(project, place);
      PlaceIsCarriedOver(project, strip, fs, places, place);
    }
    forall p | project.repo + [".specrails"] <= p ensures p !in Effects(project.PlanFor(fs, places), strip, fs) {
      ResidueIsGone(project, strip, fs, places, p);
    }
  }

  // ---- And what it leaves alone ----

  /** In the repository, outside its state, its `.specrails`, its `.mcp.json` and everything that cleanup lists. */
  ghost predicate Unconcerned(project: Project, fs: FileSystem, p: Path) {
    && project.repo <= p && p != project.repo + [".mcp.json"]
    && !(project.repo + [".specrails"] <= p)
    && (forall d | d in project.dirs :: !(project.repo + [d, "agent-memory"] <= p))
    && forall c | c in project.candidates && c in fs && !IsProtected(project.repo, c) :: !(c <= p)
  }

  /** There is nothing that cleanup lists above the path. */
  ghost predicate Unlisted(project: Project, fs: FileSystem, p: Path) {
    forall c | c in project.candidates && c in fs && !IsProtected(project.repo, c) :: !(c <= p)
  }

  lemma PlaceNotAbove(repo: Path, entries: seq<string>, dirs: seq<string>, place: Path, p: Path)
    requires IsStatePlace(place, entries, dirs) && !(repo + [".specrails"] <= p)
    requires forall d | d in dirs :: !(repo + [d, "agent-memory"] <= p)
    ensures !(repo + place <= p)
  {
    assert place == [place[0], place[1]];
    if place[0] == ".specrails" {
      assert repo + place == (repo + [".specrails"]) + [place[1]];
      assert repo + place <= p ==> repo + [".specrails"] <= p;
    }
  }

  lemma MovesAreElsewhere(project: Project, fs: FileSystem, p: Path, m: Entry)
    requires project.DirsOk() && Apart(project.repo, project.workspace) && project.repo <= p
    requires !(project.repo + [".specrails"] <= p)
    requires forall d | d in project.dirs :: !(project.repo + [d, "agent-memory"] <= p)
    requires MovesOneOf(m, fs, project.repo, project.workspace, StatePlaces(STATE_ENTRIES, project.dirs))
    ensures !(m.src <= p) && !(m.dest <= p)
  {
    var entries := STATE_ENTRIES;
    forall i, j | 0 <= i < j < |entries| ensures entries[i] != entries[j] { StateEntriesDiffer(i, j); }
    PlacesDiffer(entries, project.dirs);
    var place := m.src[|project.repo|..];
    assert m.src == project.repo + place;
    PlaceNotAbove(project.repo, entries, project.dirs, place, p);
    SeparatePlaces(project.repo, project.workspace, p, m.dest);
  }

  lemma PlanNotMoved(project: Project, fs: FileSystem, p: Path)
    requires project.DirsOk() && Apart(project.repo, project.workspace) && project.repo <= p
    requires !(project.repo + [".specrails"] <= p)
    requires forall d | d in project.dirs :: !(project.repo + [d, "agent-memory"] <= p)
    ensures NotMoved(project.Plan(fs), p)
  {
    var entries, plan := STATE_ENTRIES, project.Plan(fs);
    var places := StatePlaces(entries, project.dirs);
    StatePlacesOk(entries, project.dirs);
    PlanForIsSound(project, fs, places);
    forall e | e in plan && e.Move? ensures !(e.src <= p) && !(e.dest <= p) {
      var i :| 0 <= i < |plan| && plan[i] == e;
      MovesAreElsewhere(project, fs, p, e);
    }
  }

  lemma CleanupNotAbove(project: Project, fs: FileSystem, p: Path)
    requires Unlisted(project, fs, p) && !(project.repo + [".specrails"] <= p)
    ensures !Deleted(project.Cleanup(fs), p)
  {
    ManifestExactly(fs, project.repo, project.candidates);
    ManifestShape(fs, project.repo, project.candidates, {});
  }

  lemma PlanNotDeleted(project: Project, fs: FileSystem, p: Path)
    requires Unlisted(project, fs, p) && !(project.repo + [".specrails"] <= p)
    ensures !Deleted(project.Plan(fs), p)
  {
    var entries := STATE_ENTRIES;
    CleanupNotAbove(project, fs, p);
    MovesForExist(fs, project.repo, project.workspace, StatePlaces(entries, project.dirs));
  }

  /** The plan, carried out, leaves everything else in the repository as it was. */
  lemma PlanLeavesRest(project: Project, strip: Strip, fs: FileSystem, p: Path)
    requires project.DirsOk() && Apart(project.repo, project.workspace) && Unconcerned(project, fs, p)
    ensures var g := Effects(project.Plan(fs), strip, fs); (p in g <==> p in fs) && (p in fs ==> g[p] == fs[p])
  {
    var plan := project.Plan(fs);
    PlanIsSound(project, fs);
    MovesApartEntries(plan);
    PlanNotMoved(project, fs, p);
    PlanNotDeleted(project, fs, p);
    PlanStripsOnly(project, fs, p);
    GoneIffDeleted(plan, strip, fs, p);
  }

  lemma PlanStripsOnly(project: Project, fs: FileSystem, p: Path)
    requires p != project.repo + [".mcp.json"]
    ensures McpKeyRemove(p) !in project.Plan(fs)
  {
    var entries := STATE_ENTRIES;
    ManifestShape(fs, project.repo, project.candidates, {});
    MovesForExist(fs, project.repo, project.workspace, StatePlaces(entries, project.dirs));
  }

  lemma {:induction false} EffectsInTurn(a: seq<Entry>, b: seq<Entry>, strip: Strip, fs: FileSystem)
    ensures Effects(a + b, strip, fs) == Effects(b, strip, Effects(a, strip, fs))
  {
    if a == [] {
      assert a + b == b;
    } else {
      EffectsInTurn(a[1..], b, strip, Effect(a[0], strip, fs));
      assert (a + b)[1..] == a[1..] + b;
    }
  }

  /** The plan up to the edit of `.mcp.json`. */
  function PlanFront(project: Project, fs: FileSystem): seq<Entry> {
    MovesFor(fs, project.repo, project.workspace, StatePlaces(STATE_ENTRIES, project.dirs))
    + (Manifest(fs, project.repo, project.candidates, {}) + [Delete(project.repo + [".specrails"])])
  }

  lemma FrontOfPlan(project: Project, fs: FileSystem) returns (last: seq<Entry>)
    ensures project.Plan(fs) == PlanFront(project, fs) + last
    ensures var mcp := project.repo + [".mcp.json"];
            last == if project.ownsMcpKeys && mcp in fs then [McpKeyRemove(mcp)] else []
  {
    var mcp := project.repo + [".mcp.json"];
    last := if project.ownsMcpKeys && mcp in fs then [McpKeyRemove(mcp)] else [];
    assert project.Cleanup(fs) == Manifest(fs, project.repo, project.candidates, {})
                                  + [Delete(project.repo + [".specrails"])] + last;
  }

  lemma FrontKeepsMcp(project: Project, strip: Strip, fs: FileSystem, mcp: Path)
    requires project.DirsOk() && Apart(project.repo, project.workspace)
    requires mcp == project.repo + [".mcp.json"] && Unlisted(project, fs, mcp)
    ensures var g := Effects(PlanFront(project, fs), strip, fs);
            (mcp in g <==> mcp in fs) && (mcp in fs ==> g[mcp] == fs[mcp])
  {
    var entries := STATE_ENTRIES;
    var front := PlanFront(project, fs);
    var last := FrontOfPlan(project, fs);
    assert mcp[|project.repo|] == ".mcp.json" && (project.repo + [".specrails"])[|project.repo|] == ".specrails";
    assert ".mcp.json"[1] == 'm' && ".specrails"[1] == 's';
    PlanIsSound(project, fs);
    MovesApartEntries(project.Plan(fs));
    PlanNotMoved(project, fs, mcp);
    PlanNotDeleted(project, fs, mcp);
    ManifestShape(fs, project.repo, project.candidates, {});
    MovesForExist(fs, project.repo, project.workspace, StatePlaces(entries, project.dirs));
    assert forall e | e in front :: e in project.Plan(fs) && !e.McpKeyRemove?;
    GoneIffDeleted(front, strip, fs, mcp);
  }

  /** Of `.mcp.json` only the owned keys go, where a plugin owns any. */
  lemma PlanStripsMcp(project: Project, strip: Strip, fs: FileSystem)
    requires project.DirsOk() && Apart(project.repo, project.workspace)
    requires Unlisted(project, fs, project.repo + [".mcp.json"])
    ensures var (mcp, g) := (project.repo + [".mcp.json"], Effects(project.Plan(fs), strip, fs));
            && (mcp in g <==> mcp in fs)
            && (mcp in fs ==> g[mcp] == if project.ownsMcpKeys && fs[mcp].File? then File(strip(fs[mcp].content))
                                        else fs[mcp])
  {
    var mcp, front := project.repo + [".mcp.json"], PlanFront(project, fs);
    var last := FrontOfPlan(project, fs);
    FrontKeepsMcp(project, strip, fs, mcp);
    EffectsInTurn(front, last, strip, fs);
    if last != [] { assert last[1..] == []; }
  }

  /** Below something that cleanup lists, and not state on its way to the workspace. */
  ghost predicate Cleaned(project: Project, fs: FileSystem, p: Path) {
    && project.repo <= p && !(project.repo + [".specrails"] <= p)
    && (forall d | d in project.dirs :: !(project.repo + [d, "agent-memory"] <= p))
    && !Unlisted(project, fs, p)
  }

  /** In the repository what cleanup lists is gone, `.mcp.json` has lost the owned keys, and all else is as it was. */
  ghost predicate CleansUp(project: Project, strip: Strip, before: FileSystem, after: FileSystem) {
    && (forall p | Unconcerned(project, before, p) ::
          (p in after <==> p in before) && (p in before ==> after[p] == before[p]))
    && (forall p | Cleaned(project, before, p) :: p !in after)
    && var mcp := project.repo + [".mcp.json"];
       Unlisted(project, before, mcp) && mcp in before ==>
         mcp in after && after[mcp] == if project.ownsMcpKeys && before[mcp].File?
                                       then File(strip(before[mcp].content)) else before[mcp]
  }

  lemma CleanedIsGone(project: Project, strip: Strip, fs: FileSystem, p: Path)
    requires project.DirsOk() && Apart(project.repo, project.workspace) && Cleaned(project, fs, p)
    ensures p !in Effects(project.Plan(fs), strip, fs)
  {
    PlanNotMoved(project, fs, p);
    var c :| c in project.candidates && c in fs && !IsProtected(project.repo, c) && c <= p;
    MigrationTakesListedDirectory(project, strip, fs, c, p);
  }

  lemma PlanCleansUp(project: Project, strip: Strip, fs: FileSystem)
    requires project.DirsOk() && Apart(project.repo, project.workspace)
    ensures CleansUp(project, strip, fs, Effects(project.Plan(fs), strip, fs))
  {
    var g := Effects(project.Plan(fs), strip, fs);
    forall p | Unconcerned(project, fs, p) ensures (p in g <==> p in fs) && (p in fs ==> g[p] == fs[p]) {
      PlanLeavesRest(project, strip, fs, p);
    }
    forall p | Cleaned(project, fs, p) ensures p !in g {
      CleanedIsGone(project, strip, fs, p);
    }
    if Unlisted(project, fs, project.repo + [".mcp.json"]) { PlanStripsMcp(project, strip, fs); }
  }

  lemma SameListing(project: Project, f: FileSystem, g: FileSystem, p: Path)
    requires SameUnder(f, g, project.repo)
    ensures Unlisted(project, f, p) <==> Unlisted(project, g, p)
  {
  }
}
