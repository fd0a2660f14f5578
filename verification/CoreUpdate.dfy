/**
 * The Core update protocol: publish a pending record, swap `framework/current`, mark every stale
 * workspace, reassemble each one, clear the markers and finally the pending record.
 *
 * Every durable write is one `Step` on a `Disk`. A step carries a guard saying when the protocol
 * may take it; the methods below are proved to take guarded steps only. A crash keeps the disk and
 * drops the rest, so "a crash anywhere, then any number of retries" is: any prefix of a legal log,
 * followed by more legal steps. Safety is proved for all legal logs.
 */
module CoreUpdate {
  import opened Wrappers
  import opened SemverLite

  type Slug = string
  type Provider = string

  // ---- What is on disk ----

  /** `<workspace>/.specrails/specrails-version`: it may also be unreadable, or trim to nothing. */
  datatype Record = Absent | Unreadable | Blank | Recorded(version: Version)

  /**
   * A workspace. `dirs` are the providers whose directory exists; `surface` maps the providers
   * whose surface is whole to the version it was assembled at. `mcp` is `.mcp.json`, if readable; `runtime`
   * says that the execution runtime which the Core declares, if any, is installed.
   */
  datatype Workspace = Workspace(record: Record, marker: bool, dirs: set<Provider>,
                                 surface: map<Provider, Version>, mcp: Option<string>, runtime: bool)

  datatype Disk = Disk(pending: Option<Version>, current: Option<Version>, spaces: map<Slug, Workspace>)

  const NO_WORKSPACE := Workspace(Absent, false, {}, map[], None, false)

  function At(d: Disk, s: Slug): Workspace {
    if s in d.spaces then d.spaces[s] else NO_WORKSPACE
  }

  predicate Populated(w: Workspace) {
    !w.record.Absent?
  }

  /** Every provider surface of `w` is whole and at `v`. */
  predicate WholeAt(w: Workspace, v: Version) {
    forall p | p in w.dirs :: p in w.surface && w.surface[p] == v
  }

  /** `w` is not waiting for a refresh to `v`: it never will be, or it is finished. */
  predicate Done(w: Workspace, v: Version) {
    !Populated(w) || w.dirs == {} || (w.record == Recorded(v) && !w.marker)
  }

  // ---- The launch gate ----

  /** The pending version that a reader takes from the status file, if that reads as one. */
  function Reload(pending: Option<Version>, readable: bool): Option<Version> {
    if readable then pending else None
  }

  /** The disk as a reader sees it whose read of the status file succeeds or fails. */
  function Seen(d: Disk, readable: bool): Disk {
    d.(pending := Reload(d.pending, readable))
  }

  /** What the gate answers to what it has read. */
  predicate Admits(d: Disk, s: Slug) {
    var w := At(d, s);
    !w.marker && match (d.pending, w.record)
                 case (Some(target), Recorded(v)) => v == target
                 case (Some(_), Blank) => false
                 case _ => true
  }

  /** The gate as written: one flag and two reads inside one `try`, each of which may fail. */
  method AssertWorkspaceCoreReady(d: Disk, s: Slug, readable: bool) returns (ready: bool)
    ensures ready <==> Admits(Seen(d, readable), s)
    ensures ready <==>
              && !At(d, s).marker
              && (readable && d.pending.Some? ==>
                    At(d, s).record in {Absent, Unreadable, Recorded(d.pending.value)})
  {
    var w := At(d, s);
    var pending := w.marker;
    if readable && d.pending.Some? {
      match w.record
      case Recorded(v) => pending := pending || v != d.pending.value;
      case Blank => pending := true;
      case _ =>
    }
    return !pending;
  }

  // ---- Durable steps ----

  /** A write inside one workspace. */
  datatype Change =
    | WriteMarker
    | BreakSurface(provider: Provider)
    | FinishSurface(provider: Provider, version: Version)
    | WriteMcp(content: Option<string>)
    | WriteRuntime(present: bool)
    | RemoveMarker

  datatype Step =
    | WritePending(target: Option<Version>)
    | SwapCurrent(version: Version)
    | DisturbCurrent(found: Option<Version>)
    | Within(slug: Slug, change: Change)

  function Changed(w: Workspace, change: Change): Workspace {
    match change
    case WriteMarker => w.(marker := true)
    case BreakSurface(p) => w.(surface := w.surface - {p})
    case FinishSurface(p, v) => w.(surface := w.surface[p := v], record := Recorded(v))
    case WriteMcp(c) => w.(mcp := c)
    case WriteRuntime(present) => w.(runtime := present)
    case RemoveMarker => w.(marker := false)
  }

  function Apply(d: Disk, step: Step): Disk {
    match step
    case WritePending(t) => d.(pending := t)
    case SwapCurrent(v) => d.(current := Some(v))
    case DisturbCurrent(c) => d.(current := c)
    case Within(s, change) => d.(spaces := d.spaces[s := Changed(At(d, s), change)])
  }

  /**
   * When a change is allowed: a surface and `.mcp.json` are touched only under a marker, and a
   * marker goes only once the workspace is whole at its recorded version.
   */
  predicate MayChange(w: Workspace, change: Change) {
    match change
    case WriteMarker => Populated(w)
    case RemoveMarker => w.record.Recorded? && WholeAt(w, w.record.version)
    case BreakSurface(p) => w.marker && p in w.dirs
    case FinishSurface(p, _) => w.marker && p in w.dirs
    case WriteMcp(_) => w.marker
    case WriteRuntime(_) => w.marker
  }

  /**
   * When a step is allowed: `current` moves only under its pending record, and the pending record
   * is cleared only when every registered workspace is done.
   */
  predicate Guard(d: Disk, registered: set<Slug>, step: Step) {
    match step
    case WritePending(t) =>
      t.None? && d.pending.Some? ==> forall s | s in registered :: Done(At(d, s), d.pending.value)
    case SwapCurrent(v) => d.pending == Some(v)
    case DisturbCurrent(_) => true
    case Within(s, change) => MayChange(At(d, s), change)
  }

  function Play(d: Disk, log: seq<Step>): Disk {
    if log == [] then d else Apply(Play(d, log[..|log| - 1]), log[|log| - 1])
  }

  predicate Legal(d: Disk, registered: set<Slug>, log: seq<Step>) {
    log != [] ==>
      && Legal(d, registered, log[..|log| - 1])
      && Guard(Play(d, log[..|log| - 1]), registered, log[|log| - 1])
  }

  // ---- Safety over all runs ----

  /** An unmarked workspace with a readable version is whole at that version. */
  predicate Settled(w: Workspace) {
    !w.marker && w.record.Recorded? ==> WholeAt(w, w.record.version)
  }

  predicate AllSettled(d: Disk) {
    forall s | s in d.spaces :: Settled(d.spaces[s])
  }

  lemma ChangeKeepsSettled(w: Workspace, change: Change)
    requires Settled(w) && MayChange(w, change)
    ensures Settled(Changed(w, change))
  {
  }

  lemma StepKeepsSettled(d: Disk, registered: set<Slug>, step: Step)
    requires AllSettled(d) && Guard(d, registered, step)
    ensures AllSettled(Apply(d, step))
  {
    if step.Within? {
      ChangeKeepsSettled(At(d, step.slug), step.change);
    }
  }

  lemma {:induction false} RunKeepsSettled(d: Disk, registered: set<Slug>, log: seq<Step>)
    requires AllSettled(d) && Legal(d, registered, log)
    ensures AllSettled(Play(d, log))
  {
    if log != [] {
      RunKeepsSettled(d, registered, log[..|log| - 1]);
      StepKeepsSettled(Play(d, log[..|log| - 1]), registered, log[|log| - 1]);
    }
  }

  lemma {:induction false} LegalPrefix(d: Disk, registered: set<Slug>, log: seq<Step>, k: nat)
    requires Legal(d, registered, log) && k <= |log|
    ensures Legal(d, registered, log[..k])
  {
    if k < |log| {
      LegalPrefix(d, registered, log[..|log| - 1], k);
      assert log[..|log| - 1][..k] == log[..k];
    } else {
      assert log[..k] == log;
    }
  }

  /** Resuming after a crash: a legal log played from where a legal log stopped is a legal log. */
  lemma {:induction false} CrashAndRetry(d: Disk, registered: set<Slug>, before: seq<Step>, after: seq<Step>)
    requires Legal(d, registered, before)
    requires Legal(Play(d, before), registered, after)
    ensures Play(d, before + after) == Play(Play(d, before), after)
    ensures Legal(d, registered, before + after)
  {
    if after == [] {
      assert before + after == before;
    } else {
      CrashAndRetry(d, registered, before, after[..|after| - 1]);
      assert (before + after)[..|before + after| - 1] == before + after[..|after| - 1];
    }
  }

  /**
   * The launch gate is sound in every state a crash can leave behind: an admitted workspace with a
   * readable version is whole at that version, and at the pending version if the gate could read
   * that one is pending.
   */
  lemma AdmittedIsWhole(d: Disk, registered: set<Slug>, log: seq<Step>, k: nat, s: Slug, readable: bool)
    requires AllSettled(d) && Legal(d, registered, log) && k <= |log|
    requires Admits(Seen(Play(d, log[..k]), readable), s) && At(Play(d, log[..k]), s).record.Recorded?
    ensures var now := Play(d, log[..k]);
            && WholeAt(At(now, s), At(now, s).record.version)
            && (readable && now.pending.Some? ==> WholeAt(At(now, s), now.pending.value))
  {
    LegalPrefix(d, registered, log, k);
    RunKeepsSettled(d, registered, log[..k]);
    var now := Play(d, log[..k]);
    assert At(Seen(now, readable), s) == At(now, s);
    if s in now.spaces {
      assert Settled(now.spaces[s]);
    }
  }

  /** The workspace is not whole at the version that is pending. */
  predicate Unfinished(d: Disk, s: Slug) {
    d.pending.Some? && !WholeAt(At(d, s), d.pending.value)
  }

  /**
   * When the gate is wrong. In every state a crash can leave behind, a workspace that a pending update
   * has not finished is admitted exactly when it is unmarked and the status file cannot be read, or
   * its version file is missing or cannot be read: both reads are made inside the same `try`, and a
   * failure of either lets the launch pass.
   */
  lemma GateFailsExactly(d: Disk, registered: set<Slug>, log: seq<Step>, k: nat, s: Slug, readable: bool)
    requires AllSettled(d) && Legal(d, registered, log) && k <= |log| && Unfinished(Play(d, log[..k]), s)
    ensures var now := Play(d, log[..k]);
            var w := At(now, s);
            Admits(Seen(now, readable), s) <==> !w.marker && (!readable || w.record.Absent? || w.record.Unreadable?)
  {
    var now := Play(d, log[..k]);
    assert At(Seen(now, readable), s) == At(now, s);
    if Admits(Seen(now, readable), s) && At(now, s).record.Recorded? {
      AdmittedIsWhole(d, registered, log, k, s, readable);
    }
  }

  /** Such a disk: the provider directory is there, nothing is assembled, and the record is no help. */
  lemma UnreadableRecordIsAdmitted(d: Disk, s: Slug, v: Version, record: Record, readable: bool)
    requires record.Absent? || record.Unreadable?
    requires d == Disk(Some(v), Some(v), map[s := Workspace(record, false, {"claude"}, map[], None, true)])
    ensures AllSettled(d) && Unfinished(d, s) && Admits(Seen(d, readable), s)
  {
    assert "claude" in At(d, s).dirs;
  }

  /** The update to `v` is published, and one workspace, unmarked, still holds the version before. */
  predicate LeftBehind(d: Disk, s: Slug, before: Version, v: Version) {
    && before != v
    && d == Disk(Some(v), Some(v),
                 map[s := Workspace(Recorded(before), false, {"claude"}, map["claude" := before], None, true)])
  }

  /** And another: the update is published, and the read of the status file fails on a workspace left behind. */
  lemma UnreadStatusIsAdmitted(d: Disk, s: Slug, before: Version, v: Version)
    requires LeftBehind(d, s, before, v)
    ensures AllSettled(d) && Unfinished(d, s) && !Admits(Seen(d, true), s) && Admits(Seen(d, false), s)
  {
    assert "claude" in At(d, s).dirs;
  }

  /** What a restarted manager's next status, after a registry check say, makes of the disk. */
  function Restarted(d: Disk, readable: bool): Disk {
    Apply(d, WritePending(Reload(d.pending, readable)))
  }

  /** Erasing the record opens the gate on an unfinished workspace exactly when its record alone kept it shut. */
  lemma ForgettingOpensExactly(d: Disk, registered: set<Slug>, log: seq<Step>, k: nat, s: Slug)
    requires AllSettled(d) && Legal(d, registered, log) && k <= |log| && Unfinished(Play(d, log[..k]), s)
    ensures var now := Play(d, log[..k]);
            var w := At(now, s);
            !Admits(now, s) && Admits(Restarted(now, false), s) <==>
              !w.marker && (w.record.Blank? || w.record.Recorded?)
  {
    var now := Play(d, log[..k]);
    GateFailsExactly(d, registered, log, k, s, true);
    assert Seen(now, true) == now;
    assert At(Restarted(now, false), s) == At(now, s);
  }

  /** `next` admits no unfinished workspace that `d` refuses. */
  ghost predicate StaysShut(d: Disk, next: Disk) {
    forall s | Unfinished(d, s) && !Admits(d, s) :: !Admits(next, s)
  }

  /**
   * A manager that could not read its status file starts with nothing pending, and the next status it
   * writes erases the record. That opens the gate on no unfinished workspace exactly when the file was
   * read, nothing was pending, or every unfinished workspace is marked or has no readable record.
   */
  lemma RestartIsSafeExactly(d: Disk, registered: set<Slug>, log: seq<Step>, k: nat, readable: bool)
    requires AllSettled(d) && Legal(d, registered, log) && k <= |log|
    ensures var now := Play(d, log[..k]);
            StaysShut(now, Restarted(now, readable)) <==>
              || readable || now.pending.None?
              || forall s | Unfinished(now, s) ::
                   At(now, s).marker || At(now, s).record.Absent? || At(now, s).record.Unreadable?
  {
    var now := Play(d, log[..k]);
    if readable || now.pending.None? {
      assert Restarted(now, readable) == now;
    } else {
      forall s | Unfinished(now, s)
        ensures !Admits(now, s) && Admits(Restarted(now, false), s) <==>
                  !(At(now, s).marker || At(now, s).record.Absent? || At(now, s).record.Unreadable?)
      {
        ForgettingOpensExactly(d, registered, log, k, s);
      }
    }
  }

  /** On the same disk a manager that could not read its status file opens the gate to every reader. */
  lemma ForgottenUpdateIsAdmitted(d: Disk, s: Slug, before: Version, v: Version)
    requires LeftBehind(d, s, before, v)
    ensures var next := Restarted(d, false);
            AllSettled(d) && !Admits(d, s) && Admits(next, s) && !WholeAt(At(next, s), v)
  {
    var next := Restarted(d, false);
    assert "claude" in At(next, s).dirs;
  }

  /** The pending record disappears only in a state where every registered workspace is done. */
  lemma PendingClearedOnlyWhenDone(d: Disk, registered: set<Slug>, log: seq<Step>, k: nat, s: Slug)
    requires Legal(d, registered, log) && k < |log| && s in registered
    requires Play(d, log[..k]).pending.Some? && Play(d, log[..k + 1]).pending.None?
    ensures var now := Play(d, log[..k]);
            Done(At(now, s), now.pending.value) && At(Play(d, log[..k + 1]), s) == At(now, s)
  {
    LegalPrefix(d, registered, log, k + 1);
    assert log[..k + 1][..k] == log[..k];
  }

  // ---- The program ----

  datatype Project = Project(id: string, slug: Slug)

  function Slugs(projects: seq<Project>): set<Slug> {
    set p | p in projects :: p.slug
  }

  datatype Result = Result(projectId: string, reseeded: bool, error: bool)

  /** The disk, with a ghost log of the steps taken since `origin`. */
  class Store {
    const registered: set<Slug>
    var disk: Disk
    /** No write, subprocess or check fails. */
    const reliable: bool
    ghost const origin: Disk
    ghost var log: seq<Step>

    constructor (disk: Disk, registered: set<Slug>, reliable: bool)
      ensures Valid() && origin == disk == this.disk && log == []
      ensures this.registered == registered && this.reliable == reliable
    {
      this.disk, this.registered, this.reliable := disk, registered, reliable;
      origin, log := disk, [];
    }

    ghost predicate Valid()
      reads this
    {
      Legal(origin, registered, log) && disk == Play(origin, log)
    }

    /** One durable write. */
    method Do(step: Step)
      requires Valid() && Guard(disk, registered, step)
      modifies this`disk, this`log
      ensures Valid() && disk == Apply(old(disk), step) && log == old(log) + [step]
    {
      disk := Apply(disk, step);
      log := log + [step];
      assert log[..|log| - 1] == old(log);
    }

    /** One durable write inside the workspace `s`. */
    method DoWithin(s: Slug, change: Change)
      requires Valid() && MayChange(At(disk, s), change)
      modifies this`disk, this`log
      ensures Valid() && old(log) <= log && OnlyAt(old(disk), disk, s)
      ensures log == old(log) + [Within(s, change)]
      ensures At(disk, s) == Changed(At(old(disk), s), change)
    {
      Do(Within(s, change));
    }

    /** Whether an operation of the environment goes through. */
    method Succeeds() returns (ok: bool)
      ensures reliable ==> ok
    {
      var fails := MayFail(reliable);
      ok := !fails;
    }
  }

  /** `b` differs from `a` at most in the workspace `s`. */
  ghost predicate OnlyAt(a: Disk, b: Disk, s: Slug) {
    && b.pending == a.pending && b.current == a.current
    && forall t | t != s :: At(b, t) == At(a, t)
  }

  twostate predicate Extends(store: Store)
    reads store
  {
    store.Valid() && old(store.log) <= store.log
  }

  /** The first moments of an install: the surface is in pieces, and `.mcp.json` may have been rewritten. */
  method BeginAssemble(store: Store, s: Slug, p: Provider)
    requires store.Valid() && At(store.disk, s).marker && p in At(store.disk, s).dirs
    modifies store
    ensures Extends(store) && OnlyAt(old(store.disk), store.disk, s)
    ensures var w, w0 := At(store.disk, s), At(old(store.disk), s);
            w == w0.(surface := w0.surface - {p}, mcp := w.mcp)
  {
    store.DoWithin(s, BreakSurface(p));
    var content, rewritesMcp: bool := *, *;
    if rewritesMcp { store.DoWithin(s, WriteMcp(content)); }
  }

  /**
   * One provider's `init`. The surface is broken from the moment it starts; `.mcp.json` may change
   * on the way; a failing run may still have published the version it was installing.
   */
  method AssembleProvider(store: Store, s: Slug, p: Provider, version: Version) returns (ok: bool)
    requires store.Valid() && At(store.disk, s).marker && p in At(store.disk, s).dirs
    modifies store
    ensures Extends(store) && OnlyAt(old(store.disk), store.disk, s)
    ensures var w, w0 := At(store.disk, s), At(old(store.disk), s);
            && w.marker && w.dirs == w0.dirs
            && (forall q | q != p && q in w0.surface :: q in w.surface && w.surface[q] == w0.surface[q])
            && (ok ==> w.record == Recorded(version) && p in w.surface && w.surface[p] == version)
            && (w.record == w0.record || w.record == Recorded(version))
    ensures store.reliable ==> ok && At(store.disk, s).runtime
  {
    BeginAssemble(store, s, p);
    ok := store.Succeeds();
    var published: bool := *;
    var runtime := store.Succeeds();
    store.DoWithin(s, WriteRuntime(runtime));
    if ok || published { store.DoWithin(s, FinishSurface(p, version)); }
    if !ok && published { store.DoWithin(s, BreakSurface(p)); }
  }

  /**
   * Run the offline assemble once per provider, continuing past failures. All providers are
   * assembled by the same Core, whose version need not be the expected one. A provider that
   * reports success is whole at that version; one that fails may be left in pieces.
   */
  method Assemble(store: Store, s: Slug, expected: Version) returns (failed: bool)
    requires store.Valid() && At(store.disk, s).marker && Populated(At(store.disk, s))
    modifies store
    ensures Extends(store) && OnlyAt(old(store.disk), store.disk, s)
    ensures At(store.disk, s).marker && At(store.disk, s).dirs == At(old(store.disk), s).dirs
    ensures Populated(At(store.disk, s))
    ensures !failed && At(store.disk, s).dirs != {} ==>
              At(store.disk, s).record.Recorded? && WholeAt(At(store.disk, s), At(store.disk, s).record.version)
    ensures store.reliable ==> !failed && (At(store.disk, s).dirs != {} ==> At(store.disk, s).runtime)
    ensures store.reliable && At(store.disk, s).dirs != {} ==> At(store.disk, s).record == Recorded(expected)
  {
    failed := false;
    var version := expected;
    var other: Version := *;
    var fits := store.Succeeds();
    if !fits { version := other; }
    ghost var dirs := At(store.disk, s).dirs;
    var todo := At(store.disk, s).dirs;
    while todo != {}
      invariant Extends(store) && OnlyAt(old(store.disk), store.disk, s)
      invariant At(store.disk, s).marker && At(store.disk, s).dirs == dirs && todo <= dirs
      invariant Populated(At(store.disk, s))
      invariant !failed ==> forall p | p in dirs - todo ::
                  p in At(store.disk, s).surface && At(store.disk, s).surface[p] == version
      invariant !failed && todo != dirs ==> At(store.disk, s).record == Recorded(version)
      invariant store.reliable ==> !failed && version == expected && (todo != dirs ==> At(store.disk, s).runtime)
      decreases todo
    {
      var p :| p in todo;
      todo := todo - {p};
      var ok := AssembleProvider(store, s, p, version);
      if !ok { failed := true; }
    }
  }

  /** Write the marker of one workspace; a failed write may still have created the file. */
  method MarkOne(store: Store, s: Slug) returns (ok: bool)
    requires store.Valid() && Populated(At(store.disk, s))
    modifies store
    ensures Extends(store) && OnlyAt(old(store.disk), store.disk, s)
    ensures At(store.disk, s) == At(old(store.disk), s) || At(store.disk, s) == At(old(store.disk), s).(marker := true)
    ensures ok ==> At(store.disk, s).marker
    ensures store.log == old(store.log) || store.log == old(store.log) + [Within(s, WriteMarker)]
    ensures store.reliable ==> ok
  {
    ok := store.Succeeds();
    var created: bool := *;
    if ok || created { store.DoWithin(s, WriteMarker); }
  }

  /** `b` is `a` with some more markers, in the workspaces named by `projects` only. */
  ghost predicate MoreMarkers(a: Disk, b: Disk, projects: seq<Project>) {
    && b.pending == a.pending && b.current == a.current
    && (forall s :: At(b, s) == At(a, s) || At(b, s) == At(a, s).(marker := true))
    && forall s :: s !in Slugs(projects) ==> At(b, s) == At(a, s)
  }

  /** `p` is out of the way of a refresh to `v`, or carries a marker. */
  predicate Covered(d: Disk, p: Project, v: Version) {
    var w := At(d, p.slug);
    !Populated(w) || w.record == Recorded(v) || w.marker
  }

  /** The steps from `from` on write markers and nothing else. */
  ghost predicate OnlyMarks(log: seq<Step>, from: nat) {
    forall i | from <= i < |log| :: log[i].Within? && log[i].change.WriteMarker?
  }

  /** Mark every workspace a refresh to `v` will touch. Returns the projects that could not be marked. */
  method MarkStale(store: Store, projects: seq<Project>, v: Version) returns (unmarked: set<string>)
    requires store.Valid()
    modifies store
    ensures Extends(store) && MoreMarkers(old(store.disk), store.disk, projects)
    ensures OnlyMarks(store.log, |old(store.log)|)
    ensures forall p | p in projects && p.id !in unmarked :: Covered(store.disk, p, v)
    ensures forall s :: Done(At(old(store.disk), s), v) ==> Done(At(store.disk, s), v)
    ensures store.reliable ==> unmarked == {}
  {
    unmarked := {};
    for i := 0 to |projects|
      invariant Extends(store) && MoreMarkers(old(store.disk), store.disk, projects)
      invariant forall s :: Done(At(old(store.disk), s), v) ==> Done(At(store.disk, s), v)
      invariant OnlyMarks(store.log, |old(store.log)|)
      invariant forall k | 0 <= k < i && projects[k].id !in unmarked :: Covered(store.disk, projects[k], v)
      invariant store.reliable ==> unmarked == {}
    {
      var project := projects[i];
      var w := At(store.disk, project.slug);
      if !Populated(w) { continue; }
      if w.record == Recorded(v) && !w.marker { continue; }
      var ok := MarkOne(store, project.slug);
      if !ok { unmarked := unmarked + {project.id}; }
      assert project in projects;
    }
  }

  /**
   * Refresh one marked or stale workspace: assemble, check the published version, put `.mcp.json`
   * back as it was, and only then drop the marker.
   */
  method RefreshWorkspace(store: Store, project: Project, v: Version, unmarked: bool) returns (result: Result)
    requires store.Valid()
    requires var w := At(store.disk, project.slug);
             Populated(w) && w.dirs != {} && (unmarked || w.marker)
    modifies store
    ensures Extends(store) && OnlyAt(old(store.disk), store.disk, project.slug)
    ensures result.projectId == project.id && result.reseeded == !result.error
    ensures var w, w0 := At(store.disk, project.slug), At(old(store.disk), project.slug);
            && w.dirs == w0.dirs && Populated(w)
            && (result.reseeded ==> w.record == Recorded(v) && !w.marker && WholeAt(w, v))
            && (result.reseeded ==> McpKept(w0, w) && w.runtime)
            && (unmarked ==> w == w0)
            && (w.record == Recorded(v) || w.marker || unmarked)
    ensures unmarked ==> result.error
    ensures store.reliable && !unmarked ==> result.reseeded
  {
    var s := project.slug;
    var mcpBefore := At(store.disk, s).mcp;
    result := Result(project.id, false, true);
    if !unmarked {
      var failed := Assemble(store, s, v);
      if !failed && At(store.disk, s).record == Recorded(v) {
        if At(store.disk, s).runtime { result := Result(project.id, true, false); }
      }
    }
    // Whatever happened above, the project's own MCP configuration comes back.
    if mcpBefore.Some? && At(store.disk, s).mcp != mcpBefore {
      var restored := store.Succeeds();
      if restored {
        store.DoWithin(s, WriteMcp(mcpBefore));
      } else {
        result := result.(reseeded := false, error := true);
      }
    }
    if result.reseeded {
      var ok := store.Succeeds();
      var removed: bool := *;
      if ok || removed { store.DoWithin(s, RemoveMarker); }
      if !ok { result := result.(reseeded := false, error := true); }
    }
  }

  predicate McpKept(before: Workspace, after: Workspace) {
    before.mcp.Some? ==> after.mcp == before.mcp
  }

  /** One turn of the second loop: skip, or refresh. */
  method ReseedOne(store: Store, project: Project, v: Version, unmarked: bool) returns (result: Result)
    requires store.Valid() && (unmarked || Covered(store.disk, project, v))
    modifies store
    ensures Extends(store) && OnlyAt(old(store.disk), store.disk, project.slug)
    ensures result.projectId == project.id
    ensures !result.error ==>
              Done(At(store.disk, project.slug), v)
              && McpKept(At(old(store.disk), project.slug), At(store.disk, project.slug))
    ensures Done(At(old(store.disk), project.slug), v) ==> !result.error && store.disk == old(store.disk)
    // Each project is reported once: refreshed, in error, or out of the way to begin with.
    ensures result.reseeded <==> !result.error && !Done(At(old(store.disk), project.slug), v)
    ensures unmarked ==> At(store.disk, project.slug) == At(old(store.disk), project.slug) && !result.reseeded
    ensures Covered(old(store.disk), project, v) ==> Covered(store.disk, project, v)
    ensures store.reliable && !unmarked ==> !result.error
  {
    var w := At(store.disk, project.slug);
    if !Populated(w) || (w.record == Recorded(v) && !w.marker) || w.dirs == {} {
      return Result(project.id, false, false);
    }
    result := RefreshWorkspace(store, project, v, unmarked);
  }

  /** What a pass that has handled the first `|results|` projects says about the disk. */
  ghost predicate Report(before: Disk, now: Disk, projects: seq<Project>, results: seq<Result>, v: Version)
    requires |results| <= |projects|
  {
    && now.pending == before.pending && now.current == before.current
    && (forall k | 0 <= k < |results| :: results[k].projectId == projects[k].id)
    // A project reported without an error needs no further refresh.
    && (forall k | 0 <= k < |results| && !results[k].error :: Done(At(now, projects[k].slug), v))
    // A workspace never reported with an error keeps the `.mcp.json` it had.
    && (forall s :: (forall k | 0 <= k < |results| && projects[k].slug == s :: !results[k].error) ==>
                      McpKept(At(before, s), At(now, s)))
    && forall s :: s !in Slugs(projects) ==> At(now, s) == At(before, s)
  }

  lemma ReportGrows(before: Disk, now: Disk, next: Disk, projects: seq<Project>, results: seq<Result>,
                    result: Result, v: Version)
    requires |results| < |projects| && Report(before, now, projects, results, v)
    requires var project := projects[|results|];
             && OnlyAt(now, next, project.slug) && result.projectId == project.id
             && (!result.error ==>
                   && Done(At(next, project.slug), v)
                   && McpKept(At(now, project.slug), At(next, project.slug)))
             && (Done(At(now, project.slug), v) ==> next == now)
    ensures Report(before, next, projects, results + [result], v)
  {
    var project := projects[|results|];
    assert project in projects;
    forall s | forall k | 0 <= k < |results + [result]| && projects[k].slug == s :: !(results + [result])[k].error
      ensures McpKept(At(before, s), At(next, s))
    {
      forall k | 0 <= k < |results| && projects[k].slug == s ensures !results[k].error {
        assert !(results + [result])[k].error;
      }
      if s == project.slug {
        assert !(results + [result])[|results|].error;
      }
    }
  }

  /** A project that needed no refresh is reported neither way, and its workspace is left done; none is both. */
  ghost predicate NeededOnly(before: Disk, now: Disk, projects: seq<Project>, results: seq<Result>, v: Version)
    requires |results| <= |projects|
  {
    && (forall s | Done(At(before, s), v) :: Done(At(now, s), v))
    && (forall k | 0 <= k < |results| && Done(At(before, projects[k].slug), v) ::
          !results[k].error && !results[k].reseeded)
    && (forall k | 0 <= k < |results| && results[k].reseeded :: !results[k].error)
  }

  lemma NeededOnlyGrows(before: Disk, now: Disk, next: Disk, projects: seq<Project>, results: seq<Result>,
                        result: Result, v: Version)
    requires |results| < |projects| && NeededOnly(before, now, projects, results, v)
    requires var project := projects[|results|];
             && OnlyAt(now, next, project.slug) && (Done(At(now, project.slug), v) ==> next == now)
             && (result.reseeded <==> !result.error && !Done(At(now, project.slug), v))
             && (Done(At(now, project.slug), v) ==> !result.error)
    ensures NeededOnly(before, next, projects, results + [result], v)
  {
  }

  /** Both, and no workspace that could not be marked has been refreshed. */
  ghost predicate FullReport(before: Disk, now: Disk, projects: seq<Project>, results: seq<Result>, v: Version,
                             unmarked: set<string>)
    requires |results| <= |projects|
  {
    && Report(before, now, projects, results, v) && NeededOnly(before, now, projects, results, v)
    && forall k | 0 <= k < |results| && results[k].reseeded :: projects[k].id !in unmarked
  }

  lemma FullReportGrows(before: Disk, now: Disk, next: Disk, projects: seq<Project>, results: seq<Result>,
                        result: Result, v: Version, unmarked: set<string>)
    requires |results| < |projects| && FullReport(before, now, projects, results, v, unmarked)
    requires var project := projects[|results|];
             && OnlyAt(now, next, project.slug) && result.projectId == project.id
             && (!result.error ==>
                   && Done(At(next, project.slug), v)
                   && McpKept(At(now, project.slug), At(next, project.slug)))
             && (result.reseeded <==> !result.error && !Done(At(now, project.slug), v))
             && (Done(At(now, project.slug), v) ==> next == now && !result.error)
             && (result.reseeded ==> project.id !in unmarked)
    ensures FullReport(before, next, projects, results + [result], v, unmarked)
  {
    ReportGrows(before, now, next, projects, results, result, v);
    NeededOnlyGrows(before, now, next, projects, results, result, v);
  }

  /** The second loop: each project in turn, the ones that could not be marked reported and left alone. */
  method ReseedEach(store: Store, projects: seq<Project>, v: Version, unmarked: set<string>)
    returns (results: seq<Result>)
    requires store.Valid() && forall p | p in projects && p.id !in unmarked :: Covered(store.disk, p, v)
    modifies store
    ensures Extends(store) && |results| == |projects|
    ensures FullReport(old(store.disk), store.disk, projects, results, v, unmarked)
    ensures store.reliable && unmarked == {} ==> forall r | r in results :: !r.error
  {
    results := [];
    for i := 0 to |projects|
      invariant Extends(store) && |results| == i
      invariant FullReport(old(store.disk), store.disk, projects, results, v, unmarked)
      invariant forall p | p in projects && p.id !in unmarked :: Covered(store.disk, p, v)
      invariant store.reliable && unmarked == {} ==> forall r | r in results :: !r.error
    {
      ghost var now := store.disk;
      var result := ReseedOne(store, projects[i], v, projects[i].id in unmarked);
      FullReportGrows(old(store.disk), now, store.disk, projects, results, result, v, unmarked);
      results := results + [result];
    }
  }

  lemma MarkedIsReported(before: Disk, marked: Disk, now: Disk, projects: seq<Project>, results: seq<Result>,
                         v: Version)
    requires |results| <= |projects| && MoreMarkers(before, marked, projects)
    requires forall s :: Done(At(before, s), v) ==> Done(At(marked, s), v)
    requires Report(marked, now, projects, results, v) && NeededOnly(marked, now, projects, results, v)
    ensures Report(before, now, projects, results, v) && NeededOnly(before, now, projects, results, v)
  {
  }

  method ReseedStaleWorkspaces(store: Store, projects: seq<Project>, currentVersion: Option<Version>)
    returns (results: seq<Result>)
    requires store.Valid()
    modifies store
    ensures Extends(store)
    ensures currentVersion.None? ==> results == [] && store.disk == old(store.disk)
    ensures currentVersion.Some? ==>
              && |results| == |projects|
              && Report(old(store.disk), store.disk, projects, results, currentVersion.value)
              && NeededOnly(old(store.disk), store.disk, projects, results, currentVersion.value)
    // All markers are written before anything else is, so that a crash leaves none of the others unmarked.
    ensures currentVersion.Some? ==>
              exists k | |old(store.log)| <= k <= |store.log| ::
                && OnlyMarks(store.log[..k], |old(store.log)|)
                && forall i | 0 <= i < |results| && results[i].reseeded ::
                     Covered(Play(store.origin, store.log[..k]), projects[i], currentVersion.value)
    ensures store.reliable ==> forall r | r in results :: !r.error
  {
    results := [];
    if currentVersion.None? { return; }
    var v := currentVersion.value;
    var unmarked := MarkStale(store, projects, v);
    ghost var marks, marked := store.log, store.disk;
    results := ReseedEach(store, projects, v, unmarked);
    MarkedIsReported(old(store.disk), marked, store.disk, projects, results, v);
    assert store.log[..|marks|] == marks;
    forall i | 0 <= i < |results| && results[i].reseeded
      ensures Covered(Play(store.origin, store.log[..|marks|]), projects[i], v)
    {
      assert projects[i] in projects;
    }
  }

  // ---- `.mcp.json` across a crash ----

  /** What the last write of `.mcp.json` in the workspace `s` left, if there was one. */
  function LastMcp(log: seq<Step>, s: Slug): Option<Option<string>> {
    if log == [] then None
    else
      match log[|log| - 1]
      case Within(t, WriteMcp(content)) => if t == s then Some(content) else LastMcp(log[..|log| - 1], s)
      case _ => LastMcp(log[..|log| - 1], s)
  }

  lemma {:induction false} McpIsLastWritten(d: Disk, log: seq<Step>, s: Slug)
    ensures At(Play(d, log), s).mcp == LastMcp(log, s).GetOr(At(d, s).mcp)
  {
    if log != [] {
      McpIsLastWritten(d, log[..|log| - 1], s);
    }
  }

  /** The user's file of the workspace `s` is the one that a run so far has left in place. */
  predicate McpUntouched(d: Disk, log: seq<Step>, s: Slug) {
    LastMcp(log, s) == None || LastMcp(log, s) == Some(At(d, s).mcp)
  }

  /**
   * A pass over what a run left that crashed after `log`. The snapshot from which `.mcp.json` is put back
   * is kept in memory only. So where the pass reports no error, and the file is there at the crash,
   * the user's own file has come through exactly when the last write before the crash, if any, wrote it.
   */
  method ReseedAfterCrash(ghost d: Disk, ghost log: seq<Step>, store: Store, projects: seq<Project>, v: Version)
    returns (results: seq<Result>)
    requires store.Valid() && store.disk == Play(d, log)
    modifies store
    ensures Extends(store) && |results| == |projects|
    ensures forall s :: NoErrors(projects, results, s) && At(d, s).mcp.Some? && LastMcp(log, s) != Some(None) ==>
              (At(store.disk, s).mcp == At(d, s).mcp <==> McpUntouched(d, log, s))
  {
    ghost var crashed := store.disk;
    results := ReseedStaleWorkspaces(store, projects, Some(v));
    forall s | NoErrors(projects, results, s) && At(d, s).mcp.Some? && LastMcp(log, s) != Some(None)
      ensures At(store.disk, s).mcp == At(d, s).mcp <==> McpUntouched(d, log, s)
    {
      McpIsLastWritten(d, log, s);
      assert McpKept(At(crashed, s), At(store.disk, s));
    }
  }

  /** No project in the workspace `s` is reported with an error. */
  predicate NoErrors(projects: seq<Project>, results: seq<Result>, s: Slug)
    requires |results| == |projects|
  {
    forall k | 0 <= k < |results| && projects[k].slug == s :: !results[k].error
  }

  /** A run that crashes inside an assemble which has rewritten `.mcp.json`. */
  lemma CrashedAssembleTakesMcp(d: Disk, s: Slug, w: Workspace, p: Provider, written: string) returns (log: seq<Step>)
    requires At(d, s) == w && Populated(w) && p in w.dirs && w.mcp.Some? && w.mcp != Some(written)
    ensures Legal(d, {s}, log) && At(Play(d, log), s).mcp == Some(written)
    ensures LastMcp(log, s) != Some(None) && !McpUntouched(d, log, s)
  {
    var marked := [Within(s, WriteMarker)];
    var broken := marked + [Within(s, BreakSurface(p))];
    log := broken + [Within(s, WriteMcp(Some(written)))];
    assert marked[..0] == [] && broken[..1] == marked && log[..2] == broken;
    assert At(Play(d, marked), s) == w.(marker := true);
    assert At(Play(d, broken), s) == w.(marker := true, surface := w.surface - {p});
    assert Legal(d, {s}, marked);
    assert Legal(d, {s}, broken);
    assert log[2] == Within(s, WriteMcp(Some(written)));
    McpIsLastWritten(d, log, s);
  }

  // ---- The update manager ----

  /** What `update` is called with, what it reads before it starts, and whether the package is good and materializes. */
  datatype Request = Request(target: Option<string>, latest: Option<string>, available: bool, runtimeError: bool,
                             staged: bool, materialized: bool)

  /** Turned away with everything as it was; thrown out of the try block; or done. */
  datatype Outcome = Refused | Failed | Updated(version: Version)

  class CoreUpdateManager {
    const store: Store
    var pendingVersion: Option<Version>
    var migrationError: bool
    var updating: bool

    /** Start-up: the pending record is all that survives a crash, if the status file reads back. */
    constructor (store: Store, readable: bool)
      requires store.Valid()
      ensures this.store == store && !updating
      ensures pendingVersion == Reload(store.disk.pending, readable) && migrationError == pendingVersion.Some?
      ensures Remembers() <==> readable || store.disk.pending.None?
    {
      this.store := store;
      var pending := if readable then store.disk.pending else None;
      pendingVersion, migrationError, updating := pending, pending.Some?, false;
    }

    /** Memory has not forgotten a pending update that the disk still records. */
    ghost predicate Remembers()
      reads this`pendingVersion, store
    {
      pendingVersion.None? ==> store.disk.pending.None?
    }

    /** Replace `update-status.json` atomically; a failed write leaves the old file. A registry check ends so too. */
    method PersistStatus() returns (ok: bool)
      requires store.Valid() && Guard(store.disk, store.registered, WritePending(pendingVersion))
      modifies store
      ensures Extends(store)
      ensures store.disk == if ok then old(store.disk).(pending := pendingVersion) else old(store.disk)
      ensures store.reliable ==> ok
    {
      ok := store.Succeeds();
      if ok { store.Do(WritePending(pendingVersion)); }
    }

    /** Publish under the registry lock: record, then swap. Any failure raises. */
    method Publish(v: Version, materialized: bool) returns (ok: bool)
      requires store.Valid() && updating
      modifies this`pendingVersion, this`migrationError, store
      ensures Extends(store) && (old(Remembers()) ==> Remembers())
      ensures store.disk.spaces == old(store.disk.spaces)
      ensures ok ==> store.disk.pending == pendingVersion == Some(v) && store.disk.current == Some(v)
      ensures pendingVersion == old(pendingVersion) || pendingVersion == Some(v)
      ensures old(store.disk.pending).Some? ==> store.disk.pending.Some?
      // `current` is left alone unless the pending record is already on disk, and never downgraded.
      ensures store.disk.current != old(store.disk.current) ==> store.disk.pending == Some(v)
      ensures old(store.disk.current).Some? && IsNewer(old(store.disk.current).value, v) ==>
                !ok && store.disk == old(store.disk) && pendingVersion == old(pendingVersion)
      ensures !materialized ==> !ok && store.disk == old(store.disk) && pendingVersion == old(pendingVersion)
      ensures store.reliable && materialized
              && (old(store.disk.current).Some? ==> !IsNewer(old(store.disk.current).value, v)) ==>
                ok
    {
      if store.disk.current.Some? && IsNewer(store.disk.current.value, v) { return false; }
      if !materialized { return false; }
      pendingVersion := Some(v);
      migrationError := false;
      var saved := PersistStatus();
      if !saved { return false; }
      ok := store.Succeeds();
      if ok {
        store.Do(SwapCurrent(v));
      } else {
        var found: Option<Version> := *;
        store.Do(DisturbCurrent(found));
      }
    }

    /**
     * The checks up front. A version is the caller's, else the pending one, else the latest known of the channel.
     * It has to be one that can be installed, and newer than what is published; the published version itself is
     * gone through again when its runtime is broken or its update is the one that is pending.
     */
    method CheckRequest(request: Request) returns (chosen: Option<Version>)
      ensures var asked := if request.target.Some? then request.target
                           else if pendingVersion.Some? then pendingVersion else request.latest;
              chosen == if || updating || !request.available || asked.None? || !Installable(Cleaned(asked.value))
                           || (store.disk.current.Some?
                               && var v, now := Cleaned(asked.value), store.disk.current.value;
                                  && !IsNewer(v, now)
                                  && !(v == now && (request.runtimeError || pendingVersion == Some(v))))
                        then None else Some(Cleaned(asked.value))
    {
      if updating || !request.available { return None; }
      var raw := if request.target.Some? then request.target.value
                 else if pendingVersion.Some? then pendingVersion.value
                 else request.latest.GetOr("");
      var v := Cleaned(raw);
      if v == "" || !Installable(v) { return None; }
      if store.disk.current.Some? {
        var now := store.disk.current.value;
        if !IsNewer(v, now) && !(v == now && (request.runtimeError || pendingVersion == Some(v))) { return None; }
      }
      return Some(v);
    }

    method Update(request: Request, projects: seq<Project>) returns (outcome: Outcome)
      requires store.Valid()
      requires store.registered == Slugs(projects)
      modifies this`pendingVersion, this`migrationError, this`updating, store
      ensures Extends(store) && (old(Remembers()) ==> Remembers()) && updating == old(updating)
      // Which requests go through.
      ensures var asked := if request.target.Some? then request.target
                           else if old(pendingVersion).Some? then old(pendingVersion) else request.latest;
              outcome.Refused? <==>
                || old(updating) || !request.available || asked.None? || !Installable(Cleaned(asked.value))
                || (old(store.disk.current).Some?
                    && var v, now := Cleaned(asked.value), old(store.disk.current).value;
                       && !IsNewer(v, now)
                       && !(v == now && (request.runtimeError || old(pendingVersion) == Some(v))))
      ensures outcome.Refused? ==>
                && store.disk == old(store.disk)
                && pendingVersion == old(pendingVersion) && migrationError == old(migrationError)
      // Success: the version asked for is published, every registered workspace done, nothing pending.
      ensures outcome.Updated? ==>
                && store.disk.pending.None? && pendingVersion.None? && !migrationError
                && store.disk.current == Some(outcome.version) && Installable(outcome.version)
                && (old(store.disk.current).Some? ==> !IsNewer(old(store.disk.current).value, outcome.version))
                && forall p | p in projects :: Done(At(store.disk, p.slug), outcome.version)
      ensures outcome.Updated? && request.target.Some? ==> outcome.version == Cleaned(request.target.value)
      ensures outcome.Updated? && request.target.None? && old(pendingVersion).Some? ==>
                outcome.version == Cleaned(old(pendingVersion).value)
      ensures outcome.Updated? && request.target.None? && old(pendingVersion).None? ==>
                request.latest.Some? && outcome.version == Cleaned(request.latest.value)
      // Failure after publication stays visible until a retry succeeds.
      ensures outcome.Failed? ==> (pendingVersion.Some? ==> migrationError)
      ensures outcome.Failed? && pendingVersion != old(pendingVersion) ==>
                pendingVersion.Some? && Installable(pendingVersion.value)
      ensures outcome.Failed? && old(store.disk.pending).Some? ==> store.disk.pending.Some?
      // A package that is no good or does not materialize goes nowhere.
      ensures !request.staged || !request.materialized ==>
                && !outcome.Updated? && pendingVersion == old(pendingVersion)
                && store.disk.current == old(store.disk.current) && store.disk.spaces == old(store.disk.spaces)
      // When nothing goes wrong on the way, an accepted update goes through.
      ensures outcome.Failed? ==> !store.reliable || !request.staged || !request.materialized
    {
      var chosen := CheckRequest(request);
      if chosen.None? { return Refused; }
      if store.disk.current.Some? { OrderIsTotalPreorder(chosen.value, store.disk.current.value, chosen.value); }
      outcome := GoThrough(chosen.value, projects, request.staged, request.materialized);
    }

    /** The try block and what catches: a failure that leaves a version pending is put on record. */
    method GoThrough(v: Version, projects: seq<Project>, staged: bool, materialized: bool) returns (outcome: Outcome)
      requires store.Valid() && !updating && Installable(v)
      requires store.registered == Slugs(projects)
      modifies this`pendingVersion, this`migrationError, this`updating, store
      ensures Extends(store) && (old(Remembers()) ==> Remembers()) && !updating
      ensures outcome == Updated(v) || outcome == Failed
      ensures outcome.Updated? ==>
                && store.disk.pending.None? && pendingVersion.None? && !migrationError
                && store.disk.current == Some(v)
                && forall p | p in projects :: Done(At(store.disk, p.slug), v)
      ensures outcome.Failed? ==> (pendingVersion.Some? ==> migrationError)
      ensures outcome.Failed? && pendingVersion != old(pendingVersion) ==> pendingVersion == Some(v)
      ensures outcome.Failed? && old(store.disk.pending).Some? ==> store.disk.pending.Some?
      ensures !staged || !materialized ==>
                && outcome == Failed && pendingVersion == old(pendingVersion)
                && store.disk.current == old(store.disk.current) && store.disk.spaces == old(store.disk.spaces)
      ensures store.reliable && staged && materialized
              && (old(store.disk.current).Some? ==> !IsNewer(old(store.disk.current).value, v)) ==>
                outcome == Updated(v)
    {
      updating := true;
      var ok := UpdateLocked(v, projects, staged, materialized);
      outcome := if ok then Updated(v) else Failed;
      if !ok && pendingVersion.Some? {
        migrationError := true;
        var _ := PersistStatus();
      }
      updating := false;
    }

    /** The body of `update`'s try block: false when it threw. */
    method UpdateLocked(v: Version, projects: seq<Project>, staged: bool, materialized: bool) returns (ok: bool)
      requires store.Valid() && updating
      requires store.registered == Slugs(projects)
      modifies this`pendingVersion, this`migrationError, store
      ensures Extends(store) && (old(Remembers()) ==> Remembers())
      ensures ok ==>
                && store.disk.pending.None? && pendingVersion.None? && !migrationError
                && store.disk.current == Some(v)
                && forall p | p in projects :: Done(At(store.disk, p.slug), v)
      ensures !ok ==> pendingVersion == old(pendingVersion) || pendingVersion == Some(v)
      ensures !ok && old(store.disk.pending).Some? ==> store.disk.pending.Some?
      ensures !staged || !materialized ==>
                !ok && store.disk == old(store.disk) && pendingVersion == old(pendingVersion)
      ensures store.reliable && staged && materialized
              && (old(store.disk.current).Some? ==> !IsNewer(old(store.disk.current).value, v)) ==>
                ok
    {
      if !staged { return false; }
      var published := Publish(v, materialized);
      if !published { return false; }
      var results := ReseedStaleWorkspaces(store, projects, Some(v));
      if exists i :: 0 <= i < |results| && results[i].error { return false; }
      pendingVersion := None;
      migrationError := false;
      forall s | s in store.registered ensures Done(At(store.disk, s), v) {
        var p :| p in projects && p.slug == s;
        var i :| 0 <= i < |projects| && projects[i] == p;
        assert !results[i].error;
      }
      ok := PersistStatus();
      if !ok { pendingVersion := Some(v); }
    }
  }

  /** Every workspace of the registered projects that has providers is unmarked, records `v` and is whole at it. */
  ghost predicate Refreshed(d: Disk, projects: seq<Project>, v: Version) {
    forall p | p in projects && !At(d, p.slug).record.Absent? && At(d, p.slug).dirs != {} ::
      && !At(d, p.slug).marker && At(d, p.slug).record == Recorded(v)
      && forall q | q in At(d, p.slug).dirs :: q in At(d, p.slug).surface && At(d, p.slug).surface[q] == v
  }

  lemma DoneIsRefreshed(d: Disk, projects: seq<Project>, v: Version)
    requires AllSettled(d) && forall p | p in projects :: Done(At(d, p.slug), v)
    ensures Refreshed(d, projects, v)
  {
    forall p | p in projects && !At(d, p.slug).record.Absent? && At(d, p.slug).dirs != {}
      ensures Settled(At(d, p.slug))
    {
      assert p.slug in d.spaces;
    }
  }

  /** A crash after the swap, while workspaces are being refreshed, leaves the new version pending and published. */
  lemma {:induction false} CrashedReseedIsPending(d: Disk, registered: set<Slug>, log: seq<Step>, k: nat, v: Version)
    requires Legal(d, registered, log) && k < |log| && log[k] == SwapCurrent(v)
    requires forall i | k < i < |log| :: log[i].Within?
    ensures Play(d, log).pending == Play(d, log).current == Some(v)
  {
    var last := |log| - 1;
    if k < last {
      CrashedReseedIsPending(d, registered, log[..last], k, v);
    }
  }

  /**
   * A restart after a crash, at any disk that a legal log can leave, and a retry without a version of its own.
   * The retry is for the pending version, whatever the latest one is. It is refused exactly when something
   * newer has been published meanwhile, or another version of the same rank; in particular never when the
   * pending version is the published one. A retry in which nothing fails finishes the update.
   */
  method RetryInterruptedUpdate(store: Store, latest: Option<string>, runtimeError: bool, staged: bool,
                                materialized: bool, projects: seq<Project>, v: Version)
    returns (outcome: Outcome, manager: CoreUpdateManager)
    requires store.Valid() && AllSettled(store.origin) && store.registered == Slugs(projects)
    requires store.disk.pending == Some(v) && Installable(v)
    modifies store
    ensures Extends(store) && fresh(manager) && manager.store == store && !manager.updating
    ensures outcome.Refused? <==>
              && old(store.disk.current).Some? && old(store.disk.current) != Some(v)
              && !IsNewer(v, old(store.disk.current).value)
    ensures outcome.Refused? ==> store.disk == old(store.disk)
    ensures outcome.Failed? ==>
              && !(store.reliable && staged && materialized)
              && store.disk.pending.Some? && manager.migrationError
    ensures outcome.Updated? ==>
              && store.disk.pending.None? && manager.pendingVersion.None? && !manager.migrationError
              && store.disk.current == Some(v) && Refreshed(store.disk, projects, v)
  {
    manager := new CoreUpdateManager(store, true);
    InstallableIsClean(v);
    outcome := manager.Update(Request(None, latest, true, runtimeError, staged, materialized), projects);
    if outcome.Updated? {
      RunKeepsSettled(store.origin, store.registered, store.log);
      DoneIsRefreshed(store.disk, projects, v);
    }
  }
}
