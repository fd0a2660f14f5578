/**
 * The shared registry of relocated artifacts: one entry per repository, upserted by a mirror or by
 * the start-up reconcile, removed, or restored when a registration is rolled back.
 *
 * Canonical repository paths and their index keys are inputs; timestamps are inputs. Every writer
 * here runs under the lock of `RegistryLock`, so its read-modify-write is one step.
 */
module ArtifactRegistry {
  import opened Wrappers

  const REGISTRY_SCHEMA_VERSION: int := 1

  /** The path and identity fields a usable entry must carry. */
  datatype Field =
    | RepoPath | Slug | WorkspaceDir | ArtifactRoot | CodeRoot | StateDir
    | TicketsPath | BacklogConfigPath | ProfilesDir | PluginsStateDir | FileSummariesDir

  /** `coreVersion` in memory: the key may be missing, present but `undefined`, or hold a version. */
  datatype Version = Missing | Undefined | Pinned(version: string) {
    function Or(fallback: Version): Version {
      if Pinned? then this else if fallback.Pinned? then fallback else Undefined
    }
  }

  /** An entry; `fields` holds the string-valued ones present, `extra` the keys this code does not know. */
  datatype Entry = Entry(
    fields: map<Field, string>,
    providers: Option<seq<string>>,
    primaryProvider: Option<string>,
    coreVersion: Version,
    source: Option<string>,
    createdAt: Option<string>,
    lastInstallAt: Option<string>,
    updatedAt: Option<string>,
    desktopProjectId: Option<string>,
    extra: map<string, string>)

  type Projects = map<string, Entry>

  datatype Input = Input(
    key: string,
    canon: string,
    slug: string,
    providers: Option<seq<string>>,
    primary: Option<string>,
    coreVersion: Option<string>,
    desktopProjectId: Option<string>)

  function Join(dir: string, name: string): string {
    dir + "/" + name
  }

  /** Where a project's artifacts live: a function of the home directory, the slug and the repository. */
  function WorkspaceLayout(home: string, slug: string, canon: string): map<Field, string> {
    var workspace := Join(Join(Join(home, ".specrails/projects"), slug), "workspace");
    var specrails := Join(workspace, ".specrails");
    map[RepoPath := canon,
        Slug := slug,
        WorkspaceDir := workspace,
        ArtifactRoot := workspace,
        CodeRoot := canon,
        StateDir := Join(workspace, ".claude"),
        TicketsPath := Join(specrails, "local-tickets.json"),
        BacklogConfigPath := Join(specrails, "backlog-config.json"),
        ProfilesDir := Join(specrails, "profiles"),
        PluginsStateDir := Join(specrails, "plugins"),
        FileSummariesDir := Join(specrails, "file-summaries")]
  }

  predicate Present(fields: map<Field, string>, f: Field) {
    f in fields && fields[f] != ""
  }

  /** Every field is present and non-empty. */
  predicate IsComplete(e: Entry) {
    forall f: Field :: Present(e.fields, f)
  }

  /** The check as the registry runs it: over the list of required fields, stopping at the first gap. */
  method IsCompleteEntry(e: Entry) returns (complete: bool)
    ensures complete <==> IsComplete(e)
  {
    var required := [RepoPath, Slug, WorkspaceDir, ArtifactRoot, CodeRoot, StateDir,
                     TicketsPath, BacklogConfigPath, ProfilesDir, PluginsStateDir, FileSummariesDir];
    var i := 0;
    while i < |required|
      invariant i <= |required|
      invariant forall j :: 0 <= j < i ==> Present(e.fields, required[j])
    {
      if !Present(e.fields, required[i]) {
        return false;
      }
      i := i + 1;
    }
    forall f: Field ensures Present(e.fields, f) {
      var at := match f
        case RepoPath => 0 case Slug => 1 case WorkspaceDir => 2 case ArtifactRoot => 3 case CodeRoot => 4
        case StateDir => 5 case TicketsPath => 6 case BacklogConfigPath => 7 case ProfilesDir => 8
        case PluginsStateDir => 9 case FileSummariesDir => 10;
      assert required[at] == f;
    }
    return true;
  }

  predicate Explicit(i: Input) {
    i.providers.Some? && i.providers.value != []
  }

  function Named(primary: Option<string>): bool {
    primary.Some? && primary.value != ""
  }

  /** The provider list and primary provider an input stands for. */
  function NormalProviders(i: Input): (r: (seq<string>, string))
    ensures r.0 != []
    ensures !Named(i.primary) ==> r.1 == r.0[0]
  {
    var list := if Explicit(i) then i.providers.value else [if Named(i.primary) then i.primary.value else "claude"];
    (list, if Named(i.primary) then i.primary.value else list[0])
  }

  /** The slug an upsert files an entry under: the entry's own when it carries one. */
  function FrozenSlug(existing: Option<Entry>, desired: string): string {
    if existing.Some? && Present(existing.value.fields, Slug) then existing.value.fields[Slug] else desired
  }

  function Defined(o: Option<string>): Version {
    if o.Some? then Pinned(o.value) else Undefined
  }

  function WithId(e: Entry, id: Option<string>): Entry {
    if id.Some? && id.value != "" then e.(desktopProjectId := id) else e
  }

  /** Refresh what may change of an entry: providers, version, ownership, timestamps, project id. */
  function Refreshed(e: Entry, i: Input, now: string, touchInstall: bool): Entry {
    var (providers, primary) := NormalProviders(i);
    WithId(Entry(
      e.fields,
      Some(if Explicit(i) then providers else e.providers.GetOr(providers)),
      Some(if Explicit(i) then primary else e.primaryProvider.GetOr(primary)),
      Defined(i.coreVersion).Or(e.coreVersion),
      Some("desktop"),
      Some(e.createdAt.GetOr(now)),
      Some(if touchInstall then now else e.lastInstallAt.GetOr(now)),
      Some(now),
      e.desktopProjectId,
      e.extra), i.desktopProjectId)
  }

  /** Build or refresh the desktop-owned entry of a repository. */
  function BuildMirroredEntry(existing: Option<Entry>, i: Input, now: string, touchInstall: bool, home: string): Entry {
    if existing.Some? then
      var e := existing.value;
      var base :=
        if IsComplete(e) then e
        else e.(fields := e.fields + WorkspaceLayout(home, FrozenSlug(existing, i.slug), i.canon));
      Refreshed(base, i, now, touchInstall)
    else
      var (providers, primary) := NormalProviders(i);
      WithId(Entry(
        WorkspaceLayout(home, i.slug, i.canon),
        Some(providers),
        Some(primary),
        Defined(i.coreVersion),
        Some("desktop"),
        Some(now), Some(now), Some(now), None, map[]), i.desktopProjectId)
  }

  function Lookup(projects: Projects, key: string): Option<Entry> {
    if key in projects then Some(projects[key]) else None
  }

  // ------------------------------------------------------------------------------------------------
  // Frozen identity.

  lemma LayoutIsPresent(home: string, slug: string, canon: string, f: Field)
    requires canon != ""
    ensures f in WorkspaceLayout(home, slug, canon)
    ensures Present(WorkspaceLayout(home, slug, canon), f) <==> f != Slug || slug != ""
  {
  }

  /**
   * What an upsert does to identity: a complete entry keeps every path field; any other entry
   * becomes complete exactly when there is a slug to file it under, and then lives where that slug
   * says.
   */
  lemma UpsertFreezesIdentity(existing: Option<Entry>, i: Input, now: string, touch: bool, home: string)
    requires i.canon != ""
    ensures var e := BuildMirroredEntry(existing, i, now, touch, home);
      && (existing.Some? && IsComplete(existing.value) ==> e.fields == existing.value.fields)
      && (!(existing.Some? && IsComplete(existing.value)) ==>
            e.fields == WorkspaceLayout(home, FrozenSlug(existing, i.slug), i.canon))
      && (IsComplete(e) <==> FrozenSlug(existing, i.slug) != "")
  {
    var e := BuildMirroredEntry(existing, i, now, touch, home);
    var layout := WorkspaceLayout(home, FrozenSlug(existing, i.slug), i.canon);
    if existing.Some? && IsComplete(existing.value) {
      assert Present(existing.value.fields, Slug);
    } else {
      forall f: Field ensures f in layout && (Present(layout, f) <==> f != Slug || FrozenSlug(existing, i.slug) != "") {
        LayoutIsPresent(home, FrozenSlug(existing, i.slug), i.canon, f);
      }
      assert e.fields == layout;
      assert Present(e.fields, Slug) <==> FrozenSlug(existing, i.slug) != "";
    }
  }

  // ------------------------------------------------------------------------------------------------
  // The writers, on the registry's project map.

  function Mirrored(p: Projects, i: Input, now: string, home: string): Projects {
    p[i.key := BuildMirroredEntry(Lookup(p, i.key), i, now, true, home)]
  }

  function Reconciled(p: Projects, list: seq<Input>, now: string, home: string): Projects {
    if list == [] then
      p
    else
      var before, i := Reconciled(p, list[..|list| - 1], now, home), list[|list| - 1];
      before[i.key := BuildMirroredEntry(Lookup(before, i.key), i, now, false, home)]
  }

  lemma NextReconciled(p: Projects, list: seq<Input>, k: nat, now: string, home: string)
    requires k < |list|
    ensures var before, i := Reconciled(p, list[..k], now, home), list[k];
            Reconciled(p, list[..k + 1], now, home)
              == before[i.key := BuildMirroredEntry(Lookup(before, i.key), i, now, false, home)]
  {
    assert list[..k + 1][..k] == list[..k] && list[..k + 1][k] == list[k];
  }

  /** What serialization keeps of an entry: a key holding `undefined` is dropped. */
  function OnDisk(e: Entry): Entry {
    if e.coreVersion.Undefined? then e.(coreVersion := Missing) else e
  }

  function Saved(p: Projects): Projects {
    map k | k in p :: OnDisk(p[k])
  }

  predicate FromDisk(p: Projects) {
    forall k :: k in p ==> !p[k].coreVersion.Undefined?
  }

  lemma SavedFromDisk(p: Projects)
    requires FromDisk(p)
    ensures Saved(p) == p
  {
  }

  datatype Op =
    | Mirror(input: Input, now: string)
    | Reconcile(inputs: seq<Input>, now: string)

  /** The inputs of an operation; canonical paths are absolute, hence non-empty. */
  function Inputs(op: Op): seq<Input> {
    match op case Mirror(i, _) => [i] case Reconcile(list, _) => list
  }

  predicate Touches(list: seq<Input>, key: string) {
    exists k :: 0 <= k < |list| && list[k].key == key
  }

  predicate Canonical(list: seq<Input>) {
    forall k :: 0 <= k < |list| ==> list[k].canon != ""
  }

  function Apply(p: Projects, op: Op, home: string): Projects {
    match op
    case Mirror(i, now) => Saved(Mirrored(p, i, now, home))
    case Reconcile(list, now) => if list == [] then p else Saved(Reconciled(p, list, now, home))
  }

  function After(p: Projects, ops: seq<Op>, home: string): Projects
    decreases |ops|
  {
    if ops == [] then p else After(Apply(p, ops[0], home), ops[1..], home)
  }

  /** Identity survives: the slug once there is one, every path field once the entry is complete. */
  ghost predicate Keeps(before: Option<Entry>, after: Option<Entry>) {
    && (before.Some? ==> after.Some?)
    && (before.Some? && Present(before.value.fields, Slug) ==>
          Present(after.value.fields, Slug) && after.value.fields[Slug] == before.value.fields[Slug])
    && (before.Some? && IsComplete(before.value) ==> after.value.fields == before.value.fields)
  }

  lemma UpsertKeeps(existing: Option<Entry>, i: Input, now: string, touch: bool, home: string)
    requires i.canon != ""
    ensures Keeps(existing, Some(BuildMirroredEntry(existing, i, now, touch, home)))
    ensures FrozenSlug(existing, i.slug) != "" ==> IsComplete(BuildMirroredEntry(existing, i, now, touch, home))
  {
    UpsertFreezesIdentity(existing, i, now, touch, home);
  }

  predicate Slugged(list: seq<Input>) {
    forall k :: 0 <= k < |list| ==> list[k].slug != ""
  }

  lemma {:induction false} ReconcileKeeps(p: Projects, list: seq<Input>, now: string, home: string, key: string)
    requires Canonical(list)
    ensures !Touches(list, key) ==> Lookup(Reconciled(p, list, now, home), key) == Lookup(p, key)
    ensures Keeps(Lookup(p, key), Lookup(Reconciled(p, list, now, home), key))
    ensures Touches(list, key) ==> key in Reconciled(p, list, now, home)
    ensures Touches(list, key) && (Slugged(list) || FrozenSlug(Lookup(p, key), "") != "") ==>
              IsComplete(Reconciled(p, list, now, home)[key])
  {
    if list == [] {
    } else {
      var init, i := list[..|list| - 1], list[|list| - 1];
      ReconcileKeeps(p, init, now, home, key);
      var before := Reconciled(p, init, now, home);
      TouchesInit(list, key);
      assert list[|list| - 1].canon != "";
      if i.key == key {
        assert Slugged(list) ==> list[|list| - 1].slug != "";
        UpsertKeeps(Lookup(before, key), i, now, false, home);
      } else {
        assert Slugged(list) ==> Slugged(init);
      }
    }
  }

  /** One operation: identity survives, untouched keys are left alone, touched ones become complete. */
  lemma OpKeeps(p: Projects, op: Op, home: string, key: string)
    requires Canonical(Inputs(op)) && FromDisk(p)
    ensures FromDisk(Apply(p, op, home))
    ensures !Touches(Inputs(op), key) ==> Lookup(Apply(p, op, home), key) == Lookup(p, key)
    ensures Keeps(Lookup(p, key), Lookup(Apply(p, op, home), key))
    ensures Touches(Inputs(op), key) && (Slugged(Inputs(op)) || FrozenSlug(Lookup(p, key), "") != "") ==>
              key in Apply(p, op, home) && IsComplete(Apply(p, op, home)[key])
  {
    match op
    case Mirror(i, now) =>
      assert Inputs(op)[0] == i;
      UpsertKeeps(Lookup(p, i.key), i, now, true, home);
      if i.key == key { assert Slugged(Inputs(op)) ==> i.slug != ""; }
    case Reconcile(list, now) =>
      ReconcileKeeps(p, list, now, home, key);
  }

  ghost predicate Legal(ops: seq<Op>) {
    forall k :: 0 <= k < |ops| ==> Canonical(Inputs(ops[k]))
  }

  /**
   * Over any sequence of mirrors and reconciles a slug never changes once an entry carries one, and
   * a complete entry keeps every path field.
   */
  lemma {:induction false} IdentityIsFrozen(p: Projects, ops: seq<Op>, home: string, key: string)
    requires Legal(ops) && FromDisk(p)
    ensures Keeps(Lookup(p, key), Lookup(After(p, ops, home), key))
    decreases |ops|
  {
    if ops == [] {
    } else {
      OpKeeps(p, ops[0], home, key);
      IdentityIsFrozen(Apply(p, ops[0], home), ops[1..], home, key);
    }
  }

  /**
   * A repository that any of the operations names ends up with a complete entry, under its own slug
   * if it carried one, no matter what is missing from the entry it started with.
   */
  lemma {:induction false} TouchedBecomesComplete(p: Projects, ops: seq<Op>, home: string, key: string, k: nat)
    requires Legal(ops) && FromDisk(p) && k < |ops| && Touches(Inputs(ops[k]), key)
    requires Slugged(Inputs(ops[k])) || FrozenSlug(Lookup(p, key), "") != ""
    ensures key in After(p, ops, home) && IsComplete(After(p, ops, home)[key])
    decreases |ops|
  {
    var next := Apply(p, ops[0], home);
    OpKeeps(p, ops[0], home, key);
    if k == 0 {
      IdentityIsFrozen(next, ops[1..], home, key);
    } else {
      assert ops[1..][k - 1] == ops[k];
      TouchedBecomesComplete(next, ops[1..], home, key, k - 1);
    }
  }

  // ------------------------------------------------------------------------------------------------
  // What each write decides, and what is left as it was.

  /** One upsert of one repository, by a mirror, which is an install, or by a reconcile. */
  datatype Upsert = Upsert(input: Input, now: string, install: bool)

  /** Providers are given, as opposed to left out or empty. */
  predicate GivesProviders(w: Upsert) {
    w.input.providers.Some? && |w.input.providers.value| > 0
  }

  predicate GivesId(w: Upsert) {
    w.input.desktopProjectId.Some? && |w.input.desktopProjectId.value| > 0
  }

  predicate GivesPrimary(w: Upsert) {
    w.input.primary.Some? && |w.input.primary.value| > 0
  }

  predicate GivesVersion(w: Upsert) {
    w.input.coreVersion.Some?
  }

  predicate Installs(w: Upsert) {
    w.install
  }

  /** What a write gives is in the entry it leaves, with its time. */
  ghost predicate Decides(w: Upsert, after: Entry) {
    && after.source == Some("desktop") && after.updatedAt == Some(w.now)
    && (GivesProviders(w) ==>
          && after.providers == w.input.providers
          && after.primaryProvider == (if GivesPrimary(w) then w.input.primary else Some(w.input.providers.value[0])))
    && (w.input.coreVersion.Some? ==> after.coreVersion == Pinned(w.input.coreVersion.value))
    && (GivesId(w) ==> after.desktopProjectId == w.input.desktopProjectId)
    && (w.install ==> after.lastInstallAt == Some(w.now))
  }

  /** What a write does not give stays what it was in the entry it found. */
  ghost predicate LeavesRest(w: Upsert, before: Entry, after: Entry) {
    && after.extra == before.extra
    && (before.createdAt.Some? ==> after.createdAt == before.createdAt)
    && (!w.install && before.lastInstallAt.Some? ==> after.lastInstallAt == before.lastInstallAt)
    && (!GivesProviders(w) && before.providers.Some? ==> after.providers == before.providers)
    && (!GivesProviders(w) && before.primaryProvider.Some? ==> after.primaryProvider == before.primaryProvider)
    && (w.input.coreVersion.None? && before.coreVersion.Pinned? ==> after.coreVersion == before.coreVersion)
    && (!GivesId(w) ==> after.desktopProjectId == before.desktopProjectId)
  }

  /** What is neither given nor found: the named primary or `claude`, no version, and the time of the write. */
  ghost predicate FillsIn(w: Upsert, before: Option<Entry>, after: Entry) {
    var primary := if GivesPrimary(w) then w.input.primary.value else "claude";
    && (!GivesProviders(w) && (before.None? || before.value.providers.None?) ==> after.providers == Some([primary]))
    && (!GivesProviders(w) && (before.None? || before.value.primaryProvider.None?) ==>
          after.primaryProvider == Some(primary))
    && (w.input.coreVersion.None? && (before.None? || !before.value.coreVersion.Pinned?) ==>
          !after.coreVersion.Pinned?)
    && (before.None? || before.value.createdAt.None? ==> after.createdAt == Some(w.now))
    && (before.None? || before.value.lastInstallAt.None? ==> after.lastInstallAt == Some(w.now))
    && (before.None? ==> after.extra == map[] && (!GivesId(w) ==> after.desktopProjectId.None?))
  }

  /** Together these are all of an entry but its path fields. */
  ghost predicate UpsertedBy(w: Upsert, before: Option<Entry>, after: Entry) {
    Decides(w, after) && FillsIn(w, before, after) && (before.Some? ==> LeavesRest(w, before.value, after))
  }

  lemma RefreshedDecides(e: Entry, w: Upsert)
    ensures Decides(w, Refreshed(e, w.input, w.now, w.install))
  {
  }

  lemma RefreshedIsExact(e: Entry, w: Upsert)
    ensures UpsertedBy(w, Some(e), Refreshed(e, w.input, w.now, w.install))
  {
    RefreshedDecides(e, w);
  }

  lemma BuiltIsExact(existing: Option<Entry>, w: Upsert, home: string)
    ensures UpsertedBy(w, existing, BuildMirroredEntry(existing, w.input, w.now, w.install, home))
  {
    if existing.Some? {
      var e := existing.value;
      var slug := FrozenSlug(existing, w.input.slug);
      var relocated := e.(fields := e.fields + WorkspaceLayout(home, slug, w.input.canon));
      RefreshedIsExact(if IsComplete(e) then e else relocated, w);
    }
  }

  lemma UpsertIsExact(existing: Option<Entry>, w: Upsert, home: string)
    ensures UpsertedBy(w, existing, OnDisk(BuildMirroredEntry(existing, w.input, w.now, w.install, home)))
  {
    BuiltIsExact(existing, w, home);
  }

  /** The registry that one upsert saves. */
  function Upserted(p: Projects, w: Upsert, home: string): Projects {
    p[w.input.key := OnDisk(BuildMirroredEntry(Lookup(p, w.input.key), w.input, w.now, w.install, home))]
  }

  /** The registry after some writes. */
  function Written(p: Projects, ws: seq<Upsert>, home: string): Projects
    decreases |ws|
  {
    if ws == [] then p else Written(Upserted(p, ws[0], home), ws[1..], home)
  }

  function ListUpserts(list: seq<Input>, now: string): seq<Upsert> {
    seq(|list|, k requires 0 <= k < |list| => Upsert(list[k], now, false))
  }

  function OpUpserts(op: Op): seq<Upsert> {
    match op
    case Mirror(i, now) => [Upsert(i, now, true)]
    case Reconcile(list, now) => ListUpserts(list, now)
  }

  /** The upserts of some operations, in order. */
  function Upserts(ops: seq<Op>): seq<Upsert>
    decreases |ops|
  {
    if ops == [] then [] else OpUpserts(ops[0]) + Upserts(ops[1..])
  }

  lemma {:induction false} WrittenIsFold(p: Projects, ws: seq<Upsert>, home: string, f: (Projects, Upsert) -> Projects)
    requires forall q, w :: f(q, w) == Upserted(q, w, home)
    ensures Written(p, ws, home) == Fold(f, p, ws)
    decreases |ws|
  {
    if ws != [] {
      WrittenIsFold(Upserted(p, ws[0], home), ws[1..], home, f);
    }
  }

  lemma WrittenInTurn(p: Projects, a: seq<Upsert>, b: seq<Upsert>, home: string)
    ensures Written(p, a + b, home) == Written(Written(p, a, home), b, home)
  {
    var f := (q, w) => Upserted(q, w, home);
    WrittenIsFold(p, a + b, home, f);
    WrittenIsFold(p, a, home, f);
    WrittenIsFold(Written(p, a, home), b, home, f);
    FoldInTurn(f, p, a, b);
  }

  lemma WrittenOnce(p: Projects, w: Upsert, home: string)
    ensures Written(p, [w], home) == Upserted(p, w, home)
  {
    assert [w][1..] == [];
  }

  /** An upsert makes the same of an entry in memory as of the entry on disk. */
  lemma UpsertFromDisk(x: Entry, i: Input, now: string, touch: bool, home: string)
    ensures OnDisk(BuildMirroredEntry(Some(x), i, now, touch, home))
         == OnDisk(BuildMirroredEntry(Some(OnDisk(x)), i, now, touch, home))
  {
    assert IsComplete(x) <==> IsComplete(OnDisk(x));
  }

  lemma SavedUpsert(before: Projects, i: Input, now: string, home: string)
    ensures Saved(before[i.key := BuildMirroredEntry(Lookup(before, i.key), i, now, false, home)])
         == Upserted(Saved(before), Upsert(i, now, false), home)
  {
    if i.key in before { UpsertFromDisk(before[i.key], i, now, false, home); }
  }

  lemma {:induction false} ReconciledIsWritten(p: Projects, list: seq<Input>, now: string, home: string)
    requires FromDisk(p)
    ensures Saved(Reconciled(p, list, now, home)) == Written(p, ListUpserts(list, now), home)
  {
    if list == [] {
      SavedFromDisk(p);
    } else {
      var init, i := list[..|list| - 1], list[|list| - 1];
      var w := Upsert(i, now, false);
      ReconciledIsWritten(p, init, now, home);
      SavedUpsert(Reconciled(p, init, now, home), i, now, home);
      assert ListUpserts(list, now) == ListUpserts(init, now) + [w];
      WrittenInTurn(p, ListUpserts(init, now), [w], home);
      WrittenOnce(Written(p, ListUpserts(init, now), home), w, home);
    }
  }

  lemma MirroredIsWritten(p: Projects, i: Input, now: string, home: string)
    requires FromDisk(p)
    ensures Saved(Mirrored(p, i, now, home)) == Written(p, [Upsert(i, now, true)], home)
  {
    SavedFromDisk(p);
    WrittenOnce(p, Upsert(i, now, true), home);
  }

  /** A sequence of mirrors and reconciles is the sequence of its upserts. */
  lemma {:induction false} AfterIsWritten(p: Projects, ops: seq<Op>, home: string)
    requires FromDisk(p) && Legal(ops)
    ensures After(p, ops, home) == Written(p, Upserts(ops), home)
    decreases |ops|
  {
    if ops != [] {
      var first := OpUpserts(ops[0]);
      match ops[0] {
        case Mirror(i, now) => MirroredIsWritten(p, i, now, home);
        case Reconcile(list, now) => ReconciledIsWritten(p, list, now, home);
      }
      OpKeeps(p, ops[0], home, "");
      AfterIsWritten(Apply(p, ops[0], home), ops[1..], home);
      WrittenInTurn(p, first, Upserts(ops[1..]), home);
    }
  }

  /** No write at `key` among `ws` has the property. */
  predicate NoneGives(ws: seq<Upsert>, key: string, gives: Upsert -> bool) {
    forall k | 0 <= k < |ws| && ws[k].input.key == key :: !gives(ws[k])
  }

  /** What no write gives stays what the entry had, over any sequence of writes. */
  ghost predicate Untouched(ws: seq<Upsert>, key: string, before: Entry, after: Entry) {
    && after.extra == before.extra
    && (before.createdAt.Some? ==> after.createdAt == before.createdAt)
    && (NoneGives(ws, key, Installs) && before.lastInstallAt.Some? ==> after.lastInstallAt == before.lastInstallAt)
    && (NoneGives(ws, key, GivesProviders) && before.providers.Some? ==> after.providers == before.providers)
    && (NoneGives(ws, key, GivesProviders) && before.primaryProvider.Some? ==>
          after.primaryProvider == before.primaryProvider)
    && (NoneGives(ws, key, GivesVersion) && before.coreVersion.Pinned? ==>
          after.coreVersion == before.coreVersion)
    && (NoneGives(ws, key, GivesId) ==> after.desktopProjectId == before.desktopProjectId)
  }

  lemma {:induction false} WritesLeaveRest(p: Projects, ws: seq<Upsert>, home: string, key: string)
    requires key in p
    ensures key in Written(p, ws, home) && Untouched(ws, key, p[key], Written(p, ws, home)[key])
    decreases |ws|
  {
    if ws != [] {
      var next := Upserted(p, ws[0], home);
      WritesLeaveRest(next, ws[1..], home, key);
      UpsertIsExact(Lookup(p, key), ws[0], home);
      UntouchedFirst(ws, key, p[key], next[key], Written(p, ws, home)[key]);
    }
  }

  lemma UntouchedFirst(ws: seq<Upsert>, key: string, before: Entry, next: Entry, after: Entry)
    requires ws != [] && Untouched(ws[1..], key, next, after)
    requires if ws[0].input.key == key then UpsertedBy(ws[0], Some(before), next) else next == before
    ensures Untouched(ws, key, before, after)
  {
    forall gives: Upsert -> bool | NoneGives(ws, key, gives)
      ensures NoneGives(ws[1..], key, gives) && (ws[0].input.key == key ==> !gives(ws[0]))
    {
      LaterGivesNone(ws, key, gives);
    }
  }

  lemma LaterGivesNone(ws: seq<Upsert>, key: string, gives: Upsert -> bool)
    requires ws != [] && NoneGives(ws, key, gives)
    ensures NoneGives(ws[1..], key, gives) && (ws[0].input.key == key ==> !gives(ws[0]))
  {
    forall k | 0 <= k < |ws[1..]| ensures ws[1..][k] == ws[k + 1] {
    }
  }

  /** What the write `w` gives and the writes `later` do not is what the entry ends with. */
  ghost predicate HasTheLastWord(w: Upsert, later: seq<Upsert>, e: Entry) {
    var key := w.input.key;
    && (GivesProviders(w) && NoneGives(later, key, GivesProviders) ==>
          && e.providers == w.input.providers
          && e.primaryProvider == (if GivesPrimary(w) then w.input.primary else Some(w.input.providers.value[0])))
    && (w.input.coreVersion.Some? && NoneGives(later, key, GivesVersion) ==>
          e.coreVersion == Pinned(w.input.coreVersion.value))
    && (GivesId(w) && NoneGives(later, key, GivesId) ==> e.desktopProjectId == w.input.desktopProjectId)
    && (w.install && NoneGives(later, key, Installs) ==> e.lastInstallAt == Some(w.now))
    && ((forall k | 0 <= k < |later| :: later[k].input.key != key) ==> e.updatedAt == Some(w.now))
  }

  lemma LastWordFrom(before: Projects, w: Upsert, later: seq<Upsert>, home: string)
    ensures var q := Written(Upserted(before, w, home), later, home);
            w.input.key in q && HasTheLastWord(w, later, q[w.input.key])
  {
    var at := Upserted(before, w, home);
    UpsertIsExact(Lookup(before, w.input.key), w, home);
    WritesLeaveRest(at, later, home, w.input.key);
    if forall k | 0 <= k < |later| :: later[k].input.key != w.input.key {
      UntouchedKey(at, later, home, w.input.key);
    }
  }

  lemma LastWord(p: Projects, ws: seq<Upsert>, home: string, n: nat)
    requires n < |ws|
    ensures ws[n].input.key in Written(p, ws, home)
    ensures HasTheLastWord(ws[n], ws[n + 1..], Written(p, ws, home)[ws[n].input.key])
  {
    var w, later := ws[n], ws[n + 1..];
    WrittenInTurn(p, ws[..n], ws[n..], home);
    assert ws == ws[..n] + ws[n..] && ws[n..][1..] == later;
    LastWordFrom(Written(p, ws[..n], home), w, later, home);
  }

  lemma {:induction false} UntouchedKey(p: Projects, ws: seq<Upsert>, home: string, key: string)
    requires forall k | 0 <= k < |ws| :: ws[k].input.key != key
    ensures Lookup(Written(p, ws, home), key) == Lookup(p, key)
    decreases |ws|
  {
    if ws != [] {
      UntouchedKey(Upserted(p, ws[0], home), ws[1..], home, key);
    }
  }

  /**
   * Any sequence of mirrors and reconciles. What an entry had and no later write gives it keeps: its
   * providers and primary, its version, its project id, when it was installed; and always the time it
   * was created at and whatever else it held. What a write gives and none after it does it ends with.
   */
  lemma LastGivenCounts(p: Projects, ops: seq<Op>, home: string)
    requires FromDisk(p) && Legal(ops)
    ensures var (ws, q) := (Upserts(ops), After(p, ops, home));
            && (forall key | key in p :: key in q && Untouched(ws, key, p[key], q[key]))
            && (forall n | 0 <= n < |ws| ::
                  ws[n].input.key in q && HasTheLastWord(ws[n], ws[n + 1..], q[ws[n].input.key]))
  {
    var ws := Upserts(ops);
    AfterIsWritten(p, ops, home);
    forall key | key in p ensures key in Written(p, ws, home) && Untouched(ws, key, p[key], Written(p, ws, home)[key]) {
      WritesLeaveRest(p, ws, home, key);
    }
    forall n | 0 <= n < |ws|
      ensures ws[n].input.key in Written(p, ws, home)
      ensures HasTheLastWord(ws[n], ws[n + 1..], Written(p, ws, home)[ws[n].input.key])
    {
      LastWord(p, ws, home, n);
    }
  }

  // ------------------------------------------------------------------------------------------------
  // Reconciling twice at one timestamp changes nothing more, even with repeated keys.

  /** What a list of inputs imposes on one key: its last explicit providers, version and project id. */
  datatype Overlay = Overlay(
    canon: string,
    slugless: bool,
    providers: Option<(seq<string>, string)>,
    version: Option<string>,
    id: Option<string>)

  const NOTHING := Overlay("", true, None, None, None)

  function Extended(o: Overlay, i: Input): Overlay {
    Overlay(
      i.canon,
      o.slugless && i.slug == "",
      if Explicit(i) then Some(NormalProviders(i)) else o.providers,
      if i.coreVersion.Some? then i.coreVersion else o.version,
      if i.desktopProjectId.Some? && i.desktopProjectId.value != "" then i.desktopProjectId else o.id)
  }

  function OverlayOf(list: seq<Input>, key: string): Overlay {
    if list == [] then
      NOTHING
    else
      var o, i := OverlayOf(list[..|list| - 1], key), list[|list| - 1];
      if i.key == key then Extended(o, i) else o
  }

  /** An entry nothing but an overlay can still change. */
  predicate Settled(e: Entry, now: string) {
    && e.providers.Some? && e.primaryProvider.Some? && e.createdAt.Some? && e.lastInstallAt.Some?
    && e.source == Some("desktop") && e.updatedAt == Some(now)
  }

  predicate Carries(e: Entry, o: Overlay, home: string) {
    && (o.providers.Some? ==>
          && e.providers == Some(o.providers.value.0)
          && e.primaryProvider == Some(o.providers.value.1))
    && (o.version.Some? ==> e.coreVersion == Pinned(o.version.value))
    && (o.id.Some? ==> e.desktopProjectId == o.id)
    && (!IsComplete(e) ==> o.slugless && e.fields == WorkspaceLayout(home, "", o.canon))
  }

  /** One upsert extends the overlay an entry carries, or starts one. */
  lemma UpsertCarries(existing: Option<Entry>, o: Overlay, i: Input, now: string, home: string)
    requires i.canon != ""
    requires o == NOTHING || (existing.Some? && Settled(existing.value, now) && Carries(existing.value, o, home))
    ensures Settled(BuildMirroredEntry(existing, i, now, false, home), now)
    ensures Carries(BuildMirroredEntry(existing, i, now, false, home), Extended(o, i), home)
  {
    UpsertFreezesIdentity(existing, i, now, false, home);
  }

  lemma {:induction false} ReconciledCarriesOverlay(p: Projects, list: seq<Input>, now: string,
            home: string, key: string)
    requires Canonical(list)
    ensures !Touches(list, key) ==> OverlayOf(list, key) == NOTHING
    ensures Touches(list, key) ==>
              && key in Reconciled(p, list, now, home)
              && Settled(Reconciled(p, list, now, home)[key], now)
              && Carries(Reconciled(p, list, now, home)[key], OverlayOf(list, key), home)
  {
    if list == [] {
    } else {
      var init, i := list[..|list| - 1], list[|list| - 1];
      ReconciledCarriesOverlay(p, init, now, home, key);
      TouchesInit(list, key);
      assert list[|list| - 1].canon != "";
      if i.key == key {
        UpsertCarries(Lookup(Reconciled(p, init, now, home), key), OverlayOf(init, key), i, now, home);
      }
    }
  }

  lemma TouchesInit(list: seq<Input>, key: string)
    requires list != []
    ensures Touches(list, key) <==> Touches(list[..|list| - 1], key) || list[|list| - 1].key == key
  {
    var init := list[..|list| - 1];
    if Touches(init, key) { var k :| 0 <= k < |init| && init[k].key == key; assert list[k].key == key; }
    if Touches(list, key) {
      var k :| 0 <= k < |list| && list[k].key == key;
      if k < |init| { assert init[k].key == key; }
    }
  }

  /** The entry with an overlay laid over all but its path fields. */
  function OverlaidRest(e: Entry, o: Overlay): Entry {
    e.(providers := if o.providers.Some? then Some(o.providers.value.0) else e.providers,
       primaryProvider := if o.providers.Some? then Some(o.providers.value.1) else e.primaryProvider,
       coreVersion := if o.version.Some? then Pinned(o.version.value) else e.coreVersion,
       desktopProjectId := if o.id.Some? then o.id else e.desktopProjectId)
  }

  /** The entry with an overlay laid over it; an overlay nothing contributed to has no path. */
  function Overlaid(e: Entry, o: Overlay, home: string): Entry {
    OverlaidRest(
      if IsComplete(e) || o.canon == "" then e else e.(fields := WorkspaceLayout(home, "", o.canon)), o)
  }

  lemma SluglessLayout(home: string, canon: string, other: string)
    ensures WorkspaceLayout(home, "", canon) + WorkspaceLayout(home, "", other) == WorkspaceLayout(home, "", other)
    ensures !Present(WorkspaceLayout(home, "", canon), Slug)
  {
  }

  /** A missing version and an `undefined` one are refreshed alike. */
  lemma RefreshedFromDisk(x: Entry, y: Entry, i: Input, now: string)
    requires OnDisk(x) == OnDisk(y)
    ensures OnDisk(Refreshed(x, i, now, false)) == OnDisk(Refreshed(y, i, now, false))
  {
    assert x == y || (!x.coreVersion.Pinned? && !y.coreVersion.Pinned? && x == y.(coreVersion := x.coreVersion));
  }

  lemma SettledStep(e: Entry, o: Overlay, i: Input, now: string)
    requires Settled(e, now)
    ensures OnDisk(Refreshed(OverlaidRest(e, o), i, now, false)) == OnDisk(OverlaidRest(e, Extended(o, i)))
  {
  }

  lemma OverlayStepRest(e: Entry, x: Entry, o: Overlay, i: Input, now: string)
    requires Settled(e, now) && OnDisk(x) == OnDisk(OverlaidRest(e, o))
    ensures OnDisk(Refreshed(x, i, now, false)) == OnDisk(OverlaidRest(e, Extended(o, i)))
  {
    RefreshedFromDisk(x, OverlaidRest(e, o), i, now);
    SettledStep(e, o, i, now);
  }

  lemma OverlayStep(e: Entry, x: Entry, o: Overlay, i: Input, c: string, now: string, home: string)
    requires Settled(e, now) && i.canon != "" && OnDisk(x) == OnDisk(Overlaid(e, o, home))
    requires !IsComplete(e) ==> i.slug == "" && e.fields == WorkspaceLayout(home, "", c)
    ensures OnDisk(BuildMirroredEntry(Some(x), i, now, false, home)) == OnDisk(Overlaid(e, Extended(o, i), home))
  {
    if !IsComplete(e) {
      var path := if o.canon == "" then c else o.canon;
      SluglessLayout(home, path, i.canon);
      assert x.fields == WorkspaceLayout(home, "", path);
      assert !Present(x.fields, Slug);
      var layout := WorkspaceLayout(home, "", i.canon);
      OverlayStepRest(e.(fields := layout), x.(fields := layout), o, i, now);
    } else {
      assert x.fields == e.fields;
      assert IsComplete(x);
      OverlayStepRest(e, x, o, i, now);
    }
  }

  lemma {:induction false} ReconcileOverlays(p: Projects, list: seq<Input>, c: string,
            now: string, home: string, key: string)
    requires Canonical(list) && key in p && Settled(p[key], now)
    requires !IsComplete(p[key]) ==> OverlayOf(list, key).slugless && p[key].fields == WorkspaceLayout(home, "", c)
    ensures key in Reconciled(p, list, now, home)
    ensures OnDisk(Reconciled(p, list, now, home)[key]) == OnDisk(Overlaid(p[key], OverlayOf(list, key), home))
  {
    if list == [] {
    } else {
      var init, i := list[..|list| - 1], list[|list| - 1];
      ReconcileOverlays(p, init, c, now, home, key);
      assert list[|list| - 1].canon != "";
      if i.key == key {
        OverlayStep(p[key], Reconciled(p, init, now, home)[key], OverlayOf(init, key), i, c, now, home);
      }
    }
  }

  lemma OverlaidAgain(e: Entry, o: Overlay, home: string)
    requires Carries(e, o, home)
    ensures Overlaid(OnDisk(e), o, home) == OnDisk(e)
  {
    assert IsComplete(OnDisk(e)) <==> IsComplete(e);
  }

  lemma SecondPassKeepsKey(p: Projects, list: seq<Input>, now: string, home: string, key: string)
    requires Canonical(list) && FromDisk(p)
    ensures var once := Saved(Reconciled(p, list, now, home));
            Lookup(Saved(Reconciled(once, list, now, home)), key) == Lookup(once, key)
  {
    var first := Reconciled(p, list, now, home);
    var once := Saved(first);
    if Touches(list, key) {
      ReconciledCarriesOverlay(p, list, now, home, key);
      var o := OverlayOf(list, key);
      assert IsComplete(once[key]) <==> IsComplete(first[key]);
      ReconcileOverlays(once, list, o.canon, now, home, key);
      OverlaidAgain(first[key], o, home);
    } else {
      ReconcileKeeps(p, list, now, home, key);
      ReconcileKeeps(once, list, now, home, key);
    }
  }

  /** Running a reconcile again at the same timestamp leaves the registry as the first run left it. */
  lemma ReconcileIsIdempotent(p: Projects, list: seq<Input>, now: string, home: string)
    requires Canonical(list) && FromDisk(p)
    ensures var op := Reconcile(list, now); Apply(Apply(p, op, home), op, home) == Apply(p, op, home)
  {
    var once := Saved(Reconciled(p, list, now, home));
    forall key ensures Lookup(Saved(Reconciled(once, list, now, home)), key) == Lookup(once, key) {
      SecondPassKeepsKey(p, list, now, home, key);
    }
    SameLookups(once, Saved(Reconciled(once, list, now, home)));
  }

  lemma SameLookups(p: Projects, q: Projects)
    requires forall key :: Lookup(p, key) == Lookup(q, key)
    ensures p == q
  {
    forall key ensures key in p <==> key in q { assert Lookup(p, key) == Lookup(q, key); }
    forall key | key in p ensures p[key] == q[key] { assert Lookup(p, key) == Lookup(q, key); }
  }

  // ------------------------------------------------------------------------------------------------
  // Rolling a mirror back.

  /** Put the previous entry back, provided the entry there is still the expected one. */
  function Restored(p: Projects, key: string, previous: Option<Entry>, expected: Entry): (r: (Projects, bool)) {
    if Lookup(p, key) != Some(expected) then (p, false)
    else if previous.Some? then (p[key := previous.value], true)
    else (p - {key}, true)
  }

  /** What can happen to the registry between a mirror and its rollback; `Replaces` is another program's write. */
  datatype Event =
    | Saves(op: Op)
    | Removes(key: string)
    | Restores(key: string, previous: Option<Entry>, expected: Entry)
    | Replaces(projects: Projects)

  predicate Sound(e: Event) {
    match e
    case Saves(op) => Canonical(Inputs(op))
    case Removes(_) => true
    case Restores(_, previous, _) => previous.Some? ==> !previous.value.coreVersion.Undefined?
    case Replaces(projects) => FromDisk(projects)
  }

  function Happened(p: Projects, e: Event, home: string): Projects {
    match e
    case Saves(op) => Apply(p, op, home)
    case Removes(key) => p - {key}
    case Restores(key, previous, expected) => Restored(p, key, previous, expected).0
    case Replaces(projects) => projects
  }

  function AllHappened(p: Projects, events: seq<Event>, home: string): Projects
    decreases |events|
  {
    if events == [] then p else AllHappened(Happened(p, events[0], home), events[1..], home)
  }

  /** The event leaves `key` alone. */
  predicate Avoids(e: Event, key: string) {
    match e
    case Saves(op) => !Touches(Inputs(op), key)
    case Removes(k) => k != key
    case Restores(k, _, _) => k != key
    case Replaces(_) => false
  }

  /** The entry a mirror leaves, as it remembers it. */
  function MirroredEntry(p: Projects, i: Input, now: string, home: string): Entry {
    BuildMirroredEntry(Lookup(p, i.key), i, now, true, home)
  }

  ghost predicate AgreeOff(p: Projects, q: Projects, key: string) {
    forall k | k != key :: Lookup(p, k) == Lookup(q, k)
  }

  lemma {:induction false} ReconciledAgrees(p: Projects, q: Projects, list: seq<Input>,
            now: string, home: string, key: string)
    requires AgreeOff(p, q, key)
    ensures AgreeOff(Reconciled(p, list, now, home), Reconciled(q, list, now, home), key)
  {
    if list != [] {
      var init, i := list[..|list| - 1], list[|list| - 1];
      ReconciledAgrees(p, q, init, now, home, key);
      forall k | k != key
        ensures Lookup(Reconciled(p, list, now, home), k) == Lookup(Reconciled(q, list, now, home), k)
      {
        assert Lookup(Reconciled(p, init, now, home), k) == Lookup(Reconciled(q, init, now, home), k);
      }
    }
  }

  lemma MirroredAgrees(p: Projects, q: Projects, i: Input, now: string, home: string, key: string)
    requires AgreeOff(p, q, key) && i.key != key
    ensures AgreeOff(Mirrored(p, i, now, home), Mirrored(q, i, now, home), key)
  {
    forall k | k != key ensures Lookup(Mirrored(p, i, now, home), k) == Lookup(Mirrored(q, i, now, home), k) {
      assert Lookup(p, k) == Lookup(q, k) && Lookup(p, i.key) == Lookup(q, i.key);
    }
  }

  lemma SavedAgrees(p: Projects, q: Projects, key: string)
    requires AgreeOff(p, q, key)
    ensures AgreeOff(Saved(p), Saved(q), key)
  {
    forall k | k != key ensures Lookup(Saved(p), k) == Lookup(Saved(q), k) {
      assert Lookup(p, k) == Lookup(q, k);
    }
  }

  lemma HappenedAgrees(p: Projects, q: Projects, e: Event, home: string, key: string)
    requires AgreeOff(p, q, key) && FromDisk(p) && FromDisk(q) && Sound(e) && Avoids(e, key)
    ensures AgreeOff(Happened(p, e, home), Happened(q, e, home), key)
    ensures FromDisk(Happened(p, e, home)) && Lookup(Happened(p, e, home), key) == Lookup(p, key)
  {
    match e
    case Saves(op) =>
      OpKeeps(p, op, home, key);
      match op {
        case Mirror(i, now) =>
          assert i.key != key by { assert Inputs(op)[0] == i; }
          MirroredAgrees(p, q, i, now, home, key);
          SavedAgrees(Mirrored(p, i, now, home), Mirrored(q, i, now, home), key);
        case Reconcile(list, now) =>
          ReconciledAgrees(p, q, list, now, home, key);
          SavedAgrees(Reconciled(p, list, now, home), Reconciled(q, list, now, home), key);
      }
    case Removes(gone) =>
      forall k | k != key ensures Lookup(p - {gone}, k) == Lookup(q - {gone}, k) {
        assert Lookup(p, k) == Lookup(q, k);
      }
    case Restores(k, _, _) =>
      assert Lookup(p, k) == Lookup(q, k);
      forall other | other != key
        ensures Lookup(Happened(p, e, home), other) == Lookup(Happened(q, e, home), other)
      {
        assert Lookup(p, other) == Lookup(q, other);
      }
  }

  lemma {:induction false} AllHappenedAgrees(p: Projects, q: Projects, events: seq<Event>, home: string, key: string)
    requires AgreeOff(p, q, key) && FromDisk(p) && FromDisk(q)
    requires forall e | e in events :: Sound(e) && Avoids(e, key)
    ensures AgreeOff(AllHappened(p, events, home), AllHappened(q, events, home), key)
    ensures Lookup(AllHappened(p, events, home), key) == Lookup(p, key)
    ensures Lookup(AllHappened(q, events, home), key) == Lookup(q, key)
    decreases |events|
  {
    if events != [] {
      HappenedAgrees(p, q, events[0], home, key);
      HappenedAgrees(q, p, events[0], home, key);
      AllHappenedAgrees(Happened(p, events[0], home), Happened(q, events[0], home), events[1..], home, key);
    }
  }

  /**
   * A rollback undoes its mirror and nothing else: after any writes to other keys it leaves the
   * registry as those writes alone would have, exactly when the entry that was mirrored has a core
   * version. Otherwise the entry kept in memory has an `undefined` one, which the registry on disk does
   * not, the strict comparison fails, and nothing is restored.
   */
  lemma RollbackUndoesExactly(p: Projects, i: Input, now: string, home: string, events: seq<Event>)
    requires FromDisk(p) && i.canon != ""
    requires forall e | e in events :: Sound(e) && Avoids(e, i.key)
    ensures var current := AllHappened(Apply(p, Mirror(i, now), home), events, home);
            var pinned := i.coreVersion.Some? || (i.key in p && p[i.key].coreVersion.Pinned?);
            Restored(current, i.key, Lookup(p, i.key), MirroredEntry(p, i, now, home))
              == if pinned then (AllHappened(p, events, home), true) else (current, false)
  {
    var mirrored, entry := Apply(p, Mirror(i, now), home), MirroredEntry(p, i, now, home);
    var current, without := AllHappened(mirrored, events, home), AllHappened(p, events, home);
    SavedFromDisk(p);
    assert mirrored == Saved(p)[i.key := OnDisk(entry)];
    AllHappenedAgrees(mirrored, p, events, home, i.key);
    var restored := Restored(current, i.key, Lookup(p, i.key), entry).0;
    if Lookup(current, i.key) == Some(entry) {
      forall k ensures Lookup(restored, k) == Lookup(without, k) {
        if k == i.key { assert Lookup(without, k) == Lookup(p, k); }
      }
      SameLookups(restored, without);
    }
  }

  /** There is no entry at `key` with the time `now` on it. */
  predicate Superseded(p: Projects, key: string, now: string) {
    Lookup(p, key).Some? ==> p[key].updatedAt != Some(now)
  }

  /** Whatever the event writes at `key` does not carry the time `now`. */
  predicate AtAnotherTime(e: Event, key: string, now: string) {
    match e
    case Saves(op) => Touches(Inputs(op), key) ==> op.now != now
    case Removes(_) => true
    case Restores(k, previous, _) => k == key && previous.Some? ==> previous.value.updatedAt != Some(now)
    case Replaces(projects) => Superseded(projects, key, now)
  }

  /** The event writes or removes the entry at `key`, whatever is there. */
  predicate Overwrites(e: Event, key: string) {
    match e
    case Saves(op) => Touches(Inputs(op), key)
    case Removes(k) => k == key
    case Restores(_, _, _) => false
    case Replaces(_) => true
  }

  lemma OpStamps(p: Projects, op: Op, home: string, key: string)
    requires Canonical(Inputs(op)) && Touches(Inputs(op), key)
    ensures key in Apply(p, op, home) && Apply(p, op, home)[key].updatedAt == Some(op.now)
  {
    match op
    case Mirror(i, at) =>
      var k :| 0 <= k < 1 && Inputs(op)[k].key == key;
    case Reconcile(list, at) =>
      ReconciledCarriesOverlay(p, list, at, home, key);
  }

  lemma EventSupersedes(p: Projects, e: Event, home: string, key: string, now: string)
    requires FromDisk(p) && Sound(e) && AtAnotherTime(e, key, now)
    ensures FromDisk(Happened(p, e, home))
    ensures Superseded(p, key, now) || Overwrites(e, key) ==> Superseded(Happened(p, e, home), key, now)
  {
    if e.Saves? {
      OpKeeps(p, e.op, home, key);
      if Touches(Inputs(e.op), key) { OpStamps(p, e.op, home, key); }
    }
  }

  lemma {:induction false} EventsSupersede(p: Projects, events: seq<Event>, home: string, key: string, now: string)
    requires FromDisk(p) && forall e | e in events :: Sound(e) && AtAnotherTime(e, key, now)
    requires Superseded(p, key, now) || exists e | e in events :: Overwrites(e, key)
    ensures Superseded(AllHappened(p, events, home), key, now)
    decreases |events|
  {
    if events != [] {
      EventSupersedes(p, events[0], home, key, now);
      assert events == [events[0]] + events[1..];
      EventsSupersede(Happened(p, events[0], home), events[1..], home, key, now);
    }
  }

  /**
   * If anything wrote or removed the repository's entry between a mirror and its rollback, at another
   * time, the rollback changes nothing, whatever else happened before or after that write.
   */
  lemma InterveningWriteWins(p: Projects, i: Input, now: string, home: string, events: seq<Event>)
    requires FromDisk(p) && i.canon != ""
    requires forall e | e in events :: Sound(e) && AtAnotherTime(e, i.key, now)
    requires exists e | e in events :: Overwrites(e, i.key)
    ensures var current := AllHappened(Apply(p, Mirror(i, now), home), events, home);
            Restored(current, i.key, Lookup(p, i.key), MirroredEntry(p, i, now, home)) == (current, false)
  {
    assert Inputs(Mirror(i, now))[0] == i;
    OpKeeps(p, Mirror(i, now), home, i.key);
    EventsSupersede(Apply(p, Mirror(i, now), home), events, home, i.key, now);
  }

  // ------------------------------------------------------------------------------------------------
  // Resolution.

  datatype Resolved = Resolved(isLegacy: bool, repoPath: string, workspaceDir: string, specrailsDir: string,
                               ticketsPath: string, backlogConfigPath: string, profilesDir: string,
                               pluginsStateDir: string, fileSummariesDir: string, stateDir: string)

  function Required(e: Entry, f: Field): string
    requires IsComplete(e)
  {
    assert Present(e.fields, f);
    e.fields[f]
  }

  function ResolveArtifacts(p: Projects, key: string, canon: string): Resolved {
    if key !in p || !IsComplete(p[key]) then
      var dir := Join(canon, ".specrails");
      Resolved(true, canon, canon, dir, Join(dir, "local-tickets.json"), Join(dir, "backlog-config.json"),
               Join(dir, "profiles"), Join(dir, "plugins"), Join(dir, "file-summaries"), Join(canon, ".claude"))
    else
      var e := p[key];
      Resolved(false, Required(e, CodeRoot), Required(e, WorkspaceDir), Join(Required(e, WorkspaceDir), ".specrails"),
               Required(e, TicketsPath), Required(e, BacklogConfigPath), Required(e, ProfilesDir),
               Required(e, PluginsStateDir), Required(e, FileSummariesDir), Required(e, StateDir))
  }

  /**
   * A repository resolves to its relocated artifacts exactly when it has a complete entry, and from
   * then on every sequence of mirrors and reconciles resolves it to the same places.
   */
  lemma ResolutionIsStable(p: Projects, ops: seq<Op>, home: string, key: string, canon: string)
    requires Legal(ops) && FromDisk(p)
    ensures !ResolveArtifacts(p, key, canon).isLegacy <==> key in p && IsComplete(p[key])
    ensures !ResolveArtifacts(p, key, canon).isLegacy ==>
              ResolveArtifacts(After(p, ops, home), key, canon) == ResolveArtifacts(p, key, canon)
  {
    IdentityIsFrozen(p, ops, home, key);
  }

  /** What an entry filed under a slug of its home directory resolves to: each kind of state to its own place. */
  ghost predicate ResolvesUnder(r: Resolved, home: string, slug: string, canon: string) {
    var workspace := home + "/" + ".specrails/projects" + "/" + slug + "/" + "workspace";
    var specrails := workspace + "/" + ".specrails";
    && !r.isLegacy && r.repoPath == canon && r.workspaceDir == workspace && r.specrailsDir == specrails
    && r.stateDir == workspace + "/" + ".claude"
    && r.ticketsPath == specrails + "/" + "local-tickets.json"
    && r.backlogConfigPath == specrails + "/" + "backlog-config.json"
    && r.profilesDir == specrails + "/" + "profiles"
    && r.pluginsStateDir == specrails + "/" + "plugins"
    && r.fileSummariesDir == specrails + "/" + "file-summaries"
  }

  lemma LayoutResolves(p: Projects, key: string, home: string, slug: string, canon: string)
    requires key in p && IsComplete(p[key]) && p[key].fields == WorkspaceLayout(home, slug, canon)
    ensures ResolvesUnder(ResolveArtifacts(p, key, canon), home, slug, canon)
    ensures p[key].fields[Slug] == slug && p[key].fields[RepoPath] == canon
    ensures p[key].fields[ArtifactRoot] == home + "/" + ".specrails/projects" + "/" + slug + "/" + "workspace"
  {
  }

  lemma FreshlyMirrored(p: Projects, i: Input, now: string, home: string)
    requires FromDisk(p) && i.key !in p && i.canon != "" && i.slug != ""
    ensures var next := Apply(p, Mirror(i, now), home);
            && FromDisk(next) && i.key in next && IsComplete(next[i.key])
            && next[i.key].fields == WorkspaceLayout(home, i.slug, i.canon)
  {
    assert Inputs(Mirror(i, now))[0] == i;
    OpKeeps(p, Mirror(i, now), home, i.key);
    UpsertFreezesIdentity(None, i, now, true, home);
  }

  /**
   * A freshly registered repository resolves, whatever happens afterwards, to the workspace that the home
   * directory and its slug determine.
   */
  lemma RegisteredResolvesUnderItsSlug(p: Projects, i: Input, now: string, ops: seq<Op>, home: string)
    requires FromDisk(p) && Legal(ops) && i.key !in p && i.canon != "" && i.slug != ""
    ensures ResolvesUnder(ResolveArtifacts(After(Apply(p, Mirror(i, now), home), ops, home), i.key, i.canon),
                          home, i.slug, i.canon)
  {
    var next := Apply(p, Mirror(i, now), home);
    FreshlyMirrored(p, i, now, home);
    LayoutResolves(next, i.key, home, i.slug, i.canon);
    ResolutionIsStable(next, ops, home, i.key, i.canon);
  }

  /** A repository without a complete entry resolves into itself, as before there was a registry. */
  lemma UnregisteredResolvesInTheRepository(p: Projects, key: string, canon: string)
    requires key !in p || !IsComplete(p[key])
    ensures var (r, specrails) := (ResolveArtifacts(p, key, canon), canon + "/" + ".specrails");
            && r.isLegacy && r.repoPath == r.workspaceDir == canon && r.specrailsDir == specrails
            && r.stateDir == canon + "/" + ".claude"
            && r.ticketsPath == specrails + "/" + "local-tickets.json"
            && r.backlogConfigPath == specrails + "/" + "backlog-config.json"
            && r.profilesDir == specrails + "/" + "profiles"
            && r.pluginsStateDir == specrails + "/" + "plugins"
            && r.fileSummariesDir == specrails + "/" + "file-summaries"
  {
  }

  // ------------------------------------------------------------------------------------------------
  // The registry file and its writers.

  /** The parsed file; a missing, unreadable or malformed one is `None` where it is used. */
  datatype RegistryFile = RegistryFile(schemaVersion: int, generator: Option<string>, updatedAt: Option<string>,
                                       projects: Projects)

  function ReadRegistryOrEmpty(disk: Option<RegistryFile>): RegistryFile {
    if disk.None? || disk.value.schemaVersion > REGISTRY_SCHEMA_VERSION then
      RegistryFile(REGISTRY_SCHEMA_VERSION, None, None, map[])
    else
      disk.value
  }

  class Registry {
    const home: string
    var disk: Option<RegistryFile>

    constructor (home: string, disk: Option<RegistryFile>)
      ensures this.home == home && this.disk == disk
    {
      this.home, this.disk := home, disk;
    }

    /** The project entries a reader of the file sees. */
    function Contents(): Projects
      reads `disk
    {
      ReadRegistryOrEmpty(disk).projects
    }

    /** What was read came through the parser. */
    predicate Valid()
      reads `disk
    {
      FromDisk(Contents())
    }

    /** Stamp the registry and replace the file in one step. */
    method Write(projects: Projects, now: string)
      modifies `disk
      ensures disk == Some(RegistryFile(REGISTRY_SCHEMA_VERSION, Some("specrails-desktop"), Some(now), Saved(projects)))
      ensures Valid() && Contents() == Saved(projects)
    {
      disk := Some(RegistryFile(REGISTRY_SCHEMA_VERSION, Some("specrails-desktop"), Some(now), Saved(projects)));
    }

    method MirrorProjectEntryWithPrevious(i: Input, now: string) returns (entry: Entry, previous: Option<Entry>)
      requires Valid()
      modifies `disk
      ensures Valid() && Contents() == Apply(old(Contents()), Mirror(i, now), home)
      // A file of a later schema counts as an empty one.
      ensures previous ==
                if old(disk).Some? && old(disk).value.schemaVersion <= 1 && i.key in old(disk).value.projects
                then Some(old(disk).value.projects[i.key]) else None
      ensures entry == MirroredEntry(old(Contents()), i, now, home)
      // Refreshed or fresh, the entry is what the input gives and otherwise what it was; no other entry changes.
      ensures UpsertedBy(Upsert(i, now, true), previous, entry)
      ensures previous.Some? && IsComplete(previous.value) ==> entry.fields == previous.value.fields
      ensures i.key in Contents() && Contents()[i.key] == OnDisk(entry)
      ensures forall k | k != i.key :: Lookup(Contents(), k) == Lookup(old(Contents()), k)
    {
      var projects := Contents();
      previous := Lookup(projects, i.key);
      BuiltIsExact(previous, Upsert(i, now, true), home);
      entry := BuildMirroredEntry(previous, i, now, true, home);
      Write(projects[i.key := entry], now);
    }

    method RemoveRegistryEntry(key: string, now: string)
      requires Valid()
      modifies `disk
      ensures Valid() && Contents() == old(Contents()) - {key}
      ensures key !in old(Contents()) ==> disk == old(disk)
    {
      var projects := Contents();
      if key !in projects {
        return;
      }
      SavedFromDisk(projects - {key});
      Write(projects - {key}, now);
    }

    method RestoreRegistryEntry(key: string, previous: Option<Entry>, expected: Entry, now: string)
      returns (restored: bool)
      requires Valid() && (previous.Some? ==> !previous.value.coreVersion.Undefined?)
      modifies `disk
      ensures Valid() && (Contents(), restored) == Restored(old(Contents()), key, previous, expected)
      ensures restored <==> key in old(Contents()) && old(Contents())[key] == expected
      ensures restored ==> Lookup(Contents(), key) == previous
      ensures restored ==> forall k | k != key :: Lookup(Contents(), k) == Lookup(old(Contents()), k)
      ensures !restored ==> disk == old(disk)
    {
      var projects := Contents();
      if Lookup(projects, key) != Some(expected) {
        return false;
      }
      SavedFromDisk(Restored(projects, key, previous, expected).0);
      if previous.Some? {
        projects := projects[key := previous.value];
      } else {
        projects := projects - {key};
      }
      Write(projects, now);
      restored := true;
    }

    method ReconcileFromProjects(list: seq<Input>, now: string)
      requires Valid()
      modifies `disk
      ensures Valid() && Contents() == Apply(old(Contents()), Reconcile(list, now), home)
      ensures list == [] ==> disk == old(disk)
    {
      if list == [] {
        return;
      }
      var projects := Contents();
      var k := 0;
      while k < |list|
        invariant k <= |list|
        invariant projects == Reconciled(old(Contents()), list[..k], now, home)
      {
        var i := list[k];
        projects := projects[i.key := BuildMirroredEntry(Lookup(projects, i.key), i, now, false, home)];
        NextReconciled(old(Contents()), list, k, now, home);
        k := k + 1;
      }
      assert list[..k] == list;
      Write(projects, now);
    }
  }
}
