/**
 * Converting a workspace's copied framework subtrees into links to `framework/current`: compare, back
 * up, re-link through the Core, verify, then clean up or revert.
 *
 * Hashes are taken as contents. A failed operation throws: a rename then changes nothing, while a
 * failed recursive removal may leave anything behind. The Core's assemble writes to the workspace's
 * live subtrees and its memory, never to `framework/current`. A ghost log records every state that a file
 * operation leaves, and those within a removal or an assemble: the states a crash can leave.
 */
module FrameworkMigration {
  import opened Wrappers

  type Content = string
  type Rel = seq<string>

  /** A node: a real directory with its regular files, a link, or something else. */
  datatype Node =
    | Dir(files: map<Rel, Content>)
    | Link(intoFramework: bool, dangling: bool)
    | Other

  /** The places of one provider directory; `Memory` is its `agent-memory`. */
  datatype Slot = Live(sub: string) | Bak(sub: string) | Preserved(sub: string) | Memory

  type Files = map<Slot, Node>

  datatype Outcome = AlreadySymlinked | NotACopy | SkippedDivergence | Reverted | Migrated

  /** What the re-link leaves in the live subtrees, whether it seeds a memory, and how it ends. */
  datatype Assembly = Assembly(made: map<string, Option<Node>>, memory: Option<Node>, assembled: bool)

  function SharedSubtreesFor(provider: string): (subs: seq<string>)
    ensures Distinct(subs)
  {
    if provider == "kimi" then ["rules"] else ["commands", "agents", "skills", "rules"]
  }

  predicate Distinct(subs: seq<string>) {
    forall i, j :: 0 <= i < j < |subs| ==> subs[i] != subs[j]
  }

  function At(fs: Files, p: Slot): Option<Node> {
    if p in fs then Some(fs[p]) else None
  }

  predicate IsRealDir(fs: Files, p: Slot) {
    At(fs, p).Some? && At(fs, p).value.Dir?
  }

  predicate IsSymlink(fs: Files, p: Slot) {
    At(fs, p).Some? && At(fs, p).value.Link?
  }

  /** Following links: a dangling one is not there. */
  predicate Exists(fs: Files, p: Slot) {
    At(fs, p).Some? && !(At(fs, p).value.Link? && At(fs, p).value.dangling)
  }

  predicate LinkResolvesIntoFramework(fs: Files, p: Slot) {
    IsSymlink(fs, p) && At(fs, p).value.intoFramework
  }

  predicate IsCustomAgent(rel: Rel) {
    rel != [] && "custom-" <= rel[|rel| - 1]
  }

  predicate InMemory(rel: Rel) {
    |rel| > 1 && rel[0] == "agent-memory"
  }

  predicate HoldsMemory(files: map<Rel, Content>) {
    exists rel :: rel in files && InMemory(rel)
  }

  predicate HoldsCustom(files: map<Rel, Content>) {
    exists rel :: rel in files && IsCustomAgent(rel)
  }

  function MemoryOf(files: map<Rel, Content>): map<Rel, Content> {
    map m | m in (set rel | rel in files && InMemory(rel) :: rel[1..]) && ["agent-memory"] + m in files ::
      files[["agent-memory"] + m]
  }

  function WithoutMemory(files: map<Rel, Content>): map<Rel, Content> {
    map rel | rel in files && !InMemory(rel) :: files[rel]
  }

  type Framework = map<string, map<Rel, Content>>

  predicate SameInFramework(framework: Framework, sub: string, rel: Rel, content: Content) {
    sub in framework && rel in framework[sub] && framework[sub][rel] == content
  }

  /** A file of a copied subtree that the divergence guard lets through. */
  predicate Agrees(framework: Framework, sub: string, rel: Rel, content: Content) {
    (sub == "agents" && IsCustomAgent(rel)) || SameInFramework(framework, sub, rel, content)
  }

  /** A subtree that whole-directory links replace: a kimi workspace merges its skills, so there the rules alone. */
  ghost predicate Shared(provider: string, sub: string) {
    sub == "rules" || (provider != "kimi" && (sub == "commands" || sub == "agents" || sub == "skills"))
  }

  /** The user's: a file, other than a custom agent, that is not in the framework with the same content. */
  ghost predicate Diverges(framework: Framework, fs: Files, sub: string) {
    IsRealDir(fs, Live(sub)) &&
    exists rel :: rel in At(fs, Live(sub)).value.files
      && !(sub == "agents" && rel != [] && "custom-" <= rel[|rel| - 1])
      && !(sub in framework && rel in framework[sub]
           && framework[sub][rel] == At(fs, Live(sub)).value.files[rel])
  }

  /** Some file is a custom agent by its name. */
  ghost predicate HasCustomName(files: map<Rel, Content>) {
    exists rel :: rel in files && |rel| > 0 && "custom-" <= rel[|rel| - 1]
  }

  predicate SubtreeAgrees(framework: Framework, fs: Files, sub: string) {
    IsRealDir(fs, Live(sub)) ==>
      forall rel :: rel in At(fs, Live(sub)).value.files ==>
        Agrees(framework, sub, rel, At(fs, Live(sub)).value.files[rel])
  }

  /** What a copied subtree held is not lost: it is somewhere in whole, or every file is in the framework. */
  predicate Survives(framework: Framework, fs: Files, sub: string, node: Node) {
    || At(fs, Live(sub)) == Some(node) || At(fs, Bak(sub)) == Some(node) || At(fs, Preserved(sub)) == Some(node)
    || (node.Dir? && forall rel :: rel in node.files ==> SameInFramework(framework, sub, rel, node.files[rel]))
  }

  /** Only the live and backup places of `subs` may differ. */
  ghost predicate OnlyAt(a: Files, b: Files, subs: seq<string>) {
    && At(a, Memory) == At(b, Memory)
    && (forall sub :: At(a, Preserved(sub)) == At(b, Preserved(sub)))
    && (forall sub :: sub !in subs ==> At(a, Live(sub)) == At(b, Live(sub)))
    && (forall sub :: sub !in subs ==> At(a, Bak(sub)) == At(b, Bak(sub)))
  }

  lemma OnlyAtStays(a: Files, b: Files, c: Files, subs: seq<string>, sub: string)
    requires OnlyAt(a, b, subs) && sub in subs
    requires forall q :: q != Live(sub) && q != Bak(sub) ==> At(c, q) == At(b, q)
    ensures OnlyAt(a, c, subs)
  {
  }

  /** The live subtrees and the memory as an assemble makes them, the rest as it was. */
  function Assembled(fs: Files, a: Assembly): (r: Files)
    ensures forall sub :: At(r, Live(sub)) == if sub in a.made then a.made[sub] else At(fs, Live(sub))
    ensures forall sub :: At(r, Bak(sub)) == At(fs, Bak(sub)) && At(r, Preserved(sub)) == At(fs, Preserved(sub))
    ensures At(r, Memory) == if a.memory.Some? then a.memory else At(fs, Memory)
  {
    var made := map sub | sub in a.made && a.made[sub].Some? :: Live(sub) := a.made[sub].value;
    var kept := map p | p in fs && !(p.Live? && p.sub in a.made) :: fs[p];
    kept + made + if a.memory.Some? then map[Memory := a.memory.value] else map[]
  }

  predicate AllDirs(fs: Files, subs: seq<string>) {
    forall k :: 0 <= k < |subs| ==> IsRealDir(fs, Bak(subs[k]))
  }

  /** The backup is live again. */
  predicate Back(before: Files, after: Files, sub: string) {
    At(after, Live(sub)) == At(before, Bak(sub)) && At(after, Bak(sub)).None?
  }

  /** The first `i` backups are live again, or, if one failed, still backups; nothing else has changed. */
  ghost predicate RestoredUpTo(before: Files, fs: Files, subs: seq<string>, i: nat, ok: bool)
    requires i <= |subs|
  {
    && OnlyAt(before, fs, subs)
    && (forall k :: 0 <= k < i ==>
          Back(before, fs, subs[k]) || (!ok && At(fs, Bak(subs[k])) == At(before, Bak(subs[k]))))
    && forall k :: i <= k < |subs| ==> At(fs, Bak(subs[k])) == At(before, Bak(subs[k]))
  }

  lemma OneMoreRestored(before: Files, mid: Files, after: Files, subs: seq<string>, i: nat, ok: bool, restored: bool)
    requires i < |subs| && Distinct(subs) && RestoredUpTo(before, mid, subs, i, ok)
    requires forall q :: q != Live(subs[i]) && q != Bak(subs[i]) ==> At(after, q) == At(mid, q)
    requires if restored then Back(mid, after, subs[i]) else At(after, Bak(subs[i])) == At(mid, Bak(subs[i]))
    ensures RestoredUpTo(before, after, subs, i + 1, ok && restored)
  {
    assert forall k :: 0 <= k < |subs| && k != i ==> subs[k] != subs[i];
    OnlyAtStays(before, mid, after, subs, subs[i]);
  }

  /** Nothing is backed up or preserved of a subtree that was no copy, so what stood there still does. */
  ghost predicate OthersKept(before: Files, after: Files, subs: seq<string>) {
    && (forall sub :: sub !in subs || !IsRealDir(before, Live(sub)) ==> At(after, Bak(sub)) == At(before, Bak(sub)))
    && (forall sub :: sub !in subs || !IsRealDir(before, Live(sub)) ==>
          At(after, Preserved(sub)) == At(before, Preserved(sub)))
  }

  /**
   * Which earlier backups still stand: all unless a conversion `ran`, and then those of subtrees that
   * were no copies, or where there was none.
   */
  ghost predicate BackupsStandExactly(before: Files, after: Files, subs: seq<string>, ran: bool) {
    forall sub ::
      At(after, Bak(sub)) == At(before, Bak(sub)) <==>
        !ran || sub !in subs || !IsRealDir(before, Live(sub)) || At(before, Bak(sub)).None?
  }

  /**
   * Which earlier preserved directories still stand: all unless the conversion `migrated`, and then
   * those of subtrees that were no copies or held no custom agents, or that held just the same.
   */
  ghost predicate PreservedStandExactly(before: Files, after: Files, subs: seq<string>, migrated: bool) {
    forall sub :: sub !in subs || !IsRealDir(before, Live(sub)) || IsPlainCopy(before, sub) ==>
      (At(after, Preserved(sub)) == At(before, Preserved(sub)) <==>
         !migrated || sub !in subs || !IsRealDir(before, Live(sub))
         || !HoldsCustom(At(before, Live(sub)).value.files) || At(before, Preserved(sub)) == At(before, Live(sub)))
  }

  /** Of the subtrees `done`, exactly the real directories have been renamed to their backups. */
  ghost predicate Aside(before: Files, fs: Files, backedUp: seq<string>, done: seq<string>) {
    && Distinct(backedUp)
    && (forall sub :: sub in backedUp ==> sub in done && IsRealDir(before, Live(sub)))
    && (forall sub :: sub in backedUp ==> At(fs, Bak(sub)) == At(before, Live(sub)) && At(fs, Live(sub)).None?)
    && (forall sub :: sub !in backedUp ==> At(fs, Live(sub)) == At(before, Live(sub)))
  }

  lemma OneMoreAside(before: Files, mid: Files, after: Files, backedUp: seq<string>, done: seq<string>, sub: string)
    requires Aside(before, mid, backedUp, done) && sub !in done && IsRealDir(mid, Live(sub))
    requires At(after, Bak(sub)) == At(mid, Live(sub)) && At(after, Live(sub)).None?
    requires forall q :: q != Live(sub) && q != Bak(sub) ==> At(after, q) == At(mid, q)
    ensures Aside(before, after, backedUp + [sub], done + [sub])
  {
  }

  lemma StillAside(before: Files, mid: Files, after: Files, backedUp: seq<string>, done: seq<string>,
                   subs: seq<string>, sub: string)
    requires Aside(before, mid, backedUp, done) && done <= subs && sub !in done
    requires At(after, Live(sub)) == At(mid, Live(sub))
    requires forall q :: q != Live(sub) && q != Bak(sub) ==> At(after, q) == At(mid, q)
    ensures Aside(before, after, backedUp, subs)
  {
  }

  /** The first `i` of `subs` have been backed up where they are real directories, and nothing else has changed. */
  ghost predicate BackedUpTo(before: Files, fs: Files, backedUp: seq<string>, subs: seq<string>, i: nat)
    requires i <= |subs|
  {
    && Aside(before, fs, backedUp, subs[..i]) && OnlyAt(before, fs, subs)
    && (forall k :: i <= k < |subs| ==> At(fs, Bak(subs[k])) == At(before, Bak(subs[k])))
    && (forall k :: 0 <= k < i && IsRealDir(before, Live(subs[k])) ==> subs[k] in backedUp)
    && forall sub :: !IsRealDir(before, Live(sub)) ==> At(fs, Bak(sub)) == At(before, Bak(sub))
  }

  lemma SubIsNext(before: Files, fs: Files, backedUp: seq<string>, subs: seq<string>, i: nat)
    requires i < |subs| && Distinct(subs) && BackedUpTo(before, fs, backedUp, subs, i)
    ensures subs[i] !in subs[..i] && subs[i] !in backedUp && subs[i] in subs
    ensures At(fs, Live(subs[i])) == At(before, Live(subs[i])) && At(fs, Bak(subs[i])) == At(before, Bak(subs[i]))
  {
  }

  lemma OneMoreBackedUp(before: Files, mid: Files, after: Files, backedUp: seq<string>, subs: seq<string>, i: nat)
    requires i < |subs| && Distinct(subs) && BackedUpTo(before, mid, backedUp, subs, i)
    requires IsRealDir(mid, Live(subs[i])) && OnlyAt(before, after, subs)
    requires At(after, Bak(subs[i])) == At(mid, Live(subs[i])) && At(after, Live(subs[i])).None?
    requires forall q :: q != Live(subs[i]) && q != Bak(subs[i]) ==> At(after, q) == At(mid, q)
    ensures BackedUpTo(before, after, backedUp + [subs[i]], subs, i + 1)
  {
    SubIsNext(before, mid, backedUp, subs, i);
    OneMoreAside(before, mid, after, backedUp, subs[..i], subs[i]);
    assert subs[..i + 1] == subs[..i] + [subs[i]];
    assert forall k :: i < k < |subs| ==> subs[k] != subs[i];
  }

  lemma OneMoreSkipped(before: Files, fs: Files, backedUp: seq<string>, subs: seq<string>, i: nat)
    requires i < |subs| && Distinct(subs) && BackedUpTo(before, fs, backedUp, subs, i) && !IsRealDir(fs, Live(subs[i]))
    ensures BackedUpTo(before, fs, backedUp, subs, i + 1)
  {
    SubIsNext(before, fs, backedUp, subs, i);
    assert subs[..i + 1] == subs[..i] + [subs[i]];
  }

  /** The memory inside a backup is live now, file by file. */
  ghost predicate MemoryMoved(before: Files, after: Files, sub: string) {
    && IsRealDir(before, Bak(sub))
    && At(after, Memory) == Some(Dir(MemoryOf(At(before, Bak(sub)).value.files)))
    && At(after, Bak(sub)) == Some(Dir(WithoutMemory(At(before, Bak(sub)).value.files)))
  }

  /** Memories may have gone from backups to the live place, if there was none there. */
  ghost predicate MemoryPreserved(before: Files, fs: Files, backedUp: seq<string>) {
    && (forall sub :: At(fs, Live(sub)) == At(before, Live(sub)))
    && (forall sub :: At(fs, Preserved(sub)) == At(before, Preserved(sub)))
    && (forall sub :: IsRealDir(before, Bak(sub)) && !HoldsMemory(At(before, Bak(sub)).value.files) ==>
          At(fs, Bak(sub)) == At(before, Bak(sub)))
    && (forall sub :: sub !in backedUp ==> At(fs, Bak(sub)) == At(before, Bak(sub)))
    && (At(before, Memory).Some? ==> fs == before)
  }

  lemma OneMorePreserved(before: Files, mid: Files, after: Files, backedUp: seq<string>, sub: string)
    requires MemoryPreserved(before, mid, backedUp) && AllDirs(mid, backedUp) && sub in backedUp
    requires IsRealDir(mid, Bak(sub)) && IsRealDir(after, Bak(sub))
    requires forall q :: q != Bak(sub) && q != Memory ==> At(after, q) == At(mid, q)
    requires At(mid, Memory).Some? || !HoldsMemory(At(mid, Bak(sub)).value.files) ==> after == mid
    ensures MemoryPreserved(before, after, backedUp) && AllDirs(after, backedUp)
  {
    forall k | 0 <= k < |backedUp| ensures IsRealDir(after, Bak(backedUp[k])) {
      assert backedUp[k] != sub ==> At(after, Bak(backedUp[k])) == At(mid, Bak(backedUp[k]));
    }
  }

  /** A copied subtree, with no memory inside it. */
  predicate IsPlainCopy(fs: Files, sub: string) {
    IsRealDir(fs, Live(sub)) && !HoldsMemory(At(fs, Live(sub)).value.files)
  }

  predicate NotDangling(fs: Files, p: Slot) {
    At(fs, p).None? || Exists(fs, p)
  }

  /** Neither the backup of `sub` nor its preserved directory has changed. */
  predicate Untouched(before: Files, after: Files, sub: string) {
    At(after, Bak(sub)) == At(before, Bak(sub)) && At(after, Preserved(sub)) == At(before, Preserved(sub))
  }

  /** No dangling link is in the way of a backup or of a preserved one. */
  predicate NoneDangling(fs: Files, subs: seq<string>) {
    forall k :: 0 <= k < |subs| ==> NotDangling(fs, Bak(subs[k])) && NotDangling(fs, Preserved(subs[k]))
  }

  /** The re-link replaces every copied subtree by a link into the framework. */
  predicate Relinks(a: Assembly, fs: Files, subs: seq<string>) {
    forall k :: 0 <= k < |subs| && IsRealDir(fs, Live(subs[k])) ==>
      && subs[k] in a.made && a.made[subs[k]].Some?
      && a.made[subs[k]].value.Link? && a.made[subs[k]].value.intoFramework
  }

  lemma StillNoneDangling(before: Files, fs: Files, subs: seq<string>, backedUp: seq<string>)
    requires NoneDangling(before, subs) && AllDirs(fs, backedUp)
    requires forall sub :: sub in backedUp ==> sub in subs
    requires forall sub :: At(fs, Preserved(sub)) == At(before, Preserved(sub))
    ensures NoneDangling(fs, backedUp)
  {
    forall k | 0 <= k < |backedUp|
      ensures NotDangling(fs, Bak(backedUp[k])) && NotDangling(fs, Preserved(backedUp[k]))
    {
      assert backedUp[k] in subs;
      var j :| 0 <= j < |subs| && subs[j] == backedUp[k];
      assert IsRealDir(fs, Bak(backedUp[k]));
    }
  }

  /** No backup of a copied subtree is left; one that holds custom agents goes under its preserved name. */
  predicate BackupsGone(before: Files, after: Files, subs: seq<string>) {
    forall k :: 0 <= k < |subs| && IsRealDir(before, Live(subs[k])) ==> At(after, Bak(subs[k])).None?
  }

  lemma BackupsAreGone(before: Files, after: Files, subs: seq<string>, backedUp: seq<string>)
    requires forall k :: 0 <= k < |subs| && IsRealDir(before, Live(subs[k])) ==> subs[k] in backedUp
    requires forall k :: 0 <= k < |backedUp| ==> At(after, Bak(backedUp[k])).None?
    ensures BackupsGone(before, after, subs)
  {
  }

  /** After a conversion no backup of a copy is left, its own or an earlier one. */
  lemma GoneStandExactly(before: Files, after: Files, subs: seq<string>)
    requires BackupsGone(before, after, subs) && OthersKept(before, after, subs)
    ensures BackupsStandExactly(before, after, subs, true)
  {
    forall sub | sub in subs && IsRealDir(before, Live(sub)) ensures At(after, Bak(sub)).None? {
      var k :| 0 <= k < |subs| && subs[k] == sub;
    }
  }

  /** Every copied subtree is a directory in its place again, and a plain one is what it was. */
  ghost predicate CopiesBack(before: Files, after: Files, subs: seq<string>) {
    && (forall sub :: sub in subs && IsRealDir(before, Live(sub)) ==> IsRealDir(after, Live(sub)))
    && (forall sub :: sub in subs && IsPlainCopy(before, sub) ==> At(after, Live(sub)) == At(before, Live(sub)))
  }

  /** The re-link leaves a link into the framework where there was no copy. */
  predicate LinkWithoutCopy(a: Assembly, fs: Files, sub: string) {
    !IsRealDir(fs, Live(sub)) && sub in a.made && a.made[sub].Some?
    && a.made[sub].value.Link? && a.made[sub].value.intoFramework
  }

  predicate LinksWithoutCopy(a: Assembly, fs: Files, subs: seq<string>) {
    exists k :: 0 <= k < |subs| && LinkWithoutCopy(a, fs, subs[k])
  }

  predicate AnyLinked(fs: Files, subs: seq<string>) {
    exists k :: 0 <= k < |subs| && LinkResolvesIntoFramework(fs, Live(subs[k]))
  }

  predicate AnyCopied(fs: Files, subs: seq<string>) {
    exists k :: 0 <= k < |subs| && IsRealDir(fs, Live(subs[k]))
  }

  /** Every copied subtree agrees with the framework. */
  predicate AllAgree(framework: Framework, fs: Files, subs: seq<string>) {
    forall k :: 0 <= k < |subs| ==> SubtreeAgrees(framework, fs, subs[k])
  }

  // ---- The shared subtrees of a provider ----

  /** No dangling link is where a backup or a preserved directory may go. */
  ghost predicate Clear(fs: Files, provider: string) {
    forall sub :: Shared(provider, sub) ==> NotDangling(fs, Bak(sub)) && NotDangling(fs, Preserved(sub))
  }

  /** What was preserved still stands, but for copies with other custom agents, which are preserved instead. */
  ghost predicate CustomsPreserved(before: Files, after: Files, provider: string) {
    forall sub :: Shared(provider, sub) && IsPlainCopy(before, sub) ==>
      (At(after, Preserved(sub)) == At(before, Preserved(sub)) <==>
         !HasCustomName(At(before, Live(sub)).value.files) || At(before, Preserved(sub)) == At(before, Live(sub)))
  }

  /** A link among the shared subtrees means that it is done; neither link nor copy, that there is nothing to do. */
  ghost predicate Recognizes(before: Files, provider: string, outcome: Outcome) {
    && (outcome == AlreadySymlinked <==>
          exists sub :: Shared(provider, sub) && LinkResolvesIntoFramework(before, Live(sub)))
    && (outcome == NotACopy <==>
          forall sub :: Shared(provider, sub) ==>
            !LinkResolvesIntoFramework(before, Live(sub)) && !IsRealDir(before, Live(sub)))
  }

  /** A conversion goes through when nothing diverges and the re-link makes a link of every copy. */
  ghost predicate Decides(framework: Framework, before: Files, provider: string, a: Assembly, outcome: Outcome) {
    && (outcome == SkippedDivergence <==> exists sub :: Shared(provider, sub) && Diverges(framework, before, sub))
    && (outcome == Migrated <==>
          && (forall sub :: Shared(provider, sub) ==> !Diverges(framework, before, sub))
          && a.assembled && forall sub :: Shared(provider, sub) && IsRealDir(before, Live(sub)) ==>
               && sub in a.made && a.made[sub].Some?
               && a.made[sub].value.Link? && a.made[sub].value.intoFramework)
  }

  ghost predicate Converts(framework: Framework, before: Files, after: Files, provider: string) {
    forall sub :: Shared(provider, sub) ==>
      && !Diverges(framework, before, sub)
      && (IsRealDir(before, Live(sub)) ==> LinkResolvesIntoFramework(after, Live(sub)))
  }

  ghost predicate CopiesSurvive(framework: Framework, before: Files, after: Files, provider: string) {
    forall sub :: Shared(provider, sub) && IsPlainCopy(before, sub) ==>
      Survives(framework, after, sub, At(before, Live(sub)).value)
  }

  ghost predicate CopiesStay(before: Files, after: Files, provider: string) {
    forall sub :: Shared(provider, sub) && IsPlainCopy(before, sub) ==> At(after, Live(sub)) == At(before, Live(sub))
  }

  /** The subtrees that are shared, as a list and as a property of their names. */
  lemma SharedListed(provider: string)
    ensures forall sub :: sub in SharedSubtreesFor(provider) <==> Shared(provider, sub)
  {
    var subs := SharedSubtreesFor(provider);
    if provider != "kimi" {
      assert subs[0] == "commands" && subs[1] == "agents" && subs[2] == "skills" && subs[3] == "rules";
    } else {
      assert subs[0] == "rules";
    }
  }

  lemma SharedRecognized(before: Files, provider: string, outcome: Outcome)
    requires var subs := SharedSubtreesFor(provider);
             && (outcome == AlreadySymlinked <==> AnyLinked(before, subs))
             && (outcome == NotACopy <==> !AnyLinked(before, subs) && !AnyCopied(before, subs))
    ensures Recognizes(before, provider, outcome)
  {
    SharedListed(provider);
  }

  lemma AgreeExactly(framework: Framework, before: Files, provider: string)
    ensures AllAgree(framework, before, SharedSubtreesFor(provider)) <==>
              forall sub :: Shared(provider, sub) ==> !Diverges(framework, before, sub)
  {
    SharedListed(provider);
    forall sub ensures SubtreeAgrees(framework, before, sub) <==> !Diverges(framework, before, sub) {
    }
  }

  lemma RelinksShared(a: Assembly, before: Files, provider: string)
    ensures Relinks(a, before, SharedSubtreesFor(provider)) <==>
              forall sub :: Shared(provider, sub) && IsRealDir(before, Live(sub)) ==>
                && sub in a.made && a.made[sub].Some?
                && a.made[sub].value.Link? && a.made[sub].value.intoFramework
    ensures Clear(before, provider) ==> NoneDangling(before, SharedSubtreesFor(provider))
  {
    SharedListed(provider);
    forall k | 0 <= k < |SharedSubtreesFor(provider)| ensures Shared(provider, SharedSubtreesFor(provider)[k]) {
      assert SharedSubtreesFor(provider)[k] in SharedSubtreesFor(provider);
    }
  }

  lemma CustomsArePreserved(before: Files, after: Files, provider: string)
    requires PreservedStandExactly(before, after, SharedSubtreesFor(provider), true)
    ensures CustomsPreserved(before, after, provider)
  {
    SharedListed(provider);
    forall sub | Shared(provider, sub) && IsPlainCopy(before, sub)
      ensures HasCustomName(At(before, Live(sub)).value.files) <==> HoldsCustom(At(before, Live(sub)).value.files)
    {
    }
  }

  class Workspace {
    const framework: Framework
    /** No file operation fails. */
    const reliable: bool
    var fs: Files
    /** Every state so far that a crash would leave. */
    ghost var log: seq<Files>
    /** Some subtree, and something that it may hold: what is proved to be kept. */
    ghost const watch: string
    ghost const kept: Node

    constructor (framework: Framework, reliable: bool, fs: Files, ghost watch: string, ghost kept: Node)
      ensures this.framework == framework && this.reliable == reliable && this.fs == fs
      ensures this.watch == watch && this.kept == kept && log == [fs]
    {
      this.framework, this.reliable, this.fs := framework, reliable, fs;
      this.watch, this.kept, log := watch, kept, [fs];
    }

    /** The log ends with what is there now. */
    ghost predicate Valid()
      reads `fs, `log
    {
      log != [] && log[|log| - 1] == fs
    }

    ghost predicate InFramework() {
      kept.Dir? && forall rel :: rel in kept.files ==> SameInFramework(framework, watch, rel, kept.files[rel])
    }

    ghost predicate Kept(st: Files) {
      Survives(framework, st, watch, kept)
    }

    /** No crash so far could have lost what is watched. */
    ghost predicate AllKept()
      reads `log
    {
      forall st | st in log :: Kept(st)
    }

    /** It is somewhere else than at `p`. */
    ghost predicate KeptBeside(st: Files, p: Slot) {
      InFramework()
      || exists q | q in {Live(watch), Bak(watch), Preserved(watch)} && q != p :: At(st, q) == Some(kept)
    }

    /** Going over from live to backup or back, only the subtree `sub` is touched, and what is watched is elsewhere. */
    ghost predicate KeptApart(st: Files, sub: string) {
      InFramework() || At(st, Preserved(watch)) == Some(kept) || (sub != watch && Kept(st))
    }

    /** One change to the files, and what a crash within it may leave instead. */
    method Write(next: Files)
      requires Valid()
      modifies `fs, `log
      ensures Valid() && fs == next && old(log) <= log
      ensures old(AllKept()) && Kept(next) ==> AllKept()
    {
      fs := next;
      log := log + [next];
    }

    /** Recursive removal; a failed or interrupted one may leave anything behind. */
    method Remove(p: Slot) returns (ok: bool)
      requires Valid()
      modifies `fs, `log
      ensures Valid() && old(log) <= log
      ensures old(AllKept() && KeptBeside(fs, p)) ==> AllKept()
      ensures forall q :: q != p ==> At(fs, q) == At(old(fs), q)
      ensures ok ==> At(fs, p).None?
      ensures reliable ==> ok
    {
      var remains: map<Rel, Content> := *;
      ghost var before := fs;
      Write(fs[p := Dir(remains)]);
      assert KeptBeside(before, p) ==> Kept(fs);
      var fails := MayFail(reliable);
      if fails {
        return false;
      }
      Write(fs - {p});
      assert KeptBeside(before, p) ==> Kept(fs);
      ok := true;
    }

    method Rename(from: Slot, to: Slot) returns (ok: bool)
      requires Valid() && At(fs, from).Some? && from != to
      modifies `fs, `log
      ensures Valid() && old(log) <= log
      ensures old(AllKept()) && Kept(fs) ==> AllKept()
      ensures !ok ==> fs == old(fs)
      ensures ok ==> At(old(fs), to).None? && At(fs, from).None? && At(fs, to) == At(old(fs), from)
      ensures ok ==> forall q :: q != from && q != to ==> At(fs, q) == At(old(fs), q)
      ensures reliable && At(old(fs), to).None? ==> ok
    {
      var fails := MayFail(reliable);
      if fails || to in fs {
        return false;
      }
      Write((fs - {from})[to := fs[from]]);
      ok := true;
    }

    /** One subtree against the framework; an unreadable file counts as different. */
    method CompareSubtree(sub: string) returns (same: bool)
      requires IsRealDir(fs, Live(sub))
      ensures same ==> SubtreeAgrees(framework, fs, sub)
      ensures reliable ==> (same <==> SubtreeAgrees(framework, fs, sub))
    {
      var files := At(fs, Live(sub)).value.files;
      var rest := files.Keys;
      while rest != {}
        invariant rest <= files.Keys
        invariant forall rel :: rel in files && rel !in rest ==> Agrees(framework, sub, rel, files[rel])
        decreases rest
      {
        var rel :| rel in rest;
        rest := rest - {rel};
        if !(sub == "agents" && IsCustomAgent(rel)) {
          var unreadable := MayFail(reliable);
          if unreadable || !SameInFramework(framework, sub, rel, files[rel]) {
            return false;
          }
        }
      }
      same := true;
    }

    method CompareSharedSubtrees(subs: seq<string>) returns (matches: bool, hadShared: bool)
      ensures hadShared <==> AnyCopied(fs, subs)
      ensures matches ==> hadShared && AllAgree(framework, fs, subs)
      ensures reliable && hadShared ==> (matches <==> AllAgree(framework, fs, subs))
    {
      hadShared := false;
      var i := 0;
      while i < |subs|
        invariant i <= |subs|
        invariant forall k :: 0 <= k < i ==> SubtreeAgrees(framework, fs, subs[k])
        invariant hadShared <==> exists k :: 0 <= k < i && IsRealDir(fs, Live(subs[k]))
      {
        if IsRealDir(fs, Live(subs[i])) {
          hadShared := true;
          var same := CompareSubtree(subs[i]);
          if !same {
            return false, true;
          }
        }
        i := i + 1;
      }
      matches := hadShared;
    }

    /** Move one backup back, over whatever is in its place. */
    method RestoreOne(sub: string) returns (ok: bool)
      requires Valid() && IsRealDir(fs, Bak(sub))
      modifies `fs, `log
      ensures Valid() && old(log) <= log
      ensures old(AllKept() && (At(fs, Bak(watch)) == Some(kept) || KeptApart(fs, sub))) ==> AllKept() && Kept(fs)
      ensures forall q :: q != Live(sub) && q != Bak(sub) ==> At(fs, q) == At(old(fs), q)
      ensures if ok then Back(old(fs), fs, sub) else At(fs, Bak(sub)) == At(old(fs), Bak(sub))
      ensures reliable ==> ok
    {
      if Exists(fs, Live(sub)) || IsSymlink(fs, Live(sub)) {
        var removed := Remove(Live(sub));
        if !removed {
          return false;
        }
      }
      ok := Rename(Bak(sub), Live(sub));
    }

    /** It is in its backup, or a subtree that was never backed up. */
    ghost predicate KeptAside(st: Files, backedUp: seq<string>) {
      At(st, Bak(watch)) == Some(kept) || (watch !in backedUp && Kept(st))
    }

    /** Move each backup back to its live place; what cannot be moved stays in its backup. */
    method RestoreBackups(subs: seq<string>) returns (ok: bool)
      requires Valid() && Distinct(subs) && AllDirs(fs, subs)
      modifies `fs, `log
      ensures Valid() && old(log) <= log && RestoredUpTo(old(fs), fs, subs, |subs|, ok)
      ensures old(AllKept() && KeptAside(fs, subs)) ==> AllKept()
      ensures reliable ==> ok
    {
      ok := true;
      var i := 0;
      while i < |subs|
        invariant i <= |subs| && Valid() && old(log) <= log && RestoredUpTo(old(fs), fs, subs, i, ok)
        invariant old(AllKept() && KeptAside(fs, subs)) ==> AllKept() && Kept(fs)
        invariant reliable ==> ok
      {
        ghost var mid := fs;
        assert At(fs, Bak(subs[i])) == At(old(fs), Bak(subs[i]));
        var restored := RestoreOne(subs[i]);
        OneMoreRestored(old(fs), mid, fs, subs, i, ok, restored);
        ok := ok && restored;
        i := i + 1;
      }
    }

    method BackUpOne(sub: string) returns (ok: bool)
      requires Valid() && IsRealDir(fs, Live(sub))
      modifies `fs, `log
      ensures Valid() && old(log) <= log
      ensures old(AllKept() && (At(fs, Live(watch)) == Some(kept) || KeptApart(fs, sub))) ==> AllKept() && Kept(fs)
      ensures forall q :: q != Live(sub) && q != Bak(sub) ==> At(fs, q) == At(old(fs), q)
      ensures ok ==> At(fs, Bak(sub)) == At(old(fs), Live(sub)) && At(fs, Live(sub)).None?
      ensures !ok ==> At(fs, Live(sub)) == At(old(fs), Live(sub))
      // an earlier backup is gone once the removal before the rename has been tried
      ensures !ok && !Exists(old(fs), Bak(sub)) ==> At(fs, Bak(sub)) == At(old(fs), Bak(sub))
      ensures reliable ==> (ok <==> NotDangling(old(fs), Bak(sub)))
    {
      if Exists(fs, Bak(sub)) {
        var removed := Remove(Bak(sub));
        if !removed {
          return false;
        }
      }
      ok := Rename(Live(sub), Bak(sub));
    }

    /** Rename each copied subtree aside, up to the first that will not go. */
    method BackUp(subs: seq<string>) returns (ok: bool, backedUp: seq<string>)
      requires Valid() && Distinct(subs)
      modifies `fs, `log
      ensures Valid() && old(log) <= log
      ensures old(AllKept() && At(fs, Live(watch)) == Some(kept)) ==> AllKept()
      ensures Aside(old(fs), fs, backedUp, subs) && OnlyAt(old(fs), fs, subs)
      ensures reliable && NoneDangling(old(fs), subs) ==> ok
      ensures ok ==> forall k :: 0 <= k < |subs| && IsRealDir(old(fs), Live(subs[k])) ==> subs[k] in backedUp
      ensures forall sub :: !IsRealDir(old(fs), Live(sub)) ==> At(fs, Bak(sub)) == At(old(fs), Bak(sub))
    {
      backedUp := [];
      var i := 0;
      while i < |subs|
        invariant i <= |subs| && Valid() && old(log) <= log && BackedUpTo(old(fs), fs, backedUp, subs, i)
        invariant old(AllKept() && At(fs, Live(watch)) == Some(kept)) ==> AllKept()
      {
        var sub := subs[i];
        ghost var mid := fs;
        SubIsNext(old(fs), fs, backedUp, subs, i);
        if IsRealDir(fs, Live(sub)) {
          var moved := BackUpOne(sub);
          OnlyAtStays(old(fs), mid, fs, subs, sub);
          if !moved {
            StillAside(old(fs), mid, fs, backedUp, subs[..i], subs, sub);
            return false, backedUp;
          }
          OneMoreBackedUp(old(fs), mid, fs, backedUp, subs, i);
          backedUp := backedUp + [sub];
        } else {
          OneMoreSkipped(old(fs), fs, backedUp, subs, i);
        }
        i := i + 1;
      }
      assert subs[..i] == subs;
      ok := true;
    }

    /** The Core's offline assemble, on the live subtrees and the memory; it may be cut short anywhere. */
    method Assemble(a: Assembly)
      requires Valid()
      modifies `fs, `log
      ensures Valid() && old(log) <= log
      ensures old(AllKept() && At(fs, Bak(watch)) == Some(kept)) ==> AllKept()
      ensures forall sub :: At(fs, Live(sub)) == if sub in a.made then a.made[sub] else At(old(fs), Live(sub))
      ensures forall sub :: At(fs, Bak(sub)) == At(old(fs), Bak(sub))
                  && At(fs, Preserved(sub)) == At(old(fs), Preserved(sub))
      ensures At(fs, Memory) == if a.memory.Some? then a.memory else At(old(fs), Memory)
    {
      var part: Assembly := *;
      var before := fs;
      Write(Assembled(before, part));
      Write(Assembled(before, a));
    }

    /** It is in its backup, without a memory that could be moved out of it. */
    ghost predicate KeptPlain(st: Files) {
      At(st, Bak(watch)) == Some(kept) && kept.Dir? && !HoldsMemory(kept.files)
    }

    /** Move the memory out of one backup, unless there is a live one. */
    method PreserveOne(sub: string)
      requires Valid() && IsRealDir(fs, Bak(sub))
      modifies `fs, `log
      ensures Valid() && old(log) <= log
      ensures old(AllKept() && KeptPlain(fs)) ==> AllKept()
      ensures IsRealDir(fs, Bak(sub))
      ensures forall q :: q != Bak(sub) && q != Memory ==> At(fs, q) == At(old(fs), q)
      ensures At(old(fs), Memory).Some? || !HoldsMemory(At(old(fs), Bak(sub)).value.files) ==> fs == old(fs)
      ensures fs == old(fs) || MemoryMoved(old(fs), fs, sub)
      ensures reliable && At(old(fs), Memory).None? && HoldsMemory(At(old(fs), Bak(sub)).value.files) ==>
                MemoryMoved(old(fs), fs, sub)
    {
      var files := At(fs, Bak(sub)).value.files;
      if !HoldsMemory(files) || At(fs, Memory).Some? {
        return;
      }
      var fails := MayFail(reliable);
      if !fails {
        Write(fs[Bak(sub) := Dir(WithoutMemory(files))][Memory := Dir(MemoryOf(files))]);
      }
    }

    /** Move a memory that sits inside a backup to its live place; a live one is never overwritten. */
    method PreserveMemory(backedUp: seq<string>)
      requires Valid() && AllDirs(fs, backedUp)
      modifies `fs, `log
      ensures Valid() && old(log) <= log && AllDirs(fs, backedUp) && MemoryPreserved(old(fs), fs, backedUp)
      ensures old(AllKept() && KeptPlain(fs)) ==> AllKept() && KeptPlain(fs)
    {
      var i := 0;
      while i < |backedUp|
        invariant i <= |backedUp| && Valid() && old(log) <= log
        invariant AllDirs(fs, backedUp) && MemoryPreserved(old(fs), fs, backedUp)
        invariant old(AllKept() && KeptPlain(fs)) ==> AllKept() && KeptPlain(fs)
      {
        ghost var mid := fs;
        PreserveOne(backedUp[i]);
        OneMorePreserved(old(fs), mid, fs, backedUp, backedUp[i]);
        i := i + 1;
      }
    }

    /** Clear what the re-link left in place of each backup, then put the backups back. */
    method Revert(backedUp: seq<string>) returns (ok: bool)
      requires Valid() && Distinct(backedUp) && AllDirs(fs, backedUp)
      modifies `fs, `log
      ensures Valid() && old(log) <= log && RestoredUpTo(old(fs), fs, backedUp, |backedUp|, ok)
      ensures old(AllKept() && KeptAside(fs, backedUp)) ==> AllKept()
      ensures reliable ==> ok
    {
      var i := 0;
      while i < |backedUp|
        invariant i <= |backedUp| && OnlyAt(old(fs), fs, backedUp) && Valid() && old(log) <= log
        invariant forall sub :: At(fs, Bak(sub)) == At(old(fs), Bak(sub))
        invariant old(AllKept() && KeptAside(fs, backedUp)) ==> AllKept()
      {
        if Exists(fs, Live(backedUp[i])) || IsSymlink(fs, Live(backedUp[i])) {
          var _ := Remove(Live(backedUp[i]));
        }
        i := i + 1;
      }
      ok := RestoreBackups(backedUp);
    }

    /** It is in the framework, or in its backup with custom agents. */
    ghost predicate KeptCustom(st: Files) {
      InFramework() || (At(st, Bak(watch)) == Some(kept) && kept.Dir? && HoldsCustom(kept.files))
    }

    /** Keep a backup that holds custom agents, whole, under another name; drop any other. */
    method CleanUpOne(sub: string)
      requires Valid() && IsRealDir(fs, Bak(sub))
      modifies `fs, `log
      ensures Valid() && old(log) <= log
      ensures old(AllKept() && (KeptCustom(fs) || (sub != watch && Kept(fs)))) ==> AllKept() && Kept(fs)
      ensures forall q :: q != Bak(sub) && q != Preserved(sub) ==> At(fs, q) == At(old(fs), q)
      ensures CleanedUp(old(fs), fs, sub)
    {
      if HoldsCustom(At(fs, Bak(sub)).value.files) {
        if Exists(fs, Preserved(sub)) {
          var removed := Remove(Preserved(sub));
          if !removed {
            return;
          }
        }
        var _ := Rename(Bak(sub), Preserved(sub));
      } else if LinkResolvesIntoFramework(fs, Live(sub)) {
        var _ := Remove(Bak(sub));
      }
    }

    /** What a clean-up makes of the preserved directory: it stands exactly when there is nothing to preserve. */
    predicate PreservedAs(before: Files, after: Files, sub: string) {
      IsRealDir(before, Bak(sub)) ==>
        if !HoldsCustom(At(before, Bak(sub)).value.files) then At(after, Preserved(sub)) == At(before, Preserved(sub))
        else reliable && NotDangling(before, Preserved(sub)) ==> At(after, Preserved(sub)) == At(before, Bak(sub))
    }

    /** And of the backup itself: custom agents survive under one name or the other, and a used backup goes. */
    predicate CleanedUp(before: Files, after: Files, sub: string) {
      && PreservedAs(before, after, sub)
      && (IsRealDir(before, Bak(sub)) && HoldsCustom(At(before, Bak(sub)).value.files) ==>
            At(after, Bak(sub)) == At(before, Bak(sub)) || At(after, Preserved(sub)) == At(before, Bak(sub)))
      && (reliable && NotDangling(before, Preserved(sub)) && LinkResolvesIntoFramework(before, Live(sub)) ==>
            At(after, Bak(sub)).None?)
    }

    /** The first `i` backups have been cleaned up, and nothing else has changed. */
    ghost predicate CleanedUpTo(mid: Files, st: Files, backedUp: seq<string>, i: nat)
      requires i <= |backedUp|
    {
      && (forall sub :: At(st, Live(sub)) == At(mid, Live(sub)))
      && (forall k :: i <= k < |backedUp| ==> Untouched(mid, st, backedUp[k]))
      && (forall k :: 0 <= k < i ==> CleanedUp(mid, st, backedUp[k]))
      && forall sub :: sub !in backedUp ==> Untouched(mid, st, sub)
    }

    lemma OneMoreCleanedUp(before: Files, mid: Files, after: Files, backedUp: seq<string>, i: nat)
      requires i < |backedUp| && Distinct(backedUp) && CleanedUpTo(before, mid, backedUp, i)
      requires CleanedUp(mid, after, backedUp[i])
      requires forall q :: q != Bak(backedUp[i]) && q != Preserved(backedUp[i]) ==> At(after, q) == At(mid, q)
      ensures CleanedUpTo(before, after, backedUp, i + 1)
    {
      assert Untouched(before, mid, backedUp[i]);
      forall k | 0 <= k < |backedUp| && k != i ensures Untouched(mid, after, backedUp[k]) {
        assert backedUp[k] != backedUp[i];
      }
    }

    method CleanUp(backedUp: seq<string>)
      requires Valid() && Distinct(backedUp) && AllDirs(fs, backedUp)
      modifies `fs, `log
      ensures Valid() && old(log) <= log
      ensures old(AllKept() && KeptCustom(fs)) ==> AllKept()
      ensures CleanedUpTo(old(fs), fs, backedUp, |backedUp|)
    {
      var i := 0;
      while i < |backedUp|
        invariant i <= |backedUp| && CleanedUpTo(old(fs), fs, backedUp, i)
        invariant Valid() && old(log) <= log && (old(AllKept() && KeptCustom(fs)) ==> AllKept() && Kept(fs))
      {
        ghost var mid := fs;
        assert Untouched(old(fs), fs, backedUp[i]);
        CleanUpOne(backedUp[i]);
        OneMoreCleanedUp(old(fs), mid, fs, backedUp, i);
        i := i + 1;
      }
    }

    /** What a re-link makes of `aside`: the live subtrees are the assemble's, and only memories leave the backups. */
    ghost predicate RelinkedFrom(aside: Files, st: Files, backedUp: seq<string>, a: Assembly) {
      && AllDirs(st, backedUp)
      && (forall sub :: At(st, Live(sub)) == if sub in a.made then a.made[sub] else At(aside, Live(sub)))
      && (forall sub :: At(st, Preserved(sub)) == At(aside, Preserved(sub)))
      && (forall sub :: IsRealDir(aside, Bak(sub)) && !HoldsMemory(At(aside, Bak(sub)).value.files) ==>
            At(st, Bak(sub)) == At(aside, Bak(sub)))
      && forall sub :: sub !in backedUp ==> At(st, Bak(sub)) == At(aside, Bak(sub))
    }

    ghost predicate AllLinked(st: Files, backedUp: seq<string>) {
      forall k :: 0 <= k < |backedUp| ==> LinkResolvesIntoFramework(st, Live(backedUp[k]))
    }

    /** Re-link through the Core and check that every backed-up place is now a link into the framework. */
    method Relink(backedUp: seq<string>, a: Assembly) returns (verified: bool)
      requires Valid() && Distinct(backedUp) && AllDirs(fs, backedUp)
      modifies `fs, `log
      ensures Valid() && old(log) <= log && RelinkedFrom(old(fs), fs, backedUp, a)
      ensures old(AllKept() && KeptPlain(fs)) ==> AllKept() && KeptPlain(fs)
      ensures verified <==> a.assembled && AllLinked(fs, backedUp)
    {
      Assemble(a);
      PreserveMemory(backedUp);
      verified := a.assembled && forall k :: 0 <= k < |backedUp| ==> LinkResolvesIntoFramework(fs, Live(backedUp[k]));
    }

    /** What is watched is one of the plain copies to be converted. */
    ghost predicate WatchesCopy(st: Files, subs: seq<string>) {
      watch in subs && IsPlainCopy(st, watch) && At(st, Live(watch)) == Some(kept)
    }

    lemma WatchedAside(before: Files, st: Files, backedUp: seq<string>, subs: seq<string>)
      requires Aside(before, st, backedUp, subs) && WatchesCopy(before, subs)
      ensures KeptAside(st, backedUp)
      ensures watch in backedUp ==> KeptPlain(st)
    {
    }

    /** A copy that the comparison let through is in the framework, but for custom agents. */
    lemma WatchedAgrees(before: Files, st: Files, subs: seq<string>)
      requires AllAgree(framework, before, subs) && WatchesCopy(before, subs) && KeptPlain(st)
      ensures KeptCustom(st)
    {
      var k :| 0 <= k < |subs| && subs[k] == watch;
      assert SubtreeAgrees(framework, before, watch);
      if !HoldsCustom(kept.files) {
        forall rel | rel in kept.files ensures SameInFramework(framework, watch, rel, kept.files[rel]) {
          assert Agrees(framework, watch, rel, kept.files[rel]) && !IsCustomAgent(rel);
        }
      }
    }

    /** Every copied subtree of `before` has been renamed aside, and nothing else has changed. */
    ghost predicate AllAside(before: Files, st: Files, backedUp: seq<string>, subs: seq<string>) {
      && Aside(before, st, backedUp, subs) && OnlyAt(before, st, subs)
      && (forall k :: 0 <= k < |subs| && IsRealDir(before, Live(subs[k])) ==> subs[k] in backedUp)
      && forall sub :: !IsRealDir(before, Live(sub)) ==> At(st, Bak(sub)) == At(before, Bak(sub))
    }

    /** What has become of the copies of `before` once the re-link has been kept or reverted. */
    ghost predicate Settled(before: Files, st: Files, subs: seq<string>, a: Assembly, migrated: bool, revertsOk: bool) {
      && (!migrated && revertsOk ==> CopiesBack(before, st, subs))
      && (forall sub :: sub !in subs || !IsRealDir(before, Live(sub)) ==>
            At(st, Live(sub)) == if sub in a.made then a.made[sub] else At(before, Live(sub)))
      && (migrated ==> a.assembled && forall sub ::
            sub in subs && IsRealDir(before, Live(sub)) ==>
              LinkResolvesIntoFramework(st, Live(sub)) && sub in a.made && At(st, Live(sub)) == a.made[sub])
      && (forall sub :: sub in subs && IsPlainCopy(before, sub) ==>
            Survives(framework, st, sub, At(before, Live(sub)).value))
      && OthersKept(before, st, subs)
    }

    /** What a copy went through up to a revert. */
    lemma RevertedCopy(before: Files, aside: Files, mid: Files, after: Files, subs: seq<string>, backedUp: seq<string>,
                       a: Assembly, ok: bool, sub: string)
      requires AllAside(before, aside, backedUp, subs) && RelinkedFrom(aside, mid, backedUp, a)
      requires RestoredUpTo(mid, after, backedUp, |backedUp|, ok) && sub in subs && IsRealDir(before, Live(sub))
      ensures sub in backedUp && IsRealDir(mid, Bak(sub))
      ensures IsPlainCopy(before, sub) ==> At(mid, Bak(sub)) == At(before, Live(sub))
      ensures Back(mid, after, sub) || (!ok && At(after, Bak(sub)) == At(mid, Bak(sub)))
    {
      var k :| 0 <= k < |subs| && subs[k] == sub;
      var j :| 0 <= j < |backedUp| && backedUp[j] == sub;
    }

    lemma RevertSettles(before: Files, aside: Files, mid: Files, after: Files, subs: seq<string>, backedUp: seq<string>,
                        a: Assembly, ok: bool)
      requires AllAside(before, aside, backedUp, subs) && RelinkedFrom(aside, mid, backedUp, a)
      requires RestoredUpTo(mid, after, backedUp, |backedUp|, ok)
      ensures Settled(before, after, subs, a, false, ok)
      ensures ok ==> BackupsGone(before, after, subs) && PreservedStandExactly(before, after, subs, false)
    {
      forall sub | sub in subs && IsRealDir(before, Live(sub))
        ensures sub in backedUp && IsRealDir(mid, Bak(sub))
        ensures IsPlainCopy(before, sub) ==> At(mid, Bak(sub)) == At(before, Live(sub))
        ensures Back(mid, after, sub) || (!ok && At(after, Bak(sub)) == At(mid, Bak(sub)))
      {
        RevertedCopy(before, aside, mid, after, subs, backedUp, a, ok, sub);
      }
      if ok { BackupsAreGone(before, after, subs, backedUp); }
    }

    lemma CleanUpSettles(before: Files, aside: Files, mid: Files, after: Files, subs: seq<string>,
                         backedUp: seq<string>, a: Assembly)
      requires AllAgree(framework, before, subs)
      requires AllAside(before, aside, backedUp, subs) && RelinkedFrom(aside, mid, backedUp, a)
      requires a.assembled && AllLinked(mid, backedUp) && CleanedUpTo(mid, after, backedUp, |backedUp|)
      ensures Settled(before, after, subs, a, true, true)
    {
      forall sub | sub in subs && IsRealDir(before, Live(sub))
        ensures sub in backedUp && At(aside, Bak(sub)) == At(before, Live(sub)) && CleanedUp(mid, after, sub)
        ensures LinkResolvesIntoFramework(mid, Live(sub)) && SubtreeAgrees(framework, before, sub)
      {
        var k :| 0 <= k < |subs| && subs[k] == sub;
        var j :| 0 <= j < |backedUp| && backedUp[j] == sub;
      }
    }

    lemma CleanUpStands(before: Files, aside: Files, mid: Files, after: Files, subs: seq<string>, backedUp: seq<string>,
                        a: Assembly)
      requires AllAside(before, aside, backedUp, subs) && RelinkedFrom(aside, mid, backedUp, a)
      requires AllLinked(mid, backedUp) && CleanedUpTo(mid, after, backedUp, |backedUp|)
      requires reliable && NoneDangling(before, subs)
      ensures BackupsGone(before, after, subs) && PreservedStandExactly(before, after, subs, true)
    {
      StillNoneDangling(before, mid, subs, backedUp);
      BackupsAreGone(before, after, subs, backedUp);
      forall sub | sub in subs && IsPlainCopy(before, sub)
        ensures PreservedAs(mid, after, sub) && sub in backedUp && At(mid, Bak(sub)) == At(before, Live(sub))
        ensures NotDangling(mid, Preserved(sub))
      {
        var k :| 0 <= k < |subs| && subs[k] == sub;
        var j :| 0 <= j < |backedUp| && backedUp[j] == sub;
      }
    }

    /** Exactly the copies that the assemble replaced by links are verified. */
    lemma LinkedExactly(before: Files, aside: Files, mid: Files, subs: seq<string>, backedUp: seq<string>, a: Assembly)
      requires AllAside(before, aside, backedUp, subs) && RelinkedFrom(aside, mid, backedUp, a)
      ensures AllLinked(mid, backedUp) <==> Relinks(a, before, subs)
    {
      if AllLinked(mid, backedUp) {
        forall k | 0 <= k < |subs| && IsRealDir(before, Live(subs[k]))
          ensures LinkResolvesIntoFramework(mid, Live(subs[k]))
        {
          var j :| 0 <= j < |backedUp| && backedUp[j] == subs[k];
        }
      }
      if Relinks(a, before, subs) {
        forall j | 0 <= j < |backedUp| ensures LinkResolvesIntoFramework(mid, Live(backedUp[j])) {
          assert backedUp[j] in backedUp;
          var k :| 0 <= k < |subs| && subs[k] == backedUp[j];
        }
      }
    }

    /** Re-link, verify, and clean up or revert, once the copies of `before` are in their backups. */
    method Replace(ghost before: Files, subs: seq<string>, backedUp: seq<string>, a: Assembly)
      returns (migrated: bool, revertsOk: bool)
      requires Valid() && AllAgree(framework, before, subs) && AllAside(before, fs, backedUp, subs)
      modifies `fs, `log
      ensures Valid() && old(log) <= log
      ensures old(AllKept()) && WatchesCopy(before, subs) ==> AllKept()
      ensures Settled(before, fs, subs, a, migrated, revertsOk)
      ensures reliable ==> revertsOk
      ensures migrated <==> a.assembled && Relinks(a, before, subs)
      ensures reliable && NoneDangling(before, subs) ==>
                BackupsGone(before, fs, subs) && PreservedStandExactly(before, fs, subs, migrated)
    {
      revertsOk := true;
      ghost var aside := fs;
      if WatchesCopy(before, subs) { WatchedAside(before, aside, backedUp, subs); }
      assert AllDirs(fs, backedUp);
      migrated := Relink(backedUp, a);
      ghost var relinked := fs;
      LinkedExactly(before, aside, relinked, subs, backedUp, a);
      if !migrated {
        revertsOk := Revert(backedUp);
        RevertSettles(before, aside, relinked, fs, subs, backedUp, a, revertsOk);
      } else {
        if WatchesCopy(before, subs) && KeptPlain(fs) { WatchedAgrees(before, fs, subs); }
        CleanUp(backedUp);
        CleanUpSettles(before, aside, relinked, fs, subs, backedUp, a);
        if reliable && NoneDangling(before, subs) {
          CleanUpStands(before, aside, relinked, fs, subs, backedUp, a);
        }
      }
    }

    /** Back up, then replace; or put back what could be backed up. */
    method Convert(subs: seq<string>, a: Assembly) returns (outcome: Outcome, revertsOk: bool)
      requires Valid() && Distinct(subs) && AllAgree(framework, fs, subs)
      modifies `fs, `log
      ensures Valid() && old(log) <= log
      ensures old(AllKept() && WatchesCopy(fs, subs)) ==> AllKept()
      ensures outcome == SkippedDivergence || outcome == Reverted || outcome == Migrated
      ensures outcome == SkippedDivergence && revertsOk ==> forall sub :: At(fs, Live(sub)) == At(old(fs), Live(sub))
      ensures outcome == SkippedDivergence ==> OthersKept(old(fs), fs, subs) && forall sub ::
                sub in subs && IsPlainCopy(old(fs), sub) ==>
                  Survives(framework, fs, sub, At(old(fs), Live(sub)).value)
      ensures outcome != SkippedDivergence ==> Settled(old(fs), fs, subs, a, outcome == Migrated, revertsOk)
      ensures reliable ==> revertsOk
      ensures reliable && NoneDangling(old(fs), subs) ==>
                && outcome != SkippedDivergence && (outcome == Migrated <==> a.assembled && Relinks(a, old(fs), subs))
                && BackupsGone(old(fs), fs, subs)
                && PreservedStandExactly(old(fs), fs, subs, outcome == Migrated)
    {
      var backedOk, backedUp := BackUp(subs);
      if !backedOk {
        if old(WatchesCopy(fs, subs)) { WatchedAside(old(fs), fs, backedUp, subs); }
        revertsOk := RestoreBackups(backedUp);
        return SkippedDivergence, revertsOk;
      }
      var migrated;
      migrated, revertsOk := Replace(old(fs), subs, backedUp, a);
      outcome := if migrated then Migrated else Reverted;
    }

    /**
     * The whole conversion. A plain copied subtree is never lost: when the outcome is anything but
     * `Migrated` it is back in its place, provided the operations of the revert succeeded, and in its
     * backup otherwise; after `Migrated` its place links into the framework, and it either survives
     * whole under its backup or preserved name, or holds nothing that is not in the framework. When no
     * operation fails, the outcome, and which backups and preserved directories of earlier runs still
     * stand, are decided by what is there before and by the re-link alone.
     */
    method RunMigration(subs: seq<string>, a: Assembly) returns (outcome: Outcome, revertsOk: bool)
      requires Valid() && Distinct(subs)
      modifies `fs, `log
      ensures Valid() && old(log) <= log
      ensures old(AllKept() && WatchesCopy(fs, subs)) ==> AllKept()
      ensures outcome == AlreadySymlinked <==> AnyLinked(old(fs), subs)
      ensures outcome == NotACopy <==> !AnyLinked(old(fs), subs) && !AnyCopied(old(fs), subs)
      ensures outcome == AlreadySymlinked || outcome == NotACopy ==> fs == old(fs)
      ensures outcome == SkippedDivergence && revertsOk ==> forall sub :: At(fs, Live(sub)) == At(old(fs), Live(sub))
      ensures outcome == Reverted && revertsOk ==> CopiesBack(old(fs), fs, subs)
      ensures outcome == Reverted || outcome == Migrated ==>
                forall sub :: sub !in subs || !IsRealDir(old(fs), Live(sub)) ==>
                  At(fs, Live(sub)) == if sub in a.made then a.made[sub] else At(old(fs), Live(sub))
      ensures outcome == Migrated ==> a.assembled && AllAgree(framework, old(fs), subs) && forall sub ::
                sub in subs && IsRealDir(old(fs), Live(sub)) ==>
                  LinkResolvesIntoFramework(fs, Live(sub)) && sub in a.made && At(fs, Live(sub)) == a.made[sub]
      ensures forall sub :: sub in subs && IsPlainCopy(old(fs), sub) ==>
                Survives(framework, fs, sub, At(old(fs), Live(sub)).value)
      ensures OthersKept(old(fs), fs, subs)
      ensures reliable ==> revertsOk
      ensures reliable && NoneDangling(old(fs), subs) && !AnyLinked(old(fs), subs) && AnyCopied(old(fs), subs) ==>
                && (outcome == SkippedDivergence <==> !AllAgree(framework, old(fs), subs))
                && (outcome == Migrated <==>
                      AllAgree(framework, old(fs), subs) && a.assembled && Relinks(a, old(fs), subs))
      ensures reliable && NoneDangling(old(fs), subs) ==>
                && BackupsStandExactly(old(fs), fs, subs, outcome == Reverted || outcome == Migrated)
                && PreservedStandExactly(old(fs), fs, subs, outcome == Migrated)
    {
      var i := 0;
      while i < |subs|
        invariant i <= |subs|
        invariant forall k :: 0 <= k < i ==> !LinkResolvesIntoFramework(fs, Live(subs[k]))
      {
        if LinkResolvesIntoFramework(fs, Live(subs[i])) {
          return AlreadySymlinked, true;
        }
        i := i + 1;
      }
      var matches, hadShared := CompareSharedSubtrees(subs);
      if !hadShared {
        return NotACopy, true;
      }
      if !matches {
        return SkippedDivergence, true;
      }
      outcome, revertsOk := Convert(subs, a);
      if reliable && NoneDangling(old(fs), subs) {
        GoneStandExactly(old(fs), fs, subs);
      }
    }

    /**
     * The entry point: nothing to do without a bundled Core and a materialized `current`, or where a shared
     * subtree is a link already, or none is a copy. A file that the user has changed stops it; otherwise every
     * copied subtree ends as a link into the framework, if the re-link has made one of each, and is back in its
     * place if not.
     */
    method MigrateWorkspaceToSymlinks(provider: string, available: bool, a: Assembly)
      returns (outcome: Option<Outcome>, revertsOk: bool)
      requires Valid()
      modifies `fs, `log
      ensures Valid() && old(log) <= log && (reliable ==> revertsOk)
      ensures old(AllKept() && Watches(fs, provider)) ==> AllKept()
      ensures outcome.None? <==> !available
      ensures !available || outcome == Some(AlreadySymlinked) || outcome == Some(NotACopy) ==> fs == old(fs)
      ensures available ==> Recognizes(old(fs), provider, outcome.value)
      ensures outcome == Some(Migrated) ==> Converts(framework, old(fs), fs, provider)
      ensures reliable && Clear(old(fs), provider) && available ==>
                && (outcome != Some(AlreadySymlinked) && outcome != Some(NotACopy) ==>
                      Decides(framework, old(fs), provider, a, outcome.value))
                && (outcome == Some(Migrated) ==> CustomsPreserved(old(fs), fs, provider))
      ensures CopiesSurvive(framework, old(fs), fs, provider)
      ensures available && outcome.value != Migrated && revertsOk ==> CopiesStay(old(fs), fs, provider)
    {
      if !available {
        return None, true;
      }
      SharedListed(provider);
      var subs := SharedSubtreesFor(provider);
      var result;
      result, revertsOk := RunMigration(subs, a);
      SharedRecognized(old(fs), provider, result);
      AgreeExactly(framework, old(fs), provider);
      if reliable && Clear(old(fs), provider) {
        RelinksShared(a, old(fs), provider);
        if result == Migrated { CustomsArePreserved(old(fs), fs, provider); }
      }
      outcome := Some(result);
    }

    /** What is watched is one of the plain copies of the provider's shared subtrees. */
    ghost predicate Watches(st: Files, provider: string) {
      Shared(provider, watch) && IsPlainCopy(st, watch) && At(st, Live(watch)) == Some(kept)
    }

    /**
     * A revert takes away what was made in place of a copy, and nothing else. So after it a second
     * attempt takes the workspace for converted, its copied subtrees still copies, exactly when the
     * first one made a link into the framework where there was no copy.
     */
    method RetryAfterRevert(subs: seq<string>, a: Assembly, later: Assembly)
      returns (first: Outcome, revertsOk: bool, second: Outcome)
      requires Valid() && Distinct(subs)
      modifies `fs, `log
      ensures Valid()
      ensures first == Reverted && revertsOk ==>
                (second == AlreadySymlinked <==> LinksWithoutCopy(a, old(fs), subs))
      ensures first == Reverted && revertsOk && second == AlreadySymlinked ==> CopiesBack(old(fs), fs, subs)
      ensures reliable && NoneDangling(old(fs), subs) && !AnyLinked(old(fs), subs) && AnyCopied(old(fs), subs) ==>
                (first == Reverted <==>
                   AllAgree(framework, old(fs), subs) && !(a.assembled && Relinks(a, old(fs), subs)))
      ensures reliable ==> revertsOk
    {
      first, revertsOk := RunMigration(subs, a);
      ghost var reverted := fs;
      var again, _ := RunMigration(subs, later);
      second := again;
      if first == Reverted && revertsOk {
        forall k | 0 <= k < |subs|
          ensures LinkResolvesIntoFramework(reverted, Live(subs[k])) <==> LinkWithoutCopy(a, old(fs), subs[k])
        {
          assert subs[k] in subs;
        }
      }
    }
  }

  /**
   * Whatever plain copy one watches, a conversion keeps it at every state that a crash could leave, from
   * the first to the last: in its place, in its backup, under its preserved name, or in the framework.
   */
  method ConvertWatched(framework: Framework, reliable: bool, fs: Files, subs: seq<string>, a: Assembly,
                        ghost sub: string, ghost node: Node)
    returns (w: Workspace, outcome: Outcome)
    requires Distinct(subs) && sub in subs && IsPlainCopy(fs, sub) && At(fs, Live(sub)) == Some(node)
    ensures [fs] <= w.log && w.log[|w.log| - 1] == w.fs
    ensures forall st | st in w.log :: Survives(framework, st, sub, node)
  {
    w := new Workspace(framework, reliable, fs, sub, node);
    var ok;
    outcome, ok := w.RunMigration(subs, a);
  }

  /** A re-link whose assemble fails, after it has linked the agents, in a workspace that copied its commands. */
  method LinkedAgentsEndTheMigration() returns (w: Workspace, first: Outcome, second: Outcome)
    ensures first == Reverted && second == AlreadySymlinked
    ensures IsRealDir(w.fs, Live("commands"))
  {
    var commands: map<Rel, Content> := map[["a.md"] := "command"];
    var files: Files := map[Live("commands") := Dir(commands)];
    w := new Workspace(map["commands" := commands], true, files, "", Other);
    var subs := ["commands", "agents"];
    var a := Assembly(map["agents" := Some(Link(true, false))], None, false);
    assert subs[0] == "commands" && subs[1] == "agents";
    assert IsRealDir(w.fs, Live(subs[0])) && LinkWithoutCopy(a, w.fs, subs[1]);
    var ok;
    first, ok, second := w.RetryAfterRevert(subs, a, a);
  }

  /**
   * A workspace converted before, whose user agents went under the preserved name, and copied again
   * since with another custom agent in it: converting it leaves the earlier ones nowhere.
   */
  method EarlierAgentsAreLost() returns (w: Workspace, outcome: Outcome, earlier: Node)
    ensures earlier == Dir(map[["custom-earlier.md"] := "mine"]) && outcome == Migrated
    ensures forall sub ::
              At(w.fs, Live(sub)) != Some(earlier) && At(w.fs, Bak(sub)) != Some(earlier)
              && At(w.fs, Preserved(sub)) != Some(earlier)
  {
    earlier := Dir(map[["custom-earlier.md"] := "mine"]);
    var rel: Rel := ["custom-new.md"];
    var agents: map<Rel, Content> := map[rel := "new"];
    var files: Files := map[Live("agents") := Dir(agents), Preserved("agents") := earlier];
    w := new Workspace(map[], true, files, "", Other);
    var subs := ["agents"];
    var a := Assembly(map["agents" := Some(Link(true, false))], None, true);
    assert subs[0] == "agents" && IsRealDir(files, Live("agents"));
    assert IsCustomAgent(rel) by { assert "custom-" <= "custom-new.md"; }
    assert rel in agents && HoldsCustom(agents) && agents != map[["custom-earlier.md"] := "mine"];
    assert IsPlainCopy(files, "agents") && NoneDangling(files, subs);
    assert AllAgree(map[], files, subs) && Relinks(a, files, subs);
    var ok;
    outcome, ok := w.RunMigration(subs, a);
    forall sub
      ensures At(w.fs, Live(sub)) != Some(earlier) && At(w.fs, Bak(sub)) != Some(earlier)
      ensures At(w.fs, Preserved(sub)) != Some(earlier)
    {
      if sub == "agents" {
        assert At(files, Preserved(sub)) == Some(earlier) && At(files, Live(sub)) == Some(Dir(agents));
      } else {
        assert sub !in subs && At(files, Live(sub)).None?;
        assert At(files, Bak(sub)).None? && At(files, Preserved(sub)).None?;
      }
    }
  }

  ghost predicate Nowhere(fs: Files, node: Node) {
    forall sub ::
      At(fs, Live(sub)) != Some(node) && At(fs, Bak(sub)) != Some(node) && At(fs, Preserved(sub)) != Some(node)
  }

  /** A run over a copy of a subtree whose backup holds something else, and is the only thing that does. */
  method RetryOver(w: Workspace, sub: string, a: Assembly, ghost held: Node) returns (outcome: Outcome)
    requires w.Valid() && w.reliable && At(w.fs, Bak(sub)) == Some(held) && held.Dir?
    requires IsPlainCopy(w.fs, sub) && SubtreeAgrees(w.framework, w.fs, sub) && At(w.fs, Preserved(sub)).None?
    requires !HoldsCustom(At(w.fs, Live(sub)).value.files) && Nowhere(w.fs - {Bak(sub)}, held)
    requires a.assembled && a.made == map[sub := Some(Link(true, false))]
    modifies w`fs, w`log
    ensures outcome == Migrated && Nowhere(w.fs, held)
  {
    var subs := [sub];
    ghost var before := w.fs;
    assert subs[0] == sub && At(before, Live(sub)) == At(before - {Bak(sub)}, Live(sub));
    assert NoneDangling(before, subs) && AllAgree(w.framework, before, subs) && Relinks(a, before, subs);
    var ok;
    outcome, ok := w.RunMigration(subs, a);
    forall s ensures At(w.fs, Live(s)) != Some(held) && At(w.fs, Bak(s)) != Some(held)
             ensures At(w.fs, Preserved(s)) != Some(held)
    {
      var others := before - {Bak(sub)};
      assert At(others, Live(s)) != Some(held) && At(others, Bak(s)) != Some(held);
      assert At(others, Preserved(s)) != Some(held);
      assert At(others, Live(s)) == At(before, Live(s)) && At(others, Preserved(s)) == At(before, Preserved(s));
      if s != sub {
        assert s !in subs && At(others, Bak(s)) == At(before, Bak(s));
      }
    }
  }

  /** A run that crashes right after its assemble, which made a copy instead of a link. */
  method CrashAfterAssemble(w: Workspace, sub: string, copy: map<Rel, Content>, ghost held: Node)
    requires w.Valid() && w.reliable && w.fs == map[Live(sub) := held] && held.Dir? && held != Dir(copy)
    modifies w`fs, w`log
    ensures w.Valid() && At(w.fs, Live(sub)) == Some(Dir(copy)) && At(w.fs, Bak(sub)) == Some(held)
    ensures At(w.fs, Preserved(sub)).None? && Nowhere(w.fs - {Bak(sub)}, held)
  {
    var subs := [sub];
    assert subs[0] == sub && IsRealDir(w.fs, Live(sub)) && NoneDangling(w.fs, subs);
    var ok, backedUp := w.BackUp(subs);
    ghost var aside := w.fs;
    w.Assemble(Assembly(map[sub := Some(Dir(copy))], None, true));
    forall s ensures var others := w.fs - {Bak(sub)};
                     At(others, Live(s)) != Some(held) && At(others, Bak(s)) != Some(held)
                     && At(others, Preserved(s)) != Some(held)
    {
      if s != sub {
        assert s !in subs && At(aside, Bak(s)).None? && At(aside, Live(s)).None?;
      }
      assert At(aside, Preserved(s)).None?;
    }
  }

  /**
   * What a second run can undo. The first crashes after an assemble that copied the agents instead of
   * linking them. The next finds a copy that agrees with the framework and backs it up over the backup
   * that holds the user's own agents.
   */
  method CrashedRunThenRetry() returns (w: Workspace, outcome: Outcome, agents: Node)
    ensures outcome == Migrated && agents == Dir(map[["a.md"] := "agent", ["custom-mine.md"] := "mine"])
    ensures Nowhere(w.fs, agents)
  {
    var shipped: map<Rel, Content> := map[["a.md"] := "agent"];
    var held: map<Rel, Content> := map[["a.md"] := "agent", ["custom-mine.md"] := "mine"];
    agents := Dir(held);
    assert ["custom-mine.md"] in held && ["custom-mine.md"] !in shipped;
    w := new Workspace(map["agents" := shipped], true, map[Live("agents") := agents], "", Other);
    CrashAfterAssemble(w, "agents", shipped, agents);
    PlainShipped(shipped);
    outcome := RetryOver(w, "agents", Assembly(map["agents" := Some(Link(true, false))], None, true), agents);
  }

  lemma PlainShipped(shipped: map<Rel, Content>)
    requires shipped == map[["a.md"] := "agent"]
    ensures !HoldsMemory(shipped) && !HoldsCustom(shipped)
  {
    var rel: Rel := ["a.md"];
    assert shipped.Keys == {rel} && |rel| == 1;
    assert !("custom-" <= "a.md");
  }
}
