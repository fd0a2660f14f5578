/**
 * What a resume can undo. The first journal may be written while the workspace is still unpopulated: an
 * assemble that continues past errors returns when every provider failed. Each resume then assembles
 * again, over whatever has been moved to the places that an assemble seeds. And where a rename fails, the
 * copied source is removed piece by piece: a resume after half of that clears the complete copy and moves
 * what is left of the source.
 */
module MigrationResume {
  import opened Wrappers
  import opened FileTree
  import opened MigrationJournal
  import opened MigrationPlan

  /** Everything in `tree` is there below `root`; there may be more. */
  predicate Holds(fs: FileSystem, root: Path, tree: FileSystem) {
    forall r | r in tree :: root + r in fs && fs[root + r] == tree[r]
  }

  lemma SubtreeHolds(fs: FileSystem, root: Path, tree: FileSystem)
    requires Subtree(fs, root) == tree
    ensures Holds(fs, root, tree)
  {
    forall r | r in tree ensures root + r in fs && fs[root + r] == tree[r] {
      SubtreeAt(fs, root, r);
    }
  }

  lemma SameHolds(f: FileSystem, g: FileSystem, root: Path, tree: FileSystem)
    requires Subtree(g, root) == Subtree(f, root) && Holds(f, root, tree)
    ensures Holds(g, root, tree)
  {
    forall r | r in tree ensures root + r in g && g[root + r] == tree[r] {
      SubtreeAt(f, root, r);
      SubtreeAt(g, root, r);
    }
  }

  /** The tree that `m` moves is whole where it was or where it goes. */
  predicate Kept(m: Entry, f0: FileSystem, fs: FileSystem)
    requires m.Move?
  {
    Holds(fs, m.src, Subtree(f0, m.src)) || Holds(fs, m.dest, Subtree(f0, m.src))
  }

  /** In no state of no schedule from `f0` on is anything of a planned tree missing from both its ends. */
  ghost predicate NeverLoses(plan: seq<Entry>, strip: Strip, home: Home, f0: FileSystem) {
    forall run: seq<State>, k, i ::
      Schedule(plan, strip, home, run) && run[0] == State(f0, 0)
        && 0 <= k < |run| && 0 <= i < |plan| && plan[i].Move? ==>
        Kept(plan[i], f0, run[k].fs)
  }

  /** Every schedule from `f0` on that finishes leaves what an uninterrupted run leaves. */
  ghost predicate FinishesAlike(plan: seq<Entry>, strip: Strip, home: Home, f0: FileSystem) {
    forall run: seq<State> ::
      Schedule(plan, strip, home, run) && run[0] == State(f0, 0) && run[|run| - 1].done == |plan| ==>
        run[|run| - 1].fs == Effects(plan, strip, f0)
  }

  /** Something of what `m` moves lands where an assemble writes. */
  predicate Exposed(m: Entry, seeds: set<Path>, f0: FileSystem)
    requires m.Move?
  {
    exists r | r in Subtree(f0, m.src) :: Seeded(seeds, m.dest + r)
  }

  /** A resume may undo the move: an assemble writes over it, or a removal stops half-way. */
  predicate Vulnerable(m: Entry, home: Home, f0: FileSystem)
    requires m.Move?
  {
    (home.marker !in f0 && Exposed(m, home.seeds, f0)) || (!home.renames && !IsSingle(m, f0))
  }

  // ---- What no resume can undo ----

  /** As in `MoveInPlace`, but an assemble may have added to a tree that has arrived. */
  predicate HeldInPlace(m: Entry, i: int, f0: FileSystem, s: State)
    requires m.Move?
  {
    if i < s.done then Holds(s.fs, m.dest, Subtree(f0, m.src))
    else if i > s.done then AtSource(s.fs, f0, m)
    else AtSource(s.fs, f0, m) || (m.src !in s.fs && Holds(s.fs, m.dest, Subtree(f0, m.src)))
  }

  lemma CleanupKeepsHeld(e: Entry, strip: Strip, f: FileSystem, g: FileSystem, dest: Path, tree: FileSystem)
    requires !e.Move? && Attempt(e, strip, f, g) && Spares(e, dest, tree) && Holds(f, dest, tree)
    ensures Holds(g, dest, tree)
  {
    forall r | r in tree ensures dest + r in g && g[dest + r] == tree[r] {
      assert dest + r in f && f[dest + r] == tree[r];
    }
  }

  lemma StepKeepsHeld(plan: seq<Entry>, strip: Strip, f0: FileSystem, s: State, t: State, i: nat)
    requires MovesApart(plan) && SparesMoved(plan, f0) && Step(plan, strip, s, t)
    requires i < |plan| && plan[i].Move? && plan[i].src in f0 && HeldInPlace(plan[i], i, f0, s)
    requires MovesFirst(plan)
    ensures HeldInPlace(plan[i], i, f0, t)
  {
    var e, m := plan[s.done], plan[i];
    var tree := Subtree(f0, m.src);
    if AtSource(s.fs, f0, m) {
      RootOf(f0, s.fs, m.src);
    }
    if t.done == s.done + 1 {
      if i == s.done && m.src in s.fs {
        MovedDisappears(m, strip, s.fs);
        assert false;
      }
    } else if i == s.done {
      if m.src in s.fs {
        MoveAttempted(m, strip, s.fs, t.fs);
        if !AtSource(t.fs, f0, m) { SubtreeHolds(t.fs, m.dest, tree); }
      }
    } else if e.Move? {
      MoveLeavesAlone(e, strip, s.fs, t.fs, m.src);
      MoveLeavesAlone(e, strip, s.fs, t.fs, m.dest);
      if i < s.done { SameHolds(s.fs, t.fs, m.dest, tree); }
    } else {
      CleanupKeepsHeld(e, strip, s.fs, t.fs, m.dest, tree);
    }
  }

  lemma ReassemblyKeepsHeld(plan: seq<Entry>, home: Home, f0: FileSystem, s: State, t: State, i: nat)
    requires Reassembly(plan, home, s, t) && i < |plan| && plan[i].Move? && HeldInPlace(plan[i], i, f0, s)
    requires home.repo <= plan[i].src && !Exposed(plan[i], home.seeds, f0)
    ensures HeldInPlace(plan[i], i, f0, t)
  {
    var m := plan[i];
    SameSubtree(s.fs, t.fs, m.src);
    var tree := Subtree(f0, m.src);
    if Holds(s.fs, m.dest, tree) {
      forall r | r in tree ensures m.dest + r in t.fs && t.fs[m.dest + r] == tree[r] {
        assert !Seeded(home.seeds, m.dest + r);
      }
    }
  }

  lemma PartLeavesAlone(src: Path, dest: Path, f: FileSystem, g: FileSystem, root: Path)
    requires PartlyRemoved(src, dest, f, g) && Apart(root, src) && Apart(root, dest)
    ensures Subtree(g, root) == Subtree(f, root)
  {
    forall p | (p in f || p in g) && root <= p ensures !(src <= p) && !(dest <= p) {
      if src <= p { PrefixesOfOne(src, root, p); }
      if dest <= p { PrefixesOfOne(dest, root, p); }
    }
    SameSubtree(f, g, root);
  }

  /** A half removal of another source leaves a tree alone; one of its own is no half removal. */
  lemma PartKeepsHeld(plan: seq<Entry>, strip: Strip, home: Home, f0: FileSystem, s: State, t: State, i: nat)
    requires PartRemoval(plan, home, s, t) && MovesApart(plan) && MovesFirst(plan) && SparesMoved(plan, f0)
    requires i < |plan| && plan[i].Move? && plan[i].src in f0 && HeldInPlace(plan[i], i, f0, s)
    requires IsSingle(plan[i], f0) || i != s.done
    ensures HeldInPlace(plan[i], i, f0, t)
  {
    var e, m := plan[s.done], plan[i];
    if i == s.done {
      assert AtSource(s.fs, f0, m);
      PartOfSingle(m, strip, s.fs, t.fs);
      StepKeepsHeld(plan, strip, f0, s, t, i);
    } else {
      PartLeavesAlone(e.src, e.dest, s.fs, t.fs, m.src);
      PartLeavesAlone(e.src, e.dest, s.fs, t.fs, m.dest);
      if i < s.done { SameHolds(s.fs, t.fs, m.dest, Subtree(f0, m.src)); }
    }
  }

  /** What is asked of a plan, and of a move in it for no resume to undo it. */
  ghost predicate Invulnerable(plan: seq<Entry>, home: Home, f0: FileSystem, i: nat) {
    && MovesApart(plan) && MovesFirst(plan) && SparesMoved(plan, f0) && KeepsMarker(plan, home.marker)
    && i < |plan| && plan[i].Move? && plan[i].src in f0
    && home.repo <= plan[i].src && !Vulnerable(plan[i], home, f0)
  }

  lemma AnyStepKeepsHeld(plan: seq<Entry>, strip: Strip, home: Home, f0: FileSystem, s: State, t: State, i: nat)
    requires Next(plan, strip, home, s, t) && (home.marker in f0 ==> !Reassembly(plan, home, s, t))
    requires Invulnerable(plan, home, f0, i) && HeldInPlace(plan[i], i, f0, s)
    ensures HeldInPlace(plan[i], i, f0, t)
  {
    if Step(plan, strip, s, t) {
      StepKeepsHeld(plan, strip, f0, s, t, i);
    } else if Reassembly(plan, home, s, t) {
      ReassemblyKeepsHeld(plan, home, f0, s, t, i);
    } else {
      PartKeepsHeld(plan, strip, home, f0, s, t, i);
    }
  }

  lemma StepsKeepHeld(plan: seq<Entry>, strip: Strip, home: Home, run: seq<State>, i: nat)
    requires Schedule(plan, strip, home, run) && Invulnerable(plan, home, run[0].fs, i)
    ensures forall n | 0 <= n < |run| - 1 && HeldInPlace(plan[i], i, run[0].fs, run[n]) ::
              HeldInPlace(plan[i], i, run[0].fs, run[n + 1])
  {
    forall n | 0 <= n < |run| - 1 && HeldInPlace(plan[i], i, run[0].fs, run[n])
      ensures HeldInPlace(plan[i], i, run[0].fs, run[n + 1])
    {
      if home.marker in run[0].fs { NeverReassembles(plan, strip, home, run, n); }
      AnyStepKeepsHeld(plan, strip, home, run[0].fs, run[n], run[n + 1], i);
    }
  }

  /** Wherever a schedule stands, a tree that no resume can undo is whole at one of its ends. */
  lemma InvulnerableIsKept(plan: seq<Entry>, strip: Strip, home: Home, run: seq<State>, k: nat, i: nat)
    requires Schedule(plan, strip, home, run) && run[0].done == 0 && k < |run|
    requires Invulnerable(plan, home, run[0].fs, i)
    ensures Kept(plan[i], run[0].fs, run[k].fs)
  {
    StepsKeepHeld(plan, strip, home, run, i);
    var m, f0 := plan[i], run[0].fs;
    HoldsThroughout(run, s => HeldInPlace(m, i, f0, s), k);
    if AtSource(run[k].fs, run[0].fs, plan[i]) {
      SubtreeHolds(run[k].fs, plan[i].src, Subtree(run[0].fs, plan[i].src));
    }
  }

  // ---- An assemble over what was moved ----

  lemma {:induction false} EffectsThen(plan: seq<Entry>, e: Entry, strip: Strip, fs: FileSystem)
    ensures Effects(plan + [e], strip, fs) == Effect(e, strip, Effects(plan, strip, fs))
  {
    if plan == [] {
      assert plan + [e] == [e] && [e][1..] == [];
    } else {
      assert (plan + [e])[1..] == plan[1..] + [e];
      EffectsThen(plan[1..], e, strip, Effect(plan[0], strip, fs));
    }
  }

  /** A schedule of the first entries of a plan is one of the plan. */
  lemma ScheduleOfMore(plan: seq<Entry>, n: nat, strip: Strip, home: Home, run: seq<State>)
    requires n <= |plan| && Schedule(plan[..n], strip, home, run)
    ensures Schedule(plan, strip, home, run)
  {
    forall i | 0 <= i < |run| - 1 ensures Next(plan, strip, home, run[i], run[i + 1]) {
      assert Next(plan[..n], strip, home, run[i], run[i + 1]);
    }
  }

  /** The moves before the `i`th leave its source where it is. */
  lemma MovesBefore(plan: seq<Entry>, strip: Strip, f0: FileSystem, i: nat)
    requires MovesApart(plan) && MovesFirst(plan) && i < |plan| && plan[i].Move? && plan[i].src in f0
    ensures plan[i].src in Effects(plan[..i], strip, f0)
  {
    var m, before := plan[i], plan[..i];
    forall e | e in before ensures e.Move? && Apart(e.src, e.dest) && !(e.src <= m.src) && !(e.dest <= m.src) {
      var j :| 0 <= j < i && plan[j] == e;
    }
    GoneIffDeleted(before, strip, f0, m.src);
  }

  /** After the moves up to the `i`th, its source is gone. */
  lemma MovedAway(plan: seq<Entry>, strip: Strip, f0: FileSystem, i: nat, r: Path)
    requires MovesApart(plan) && MovesFirst(plan) && i < |plan| && plan[i].Move? && plan[i].src in f0
    ensures plan[i].src + r !in Effects(plan[..i + 1], strip, f0)
  {
    var m, before := plan[i], plan[..i];
    assert plan[..i + 1] == before + [m];
    EffectsThen(before, m, strip, f0);
    MovesBefore(plan, strip, f0, i);
    MovedAt(m.src, m.dest, strip, Effects(before, strip, f0), m.src + r);
  }

  /** A file with other content, for a workspace's default to be. */
  function Default(node: Node): (seed: Node)
    ensures seed != node
  {
    if node == File("") then Dir else File("")
  }

  /** The disk after an assemble that writes a default at `p`. */
  lemma DefaultWritten(plan: seq<Entry>, home: Home, s: State, p: Path, node: Node)
    requires s.done < |plan| && home.marker !in s.fs && Seeded(home.seeds, p) && !(home.repo <= p)
    ensures Reassembly(plan, home, s, State(s.fs[p := node], s.done))
  {
  }

  /** The moves up to the `i`th, carried out and journaled. */
  lemma FirstMoves(plan: seq<Entry>, strip: Strip, home: Home, f0: FileSystem, i: nat) returns (run: seq<State>)
    requires MovesApart(plan) && Idempotent(strip) && KeepsMarker(plan, home.marker) && home.marker !in f0
    requires i < |plan|
    ensures Schedule(plan, strip, home, run) && run[0] == State(f0, 0)
    ensures run[|run| - 1] == State(Effects(plan[..i + 1], strip, f0), i + 1)
    ensures home.marker !in run[|run| - 1].fs
  {
    var first := plan[..i + 1];
    run := CanFinish(first, strip, home, State(f0, 0));
    ScheduleOfMore(plan, i + 1, strip, home, run);
    assert first[0..] == first;
    assert forall e | e in first :: e in plan;
    GoneIffDeleted(first, strip, f0, home.marker);
  }

  /** Then a resume whose assemble writes a default over what the last of them carried. */
  lemma ReassemblyLoses(plan: seq<Entry>, strip: Strip, home: Home, f0: FileSystem, i: nat, r: Path)
    returns (run: seq<State>)
    requires MovesApart(plan) && MovesFirst(plan) && Idempotent(strip) && i + 1 < |plan|
    requires plan[i].Move? && plan[i].src in f0 && Apart(plan[i].dest, home.repo)
    requires KeepsMarker(plan, home.marker) && home.marker !in f0
    requires r in Subtree(f0, plan[i].src) && Seeded(home.seeds, plan[i].dest + r)
    ensures Schedule(plan, strip, home, run) && run[0] == State(f0, 0) && !Kept(plan[i], f0, run[|run| - 1].fs)
  {
    run := FirstMoves(plan, strip, home, f0, i);
    MovedAway(plan, strip, f0, i, r);
    var s, p, node := run[|run| - 1], plan[i].dest + r, Default(Subtree(f0, plan[i].src)[r]);
    ApartBelow(plan[i].dest, home.repo, r);
    DefaultWritten(plan, home, s, p, node);
    ScheduleGrows(plan, strip, home, run, State(s.fs[p := node], s.done));
    run := run + [State(s.fs[p := node], s.done)];
    LostUnder(plan[i], f0, s.fs, r, node);
  }

  lemma ApartBelow(p: Path, q: Path, r: Path)
    requires Apart(p, q)
    ensures !(q <= p + r)
  {
    var below := p + r;
    if q <= below { PrefixesOfOne(p, q, below); }
  }

  lemma LostUnder(m: Entry, f0: FileSystem, fs: FileSystem, r: Path, node: Node)
    requires m.Move? && Apart(m.src, m.dest) && r in Subtree(f0, m.src) && node != Subtree(f0, m.src)[r]
    requires m.src + r !in fs
    ensures !Kept(m, f0, fs[m.dest + r := node])
  {
    ApartBelow(m.src, m.dest, r);
    assert m.dest <= m.dest + r;
  }

  /** A resume whose assemble populates the workspace after all, then the rest. */
  lemma ReassemblyDiffers(plan: seq<Entry>, strip: Strip, home: Home, f0: FileSystem) returns (run: seq<State>)
    requires MovesApart(plan) && Idempotent(strip) && plan != []
    requires KeepsMarker(plan, home.marker) && home.marker !in f0
    requires home.marker in home.seeds && !(home.repo <= home.marker)
    ensures Schedule(plan, strip, home, run) && run[0] == State(f0, 0) && run[|run| - 1].done == |plan|
    ensures run[|run| - 1].fs != Effects(plan, strip, f0)
  {
    var g0 := f0[home.marker := File("")];
    DefaultWritten(plan, home, State(f0, 0), home.marker, File(""));
    var tail := CanFinish(plan, strip, home, State(g0, 0));
    run := [State(f0, 0)] + tail;
    forall i | 0 <= i < |run| - 1 ensures Next(plan, strip, home, run[i], run[i + 1]) {
      if i >= 1 {
        assert Next(plan, strip, home, tail[i - 1], tail[i]);
      }
    }
    assert plan[0..] == plan;
    GoneIffDeleted(plan, strip, f0, home.marker);
    GoneIffDeleted(plan, strip, g0, home.marker);
  }

  // ---- A removal that stops half-way ----

  /** The copy complete, and of the source everything but what is below `r`. */
  function HalfMoved(m: Entry, fs: FileSystem, r: Path): FileSystem
    requires m.Move?
  {
    Without(Graft(fs, m.dest, Subtree(fs, m.src)), m.src + r)
  }

  lemma HalfMovedAt(m: Entry, fs: FileSystem, r: Path, p: Path)
    requires m.Move? && Apart(m.src, m.dest)
    ensures var half := HalfMoved(m, fs, r);
            && (m.src <= p ==> (p in half <==> p in fs && !(m.src + r <= p)))
            && (!(m.src <= p) && !(m.dest <= p) ==> (p in half <==> p in fs))
            && (!(m.dest <= p) && p in half ==> half[p] == fs[p])
  {
    GraftAt(fs, m.dest, Subtree(fs, m.src), p);
    if m.src <= p && m.dest <= p { PrefixesOfOne(m.src, m.dest, p); }
    if m.src + r <= p { assert m.src <= m.src + r; }
  }

  lemma HalfMovedKeepsCopy(m: Entry, fs: FileSystem, r: Path)
    requires m.Move? && Apart(m.src, m.dest)
    ensures Subtree(HalfMoved(m, fs, r), m.dest) == Subtree(fs, m.src)
  {
    var src, dest, tree := m.src, m.dest, Subtree(fs, m.src);
    var copied, half := Graft(fs, dest, tree), HalfMoved(m, fs, r);
    SubtreeOfGraft(fs, dest, tree);
    forall p | p in copied && dest <= p ensures p in half {
      assert src <= src + r;
      if src <= p { PrefixesOfOne(src, dest, p); }
    }
    assert SameUnder(copied, half, dest);
    SameSubtree(copied, half, dest);
  }

  lemma HalfMovedIsPart(m: Entry, fs: FileSystem, r: Path)
    requires m.Move? && Apart(m.src, m.dest) && m.src in fs && r != []
    ensures PartlyRemoved(m.src, m.dest, fs, HalfMoved(m, fs, r)) && m.src + r !in HalfMoved(m, fs, r)
  {
    var src, dest, half := m.src, m.dest, HalfMoved(m, fs, r);
    HalfMovedKeepsCopy(m, fs, r);
    HalfMovedAt(m, fs, r, src);
    assert |src + r| > |src|;
    forall p | p in half && src <= p ensures p in fs && half[p] == fs[p] {
      HalfMovedAt(m, fs, r, p);
      if dest <= p { PrefixesOfOne(src, dest, p); }
    }
    forall p | !(src <= p) && !(dest <= p) ensures p in half <==> p in fs
                                           ensures p in fs ==> half[p] == fs[p]
    {
      HalfMovedAt(m, fs, r, p);
    }
  }

  /** The moves before the `i`th, journaled; then half of the `i`th. */
  lemma HalfAMove(plan: seq<Entry>, strip: Strip, home: Home, f0: FileSystem, i: nat, r: Path)
    returns (run: seq<State>)
    requires MovesApart(plan) && MovesFirst(plan) && SparesMoved(plan, f0) && Idempotent(strip)
    requires forall j | 0 <= j < |plan| && plan[j].Move? :: plan[j].src in f0
    requires i < |plan| && plan[i].Move? && !home.renames && r != []
    ensures Schedule(plan, strip, home, run) && run[0] == State(f0, 0) && run[|run| - 1].done == i
    ensures plan[i].src in run[|run| - 1].fs && plan[i].src + r !in run[|run| - 1].fs
  {
    var m, first := plan[i], plan[..i];
    run := CanFinish(first, strip, home, State(f0, 0));
    ScheduleOfMore(plan, i, strip, home, run);
    assert first[0..] == first;
    var s := run[|run| - 1];
    MovesBefore(plan, strip, f0, i);
    HalfMovedIsPart(m, s.fs, r);
    var half := State(HalfMoved(m, s.fs, r), i);
    assert PartRemoval(plan, home, s, half);
    ScheduleGrows(plan, strip, home, run, half);
    run := run + [half];
  }

  /** The resume clears the complete copy and moves what is left. */
  lemma RetryMovesTheRest(m: Entry, strip: Strip, fs: FileSystem, r: Path)
    requires m.Move? && Apart(m.src, m.dest) && m.src in fs && m.src + r !in fs
    ensures m.src + r !in Effect(m, strip, fs) && m.dest + r !in Effect(m, strip, fs)
  {
    MovedAt(m.src, m.dest, strip, fs, m.src + r);
    MovedAt(m.src, m.dest, strip, fs, m.dest + r);
    assert (m.dest + r)[|m.dest|..] == r;
  }

  lemma PartRemovalLoses(plan: seq<Entry>, strip: Strip, home: Home, f0: FileSystem, i: nat, r: Path)
    returns (run: seq<State>)
    requires MovesApart(plan) && MovesFirst(plan) && SparesMoved(plan, f0) && Idempotent(strip)
    requires forall j | 0 <= j < |plan| && plan[j].Move? :: plan[j].src in f0
    requires i < |plan| && plan[i].Move? && !home.renames && r in Subtree(f0, plan[i].src) && r != []
    ensures Schedule(plan, strip, home, run) && run[0] == State(f0, 0) && !Kept(plan[i], f0, run[|run| - 1].fs)
  {
    run := HalfAMove(plan, strip, home, f0, i, r);
    var s := run[|run| - 1];
    var retried := State(Effect(plan[i], strip, s.fs), i);
    RetryMovesTheRest(plan[i], strip, s.fs, r);
    assert Step(plan, strip, s, retried);
    ScheduleGrows(plan, strip, home, run, retried);
    run := run + [retried];
  }

  lemma {:induction false} ScheduleJoins(plan: seq<Entry>, strip: Strip, home: Home, a: seq<State>, b: seq<State>)
    requires Schedule(plan, strip, home, a) && Schedule(plan, strip, home, b) && a[|a| - 1] == b[0]
    ensures Schedule(plan, strip, home, a + b[1..])
  {
    var run := a + b[1..];
    forall i | 0 <= i < |run| - 1 ensures Next(plan, strip, home, run[i], run[i + 1]) {
      if i < |a| - 1 {
        assert Next(plan, strip, home, a[i], a[i + 1]);
      } else {
        assert Next(plan, strip, home, b[i - (|a| - 1)], b[i - (|a| - 1) + 1]);
      }
    }
  }

  /** Nothing that comes after a move brings back what it did not carry. */
  lemma StaysAway(plan: seq<Entry>, strip: Strip, i: nat, fs: FileSystem, r: Path)
    requires MovesApart(plan) && i < |plan| && plan[i].Move? && plan[i].dest + r !in fs
    ensures plan[i].dest + r !in Effects(plan[i + 1..], strip, fs)
  {
    var rest, p := plan[i + 1..], plan[i].dest + r;
    forall e | e in rest && e.Move? ensures Apart(e.src, e.dest) && !(e.src <= p) && !(e.dest <= p) {
      var j :| 0 <= j < |rest| && rest[j] == e;
      assert plan[i + 1 + j] == e;
      ApartBelow(plan[i].dest, e.src, r);
      ApartBelow(plan[i].dest, e.dest, r);
    }
    GoneIffDeleted(rest, strip, fs, p);
  }

  lemma PartRemovalDiffers(plan: seq<Entry>, strip: Strip, home: Home, f0: FileSystem, i: nat, r: Path)
    returns (run: seq<State>)
    requires MovesApart(plan) && MovesFirst(plan) && SparesMoved(plan, f0) && Idempotent(strip)
    requires forall j | 0 <= j < |plan| && plan[j].Move? :: plan[j].src in f0
    requires i < |plan| && plan[i].Move? && !home.renames && r in Subtree(f0, plan[i].src) && r != []
    ensures Schedule(plan, strip, home, run) && run[0] == State(f0, 0) && run[|run| - 1].done == |plan|
    ensures run[|run| - 1].fs != Effects(plan, strip, f0)
  {
    var m := plan[i];
    var first := HalfAMove(plan, strip, home, f0, i, r);
    var s := first[|first| - 1];
    var tail := CanFinish(plan, strip, home, s);
    ScheduleJoins(plan, strip, home, first, tail);
    run := first + tail[1..];
    assert plan[i..][0] == m && plan[i..][1..] == plan[i + 1..];
    RetryMovesTheRest(m, strip, s.fs, r);
    StaysAway(plan, strip, i, Effect(m, strip, s.fs), r);
    assert m.dest + r !in Outcome(plan, strip, s);
    assert plan[0..] == plan;
    EffectsKeepInPlace(plan, strip, f0, State(f0, 0));
    assert MoveInPlace(m, i, f0, State(Effects(plan, strip, f0), |plan|));
    SubtreeAt(Effects(plan, strip, f0), m.dest, r);
  }

  // ---- A project's own plan ----

  /** Of a project's plan the residue delete is left when the moves are done, and the moves leave the repository. */
  lemma MovesOfPlan(project: Project, fs: FileSystem)
    requires project.DirsOk() && Apart(project.repo, project.workspace)
    ensures var plan := project.Plan(fs);
            && plan != []
            && forall i | 0 <= i < |plan| && plan[i].Move? ::
                 && i + 1 < |plan| && project.repo <= plan[i].src && Apart(plan[i].dest, project.repo)
                 && plan[i].src[|project.repo|..] in StatePlaces(STATE_ENTRIES, project.dirs)
                 && plan[i].dest == project.workspace + plan[i].src[|project.repo|..]
  {
    var entries, repo, workspace, plan := STATE_ENTRIES, project.repo, project.workspace, project.Plan(fs);
    var places := StatePlaces(entries, project.dirs);
    var n := |MovesFor(fs, repo, workspace, places)|;
    StatePlacesOk(entries, project.dirs);
    PlanForIsSound(project, fs, places);
    CleanupIsLast(project, fs, places);
    forall i | 0 <= i < |plan| && plan[i].Move?
      ensures i < n && MovesOneOf(plan[i], fs, repo, workspace, places) && Apart(plan[i].dest, repo)
    {
      SeparatePlaces(repo, workspace, repo, plan[i].dest);
    }
  }

  lemma CleanupIsLast(project: Project, fs: FileSystem, places: seq<Path>)
    ensures |project.PlanFor(fs, places)| > |MovesFor(fs, project.repo, project.workspace, places)|
  {
  }

  predicate AnyVulnerable(plan: seq<Entry>, home: Home, f0: FileSystem) {
    exists i | 0 <= i < |plan| && plan[i].Move? :: Vulnerable(plan[i], home, f0)
  }

  /**
   * Exactly when a project's state survives every schedule: when every tree that is to be moved meets two
   * conditions. The workspace is populated as the first journal is written, or nothing of the tree lands
   * where an assemble writes; and renames succeed, or the tree is a single file.
   */
  lemma StateIsSafeExactly(project: Project, strip: Strip, f0: FileSystem)
    requires project.DirsOk() && Apart(project.repo, project.workspace) && Idempotent(strip)
    ensures var plan, home := project.Plan(f0), project.Site();
            NeverLoses(plan, strip, home, f0) <==> !AnyVulnerable(plan, home, f0)
  {
    var plan, home := project.Plan(f0), project.Site();
    PlanIsSound(project, f0);
    PlanKeepsMarker(project, f0);
    MovesOfPlan(project, f0);
    if !AnyVulnerable(plan, home, f0) {
      forall run: seq<State>, k, i |
        Schedule(plan, strip, home, run) && run[0] == State(f0, 0) && 0 <= k < |run| && 0 <= i < |plan| && plan[i].Move?
        ensures Kept(plan[i], f0, run[k].fs)
      {
        InvulnerableIsKept(plan, strip, home, run, k, i);
      }
    } else {
      var i :| 0 <= i < |plan| && plan[i].Move? && Vulnerable(plan[i], home, f0);
      var run := VulnerableIsLost(plan, strip, home, f0, i);
      assert 0 <= |run| - 1 < |run| && run[0] == State(f0, 0);
    }
  }

  lemma VulnerableIsLost(plan: seq<Entry>, strip: Strip, home: Home, f0: FileSystem, i: nat) returns (run: seq<State>)
    requires MovesApart(plan) && MovesFirst(plan) && SparesMoved(plan, f0) && Idempotent(strip)
    requires forall j | 0 <= j < |plan| && plan[j].Move? :: plan[j].src in f0
    requires i + 1 < |plan| && plan[i].Move? && Apart(plan[i].dest, home.repo) && KeepsMarker(plan, home.marker)
    requires Vulnerable(plan[i], home, f0)
    ensures Schedule(plan, strip, home, run) && run[0] == State(f0, 0) && !Kept(plan[i], f0, run[|run| - 1].fs)
  {
    if home.marker !in f0 && Exposed(plan[i], home.seeds, f0) {
      var r :| r in Subtree(f0, plan[i].src) && Seeded(home.seeds, plan[i].dest + r);
      run := ReassemblyLoses(plan, strip, home, f0, i, r);
    } else {
      var r :| r in Subtree(f0, plan[i].src) && r != [];
      run := PartRemovalLoses(plan, strip, home, f0, i, r);
    }
  }

  /**
   * Exactly when every finished schedule agrees: when the workspace is populated at the first journal,
   * and renames succeed or every tree that is to be moved is a single file.
   */
  lemma FinishedRunsAgreeExactly(project: Project, strip: Strip, f0: FileSystem)
    requires project.DirsOk() && Apart(project.repo, project.workspace) && Idempotent(strip)
    ensures var plan, home := project.Plan(f0), project.Site();
            FinishesAlike(plan, strip, home, f0) <==> home.marker in f0 && (home.renames || AllSingle(plan, f0))
  {
    var plan, home := project.Plan(f0), project.Site();
    PlanIsSound(project, f0);
    PlanKeepsMarker(project, f0);
    MovesOfPlan(project, f0);
    if home.marker !in f0 {
      SeparatePlaces(project.repo, project.workspace, project.repo, home.marker);
      var run := ReassemblyDiffers(plan, strip, home, f0);
    } else if !home.renames && !AllSingle(plan, f0) {
      var i :| 0 <= i < |plan| && plan[i].Move? && !IsSingle(plan[i], f0);
      var r :| r in Subtree(f0, plan[i].src) && r != [];
      var run := PartRemovalDiffers(plan, strip, home, f0, i, r);
    } else {
      forall run: seq<State> | Schedule(plan, strip, home, run) && run[0] == State(f0, 0)
                               && run[|run| - 1].done == |plan|
        ensures run[|run| - 1].fs == Effects(plan, strip, f0)
      {
        NeverDisturbed(plan, strip, home, run);
        FinishedRunsAgree(plan, strip, run, |run| - 1);
      }
    }
  }

  /**
   * Where renames succeed, state in none of the places an assemble seeds, tickets for one, survives however
   * the workspace began.
   */
  lemma UnseededStateIsSafe(project: Project, strip: Strip, f0: FileSystem)
    requires project.DirsOk() && Apart(project.repo, project.workspace) && Idempotent(strip)
    requires project.renames && PlacesUnseeded(project, StatePlaces(STATE_ENTRIES, project.dirs), f0)
    ensures NeverLoses(project.Plan(f0), strip, project.Site(), f0)
  {
    var plan, entries := project.Plan(f0), STATE_ENTRIES;
    var places := StatePlaces(entries, project.dirs);
    PlanIsSound(project, f0);
    MovesOfPlan(project, f0);
    StatePlacesOk(entries, project.dirs);
    forall i | 0 <= i < |plan| && plan[i].Move? ensures !Exposed(plan[i], project.Site().seeds, f0) {
      MoveIsUnexposed(project, places, f0, plan[i]);
    }
    StateIsSafeExactly(project, strip, f0);
  }

  /** No place of state that exists meets a place an assemble seeds. */
  ghost predicate PlacesUnseeded(project: Project, places: seq<Path>, f0: FileSystem) {
    forall place, q | place in places && q in project.seeds && project.repo + place in f0 :: Apart(place, q)
  }

  lemma MoveIsUnexposed(project: Project, places: seq<Path>, f0: FileSystem, m: Entry)
    requires PlacesUnseeded(project, places, f0) && m.Move? && m.src in f0 && project.repo <= m.src
    requires m.src[|project.repo|..] in places && m.dest == project.workspace + m.src[|project.repo|..]
    requires MARKER !in places && forall p | p in places :: |p| == 2
    ensures !Exposed(m, project.Site().seeds, f0)
  {
    var place := m.src[|project.repo|..];
    assert project.repo + place == m.src;
    PlaceIsUnseeded(project, place, f0, m);
  }

  lemma PlaceIsUnseeded(project: Project, place: Path, f0: FileSystem, m: Entry)
    requires m.Move? && m.dest == project.workspace + place && |place| == 2 && place != MARKER
    requires forall q | q in project.seeds :: Apart(place, q)
    ensures !Exposed(m, project.Site().seeds, f0)
  {
    var workspace, mark := project.workspace, MARKER;
    assert |mark| == 2;
    forall r, q | q in project.seeds + {mark} ensures !(workspace + q <= m.dest + r) {
      assert m.dest + r == workspace + (place + r);
      PrefixBelow(workspace, q, place + r);
      if q <= place + r { PrefixesOfOne(q, place, place + r); }
    }
  }

  lemma PrefixBelow(root: Path, q: Path, p: Path)
    ensures root + q <= root + p <==> q <= p
  {
    assert (root + p)[|root|..] == p && (root + q)[|root|..] == q;
    if root + q <= root + p {
      assert q == (root + p)[..|root + q|][|root|..] == p[..|q|];
    }
  }

  /** An existing state entry has its move. */
  lemma EntryIsMoved(project: Project, f0: FileSystem, entry: string, m: Entry) returns (i: nat)
    requires entry in STATE_ENTRIES && m.Move? && m.src in f0
    requires m == Move(project.repo + [".specrails", entry], project.workspace + [".specrails", entry])
    ensures i < |project.Plan(f0)| && project.Plan(f0)[i] == m
  {
    var entries := STATE_ENTRIES;
    var moves := MovesFor(f0, project.repo, project.workspace, StatePlaces(entries, project.dirs));
    StateIsAllMoved(f0, project.repo, project.workspace, entries, project.dirs);
    assert m in moves;
    i :| 0 <= i < |moves| && moves[i] == m;
    assert project.Plan(f0)[i] == m;
  }

  lemma PlaceIsSeeded(project: Project, place: Path, name: string)
    requires place + [name] in project.seeds
    ensures Seeded(project.Site().seeds, project.workspace + place + [name])
  {
    var p := project.workspace + (place + [name]);
    assert p in project.Site().seeds && p == project.workspace + place + [name];
  }

  /** State in a file that an assemble seeds too. */
  lemma SeededFileIsLost(project: Project, strip: Strip, f0: FileSystem, i: nat, place: Path, name: string)
    returns (run: seq<State>)
    requires project.DirsOk() && Apart(project.repo, project.workspace) && Idempotent(strip)
    requires place + [name] in project.seeds && project.Site().marker !in f0
    requires i < |project.Plan(f0)| && project.Plan(f0)[i] == Move(project.repo + place, project.workspace + place)
    requires project.repo + place in f0 && project.repo + place + [name] in f0
    ensures Schedule(project.Plan(f0), strip, project.Site(), run) && run[0] == State(f0, 0)
    ensures !Kept(project.Plan(f0)[i], f0, run[|run| - 1].fs)
  {
    var plan, home := project.Plan(f0), project.Site();
    PlanIsSound(project, f0);
    PlanKeepsMarker(project, f0);
    MovesOfPlan(project, f0);
    SubtreeAt(f0, project.repo + place, [name]);
    PlaceIsSeeded(project, place, name);
    run := ReassemblyLoses(plan, strip, home, f0, i, [name]);
  }

  /**
   * A repository whose only state is its default profile, a workspace that no provider populated, and
   * assembles that seed a default profile: the profile is moved and journaled, and the resume after a
   * crash writes the default over it.
   */
  lemma DefaultProfileIsLost(strip: Strip) returns (project: Project, f0: FileSystem, m: Entry, run: seq<State>)
    requires Idempotent(strip)
    ensures project == Project(["repo"], ["home", "workspace"], [], [], false,
                               {[".specrails", STATE_ENTRIES[0], "default.json"]}, true)
    ensures m == Move(project.repo + [".specrails", STATE_ENTRIES[0]],
                      project.workspace + [".specrails", STATE_ENTRIES[0]])
    ensures f0 == map[m.src := Dir, m.src + ["default.json"] := File("mine")]
    ensures m in project.Plan(f0) && Schedule(project.Plan(f0), strip, project.Site(), run) && run[0] == State(f0, 0)
    ensures !Kept(m, f0, run[|run| - 1].fs)
  {
    var entry, name := STATE_ENTRIES[0], "default.json";
    var place: Path := [".specrails", entry];
    assert place + [name] == [".specrails", entry, name];
    project := Project(["repo"], ["home", "workspace"], [], [], false, {place + [name]}, true);
    m := Move(project.repo + place, project.workspace + place);
    f0 := map[m.src := Dir, m.src + [name] := File("mine")];
    assert project.repo[0] == "repo" && project.workspace[0] == "home";
    DifferAt(project.repo, project.workspace, 0);
    assert m.src[0] == "repo" && (m.src + [name])[0] == "repo" && project.Site().marker[0] == "home";
    var i := EntryIsMoved(project, f0, entry, m);
    run := SeededFileIsLost(project, strip, f0, i, place, name);
  }

  /**
   * A repository on another device than its populated workspace, with one profile: the copy is complete,
   * the removal of the source stops after the profile, and the resume replaces the copy by what is left.
   */
  lemma HalfRemovedProfileIsLost(strip: Strip) returns (project: Project, f0: FileSystem, m: Entry, run: seq<State>)
    requires Idempotent(strip)
    ensures project == Project(["repo"], ["home", "workspace"], [], [], false, {}, false)
    ensures m == Move(project.repo + [".specrails", STATE_ENTRIES[0]],
                      project.workspace + [".specrails", STATE_ENTRIES[0]])
    ensures f0 == map[m.src := Dir, m.src + ["mine.json"] := File("mine"), project.Site().marker := File("1")]
    ensures m in project.Plan(f0) && Schedule(project.Plan(f0), strip, project.Site(), run) && run[0] == State(f0, 0)
    ensures !Kept(m, f0, run[|run| - 1].fs)
  {
    var entry, name := STATE_ENTRIES[0], "mine.json";
    var place: Path := [".specrails", entry];
    project := Project(["repo"], ["home", "workspace"], [], [], false, {}, false);
    m := Move(project.repo + place, project.workspace + place);
    f0 := map[m.src := Dir, m.src + [name] := File("mine"), project.Site().marker := File("1")];
    assert project.repo[0] == "repo" && project.workspace[0] == "home";
    DifferAt(project.repo, project.workspace, 0);
    var i := EntryIsMoved(project, f0, entry, m);
    PlanIsSound(project, f0);
    SubtreeAt(f0, m.src, [name]);
    run := PartRemovalLoses(project.Plan(f0), strip, project.Site(), f0, i, [name]);
  }
}
