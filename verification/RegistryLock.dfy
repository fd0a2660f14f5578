/**
 * The advisory lock around the shared registry: an exclusive-create lock file holding its owner's
 * token, a spin bounded by a deadline, reclamation of a lock file older than the TTL, and a release
 * that reads the file and unlinks it only when it holds its own token.
 *
 * Any number of acquisitions run interleaved, each cut at its file operations. An acquisition is
 * named by its token, so a token also names the lock file it created. A crash is an acquisition
 * that takes no further step.
 */
module RegistryLock {
  import opened Wrappers

  const LOCK_STALE_MS := 30000
  const LOCK_MAX_WAIT_MS := 2000

  type Token = nat

  /** The registry's contents, and what a body makes of them: `None` when it does not write. */
  type Registry = map<string, string>
  type Body = Registry -> Option<Registry>

  /**
   * Where an acquisition is. `Created` owns a lock file but has not written its token; `Holding` is
   * in the body before its read, `Loaded` after it; `Releasing` is past the body, `Unlinking` past
   * the release's token check.
   */
  datatype Place =
    | Trying(deadline: nat)
    | Created
    | Holding
    | Loaded(snapshot: Registry)
    | Releasing
    | Unlinking
    | Finished

  datatype LockFile = LockFile(owner: Token, written: bool, mtime: nat)

  /** `acquired` lists the acquisitions in the order they created the lock file. */
  datatype State = State(
    now: nat,
    lock: Option<LockFile>,
    registry: Registry,
    places: map<Token, Place>,
    acquired: seq<Token>,
    committed: map<Token, Body>)

  datatype Action =
    | Tick(ms: nat)
    | Arrive(t: Token)
    | Create(t: Token)
    | WriteToken(t: Token, ok: bool)
    | Reclaim(t: Token)
    | GiveUp(t: Token)
    | Heartbeat(t: Token)
    | Read(t: Token)
    | Commit(t: Token, body: Body)
    | Leave(t: Token)
    | Check(t: Token)
    | Unlink(t: Token)

  /** Between creating the lock file and the end of its release. */
  predicate Inside(s: State, t: Token) {
    t in s.places && !s.places[t].Trying? && !s.places[t].Finished?
  }

  predicate PastBody(p: Place) {
    p.Releasing? || p.Unlinking? || p.Finished?
  }

  predicate Owns(s: State, t: Token) {
    s.lock.Some? && s.lock.value.owner == t
  }

  predicate Stale(s: State) {
    s.lock.Some? && s.now - s.lock.value.mtime > LOCK_STALE_MS
  }

  predicate Enabled(s: State, a: Action) {
    match a
    case Tick(_) => true
    case Arrive(t) => t !in s.places && !Owns(s, t)
    case Create(t) => t in s.places && s.places[t].Trying? && s.lock.None?
    case WriteToken(t, _) => t in s.places && s.places[t].Created?
    case Reclaim(t) => t in s.places && s.places[t].Trying? && Stale(s)
    case GiveUp(t) =>
      t in s.places && s.places[t].Trying? && s.lock.Some? && !Stale(s) && s.now >= s.places[t].deadline
    case Heartbeat(t) => t in s.places && (s.places[t].Holding? || s.places[t].Loaded?)
    case Read(t) => t in s.places && s.places[t].Holding?
    case Commit(t, body) => t in s.places && s.places[t].Loaded? && body(s.places[t].snapshot).Some?
    case Leave(t) => t in s.places && (s.places[t].Holding? || s.places[t].Loaded?)
    case Check(t) => t in s.places && s.places[t].Releasing?
    case Unlink(t) => t in s.places && s.places[t].Unlinking?
  }

  function At(s: State, t: Token, p: Place): State {
    s.(places := s.places[t := p])
  }

  /**
   * One file operation. The token goes through the descriptor the owner opened, so it never lands in
   * somebody else's lock file; an `Unlink` takes away whatever file is there by then.
   */
  function Next(s: State, a: Action): State
    requires Enabled(s, a)
  {
    match a
    case Tick(ms) => s.(now := s.now + ms)
    case Arrive(t) => At(s, t, Trying(s.now + LOCK_MAX_WAIT_MS))
    case Create(t) => At(s.(lock := Some(LockFile(t, false, s.now)), acquired := s.acquired + [t]), t, Created)
    case WriteToken(t, ok) =>
      At(if ok && Owns(s, t) then s.(lock := Some(LockFile(t, true, s.now))) else s, t, Holding)
    case Reclaim(t) => s.(lock := None)
    case GiveUp(t) => At(s, t, Finished)
    case Heartbeat(t) =>
      if Owns(s, t) && s.lock.value.written then s.(lock := Some(LockFile(t, true, s.now))) else s
    case Read(t) => At(s, t, Loaded(s.registry))
    case Commit(t, body) =>
      At(s.(registry := body(s.places[t].snapshot).value, committed := s.committed[t := body]), t, Releasing)
    case Leave(t) => At(s, t, Releasing)
    case Check(t) => At(s, t, if Owns(s, t) && s.lock.value.written then Unlinking else Finished)
    case Unlink(t) => At(s.(lock := None), t, Finished)
  }

  /** Nobody has arrived yet; a lock file may be left over from before. */
  predicate Initial(s: State) {
    s.places == map[] && s.acquired == [] && s.committed.Keys == {}
  }

  ghost predicate IsRun(states: seq<State>, actions: seq<Action>) {
    && |states| == |actions| + 1
    && Initial(states[0])
    && forall i :: 0 <= i < |actions| ==>
         Enabled(states[i], actions[i]) && states[i + 1] == Next(states[i], actions[i])
  }

  // ------------------------------------------------------------------------------------------------
  // Runs in which no lock file outlives the TTL: one writer at a time, and the registry is the fold
  // of the committed bodies in the order their acquisitions took the lock.

  /** What the bodies that committed make of `r`, one after another in the order of `order`. */
  function Fold(r: Registry, order: seq<Token>, bodies: map<Token, Body>): Registry {
    if order == [] then
      r
    else
      var before, t := Fold(r, order[..|order| - 1], bodies), order[|order| - 1];
      if t in bodies then bodies[t](before).GetOr(before) else before
  }

  /** Only the acquisitions named in `order` matter to the fold. */
  lemma {:induction false} FoldIgnoresOthers(r: Registry, order: seq<Token>, bodies: map<Token, Body>,
                                             t: Token, body: Body)
    requires t !in order
    ensures Fold(r, order, bodies[t := body]) == Fold(r, order, bodies)
  {
    if order == [] {
    } else {
      FoldIgnoresOthers(r, order[..|order| - 1], bodies, t, body);
      assert order[|order| - 1] != t;
    }
  }

  ghost predicate Ordered(s: State, first: Registry) {
    && (forall t :: t in s.acquired ==> t in s.places && !s.places[t].Trying?)
    && (forall i, j :: 0 <= i < j < |s.acquired| ==> s.acquired[i] != s.acquired[j])
    && (forall t :: t in s.committed ==>
          t in s.places && PastBody(s.places[t]))
    && s.registry == Fold(first, s.acquired, s.committed)
  }

  ghost predicate OneInside(s: State) {
    && (forall t :: Inside(s, t) ==> Owns(s, t) && s.acquired != [] && s.acquired[|s.acquired| - 1] == t)
    && (forall t :: t in s.places && s.places[t].Loaded? ==> s.places[t].snapshot == s.registry)
  }

  lemma CreateKeepsOrder(s: State, t: Token, first: Registry)
    requires Enabled(s, Create(t)) && Ordered(s, first) && OneInside(s)
    ensures Ordered(Next(s, Create(t)), first) && OneInside(Next(s, Create(t)))
  {
    var n := Next(s, Create(t));
    assert n.acquired[..|n.acquired| - 1] == s.acquired;
    assert t !in s.committed;
    assert forall u :: Inside(n, u) ==> u == t || Inside(s, u);
  }

  /** The body of the last in the order, committed, is the last to be folded. */
  lemma CommitFolds(first: Registry, order: seq<Token>, bodies: map<Token, Body>, body: Body)
    requires order != [] && order[|order| - 1] !in bodies && order[|order| - 1] !in order[..|order| - 1]
    ensures Fold(first, order, bodies[order[|order| - 1] := body])
         == body(Fold(first, order, bodies)).GetOr(Fold(first, order, bodies))
  {
    FoldIgnoresOthers(first, order[..|order| - 1], bodies, order[|order| - 1], body);
  }

  lemma CommitKeepsOrder(s: State, t: Token, body: Body, first: Registry)
    requires Enabled(s, Commit(t, body)) && Ordered(s, first) && OneInside(s)
    ensures Ordered(Next(s, Commit(t, body)), first) && OneInside(Next(s, Commit(t, body)))
  {
    var n := Next(s, Commit(t, body));
    assert Inside(s, t) && t !in s.committed;
    CommitFolds(first, s.acquired, s.committed, body);
    assert n.registry == Fold(first, s.acquired, n.committed);
    forall u | Inside(n, u) ensures u == t {
      assert Inside(s, u);
    }
    assert forall u :: u in n.places && n.places[u].Loaded? ==> Inside(n, u);
  }

  /** A step that leaves the registry, the order and the commits alone, and lets nobody in. */
  lemma QuietStepKeepsOrder(s: State, n: State, first: Registry)
    requires Ordered(s, first) && OneInside(s)
    requires n.registry == s.registry && n.acquired == s.acquired && n.committed == s.committed
    requires forall u :: u in s.places ==> u in n.places
    requires forall u :: u in s.places && !s.places[u].Trying? ==> !n.places[u].Trying?
    requires forall u :: u in s.places && PastBody(s.places[u]) ==> PastBody(n.places[u])
    requires forall u :: Inside(n, u) ==> Inside(s, u) && (Owns(s, u) ==> Owns(n, u))
    requires forall u :: u in n.places && n.places[u].Loaded? ==>
               n.places[u].snapshot == s.registry || (u in s.places && s.places[u] == n.places[u])
    ensures Ordered(n, first) && OneInside(n)
  {
  }

  predicate OfWaiter(a: Action) {
    a.Tick? || a.Arrive? || a.GiveUp? || a.Heartbeat? || a.WriteToken?
  }

  lemma WaiterKeepsOrder(s: State, a: Action, first: Registry)
    requires Enabled(s, a) && OfWaiter(a) && Ordered(s, first) && OneInside(s)
    ensures Ordered(Next(s, a), first) && OneInside(Next(s, a))
  {
    QuietStepKeepsOrder(s, Next(s, a), first);
  }

  lemma OwnerKeepsOrder(s: State, a: Action, first: Registry)
    requires Enabled(s, a) && (a.Read? || a.Leave? || a.Check?) && Ordered(s, first) && OneInside(s)
    ensures Ordered(Next(s, a), first) && OneInside(Next(s, a))
  {
    QuietStepKeepsOrder(s, Next(s, a), first);
  }

  lemma UnlinkKeepsOrder(s: State, t: Token, first: Registry)
    requires Enabled(s, Unlink(t)) && Ordered(s, first) && OneInside(s)
    ensures Ordered(Next(s, Unlink(t)), first) && OneInside(Next(s, Unlink(t)))
  {
    assert Inside(s, t);
    QuietStepKeepsOrder(s, Next(s, Unlink(t)), first);
  }

  lemma StepKeepsOrder(s: State, a: Action, first: Registry)
    requires Enabled(s, a) && !a.Reclaim? && Ordered(s, first) && OneInside(s)
    ensures Ordered(Next(s, a), first) && OneInside(Next(s, a))
  {
    if OfWaiter(a) {
      WaiterKeepsOrder(s, a, first);
    } else if a.Create? {
      CreateKeepsOrder(s, a.t, first);
    } else if a.Commit? {
      CommitKeepsOrder(s, a.t, a.body, first);
    } else if a.Unlink? {
      UnlinkKeepsOrder(s, a.t, first);
    } else {
      OwnerKeepsOrder(s, a, first);
    }
  }

  ghost predicate NeverStale(states: seq<State>) {
    forall i :: 0 <= i < |states| ==> !Stale(states[i])
  }

  /**
   * In every state of every run in which no lock file outlives the TTL, at most one acquisition is
   * between its create and the end of its release, it owns the lock file, what it read is still the
   * registry, and the registry is the fold of the committed bodies in lock order.
   */
  lemma {:induction false} WritersAreSerialized(states: seq<State>, actions: seq<Action>, i: nat)
    requires IsRun(states, actions) && NeverStale(states) && i < |states|
    ensures forall t, u :: Inside(states[i], t) && Inside(states[i], u) ==> t == u
    ensures forall t :: Inside(states[i], t) ==> Owns(states[i], t)
    ensures states[i].registry == Fold(states[0].registry, states[i].acquired, states[i].committed)
    ensures Ordered(states[i], states[0].registry) && OneInside(states[i])
  {
    if i == 0 {
    } else {
      WritersAreSerialized(states, actions, i - 1);
      assert !Stale(states[i - 1]);
      StepKeepsOrder(states[i - 1], actions[i - 1], states[0].registry);
    }
  }

  // ------------------------------------------------------------------------------------------------
  // Runs in which writers crash, and every other holder keeps its lock file fresh.

  predicate Acts(a: Action, t: Token) {
    !a.Tick? && a.t == t
  }

  /** From its crash on an acquisition takes no step. */
  ghost predicate Crashes(actions: seq<Action>, crash: map<Token, nat>) {
    forall k, t | 0 <= k < |actions| && t in crash && Acts(actions[k], t) :: k < crash[t]
  }

  function Dead(crash: map<Token, nat>, i: nat): set<Token> {
    set t | t in crash && crash[t] <= i
  }

  /** The state as if the dead had left: what they are in the middle of is never gone on with. */
  function Bury(s: State, dead: set<Token>): State {
    s.(places := map t | t in s.places :: if t in dead then Finished else s.places[t])
  }

  lemma BuryEnables(s: State, a: Action, dead: set<Token>)
    requires Enabled(s, a) && forall t | t in dead :: !Acts(a, t)
    ensures Enabled(Bury(s, dead), a)
  {
  }

  lemma BuryPlaces(s: State, t: Token, p: Place, dead: set<Token>)
    requires t !in dead
    ensures Bury(At(s, t, p), dead) == At(Bury(s, dead), t, p)
  {
  }

  lemma BuryCommutes(s: State, a: Action, dead: set<Token>)
    requires Enabled(s, a) && forall t | t in dead :: !Acts(a, t)
    ensures Enabled(Bury(s, dead), a) && Bury(Next(s, a), dead) == Next(Bury(s, dead), a)
  {
    BuryEnables(s, a, dead);
    if !a.Tick? && !a.Reclaim? && !a.Heartbeat? {
      BuryPlaces(s, a.t, Next(s, a).places[a.t], dead);
    }
  }

  lemma BuryMore(s: State, dead: set<Token>, more: set<Token>, first: Registry)
    requires dead <= more && Ordered(Bury(s, dead), first) && OneInside(Bury(s, dead))
    ensures Ordered(Bury(s, more), first) && OneInside(Bury(s, more))
  {
    forall t | Inside(Bury(s, more), t) ensures Inside(Bury(s, dead), t) {
    }
  }

  /** The step brings the lock file of `t`, if that is the one there, up to the present time. */
  predicate Touches(s: State, a: Action, t: Token) {
    || a == Create(t) || a == WriteToken(t, true)
    || (a == Heartbeat(t) && (Owns(s, t) ==> s.lock.value.written))
  }

  /** At state `i` every acquisition inside that has not crashed has touched its lock file in the last 30 seconds. */
  ghost predicate Live(states: seq<State>, actions: seq<Action>, crash: map<Token, nat>, i: nat)
    requires i < |states| == |actions| + 1
  {
    forall t | t !in Dead(crash, i) && Inside(states[i], t) ::
      exists m :: 0 <= m < i && Touches(states[m], actions[m], t) && states[i].now - states[m].now <= 30000
  }

  /** The acquisition has had its turn to create, and its lock file, if it is there, is not older than `since`. */
  predicate FreshSince(s: State, t: Token, since: nat) {
    && t in s.places && !s.places[t].Trying? && since <= s.now
    && (Owns(s, t) ==> s.lock.value.mtime >= since)
  }

  lemma TouchFreshens(s: State, a: Action, t: Token)
    requires Enabled(s, a) && Touches(s, a, t)
    ensures FreshSince(Next(s, a), t, s.now)
  {
  }

  lemma StepKeepsFresh(s: State, a: Action, t: Token, since: nat)
    requires Enabled(s, a) && FreshSince(s, t, since)
    ensures FreshSince(Next(s, a), t, since)
  {
  }

  lemma {:induction false} StaysFresh(states: seq<State>, actions: seq<Action>, m: nat, i: nat, t: Token)
    requires IsRun(states, actions) && m < i < |states| && Touches(states[m], actions[m], t)
    ensures FreshSince(states[i], t, states[m].now)
    decreases i
  {
    var s, a, since := states[i - 1], actions[i - 1], states[m].now;
    assert Enabled(s, a) && states[i] == Next(s, a);
    if i == m + 1 {
      TouchFreshens(s, a, t);
    } else {
      StaysFresh(states, actions, m, i - 1, t);
      StepKeepsFresh(s, a, t, since);
    }
  }

  /** A lock file that its owner touches in time is never stale. */
  lemma LiveIsNotStale(states: seq<State>, actions: seq<Action>, crash: map<Token, nat>, i: nat, t: Token)
    requires IsRun(states, actions) && i < |states| && Live(states, actions, crash, i)
    requires t !in Dead(crash, i) && Inside(states[i], t) && Owns(states[i], t)
    ensures !Stale(states[i])
  {
    var m :| 0 <= m < i && Touches(states[m], actions[m], t) && states[i].now - states[m].now <= 30000;
    StaysFresh(states, actions, m, i, t);
  }

  lemma ReclaimKeepsOrder(s: State, t: Token, first: Registry)
    requires Enabled(s, Reclaim(t)) && Ordered(s, first) && OneInside(s) && forall u :: !Inside(s, u)
    ensures Ordered(Next(s, Reclaim(t)), first) && OneInside(Next(s, Reclaim(t)))
  {
    QuietStepKeepsOrder(s, Next(s, Reclaim(t)), first);
  }

  /** The dead apart, order and exclusion hold. */
  ghost predicate BuriedOrder(s: State, dead: set<Token>, first: Registry) {
    Ordered(Bury(s, dead), first) && OneInside(Bury(s, dead))
  }

  lemma BuriedStep(s: State, a: Action, dead: set<Token>, first: Registry)
    requires Enabled(s, a) && (forall t | t in dead :: !Acts(a, t)) && BuriedOrder(s, dead, first)
    requires a.Reclaim? ==> forall t :: Inside(s, t) ==> t in dead
    ensures BuriedOrder(Next(s, a), dead, first)
  {
    BuryCommutes(s, a, dead);
    if a.Reclaim? {
      ReclaimKeepsOrder(Bury(s, dead), a.t, first);
    } else {
      StepKeepsOrder(Bury(s, dead), a, first);
    }
  }

  /** When a lock file can be reclaimed, nobody but the dead is inside. */
  lemma OnlyTheDeadAreInside(states: seq<State>, actions: seq<Action>, crash: map<Token, nat>, i: nat)
    requires IsRun(states, actions) && i < |states| && Live(states, actions, crash, i) && Stale(states[i])
    requires OneInside(Bury(states[i], Dead(crash, i)))
    ensures forall t :: Inside(states[i], t) ==> t in Dead(crash, i)
  {
    forall t | Inside(states[i], t) ensures t in Dead(crash, i) {
      if t !in Dead(crash, i) {
        assert Inside(Bury(states[i], Dead(crash, i)), t);
        LiveIsNotStale(states, actions, crash, i, t);
      }
    }
  }

  lemma {:induction false} BuriedIsOrdered(states: seq<State>, actions: seq<Action>, crash: map<Token, nat>, i: nat)
    requires IsRun(states, actions) && i < |states| && Crashes(actions, crash)
    requires forall k: nat | k < i :: Live(states, actions, crash, k)
    ensures BuriedOrder(states[i], Dead(crash, i), states[0].registry)
  {
    if i > 0 {
      var s, a, first := states[i - 1], actions[i - 1], states[0].registry;
      BuriedIsOrdered(states, actions, crash, i - 1);
      assert Enabled(s, a) && states[i] == Next(s, a);
      if a.Reclaim? { OnlyTheDeadAreInside(states, actions, crash, i - 1); }
      BuriedStep(s, a, Dead(crash, i - 1), first);
      BuryMore(states[i], Dead(crash, i - 1), Dead(crash, i), first);
    }
  }

  /**
   * What the TTL and the heartbeats are for. Any acquisitions may crash at any time, and their lock files are
   * then reclaimed. In every state of every run in which each other one, while it is inside, touches its lock
   * file at least every 30 seconds, at most one that has not crashed is inside, it owns the lock file, what it
   * read is still the registry, and the registry is the fold of the committed bodies in lock order.
   */
  lemma LiveWritersAreSerialized(states: seq<State>, actions: seq<Action>, crash: map<Token, nat>, i: nat)
    requires IsRun(states, actions) && i < |states| && Crashes(actions, crash)
    requires forall k: nat | k < i :: Live(states, actions, crash, k)
    ensures forall t, u | t !in Dead(crash, i) && Inside(states[i], t) && u !in Dead(crash, i) && Inside(states[i], u)
              :: t == u
    ensures forall t | t !in Dead(crash, i) && Inside(states[i], t) :: Owns(states[i], t)
    ensures forall t | t !in Dead(crash, i) && t in states[i].places && states[i].places[t].Loaded? ::
              states[i].places[t].snapshot == states[i].registry
    ensures states[i].registry == Fold(states[0].registry, states[i].acquired, states[i].committed)
  {
    BuriedIsOrdered(states, actions, crash, i);
    var b := Bury(states[i], Dead(crash, i));
    forall t | t !in Dead(crash, i) && Inside(states[i], t) ensures Inside(b, t) {
    }
    forall t | t !in Dead(crash, i) && t in states[i].places && states[i].places[t].Loaded?
      ensures b.places[t].Loaded?
    {
    }
  }

  // ------------------------------------------------------------------------------------------------
  // Runs with reclamation. A release checks the token and unlinks in two steps.

  /** The step takes away a lock file that belongs to an acquisition between its check and its unlink. */
  predicate HitsUnlinking(s: State, a: Action) {
    && a.Reclaim? && s.lock.Some?
    && s.lock.value.owner in s.places && s.places[s.lock.value.owner].Unlinking?
  }

  ghost predicate UnlinkersOwn(s: State) {
    forall t :: t in s.places && s.places[t].Unlinking? ==> Owns(s, t)
  }

  lemma {:induction false} UnlinkersOwnThroughout(states: seq<State>, actions: seq<Action>, i: nat)
    requires IsRun(states, actions) && i < |states|
    requires forall k :: 0 <= k < i ==> !HitsUnlinking(states[k], actions[k])
    ensures UnlinkersOwn(states[i])
  {
    if i == 0 {
    } else {
      UnlinkersOwnThroughout(states, actions, i - 1);
      var s, a := states[i - 1], actions[i - 1];
      assert Enabled(s, a) && states[i] == Next(s, a) && !HitsUnlinking(s, a);
    }
  }

  /**
   * As long as no reclamation hits an acquisition inside the window between its check and its
   * unlink, every release takes away its own lock file and nobody else's, even if its lock was
   * reclaimed before the check.
   */
  lemma ReleaseTakesOwnLock(states: seq<State>, actions: seq<Action>, i: nat, t: Token)
    requires IsRun(states, actions) && i < |actions| && actions[i] == Unlink(t)
    requires forall k :: 0 <= k < i ==> !HitsUnlinking(states[k], actions[k])
    ensures Owns(states[i], t)
  {
    UnlinkersOwnThroughout(states, actions, i);
    assert Enabled(states[i], actions[i]);
  }

  predicate SomeCreate(actions: seq<Action>, from: nat, to: nat)
    requires from <= to <= |actions|
  {
    exists k :: from <= k < to && actions[k].Create?
  }

  predicate LeftOver(s: State, t: Token) {
    t in s.places && s.places[t].Finished?
  }

  predicate CheckedBy(s: State, t: Token) {
    t in s.places && (s.places[t].Unlinking? || s.places[t].Finished?)
  }

  /** Past its check, an acquisition creates no lock file; nobody else creates one that is its own. */
  lemma StepPastCheck(s: State, a: Action, t: Token)
    requires Enabled(s, a) && CheckedBy(s, t)
    ensures CheckedBy(Next(s, a), t) && (LeftOver(s, t) ==> LeftOver(Next(s, a), t))
    ensures a.Create? ==> !Owns(Next(s, a), t)
    ensures !a.Create? && Next(s, a).lock.Some? ==> s.lock.Some? && (Owns(Next(s, a), t) <==> Owns(s, t))
  {
  }

  lemma {:induction false} SinceTheCheck(states: seq<State>, actions: seq<Action>, j: nat, i: nat, t: Token)
    requires IsRun(states, actions) && j < i < |states|
    requires actions[j] == Check(t) && Owns(states[j], t)
    ensures CheckedBy(states[i], t)
    ensures states[i].lock.Some? ==> (Owns(states[i], t) <==> !SomeCreate(actions, j, i))
    decreases i
  {
    assert Enabled(states[i - 1], actions[i - 1]) && states[i] == Next(states[i - 1], actions[i - 1]);
    if i == j + 1 {
      assert !SomeCreate(actions, j, i);
    } else {
      SinceTheCheck(states, actions, j, i - 1, t);
      StepPastCheck(states[i - 1], actions[i - 1], t);
      assert SomeCreate(actions, j, i) <==> SomeCreate(actions, j, i - 1) || actions[i - 1].Create?;
    }
  }

  lemma {:induction false} StaysFinished(states: seq<State>, actions: seq<Action>, j: nat, i: nat, t: Token)
    requires IsRun(states, actions) && j <= i < |states| && LeftOver(states[j], t)
    ensures LeftOver(states[i], t)
    decreases i
  {
    if i == j {
    } else {
      StaysFinished(states, actions, j, i - 1, t);
      assert Enabled(states[i - 1], actions[i - 1]) && states[i] == Next(states[i - 1], actions[i - 1]);
      StepPastCheck(states[i - 1], actions[i - 1], t);
    }
  }

  /**
   * Exactly when a release takes away another acquisition's lock file: a lock file is there at the
   * unlink, and one was created since the check.
   */
  lemma ForeignUnlinkExactly(states: seq<State>, actions: seq<Action>, j: nat, i: nat, t: Token)
    requires IsRun(states, actions) && j < i < |actions|
    requires actions[j] == Check(t) && actions[i] == Unlink(t)
    ensures states[i].lock.Some? && states[i].lock.value.owner != t
            <==> states[i].lock.Some? && SomeCreate(actions, j, i)
  {
    assert Enabled(states[i], actions[i]) && Enabled(states[j], actions[j]);
    assert states[j + 1] == Next(states[j], actions[j]);
    if !Owns(states[j], t) {
      StaysFinished(states, actions, j + 1, i, t);
      assert false;
    }
    SinceTheCheck(states, actions, j, i, t);
  }

  ghost predicate EndsIn(states: seq<State>, actions: seq<Action>, s: State) {
    IsRun(states, actions) && states[|actions|] == s
  }

  lemma Extend(states: seq<State>, actions: seq<Action>, s: State, a: Action)
    returns (more: seq<State>, longer: seq<Action>)
    requires EndsIn(states, actions, s) && Enabled(s, a)
    ensures EndsIn(more, longer, Next(s, a))
    ensures |longer| == |actions| + 1 && longer[|actions|] == a
    ensures forall k :: 0 <= k < |actions| ==> longer[k] == actions[k] && more[k] == states[k]
    ensures more[|actions|] == s
  {
    more, longer := states + [Next(s, a)], actions + [a];
    forall i | 0 <= i < |longer| ensures Enabled(more[i], longer[i]) && more[i + 1] == Next(more[i], longer[i]) {
      if i < |actions| { assert more[i] == states[i] && more[i + 1] == states[i + 1]; }
    }
  }

  /** Acquisition 0 between its check and its unlink. */
  lemma Checked() returns (states: seq<State>, actions: seq<Action>, s: State)
    ensures EndsIn(states, actions, s)
    ensures s.places == map[0 := Unlinking] && s.lock == Some(LockFile(0, true, 0)) && s.now == 0
  {
    var places: map<Token, Place> := map[];
    s := State(0, None, map[], places, [], map[]);
    states, actions := [s], [];
    states, actions := Extend(states, actions, s, Arrive(0));
    s := Next(s, Arrive(0));
    states, actions := Extend(states, actions, s, Create(0));
    s := Next(s, Create(0));
    states, actions := Extend(states, actions, s, WriteToken(0, true));
    s := Next(s, WriteToken(0, true));
    states, actions := Extend(states, actions, s, Leave(0));
    s := Next(s, Leave(0));
    states, actions := Extend(states, actions, s, Check(0));
    s := Next(s, Check(0));
  }

  /** The same, with 1 and 2 waiting and the lock file past the TTL. */
  lemma CheckedThenStale() returns (states: seq<State>, actions: seq<Action>, s: State)
    ensures EndsIn(states, actions, s) && Stale(s)
    ensures s.places == map[0 := Unlinking, 1 := Trying(LOCK_MAX_WAIT_MS), 2 := Trying(LOCK_MAX_WAIT_MS)]
  {
    states, actions, s := Checked();
    states, actions := Extend(states, actions, s, Arrive(1));
    s := Next(s, Arrive(1));
    states, actions := Extend(states, actions, s, Arrive(2));
    s := Next(s, Arrive(2));
    states, actions := Extend(states, actions, s, Tick(LOCK_STALE_MS + 1));
    s := Next(s, Tick(LOCK_STALE_MS + 1));
  }

  /**
   * The window is real: acquisition 0 passes its token check, its lock file outlives the TTL and is
   * reclaimed by acquisition 1, which takes the lock; the unlink of 0 then takes 1's lock file away
   * and lets acquisition 2 in beside 1.
   */
  lemma LateUnlinkTakesNewLock() returns (states: seq<State>, actions: seq<Action>, i: nat)
    ensures IsRun(states, actions) && i < |actions| && actions[i] == Unlink(0) && Owns(states[i], 1)
    ensures Inside(states[|actions|], 1) && Inside(states[|actions|], 2)
  {
    var s;
    states, actions, s := CheckedThenStale();
    states, actions := Extend(states, actions, s, Reclaim(1));
    s := Next(s, Reclaim(1));
    states, actions := Extend(states, actions, s, Create(1));
    s := Next(s, Create(1));
    i := |actions|;
    states, actions := Extend(states, actions, s, Unlink(0));
    s := Next(s, Unlink(0));
    states, actions := Extend(states, actions, s, Create(2));
  }
}
