/**
 * The Headroom proxy's runtime: starts cut at their awaits, stops, child exits, shutdown and settings
 * writes, and the routing projection that must never point at a process this application has not
 * verified as its own.
 *
 * What a probe or an ownership check answered is an input of the step that continues after it. The
 * final ownership check and its continuation are one step. Any number of starts may be in flight.
 */
module HeadroomRouting {
  import opened Wrappers

  const DEFAULT_PORT := 8787
  const HEADROOM_ACTIVATION_SCHEMA_VERSION := 1
  const HEADROOM_ACTIVATION_SOURCE := "explicit-user-action"

  type Child = nat
  type StartId = nat

  datatype Provider = Codex | Claude

  /** The versioned activation record; a provider counts only where the stored value is `true`. */
  datatype Activation = Activation(version: int, source: string, providers: set<Provider>)

  /** The persisted settings that bear on routing; a port that is not an integer is `None`. */
  datatype Persisted = Persisted(port: Option<int>, activation: Option<Activation>)

  /** What clients are told: the port to use and the providers routed through it. */
  datatype Routing = Routing(port: int, active: set<Provider>)

  /** Where a start is suspended; it owns a child from `Waiting` on. */
  datatype Phase =
    | Probing
    | Waiting(child: Child)
    | FirstCheck(child: Child)
    | Measuring(child: Child)
    | FinalCheck(child: Child)

  datatype Start = Start(generation: nat, port: int, phase: Phase)

  /** A child whose ownership of a port was confirmed while its generation was current. */
  datatype Confirmation = Confirmation(child: Child, port: int, generation: nat)

  datatype Machine = Machine(
    shuttingDown: bool,
    persisted: Persisted,
    proxy: Option<Child>,
    trustedPort: Option<int>,
    generation: nat,
    spawned: set<Child>,
    exited: set<Child>,
    starts: map<StartId, Start>,
    confirmed: Option<Confirmation>)

  datatype Event =
    | Begin(s: StartId, port: int)
    | Probed(s: StartId, occupied: bool, spawn: Option<Child>)
    | Healthy(s: StartId, healthy: bool)
    | FirstChecked(s: StartId, owned: bool)
    | Measured(s: StartId)
    | FinalChecked(s: StartId, owned: bool)
    | Exit(c: Child)
    | ChildError(c: Child)
    | Stop
    | BeginShutdown
    | Persist(p: Persisted)

  function ValidPort(port: Option<int>): (p: int)
    ensures 1 <= p <= 65535
  {
    if port.Some? && 1 <= port.value <= 65535 then port.value else DEFAULT_PORT
  }

  function ExplicitProviders(p: Persisted): set<Provider> {
    if || p.activation.None?
       || p.activation.value.version != HEADROOM_ACTIVATION_SCHEMA_VERSION
       || p.activation.value.source != HEADROOM_ACTIVATION_SOURCE
    then {}
    else p.activation.value.providers
  }

  predicate Running(m: Machine) {
    m.proxy.Some? && m.proxy.value !in m.exited
  }

  /** The routing that the runtime and the settings call for. */
  function Projection(m: Machine, relayPort: Option<int>): Routing {
    var port := ValidPort(m.persisted.port);
    Routing(
      if relayPort.Some? then ValidPort(relayPort) else port,
      if m.shuttingDown || m.trustedPort != Some(port) || !Running(m) then {} else ExplicitProviders(m.persisted))
  }

  // ------------------------------------------------------------------------------------------------
  // The steps, without routing: that is derived.

  predicate GenerationCurrent(m: Machine, generation: nat) {
    !m.shuttingDown && m.generation == generation
  }

  predicate OwnedCurrent(m: Machine, c: Child, generation: nat) {
    GenerationCurrent(m, generation) && m.proxy == Some(c) && c !in m.exited
  }

  predicate InPhase(m: Machine, e: Event) {
    match e
    case Probed(s, _, _) => s in m.starts && m.starts[s].phase.Probing?
    case Healthy(s, _) => s in m.starts && m.starts[s].phase.Waiting?
    case FirstChecked(s, _) => s in m.starts && m.starts[s].phase.FirstCheck?
    case Measured(s) => s in m.starts && m.starts[s].phase.Measuring?
    case FinalChecked(s, _) => s in m.starts && m.starts[s].phase.FinalCheck?
    case _ => true
  }

  /** A start begins only once no proxy is held; a spawned child is a new one. */
  predicate Enabled(m: Machine, e: Event) {
    && InPhase(m, e)
    && (e.Begin? ==> e.s !in m.starts && m.proxy.None?)
    && (e.Probed? && e.spawn.Some? ==> e.spawn.value !in m.spawned)
    && (e.Exit? ==> e.c in m.spawned)
  }

  function Ended(m: Machine, s: StartId): Machine {
    m.(starts := m.starts - {s})
  }

  function AtPhase(m: Machine, s: StartId, phase: Phase): Machine
    requires s in m.starts
  {
    m.(starts := m.starts[s := m.starts[s].(phase := phase)])
  }

  /** Let go of a child, if it is the one held. */
  function Released(m: Machine, c: Child): Machine {
    if m.proxy == Some(c) then m.(proxy := None, trustedPort := None) else m
  }

  function Next(m: Machine, e: Event): Machine
    requires Enabled(m, e)
  {
    match e
    case Begin(s, port) =>
      m.(generation := m.generation + 1, starts := m.starts[s := Start(m.generation + 1, port, Probing)])
    case Probed(s, occupied, spawn) =>
      if occupied || !GenerationCurrent(m, m.starts[s].generation) || spawn.None? then
        Ended(m, s)
      else
        AtPhase(m.(proxy := spawn, trustedPort := None, spawned := m.spawned + {spawn.value}),
                s, Waiting(spawn.value))
    case Healthy(s, healthy) =>
      var st := m.starts[s];
      if healthy && OwnedCurrent(m, st.phase.child, st.generation) then
        AtPhase(m, s, FirstCheck(st.phase.child))
      else
        Ended(Released(m, st.phase.child), s)
    case FirstChecked(s, owned) =>
      var st := m.starts[s];
      if owned && OwnedCurrent(m, st.phase.child, st.generation) then
        AtPhase(m, s, Measuring(st.phase.child))
      else
        Ended(Released(m, st.phase.child), s)
    case Measured(s) =>
      var st := m.starts[s];
      if OwnedCurrent(m, st.phase.child, st.generation) then
        AtPhase(m, s, FinalCheck(st.phase.child))
      else
        Ended(Released(m, st.phase.child), s)
    case FinalChecked(s, owned) =>
      var st := m.starts[s];
      if owned && OwnedCurrent(m, st.phase.child, st.generation) then
        Ended(m.(trustedPort := Some(st.port),
                 confirmed := Some(Confirmation(st.phase.child, st.port, st.generation))), s)
      else
        Ended(Released(m, st.phase.child), s)
    case Exit(c) => Released(m.(exited := m.exited + {c}), c)
    case ChildError(c) => Released(m, c)
    case Stop => m.(generation := m.generation + 1, proxy := None, trustedPort := None)
    case BeginShutdown => m.(shuttingDown := true)
    case Persist(p) => m.(persisted := p)
  }

  // ------------------------------------------------------------------------------------------------
  // Invariants over every run.

  predicate HasChild(p: Phase) {
    !p.Probing?
  }

  /** A held proxy is alive, and a trusted port was confirmed for it in the current generation. */
  predicate Sound(m: Machine) {
    && (m.proxy.Some? ==> m.proxy.value in m.spawned && m.proxy.value !in m.exited)
    && m.exited <= m.spawned
    && (m.trustedPort.Some? ==>
          m.proxy.Some? && m.confirmed == Some(Confirmation(m.proxy.value, m.trustedPort.value, m.generation)))
    && (forall s :: s in m.starts ==>
          && m.starts[s].generation <= m.generation
          && (HasChild(m.starts[s].phase) ==> m.starts[s].phase.child in m.spawned))
  }

  /** Putting a start into another phase leaves the other starts as they were. */
  lemma PhaseKeepsSound(m: Machine, s: StartId, phase: Phase)
    requires Sound(m) && s in m.starts && (HasChild(phase) ==> phase.child in m.spawned)
    ensures Sound(AtPhase(m, s, phase))
  {
    var starts := AtPhase(m, s, phase).starts;
    assert forall x :: x in starts && x != s ==> x in m.starts && starts[x] == m.starts[x];
  }

  lemma EndKeepsSound(m: Machine, s: StartId)
    requires Sound(m)
    ensures Sound(Ended(m, s))
  {
    var starts := Ended(m, s).starts;
    assert forall x :: x in starts ==> x in m.starts && starts[x] == m.starts[x];
  }

  lemma ReleaseKeepsSound(m: Machine, c: Child)
    requires Sound(m)
    ensures Sound(Released(m, c))
  {
    assert Released(m, c).starts == m.starts;
  }

  lemma SegmentKeepsSound(m: Machine, e: Event)
    requires Sound(m) && Enabled(m, e)
    requires e.Healthy? || e.FirstChecked? || e.Measured?
    ensures Sound(Next(m, e))
  {
    var c := m.starts[e.s].phase.child;
    PhaseKeepsSound(m, e.s, match e
                            case Healthy(_, _) => FirstCheck(c)
                            case FirstChecked(_, _) => Measuring(c)
                            case _ => FinalCheck(c));
    ReleaseKeepsSound(m, c);
    EndKeepsSound(Released(m, c), e.s);
  }

  lemma SpawnKeepsSound(m: Machine, e: Event)
    requires Sound(m) && Enabled(m, e)
    requires e.Probed? || e.FinalChecked?
    ensures Sound(Next(m, e))
  {
    assert forall x :: x in Next(m, e).starts && x != e.s ==> x in m.starts && Next(m, e).starts[x] == m.starts[x];
  }

  lemma StepKeepsSound(m: Machine, e: Event)
    requires Sound(m) && Enabled(m, e)
    ensures Sound(Next(m, e))
  {
    match e
    case Probed(_, _, _) => SpawnKeepsSound(m, e);
    case FinalChecked(_, _) => SpawnKeepsSound(m, e);
    case Healthy(_, _) => SegmentKeepsSound(m, e);
    case FirstChecked(_, _) => SegmentKeepsSound(m, e);
    case Measured(_) => SegmentKeepsSound(m, e);
    case _ =>
  }

  predicate Initial(m: Machine) {
    && !m.shuttingDown && m.proxy.None? && m.trustedPort.None? && m.generation == 0
    && m.spawned == {} && m.exited == {} && m.starts == map[] && m.confirmed.None?
  }

  ghost predicate IsRun(ms: seq<Machine>, events: seq<Event>) {
    && |ms| == |events| + 1
    && Initial(ms[0])
    && forall i :: 0 <= i < |events| ==> Enabled(ms[i], events[i]) && ms[i + 1] == Next(ms[i], events[i])
  }

  lemma {:induction false} SoundThroughout(ms: seq<Machine>, events: seq<Event>, i: nat)
    requires IsRun(ms, events) && i < |ms|
    ensures Sound(ms[i])
  {
    if i == 0 {
    } else {
      SoundThroughout(ms, events, i - 1);
      assert Enabled(ms[i - 1], events[i - 1]) && ms[i] == Next(ms[i - 1], events[i - 1]);
      StepKeepsSound(ms[i - 1], events[i - 1]);
    }
  }

  /** What takes a trusted child out of trust, or routing away from it. */
  predicate Distrusts(e: Event, c: Child) {
    e.Stop? || e.Begin? || e.BeginShutdown? || e == Exit(c) || e == ChildError(c)
  }

  /** At event `i` the ownership of `port` by `c` was confirmed for a start that was current. */
  predicate ConfirmedAt(m: Machine, e: Event, c: Child, port: int) {
    && e.FinalChecked? && e.owned
    && e.s in m.starts && m.starts[e.s].phase == FinalCheck(c) && m.starts[e.s].port == port
    && OwnedCurrent(m, c, m.starts[e.s].generation)
  }

  ghost predicate ConfirmedSince(ms: seq<Machine>, events: seq<Event>, n: nat, c: Child, port: int)
    requires IsRun(ms, events) && n < |ms|
  {
    exists i :: 0 <= i < n && ConfirmedAt(ms[i], events[i], c, port) &&
                  forall k :: i < k < n ==> !Distrusts(events[k], c)
  }

  lemma StepKeepsTrust(m: Machine, e: Event)
    requires Sound(m) && Enabled(m, e) && Next(m, e).trustedPort.Some? && !Next(m, e).shuttingDown
    ensures var n := Next(m, e);
            n.proxy.Some? &&
            (|| ConfirmedAt(m, e, n.proxy.value, n.trustedPort.value)
             || (m.trustedPort == n.trustedPort && m.proxy == n.proxy
                  && !m.shuttingDown && !Distrusts(e, n.proxy.value)))
  {
    StepKeepsSound(m, e);
  }

  lemma StillConfirmed(ms: seq<Machine>, events: seq<Event>, n: nat, c: Child, port: int)
    requires IsRun(ms, events) && n < |events| && ConfirmedSince(ms, events, n, c, port) && !Distrusts(events[n], c)
    ensures ConfirmedSince(ms, events, n + 1, c, port)
  {
    var i :| 0 <= i < n && ConfirmedAt(ms[i], events[i], c, port) && forall k :: i < k < n ==> !Distrusts(events[k], c);
    assert forall k :: i < k < n + 1 ==> !Distrusts(events[k], c);
  }

  lemma {:induction false} TrustIsRecent(ms: seq<Machine>, events: seq<Event>, n: nat)
    requires IsRun(ms, events) && n < |ms| && ms[n].trustedPort.Some? && !ms[n].shuttingDown
    ensures ms[n].proxy.Some? && ConfirmedSince(ms, events, n, ms[n].proxy.value, ms[n].trustedPort.value)
  {
    SoundThroughout(ms, events, n);
    if n > 0 {
      var c, port := ms[n].proxy.value, ms[n].trustedPort.value;
      assert Enabled(ms[n - 1], events[n - 1]) && ms[n] == Next(ms[n - 1], events[n - 1]);
      SoundThroughout(ms, events, n - 1);
      StepKeepsTrust(ms[n - 1], events[n - 1]);
      if !ConfirmedAt(ms[n - 1], events[n - 1], c, port) {
        TrustIsRecent(ms, events, n - 1);
        StillConfirmed(ms, events, n - 1, c, port);
      }
    }
  }

  /**
   * In every reachable state routing calls for a provider exactly when shutdown has not begun, the
   * owned child is alive, the trusted port is the persisted one and the activation record enables the
   * provider. And then that child was confirmed to own that port, and since then there has been no
   * stop, no other start, no shutdown and no exit or error of the child.
   */
  lemma RoutedExactly(ms: seq<Machine>, events: seq<Event>, n: nat, relayPort: Option<int>, p: Provider)
    requires IsRun(ms, events) && n < |ms|
    ensures p in Projection(ms[n], relayPort).active <==>
              && !ms[n].shuttingDown && Running(ms[n])
              && ms[n].trustedPort == Some(ValidPort(ms[n].persisted.port))
              && p in ExplicitProviders(ms[n].persisted)
    ensures p in Projection(ms[n], relayPort).active ==>
              ConfirmedSince(ms, events, n, ms[n].proxy.value, ValidPort(ms[n].persisted.port))
  {
    if p in Projection(ms[n], relayPort).active {
      TrustIsRecent(ms, events, n);
    }
  }

  /** Once shutdown has begun nothing is routed any more, whatever still unwinds. */
  lemma {:induction false} NothingRoutedAfterShutdown(ms: seq<Machine>, events: seq<Event>, j: nat, i: nat,
            relayPort: Option<int>)
    requires IsRun(ms, events) && j < i < |ms| && events[j] == BeginShutdown
    ensures ms[i].shuttingDown && Projection(ms[i], relayPort).active == {}
    decreases i
  {
    assert Enabled(ms[i - 1], events[i - 1]) && ms[i] == Next(ms[i - 1], events[i - 1]);
    if i > j + 1 {
      NothingRoutedAfterShutdown(ms, events, j, i - 1, relayPort);
    }
  }

  /** Anything that invalidates the start begun at `j`: a stop, another start, shutdown. */
  predicate Supersedes(e: Event) {
    e.Stop? || e.Begin? || e.BeginShutdown?
  }

  /** A machine in which the start is still current, or can no longer be. */
  predicate Outdated(m: Machine, generation: nat) {
    m.shuttingDown || m.generation > generation
  }

  lemma {:induction false} OutdatedForever(ms: seq<Machine>, events: seq<Event>, j: nat, i: nat, generation: nat)
    requires IsRun(ms, events) && j <= i < |ms| && Outdated(ms[j], generation)
    ensures Outdated(ms[i], generation)
    decreases i
  {
    if i > j {
      OutdatedForever(ms, events, j, i - 1, generation);
      assert Enabled(ms[i - 1], events[i - 1]) && ms[i] == Next(ms[i - 1], events[i - 1]);
    }
  }

  lemma {:induction false} GenerationGrows(ms: seq<Machine>, events: seq<Event>, j: nat, i: nat)
    requires IsRun(ms, events) && j <= i < |ms|
    ensures ms[j].generation <= ms[i].generation
    decreases i
  {
    if i > j {
      GenerationGrows(ms, events, j, i - 1);
      assert Enabled(ms[i - 1], events[i - 1]) && ms[i] == Next(ms[i - 1], events[i - 1]);
    }
  }

  /** A start keeps the generation and port it began with for as long as it is in flight. */
  lemma {:induction false} StartKeepsIdentity(ms: seq<Machine>, events: seq<Event>, j: nat, i: nat, s: StartId)
    requires IsRun(ms, events) && j < i < |ms| && events[j].Begin? && events[j].s == s
    requires forall k :: j < k < i && events[k].Begin? ==> events[k].s != s
    ensures s in ms[i].starts ==>
              ms[i].starts[s].generation == ms[j + 1].generation && ms[i].starts[s].port == events[j].port
    decreases i
  {
    assert Enabled(ms[i - 1], events[i - 1]) && ms[i] == Next(ms[i - 1], events[i - 1]);
    if i > j + 1 {
      StartKeepsIdentity(ms, events, j, i - 1, s);
    }
  }

  /**
   * A start that ends in trust was never superseded: between its beginning and its final check there
   * was no stop, no other start and no shutdown, and it trusts the port it began with.
   */
  lemma TrustedStartWasCurrent(ms: seq<Machine>, events: seq<Event>, j: nat, i: nat, s: StartId)
    requires IsRun(ms, events) && j < i < |events|
    requires events[j].Begin? && events[j].s == s && events[i].FinalChecked? && events[i].s == s
    requires forall k :: j < k < i && events[k].Begin? ==> events[k].s != s
    requires ms[i].trustedPort.None? && ms[i + 1].trustedPort.Some?
    ensures ms[i + 1].trustedPort == Some(events[j].port)
    ensures forall k :: j < k < i ==> !Supersedes(events[k])
  {
    assert Enabled(ms[i], events[i]) && ms[i + 1] == Next(ms[i], events[i]);
    StartKeepsIdentity(ms, events, j, i, s);
    SoundThroughout(ms, events, i);
    var st := ms[i].starts[s];
    assert OwnedCurrent(ms[i], st.phase.child, st.generation);
    forall k | j < k < i ensures !Supersedes(events[k]) {
      assert Enabled(ms[k], events[k]) && ms[k + 1] == Next(ms[k], events[k]);
      GenerationGrows(ms, events, j + 1, k);
      if Supersedes(events[k]) {
        OutdatedForever(ms, events, k + 1, i, st.generation);
      }
    }
  }

  // ------------------------------------------------------------------------------------------------
  // The manager: each method is one stretch between awaits, assigning field by field and re-deriving
  // routing where the program does.

  class Manager {
    const relayPort: Option<int>
    var shuttingDown: bool
    var persisted: Persisted
    var proxy: Option<Child>
    var proxyTrustedPort: Option<int>
    var proxyGeneration: nat
    var spawned: set<Child>
    var exited: set<Child>
    var starts: map<StartId, Start>
    var confirmed: Option<Confirmation>
    var routing: Routing

    function View(): Machine
      reads this
    {
      Machine(shuttingDown, persisted, proxy, proxyTrustedPort, proxyGeneration, spawned, exited, starts, confirmed)
    }

    /** Routing is what the runtime and the settings call for, and the runtime is sound. */
    predicate Valid()
      reads this
    {
      Sound(View()) && routing == Projection(View(), relayPort)
    }

    constructor (persisted: Persisted, relayPort: Option<int>)
      ensures Valid() && Initial(View()) && this.persisted == persisted && this.relayPort == relayPort
    {
      this.relayPort := relayPort;
      shuttingDown, this.persisted, proxy, proxyTrustedPort := false, persisted, None, None;
      proxyGeneration, spawned, exited, starts, confirmed := 0, {}, {}, map[], None;
      new;
      SyncRouting();
    }

    method SyncRouting()
      modifies `routing
      ensures routing == Projection(View(), relayPort)
    {
      var port := ValidPort(persisted.port);
      var trustedRuntimeAvailable := proxyTrustedPort == Some(port) && proxy.Some? && proxy.value !in exited;
      routing := Routing(
        if relayPort.Some? then ValidPort(relayPort) else port,
        if shuttingDown || !trustedRuntimeAvailable then {} else ExplicitProviders(persisted));
    }

    method UpdatePersisted(p: Persisted)
      requires Valid()
      modifies `persisted, `routing
      ensures Valid() && View() == Next(old(View()), Persist(p))
    {
      persisted := p;
      SyncRouting();
    }

    method BeginStart(s: StartId, port: int)
      requires Valid() && Enabled(View(), Begin(s, port))
      modifies this
      ensures Valid() && View() == Next(old(View()), Begin(s, port))
    {
      proxyGeneration := proxyGeneration + 1;
      starts := starts[s := Start(proxyGeneration, port, Probing)];
      StepKeepsSound(old(View()), Begin(s, port));
    }

    method AfterProbe(s: StartId, occupied: bool, spawn: Option<Child>)
      requires Valid() && Enabled(View(), Probed(s, occupied, spawn))
      modifies this
      ensures Valid() && View() == Next(old(View()), Probed(s, occupied, spawn))
    {
      var st := starts[s];
      StepKeepsSound(View(), Probed(s, occupied, spawn));
      if occupied || shuttingDown || proxyGeneration != st.generation || spawn.None? {
        starts := starts - {s};
        return;
      }
      spawned := spawned + {spawn.value};
      proxy := spawn;
      proxyTrustedPort := None;
      SyncRouting();
      starts := starts[s := st.(phase := Waiting(spawn.value))];
    }

    /** Let go of a child unless another one took its place, and take it out of routing. */
    method Release(c: Child)
      modifies `proxy, `proxyTrustedPort, `routing
      ensures View() == Released(old(View()), c)
      ensures old(proxy) == Some(c) ==> routing == Projection(View(), relayPort)
      ensures old(proxy) != Some(c) ==> routing == old(routing)
    {
      if proxy != Some(c) {
        return;
      }
      proxy := None;
      proxyTrustedPort := None;
      SyncRouting();
    }

    method DiscardStart(s: StartId, c: Child)
      requires s in starts && routing == Projection(View(), relayPort)
      modifies `proxy, `proxyTrustedPort, `routing, `starts
      ensures View() == Ended(Released(old(View()), c), s)
      ensures routing == Projection(View(), relayPort)
    {
      Release(c);
      starts := starts - {s};
    }

    method IsOwnedProxyCurrent(c: Child, generation: nat) returns (owned: bool)
      ensures owned <==> OwnedCurrent(View(), c, generation)
    {
      owned := !shuttingDown && proxyGeneration == generation && proxy == Some(c) && c !in exited;
    }

    method AfterHealth(s: StartId, healthy: bool)
      requires Valid() && Enabled(View(), Healthy(s, healthy))
      modifies this
      ensures Valid() && View() == Next(old(View()), Healthy(s, healthy))
    {
      var st := starts[s];
      StepKeepsSound(View(), Healthy(s, healthy));
      if shuttingDown || proxyGeneration != st.generation {
        DiscardStart(s, st.phase.child);
        return;
      }
      if !healthy {
        DiscardStart(s, st.phase.child);
        return;
      }
      var owned := IsOwnedProxyCurrent(st.phase.child, st.generation);
      if !owned {
        DiscardStart(s, st.phase.child);
        return;
      }
      starts := starts[s := st.(phase := FirstCheck(st.phase.child))];
    }

    method AfterFirstCheck(s: StartId, owned: bool)
      requires Valid() && Enabled(View(), FirstChecked(s, owned))
      modifies this
      ensures Valid() && View() == Next(old(View()), FirstChecked(s, owned))
    {
      var st := starts[s];
      StepKeepsSound(View(), FirstChecked(s, owned));
      var current := IsOwnedProxyCurrent(st.phase.child, st.generation);
      if !owned || !current {
        DiscardStart(s, st.phase.child);
        return;
      }
      starts := starts[s := st.(phase := Measuring(st.phase.child))];
    }

    method AfterMetrics(s: StartId)
      requires Valid() && Enabled(View(), Measured(s))
      modifies this
      ensures Valid() && View() == Next(old(View()), Measured(s))
    {
      var st := starts[s];
      StepKeepsSound(View(), Measured(s));
      if shuttingDown || proxyGeneration != st.generation {
        DiscardStart(s, st.phase.child);
        return;
      }
      var current := IsOwnedProxyCurrent(st.phase.child, st.generation);
      if !current {
        DiscardStart(s, st.phase.child);
        return;
      }
      starts := starts[s := st.(phase := FinalCheck(st.phase.child))];
    }

    method AfterFinalCheck(s: StartId, owned: bool)
      requires Valid() && Enabled(View(), FinalChecked(s, owned))
      modifies this
      ensures Valid() && View() == Next(old(View()), FinalChecked(s, owned))
    {
      var st := starts[s];
      StepKeepsSound(View(), FinalChecked(s, owned));
      var current := IsOwnedProxyCurrent(st.phase.child, st.generation);
      if !owned || !current {
        DiscardStart(s, st.phase.child);
        return;
      }
      confirmed := Some(Confirmation(st.phase.child, st.port, st.generation));
      proxyTrustedPort := Some(st.port);
      SyncRouting();
      starts := starts - {s};
    }

    /** The child exited, or closed: its exit status is set before anyone is told. */
    method OnExit(c: Child)
      requires Valid() && c in spawned
      modifies this
      ensures Valid() && View() == Next(old(View()), Exit(c))
    {
      StepKeepsSound(View(), Exit(c));
      exited := exited + {c};
      Release(c);
    }

    method OnError(c: Child)
      requires Valid()
      modifies this
      ensures Valid() && View() == Next(old(View()), ChildError(c))
    {
      Release(c);
    }

    method StopProxy()
      requires Valid()
      modifies this
      ensures Valid() && View() == Next(old(View()), Stop)
    {
      proxyGeneration := proxyGeneration + 1;
      proxy := None;
      proxyTrustedPort := None;
      SyncRouting();
    }

    method StartShutdown()
      requires Valid()
      modifies this
      ensures Valid() && View() == Next(old(View()), BeginShutdown)
    {
      if shuttingDown {
        return;
      }
      shuttingDown := true;
      SyncRouting();
    }

    /** Shutdown's own write of the routing, once admission is closed. */
    method CloseRouting()
      requires Valid() && shuttingDown
      modifies `routing
      ensures Valid() && routing == old(routing)
    {
      var port := ValidPort(persisted.port);
      routing := Routing(if relayPort.Some? then ValidPort(relayPort) else port, {});
    }

    method Handle(e: Event)
      requires Valid() && Enabled(View(), e)
      modifies this
      ensures Valid() && View() == Next(old(View()), e)
    {
      match e
      case Begin(s, port) => BeginStart(s, port);
      case Probed(s, occupied, spawn) => AfterProbe(s, occupied, spawn);
      case Healthy(s, healthy) => AfterHealth(s, healthy);
      case FirstChecked(s, owned) => AfterFirstCheck(s, owned);
      case Measured(s) => AfterMetrics(s);
      case FinalChecked(s, owned) => AfterFinalCheck(s, owned);
      case Exit(c) => OnExit(c);
      case ChildError(c) => OnError(c);
      case Stop => StopProxy();
      case BeginShutdown => StartShutdown();
      case Persist(p) => UpdatePersisted(p);
    }
  }

  /** `p` is the port that was asked for if that is one, and otherwise 8787. */
  ghost predicate LegalPort(asked: Option<int>, p: int) {
    if asked.Some? && asked.value > 0 && asked.value < 65536 then asked == Some(p) else p == 8787
  }

  /**
   * A new manager, driven through the events of any run: the routing it has stored afterwards lists a
   * provider exactly under the four conditions on its own fields, and only behind a confirmation that
   * nothing has undone since.
   */
  method Drive(persisted: Persisted, relayPort: Option<int>, ghost ms: seq<Machine>, events: seq<Event>)
    returns (manager: Manager)
    requires IsRun(ms, events) && ms[0].persisted == persisted
    ensures fresh(manager) && manager.Valid() && manager.View() == ms[|events|]
    ensures forall p :: p in manager.routing.active <==>
              && !manager.shuttingDown
              && manager.proxy.Some? && manager.proxy.value !in manager.exited
              && manager.proxyTrustedPort.Some? && LegalPort(manager.persisted.port, manager.proxyTrustedPort.value)
              && manager.persisted.activation.Some?
              && manager.persisted.activation.value.version == 1
              && manager.persisted.activation.value.source == "explicit-user-action"
              && p in manager.persisted.activation.value.providers
    ensures LegalPort(if relayPort.Some? then relayPort else manager.persisted.port, manager.routing.port)
    ensures manager.routing.active != {} ==>
              manager.proxy.Some? &&
              ConfirmedSince(ms, events, |events|, manager.proxy.value, ValidPort(manager.persisted.port))
  {
    manager := new Manager(persisted, relayPort);
    var i := 0;
    while i < |events|
      modifies manager
      invariant i <= |events| && manager.Valid() && manager.View() == ms[i]
    {
      assert Enabled(ms[i], events[i]) && ms[i + 1] == Next(ms[i], events[i]);
      manager.Handle(events[i]);
      i := i + 1;
    }
    if manager.routing.active != {} {
      var p :| p in manager.routing.active;
      RoutedExactly(ms, events, |events|, relayPort, p);
    }
  }
}
