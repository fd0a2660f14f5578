/**
 * The user-facing Headroom operations: activate, deactivate, uninstall, set the port, boot. They are
 * queued, so one runs at a time; at each of their awaits children may exit, starts may make progress
 * and shutdown may begin. Whether Headroom is installed, and what commands and starts answer, is
 * chosen freely.
 */
module HeadroomLifecycle {
  import opened Wrappers
  import opened HeadroomRouting

  datatype Outcome = Done | Failed | Cancelled

  datatype Call =
    | Activate(p: Provider)
    | Deactivate(p: Provider)
    | Uninstall
    | SetPort(port: Option<int>)
    | Boot

  function Enabling(providers: set<Provider>): Option<Activation> {
    Some(Activation(HEADROOM_ACTIVATION_SCHEMA_VERSION, HEADROOM_ACTIVATION_SOURCE, providers))
  }

  /** The providers a call leaves room for, from those enabled before it. */
  function Allowed(before: set<Provider>, c: Call): set<Provider> {
    match c
    case Activate(p) => before + {p}
    case Deactivate(p) => before - {p}
    case Uninstall => {}
    case SetPort(_) => before
    case Boot => before
  }

  function AllowedAfter(before: set<Provider>, calls: seq<Call>): set<Provider> {
    if calls == [] then before else Allowed(AllowedAfter(before, calls[..|calls| - 1]), calls[|calls| - 1])
  }

  predicate Revokes(c: Call, p: Provider) {
    c == Deactivate(p) || c == Uninstall
  }

  /** No call from `from` on takes the provider's route away. */
  predicate NotRevokedSince(calls: seq<Call>, from: nat, p: Provider) {
    forall k :: from <= k < |calls| ==> !Revokes(calls[k], p)
  }

  /**
   * What the fold of calls allows: a provider enabled at the outset, or by an activation, that no
   * later deactivation of it and no later uninstall took back.
   */
  lemma {:induction false} AllowedExactly(before: set<Provider>, calls: seq<Call>, p: Provider)
    ensures p in AllowedAfter(before, calls) <==>
              (p in before && NotRevokedSince(calls, 0, p)) ||
              (exists i :: 0 <= i < |calls| && calls[i] == Activate(p) && NotRevokedSince(calls, i + 1, p))
  {
    if calls == [] {
    } else {
      var init, last := calls[..|calls| - 1], calls[|calls| - 1];
      AllowedExactly(before, init, p);
      forall from: nat | from <= |init|
        ensures NotRevokedSince(calls, from, p) <==> NotRevokedSince(init, from, p) && !Revokes(last, p)
      {
        if NotRevokedSince(calls, from, p) {
          assert calls[|calls| - 1] == last;
          assert forall k :: from <= k < |init| ==> init[k] == calls[k];
        }
      }
      if last == Activate(p) {
        assert calls[|calls| - 1] == Activate(p) && NotRevokedSince(calls, |calls|, p);
      } else if p in AllowedAfter(before, init) && !Revokes(last, p) && !(p in before && NotRevokedSince(init, 0, p)) {
        var i :| 0 <= i < |init| && init[i] == Activate(p) && NotRevokedSince(init, i + 1, p);
        assert calls[i] == Activate(p) && NotRevokedSince(calls, i + 1, p);
      } else if exists i :: 0 <= i < |calls| && calls[i] == Activate(p) && NotRevokedSince(calls, i + 1, p) {
        var i :| 0 <= i < |calls| && calls[i] == Activate(p) && NotRevokedSince(calls, i + 1, p);
        assert i < |init| && init[i] == Activate(p) && NotRevokedSince(init, i + 1, p);
      }
    }
  }

  /** Every start in flight has been superseded, so none can spawn or be trusted. */
  predicate Superseded(m: Machine) {
    forall s :: s in m.starts ==> m.starts[s].generation < m.generation
  }

  /** And no proxy is held. */
  predicate Quiet(m: Machine) {
    m.proxy.None? && Superseded(m)
  }

  /** What the probe, the spawn and the checks answer a start. */
  datatype Answers = Answers(occupied: bool, spawns: bool, healthy: bool, ownedFirst: bool, ownedFinally: bool)

  predicate Good(a: Answers) {
    !a.occupied && a.spawns && a.healthy && a.ownedFirst && a.ownedFinally
  }

  predicate Positive(e: Event) {
    match e
    case Healthy(_, healthy) => healthy
    case FirstChecked(_, owned) => owned
    case _ => true
  }

  /** The event is an answer to the start `s`. */
  predicate Answering(e: Event, s: StartId) {
    (e.Probed? || e.Healthy? || e.FirstChecked? || e.Measured? || e.FinalChecked?) && e.s == s
  }

  /** Every other start has been superseded, and a held proxy is the child of `s`. */
  predicate SoleStart(m: Machine, s: StartId) {
    && (forall x :: x in m.starts && x != s ==> m.starts[x].generation < m.generation)
    && (m.proxy.Some? ==> s in m.starts && HasChild(m.starts[s].phase) && m.starts[s].phase.child == m.proxy.value)
  }

  /** What somebody else's event, not an answer to `s`, leaves as it was. */
  lemma OthersKeep(m: Machine, e: Event, s: StartId)
    requires HeadroomRouting.Enabled(m, e) && !e.Persist? && !e.Begin? && !Answering(e, s)
    ensures Next(m, e).persisted == m.persisted
    ensures m.shuttingDown ==> Next(m, e).shuttingDown
    ensures s in Next(m, e).starts <==> s in m.starts
    ensures s in m.starts ==> Next(m, e).starts[s] == m.starts[s]
    ensures SoleStart(m, s) ==> SoleStart(Next(m, e), s)
  {
  }

  lemma SupersededKeep(m: Machine, e: Event)
    requires HeadroomRouting.Enabled(m, e) && !e.Begin? && Superseded(m)
    ensures Superseded(Next(m, e)) && Next(m, e).confirmed == m.confirmed
    ensures m.proxy.None? ==> Next(m, e).proxy.None?
  {
  }

  class Lifecycle {
    const manager: Manager

    constructor (manager: Manager)
      ensures this.manager == manager
    {
      this.manager := manager;
    }

    predicate Valid()
      reads manager
    {
      manager.Valid()
    }

    function Enabled(): set<Provider>
      reads manager
    {
      ExplicitProviders(manager.persisted)
    }

    function Port(): int
      reads manager
    {
      ValidPort(manager.persisted.port)
    }

    /**
     * Any number of steps of others: exits, errors, progress of superseded starts, stops, the start of
     * shutdown; none when `calm`. The answers to the start `s` are not among them.
     */
    method Await(calm: bool, s: StartId)
      requires Valid()
      modifies manager
      ensures Valid() && manager.persisted == old(manager.persisted)
      ensures old(manager.shuttingDown) ==> manager.shuttingDown
      ensures calm ==> manager.View() == old(manager.View()) && manager.routing == old(manager.routing)
      ensures s in manager.starts <==> s in old(manager.starts)
      ensures s in manager.starts ==> manager.starts[s] == old(manager.starts[s])
      ensures old(SoleStart(manager.View(), s)) ==> SoleStart(manager.View(), s)
      ensures old(Superseded(manager.View())) ==>
                Superseded(manager.View()) && manager.confirmed == old(manager.confirmed)
      ensures old(Quiet(manager.View())) ==> manager.proxy.None?
    {
      var n: int := *;
      if calm { n := 0; }
      while n > 0
        invariant calm ==> n == 0 && manager.View() == old(manager.View()) && manager.routing == old(manager.routing)
        invariant Valid() && manager.persisted == old(manager.persisted)
        invariant old(manager.shuttingDown) ==> manager.shuttingDown
        invariant s in manager.starts <==> s in old(manager.starts)
        invariant s in manager.starts ==> manager.starts[s] == old(manager.starts[s])
        invariant old(SoleStart(manager.View(), s)) ==> SoleStart(manager.View(), s)
        invariant old(Superseded(manager.View())) ==>
                  Superseded(manager.View()) && manager.confirmed == old(manager.confirmed)
        invariant old(Quiet(manager.View())) ==> manager.proxy.None?
      {
        var e: Event := *;
        if !e.Persist? && !e.Begin? && !Answering(e, s) && HeadroomRouting.Enabled(manager.View(), e) {
          OthersKeep(manager.View(), e, s);
          if Superseded(manager.View()) { SupersededKeep(manager.View(), e); }
          manager.Handle(e);
        }
        n := n - 1;
      }
    }

    /** The same when no start of this operation is in flight: what is quiet stays quiet. */
    method AwaitOthers(calm: bool)
      requires Valid()
      modifies manager
      ensures Valid() && manager.persisted == old(manager.persisted)
      ensures old(manager.shuttingDown) ==> manager.shuttingDown
      ensures calm ==> manager.View() == old(manager.View()) && manager.routing == old(manager.routing)
      ensures old(Superseded(manager.View())) ==>
                Superseded(manager.View()) && manager.confirmed == old(manager.confirmed)
      ensures old(Quiet(manager.View())) ==> Quiet(manager.View())
    {
      var s := FreshId(manager.starts.Keys);
      Await(calm, s);
    }

    method UpdatePersisted(port: Option<int>, providers: set<Provider>)
      requires Valid()
      modifies manager
      ensures Valid() && manager.persisted == Persisted(port, Enabling(providers))
      ensures manager.View() == old(manager.View()).(persisted := manager.persisted)
      ensures Enabled() == providers
    {
      manager.UpdatePersisted(Persisted(port, Enabling(providers)));
    }

    method StopProxy(calm: bool)
      requires Valid()
      modifies manager
      ensures Valid() && manager.persisted == old(manager.persisted) && Quiet(manager.View())
      ensures old(manager.shuttingDown) ==> manager.shuttingDown
      ensures calm ==> manager.shuttingDown == old(manager.shuttingDown)
    {
      manager.StopProxy();
      AwaitOthers(calm);
    }

    /** The answer to the probe, after an await: the start ends, or goes on holding a new child. */
    method AwaitProbe(s: StartId, a: Answers, calm: bool)
      requires Valid() && s in manager.starts && manager.starts[s].phase == Probing && SoleStart(manager.View(), s)
      modifies manager
      ensures Valid() && manager.persisted == old(manager.persisted) && SoleStart(manager.View(), s)
      ensures old(manager.shuttingDown) ==> manager.shuttingDown && s !in manager.starts
      ensures calm ==> manager.shuttingDown == old(manager.shuttingDown)
      ensures s in manager.starts ==>
                && !a.occupied && a.spawns && manager.starts[s].phase.Waiting?
                && manager.starts[s].generation == old(manager.starts[s].generation)
                && manager.starts[s].port == old(manager.starts[s].port)
      ensures !a.occupied && a.spawns && calm &&
                old(GenerationCurrent(manager.View(), manager.starts[s].generation)) ==>
                s in manager.starts && Owned(s)
    {
      Await(calm, s);
      var c := FreshId(manager.spawned);
      manager.AfterProbe(s, a.occupied, if a.spawns then Some(c) else None);
    }

    /** The start holds its child, alive, in the current generation. */
    predicate Owned(s: StartId)
      requires s in manager.starts && HasChild(manager.starts[s].phase)
      reads manager
    {
      OwnedCurrent(manager.View(), manager.starts[s].phase.child, manager.starts[s].generation)
    }

    /** Another answer after an await: the start ends and lets its child go, or goes on. */
    method AwaitAnswer(s: StartId, e: Event, calm: bool)
      requires Valid() && s in manager.starts && SoleStart(manager.View(), s)
      requires Answering(e, s) && InPhase(manager.View(), e) && (e.Healthy? || e.FirstChecked? || e.Measured?)
      modifies manager
      ensures Valid() && manager.persisted == old(manager.persisted) && SoleStart(manager.View(), s)
      ensures old(manager.shuttingDown) ==> manager.shuttingDown && s !in manager.starts
      ensures calm ==> manager.shuttingDown == old(manager.shuttingDown)
      ensures s in manager.starts ==>
                && Positive(e) && manager.starts[s].generation == old(manager.starts[s].generation)
                && manager.starts[s].port == old(manager.starts[s].port)
                && (e.Healthy? ==> manager.starts[s].phase.FirstCheck?)
                && (e.FirstChecked? ==> manager.starts[s].phase.Measuring?)
                && (e.Measured? ==> manager.starts[s].phase.FinalCheck?)
      ensures Positive(e) && calm && old(Owned(s)) ==> s in manager.starts && Owned(s)
    {
      Await(calm, s);
      manager.Handle(e);
    }

    /** The last answer after an await: the start ends, in trust or letting its child go. */
    method AwaitFinalCheck(s: StartId, owned: bool, calm: bool) returns (ok: bool)
      requires Valid() && s in manager.starts && SoleStart(manager.View(), s) && manager.starts[s].phase.FinalCheck?
      modifies manager
      ensures Valid() && manager.persisted == old(manager.persisted)
      ensures old(manager.shuttingDown) ==> manager.shuttingDown && !ok
      ensures calm ==> manager.shuttingDown == old(manager.shuttingDown)
      ensures ok ==> owned && manager.proxyTrustedPort == Some(old(manager.starts[s].port)) && Running(manager.View())
      ensures Superseded(manager.View()) && (!ok ==> Quiet(manager.View()))
      ensures owned && calm && old(Owned(s)) ==> ok
    {
      Await(calm, s);
      var st := manager.starts[s];
      var current := manager.IsOwnedProxyCurrent(st.phase.child, st.generation);
      manager.AfterFinalCheck(s, owned);
      ok := owned && current;
    }

    /**
     * The start `s`, from its probe to its end. It succeeds exactly when its final check is answered
     * for the held, living child of the current generation, which is trusted at that moment.
     */
    method AwaitStart(s: StartId, a: Answers, calm: bool) returns (ok: bool)
      requires Valid() && s in manager.starts && manager.starts[s].phase == Probing && SoleStart(manager.View(), s)
      modifies manager
      ensures Valid() && manager.persisted == old(manager.persisted)
      ensures old(manager.shuttingDown) ==> manager.shuttingDown && !ok
      ensures calm ==> manager.shuttingDown == old(manager.shuttingDown)
      ensures ok ==> Good(a) && manager.proxyTrustedPort == Some(old(manager.starts[s].port)) && Running(manager.View())
      ensures Superseded(manager.View())
      ensures !ok ==> Quiet(manager.View())
      ensures Good(a) && calm && old(GenerationCurrent(manager.View(), manager.starts[s].generation)) ==> ok
    {
      AwaitProbe(s, a, calm);
      if s !in manager.starts { return false; }
      AwaitAnswer(s, Healthy(s, a.healthy), calm);
      if s !in manager.starts { return false; }
      AwaitAnswer(s, FirstChecked(s, a.ownedFirst), calm);
      if s !in manager.starts { return false; }
      AwaitAnswer(s, Measured(s), calm);
      if s !in manager.starts { return false; }
      ok := AwaitFinalCheck(s, a.ownedFinally, calm);
    }

    /**
     * A proxy that is trusted at the persisted port already, or the outcome of a start made now. A
     * failure has a reason, and leaves nothing available.
     */
    method EnsureProxy(installed: bool, a: Answers, calm: bool) returns (ok: bool)
      requires Valid()
      modifies manager
      ensures Valid() && manager.persisted == old(manager.persisted)
      ensures old(manager.shuttingDown) ==> manager.shuttingDown && !ok
      ensures calm ==> manager.shuttingDown == old(manager.shuttingDown)
      // Success: ownership of the persisted port was confirmed, now or when the proxy in use was started.
      ensures ok ==> installed && manager.confirmed.Some? && manager.confirmed.value.port == Port()
      ensures ok && calm ==> Available()
      ensures ok && old(Quiet(manager.View())) ==> Good(a)
      ensures !ok ==> !installed || manager.shuttingDown || !Available()
      ensures !ok && old(Quiet(manager.View())) ==> Quiet(manager.View())
      ensures installed && Good(a) && calm && !old(manager.shuttingDown) ==> ok && !manager.shuttingDown
      // A proxy that is available already is left running as it is.
      ensures installed && calm && !old(manager.shuttingDown) && old(Available()) ==>
                ok && manager.View() == old(manager.View()) && manager.routing == old(manager.routing)
    {
      AwaitOthers(calm);
      if !installed || manager.shuttingDown {
        return false;
      }
      var port := Port();
      if Available() {
        return true;
      }
      if Running(manager.View()) {
        StopProxy(calm);
      }
      var s := FreshId(manager.starts.Keys);
      manager.BeginStart(s, port);
      ok := AwaitStart(s, a, calm);
      AwaitOthers(calm);
    }

    /** The trusted port is the persisted one and the child behind it runs. */
    predicate Available()
      reads manager
    {
      manager.proxyTrustedPort == Some(Port()) && Running(manager.View())
    }

    /**
     * On success the provider is enabled beside those enabled before, and routed at that moment;
     * otherwise nothing changed, and there was a reason.
     */
    method ActivateLocked(p: Provider, installed: bool, a: Answers, calm: bool) returns (o: Outcome)
      requires Valid()
      modifies manager
      ensures Valid() && manager.persisted.port == old(manager.persisted.port)
      ensures old(manager.shuttingDown) ==> o == Cancelled && manager.shuttingDown
      ensures o == Done ==> Enabled() == old(Enabled()) + {p} && manager.routing.active == Enabled()
      ensures o != Done ==> manager.persisted == old(manager.persisted)
      ensures o != Done ==> !installed || manager.shuttingDown || !Available()
      ensures calm && !old(manager.shuttingDown) ==> o != Cancelled
      ensures installed && Good(a) && calm && !old(manager.shuttingDown) ==> o == Done
      // With a proxy available nothing is restarted.
      ensures installed && calm && !old(manager.shuttingDown) && old(Available()) ==>
                o == Done && manager.View() == old(manager.View()).(persisted := manager.persisted)
    {
      if manager.shuttingDown {
        return Cancelled;
      }
      if !installed {
        return Failed;
      }
      var ok := EnsureProxy(installed, a, calm);
      if !ok {
        return Failed;
      }
      if manager.shuttingDown || !Available() {
        return Cancelled;
      }
      UpdatePersisted(manager.persisted.port, Enabled() + {p});
      if p !in Enabled() {
        // The provider just enabled is enabled: the rollback behind this check never happens.
        assert false;
      }
      o := Done;
    }

    method DeactivateLocked(p: Provider, calm: bool) returns (o: Outcome)
      requires Valid()
      modifies manager
      ensures Valid() && manager.persisted.port == old(manager.persisted.port)
      ensures old(manager.shuttingDown) ==>
                o == Cancelled && manager.shuttingDown && manager.persisted == old(manager.persisted)
      ensures !old(manager.shuttingDown) ==> o == Done && Enabled() == old(Enabled()) - {p}
      ensures !old(manager.shuttingDown) ==> p !in manager.routing.active
      // The proxy goes with the last provider; while another one is enabled it runs on, and routes the others.
      ensures !old(manager.shuttingDown) && Enabled() == {} ==> Quiet(manager.View())
      ensures !old(manager.shuttingDown) && Enabled() != {} ==>
                && manager.proxy == old(manager.proxy) && manager.proxyTrustedPort == old(manager.proxyTrustedPort)
                && manager.starts == old(manager.starts) && manager.proxyGeneration == old(manager.proxyGeneration)
                && manager.routing == old(manager.routing).(active := old(manager.routing.active) - {p})
    {
      if manager.shuttingDown {
        return Cancelled;
      }
      UpdatePersisted(manager.persisted.port, Enabled() - {p});
      if Enabled() == {} {
        StopProxy(calm);
      }
      o := Done;
    }

    /** However it ends, an uninstall that was admitted leaves no provider enabled or routed. */
    method UninstallLocked(nothingToRemove: bool, uv: bool, removed: bool, calm: bool) returns (o: Outcome)
      requires Valid()
      modifies manager
      ensures Valid() && manager.persisted.port == old(manager.persisted.port)
      ensures old(manager.shuttingDown) ==>
                o == Cancelled && manager.shuttingDown && manager.persisted == old(manager.persisted)
      ensures !old(manager.shuttingDown) ==> Enabled() == {} && manager.routing.active == {} && Quiet(manager.View())
      ensures o == Done ==> nothingToRemove || (uv && removed)
      ensures o == Failed ==> !nothingToRemove && (!uv || !removed)
      ensures o == Cancelled <==> manager.shuttingDown
      ensures calm && !old(manager.shuttingDown) ==> o != Cancelled
    {
      if manager.shuttingDown {
        return Cancelled;
      }
      UpdatePersisted(manager.persisted.port, {});
      StopProxy(calm);
      if manager.shuttingDown {
        return Cancelled;
      }
      if nothingToRemove {
        UpdatePersisted(manager.persisted.port, {});
        return Done;
      }
      if !uv {
        return Failed;
      }
      AwaitOthers(calm);
      if manager.shuttingDown {
        return Cancelled;
      }
      if !removed {
        return Failed;
      }
      UpdatePersisted(manager.persisted.port, {});
      o := Done;
    }

    /**
     * The transition to another port ends in one of these: the new port with the same providers; the
     * old port with the same providers, or with none when even the old proxy would not come back; and,
     * when shutdown cut in, the settings as they were or the new port with none.
     */
    method SetPortLocked(port: Option<int>, installed: bool, candidate: Answers, previous: Answers, calm: bool)
      returns (o: Outcome)
      requires Valid()
      modifies manager
      ensures Valid()
      ensures old(manager.shuttingDown) ==>
                o == Cancelled && manager.shuttingDown && manager.persisted == old(manager.persisted)
      // A port out of range changes nothing, the running proxy included.
      ensures !old(manager.shuttingDown) && !(port.Some? && 1 <= port.value <= 65535) ==>
                o == Failed && manager.View() == old(manager.View()) && manager.routing == old(manager.routing)
      ensures o == Done ==> manager.persisted.port == port && Enabled() == old(Enabled()) && !manager.shuttingDown
      ensures o == Done && Enabled() == {} ==> Quiet(manager.View())
      ensures o == Failed && port.Some? && 1 <= port.value <= 65535 ==>
                && manager.persisted.port == Some(old(Port())) && (Enabled() == old(Enabled()) || Enabled() == {})
                && old(Enabled()) != {}
                && (Enabled() != {} ==> installed && Good(previous))
      ensures o == Done ==> old(Enabled()) == {} || (installed && Good(candidate))
      // With nothing else going on, the answers decide.
      ensures calm && !old(manager.shuttingDown) && port.Some? && 1 <= port.value <= 65535 ==>
                && (o == Done <==> old(Enabled()) == {} || (installed && Good(candidate)))
                && (o == Failed && installed && Good(previous) ==> Enabled() == old(Enabled()))
                && manager.routing.active == Enabled()
      ensures o == Cancelled ==>
                && manager.shuttingDown
                && (manager.persisted == old(manager.persisted) || (manager.persisted.port == port && Enabled() == {}))
    {
      if manager.shuttingDown {
        return Cancelled;
      }
      if port.None? || port.value < 1 || port.value > 65535 {
        return Failed;
      }
      var previousPort, active := Port(), Enabled();
      StopProxy(calm);
      if manager.shuttingDown {
        return Cancelled;
      }
      if active == {} {
        manager.UpdatePersisted(manager.persisted.(port := port));
        return Done;
      }
      UpdatePersisted(port, {});
      var started := EnsureProxy(installed, candidate, calm);
      if manager.shuttingDown {
        return Cancelled;
      }
      if started {
        UpdatePersisted(port, active);
        return Done;
      }
      UpdatePersisted(Some(previousPort), {});
      var restored := EnsureProxy(installed, previous, calm);
      if restored {
        UpdatePersisted(Some(previousPort), active);
      } else {
        UpdatePersisted(Some(previousPort), {});
      }
      o := Failed;
    }

    /** A boot either keeps the settings or, when the proxy will not start, disables every provider. */
    method StartActiveProxyOnBootLocked(installed: bool, a: Answers, calm: bool) returns (o: Outcome)
      requires Valid()
      modifies manager
      ensures Valid() && manager.persisted.port == old(manager.persisted.port)
      ensures old(manager.shuttingDown) ==> o == Cancelled && manager.shuttingDown
      ensures o == Failed ==> Enabled() == {} && manager.routing.active == {} && old(Enabled()) != {}
      ensures installed && Good(a) && calm && !old(manager.shuttingDown) ==> o == Done
      ensures o != Failed ==> manager.persisted == old(manager.persisted)
      ensures o == Done && !installed ==> old(Enabled()) == {}
      // A shutdown on the way is no failure to start: it takes nobody's activation away.
      ensures o == Cancelled <==> manager.shuttingDown
      ensures calm && !old(manager.shuttingDown) ==> manager.routing.active == Enabled()
    {
      if manager.shuttingDown {
        return Cancelled;
      }
      manager.SyncRouting();
      if Enabled() != {} {
        var ok := EnsureProxy(installed, a, calm);
        if manager.shuttingDown {
          return Cancelled;
        }
        if !ok {
          UpdatePersisted(manager.persisted.port, {});
          return Failed;
        }
      }
      o := Done;
    }

    method Perform(c: Call) returns (o: Outcome)
      requires Valid()
      modifies manager
      ensures Valid() && (old(manager.shuttingDown) ==> manager.shuttingDown && o == Cancelled)
      ensures Enabled() <= if old(manager.shuttingDown) then old(Enabled()) else Allowed(old(Enabled()), c)
      ensures o == Done ==> Enabled() == Allowed(old(Enabled()), c)
    {
      var installed, x, y: bool := *, *, *;
      var a, b: Answers := *, *;
      match c
      case Activate(p) => o := ActivateLocked(p, installed, a, false);
      case Deactivate(p) => o := DeactivateLocked(p, false);
      case Uninstall => o := UninstallLocked(installed, x, y, false);
      case SetPort(port) => o := SetPortLocked(port, installed, a, b, false);
      case Boot => o := StartActiveProxyOnBootLocked(installed, a, false);
    }

    /**
     * Any run of queued calls, with anything happening between and within them. The calls admitted
     * are those before shutdown, all of them if it has not begun, and in any case every call that was
     * not cancelled. A provider enabled afterwards was enabled to begin with or by an admitted
     * activation, with no later admitted deactivation of it and no later admitted uninstall.
     */
    method Run(calls: seq<Call>) returns (outcomes: seq<Outcome>, admitted: seq<Call>)
      requires Valid()
      modifies manager
      ensures Valid() && (old(manager.shuttingDown) ==> manager.shuttingDown)
      ensures admitted <= calls && (manager.shuttingDown || admitted == calls)
      ensures |outcomes| == |calls|
      ensures forall i :: 0 <= i < |calls| && outcomes[i] != Cancelled ==> i < |admitted|
      ensures Enabled() <= AllowedAfter(old(Enabled()), admitted)
      ensures forall p :: p in Enabled() ==>
                || (p in old(Enabled()) && NotRevokedSince(admitted, 0, p))
                || (exists i :: 0 <= i < |admitted| && admitted[i] == Activate(p)
                                && NotRevokedSince(admitted, i + 1, p))
    {
      outcomes, admitted := [], [];
      var i := 0;
      while i < |calls|
        invariant i <= |calls| && |outcomes| == i && admitted <= calls[..i]
        invariant manager.shuttingDown || admitted == calls[..i]
        invariant old(manager.shuttingDown) ==> manager.shuttingDown
        invariant forall k :: 0 <= k < i && outcomes[k] != Cancelled ==> k < |admitted|
        invariant Valid() && Enabled() <= AllowedAfter(old(Enabled()), admitted)
      {
        AwaitOthers(false);
        ghost var was := Enabled();
        if !manager.shuttingDown {
          assert (admitted + [calls[i]])[..|admitted|] == admitted;
          AllowedIsMonotone(was, AllowedAfter(old(Enabled()), admitted), calls[i]);
          assert admitted + [calls[i]] == calls[..i + 1];
          admitted := admitted + [calls[i]];
        }
        var o := Perform(calls[i]);
        outcomes := outcomes + [o];
        i := i + 1;
      }
      forall p | p in Enabled()
        ensures (p in old(Enabled()) && NotRevokedSince(admitted, 0, p)) ||
                exists k :: 0 <= k < |admitted| && admitted[k] == Activate(p) && NotRevokedSince(admitted, k + 1, p)
      {
        AllowedExactly(old(Enabled()), admitted, p);
      }
    }

    /** A deactivated provider stays deactivated until it is activated again. */
    method DeactivateAndCarryOn(p: Provider, calls: seq<Call>) returns (outcomes: seq<Outcome>, admitted: seq<Call>)
      requires Valid() && Activate(p) !in calls
      modifies manager
      ensures Valid() && (!manager.shuttingDown ==> p !in Enabled())
    {
      outcomes, admitted := Run([Deactivate(p)] + calls);
      if !manager.shuttingDown {
        assert admitted[0] == Deactivate(p);
        assert forall i :: 0 < i < |admitted| ==> admitted[i] == calls[i - 1];
      }
    }
  }

  lemma AllowedIsMonotone(a: set<Provider>, b: set<Provider>, c: Call)
    requires a <= b
    ensures Allowed(a, c) <= Allowed(b, c)
  {
  }
}
