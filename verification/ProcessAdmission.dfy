/**
 * The admission barrier for subprocess work: generation leases let a continuation prove that its
 * project, and the application, have been live ever since it captured one.
 */
module ProcessAdmission {
  import opened Wrappers

  type Project = string

  datatype Barrier = Barrier(appOpen: bool, appGeneration: nat, generations: map<Project, nat>, closed: set<Project>)

  datatype Event =
    | QuiesceApp
    | QuiesceProject(p: Project)
    | OpenProject(p: Project)
    | Reset

  datatype Lease = Lease(project: Option<Project>, appGeneration: nat, projectGeneration: nat)

  function Generation(b: Barrier, p: Project): nat {
    if p in b.generations then b.generations[p] else 0
  }

  predicate Admits(b: Barrier, p: Option<Project>) {
    b.appOpen && (p.Some? ==> p.value !in b.closed)
  }

  function Captured(b: Barrier, p: Option<Project>): Lease {
    Lease(p, b.appGeneration, if p.Some? then Generation(b, p.value) else 0)
  }

  predicate Current(b: Barrier, l: Lease) {
    && Admits(b, l.project)
    && b.appGeneration == l.appGeneration
    && (l.project.Some? ==> Generation(b, l.project.value) == l.projectGeneration)
  }

  function Next(b: Barrier, e: Event): Barrier {
    match e
    case QuiesceApp => if b.appOpen then b.(appOpen := false, appGeneration := b.appGeneration + 1) else b
    case QuiesceProject(p) => b.(closed := b.closed + {p}, generations := b.generations[p := Generation(b, p) + 1])
    case OpenProject(p) => b.(closed := b.closed - {p}, generations := b.generations[p := Generation(b, p) + 1])
    case Reset => Barrier(true, b.appGeneration + 1, map[], {})
  }

  function After(b: Barrier, events: seq<Event>): Barrier
    decreases |events|
  {
    if events == [] then b else After(Next(b, events[0]), events[1..])
  }

  /** The events that end a lease: the application's, and its own project's. */
  predicate Ends(e: Event, l: Lease) {
    match e
    case QuiesceApp => true
    case Reset => true
    case QuiesceProject(p) => l.project == Some(p)
    case OpenProject(p) => l.project == Some(p)
  }

  /** A generation has moved past the lease's. */
  predicate Overtaken(b: Barrier, l: Lease) {
    || b.appGeneration > l.appGeneration
    || (l.project.Some? && Generation(b, l.project.value) > l.projectGeneration)
  }

  /** Once overtaken, always: a reset forgets the projects' counters but moves the application's. */
  lemma {:induction false} OvertakenForever(b: Barrier, l: Lease, events: seq<Event>)
    requires Overtaken(b, l) && b.appGeneration >= l.appGeneration
    ensures Overtaken(After(b, events), l) && !Current(After(b, events), l)
    decreases |events|
  {
    if events == [] {
    } else {
      OvertakenForever(Next(b, events[0]), l, events[1..]);
    }
  }

  /**
   * A lease is current exactly as long as nothing has ended it since it was captured: no quiescence of
   * the application, no reset, and neither quiescence nor reopening of its own project.
   */
  lemma {:induction false} CurrentExactly(b: Barrier, l: Lease, events: seq<Event>)
    requires Current(b, l)
    ensures Current(After(b, events), l) <==> forall k :: 0 <= k < |events| ==> !Ends(events[k], l)
    decreases |events|
  {
    if events == [] {
    } else {
      var next := Next(b, events[0]);
      if Ends(events[0], l) {
        OvertakenForever(next, l, events[1..]);
      } else {
        CurrentExactly(next, l, events[1..]);
        assert forall k :: 1 <= k < |events| ==> events[k] == events[1..][k - 1];
        assert forall k :: 0 <= k < |events| - 1 ==> events[1..][k] == events[k + 1];
      }
    }
  }

  /** A lease captured when admission was open, over the whole run since, and what follows its end. */
  lemma LeaseLifetime(b: Barrier, p: Option<Project>, before: seq<Event>, later: seq<Event>)
    requires Admits(b, p)
    ensures var l := Captured(b, p);
            && (Current(After(b, before), l) <==> forall k :: 0 <= k < |before| ==> !Ends(before[k], l))
            && (!Current(After(b, before), l) ==> !Current(After(b, before + later), l))
  {
    var l := Captured(b, p);
    CurrentExactly(b, l, before);
    CurrentExactly(b, l, before + later);
    assert forall k :: 0 <= k < |before| ==> (before + later)[k] == before[k];
  }

  class Admission {
    var appOpen: bool
    var appGeneration: nat
    var projectGenerations: map<Project, nat>
    var closedProjects: set<Project>

    constructor ()
      ensures View() == Barrier(true, 0, map[], {})
    {
      appOpen, appGeneration, projectGenerations, closedProjects := true, 0, map[], {};
    }

    function View(): Barrier
      reads this
    {
      Barrier(appOpen, appGeneration, projectGenerations, closedProjects)
    }

    /** A lease, or nothing when admission is closed. */
    method Capture(p: Option<Project>) returns (lease: Option<Lease>)
      ensures lease.Some? <==> Admits(View(), p)
      ensures lease.Some? ==> lease.value == Captured(View(), p) && Current(View(), lease.value)
    {
      if !appOpen || (p.Some? && p.value in closedProjects) {
        return None;
      }
      var generation := 0;
      if p.Some? && p.value in projectGenerations {
        generation := projectGenerations[p.value];
      }
      lease := Some(Lease(p, appGeneration, generation));
    }

    method IsCurrent(l: Lease) returns (current: bool)
      ensures current <==> Current(View(), l)
    {
      current := appOpen && appGeneration == l.appGeneration;
      if current && l.project.Some? {
        current := l.project.value !in closedProjects && Generation(View(), l.project.value) == l.projectGeneration;
      }
    }

    method BeginAppProcessQuiescence()
      modifies `appOpen, `appGeneration
      ensures View() == Next(old(View()), QuiesceApp)
    {
      if !appOpen {
        return;
      }
      appOpen := false;
      appGeneration := appGeneration + 1;
    }

    method BeginProjectProcessQuiescence(p: Project)
      modifies `closedProjects, `projectGenerations
      ensures View() == Next(old(View()), QuiesceProject(p))
    {
      closedProjects := closedProjects + {p};
      projectGenerations := projectGenerations[p := Generation(View(), p) + 1];
    }

    method OpenProjectProcessAdmission(p: Project)
      modifies `closedProjects, `projectGenerations
      ensures View() == Next(old(View()), OpenProject(p))
    {
      closedProjects := closedProjects - {p};
      projectGenerations := projectGenerations[p := Generation(View(), p) + 1];
    }

    method ResetProcessAdmission()
      modifies this
      ensures View() == Next(old(View()), Reset)
    {
      appOpen := true;
      appGeneration := appGeneration + 1;
      projectGenerations := map[];
      closedProjects := {};
    }

    method Handle(e: Event)
      modifies this
      ensures View() == Next(old(View()), e)
    {
      match e
      case QuiesceApp => BeginAppProcessQuiescence();
      case QuiesceProject(p) => BeginProjectProcessQuiescence(p);
      case OpenProject(p) => OpenProjectProcessAdmission(p);
      case Reset => ResetProcessAdmission();
    }

    /** A continuation captures a lease, other things happen, and then it asks. */
    method Continuation(p: Option<Project>, events: seq<Event>) returns (lease: Option<Lease>, current: bool)
      modifies this
      ensures lease.Some? <==> Admits(old(View()), p)
      ensures lease.Some? ==> (current <==> forall k :: 0 <= k < |events| ==> !Ends(events[k], lease.value))
    {
      lease := Capture(p);
      ghost var captured := View();
      var i := 0;
      while i < |events|
        invariant i <= |events|
        invariant After(View(), events[i..]) == After(captured, events)
      {
        assert events[i..][1..] == events[i + 1..];
        Handle(events[i]);
        i := i + 1;
      }
      if lease.Some? {
        current := IsCurrent(lease.value);
        CurrentExactly(captured, lease.value, events);
      } else {
        current := false;
      }
    }
  }
}
