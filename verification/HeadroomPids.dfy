/**
 * Who owns a listening socket, over a snapshot of the process table: the walk from a listener up its
 * parents, and the closure from the root down to its descendants. The table may hold cycles and
 * parents that are not in it.
 */
module HeadroomPids {
  import opened Wrappers

  /** Parent by pid; parsing admits positive pids and parents only. */
  type Parents = map<int, int>

  predicate Positive(parents: Parents) {
    forall p :: p in parents ==> p > 0 && parents[p] > 0
  }

  /** The ancestor `n` steps up, if the table reaches that far. */
  function Ancestor(parents: Parents, pid: int, n: nat): Option<int>
    decreases n
  {
    if n == 0 then Some(pid)
    else if pid in parents then Ancestor(parents, parents[pid], n - 1)
    else None
  }

  lemma HasMember(s: set<int>)
    requires s != {}
    ensures exists x :: x in s
  {
    assert (forall x :: x !in s) ==> s == {};
  }

  /** `root` is `pid` or one of its ancestors. */
  ghost predicate Descends(parents: Parents, pid: int, root: int) {
    exists n: nat :: Ancestor(parents, pid, n) == Some(root)
  }

  lemma {:induction false} OneStepFurther(parents: Parents, pid: int, root: int)
    requires pid in parents && Descends(parents, parents[pid], root)
    ensures Descends(parents, pid, root)
  {
    var n: nat :| Ancestor(parents, parents[pid], n) == Some(root);
    assert Ancestor(parents, pid, n + 1) == Some(root);
  }

  /** A set closed under parents, as far as the table knows them, holds every ancestor of its members. */
  lemma {:induction false} ClosedUnderParents(parents: Parents, closed: set<int>, pid: int, n: nat)
    requires forall p :: p in closed && p in parents ==> parents[p] in closed
    requires pid in closed && Ancestor(parents, pid, n).Some?
    ensures Ancestor(parents, pid, n).value in closed
    decreases n
  {
    if n > 0 {
      ClosedUnderParents(parents, closed, parents[pid], n - 1);
    }
  }

  /** A set that takes in every known child of its members holds everything that descends from them. */
  lemma {:induction false} ClosedUnderChildren(parents: Parents, closed: set<int>, pid: int, n: nat)
    requires forall p :: p in parents && parents[p] in closed ==> p in closed
    requires Ancestor(parents, pid, n).Some? && Ancestor(parents, pid, n).value in closed
    ensures pid in closed
    decreases n
  {
    if n > 0 {
      ClosedUnderChildren(parents, closed, parents[pid], n - 1);
    }
  }

  /** The walk from one listener: up the parents until the root, the end of the table or a cycle. */
  method WalkReaches(parents: Parents, listener: int, root: int) returns (found: bool)
    requires Positive(parents) && root > 0
    ensures found <==> Descends(parents, listener, root)
  {
    var current := listener;
    var visited: set<int> := {};
    ghost var steps: nat := 0;
    while current > 0 && current !in visited
      invariant Ancestor(parents, listener, steps) == Some(current) || current == 0
      invariant root !in visited
      invariant listener in visited || (current == listener && visited == {})
      invariant forall p :: p in visited && p in parents ==> parents[p] in visited || parents[p] == current
      invariant current == 0 ==> forall p :: p in visited && p in parents ==> parents[p] in visited
      invariant forall p :: p in visited ==> p in parents || current == 0
      decreases (parents.Keys + {listener}) - visited, current
    {
      if current == root {
        return true;
      }
      visited := visited + {current};
      if current in parents {
        StepUp(parents, listener, steps);
        current := parents[current];
        steps := steps + 1;
      } else {
        current := 0;
      }
    }
    forall n: nat ensures Ancestor(parents, listener, n) != Some(root) {
      if listener in visited && Ancestor(parents, listener, n) == Some(root) {
        ClosedUnderParents(parents, visited, listener, n);
      }
    }
    found := false;
  }

  lemma {:induction false} StepUp(parents: Parents, pid: int, n: nat)
    requires Ancestor(parents, pid, n).Some? && Ancestor(parents, pid, n).value in parents
    ensures Ancestor(parents, pid, n + 1) == Some(parents[Ancestor(parents, pid, n).value])
    decreases n
  {
    if n > 0 {
      StepUp(parents, parents[pid], n - 1);
    }
  }

  /** True only when a listening process is the root or one of its descendants. */
  method WindowsSnapshotHasOwnedListener(listeners: set<int>, parents: Parents, root: int) returns (owned: bool)
    requires Positive(parents)
    ensures owned <==> root > 0 && exists l :: l in listeners && Descends(parents, l, root)
  {
    if root <= 0 {
      return false;
    }
    var rest := listeners;
    while rest != {}
      invariant rest <= listeners
      invariant forall l :: l in listeners && l !in rest ==> !Descends(parents, l, root)
      decreases rest
    {
      HasMember(rest);
      var listener :| listener in rest;
      var found := WalkReaches(parents, listener, root);
      if found {
        return true;
      }
      rest := rest - {listener};
    }
    owned := false;
  }

  /** One pass over the table: take in every process whose parent has been taken in. */
  method Pass(parents: Parents, root: int, before: set<int>) returns (after: set<int>, changed: bool)
    requires root in before && forall p :: p in before ==> Descends(parents, p, root)
    ensures before <= after <= before + parents.Keys
    ensures forall p :: p in after ==> Descends(parents, p, root)
    ensures changed <==> after != before
    ensures !changed ==> forall p :: p in parents && parents[p] in after ==> p in after
  {
    after, changed := before, false;
    var rest := parents.Keys;
    while rest != {}
      invariant rest <= parents.Keys && before <= after <= before + parents.Keys
      invariant forall p :: p in after ==> Descends(parents, p, root)
      invariant changed <==> after != before
      invariant !changed ==> forall p :: p in parents && p !in rest && parents[p] in after ==> p in after
      decreases rest
    {
      HasMember(rest);
      var pid :| pid in rest;
      rest := rest - {pid};
      if pid !in after && parents[pid] in after {
        OneStepFurther(parents, pid, root);
        after := after + {pid};
        changed := true;
      }
    }
  }

  /** The root and everything that descends from it, by passes over the table until one adds nothing. */
  method DescendantPids(root: int, parents: Parents) returns (descendants: set<int>)
    ensures forall p :: p in descendants <==> Descends(parents, p, root)
  {
    assert Ancestor(parents, root, 0) == Some(root);
    descendants := {root};
    var changed := true;
    while changed
      invariant root in descendants && descendants <= parents.Keys + {root}
      invariant forall p :: p in descendants ==> Descends(parents, p, root)
      invariant !changed ==> forall p :: p in parents && parents[p] in descendants ==> p in descendants
      decreases parents.Keys + {root} - descendants, changed
    {
      descendants, changed := Pass(parents, root, descendants);
    }
    forall p | Descends(parents, p, root) ensures p in descendants {
      var n: nat :| Ancestor(parents, p, n) == Some(root);
      ClosedUnderChildren(parents, descendants, p, n);
    }
  }

  /** The two ways of asking agree on every table, cycles included. */
  method OwnershipAgrees(listeners: set<int>, parents: Parents, root: int) returns (walked: bool, closure: set<int>)
    requires Positive(parents) && root > 0
    ensures walked <==> listeners * closure != {}
    ensures walked <==> exists l :: l in listeners && Descends(parents, l, root)
    ensures forall p :: p in closure <==> Descends(parents, p, root)
  {
    walked := WindowsSnapshotHasOwnedListener(listeners, parents, root);
    closure := DescendantPids(root, parents);
    if walked {
      ghost var l :| l in listeners && Descends(parents, l, root);
      assert l in listeners * closure;
    } else {
      assert forall l :: l in listeners ==> !Descends(parents, l, root);
      assert forall l :: l !in listeners * closure;
    }
  }
}
