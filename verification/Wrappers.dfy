/** What the other modules share: Some/None for the program's `null` and `undefined`, and fresh identifiers. */
module Wrappers {
  datatype Option<+T> = None | Some(value: T) {
    function GetOr(default: T): T {
      if Some? then value else default
    }
  }

  /** Whether an operation of the environment fails; none does where it is reliable. */
  method MayFail(reliable: bool) returns (fails: bool)
    ensures reliable ==> !fails
  {
    fails := *;
    fails := fails && !reliable;
  }

  /** An identifier that is not in use. */
  method FreshId(used: set<nat>) returns (id: nat)
    ensures id !in used
  {
    id := 0;
    var rest := used;
    while rest != {}
      invariant forall u :: u in used && u !in rest ==> u < id
      decreases rest
    {
      var u :| u in rest;
      if u >= id { id := u + 1; }
      rest := rest - {u};
    }
  }

  /** What every step keeps holds throughout. */
  lemma {:induction false} HoldsThroughout<T>(states: seq<T>, holds: T -> bool, k: nat)
    requires k < |states| && holds(states[0])
    requires forall n | 0 <= n < |states| - 1 && holds(states[n]) :: holds(states[n + 1])
    ensures holds(states[k])
  {
    if k > 0 {
      HoldsThroughout(states, holds, k - 1);
      assert holds(states[k - 1 + 1]);
    }
  }

  function Fold<S, E>(f: (S, E) -> S, s: S, es: seq<E>): S {
    if es == [] then s else Fold(f, f(s, es[0]), es[1..])
  }

  lemma {:induction false} FoldInTurn<S, E>(f: (S, E) -> S, s: S, a: seq<E>, b: seq<E>)
    ensures Fold(f, s, a + b) == Fold(f, Fold(f, s, a), b)
    decreases |a|
  {
    if a == [] {
      assert a + b == b;
    } else {
      FoldInTurn(f, f(s, a[0]), a[1..], b);
      assert (a + b)[1..] == a[1..] + b;
    }
  }
}
