/**
 * Moving the shared framework pointer: materialize every required provider, then swap `current` once,
 * with a recovery copy to go back to when the swap misbehaves.
 *
 * What the Core's subprocesses do is an input: which installs fail, what the swap leaves at `current`
 * and how it exits; another writer that moves `current` meanwhile is part of what it leaves. An install
 * that exits without error is trusted to have installed its provider.
 */
module FrameworkManager {
  import opened Wrappers
  import opened SemverLite

  /** A materialized framework: the version it reads as, if any, and the providers in it. */
  datatype Tree = Tree(version: Option<string>, providers: set<string>, content: nat)

  /** What a failed swap says about its recovery copy; `NoCopy` also when the swap succeeded. */
  datatype Recovery = NoCopy | Unneeded | Restored | Retained(id: nat)

  function VersionOf(current: Option<Tree>): Option<string> {
    if current.Some? then current.value.version else None
  }

  predicate KnownProvider(p: string) {
    p == "claude" || p == "codex" || p == "gemini" || p == "kimi"
  }

  /** The providers that the next version must have: asked for, registered, or in the current one. */
  function RequiredFrameworkProviders(requested: set<string>, registered: set<string>, current: Option<Tree>)
    : set<string>
  {
    requested + (set p | p in registered && KnownProvider(p)) +
    if current.Some? then set p | p in current.value.providers && KnownProvider(p) else {}
  }

  /** The swap's subprocess: what is at `current` when it ends, and whether it exited with zero. */
  datatype Swap = Swap(left: Option<Tree>, exitedZero: bool)

  predicate Moved(s: Swap, version: string) {
    s.exitedZero && VersionOf(s.left) == Some(version)
  }

  /** How a swap of `before` to `version` leaves things, by its subprocess, result and recovery copy. */
  ghost predicate SwapLeaves(before: Option<Tree>, after: Option<Tree>, copies: map<nat, Tree>,
                             version: string, s: Swap, ok: bool, recovery: Recovery)
  {
    && (ok ==> VersionOf(after) == Some(version) && recovery.NoCopy?)
    && (recovery.Unneeded? ==> !ok && after == s.left && VersionOf(after) == VersionOf(before) != None)
    && (recovery.Restored? ==> !ok && after == before && before.Some?)
    && (recovery.Retained? ==>
          && !ok && before.Some? && recovery.id in copies && copies[recovery.id] == before.value
          && VersionOf(after) != VersionOf(before)
          && (after == s.left || after.None?))
    && (!ok && recovery.NoCopy? ==> after == before || (VersionOf(before).None? && after == s.left))
    // somebody else's version is left alone
    && (!ok && recovery != NoCopy && VersionOf(s.left).Some? && VersionOf(s.left) != Some(version) ==> after == s.left)
  }

  /** What a crash at some moment would leave: `current`, and the recovery copies. */
  datatype Standing = Standing(current: Option<Tree>, copies: map<nat, Tree>)

  /**
   * The framework before the swap can still be had: it is at `current` or in a copy, or what the swap
   * left at `current` reads as its version, or as the version swapped to by a subprocess that says so.
   */
  predicate Recoverable(st: Standing, before: Tree, version: string, s: Swap) {
    || st.current == Some(before) || (exists id | id in st.copies :: st.copies[id] == before)
    || (st.current == s.left && (VersionOf(s.left) == before.version || Moved(s, version)))
  }

  /** A provider that the next version must have: one asked for, or a known one that is registered or installed. */
  ghost predicate Needed(p: string, requested: set<string>, registered: set<string>, before: Option<Tree>) {
    || p in requested
    || (p in ["claude", "codex", "gemini", "kimi"]
        && (p in registered || (before.Some? && p in before.value.providers)))
  }

  class Manager {
    /** No file operation throws. */
    const reliable: bool
    var current: Option<Tree>
    var copies: map<nat, Tree>
    var failedAside: seq<Tree>
    var installed: set<(string, string)>
    /** Every state so far that a crash during a swap would leave. */
    ghost var log: seq<Standing>

    constructor (reliable: bool, current: Option<Tree>)
      ensures this.reliable == reliable && this.current == current
      ensures copies == map[] && failedAside == [] && installed == {} && log == []
    {
      this.reliable := reliable;
      this.current, copies, failedAside, installed := current, map[], [], {};
      log := [];
    }

    /** One write to `current` or to the recovery copies. */
    method Put(current: Option<Tree>, copies: map<nat, Tree>)
      modifies `current, `copies, `log
      ensures this.current == current && this.copies == copies && log == old(log) + [Standing(current, copies)]
    {
      this.current, this.copies := current, copies;
      log := log + [Standing(current, copies)];
    }

    /** Since the log was `past`, no crash could have lost `before`. */
    ghost predicate NeverLost(past: seq<Standing>, before: Tree, version: string, s: Swap)
      reads `log
    {
      past <= log && forall i | |past| <= i < |log| :: Recoverable(log[i], before, version, s)
    }

    /** Install each required provider of `version` without moving `current`. */
    method Materialize(version: string, required: set<string>, failing: set<string>)
      returns (done: seq<string>, errors: seq<string>)
      modifies `installed
      ensures old(installed) <= installed
      ensures forall p :: p in done <==> p in required && p !in failing
      ensures forall p :: p in errors <==> p in required && p in failing
      ensures forall p :: p in done ==> (version, p) in installed
    {
      done, errors := [], [];
      var rest := required;
      while rest != {}
        invariant rest <= required && old(installed) <= installed
        invariant forall p :: p in done <==> p in required && p !in rest && p !in failing
        invariant forall p :: p in errors <==> p in required && p !in rest && p in failing
        invariant forall p :: p in done ==> (version, p) in installed
        decreases rest
      {
        var provider :| provider in rest;
        rest := rest - {provider};
        if provider in failing {
          errors := errors + [provider];
        } else {
          installed := installed + {(version, provider)};
          done := done + [provider];
        }
      }
    }

    method DropCopy(backup: nat)
      modifies `current, `copies, `log
      ensures current == old(current)
      ensures log == old(log) || (exists c :: log == old(log) + [Standing(current, c)])
      ensures reliable ==> copies == old(copies) - {backup}
    {
      var kept := MayFail(reliable);
      if !kept { Put(current, copies - {backup}); }
    }

    /** The swap did not do what it should: put the recovery copy back, unless somebody else moved on. */
    method Recover(backup: nat, previous: Tree, version: string, ghost s: Swap) returns (recovery: Recovery)
      requires backup in copies && copies[backup] == previous && current == s.left
      requires previous.version.Some? && previous.version != Some(version)
      modifies `current, `copies, `failedAside, `log
      ensures NeverLost(old(log), previous, version, s)
      ensures SwapLeaves(Some(previous), current, copies, version, s, false, recovery) && !recovery.NoCopy?
      ensures recovery.Unneeded? <==> VersionOf(s.left) == previous.version
      ensures reliable && (VersionOf(s.left).None? || VersionOf(s.left) == Some(version)) ==> recovery.Restored?
      ensures reliable && !recovery.Retained? ==> copies == old(copies) - {backup}
      // What the swap left is put aside, not thrown away.
      ensures recovery.Restored? ==>
                failedAside == old(failedAside) + if s.left.Some? then [s.left.value] else []
    {
      var actual := VersionOf(current);
      if actual == previous.version {
        DropCopy(backup);
        return Unneeded;
      }
      if actual.Some? && actual != Some(version) {
        return Retained(backup);
      }
      if current.Some? {
        var throws := MayFail(reliable);
        if throws {
          return Retained(backup);
        }
        failedAside := failedAside + [current.value];
        Put(None, copies);
      }
      var throws := MayFail(reliable);
      if throws {
        return Retained(backup);
      }
      Put(Some(copies[backup]), copies - {backup});
      recovery := Restored;
    }

    /** Point `current` at `version`, keeping a recovery copy while that may go wrong. */
    method SwapCurrentDetailed(version: string, cli: bool, s: Swap) returns (ok: bool, recovery: Recovery)
      modifies `current, `copies, `failedAside, `log
      ensures old(log) <= log
      ensures VersionOf(old(current)).Some? ==> NeverLost(old(log), old(current).value, version, s)
      ensures SwapLeaves(old(current), current, copies, version, s, ok, recovery)
      ensures reliable && LeftAlone(Some(version), s) ==> !recovery.Retained?
      // A recovery copy outlives the swap only where the answer says so.
      ensures reliable && !recovery.Retained? ==> copies == old(copies)
      ensures !cli ==> !ok && current == old(current)
      ensures cli && VersionOf(old(current)) == Some(version) ==> ok && current == old(current)
      ensures cli && VersionOf(old(current)) != Some(version) ==>
                && (ok ==> Moved(s, version) && current == s.left)
                && (reliable ==> (ok <==> Moved(s, version)))
                && (reliable && !ok && VersionOf(old(current)).Some? ==>
                      recovery.Restored? || VersionOf(current) == VersionOf(s.left) != None)
    {
      if !cli {
        return false, NoCopy;
      }
      if VersionOf(current) == Some(version) {
        return true, NoCopy;
      }
      var previous := current;
      var backup := FreshId(copies.Keys);
      var backedUp := VersionOf(current).Some?;
      if backedUp {
        var throws := MayFail(reliable);
        if throws {
          return false, NoCopy;
        }
        Put(current, copies[backup := current.value]);
        assert copies[backup] == current.value;
      }
      Put(s.left, copies);
      if !Moved(s, version) {
        if !backedUp {
          return false, NoCopy;
        }
        recovery := Recover(backup, previous.value, version, s);
        return false, recovery;
      }
      if backedUp {
        DropCopy(backup);
      }
      return true, NoCopy;
    }

    /**
     * Bring `current` up to the bundled version. Nothing moves unless the bundle is strictly newer or
     * nothing readable was installed, and every required provider was installed at it first; and when
     * that is so and nothing fails, it does move.
     */
    method VersionCheck(bundled: Option<string>, cli: bool, requested: set<string>, registered: set<string>,
                        failing: set<string>, s: Swap)
      returns (swapped: bool, version: Option<string>, recovery: Recovery)
      modifies this
      ensures old(log) <= log
      ensures bundled.Some? && VersionOf(old(current)).Some? ==>
                NeverLost(old(log), old(current).value, bundled.value, s)
      ensures version == VersionOf(current)
      ensures swapped ==> VersionOf(current) == bundled != VersionOf(old(current)) && current == s.left
      ensures current != old(current) || swapped ==>
                && cli && Upgrades(bundled, VersionOf(old(current)))
                && (forall p :: Needed(p, requested, registered, old(current)) ==>
                      p !in failing && (bundled.value, p) in installed)
      // A current bundle is repaired in place.
      ensures cli && bundled.Some? && VersionOf(old(current)) == bundled ==>
                forall p :: Needed(p, requested, registered, old(current)) && p !in failing ==>
                              (bundled.value, p) in installed
      ensures version == VersionOf(old(current)) || version == bundled
              || VersionOf(old(current)).None? || recovery.Retained?
      ensures recovery.Retained? ==>
                && !swapped && recovery.id in copies && old(current) == Some(copies[recovery.id])
                && (current == s.left || current.None?)
      ensures recovery.Restored? ==> current == old(current)
      ensures reliable && LeftAlone(bundled, s) ==> !recovery.Retained?
      ensures reliable && !recovery.Retained? ==> copies == old(copies)
      ensures reliable ==>
                (swapped <==>
                  && cli && Upgrades(bundled, VersionOf(old(current)))
                  && s.exitedZero && VersionOf(s.left) == bundled
                  && (exists p :: Needed(p, requested, registered, old(current)))
                  && forall p :: Needed(p, requested, registered, old(current)) ==> p !in failing)
    {
      recovery := NoCopy;
      if bundled.None? || !cli {
        return false, VersionOf(current), recovery;
      }
      var required := RequiredFrameworkProviders(requested, registered, current);
      assert forall p :: p in required <==> Needed(p, requested, registered, current);
      var before := VersionOf(current);
      if before == bundled {
        var _, _ := Materialize(bundled.value, required, failing);
        return false, before, recovery;
      }
      if before.Some? && !IsNewer(bundled.value, before.value) {
        return false, before, recovery;
      }
      var done, errors := Materialize(bundled.value, required, failing);
      if errors != [] {
        assert errors[0] in errors;
        return false, before, recovery;
      }
      assert forall p :: p in required ==> p !in errors;
      if done == [] {
        assert required == {};
        return false, before, recovery;
      }
      assert done[0] in done;
      var ok: bool;
      ok, recovery := SwapCurrentDetailed(bundled.value, cli, s);
      if ok {
        return true, bundled, recovery;
      }
      return false, VersionOf(current), recovery;
    }

    /**
     * Over any sequence of checks, with bundles coming and going, the installed version never goes
     * down unless some check says that it kept its recovery copy back; and none has to when file
     * operations work and nobody else moves `current`.
     */
    method VersionChecks(bundles: seq<(Option<string>, Swap)>, cli: bool, requested: set<string>,
                         registered: set<string>, failing: set<string>)
      returns (recoveries: seq<Recovery>)
      requires VersionOf(current).Some?
      modifies this
      ensures |recoveries| == |bundles|
      ensures (forall r | r in recoveries :: !r.Retained?) ==>
                VersionOf(current).Some? && !IsNewer(VersionOf(old(current)).value, VersionOf(current).value)
      ensures reliable && (forall b | b in bundles :: LeftAlone(b.0, b.1)) ==>
                forall r | r in recoveries :: !r.Retained?
    {
      recoveries := [];
      ghost var first := VersionOf(current).value;
      OrderIsTotalPreorder(first, first, first);
      for i := 0 to |bundles|
        invariant |recoveries| == i
        invariant (forall r | r in recoveries :: !r.Retained?) ==> NotBelow(VersionOf(current), first)
        invariant reliable && (forall b | b in bundles[..i] :: LeftAlone(b.0, b.1)) ==>
                    forall r | r in recoveries :: !r.Retained?
      {
        ghost var before := VersionOf(current);
        var _, _, recovery := VersionCheck(bundles[i].0, cli, requested, registered, failing, bundles[i].1);
        assert bundles[..i + 1] == bundles[..i] + [bundles[i]];
        if !recovery.Retained? && NotBelow(before, first) {
          StaysNotBelow(before, VersionOf(current), first);
        }
        recoveries := recoveries + [recovery];
      }
      assert bundles[..|bundles|] == bundles;
      if NotBelow(VersionOf(current), first) {
        OrderIsTotalPreorder(VersionOf(current).value, first, first);
      }
    }
  }

  /** The swap leaves the bundle at `current`, or nothing readable: nobody else put a version there. */
  predicate LeftAlone(bundled: Option<string>, s: Swap) {
    VersionOf(s.left).None? || VersionOf(s.left) == bundled
  }

  predicate NotBelow(version: Option<string>, first: string) {
    version.Some? && (version.value == first || IsNewer(version.value, first))
  }

  lemma StaysNotBelow(before: Option<string>, after: Option<string>, first: string)
    requires NotBelow(before, first) && (after == before || Upgrades(after, before))
    ensures NotBelow(after, first)
  {
    if after != before {
      OrderIsTotalPreorder(after.value, before.value, first);
    }
  }

  /** The bundle is strictly newer than what is installed, or nothing readable is. */
  predicate Upgrades(bundled: Option<string>, installed: Option<string>) {
    bundled.Some? && (installed.None? || (bundled != installed && IsNewer(bundled.value, installed.value)))
  }
}
