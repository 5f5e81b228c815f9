/** Which loaded modules the linker of dld-3.2.3/dld.c flags as executable: those that are resolved and that no
    unresolved module reaches along the `refs_by` chains.  What that has to do with the modules they call is the
    subject of `DldChains`. */
module DldExec {
  import opened DldModel

  /** A path along the `refs_by` chains. */
  ghost predicate Path(ms: Modules, p: seq<nat>) {
    && p != [] && (forall k :: 0 <= k < |p| ==> p[k] in ms)
    && (forall k :: 0 <= k < |p| - 1 ==> p[k + 1] in ms[p[k]].refsBy)
  }

  /** `m` is an unresolved module or can be reached from one through `refs_by`. */
  ghost predicate Blocked(ms: Modules, m: nat) {
    exists p :: Path(ms, p) && !ms[p[0]].resolved && p[|p| - 1] == m
  }

  /** Every entry on the chains that the search walks over is loaded: those are the chains of the blocked modules. */
  ghost predicate SearchLoaded(ms: Modules) {
    forall m :: m in ms && Blocked(ms, m) ==> ms[m].refsBy <= ms.Keys
  }

  function Executable(ms: Modules): set<nat> { set m | m in ms && ms[m].executable }

  ghost predicate SameGraph(ms: Modules, ms': Modules) {
    ms'.Keys == ms.Keys && forall m :: m in ms ==> ms'[m] == ms[m].(executable := ms'[m].executable)
  }

  /** `x` are the modules still flagged.  Whoever refers to a module that has been cleared has
      been cleared too, except for the modules in `open`. */
  ghost predicate ClearedUpTo(g: Modules, x: set<nat>, open: set<nat>) {
    forall m, r :: m in g && m !in x && m !in open && r in g[m].refsBy ==> r !in x
  }

  ghost predicate OnlyBlockedCleared(g: Modules, x: set<nat>) {
    forall m :: m in g && m !in x ==> Blocked(g, m)
  }

  lemma BlockedSpreads(ms: Modules, m: nat, r: nat)
    requires Blocked(ms, m) && m in ms && r in ms[m].refsBy && r in ms
    ensures Blocked(ms, r)
  {
    var p :| Path(ms, p) && !ms[p[0]].resolved && p[|p| - 1] == m;
    var q := p + [r];
    assert Path(ms, q) && q[0] == p[0] && q[|q| - 1] == r;
  }

  lemma UnresolvedIsBlocked(ms: Modules, m: nat)
    requires m in ms && !ms[m].resolved
    ensures Blocked(ms, m)
  {
    assert Path(ms, [m]);
  }

  lemma {:induction false} PathIsCleared(g: Modules, x: set<nat>, p: seq<nat>)
    requires ClearedUpTo(g, x, {}) && Path(g, p) && p[0] !in x
    ensures p[|p| - 1] !in x
    decreases |p|
  {
    if |p| > 1 {
      var q := p[..|p| - 1];
      assert Path(g, q);
      PathIsCleared(g, x, q);
      assert p[|p| - 1] in g[q[|q| - 1]].refsBy;
    }
  }

  /** When the search is complete, exactly the blocked modules have been cleared. */
  lemma ClearedExactly(g: Modules, x: set<nat>)
    requires ClearedUpTo(g, x, {}) && OnlyBlockedCleared(g, x)
    requires forall m :: m in g && !g[m].resolved ==> m !in x
    ensures forall m :: m in g ==> (m in x <==> !Blocked(g, m))
  {
    forall m | m in g && Blocked(g, m) ensures m !in x {
      var p :| Path(g, p) && !g[p[0]].resolved && p[|p| - 1] == m;
      PathIsCleared(g, x, p);
    }
  }

  /** Clearing `e` leaves its own callers to be looked at. */
  lemma ClearOne(g: Modules, x: set<nat>, open: set<nat>, e: nat)
    requires Blocked(g, e) && ClearedUpTo(g, x, open + {e}) && OnlyBlockedCleared(g, x)
    ensures ClearedUpTo(g, x - {e}, open + {e}) && OnlyBlockedCleared(g, x - {e})
  {
  }

  lemma WeakerUpTo(g: Modules, x: set<nat>, open: set<nat>, r: nat)
    requires ClearedUpTo(g, x, open)
    ensures ClearedUpTo(g, x, open + {r})
  {
  }

  lemma CallersDone(g: Modules, x: set<nat>, open: set<nat>, e: nat)
    requires ClearedUpTo(g, x, open + {e}) && e in g && g[e].refsBy !! x
    ensures ClearedUpTo(g, x, open)
  {
  }

  lemma Flagged(ms: Modules, e: nat)
    requires e in ms
    ensures e in Executable(ms) <==> ms[e].executable
  {
  }

  lemma ClearFlag(g: Modules, ms: Modules, e: nat)
    requires SameGraph(g, ms) && e in ms
    ensures var ms' := ms[e := ms[e].(executable := false)];
      SameGraph(g, ms') && ms'.Keys == g.Keys && ms'[e].refsBy == g[e].refsBy && Executable(ms') == Executable(ms) - {e}
  {
  }

  lemma ChainIsLoaded(g: Modules, e: nat)
    requires SearchLoaded(g) && e in g && Blocked(g, e)
    ensures g[e].refsBy <= g.Keys
  {
  }

  lemma SameKeys(g: Modules, ms: Modules)
    requires SameGraph(g, ms)
    ensures ms.Keys == g.Keys
  {
  }

  class Marker {
    var modules: Modules

    constructor (ms: Modules)
      ensures modules == ms
    {
      modules := ms;
    }

    /** Reset the executable flag of `e` and of all modules that refer to it, however indirectly.
        A module that has been cleared already is not visited again. */
    method Invalidate(e: nat, ghost g: Modules, ghost open: set<nat>)
      requires e in modules && SameGraph(g, modules) && SearchLoaded(g) && Blocked(g, e)
      requires ClearedUpTo(g, Executable(modules), open + {e}) && OnlyBlockedCleared(g, Executable(modules))
      modifies this
      ensures SameGraph(g, modules)
      ensures ClearedUpTo(g, Executable(modules), open) && OnlyBlockedCleared(g, Executable(modules))
      ensures Executable(modules) <= Executable(old(modules)) - {e}
      decreases Executable(modules), if modules[e].executable then 0 else 1
    {
      hide ClearedUpTo, OnlyBlockedCleared, Blocked, SameGraph, SearchLoaded, Executable;
      ghost var x0 := Executable(modules);
      Flagged(modules, e);
      ClearOne(g, x0, open, e);
      ClearFlag(g, modules, e);
      ChainIsLoaded(g, e);
      modules := modules[e := modules[e].(executable := false)];
      var chain := modules[e].refsBy;
      while chain != {}
        invariant chain <= g[e].refsBy && SameGraph(g, modules) && modules.Keys == g.Keys && OnlyBlockedCleared(g, Executable(modules))
        invariant ClearedUpTo(g, Executable(modules), open + {e})
        invariant g[e].refsBy - chain !! Executable(modules)
        invariant Executable(modules) <= x0 - {e}
        decreases chain
      {
        var r :| r in chain;
        Flagged(modules, r);
        if modules[r].executable {
          BlockedSpreads(g, e, r);
          WeakerUpTo(g, Executable(modules), open + {e}, r);
          Invalidate(r, g, open + {e});
          SameKeys(g, modules);
        }
        chain := chain - {r};
      }
      CallersDone(g, Executable(modules), open, e);
    }

    /** find_all_executable_modules */
    method FindAllExecutableModules()
      requires SearchLoaded(modules)
      modifies this
      ensures SameGraph(old(modules), modules)
      ensures forall m :: m in modules ==> (modules[m].executable <==> !Blocked(old(modules), m))
    {
      hide Blocked;
      ghost var g := modules;
      SetFlags();
      var todo := modules.Keys;
      ghost var open := modules.Keys - Executable(modules);
      forall m | m in g && m !in Executable(modules) ensures Blocked(g, m) { UnresolvedIsBlocked(g, m); }
      while todo != {}
        invariant todo <= g.Keys && SameGraph(g, modules) && open == set m | m in todo && !g[m].resolved
        invariant ClearedUpTo(g, Executable(modules), open) && OnlyBlockedCleared(g, Executable(modules))
        invariant forall m :: m in g && !g[m].resolved ==> m !in Executable(modules)
        decreases todo
      {
        var p :| p in todo;
        if !modules[p].resolved && modules[p].refsBy != {} {
          UnresolvedIsBlocked(g, p);
          assert open - {p} + {p} == open;
          Invalidate(p, g, open - {p});
        }
        todo := todo - {p};
        open := open - {p};
      }
      ClearedExactly(g, Executable(modules));
    }

    method SetFlags()
      modifies this
      ensures SameGraph(old(modules), modules)
      ensures forall m :: m in modules ==> modules[m].executable == modules[m].resolved
    {
      ghost var g := modules;
      var todo := modules.Keys;
      while todo != {}
        invariant todo <= g.Keys && SameGraph(g, modules)
        invariant forall m :: m in modules && m !in todo ==> modules[m].executable == modules[m].resolved
        decreases todo
      {
        var m :| m in todo;
        modules := modules[m := modules[m].(executable := modules[m].resolved)];
        todo := todo - {m};
      }
    }
  }
}
