/** What the `refs_by` chains of dld-3.2.3/dld.c say about the references between modules, over links and unlinks. */
module DldChains {
  import opened DldModel
  import opened DldLink
  import opened DldExec

  /** Every entry on a `refs_by` chain is loaded. */
  ghost predicate ChainsLoaded(ms: Modules) {
    forall m :: m in ms ==> ms[m].refsBy <= ms.Keys
  }

  /** The chains name exactly the modules that refer to a module. */
  ghost predicate InverseChains(ms: Modules) {
    forall d, m: nat :: d in ms ==> (m in ms[d].refsBy <==> m in ms && d in ms[m].refs)
  }

  // ---- what executable means ----

  ghost predicate CallPath(ms: Modules, p: seq<nat>) {
    && p != [] && (forall k :: 0 <= k < |p| ==> p[k] in ms)
    && (forall k :: 0 <= k < |p| - 1 ==> p[k + 1] in ms[p[k]].refs)
  }

  /** `m` is unresolved, or refers to an unresolved module, however indirectly. */
  ghost predicate NeedsUnresolved(ms: Modules, m: nat) {
    exists p :: CallPath(ms, p) && p[0] == m && !ms[p[|p| - 1]].resolved
  }

  function Reversed(p: seq<nat>): (r: seq<nat>)
    ensures |r| == |p|
  {
    seq(|p|, i requires 0 <= i < |p| => p[|p| - 1 - i])
  }

  lemma ReversedPath(ms: Modules, p: seq<nat>)
    requires InverseChains(ms)
    ensures Path(ms, p) ==> CallPath(ms, Reversed(p))
    ensures CallPath(ms, p) ==> Path(ms, Reversed(p))
  {
    var r, n := Reversed(p), |p|;
    if Path(ms, p) {
      forall k | 0 <= k < n - 1 ensures r[k + 1] in ms[r[k]].refs {
        assert p[(n - 2 - k) + 1] in ms[p[n - 2 - k]].refsBy;
      }
    }
    if CallPath(ms, p) {
      forall k | 0 <= k < n - 1 ensures r[k + 1] in ms[r[k]].refsBy {
        assert p[(n - 2 - k) + 1] in ms[p[n - 2 - k]].refs;
      }
    }
  }

  /** With inverse chains a module is flagged exactly if it needs no unresolved module. */
  lemma BlockedNeedsUnresolved(ms: Modules, m: nat)
    requires InverseChains(ms)
    ensures Blocked(ms, m) <==> NeedsUnresolved(ms, m)
  {
    if Blocked(ms, m) {
      var p :| Path(ms, p) && !ms[p[0]].resolved && p[|p| - 1] == m;
      ReversedPath(ms, p);
      var r := Reversed(p);
      assert CallPath(ms, r) && r[0] == m && !ms[r[|r| - 1]].resolved;
    }
    if NeedsUnresolved(ms, m) {
      var p :| CallPath(ms, p) && p[0] == m && !ms[p[|p| - 1]].resolved;
      ReversedPath(ms, p);
      var r := Reversed(p);
      assert Path(ms, r) && !ms[r[0]].resolved && r[|r| - 1] == m;
    }
  }

  lemma InverseIsLoaded(ms: Modules)
    requires InverseChains(ms)
    ensures ChainsLoaded(ms) && SearchLoaded(ms)
  {
  }

  /** The search on inverse chains. */
  method MarkExecutable(ms: Modules) returns (x: Modules)
    requires InverseChains(ms)
    ensures SameGraph(ms, x)
    ensures forall m :: m in ms ==> (x[m].executable <==> !NeedsUnresolved(ms, m))
  {
    InverseIsLoaded(ms);
    var marker := new Marker(ms);
    marker.FindAllExecutableModules();
    forall m | m in ms ensures Blocked(ms, m) <==> NeedsUnresolved(ms, m) { BlockedNeedsUnresolved(ms, m); }
    return marker.modules;
  }

  // ---- when a link keeps the chains inverse ----

  /** Who defines `n` once the symbols of `e` have been entered. */
  function DefinerAt(t: Table, syms: seq<NList>, e: nat, n: Name): Option<nat> {
    if DefinerOf(t, n).Some? then DefinerOf(t, n) else if DefinedIn(syms, n) then Some(e) else None
  }

  /** One of the symbols of `e` has been entered as a reference to `n`. */
  predicate ReferredAt(t: Table, syms: seq<NList>, e: nat, n: Name) {
    exists i :: 0 <= i < |syms| && EnteredAsReference(t, syms, e, i) && syms[i].name == n
  }

  predicate EnteredAsReference(t: Table, syms: seq<NList>, e: nat, i: nat)
    requires i < |syms|
  {
    syms[i].sort.Reference? || DefinerAt(t, syms[..i], e, syms[i].name).Some?
  }

  /** Symbol `k` of `e` is entered as a reference to a symbol that is defined by then, and that is the first that `e` refers
      to of its definer. */
  predicate LateReference(t: Table, syms: seq<NList>, e: nat, k: nat)
    requires k < |syms|
  {
    var d := DefinerAt(t, syms[..k], e, syms[k].name);
    d.Some? && !ReferredTo(t, syms[..k], e, d)
  }

  predicate ReferredTo(t: Table, syms: seq<NList>, e: nat, d: Option<nat>) {
    exists i :: 0 <= i < |syms| && ReferredAt(t, syms, e, syms[i].name) && DefinerAt(t, syms, e, syms[i].name) == d
  }

  /** The symbols up to `k` have been entered without a clash, and the next one is entered after them. */
  lemma {:induction false} EnterPrefix(st: State, syms: seq<NList>, e: nat, k: nat)
    requires e in st.modules && EnterAll(st, syms, e).1 && k < |syms|
    ensures EnterAll(st, syms[..k], e).1 && !Clashes(EnterAll(st, syms[..k], e).0.symtab, syms[k])
    ensures EnterAll(st, syms[..k + 1], e) == (Entered(EnterAll(st, syms[..k], e).0, syms[k], e), true)
    decreases k
  {
    hide Entered;
    EnteredKeepsFields(st, syms[0], e);
    if k == 0 {
      assert syms[..0] == [] && syms[..1] == [syms[0]];
      EnterOne(st, syms[0], e);
    } else {
      EnterPrefix(Entered(st, syms[0], e), syms[1..], e, k - 1);
      assert syms[..k][0] == syms[0] && syms[..k][1..] == syms[1..][..k - 1];
      assert syms[..k + 1][0] == syms[0] && syms[..k + 1][1..] == syms[1..][..k];
    }
  }

  lemma EnteredReferrers(st: State, p: NList, e: nat, n: Name)
    requires e in st.modules && !Clashes(st.symtab, p)
    ensures e in ReferrersOf(Entered(st, p, e).symtab, n) <==>
      e in ReferrersOf(st.symtab, n) || (n == p.name && (p.sort.Reference? || DefinerOf(st.symtab, n).Some?))
  {
  }

  lemma ReferredMore(t: Table, syms: seq<NList>, e: nat, k: nat, n: Name)
    requires k < |syms|
    ensures ReferredAt(t, syms[..k + 1], e, n) <==>
      ReferredAt(t, syms[..k], e, n) || (syms[k].name == n && EnteredAsReference(t, syms, e, k))
  {
    var a, b := syms[..k], syms[..k + 1];
    assert forall i :: 0 <= i < k ==> a[..i] == syms[..i] && b[..i] == syms[..i];
    assert b[..k] == a;
    if i :| 0 <= i < |a| && EnteredAsReference(t, a, e, i) && a[i].name == n {
      assert EnteredAsReference(t, b, e, i) && b[i].name == n;
    }
    if i :| 0 <= i < |b| && EnteredAsReference(t, b, e, i) && b[i].name == n {
      assert i < k ==> EnteredAsReference(t, a, e, i) && a[i].name == n;
    }
    if syms[k].name == n && EnteredAsReference(t, syms, e, k) {
      assert EnteredAsReference(t, b, e, k) && b[k].name == n;
    }
  }

  /** Who the symbols entered so far say that `e` refers to. */
  lemma {:induction false} EnterAllRefers(st: State, syms: seq<NList>, e: nat, k: nat, n: Name)
    requires e in st.modules && EnterAll(st, syms, e).1 && k <= |syms| && e !in ReferrersOf(st.symtab, n)
    ensures e in ReferrersOf(EnterAll(st, syms[..k], e).0.symtab, n) <==> ReferredAt(st.symtab, syms[..k], e, n)
    decreases k
  {
    hide EnterAll, Entered;
    if k == 0 {
      assert syms[..0] == [];
      EnterNone(st, e);
    } else {
      EnterAllRefers(st, syms, e, k - 1, n);
      EnterPrefix(st, syms, e, k - 1);
      EnteredReferrers(EnterAll(st, syms[..k - 1], e).0, syms[k - 1], e, n);
      EnterAllDefines(st, syms[..k - 1], e, n);
      ReferredMore(st.symtab, syms, e, k - 1, n);
    }
  }

  lemma EnterNone(st: State, e: nat)
    requires e in st.modules
    ensures EnterAll(st, [], e) == (st, true)
  {
  }

  /** Entering `p` adds a reference that the chains do not know of. */
  ghost predicate Unchained(st: State, p: NList, e: nat)
    requires e in st.modules
  {
    DefinerOf(st.symtab, p.name).Some? && DefinerOf(st.symtab, p.name).value !in st.modules[e].refs
  }

  lemma DefinitionChain(ms: Modules, rs: set<nat>, e: nat, d: nat, m: nat)
    requires e in ms && rs <= ms.Keys && CallersKnown(ms, e) && d in ms
    ensures var ms' := DefineIn(ms, rs, e);
      (m in ms'[d].refsBy <==> m in ms' && d in ms'[m].refs) <==> (m in ms[d].refsBy <==> m in ms && d in ms[m].refs)
  {
    var added := NewCallers(ms, rs, e);
    assert m in added <==> m in rs && m in ms && e !in ms[m].refs;
    hide NewCallers;
    var ms' := DefineIn(ms, rs, e);
    assert ms'[d].refsBy == if d == e then ms[d].refsBy + added else ms[d].refsBy;
    assert m in ms ==> ms'[m].refs == if m in rs then ms[m].refs + {e} else ms[m].refs;
    hide DefineIn;
  }

  lemma DefinitionAndChains(ms: Modules, rs: set<nat>, e: nat)
    requires e in ms && rs <= ms.Keys && CallersKnown(ms, e)
    ensures InverseChains(DefineIn(ms, rs, e)) <==> InverseChains(ms)
  {
    hide NewCallers, AfterDefinition, CallersKnown;
    var ms' := DefineIn(ms, rs, e);
    assert ms'.Keys == ms.Keys;
    hide DefineIn;
    forall d, m: nat | d in ms
      ensures (m in ms'[d].refsBy <==> m in ms' && d in ms'[m].refs) <==> (m in ms[d].refsBy <==> m in ms && d in ms[m].refs)
    {
      DefinitionChain(ms, rs, e, d, m);
    }
  }

  lemma ReferenceChain(ms: Modules, d: Option<nat>, first: bool, e: nat, m: nat)
    requires e in ms && m in ms
    ensures var x := ReferIn(ms, d, first, e)[m];
      x.refsBy == ms[m].refsBy && x.refs == if m == e && d.Some? then ms[m].refs + {d.value} else ms[m].refs
  {
  }

  lemma ReferenceAndChains(ms: Modules, d: Option<nat>, first: bool, e: nat)
    requires e in ms && (d.Some? ==> d.value in ms) && (d.Some? && d.value !in ms[e].refs ==> e !in ms[d.value].refsBy)
    ensures InverseChains(ReferIn(ms, d, first, e)) <==> InverseChains(ms) && !(d.Some? && d.value !in ms[e].refs)
  {
    var ms' := ReferIn(ms, d, first, e);
    assert ms'.Keys == ms.Keys;
    hide ReferIn;
    forall m | m in ms
      ensures ms'[m].refsBy == ms[m].refsBy && ms'[m].refs == if m == e && d.Some? then ms[m].refs + {d.value} else ms[m].refs
    {
      ReferenceChain(ms, d, first, e, m);
    }
    if d.Some? && d.value !in ms[e].refs {
      assert d.value in ms'[e].refs && e !in ms'[d.value].refsBy;
    } else {
      forall m | m in ms ensures ms'[m].refs == ms[m].refs {}
    }
  }

  /** While `e` is being linked, no chain but its own names it that it does not refer to. */
  lemma OwnChains(s0: State, st: State, e: nat, d: nat)
    requires Linking(s0, st, {e}) && ChainsLoaded(s0.modules) && d in st.modules && d !in st.modules[e].refs
    ensures e !in st.modules[d].refsBy
  {
    if d == e {
      assert CallersKnown(st.modules, e);
    } else {
      assert Bare(st.modules[d]).refsBy == Bare(s0.modules[d]).refsBy;
    }
  }

  lemma StepAndChains(s0: State, st: State, p: NList, e: nat)
    requires Linking(s0, st, {e}) && ChainsLoaded(s0.modules) && !Clashes(st.symtab, p)
    ensures e in st.modules && (InverseChains(Entered(st, p, e).modules) <==> InverseChains(st.modules) && !Unchained(st, p, e))
  {
    hide Consistent, InverseChains, DefineIn, ReferIn;
    LinkingKeys(s0, st, {e});
    ConsistentTable(st);
    if Defines(st.symtab, p) {
      DefinitionAndChains(st.modules, ReferrersOf(st.symtab, p.name), e);
    } else {
      var d := DefinerOf(st.symtab, p.name);
      if d.Some? && d.value !in st.modules[e].refs { OwnChains(s0, st, e, d.value); }
      ReferenceAndChains(st.modules, d, e !in ReferrersOf(st.symtab, p.name), e);
    }
  }

  /** Whether `e` refers to `d` already is told by the symbols entered so far. */
  lemma RefersAlready(s0: State, id: nat, syms: seq<NList>, k: nat, d: nat)
    requires Good(s0) && Addressed(s0.modules, id) && EnterAll(WithModule(s0, id, NewFile), syms, id).1 && k <= |syms|
    ensures id in EnterAll(WithModule(s0, id, NewFile), syms[..k], id).0.modules
    ensures d in EnterAll(WithModule(s0, id, NewFile), syms[..k], id).0.modules[id].refs
      <==> ReferredTo(s0.symtab, syms[..k], id, Some(d))
  {
    hide EnterAll, Good, Linking, Consistent, ReferredAt, DefinerAt, TableOk;
    var st0, pre := WithModule(s0, id, NewFile), syms[..k];
    PrefixLinks(s0, id, syms, k);
    var st := EnterAll(st0, pre, id).0;
    LinkingKeys(s0, st, {id});
    assert RefsAre(st.symtab, id, st.modules[id].refs) by { ConsistentCounts(st, id); }
    NotYetReferring(s0, id);
    forall n: Name
      ensures RefersTo(st.symtab, id, d, n) <==> ReferredAt(s0.symtab, pre, id, n) && DefinerAt(s0.symtab, pre, id, n) == Some(d)
    {
      EnterAllRefers(st0, syms, id, k, n);
      PrefixDefines(st0, syms, id, k, n);
      RefersToIs(st.symtab, id, d, n);
    }
    if Uses(st.symtab, id, d) {
      var n :| RefersTo(st.symtab, id, d, n);
      var i := WhereReferred(s0.symtab, pre, id, n);
      assert ReferredAt(s0.symtab, pre, id, pre[i].name);
    }
    if ReferredTo(s0.symtab, pre, id, Some(d)) {
      var i :| 0 <= i < |pre| && ReferredAt(s0.symtab, pre, id, pre[i].name) && DefinerAt(s0.symtab, pre, id, pre[i].name) == Some(d);
      assert RefersTo(st.symtab, id, d, pre[i].name);
    }
  }

  lemma RefersToIs(t: Table, m: nat, d: nat, n: Name)
    ensures RefersTo(t, m, d, n) <==> m in ReferrersOf(t, n) && DefinerOf(t, n) == Some(d)
  {
  }

  lemma WhereReferred(t: Table, syms: seq<NList>, e: nat, n: Name) returns (i: nat)
    requires ReferredAt(t, syms, e, n)
    ensures i < |syms| && syms[i].name == n
  {
    i :| 0 <= i < |syms| && EnteredAsReference(t, syms, e, i) && syms[i].name == n;
  }

  lemma NotYetReferring(s0: State, id: nat)
    requires Good(s0) && Addressed(s0.modules, id)
    ensures forall n: Name :: id !in ReferrersOf(s0.symtab, n)
  {
    ConsistentTable(s0);
    hide Consistent, Settled;
    assert id !in Files(s0.modules);
  }

  lemma PrefixDefines(st: State, syms: seq<NList>, e: nat, k: nat, n: Name)
    requires e in st.modules && EnterAll(st, syms, e).1 && k <= |syms|
    ensures DefinerOf(EnterAll(st, syms[..k], e).0.symtab, n) == DefinerAt(st.symtab, syms[..k], e, n)
  {
    hide EnterAll, DefinedIn;
    if k == |syms| { assert syms[..k] == syms; } else { EnterPrefix(st, syms, e, k); }
    EnterAllDefines(st, syms[..k], e, n);
  }

  lemma PrefixLinks(s0: State, id: nat, syms: seq<NList>, k: nat)
    requires Good(s0) && Addressed(s0.modules, id) && k <= |syms|
    ensures Linking(s0, EnterAll(WithModule(s0, id, NewFile), syms[..k], id).0, {id})
  {
    hide EnterAll, Good, Linking;
    ObjectStarts(s0, id);
    EnterAllKeepsLinking(s0, WithModule(s0, id, NewFile), {id}, syms[..k], id);
  }

  lemma NewFileKeepsChains(s0: State, id: nat)
    requires Good(s0) && Addressed(s0.modules, id) && InverseChains(s0.modules)
    ensures InverseChains(WithModule(s0, id, NewFile).modules)
  {
    hide Consistent, WellLinked;
    forall m | m in s0.modules ensures id !in s0.modules[m].refs { RefsAreFiles(s0, m); }
    hide Good;
    AloneKeepsChains(s0.modules, id, NewFile);
  }

  lemma AloneKeepsChains(ms: Modules, id: nat, x: Module)
    requires id !in ms && InverseChains(ms) && x.refs == {} && x.refsBy == {}
    requires forall m :: m in ms ==> id !in ms[m].refs
    ensures InverseChains(ms[id := x])
  {
    forall m | m in ms ensures id !in ms[m].refsBy {}
  }

  lemma {:induction false} PrefixAndChains(s0: State, id: nat, syms: seq<NList>, k: nat)
    requires Good(s0) && Addressed(s0.modules, id) && InverseChains(s0.modules) && k <= |syms|
    requires EnterAll(WithModule(s0, id, NewFile), syms, id).1
    ensures InverseChains(EnterAll(WithModule(s0, id, NewFile), syms[..k], id).0.modules)
      <==> forall j :: 0 <= j < k ==> !LateReference(s0.symtab, syms, id, j)
    decreases k
  {
    hide EnterAll, Entered, Good, Linking, InverseChains, LateReference;
    var st0 := WithModule(s0, id, NewFile);
    if k == 0 {
      assert syms[..0] == [];
      EnterNone(st0, id);
      NewFileKeepsChains(s0, id);
    } else {
      var st := EnterAll(st0, syms[..k - 1], id).0;
      PrefixAndChains(s0, id, syms, k - 1);
      EnterPrefix(st0, syms, id, k - 1);
      PrefixLinks(s0, id, syms, k - 1);
      InverseIsLoaded(s0.modules);
      StepAndChains(s0, st, syms[k - 1], id);
      LateIsUnchained(s0, id, syms, k - 1);
    }
  }

  lemma LateIsUnchained(s0: State, id: nat, syms: seq<NList>, k: nat)
    requires Good(s0) && Addressed(s0.modules, id) && k < |syms| && EnterAll(WithModule(s0, id, NewFile), syms, id).1
    ensures var st := EnterAll(WithModule(s0, id, NewFile), syms[..k], id).0;
      id in st.modules && (Unchained(st, syms[k], id) <==> LateReference(s0.symtab, syms, id, k))
  {
    hide EnterAll, Good, ReferredTo, DefinerAt;
    PrefixDefines(WithModule(s0, id, NewFile), syms, id, k, syms[k].name);
    var d := DefinerAt(s0.symtab, syms[..k], id, syms[k].name);
    RefersAlready(s0, id, syms, k, if d.Some? then d.value else 0);
  }

  /** Linking a file keeps the chains inverse exactly if none of its symbols is entered as a reference to a symbol that is
      defined already, as the first that the file refers to of its definer: the code then adds to `refs` and not to
      `refs_by`. */
  lemma LinkKeepsInverse(s0: State, id: nat, syms: seq<NList>)
    requires Good(s0) && Addressed(s0.modules, id) && InverseChains(s0.modules)
    requires EnterAll(WithModule(s0, id, NewFile), syms, id).1
    ensures InverseChains(Patched(EnterAll(WithModule(s0, id, NewFile), syms, id).0.modules))
      <==> forall k :: 0 <= k < |syms| ==> !LateReference(s0.symtab, syms, id, k)
  {
    hide EnterAll, Good, LateReference;
    PrefixAndChains(s0, id, syms, |syms|);
    assert syms[..|syms|] == syms;
    PatchedChains(EnterAll(WithModule(s0, id, NewFile), syms, id).0.modules);
  }

  lemma PatchedChains(ms: Modules)
    ensures InverseChains(Patched(ms)) <==> InverseChains(ms)
  {
    var ms' := Patched(ms);
    assert ms'.Keys == ms.Keys;
    forall m | m in ms ensures ms'[m].refs == ms[m].refs && ms'[m].refsBy == ms[m].refsBy {}
    hide Patched;
    forall d, m: nat | d in ms
      ensures (m in ms'[d].refsBy <==> m in ms' && d in ms'[m].refs) <==> (m in ms[d].refsBy <==> m in ms && d in ms[m].refs)
    {}
  }

  /** A file that defines `f` and refers to `g`, and after it one that refers to `f`. */
  function LateCaller(f: Name, g: Name): State {
    var st1 := EnterAll(WithModule(Nothing, 1, NewFile), [NList(f, Initialised), NList(g, Reference)], 1).0;
    var st2 := State(st1.symtab, Patched(st1.modules), st1.undefinedSyms);
    var st3 := EnterAll(WithModule(st2, 2, NewFile), [NList(f, Reference)], 2).0;
    State(st3.symtab, Patched(st3.modules), st3.undefinedSyms)
  }

  lemma EnterTwo(st: State, p: NList, q: NList, e: nat)
    requires e in st.modules && !Clashes(st.symtab, p)
    requires e in Entered(st, p, e).modules && !Clashes(Entered(st, p, e).symtab, q)
    ensures EnterAll(st, [p, q], e) == (Entered(Entered(st, p, e), q, e), true)
  {
    hide Entered;
    assert [p, q][1..] == [q];
    EnterOne(Entered(st, p, e), q, e);
  }

  lemma SupplierLinked(f: Name, g: Name)
    requires f != g
    ensures EnterAll(WithModule(Nothing, 1, NewFile), [NList(f, Initialised), NList(g, Reference)], 1).0
      == State(map[f := Symbol(Some(1), {}), g := Symbol(None, {1})], map[1 := NewFile.(undefinedCount := 1)], 1)
  {
    var st := WithModule(Nothing, 1, NewFile);
    var st1 := Entered(st, NList(f, Initialised), 1);
    assert NewCallers(st.modules, {}, 1) == {} && {} - {1} == {};
    assert DefineIn(st.modules, {}, 1) == map[1 := NewFile];
    assert st1 == State(map[f := Symbol(Some(1), {})], map[1 := NewFile], 0);
    var st2 := Entered(st1, NList(g, Reference), 1);
    assert st2.symtab == map[f := Symbol(Some(1), {}), g := Symbol(None, {1})];
    assert st2.modules == map[1 := NewFile.(undefinedCount := 1)];
    EnterTwo(st, NList(f, Initialised), NList(g, Reference), 1);
  }

  /** The later file refers to the unresolved one, and is flagged as executable all the same. */
  lemma LateCallerIsFlagged(f: Name, g: Name)
    requires f != g
    ensures var ms := LateCaller(f, g).modules;
      && ms.Keys == {1, 2} && 1 in ms[2].refs && ms[1].refsBy == {} && !ms[1].resolved && ms[2].resolved
      && !InverseChains(ms) && SearchLoaded(ms) && !Blocked(ms, 2) && NeedsUnresolved(ms, 2)
  {
    hide EnterAll;
    SupplierLinked(f, g);
    var x := NewFile.(undefinedCount := 1);
    var t := map[f := Symbol(Some(1), {}), g := Symbol(None, {1})];
    assert Patched(map[1 := x]) == map[1 := x];
    var st := WithModule(State(t, map[1 := x], 1), 2, NewFile);
    EnterOne(st, NList(f, Reference), 2);
    var ms := LateCaller(f, g).modules;
    assert ms == Patched(ReferIn(map[1 := x, 2 := NewFile], Some(1), true, 2));
    LateCallerModules(ms, x);
  }

  lemma PathStep(ms: Modules, p: seq<nat>, k: nat)
    requires Path(ms, p) && k + 1 < |p|
    ensures p[k] in ms && p[k + 1] in ms[p[k]].refsBy
  {
  }

  lemma NoChainNoPath(ms: Modules, p: seq<nat>)
    requires Path(ms, p) && forall m :: m in ms ==> ms[m].refsBy == {}
    ensures |p| <= 1
  {
    hide Path;
    if |p| > 1 { PathStep(ms, p, 0); }
  }

  lemma LateCallerModules(ms: Modules, x: Module)
    requires x == NewFile.(undefinedCount := 1) && ms == Patched(ReferIn(map[1 := x, 2 := NewFile], Some(1), true, 2))
    ensures ms.Keys == {1, 2} && 1 in ms[2].refs && ms[1].refsBy == {} && ms[2].refsBy == {} && !ms[1].resolved && ms[2].resolved
    ensures !InverseChains(ms) && SearchLoaded(ms) && !Blocked(ms, 2) && NeedsUnresolved(ms, 2)
  {
    forall p | Path(ms, p) ensures |p| <= 1 { NoChainNoPath(ms, p); }
    assert CallPath(ms, [2, 1]) && [2, 1][0] == 2;
  }

  // ---- the chains over a run ----

  /** A link keeps the chains inside the loaded modules. */
  lemma LinkKeepsChains(st: State, st': State, news: set<nat>)
    requires LinkedOnto(st, st', news) && ChainsLoaded(st.modules)
    ensures ChainsLoaded(st'.modules)
  {
    forall m | m in st'.modules ensures st'.modules[m].refsBy <= st'.modules.Keys {
      if m in st.modules {
        assert Bare(st'.modules[m]).refsBy == Bare(st.modules[m]).refsBy;
      } else {
        assert CallersKnown(st'.modules, m);
      }
    }
  }

  lemma ObjectKeepsChains(s0: State, id: nat, syms: seq<NList>)
    requires Good(s0) && Addressed(s0.modules, id) && ChainsLoaded(s0.modules)
    ensures ChainsLoaded(Patched(EnterAll(WithModule(s0, id, NewFile), syms, id).0.modules))
  {
    hide Good, Linking, LinkedOnto, Patched, EnterAll, ChainsLoaded;
    ObjectIsLinked(s0, id, syms);
    var st := EnterAll(WithModule(s0, id, NewFile), syms, id).0;
    PatchedLinksOnto(s0, st, {id});
    LinkKeepsChains(s0, st.(modules := Patched(st.modules)), {id});
  }

  /** No module that the unlink frees is on the chain of one that it leaves. */
  ghost predicate LeavesNoStale(st: State, e: nat, force: bool)
    requires e in st.modules
  {
    forall m :: m in st.modules && m !in Freed(st, e, force) ==> st.modules[m].refsBy !! Freed(st, e, force)
  }

  lemma KeptChain(st: State, st': State, e: nat, force: bool, m: nat)
    requires e in st.modules && Unlinked(st, st', e, force) && m in st'.modules
    ensures m in st.modules && m !in Freed(st, e, force) && st'.modules[m].refsBy == st.modules[m].refsBy
  {
    hide Freed, Purge;
    assert Bare(st'.modules[m]).refsBy == Bare(st.modules[m]).refsBy;
  }

  lemma UnlinkAndLoaded(st: State, st': State, e: nat, force: bool)
    requires e in st.modules && Unlinked(st, st', e, force) && ChainsLoaded(st.modules)
    ensures ChainsLoaded(st'.modules) <==> LeavesNoStale(st, e, force)
  {
    hide Purge, LeftBy;
    forall m | m in st'.modules
      ensures st'.modules[m].refsBy <= st'.modules.Keys <==> st.modules[m].refsBy !! Freed(st, e, force)
    {
      KeptChain(st, st', e, force, m);
      hide Freed;
      assert st.modules[m].refsBy <= st.modules.Keys;
      assert forall x :: x in st.modules[m].refsBy ==> (x in st'.modules.Keys <==> x !in Freed(st, e, force));
    }
  }

  /** A survivor refers to the survivors it referred to. */
  lemma KeptRefs(st: State, st': State, e: nat, force: bool, m: nat)
    requires Good(st) && Good(st') && e in st.modules && Unlinked(st, st', e, force) && m in st'.modules
    ensures st'.modules[m].refs == st.modules[m].refs - Freed(st, e, force)
  {
    hide Freed, Settled;
    KeptChain(st, st', e, force, m);
    ConsistentCounts(st, m);
    ConsistentCounts(st', m);
    hide Consistent, UndefinedIn, Callers, Purge, LeftBy;
    PurgeKeepsRefs(st.symtab, m, st.modules[m].refs, Freed(st, e, force));
    forall d: nat ensures d in st'.modules[m].refs <==> d in st.modules[m].refs - Freed(st, e, force) {}
  }

  /** Inverse chains stay inverse exactly if no module that is freed refers to one that stays. */
  lemma UnlinkKeepsInverse(st: State, st': State, e: nat, force: bool)
    requires Good(st) && Good(st') && e in st.modules && Unlinked(st, st', e, force) && InverseChains(st.modules)
    ensures InverseChains(st'.modules) <==> forall x :: x in Freed(st, e, force) ==> st.modules[x].refs !! st'.modules.Keys
    ensures InverseChains(st'.modules) <==> LeavesNoStale(st, e, force)
  {
    hide Good, Freed, Purge, LeftBy;
    InverseUnlinked(st, st', e, force);
    assert st'.modules.Keys == st.modules.Keys - Freed(st, e, force);
    if LeavesNoStale(st, e, force) {
      forall x | x in Freed(st, e, force) ensures st.modules[x].refs !! st'.modules.Keys {
        forall m: nat | m in st'.modules ensures m !in st.modules[x].refs { assert x !in st.modules[m].refsBy; }
      }
    } else {
      var m :| m in st.modules && m !in Freed(st, e, force) && !(st.modules[m].refsBy !! Freed(st, e, force));
      var x :| x in st.modules[m].refsBy && x in Freed(st, e, force);
      assert m in st.modules[x].refs && m in st'.modules.Keys;
    }
  }

  lemma InverseUnlinked(st: State, st': State, e: nat, force: bool)
    requires Good(st) && Good(st') && e in st.modules && Unlinked(st, st', e, force) && InverseChains(st.modules)
    ensures InverseChains(st'.modules) <==> LeavesNoStale(st, e, force)
  {
    hide Good, Freed, Purge, LeftBy;
    forall m | m in st'.modules
      ensures m in st.modules && st'.modules[m].refsBy == st.modules[m].refsBy
      ensures st'.modules[m].refs == st.modules[m].refs - Freed(st, e, force)
    {
      KeptChain(st, st', e, force, m);
      KeptRefs(st, st', e, force, m);
    }
    InverseIsLoaded(st.modules);
    UnlinkAndLoaded(st, st', e, force);
    if LeavesNoStale(st, e, force) {
      forall d, m: nat | d in st'.modules ensures m in st'.modules[d].refsBy <==> m in st'.modules && d in st'.modules[m].refs {}
    } else {
      if InverseChains(st'.modules) { InverseIsLoaded(st'.modules); }
    }
  }

  /** An unlink never takes a module off a `refs_by` chain, so the chains stay inside the loaded modules exactly if no module
      that it frees is on the chain of one that it leaves; and inverse exactly if no module that it frees refers to one
      that it leaves. */
  lemma UnlinkAndChains(st: State, st': State, e: nat, force: bool)
    requires Good(st) && Good(st') && e in st.modules && Unlinked(st, st', e, force)
    ensures ChainsLoaded(st.modules) ==> (ChainsLoaded(st'.modules) <==> LeavesNoStale(st, e, force))
    ensures InverseChains(st.modules) ==>
      (InverseChains(st'.modules) <==> forall x :: x in Freed(st, e, force) ==> st.modules[x].refs !! st'.modules.Keys)
  {
    hide Good, Unlinked, ChainsLoaded, InverseChains, LeavesNoStale, Freed;
    if ChainsLoaded(st.modules) { UnlinkAndLoaded(st, st', e, force); }
    if InverseChains(st.modules) { UnlinkKeepsInverse(st, st', e, force); }
  }

  /** A file has been linked that only refers to `s`, and after it one that defines `s`. */
  function CallerAndCallee(s: Name): State {
    var st1 := EnterAll(WithModule(Nothing, 1, NewFile), [NList(s, Reference)], 1).0;
    var st2 := State(st1.symtab, Patched(st1.modules), st1.undefinedSyms);
    var st3 := EnterAll(WithModule(st2, 2, NewFile), [NList(s, Initialised)], 2).0;
    State(st3.symtab, Patched(st3.modules), st3.undefinedSyms)
  }

  lemma CalleeKnowsCaller(s: Name)
    ensures var ms := CallerAndCallee(s).modules;
      && ms.Keys == {1, 2} && ms[2].refsBy == {1} && Share(ms[2]) == 1 && !ms[2].library && ms[2].superfile == None
      && ms[1].refCount == 1 && !ms[1].library && !ms[1].alreadyUnlink
  {
    hide EnterAll;
    CallerAlone(s, 1);
    var x := NewFile.(undefinedCount := 1);
    assert Patched(map[1 := x]) == map[1 := x];
    CalleeAdded(s, 1, x, 2);
  }

  /** What a user still holds is not freed, unless it is of the family that is taken down. */
  lemma HeldIsNotFreed(ms: Modules, z: set<nat>, m: nat)
    requires z <= ms.Keys && m in ms && m !in z && Share(ms[m]) != 0
    ensures m !in Doomed(ms, z)
  {
    DoomedIsLeast(ms, z, ms.Keys - {m});
  }

  /** Unlinking the caller leaves it on the chain of the callee. */
  lemma StaleChain(s: Name, st': State)
    ensures 1 in CallerAndCallee(s).modules
    ensures Freed(CallerAndCallee(s), 1, false) == {1}
    ensures Unlinked(CallerAndCallee(s), st', 1, false) ==> 2 in st'.modules && !ChainsLoaded(st'.modules)
  {
    var st := CallerAndCallee(s);
    CalleeKnowsCaller(s);
    hide CallerAndCallee;
    assert Family(st.modules, 1) <= {1, 2} && 1 in Family(st.modules, 1) && 2 !in Family(st.modules, 1);
    assert Family(st.modules, 1) == {1};
    HeldIsNotFreed(st.modules, {1}, 2);
    hide Doomed;
    assert Doomed(st.modules, {1}) == {1};
    assert EmptiedLibraries(st.modules, {1}) == {};
    if Unlinked(st, st', 1, false) {
      KeptChain(st, st', 1, false, 2);
    }
  }
}
