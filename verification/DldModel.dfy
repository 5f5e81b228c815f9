/** The tables of the dynamic link editor of dld-3.2.3/dld.c.

  The global symbol table says which module defines a symbol and which modules refer to it.
  Everything else the linker counts is derived from that table: how many symbols are
  undefined, how many of them a module needs, which modules it refers to, and how many modules
  refer to it.  This module states what the derived numbers must be, and how they follow the
  table when a symbol is entered and when modules disappear.
  */
module DldModel {

  /** A symbol name; names are only compared. */
  type Name(==,!new)

  datatype Option<+T> = None | Some(value: T)

  /** An entry of the global symbol table; `definedBy` is None while the symbol is undefined. */
  datatype Symbol = Symbol(definedBy: Option<nat>, referencedBy: set<nat>)

  type Table = map<Name, Symbol>

  /** A loaded module, or a library (`library`), which holds the modules whose `superfile` it is. */
  datatype Module = Module(
    refs: set<nat>,           // modules that define symbols this one refers to
    refsBy: set<nat>,         // modules that referred to its symbols when it defined them
    refCount: int,
    undefinedCount: int,
    alreadyUnlink: bool,
    library: bool,
    superfile: Option<nat>,
    resolved: bool,
    executable: bool,
    waived: int)              // not in the code: by how much dld_init has made undefinedCount too low

  type Modules = map<nat, Module>

  /** All global state of the linker. */
  datatype State = State(symtab: Table, modules: Modules, undefinedSyms: int)

  // ---- what is derived from the symbol table ----

  function UndefinedNames(t: Table): set<Name> {
    set s | s in t && t[s].definedBy.None?
  }

  function UndefinedIn(t: Table, m: nat): set<Name> {
    set s | s in t && t[s].definedBy.None? && m in t[s].referencedBy
  }

  predicate RefersTo(t: Table, m: nat, d: nat, s: Name) {
    s in t && m in t[s].referencedBy && t[s].definedBy == Some(d)
  }

  /** The modules whose symbols `m` refers to are exactly those in `refs`. */
  ghost predicate RefsAre(t: Table, m: nat, refs: set<nat>) {
    forall d: nat :: d in refs <==> Uses(t, m, d)
  }

  ghost predicate Uses(t: Table, m: nat, d: nat) {
    exists s :: RefersTo(t, m, d, s)
  }

  function Callers(ms: Modules, m: nat): set<nat> {
    set x | x in ms && x != m && m in ms[x].refs
  }

  /** The hold a user has on a module he linked himself, until he unlinks it. */
  function Share(m: Module): int {
    if m.alreadyUnlink then 0 else 1
  }

  ghost predicate TableOk(t: Table, known: set<nat>) {
    && (forall s :: s in t ==> t[s].referencedBy <= known)
    && (forall s :: s in t && t[s].definedBy.Some? ==> t[s].definedBy.value in known)
    && (forall s :: s in t && t[s].definedBy.None? ==> t[s].referencedBy != {})
  }

  ghost predicate CountsOk(t: Table, ms: Modules, m: nat)
    requires m in ms
  {
    && ms[m].undefinedCount == |UndefinedIn(t, m)| - ms[m].waived
    && RefsAre(t, m, ms[m].refs)
    && ms[m].refCount == Share(ms[m]) + |Callers(ms, m)|
  }

  /** The modules that can hold symbols. */
  function Files(ms: Modules): set<nat> {
    set m | m in ms && !ms[m].library
  }

  /** The counters agree with the symbol table. */
  ghost predicate Consistent(st: State) {
    && TableOk(st.symtab, Files(st.modules))
    && st.undefinedSyms == |UndefinedNames(st.symtab)|
    && (forall m :: m in st.modules ==> CountsOk(st.symtab, st.modules, m))
  }

  /** What holds between two calls of the library: no module is left that nobody needs, libraries
      have members, and a module counts as resolved when all its references are defined. */
  ghost predicate Settled(ms: Modules) {
    && (forall m :: m in ms ==> ms[m].refCount >= 1)
    && (forall m :: m in ms && ms[m].superfile.Some? ==>
          !ms[m].library && ms[m].superfile.value in ms && ms[ms[m].superfile.value].library)
    && (forall m :: m in ms && ms[m].library ==> !ms[m].alreadyUnlink)
    && (forall m :: m in ms && ms[m].library ==> exists k :: k in ms && ms[k].superfile == Some(m))
    && (forall m :: m in ms && !ms[m].library ==> (ms[m].resolved <==> ms[m].undefinedCount == 0))
  }

  ghost predicate Good(st: State) {
    Consistent(st) && Settled(st.modules)
  }

  // ---- the counters are determined by the table ----

  /** A module without its counters. */
  function Bare(m: Module): Module {
    m.(refs := {}, refCount := 0, undefinedCount := 0)
  }

  ghost predicate SameBare(ms: Modules, ms': Modules) {
    ms.Keys == ms'.Keys && forall m :: m in ms ==> Bare(ms[m]) == Bare(ms'[m])
  }

  lemma CountersAreDerived(st: State, st': State)
    requires Consistent(st) && Consistent(st') && st.symtab == st'.symtab && SameBare(st.modules, st'.modules)
    ensures st == st'
  {
    hide CountsOk, Bare, TableOk, UndefinedNames;
    var ms, ms' := st.modules, st'.modules;
    forall m | m in ms ensures ms[m].refs == ms'[m].refs { RefsAreDerived(st.symtab, ms, ms', m); }
    forall m | m in ms ensures ms[m] == ms'[m] { ModuleIsDerived(st.symtab, ms, ms', m); }
    assert ms == ms';
  }

  lemma RefsAreDerived(t: Table, ms: Modules, ms': Modules, m: nat)
    requires m in ms && m in ms' && CountsOk(t, ms, m) && CountsOk(t, ms', m)
    ensures ms[m].refs == ms'[m].refs
  {
    assert forall d :: d in ms[m].refs <==> d in ms'[m].refs;
  }

  lemma ModuleIsDerived(t: Table, ms: Modules, ms': Modules, m: nat)
    requires m in ms && ms.Keys == ms'.Keys && CountsOk(t, ms, m) && CountsOk(t, ms', m)
    requires Bare(ms[m]) == Bare(ms'[m]) && forall x :: x in ms ==> ms[x].refs == ms'[x].refs
    ensures ms[m] == ms'[m]
  {
    hide RefsAre, UndefinedIn;
    assert Callers(ms, m) == Callers(ms', m);
    assert Bare(ms[m]).alreadyUnlink == ms[m].alreadyUnlink && Bare(ms[m]).waived == ms[m].waived;
  }

  lemma OneMore<T>(a: set<T>, b: set<T>, z: T, more: bool)
    requires forall x :: x in b <==> x in a || (more && x == z)
    ensures |b| == |a| + if more && z !in a then 1 else 0
  {
    if more && z !in a {
      assert b == a + {z};
    } else {
      assert b == a;
    }
  }

  lemma OneLess<T>(a: set<T>, b: set<T>, z: T)
    requires forall x :: x in b <==> x in a && x != z
    ensures |b| == |a| - if z in a then 1 else 0
  {
    assert b == a - {z};
  }

  // ---- entering a symbol ----

  /** The table once module `e` defines `s`, which is undefined or new. */
  function WithDefinition(t: Table, s: Name, e: nat): Table {
    t[s := Symbol(Some(e), if s in t then t[s].referencedBy else {})]
  }

  function WithReference(t: Table, s: Name, e: nat): Table {
    if s in t then t[s := t[s].(referencedBy := t[s].referencedBy + {e})] else t[s := Symbol(None, {e})]
  }

  function ReferrersOf(t: Table, s: Name): set<nat> {
    if s in t then t[s].referencedBy else {}
  }

  function DefinerOf(t: Table, s: Name): Option<nat> {
    if s in t then t[s].definedBy else None
  }

  /** The modules among `rs` that did not refer to `e` before. */
  function NewCallers(ms: Modules, rs: set<nat>, e: nat): set<nat> {
    set p | p in rs && p in ms && e !in ms[p].refs
  }

  /** A module that referred to a symbol `e` now defines refers to `e` and needs one symbol less;
      `e` itself learns of its `callers`, of which `count` are other modules. */
  function Gains(x: Module, referred: bool, self: bool, e: nat, callers: set<nat>, count: int): Module {
    var y := if referred then x.(refs := x.refs + {e}, undefinedCount := x.undefinedCount - 1) else x;
    if self then y.(refsBy := y.refsBy + callers, refCount := y.refCount + count) else y
  }

  /** What happens to module `m` when `e` defines a symbol that the modules `rs` refer to. */
  function AfterDefinition(ms: Modules, rs: set<nat>, e: nat, m: nat): Module
    requires m in ms
  {
    Gains(ms[m], m in rs, m == e, e, NewCallers(ms, rs, e), |NewCallers(ms, rs, e) - {e}|)
  }

  function DefineIn(ms: Modules, rs: set<nat>, e: nat): Modules {
    map m | m in ms :: AfterDefinition(ms, rs, e, m)
  }

  lemma DefinitionRefs(t: Table, s: Name, e: nat, m: nat, d: nat)
    requires s in t ==> t[s].definedBy.None?
    ensures Uses(WithDefinition(t, s, e), m, d) <==> Uses(t, m, d) || (d == e && s in t && m in t[s].referencedBy)
  {
    var t' := WithDefinition(t, s, e);
    assert forall z :: z != s ==> (RefersTo(t', m, d, z) <==> RefersTo(t, m, d, z));
    assert !RefersTo(t, m, d, s);
    assert RefersTo(t', m, d, s) <==> d == e && s in t && m in t[s].referencedBy;
  }

  lemma DefinitionKeepsRefs(t: Table, refs: set<nat>, s: Name, e: nat, m: nat)
    requires RefsAre(t, m, refs) && (s in t ==> t[s].definedBy.None?)
    ensures RefsAre(WithDefinition(t, s, e), m, if s in t && m in t[s].referencedBy then refs + {e} else refs)
  {
    forall d: nat { DefinitionRefs(t, s, e, m, d); }
  }

  lemma DefinitionUndefines(t: Table, s: Name, e: nat, m: nat)
    requires s in t ==> t[s].definedBy.None?
    ensures |UndefinedIn(WithDefinition(t, s, e), m)| == |UndefinedIn(t, m)| - if s in t && m in t[s].referencedBy then 1 else 0
    ensures |UndefinedNames(WithDefinition(t, s, e))| == |UndefinedNames(t)| - if s in t then 1 else 0
  {
    var t' := WithDefinition(t, s, e);
    OneLess(UndefinedIn(t, m), UndefinedIn(t', m), s);
    OneLess(UndefinedNames(t), UndefinedNames(t'), s);
  }

  lemma DefinitionCallers(ms: Modules, rs: set<nat>, e: nat, m: nat)
    requires rs <= ms.Keys
    ensures |Callers(DefineIn(ms, rs, e), m)| == |Callers(ms, m)| + if m == e then |NewCallers(ms, rs, e) - {e}| else 0
  {
    var more := if m == e then NewCallers(ms, rs, e) - {e} else {};
    forall x ensures x in Callers(DefineIn(ms, rs, e), m) <==> x in Callers(ms, m) + more {}
    assert Callers(DefineIn(ms, rs, e), m) == Callers(ms, m) + more;
    assert Callers(ms, m) !! more;
  }

  lemma DefinitionKeepsCounts(t: Table, ms: Modules, s: Name, e: nat, m: nat)
    requires m in ms && CountsOk(t, ms, m) && TableOk(t, Files(ms)) && (s in t ==> t[s].definedBy.None?)
    ensures CountsOk(WithDefinition(t, s, e), DefineIn(ms, ReferrersOf(t, s), e), m)
  {
    hide UndefinedIn, RefsAre, Callers, NewCallers;
    DefinitionKeepsRefs(t, ms[m].refs, s, e, m);
    DefinitionUndefines(t, s, e, m);
    DefinitionCallers(ms, ReferrersOf(t, s), e, m);
  }

  /** The state once `e` has defined `s`. */
  function Defined(st: State, s: Name, e: nat): State {
    State(WithDefinition(st.symtab, s, e), DefineIn(st.modules, ReferrersOf(st.symtab, s), e),
          st.undefinedSyms - if s in st.symtab then 1 else 0)
  }

  /** The state once `e` has referred to `s`. */
  function Referred(st: State, s: Name, e: nat): State
    requires e in st.modules
  {
    State(WithReference(st.symtab, s, e),
          ReferIn(st.modules, DefinerOf(st.symtab, s), e !in ReferrersOf(st.symtab, s), e),
          st.undefinedSyms + if s in st.symtab then 0 else 1)
  }

  lemma DefinitionKeepsTable(t: Table, known: set<nat>, s: Name, e: nat)
    requires TableOk(t, known) && e in known
    ensures TableOk(WithDefinition(t, s, e), known)
  {
  }

  lemma DefineInKeepsFiles(ms: Modules, rs: set<nat>, e: nat)
    ensures DefineIn(ms, rs, e).Keys == ms.Keys && Files(DefineIn(ms, rs, e)) == Files(ms)
  {
  }

  /** Defining a symbol keeps the counters in step with the table. */
  lemma DefinitionKeepsConsistent(st: State, s: Name, e: nat)
    requires Consistent(st) && e in Files(st.modules) && (s in st.symtab ==> st.symtab[s].definedBy.None?)
    ensures Consistent(Defined(st, s, e))
  {
    hide CountsOk, UndefinedIn, TableOk, WithDefinition, DefineIn, UndefinedNames;
    var t, ms := st.symtab, st.modules;
    assert e in ms;
    DefinitionUndefines(t, s, e, e);
    DefinitionKeepsTable(t, Files(ms), s, e);
    DefineInKeepsFiles(ms, ReferrersOf(t, s), e);
    var ms' := DefineIn(ms, ReferrersOf(t, s), e);
    forall m | m in ms' ensures CountsOk(WithDefinition(t, s, e), ms', m) {
      DefinitionKeepsCounts(t, ms, s, e, m);
    }
  }

  /** What happens to module `m` when `e` refers to a symbol defined by `d` or by nobody;
      `first` says whether `e` had not referred to the symbol before. */
  function AfterReference(ms: Modules, d: Option<nat>, first: bool, e: nat, m: nat): Module
    requires m in ms && e in ms
  {
    var x := if d == Some(m) && m != e && m !in ms[e].refs then ms[m].(refCount := ms[m].refCount + 1) else ms[m];
    if m != e then x
    else if d.Some? then x.(refs := x.refs + {d.value})
    else if first then x.(undefinedCount := x.undefinedCount + 1)
    else x
  }

  function ReferIn(ms: Modules, d: Option<nat>, first: bool, e: nat): Modules
    requires e in ms
  {
    map m | m in ms :: AfterReference(ms, d, first, e, m)
  }

  lemma ReferenceKeepsRefs(t: Table, refs: set<nat>, s: Name, e: nat, m: nat)
    requires RefsAre(t, m, refs)
    ensures RefsAre(WithReference(t, s, e), m, if m == e && DefinerOf(t, s).Some? then refs + {DefinerOf(t, s).value} else refs)
  {
    var t' := WithReference(t, s, e);
    forall d: nat ensures Uses(t', m, d) <==> Uses(t, m, d) || (m == e && DefinerOf(t, s) == Some(d)) {
      assert forall z :: z != s ==> (RefersTo(t', m, d, z) <==> RefersTo(t, m, d, z));
      assert RefersTo(t', m, d, s) <==> RefersTo(t, m, d, s) || (m == e && DefinerOf(t, s) == Some(d));
    }
  }

  lemma ReferenceAt(t: Table, s: Name, e: nat, z: Name)
    ensures var t' := WithReference(t, s, e);
      && (z in t' <==> z in t || z == s)
      && (z in t' ==> t'[z] == if z == s then Symbol(DefinerOf(t, s), ReferrersOf(t, s) + {e}) else t[z])
  {
  }

  lemma ReferenceUndefines(t: Table, s: Name, e: nat, m: nat)
    ensures |UndefinedIn(WithReference(t, s, e), m)| ==
      |UndefinedIn(t, m)| + if m == e && DefinerOf(t, s).None? && e !in ReferrersOf(t, s) then 1 else 0
    ensures |UndefinedNames(WithReference(t, s, e))| == |UndefinedNames(t)| + if s in t then 0 else 1
  {
    hide WithReference;
    var t' := WithReference(t, s, e);
    var more := m == e && DefinerOf(t, s).None?;
    forall z ensures z in UndefinedIn(t', m) <==> z in UndefinedIn(t, m) || (more && z == s) {
      ReferenceAt(t, s, e, z);
    }
    OneMore(UndefinedIn(t, m), UndefinedIn(t', m), s, more);
    forall z ensures z in UndefinedNames(t') <==> z in UndefinedNames(t) || (s !in t && z == s) {
      ReferenceAt(t, s, e, z);
    }
    OneMore(UndefinedNames(t), UndefinedNames(t'), s, s !in t);
  }

  lemma ReferenceCallers(ms: Modules, d: Option<nat>, first: bool, e: nat, m: nat)
    requires e in ms
    ensures |Callers(ReferIn(ms, d, first, e), m)| == |Callers(ms, m)| + if d == Some(m) && m != e && m !in ms[e].refs then 1 else 0
  {
    var ms' := ReferIn(ms, d, first, e);
    forall x ensures x in Callers(ms', m) <==> x in Callers(ms, m) || (d == Some(m) && m != e && x == e) {}
    OneMore(Callers(ms, m), Callers(ms', m), e, d == Some(m) && m != e);
  }

  lemma ReferenceKeepsCounts(t: Table, ms: Modules, s: Name, e: nat, d: Option<nat>, first: bool, m: nat)
    requires m in ms && e in ms && CountsOk(t, ms, m)
    requires d == DefinerOf(t, s) && first == (e !in ReferrersOf(t, s))
    ensures CountsOk(WithReference(t, s, e), ReferIn(ms, d, first, e), m)
  {
    hide UndefinedIn, RefsAre, Callers;
    ReferenceKeepsRefs(t, ms[m].refs, s, e, m);
    ReferenceUndefines(t, s, e, m);
    ReferenceCallers(ms, d, first, e, m);
  }

  lemma ReferenceKeepsTable(t: Table, known: set<nat>, s: Name, e: nat)
    requires TableOk(t, known) && e in known
    ensures TableOk(WithReference(t, s, e), known)
  {
  }

  lemma ReferInKeepsFiles(ms: Modules, d: Option<nat>, first: bool, e: nat)
    requires e in ms
    ensures ReferIn(ms, d, first, e).Keys == ms.Keys && Files(ReferIn(ms, d, first, e)) == Files(ms)
  {
  }

  /** Entering a reference keeps the counters in step with the table. */
  lemma ReferenceKeepsConsistent(st: State, s: Name, e: nat)
    requires Consistent(st) && e in Files(st.modules)
    ensures Consistent(Referred(st, s, e))
  {
    hide CountsOk, UndefinedIn, TableOk, WithReference, ReferIn, UndefinedNames;
    var t, ms := st.symtab, st.modules;
    assert e in ms;
    ReferenceUndefines(t, s, e, e);
    ReferenceKeepsTable(t, Files(ms), s, e);
    ReferInKeepsFiles(ms, DefinerOf(t, s), e !in ReferrersOf(t, s), e);
    var ms' := ReferIn(ms, DefinerOf(t, s), e !in ReferrersOf(t, s), e);
    forall m | m in ms' ensures CountsOk(WithReference(t, s, e), ms', m) {
      ReferenceKeepsCounts(t, ms, s, e, DefinerOf(t, s), e !in ReferrersOf(t, s), m);
    }
  }

  // ---- modules disappear ----

  /** A symbol once the modules in `dead` are gone. */
  function Cleaned(y: Symbol, dead: set<nat>): Symbol {
    Symbol(if y.definedBy.Some? && y.definedBy.value in dead then None else y.definedBy, y.referencedBy - dead)
  }

  /** Somebody still defines the symbol or refers to it. */
  predicate Needed(y: Symbol) { y.definedBy.Some? || y.referencedBy != {} }

  function Purge(t: Table, dead: set<nat>): Table {
    map s | s in t && Needed(Cleaned(t[s], dead)) :: Cleaned(t[s], dead)
  }

  lemma PurgeNothing(t: Table, known: set<nat>, dead: set<nat>)
    requires TableOk(t, known) && known !! dead
    ensures Purge(t, dead) == t
  {
    forall s | s in t ensures Cleaned(t[s], dead) == t[s] && Needed(t[s]) {}
  }

  /** Whatever a module enters is undone when the module is purged: definitions ... */
  lemma PurgeUndoesDefinition(t: Table, s: Name, e: nat, dead: set<nat>)
    requires e in dead && (s in t ==> t[s].definedBy.None?)
    ensures Purge(WithDefinition(t, s, e), dead) == Purge(t, dead)
  {
    var t' := WithDefinition(t, s, e);
    forall z ensures z in Purge(t', dead) <==> z in Purge(t, dead) {}
    forall z | z in Purge(t, dead) ensures Purge(t', dead)[z] == Purge(t, dead)[z] {}
  }

  /** ... and references. */
  lemma PurgeUndoesReference(t: Table, s: Name, e: nat, dead: set<nat>)
    requires e in dead
    ensures Purge(WithReference(t, s, e), dead) == Purge(t, dead)
  {
    var t' := WithReference(t, s, e);
    assert s in t ==> t[s].referencedBy + {e} - dead == t[s].referencedBy - dead;
    forall z ensures z in Purge(t', dead) <==> z in Purge(t, dead) { ReferenceAt(t, s, e, z); }
    forall z | z in Purge(t, dead) ensures Purge(t', dead)[z] == Purge(t, dead)[z] { ReferenceAt(t, s, e, z); }
  }

  lemma PurgeKeepsTable(t: Table, known: set<nat>, dead: set<nat>)
    requires TableOk(t, known)
    ensures TableOk(Purge(t, dead), known - dead)
  {
  }

  lemma PurgeKeepsRefs(t: Table, m: nat, refs: set<nat>, dead: set<nat>)
    requires RefsAre(t, m, refs) && m !in dead
    ensures RefsAre(Purge(t, dead), m, refs - dead)
  {
    var t' := Purge(t, dead);
    forall d: nat ensures Uses(t', m, d) <==> Uses(t, m, d) && d !in dead {
      forall s ensures RefersTo(t', m, d, s) <==> RefersTo(t, m, d, s) && d !in dead {}
    }
  }

  /** The modules that are left when those in `gone` are dropped. */
  function Without(ms: Modules, gone: set<nat>): Modules {
    map m | m in ms && m !in gone :: ms[m]
  }

  /** Modules that refer to nothing can be dropped without anybody's counters changing. */
  lemma DroppingIdle(ms: Modules, gone: set<nat>, m: nat)
    requires forall x :: x in gone && x in ms ==> ms[x].refs == {}
    ensures Callers(Without(ms, gone), m) == Callers(ms, m)
  {
  }

  // ---- the cascade of an unlink ----

  /** `v` gives each module's references that are still counted; a module that is being taken
      down has given up its list of references, but gives them back one at a time. */
  type Pending = map<nat, set<nat>>

  function Waiters(v: Pending, m: nat): set<nat> {
    set x | x in v && x != m && m in v[x]
  }

  ghost predicate Balanced(ms: Modules, v: Pending, share: map<nat, int>) {
    && v.Keys == ms.Keys && share.Keys == ms.Keys
    && forall m :: m in ms ==>
        && share[m] >= 0 && v[m] <= ms.Keys && (ms[m].refs == v[m] || ms[m].refs == {})
        && ms[m].refCount == share[m] + |Waiters(v, m)|
  }

  /** Modules that the cascade cannot reach: each is held by its share or by another of them. */
  ghost predicate Held(v: Pending, share: map<nat, int>, keep: set<nat>) {
    forall m :: m in keep ==> m in v && m in share && (share[m] >= 1 || exists x :: x in Waiters(v, m) && x in keep)
  }

  lemma HeldAreAlive(ms: Modules, v: Pending, share: map<nat, int>, keep: set<nat>)
    requires Balanced(ms, v, share) && Held(v, share, keep)
    ensures forall m :: m in keep ==> m in ms && ms[m].refCount >= 1
  {
    forall m | m in keep ensures m in ms && ms[m].refCount >= 1 {
      if share[m] < 1 {
        var x :| x in Waiters(v, m) && x in keep;
        assert Waiters(v, m) != {};
      }
    }
  }

  /** The count of `t` after `x` has given back its reference to it. */
  function Released(ms: Modules, t: nat): Modules
    requires t in ms
  {
    ms[t := ms[t].(refCount := ms[t].refCount - 1)]
  }

  lemma ReleaseWaiters(v: Pending, x: nat, t: nat, m: nat)
    requires x in v && t in v[x]
    ensures |Waiters(v[x := v[x] - {t}], m)| == |Waiters(v, m)| - if m == t && x != t then 1 else 0
  {
    if m == t {
      OneLess(Waiters(v, t), Waiters(v[x := v[x] - {t}], t), x);
    } else {
      assert Waiters(v[x := v[x] - {t}], m) == Waiters(v, m);
    }
  }

  /** Giving back one reference: the count of its target is decremented, unless `x` refers to itself. */
  lemma ReleaseKeepsBalance(ms: Modules, v: Pending, share: map<nat, int>, x: nat, t: nat)
    requires Balanced(ms, v, share) && x in ms && t in v[x] && ms[x].refs == {}
    ensures x != t ==> ms[t].refCount >= 1
    ensures t in ms && Balanced(if x != t then Released(ms, t) else ms, v[x := v[x] - {t}], share)
  {
    hide Waiters;
    var v' := v[x := v[x] - {t}];
    forall m | m in ms ensures |Waiters(v', m)| == |Waiters(v, m)| - if m == t && x != t then 1 else 0 {
      ReleaseWaiters(v, x, t, m);
    }
  }

  lemma ReleaseKeepsHeld(v: Pending, share: map<nat, int>, keep: set<nat>, x: nat, t: nat)
    requires Held(v, share, keep) && x in v && x !in keep
    ensures Held(v[x := v[x] - {t}], share, keep)
  {
    var v' := v[x := v[x] - {t}];
    forall m | m in keep && share[m] < 1 ensures exists y :: y in Waiters(v', m) && y in keep {
      var y :| y in Waiters(v, m) && y in keep;
      assert y in Waiters(v', m);
    }
  }

  /** What a cascade may change in module `m`: its count falls, and when it gives up its references
      it is dead and has given all of them back. */
  ghost predicate Fell(m: Module, p: set<nat>, m': Module, p': set<nat>) {
    && m' == m.(refs := m'.refs, refCount := m'.refCount)
    && (m.refCount == 0 ==> m'.refCount == 0)
    && ((m'.refs == m.refs && p' == p) || (m.refs != {} && m'.refs == {} && p' == {} && m'.refCount == 0))
    && (m.refCount != 0 && m'.refCount == 0 ==> m'.refs == {})
  }

  ghost predicate Cascaded(ms: Modules, v: Pending, ms': Modules, v': Pending) {
    && ms'.Keys == ms.Keys == v.Keys == v'.Keys
    && forall m :: m in ms ==> Fell(ms[m], v[m], ms'[m], v'[m])
  }

  /** The same while the references of `e` are being given back; `p` are those left. */
  ghost predicate CascadedBut(ms: Modules, v: Pending, ms': Modules, v': Pending, e: nat, p: set<nat>) {
    && ms'.Keys == ms.Keys == v.Keys == v'.Keys && e in ms
    && (forall m :: m in ms && m != e ==> Fell(ms[m], v[m], ms'[m], v'[m]))
    && ms'[e] == ms[e].(refs := {}) && v'[e] == p
  }

  lemma CascadedTwice(ms: Modules, v: Pending, ms1: Modules, v1: Pending, ms2: Modules, v2: Pending)
    requires Cascaded(ms, v, ms1, v1) && Cascaded(ms1, v1, ms2, v2)
    ensures Cascaded(ms, v, ms2, v2)
  {
  }

  lemma CascadedNothing(ms: Modules, v: Pending)
    requires v.Keys == ms.Keys
    ensures Cascaded(ms, v, ms, v)
  {
  }

  lemma FellTwice(a: Module, pa: set<nat>, b: Module, pb: set<nat>, c: Module, pc: set<nat>)
    requires Fell(a, pa, b, pb) && Fell(b, pb, c, pc)
    ensures Fell(a, pa, c, pc)
  {
  }

  lemma FellSpent(a: Module, pa: set<nat>, b: Module, pb: set<nat>)
    requires Fell(a, pa, b, pb) && a.refs == {} && a.refCount == 0
    ensures b == a && pb == pa
  {
  }

  lemma FellAfterRelease(a: Module, pa: set<nat>, b: Module, pb: set<nat>, c: Module, pc: set<nat>)
    requires Fell(a, pa, b, pb) && b.refCount >= 1
    requires var b' := b.(refCount := b.refCount - 1); Fell(b', pb, c, pc) && (b'.refCount == 0 ==> c.refs == {})
    ensures Fell(a, pa, c, pc)
  {
  }

  lemma CascadedReleased(ms: Modules, v: Pending, ms1: Modules, v1: Pending, e: nat, p: set<nat>, t: nat, ms': Modules, ms2: Modules, v2: Pending)
    requires CascadedBut(ms, v, ms1, v1, e, p) && t in ms1 && ms[e].refCount == 0 && (t != e ==> ms1[t].refCount >= 1)
    requires ms' == if t != e then Released(ms1, t) else ms1
    requires Cascaded(ms', v1[e := p - {t}], ms2, v2) && (ms'[t].refCount == 0 ==> ms2[t].refs == {})
    ensures CascadedBut(ms, v, ms2, v2, e, p - {t})
  {
    if t == e {
      CascadedReleaseSelf(ms, v, ms1, v1, e, p, ms2, v2);
    } else {
      CascadedRelease(ms, v, ms1, v1, e, p, t, ms', ms2, v2);
    }
  }

  /** `e` gives back a reference to itself. */
  lemma CascadedReleaseSelf(ms: Modules, v: Pending, ms1: Modules, v1: Pending, e: nat, p: set<nat>, ms2: Modules, v2: Pending)
    requires CascadedBut(ms, v, ms1, v1, e, p) && ms[e].refCount == 0
    requires Cascaded(ms1, v1[e := p - {e}], ms2, v2)
    ensures CascadedBut(ms, v, ms2, v2, e, p - {e})
  {
    hide Fell;
    forall m | m in ms && m != e ensures Fell(ms[m], v[m], ms2[m], v2[m]) {
      FellTwice(ms[m], v[m], ms1[m], v1[m], ms2[m], v2[m]);
    }
    FellSpent(ms1[e], p - {e}, ms2[e], v2[e]);
  }

  /** `e` gives back its reference to `t`; if that was the last one, `t` is taken down in turn. */
  lemma CascadedRelease(ms: Modules, v: Pending, ms1: Modules, v1: Pending, e: nat, p: set<nat>, t: nat, ms': Modules, ms2: Modules, v2: Pending)
    requires CascadedBut(ms, v, ms1, v1, e, p) && t in ms1 && t != e && ms[e].refCount == 0 && ms1[t].refCount >= 1
    requires ms'.Keys == ms1.Keys && ms'[t] == ms1[t].(refCount := ms1[t].refCount - 1)
    requires forall m :: m in ms1 && m != t ==> ms'[m] == ms1[m]
    requires Cascaded(ms', v1[e := p - {t}], ms2, v2) && (ms'[t].refCount == 0 ==> ms2[t].refs == {})
    ensures CascadedBut(ms, v, ms2, v2, e, p - {t})
  {
    hide Fell;
    forall m | m in ms && m != e ensures Fell(ms[m], v[m], ms2[m], v2[m]) {
      if m == t {
        FellAfterRelease(ms[m], v[m], ms1[m], v1[m], ms2[m], v2[m]);
      } else {
        FellTwice(ms[m], v[m], ms1[m], v1[m], ms2[m], v2[m]);
      }
    }
    FellSpent(ms'[e], p - {t}, ms2[e], v2[e]);
  }

  /** Modules that have not given up their references. */
  function Unspent(ms: Modules): set<nat> {
    set m | m in ms && ms[m].refs != {}
  }

  lemma UnspentShrinks(ms: Modules, v: Pending, ms': Modules, v': Pending)
    requires Cascaded(ms, v, ms', v')
    ensures Unspent(ms') <= Unspent(ms)
  {
  }

  lemma UnspentShrinksBut(ms: Modules, v: Pending, ms': Modules, v': Pending, e: nat, p: set<nat>)
    requires CascadedBut(ms, v, ms', v', e, p) && ms[e].refs != {}
    ensures Unspent(ms') < Unspent(ms)
  {
    forall m | m in Unspent(ms') ensures m in Unspent(ms) {
      assert m != e && Fell(ms[m], v[m], ms'[m], v'[m]);
    }
    assert e in Unspent(ms) && e !in Unspent(ms');
  }

  /** `refs_by` of a module that is being linked names only modules that refer to it. */
  predicate CallersKnown(ms: Modules, e: nat)
    requires e in ms
  {
    forall p :: p in ms[e].refsBy ==> p in ms && e in ms[p].refs
  }

  // ---- linking: new modules enter their symbols ----

  /** While the modules `news` are being linked, on top of the state `s0`: the counters are right, the
      older modules are as they were apart from their counters, and purging the new modules from
      the table would give the old table back. */
  ghost predicate Linking(s0: State, st: State, news: set<nat>) {
    && Consistent(st)
    && news !! s0.modules.Keys && st.modules.Keys == s0.modules.Keys + news
    && (forall m :: m in s0.modules ==> Bare(st.modules[m]) == Bare(s0.modules[m]))
    && Purge(st.symtab, news) == s0.symtab
    && (forall e :: e in news ==> CallersKnown(st.modules, e) && st.modules[e].waived == 0)
  }

  lemma LinkingStarts(s0: State)
    requires Consistent(s0)
    ensures Linking(s0, s0, {})
  {
    PurgeNothing(s0.symtab, Files(s0.modules), {});
  }

  /** A module that has not entered any symbols yet. */
  predicate Blank(x: Module) {
    x.refs == {} && x.refsBy == {} && x.undefinedCount == 0 && x.refCount == Share(x) && x.waived == 0
  }

  lemma RefsAreFiles(st: State, m: nat)
    requires Consistent(st) && m in st.modules
    ensures st.modules[m].refs <= Files(st.modules)
  {
    forall d | d in st.modules[m].refs ensures d in Files(st.modules) {
      assert CountsOk(st.symtab, st.modules, m);
      assert Uses(st.symtab, m, d);
    }
  }

  lemma AddKeepsCounts(st: State, id: nat, x: Module, m: nat)
    requires Consistent(st) && id !in st.modules && Blank(x) && m in st.modules
    ensures CountsOk(st.symtab, st.modules[id := x], m)
  {
    assert CountsOk(st.symtab, st.modules, m);
    assert Callers(st.modules[id := x], m) == Callers(st.modules, m);
  }

  lemma AddedCounts(st: State, id: nat, x: Module)
    requires Consistent(st) && id !in st.modules && Blank(x)
    ensures CountsOk(st.symtab, st.modules[id := x], id)
  {
    assert UndefinedIn(st.symtab, id) == {};
    forall c | c in st.modules ensures id !in st.modules[c].refs { RefsAreFiles(st, c); }
    assert Callers(st.modules[id := x], id) == {};
    assert forall d: nat :: !Uses(st.symtab, id, d);
  }

  lemma AddKeepsConsistent(st: State, id: nat, x: Module)
    requires Consistent(st) && id !in st.modules && Blank(x)
    ensures Consistent(st.(modules := st.modules[id := x]))
  {
    hide CountsOk;
    var ms' := st.modules[id := x];
    assert Files(st.modules) <= Files(ms');
    AddedCounts(st, id, x);
    forall m | m in ms' ensures CountsOk(st.symtab, ms', m) {
      if m != id { AddKeepsCounts(st, id, x, m); }
    }
  }

  lemma PurgeStranger(t: Table, known: set<nat>, dead: set<nat>, id: nat)
    requires TableOk(t, known) && id !in known
    ensures Purge(t, dead + {id}) == Purge(t, dead)
  {
    forall s | s in t ensures Cleaned(t[s], dead + {id}) == Cleaned(t[s], dead) {
      assert t[s].referencedBy - (dead + {id}) == t[s].referencedBy - dead;
    }
  }

  lemma AddKeepsLinking(s0: State, st: State, news: set<nat>, id: nat, x: Module)
    requires Linking(s0, st, news) && id !in st.modules && Blank(x)
    ensures Linking(s0, st.(modules := st.modules[id := x]), news + {id})
  {
    hide Consistent, Purge;
    AddKeepsConsistent(st, id, x);
    assert TableOk(st.symtab, Files(st.modules)) by { ConsistentTable(st); }
    PurgeStranger(st.symtab, Files(st.modules), news, id);
  }

  lemma ConsistentTable(st: State)
    requires Consistent(st)
    ensures TableOk(st.symtab, Files(st.modules))
  {
  }

  lemma DefinitionKeepsNews(ms: Modules, rs: set<nat>, e: nat, m: nat)
    requires m in ms && e in ms
    ensures m != e ==> Bare(DefineIn(ms, rs, e)[m]) == Bare(ms[m])
    ensures DefineIn(ms, rs, e)[m].waived == ms[m].waived
    ensures CallersKnown(ms, m) && rs <= ms.Keys ==> CallersKnown(DefineIn(ms, rs, e), m)
  {
    hide CallersKnown;
    if CallersKnown(ms, m) && rs <= ms.Keys { DefinitionKeepsCallers(ms, rs, e, m); }
  }

  lemma DefinitionKeepsCallers(ms: Modules, rs: set<nat>, e: nat, m: nat)
    requires m in ms && e in ms && CallersKnown(ms, m) && rs <= ms.Keys
    ensures m in DefineIn(ms, rs, e) && CallersKnown(DefineIn(ms, rs, e), m)
  {
  }

  lemma ReferenceKeepsNews(ms: Modules, d: Option<nat>, first: bool, e: nat, m: nat)
    requires m in ms && e in ms
    ensures Bare(ReferIn(ms, d, first, e)[m]) == Bare(ms[m]) && ReferIn(ms, d, first, e)[m].waived == ms[m].waived
    ensures CallersKnown(ms, m) ==> CallersKnown(ReferIn(ms, d, first, e), m)
  {
  }

  lemma DefinitionKeepsLinking(s0: State, st: State, news: set<nat>, s: Name, e: nat)
    requires Linking(s0, st, news) && e in news && e in Files(st.modules) && DefinerOf(st.symtab, s).None?
    ensures Linking(s0, Defined(st, s, e), news)
  {
    hide Consistent, Purge, WithDefinition, DefineIn, CallersKnown, Bare;
    DefinitionKeepsConsistent(st, s, e);
    PurgeUndoesDefinition(st.symtab, s, e, news);
    DefineInKeepsFiles(st.modules, ReferrersOf(st.symtab, s), e);
    ConsistentTable(st);
    forall m | m in st.modules
      ensures m != e ==> Bare(Defined(st, s, e).modules[m]) == Bare(st.modules[m])
      ensures Defined(st, s, e).modules[m].waived == st.modules[m].waived
      ensures m in news ==> CallersKnown(Defined(st, s, e).modules, m)
    {
      DefinitionKeepsNews(st.modules, ReferrersOf(st.symtab, s), e, m);
    }
  }

  lemma ReferenceKeepsLinking(s0: State, st: State, news: set<nat>, s: Name, e: nat)
    requires Linking(s0, st, news) && e in news && e in Files(st.modules)
    ensures Linking(s0, Referred(st, s, e), news)
  {
    hide Consistent, Purge, WithReference, ReferIn, CallersKnown, Bare;
    ReferenceKeepsConsistent(st, s, e);
    PurgeUndoesReference(st.symtab, s, e, news);
    ReferInKeepsFiles(st.modules, DefinerOf(st.symtab, s), e !in ReferrersOf(st.symtab, s), e);
    forall m | m in st.modules
      ensures Bare(Referred(st, s, e).modules[m]) == Bare(st.modules[m])
      ensures Referred(st, s, e).modules[m].waived == st.modules[m].waived
      ensures m in news ==> CallersKnown(Referred(st, s, e).modules, m)
    {
      ReferenceKeepsNews(st.modules, DefinerOf(st.symtab, s), e !in ReferrersOf(st.symtab, s), e, m);
    }
  }

  // ---- taking modules down ----

  lemma UnspentReleased(ms: Modules, t: nat)
    requires t in ms
    ensures Unspent(Released(ms, t)) == Unspent(ms)
    ensures FlatLibraries(ms) ==> FlatLibraries(Released(ms, t))
  {
  }

  lemma BalancedKeys(ms: Modules, v: Pending, share: map<nat, int>)
    requires Balanced(ms, v, share)
    ensures v.Keys == ms.Keys
  {
  }

  lemma SpendingKeepsBalance(ms: Modules, v: Pending, share: map<nat, int>, e: nat)
    requires Balanced(ms, v, share) && e in ms && ms[e].refs != {}
    ensures v[e] == ms[e].refs && Balanced(ms[e := ms[e].(refs := {})], v, share)
    ensures CascadedBut(ms, v, ms[e := ms[e].(refs := {})], v, e, ms[e].refs)
  {
  }

  /** Members are not libraries themselves, and belong to libraries. */
  ghost predicate FlatLibraries(ms: Modules) {
    forall m :: m in ms && ms[m].superfile.Some? ==>
      !ms[m].library && (ms[m].superfile.value in ms ==> ms[ms[m].superfile.value].library)
  }

  lemma FlatStays(ms: Modules, v: Pending, ms': Modules, v': Pending)
    requires Cascaded(ms, v, ms', v')
    ensures FlatLibraries(ms) ==> FlatLibraries(ms')
    ensures forall e :: Family(ms', e) == Family(ms, e)
  {
    assert forall m :: m in ms ==> Fell(ms[m], v[m], ms'[m], v'[m]);
    forall e ensures Family(ms', e) == Family(ms, e) {
      assert forall m :: m in ms ==> ms'[m].superfile == ms[m].superfile;
    }
  }

  lemma FlatStaysBut(ms: Modules, v: Pending, ms': Modules, v': Pending, e: nat, p: set<nat>)
    requires CascadedBut(ms, v, ms', v', e, p)
    ensures FlatLibraries(ms) ==> FlatLibraries(ms')
  {
    assert forall m :: m in ms && m != e ==> Fell(ms[m], v[m], ms'[m], v'[m]);
  }

  /** When `e` has given back everything, the cascade from it is complete. */
  lemma CascadedAll(ms: Modules, v: Pending, ms': Modules, v': Pending, e: nat)
    requires CascadedBut(ms, v, ms', v', e, {}) && ms[e].refCount == 0 && ms[e].refs != {}
    ensures Cascaded(ms, v, ms', v')
  {
  }

  /** A module, or a library with its members. */
  function Family(ms: Modules, e: nat): set<nat> {
    set m | m in ms && (m == e || ms[m].superfile == Some(e))
  }

  function Zeroed(ms: Modules, z: set<nat>): Modules {
    map m | m in ms :: if m in z then ms[m].(refCount := 0) else ms[m]
  }

  /** No module refers to those in `z` any more. */
  function Uncrossed(ms: Modules, z: set<nat>): Modules {
    map m | m in ms :: ms[m].(refs := ms[m].refs - z)
  }

  function RefsMap(ms: Modules): Pending {
    map m | m in ms :: ms[m].refs
  }

  /** The shares of the modules, those in `z` having lost theirs. */
  function Shares(ms: Modules, z: set<nat>): map<nat, int> {
    map m | m in ms :: if m in z then 0 else Share(ms[m])
  }

  function DeadIn(ms: Modules): set<nat> {
    set m | m in ms && ms[m].refCount == 0
  }

  lemma WaitersAreCallers(ms: Modules, m: nat)
    ensures Waiters(RefsMap(ms), m) == Callers(ms, m)
  {
    assert forall x :: x in ms ==> RefsMap(ms)[x] == ms[x].refs;
  }

  lemma UncrossedCallers(ms: Modules, z: set<nat>, m: nat)
    ensures Callers(Uncrossed(Zeroed(ms, z), z), m) == if m in z then {} else Callers(ms, m)
  {
  }

  lemma UncrossedBalanced(st: State, z: set<nat>)
    requires Consistent(st)
    ensures var ms1 := Uncrossed(Zeroed(st.modules, z), z); Balanced(ms1, RefsMap(ms1), Shares(st.modules, z))
  {
    hide Callers, Waiters, Consistent;
    var ms, ms1 := st.modules, Uncrossed(Zeroed(st.modules, z), z);
    forall m | m in ms1
      ensures ms1[m].refs <= ms1.Keys && ms1[m].refCount == Shares(ms, z)[m] + |Waiters(RefsMap(ms1), m)|
    {
      RefsAreFiles(st, m);
      ConsistentCounts(st, m);
      WaitersAreCallers(ms1, m);
      UncrossedCallers(ms, z, m);
    }
  }

  lemma ConsistentCounts(st: State, m: nat)
    requires Consistent(st) && m in st.modules
    ensures CountsOk(st.symtab, st.modules, m)
  {
  }

  /** The state once the family `z` has been taken down, together with the modules nobody needs
      any longer: before the dead modules are freed. */
  ghost predicate Swept(st0: State, st: State, z: set<nat>, dead: set<nat>) {
    && st.modules.Keys == st0.modules.Keys && z <= dead && dead == DeadIn(st.modules)
    && (forall m :: m in st.modules ==> Bare(st.modules[m]) == Bare(st0.modules[m]))
    && st.symtab == Purge(st0.symtab, dead)
    && st.undefinedSyms == |UndefinedNames(st.symtab)|
    && (forall m :: m in st.modules && m !in dead ==> CountsOk(st.symtab, st.modules, m))
    && (forall m :: m in dead ==> st.modules[m].refs == {})
    && (forall m :: m in dead && m !in z ==> Share(st0.modules[m]) == 0 && Callers(st0.modules, m) <= dead)
  }

  /** After a cascade from the family `z`. */
  ghost predicate CascadeDone(st0: State, ms: Modules, z: set<nat>) {
    && ms.Keys == st0.modules.Keys && z <= DeadIn(ms)
    && Balanced(ms, RefsMap(ms), Shares(st0.modules, z))
    && forall m :: m in ms ==>
        && Bare(ms[m]) == Bare(st0.modules[m]) && ms[m].undefinedCount == st0.modules[m].undefinedCount
        && ms[m].refs == if ms[m].refCount == 0 then {} else st0.modules[m].refs - z
  }

  lemma AliveRefsAreAlive(st0: State, ms: Modules, z: set<nat>, m: nat, d: nat)
    requires CascadeDone(st0, ms, z) && m in ms && d in ms[m].refs
    ensures d in ms && d !in DeadIn(ms)
  {
    assert RefsMap(ms)[m] == ms[m].refs;
    if d != m {
      assert m in Waiters(RefsMap(ms), d);
      assert d in ms[m].refs ==> ms[d].refCount >= 1;
    }
  }

  lemma AliveRefs(st0: State, ms: Modules, z: set<nat>, m: nat)
    requires CascadeDone(st0, ms, z) && m in ms && ms[m].refCount != 0
    ensures ms[m].refs == st0.modules[m].refs - DeadIn(ms)
  {
    forall d | d in ms[m].refs ensures d !in DeadIn(ms) { AliveRefsAreAlive(st0, ms, z, m, d); }
  }

  lemma AliveCounts(st0: State, ms: Modules, z: set<nat>, m: nat)
    requires Consistent(st0) && CascadeDone(st0, ms, z) && m in ms && ms[m].refCount != 0
    ensures RefsAre(Purge(st0.symtab, DeadIn(ms)), m, ms[m].refs)
    ensures ms[m].refCount == Share(ms[m]) + |Callers(ms, m)|
  {
    hide Purge, Callers, Waiters;
    AliveRefs(st0, ms, z, m);
    ConsistentCounts(st0, m);
    PurgeKeepsRefs(st0.symtab, m, st0.modules[m].refs, DeadIn(ms));
    WaitersAreCallers(ms, m);
  }

  lemma DeadForCause(st0: State, ms: Modules, z: set<nat>, m: nat)
    requires CascadeDone(st0, ms, z) && m in ms && ms[m].refCount == 0 && m !in z
    ensures Share(st0.modules[m]) == 0 && Callers(st0.modules, m) <= DeadIn(ms)
  {
    assert Waiters(RefsMap(ms), m) == {};
    forall x | x in Callers(st0.modules, m) ensures x in DeadIn(ms) {
      assert x !in Waiters(RefsMap(ms), m);
      assert m !in RefsMap(ms)[x];
    }
  }

  /** Dropping the dead, and libraries that have lost all their members, leaves a consistent state. */
  lemma SweptIsConsistent(st0: State, st: State, z: set<nat>, dead: set<nat>, gone: set<nat>)
    requires Consistent(st0) && Swept(st0, st, z, dead)
    requires dead <= gone <= st.modules.Keys && forall m :: m in gone && m !in dead ==> st.modules[m].library
    ensures Consistent(State(st.symtab, Without(st.modules, gone), st.undefinedSyms))
  {
    hide Callers, UndefinedIn, UndefinedNames, Purge;
    var ms, ms' := st.modules, Without(st.modules, gone);
    PurgeKeepsTable(st0.symtab, Files(st0.modules), dead);
    assert Files(ms') == Files(st0.modules) - dead by {
      assert forall m :: m in ms ==> Bare(ms[m]).library == Bare(st0.modules[m]).library;
    }
    forall m | m in gone ensures ms[m].refs == {} {
      if m !in dead { IdleLibrary(st0, st, z, dead, m); }
    }
    forall m | m in ms' ensures CountsOk(st.symtab, ms', m) {
      DroppingIdle(ms, gone, m);
    }
  }

  lemma IdleLibrary(st0: State, st: State, z: set<nat>, dead: set<nat>, m: nat)
    requires Consistent(st0) && Swept(st0, st, z, dead) && m in st.modules && m !in dead && st.modules[m].library
    ensures st.modules[m].refs == {}
  {
    PurgeKeepsTable(st0.symtab, Files(st0.modules), dead);
    assert Bare(st.modules[m]).library == Bare(st0.modules[m]).library;
    assert m !in Files(st0.modules);
    assert forall d: nat, s :: !RefersTo(st.symtab, m, d, s);
    assert forall d: nat :: !Uses(st.symtab, m, d);
  }

  // ---- sweeping the symbol table ----

  /** One symbol has been swept. */
  function Clean(t: Table, s: Name, dead: set<nat>): Table
    requires s in t
  {
    if Needed(Cleaned(t[s], dead)) then t[s := Cleaned(t[s], dead)] else t - {s}
  }

  /** The definer of the symbol is dead. */
  predicate Obsolete(y: Symbol, dead: set<nat>) { y.definedBy.Some? && y.definedBy.value in dead }

  function Bumped(ms: Modules, rs: set<nat>): Modules {
    map m | m in ms :: if m in rs then ms[m].(undefinedCount := ms[m].undefinedCount + 1) else ms[m]
  }

  function BumpedBy(y: Symbol, dead: set<nat>): set<nat> {
    if Obsolete(y, dead) then y.referencedBy - dead else {}
  }

  function Step(b: bool): int { if b then 1 else 0 }

  lemma CleanCounts(t: Table, s: Name, dead: set<nat>, m: nat)
    requires s in t && m !in dead
    ensures |UndefinedIn(Clean(t, s, dead), m)| == |UndefinedIn(t, m)| + Step(m in BumpedBy(t[s], dead))
  {
    var t', y := Clean(t, s, dead), t[s];
    forall z ensures z in UndefinedIn(t', m) <==> z in UndefinedIn(t, m) || (m in BumpedBy(y, dead) && z == s) {
      assert m in y.referencedBy <==> m in y.referencedBy - dead;
    }
    OneMore(UndefinedIn(t, m), UndefinedIn(t', m), s, m in BumpedBy(y, dead));
  }

  lemma CleanNames(t: Table, s: Name, dead: set<nat>)
    requires s in t
    ensures |UndefinedNames(Clean(t, s, dead))| == |UndefinedNames(t)|
      + Step(Obsolete(t[s], dead) && t[s].referencedBy - dead != {})
      - Step(t[s].definedBy.None? && t[s].referencedBy - dead == {})
  {
    var t', y := Clean(t, s, dead), t[s];
    if y.definedBy.None? && y.referencedBy - dead == {} {
      OneLess(UndefinedNames(t), UndefinedNames(t'), s);
    } else {
      OneMore(UndefinedNames(t), UndefinedNames(t'), s, Obsolete(y, dead) && y.referencedBy - dead != {});
    }
  }

  /** The table while the symbols in `todo` have not been swept yet. */
  function PartlyPurged(t: Table, dead: set<nat>, todo: set<Name>): Table {
    map s | s in t && (s in todo || Needed(Cleaned(t[s], dead))) :: if s in todo then t[s] else Cleaned(t[s], dead)
  }

  lemma PurgeOneMore(t: Table, dead: set<nat>, todo: set<Name>, s: Name)
    requires s in todo && s in t
    ensures Clean(PartlyPurged(t, dead, todo), s, dead) == PartlyPurged(t, dead, todo - {s})
  {
    var a, b := Clean(PartlyPurged(t, dead, todo), s, dead), PartlyPurged(t, dead, todo - {s});
    forall z ensures z in a <==> z in b {}
    forall z | z in a ensures a[z] == b[z] {}
  }

  lemma PurgeAll(t: Table, dead: set<nat>)
    ensures PartlyPurged(t, dead, t.Keys) == t && PartlyPurged(t, dead, {}) == Purge(t, dead)
  {
  }

  /** The counters of the living modules are right. */
  ghost predicate NeedsCounted(t: Table, ms: Modules) {
    forall m :: m in ms && ms[m].refCount != 0 ==> ms[m].undefinedCount == |UndefinedIn(t, m)| - ms[m].waived
  }

  ghost predicate OnlyNeedsDiffer(ms: Modules, ms': Modules) {
    ms'.Keys == ms.Keys && forall m :: m in ms ==> ms'[m] == ms[m].(undefinedCount := ms'[m].undefinedCount)
  }

  lemma BumpedKeepsCounts(t: Table, s: Name, ms: Modules)
    requires s in t && NeedsCounted(t, ms)
    ensures var ms' := Bumped(ms, BumpedBy(t[s], DeadIn(ms)));
      NeedsCounted(Clean(t, s, DeadIn(ms)), ms') && OnlyNeedsDiffer(ms, ms') && DeadIn(ms') == DeadIn(ms)
  {
    hide Clean, UndefinedIn;
    var ms' := Bumped(ms, BumpedBy(t[s], DeadIn(ms)));
    forall m | m in ms' && ms'[m].refCount != 0 ensures ms'[m].undefinedCount == |UndefinedIn(Clean(t, s, DeadIn(ms)), m)| - ms'[m].waived {
      CleanCounts(t, s, DeadIn(ms), m);
    }
  }

  lemma NothingDiffers(ms: Modules)
    ensures OnlyNeedsDiffer(ms, ms)
  {
  }

  lemma OnlyNeedsDifferKeys(ms: Modules, ms': Modules)
    requires OnlyNeedsDiffer(ms, ms')
    ensures ms'.Keys == ms.Keys && DeadIn(ms') == DeadIn(ms)
  {
  }

  lemma OnlyNeedsDifferTwice(ms: Modules, ms1: Modules, ms2: Modules)
    requires OnlyNeedsDiffer(ms, ms1) && OnlyNeedsDiffer(ms1, ms2)
    ensures OnlyNeedsDiffer(ms, ms2)
  {
  }

  /** While a symbol has not been swept, it is as it was. */
  lemma UnsweptSymbol(t: Table, dead: set<nat>, todo: set<Name>, s: Name)
    requires s in todo && s in t
    ensures s in PartlyPurged(t, dead, todo) && PartlyPurged(t, dead, todo)[s] == t[s]
  {
  }

  // ---- putting the phases together ----

  lemma FellFrom(x: Module, z: set<nat>, p: set<nat>, y: Module, q: set<nat>, inZ: bool)
    requires p == x.refs - z
    requires Fell(if inZ then x.(refs := x.refs - z, refCount := 0) else x.(refs := x.refs - z), p, y, q)
    requires inZ ==> y.refs == {}
    requires !inZ ==> x.refCount != 0
    ensures q == y.refs && Bare(y) == Bare(x) && y.undefinedCount == x.undefinedCount
    ensures y.refs == if y.refCount == 0 then {} else x.refs - z
    ensures inZ ==> y.refCount == 0
  {
  }

  lemma CascadeIsDone(st0: State, z: set<nat>, ms: Modules, v: Pending)
    requires var ms1 := Uncrossed(Zeroed(st0.modules, z), z);
      && Cascaded(ms1, RefsMap(ms1), ms, v)
      && (forall m :: m in ms1 && m !in z ==> ms1[m].refCount != 0)
    requires z <= st0.modules.Keys && Balanced(ms, v, Shares(st0.modules, z))
    requires forall m :: m in z ==> ms[m].refs == {}
    ensures CascadeDone(st0, ms, z)
  {
    hide *;
    forall m | m in ms ensures CascadeDoneAt(st0, ms, v, z, m) { CascadeOf(st0, z, ms, v, m); }
    CascadedKeys(Uncrossed(Zeroed(st0.modules, z), z), RefsMap(Uncrossed(Zeroed(st0.modules, z), z)), ms, v);
    KeysStay(st0.modules, z);
    CascadeDoneForAll(st0, ms, v, z);
  }

  ghost predicate CascadeDoneAt(st0: State, ms: Modules, v: Pending, z: set<nat>, m: nat) {
    && m in ms && m in st0.modules && m in v && v[m] == ms[m].refs
    && Bare(ms[m]) == Bare(st0.modules[m]) && ms[m].undefinedCount == st0.modules[m].undefinedCount
    && ms[m].refs == (if ms[m].refCount == 0 then {} else st0.modules[m].refs - z)
    && (m in z ==> ms[m].refCount == 0)
  }

  lemma KeysStay(ms: Modules, z: set<nat>)
    ensures Uncrossed(Zeroed(ms, z), z).Keys == ms.Keys
  {
  }

  lemma CascadeDoneForAll(st0: State, ms: Modules, v: Pending, z: set<nat>)
    requires ms.Keys == st0.modules.Keys == v.Keys && z <= st0.modules.Keys && Balanced(ms, v, Shares(st0.modules, z))
    requires forall m :: m in ms ==> CascadeDoneAt(st0, ms, v, z, m)
    ensures CascadeDone(st0, ms, z)
  {
    hide Balanced, Bare, Shares;
    forall m | m in ms ensures v[m] == RefsMap(ms)[m] { assert CascadeDoneAt(st0, ms, v, z, m); }
    assert v == RefsMap(ms);
    forall m | m in z ensures m in DeadIn(ms) { assert CascadeDoneAt(st0, ms, v, z, m); }
  }

  lemma CascadedKeys(ms1: Modules, v1: Pending, ms: Modules, v: Pending)
    requires Cascaded(ms1, v1, ms, v)
    ensures ms.Keys == ms1.Keys == v.Keys == v1.Keys
  {
  }

  /** What the cascade has done to one module. */
  lemma CascadeOf(st0: State, z: set<nat>, ms: Modules, v: Pending, m: nat)
    requires var ms1 := Uncrossed(Zeroed(st0.modules, z), z);
      && Cascaded(ms1, RefsMap(ms1), ms, v)
      && (forall m :: m in ms1 && m !in z ==> ms1[m].refCount != 0)
    requires z <= st0.modules.Keys && m in ms && (m in z ==> ms[m].refs == {})
    ensures CascadeDoneAt(st0, ms, v, z, m)
  {
    var ms1 := Uncrossed(Zeroed(st0.modules, z), z);
    assert Fell(ms1[m], RefsMap(ms1)[m], ms[m], v[m]);
    hide Fell, Cascaded, Bare;
    FellFrom(st0.modules[m], z, RefsMap(ms1)[m], ms[m], v[m], m in z);
  }

  lemma NeedsAreCounted(st0: State, z: set<nat>, ms: Modules)
    requires Consistent(st0) && CascadeDone(st0, ms, z)
    ensures TableOk(st0.symtab, ms.Keys) && NeedsCounted(st0.symtab, ms)
  {
    forall m | m in ms ensures ms[m].undefinedCount == |UndefinedIn(st0.symtab, m)| - ms[m].waived {
      ConsistentCounts(st0, m);
    }
  }

  lemma SweptAfterCascade(st0: State, z: set<nat>, ms: Modules, st: State)
    requires Consistent(st0) && CascadeDone(st0, ms, z)
    requires st.symtab == Purge(st0.symtab, DeadIn(ms)) && st.undefinedSyms == |UndefinedNames(st.symtab)|
    requires OnlyNeedsDiffer(ms, st.modules) && NeedsCounted(st.symtab, st.modules)
    ensures Swept(st0, st, z, DeadIn(ms)) && DeadIn(st.modules) == DeadIn(ms)
  {
    hide Purge, UndefinedIn, UndefinedNames, Consistent, Waiters, Balanced;
    OnlyNeedsDifferKeys(ms, st.modules);
    forall m | m in ms && m !in DeadIn(ms) ensures CountsOk(st.symtab, st.modules, m) {
      AliveCounts(st0, ms, z, m);
      assert Callers(st.modules, m) == Callers(ms, m);
    }
    forall m | m in DeadIn(ms) && m !in z ensures Share(st0.modules[m]) == 0 && Callers(st0.modules, m) <= DeadIn(ms) {
      DeadForCause(st0, ms, z, m);
    }
  }

  /** Seen from the state before the link, an old module still refers to all it referred to. */
  lemma OldRefsStay(s0: State, st: State, news: set<nat>, x: nat)
    requires Consistent(s0) && Linking(s0, st, news) && x in s0.modules
    ensures s0.modules[x].refs == st.modules[x].refs - news
  {
    ConsistentCounts(s0, x);
    ConsistentCounts(st, x);
    PurgeKeepsRefs(st.symtab, x, st.modules[x].refs, news);
    assert forall d: nat :: d in s0.modules[x].refs <==> d in st.modules[x].refs - news;
  }

  /** An old module is held by its share or by another old module. */
  lemma OldModulesHold(s0: State, st: State, news: set<nat>, m: nat)
    requires Consistent(s0) && Linking(s0, st, news) && m in s0.modules && s0.modules[m].refCount >= 1
    ensures Share(s0.modules[m]) >= 1 || exists x :: x in Callers(s0.modules, m) && m in st.modules[x].refs - news
  {
    ConsistentCounts(s0, m);
    if Share(s0.modules[m]) < 1 {
      assert Callers(s0.modules, m) != {};
      var x :| x in Callers(s0.modules, m);
      OldRefsStay(s0, st, news, x);
    }
  }

  lemma OldModulesHeld(s0: State, st: State, news: set<nat>)
    requires Consistent(s0) && Linking(s0, st, news) && forall m :: m in s0.modules ==> s0.modules[m].refCount >= 1
    ensures Held(RefsMap(Uncrossed(Zeroed(st.modules, news), news)), Shares(st.modules, news), s0.modules.Keys)
  {
    hide Consistent, Linking, RefsMap, Uncrossed, Zeroed, Shares, Waiters;
    forall m | m in s0.modules { OldModuleHeld(s0, st, news, m); }
  }

  lemma OldModuleHeld(s0: State, st: State, news: set<nat>, m: nat)
    requires Consistent(s0) && Linking(s0, st, news) && m in s0.modules && s0.modules[m].refCount >= 1
    ensures var v, share := RefsMap(Uncrossed(Zeroed(st.modules, news), news)), Shares(st.modules, news);
      m in v && m in share && (share[m] >= 1 || exists x :: x in Waiters(v, m) && x in s0.modules.Keys)
  {
    hide Consistent, Purge;
    var v := RefsMap(Uncrossed(Zeroed(st.modules, news), news));
    OldModulesHold(s0, st, news, m);
    assert Bare(st.modules[m]) == Bare(s0.modules[m]);
    if Share(s0.modules[m]) < 1 {
      var x :| x in Callers(s0.modules, m) && m in st.modules[x].refs - news;
      assert x in Waiters(v, m);
    }
  }

  lemma OldModulesAlive(s0: State, st: State, news: set<nat>, m: nat)
    requires Consistent(s0) && Linking(s0, st, news) && m in s0.modules && s0.modules[m].refCount >= 1
    ensures st.modules[m].refCount >= 1
  {
    OldModulesHold(s0, st, news, m);
    ConsistentCounts(st, m);
    assert Bare(st.modules[m]) == Bare(s0.modules[m]);
    if Share(s0.modules[m]) < 1 {
      var x :| x in Callers(s0.modules, m) && m in st.modules[x].refs - news;
      assert x in Callers(st.modules, m);
    }
  }

  /** Undoing a link gives back the state before it. */
  lemma RollbackRestores(s0: State, st: State, news: set<nat>, st': State)
    requires Consistent(s0) && Linking(s0, st, news) && Swept(st, st', news, news)
    ensures State(st'.symtab, Without(st'.modules, news), st'.undefinedSyms) == s0
  {
    hide Consistent, Purge;
    SweptIsConsistent(st, st', news, news, news);
    var s := State(st'.symtab, Without(st'.modules, news), st'.undefinedSyms);
    assert SameBare(s.modules, s0.modules);
    CountersAreDerived(s, s0);
  }

  lemma FamilyStays(ms: Modules, e: nat, z: set<nat>)
    ensures Family(Zeroed(ms, z), e) == Family(ms, e)
    ensures Family(Uncrossed(Zeroed(ms, z), z), e) == Family(ms, e)
    ensures FlatLibraries(ms) ==> FlatLibraries(Uncrossed(Zeroed(ms, z), z))
  {
  }

  lemma CountsBeforeSweep(st: State)
    requires Consistent(st)
    ensures st.undefinedSyms == |UndefinedNames(st.symtab)|
  {
  }

  lemma OnlyNeedsDifferCounts(ms: Modules, ms': Modules)
    requires OnlyNeedsDiffer(ms, ms')
    ensures ms'.Keys == ms.Keys && forall m :: m in ms ==> ms'[m].refCount == ms[m].refCount
  {
  }

  lemma LinkingKeys(s0: State, st: State, news: set<nat>)
    requires Linking(s0, st, news)
    ensures Consistent(st) && st.modules.Keys == s0.modules.Keys + news && news !! s0.modules.Keys
  {
  }

  lemma OnlyNewsDead(s0: State, st: State, news: set<nat>, st': State)
    requires Linking(s0, st, news) && Swept(st, st', news, DeadIn(st'.modules))
    requires forall m :: m in s0.modules ==> m in st'.modules && st'.modules[m].refCount >= 1
    ensures DeadIn(st'.modules) == news
  {
  }

  lemma FamilyOf(st: State, st': State, news: set<nat>, e: nat)
    requires Swept(st, st', news, DeadIn(st'.modules))
    ensures Family(st'.modules, e) == Family(st.modules, e)
  {
    forall m | m in st.modules ensures st'.modules[m].superfile == st.modules[m].superfile {
      assert Bare(st'.modules[m]) == Bare(st.modules[m]);
    }
  }

  // ---- unlinking ----

  /** all_symbols_resolved_flag after _dld_patch_all_files. */
  function Patched(ms: Modules): Modules {
    map m | m in ms :: if ms[m].library then ms[m] else ms[m].(resolved := ms[m].undefinedCount == 0)
  }

  /** What do_unlink frees: the dead modules, and the libraries left without members. */
  function Gone(ms: Modules): set<nat> {
    DeadIn(ms) + set m | m in ms && ms[m].library && forall k :: k in ms && ms[k].superfile == Some(m) ==> ms[k].refCount == 0
  }

  /** The user gives up his hold on `e`. */
  function Unshared(ms: Modules, e: nat): Modules
    requires e in ms
  {
    ms[e := ms[e].(refCount := ms[e].refCount - 1, alreadyUnlink := true)]
  }

  lemma UnshareKeepsConsistent(st: State, e: nat)
    requires Consistent(st) && e in st.modules && !st.modules[e].alreadyUnlink
    ensures Consistent(st.(modules := Unshared(st.modules, e)))
  {
    hide UndefinedIn, RefsAre, UndefinedNames, TableOk;
    var ms, ms' := st.modules, Unshared(st.modules, e);
    assert Files(ms') == Files(ms);
    forall m | m in ms ensures CountsOk(st.symtab, ms', m) {
      assert CountsOk(st.symtab, ms, m);
      assert Callers(ms', m) == Callers(ms, m);
    }
  }

  lemma PatchKeepsConsistent(st: State)
    requires Consistent(st)
    ensures Consistent(st.(modules := Patched(st.modules)))
  {
    hide UndefinedIn, RefsAre, UndefinedNames, TableOk;
    var ms, ms' := st.modules, Patched(st.modules);
    assert Files(ms') == Files(ms);
    forall m | m in ms ensures CountsOk(st.symtab, ms', m) {
      assert CountsOk(st.symtab, ms, m);
      assert Callers(ms', m) == Callers(ms, m);
    }
  }

  lemma PurgeStrangers(t: Table, known: set<nat>, dead: set<nat>, gone: set<nat>)
    requires TableOk(t, known) && dead <= gone && known !! (gone - dead)
    ensures Purge(t, gone) == Purge(t, dead)
  {
    forall s | s in t ensures Cleaned(t[s], gone) == Cleaned(t[s], dead) {
      assert t[s].referencedBy - gone == t[s].referencedBy - dead;
    }
  }

  /** Nobody holds `m`, and all that refer to it are in `d`. */
  predicate Falls(ms: Modules, d: set<nat>, m: nat)
    requires m in ms
  {
    Share(ms[m]) == 0 && Callers(ms, m) <= d
  }

  /** The modules that fall with those in `d`, one round after the other. */
  function Doomed(ms: Modules, d: set<nat>): (r: set<nat>)
    requires d <= ms.Keys
    ensures d <= r <= ms.Keys
    decreases ms.Keys - d
  {
    var more := set m | m in ms && m !in d && Falls(ms, d, m);
    if more == {} then d
    else
      assert ms.Keys - (d + more) < ms.Keys - d by { var m :| m in more; assert m in ms.Keys - d; }
      Doomed(ms, d + more)
  }

  /** Whatever falls with them is among them ... */
  lemma {:induction false} DoomedIsClosed(ms: Modules, d: set<nat>, m: nat)
    requires d <= ms.Keys && m in ms && Falls(ms, Doomed(ms, d), m)
    ensures m in Doomed(ms, d)
    decreases ms.Keys - d
  {
    hide Falls;
    var more := set m | m in ms && m !in d && Falls(ms, d, m);
    assert m !in d && Falls(ms, d, m) ==> m in more;
    if more != {} {
      assert ms.Keys - (d + more) < ms.Keys - d by { var m :| m in more; assert m in ms.Keys - d; }
      DoomedIsClosed(ms, d + more, m);
    }
  }

  /** ... and no others: they are the least such set. */
  lemma {:induction false} DoomedIsLeast(ms: Modules, d: set<nat>, c: set<nat>)
    requires d <= c && d <= ms.Keys && forall m :: m in ms && Falls(ms, c, m) ==> m in c
    ensures Doomed(ms, d) <= c
    decreases ms.Keys - d
  {
    var more := set m | m in ms && m !in d && Falls(ms, d, m);
    if more != {} {
      assert ms.Keys - (d + more) < ms.Keys - d by { var m :| m in more; assert m in ms.Keys - d; }
      forall m | m in more ensures m in c { assert Falls(ms, c, m); }
      hide Falls;
      DoomedIsLeast(ms, d + more, c);
    }
  }

  /** That the user gives up his hold on one of them makes no difference. */
  lemma {:induction false} DoomedAfterUnshare(ms: Modules, d: set<nat>, e: nat)
    requires d <= ms.Keys && e in d
    ensures Unshared(ms, e).Keys == ms.Keys && Doomed(Unshared(ms, e), d) == Doomed(ms, d)
    decreases ms.Keys - d
  {
    var ms' := Unshared(ms, e);
    forall m, c | m in ms && m != e ensures Falls(ms', c, m) <==> Falls(ms, c, m) {
      assert Callers(ms', m) == Callers(ms, m);
    }
    hide Falls;
    var more := set m | m in ms && m !in d && Falls(ms, d, m);
    assert more == set m | m in ms' && m !in d && Falls(ms', d, m);
    if more != {} {
      assert ms.Keys - (d + more) < ms.Keys - d by { var m :| m in more; assert m in ms.Keys - d; }
      DoomedAfterUnshare(ms, d + more, e);
    }
  }

  /** The libraries all of whose members are in `d`. */
  function EmptiedLibraries(ms: Modules, d: set<nat>): set<nat> {
    set m | m in ms && ms[m].library && forall k :: k in ms && ms[k].superfile == Some(m) ==> k in d
  }

  /** The unlink removes `e`: it is forced, or the user's hold was the last one. */
  predicate Removes(st: State, e: nat, force: bool)
    requires e in st.modules
  {
    force || (!st.modules[e].library && !st.modules[e].alreadyUnlink && st.modules[e].refCount == 1)
  }

  /** The modules that an unlink of `e` frees. */
  function Freed(st: State, e: nat, force: bool): (r: set<nat>)
    requires e in st.modules
    ensures r <= st.modules.Keys
  {
    if Removes(st, e, force)
    then var d := Doomed(st.modules, Family(st.modules, e)); d + EmptiedLibraries(st.modules, d)
    else {}
  }

  /** What an unlink of `e` does. */
  ghost predicate Unlinked(st: State, st': State, e: nat, force: bool)
    requires e in st.modules
  {
    && st'.modules.Keys == st.modules.Keys - Freed(st, e, force)
    && st'.symtab == Purge(st.symtab, Freed(st, e, force))
    && (forall m :: m in st'.modules ==> LeftBy(st.modules[m], st'.modules[m], m == e && !force))
  }

  /** What an unlink leaves of a module: the flag that the user has unlinked it is set for `e`, and only what is derived
      from the symbol table changes otherwise. */
  predicate LeftBy(x: Module, x': Module, soft: bool) {
    Bare(x') == Bare(x).(
      resolved := if x.library then x.resolved else x'.resolved,
      alreadyUnlink := x.alreadyUnlink || (soft && !x.library))
  }

  /** Nothing outside `s` and no hold on `e` is needed for the modules in `s`: the user holds each file himself, or another
      file among them refers to it, and each library has a member among them. */
  ghost predicate Holding(ms: Modules, s: set<nat>, e: nat) {
    forall m :: m in s ==>
      && m in ms && m != e && ms[m].superfile != Some(e)
      && if ms[m].library then exists k :: k in s && k in ms && ms[k].superfile == Some(m)
         else !ms[m].alreadyUnlink || exists x :: x in s && x in ms && x != m && m in ms[x].refs
  }

  /** A soft unlink removes exactly a file that the user holds and no other one refers to. */
  lemma RemovesUnheld(st: State, e: nat)
    requires Good(st) && e in st.modules
    ensures Removes(st, e, false) <==>
      !st.modules[e].library && !st.modules[e].alreadyUnlink && forall x :: x in st.modules && x != e ==> e !in st.modules[x].refs
  {
    ConsistentCounts(st, e);
    if Callers(st.modules, e) == {} {
      forall x | x in st.modules && x != e ensures e !in st.modules[x].refs { assert x !in Callers(st.modules, e); }
    } else {
      var x :| x in Callers(st.modules, e);
      assert |Callers(st.modules, e)| > 0;
    }
  }

  lemma LibrariesReferToNothing(st: State, x: nat)
    requires Good(st) && x in st.modules && st.modules[x].library
    ensures st.modules[x].refs == {}
  {
    ConsistentCounts(st, x);
    assert x !in Files(st.modules);
    assert forall d: nat, s :: !RefersTo(st.symtab, x, d, s);
    assert forall d: nat :: !Uses(st.symtab, x, d);
  }

  /** The modules that an unlink leaves hold each other, or the user holds them ... */
  lemma SurvivorsAreHeld(st: State, st': State, e: nat, force: bool)
    requires Good(st) && e in st.modules && Removes(st, e, force) && Unlinked(st, st', e, force)
    ensures Holding(st.modules, st'.modules.Keys, e)
  {
    hide Doomed, Purge, Removes, Good, EmptiedLibraries;
    forall m | m in st'.modules
      ensures if st.modules[m].library then exists k :: k in st'.modules && k in st.modules && st.modules[k].superfile == Some(m)
        else !st.modules[m].alreadyUnlink || exists x :: x in st'.modules && x in st.modules && x != m && m in st.modules[x].refs
    {
      if st.modules[m].library {
        var k := MemberLeft(st, e, m);
      } else if st.modules[m].alreadyUnlink {
        var x := CallerLeft(st, e, m);
      }
    }
  }

  lemma MemberLeft(st: State, e: nat, m: nat) returns (k: nat)
    requires Good(st) && e in st.modules && m in st.modules && st.modules[m].library
    requires var d := Doomed(st.modules, Family(st.modules, e)); m !in d && m !in EmptiedLibraries(st.modules, d)
    ensures k in st.modules && st.modules[k].superfile == Some(m)
    ensures var d := Doomed(st.modules, Family(st.modules, e)); k !in d && k !in EmptiedLibraries(st.modules, d)
  {
    hide Doomed, Consistent;
    k :| k in st.modules && st.modules[k].superfile == Some(m) && k !in Doomed(st.modules, Family(st.modules, e));
  }

  lemma CallerLeft(st: State, e: nat, m: nat) returns (x: nat)
    requires Good(st) && e in st.modules && m in st.modules && st.modules[m].alreadyUnlink
    requires m !in Doomed(st.modules, Family(st.modules, e))
    ensures x in st.modules && x != m && m in st.modules[x].refs
    ensures var d := Doomed(st.modules, Family(st.modules, e)); x !in d && x !in EmptiedLibraries(st.modules, d)
  {
    hide Doomed, Good;
    var d := Doomed(st.modules, Family(st.modules, e));
    if Falls(st.modules, d, m) { DoomedIsClosed(st.modules, Family(st.modules, e), m); }
    x :| x in Callers(st.modules, m) && x !in d;
    if st.modules[x].library { LibrariesReferToNothing(st, x); }
  }

  /** ... and are all that do. */
  lemma HeldSurvive(st: State, st': State, e: nat, force: bool, s: set<nat>)
    requires Good(st) && e in st.modules && Unlinked(st, st', e, force) && Holding(st.modules, s, e)
    ensures s <= st'.modules.Keys
  {
    hide Doomed, Purge, Removes, Consistent, Falls;
    var ms := st.modules;
    var c := ms.Keys - s;
    forall m | m in ms && Falls(ms, c, m) ensures m in c {
      if m in s { HeldDoesNotFall(ms, s, e, m); }
    }
    DoomedIsLeast(ms, Family(ms, e), c);
  }

  lemma HeldDoesNotFall(ms: Modules, s: set<nat>, e: nat, m: nat)
    requires Holding(ms, s, e) && m in s && m in ms && (ms[m].library ==> !ms[m].alreadyUnlink)
    ensures !Falls(ms, ms.Keys - s, m)
  {
    if !ms[m].library && ms[m].alreadyUnlink {
      var x :| x in s && x in ms && x != m && m in ms[x].refs;
      assert x in Callers(ms, m);
    }
  }

  /** What an unlink does to a symbol: the modules that are gone neither define nor refer to it any more, and it is
      dropped if nothing is left to be said about it. */
  lemma SymbolsLeft(st: State, st': State, e: nat, force: bool, s: Name)
    requires Good(st) && e in st.modules && Unlinked(st, st', e, force)
    ensures s in st'.symtab <==>
      s in st.symtab && ((st.symtab[s].definedBy.Some? && st.symtab[s].definedBy.value in st'.modules)
                         || exists m :: m in st.symtab[s].referencedBy && m in st'.modules)
    ensures s in st'.symtab ==>
      && st'.symtab[s].definedBy ==
         (if st.symtab[s].definedBy.Some? && st.symtab[s].definedBy.value in st'.modules then st.symtab[s].definedBy else None)
      && (forall m :: m in st'.symtab[s].referencedBy <==> m in st.symtab[s].referencedBy && m in st'.modules)
  {
    hide Freed, CountsOk, UndefinedNames, Settled;
    if s in st.symtab {
      var y, gone := st.symtab[s], Freed(st, e, force);
      assert forall m :: m in y.referencedBy ==> m in st.modules;
      assert forall m :: m in y.referencedBy - gone <==> m in y.referencedBy && m in st'.modules;
      assert y.definedBy.Some? ==> (y.definedBy.value in gone <==> y.definedBy.value !in st'.modules);
    }
  }

  /** There is only one good state that an unlink can lead to. */
  lemma UnlinkIsDetermined(st: State, e: nat, force: bool, st1: State, st2: State)
    requires e in st.modules && Good(st1) && Good(st2)
    requires Unlinked(st, st1, e, force) && Unlinked(st, st2, e, force)
    ensures st1 == st2
  {
    hide Purge, Freed, TableOk, RefsAre, Callers;
    forall m | m in st1.modules ensures Bare(st1.modules[m]) == Bare(st2.modules[m]) {
      assert CountsOk(st1.symtab, st1.modules, m) && CountsOk(st2.symtab, st2.modules, m);
      assert LeftBy(st.modules[m], st1.modules[m], m == e && !force) && LeftBy(st.modules[m], st2.modules[m], m == e && !force);
    }
    CountersAreDerived(st1, st2);
  }

  /** Everything that a settled state says about the flags and links that unlinking never touches. */
  ghost predicate WellLinked(ms: Modules) {
    && (forall m :: m in ms && ms[m].superfile.Some? ==>
          !ms[m].library && ms[m].superfile.value in ms && ms[ms[m].superfile.value].library)
    && (forall m :: m in ms && ms[m].library ==> !ms[m].alreadyUnlink)
  }

  lemma GoneIsIdle(st1: State, st2: State, z: set<nat>)
    requires Swept(st1, st2, z, DeadIn(st2.modules))
    ensures DeadIn(st2.modules) <= Gone(st2.modules) <= st2.modules.Keys
    ensures forall m :: m in Gone(st2.modules) && m !in DeadIn(st2.modules) ==> st2.modules[m].library
  {
  }

  lemma SweptLinks(st1: State, st2: State, z: set<nat>, m: nat)
    requires Swept(st1, st2, z, DeadIn(st2.modules)) && m in st2.modules
    ensures m in st1.modules
    ensures st2.modules[m].library == st1.modules[m].library && st2.modules[m].superfile == st1.modules[m].superfile
    ensures st2.modules[m].alreadyUnlink == st1.modules[m].alreadyUnlink
    ensures st2.modules[m].refCount == 0 && m !in z ==> st1.modules[m].alreadyUnlink
    ensures st2.modules[m].refCount != 0 ==> m !in z && st2.modules[m].refCount >= 1
  {
    hide UndefinedNames, UndefinedIn, RefsAre, Callers, Purge;
    assert Bare(st2.modules[m]) == Bare(st1.modules[m]);
    if st2.modules[m].refCount != 0 {
      assert CountsOk(st2.symtab, st2.modules, m);
    }
  }

  ghost predicate MembersDieWith(ms: Modules) {
    && (forall k :: k in ms && ms[k].superfile.Some? && ms[k].refCount != 0 ==>
         ms[k].superfile.value in ms && ms[ms[k].superfile.value].refCount != 0)
    && (forall m :: m in ms && ms[m].refCount != 0 ==> ms[m].refCount >= 1)
  }

  lemma SweptIsLinked(st1: State, st2: State, z: set<nat>)
    requires WellLinked(st1.modules) && Swept(st1, st2, z, DeadIn(st2.modules))
    requires forall l :: l in z && l in st1.modules && st1.modules[l].library ==>
      forall k :: k in st1.modules && st1.modules[k].superfile == Some(l) ==> k in z
    ensures WellLinked(st2.modules) && MembersDieWith(st2.modules)
  {
    var ms2 := st2.modules;
    assert ms2.Keys == st1.modules.Keys;
    hide Swept;
    forall m | m in ms2
      ensures ms2[m].library == st1.modules[m].library && ms2[m].superfile == st1.modules[m].superfile
      ensures ms2[m].alreadyUnlink == st1.modules[m].alreadyUnlink
      ensures ms2[m].refCount == 0 && m !in z ==> st1.modules[m].alreadyUnlink
      ensures ms2[m].refCount != 0 ==> m !in z && ms2[m].refCount >= 1
    {
      SweptLinks(st1, st2, z, m);
    }
  }

  /** What is left after an unlink is settled. */
  lemma SurvivorsAreSettled(ms2: Modules)
    requires WellLinked(ms2) && MembersDieWith(ms2)
    ensures Settled(Patched(Without(ms2, Gone(ms2))))
  {
    var ms := Without(ms2, Gone(ms2));
    forall m | m in ms && ms[m].superfile.Some? ensures ms[m].superfile.value in ms {
      assert ms2[m].refCount != 0;
    }
    forall m | m in ms && ms[m].library ensures exists k :: k in Patched(ms) && Patched(ms)[k].superfile == Some(m) {
      var k :| k in ms2 && ms2[k].superfile == Some(m) && ms2[k].refCount != 0;
      assert k in Patched(ms) && Patched(ms)[k].superfile == Some(m);
    }
  }

  /** `st1` is the state in which the family is taken down: the state of the call, or the one
      in which the user has just given up his hold on `e`. */
  ghost predicate BeforeTakeDown(st: State, st1: State, e: nat, force: bool) {
    && e in st.modules && st1.symtab == st.symtab
    && if force then st1 == st
       else !st.modules[e].library && !st.modules[e].alreadyUnlink && st1.modules == Unshared(st.modules, e)
  }

  lemma BareBefore(st: State, st1: State, e: nat, force: bool, m: nat)
    requires BeforeTakeDown(st, st1, e, force) && m in st.modules
    ensures m in st1.modules && Bare(st1.modules[m]) == Bare(st.modules[m]).(alreadyUnlink := st.modules[m].alreadyUnlink || (m == e && !force))
    ensures Callers(st1.modules, m) == Callers(st.modules, m)
  {
  }

  /** The modules that survive hold each other or are held by the user. */
  lemma SurvivorsHold(st1: State, z: set<nat>)
    requires z <= st1.modules.Keys
    ensures Held(RefsMap(Uncrossed(Zeroed(st1.modules, z), z)), Shares(st1.modules, z), st1.modules.Keys - Doomed(st1.modules, z))
  {
    var d := Doomed(st1.modules, z);
    var ms1 := Uncrossed(Zeroed(st1.modules, z), z);
    forall m | m in st1.modules.Keys - d
      ensures m in RefsMap(ms1) && m in Shares(st1.modules, z)
      ensures Shares(st1.modules, z)[m] >= 1 || exists x :: x in Waiters(RefsMap(ms1), m) && x in st1.modules.Keys - d
    {
      if Falls(st1.modules, d, m) { DoomedIsClosed(st1.modules, z, m); }
      hide Doomed;
      if Share(st1.modules[m]) == 0 {
        var x :| x in Callers(st1.modules, m) && x !in d;
        assert x in Waiters(RefsMap(ms1), m);
      }
    }
  }

  /** A survivor's reference was there before. */
  lemma OlderReference(st1: State, st2: State, z: set<nat>, dead: set<nat>, x: nat, m: nat)
    requires Consistent(st1) && Swept(st1, st2, z, dead) && x in st2.modules && x !in dead && m in st2.modules[x].refs
    ensures m in st1.modules[x].refs
  {
    hide UndefinedIn, UndefinedNames, TableOk, Callers;
    assert CountsOk(st2.symtab, st2.modules, x) && CountsOk(st1.symtab, st1.modules, x);
    assert Uses(st2.symtab, x, m);
    var s :| RefersTo(st2.symtab, x, m, s);
    assert RefersTo(st1.symtab, x, m, s);
  }

  /** Whatever falls with the dead is dead. */
  lemma DeadIsClosed(st1: State, st2: State, z: set<nat>, m: nat)
    requires Consistent(st1) && Swept(st1, st2, z, DeadIn(st2.modules)) && m in st1.modules && Falls(st1.modules, DeadIn(st2.modules), m)
    ensures m in DeadIn(st2.modules)
  {
    if st2.modules[m].refCount != 0 {
      assert CountsOk(st2.symtab, st2.modules, m);
      assert Bare(st2.modules[m]) == Bare(st1.modules[m]);
      hide Swept;
      assert Callers(st2.modules, m) != {};
      var x :| x in Callers(st2.modules, m);
      if x in DeadIn(st2.modules) { SpentRefs(st1, st2, z, x); } else { OlderReference(st1, st2, z, DeadIn(st2.modules), x, m); SweptKeys(st1, st2, z); }
      assert false;
    }
  }

  lemma SpentRefs(st1: State, st2: State, z: set<nat>, x: nat)
    requires Swept(st1, st2, z, DeadIn(st2.modules)) && x in DeadIn(st2.modules)
    ensures st2.modules[x].refs == {}
  {
  }

  lemma SweptKeys(st1: State, st2: State, z: set<nat>)
    requires Swept(st1, st2, z, DeadIn(st2.modules))
    ensures st2.modules.Keys == st1.modules.Keys && z <= DeadIn(st2.modules) <= st1.modules.Keys
  {
  }

  /** The dead are exactly the doomed. */
  lemma DeadAreDoomed(st1: State, st2: State, z: set<nat>)
    requires Consistent(st1) && Swept(st1, st2, z, DeadIn(st2.modules)) && z <= st1.modules.Keys
    requires forall m :: m in st1.modules.Keys - Doomed(st1.modules, z) ==> m in st2.modules && st2.modules[m].refCount >= 1
    ensures DeadIn(st2.modules) == Doomed(st1.modules, z)
  {
    hide Consistent, Swept, Doomed, Falls;
    SweptKeys(st1, st2, z);
    forall m | m in st1.modules && Falls(st1.modules, DeadIn(st2.modules), m) ensures m in DeadIn(st2.modules) {
      DeadIsClosed(st1, st2, z, m);
    }
    DoomedIsLeast(st1.modules, z, DeadIn(st2.modules));
  }

  /** Taking down from either state dooms the same modules. */
  lemma SameDoomed(st: State, st1: State, e: nat, force: bool)
    requires BeforeTakeDown(st, st1, e, force)
    ensures st1.modules.Keys == st.modules.Keys && Family(st1.modules, e) == Family(st.modules, e) <= st.modules.Keys
    ensures Doomed(st1.modules, Family(st.modules, e)) == Doomed(st.modules, Family(st.modules, e))
  {
    if !force { DoomedAfterUnshare(st.modules, Family(st.modules, e), e); }
  }

  lemma SweptBare(st: State, st1: State, st2: State, e: nat, force: bool, m: nat)
    requires BeforeTakeDown(st, st1, e, force) && Swept(st1, st2, Family(st.modules, e), DeadIn(st2.modules)) && m in st.modules
    ensures m in st2.modules && Bare(st2.modules[m]) == Bare(st.modules[m]).(alreadyUnlink := st.modules[m].alreadyUnlink || (m == e && !force))
  {
    hide Callers;
    BareBefore(st, st1, e, force, m);
    assert Bare(st2.modules[m]) == Bare(st1.modules[m]);
  }

  lemma SweptFacts(st: State, st1: State, st2: State, e: nat, force: bool)
    requires BeforeTakeDown(st, st1, e, force) && Swept(st1, st2, Family(st.modules, e), DeadIn(st2.modules))
    ensures st2.modules.Keys == st.modules.Keys && st2.symtab == Purge(st.symtab, DeadIn(st2.modules))
    ensures forall m :: m in st.modules ==>
      Bare(st2.modules[m]) == Bare(st.modules[m]).(alreadyUnlink := st.modules[m].alreadyUnlink || (m == e && !force))
  {
    hide Bare, Callers, Share, Purge;
    assert st2.modules.Keys == st1.modules.Keys == st.modules.Keys;
    assert st2.symtab == Purge(st.symtab, DeadIn(st2.modules));
    forall m | m in st.modules
      ensures Bare(st2.modules[m]) == Bare(st.modules[m]).(alreadyUnlink := st.modules[m].alreadyUnlink || (m == e && !force))
    {
      SweptBare(st, st1, st2, e, force, m);
    }
  }

  /** What has been freed when the dead are exactly the doomed. */
  lemma UnlinkIsDone(st: State, st1: State, st2: State, e: nat, force: bool)
    requires Consistent(st) && BeforeTakeDown(st, st1, e, force) && Removes(st, e, force)
    requires Swept(st1, st2, Family(st.modules, e), DeadIn(st2.modules))
    requires DeadIn(st2.modules) == Doomed(st.modules, Family(st.modules, e))
    ensures Gone(st2.modules) == Freed(st, e, force)
    ensures Unlinked(st, State(st2.symtab, Patched(Without(st2.modules, Gone(st2.modules))), st2.undefinedSyms), e, force)
  {
    hide Swept, Consistent, BeforeTakeDown, Callers, Purge, Doomed;
    SweptFacts(st, st1, st2, e, force);
    SoftIsFile(st, st1, e, force);
    forall m | m in st.modules
      ensures st2.modules[m].library == st.modules[m].library && st2.modules[m].superfile == st.modules[m].superfile
    {
      assert Bare(st2.modules[m]).library == st.modules[m].library && Bare(st2.modules[m]).superfile == st.modules[m].superfile;
    }
    SameGone(st.modules, st2.modules);
    UnlinkedTable(st, st2.modules);
    UnlinkedModules(st, st2.modules, e, force);
  }

  lemma SoftIsFile(st: State, st1: State, e: nat, force: bool)
    requires BeforeTakeDown(st, st1, e, force)
    ensures e in st.modules && (!force ==> !st.modules[e].library)
  {
  }

  lemma SameGone(ms: Modules, ms2: Modules)
    requires ms2.Keys == ms.Keys
    requires forall m :: m in ms ==> ms2[m].library == ms[m].library && ms2[m].superfile == ms[m].superfile
    ensures Gone(ms2) == DeadIn(ms2) + EmptiedLibraries(ms, DeadIn(ms2))
  {
    forall m | m in ms2 && ms2[m].library
      ensures (forall k :: k in ms2 && ms2[k].superfile == Some(m) ==> ms2[k].refCount == 0) <==>
        (forall k :: k in ms && ms[k].superfile == Some(m) ==> k in DeadIn(ms2))
    {
    }
  }

  lemma UnlinkedTable(st: State, ms2: Modules)
    requires Consistent(st) && ms2.Keys == st.modules.Keys && forall m :: m in ms2 ==> ms2[m].library == st.modules[m].library
    ensures Purge(st.symtab, Gone(ms2)) == Purge(st.symtab, DeadIn(ms2))
  {
    ConsistentTable(st);
    PurgeStrangers(st.symtab, Files(st.modules), DeadIn(ms2), Gone(ms2));
  }

  lemma UnlinkedModules(st: State, ms2: Modules, e: nat, force: bool)
    requires ms2.Keys == st.modules.Keys && e in st.modules && (!force ==> !st.modules[e].library)
    requires forall m :: m in ms2 ==> Bare(ms2[m]) == Bare(st.modules[m]).(alreadyUnlink := st.modules[m].alreadyUnlink || (m == e && !force))
    requires Gone(ms2) == Freed(st, e, force)
    ensures forall n: int :: Unlinked(st, State(Purge(st.symtab, Gone(ms2)), Patched(Without(ms2, Gone(ms2))), n), e, force)
  {
    hide Purge, Freed, Gone, LeftBy, Patched, Without, Bare;
    var gone := Gone(ms2);
    SurvivingKeys(ms2, gone);
    forall m | m in Patched(Without(ms2, gone)) ensures LeftBy(st.modules[m], Patched(Without(ms2, gone))[m], m == e && !force) {
      SurvivorIsLeft(ms2, gone, st.modules[m], m, m == e && !force);
    }
  }

  lemma SurvivingKeys(ms: Modules, gone: set<nat>)
    ensures Patched(Without(ms, gone)).Keys == ms.Keys - gone
  {
  }

  lemma SurvivorIsLeft(ms: Modules, gone: set<nat>, x: Module, m: nat, released: bool)
    requires m in ms && m !in gone && (released ==> !x.library)
    requires Bare(ms[m]) == Bare(x).(alreadyUnlink := x.alreadyUnlink || released)
    ensures m in Patched(Without(ms, gone)) && LeftBy(x, Patched(Without(ms, gone))[m], released)
  {
    assert Bare(ms[m]).library == x.library && Bare(ms[m]).resolved == x.resolved;
  }

  function DeadMembers(ms: Modules): set<nat> {
    set m | m in DeadIn(ms) && ms[m].superfile.Some?
  }

  /** Once the dead members are gone, only files are left to free. */
  lemma GoneAfterMembers(ms: Modules)
    requires WellLinked(ms) && MembersDieWith(ms)
    ensures var ms1 := Without(ms, DeadMembers(ms));
      && WellLinked(ms1) && DeadMembers(ms1) == {}
      && Without(ms1, Gone(ms1)) == Without(ms, Gone(ms))
  {
    var ms1 := Without(ms, DeadMembers(ms));
    assert forall k :: k in ms && ms[k].refCount != 0 ==> k in ms1 && ms1[k] == ms[k];
    forall m | m in ms1 ensures m in Gone(ms1) <==> m in Gone(ms) {
      if m in Gone(ms1) && m !in DeadIn(ms) {
        assert forall k :: k in ms && ms[k].superfile == Some(m) ==> ms[k].refCount == 0;
      }
    }
    assert DeadMembers(ms) <= Gone(ms);
  }

  lemma FilesGone(ms: Modules)
    requires WellLinked(ms) && DeadMembers(ms) == {}
    ensures forall m :: m in Gone(ms) ==> m in ms && ms[m].superfile.None?
    ensures Without(ms, {}) == ms
  {
    forall m | m in Gone(ms) ensures m in ms && ms[m].superfile.None? {
      assert m !in DeadMembers(ms);
    }
  }

  /** A file is freed when it is dead or has no members left in what remains. */
  lemma EmptyIsGone(ms: Modules, ms1: Modules, todo: set<nat>, m: nat)
    requires WellLinked(ms) && DeadMembers(ms) == {} && m in todo && m in ms
    requires ms1 == Without(ms, Gone(ms) - todo)
    ensures m in ms1 && ms1[m] == ms[m]
    ensures m in Gone(ms) <==> ms[m].refCount == 0 || (ms[m].library && forall k :: k in ms1 ==> ms1[k].superfile != Some(m))
  {
    FilesGone(ms);
    forall k | k in ms && ms[k].superfile == Some(m) ensures ms[k].refCount != 0 && k in ms1 {
      assert k !in DeadMembers(ms);
    }
  }

  lemma GoodLinks(st: State)
    requires Good(st)
    ensures Consistent(st) && WellLinked(st.modules) && FlatLibraries(st.modules)
    ensures forall m :: m in st.modules ==> st.modules[m].refCount >= 1
  {
  }

  lemma UnshareKeepsLinks(ms: Modules, e: nat)
    requires WellLinked(ms) && e in ms && !ms[e].library
    ensures var ms' := Unshared(ms, e);
      WellLinked(ms') && FlatLibraries(ms') && ms'.Keys == ms.Keys && Family(ms', e) == Family(ms, e) == {e}
  {
    var ms' := Unshared(ms, e);
    assert forall m :: m in ms ==> ms'[m].superfile == ms[m].superfile && ms'[m].library == ms[m].library;
  }

  /** Taking down needs only what a good state has. */
  lemma BeforeIsLinked(st: State, st1: State, e: nat, force: bool)
    requires Good(st) && BeforeTakeDown(st, st1, e, force)
    ensures e in st1.modules && WellLinked(st1.modules) && FlatLibraries(st1.modules)
    ensures Family(st1.modules, e) == Family(st.modules, e)
    ensures forall m :: m in st1.modules && m !in Family(st.modules, e) ==> st1.modules[m].refCount != 0
    ensures forall l :: l in Family(st.modules, e) && l in st1.modules && st1.modules[l].library ==>
      forall k :: k in st1.modules && st1.modules[k].superfile == Some(l) ==> k in Family(st.modules, e)
  {
    hide Consistent;
    GoodLinks(st);
    if !force {
      UnshareKeepsLinks(st.modules, e);
    }
  }

  lemma BeforeAtOnce(st: State, e: nat)
    requires Good(st) && e in st.modules
    ensures BeforeTakeDown(st, st, e, true) && Consistent(st) && Removes(st, e, true)
  {
  }

  lemma BeforeAfterUnshare(st: State, e: nat)
    requires Good(st) && e in st.modules && !st.modules[e].alreadyUnlink && !st.modules[e].library
    ensures var st1 := st.(modules := Unshared(st.modules, e));
      && BeforeTakeDown(st, st1, e, false) && Consistent(st1)
      && (st1.modules[e].refCount == 0 <==> Removes(st, e, false))
      && (st1.modules[e].refCount == 0 ==> st1.modules == Zeroed(st1.modules, Family(st1.modules, e)))
      && st.modules[e].refCount >= 1
  {
    hide Consistent, WellLinked, FlatLibraries, Family, Good;
    GoodLinks(st);
    UnshareKeepsConsistent(st, e);
    UnshareKeepsLinks(st.modules, e);
    ZeroedAlready(st.modules, e);
  }

  lemma ZeroedAlready(ms: Modules, e: nat)
    requires e in ms
    ensures ms[e].refCount == 1 ==> Unshared(ms, e) == Zeroed(Unshared(ms, e), {e})
  {
  }

  /** A soft unlink of a module that is still referred to. */
  lemma UnsharedIsGood(st: State, e: nat)
    requires Good(st) && e in st.modules && !st.modules[e].alreadyUnlink && !st.modules[e].library && st.modules[e].refCount > 1
    ensures var st' := st.(modules := Patched(Unshared(st.modules, e)));
      Good(st') && Unlinked(st, st', e, false) && e in st'.modules && st'.modules[e].alreadyUnlink
  {
    UnshareKeepsConsistent(st, e);
    PatchKeepsConsistent(st.(modules := Unshared(st.modules, e)));
    UnsharedIsSettled(st.modules, e);
    ConsistentTable(st);
    PurgeNothing(st.symtab, Files(st.modules), {});
    hide Consistent, Purge, Settled, TableOk;
    NothingFreed(st, Patched(Unshared(st.modules, e)), e, false);
  }

  lemma OnlyFlagged(ms: Modules, e: nat, m: nat)
    requires e in ms && m in ms && !ms[e].library
    ensures var ms' := Patched(Unshared(ms, e)); m in ms' && LeftBy(ms[m], ms'[m], m == e)
  {
  }

  lemma NothingFreed(st: State, ms: Modules, e: nat, force: bool)
    requires e in st.modules && !st.modules[e].library && !Removes(st, e, force)
    requires ms == Patched(Unshared(st.modules, e)) && Purge(st.symtab, {}) == st.symtab
    ensures Unlinked(st, st.(modules := ms), e, force)
    ensures ms.Keys == st.modules.Keys && ms[e].alreadyUnlink
  {
    hide Purge, LeftBy;
    assert Freed(st, e, force) == {};
    forall m | m in st.modules ensures m in ms && LeftBy(st.modules[m], ms[m], m == e && !force) {
      OnlyFlagged(st.modules, e, m);
    }
  }

  /** Unlinking a library, or a module that has been unlinked before, does nothing unless it is forced. */
  lemma NothingUnlinked(st: State, e: nat)
    requires Good(st) && e in st.modules && (st.modules[e].library || st.modules[e].alreadyUnlink)
    ensures Unlinked(st, st, e, false)
  {
    ConsistentTable(st);
    PurgeNothing(st.symtab, Files(st.modules), {});
  }

  lemma UnsharedIsSettled(ms: Modules, e: nat)
    requires Settled(ms) && e in ms && !ms[e].library && ms[e].refCount > 1
    ensures Settled(Patched(Unshared(ms, e)))
  {
    hide Patched, Unshared;
    var ms' := Patched(Unshared(ms, e));
    forall m | m in ms ensures UnsharedModule(ms, ms', e, m) { UnsharedModuleIs(ms, e, m); }
    UnsharedKeys(ms, e);
    forall m | m in ms' && ms'[m].library ensures exists k :: k in ms' && ms'[k].superfile == Some(m) {
      assert UnsharedModule(ms, ms', e, m);
      var k :| k in ms && ms[k].superfile == Some(m);
      assert UnsharedModule(ms, ms', e, k);
    }
  }

  ghost predicate UnsharedModule(ms: Modules, ms': Modules, e: nat, m: nat) {
    && m in ms && m in ms' && ms'[m].library == ms[m].library && ms'[m].superfile == ms[m].superfile
    && ms'[m].refCount >= 1 && ms'[m].alreadyUnlink == (ms[m].alreadyUnlink || m == e)
    && (!ms'[m].library ==> (ms'[m].resolved <==> ms'[m].undefinedCount == 0))
  }

  lemma UnsharedModuleIs(ms: Modules, e: nat, m: nat)
    requires Settled(ms) && e in ms && ms[e].refCount > 1 && m in ms
    ensures UnsharedModule(ms, Patched(Unshared(ms, e)), e, m)
  {
  }

  lemma UnsharedKeys(ms: Modules, e: nat)
    requires e in ms
    ensures Patched(Unshared(ms, e)).Keys == ms.Keys
  {
  }

  lemma FinishedUnlink(st: State, st1: State, st2: State, e: nat, force: bool)
    requires Good(st) && BeforeTakeDown(st, st1, e, force) && Consistent(st1) && Removes(st, e, force)
    requires Swept(st1, st2, Family(st.modules, e), DeadIn(st2.modules)) && WellLinked(st2.modules) && MembersDieWith(st2.modules)
    requires DeadIn(st2.modules) == Doomed(st.modules, Family(st.modules, e))
    ensures var st' := st2.(modules := Patched(Without(st2.modules, Gone(st2.modules))));
      Good(st') && Unlinked(st, st', e, force)
  {
    hide Settled, Consistent, Unlinked, Swept, BeforeTakeDown, WellLinked, MembersDieWith, Patched, Gone, Doomed, Family, Without, Removes;
    var gone := Gone(st2.modules);
    GoodLinks(st);
    GoneIsIdle(st1, st2, Family(st.modules, e));
    SweptIsConsistent(st1, st2, Family(st.modules, e), DeadIn(st2.modules), gone);
    PatchKeepsConsistent(State(st2.symtab, Without(st2.modules, gone), st2.undefinedSyms));
    SurvivorsAreSettled(st2.modules);
    UnlinkIsDone(st, st1, st2, e, force);
  }
}
