/** The operations of the dynamic link editor of dld-3.2.3/dld.c, on the tables of `DldModel`. */
module Dld {
  import opened DldModel
  import opened DldLink

  /** Module `m` after one round of the loop over the modules that refer to a symbol, for caller `q`:
      the caller gets `e` among its references; if that is new, and the caller is new among those that refer to `e`,
      `e` is counted once more, unless it is the caller itself; and the caller needs one symbol less. */
  function LinkCaller(ms: Modules, q: nat, e: nat, m: nat): Module
    requires q in ms && e in ms && m in ms
  {
    Gains(ms[m], m == q, m == e && e !in ms[q].refs && q !in ms[e].refsBy, e, {q}, if q != e then 1 else 0)
  }

  lemma LinkedOne(ms: Modules, ms': Modules, q: nat, e: nat)
    requires q in ms && e in ms
    requires ms' ==
      var ms1 := if e !in ms[q].refs then ms[q := ms[q].(refs := ms[q].refs + {e})] else ms;
      var ms2 := if e !in ms[q].refs && q !in ms[e].refsBy then ms1[e := ms1[e].(refsBy := ms1[e].refsBy + {q})] else ms1;
      var ms3 := if e !in ms[q].refs && q !in ms[e].refsBy && q != e then ms2[e := ms2[e].(refCount := ms2[e].refCount + 1)] else ms2;
      ms3[q := ms3[q].(undefinedCount := ms3[q].undefinedCount - 1)]
    ensures forall m :: m in ms' ==> m in ms && ms'[m] == LinkCaller(ms, q, e, m)
  {
    assert e in ms[q].refs ==> ms[q].refs + {e} == ms[q].refs;
    assert ms'[q] == LinkCaller(ms, q, e, q);
    assert ms'[e] == LinkCaller(ms, q, e, e);
  }

  lemma GainsTwice(x: Module, r0: bool, r1: bool, more: bool, e: nat, callers: set<nat>, count: int, q: nat, one: int)
    requires !(r0 && r1)
    ensures Gains(Gains(x, r0, true, e, callers, count), r1, more, e, {q}, one)
         == Gains(x, r0 || r1, true, e, callers + if more then {q} else {}, count + if more then one else 0)
  {
    assert x.refsBy + callers + {q} == x.refsBy + (callers + {q});
    assert callers + {} == callers;
  }

  lemma NewCallersGrow(ms: Modules, rs: set<nat>, q: nat, e: nat)
    requires q in ms && q !in rs
    ensures NewCallers(ms, rs + {q}, e) == NewCallers(ms, rs, e) + if e !in ms[q].refs then {q} else {}
    ensures |NewCallers(ms, rs + {q}, e) - {e}| == |NewCallers(ms, rs, e) - {e}| + if e !in ms[q].refs && q != e then 1 else 0
  {
    var a, b, more := NewCallers(ms, rs, e), NewCallers(ms, rs + {q}, e), e !in ms[q].refs;
    assert b == a + if more then {q} else {};
    assert q !in a;
    hide NewCallers;
    OneMore(a - {e}, b - {e}, q, more && q != e);
  }

  lemma LinkOther(ms: Modules, rs: set<nat>, q: nat, e: nat, m: nat)
    requires q in ms && e in ms && m in ms && q !in rs && m != e
    ensures LinkCaller(DefineIn(ms, rs, e), q, e, m) == AfterDefinition(ms, rs + {q}, e, m)
  {
  }

  lemma NotLinkedYet(ms: Modules, rs: set<nat>, q: nat, e: nat)
    requires q in ms && e in ms && q !in rs && CallersKnown(ms, e)
    ensures var ms' := DefineIn(ms, rs, e);
      && q in ms' && e in ms' && ms'[e] == AfterDefinition(ms, rs, e, e)
      && (e !in ms'[q].refs && q !in ms'[e].refsBy <==> e !in ms[q].refs)
  {
  }

  lemma LinkSelf(ms: Modules, rs: set<nat>, q: nat, e: nat)
    requires q in ms && e in ms && q !in rs && CallersKnown(ms, e)
    ensures LinkCaller(DefineIn(ms, rs, e), q, e, e) == AfterDefinition(ms, rs + {q}, e, e)
  {
    hide Gains, NewCallers, DefineIn;
    NewCallersGrow(ms, rs, q, e);
    NotLinkedYet(ms, rs, q, e);
    GainsTwice(ms[e], e in rs, e == q, e !in ms[q].refs, e, NewCallers(ms, rs, e), |NewCallers(ms, rs, e) - {e}|, q, if q != e then 1 else 0);
  }

  lemma LinkedAll(ms: Modules, rs: set<nat>, q: nat, e: nat, ms': Modules)
    requires q in ms && e in ms && q !in rs && CallersKnown(ms, e) && ms'.Keys == ms.Keys
    requires forall m :: m in ms ==> ms'[m] == LinkCaller(DefineIn(ms, rs, e), q, e, m)
    ensures ms' == DefineIn(ms, rs + {q}, e)
  {
    forall m | m in ms ensures ms'[m] == AfterDefinition(ms, rs + {q}, e, m) {
      if m == e { LinkSelf(ms, rs, q, e); } else { LinkOther(ms, rs, q, e, m); }
    }
  }

  /** While a library is being searched. */
  ghost predicate Searching(s0: State, st: State, lib: nat, news: set<nat>, at: map<nat, nat>, members: map<nat, seq<NList>>, next: nat) {
    LibLinking(s0, st, lib, news) && lib in news && Addressed(st.modules, next) && MembersIn(st, lib, news, at, members)
  }

  lemma SearchStarts(s0: State, st: State, lib: nat, members: map<nat, seq<NList>>, next: nat)
    requires LibLinking(s0, st, lib, {lib}) && Addressed(st.modules, next)
    ensures Searching(s0, st, lib, {lib}, map[], members, next)
  {
    NoMembers(st, lib, members);
  }

  lemma NothingLoaded(t: Table, offsets: set<nat>, members: map<nat, seq<NList>>)
    ensures DefinedFrom(t, t, offsets, members)
  {
  }

  lemma ListedIsUnblamed(t: Table, dir: seq<Symdef>, files: map<nat, File>, loaded: set<nat>, i: nat)
    requires i < |dir| && Cleared(dir, loaded)[i].name.Some?
    ensures dir[i].offset !in loaded && Cleared(dir, loaded)[i].offset == dir[i].offset
    ensures Linkable(t, dir, files) ==> Unblamed(t, files, dir[i].offset)
    ensures Unblamed(t, files, dir[i].offset) ==>
      dir[i].offset in files && files[dir[i].offset].symbols.Some? && files[dir[i].offset].complete
  {
  }

  lemma MemberTaken(t0: Table, st: State, id: nat, x: Module, at: map<nat, nat>, files: map<nat, File>, o: nat)
    requires DefinedFrom(t0, st.symtab, at.Keys, Readable(files)) && o in Readable(files) && o !in at
    ensures var (st', linked) := EnterAll(WithModule(st, id, x), Readable(files)[o], id);
      && (linked ==> DefinedFrom(t0, st'.symtab, at[o := id].Keys, Readable(files)))
      && (Unblamed(t0, files, o) ==> linked)
  {
    hide DefinedFrom, Unblamed, EnterAll;
    if EnterAll(WithModule(st, id, x), Readable(files)[o], id).1 {
      MemberDefines(t0, st, id, x, at.Keys, Readable(files), o);
      assert at[o := id].Keys == at.Keys + {o};
    }
    if Unblamed(t0, files, o) { UnblamedIsEntered(t0, st, id, x, at.Keys, files, o); }
  }

  lemma SearchEnds(s0: State, st: State, lib: nat, news: set<nat>, at: map<nat, nat>, members: map<nat, seq<NList>>, next: nat)
    requires Searching(s0, st, lib, news, at, members, next)
    ensures LibLinking(s0, st, lib, news) && MembersIn(st, lib, news, at, members) && Addressed(st.modules, next)
    ensures Linking(s0, st, news) && news == Family(st.modules, lib) && lib in news && FlatLibraries(st.modules)
  {
    LibLinkingLinks(s0, st, lib, news);
  }

  /** A library of which members have been loaded. */
  lemma LibraryIsFinished(s0: State, st: State, lib: nat, news: set<nat>, at: map<nat, nat>, members: map<nat, seq<NList>>, next: nat)
    requires Good(s0) && Searching(s0, st, lib, news, at, members, next) && news != {lib}
    ensures var st' := st.(modules := Patched(st.modules));
      Good(st') && LinkedOnto(s0, st', news) && MembersIn(st', lib, news, at, members) && Addressed(st'.modules, next)
  {
    hide Good, Linking, LibLinking, Addressed, MembersIn, LinkedOnto, Patched, Family, FlatLibraries;
    SearchEnds(s0, st, lib, news, at, members, next);
    LibraryIsLinked(s0, st, lib, news);
    PatchedLinksOnto(s0, st, news);
    PatchedMembers(st, lib, news, at, members);
    AddressedPatched(st.modules, next);
  }

  lemma LibraryIsEmpty(s0: State, st: State, lib: nat, news: set<nat>, at: map<nat, nat>, members: map<nat, seq<NList>>, next: nat)
    requires Searching(s0, st, lib, news, at, members, next) && Addressed(s0.modules, lib) && lib < next
    requires at == map[] ==> st == WithModule(s0, lib, NewLibrary)
    ensures (forall m :: m in st.modules ==> st.modules[m].superfile != Some(lib)) <==> news == {lib}
    ensures news == {lib} <==> at == map[]
    ensures news == {lib} ==> st.(modules := st.modules - {lib}) == s0 && Addressed(s0.modules, next)
  {
    hide Linking, LibLinking, Family, FlatLibraries, MemberIs;
    CountModules(s0, st, lib, news);
    AddressedMore(s0.modules, lib, NewLibrary);
    AddressedFewer(s0.modules, lib, next);
    assert |{lib}| == 1;
    if news == {lib} {
      assert |at| == 0;
      assert st.modules - {lib} == s0.modules;
    }
  }

  class Linker {
    var symtab: Table
    var modules: Modules
    var undefinedSyms: int // dld_undefined_sym_count
    var nextId: nat        // the address of the next file_entry
    ghost var pending: Pending

    function St(): State
      reads this
    {
      State(symtab, modules, undefinedSyms)
    }

    /** _dld_enter_global_ref; `ok` is false when it calls fatal (DLD_EMULTDEFS). */
    method EnterGlobalRef(e: nat, p: NList) returns (ok: bool)
      requires e in modules && CallersKnown(modules, e) && ReferrersOf(symtab, p.name) <= modules.Keys
      modifies this`symtab, this`modules, this`undefinedSyms
      ensures ok <==> !(p.sort.Initialised? && p.name in old(symtab) && old(symtab)[p.name].definedBy.Some?)
      ensures St() == if ok then Entered(old(St()), p, e) else old(St())
    {
      var olddef := p.name in symtab && symtab[p.name].definedBy.Some?;
      if p.sort.Initialised? || (p.sort.Common? && !olddef) {
        if olddef { return false; }
        EnterDefinition(e, p.name);
      } else {
        EnterReference(e, p.name);
      }
      return true;
    }

    /** The first branch: a definition of a symbol. */
    method EnterDefinition(e: nat, name: Name)
      requires e in modules && CallersKnown(modules, e) && ReferrersOf(symtab, name) <= modules.Keys
      requires DefinerOf(symtab, name).None?
      modifies this`symtab, this`modules, this`undefinedSyms
      ensures St() == Defined(old(St()), name, e)
    {
      hide DefineIn;
      ghost var ms := modules;
      var oldref := name in symtab;
      var sp := if oldref then symtab[name] else Symbol(None, {});
      symtab := symtab[name := sp.(definedBy := Some(e))];
      DefineInNothing(ms, e);
      if oldref {
        undefinedSyms := undefinedSyms - 1;
        var chain := sp.referencedBy;
        ghost var done := {};
        while chain != {}
          invariant chain <= sp.referencedBy && done == sp.referencedBy - chain
          invariant modules == DefineIn(ms, done, e)
          invariant symtab == old(symtab)[name := sp.(definedBy := Some(e))] && undefinedSyms == old(undefinedSyms) - 1
          decreases chain
        {
          var q :| q in chain;
          DefineInKeepsFiles(ms, done, e);
          LinkChain(q, e);
          chain := chain - {q};
          LinkedAll(ms, done, q, e, modules);
          done := done + {q};
        }
        assert done == sp.referencedBy;
      }
    }

    /** The second branch: just a reference. */
    method EnterReference(e: nat, name: Name)
      requires e in modules
      modifies this`symtab, this`modules, this`undefinedSyms
      ensures St() == Referred(old(St()), name, e)
    {
      hide ReferIn, AfterReference;
      var oldref := name in symtab;
      var sp := if oldref then symtab[name] else Symbol(None, {});
      ReferInIs(modules, sp.definedBy, e !in sp.referencedBy, e);
      if sp.definedBy.Some? {
        var d := sp.definedBy.value;
        if d !in modules[e].refs {
          modules := modules[e := modules[e].(refs := modules[e].refs + {d})];
          if e != d && d in modules {
            modules := modules[d := modules[d].(refCount := modules[d].refCount + 1)];
          }
        }
      } else if e !in sp.referencedBy {
        modules := modules[e := modules[e].(undefinedCount := modules[e].undefinedCount + 1)];
      }
      assert {} + {e} == {e};
      symtab := symtab[name := sp.(referencedBy := sp.referencedBy + {e})];
      if !oldref { undefinedSyms := undefinedSyms + 1; }
    }

    /** One round of the loop over the modules that refer to a symbol. */
    method LinkChain(q: nat, e: nat)
      requires q in modules && e in modules
      modifies this`modules
      ensures modules.Keys == old(modules).Keys
      ensures forall m :: m in modules ==> modules[m] == LinkCaller(old(modules), q, e, m)
    {
      ghost var ms := modules;
      if e !in modules[q].refs {
        modules := modules[q := modules[q].(refs := modules[q].refs + {e})];
        if q !in modules[e].refsBy {
          modules := modules[e := modules[e].(refsBy := modules[e].refsBy + {q})];
          if q != e {
            modules := modules[e := modules[e].(refCount := modules[e].refCount + 1)];
          }
        }
      }
      modules := modules[q := modules[q].(undefinedCount := modules[q].undefinedCount - 1)];
      LinkedOne(ms, modules, q, e);
    }

    // ---- unlinking ----

    /** The count of a module becomes zero, and those of its members if it is a library. */
    method ZeroCounts(e: nat)
      requires e in modules
      modifies this`modules
      ensures modules == Zeroed(old(modules), Family(old(modules), e))
    {
      ghost var ms, z := modules, Family(modules, e);
      var todo := Family(modules, e);
      while todo != {}
        invariant todo <= z && modules == Zeroed(ms, z - todo)
        decreases todo
      {
        var m :| m in todo;
        modules := modules[m := modules[m].(refCount := 0)];
        todo := todo - {m};
      }
      assert z - {} == z;
    }

    /** Nobody refers to `e` or its members any more. */
    method RemoveCrossReferences(e: nat)
      requires e in modules
      modifies this`modules
      ensures modules == Uncrossed(old(modules), Family(old(modules), e))
    {
      ghost var ms := modules;
      var z := Family(modules, e);
      var todo := modules.Keys;
      while todo != {}
        invariant todo <= ms.Keys && modules.Keys == ms.Keys
        invariant forall m :: m in ms ==> modules[m] == if m in todo then ms[m] else ms[m].(refs := ms[m].refs - z)
        decreases todo
      {
        var m :| m in todo;
        modules := modules[m := modules[m].(refs := modules[m].refs - z)];
        todo := todo - {m};
      }
    }

    /** Clear up all modules that become obsolete when `e`, whose count is zero, is removed. */
    method CleanupObsoleteEntries(e: nat, ghost share: map<nat, int>, ghost keep: set<nat>)
      requires e in modules && Balanced(modules, pending, share) && Held(pending, share, keep)
      requires FlatLibraries(modules)
      modifies this`modules, this`pending
      ensures Balanced(modules, pending, share) && Held(pending, share, keep)
      ensures Cascaded(old(modules), old(pending), modules, pending)
      ensures forall m :: m in Family(old(modules), e) && old(modules)[e].refCount == 0 && old(modules)[m].refCount == 0 ==>
                modules[m].refs == {}
      decreases Unspent(modules), if modules[e].library then 2 else 1
    {
      hide Balanced, Held;
      ghost var ms, v := modules, pending;
      BalancedKeys(modules, pending, share);
      CascadedNothing(ms, v);
      if modules[e].refCount != 0 { return; }
      if modules[e].library {
        var subentries := Family(modules, e) - {e};
        while subentries != {}
          invariant subentries <= Family(ms, e) - {e}
          invariant Balanced(modules, pending, share) && Held(pending, share, keep)
          invariant Cascaded(ms, v, modules, pending)
          invariant forall m :: m in Family(ms, e) - {e} - subentries && ms[m].refCount == 0 ==> modules[m].refs == {}
          decreases subentries
        {
          var m :| m in subentries;
          ghost var ms1, v1 := modules, pending;
          UnspentShrinks(ms, v, ms1, v1);
          FlatStays(ms, v, ms1, v1);
          CleanupObsoleteEntries(m, share, keep);
          CascadedTwice(ms, v, ms1, v1, modules, pending);
          subentries := subentries - {m};
        }
      }
      ghost var ms1, v1 := modules, pending;
      UnspentShrinks(ms, v, ms1, v1);
      FlatStays(ms, v, ms1, v1);
      GiveBack(e, share, keep);
      CascadedTwice(ms, v, ms1, v1, modules, pending);
    }

    /** The references of a module are taken away and given back one by one. */
    method GiveBack(e: nat, ghost share: map<nat, int>, ghost keep: set<nat>)
      requires e in modules && modules[e].refCount == 0 && Balanced(modules, pending, share) && Held(pending, share, keep)
      requires FlatLibraries(modules)
      modifies this`modules, this`pending
      ensures Balanced(modules, pending, share) && Held(pending, share, keep)
      ensures Cascaded(old(modules), old(pending), modules, pending) && modules[e].refs == {}
      decreases Unspent(modules), 0
    {
      hide Fell, Held, Balanced, Unspent, Cascaded, FlatLibraries;
      ghost var ms, v := modules, pending;
      var p := modules[e].refs;
      BalancedKeys(ms, v, share);
      CascadedNothing(ms, v);
      if p == {} { return; }
      modules := modules[e := modules[e].(refs := {})];
      SpendingKeepsBalance(ms, v, share, e);
      while p != {}
        invariant CascadedBut(ms, v, modules, pending, e, p)
        invariant Balanced(modules, pending, share) && Held(pending, share, keep)
        decreases p
      {
        var t :| t in p;
        ghost var ms1, v1 := modules, pending;
        ReleaseKeepsBalance(ms1, v1, share, e, t);
        HeldAreAlive(ms1, v1, share, keep);
        ReleaseKeepsHeld(v1, share, keep, e, t);
        pending := pending[e := pending[e] - {t}];
        if modules[t].refCount != 0 {
          modules := modules[t := modules[t].(refCount := modules[t].refCount - 1)];
        }
        ghost var ms2, v2 := modules, pending;
        CascadedNothing(ms2, v2);
        if modules[t].refCount == 0 {
          UnspentShrinksBut(ms, v, ms1, v1, e, p);
          UnspentReleased(ms1, t);
          FlatStaysBut(ms, v, ms1, v1, e, p);
          CleanupObsoleteEntries(t, share, keep);
        }
        CascadedReleased(ms, v, ms1, v1, e, p, t, ms2, modules, pending);
        p := p - {t};
      }
      CascadedAll(ms, v, modules, pending, e);
    }

    /** The inner loop of cleanup_symtab: dead modules are taken off the list, and
        the others need one symbol more if its definer is dead. */
    method CleanReferences(chain: set<nat>, obsolete: bool) returns (left: set<nat>)
      requires chain <= modules.Keys
      modifies this`modules
      ensures left == chain - DeadIn(old(modules))
      ensures modules == Bumped(old(modules), if obsolete then left else {})
    {
      ghost var ms := modules;
      left := chain;
      var todo := chain;
      while todo != {}
        invariant todo <= chain && left == chain - (DeadIn(ms) - todo)
        invariant modules.Keys == ms.Keys
        invariant forall m :: m in ms ==>
          modules[m] == if obsolete && m in left - todo then ms[m].(undefinedCount := ms[m].undefinedCount + 1) else ms[m]
        decreases todo
      {
        var p :| p in todo;
        if modules[p].refCount == 0 {
          left := left - {p};
        } else if obsolete {
          modules := modules[p := modules[p].(undefinedCount := modules[p].undefinedCount + 1)];
        }
        todo := todo - {p};
      }
    }

    /** One round of the loop over the symbols in cleanup_symtab. */
    method CleanSymbol(s: Name)
      requires s in symtab && symtab[s].referencedBy <= modules.Keys
      requires symtab[s].definedBy.Some? ==> symtab[s].definedBy.value in modules
      requires symtab[s].definedBy.None? ==> symtab[s].referencedBy != {}
      modifies this`symtab, this`modules, this`undefinedSyms
      ensures symtab == Clean(old(symtab), s, DeadIn(old(modules)))
      ensures modules == Bumped(old(modules), BumpedBy(old(symtab)[s], DeadIn(old(modules))))
      ensures undefinedSyms == old(undefinedSyms)
        + Step(Obsolete(old(symtab)[s], DeadIn(old(modules))) && old(symtab)[s].referencedBy - DeadIn(old(modules)) != {})
        - Step(old(symtab)[s].definedBy.None? && old(symtab)[s].referencedBy - DeadIn(old(modules)) == {})
    {
      var sp := symtab[s];
      var obsolete := sp.definedBy.Some? && modules[sp.definedBy.value].refCount == 0;
      var left := CleanReferences(sp.referencedBy, obsolete);
      sp := sp.(referencedBy := left);
      if obsolete {
        if left == {} {
          symtab := symtab - {s};
          return;
        }
        undefinedSyms := undefinedSyms + 1;
        sp := sp.(definedBy := None);
      }
      if sp.definedBy.None? && left == {} {
        undefinedSyms := undefinedSyms - 1;
        symtab := symtab - {s};
        return;
      }
      symtab := symtab[s := sp];
    }

    /** Sweeps the symbol table: what only dead modules defined or referred to goes. */
    method CleanupSymtab()
      requires TableOk(symtab, modules.Keys) && undefinedSyms == |UndefinedNames(symtab)| && NeedsCounted(symtab, modules)
      modifies this`symtab, this`modules, this`undefinedSyms
      ensures symtab == Purge(old(symtab), DeadIn(old(modules))) && undefinedSyms == |UndefinedNames(symtab)|
      ensures OnlyNeedsDiffer(old(modules), modules) && NeedsCounted(symtab, modules)
    {
      hide Clean, Purge, UndefinedNames, NeedsCounted, OnlyNeedsDiffer, PartlyPurged, Bumped, BumpedBy, Obsolete;
      ghost var t, ms, dead := symtab, modules, DeadIn(modules);
      var todo := symtab.Keys;
      PurgeAll(t, dead);
      NothingDiffers(ms);
      while todo != {}
        invariant todo <= t.Keys && symtab == PartlyPurged(t, dead, todo)
        invariant undefinedSyms == |UndefinedNames(symtab)|
        invariant OnlyNeedsDiffer(ms, modules) && NeedsCounted(symtab, modules) && DeadIn(modules) == dead
        decreases todo
      {
        var s :| s in todo;
        ghost var t1, ms1 := symtab, modules;
        UnsweptSymbol(t, dead, todo, s);
        OnlyNeedsDifferKeys(ms, ms1);
        CleanSymbol(s);
        PurgeOneMore(t, dead, todo, s);
        BumpedKeepsCounts(t1, s, ms1);
        OnlyNeedsDifferTwice(ms, ms1, modules);
        CleanNames(t1, s, dead);
        todo := todo - {s};
      }
    }

    /** The common part of clean_up and _dld_unlink_entry, once the counts of `e` and its members are
        zero; `st0` is the state before that. */
    method TakeDown(e: nat, ghost st0: State, ghost keep: set<nat>)
      requires Consistent(st0) && FlatLibraries(st0.modules) && e in st0.modules
      requires St() == st0.(modules := Zeroed(st0.modules, Family(st0.modules, e)))
      requires forall m :: m in st0.modules && m !in Family(st0.modules, e) ==> st0.modules[m].refCount != 0
      requires var z := Family(st0.modules, e);
        Held(RefsMap(Uncrossed(Zeroed(st0.modules, z), z)), Shares(st0.modules, z), keep)
      modifies this`symtab, this`modules, this`undefinedSyms, this`pending
      ensures Swept(st0, St(), Family(st0.modules, e), DeadIn(modules))
      ensures forall m :: m in keep ==> m in modules && modules[m].refCount >= 1
    {
      hide Swept, Balanced, Held, Cascaded, CascadeDone, Consistent;
      ghost var z := Family(st0.modules, e);
      FamilyStays(st0.modules, e, z);
      RemoveCrossReferences(e);
      ghost var ms1 := modules;
      pending := RefsMap(modules);
      UncrossedBalanced(st0, z);
      CleanupObsoleteEntries(e, Shares(st0.modules, z), keep);
      CascadeIsDone(st0, z, modules, pending);
      HeldAreAlive(modules, pending, Shares(st0.modules, z), keep);
      ghost var ms2 := modules;
      NeedsAreCounted(st0, z, modules);
      CountsBeforeSweep(st0);
      CleanupSymtab();
      SweptAfterCascade(st0, z, ms2, St());
      OnlyNeedsDifferCounts(ms2, modules);
    }

    /** Takes back all that the failed link of `e` has done. */
    method CleanUp(e: nat, ghost s0: State, ghost news: set<nat>)
      requires Good(s0) && Linking(s0, St(), news) && e in news && FlatLibraries(modules)
      requires news == Family(modules, e)
      modifies this`symtab, this`modules, this`undefinedSyms, this`pending
      ensures St() == s0
    {
      hide Linking, Consistent, Swept;
      ghost var st := St();
      LinkingKeys(s0, st, news);
      forall m | m in modules && m !in news ensures modules[m].refCount != 0 {
        OldModulesAlive(s0, st, news, m);
      }
      OldModulesHeld(s0, st, news);
      ZeroCounts(e);
      TakeDown(e, st, s0.modules.Keys);
      OnlyNewsDead(s0, st, news, St());
      RollbackRestores(s0, st, news, St());
      FamilyOf(st, St(), news, e);
      modules := Without(modules, Family(modules, e)); // kill_entry
    }

    /** do_unlink for the members of every library. */
    method FreeMembers()
      modifies this`modules
      ensures modules == Without(old(modules), DeadMembers(old(modules)))
    {
      ghost var ms := modules;
      var todo := set m | m in modules && modules[m].superfile.Some?;
      while todo != {}
        invariant modules == Without(ms, DeadMembers(ms) - todo)
        invariant forall m :: m in todo ==> m in ms && ms[m].superfile.Some?
        decreases todo
      {
        var m :| m in todo;
        if modules[m].refCount == 0 {
          modules := modules - {m};
        }
        todo := todo - {m};
      }
      assert DeadMembers(ms) - {} == DeadMembers(ms);
    }

    method FreeFiles()
      requires WellLinked(modules) && DeadMembers(modules) == {}
      modifies this`modules
      ensures modules == Without(old(modules), Gone(old(modules)))
    {
      ghost var ms := modules;
      var todo := set m | m in modules && modules[m].superfile.None?;
      FilesGone(ms);
      while todo != {}
        invariant modules == Without(ms, Gone(ms) - todo)
        invariant forall m :: m in todo ==> m in ms && ms[m].superfile.None?
        decreases todo
      {
        var m :| m in todo;
        ghost var ms1 := modules;
        var empty := modules[m].library && forall k :: k in modules ==> modules[k].superfile != Some(m);
        EmptyIsGone(ms, ms1, todo, m);
        if modules[m].refCount == 0 || empty {
          modules := modules - {m};
        }
        todo := todo - {m};
      }
      assert Gone(ms) - {} == Gone(ms);
    }

    /** Free the modules whose count is zero, and the libraries that have lost all their members. */
    method DoUnlink()
      requires WellLinked(modules) && MembersDieWith(modules)
      modifies this`modules
      ensures modules == Without(old(modules), Gone(old(modules)))
    {
      ghost var ms := modules;
      FreeMembers();
      GoneAfterMembers(ms);
      FreeFiles();
    }

    /** Which modules have become resolved, or are no longer. */
    method PatchAllFiles()
      modifies this`modules
      ensures modules == Patched(old(modules))
    {
      ghost var ms := modules;
      var todo := modules.Keys;
      while todo != {}
        invariant todo <= ms.Keys && modules.Keys == ms.Keys
        invariant forall m :: m in ms ==> modules[m] == if m in todo then ms[m] else Patched(ms)[m]
        decreases todo
      {
        var m :| m in todo;
        if !modules[m].library {
          if !modules[m].resolved && modules[m].undefinedCount == 0 {
            modules := modules[m := modules[m].(resolved := true)];
          } else if modules[m].resolved && modules[m].undefinedCount != 0 {
            modules := modules[m := modules[m].(resolved := false)];
          }
        }
        todo := todo - {m};
      }
    }

    /** Take down `e` and whatever depends on its needs, when its count is zero or made so. */
    method TakeDownGood(e: nat, force: bool, ghost st: State, ghost st1: State)
      requires Good(st) && BeforeTakeDown(st, st1, e, force) && Consistent(st1)
      requires St() == st1.(modules := Zeroed(st1.modules, Family(st1.modules, e)))
      modifies this`symtab, this`modules, this`undefinedSyms, this`pending
      ensures var z := Family(st.modules, e); Swept(st1, St(), z, DeadIn(modules)) && DeadIn(modules) == Doomed(st.modules, z)
      ensures WellLinked(modules) && MembersDieWith(modules)
    {
      hide Consistent, Swept, Held, BeforeTakeDown, Doomed;
      ghost var z := Family(st.modules, e);
      BeforeIsLinked(st, st1, e, force);
      SameDoomed(st, st1, e, force);
      SurvivorsHold(st1, z);
      TakeDown(e, st1, st1.modules.Keys - Doomed(st1.modules, z));
      DeadAreDoomed(st1, St(), z);
      SweptIsLinked(st1, St(), z);
    }

    /** _dld_unlink_entry: unlink `e` and all that depended on its need for them.  A soft unlink only
        gives up the user's hold; a forced one removes the module whoever still refers to it. */
    method UnlinkEntry(e: nat, force: bool)
      requires Good(St()) && e in modules
      modifies this`symtab, this`modules, this`undefinedSyms, this`pending
      ensures Good(St()) && Unlinked(old(St()), St(), e, force)
      ensures !force && (old(modules)[e].library || old(modules)[e].alreadyUnlink) ==> St() == old(St())
    {
      hide Good, Unlinked, Swept, Consistent, BeforeTakeDown, Settled, Doomed, Removes;
      ghost var st := St();
      if force {
        ZeroCounts(e);
        BeforeAtOnce(st, e);
        TakeDownGood(e, true, st, st);
        FinishUnlink(e, true, st, st);
      } else {
        if modules[e].library || modules[e].alreadyUnlink {
          NothingUnlinked(st, e);
          return;
        }
        modules := modules[e := modules[e].(refCount := modules[e].refCount - 1, alreadyUnlink := true)];
        ghost var st1 := St();
        BeforeAfterUnshare(st, e);
        if modules[e].refCount == 0 {
          TakeDownGood(e, false, st, st1);
          FinishUnlink(e, false, st, st1);
        } else {
          PatchAllFiles();
          UnsharedIsGood(st, e);
        }
      }
    }

    method FinishUnlink(e: nat, force: bool, ghost st: State, ghost st1: State)
      requires Good(st) && BeforeTakeDown(st, st1, e, force) && Consistent(st1) && Removes(st, e, force)
      requires Swept(st1, St(), Family(st.modules, e), DeadIn(modules)) && WellLinked(modules) && MembersDieWith(modules)
      requires DeadIn(modules) == Doomed(st.modules, Family(st.modules, e))
      modifies this`modules
      ensures Good(St()) && Unlinked(st, St(), e, force)
    {
      hide Unlinked, Swept, Consistent, BeforeTakeDown, Settled, Doomed, Removes;
      ghost var st2 := St();
      DoUnlink();
      PatchAllFiles();
      FinishedUnlink(st, st1, st2, e, force);
    }

    // ---- linking ----

    /** Enter the external symbol definitions and references of `e` in the table; stops at a clash. */
    method EnterFileSymbols(e: nat, syms: seq<NList>, ghost s0: State, ghost news: set<nat>) returns (ok: bool)
      requires Linking(s0, St(), news) && e in news && e in Files(modules)
      modifies this`symtab, this`modules, this`undefinedSyms
      ensures (St(), ok) == EnterAll(old(St()), syms, e)
      ensures ok <==> !MultiplyDefined(old(symtab), syms)
    {
      hide Linking, Entered, MultiplyDefined;
      ghost var st := St();
      FailsIffMultiplyDefined(st, syms, e);
      for k := 0 to |syms|
        invariant Linking(s0, St(), news) && e in Files(modules)
        invariant EnterAll(st, syms, e) == EnterAll(St(), syms[k..], e)
      {
        assert syms[k..][0] == syms[k] && syms[k..][1..] == syms[k + 1..];
        ReferrersKnown(s0, St(), news, e, syms[k].name);
        ghost var st1 := St();
        ok := EnterGlobalRef(e, syms[k]);
        if !ok { return; }
        EnteredKeepsLinking(s0, st1, news, syms[k], e);
      }
      ok := true;
    }

    /** dld_link for an object file.  When a symbol is defined twice, or the file cannot be read to its end, nothing
        at all has changed. */
    method LinkObject(file: File) returns (ok: bool)
      requires Good(St()) && Addressed(modules, nextId)
      modifies this
      ensures Good(St()) && Addressed(modules, nextId) && nextId > old(nextId)
      ensures match file.symbols
        case None => !ok && St() == old(St())
        case Some(syms) =>
          var (st, linked) := EnterAll(WithModule(old(St()), old(nextId), NewFile), syms, old(nextId));
          && ok == (linked && file.complete)
          && St() == if ok then st.(modules := Patched(st.modules)) else old(St())
      ensures ok <==> file.symbols.Some? && file.complete && !MultiplyDefined(old(symtab), file.symbols.value)
    {
      hide Linking, Good, Consistent, Patched;
      ghost var s0 := St();
      var id := nextId;
      nextId := nextId + 1;
      modules := modules[id := NewFile];
      if file.symbols.None? {
        ObjectUnread(s0, id);
        CleanUp(id, s0, {id});
        return false;
      }
      ObjectStarts(s0, id);
      ObjectIsLinked(s0, id, file.symbols.value);
      ok := EnterFileSymbols(id, file.symbols.value, s0, {id});
      if !file.complete { ok := false; }
      if ok {
        PatchAllFiles();
        PatchedKeys(EnterAll(WithModule(s0, id, NewFile), file.symbols.value, id).0.modules);
      } else {
        CleanUp(id, s0, {id});
      }
    }

    /** Whether one of these symbols of a member is waited for. */
    method SubfileWanted(syms: seq<NList>) returns (wanted: bool)
      ensures wanted == Wanted(symtab, syms)
    {
      for k := 0 to |syms|
        invariant forall j :: 0 <= j < k ==> syms[j].sort.Reference? || !NeededName(symtab, syms[j].name)
      {
        if !syms[k].sort.Reference? {
          if syms[k].name in symtab && symtab[syms[k].name].definedBy.None? { return true; }
        }
      }
      return false;
    }

    /** The symbols of a member are entered, and its text and data read. */
    method LoadMember(lib: nat, syms: seq<NList>, complete: bool, ghost s0: State, ghost news: set<nat>) returns (ok: bool)
      requires LibLinking(s0, St(), lib, news) && Addressed(modules, nextId) && Wanted(symtab, syms)
      modifies this
      ensures var (st, linked) := EnterAll(WithModule(old(St()), old(nextId), NewMember(lib)), syms, old(nextId));
        St() == st && ok == (linked && complete)
      ensures ok <==> complete && !MultiplyDefined(old(symtab), syms)
      ensures nextId == old(nextId) + 1 && Addressed(modules, nextId) && old(nextId) !in news
      ensures Linking(s0, St(), news + {old(nextId)}) && Family(modules, lib) == news + {old(nextId)} && FlatLibraries(modules)
      ensures ok ==> LibLinking(s0, St(), lib, news + {old(nextId)})
    {
      hide Linking, EnterAll, Consistent;
      var id := nextId;
      MemberStarts(s0, St(), lib, news, id);
      MemberEntered(s0, St(), lib, news, id, syms);
      nextId := nextId + 1;
      modules := modules[id := NewMember(lib)];
      ok := EnterFileSymbols(id, syms, s0, news + {id});
      if !complete { ok := false; }
    }

    /** The wanted member at `offset` is loaded. */
    method TakeMember(
        lib: nat, offset: nat, files: map<nat, File>,
        ghost members: map<nat, seq<NList>>, ghost s0: State, ghost news: set<nat>, ghost at: map<nat, nat>)
      returns (ok: bool)
      requires Searching(s0, St(), lib, news, at, members, nextId)
      requires members == Readable(files) && offset in members && offset !in at && Wanted(symtab, members[offset])
      modifies this
      ensures nextId == old(nextId) + 1 && Addressed(modules, nextId) && lib in news
      ensures Linking(s0, St(), news + {old(nextId)}) && Family(modules, lib) == news + {old(nextId)} && FlatLibraries(modules)
      ensures ok ==> Searching(s0, St(), lib, news + {old(nextId)}, at[offset := old(nextId)], members, nextId)
      ensures var (st, linked) := EnterAll(WithModule(old(St()), old(nextId), NewMember(lib)), members[offset], old(nextId));
        St() == st && ok == (linked && files[offset].complete)
    {
      hide Linking, LibLinking, MembersIn, EnterAll, Consistent, Wanted, Addressed, Family, FlatLibraries;
      ghost var id, st := nextId, St();
      LoadStarts(s0, st, lib, news, id);
      ok := LoadMember(lib, files[offset].symbols.value, files[offset].complete, s0, news);
      if ok { MembersMore(st, lib, news, at, members, offset, id); }
    }

    /** The search of a library by its directory.  It always terminates; `at` gives the modules of the members that have
        been loaded.  With an accurate directory no symbol that the directory lists is left undefined. */
    method SymdefLibrary(lib: nat, dir0: seq<Symdef>, files: map<nat, File>, ghost s0: State)
      returns (ok: bool, ghost news: set<nat>, ghost at: map<nat, nat>)
      requires LibLinking(s0, St(), lib, {lib}) && Addressed(modules, nextId)
      modifies this
      ensures Linking(s0, St(), news) && news == Family(modules, lib) && lib in news
      ensures FlatLibraries(modules) && Addressed(modules, nextId)
      ensures ok ==> LibLinking(s0, St(), lib, news) && MembersIn(St(), lib, news, at, Readable(files))
      ensures ok && Accurate(dir0, Readable(files)) ==> undefinedSyms == 0 || Exhausted(symtab, dir0)
      ensures ok && at == map[] ==> St() == old(St())
      ensures nextId >= old(nextId)
      ensures Linkable(old(symtab), dir0, files) ==> ok
    {
      hide Linkable, DefinedFrom, Linking, LibLinking, Live, Wanted, Addressed, WellLinked, EnterAll, Family, FlatLibraries, MembersIn, Consistent, Accurate, Searching;
      ghost var members := Readable(files);
      news, at := {lib}, map[];
      SearchStarts(s0, St(), lib, members, nextId);
      NothingLoaded(symtab, at.Keys, members);
      var dir, prevOffset, notFinished := dir0, 0, true;
      while notFinished
        invariant Searching(s0, St(), lib, news, at, members, nextId)
        invariant dir == Cleared(dir0, at.Keys) && (at == map[] ==> St() == old(St())) && nextId >= old(nextId)
        invariant DefinedFrom(old(symtab), symtab, at.Keys, members)
        invariant Accurate(dir0, members) ==> prevOffset == 0 || prevOffset in at
        invariant !notFinished && Accurate(dir0, members) ==> undefinedSyms == 0 || Exhausted(symtab, dir)
        decreases Live(dir), if notFinished then 1 else 0
      {
        notFinished := false;
        ghost var dir1 := dir;
        var i := 0;
        while i < |dir| && undefinedSyms != 0
          invariant Searching(s0, St(), lib, news, at, members, nextId)
          invariant 0 <= i <= |dir| && dir == Cleared(dir0, at.Keys) && (at == map[] ==> St() == old(St())) && nextId >= old(nextId)
          invariant DefinedFrom(old(symtab), symtab, at.Keys, members)
          invariant Accurate(dir0, members) ==> prevOffset == 0 || prevOffset in at
          invariant if notFinished then Live(dir) < Live(dir1) else Live(dir) == Live(dir1)
          invariant !notFinished && Accurate(dir0, members) ==>
            forall j :: 0 <= j < i && dir[j].name.Some? ==> !NeededName(symtab, dir[j].name.value)
          decreases |dir| - i
        {
          if dir[i].name.Some? {
            var name := dir[i].name.value;
            ListedElsewhere(dir0, members, at.Keys, i);
            if name in symtab && symtab[name].definedBy.None? && prevOffset != dir[i].offset {
              var offset := dir[i].offset;
              prevOffset := offset;
              ListedIsUnblamed(old(symtab), dir0, files, at.Keys, i);
              if offset !in files || files[offset].symbols.None? {
                SearchEnds(s0, St(), lib, news, at, members, nextId);
                ok := false;
                return;
              }
              var wanted := SubfileWanted(files[offset].symbols.value);
              if wanted {
                notFinished := true;
                ClearedMore(dir0, at.Keys, i);
                KeysMore(at, offset, nextId);
                ghost var id, st := nextId, St();
                ok := TakeMember(lib, offset, files, members, s0, news, at);
                MemberTaken(old(symtab), st, id, NewMember(lib), at, files, offset);
                news, at := news + {id}, at[offset := id];
                if !ok { return; }
                dir := ClearOffset(dir, offset);
                assert dir == Cleared(dir0, at.Keys);
              } else {
                ListedIsWanted(symtab, dir0, members, at.Keys, i);
              }
            }
          }
          i := i + 1;
        }
      }
      ok := true;
      SearchEnds(s0, St(), lib, news, at, members, nextId);
      if Accurate(dir0, members) && Exhausted(symtab, dir) {
        AllExhausted(St(), lib, news, at, dir0, members);
      }
    }

    /** All directory entries of a member that has been loaded are marked as used. */
    method ClearOffset(dir0: seq<Symdef>, offset: nat) returns (dir: seq<Symdef>)
      ensures dir == Cleared(dir0, {offset})
    {
      dir := dir0;
      for j := 0 to |dir0|
        invariant |dir| == |dir0|
        invariant forall k :: 0 <= k < |dir| ==> dir[k] == if k < j then Cleared(dir0, {offset})[k] else dir0[k]
      {
        if dir[j].offset == offset { dir := dir[j := Symdef(None, offset)]; }
      }
    }

    /** After a library has been searched: without members it is dropped again. */
    method FinishLibrary(lib: nat, ghost s0: State, ghost news: set<nat>, ghost at: map<nat, nat>, ghost members: map<nat, seq<NList>>)
      requires Good(s0) && Searching(s0, St(), lib, news, at, members, nextId) && Addressed(s0.modules, lib) && lib < nextId
      requires at == map[] ==> St() == WithModule(s0, lib, NewLibrary)
      modifies this`modules
      ensures Good(St()) && Addressed(modules, nextId)
      ensures if at == map[] then St() == s0 else LinkedOnto(s0, St(), news) && MembersIn(St(), lib, news, at, members)
    {
      hide Good, Searching, Addressed, MembersIn, LinkedOnto, Patched;
      LibraryIsEmpty(s0, St(), lib, news, at, members, nextId);
      if forall m :: m in modules ==> modules[m].superfile != Some(lib) {
        modules := modules - {lib};
      } else {
        LibraryIsFinished(s0, St(), lib, news, at, members, nextId);
        PatchAllFiles();
      }
    }

    /** dld_link for a library with a directory: `at` gives the modules of the members that have been
        loaded.  Either nothing has changed, or the library and these members have been added. */
    method LinkLibrary(dir: seq<Symdef>, files: map<nat, File>) returns (ok: bool, ghost at: map<nat, nat>)
      requires Good(St()) && Addressed(modules, nextId)
      modifies this
      ensures Good(St()) && Addressed(modules, nextId) && nextId > old(nextId)
      ensures !ok || at == map[] ==> St() == old(St())
      ensures ok && at != map[] ==>
        var lib := old(nextId);
        && LinkedOnto(old(St()), St(), {lib} + at.Values)
        && MembersIn(St(), lib, {lib} + at.Values, at, Readable(files))
      ensures ok && Accurate(dir, Readable(files)) ==> undefinedSyms == 0 || Exhausted(symtab, dir)
      ensures Linkable(old(symtab), dir, files) ==> ok
    {
      hide Linkable, Linking, Good, Consistent, LibLinking, Exhausted, Addressed, Accurate, Patched, Family, FlatLibraries, Cleared, MemberIs, LinkedOnto;
      ghost var members := Readable(files);
      ghost var s0 := St();
      var lib := nextId;
      LibraryStarts(s0, lib);
      AddressedMore(modules, lib, NewLibrary);
      nextId := nextId + 1;
      modules := modules[lib := NewLibrary];
      ghost var news;
      if undefinedSyms == 0 {
        news, at, ok := {lib}, map[], true;
        SearchStarts(s0, St(), lib, members, nextId);
      } else {
        ok, news, at := SymdefLibrary(lib, dir, files, s0);
      }
      if !ok {
        CleanUp(lib, s0, news);
        AddressedFewer(s0.modules, lib, nextId);
        return;
      }
      FinishLibrary(lib, s0, news, at, members);
    }

    constructor ()
      ensures St() == Nothing && nextId == 0
    {
      symtab, modules, undefinedSyms, nextId, pending := map[], map[], 0, 0, map[];
    }

    /** dld_init: enter the symbols of the running program, and take it to be resolved. */
    method InitProgram(syms: seq<NList>) returns (ok: bool)
      requires St() == Nothing && nextId == 0
      modifies this
      ensures var (st, linked) := EnterAll(WithModule(Nothing, 0, NewFile), syms, 0);
        ok == linked && St() == if linked then Declared(st, 0) else Nothing
      ensures ok <==> !MultiplyDefined(map[], syms)
      ensures Good(St()) && Addressed(modules, nextId) && nextId == 1
    {
      hide Linking, Good, Consistent, Declared;
      NothingIsGood();
      ObjectStarts(Nothing, 0);
      ObjectIsLinked(Nothing, 0, syms);
      nextId := 1;
      modules := modules[0 := NewFile];
      ok := EnterFileSymbols(0, syms, Nothing, {0});
      if ok {
        ProgramIsGood(syms);
        DeclaredState(St(), 0);
        modules := modules[0 := DeclaredModule(modules[0])];
      } else {
        CleanUp(0, Nothing, {0});
      }
    }

    /** One call of the library. */
    method Perform(c: Command, ghost k: int)
      requires Good(St()) && Addressed(modules, nextId) && OnlyProgramWaived(modules, k) && nextId > 0
      modifies this
      ensures Good(St()) && Addressed(modules, nextId) && OnlyProgramWaived(modules, k) && nextId > 0
    {
      hide Good, Unlinked, LinkedOnto, MembersIn, OnlyProgramWaived, EnterAll;
      ghost var st, lib := St(), nextId;
      match c
      case LinkFile(file) =>
        var ok := LinkObject(file);
        if ok { ObjectWaives(st, lib, file.symbols.value, k); }
      case LinkArchive(dir, files) =>
        var ok, at := LinkLibrary(dir, files);
        if ok && at != map[] { LibraryWaives(st, St(), lib, {lib} + at.Values, at, Readable(files), k); }
      case Unlink(e, force) =>
        if e in modules {
          UnlinkEntry(e, force);
          UnlinkAddressed(st, St(), e, force, nextId);
          UnlinkWaives(st, St(), e, force, k);
        }
    }
  }

  /** The program's count of undefined symbols is `k` too low, if it is loaded, and no other count is. */
  predicate OnlyProgramWaived(ms: Modules, k: int) {
    forall m :: m in ms ==> ms[m].waived == if m == 0 then k else 0
  }

  lemma LinkWaives(st: State, st': State, news: set<nat>, k: int)
    requires LinkedOnto(st, st', news) && OnlyProgramWaived(st.modules, k) && 0 !in news
    ensures OnlyProgramWaived(st'.modules, k)
  {
    forall m | m in st'.modules ensures st'.modules[m].waived == if m == 0 then k else 0 {
      if m in st.modules { assert Bare(st'.modules[m]).waived == Bare(st.modules[m]).waived; }
    }
  }

  lemma ObjectWaives(s0: State, id: nat, syms: seq<NList>, k: int)
    requires Good(s0) && Addressed(s0.modules, id) && id > 0 && OnlyProgramWaived(s0.modules, k)
    ensures OnlyProgramWaived(Patched(EnterAll(WithModule(s0, id, NewFile), syms, id).0.modules), k)
  {
    hide Good, Linking, LinkedOnto, Patched, EnterAll, OnlyProgramWaived;
    ObjectIsLinked(s0, id, syms);
    var st := EnterAll(WithModule(s0, id, NewFile), syms, id).0;
    PatchedLinksOnto(s0, st, {id});
    LinkWaives(s0, st.(modules := Patched(st.modules)), {id}, k);
  }

  lemma LibraryWaives(st: State, st': State, lib: nat, news: set<nat>, at: map<nat, nat>, members: map<nat, seq<NList>>, k: int)
    requires LinkedOnto(st, st', news) && MembersIn(st', lib, news, at, members) && lib > 0 && OnlyProgramWaived(st.modules, k)
    ensures OnlyProgramWaived(st'.modules, k)
  {
    hide LinkedOnto, OnlyProgramWaived, MemberIs;
    LinkWaives(st, st', news, k);
  }

  lemma UnlinkWaives(st: State, st': State, e: nat, force: bool, k: int)
    requires e in st.modules && Unlinked(st, st', e, force) && OnlyProgramWaived(st.modules, k)
    ensures OnlyProgramWaived(st'.modules, k)
  {
    hide Freed, Purge;
    forall m | m in st'.modules ensures st'.modules[m].waived == if m == 0 then k else 0 {
      assert Bare(st'.modules[m]).waived == Bare(st.modules[m]).waived;
    }
  }

  /** Over every run of links and unlinks, successful or not, all counters stay right, but that the program's own count
      stays too low by the number of symbols that it refers to and does not define. */
  method Session(program: seq<NList>, commands: seq<Command>) returns (l: Linker, ok: bool)
    ensures fresh(l) && Good(l.St())
    ensures var (st, linked) := EnterAll(WithModule(Nothing, 0, NewFile), program, 0);
      && ok == linked
      && (ok ==> OnlyProgramWaived(l.modules, |UndefinedNames(st.symtab)|))
      && (ok ==> forall n :: n in UndefinedNames(st.symtab) <==> LeftUndefined(program, n))
  {
    hide Good, Addressed, OnlyProgramWaived, EnterAll, LeftUndefined, UndefinedNames;
    l := new Linker();
    ok := l.InitProgram(program);
    if !ok { return; }
    ProgramIsGood(program);
    ghost var k := |UndefinedNames(EnterAll(WithModule(Nothing, 0, NewFile), program, 0).0.symtab)|;
    WaivedAtFirst(l.modules, k);
    for i := 0 to |commands|
      invariant fresh(l) && Good(l.St()) && Addressed(l.modules, l.nextId) && OnlyProgramWaived(l.modules, k) && l.nextId > 0
    {
      l.Perform(commands[i], k);
    }
  }

  lemma WaivedAtFirst(ms: Modules, k: int)
    requires ms.Keys == {0} && ms[0].waived == k
    ensures OnlyProgramWaived(ms, k)
  {
  }

  lemma DefineInNothing(ms: Modules, e: nat)
    ensures DefineIn(ms, {}, e) == ms
  {
    assert NewCallers(ms, {}, e) == {};
    forall m | m in ms ensures AfterDefinition(ms, {}, e, m) == ms[m] {}
  }

  /** The modules after a reference by `e`, as updates. */
  lemma ReferInIs(ms: Modules, d: Option<nat>, first: bool, e: nat)
    requires e in ms
    ensures ReferIn(ms, d, first, e) ==
      if d.Some? then
        if d.value in ms[e].refs then ms
        else
          var ms1 := ms[e := ms[e].(refs := ms[e].refs + {d.value})];
          if e != d.value && d.value in ms1 then ms1[d.value := ms1[d.value].(refCount := ms1[d.value].refCount + 1)] else ms1
      else if first then ms[e := ms[e].(undefinedCount := ms[e].undefinedCount + 1)]
      else ms
  {
    if d.Some? && d.value in ms[e].refs { assert ms[e].refs + {d.value} == ms[e].refs; }
  }

  /** A file of which no symbol has been entered. */
  lemma ObjectUnread(s0: State, id: nat)
    requires Good(s0) && Addressed(s0.modules, id)
    ensures var st := WithModule(s0, id, NewFile);
      Linking(s0, st, {id}) && FlatLibraries(st.modules) && Family(st.modules, id) == {id} && Addressed(s0.modules, id + 1)
  {
    hide Good, Linking;
    ObjectStarts(s0, id);
    LinksStay(WithModule(s0, id, NewFile).modules, WithModule(s0, id, NewFile).modules);
  }

  lemma KeysMore(at: map<nat, nat>, offset: nat, id: nat)
    ensures at[offset := id].Keys == at.Keys + {offset} && at[offset := id] != map[]
  {
  }

  lemma LoadStarts(s0: State, st: State, lib: nat, news: set<nat>, id: nat)
    requires LibLinking(s0, st, lib, news) && Addressed(st.modules, id)
    ensures Consistent(st) && id !in st.modules && id !in news && lib <= id
  {
    hide Consistent;
  }

  lemma ReferrersKnown(s0: State, st: State, news: set<nat>, e: nat, n: Name)
    requires Linking(s0, st, news) && e in news
    ensures e in st.modules && CallersKnown(st.modules, e) && ReferrersOf(st.symtab, n) <= st.modules.Keys
  {
  }

  lemma AddressedPatched(ms: Modules, next: nat)
    requires Addressed(ms, next)
    ensures Addressed(Patched(ms), next) && Patched(ms).Keys == ms.Keys && |Patched(ms).Keys| == |ms.Keys|
  {
    assert Patched(ms).Keys == ms.Keys;
  }

  lemma DeclaredState(st: State, id: nat)
    requires id in st.modules
    ensures Declared(st, id) == st.(modules := st.modules[id := DeclaredModule(st.modules[id])])
    ensures Declared(st, id).modules.Keys == st.modules.Keys
  {
  }

  lemma UnlinkAddressed(st: State, st': State, e: nat, force: bool, next: nat)
    requires Addressed(st.modules, next) && e in st.modules && Unlinked(st, st', e, force)
    ensures Addressed(st'.modules, next)
  {
  }
}
