/** Linking in dld-3.2.3/dld.c: what entering the symbols of a file amounts to. */
module DldLink {
  import opened DldModel

  /** An external symbol of an object file: a reference, a common (uninitialised) definition,
      or an initialised definition. */
  datatype Sort = Reference | Common | Initialised

  datatype NList = NList(name: Name, sort: Sort)

  /** What there is to read of an object file or an archive member.  `symbols` is None if reading its header, symbols or
      strings fails; when it is not `complete`, reading its text and data fails, after the symbols have been entered. */
  datatype File = File(symbols: Option<seq<NList>>, complete: bool)

  /** An initialised definition of a symbol that is already defined is an error; a common one then
      only counts as a reference. */
  predicate Clashes(t: Table, p: NList) { p.sort.Initialised? && DefinerOf(t, p.name).Some? }

  predicate Defines(t: Table, p: NList) { !p.sort.Reference? && DefinerOf(t, p.name).None? }

  /** The state once module `e` has entered symbol `p`. */
  function Entered(st: State, p: NList, e: nat): State
    requires e in st.modules
  {
    if Defines(st.symtab, p) then Defined(st, p.name, e) else Referred(st, p.name, e)
  }

  /** The state when all symbols have been entered, or up to the first that clashes. */
  function EnterAll(st: State, syms: seq<NList>, e: nat): (r: (State, bool))
    requires e in st.modules
    ensures e in r.0.modules
    decreases |syms|
  {
    if syms == [] then (st, true)
    else if Clashes(st.symtab, syms[0]) then (st, false)
    else
      EnteredKeepsFields(st, syms[0], e);
      EnterAll(Entered(st, syms[0], e), syms[1..], e)
  }

  /** The fields of a module that linking other modules never touches. */
  ghost predicate SameLinks(ms: Modules, ms': Modules) {
    ms'.Keys == ms.Keys && forall m :: m in ms ==>
      && ms'[m].library == ms[m].library && ms'[m].superfile == ms[m].superfile
      && ms'[m].alreadyUnlink == ms[m].alreadyUnlink && ms'[m].waived == ms[m].waived
  }

  lemma EnteredKeepsFields(st: State, p: NList, e: nat)
    requires e in st.modules
    ensures SameLinks(st.modules, Entered(st, p, e).modules) && e in Entered(st, p, e).modules
  {
    hide DefineIn, ReferIn, SameLinks, WithDefinition, WithReference;
    DefineKeepsFields(st.modules, ReferrersOf(st.symtab, p.name), e);
    ReferKeepsFields(st.modules, DefinerOf(st.symtab, p.name), e !in ReferrersOf(st.symtab, p.name), e);
  }

  lemma DefineKeepsFields(ms: Modules, rs: set<nat>, e: nat)
    ensures SameLinks(ms, DefineIn(ms, rs, e)) && DefineIn(ms, rs, e).Keys == ms.Keys
  {
  }

  lemma ReferKeepsFields(ms: Modules, d: Option<nat>, first: bool, e: nat)
    requires e in ms
    ensures SameLinks(ms, ReferIn(ms, d, first, e)) && ReferIn(ms, d, first, e).Keys == ms.Keys
  {
  }

  lemma EnteredKeepsLinking(s0: State, st: State, news: set<nat>, p: NList, e: nat)
    requires Linking(s0, st, news) && e in news && e in Files(st.modules) && !Clashes(st.symtab, p)
    ensures Linking(s0, Entered(st, p, e), news) && e in Files(Entered(st, p, e).modules)
  {
    hide Linking;
    EnteredKeepsFields(st, p, e);
    if Defines(st.symtab, p) {
      DefinitionKeepsLinking(s0, st, news, p.name, e);
    } else {
      ReferenceKeepsLinking(s0, st, news, p.name, e);
    }
  }

  lemma {:induction false} EnterAllKeepsLinking(s0: State, st: State, news: set<nat>, syms: seq<NList>, e: nat)
    requires Linking(s0, st, news) && e in news && e in Files(st.modules)
    ensures Linking(s0, EnterAll(st, syms, e).0, news)
    ensures SameLinks(st.modules, EnterAll(st, syms, e).0.modules)
    decreases |syms|
  {
    hide Linking, Entered;
    if syms != [] && !Clashes(st.symtab, syms[0]) {
      EnteredKeepsFields(st, syms[0], e);
      EnteredKeepsLinking(s0, st, news, syms[0], e);
      EnterAllKeepsLinking(s0, Entered(st, syms[0], e), news, syms[1..], e);
    }
  }

  lemma EnteredTable(st: State, p: NList, e: nat, n: Name)
    requires e in st.modules && !Clashes(st.symtab, p)
    ensures var t, t' := st.symtab, Entered(st, p, e).symtab;
      && DefinerOf(t', n) == (
        if DefinerOf(t, n).Some? then DefinerOf(t, n) else if n == p.name && !p.sort.Reference? then Some(e) else None)
      && ReferrersOf(t, n) <= ReferrersOf(t', n)
  {
  }

  /** One of the symbols is a definition of `n`. */
  predicate DefinedIn(syms: seq<NList>, n: Name) {
    exists k :: 0 <= k < |syms| && syms[k].name == n && !syms[k].sort.Reference?
  }

  lemma DefinedInSplit(syms: seq<NList>, n: Name)
    requires syms != []
    ensures DefinedIn(syms, n) <==> (syms[0].name == n && !syms[0].sort.Reference?) || DefinedIn(syms[1..], n)
  {
    if k :| 0 <= k < |syms| && syms[k].name == n && !syms[k].sort.Reference? {
      assert k > 0 ==> syms[1..][k - 1] == syms[k];
    }
    if k :| 0 <= k < |syms[1..]| && syms[1..][k].name == n && !syms[1..][k].sort.Reference? {
      assert syms[k + 1] == syms[1..][k];
    }
  }

  /** Once a file has been entered, what was defined is defined as before, what the file defines is defined, and
      nothing else is. */
  lemma {:induction false} EnterAllDefines(st: State, syms: seq<NList>, e: nat, n: Name)
    requires e in st.modules && EnterAll(st, syms, e).1
    ensures var t, t' := st.symtab, EnterAll(st, syms, e).0.symtab;
      && DefinerOf(t', n) == (
        if DefinerOf(t, n).Some? then DefinerOf(t, n) else if DefinedIn(syms, n) then Some(e) else None)
      && ReferrersOf(t, n) <= ReferrersOf(t', n)
    decreases |syms|
  {
    hide Entered, DefinedIn;
    if syms != [] {
      EnteredKeepsFields(st, syms[0], e);
      EnteredTable(st, syms[0], e, n);
      EnterAllDefines(Entered(st, syms[0], e), syms[1..], e, n);
      DefinedInSplit(syms, n);
    } else {
      NothingDefined(syms, n);
    }
  }

  lemma NothingDefined(syms: seq<NList>, n: Name)
    requires syms == []
    ensures !DefinedIn(syms, n)
  {
  }

  /** One of the symbols is an initialised definition of what is already defined, in the table or by a symbol in front
      of it. */
  ghost predicate MultiplyDefined(t: Table, syms: seq<NList>) {
    exists k :: ClashAt(t, syms, k)
  }

  predicate ClashAt(t: Table, syms: seq<NList>, k: nat) {
    && k < |syms| && syms[k].sort.Initialised?
    && ((syms[k].name in t && t[syms[k].name].definedBy.Some?) || DefinedIn(syms[..k], syms[k].name))
  }

  lemma ClashBehind(st: State, syms: seq<NList>, e: nat, k: nat)
    requires e in st.modules && syms != [] && !Clashes(st.symtab, syms[0])
    ensures ClashAt(st.symtab, syms, k + 1) <==> ClashAt(Entered(st, syms[0], e).symtab, syms[1..], k)
  {
    if k + 1 < |syms| {
      assert syms[..k + 1][1..] == syms[1..][..k];
      hide Entered, DefinedIn;
      DefinedInSplit(syms[..k + 1], syms[k + 1].name);
      EnteredTable(st, syms[0], e, syms[k + 1].name);
    }
  }

  /** Exactly then the symbols of a file cannot be entered. */
  lemma {:induction false} FailsIffMultiplyDefined(st: State, syms: seq<NList>, e: nat)
    requires e in st.modules
    ensures EnterAll(st, syms, e).1 <==> !MultiplyDefined(st.symtab, syms)
    decreases |syms|
  {
    hide Entered, ClashAt;
    if syms == [] {
      NoClash(st.symtab, syms);
    } else {
      FirstClash(st.symtab, syms);
      if !Clashes(st.symtab, syms[0]) {
        EnteredKeepsFields(st, syms[0], e);
        var t' := Entered(st, syms[0], e).symtab;
        FailsIffMultiplyDefined(Entered(st, syms[0], e), syms[1..], e);
        if k: nat :| ClashAt(st.symtab, syms, k) { ClashBehind(st, syms, e, k - 1); }
        if k: nat :| ClashAt(t', syms[1..], k) { ClashBehind(st, syms, e, k); }
      }
    }
  }

  lemma NoClash(t: Table, syms: seq<NList>)
    requires syms == []
    ensures !MultiplyDefined(t, syms)
  {
  }

  lemma FirstClash(t: Table, syms: seq<NList>)
    requires syms != []
    ensures ClashAt(t, syms, 0) <==> Clashes(t, syms[0])
  {
  }

  /** References and common definitions can always be entered. */
  lemma CommonsNeverClash(st: State, syms: seq<NList>, e: nat)
    requires e in st.modules && forall k :: 0 <= k < |syms| ==> !syms[k].sort.Initialised?
    ensures EnterAll(st, syms, e).1
  {
    FailsIffMultiplyDefined(st, syms, e);
  }

  /** Module `m` defines the symbol or refers to it. */
  predicate Mentions(t: Table, m: nat, n: Name) {
    n in t && (m in t[n].referencedBy || t[n].definedBy == Some(m))
  }

  predicate Named(syms: seq<NList>, n: Name) { exists k :: 0 <= k < |syms| && syms[k].name == n }

  lemma EnteredMentions(st: State, p: NList, e: nat, m: nat, n: Name)
    requires e in st.modules && !Clashes(st.symtab, p)
    ensures Mentions(Entered(st, p, e).symtab, m, n) <==> Mentions(st.symtab, m, n) || (m == e && n == p.name)
  {
  }

  /** Entering a file adds what the file says about its own symbols, and nothing about other modules. */
  lemma {:induction false} EnterAllMentions(st: State, syms: seq<NList>, e: nat, m: nat, n: Name)
    requires e in st.modules && EnterAll(st, syms, e).1
    ensures Mentions(EnterAll(st, syms, e).0.symtab, m, n) <==> Mentions(st.symtab, m, n) || (m == e && Named(syms, n))
    decreases |syms|
  {
    hide Entered, Mentions;
    if syms != [] {
      EnteredKeepsFields(st, syms[0], e);
      EnteredMentions(st, syms[0], e, m, n);
      EnterAllMentions(Entered(st, syms[0], e), syms[1..], e, m, n);
      assert syms == [syms[0]] + syms[1..];
      if k :| 0 <= k < |syms| && syms[k].name == n {
        assert k > 0 ==> syms[1..][k - 1] == syms[k];
      }
    }
  }

  /** The table says of module `m` exactly what its file says: `m` defines or refers to the symbols of
      the file and to no others, and all that the file defines is defined. */
  ghost predicate Holds(t: Table, m: nat, syms: seq<NList>) {
    && (forall n: Name :: Mentions(t, m, n) <==> Named(syms, n))
    && (forall k :: 0 <= k < |syms| && !syms[k].sort.Reference? ==> DefinerOf(t, syms[k].name).Some?)
  }

  lemma EnteredHolds(st: State, id: nat, x: Module, syms: seq<NList>)
    requires Consistent(st) && id !in st.modules && EnterAll(WithModule(st, id, x), syms, id).1
    ensures Holds(EnterAll(WithModule(st, id, x), syms, id).0.symtab, id, syms)
  {
    hide EnterAll, Consistent;
    var st1 := WithModule(st, id, x);
    var t' := EnterAll(st1, syms, id).0.symtab;
    forall n: Name ensures Mentions(t', id, n) <==> Named(syms, n) {
      ConsistentTable(st);
      EnterAllMentions(st1, syms, id, id, n);
    }
    forall k | 0 <= k < |syms| && !syms[k].sort.Reference? ensures DefinerOf(t', syms[k].name).Some? {
      EnterAllDefines(st1, syms, id, syms[k].name);
    }
  }

  lemma OthersHold(st: State, id: nat, x: Module, syms: seq<NList>, m: nat, held: seq<NList>)
    requires id !in st.modules && m != id && EnterAll(WithModule(st, id, x), syms, id).1 && Holds(st.symtab, m, held)
    ensures Holds(EnterAll(WithModule(st, id, x), syms, id).0.symtab, m, held)
  {
    hide EnterAll, Mentions;
    var st1 := WithModule(st, id, x);
    var t' := EnterAll(st1, syms, id).0.symtab;
    forall n: Name ensures Mentions(t', m, n) <==> Named(held, n) {
      EnterAllMentions(st1, syms, id, m, n);
    }
    forall k | 0 <= k < |held| && !held[k].sort.Reference? ensures DefinerOf(t', held[k].name).Some? {
      EnterAllDefines(st1, syms, id, held[k].name);
    }
  }

  /** Somebody refers to the symbol and nobody defines it. */
  predicate NeededName(t: Table, n: Name) { n in t && t[n].definedBy.None? }

  /** subfile_wanted_p: the file defines a symbol that is needed. */
  predicate Wanted(t: Table, syms: seq<NList>) {
    exists k :: 0 <= k < |syms| && !syms[k].sort.Reference? && NeededName(t, syms[k].name)
  }

  /** A wanted file is referred to once it is linked. */
  lemma WantedIsCalled(st: State, e: nat, x: Module, syms: seq<NList>)
    requires Consistent(st) && e !in st.modules && Blank(x) && Wanted(st.symtab, syms)
    requires var st1 := st.(modules := st.modules[e := x]); EnterAll(st1, syms, e).1 && Consistent(EnterAll(st1, syms, e).0)
    ensures var st' := EnterAll(st.(modules := st.modules[e := x]), syms, e).0; e in st'.modules ==> st'.modules[e].refCount >= 1
  {
    var st1 := st.(modules := st.modules[e := x]);
    var st' := EnterAll(st1, syms, e).0;
    var k :| 0 <= k < |syms| && !syms[k].sort.Reference? && NeededName(st.symtab, syms[k].name);
    var n := syms[k].name;
    EnterAllDefines(st1, syms, e, n);
    var r :| r in st.symtab[n].referencedBy;
    if e in st'.modules {
      CalledByReferrer(st', e, r, n);
    }
  }

  lemma CalledByReferrer(st: State, e: nat, r: nat, n: Name)
    requires Consistent(st) && e in st.modules && RefersTo(st.symtab, r, e, n) && r != e
    ensures st.modules[e].refCount >= 1
  {
    assert r in Files(st.modules);
    ConsistentCounts(st, r);
    ConsistentCounts(st, e);
    assert Uses(st.symtab, r, e);
    assert r in Callers(st.modules, e);
  }

  // ---- the new modules ----

  const NewFile: Module := Module({}, {}, 1, 0, false, false, None, false, false, 0)

  const NewLibrary: Module := NewFile.(library := true)

  /** A member is considered unlinked from the start, so that it goes when nobody needs it. */
  function NewMember(lib: nat): Module { Module({}, {}, 0, 0, true, false, Some(lib), false, false, 0) }

  function WithModule(st: State, id: nat, x: Module): State { st.(modules := st.modules[id := x]) }

  /** A link that has succeeded leaves a good state. */
  lemma LinkedIsGood(s0: State, st: State, news: set<nat>)
    requires Good(s0) && Linking(s0, st, news) && WellLinked(st.modules)
    requires forall m :: m in news ==> st.modules[m].refCount >= 1
    requires forall m :: m in news && st.modules[m].library ==> exists k :: k in st.modules && st.modules[k].superfile == Some(m)
    ensures Good(st.(modules := Patched(st.modules)))
  {
    var ms := st.modules;
    LinkingKeys(s0, st, news);
    PatchKeepsConsistent(st);
    forall m | m in ms ensures ms[m].refCount >= 1 {
      if m in s0.modules { OldModulesAlive(s0, st, news, m); }
    }
    forall m | m in ms && ms[m].library ensures exists k :: k in ms && ms[k].superfile == Some(m) {
      if m in s0.modules {
        assert Bare(ms[m]).library == s0.modules[m].library;
        var k :| k in s0.modules && s0.modules[k].superfile == Some(m);
        assert Bare(ms[k]).superfile == Some(m);
      }
    }
    hide Consistent, Linking;
    PatchedIsSettled(ms);
  }

  lemma PatchedIsSettled(ms: Modules)
    requires WellLinked(ms) && forall m :: m in ms ==> ms[m].refCount >= 1
    requires forall m :: m in ms && ms[m].library ==> exists k :: k in ms && ms[k].superfile == Some(m)
    ensures Settled(Patched(ms))
  {
    forall m | m in ms && ms[m].library ensures exists k :: k in Patched(ms) && Patched(ms)[k].superfile == Some(m) {
      var k :| k in ms && ms[k].superfile == Some(m);
      assert k in Patched(ms) && Patched(ms)[k].superfile == Some(m);
    }
  }

  // ---- linking an object file ----

  /** Every file_entry so far has an address below the next one. */
  ghost predicate Addressed(ms: Modules, next: nat) { forall m :: m in ms ==> m < next }

  lemma AddKeepsLinks(ms: Modules, id: nat, x: Module)
    requires WellLinked(ms) && id !in ms && !(x.library && x.alreadyUnlink)
    requires x.superfile.Some? ==> !x.library && x.superfile.value in ms && ms[x.superfile.value].library
    ensures WellLinked(ms[id := x])
    ensures x.superfile != Some(id) ==> Family(ms[id := x], id) == {id}
    ensures forall e :: e in ms ==> Family(ms[id := x], e) == Family(ms, e) + if x.superfile == Some(e) then {id} else {}
  {
  }

  lemma ObjectStarts(s0: State, id: nat)
    requires Good(s0) && Addressed(s0.modules, id)
    ensures var st := WithModule(s0, id, NewFile);
      && Linking(s0, st, {id}) && id in Files(st.modules)
      && WellLinked(st.modules) && Family(st.modules, id) == {id}
  {
    hide Linking, Good, Consistent, WellLinked;
    GoodLinks(s0);
    LinkingStarts(s0);
    AddKeepsLinking(s0, s0, {}, id, NewFile);
    assert {} + {id} == {id};
    AddKeepsLinks(s0.modules, id, NewFile);
  }

  lemma LinksStay(ms: Modules, ms': Modules)
    requires SameLinks(ms, ms')
    ensures WellLinked(ms) ==> WellLinked(ms') && FlatLibraries(ms')
    ensures Files(ms') == Files(ms) && forall e :: Family(ms', e) == Family(ms, e)
  {
    forall e ensures Family(ms', e) == Family(ms, e) {}
  }

  lemma ShareKeepsAlive(st: State, m: nat)
    requires Consistent(st) && m in st.modules && !st.modules[m].alreadyUnlink
    ensures st.modules[m].refCount >= 1
  {
    ConsistentCounts(st, m);
  }

  lemma ObjectIsLinked(s0: State, id: nat, syms: seq<NList>)
    requires Good(s0) && Addressed(s0.modules, id)
    ensures var st := EnterAll(WithModule(s0, id, NewFile), syms, id).0;
      && Linking(s0, st, {id}) && WellLinked(st.modules) && FlatLibraries(st.modules)
      && Family(st.modules, id) == {id} && Good(st.(modules := Patched(st.modules)))
      && st.modules.Keys == s0.modules.Keys + {id}
  {
    hide Linking, Good, Consistent;
    var st1 := WithModule(s0, id, NewFile);
    var st := EnterAll(st1, syms, id).0;
    ObjectStarts(s0, id);
    EnterAllKeepsLinking(s0, st1, {id}, syms, id);
    LinksStay(st1.modules, st.modules);
    LinkingKeys(s0, st, {id});
    ShareKeepsAlive(st, id);
    LinkedIsGood(s0, st, {id});
  }

  // ---- searching a library ----

  /** An entry of the archive's directory; its name is cleared once the member has been loaded. */
  datatype Symdef = Symdef(name: Option<Name>, offset: nat)

  /** The members of an archive whose symbols can be read. */
  function Readable(files: map<nat, File>): map<nat, seq<NList>> {
    map o | o in files && files[o].symbols.Some? :: files[o].symbols.value
  }

  /** Every name in the directory is defined by the member it points to; no member has offset 0, because members follow
      the archive's magic string. */
  ghost predicate Accurate(dir: seq<Symdef>, members: map<nat, seq<NList>>) {
    forall i :: 0 <= i < |dir| && dir[i].name.Some? ==>
      dir[i].offset in members && dir[i].offset != 0 &&
      exists k :: 0 <= k < |members[dir[i].offset]| && members[dir[i].offset][k].name == dir[i].name.value
                  && !members[dir[i].offset][k].sort.Reference?
  }

  /** The directory once the members at the offsets `loaded` have been loaded. */
  ghost function Cleared(dir: seq<Symdef>, loaded: set<nat>): seq<Symdef> {
    seq(|dir|, i requires 0 <= i < |dir| => if dir[i].offset in loaded then Symdef(None, dir[i].offset) else dir[i])
  }

  function Live(dir: seq<Symdef>): set<nat> {
    set i: nat | i < |dir| && dir[i].name.Some?
  }

  /** No entry that is left names a symbol that is needed. */
  ghost predicate Exhausted(t: Table, dir: seq<Symdef>) {
    forall i :: 0 <= i < |dir| && dir[i].name.Some? ==> !NeededName(t, dir[i].name.value)
  }

  /** While a library is being searched: every member loaded so far is referred to. */
  ghost predicate LibLinking(s0: State, st: State, lib: nat, news: set<nat>) {
    && Linking(s0, st, news) && lib in st.modules && st.modules[lib].library
    && news == Family(st.modules, lib) && WellLinked(st.modules)
    && (forall m :: m in news ==> m in st.modules && st.modules[m].refCount >= 1)
  }

  lemma LibraryStarts(s0: State, lib: nat)
    requires Good(s0) && Addressed(s0.modules, lib)
    ensures LibLinking(s0, WithModule(s0, lib, NewLibrary), lib, {lib})
  {
    hide Linking, Good, Consistent, WellLinked;
    GoodLinks(s0);
    LinkingStarts(s0);
    AddKeepsLinking(s0, s0, {}, lib, NewLibrary);
    assert {} + {lib} == {lib};
    AddKeepsLinks(s0.modules, lib, NewLibrary);
  }

  /** A member has been read and its entry made, but its symbols have not been entered. */
  lemma MemberStarts(s0: State, st: State, lib: nat, news: set<nat>, id: nat)
    requires LibLinking(s0, st, lib, news) && Addressed(st.modules, id)
    ensures var st1 := WithModule(st, id, NewMember(lib));
      && Linking(s0, st1, news + {id}) && Linking(st, st1, {id}) && id in Files(st1.modules)
      && WellLinked(st1.modules) && Family(st1.modules, lib) == news + {id}
  {
    hide Linking, Consistent, WellLinked;
    LinkingKeys(s0, st, news);
    AddKeepsLinking(s0, st, news, id, NewMember(lib));
    LinkingStarts(st);
    AddKeepsLinking(st, st, {}, id, NewMember(lib));
    assert {} + {id} == {id};
    AddKeepsLinks(st.modules, id, NewMember(lib));
  }

  /** Whether or not its symbols clash, the member is now part of the library. */
  lemma MemberEntered(s0: State, st: State, lib: nat, news: set<nat>, id: nat, syms: seq<NList>)
    requires LibLinking(s0, st, lib, news) && Addressed(st.modules, id) && Wanted(st.symtab, syms)
    ensures var st1 := WithModule(st, id, NewMember(lib));
      var (st', ok) := EnterAll(st1, syms, id);
      && Linking(s0, st', news + {id}) && Family(st'.modules, lib) == news + {id} && FlatLibraries(st'.modules)
      && st'.modules.Keys == st.modules.Keys + {id}
      && (ok ==> LibLinking(s0, st', lib, news + {id}))
  {
    hide Linking, Consistent, WellLinked, Wanted, EnterAll;
    var st1 := WithModule(st, id, NewMember(lib));
    var (st', ok) := EnterAll(st1, syms, id);
    MemberStarts(s0, st, lib, news, id);
    EnterAllKeepsLinking(s0, st1, news + {id}, syms, id);
    EnterAllKeepsLinking(st, st1, {id}, syms, id);
    LinksStay(st1.modules, st'.modules);
    LinkingKeys(s0, st, news);
    LinkingKeys(st, st', {id});
    if ok {
      WantedIsCalled(st, id, NewMember(lib), syms);
      forall m | m in news ensures st'.modules[m].refCount >= 1 {
        OldModulesAlive(st, st', {id}, m);
      }
      assert st'.modules[lib].library;
    }
  }

  lemma LibraryIsLinked(s0: State, st: State, lib: nat, news: set<nat>)
    requires Good(s0) && LibLinking(s0, st, lib, news) && news != {lib}
    ensures Good(st.(modules := Patched(st.modules)))
  {
    hide Linking, Good, Consistent;
    assert lib in news;
    OtherMember(news, lib);
    var k :| k in news - {lib};
    assert st.modules[k].superfile == Some(lib);
    forall m | m in news && st.modules[m].library ensures m == lib {}
    LinkedIsGood(s0, st, news);
  }

  lemma ClearedMore(dir: seq<Symdef>, loaded: set<nat>, i: nat)
    requires i < |dir| && Cleared(dir, loaded)[i].name.Some?
    ensures Live(Cleared(dir, loaded + {dir[i].offset})) < Live(Cleared(dir, loaded))
    ensures dir[i].offset !in loaded
  {
    var a, b := Live(Cleared(dir, loaded + {dir[i].offset})), Live(Cleared(dir, loaded));
    assert i in b && i !in a;
  }

  lemma ListedElsewhere(dir: seq<Symdef>, members: map<nat, seq<NList>>, loaded: set<nat>, i: nat)
    requires i < |dir| && Cleared(dir, loaded)[i].name.Some?
    ensures Accurate(dir, members) ==> dir[i].offset != 0 && dir[i].offset !in loaded
  {
  }

  /** With an accurate directory a needed name is reason enough to load the member. */
  lemma ListedIsWanted(t: Table, dir: seq<Symdef>, members: map<nat, seq<NList>>, loaded: set<nat>, i: nat)
    requires i < |dir| && Cleared(dir, loaded)[i].name.Some? && NeededName(t, dir[i].name.value) && dir[i].offset in members
    ensures Accurate(dir, members) ==> Wanted(t, members[dir[i].offset])
  {
  }

  /** The members of `lib` that have been loaded: `at` gives the module for each offset. */
  ghost predicate MembersIn(st: State, lib: nat, news: set<nat>, at: map<nat, nat>, members: map<nat, seq<NList>>) {
    && NewsAre(lib, news, at)
    && forall o :: o in at ==> MemberIs(st, at[o], o, members)
  }

  ghost predicate NewsAre(lib: nat, news: set<nat>, at: map<nat, nat>) {
    news == {lib} + at.Values && |news| == 1 + |at| && forall m :: m in news ==> lib <= m
  }

  /** Module `m` has been loaded from offset `o`. */
  ghost predicate MemberIs(st: State, m: nat, o: nat, members: map<nat, seq<NList>>) {
    && o in members && m in st.modules && st.modules[m].alreadyUnlink
    && Holds(st.symtab, m, members[o])
  }

  /** What is defined, was so in `t0` or is defined by one of the members at `offsets`. */
  ghost predicate DefinedFrom(t0: Table, t: Table, offsets: set<nat>, members: map<nat, seq<NList>>) {
    forall n :: n in t && t[n].definedBy.Some? ==>
      (n in t0 && t0[n].definedBy.Some?) || DefinedByMember(offsets, members, n)
  }

  ghost predicate DefinedByMember(offsets: set<nat>, members: map<nat, seq<NList>>, n: Name) {
    exists o :: o in offsets && o in members && DefinedIn(members[o], n)
  }

  /** Nothing is wrong with the member at `o`: it can be read, and the symbols that it initialises are not defined by what
      is linked, by itself in front, or by another member. */
  ghost predicate Unblamed(t: Table, files: map<nat, File>, o: nat) {
    && o in files && files[o].symbols.Some? && files[o].complete
    && !MultiplyDefined(t, files[o].symbols.value)
    && forall k :: 0 <= k < |files[o].symbols.value| && files[o].symbols.value[k].sort.Initialised? ==>
         !DefinedByMember(Readable(files).Keys - {o}, Readable(files), files[o].symbols.value[k].name)
  }

  /** The library can be linked, in whatever order its members are loaded. */
  ghost predicate Linkable(t: Table, dir: seq<Symdef>, files: map<nat, File>) {
    forall i :: 0 <= i < |dir| && dir[i].name.Some? ==> Unblamed(t, files, dir[i].offset)
  }

  lemma MemberDefines(t0: Table, st: State, id: nat, x: Module, offsets: set<nat>, members: map<nat, seq<NList>>, o: nat)
    requires DefinedFrom(t0, st.symtab, offsets, members) && o in members
    requires EnterAll(WithModule(st, id, x), members[o], id).1
    ensures DefinedFrom(t0, EnterAll(WithModule(st, id, x), members[o], id).0.symtab, offsets + {o}, members)
  {
    hide EnterAll, DefinedIn, DefinedByMember;
    var t' := EnterAll(WithModule(st, id, x), members[o], id).0.symtab;
    forall n | n in t' && t'[n].definedBy.Some?
      ensures (n in t0 && t0[n].definedBy.Some?) || DefinedByMember(offsets + {o}, members, n)
    {
      EnterAllDefines(WithModule(st, id, x), members[o], id, n);
      MoreMembers(offsets, members, n, o);
    }
  }

  lemma MoreMembers(offsets: set<nat>, members: map<nat, seq<NList>>, n: Name, o: nat)
    requires o in members
    ensures DefinedByMember(offsets + {o}, members, n) <==> DefinedByMember(offsets, members, n) || DefinedIn(members[o], n)
  {
    hide DefinedIn;
    if DefinedIn(members[o], n) { assert o in offsets + {o}; }
    if o' :| o' in offsets && o' in members && DefinedIn(members[o'], n) { assert o' in offsets + {o}; }
  }

  /** Such a member can be entered after any of the others. */
  lemma UnblamedIsEntered(t0: Table, st: State, id: nat, x: Module, offsets: set<nat>, files: map<nat, File>, o: nat)
    requires DefinedFrom(t0, st.symtab, offsets, Readable(files)) && Unblamed(t0, files, o) && o !in offsets
    ensures EnterAll(WithModule(st, id, x), files[o].symbols.value, id).1
  {
    hide DefinedIn, EnterAll, DefinedByMember;
    var syms := files[o].symbols.value;
    FailsIffMultiplyDefined(WithModule(st, id, x), syms, id);
    if k: nat :| ClashAt(st.symtab, syms, k) {
      var n := syms[k].name;
      assert !ClashAt(t0, syms, k);
      AnotherMember(offsets, Readable(files), o, n);
    }
  }

  lemma AnotherMember(offsets: set<nat>, members: map<nat, seq<NList>>, o: nat, n: Name)
    requires o !in offsets
    ensures DefinedByMember(offsets, members, n) ==> DefinedByMember(members.Keys - {o}, members, n)
  {
    if o' :| o' in offsets && o' in members && DefinedIn(members[o'], n) { assert o' in members.Keys - {o}; }
  }

  lemma NoMembers(st: State, lib: nat, members: map<nat, seq<NList>>)
    ensures MembersIn(st, lib, {lib}, map[], members)
  {
  }

  lemma ValuesMore(at: map<nat, nat>, offset: nat, id: nat)
    requires offset !in at
    ensures at[offset := id].Values == at.Values + {id}
  {
    var at' := at[offset := id];
    assert forall o :: o in at ==> o in at' && at'[o] == at[o];
    assert offset in at' && at'[offset] == id;
  }

  /** The module for one offset stays as it is, and the new one is as it should be. */
  lemma MemberStays(st: State, lib: nat, at: map<nat, nat>, members: map<nat, seq<NList>>, offset: nat, id: nat, o: nat)
    requires Consistent(st) && offset in members && id !in st.modules
    requires EnterAll(WithModule(st, id, NewMember(lib)), members[offset], id).1
    requires o == offset || (o in at && MemberIs(st, at[o], o, members))
    ensures MemberIs(EnterAll(WithModule(st, id, NewMember(lib)), members[offset], id).0, at[offset := id][o], o, members)
  {
    hide EnterAll, Holds, Consistent;
    var st1 := WithModule(st, id, NewMember(lib));
    EnterAllKeepsFields(st1, members[offset], id);
    if o == offset {
      EnteredHolds(st, id, NewMember(lib), members[offset]);
    } else {
      OthersHold(st, id, NewMember(lib), members[offset], at[o], members[o]);
    }
  }

  lemma NewsMore(lib: nat, news: set<nat>, at: map<nat, nat>, offset: nat, id: nat)
    requires NewsAre(lib, news, at) && offset !in at && id !in news && lib <= id
    ensures NewsAre(lib, news + {id}, at[offset := id])
  {
    ValuesMore(at, offset, id);
  }

  lemma MembersMore(st: State, lib: nat, news: set<nat>, at: map<nat, nat>, members: map<nat, seq<NList>>, offset: nat, id: nat)
    requires Consistent(st) && MembersIn(st, lib, news, at, members) && offset in members && offset !in at
    requires id !in st.modules && id !in news && lib <= id
    requires EnterAll(WithModule(st, id, NewMember(lib)), members[offset], id).1
    ensures MembersIn(EnterAll(WithModule(st, id, NewMember(lib)), members[offset], id).0, lib, news + {id}, at[offset := id], members)
  {
    hide EnterAll, MemberIs, Consistent, NewsAre;
    var at' := at[offset := id];
    forall o | o in at'
      ensures MemberIs(EnterAll(WithModule(st, id, NewMember(lib)), members[offset], id).0, at'[o], o, members)
    {
      MemberStays(st, lib, at, members, offset, id, o);
    }
    NewsMore(lib, news, at, offset, id);
  }

  /** What a link that adds the modules `news` has done to the older ones and to the table. */
  ghost predicate LinkedOnto(st: State, st': State, news: set<nat>) {
    && st'.modules.Keys == st.modules.Keys + news && news !! st.modules.Keys
    && Purge(st'.symtab, news) == st.symtab
    && (forall m :: m in st.modules ==> Bare(st'.modules[m]) == Bare(st.modules[m]).(resolved := st'.modules[m].resolved))
    && (forall e :: e in news ==> CallersKnown(st'.modules, e) && st'.modules[e].waived == 0)
  }

  lemma PatchedLinksOnto(s0: State, st: State, news: set<nat>)
    requires Linking(s0, st, news)
    ensures LinkedOnto(s0, st.(modules := Patched(st.modules)), news)
  {
    hide Consistent, Purge, CallersKnown, Patched, Bare;
    PatchedKeys(st.modules);
    forall m | m in s0.modules ensures Bare(Patched(st.modules)[m]) == Bare(s0.modules[m]).(resolved := Patched(st.modules)[m].resolved) {
      PatchedModule(st.modules, m);
    }
    forall e | e in news ensures CallersKnown(Patched(st.modules), e) && Patched(st.modules)[e].waived == 0 {
      PatchedModule(st.modules, e);
      PatchedCallers(st.modules, e);
    }
  }

  lemma PatchedKeys(ms: Modules)
    ensures Patched(ms).Keys == ms.Keys
  {
  }

  lemma PatchedModule(ms: Modules, m: nat)
    requires m in ms
    ensures m in Patched(ms) && Patched(ms)[m].waived == ms[m].waived
    ensures Bare(Patched(ms)[m]) == Bare(ms[m]).(resolved := Patched(ms)[m].resolved)
  {
  }

  lemma PatchedCallers(ms: Modules, e: nat)
    requires e in ms && CallersKnown(ms, e)
    ensures e in Patched(ms) && CallersKnown(Patched(ms), e)
  {
  }

  lemma PatchedMembers(st: State, lib: nat, news: set<nat>, at: map<nat, nat>, members: map<nat, seq<NList>>)
    requires MembersIn(st, lib, news, at, members)
    ensures MembersIn(st.(modules := Patched(st.modules)), lib, news, at, members)
  {
    hide Holds;
    var st' := st.(modules := Patched(st.modules));
    forall o | o in at ensures MemberIs(st', at[o], o, members) {
      assert MemberIs(st, at[o], o, members);
    }
  }

  /** The entries of loaded members name nothing that is needed, so an exhausted rest is all. */
  lemma AllExhausted(st: State, lib: nat, news: set<nat>, at: map<nat, nat>, dir: seq<Symdef>, members: map<nat, seq<NList>>)
    requires MembersIn(st, lib, news, at, members) && Accurate(dir, members) && Exhausted(st.symtab, Cleared(dir, at.Keys))
    ensures Exhausted(st.symtab, dir)
  {
    forall i | 0 <= i < |dir| && dir[i].name.Some? ensures !NeededName(st.symtab, dir[i].name.value) {
      if dir[i].offset in at {
        var o := dir[i].offset;
        assert MemberIs(st, at[o], o, members);
      } else {
        assert Cleared(dir, at.Keys)[i] == dir[i];
      }
    }
  }

  lemma AddressedMore(ms: Modules, id: nat, x: Module)
    requires Addressed(ms, id)
    ensures Addressed(ms[id := x], id + 1) && id !in ms
  {
  }

  lemma AddressedFewer(ms: Modules, id: nat, next: nat)
    requires Addressed(ms, id) && id <= next
    ensures Addressed(ms, next)
  {
  }

  lemma LibLinkingLinks(s0: State, st: State, lib: nat, news: set<nat>)
    requires LibLinking(s0, st, lib, news)
    ensures Linking(s0, st, news) && news == Family(st.modules, lib) && lib in news && FlatLibraries(st.modules)
    ensures st.modules.Keys == s0.modules.Keys + news && news !! s0.modules.Keys && lib in st.modules
  {
    LinkingKeys(s0, st, news);
  }

  lemma OtherMember(news: set<nat>, lib: nat)
    requires lib in news && news != {lib}
    ensures news - {lib} != {}
    ensures |news| != 1
  {
    assert news == {lib} + (news - {lib});
  }

  lemma CountModules(s0: State, st: State, lib: nat, news: set<nat>)
    requires LibLinking(s0, st, lib, news)
    ensures |st.modules.Keys| == |s0.modules.Keys| + |news|
    ensures news != {lib} ==> |news| != 1
    ensures (forall m :: m in st.modules ==> st.modules[m].superfile != Some(lib)) <==> news == {lib}
  {
    LibLinkingLinks(s0, st, lib, news);
    if news != {lib} {
      OtherMember(news, lib);
      var k :| k in news - {lib};
      assert st.modules[k].superfile == Some(lib);
    } else {
      LibraryIsNoMember(s0, st, lib, news);
    }
  }

  lemma LibraryIsNoMember(s0: State, st: State, lib: nat, news: set<nat>)
    requires LibLinking(s0, st, lib, news) && news == {lib}
    ensures forall m :: m in st.modules ==> st.modules[m].superfile != Some(lib)
  {
    hide Linking;
    forall m | m in st.modules ensures st.modules[m].superfile != Some(lib) {
      assert m in Family(st.modules, lib) ==> m == lib;
    }
  }

  // ---- the program itself ----

  const Nothing: State := State(map[], map[], 0)

  lemma NothingIsGood()
    ensures Good(Nothing)
  {
    assert UndefinedNames(Nothing.symtab) == {};
  }

  /** dld_init declares the program resolved and none of its symbols undefined, whatever the table says. */
  function Declared(st: State, id: nat): State
    requires id in st.modules
  {
    st.(modules := st.modules[id := DeclaredModule(st.modules[id])])
  }

  function DeclaredModule(x: Module): Module {
    x.(undefinedCount := 0, resolved := true, waived := x.waived + x.undefinedCount)
  }

  /** A symbol that the program refers to and does not define. */
  predicate LeftUndefined(syms: seq<NList>, n: Name) { Named(syms, n) && !DefinedIn(syms, n) }

  lemma ProgramUndefined(syms: seq<NList>, n: Name)
    requires EnterAll(WithModule(Nothing, 0, NewFile), syms, 0).1
    ensures n in UndefinedNames(EnterAll(WithModule(Nothing, 0, NewFile), syms, 0).0.symtab) <==> LeftUndefined(syms, n)
  {
    hide DefinedIn, Named;
    NothingIsGood();
    ObjectIsLinked(Nothing, 0, syms);
    var st := EnterAll(WithModule(Nothing, 0, NewFile), syms, 0).0;
    LinkingKeys(Nothing, st, {0});
    ConsistentTable(st);
    hide EnterAll;
    EnterAllDefines(WithModule(Nothing, 0, NewFile), syms, 0, n);
    EnterAllMentions(WithModule(Nothing, 0, NewFile), syms, 0, 0, n);
    if n in st.symtab {
      OnlyProgram(st, n);
    }
  }

  lemma OnlyProgram(st: State, n: Name)
    requires st.modules.Keys == {0} && TableOk(st.symtab, Files(st.modules)) && n in st.symtab
    ensures Mentions(st.symtab, 0, n)
  {
    var y := st.symtab[n];
    if y.definedBy.None? {
      var r :| r in y.referencedBy;
      assert r in Files(st.modules);
    }
  }

  lemma UndefinedInProgram(st: State)
    requires Consistent(st) && st.modules.Keys == {0}
    ensures UndefinedIn(st.symtab, 0) == UndefinedNames(st.symtab)
    ensures st.modules[0].waived == 0 ==> st.modules[0].undefinedCount == |UndefinedNames(st.symtab)|
  {
    ConsistentCounts(st, 0);
    forall s | s in UndefinedNames(st.symtab) ensures s in UndefinedIn(st.symtab, 0) {
      OnlyProgram(st, s);
    }
  }

  /** After dld_init all counters are right, but that the program's own count of undefined symbols is too low by the number
      of symbols that it refers to and does not define. */
  lemma ProgramIsGood(syms: seq<NList>)
    requires EnterAll(WithModule(Nothing, 0, NewFile), syms, 0).1
    ensures var st := EnterAll(WithModule(Nothing, 0, NewFile), syms, 0).0;
      && st.modules.Keys == {0} && Good(Declared(st, 0))
      && Declared(st, 0).modules[0].waived == |UndefinedNames(st.symtab)|
      && (forall n :: n in UndefinedNames(st.symtab) <==> LeftUndefined(syms, n))
  {
    hide Good, Linking, Consistent, EnterAll, LeftUndefined, UndefinedNames;
    NothingIsGood();
    ObjectIsLinked(Nothing, 0, syms);
    var st := EnterAll(WithModule(Nothing, 0, NewFile), syms, 0).0;
    LinkingKeys(Nothing, st, {0});
    EnterAllKeepsFields(WithModule(Nothing, 0, NewFile), syms, 0);
    UndefinedInProgram(st);
    forall n ensures n in UndefinedNames(st.symtab) <==> LeftUndefined(syms, n) {
      ProgramUndefined(syms, n);
    }
    DeclaringKeepsGood(st);
  }

  lemma DeclaringKeepsGood(st: State)
    requires Good(st.(modules := Patched(st.modules))) && st.modules.Keys == {0} && !st.modules[0].library
    ensures Good(Declared(st, 0))
  {
    hide UndefinedIn, RefsAre, UndefinedNames, TableOk;
    var st1, st' := st.(modules := Patched(st.modules)), Declared(st, 0);
    assert Files(st1.modules) == Files(st'.modules) == {0};
    assert CountsOk(st1.symtab, st1.modules, 0);
    assert Callers(st1.modules, 0) == Callers(st'.modules, 0) == {};
    hide Callers;
    assert CountsOk(st'.symtab, st'.modules, 0);
  }

  /** The program's count is the only one that is wrong, and only if it refers to a symbol that it does not define. */
  lemma ProgramIsExact(syms: seq<NList>)
    requires EnterAll(WithModule(Nothing, 0, NewFile), syms, 0).1
    ensures Declared(EnterAll(WithModule(Nothing, 0, NewFile), syms, 0).0, 0).modules[0].waived == 0
      <==> forall k :: 0 <= k < |syms| ==> DefinedIn(syms, syms[k].name)
  {
    hide Good, Consistent, EnterAll, DefinedIn;
    ProgramIsGood(syms);
    var undefined := UndefinedNames(EnterAll(WithModule(Nothing, 0, NewFile), syms, 0).0.symtab);
    if k :| 0 <= k < |syms| && !DefinedIn(syms, syms[k].name) {
      assert LeftUndefined(syms, syms[k].name);
      assert syms[k].name in undefined;
    }
    if n :| n in undefined {
      assert LeftUndefined(syms, n);
    }
  }

  lemma {:induction false} EnterAllKeepsFields(st: State, syms: seq<NList>, e: nat)
    requires e in st.modules
    ensures SameLinks(st.modules, EnterAll(st, syms, e).0.modules)
    decreases |syms|
  {
    hide Entered;
    if syms != [] && !Clashes(st.symtab, syms[0]) {
      EnteredKeepsFields(st, syms[0], e);
      EnterAllKeepsFields(Entered(st, syms[0], e), syms[1..], e);
    }
  }

  lemma EnterOne(st: State, p: NList, e: nat)
    requires e in st.modules && !Clashes(st.symtab, p)
    ensures EnterAll(st, [p], e) == (Entered(st, p, e), true)
  {
    assert [p][1..] == [];
    EnteredKeepsFields(st, p, e);
  }

  lemma CallerAlone(s: Name, id: nat)
    ensures EnterAll(WithModule(Nothing, id, NewFile), [NList(s, Reference)], id)
      == (State(map[s := Symbol(None, {id})], map[id := NewFile.(undefinedCount := 1)], 1), true)
  {
    var st := WithModule(Nothing, id, NewFile);
    EnterOne(st, NList(s, Reference), id);
    hide EnterAll;
    assert Referred(st, s, id).symtab == map[s := Symbol(None, {id})];
    assert Referred(st, s, id).modules == map[id := NewFile.(undefinedCount := 1)];
  }

  lemma CalleeModules(c: nat, x: Module, d: nat, ms: Modules)
    requires c != d && x.refs == {} && x.refsBy == {} && ms == map[c := x, d := NewFile]
    ensures DefineIn(ms, {c}, d) == map[c := x.(refs := {d}, undefinedCount := x.undefinedCount - 1), d := NewFile.(refsBy := {c}, refCount := 2)]
  {
    hide DefineIn, AfterDefinition;
    CallerAndCalleeAfter(c, x, d, ms);
    TwoModules(DefineIn(ms, {c}, d), c, d) by { KeysAfter(ms, {c}, d); }
    KeysAfter(ms, {c}, d);
  }

  lemma KeysAfter(ms: Modules, rs: set<nat>, e: nat)
    ensures DefineIn(ms, rs, e).Keys == ms.Keys
    ensures forall m :: m in ms ==> DefineIn(ms, rs, e)[m] == AfterDefinition(ms, rs, e, m)
  {
  }

  lemma TwoModules(ms: Modules, c: nat, d: nat)
    requires ms.Keys == {c, d} && c != d
    ensures ms == map[c := ms[c], d := ms[d]]
  {
  }

  lemma CallerAndCalleeAfter(c: nat, x: Module, d: nat, ms: Modules)
    requires c != d && x.refs == {} && x.refsBy == {} && ms.Keys == {c, d} && ms[c] == x && ms[d] == NewFile
    ensures AfterDefinition(ms, {c}, d, c) == x.(refs := {d}, undefinedCount := x.undefinedCount - 1)
    ensures AfterDefinition(ms, {c}, d, d) == NewFile.(refsBy := {c}, refCount := 2)
  {
    assert NewCallers(ms, {c}, d) == {c};
    assert {c} - {d} == {c};
    hide NewCallers;
  }

  lemma OnlySymbol(s: Name, y: Symbol, d: nat)
    ensures WithDefinition(map[s := y], s, d) == map[s := Symbol(Some(d), y.referencedBy)]
  {
  }

  /** A module defines the symbol that the only other module refers to. */
  lemma CalleeAdded(s: Name, c: nat, x: Module, d: nat)
    requires c != d && x.refs == {} && x.refsBy == {}
    ensures EnterAll(WithModule(State(map[s := Symbol(None, {c})], map[c := x], 1), d, NewFile), [NList(s, Initialised)], d)
      == (State(map[s := Symbol(Some(d), {c})],
                map[c := x.(refs := {d}, undefinedCount := x.undefinedCount - 1), d := NewFile.(refsBy := {c}, refCount := 2)], 0), true)
  {
    hide EnterAll, DefineIn, WithDefinition;
    var st := WithModule(State(map[s := Symbol(None, {c})], map[c := x], 1), d, NewFile);
    EnterOne(st, NList(s, Initialised), d);
    OnlySymbol(s, Symbol(None, {c}), d);
    assert st.modules == map[c := x, d := NewFile];
    CalleeModules(c, x, d, st.modules);
  }

  /** A program that refers to a symbol and does not define it counts -1 undefined symbols when a file that defines it is
      linked, and is then taken not to be resolved. */
  lemma SupplyingUnresolves(s: Name)
    ensures var st := Declared(EnterAll(WithModule(Nothing, 0, NewFile), [NList(s, Reference)], 0).0, 0);
      var ms := Patched(EnterAll(WithModule(st, 1, NewFile), [NList(s, Initialised)], 1).0.modules);
      st.modules[0].resolved && 0 in ms && ms[0].undefinedCount == -1 && !ms[0].resolved
  {
    hide EnterAll;
    CallerAlone(s, 0);
    var x := NewFile.(resolved := true, waived := 1);
    assert Declared(State(map[s := Symbol(None, {0})], map[0 := NewFile.(undefinedCount := 1)], 1), 0)
        == State(map[s := Symbol(None, {0})], map[0 := x], 1);
    CalleeAdded(s, 0, x, 1);
  }

  // ---- sessions ----

  datatype Command = LinkFile(file: File) | LinkArchive(dir: seq<Symdef>, files: map<nat, File>) | Unlink(target: nat, force: bool)
}
