/** The object-graph serialiser of python/lib/persist.py.

  `dump` walks a graph of constants, strings, tuples, lists and dictionaries, with sharing
  and cycles, and prints a straight-line program; running that program must rebuild the graph.
  The model has a heap, the printed statements, an interpreter for them, and the dumper as an
  object that updates its memo tables, its stack and its output in place.
  */
module Persist {

  // ---- objects ----

  datatype Kind = NoneKind | IntKind | FloatKind

  /** A Python object.  Lists and dictionaries are references into a heap; a constant is
      known by its type and its repr. */
  datatype Value =
    | Const(kind: Kind, repr: string)
    | Str(text: string)
    | Tup(items: seq<Value>)
    | ListRef(id: nat)
    | DictRef(id: nat)

  datatype Heap = Heap(lists: map<nat, seq<Value>>, dicts: map<nat, map<string, Value>>)

  /** Every reference in `v` points into the heap. */
  predicate InHeap(h: Heap, v: Value) {
    match v
    case Tup(items) => forall k :: 0 <= k < |items| ==> InHeap(h, items[k])
    case ListRef(i) => i in h.lists
    case DictRef(i) => i in h.dicts
    case _ => true
  }

  ghost predicate Closed(h: Heap) {
    && (forall i, k :: i in h.lists && 0 <= k < |h.lists[i]| ==> InHeap(h, h.lists[i][k]))
    && (forall i, s :: i in h.dicts && s in h.dicts[i] ==> InHeap(h, h.dicts[i][s]))
  }

  /** What `x.keys()` returns for every dictionary: each key once, in any order. */
  type Order = map<nat, seq<string>>

  ghost predicate Lists(keys: seq<string>, d: map<string, Value>) {
    && (forall i, j :: 0 <= i < j < |keys| ==> keys[i] != keys[j])
    && (forall s :: s in keys <==> s in d)
  }

  ghost predicate OrderFor(h: Heap, order: Order) {
    forall i :: i in h.dicts ==> i in order && Lists(order[i], h.dicts[i])
  }

  // ---- the printed program and what it does ----

  datatype Stmt =
    | MakeTable                          // A = {}
    | SetConst(uid: nat, value: Value)   // A[uid] = <constant or string>
    | SetTuple(uid: nat, uids: seq<nat>) // A[uid] = ( A[uid1], ... )
    | NewList(uid: nat)                  // A[uid] = []
    | NewDict(uid: nat)                  // A[uid] = {}
    | Append(uid: nat, item: nat)        // A[uid].append(A[item])
    | SetItem(uid: nat, key: string, item: nat) // A[uid][key] = A[item]
    | SetTop(uid: nat)                   // top = A[uid]

  datatype Option<T> = None | Some(value: T)

  /** `table` is the dictionary A; new objects get the identity `next`. */
  datatype Machine = Machine(named: bool, table: map<nat, Value>, heap: Heap, next: nat, top: Option<Value>)

  const Fresh: Machine := Machine(false, map[], Heap(map[], map[]), 0, None)

  /** `None` when the statement raises an error: an undefined name or key, or a wrong type. */
  function Exec(m: Machine, s: Stmt): Option<Machine> {
    if s.MakeTable? then Some(m.(named := true, table := map[]))
    else if !m.named then None
    else match s
      case MakeTable => None
      case SetConst(u, v) => Some(m.(table := m.table[u := v]))
      case SetTuple(u, us) =>
        if forall w :: w in us ==> w in m.table
        then Some(m.(table := m.table[u := Tup(Lookup(m.table, us))]))
        else None
      case NewList(u) =>
        Some(m.(table := m.table[u := ListRef(m.next)], heap := m.heap.(lists := m.heap.lists[m.next := []]), next := m.next + 1))
      case NewDict(u) =>
        Some(m.(table := m.table[u := DictRef(m.next)], heap := m.heap.(dicts := m.heap.dicts[m.next := map[]]), next := m.next + 1))
      case Append(u, w) =>
        if u in m.table && w in m.table && m.table[u].ListRef? && m.table[u].id in m.heap.lists
        then Some(WithList(m, m.table[u].id, m.heap.lists[m.table[u].id] + [m.table[w]]))
        else None
      case SetItem(u, key, w) =>
        if u in m.table && w in m.table && m.table[u].DictRef? && m.table[u].id in m.heap.dicts
        then Some(WithDict(m, m.table[u].id, m.heap.dicts[m.table[u].id][key := m.table[w]]))
        else None
      case SetTop(u) => if u in m.table then Some(m.(top := Some(m.table[u]))) else None
  }

  function WithList(m: Machine, i: nat, items: seq<Value>): Machine {
    m.(heap := m.heap.(lists := m.heap.lists[i := items]))
  }

  function WithDict(m: Machine, i: nat, d: map<string, Value>): Machine {
    m.(heap := m.heap.(dicts := m.heap.dicts[i := d]))
  }

  lemma SetTwice<T>(m: map<nat, T>, i: nat, d: T, d': T)
    ensures m[i := d][i := d'] == m[i := d']
  {
  }

  function Lookup(table: map<nat, Value>, us: seq<nat>): seq<Value>
    requires forall w :: w in us ==> w in table
  {
    seq(|us|, k requires 0 <= k < |us| => assert us[k] in us; table[us[k]])
  }

  function Run(program: seq<Stmt>): Option<Machine>
    decreases |program|
  {
    if program == [] then Some(Fresh) else
    var r := Run(program[..|program| - 1]);
    if r.None? then None else Exec(r.value, program[|program| - 1])
  }

  lemma RunOneMore(program: seq<Stmt>, s: Stmt)
    ensures Run(program + [s]) == if Run(program).None? then None else Exec(Run(program).value, s)
  {
    assert (program + [s])[..|program|] == program;
  }

  // ---- when a rebuilt graph is a copy ----

  /** Which object of the new heap each dumped list and dictionary became. */
  datatype Iso = Iso(lists: map<nat, nat>, dicts: map<nat, nat>)

  predicate Same(iso: Iso, v: Value, w: Value) {
    match v
    case Tup(items) =>
      w.Tup? && |w.items| == |items| && forall k :: 0 <= k < |items| ==> Same(iso, items[k], w.items[k])
    case ListRef(i) => i in iso.lists && w == ListRef(iso.lists[i])
    case DictRef(i) => i in iso.dicts && w == DictRef(iso.dicts[i])
    case _ => w == v
  }

  predicate SameItems(iso: Iso, vs: seq<Value>, ws: seq<Value>) {
    |vs| == |ws| && forall k :: 0 <= k < |vs| ==> Same(iso, vs[k], ws[k])
  }

  predicate SameEntries(iso: Iso, vs: map<string, Value>, ws: map<string, Value>) {
    vs.Keys == ws.Keys && forall s :: s in vs ==> Same(iso, vs[s], ws[s])
  }

  ghost predicate Injective(m: map<nat, nat>) {
    forall i, j :: i in m && j in m && m[i] == m[j] ==> i == j
  }

  /** `iso` maps a part of `h` that contains `x` one to one onto the whole of `h'`, and
      keeps all contents. */
  ghost predicate Isomorphic(iso: Iso, h: Heap, x: Value, h': Heap, x': Value) {
    && Same(iso, x, x')
    && Injective(iso.lists) && Injective(iso.dicts)
    && iso.lists.Keys <= h.lists.Keys && iso.dicts.Keys <= h.dicts.Keys
    && iso.lists.Values == h'.lists.Keys && iso.dicts.Values == h'.dicts.Keys
    && (forall i :: i in iso.lists ==> iso.lists[i] in h'.lists && SameItems(iso, h.lists[i], h'.lists[iso.lists[i]]))
    && (forall i :: i in iso.dicts ==> iso.dicts[i] in h'.dicts && SameEntries(iso, h.dicts[i], h'.dicts[iso.dicts[i]]))
  }

  /** A step from an object to a part of it. */
  datatype Selector = Index(k: nat) | Key(s: string)

  function Select(h: Heap, v: Value, s: Selector): Option<Value> {
    match (v, s)
    case (Tup(items), Index(k)) => if k < |items| then Some(items[k]) else None
    case (ListRef(i), Index(k)) => if i in h.lists && k < |h.lists[i]| then Some(h.lists[i][k]) else None
    case (DictRef(i), Key(key)) => if i in h.dicts && key in h.dicts[i] then Some(h.dicts[i][key]) else None
    case _ => None
  }

  /** The object a program reaches from `v` by indexing along `path`. */
  function Follow(h: Heap, v: Value, path: seq<Selector>): Option<Value>
    decreases |path|
  {
    if path == [] then Some(v) else
    var r := Select(h, v, path[0]);
    if r.None? then None else Follow(h, r.value, path[1..])
  }

  lemma {:induction false} FollowSame(iso: Iso, h: Heap, x: Value, h': Heap, x': Value, path: seq<Selector>)
    requires Isomorphic(iso, h, x, h', x')
    ensures Follow(h, x, path).None? <==> Follow(h', x', path).None?
    ensures Follow(h, x, path).Some? ==> Same(iso, Follow(h, x, path).value, Follow(h', x', path).value)
    decreases |path|
  {
    if path != [] {
      var r, r' := Select(h, x, path[0]), Select(h', x', path[0]);
      if r.Some? {
        FollowSame(iso, h, r.value, h', r'.value, path[1..]);
      }
    }
  }

  /** What a program can observe: the same paths lead somewhere, constants and shapes agree, and
      two paths lead to one list or dictionary in the copy exactly when they did in the original. */
  lemma PathsAliasAlike(iso: Iso, h: Heap, x: Value, h': Heap, x': Value, p: seq<Selector>, q: seq<Selector>)
    requires Isomorphic(iso, h, x, h', x')
    ensures Follow(h, x, p).None? <==> Follow(h', x', p).None?
    ensures Follow(h, x, q).None? <==> Follow(h', x', q).None?
    ensures Follow(h, x, p).Some? && Follow(h, x, q).Some? ==>
      var (v, w) := (Follow(h, x, p).value, Follow(h, x, q).value);
      var (v', w') := (Follow(h', x', p).value, Follow(h', x', q).value);
      && (v.Const? || v.Str? ==> v' == v)
      && (v.Tup? <==> v'.Tup?) && (v.ListRef? <==> v'.ListRef?) && (v.DictRef? <==> v'.DictRef?)
      && (v.ListRef? || v.DictRef? ==> (v == w <==> v' == w'))
  {
    FollowSame(iso, h, x, h', x', p);
    FollowSame(iso, h, x, h', x', q);
  }

  /** The program can reach `v` from `x`. */
  ghost predicate Reached(h: Heap, x: Value, v: Value) {
    exists path :: Follow(h, x, path) == Some(v)
  }

  lemma ReachedItself(h: Heap, x: Value)
    ensures Reached(h, x, x)
  {
    assert Follow(h, x, []) == Some(x);
  }

  lemma ReachedThroughPart(h: Heap, x: Value, s: Selector, v: Value)
    requires Select(h, x, s).Some? && Reached(h, Select(h, x, s).value, v)
    ensures Reached(h, x, v)
  {
    var path :| Follow(h, Select(h, x, s).value, path) == Some(v);
    assert ([s] + path)[1..] == path;
    assert Follow(h, x, [s] + path) == Some(v);
  }

  // ---- the text under which a tuple is remembered ----

  function Decimal(n: nat): string {
    if n < 10 then [(n as char) + '0'] else Decimal(n / 10) + [((n % 10) as char) + '0']
  }

  /** The text under which a tuple is remembered: the uids of its items, each with a space in front. */
  function TupleKey(us: seq<nat>): string
    decreases |us|
  {
    if us == [] then "" else TupleKey(us[..|us| - 1]) + " " + Decimal(us[|us| - 1])
  }

  lemma {:induction false} DecimalHasNoSpace(n: nat)
    ensures Decimal(n) != "" && ' ' !in Decimal(n)
  {
    if n >= 10 { DecimalHasNoSpace(n / 10); }
  }

  lemma {:induction false} DecimalInjective(n: nat, k: nat)
    requires Decimal(n) == Decimal(k)
    ensures n == k
  {
    var d := Decimal(n);
    if n >= 10 && k >= 10 {
      assert d[..|d| - 1] == Decimal(n / 10) && d[..|d| - 1] == Decimal(k / 10);
      DecimalInjective(n / 10, k / 10);
      assert d[|d| - 1] == ((n % 10) as char) + '0' && d[|d| - 1] == ((k % 10) as char) + '0';
    } else if n >= 10 {
      DecimalHasNoSpace(n / 10);
    } else if k >= 10 {
      DecimalHasNoSpace(k / 10);
    }
  }

  lemma LaterSpaceIsInside(a: string, d: string, b: string, e: string)
    ensures a + " " + d == b + " " + e && |a| < |b| ==> ' ' in d
  {
    if a + " " + d == b + " " + e && |a| < |b| {
      assert (a + " " + d)[|b|] == ' ' == d[|b| - |a| - 1];
    }
  }

  lemma LastWordUnique(a: string, d: string, b: string, e: string)
    requires a + " " + d == b + " " + e && ' ' !in d && ' ' !in e
    ensures a == b && d == e
  {
    LaterSpaceIsInside(a, d, b, e);
    LaterSpaceIsInside(b, e, a, d);
    var t := a + " " + d;
    assert t[..|a|] == a && t[..|b|] == b && t[|a| + 1..] == d && t[|b| + 1..] == e;
  }

  lemma {:induction false} TupleKeyInjective(us: seq<nat>, ws: seq<nat>)
    requires TupleKey(us) == TupleKey(ws)
    ensures us == ws
    decreases |us|
  {
    if us != [] && ws != [] {
      var u, w := us[|us| - 1], ws[|ws| - 1];
      DecimalHasNoSpace(u);
      DecimalHasNoSpace(w);
      LastWordUnique(TupleKey(us[..|us| - 1]), Decimal(u), TupleKey(ws[..|ws| - 1]), Decimal(w));
      DecimalInjective(u, w);
      TupleKeyInjective(us[..|us| - 1], ws[..|ws| - 1]);
      assert us == us[..|us| - 1] + [u] && ws == ws[..|ws| - 1] + [w];
    }
  }

  // ---- what the dumper remembers, and what the program printed so far has built ----

  /** The dictionary `types`: one memo table per type.  Constants, strings and tuples are found
      by their text; the tables of lists and dictionaries run the other way, from uid to object. */
  datatype Types = Types(
    consts: map<(Kind, string), nat>,
    strs: map<string, nat>,
    tups: map<string, nat>,
    lists: map<nat, nat>,
    dicts: map<nat, nat>)

  /** `open` lists and dictionaries are being traversed: created, but still empty. */
  datatype Known = Known(types: Types, iso: Iso, openLists: set<nat>, openDicts: set<nat>, seed: nat, m: Machine)

  ghost predicate AtomsKnown(k: Known) {
    && (forall c :: c in k.types.consts ==> k.types.consts[c] in k.m.table && k.m.table[k.types.consts[c]] == Const(c.0, c.1))
    && (forall t :: t in k.types.strs ==> k.types.strs[t] in k.m.table && k.m.table[k.types.strs[t]] == Str(t))
  }

  ghost predicate TupleOf(table: map<nat, Value>, text: string, u: nat, us: seq<nat>) {
    && TupleKey(us) == text && u in table && (forall w :: w in us ==> w in table)
    && table[u] == Tup(Lookup(table, us))
  }

  ghost predicate TuplesKnown(k: Known) {
    forall t :: t in k.types.tups ==> exists us :: TupleOf(k.m.table, t, k.types.tups[t], us)
  }

  /** A memo table from uids to objects, the copies of these objects, and the identities in use. */
  ghost predicate MemoOk(memo: map<nat, nat>, ids: map<nat, nat>, open: set<nat>, sources: set<nat>, objects: set<nat>, next: nat) {
    && (forall u :: u in memo ==> memo[u] in ids)
    && (forall i :: i in ids ==> i in memo.Values)
    && open <= ids.Keys <= sources && Injective(ids) && ids.Values == objects
    && (forall j :: j in objects ==> j < next)
  }

  ghost predicate ListsKnown(h: Heap, k: Known) {
    && MemoOk(k.types.lists, k.iso.lists, k.openLists, h.lists.Keys, k.m.heap.lists.Keys, k.m.next)
    && forall u :: u in k.types.lists ==> u in k.m.table && k.m.table[u] == ListRef(k.iso.lists[k.types.lists[u]])
  }

  ghost predicate DictsKnown(h: Heap, k: Known) {
    && MemoOk(k.types.dicts, k.iso.dicts, k.openDicts, h.dicts.Keys, k.m.heap.dicts.Keys, k.m.next)
    && forall u :: u in k.types.dicts ==> u in k.m.table && k.m.table[u] == DictRef(k.iso.dicts[k.types.dicts[u]])
  }

  ghost predicate ListsCopied(h: Heap, k: Known)
    requires ListsKnown(h, k)
  {
    forall i :: i in k.iso.lists ==>
      if i in k.openLists then k.m.heap.lists[k.iso.lists[i]] == []
      else SameItems(k.iso, h.lists[i], k.m.heap.lists[k.iso.lists[i]])
  }

  ghost predicate DictsCopied(h: Heap, k: Known)
    requires DictsKnown(h, k)
  {
    forall i :: i in k.iso.dicts ==>
      if i in k.openDicts then k.m.heap.dicts[k.iso.dicts[i]] == map[]
      else SameEntries(k.iso, h.dicts[i], k.m.heap.dicts[k.iso.dicts[i]])
  }

  ghost predicate Inv(h: Heap, k: Known) {
    && k.m.named && (forall u :: u in k.m.table ==> u < k.seed)
    && AtomsKnown(k) && TuplesKnown(k) && ListsKnown(h, k) && DictsKnown(h, k)
    && ListsCopied(h, k) && DictsCopied(h, k)
  }

  ghost predicate SubMap<K, V>(m: map<K, V>, m': map<K, V>) {
    forall x :: x in m ==> x in m' && m'[x] == m[x]
  }

  /** What one call of `dumpobject` may change: memo tables and program only grow. */
  ghost predicate Grows(k: Known, k': Known) {
    && SubMap(k.m.table, k'.m.table)
    && SubMap(k.iso.lists, k'.iso.lists) && SubMap(k.iso.dicts, k'.iso.dicts)
    && SubMap(k.types.lists, k'.types.lists) && SubMap(k.types.dicts, k'.types.dicts)
    && k'.openLists == k.openLists && k'.openDicts == k.openDicts && k'.seed >= k.seed
  }

  /** Whatever was created between `k` and `k'` is part of one of `xs`. */
  ghost predicate NewFrom(h: Heap, k: Known, k': Known, xs: seq<Value>) {
    && (forall i :: i in k'.iso.lists && i !in k.iso.lists ==> exists n :: 0 <= n < |xs| && Reached(h, xs[n], ListRef(i)))
    && (forall i :: i in k'.iso.dicts && i !in k.iso.dicts ==> exists n :: 0 <= n < |xs| && Reached(h, xs[n], DictRef(i)))
  }

  lemma NewFromNothing(h: Heap, k: Known, k': Known, xs: seq<Value>)
    requires k'.iso == k.iso
    ensures NewFrom(h, k, k', xs)
  {
  }

  lemma NewFromSame(h: Heap, k: Known, k1: Known, k2: Known, xs: seq<Value>)
    requires NewFrom(h, k, k1, xs) && k2.iso == k1.iso
    ensures NewFrom(h, k, k2, xs)
  {
  }

  lemma NewFromNext(h: Heap, k: Known, k1: Known, k2: Known, xs: seq<Value>, x: Value)
    requires NewFrom(h, k, k1, xs) && NewFrom(h, k1, k2, [x])
    ensures NewFrom(h, k, k2, xs + [x])
  {
    var ys := xs + [x];
    forall i | i in k2.iso.lists && i !in k.iso.lists ensures exists n :: 0 <= n < |ys| && Reached(h, ys[n], ListRef(i)) {
      if i in k1.iso.lists {
        var n :| 0 <= n < |xs| && Reached(h, xs[n], ListRef(i));
        assert Reached(h, ys[n], ListRef(i));
      } else {
        assert Reached(h, ys[|xs|], ListRef(i));
      }
    }
    forall i | i in k2.iso.dicts && i !in k.iso.dicts ensures exists n :: 0 <= n < |ys| && Reached(h, ys[n], DictRef(i)) {
      if i in k1.iso.dicts {
        var n :| 0 <= n < |xs| && Reached(h, xs[n], DictRef(i));
        assert Reached(h, ys[n], DictRef(i));
      } else {
        assert Reached(h, ys[|xs|], DictRef(i));
      }
    }
  }

  ghost predicate PartsOf(h: Heap, x: Value, xs: seq<Value>, sels: seq<Selector>) {
    |sels| == |xs| && forall n :: 0 <= n < |xs| ==> Select(h, x, sels[n]) == Some(xs[n])
  }

  /** Apart from `x` itself, all that was created is part of a part of `x`. */
  lemma NewFromParts(h: Heap, k: Known, k1: Known, k2: Known, x: Value, xs: seq<Value>, sels: seq<Selector>)
    requires NewFrom(h, k1, k2, xs) && PartsOf(h, x, xs, sels)
    requires forall i :: i in k1.iso.lists && i !in k.iso.lists ==> x == ListRef(i)
    requires forall i :: i in k1.iso.dicts && i !in k.iso.dicts ==> x == DictRef(i)
    ensures NewFrom(h, k, k2, [x])
  {
    ReachedItself(h, x);
    forall i | i in k2.iso.lists && i !in k.iso.lists ensures Reached(h, [x][0], ListRef(i)) {
      if i !in k1.iso.lists {
        var n :| 0 <= n < |xs| && Reached(h, xs[n], ListRef(i));
        ReachedThroughPart(h, x, sels[n], ListRef(i));
      }
    }
    forall i | i in k2.iso.dicts && i !in k.iso.dicts ensures Reached(h, [x][0], DictRef(i)) {
      if i !in k1.iso.dicts {
        var n :| 0 <= n < |xs| && Reached(h, xs[n], DictRef(i));
        ReachedThroughPart(h, x, sels[n], DictRef(i));
      }
    }
  }

  function Indices(n: nat): seq<Selector> {
    seq(n, i requires 0 <= i => Index(i))
  }

  function Keys(keys: seq<string>): seq<Selector> {
    seq(|keys|, i requires 0 <= i < |keys| => Key(keys[i]))
  }

  lemma {:induction false} SameStays(iso: Iso, iso': Iso, v: Value, w: Value)
    requires Same(iso, v, w) && SubMap(iso.lists, iso'.lists) && SubMap(iso.dicts, iso'.dicts)
    ensures Same(iso', v, w)
    decreases v
  {
    if v.Tup? {
      forall k | 0 <= k < |v.items| ensures Same(iso', v.items[k], w.items[k]) {
        SameStays(iso, iso', v.items[k], w.items[k]);
      }
    }
  }

  lemma CopiesStay(h: Heap, k: Known, k': Known)
    requires ListsKnown(h, k) && DictsKnown(h, k) && ListsCopied(h, k) && DictsCopied(h, k)
    requires SubMap(k.iso.lists, k'.iso.lists) && SubMap(k.iso.dicts, k'.iso.dicts)
    ensures forall i :: i in k.iso.lists && i !in k.openLists ==> SameItems(k'.iso, h.lists[i], k.m.heap.lists[k.iso.lists[i]])
    ensures forall i :: i in k.iso.dicts && i !in k.openDicts ==> SameEntries(k'.iso, h.dicts[i], k.m.heap.dicts[k.iso.dicts[i]])
  {
    forall i | i in k.iso.lists && i !in k.openLists
      ensures SameItems(k'.iso, h.lists[i], k.m.heap.lists[k.iso.lists[i]])
    {
      var ws := k.m.heap.lists[k.iso.lists[i]];
      forall n | 0 <= n < |ws| ensures Same(k'.iso, h.lists[i][n], ws[n]) {
        SameStays(k.iso, k'.iso, h.lists[i][n], ws[n]);
      }
    }
    forall i | i in k.iso.dicts && i !in k.openDicts
      ensures SameEntries(k'.iso, h.dicts[i], k.m.heap.dicts[k.iso.dicts[i]])
    {
      var ws := k.m.heap.dicts[k.iso.dicts[i]];
      forall s | s in ws ensures Same(k'.iso, h.dicts[i][s], ws[s]) {
        SameStays(k.iso, k'.iso, h.dicts[i][s], ws[s]);
      }
    }
  }

  /** `A[seed] = v` for a new uid. */
  ghost function Named(k: Known, v: Value): Known {
    k.(seed := k.seed + 1, m := k.m.(table := k.m.table[k.seed := v]))
  }

  lemma TupleStays(table: map<nat, Value>, table': map<nat, Value>, t: string, u: nat, us: seq<nat>)
    requires TupleOf(table, t, u, us) && SubMap(table, table')
    ensures TupleOf(table', t, u, us)
  {
    assert Lookup(table, us) == Lookup(table', us);
  }

  lemma TuplesStay(k: Known, k': Known)
    requires TuplesKnown(k) && SubMap(k.m.table, k'.m.table) && k'.types.tups == k.types.tups
    ensures TuplesKnown(k')
  {
    forall t | t in k.types.tups ensures exists us :: TupleOf(k'.m.table, t, k.types.tups[t], us) {
      var us :| TupleOf(k.m.table, t, k.types.tups[t], us);
      TupleStays(k.m.table, k'.m.table, t, k.types.tups[t], us);
    }
  }

  lemma NamingKeepsInv(h: Heap, k: Known, v: Value)
    requires Inv(h, k)
    ensures Inv(h, Named(k, v)) && Grows(k, Named(k, v))
  {
    TuplesStay(k, Named(k, v));
  }

  ghost function WithConst(k: Known, c: (Kind, string)): Known {
    Named(k, Const(c.0, c.1)).(types := k.types.(consts := k.types.consts[c := k.seed]))
  }

  /** The memo tables of constants and strings are independent of the others. */
  lemma AtomsApart(h: Heap, k: Known, k': Known)
    requires Inv(h, k) && AtomsKnown(k') && k' == k.(types := k.types.(consts := k'.types.consts, strs := k'.types.strs))
    ensures Inv(h, k')
  {
    hide AtomsKnown, SameItems, SameEntries, TupleOf, MemoOk;
  }

  lemma NewAtomKnown(k: Known, c: (Kind, string), t: string)
    requires AtomsKnown(k) && UidsUsed(k)
    ensures AtomsKnown(WithConst(k, c)) && AtomsKnown(WithStr(k, t))
  {
  }

  lemma NewConstKeepsInv(h: Heap, k: Known, c: (Kind, string))
    requires Inv(h, k)
    ensures Inv(h, WithConst(k, c)) && Grows(k, WithConst(k, c))
  {
    NamingKeepsInv(h, k, Const(c.0, c.1));
    KnownAtoms(h, k);
    NewAtomKnown(k, c, "");
    hide Inv, AtomsKnown, SubMap;
    AtomsApart(h, Named(k, Const(c.0, c.1)), WithConst(k, c));
  }

  ghost function WithStr(k: Known, t: string): Known {
    Named(k, Str(t)).(types := k.types.(strs := k.types.strs[t := k.seed]))
  }

  lemma NewStrKeepsInv(h: Heap, k: Known, t: string)
    requires Inv(h, k)
    ensures Inv(h, WithStr(k, t)) && Grows(k, WithStr(k, t))
  {
    NamingKeepsInv(h, k, Str(t));
    KnownAtoms(h, k);
    NewAtomKnown(k, (NoneKind, ""), t);
    hide Inv, AtomsKnown, SubMap;
    AtomsApart(h, Named(k, Str(t)), WithStr(k, t));
  }

  lemma KnownAtoms(h: Heap, k: Known)
    requires Inv(h, k)
    ensures AtomsKnown(k) && UidsUsed(k)
  {
  }

  lemma GrowsItself(k: Known)
    ensures Grows(k, k)
  {
  }

  lemma GrowsThrough(k: Known, k1: Known, k2: Known)
    requires Grows(k, k1) && Grows(k1, k2)
    ensures Grows(k, k2)
  {
  }

  lemma LessToDo(h: Heap, k: Known, k': Known)
    requires Grows(k, k')
    ensures h.lists.Keys - k'.iso.lists.Keys <= h.lists.Keys - k.iso.lists.Keys
    ensures h.dicts.Keys - k'.iso.dicts.Keys <= h.dicts.Keys - k.iso.dicts.Keys
  {
  }

  ghost function OpenedList(k: Known, i: nat): Known {
    Known(k.types.(lists := k.types.lists[k.seed := i]), k.iso.(lists := k.iso.lists[i := k.m.next]),
          k.openLists + {i}, k.openDicts, k.seed + 1,
          k.m.(table := k.m.table[k.seed := ListRef(k.m.next)], heap := k.m.heap.(lists := k.m.heap.lists[k.m.next := []]), next := k.m.next + 1))
  }

  ghost predicate UidsUsed(k: Known) { k.m.named && forall u :: u in k.m.table ==> u < k.seed }

  lemma ValuesGrow(m: map<nat, nat>, x: nat, y: nat)
    requires x !in m
    ensures m[x := y].Values == m.Values + {y}
  {
    var m' := m[x := y];
    assert m'[x] == y && forall z :: z in m ==> m'[z] == m[z];
  }

  lemma MemoOpens(memo: map<nat, nat>, ids: map<nat, nat>, open: set<nat>, sources: set<nat>, objects: set<nat>, next: nat, u: nat, i: nat)
    requires MemoOk(memo, ids, open, sources, objects, next) && u !in memo && i in sources && i !in ids
    ensures MemoOk(memo[u := i], ids[i := next], open + {i}, sources, objects + {next}, next + 1)
  {
    ValuesGrow(memo, u, i);
    ValuesGrow(ids, i, next);
  }

  lemma OpenedListInTable(h: Heap, k: Known, i: nat, u: nat)
    requires UidsUsed(k) && ListsKnown(h, k) && i !in k.iso.lists && u in OpenedList(k, i).types.lists
    ensures var k' := OpenedList(k, i); var j := k'.types.lists[u];
      j in k'.iso.lists && u in k'.m.table && k'.m.table[u] == ListRef(k'.iso.lists[j])
  {
    hide Injective;
  }

  lemma OpenedListKnown(h: Heap, k: Known, i: nat)
    requires UidsUsed(k) && ListsKnown(h, k) && i in h.lists && i !in k.iso.lists
    ensures ListsKnown(h, OpenedList(k, i))
  {
    var k' := OpenedList(k, i);
    assert k.seed !in k.types.lists;
    hide ListsKnown, MemoOk;
    assert MemoOk(k.types.lists, k.iso.lists, k.openLists, h.lists.Keys, k.m.heap.lists.Keys, k.m.next) by { ListsMemo(h, k); }
    MemoOpens(k.types.lists, k.iso.lists, k.openLists, h.lists.Keys, k.m.heap.lists.Keys, k.m.next, k.seed, i);
    assert k'.m.heap.lists.Keys == k.m.heap.lists.Keys + {k.m.next};
    forall u | u in k'.types.lists
      ensures k'.types.lists[u] in k'.iso.lists && u in k'.m.table && k'.m.table[u] == ListRef(k'.iso.lists[k'.types.lists[u]])
    {
      OpenedListInTable(h, k, i, u);
    }
    ListsKnownFrom(h, k');
  }

  lemma ListsMemo(h: Heap, k: Known)
    requires ListsKnown(h, k)
    ensures MemoOk(k.types.lists, k.iso.lists, k.openLists, h.lists.Keys, k.m.heap.lists.Keys, k.m.next)
  {
  }

  lemma ListsKnownFrom(h: Heap, k: Known)
    requires MemoOk(k.types.lists, k.iso.lists, k.openLists, h.lists.Keys, k.m.heap.lists.Keys, k.m.next)
    requires forall u :: u in k.types.lists ==> u in k.m.table && k.m.table[u] == ListRef(k.iso.lists[k.types.lists[u]])
    ensures ListsKnown(h, k)
  {
  }

  lemma OpenedListOthers(h: Heap, k: Known, i: nat)
    requires UidsUsed(k) && DictsKnown(h, k) && AtomsKnown(k) && TuplesKnown(k)
    ensures var k' := OpenedList(k, i); DictsKnown(h, k') && AtomsKnown(k') && TuplesKnown(k') && UidsUsed(k')
  {
    TuplesStay(k, OpenedList(k, i));
  }

  lemma OpenedListCopied(h: Heap, k: Known, i: nat)
    requires ListsKnown(h, k) && ListsCopied(h, k)
    requires i in h.lists && i !in k.iso.lists
    requires ListsKnown(h, OpenedList(k, i))
    requires forall j :: j in k.iso.lists && j !in k.openLists ==>
      SameItems(OpenedList(k, i).iso, h.lists[j], k.m.heap.lists[k.iso.lists[j]])
    ensures ListsCopied(h, OpenedList(k, i))
  {
    var k' := OpenedList(k, i);
    forall j | j in k'.iso.lists
      ensures if j in k'.openLists then k'.m.heap.lists[k'.iso.lists[j]] == []
              else SameItems(k'.iso, h.lists[j], k'.m.heap.lists[k'.iso.lists[j]])
    {
      if j != i { OpenedListLeaves(h, k, i, j); }
    }
  }

  lemma OpenedListLeaves(h: Heap, k: Known, i: nat, j: nat)
    requires ListsKnown(h, k) && i !in k.iso.lists && j in k.iso.lists
    ensures var k' := OpenedList(k, i); var c := k.iso.lists[j];
      k'.iso.lists[j] == c && c in k.m.heap.lists && k'.m.heap.lists[c] == k.m.heap.lists[c]
  {
  }

  lemma OpeningListKeepsInv(h: Heap, k: Known, i: nat)
    requires Inv(h, k) && i in h.lists && i !in k.iso.lists
    ensures Inv(h, OpenedList(k, i))
  {
    OpenedListKnown(h, k, i);
    OpenedListOthers(h, k, i);
    CopiesStay(h, k, OpenedList(k, i));
    OpenedListCopied(h, k, i);
  }

  ghost function OpenedDict(k: Known, i: nat): Known {
    Known(k.types.(dicts := k.types.dicts[k.seed := i]), k.iso.(dicts := k.iso.dicts[i := k.m.next]),
          k.openLists, k.openDicts + {i}, k.seed + 1,
          k.m.(table := k.m.table[k.seed := DictRef(k.m.next)], heap := k.m.heap.(dicts := k.m.heap.dicts[k.m.next := map[]]), next := k.m.next + 1))
  }

  lemma OpenedDictInTable(h: Heap, k: Known, i: nat, u: nat)
    requires UidsUsed(k) && DictsKnown(h, k) && i !in k.iso.dicts && u in OpenedDict(k, i).types.dicts
    ensures var k' := OpenedDict(k, i); var j := k'.types.dicts[u];
      j in k'.iso.dicts && u in k'.m.table && k'.m.table[u] == DictRef(k'.iso.dicts[j])
  {
    hide Injective;
  }

  lemma OpenedDictKnown(h: Heap, k: Known, i: nat)
    requires UidsUsed(k) && DictsKnown(h, k) && i in h.dicts && i !in k.iso.dicts
    ensures DictsKnown(h, OpenedDict(k, i))
  {
    var k' := OpenedDict(k, i);
    assert k.seed !in k.types.dicts;
    hide DictsKnown, MemoOk;
    assert MemoOk(k.types.dicts, k.iso.dicts, k.openDicts, h.dicts.Keys, k.m.heap.dicts.Keys, k.m.next) by { DictsMemo(h, k); }
    MemoOpens(k.types.dicts, k.iso.dicts, k.openDicts, h.dicts.Keys, k.m.heap.dicts.Keys, k.m.next, k.seed, i);
    assert k'.m.heap.dicts.Keys == k.m.heap.dicts.Keys + {k.m.next};
    forall u | u in k'.types.dicts
      ensures k'.types.dicts[u] in k'.iso.dicts && u in k'.m.table && k'.m.table[u] == DictRef(k'.iso.dicts[k'.types.dicts[u]])
    {
      OpenedDictInTable(h, k, i, u);
    }
    DictsKnownFrom(h, k');
  }

  lemma DictsMemo(h: Heap, k: Known)
    requires DictsKnown(h, k)
    ensures MemoOk(k.types.dicts, k.iso.dicts, k.openDicts, h.dicts.Keys, k.m.heap.dicts.Keys, k.m.next)
  {
  }

  lemma DictsKnownFrom(h: Heap, k: Known)
    requires MemoOk(k.types.dicts, k.iso.dicts, k.openDicts, h.dicts.Keys, k.m.heap.dicts.Keys, k.m.next)
    requires forall u :: u in k.types.dicts ==> u in k.m.table && k.m.table[u] == DictRef(k.iso.dicts[k.types.dicts[u]])
    ensures DictsKnown(h, k)
  {
  }

  lemma OpenedDictOthers(h: Heap, k: Known, i: nat)
    requires UidsUsed(k) && ListsKnown(h, k) && AtomsKnown(k) && TuplesKnown(k)
    ensures var k' := OpenedDict(k, i); ListsKnown(h, k') && AtomsKnown(k') && TuplesKnown(k') && UidsUsed(k')
  {
    TuplesStay(k, OpenedDict(k, i));
  }

  lemma OpenedDictCopied(h: Heap, k: Known, i: nat)
    requires DictsKnown(h, k) && DictsCopied(h, k)
    requires i in h.dicts && i !in k.iso.dicts
    requires DictsKnown(h, OpenedDict(k, i))
    requires forall j :: j in k.iso.dicts && j !in k.openDicts ==>
      SameEntries(OpenedDict(k, i).iso, h.dicts[j], k.m.heap.dicts[k.iso.dicts[j]])
    ensures DictsCopied(h, OpenedDict(k, i))
  {
    var k' := OpenedDict(k, i);
    forall j | j in k'.iso.dicts
      ensures if j in k'.openDicts then k'.m.heap.dicts[k'.iso.dicts[j]] == map[]
              else SameEntries(k'.iso, h.dicts[j], k'.m.heap.dicts[k'.iso.dicts[j]])
    {
      if j != i { OpenedDictLeaves(h, k, i, j); }
    }
  }

  lemma OpenedDictLeaves(h: Heap, k: Known, i: nat, j: nat)
    requires DictsKnown(h, k) && i !in k.iso.dicts && j in k.iso.dicts
    ensures var k' := OpenedDict(k, i); var c := k.iso.dicts[j];
      k'.iso.dicts[j] == c && c in k.m.heap.dicts && k'.m.heap.dicts[c] == k.m.heap.dicts[c]
  {
  }

  lemma OpeningDictKeepsInv(h: Heap, k: Known, i: nat)
    requires Inv(h, k) && i in h.dicts && i !in k.iso.dicts
    ensures Inv(h, OpenedDict(k, i))
  {
    OpenedDictKnown(h, k, i);
    OpenedDictOthers(h, k, i);
    CopiesStay(h, k, OpenedDict(k, i));
    OpenedDictCopied(h, k, i);
  }

  /** The list has been filled with copies of its items and is no longer open. */
  ghost function ClosedList(k: Known, i: nat, ws: seq<Value>): Known
    requires i in k.iso.lists
  {
    k.(openLists := k.openLists - {i}, m := WithList(k.m, k.iso.lists[i], ws))
  }

  lemma ClosedListKnown(h: Heap, k: Known, i: nat, ws: seq<Value>)
    requires ListsKnown(h, k) && i in k.openLists && k.m.named
    ensures i in k.iso.lists && ListsKnown(h, ClosedList(k, i, ws))
  {
    ListsMemo(h, k);
    var k' := ClosedList(k, i, ws);
    assert k'.m.heap.lists.Keys == k.m.heap.lists.Keys;
    hide Injective;
  }

  lemma ClosedListCopied(h: Heap, k: Known, i: nat, ws: seq<Value>)
    requires ListsKnown(h, k) && ListsCopied(h, k) && i in k.openLists && SameItems(k.iso, h.lists[i], ws)
    requires ListsKnown(h, ClosedList(k, i, ws))
    ensures ListsCopied(h, ClosedList(k, i, ws))
  {
    hide SameItems;
  }

  lemma ClosedListOthers(h: Heap, k: Known, i: nat, ws: seq<Value>)
    requires i in k.iso.lists && AtomsKnown(k) && TuplesKnown(k) && DictsKnown(h, k) && DictsCopied(h, k)
    ensures var k' := ClosedList(k, i, ws); AtomsKnown(k') && TuplesKnown(k') && DictsKnown(h, k') && DictsCopied(h, k')
  {
    hide Injective, SameEntries, TupleOf;
  }

  lemma ClosingListKeepsInv(h: Heap, k: Known, i: nat, ws: seq<Value>)
    requires Inv(h, k) && i in k.openLists && SameItems(k.iso, h.lists[i], ws)
    ensures Inv(h, ClosedList(k, i, ws))
  {
    hide ListsKnown, DictsKnown, ListsCopied, DictsCopied, AtomsKnown, TuplesKnown, SameItems, SameEntries;
    ClosedListKnown(h, k, i, ws);
    ClosedListCopied(h, k, i, ws);
    ClosedListOthers(h, k, i, ws);
  }

  ghost function ClosedDict(k: Known, i: nat, ws: map<string, Value>): Known
    requires i in k.iso.dicts
  {
    k.(openDicts := k.openDicts - {i}, m := WithDict(k.m, k.iso.dicts[i], ws))
  }

  lemma ClosedDictKnown(h: Heap, k: Known, i: nat, ws: map<string, Value>)
    requires DictsKnown(h, k) && i in k.openDicts && k.m.named
    ensures i in k.iso.dicts && DictsKnown(h, ClosedDict(k, i, ws))
  {
    DictsMemo(h, k);
    var k' := ClosedDict(k, i, ws);
    assert k'.m.heap.dicts.Keys == k.m.heap.dicts.Keys;
    hide Injective;
  }

  lemma ClosedDictCopied(h: Heap, k: Known, i: nat, ws: map<string, Value>)
    requires DictsKnown(h, k) && DictsCopied(h, k) && i in k.openDicts && SameEntries(k.iso, h.dicts[i], ws)
    requires DictsKnown(h, ClosedDict(k, i, ws))
    ensures DictsCopied(h, ClosedDict(k, i, ws))
  {
    hide SameEntries;
  }

  lemma ClosedDictOthers(h: Heap, k: Known, i: nat, ws: map<string, Value>)
    requires i in k.iso.dicts && AtomsKnown(k) && TuplesKnown(k) && ListsKnown(h, k) && ListsCopied(h, k)
    ensures var k' := ClosedDict(k, i, ws); AtomsKnown(k') && TuplesKnown(k') && ListsKnown(h, k') && ListsCopied(h, k')
  {
    hide Injective, SameItems, TupleOf;
  }

  lemma ClosingDictKeepsInv(h: Heap, k: Known, i: nat, ws: map<string, Value>)
    requires Inv(h, k) && i in k.openDicts && SameEntries(k.iso, h.dicts[i], ws)
    ensures Inv(h, ClosedDict(k, i, ws))
  {
    hide ListsKnown, DictsKnown, ListsCopied, DictsCopied, AtomsKnown, TuplesKnown, SameItems, SameEntries;
    ClosedDictKnown(h, k, i, ws);
    ClosedDictCopied(h, k, i, ws);
    ClosedDictOthers(h, k, i, ws);
  }

  /** A tuple with this text has been printed before exactly when it had the same items. */
  lemma KnownTupleIsSame(h: Heap, k: Known, us: seq<nat>)
    requires Inv(h, k) && TupleKey(us) in k.types.tups && forall w :: w in us ==> w in k.m.table
    ensures var u := k.types.tups[TupleKey(us)]; u in k.m.table && k.m.table[u] == Tup(Lookup(k.m.table, us))
  {
    var ws :| TupleOf(k.m.table, TupleKey(us), k.types.tups[TupleKey(us)], ws);
    TupleKeyInjective(us, ws);
  }

  ghost function WithTuple(k: Known, us: seq<nat>, u: nat): Known {
    k.(types := k.types.(tups := k.types.tups[TupleKey(us) := u]))
  }

  lemma TupleRemembered(k: Known, us: seq<nat>, u: nat)
    requires TuplesKnown(k) && TupleOf(k.m.table, TupleKey(us), u, us)
    ensures TuplesKnown(WithTuple(k, us, u))
  {
    var k' := WithTuple(k, us, u);
    forall t | t in k'.types.tups ensures exists ws :: TupleOf(k'.m.table, t, k'.types.tups[t], ws) {
      if t == TupleKey(us) {
        assert TupleOf(k'.m.table, t, u, us);
      }
    }
  }

  lemma TupleParts(h: Heap, x: Value)
    requires InHeap(h, x) && x.Tup?
    ensures forall n :: 0 <= n < |x.items| ==> InHeap(h, x.items[n])
    ensures PartsOf(h, x, x.items, Indices(|x.items|))
  {
  }

  lemma SameTuple(iso: Iso, x: Value, ws: seq<Value>)
    requires x.Tup? && |ws| == |x.items| && forall n :: 0 <= n < |ws| ==> Same(iso, x.items[n], ws[n])
    ensures Same(iso, x, Tup(ws))
  {
  }

  lemma NewTupleKeepsInv(h: Heap, k: Known, us: seq<nat>)
    requires Inv(h, k) && forall w :: w in us ==> w in k.m.table
    ensures var k' := WithTuple(Named(k, Tup(Lookup(k.m.table, us))), us, k.seed); Inv(h, k') && Grows(k, k')
  {
    var k1 := Named(k, Tup(Lookup(k.m.table, us)));
    NamingKeepsInv(h, k, Tup(Lookup(k.m.table, us)));
    assert Lookup(k.m.table, us) == Lookup(k1.m.table, us);
    TupleRemembered(k1, us, k.seed);
  }

  // ---- nothing is printed twice ----

  /** A constant, a string or a tuple that a statement creates is in the memo table. */
  predicate Remembered(s: Stmt, t: Types) {
    match s
    case SetConst(_, Const(kind, repr)) => (kind, repr) in t.consts
    case SetConst(_, Str(text)) => text in t.strs
    case SetConst(_, _) => false
    case SetTuple(_, us) => TupleKey(us) in t.tups
    case _ => true
  }

  /** Two statements create the same constant, string or tuple. */
  predicate Twice(s: Stmt, s': Stmt) {
    (s.SetConst? && s'.SetConst? && s.value == s'.value) || (s.SetTuple? && s'.SetTuple? && s.uids == s'.uids)
  }

  ghost predicate Once(out: seq<Stmt>, t: Types) {
    && (forall k :: 0 <= k < |out| ==> Remembered(out[k], t))
    && (forall j, k :: 0 <= j < k < |out| ==> !Twice(out[j], out[k]))
  }

  /** A statement that creates something new, once that is remembered. */
  lemma OnceMore(out: seq<Stmt>, t: Types, t': Types, s: Stmt)
    requires Once(out, t) && SubMap(t.consts, t'.consts) && SubMap(t.strs, t'.strs) && SubMap(t.tups, t'.tups)
    requires Remembered(s, t') && (s.SetConst? || s.SetTuple? ==> !Remembered(s, t))
    ensures Once(out + [s], t')
  {
    hide TupleKey;
    var out' := out + [s];
    forall k | 0 <= k < |out'| ensures Remembered(out'[k], t') {
      if k < |out| { assert Remembered(out[k], t); }
    }
    forall j, k | 0 <= j < k < |out'| ensures !Twice(out'[j], out'[k]) {
      assert Remembered(out[j], t);
    }
  }

  lemma NothingTwice(out: seq<Stmt>, t: Types)
    requires Once(out, t)
    ensures forall j, k :: 0 <= j < k < |out| ==> !Twice(out[j], out[k])
  {
  }

  // ---- the dumper ----

  /** The entries of `stack` are lists and dictionaries under the uids they were given. */
  predicate StackKnown(stack: seq<(Value, nat)>, types: Types) {
    forall n :: 0 <= n < |stack| ==>
      match stack[n].0
      case ListRef(i) => stack[n].1 in types.lists && types.lists[stack[n].1] == i
      case DictRef(i) => stack[n].1 in types.dicts && types.dicts[stack[n].1] == i
      case _ => false
  }

  lemma StackStays(stack: seq<(Value, nat)>, types: Types, types': Types)
    requires StackKnown(stack, types) && types'.lists == types.lists && types'.dicts == types.dicts
    ensures StackKnown(stack, types')
  {
  }

  lemma KnownListIsSame(h: Heap, k: Known, u: nat)
    requires Inv(h, k) && u in k.types.lists
    ensures u in k.m.table && Same(k.iso, ListRef(k.types.lists[u]), k.m.table[u])
  {
  }

  lemma NewListIsNew(h: Heap, k: Known, i: nat)
    requires Inv(h, k) && i !in k.types.lists.Values
    ensures i !in k.iso.lists && k.seed !in k.types.lists && k.m.named
    ensures k.openLists <= k.iso.lists.Keys && k.seed !in k.m.table
  {
  }

  lemma NewDictIsNew(h: Heap, k: Known, i: nat)
    requires Inv(h, k) && i !in k.types.dicts.Values
    ensures i !in k.iso.dicts && k.seed !in k.types.dicts && k.m.named
    ensures k.openDicts <= k.iso.dicts.Keys && k.seed !in k.m.table
  {
  }

  lemma KnownDictIsSame(h: Heap, k: Known, u: nat)
    requires Inv(h, k) && u in k.types.dicts
    ensures u in k.m.table && Same(k.iso, DictRef(k.types.dicts[u]), k.m.table[u])
  {
  }

  lemma ListStillOpen(k: Known, k': Known, u: nat, i: nat)
    requires Grows(k, k') && u in k.types.lists && k.types.lists[u] == i && i in k.openLists && i in k.iso.lists
    ensures u in k'.types.lists && k'.types.lists[u] == i && i in k'.openLists && i in k'.iso.lists
  {
  }

  lemma DictStillOpen(k: Known, k': Known, u: nat, i: nat)
    requires Grows(k, k') && u in k.types.dicts && k.types.dicts[u] == i && i in k.openDicts && i in k.iso.dicts
    ensures u in k'.types.dicts && k'.types.dicts[u] == i && i in k'.openDicts && i in k'.iso.dicts
  {
  }

  lemma StackShorter(stack: seq<(Value, nat)>, types: Types)
    requires StackKnown(stack, types) && stack != []
    ensures StackKnown(stack[..|stack| - 1], types)
  {
  }

  /** From before a list is created to after it is filled, everything has only grown. */
  lemma ListDumped(k: Known, i: nat, k': Known, ws: seq<Value>)
    requires k.openLists <= k.iso.lists.Keys && k.seed !in k.m.table && k.seed !in k.types.lists
    requires i !in k.iso.lists && Grows(OpenedList(k, i), k') && i in k'.iso.lists
    ensures Grows(k, ClosedList(k', i, ws))
  {
    assert k.openLists == k.openLists + {i} - {i};
    assert SubMap(k.m.table, OpenedList(k, i).m.table);
  }

  lemma DictDumped(k: Known, i: nat, k': Known, ws: map<string, Value>)
    requires k.openDicts <= k.iso.dicts.Keys && k.seed !in k.m.table && k.seed !in k.types.dicts
    requires i !in k.iso.dicts && Grows(OpenedDict(k, i), k') && i in k'.iso.dicts
    ensures Grows(k, ClosedDict(k', i, ws))
  {
    assert k.openDicts == k.openDicts + {i} - {i};
    assert SubMap(k.m.table, OpenedDict(k, i).m.table);
  }

  /** The contents of an open list are still empty. */
  lemma OpenListIsEmpty(h: Heap, k: Known, u: nat)
    requires Inv(h, k) && u in k.types.lists && k.types.lists[u] in k.openLists
    ensures var i := k.types.lists[u];
      && u in k.m.table && i in k.iso.lists && k.m.table[u] == ListRef(k.iso.lists[i])
      && k.iso.lists[i] in k.m.heap.lists && k.m.heap.lists[k.iso.lists[i]] == [] && k.m.named
  {
  }

  lemma OpenDictIsEmpty(h: Heap, k: Known, u: nat)
    requires Inv(h, k) && u in k.types.dicts && k.types.dicts[u] in k.openDicts
    ensures var i := k.types.dicts[u];
      && u in k.m.table && i in k.iso.dicts && k.m.table[u] == DictRef(k.iso.dicts[i])
      && k.iso.dicts[i] in k.m.heap.dicts && k.m.heap.dicts[k.iso.dicts[i]] == map[] && k.m.named
  {
  }

  lemma SameAfterGrowth(k: Known, k': Known, xs: seq<Value>, us: seq<nat>)
    requires Grows(k, k') && |us| <= |xs|
    requires forall n :: 0 <= n < |us| ==> us[n] in k.m.table && Same(k.iso, xs[n], k.m.table[us[n]])
    ensures forall n :: 0 <= n < |us| ==> us[n] in k'.m.table && Same(k'.iso, xs[n], k'.m.table[us[n]])
  {
    forall n | 0 <= n < |us| ensures us[n] in k'.m.table && Same(k'.iso, xs[n], k'.m.table[us[n]]) {
      SameStays(k.iso, k'.iso, xs[n], k.m.table[us[n]]);
    }
  }

  /** The state of one call of `dump`: its memo tables, its stack, the uid counter and the
      statements printed so far.  The ghost fields describe what these statements do. */
  class Dumper {
    var types: Types
    var stack: seq<(Value, nat)>
    var seed: nat
    var out: seq<Stmt>
    ghost var iso: Iso
    ghost var openLists: set<nat>
    ghost var openDicts: set<nat>
    ghost var m: Machine

    ghost function K(): Known
      reads this
    {
      Known(types, iso, openLists, openDicts, seed, m)
    }

    ghost predicate Valid(h: Heap)
      reads this
    {
      Run(out) == Some(m) && Inv(h, K()) && StackKnown(stack, types) && Once(out, types)
    }

    /** `seed` is shared by all dumps of a session, so it starts anywhere. */
    constructor (seed: nat)
      ensures Valid(Heap(map[], map[])) && out == [MakeTable]
      ensures K() == Known(Types(map[], map[], map[], map[], map[]), Iso(map[], map[]), {}, {}, seed, Fresh.(named := true))
    {
      types, stack, this.seed := Types(map[], map[], map[], map[], map[]), [], seed;
      out := [MakeTable];
      iso, openLists, openDicts, m := Iso(map[], map[]), {}, {}, Fresh.(named := true);
      new;
      RunOneMore([], MakeTable);
      assert [] + [MakeTable] == out;
    }

    method Print(s: Stmt)
      requires Run(out) == Some(m) && Exec(m, s).Some? && Once(out + [s], types)
      modifies this`out, this`m
      ensures out == old(out) + [s] && Exec(old(m), s) == Some(m) && Run(out) == Some(m) && Once(out, types)
    {
      RunOneMore(out, s);
      out := out + [s];
      m := Exec(m, s).value;
    }

    method GenUid() returns (uid: nat)
      modifies this`seed
      ensures uid == old(seed) && seed == old(seed) + 1
    {
      uid := seed;
      seed := seed + 1;
    }

    /** The last entry of the stack goes, if there is one. */
    method DropTop()
      requires StackKnown(stack, types)
      modifies this`stack
      ensures stack == if old(stack) == [] then [] else old(stack)[..|old(stack)| - 1]
      ensures StackKnown(stack, types)
    {
      if stack != [] { StackShorter(stack, types); }
      if stack != [] { stack := stack[..|stack| - 1]; }
    }

    method DumpValue(h: Heap, x: Value) returns (uid: nat)
      requires Valid(h) && x.Const?
      modifies this
      ensures Valid(h) && Grows(old(K()), K()) && NewFrom(h, old(K()), K(), [x])
      ensures uid in m.table && Same(iso, x, m.table[uid])
    {
      hide Once, Inv, Run, Grows, NewFrom, StackKnown;
      var xrepr := (x.kind, x.repr);
      KnownAtoms(h, K());
      GrowsItself(K());
      NewFromNothing(h, K(), K(), [x]);
      if xrepr in types.consts { return types.consts[xrepr]; }
      ghost var k := K();
      NewConstKeepsInv(h, k, xrepr);
      NewFromNothing(h, k, WithConst(k, xrepr), [x]);
      StackStays(stack, types, WithConst(k, xrepr).types);
      uid := GenUid();
      OnceMore(out, types, types.(consts := types.consts[xrepr := uid]), SetConst(uid, x));
      types := types.(consts := types.consts[xrepr := uid]);
      Print(SetConst(uid, x));
    }

    method DumpString(h: Heap, x: Value) returns (uid: nat)
      requires Valid(h) && x.Str?
      modifies this
      ensures Valid(h) && Grows(old(K()), K()) && NewFrom(h, old(K()), K(), [x])
      ensures uid in m.table && Same(iso, x, m.table[uid])
    {
      hide Once, Inv, Run, Grows, NewFrom, StackKnown;
      KnownAtoms(h, K());
      GrowsItself(K());
      NewFromNothing(h, K(), K(), [x]);
      if x.text in types.strs { return types.strs[x.text]; }
      ghost var k := K();
      NewStrKeepsInv(h, k, x.text);
      NewFromNothing(h, k, WithStr(k, x.text), [x]);
      StackStays(stack, types, WithStr(k, x.text).types);
      uid := GenUid();
      OnceMore(out, types, types.(strs := types.strs[x.text := uid]), SetConst(uid, x));
      types := types.(strs := types.strs[x.text := uid]);
      Print(SetConst(uid, x));
    }

    /** The search for the same object, among those that are being dumped and among those that have been. */
    method FindUid(x: Value) returns (uid: Option<nat>)
      requires StackKnown(stack, types) && (x.ListRef? || x.DictRef?)
      ensures x.ListRef? ==> match uid
                case Some(u) => u in types.lists && types.lists[u] == x.id
                case None => x.id !in types.lists.Values
      ensures x.DictRef? ==> match uid
                case Some(u) => u in types.dicts && types.dicts[u] == x.id
                case None => x.id !in types.dicts.Values
    {
      for n := 0 to |stack| {
        if stack[n].0 == x { return Some(stack[n].1); }
      }
      var typedict := if x.ListRef? then types.lists else types.dicts;
      var keys := typedict.Keys;
      while keys != {}
        invariant keys <= typedict.Keys
        invariant forall u :: u in typedict && u !in keys ==> typedict[u] != x.id
        decreases keys
      {
        var u :| u in keys;
        if typedict[u] == x.id { return Some(u); }
        keys := keys - {u};
      }
      return None;
    }

    method DumpObject(h: Heap, order: Order, x: Value) returns (uid: nat)
      requires Valid(h) && Closed(h) && OrderFor(h, order) && InHeap(h, x)
      modifies this
      ensures Valid(h) && Grows(old(K()), K()) && NewFrom(h, old(K()), K(), [x])
      ensures uid in m.table && Same(iso, x, m.table[uid])
      decreases h.lists.Keys - iso.lists.Keys, h.dicts.Keys - iso.dicts.Keys, x, 2
    {
      match x
      case Const(_, _) => uid := DumpValue(h, x);
      case Str(_) => uid := DumpString(h, x);
      case Tup(_) => uid := DumpTuple(h, order, x);
      case ListRef(_) => uid := DumpList(h, order, x);
      case DictRef(_) => uid := DumpDict(h, order, x);
    }

    /** All items of a container, one after the other. */
    method DumpItems(h: Heap, order: Order, items: seq<Value>) returns (itemUids: seq<nat>)
      requires Valid(h) && Closed(h) && OrderFor(h, order)
      requires forall n :: 0 <= n < |items| ==> InHeap(h, items[n])
      modifies this
      ensures Valid(h) && Grows(old(K()), K()) && NewFrom(h, old(K()), K(), items)
      ensures |itemUids| == |items|
      ensures forall n :: 0 <= n < |items| ==> itemUids[n] in m.table && Same(iso, items[n], m.table[itemUids[n]])
      decreases h.lists.Keys - iso.lists.Keys, h.dicts.Keys - iso.dicts.Keys, Tup(items), 0
    {
      hide Once, Inv, InHeap, Same, NewFrom, Run, StackKnown, Closed, OrderFor, Grows;
      itemUids := [];
      GrowsItself(K());
      NewFromNothing(h, K(), K(), items[..0]);
      for n := 0 to |items|
        invariant Valid(h) && Grows(old(K()), K()) && NewFrom(h, old(K()), K(), items[..n]) && |itemUids| == n
        invariant forall j :: 0 <= j < n ==> itemUids[j] in m.table && Same(iso, items[j], m.table[itemUids[j]])
      {
        ghost var k := K();
        assert items[n] == Tup(items).items[n];
        LessToDo(h, old(K()), k);
        var itemUid := DumpObject(h, order, items[n]);
        SameAfterGrowth(k, K(), items, itemUids);
        GrowsThrough(old(K()), k, K());
        NewFromNext(h, old(K()), k, K(), items[..n], items[n]);
        assert items[..n + 1] == items[..n] + [items[n]];
        itemUids := itemUids + [itemUid];
      }
      assert items[..|items|] == items;
    }

    method DumpTuple(h: Heap, order: Order, x: Value) returns (uid: nat)
      requires Valid(h) && Closed(h) && OrderFor(h, order) && InHeap(h, x) && x.Tup?
      modifies this
      ensures Valid(h) && Grows(old(K()), K()) && NewFrom(h, old(K()), K(), [x])
      ensures uid in m.table && Same(iso, x, m.table[uid])
      decreases h.lists.Keys - iso.lists.Keys, h.dicts.Keys - iso.dicts.Keys, x, 1
    {
      hide Once, Inv, Closed, OrderFor, Run, TupleKey, NewFrom, Grows, StackKnown, InHeap, Same, PartsOf;
      TupleParts(h, x);
      var itemUids := DumpItems(h, order, x.items);
      NewFromParts(h, old(K()), old(K()), K(), x, x.items, Indices(|x.items|));
      ghost var k' := K();
      var xrepr := TupleKey(itemUids);
      DropTop(); // although nothing was pushed: an enclosing list loses its entry
      if xrepr in types.tups {
        NewFromSame(h, old(K()), k', K(), [x]);
        KnownTupleIsSame(h, K(), itemUids);
        SameTuple(iso, x, Lookup(m.table, itemUids));
        return types.tups[xrepr];
      }
      NewTupleKeepsInv(h, K(), itemUids);
      SameTuple(iso, x, Lookup(m.table, itemUids));
      ghost var k1 := WithTuple(Named(K(), Tup(Lookup(m.table, itemUids))), itemUids, seed);
      StackStays(stack, types, k1.types);
      GrowsThrough(old(K()), k', k1);
      uid := GenUid();
      OnceMore(out, types, types.(tups := types.tups[xrepr := uid]), SetTuple(uid, itemUids));
      types := types.(tups := types.tups[xrepr := uid]);
      Print(SetTuple(uid, itemUids));
      NewFromSame(h, old(K()), k', K(), [x]);
    }

    /** The statements that append the items to a new list. */
    method FillList(h: Heap, uid: nat, itemUids: seq<nat>)
      requires uid in types.lists && types.lists[uid] in openLists && types.lists[uid] in iso.lists
      requires forall w :: w in itemUids ==> w in m.table
      requires types.lists[uid] in h.lists && SameItems(iso, h.lists[types.lists[uid]], Lookup(m.table, itemUids))
      requires Valid(h)
      modifies this`out, this`m, this`openLists
      ensures K() == ClosedList(old(K()), types.lists[uid], Lookup(old(m.table), itemUids))
      ensures Valid(h)
    {
      hide Once, Inv, Run, Same, StackKnown;
      ghost var k, i := K(), types.lists[uid];
      OpenListIsEmpty(h, k, uid);
      ghost var ws := Lookup(m.table, itemUids);
      assert WithList(m, iso.lists[i], []) == m by {
        assert m.heap.lists[iso.lists[i] := []] == m.heap.lists;
      }
      for n := 0 to |itemUids|
        invariant Once(out, types) && openLists == k.openLists && Run(out) == Some(m) && m == WithList(k.m, iso.lists[i], ws[..n])
      {
        assert itemUids[n] in itemUids && ws[..n + 1] == ws[..n] + [ws[n]];
        SetTwice(k.m.heap.lists, iso.lists[i], ws[..n], ws[..n + 1]);
        OnceMore(out, types, types, Append(uid, itemUids[n]));
        Print(Append(uid, itemUids[n]));
      }
      assert ws[..|ws|] == ws;
      ClosingListKeepsInv(h, k, i, ws);
      openLists := openLists - {i};
    }

    /** A list is given a uid, remembered, and created empty, before its items are dumped. */
    method StartList(h: Heap, i: nat) returns (uid: nat)
      requires Valid(h) && i in h.lists && i !in types.lists.Values
      modifies this
      ensures Valid(h) && uid == old(seed) && i !in old(iso).lists && K() == OpenedList(old(K()), i)
      ensures uid in types.lists && types.lists[uid] == i && i in openLists && i in iso.lists
    {
      hide Once, Inv, Run;
      ghost var k := K();
      NewListIsNew(h, k, i);
      OpeningListKeepsInv(h, k, i);
      uid := GenUid();
      OnceMore(out, types, types.(lists := types.lists[uid := i]), NewList(uid));
      types := types.(lists := types.lists[uid := i]);
      iso, openLists := iso.(lists := iso.lists[i := m.next]), openLists + {i};
      Print(NewList(uid));
      stack := stack + [(ListRef(i), uid)];
    }

    method DumpList(h: Heap, order: Order, x: Value) returns (uid: nat)
      requires Valid(h) && Closed(h) && OrderFor(h, order) && InHeap(h, x) && x.ListRef?
      modifies this
      ensures Valid(h) && Grows(old(K()), K()) && NewFrom(h, old(K()), K(), [x])
      ensures uid in m.table && Same(iso, x, m.table[uid])
      decreases h.lists.Keys - iso.lists.Keys, h.dicts.Keys - iso.dicts.Keys, x, 1
    {
      hide Once, Inv, OrderFor, Run, NewFrom, Grows, StackKnown;
      GrowsItself(K());
      var found := FindUid(x);
      if found.Some? {
        NewFromNothing(h, K(), K(), [x]);
        KnownListIsSame(h, K(), found.value);
        return found.value;
      }
      ghost var k := K();
      NewListIsNew(h, k, x.id);
      uid := StartList(h, x.id);
      ghost var k1 := K();
      assert h.lists.Keys - iso.lists.Keys < h.lists.Keys - k.iso.lists.Keys by {
        assert x.id in h.lists.Keys - k.iso.lists.Keys;
      }
      var itemUids := DumpItems(h, order, h.lists[x.id]);
      DropTop();
      ghost var k' := K();
      ListStillOpen(k1, k', uid, x.id);
      NewFromParts(h, k, k1, k', x, h.lists[x.id], Indices(|h.lists[x.id]|));
      FillList(h, uid, itemUids);
      NewFromSame(h, k, k', K(), [x]);
      ListDumped(k, x.id, k', Lookup(k'.m.table, itemUids));
      KnownListIsSame(h, K(), uid);
    }

    /** The statements that put the values into a new dictionary. */
    method FillDict(h: Heap, uid: nat, keys: seq<string>, itemUids: seq<nat>)
      requires uid in types.dicts && types.dicts[uid] in openDicts && types.dicts[uid] in iso.dicts
      requires |keys| == |itemUids| && forall w :: w in itemUids ==> w in m.table
      requires types.dicts[uid] in h.dicts && SameEntries(iso, h.dicts[types.dicts[uid]], Entries(keys, Lookup(m.table, itemUids)))
      requires Valid(h)
      modifies this`out, this`m, this`openDicts
      ensures K() == ClosedDict(old(K()), types.dicts[uid], Entries(keys, Lookup(old(m.table), itemUids)))
      ensures Valid(h)
    {
      hide Once, Inv, Run, Same, SameEntries, StackKnown, Entries;
      ghost var k, i := K(), types.dicts[uid];
      EntriesStart();
      OpenDictIsEmpty(h, k, uid);
      ghost var ws := Lookup(m.table, itemUids);
      assert WithDict(m, iso.dicts[i], map[]) == m by {
        assert m.heap.dicts[iso.dicts[i] := map[]] == m.heap.dicts;
      }
      for n := 0 to |itemUids|
        invariant Once(out, types) && openDicts == k.openDicts && Run(out) == Some(m) && m == WithDict(k.m, iso.dicts[i], Entries(keys[..n], ws[..n]))
      {
        assert itemUids[n] in itemUids;
        EntriesNext(keys, ws, n);
        SetTwice(k.m.heap.dicts, iso.dicts[i], Entries(keys[..n], ws[..n]), Entries(keys[..n + 1], ws[..n + 1]));
        OnceMore(out, types, types, SetItem(uid, keys[n], itemUids[n]));
        Print(SetItem(uid, keys[n], itemUids[n]));
      }
      assert keys[..|keys|] == keys && ws[..|ws|] == ws;
      ClosingDictKeepsInv(h, k, i, Entries(keys, ws));
      openDicts := openDicts - {i};
    }

    /** A dictionary is given a uid, remembered, and created empty, before its values are dumped. */
    method StartDict(h: Heap, i: nat) returns (uid: nat)
      requires Valid(h) && i in h.dicts && i !in types.dicts.Values
      modifies this
      ensures Valid(h) && uid == old(seed) && i !in old(iso).dicts && K() == OpenedDict(old(K()), i)
      ensures uid in types.dicts && types.dicts[uid] == i && i in openDicts && i in iso.dicts
    {
      hide Once, Inv, Run;
      ghost var k := K();
      NewDictIsNew(h, k, i);
      OpeningDictKeepsInv(h, k, i);
      uid := GenUid();
      OnceMore(out, types, types.(dicts := types.dicts[uid := i]), NewDict(uid));
      types := types.(dicts := types.dicts[uid := i]);
      iso, openDicts := iso.(dicts := iso.dicts[i := m.next]), openDicts + {i};
      Print(NewDict(uid));
      stack := stack + [(DictRef(i), uid)];
    }

    method DumpDict(h: Heap, order: Order, x: Value) returns (uid: nat)
      requires Valid(h) && Closed(h) && OrderFor(h, order) && InHeap(h, x) && x.DictRef?
      modifies this
      ensures Valid(h) && Grows(old(K()), K()) && NewFrom(h, old(K()), K(), [x])
      ensures uid in m.table && Same(iso, x, m.table[uid])
      decreases h.lists.Keys - iso.lists.Keys, h.dicts.Keys - iso.dicts.Keys, x, 1
    {
      hide Once, Inv, Run, NewFrom, Closed, OrderFor, InHeap, PartsOf, SameEntries, Entries, Same, Grows, StackKnown, Lists, Values, Keys;
      ValuesAreParts(h, order, x);
      GrowsItself(K());
      var found := FindUid(x);
      if found.Some? {
        NewFromNothing(h, K(), K(), [x]);
        KnownDictIsSame(h, K(), found.value);
        return found.value;
      }
      ghost var k := K();
      NewDictIsNew(h, k, x.id);
      uid := StartDict(h, x.id);
      assert h.dicts.Keys - iso.dicts.Keys < h.dicts.Keys - k.iso.dicts.Keys by {
        assert x.id in h.dicts.Keys - k.iso.dicts.Keys;
      }
      var keys := order[x.id];
      var itemUids := DumpItems(h, order, Values(keys, h.dicts[x.id]));
      DropTop();
      ghost var k' := K();
      DictItemsDumped(h, order, k, x.id, k', itemUids);
      FillDict(h, uid, keys, itemUids);
      NewFromSame(h, k, k', K(), [x]);
      DictDumped(k, x.id, k', Entries(keys, Lookup(k'.m.table, itemUids)));
      KnownDictIsSame(h, K(), uid);
    }
  }

  // ---- the whole dump ----

  /** The values in the order of the keys. */
  function Values(keys: seq<string>, d: map<string, Value>): (vs: seq<Value>)
    requires Lists(keys, d)
    ensures |vs| == |keys|
  {
    seq(|keys|, n requires 0 <= n < |keys| => assert keys[n] in keys; d[keys[n]])
  }

  /** What the assignments for `keys` leave in an empty dictionary. */
  function Entries(keys: seq<string>, ws: seq<Value>): map<string, Value>
    requires |keys| == |ws|
    decreases |keys|
  {
    if keys == [] then map[] else Entries(keys[..|keys| - 1], ws[..|ws| - 1])[keys[|keys| - 1] := ws[|ws| - 1]]
  }

  lemma EntriesStart()
    ensures Entries([], []) == map[]
  {
  }

  lemma EntriesNext(keys: seq<string>, ws: seq<Value>, n: nat)
    requires n < |keys| == |ws|
    ensures Entries(keys[..n + 1], ws[..n + 1]) == Entries(keys[..n], ws[..n])[keys[n] := ws[n]]
  {
    assert keys[..n + 1][..n] == keys[..n] && ws[..n + 1][..n] == ws[..n];
  }

  /** The values of a dictionary, in the order of its keys, are its parts. */
  lemma ValuesAreParts(h: Heap, order: Order, x: Value)
    requires Closed(h) && OrderFor(h, order) && InHeap(h, x) && x.DictRef?
    ensures x.id in h.dicts && x.id in order && Lists(order[x.id], h.dicts[x.id])
    ensures var vs := Values(order[x.id], h.dicts[x.id]);
      PartsOf(h, x, vs, Keys(order[x.id])) && forall n :: 0 <= n < |vs| ==> InHeap(h, vs[n])
  {
    var i := x.id;
    hide InHeap;
    forall n | 0 <= n < |order[i]| ensures order[i][n] in h.dicts[i] { assert order[i][n] in order[i]; }
  }

  lemma {:induction false} EntriesKeys(keys: seq<string>, ws: seq<Value>)
    requires |keys| == |ws|
    ensures forall s :: s in Entries(keys, ws) <==> s in keys
    decreases |keys|
  {
    if keys != [] {
      EntriesKeys(keys[..|keys| - 1], ws[..|ws| - 1]);
      assert keys == keys[..|keys| - 1] + [keys[|keys| - 1]];
    }
  }

  lemma {:induction false} EntriesAt(keys: seq<string>, ws: seq<Value>, n: nat)
    requires n < |keys| == |ws| && forall i, j :: 0 <= i < j < |keys| ==> keys[i] != keys[j]
    ensures keys[n] in Entries(keys, ws) && Entries(keys, ws)[keys[n]] == ws[n]
    decreases |keys|
  {
    if n < |keys| - 1 { EntriesAt(keys[..|keys| - 1], ws[..|ws| - 1], n); }
  }

  lemma EntriesAreSame(iso: Iso, keys: seq<string>, d: map<string, Value>, ws: seq<Value>)
    requires Lists(keys, d) && SameItems(iso, Values(keys, d), ws)
    ensures SameEntries(iso, d, Entries(keys, ws))
  {
    hide Entries;
    EntriesKeys(keys, ws);
    forall s | s in d ensures Same(iso, d[s], Entries(keys, ws)[s]) {
      var n :| 0 <= n < |keys| && keys[n] == s;
      EntriesAt(keys, ws, n);
      assert Values(keys, d)[n] == d[s];
    }
  }

  /** Once the values of a new dictionary have been dumped, it can be filled with their copies. */
  lemma DictItemsDumped(h: Heap, order: Order, k: Known, i: nat, k': Known, us: seq<nat>)
    requires Closed(h) && OrderFor(h, order) && i in h.dicts && i !in k.iso.dicts && Grows(OpenedDict(k, i), k')
    requires NewFrom(h, OpenedDict(k, i), k', Values(order[i], h.dicts[i])) && |us| == |order[i]|
    requires forall n :: 0 <= n < |us| ==>
      us[n] in k'.m.table && Same(k'.iso, Values(order[i], h.dicts[i])[n], k'.m.table[us[n]])
    ensures k.seed in k'.types.dicts && k'.types.dicts[k.seed] == i && i in k'.openDicts && i in k'.iso.dicts
    ensures forall w :: w in us ==> w in k'.m.table
    ensures SameEntries(k'.iso, h.dicts[i], Entries(order[i], Lookup(k'.m.table, us)))
    ensures NewFrom(h, k, k', [DictRef(i)])
  {
    hide Closed, OrderFor, Same, Entries, SameEntries, NewFrom, PartsOf, Lists, Values, Grows;
    ValuesAreParts(h, order, DictRef(i));
    DictStillOpen(OpenedDict(k, i), k', k.seed, i);
    NewFromParts(h, k, OpenedDict(k, i), k', DictRef(i), Values(order[i], h.dicts[i]), Keys(order[i]));
    EntriesAreSame(k'.iso, order[i], h.dicts[i], Lookup(k'.m.table, us));
  }

  /** Whatever the graph, with sharing and cycles: the dump terminates, the printed program runs
      without an error, what it builds under the name `top` is a copy of `x`, and it builds no
      copy of anything that cannot be reached from `x`. */
  method Dump(h: Heap, order: Order, x: Value, seed: nat) returns (program: seq<Stmt>, ghost iso: Iso)
    requires Closed(h) && OrderFor(h, order) && InHeap(h, x)
    ensures Run(program).Some? && Run(program).value.top.Some?
    ensures Isomorphic(iso, h, x, Run(program).value.heap, Run(program).value.top.value)
    ensures forall i :: i in iso.lists ==> Reached(h, x, ListRef(i))
    ensures forall i :: i in iso.dicts ==> Reached(h, x, DictRef(i))
    ensures forall j, k :: 0 <= j < k < |program| ==> !Twice(program[j], program[k])
  {
    hide Inv, Run, Isomorphic, Same, Once, Twice;
    var d := new Dumper(seed);
    EmptyIsKnown(h, d.K());
    var topuid := d.DumpObject(h, order, x);
    iso := d.iso;
    NothingOpenIsCopy(h, d.K());
    OnceMore(d.out, d.types, d.types, SetTop(topuid));
    d.Print(SetTop(topuid));
    NothingTwice(d.out, d.types);
    program := d.out;
  }

  lemma EmptyIsKnown(h: Heap, k: Known)
    requires k.types == Types(map[], map[], map[], map[], map[]) && k.iso == Iso(map[], map[])
    requires k.openLists == {} && k.openDicts == {} && k.m == Fresh.(named := true)
    ensures Inv(h, k)
  {
  }

  lemma NothingOpenIsCopy(h: Heap, k: Known)
    requires Inv(h, k) && k.openLists == {} && k.openDicts == {}
    ensures forall x, x' :: Same(k.iso, x, x') ==> Isomorphic(k.iso, h, x, k.m.heap, x')
    ensures k.m.named
  {
  }

  /** The loop of `readdict`: the loaded dictionary is merged into `dict`, whose own entries win. */
  method Merge(dict: map<string, Value>, top: map<string, Value>) returns (merged: map<string, Value>)
    ensures merged.Keys == dict.Keys + top.Keys
    ensures forall s :: s in merged ==> merged[s] == if s in dict then dict[s] else top[s]
  {
    merged := dict;
    var keys := top.Keys;
    while keys != {}
      invariant keys <= top.Keys && merged.Keys == dict.Keys + (top.Keys - keys)
      invariant forall s :: s in merged ==> merged[s] == if s in dict then dict[s] else top[s]
      decreases keys
    {
      var key :| key in keys;
      if key !in merged { merged := merged[key := top[key]]; }
      keys := keys - {key};
    }
  }

  /** `writedict` followed by `readdict` into an empty dictionary gives back a copy of every entry. */
  method SaveAndLoad(h: Heap, order: Order, d: nat, seed: nat) returns (loaded: map<string, Value>, ghost iso: Iso, ghost h': Heap)
    requires Closed(h) && OrderFor(h, order) && d in h.dicts
    ensures loaded.Keys == h.dicts[d].Keys && SameEntries(iso, h.dicts[d], loaded)
    ensures forall s :: s in loaded ==> Isomorphic(iso, h, h.dicts[d][s], h', loaded[s])
  {
    var program;
    program, iso := Dump(h, order, DictRef(d), seed);
    var m := Run(program).value;
    h' := m.heap;
    loaded := Merge(map[], m.heap.dicts[m.top.value.id]);
  }
}
