/** The bounded queue of python/lib/Queue.py, for any number of threads that put and get.

  The queue is built from three plain locks.  `mutex` guards the list; `esema` is
  locked while the queue is empty and `fsema` while it is full, so both of them are
  acquired by one thread and released by another.  The model interleaves any number
  of threads, one source statement per step: every thread has a program counter, and
  a schedule is an arbitrary list of calls and steps.
  */
module Queue {
  type Item(==, !new)

  datatype Op = OpPut(item: Item) | OpGet | OpGetNowait

  /** How an operation ends: `put` returns, a get returns an item, `get_nowait` raises Empty. */
  datatype Res = Stored(item: Item) | Got(item: Item) | RaisedEmpty

  /** Where a thread stands.  The two get operations end alike, so their common counters carry the operation. */
  datatype Pc =
    | Idle                                       // not in an operation
      // put
    | PutFsema(item: Item)                       // waiting for room
    | PutMutex(item: Item)                       // waiting for its turn at the list
    | PutTest(item: Item)                        // alone with the list; looks whether there is anything in it
    | PutStore(item: Item, wasEmpty: bool)       // has looked, adds the item
    | PutWake(item: Item, wasEmpty: bool)        // has added it, opens the door for getters if it was shut
    | PutFree(item: Item)                        // opens the door for the next putter, if there is room left
    | PutUnlock(item: Item)                      // leaves the list to others
      // get
    | GetEsema                                   // waiting for an item
    | GetMutex                                   // waiting for its turn at the list
      // get_nowait
    | NowaitTry                                  // tries the door for getters
    | NowaitMutex(locked: bool)                  // has got through it or not, waiting for its turn at the list
    | NowaitEmpty(locked: bool)                  // alone with the list; gives up if there is nothing in it
    | NowaitRetry                                // tries the door again
    | NowaitRaise                                // has given up, leaves the list to others
      // the common end of get and get_nowait
    | GetTest(op: Op)                            // alone with the list; looks whether it is full
    | GetTake(op: Op, wasFull: bool)             // has looked, takes the first item
    | GetWake(op: Op, wasFull: bool, item: Item) // has taken it, opens the door for putters if it was shut
    | GetFree(op: Op, item: Item)                // opens the door for the next getter, if there are items left
    | GetUnlock(op: Op, item: Item)              // leaves the list to others

  /** The fields of the queue object; a lock is true while it is locked. */
  datatype Shared = Shared(maxsize: int, queue: seq<Item>, mutex: bool, esema: bool, fsema: bool)
  {
    predicate Empty() { queue == [] }

    predicate Full() { maxsize > 0 && |queue| == maxsize }
  }

  /** The history: calls, the instants at which operations take effect, and returns. */
  datatype Note = Call(op: Op) | Effect(res: Res) | Return(res: Res)

  datatype Event = Event(tid: nat, note: Note)

  /** The result of a statement.  `Fault`: a lock is released while it is free, or `_get`
      meets an empty list. */
  datatype Move = Move(pc: Pc, q: Shared, notes: seq<Note>) | Blocked | Fault

  /** One statement of a thread that stands at `pc`. */
  function Statement(pc: Pc, q: Shared): Move {
    match pc
    case Idle => Blocked
    case PutFsema(x) => if q.fsema then Blocked else Move(PutMutex(x), q.(fsema := true), [])
    case PutMutex(x) => if q.mutex then Blocked else Move(PutTest(x), q.(mutex := true), [])
    case PutTest(x) => Move(PutStore(x, q.Empty()), q, [])
    case PutStore(x, we) => Move(PutWake(x, we), q.(queue := q.queue + [x]), [Effect(Stored(x))])
    case PutWake(x, we) =>
      if !we then Move(PutFree(x), q, [])
      else if !q.esema then Fault
      else Move(PutFree(x), q.(esema := false), [])
    case PutFree(x) =>
      if q.Full() then Move(PutUnlock(x), q, [])
      else if !q.fsema then Fault
      else Move(PutUnlock(x), q.(fsema := false), [])
    case PutUnlock(x) => if !q.mutex then Fault else Move(Idle, q.(mutex := false), [Return(Stored(x))])
    case GetEsema => if q.esema then Blocked else Move(GetMutex, q.(esema := true), [])
    case GetMutex => if q.mutex then Blocked else Move(GetTest(OpGet), q.(mutex := true), [])
    case NowaitTry => Move(NowaitMutex(!q.esema), q.(esema := true), [])
    case NowaitMutex(locked) => if q.mutex then Blocked else Move(NowaitEmpty(locked), q.(mutex := true), [])
    case NowaitEmpty(locked) =>
      if q.Empty() then Move(NowaitRaise, q, [Effect(RaisedEmpty)])
      else Move(if locked then GetTest(OpGetNowait) else NowaitRetry, q, [])
    case NowaitRetry =>
      if q.esema then Move(NowaitRaise, q, [Effect(RaisedEmpty)])
      else Move(GetTest(OpGetNowait), q.(esema := true), [])
    case NowaitRaise => if !q.mutex then Fault else Move(Idle, q.(mutex := false), [Return(RaisedEmpty)])
    case GetTest(op) => Move(GetTake(op, q.Full()), q, [])
    case GetTake(op, wf) =>
      if q.Empty() then Fault
      else Move(GetWake(op, wf, q.queue[0]), q.(queue := q.queue[1..]), [Effect(Got(q.queue[0]))])
    case GetWake(op, wf, x) =>
      if !wf then Move(GetFree(op, x), q, [])
      else if !q.fsema then Fault
      else Move(GetFree(op, x), q.(fsema := false), [])
    case GetFree(op, x) =>
      if q.Empty() then Move(GetUnlock(op, x), q, [])
      else if !q.esema then Fault
      else Move(GetUnlock(op, x), q.(esema := false), [])
    case GetUnlock(op, x) => if !q.mutex then Fault else Move(Idle, q.(mutex := false), [Return(Got(x))])
  }

  function FirstStatement(op: Op): Pc {
    match op case OpPut(x) => PutFsema(x) case OpGet => GetEsema case OpGetNowait => NowaitTry
  }

  // ---- runs ----

  datatype State = State(q: Shared, pcs: seq<Pc>, hist: seq<Event>)

  datatype Outcome = Next(state: State) | Faulted

  datatype Action = Invoke(tid: nat, op: Op) | Run(tid: nat)

  function Init(maxsize: int, threads: nat): State {
    State(Shared(maxsize, [], false, true, false), seq(threads, _ => Idle), [])
  }

  function Tag(t: nat, notes: seq<Note>): seq<Event> {
    seq(|notes|, i requires 0 <= i < |notes| => Event(t, notes[i]))
  }

  /** What thread `t` does next when action `a` is scheduled; a call by a busy thread and
      a step of a blocked one are `Blocked`. */
  function Chosen(s: State, a: Action): Move
    requires a.tid < |s.pcs|
  {
    match a
    case Invoke(t, op) => if s.pcs[t].Idle? then Move(FirstStatement(op), s.q, [Call(op)]) else Blocked
    case Run(t) => Statement(s.pcs[t], s.q)
  }

  function Apply(s: State, t: nat, m: Move): State
    requires t < |s.pcs| && m.Move?
  {
    State(m.q, s.pcs[t := m.pc], s.hist + Tag(t, m.notes))
  }

  /** A schedule entry that cannot happen leaves the state as it is. */
  function Act(s: State, a: Action): Outcome {
    if a.tid >= |s.pcs| then Next(s) else
    match Chosen(s, a)
    case Blocked => Next(s)
    case Fault => Faulted
    case Move(pc, q, notes) => Next(Apply(s, a.tid, Move(pc, q, notes)))
  }

  /** The state after a schedule, or `Faulted` as soon as one of its steps faults. */
  function RunAll(s: State, schedule: seq<Action>): Outcome
    decreases |schedule|
  {
    if schedule == [] then Next(s) else
    var r := RunAll(s, schedule[..|schedule| - 1]);
    if r.Next? then Act(r.state, schedule[|schedule| - 1]) else Faulted
  }

  // ---- who holds which lock ----

  datatype Lock = Mutex | Esema | Fsema

  /** A thread that stands at `pc` holds the lock: it acquired it and has not passed it on. */
  predicate Has(pc: Pc, lock: Lock) {
    match lock
    case Mutex =>
      pc.PutTest? || pc.PutStore? || pc.PutWake? || pc.PutFree? || pc.PutUnlock? ||
      pc.NowaitEmpty? || pc.NowaitRetry? || pc.NowaitRaise? ||
      pc.GetTest? || pc.GetTake? || pc.GetWake? || pc.GetFree? || pc.GetUnlock?
    case Esema =>
      pc.GetMutex? || ((pc.NowaitMutex? || pc.NowaitEmpty?) && pc.locked) ||
      pc.GetTest? || pc.GetTake? || pc.GetWake? || pc.GetFree?
    case Fsema =>
      pc.PutMutex? || pc.PutTest? || pc.PutStore? || pc.PutWake? || pc.PutFree?
  }

  /** Thread `h`, and no other, holds the lock; -1 when nobody does. */
  ghost predicate SoleHolder(pcs: seq<Pc>, lock: Lock, h: int) {
    -1 <= h < |pcs| && forall t :: 0 <= t < |pcs| ==> (Has(pcs[t], lock) <==> t == h)
  }

  datatype Holders = Holders(m: int, e: int, f: int)

  /** `esema` is locked by nobody exactly when the queue is empty, `fsema` exactly when it is
      full, except between the statements of a critical section; `pc` is where the thread in
      the critical section stands. */
  predicate Balanced(pc: Pc, q: Shared, nobodysE: bool, nobodysF: bool) {
    && (pc.PutWake? || pc.PutFree? || pc.GetWake? || pc.GetFree? ||
        ((nobodysE <==> q.Empty()) && (nobodysF <==> q.Full())))
    && (pc.PutStore? ==> pc.wasEmpty == q.Empty())
    && (pc.PutWake? ==> !q.Empty() && nobodysE == pc.wasEmpty)
    && (pc.PutFree? ==> !q.Empty() && !nobodysE)
    && (pc.GetTake? ==> pc.wasFull == q.Full())
    && (pc.GetWake? ==> !q.Full() && nobodysF == pc.wasFull)
    && (pc.GetFree? ==> !q.Full() && !nobodysF)
    && (pc.NowaitRetry? ==> !q.Empty())
    && (q.maxsize > 0 ==> |q.queue| <= q.maxsize)
  }

  function CriticalPc(pcs: seq<Pc>, m: int): Pc
    requires -1 <= m < |pcs|
  {
    if m < 0 then Idle else pcs[m]
  }

  ghost predicate LockInv(s: State, h: Holders) {
    && SoleHolder(s.pcs, Mutex, h.m) && SoleHolder(s.pcs, Esema, h.e) && SoleHolder(s.pcs, Fsema, h.f)
    && s.q.mutex == (h.m >= 0) && (h.e >= 0 ==> s.q.esema) && (h.f >= 0 ==> s.q.fsema)
    && Balanced(CriticalPc(s.pcs, h.m), s.q, s.q.esema && h.e < 0, s.q.fsema && h.f < 0)
  }

  // ---- what the history says ----

  /** The contents of an atomic queue on which the effects happened in history order. */
  datatype Replayed = Holding(items: seq<Item>) | Impossible

  function ReplayNote(r: Replayed, n: Note): Replayed {
    if r.Impossible? || !n.Effect? then r else
    match n.res
    case Stored(x) => Holding(r.items + [x])
    case Got(x) => if r.items != [] && r.items[0] == x then Holding(r.items[1..]) else Impossible
    case RaisedEmpty => r
  }

  function Replay(hist: seq<Event>): Replayed
    decreases |hist|
  {
    if hist == [] then Holding([])
    else ReplayNote(Replay(hist[..|hist| - 1]), hist[|hist| - 1].note)
  }

  /** The life of one thread according to the history. */
  datatype Phase = Quiet | Pending(op: Op) | Done(op: Op, res: Res) | Wrong

  predicate Fits(op: Op, res: Res) {
    match op
    case OpPut(x) => res == Stored(x)
    case OpGet => res.Got?
    case OpGetNowait => !res.Stored?
  }

  function PhaseNote(p: Phase, n: Note): Phase {
    match n
    case Call(op) => if p.Quiet? then Pending(op) else Wrong
    case Effect(res) => if p.Pending? && Fits(p.op, res) then Done(p.op, res) else Wrong
    case Return(res) => if p.Done? && p.res == res then Quiet else Wrong
  }

  function PhaseOf(hist: seq<Event>, t: nat): Phase
    decreases |hist|
  {
    if hist == [] then Quiet else
    var p := PhaseOf(hist[..|hist| - 1], t);
    var e := hist[|hist| - 1];
    if e.tid == t then PhaseNote(p, e.note) else p
  }

  /** The phase a program counter stands for. */
  function PcPhase(pc: Pc): Phase {
    match pc
    case Idle => Quiet
    case PutFsema(x) => Pending(OpPut(x))
    case PutMutex(x) => Pending(OpPut(x))
    case PutTest(x) => Pending(OpPut(x))
    case PutStore(x, _) => Pending(OpPut(x))
    case PutWake(x, _) => Done(OpPut(x), Stored(x))
    case PutFree(x) => Done(OpPut(x), Stored(x))
    case PutUnlock(x) => Done(OpPut(x), Stored(x))
    case GetEsema => Pending(OpGet)
    case GetMutex => Pending(OpGet)
    case NowaitTry => Pending(OpGetNowait)
    case NowaitMutex(_) => Pending(OpGetNowait)
    case NowaitEmpty(_) => Pending(OpGetNowait)
    case NowaitRetry => Pending(OpGetNowait)
    case NowaitRaise => Done(OpGetNowait, RaisedEmpty)
    case GetTest(op) => if op.OpPut? then Wrong else Pending(op)
    case GetTake(op, _) => if op.OpPut? then Wrong else Pending(op)
    case GetWake(op, _, x) => Done(op, Got(x))
    case GetFree(op, x) => Done(op, Got(x))
    case GetUnlock(op, x) => Done(op, Got(x))
  }

  ghost predicate HistInv(s: State) {
    && Replay(s.hist) == Holding(s.q.queue)
    && forall t :: 0 <= t < |s.pcs| ==> PhaseOf(s.hist, t) == PcPhase(s.pcs[t]) && PcPhase(s.pcs[t]) != Wrong
  }

  ghost predicate Inv(s: State) {
    HistInv(s) && exists h :: LockInv(s, h)
  }

  // ---- one statement, seen by the thread that executes it ----

  function NextHolder(pc: Pc, pc': Pc, lock: Lock, t: nat, h: int): int {
    if Has(pc', lock) then t else if Has(pc, lock) then -1 else h
  }

  /** The lock facts a statement may rely on and must keep. */
  predicate LocksOf(t: nat, pc: Pc, q: Shared, h: Holders) {
    && (Has(pc, Mutex) <==> h.m == t) && (Has(pc, Esema) <==> h.e == t) && (Has(pc, Fsema) <==> h.f == t)
    && h.m >= -1 && h.e >= -1 && h.f >= -1
    && q.mutex == (h.m >= 0) && (h.e >= 0 ==> q.esema) && (h.f >= 0 ==> q.fsema)
  }

  function NextHolders(t: nat, pc: Pc, pc': Pc, h: Holders): Holders {
    Holders(NextHolder(pc, pc', Mutex, t, h.m), NextHolder(pc, pc', Esema, t, h.e), NextHolder(pc, pc', Fsema, t, h.f))
  }

  /** A statement never faults, acquires a lock only while nobody holds it, and keeps the locks
      balanced.  `critical` is where the thread in the critical section stands. */
  lemma StatementKeepsBalance(t: nat, pc: Pc, q: Shared, h: Holders, critical: Pc)
    requires LocksOf(t, pc, q, h)
    requires h.m == t ==> critical == pc
    requires h.m < 0 ==> critical == Idle
    requires Balanced(critical, q, q.esema && h.e < 0, q.fsema && h.f < 0)
    ensures var r := Statement(pc, q);
      && !r.Fault?
      && (r.Move? ==>
          var h' := NextHolders(t, pc, r.pc, h);
          && LocksOf(t, r.pc, r.q, h')
          && Balanced(if h'.m == t then r.pc else if h'.m < 0 then Idle else critical, r.q,
                      r.q.esema && h'.e < 0, r.q.fsema && h'.f < 0)
          && (h.m >= 0 && h'.m == t ==> h.m == t)
          && (h.e >= 0 && h'.e == t ==> h.e == t)
          && (h.f >= 0 && h'.f == t ==> h.f == t))
  {
    if h.m == t {
      InsideKeepsBalance(t, pc, q, h);
    } else {
      OutsideKeepsBalance(t, pc, q, h, critical);
    }
  }

  /** A statement of the thread in the critical section. */
  lemma InsideKeepsBalance(t: nat, pc: Pc, q: Shared, h: Holders)
    requires LocksOf(t, pc, q, h) && h.m == t && Balanced(pc, q, q.esema && h.e < 0, q.fsema && h.f < 0)
    ensures var r := Statement(pc, q);
      r.Move? && var h' := NextHolders(t, pc, r.pc, h);
      && LocksOf(t, r.pc, r.q, h') && (h'.m == t || h'.m < 0)
      && Balanced(if h'.m == t then r.pc else Idle, r.q, r.q.esema && h'.e < 0, r.q.fsema && h'.f < 0)
      && (h.e >= 0 && h'.e == t ==> h.e == t) && (h.f >= 0 && h'.f == t ==> h.f == t)
  {
  }

  /** A statement of another thread. */
  lemma OutsideKeepsBalance(t: nat, pc: Pc, q: Shared, h: Holders, critical: Pc)
    requires LocksOf(t, pc, q, h) && h.m != t && (h.m < 0 ==> critical == Idle)
    requires Balanced(critical, q, q.esema && h.e < 0, q.fsema && h.f < 0)
    ensures var r := Statement(pc, q);
      && !r.Fault?
      && (r.Move? ==>
          var h' := NextHolders(t, pc, r.pc, h);
          && LocksOf(t, r.pc, r.q, h') && (h'.m == t ==> h.m < 0)
          && Balanced(if h'.m == t then r.pc else critical, r.q, r.q.esema && h'.e < 0, r.q.fsema && h'.f < 0)
          && (h'.m != t ==> h'.m == h.m)
          && (h.e >= 0 && h'.e == t ==> h.e == t) && (h.f >= 0 && h'.f == t ==> h.f == t))
  {
  }

  /** The notes of a statement take the thread from the phase of one program counter to that
      of the next, and the queue from its old to its new contents. */
  lemma StatementLogs(pc: Pc, q: Shared)
    requires PcPhase(pc) != Wrong
    ensures var r := Statement(pc, q);
      r.Move? ==>
        && PcPhase(r.pc) != Wrong
        && (r.notes == [] ==> r.q.queue == q.queue && PcPhase(r.pc) == PcPhase(pc))
        && (r.notes != [] ==>
            && |r.notes| == 1
            && PcPhase(r.pc) == PhaseNote(PcPhase(pc), r.notes[0])
            && ReplayNote(Holding(q.queue), r.notes[0]) == Holding(r.q.queue))
  {
  }

  // ---- every action keeps the invariant and no step faults ----

  lemma HolderMoves(pcs: seq<Pc>, t: nat, pc': Pc, lock: Lock, h: int)
    requires t < |pcs| && SoleHolder(pcs, lock, h)
    requires h >= 0 && Has(pc', lock) ==> h == t
    ensures SoleHolder(pcs[t := pc'], lock, NextHolder(pcs[t], pc', lock, t, h))
  {
  }

  lemma RunKeepsLocks(s: State, t: nat, h: Holders)
    requires t < |s.pcs| && LockInv(s, h)
    ensures var r := Statement(s.pcs[t], s.q);
      && !r.Fault?
      && (r.Move? ==> LockInv(Apply(s, t, r), NextHolders(t, s.pcs[t], r.pc, h)))
  {
    hide Statement;
    var pc := s.pcs[t];
    StatementKeepsBalance(t, pc, s.q, h, CriticalPc(s.pcs, h.m));
    var r := Statement(pc, s.q);
    if r.Move? {
      HolderMoves(s.pcs, t, r.pc, Mutex, h.m);
      HolderMoves(s.pcs, t, r.pc, Esema, h.e);
      HolderMoves(s.pcs, t, r.pc, Fsema, h.f);
    }
  }

  lemma NoteExtends(s: State, t: nat, m: Move)
    requires t < |s.pcs| && HistInv(s) && m.Move? && PcPhase(m.pc) != Wrong
    requires m.notes == [] ==> m.q.queue == s.q.queue && PcPhase(m.pc) == PcPhase(s.pcs[t])
    requires m.notes != [] ==>
      && |m.notes| == 1
      && PcPhase(m.pc) == PhaseNote(PcPhase(s.pcs[t]), m.notes[0])
      && ReplayNote(Holding(s.q.queue), m.notes[0]) == Holding(m.q.queue)
    ensures HistInv(Apply(s, t, m))
  {
    var s' := Apply(s, t, m);
    if m.notes == [] {
      assert s'.hist == s.hist;
    } else {
      assert s'.hist[..|s'.hist| - 1] == s.hist;
    }
  }

  lemma InvokeKeepsLocks(s: State, t: nat, op: Op, h: Holders)
    requires t < |s.pcs| && s.pcs[t].Idle? && LockInv(s, h)
    ensures LockInv(State(s.q, s.pcs[t := FirstStatement(op)], s.hist), h)
  {
    hide Balanced;
    HolderMoves(s.pcs, t, FirstStatement(op), Mutex, h.m);
    HolderMoves(s.pcs, t, FirstStatement(op), Esema, h.e);
    HolderMoves(s.pcs, t, FirstStatement(op), Fsema, h.f);
  }

  lemma ActKeepsInv(s: State, a: Action)
    requires Inv(s)
    ensures Act(s, a).Next? && Inv(Act(s, a).state)
  {
    hide Statement, Balanced, Has;
    var h :| LockInv(s, h);
    if a.tid < |s.pcs| {
      var t := a.tid;
      match a {
        case Invoke(_, op) =>
          if s.pcs[t].Idle? {
            NoteExtends(s, t, Chosen(s, a));
            InvokeKeepsLocks(s, t, op, h);
            assert LockInv(Act(s, a).state, h);
          }
        case Run(_) =>
          RunKeepsLocks(s, t, h);
          StatementLogs(s.pcs[t], s.q);
          if Chosen(s, a).Move? {
            NoteExtends(s, t, Chosen(s, a));
          }
      }
    }
  }

  lemma {:induction false} EveryRunIsSafe(maxsize: int, threads: nat, schedule: seq<Action>)
    ensures var r := RunAll(Init(maxsize, threads), schedule); r.Next? && Inv(r.state)
  {
    var s := Init(maxsize, threads);
    if schedule == [] {
      assert LockInv(s, Holders(-1, -1, -1));
    } else {
      var front := schedule[..|schedule| - 1];
      EveryRunIsSafe(maxsize, threads, front);
      ActKeepsInv(RunAll(s, front).state, schedule[|schedule| - 1]);
    }
  }

  // ---- what the invariant means: locks ----

  ghost predicate HeldBySome(pcs: seq<Pc>, lock: Lock) {
    exists t :: 0 <= t < |pcs| && Has(pcs[t], lock)
  }

  /** Mutual exclusion on every lock, and what a locked `esema` or `fsema` tells about the
      queue: while no critical section runs, `esema` is locked by nobody exactly when the queue is
      empty, and `fsema` exactly when it is full.  Whoever holds `esema` outside a critical section
      holds it on a non-empty queue, whoever holds `fsema` on one that is not full. */
  lemma LocksTellTheQueue(s: State)
    requires Inv(s)
    ensures forall lock, t, u :: 0 <= t < |s.pcs| && 0 <= u < |s.pcs| && Has(s.pcs[t], lock) && Has(s.pcs[u], lock) ==> t == u
    ensures s.q.mutex <==> HeldBySome(s.pcs, Mutex)
    ensures HeldBySome(s.pcs, Esema) ==> s.q.esema
    ensures HeldBySome(s.pcs, Fsema) ==> s.q.fsema
    ensures !s.q.mutex ==> (s.q.esema && !HeldBySome(s.pcs, Esema) <==> s.q.Empty())
    ensures !s.q.mutex ==> (s.q.fsema && !HeldBySome(s.pcs, Fsema) <==> s.q.Full())
    ensures s.q.maxsize > 0 ==> |s.q.queue| <= s.q.maxsize
  {
    var h :| LockInv(s, h);
    assert h.m >= 0 ==> Has(s.pcs[h.m], Mutex);
    assert h.e >= 0 ==> Has(s.pcs[h.e], Esema);
    assert h.f >= 0 ==> Has(s.pcs[h.f], Fsema);
    forall lock, t, u | 0 <= t < |s.pcs| && 0 <= u < |s.pcs| && Has(s.pcs[t], lock) && Has(s.pcs[u], lock)
      ensures t == u
    {
      match lock case Mutex => case Esema => case Fsema =>
    }
  }

  predicate CanStep(s: State, t: nat)
    requires t < |s.pcs|
  {
    Statement(s.pcs[t], s.q).Move?
  }

  ghost predicate AllInProgress(s: State, pc: Pc -> bool) {
    forall t :: 0 <= t < |s.pcs| && s.pcs[t] != Idle ==> pc(s.pcs[t])
  }

  /** Nobody can ever move again only when every operation in progress is a getter waiting
      for an item, or every one is a putter waiting for room. */
  ghost predicate Waiting(s: State) {
    || (s.q.Empty() && AllInProgress(s, (pc: Pc) => pc.GetEsema?))
    || (s.q.Full() && AllInProgress(s, (pc: Pc) => pc.PutFsema?))
  }

  lemma CriticalCanStep(s: State, h: Holders)
    requires LockInv(s, h) && h.m >= 0
    ensures h.m < |s.pcs| && CanStep(s, h.m) && !Waiting(s)
  {
    hide Balanced;
    assert Has(s.pcs[h.m], Mutex);
    StatementKeepsBalance(h.m, s.pcs[h.m], s.q, h, s.pcs[h.m]);
  }

  lemma NoDeadlock(s: State)
    requires Inv(s) && exists t :: 0 <= t < |s.pcs| && s.pcs[t] != Idle
    ensures (exists t :: 0 <= t < |s.pcs| && CanStep(s, t)) <==> !Waiting(s)
  {
    hide CanStep, Waiting, LockInv, HistInv;
    var h :| LockInv(s, h);
    var t0 :| 0 <= t0 < |s.pcs| && s.pcs[t0] != Idle;
    if h.m >= 0 {
      CriticalCanStep(s, h);
    } else if u :| 0 <= u < |s.pcs| && (s.pcs[u].PutMutex? || s.pcs[u].GetMutex? || s.pcs[u].NowaitMutex? || s.pcs[u].NowaitTry?) {
      EnteringCanStep(s, h, u);
    } else {
      OnlyDoorsAreLeft(s, h);
      AtDoors(s, t0);
    }
  }

  /** Nobody is in the critical section, and thread `u` wants to enter it or to try the door. */
  lemma EnteringCanStep(s: State, h: Holders, u: nat)
    requires LockInv(s, h) && h.m < 0 && u < |s.pcs|
    requires s.pcs[u].PutMutex? || s.pcs[u].GetMutex? || s.pcs[u].NowaitMutex? || s.pcs[u].NowaitTry?
    ensures CanStep(s, u) && !Waiting(s)
  {
    hide Balanced;
  }

  /** Whoever is in an operation is waiting for an item or for room, and holds nothing. */
  lemma OnlyDoorsAreLeft(s: State, h: Holders)
    requires LockInv(s, h) && h.m < 0
    requires !exists u :: 0 <= u < |s.pcs| && (s.pcs[u].PutMutex? || s.pcs[u].GetMutex? || s.pcs[u].NowaitMutex? || s.pcs[u].NowaitTry?)
    ensures forall t :: 0 <= t < |s.pcs| ==> s.pcs[t].Idle? || s.pcs[t].GetEsema? || s.pcs[t].PutFsema?
    ensures (s.q.esema <==> s.q.Empty()) && (s.q.fsema <==> s.q.Full())
  {
    forall t | 0 <= t < |s.pcs|
      ensures s.pcs[t].Idle? || s.pcs[t].GetEsema? || s.pcs[t].PutFsema?
    {
      assert !Has(s.pcs[t], Mutex);
    }
    if h.e >= 0 { HolderHas(s.pcs, Esema, h.e); }
    if h.f >= 0 { HolderHas(s.pcs, Fsema, h.f); }
  }

  lemma HolderHas(pcs: seq<Pc>, lock: Lock, h: nat)
    requires SoleHolder(pcs, lock, h)
    ensures exists t :: 0 <= t < |pcs| && Has(pcs[t], lock)
  {
    assert Has(pcs[h], lock);
  }

  lemma AtDoors(s: State, t0: nat)
    requires t0 < |s.pcs| && s.pcs[t0] != Idle
    requires forall t :: 0 <= t < |s.pcs| ==> s.pcs[t].Idle? || s.pcs[t].GetEsema? || s.pcs[t].PutFsema?
    requires (s.q.esema <==> s.q.Empty()) && (s.q.fsema <==> s.q.Full())
    ensures (exists t :: 0 <= t < |s.pcs| && CanStep(s, t)) <==> !Waiting(s)
  {
    if s.q.esema {
      if u :| 0 <= u < |s.pcs| && s.pcs[u].PutFsema? { assert CanStep(s, u); }
    } else if s.q.fsema {
      if u :| 0 <= u < |s.pcs| && s.pcs[u].GetEsema? { assert CanStep(s, u); }
    } else {
      assert CanStep(s, t0);
    }
  }

  /** `get_nowait` decides to raise Empty only when the queue is empty or another thread holds
      `esema`, and it never leaves with `esema` in its hands. */
  lemma EmptyIsJustified(s: State, t: nat)
    requires Inv(s) && t < |s.pcs|
    ensures var r := Statement(s.pcs[t], s.q);
      r.Move? && Effect(RaisedEmpty) in r.notes ==>
        && !Has(s.pcs[t], Esema)
        && (s.q.Empty() || exists u :: 0 <= u < |s.pcs| && u != t && Has(s.pcs[u], Esema))
  {
    var h :| LockInv(s, h);
    var pc := s.pcs[t];
    if pc.NowaitEmpty? || pc.NowaitRetry? {
      assert Has(pc, Mutex);
      assert Has(pc, Esema) <==> h.e == t;
      assert h.e >= 0 ==> Has(s.pcs[h.e], Esema);
    }
  }

  // ---- what the invariant means: first in, first out ----

  function ItemsPut(hist: seq<Event>): seq<Item>
    decreases |hist|
  {
    if hist == [] then [] else
    var n := hist[|hist| - 1].note;
    ItemsPut(hist[..|hist| - 1]) + if n.Effect? && n.res.Stored? then [n.res.item] else []
  }

  function ItemsGot(hist: seq<Event>): seq<Item>
    decreases |hist|
  {
    if hist == [] then [] else
    var n := hist[|hist| - 1].note;
    ItemsGot(hist[..|hist| - 1]) + if n.Effect? && n.res.Got? then [n.res.item] else []
  }

  lemma {:induction false} ReplayIsFifo(hist: seq<Event>)
    requires Replay(hist).Holding?
    ensures ItemsPut(hist) == ItemsGot(hist) + Replay(hist).items
  {
    if hist != [] {
      ReplayIsFifo(hist[..|hist| - 1]);
      var r := Replay(hist[..|hist| - 1]);
      var n := hist[|hist| - 1].note;
      if n.Effect? && n.res.Got? {
        assert r.items == [n.res.item] + r.items[1..];
      }
    }
  }

  /** Items leave in the order they came, none lost and none twice, and the bound is kept. */
  lemma EveryRunIsFifo(maxsize: int, threads: nat, schedule: seq<Action>, s: State)
    requires RunAll(Init(maxsize, threads), schedule) == Next(s)
    ensures ItemsPut(s.hist) == ItemsGot(s.hist) + s.q.queue
    ensures maxsize > 0 ==> |s.q.queue| <= maxsize
  {
    EveryRunIsSafe(maxsize, threads, schedule);
    EveryRunKeepsThreads(maxsize, threads, schedule);
    ReplayIsFifo(s.hist);
    LocksTellTheQueue(s);
  }

  predicate Silent(hist: seq<Event>, t: nat, from: nat, to: nat) {
    forall k :: from <= k < to && k < |hist| ==> hist[k].tid != t
  }

  /** Thread `t` called `op` at `i`, it took effect with result `res` at `j`, and nothing else
      happened to `t` between the call and `k`. */
  predicate Spans(hist: seq<Event>, t: nat, i: nat, j: nat, k: nat, op: Op, res: Res) {
    && i < j < k <= |hist|
    && hist[i] == Event(t, Call(op)) && hist[j] == Event(t, Effect(res)) && Fits(op, res)
    && Silent(hist, t, i + 1, j) && Silent(hist, t, j + 1, k)
  }

  lemma {:induction false} PhaseHasHistory(hist: seq<Event>, t: nat) returns (i: nat, j: nat)
    ensures PhaseOf(hist, t).Pending? ==> i < |hist| && hist[i] == Event(t, Call(PhaseOf(hist, t).op)) && Silent(hist, t, i + 1, |hist|)
    ensures PhaseOf(hist, t).Done? ==> Spans(hist, t, i, j, |hist|, PhaseOf(hist, t).op, PhaseOf(hist, t).res)
    decreases |hist|
  {
    i, j := 0, 0;
    if hist != [] {
      var front, last := hist[..|hist| - 1], hist[|hist| - 1];
      i, j := PhaseHasHistory(front, t);
      assert forall k :: 0 <= k < |front| ==> hist[k] == front[k];
      if last.tid == t {
        if last.note.Call? { i := |front|; } else if last.note.Effect? { j := |front|; }
      }
    }
  }

  lemma {:induction false} PrefixNotWrong(hist: seq<Event>, t: nat, k: nat)
    requires k <= |hist| && PhaseOf(hist, t) != Wrong
    ensures PhaseOf(hist[..k], t) != Wrong
    decreases |hist| - k
  {
    if k == |hist| {
      assert hist[..k] == hist;
    } else {
      PrefixNotWrong(hist, t, k + 1);
      assert hist[..k + 1][..k] == hist[..k];
    }
  }

  lemma ReturnHasEffect(hist: seq<Event>, t: nat, k: nat)
    requires PhaseOf(hist, t) != Wrong && k < |hist| && hist[k].tid == t && hist[k].note.Return?
    ensures exists i, j, op :: Spans(hist, t, i, j, k, op, hist[k].note.res)
  {
    PrefixNotWrong(hist, t, k + 1);
    assert hist[..k + 1][..k] == hist[..k];
    var i, j := PhaseHasHistory(hist[..k], t);
    assert Spans(hist, t, i, j, k, PhaseOf(hist[..k], t).op, hist[k].note.res);
  }

  /** Every return reports the one effect its operation had since its call, so the operations
      happened atomically, each at one instant between its call and its return. */
  lemma ReturnsReportEffects(maxsize: int, threads: nat, schedule: seq<Action>, s: State, k: nat)
    requires RunAll(Init(maxsize, threads), schedule) == Next(s)
    requires k < |s.hist| && s.hist[k].note.Return? && s.hist[k].tid < threads
    ensures exists i, j, op :: Spans(s.hist, s.hist[k].tid, i, j, k, op, s.hist[k].note.res)
  {
    EveryRunIsSafe(maxsize, threads, schedule);
    EveryRunKeepsThreads(maxsize, threads, schedule);
    ReturnHasEffect(s.hist, s.hist[k].tid, k);
  }

  lemma StatementKeepsSize(pc: Pc, q: Shared)
    ensures var r := Statement(pc, q); r.Move? ==> r.q.maxsize == q.maxsize
  {
  }

  lemma {:induction false} EveryRunKeepsThreads(maxsize: int, threads: nat, schedule: seq<Action>)
    ensures var r := RunAll(Init(maxsize, threads), schedule); r.Next? ==> |r.state.pcs| == threads && r.state.q.maxsize == maxsize
    decreases |schedule|
  {
    hide Statement;
    if schedule != [] {
      EveryRunKeepsThreads(maxsize, threads, schedule[..|schedule| - 1]);
      var r := RunAll(Init(maxsize, threads), schedule[..|schedule| - 1]);
      var a := schedule[|schedule| - 1];
      if r.Next? && a.tid < |r.state.pcs| {
        StatementKeepsSize(r.state.pcs[a.tid], r.state.q);
      }
    }
  }

  // ---- the object itself ----

  /** The queue object, updated in place one statement at a time. */
  class QueueObject {
    const maxsize: int
    var queue: seq<Item>
    var mutex: bool
    var esema: bool
    var fsema: bool

    function Fields(): Shared
      reads this
    {
      Shared(maxsize, queue, mutex, esema, fsema)
    }

    constructor (maxsize: int)
      ensures Fields() == Shared(maxsize, [], false, true, false)
    {
      this.maxsize := maxsize;
      queue, mutex, esema, fsema := [], false, true, false;
    }

    method Append(x: Item)
      modifies this`queue
      ensures queue == old(queue) + [x]
    {
      queue := queue + [x];
    }

    method PopFront() returns (x: Item)
      requires queue != []
      modifies this`queue
      ensures [x] + queue == old(queue)
    {
      x := queue[0];
      queue := queue[1..];
    }

    /** Executes one statement for a thread at `pc`. */
    method Execute(pc: Pc) returns (pc': Pc, notes: seq<Note>)
      requires Statement(pc, Fields()).Move?
      modifies this
      ensures Statement(pc, old(Fields())) == Move(pc', Fields(), notes)
    {
      notes := [];
      match pc
      case PutFsema(x) => fsema, pc' := true, PutMutex(x);
      case PutMutex(x) => mutex, pc' := true, PutTest(x);
      case PutTest(x) => pc' := PutStore(x, queue == []);
      case PutStore(x, wasEmpty) =>
        Append(x);
        pc', notes := PutWake(x, wasEmpty), [Effect(Stored(x))];
      case PutWake(x, wasEmpty) =>
        if wasEmpty { esema := false; }
        pc' := PutFree(x);
      case PutFree(x) =>
        if !Fields().Full() { fsema := false; }
        pc' := PutUnlock(x);
      case PutUnlock(x) => mutex, pc', notes := false, Idle, [Return(Stored(x))];
      case GetEsema => esema, pc' := true, GetMutex;
      case GetMutex => mutex, pc' := true, GetTest(OpGet);
      case NowaitTry =>
        var locked := !esema;
        esema, pc' := true, NowaitMutex(locked);
      case NowaitMutex(locked) => mutex, pc' := true, NowaitEmpty(locked);
      case NowaitEmpty(locked) =>
        if queue == [] {
          pc', notes := NowaitRaise, [Effect(RaisedEmpty)];
        } else {
          pc' := if locked then GetTest(OpGetNowait) else NowaitRetry;
        }
      case NowaitRetry =>
        if esema {
          pc', notes := NowaitRaise, [Effect(RaisedEmpty)];
        } else {
          esema, pc' := true, GetTest(OpGetNowait);
        }
      case NowaitRaise => mutex, pc', notes := false, Idle, [Return(RaisedEmpty)];
      case GetTest(op) => pc' := GetTake(op, Fields().Full());
      case GetTake(op, wasFull) =>
        var item := PopFront();
        pc', notes := GetWake(op, wasFull, item), [Effect(Got(item))];
      case GetWake(op, wasFull, item) =>
        if wasFull { fsema := false; }
        pc' := GetFree(op, item);
      case GetFree(op, item) =>
        if queue != [] { esema := false; }
        pc' := GetUnlock(op, item);
      case GetUnlock(op, item) => mutex, pc', notes := false, Idle, [Return(Got(item))];
    }
  }

  /** Runs a whole schedule on one object.  That every entry can be executed without a fault,
      whatever the schedule, is the content of the invariant. */
  method Simulate(maxsize: int, threads: nat, schedule: seq<Action>) returns (q: QueueObject, pcs: seq<Pc>, hist: seq<Event>)
    ensures RunAll(Init(maxsize, threads), schedule) == Next(State(q.Fields(), pcs, hist))
    ensures Inv(State(q.Fields(), pcs, hist))
  {
    q := new QueueObject(maxsize);
    pcs, hist := seq(threads, _ => Idle), [];
    EveryRunIsSafe(maxsize, threads, schedule[..0]);
    for n := 0 to |schedule|
      invariant RunAll(Init(maxsize, threads), schedule[..n]) == Next(State(q.Fields(), pcs, hist))
      invariant fresh(q) && Inv(State(q.Fields(), pcs, hist))
    {
      var a := schedule[n];
      ghost var s := State(q.Fields(), pcs, hist);
      ActKeepsInv(s, a);
      assert schedule[..n + 1][..n] == schedule[..n];
      if a.tid < |pcs| {
        var t := a.tid;
        if a.Invoke? {
          if pcs[t].Idle? {
            pcs, hist := pcs[t := FirstStatement(a.op)], hist + Tag(t, [Call(a.op)]);
          }
        } else if Statement(pcs[t], q.Fields()).Move? {
          var pc', notes := q.Execute(pcs[t]);
          pcs, hist := pcs[t := pc'], hist + Tag(t, notes);
        }
      }
    }
    assert schedule[..|schedule|] == schedule;
  }
}
