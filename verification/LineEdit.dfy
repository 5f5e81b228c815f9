/** The line buffer and the undo list of readline/readline.c.

  Every change of the line is recorded on `rl_undo_list`, newest first; single characters typed
  one after the other share an entry, and changes can be grouped.  The specification is a value with
  the text, the point and the undo list; the buffer itself is an array that is edited in place.
  */
module LineEdit {

  datatype Undo = Delete(start: nat, end: nat, text: string) | Insert(start: nat, end: nat) | Begin | End

  /** `undo` is rl_undo_list, its head first. */
  datatype Editor = Editor(text: string, point: nat, undo: seq<Undo>)

  predicate InBounds(ed: Editor) { ed.point <= |ed.text| }

  function Spliced(text: string, at: nat, s: string): string
    requires at <= |text|
  {
    text[..at] + s + text[at..]
  }

  function Cut(text: string, from: nat, to: nat): string
    requires from <= to <= |text|
  {
    text[..from] + text[to..]
  }

  /** The undo list after `s` has been inserted at `p`: a single character is added to the previous
      insertion if that ended here and is not too long. */
  function RecordInsert(undo: seq<Undo>, p: nat, s: string): seq<Undo> {
    if |s| == 1 && undo != [] && undo[0].Insert? && undo[0].end == p && undo[0].end - undo[0].start < 20
    then [Insert(undo[0].start, undo[0].end + 1)] + undo[1..]
    else [Insert(p, p + |s|)] + undo
  }

  /** rl_insert_text */
  function InsertText(ed: Editor, s: string): Editor
    requires InBounds(ed)
  {
    Editor(Spliced(ed.text, ed.point, s), ed.point + |s|, RecordInsert(ed.undo, ed.point, s))
  }

  /** rl_delete_text; the point is left where it was, for the caller to correct. */
  function DeleteText(ed: Editor, from: nat, to: nat): Editor
    requires from <= |ed.text| && to <= |ed.text|
  {
    var (f, t) := if from > to then (to, from) else (from, to);
    Editor(Cut(ed.text, f, t), ed.point, [Delete(f, t, ed.text[f..t])] + ed.undo)
  }

  /** rl_modifying */
  function Modifying(ed: Editor, start: nat, end: nat): Editor
    requires start <= |ed.text| && end <= |ed.text|
  {
    var (s, e) := if start > end then (end, start) else (start, end);
    if s == e then ed
    else ed.(undo := [End, Insert(s, e), Delete(s, e, ed.text[s..e]), Begin] + ed.undo)
  }

  // ---- what an undo list means ----

  datatype Option<T> = None | Some(value: T)

  /** The text before all the recorded changes; None when an entry does not fit the text. */
  function Unwind(undo: seq<Undo>, text: string): Option<string>
    decreases |undo|
  {
    if undo == [] then Some(text) else
    match undo[0]
    case Delete(s, e, t) => if s <= |text| && |t| == e - s then Unwind(undo[1..], Spliced(text, s, t)) else None
    case Insert(s, e) => if s <= e <= |text| then Unwind(undo[1..], Cut(text, s, e)) else None
    case _ => Unwind(undo[1..], text)
  }

  /** How many groups are still open, when `pending` ends have been seen whose begins are further
      down; None when an end has no begin. */
  function OpenGroups(undo: seq<Undo>, pending: nat): Option<nat>
    decreases |undo|
  {
    if undo == [] then (if pending == 0 then Some(0) else None) else
    match undo[0]
    case Begin =>
      if pending > 0 then OpenGroups(undo[1..], pending - 1)
      else var r := OpenGroups(undo[1..], 0); if r.None? then None else Some(r.value + 1)
    case End => OpenGroups(undo[1..], pending + 1)
    case _ => OpenGroups(undo[1..], pending)
  }

  /** The newest entry is the BEGIN of an open group. */
  predicate AtBegin(undo: seq<Undo>) { undo != [] && undo[0].Begin? }

  datatype Code = Nothing | Undone | Aborted

  /** The inverse of the newest entry. */
  function OneBack(ed: Editor): Editor
    requires ed.undo != [] && Unwind(ed.undo, ed.text).Some?
  {
    match ed.undo[0]
    case Delete(s, e, t) => Editor(Spliced(ed.text, s, t), s + |t|, ed.undo[1..])
    case Insert(s, e) => Editor(Cut(ed.text, s, e), s, ed.undo[1..])
    case _ => ed.(undo := ed.undo[1..])
  }

  function StillWaiting(u: Undo, waiting: nat): nat
    requires u.Begin? ==> waiting > 0
  {
    if u.End? then waiting + 1 else if u.Begin? then waiting - 1 else waiting
  }

  /** rl_do_undo from the label undo_thing on, with `waiting` groups to finish. */
  function UndoThing(ed: Editor, waiting: nat): (r: (Code, Editor))
    requires Unwind(ed.undo, ed.text).Some?
    decreases |ed.undo|
  {
    if ed.undo == [] then (Nothing, ed) else
    if AtBegin(ed.undo) && waiting == 0 then (Aborted, ed) else
    var ed' := OneBack(ed);
    var waiting' := StillWaiting(ed.undo[0], waiting);
    if waiting' > 0 then UndoThing(ed', waiting') else (Undone, ed')
  }

  // ---- undoing ----

  /** An undo that does not start at the BEGIN of an open group never aborts, and what it leaves is as good as what it
      found: the same groups are open. */
  lemma {:induction false} UndoIsSafe(ed: Editor, waiting: nat)
    requires Unwind(ed.undo, ed.text).Some? && OpenGroups(ed.undo, waiting).Some? && InBounds(ed)
    requires waiting > 0 || !AtBegin(ed.undo)
    ensures var (code, ed') := UndoThing(ed, waiting);
      && code == (if ed.undo == [] then Nothing else Undone)
      && Unwind(ed'.undo, ed'.text) == Unwind(ed.undo, ed.text)
      && OpenGroups(ed'.undo, 0) == OpenGroups(ed.undo, waiting)
      && (ed.undo != [] ==> |ed'.undo| < |ed.undo|)
      && InBounds(ed')
    decreases |ed.undo|
  {
    if ed.undo != [] {
      var ed1 := OneBack(ed);
      var w := StillWaiting(ed.undo[0], waiting);
      if w > 0 {
        UndoIsSafe(ed1, w);
      }
    }
  }

  /** An undo aborts exactly when it starts at an open BEGIN. */
  lemma {:induction false} UndoAborts(ed: Editor, waiting: nat)
    requires Unwind(ed.undo, ed.text).Some?
    ensures UndoThing(ed, waiting).0.Aborted? <==> waiting == 0 && AtBegin(ed.undo)
    decreases |ed.undo|
  {
    if ed.undo != [] && !(ed.undo[0].Begin? && waiting == 0) {
      var ed1 := OneBack(ed);
      var w := StillWaiting(ed.undo[0], waiting);
      if w > 0 { UndoAborts(ed1, w); }
    }
  }

  lemma {:induction false} UnwindAppend(g: seq<Undo>, u: seq<Undo>, text: string)
    ensures Unwind(g + u, text) == if Unwind(g, text).None? then None else Unwind(u, Unwind(g, text).value)
    decreases |g|
  {
    if g == [] {
      assert g + u == u;
    } else {
      assert (g + u)[1..] == g[1..] + u;
      match g[0]
      case Delete(s, e, t) => if s <= |text| && |t| == e - s { UnwindAppend(g[1..], u, Spliced(text, s, t)); }
      case Insert(s, e) => if s <= e <= |text| { UnwindAppend(g[1..], u, Cut(text, s, e)); }
      case _ => UnwindAppend(g[1..], u, text);
    }
  }

  /** Undoing through the rest `g` of a group, in which `inner` groups are still to be finished. */
  lemma {:induction false} UndoThroughGroup(ed: Editor, g: seq<Undo>, u: seq<Undo>, inner: nat)
    requires ed.undo == g + [Begin] + u && OpenGroups(g, inner) == Some(0)
    requires Unwind(g, ed.text).Some? && Unwind(ed.undo, ed.text).Some?
    ensures var (code, ed') := UndoThing(ed, inner + 1);
      code == Undone && ed'.text == Unwind(g, ed.text).value && ed'.undo == u
    decreases |g|
  {
    if g == [] {
      assert ed.undo == [Begin] + u;
    } else {
      assert ed.undo[1..] == g[1..] + [Begin] + u && ed.undo[0] == g[0];
      var ed1 := OneBack(ed);
      UndoThroughGroup(ed1, g[1..], u, if g[0].End? then inner + 1 else if g[0].Begin? then inner - 1 else inner);
    }
  }

  /** One undo of a closed group restores the text at its BEGIN, and drops the group. */
  lemma GroupIsUndoneAtOnce(ed: Editor, g: seq<Undo>, u: seq<Undo>)
    requires ed.undo == [End] + g + [Begin] + u && OpenGroups(g, 0) == Some(0)
    requires Unwind(g, ed.text).Some? && Unwind(ed.undo, ed.text).Some?
    ensures var (code, ed') := UndoThing(ed, 0);
      code == Undone && ed'.text == Unwind(g, ed.text).value && ed'.undo == u
  {
    assert ed.undo[1..] == g + [Begin] + u;
    UndoThroughGroup(ed.(undo := ed.undo[1..]), g, u, 0);
  }

  // ---- runs of editing commands ----

  /** What a command does to the line.  A deletion comes with the point that its command sets
      afterwards; `Rewrite` is rl_modifying followed by as many characters put over the old ones. */
  datatype Command =
    | Type(s: string)
    | Remove(from: nat, to: nat, point: nat)
    | Move(point: nat)
    | Rewrite(start: nat, s: string)
    | BeginGroup
    | EndGroup
    | UndoCommand

  /** A group is only ended when one is open, and nothing is undone right after one has begun. */
  predicate Possible(ed: Editor, c: Command) {
    match c
    case Remove(from, to, p) => from <= |ed.text| && to <= |ed.text| && p <= |DeleteText(ed, from, to).text|
    case Move(p) => p <= |ed.text|
    case Rewrite(start, s) => start + |s| <= |ed.text|
    case EndGroup => OpenGroups(ed.undo, 0).Some? && OpenGroups(ed.undo, 0).value > 0
    case UndoCommand => OpenGroups(ed.undo, 0).Some? && !AtBegin(ed.undo)
    case _ => true
  }

  /** Characters written over the line from `start` on. */
  function Overwritten(text: string, start: nat, s: string): string
    requires start + |s| <= |text|
  {
    text[..start] + s + text[start + |s|..]
  }

  function Do(ed: Editor, c: Command): Editor
    requires InBounds(ed) && Unwind(ed.undo, ed.text).Some? && Possible(ed, c)
  {
    match c
    case Type(s) => InsertText(ed, s)
    case Remove(from, to, p) => DeleteText(ed, from, to).(point := p)
    case Move(p) => ed.(point := p)
    case Rewrite(start, s) =>
      Modifying(ed, start, start + |s|).(text := Overwritten(ed.text, start, s), point := start + |s|)
    case BeginGroup => ed.(undo := [Begin] + ed.undo)
    case EndGroup => ed.(undo := [End] + ed.undo)
    case UndoCommand => UndoThing(ed, 0).1
  }

  /** What a command keeps: the line can be taken back to `original`, and groups are nested. */
  ghost predicate Editing(ed: Editor, original: string) {
    InBounds(ed) && Unwind(ed.undo, ed.text) == Some(original) && OpenGroups(ed.undo, 0).Some?
  }

  lemma CutElementwise(before: string, after: string, f: nat, t: nat)
    requires f <= t <= |before| && |after| == |before| - (t - f)
    requires forall k :: 0 <= k < f ==> after[k] == before[k]
    requires forall k :: f <= k < |after| ==> after[k] == before[k + (t - f)]
    ensures after == Cut(before, f, t)
  {
  }

  lemma SplicedElementwise(before: string, after: string, at: nat, s: string)
    requires at <= |before| && |after| == |before| + |s|
    requires forall k :: 0 <= k < at ==> after[k] == before[k]
    requires forall k :: at <= k < at + |s| ==> after[k] == s[k - at]
    requires forall k :: at + |s| <= k < |after| ==> after[k] == before[k - |s|]
    ensures after == Spliced(before, at, s)
  {
  }

  lemma CutSpliced(text: string, at: nat, s: string)
    requires at <= |text|
    ensures Cut(Spliced(text, at, s), at, at + |s|) == text
  {
  }

  lemma SplicedCut(text: string, f: nat, t: nat)
    requires f <= t <= |text|
    ensures Spliced(Cut(text, f, t), f, text[f..t]) == text
  {
  }

  /** A run of characters that is one entry is cut out in one go. */
  lemma CutLonger(text: string, s: nat, p: nat, c: string)
    requires s <= p <= |text| && |c| == 1
    ensures Cut(Spliced(text, p, c), s, p + 1) == Cut(text, s, p)
  {
  }

  lemma InsertKeepsUnwind(ed: Editor, s: string)
    requires InBounds(ed) && Unwind(ed.undo, ed.text).Some?
    ensures Unwind(InsertText(ed, s).undo, InsertText(ed, s).text) == Unwind(ed.undo, ed.text)
    ensures OpenGroups(InsertText(ed, s).undo, 0) == OpenGroups(ed.undo, 0)
  {
    var ed' := InsertText(ed, s);
    if |ed'.undo| == |ed.undo| {
      CutLonger(ed.text, ed.undo[0].start, ed.point, s);
      assert ed'.undo[1..] == ed.undo[1..];
    } else {
      CutSpliced(ed.text, ed.point, s);
      assert ed'.undo[1..] == ed.undo;
    }
  }

  lemma DeleteKeepsUnwind(ed: Editor, from: nat, to: nat)
    requires from <= |ed.text| && to <= |ed.text|
    ensures Unwind(DeleteText(ed, from, to).undo, DeleteText(ed, from, to).text) == Unwind(ed.undo, ed.text)
    ensures OpenGroups(DeleteText(ed, from, to).undo, 0) == OpenGroups(ed.undo, 0)
  {
    var (f, t) := if from > to then (to, from) else (from, to);
    SplicedCut(ed.text, f, t);
    assert DeleteText(ed, from, to).undo[1..] == ed.undo;
  }

  lemma RewriteKeepsUnwind(ed: Editor, start: nat, s: string)
    requires start + |s| <= |ed.text| && s != []
    ensures var ed' := Modifying(ed, start, start + |s|);
      && Unwind(ed'.undo, Overwritten(ed.text, start, s)) == Unwind(ed.undo, ed.text)
      && OpenGroups(ed'.undo, 0) == OpenGroups(ed.undo, 0)
  {
    var e := start + |s|;
    var u3 := [Begin] + ed.undo;
    var u2 := [Delete(start, e, ed.text[start..e])] + u3;
    var u1 := [Insert(start, e)] + u2;
    var u0 := [End] + u1;
    assert Modifying(ed, start, e).undo == u0;
    assert u0[1..] == u1 && u1[1..] == u2 && u2[1..] == u3 && u3[1..] == ed.undo;
    var cut := Cut(ed.text, start, e);
    assert Cut(Overwritten(ed.text, start, s), start, e) == cut;
    SplicedCut(ed.text, start, e);
    assert Unwind(u2, cut) == Unwind(u3, ed.text) == Unwind(ed.undo, ed.text);
    assert OpenGroups(u1, 1) == OpenGroups(u2, 1) == OpenGroups(u3, 1) == OpenGroups(ed.undo, 0);
  }

  lemma {:induction false} EndClosesGroup(undo: seq<Undo>, pending: nat)
    requires OpenGroups(undo, pending).Some? && OpenGroups(undo, pending).value > 0
    ensures OpenGroups(undo, pending + 1) == Some(OpenGroups(undo, pending).value - 1)
    decreases |undo|
  {
    if undo != [] {
      match undo[0]
      case Begin => if pending > 0 { EndClosesGroup(undo[1..], pending - 1); }
      case End => EndClosesGroup(undo[1..], pending + 1);
      case _ => EndClosesGroup(undo[1..], pending);
    }
  }

  lemma DoKeepsEditing(ed: Editor, c: Command, original: string)
    requires Editing(ed, original) && Possible(ed, c)
    ensures Editing(Do(ed, c), original)
  {
    match c
    case Type(s) => InsertKeepsUnwind(ed, s);
    case Remove(from, to, p) => DeleteKeepsUnwind(ed, from, to);
    case Move(p) =>
    case Rewrite(start, s) =>
      if s == [] {
        assert Overwritten(ed.text, start, s) == ed.text;
      } else {
        RewriteKeepsUnwind(ed, start, s);
      }
    case BeginGroup => assert ([Begin] + ed.undo)[1..] == ed.undo;
    case EndGroup =>
      assert ([End] + ed.undo)[1..] == ed.undo;
      EndClosesGroup(ed.undo, 0);
    case UndoCommand => UndoIsSafe(ed, 0);
  }

  /** A run; commands that are not possible where they stand are skipped. */
  function DoAll(ed: Editor, cs: seq<Command>): Editor
    requires InBounds(ed) && Unwind(ed.undo, ed.text).Some?
    requires Editing(ed, Unwind(ed.undo, ed.text).value)
    decreases |cs|
  {
    if cs == [] then ed
    else if Possible(ed, cs[0]) then
      DoKeepsEditing(ed, cs[0], Unwind(ed.undo, ed.text).value);
      DoAll(Do(ed, cs[0]), cs[1..])
    else DoAll(ed, cs[1..])
  }

  lemma {:induction false} RunKeepsEditing(ed: Editor, cs: seq<Command>, original: string)
    requires Editing(ed, original)
    ensures Editing(DoAll(ed, cs), original)
    decreases |cs|
  {
    if cs != [] {
      if Possible(ed, cs[0]) {
        DoKeepsEditing(ed, cs[0], original);
        RunKeepsEditing(Do(ed, cs[0]), cs[1..], original);
      } else {
        RunKeepsEditing(ed, cs[1..], original);
      }
    }
  }

  // ---- groups ----

  lemma {:induction false} OpenGroupsAppend(g: seq<Undo>, v: seq<Undo>, pending: nat)
    requires OpenGroups(g, pending).Some? && OpenGroups(v, 0).Some?
    ensures OpenGroups(g + v, pending) == Some(OpenGroups(g, pending).value + OpenGroups(v, 0).value)
    decreases |g|
  {
    if g == [] {
      assert g + v == v;
    } else {
      assert (g + v)[1..] == g[1..] + v;
      OpenGroupsAppend(g[1..], v, if g[0].End? then pending + 1 else if g[0].Begin? && pending > 0 then pending - 1 else pending);
    }
  }

  /** A run that never closes more groups than it opens, seen from `depth` open groups. */
  predicate StaysInside(ed: Editor, cs: seq<Command>, depth: nat)
    requires InBounds(ed) && Unwind(ed.undo, ed.text).Some?
    decreases |cs|
  {
    && OpenGroups(ed.undo, 0).Some? && OpenGroups(ed.undo, 0).value > depth
    && (cs != [] ==>
        if Possible(ed, cs[0])
        then (DoKeepsEditing(ed, cs[0], Unwind(ed.undo, ed.text).value); StaysInside(Do(ed, cs[0]), cs[1..], depth))
        else StaysInside(ed, cs[1..], depth))
  }

  function Above(ed: Editor, v: seq<Undo>): Editor { ed.(undo := ed.undo + v) }

  /** A command inside a group does not look below the BEGIN of the group. */
  lemma DoIsLocal(ed: Editor, v: seq<Undo>, c: Command)
    requires InBounds(ed) && Unwind(ed.undo, ed.text).Some? && Unwind(ed.undo + v, ed.text).Some?
    requires AtBegin(v) && Possible(ed, c) && Possible(Above(ed, v), c)
    ensures Do(Above(ed, v), c) == Above(Do(ed, c), v)
  {
    hide Unwind, OpenGroups, UndoThing;
    match c
    case Type(s) => InsertIsLocal(ed.undo, v, ed.point, s);
    case Remove(from, to, p) =>
    case Move(p) =>
    case Rewrite(start, s) =>
    case BeginGroup =>
    case EndGroup =>
    case UndoCommand =>
      assert ed.undo == [] ==> ed.undo + v == v;
      UndoIsLocal(ed, v, 0);
  }

  /** So an undo inside a group takes back part of the group. */
  lemma {:induction false} UndoIsLocal(ed: Editor, v: seq<Undo>, waiting: nat)
    requires Unwind(ed.undo, ed.text).Some? && Unwind(ed.undo + v, ed.text).Some? && OpenGroups(ed.undo, waiting).Some?
    requires waiting > 0 || (ed.undo != [] && !AtBegin(ed.undo))
    ensures var (code, ed') := UndoThing(ed, waiting); UndoThing(Above(ed, v), waiting) == (code, Above(ed', v))
    decreases |ed.undo|
  {
    assert ed.undo != [];
    assert (ed.undo + v)[0] == ed.undo[0] && (ed.undo + v)[1..] == ed.undo[1..] + v;
    var ed1 := OneBack(ed);
    var w := StillWaiting(ed.undo[0], waiting);
    if w > 0 { UndoIsLocal(ed1, v, w); }
  }

  lemma InsertIsLocal(u: seq<Undo>, v: seq<Undo>, p: nat, s: string)
    requires AtBegin(v)
    ensures RecordInsert(u + v, p, s) == RecordInsert(u, p, s) + v
  {
    if u == [] {
      assert u + v == v;
    } else if |s| == 1 && u[0].Insert? && u[0].end == p && u[0].end - u[0].start < 20 {
      assert (u + v)[0] == u[0] && (u + v)[1..] == u[1..] + v;
      Associate([Insert(u[0].start, u[0].end + 1)], u[1..], v);
    } else {
      assert (u + v)[0] == u[0];
      Associate([Insert(p, p + |s|)], u, v);
    }
  }

  lemma Associate<T>(a: seq<T>, b: seq<T>, c: seq<T>)
    ensures a + (b + c) == a + b + c
  {
  }

  /** The group that stands on top of `u` started from the text `text0`, and `g` is recorded in it. */
  ghost predicate GroupFrom(ed: Editor, g: seq<Undo>, u: seq<Undo>, text0: string) {
    ed.undo == g + [Begin] + u && Unwind(g, ed.text) == Some(text0) && OpenGroups(g, 0).Some?
  }

  lemma {:induction false} InsideGroup(ed: Editor, u: seq<Undo>, cs: seq<Command>, text0: string, original: string)
    requires var v := [Begin] + u;
      Editing(ed, text0) && Editing(Above(ed, v), original) && OpenGroups(u, 0).Some?
      && StaysInside(Above(ed, v), cs, OpenGroups(u, 0).value)
    ensures exists g :: GroupFrom(DoAll(Above(ed, [Begin] + u), cs), g, u, text0)
    decreases |cs|
  {
    var v := [Begin] + u;
    assert v[1..] == u;
    if cs == [] {
      assert ed.undo + v == ed.undo + [Begin] + u;
      assert GroupFrom(DoAll(Above(ed, v), cs), ed.undo, u, text0);
    } else {
      var c := cs[0];
      OpenGroupsAppend(ed.undo, v, 0);
      assert ed.undo == [] ==> ed.undo + v == v;
      if Possible(Above(ed, v), c) {
        DoKeepsEditing(Above(ed, v), c, original);
        if c.EndGroup? {
          assert ([End] + (ed.undo + v))[1..] == ed.undo + v;
          EndClosesGroup(ed.undo + v, 0);
        }
        DoKeepsEditing(ed, c, text0);
        DoIsLocal(ed, v, c);
        InsideGroup(Do(ed, c), u, cs[1..], text0, original);
        var g :| GroupFrom(DoAll(Above(Do(ed, c), v), cs[1..]), g, u, text0);
        assert GroupFrom(DoAll(Above(ed, v), cs), g, u, text0);
      } else {
        InsideGroup(ed, u, cs[1..], text0, original);
        var g :| GroupFrom(DoAll(Above(ed, v), cs[1..]), g, u, text0);
        assert GroupFrom(DoAll(Above(ed, v), cs), g, u, text0);
      }
    }
  }

  /** Whatever was done between the beginning and the end of a group, one undo takes back all of it. */
  lemma GroupRestoresText(ed: Editor, cs: seq<Command>, original: string)
    requires Editing(ed, original) && OpenGroups(ed.undo, 0) == Some(0)
    requires Editing(Do(ed, BeginGroup), original) && StaysInside(Do(ed, BeginGroup), cs, 0)
    requires OpenGroups(DoAll(Do(ed, BeginGroup), cs).undo, 0) == Some(1)
    ensures var ed2 := DoAll(Do(ed, BeginGroup), cs);
      Editing(ed2, original) && Possible(ed2, EndGroup)
    ensures var ed3 := Do(DoAll(Do(ed, BeginGroup), cs), EndGroup);
      && Possible(ed3, UndoCommand) && Unwind(ed3.undo, ed3.text).Some?
      && UndoThing(ed3, 0).0 == Undone && UndoThing(ed3, 0).1.text == ed.text && UndoThing(ed3, 0).1.undo == ed.undo
  {
    var sub := ed.(undo := []);
    assert Above(sub, [Begin] + ed.undo) == Do(ed, BeginGroup);
    InsideGroup(sub, ed.undo, cs, ed.text, original);
    var ed2 := DoAll(Do(ed, BeginGroup), cs);
    RunKeepsEditing(Do(ed, BeginGroup), cs, original);
    var g :| GroupFrom(ed2, g, ed.undo, ed.text);
    EndedGroup(ed2, g, ed.undo, ed.text, original);
  }

  lemma EndedGroup(ed2: Editor, g: seq<Undo>, u: seq<Undo>, text0: string, original: string)
    requires Editing(ed2, original) && GroupFrom(ed2, g, u, text0)
    requires OpenGroups(u, 0) == Some(0) && OpenGroups(ed2.undo, 0) == Some(1)
    ensures Possible(ed2, EndGroup)
    ensures var ed3 := Do(ed2, EndGroup);
      && Possible(ed3, UndoCommand) && Unwind(ed3.undo, ed3.text).Some?
      && UndoThing(ed3, 0).0 == Undone && UndoThing(ed3, 0).1.text == text0 && UndoThing(ed3, 0).1.undo == u
  {
    assert ([Begin] + u)[1..] == u;
    assert g + [Begin] + u == g + ([Begin] + u);
    OpenGroupsAppend(g, [Begin] + u, 0);
    DoKeepsEditing(ed2, EndGroup, original);
    var ed3 := Do(ed2, EndGroup);
    EndClosesGroup(ed2.undo, 0);
    assert ed3.undo[1..] == ed2.undo;
    assert ed3.undo == [End] + g + [Begin] + u;
    GroupIsUndoneAtOnce(ed3, g, u);
  }

  // ---- how much one undo takes back ----

  /** The characters of `s`, typed one after the other. */
  function Typed(ed: Editor, s: string): (r: Editor)
    requires InBounds(ed)
    ensures InBounds(r)
    decreases |s|
  {
    if s == "" then ed else InsertText(Typed(ed, s[..|s| - 1]), [s[|s| - 1]])
  }

  /** The next character typed shares the newest entry. */
  predicate Continues(ed: Editor) {
    ed.undo != [] && ed.undo[0].Insert? && ed.undo[0].end == ed.point && ed.undo[0].end - ed.undo[0].start < 20
  }

  /** How many of `n` characters typed in a row are in the newest entry. */
  function InNewest(n: nat): nat { if n == 0 then 0 else (n - 1) % 20 + 1 }

  lemma InNewestNext(n: nat)
    ensures InNewest(n + 1) == if n == 0 || InNewest(n) == 20 then 1 else InNewest(n) + 1
    ensures InNewest(n) <= n && InNewest(n) <= 20 && (n > 0 ==> InNewest(n) > 0)
    ensures (n + 1 + 19) / 20 == (n + 19) / 20 + if InNewest(n + 1) == 1 then 1 else 0
  {
  }

  /** Characters typed in a row share entries of twenty; the last entry has the rest. */
  lemma {:induction false} TypedEntries(ed: Editor, s: string)
    requires InBounds(ed) && !Continues(ed)
    ensures var n, p, ed' := |s|, ed.point, Typed(ed, s);
      && ed'.text == ed.text[..p] + s + ed.text[p..] && ed'.point == p + n
      && |ed'.undo| == |ed.undo| + (n + 19) / 20
    ensures InNewest(|s|) <= |s| <= Typed(ed, s).point
    ensures s != "" ==>
      var n, ed' := InNewest(|s|), Typed(ed, s);
      ed'.undo == [Insert(ed'.point - n, ed'.point)] + Typed(ed, s[..|s| - n]).undo
    decreases |s|
  {
    hide InNewest, InsertText;
    InNewestNext(|s|);
    if s == "" {
      assert ed.text == ed.text[..ed.point] + s + ed.text[ed.point..];
    } else {
      TypedEntries(ed, s[..|s| - 1]);
      TypedStep(ed, s, Typed(ed, s[..|s| - 1]));
      InNewestNext(|s| - 1);
      var n := InNewest(|s|);
      if n > 1 { assert s[..|s| - 1][..|s| - n] == s[..|s| - n]; }
    }
  }

  /** One character more: the entry that has all of the newest characters becomes longer, up to twenty. */
  lemma TypedStep(ed: Editor, s: string, ed1: Editor)
    requires InBounds(ed) && !Continues(ed) && s != "" && InBounds(ed1)
    requires ed1.point == ed.point + |s| - 1 && ed1.text == ed.text[..ed.point] + s[..|s| - 1] + ed.text[ed.point..]
    requires |s| == 1 ==> ed1 == ed
    ensures var c := [s[|s| - 1]];
      && InsertText(ed1, c).text == ed.text[..ed.point] + s + ed.text[ed.point..] && InsertText(ed1, c).point == ed.point + |s|
      && if Continues(ed1) then InsertText(ed1, c).undo == [Insert(ed1.undo[0].start, ed1.point + 1)] + ed1.undo[1..]
         else InsertText(ed1, c).undo == [Insert(ed1.point, ed1.point + 1)] + ed1.undo
  {
    assert s == s[..|s| - 1] + [s[|s| - 1]];
  }

  /** One undo takes back what of the characters typed is in the newest entry, and no more; so the next one takes back
      the twenty before them. */
  lemma TypedUndone(ed: Editor, s: string)
    requires InBounds(ed) && !Continues(ed) && s != "" && Unwind(ed.undo, ed.text).Some?
    ensures Unwind(Typed(ed, s).undo, Typed(ed, s).text).Some?
    ensures UndoThing(Typed(ed, s), 0) == (Undone, Typed(ed, s[..|s| - ((|s| - 1) % 20 + 1)]))
  {
    hide OpenGroups, Typed, Unwind, RecordInsert, Spliced, UndoThing;
    NewestUndone(ed, s, |s| - InNewest(|s|));
  }

  lemma NewestUndone(ed: Editor, s: string, n: int)
    requires InBounds(ed) && !Continues(ed) && s != "" && Unwind(ed.undo, ed.text).Some? && n == |s| - InNewest(|s|)
    ensures n >= 0 && Unwind(Typed(ed, s).undo, Typed(ed, s).text).Some?
    ensures UndoThing(Typed(ed, s), 0) == (Undone, Typed(ed, s[..n]))
  {
    hide OpenGroups, Typed, Unwind, RecordInsert, Spliced, UndoThing, InNewest;
    TypedKeepsUnwind(ed, s);
    TypedEntries(ed, s);
    TypedEntries(ed, s[..n]);
    InsertionUndone(Typed(ed, s), Typed(ed, s[..n]), ed.text[..ed.point], s, ed.text[ed.point..], n);
  }

  lemma SplicedRest(a: string, s: string, b: string, n: nat)
    requires n <= |s|
    ensures Spliced(a + s[..n] + b, |a| + n, s[n..]) == a + s + b
  {
    assert s == s[..n] + s[n..];
    assert (a + s[..n] + b)[..|a| + n] == a + s[..n] && (a + s[..n] + b)[|a| + n..] == b;
  }

  lemma InsertionUndone(ed1: Editor, ed2: Editor, a: string, s: string, b: string, n: nat)
    requires n <= |s| && ed1.text == a + s + b && ed1.point == |a| + |s|
    requires ed2.text == a + s[..n] + b && ed2.point == |a| + n
    requires ed1.undo == [Insert(ed2.point, ed1.point)] + ed2.undo && Unwind(ed1.undo, ed1.text).Some?
    ensures UndoThing(ed1, 0) == (Undone, ed2)
  {
    SplicedRest(a, s, b, n);
    CutSpliced(ed2.text, ed2.point, s[n..]);
    assert ed1.undo[1..] == ed2.undo;
  }

  lemma {:induction false} TypedKeepsUnwind(ed: Editor, s: string)
    requires InBounds(ed) && Unwind(ed.undo, ed.text).Some?
    ensures Unwind(Typed(ed, s).undo, Typed(ed, s).text) == Unwind(ed.undo, ed.text)
    decreases |s|
  {
    hide Unwind, OpenGroups, RecordInsert;
    if s != "" {
      TypedKeepsUnwind(ed, s[..|s| - 1]);
      InsertKeepsUnwind(Typed(ed, s[..|s| - 1]), [s[|s| - 1]]);
    }
  }

  /** Characters typed somewhere else, or a string that is no single character, have an entry of their own: one undo
      takes back all of it, and nothing that was typed before. */
  lemma NewEntry(ed: Editor, s: string, q: nat, t: string)
    requires InBounds(ed) && !Continues(ed) && Unwind(ed.undo, ed.text).Some? && s != ""
    requires q <= |ed.text| + |s| && (q != ed.point + |s| || |t| != 1)
    ensures var ed1 := Typed(ed, s).(point := q);
      && InBounds(ed1) && InsertText(ed1, t).undo == [Insert(q, q + |t|)] + ed1.undo
      && Unwind(InsertText(ed1, t).undo, InsertText(ed1, t).text).Some?
      && UndoThing(InsertText(ed1, t), 0) == (Undone, ed1)
  {
    TypedEntries(ed, s);
    TypedKeepsUnwind(ed, s);
    var ed1 := Typed(ed, s).(point := q);
    InsertUndone(ed1, t);
  }

  lemma InsertUndone(ed: Editor, t: string)
    requires InBounds(ed) && Unwind(ed.undo, ed.text).Some? && !(|t| == 1 && Continues(ed))
    ensures InsertText(ed, t).undo == [Insert(ed.point, ed.point + |t|)] + ed.undo
    ensures Unwind(InsertText(ed, t).undo, InsertText(ed, t).text).Some?
    ensures UndoThing(InsertText(ed, t), 0) == (Undone, ed)
  {
    CutSpliced(ed.text, ed.point, t);
    assert InsertText(ed, t).undo[1..] == ed.undo;
  }

  /** One undo brings deleted text back, and the point is behind it. */
  lemma DeleteUndone(ed: Editor, from: nat, to: nat, p: nat)
    requires InBounds(ed) && Unwind(ed.undo, ed.text).Some? && Possible(ed, Remove(from, to, p))
    ensures var ed' := Do(ed, Remove(from, to, p));
      && Unwind(ed'.undo, ed'.text).Some?
      && UndoThing(ed', 0) == (Undone, ed.(point := if from > to then from else to))
  {
    var (f, t) := if from > to then (to, from) else (from, to);
    SplicedCut(ed.text, f, t);
    assert DeleteText(ed, from, to).undo[1..] == ed.undo;
  }

  lemma RewriteCut(text: string, start: nat, s: string)
    requires start + |s| <= |text|
    ensures Cut(Overwritten(text, start, s), start, start + |s|) == Cut(text, start, start + |s|)
    ensures Spliced(Cut(text, start, start + |s|), start, text[start..start + |s|]) == text
    ensures |Overwritten(text, start, s)| == |text| && |Cut(text, start, start + |s|)| == |text| - |s|
  {
    SplicedCut(text, start, start + |s|);
  }

  /** And one undo takes back all of a rewrite. */
  lemma RewriteUndone(ed: Editor, start: nat, s: string)
    requires InBounds(ed) && Unwind(ed.undo, ed.text).Some? && Possible(ed, Rewrite(start, s)) && s != ""
    ensures var ed' := Do(ed, Rewrite(start, s));
      && Unwind(ed'.undo, ed'.text).Some? && UndoThing(ed', 0) == (Undone, ed.(point := start + |s|))
  {
    var e, ed' := start + |s|, Do(ed, Rewrite(start, s));
    RewriteKeepsUnwind(ed, start, s);
    RewriteCut(ed.text, start, s);
    hide OpenGroups, Cut, Spliced, Overwritten;
    var u3 := [Begin] + ed.undo;
    var u2 := [Delete(start, e, ed.text[start..e])] + u3;
    var u1 := [Insert(start, e)] + u2;
    assert ed'.undo[1..] == u1 && u1[1..] == u2 && u2[1..] == u3 && u3[1..] == ed.undo;
    assert UndoThing(Editor(ed.text, e, u3), 1) == (Undone, ed.(point := e));
    assert UndoThing(Editor(Cut(ed.text, start, e), start, u2), 1) == (Undone, ed.(point := e));
    assert UndoThing(Editor(ed'.text, e, u1), 1) == (Undone, ed.(point := e));
  }

  /** A rewrite puts its characters over the old ones, and nowhere else. */
  lemma RewriteIs(ed: Editor, start: nat, s: string, j: nat)
    requires InBounds(ed) && Unwind(ed.undo, ed.text).Some? && Possible(ed, Rewrite(start, s)) && j < |ed.text|
    ensures var text := Do(ed, Rewrite(start, s)).text;
      |text| == |ed.text| && text[j] == if start <= j < start + |s| then s[j - start] else ed.text[j]
  {
  }

  // ---- the buffer ----

  /** A C string: no character in it is the terminator. */
  predicate CString(s: string) { '\0' !in s }

  /** The globals the_line, rl_point, rl_end, rl_undo_list and doing_an_undo. */
  class Line {
    var line: array<char>
    var point: nat
    var end: nat
    var undo: seq<Undo>
    var doingAnUndo: bool

    ghost predicate Valid()
      reads this, line
    {
      end < line.Length && line[end] == '\0' && CString(line[..end])
    }

    function View(): Editor
      requires Valid()
      reads this, line
    {
      Editor(line[..end], point, undo)
    }

    constructor ()
      ensures Valid() && View() == Editor("", 0, []) && !doingAnUndo && fresh(line)
    {
      line := new char[256](_ => '\0');
      point, end, undo, doingAnUndo := 0, 0, [], false;
    }

    /** Makes room for `len` characters. */
    method ExtendLineBuffer(len: nat)
      requires Valid()
      modifies this`line
      ensures Valid() && len < line.Length && line[..end] == old(line[..end])
      ensures fresh(line) || line == old(line)
    {
      while len >= line.Length
        invariant Valid() && line[..end] == old(line[..end])
        invariant fresh(line) || line == old(line)
        decreases len - line.Length
      {
        var bigger := new char[line.Length + 256](i requires 0 <= i reads this, line => if i < line.Length then line[i] else '\0');
        line := bigger;
      }
    }

    /** rl_insert_text; while something is being undone nothing is recorded. */
    method Insert(s: string)
      requires Valid() && point <= end && CString(s)
      modifies this`line, this`point, this`end, this`undo, line
      ensures Valid() && (fresh(line) || line == old(line)) && doingAnUndo == old(doingAnUndo)
      ensures View() == InsertText(old(View()), s).(undo := if old(doingAnUndo) then old(undo) else RecordInsert(old(undo), old(point), s))
    {
      hide RecordInsert;
      var l := |s|;
      if end + l >= line.Length { ExtendLineBuffer(end + l); }
      SplicedIsCString(line[..end], point, s);
      Splice(s);
      if !doingAnUndo { Record(s); }
      ghost var after := line[..end + l];
      point := point + l;
      end := end + l;
      line[end] := '\0';
      assert line[..end] == after;
    }

    /** An insertion is recorded; a single character that follows on the last one shares its entry. */
    method Record(s: string)
      modifies this`undo
      ensures undo == RecordInsert(old(undo), point, s)
    {
      if |s| == 1 && undo != [] && undo[0].Insert? && undo[0].end == point && undo[0].end - undo[0].start < 20 {
        undo := [Undo.Insert(undo[0].start, undo[0].end + 1)] + undo[1..];
      } else {
        undo := [Undo.Insert(point, point + |s|)] + undo;
      }
    }

    method Splice(s: string)
      requires Valid() && point <= end && end + |s| < line.Length
      modifies line
      ensures line[..end + |s|] == Spliced(old(line[..end]), point, s)
    {
      ghost var before := line[..end];
      MakeRoom(|s|);
      PutString(s);
      SplicedElementwise(before, line[..end + |s|], point, s);
    }

    /** The text from the point on moves up, its end first. */
    method MakeRoom(l: nat)
      requires point <= end && end + l < line.Length
      modifies line
      ensures forall k :: 0 <= k < point ==> line[k] == old(line[k])
      ensures forall k :: point + l <= k <= end + l ==> line[k] == old(line[k - l])
    {
      var i := end + 1;
      while i > point
        invariant point <= i <= end + 1
        invariant forall k :: 0 <= k < i ==> line[k] == old(line[k])
        invariant forall k :: i + l <= k <= end + l ==> line[k] == old(line[k - l])
      {
        i := i - 1;
        line[i + l] := line[i];
      }
    }

    /** The characters of a string are put at the point. */
    method PutString(s: string)
      requires point + |s| <= line.Length
      modifies line
      ensures forall j :: 0 <= j < line.Length ==> line[j] == if point <= j < point + |s| then s[j - point] else old(line[j])
    {
      for k := 0 to |s|
        invariant forall j :: 0 <= j < line.Length ==> line[j] == if point <= j < point + k then s[j - point] else old(line[j])
      {
        line[point + k] := s[k];
      }
    }

    /** rl_delete_text; the text is recorded unless something is being undone. */
    method DeleteRange(from0: nat, to0: nat)
      requires Valid() && from0 <= end && to0 <= end
      modifies this`end, this`undo, line
      ensures Valid() && line == old(line)
      ensures View() == DeleteText(old(View()), from0, to0).(undo := if doingAnUndo then old(undo) else DeleteText(old(View()), from0, to0).undo)
    {
      var from, to := from0, to0;
      if from > to { from, to := to, from; }
      var text := line[from..to];
      CutIsCString(line[..end], from, to);
      assert line[..end][from..to] == text;
      MoveDown(from, to);
      if !doingAnUndo {
        undo := [Undo.Delete(from, to, text)] + undo;
      }
      end := end - (to - from);
      assert line[..end] == Cut(old(line[..end]), from, to);
      line[end] := '\0';
    }

    /** The text behind a deleted part moves down, its beginning first. */
    method MoveDown(from: nat, to: nat)
      requires from <= to <= end < line.Length
      modifies line
      ensures line[..end - (to - from)] == Cut(old(line[..end]), from, to)
    {
      ghost var before := line[..end];
      for j := 0 to end - to
        invariant forall k :: 0 <= k < line.Length && (k < from || k >= from + j) ==> line[k] == old(line[k])
        invariant forall k :: from <= k < from + j ==> line[k] == old(line[k + (to - from)])
      {
        line[from + j] := line[to + j];
      }
      CutElementwise(before, line[..end - (to - from)], from, to);
    }

    /** rl_modifying */
    method Guard(start0: nat, end0: nat)
      requires Valid() && start0 <= end && end0 <= end
      modifies this`undo
      ensures Valid() && View() == Modifying(old(View()), start0, end0)
    {
      var s, e := start0, end0;
      if s > e { s, e := e, s; }
      if s != e {
        var temp := line[s..e];
        assert line[..end][s..e] == temp;
        undo := [Begin] + undo;
        undo := [Undo.Delete(s, e, temp)] + undo;
        undo := [Undo.Insert(s, e)] + undo;
        undo := [End] + undo;
        assert undo == [End, Undo.Insert(s, e), Undo.Delete(s, e, temp), Begin] + old(undo);
      }
    }

    /** The inverse of one entry, applied to the line. */
    method TakeBack(u: Undo)
      requires Valid() && doingAnUndo
      requires u.Delete? ==> u.start <= end && CString(u.text)
      requires u.Insert? ==> u.start <= u.end <= end
      modifies this`line, this`point, this`end, this`undo, line
      ensures Valid() && (fresh(line) || line == old(line))
      ensures u.Delete? ==> View() == Editor(Spliced(old(line[..end]), u.start, u.text), u.start + |u.text|, old(undo))
      ensures u.Insert? ==> View() == Editor(Cut(old(line[..end]), u.start, u.end), u.start, old(undo))
      ensures !u.Delete? && !u.Insert? ==> View() == old(View())
    {
      if u.Delete? {
        point := u.start;
        Insert(u.text);
      } else if u.Insert? {
        DeleteRange(u.start, u.end);
        point := u.start;
      }
    }

    /** rl_do_undo, the jump to undo_thing being the loop. */
    method DoUndo() returns (code: Code)
      requires Valid() && !doingAnUndo && Unwind(undo, line[..end]).Some? && StringsIn(undo) && point <= end
      modifies this, line
      ensures Valid() && (fresh(line) || line == old(line)) && StringsIn(undo)
      ensures (code, View()) == UndoThing(old(View()), 0)
      ensures doingAnUndo <==> code.Aborted?
    {
      hide UndoThing, Unwind, Spliced, Cut, StringsIn, CString;
      var waitingForBegin := 0;
      ghost var ed := View();
      while true
        invariant Valid() && (fresh(line) || line == old(line)) && StringsIn(undo) && !doingAnUndo
        invariant waitingForBegin >= 0 && Unwind(undo, line[..end]).Some?
        invariant UndoThing(View(), waitingForBegin) == UndoThing(ed, 0)
        decreases |undo|
      {
        UndoStep(View(), waitingForBegin);
        StringsBehind(undo);
        if undo == [] { return Nothing; }
        doingAnUndo := true;
        match undo[0] {
          case Delete(_, _, _) => TakeBack(undo[0]);
          case Insert(_, _) => TakeBack(undo[0]);
          case End => waitingForBegin := waitingForBegin + 1;
          case Begin =>
            if waitingForBegin > 0 {
              waitingForBegin := waitingForBegin - 1;
            } else {
              return Aborted;
            }
        }
        doingAnUndo := false;
        undo := undo[1..];
        if waitingForBegin == 0 { return Undone; }
      }
    }

    /** Characters put over the line in place, as in the loop of rl_change_case. */
    method Overwrite(start: nat, s: string)
      requires Valid() && start + |s| <= end && CString(s)
      modifies line
      ensures Valid() && line[..end] == Overwritten(old(line[..end]), start, s)
    {
      for k := 0 to |s|
        invariant forall j :: 0 <= j < line.Length ==> line[j] == if start <= j < start + k then s[j - start] else old(line[j])
      {
        line[start + k] := s[k];
      }
      assert line[..end] == Overwritten(old(line[..end]), start, s);
      OverwrittenIsCString(old(line[..end]), start, s);
    }

    /** One editing command on the buffer. */
    method Perform(c: Command)
      requires Valid() && !doingAnUndo && InBounds(View()) && Unwind(undo, line[..end]).Some? && StringsIn(undo)
      requires Possible(View(), c) && (c.Type? || c.Rewrite? ==> CString(c.s))
      modifies this, line
      ensures Valid() && (fresh(line) || line == old(line)) && !doingAnUndo && StringsIn(undo)
      ensures View() == Do(old(View()), c)
    {
      hide UndoThing, Unwind, OpenGroups, RecordInsert, StringsIn, CString, Spliced, Cut, Overwritten;
      if !c.UndoCommand? { StringsAfter(View(), c); }
      match c
      case Type(s) => Insert(s);
      case Remove(from, to, p) =>
        DeleteRange(from, to);
        point := p;
      case Move(p) => point := p;
      case Rewrite(start, s) =>
        Guard(start, start + |s|);
        Overwrite(start, s);
        point := start + |s|;
      case BeginGroup => undo := [Begin] + undo;
      case EndGroup => undo := [End] + undo;
      case UndoCommand =>
        UndoAborts(View(), 0);
        var _ := DoUndo();
    }

    /** rl_revert_line */
    method Revert(ghost original: string)
      requires Valid() && !doingAnUndo && Editing(View(), original) && OpenGroups(undo, 0) == Some(0) && StringsIn(undo)
      modifies this, line
      ensures Valid() && (fresh(line) || line == old(line))
      ensures View().text == original && undo == [] && point <= end
    {
      while undo != []
        invariant Valid() && (fresh(line) || line == old(line)) && StringsIn(undo) && !doingAnUndo
        invariant Editing(View(), original) && OpenGroups(undo, 0) == Some(0)
        decreases |undo|
      {
        ClosedIsNotAtBegin(undo);
        UndoIsSafe(View(), 0);
        var _ := DoUndo();
      }
    }
  }

  /** One round of rl_do_undo. */
  lemma UndoStep(ed: Editor, waiting: nat)
    requires Unwind(ed.undo, ed.text).Some?
    ensures ed.undo == [] ==> UndoThing(ed, waiting) == (Nothing, ed)
    ensures AtBegin(ed.undo) && waiting == 0 ==> UndoThing(ed, waiting) == (Aborted, ed)
    ensures ed.undo != [] && !(AtBegin(ed.undo) && waiting == 0) ==>
      var ed', w := OneBack(ed), StillWaiting(ed.undo[0], waiting);
      Unwind(ed'.undo, ed'.text).Some? && UndoThing(ed, waiting) == if w > 0 then UndoThing(ed', w) else (Undone, ed')
    ensures ed.undo != [] && ed.undo[0].Delete? ==> ed.undo[0].start <= |ed.text|
    ensures ed.undo != [] && ed.undo[0].Insert? ==> ed.undo[0].start <= ed.undo[0].end <= |ed.text|
  {
  }

  lemma StringsBehind(undo: seq<Undo>)
    requires StringsIn(undo)
    ensures undo != [] ==> StringsIn(undo[1..]) && (undo[0].Delete? ==> CString(undo[0].text))
  {
  }

  lemma StringsAfter(ed: Editor, c: Command)
    requires InBounds(ed) && Unwind(ed.undo, ed.text).Some? && Possible(ed, c) && !c.UndoCommand?
    requires CString(ed.text) && StringsIn(ed.undo)
    ensures StringsIn(Do(ed, c).undo)
  {
    hide Unwind, OpenGroups, UndoThing;
  }

  /** The saved texts are C strings. */
  predicate StringsIn(undo: seq<Undo>) {
    forall k :: 0 <= k < |undo| && undo[k].Delete? ==> CString(undo[k].text)
  }

  lemma ClosedIsNotAtBegin(undo: seq<Undo>)
    requires OpenGroups(undo, 0) == Some(0)
    ensures !AtBegin(undo)
  {
  }

  lemma OverwrittenIsCString(text: string, start: nat, s: string)
    requires start + |s| <= |text| && CString(text) && CString(s)
    ensures CString(Overwritten(text, start, s))
  {
  }

  predicate CommandStrings(cs: seq<Command>) {
    forall k :: 0 <= k < |cs| && (cs[k].Type? || cs[k].Rewrite?) ==> CString(cs[k].s)
  }

  /** Any run of commands on a line that starts out as `original`, followed by rl_revert_line: the line is
      `original` again.  Groups must have been closed by then. */
  method EditAndRevert(original: string, cs: seq<Command>) returns (l: Line)
    requires CString(original) && CommandStrings(cs)
    requires OpenGroups(DoAll(Editor(original, |original|, []), cs).undo, 0) == Some(0)
    ensures fresh(l) && l.Valid() && l.View().text == original && l.undo == [] && l.point <= l.end
  {
    l := new Line();
    l.Insert(original);
    l.undo := [];
    ghost var ed := l.View();
    assert ed == Editor(original, |original|, []) by { assert Spliced("", 0, original) == original; }
    assert cs[0..] == cs;
    for k := 0 to |cs|
      invariant fresh(l) && fresh(l.line) && l.Valid() && !l.doingAnUndo && StringsIn(l.undo)
      invariant Editing(l.View(), original) && DoAll(l.View(), cs[k..]) == DoAll(ed, cs)
    {
      assert cs[k..][0] == cs[k] && cs[k..][1..] == cs[k + 1..];
      if Possible(l.View(), cs[k]) {
        DoKeepsEditing(l.View(), cs[k], original);
        l.Perform(cs[k]);
      }
    }
    l.Revert(original);
  }

  lemma CutIsCString(text: string, from: nat, to: nat)
    requires from <= to <= |text| && CString(text)
    ensures CString(Cut(text, from, to)) && CString(text[from..to])
  {
  }

  lemma SplicedIsCString(text: string, at: nat, s: string)
    requires at <= |text| && CString(text) && CString(s)
    ensures CString(Spliced(text, at, s))
  {
  }
}
