/** The kill ring of readline/readline.c: the kill commands, rl_kill_text and rl_yank, in emacs mode.

  Text that is killed goes to the newest slot of a ring of at most rl_max_kills texts.  Kills that follow one
  another share a slot; text killed in front of the point is put after it, text behind the point before it.
  */
module KillRing {
  import L = LineEdit

  // ---- words ----

  /** alphabetic, while path name characters are not allowed in words */
  predicate Alphabetic(c: char) { 'a' <= c <= 'z' || 'A' <= c <= 'Z' || '0' <= c <= '9' }

  /** The first place from `p` on whose character is in a word, or is not. */
  function NextPlace(text: string, p: nat, inWord: bool): (r: nat)
    requires p <= |text|
    ensures p <= r <= |text|
    decreases |text| - p
  {
    if p == |text| || Alphabetic(text[p]) == inWord then p else NextPlace(text, p + 1, inWord)
  }

  /** The last place up to `p` behind a character that is in a word, or is not. */
  function PreviousPlace(text: string, p: nat, inWord: bool): (r: nat)
    requires p <= |text|
    ensures r <= p
  {
    if p == 0 || Alphabetic(text[p - 1]) == inWord then p else PreviousPlace(text, p - 1, inWord)
  }

  function ForwardWords(text: string, p: nat, count: nat): (r: nat)
    requires p <= |text|
    ensures p <= r <= |text|
    decreases count
  {
    if count == 0 || p == |text| then p
    else ForwardWords(text, NextPlace(text, NextPlace(text, p, true), false), count - 1)
  }

  function BackwardWords(text: string, p: nat, count: nat): (r: nat)
    requires p <= |text|
    ensures r <= p
    decreases count
  {
    if count == 0 || p == 0 then p
    else BackwardWords(text, PreviousPlace(text, PreviousPlace(text, p, true), false), count - 1)
  }

  predicate WordEnd(text: string, q: nat)
    requires q <= |text|
  {
    q > 0 && Alphabetic(text[q - 1]) && (q == |text| || !Alphabetic(text[q]))
  }

  predicate WordStart(text: string, q: nat)
    requires q <= |text|
  {
    q < |text| && Alphabetic(text[q]) && (q == 0 || !Alphabetic(text[q - 1]))
  }

  /** How many words end after `p`, up to `q`. */
  function WordEnds(text: string, p: nat, q: nat): nat
    requires p <= q <= |text|
  {
    if p == q then 0 else WordEnds(text, p, q - 1) + if WordEnd(text, q) then 1 else 0
  }

  /** How many words start from `p` on, before `q`. */
  function WordStarts(text: string, p: nat, q: nat): nat
    requires p <= q <= |text|
    decreases q - p
  {
    if p == q then 0 else WordStarts(text, p + 1, q) + if WordStart(text, p) then 1 else 0
  }

  lemma {:induction false} NextPlaceIsNext(text: string, p: nat, inWord: bool)
    requires p <= |text|
    ensures var r := NextPlace(text, p, inWord);
      && (r < |text| ==> Alphabetic(text[r]) == inWord)
      && forall q :: p <= q < r ==> Alphabetic(text[q]) != inWord
    decreases |text| - p
  {
    if p < |text| && Alphabetic(text[p]) != inWord { NextPlaceIsNext(text, p + 1, inWord); }
  }

  lemma {:induction false} PreviousPlaceIsPrevious(text: string, p: nat, inWord: bool)
    requires p <= |text|
    ensures var r := PreviousPlace(text, p, inWord);
      && (r > 0 ==> Alphabetic(text[r - 1]) == inWord)
      && forall q :: r <= q < p ==> Alphabetic(text[q]) != inWord
  {
    if p > 0 && Alphabetic(text[p - 1]) != inWord { PreviousPlaceIsPrevious(text, p - 1, inWord); }
  }

  lemma {:induction false} WordEndsSplit(text: string, p: nat, m: nat, q: nat)
    requires p <= m <= q <= |text|
    ensures WordEnds(text, p, q) == WordEnds(text, p, m) + WordEnds(text, m, q)
  {
    if m < q { WordEndsSplit(text, p, m, q - 1); }
  }

  lemma {:induction false} NoWordEnds(text: string, p: nat, q: nat)
    requires p <= q <= |text| && forall i :: p < i <= q ==> !WordEnd(text, i)
    ensures WordEnds(text, p, q) == 0
  {
    if p < q { NoWordEnds(text, p, q - 1); }
  }

  lemma {:induction false} WordStartsSplit(text: string, p: nat, m: nat, q: nat)
    requires p <= m <= q <= |text|
    ensures WordStarts(text, p, q) == WordStarts(text, p, m) + WordStarts(text, m, q)
    decreases m - p
  {
    if p < m { WordStartsSplit(text, p + 1, m, q); }
  }

  lemma {:induction false} NoWordStarts(text: string, p: nat, q: nat)
    requires p <= q <= |text| && forall i :: p <= i < q ==> !WordStart(text, i)
    ensures WordStarts(text, p, q) == 0
    decreases q - p
  {
    if p < q { NoWordStarts(text, p + 1, q); }
  }

  /** Moving over one word stops at its end. */
  lemma OneWordForward(text: string, p: nat)
    requires p < |text|
    ensures var r := NextPlace(text, NextPlace(text, p, true), false);
      && p < r && (r == |text| || WordEnd(text, r))
      && WordEnds(text, p, r) == if WordEnd(text, r) then 1 else 0
  {
    var a := NextPlace(text, p, true);
    var r := NextPlace(text, a, false);
    NextPlaceIsNext(text, p, true);
    NextPlaceIsNext(text, a, false);
    if p < r {
      assert forall i :: p < i < r ==> !WordEnd(text, i);
      NoWordEnds(text, p, r - 1);
    }
  }

  lemma OneWordBackward(text: string, p: nat)
    requires 0 < p <= |text|
    ensures var r := PreviousPlace(text, PreviousPlace(text, p, true), false);
      && r < p && (r == 0 || WordStart(text, r))
      && WordStarts(text, r, p) == if WordStart(text, r) then 1 else 0
  {
    var a := PreviousPlace(text, p, true);
    var r := PreviousPlace(text, a, false);
    PreviousPlaceIsPrevious(text, p, true);
    PreviousPlaceIsPrevious(text, a, false);
    if r < p {
      assert forall i :: r + 1 <= i < p ==> !WordStart(text, i);
      NoWordStarts(text, r + 1, p);
    }
  }

  function Min(a: nat, b: nat): nat { if a < b then a else b }

  /** rl_forward_word moves to the end of the `count`th word, or to the end of the line when there are fewer. */
  lemma {:induction false} ForwardWordsCounts(text: string, p: nat, count: nat)
    requires p <= |text|
    ensures var r := ForwardWords(text, p, count);
      && WordEnds(text, p, r) == Min(count, WordEnds(text, p, |text|))
      && (0 < count <= WordEnds(text, p, |text|) ==> WordEnd(text, r))
      && (WordEnds(text, p, |text|) < count ==> r == |text|)
    decreases count
  {
    if count > 0 && p < |text| {
      var m := NextPlace(text, NextPlace(text, p, true), false);
      OneWordForward(text, p);
      ForwardWordsCounts(text, m, count - 1);
      WordEndsSplit(text, p, m, |text|);
      WordEndsSplit(text, p, m, ForwardWords(text, m, count - 1));
      if !WordEnd(text, m) { assert m == |text|; }
    }
  }

  /** rl_backward_word moves to the start of the `count`th word back, or to the start of the line. */
  lemma {:induction false} BackwardWordsCounts(text: string, p: nat, count: nat)
    requires p <= |text|
    ensures var r := BackwardWords(text, p, count);
      && WordStarts(text, r, p) == Min(count, WordStarts(text, 0, p))
      && (0 < count <= WordStarts(text, 0, p) ==> WordStart(text, r))
      && (WordStarts(text, 0, p) < count ==> r == 0)
    decreases count
  {
    if count > 0 && p > 0 {
      var m := PreviousPlace(text, PreviousPlace(text, p, true), false);
      OneWordBackward(text, p);
      BackwardWordsCounts(text, m, count - 1);
      WordStartsSplit(text, 0, m, p);
      WordStartsSplit(text, BackwardWords(text, m, count - 1), m, p);
      if !WordStart(text, m) { assert m == 0; }
    }
  }

  lemma AlphabeticIs(c: char)
    ensures Alphabetic(c) <==>
      c in "abcdefghijklmnopqrstuvwxyz" || c in "ABCDEFGHIJKLMNOPQRSTUVWXYZ" || c in "0123456789"
  {
  }

  /** From `p` on, `r` is the end of the `count`th word, or the end of the line when there are fewer. */
  predicate WordsOn(text: string, p: nat, count: nat, r: nat) {
    && p <= r <= |text|
    && if count == 0 then r == p
       else if count <= WordEnds(text, p, |text|) then WordEnd(text, r) && WordEnds(text, p, r) == count
       else r == |text|
  }

  /** Back from `p`, `r` is the start of the `count`th word, or the start of the line. */
  predicate WordsBack(text: string, p: nat, count: nat, r: nat) {
    && r <= p <= |text|
    && if count == 0 then r == p
       else if count <= WordStarts(text, 0, p) then WordStart(text, r) && WordStarts(text, r, p) == count
       else r == 0
  }

  lemma WordsOnOnce(text: string, p: nat, count: nat, r: nat, r': nat)
    requires WordsOn(text, p, count, r) && WordsOn(text, p, count, r')
    ensures r == r'
  {
    if r < r' { WordEndsMore(text, p, r, r'); }
    if r' < r { WordEndsMore(text, p, r', r); }
  }

  lemma WordEndsMore(text: string, p: nat, r: nat, r': nat)
    requires p <= r < r' <= |text| && WordEnd(text, r')
    ensures WordEnds(text, p, r) < WordEnds(text, p, r')
  {
    WordEndsSplit(text, p, r, r');
  }

  lemma WordsBackOnce(text: string, p: nat, count: nat, r: nat, r': nat)
    requires WordsBack(text, p, count, r) && WordsBack(text, p, count, r')
    ensures r == r'
  {
    if r < r' { WordStartsMore(text, r, r', p); }
    if r' < r { WordStartsMore(text, r', r, p); }
  }

  lemma WordStartsMore(text: string, r: nat, r': nat, p: nat)
    requires r < r' <= p <= |text| && WordStart(text, r)
    ensures WordStarts(text, r', p) < WordStarts(text, r, p)
  {
    WordStartsSplit(text, r, r', p);
  }

  // ---- killing and yanking ----

  /** `ring` is empty before the first kill; `last` is last_command_was_kill. */
  datatype State = State(ed: L.Editor, ring: seq<string>, index: nat, last: nat)

  /** A new slot at the end; the oldest text goes when there are `max` of them.  An existing ring is never
      empty, so that a limit of 0 is no limit. */
  function NewSlot(ring: seq<string>, text: string, max: nat): seq<string> {
    if ring != [] && |ring| == max then ring[1..] + [text] else ring + [text]
  }

  function Newest(ring: seq<string>): string
    requires ring != []
  {
    ring[|ring| - 1]
  }

  /** The ring after `text` has been killed: in a new slot, or behind or in front of the newest text. */
  function Stored(ring: seq<string>, last: nat, text: string, append: bool, max: nat): (r: seq<string>)
    requires last > 0 ==> ring != []
    ensures r != []
  {
    if last == 0 then NewSlot(ring, text, max)
    else ring[..|ring| - 1] + [if append then Newest(ring) + text else text + Newest(ring)]
  }

  /** rl_kill_text */
  function KillText(k: State, from: nat, to: nat, max: nat): State
    requires from <= |k.ed.text| && to <= |k.ed.text| && (k.last > 0 ==> k.ring != [])
  {
    if from == to then k.(last := k.last + 1) else
    var text := if from < to then k.ed.text[from..to] else k.ed.text[to..from];
    var ring := Stored(k.ring, k.last, text, from < to, max);
    State(L.DeleteText(k.ed, from, to), ring, |ring| - 1, k.last + 1)
  }

  datatype Kill =
    | KillWord(count: int)
    | BackwardKillWord(count: int)
    | KillLine(direction: int)
    | BackwardKillLine(direction: int)
    | UnixLineDiscard

  /** The other end of the text that a command kills. */
  function Extent(c: Kill, text: string, p: nat): (r: nat)
    requires p <= |text|
    ensures r <= |text|
  {
    match c
    case KillWord(n) => if n < 0 then BackwardWords(text, p, -n) else ForwardWords(text, p, n)
    case BackwardKillWord(n) => if n < 0 then ForwardWords(text, p, -n) else BackwardWords(text, p, n)
    case KillLine(d) => if d < 0 then 0 else |text|
    case BackwardKillLine(d) => if d < 0 then |text| else 0
    case UnixLineDiscard => 0
  }

  predicate Removes(k: State, c: Kill)
    requires L.InBounds(k.ed)
  {
    Extent(c, k.ed.text, k.ed.point) != k.ed.point
  }

  /** A kill command: the text between the point and the extent is killed, and the point ends up where it was. */
  function DoKill(k: State, c: Kill, max: nat): (k': State)
    requires L.InBounds(k.ed) && (k.last > 0 ==> k.ring != [])
    ensures L.InBounds(k'.ed) && (k'.last > 0 ==> k'.ring != [])
  {
    var p := k.ed.point;
    var t := Extent(c, k.ed.text, p);
    if t == p then k
    else
      var k1 := KillText(k, p, t, max);
      k1.(ed := k1.ed.(point := Min(p, t)))
  }

  /** From `k` to `k'` the characters from `a` up to `b` have been killed, and the point is where they were: their text is
      in a new slot, or behind or in front of the newest text.  Nothing changes when there are none. */
  predicate Killed(k: State, k': State, a: nat, b: nat, behind: bool, max: nat) {
    a <= b <= |k.ed.text| && if a == b then k' == k else
    var text := k.ed.text[a..b];
    && k'.ed.text == k.ed.text[..a] + k.ed.text[b..] && k'.ed.point == a
    && k'.ed.undo == [L.Delete(a, b, text)] + k.ed.undo
    && k'.last == k.last + 1 && k'.index + 1 == |k'.ring|
    && if k.last > 0 then
         && |k'.ring| == |k.ring| && k'.ring[..k'.index] == k.ring[..k'.index]
         && k'.ring[k'.index] == if behind then k.ring[k'.index] + text else text + k.ring[k'.index]
       else
         && k'.ring[k'.index] == text
         && k'.ring[..k'.index] == if k.ring != [] && |k.ring| == max then k.ring[1..] else k.ring
  }

  lemma KillsExtent(k: State, c: Kill, max: nat)
    requires L.InBounds(k.ed) && (k.last > 0 ==> k.ring != [])
    ensures var p, t := k.ed.point, Extent(c, k.ed.text, k.ed.point);
      Killed(k, DoKill(k, c, max), Min(p, t), if p < t then t else p, p < t, max)
  {
    hide ForwardWords, BackwardWords;
  }

  /** rl_kill_line: from the point to the end of the line, or back to its beginning for a negative direction. */
  lemma LineIsKilled(k: State, d: int, max: nat)
    requires L.InBounds(k.ed) && (k.last > 0 ==> k.ring != [])
    ensures var k' := DoKill(k, KillLine(d), max);
      if d < 0 then Killed(k, k', 0, k.ed.point, false, max) else Killed(k, k', k.ed.point, |k.ed.text|, true, max)
  {
    hide DoKill;
    KillsExtent(k, KillLine(d), max);
  }

  /** rl_backward_kill_line */
  lemma LineIsKilledBackward(k: State, d: int, max: nat)
    requires L.InBounds(k.ed) && (k.last > 0 ==> k.ring != [])
    ensures var k' := DoKill(k, BackwardKillLine(d), max);
      if d < 0 then Killed(k, k', k.ed.point, |k.ed.text|, true, max) else Killed(k, k', 0, k.ed.point, false, max)
  {
    hide DoKill;
    KillsExtent(k, BackwardKillLine(d), max);
  }

  /** rl_unix_line_discard */
  lemma BeginningIsKilled(k: State, max: nat)
    requires L.InBounds(k.ed) && (k.last > 0 ==> k.ring != [])
    ensures Killed(k, DoKill(k, UnixLineDiscard, max), 0, k.ed.point, false, max)
  {
    hide DoKill;
    KillsExtent(k, UnixLineDiscard, max);
  }

  /** `count` words on from the point have been killed, or as many back for a negative count. */
  ghost predicate WordsKilled(k: State, k': State, count: int, max: nat) {
    if count < 0
    then exists r :: WordsBack(k.ed.text, k.ed.point, -count, r) && Killed(k, k', r, k.ed.point, false, max)
    else exists r :: WordsOn(k.ed.text, k.ed.point, count, r) && Killed(k, k', k.ed.point, r, true, max)
  }

  /** rl_kill_word */
  lemma WordIsKilled(k: State, count: int, max: nat)
    requires L.InBounds(k.ed) && (k.last > 0 ==> k.ring != [])
    ensures WordsKilled(k, DoKill(k, KillWord(count), max), count, max)
  {
    hide DoKill, WordsOn, WordsBack, Killed, ForwardWords, BackwardWords;
    KillsExtent(k, KillWord(count), max);
    if count < 0 {
      BackwardReach(k.ed.text, k.ed.point, -count);
    } else {
      ForwardReach(k.ed.text, k.ed.point, count);
      if !Removes(k, KillWord(count)) { SameEnd(k, DoKill(k, KillWord(count), max), max); }
    }
  }

  lemma ForwardReach(text: string, p: nat, count: nat)
    requires p <= |text|
    ensures WordsOn(text, p, count, ForwardWords(text, p, count))
  {
    ForwardWordsCounts(text, p, count);
  }

  lemma BackwardReach(text: string, p: nat, count: nat)
    requires p <= |text|
    ensures WordsBack(text, p, count, BackwardWords(text, p, count))
  {
    BackwardWordsCounts(text, p, count);
  }

  /** Of no text it does not matter where it goes. */
  lemma SameEnd(k: State, k': State, max: nat)
    requires Killed(k, k', k.ed.point, k.ed.point, false, max)
    ensures Killed(k, k', k.ed.point, k.ed.point, true, max)
  {
  }

  /** rl_backward_kill_word is rl_kill_word the other way. */
  lemma WordIsKilledBackward(k: State, count: int, max: nat)
    requires L.InBounds(k.ed) && (k.last > 0 ==> k.ring != [])
    ensures WordsKilled(k, DoKill(k, BackwardKillWord(count), max), -count, max)
  {
    hide DoKill, WordsKilled;
    SameKill(k, count, max);
    WordIsKilled(k, -count, max);
  }

  lemma SameKill(k: State, count: int, max: nat)
    requires L.InBounds(k.ed) && (k.last > 0 ==> k.ring != [])
    ensures DoKill(k, BackwardKillWord(count), max) == DoKill(k, KillWord(-count), max)
  {
    hide KillText;
    assert Extent(BackwardKillWord(count), k.ed.text, k.ed.point) == Extent(KillWord(-count), k.ed.text, k.ed.point);
  }

  datatype Key = Kill(kill: Kill) | Yank | Edit(command: L.Command)

  ghost predicate Good(k: State, original: string) {
    && L.Editing(k.ed, original)
    && (k.ring != [] ==> k.index == |k.ring| - 1)
    && (k.last > 0 ==> k.ring != [])
  }

  /** One key: the command, and then the dispatcher's decision whether it was a kill.  A yank without a ring is
      aborted before that decision. */
  function Press(k: State, key: Key, max: nat): State
    requires L.InBounds(k.ed) && L.Unwind(k.ed.undo, k.ed.text).Some? && (k.last > 0 ==> k.ring != [])
    requires k.ring != [] ==> k.index < |k.ring|
  {
    if key.Yank? && k.ring == [] then k else
    var k1 := match key
      case Kill(c) => DoKill(k, c, max)
      case Yank => k.(ed := L.InsertText(k.ed, k.ring[k.index]))
      case Edit(c) => if L.Possible(k.ed, c) then k.(ed := L.Do(k.ed, c)) else k;
    if k1.last == k.last then k1.(last := 0) else k1
  }

  /** Of all keys only a kill that removes text keeps the run of kills going. */
  lemma OnlyKillsGoOn(k: State, key: Key, max: nat, original: string)
    requires Good(k, original)
    ensures var k' := Press(k, key, max);
      if key.Kill? && |k'.ed.text| < |k.ed.text| then k'.last == k.last + 1
      else k'.last == 0 && k'.ring == k.ring && k'.index == k.index
  {
    hide L.Unwind, L.OpenGroups, L.Do, L.UndoThing, L.RecordInsert, L.Possible, Extent, Stored;
  }

  /** A kill after any other key, or after a kill command that had nothing to remove, has a slot of its own. */
  lemma KillsApart(k: State, key: Key, c: Kill, max: nat, original: string)
    requires Good(k, original) && (key.Kill? ==> |Press(k, key, max).ed.text| >= |k.ed.text|)
    ensures var k1 := Press(k, key, max);
      Good(k1, original) && var k2 := Press(k1, Key.Kill(c), max);
      |k2.ed.text| < |k1.ed.text| ==>
        && k2.ring == (if k.ring != [] && |k.ring| == max then k.ring[1..] else k.ring) + [k2.ring[k2.index]]
        && L.Spliced(k2.ed.text, k2.ed.point, k2.ring[k2.index]) == k1.ed.text
  {
    OnlyKillsGoOn(k, key, max, original);
    PressKeepsGood(k, key, max, original);
    var k1 := Press(k, key, max);
    hide L.Unwind, L.OpenGroups, L.Do, L.UndoThing, L.RecordInsert, L.Possible, Extent;
    if Removes(k1, c) { FirstKillTakesSlot(k1, c, max); }
  }

  lemma PressKeepsGood(k: State, key: Key, max: nat, original: string)
    requires Good(k, original)
    ensures Good(Press(k, key, max), original)
  {
    hide L.Unwind, L.OpenGroups, L.UndoThing, L.RecordInsert, ForwardWords, BackwardWords;
    match key
    case Kill(c) =>
      L.DeleteKeepsUnwind(k.ed, k.ed.point, Extent(c, k.ed.text, k.ed.point));
    case Yank =>
      if k.ring != [] { L.InsertKeepsUnwind(k.ed, k.ring[k.index]); }
    case Edit(c) =>
      if L.Possible(k.ed, c) { L.DoKeepsEditing(k.ed, c, original); }
  }

  ghost function PressAll(k: State, keys: seq<Key>, max: nat, original: string): (k': State)
    requires Good(k, original)
    ensures Good(k', original)
    decreases |keys|
  {
    if keys == [] then k
    else
      PressKeepsGood(k, keys[0], max, original);
      PressAll(Press(k, keys[0], max), keys[1..], max, original)
  }

  // ---- a run of kills is one text ----

  /** The line with the newest killed text put back at the point. */
  function Whole(k: State): string
    requires L.InBounds(k.ed) && k.ring != []
  {
    L.Spliced(k.ed.text, k.ed.point, Newest(k.ring))
  }

  lemma FirstKillTakesSlot(k: State, c: Kill, max: nat)
    requires L.InBounds(k.ed) && k.last == 0 && Removes(k, c)
    ensures var k' := DoKill(k, c, max);
      && k'.last == 1 && k'.ring != [] && k'.index == |k'.ring| - 1
      && Whole(k') == k.ed.text
      && k'.ring[..|k'.ring| - 1] == if k.ring != [] && |k.ring| == max then k.ring[1..] else k.ring
  {
    hide ForwardWords, BackwardWords, L.RecordInsert;
    var p, t := k.ed.point, Extent(c, k.ed.text, k.ed.point);
    L.SplicedCut(k.ed.text, Min(p, t), if p < t then t else p);
  }

  lemma NextKillKeepsWhole(k: State, c: Kill, max: nat)
    requires L.InBounds(k.ed) && k.last > 0 && k.ring != [] && Removes(k, c)
    ensures var k' := DoKill(k, c, max);
      && k'.last == k.last + 1 && |k'.ring| == |k.ring| && k'.index == |k'.ring| - 1
      && Whole(k') == Whole(k)
      && k'.ring[..|k'.ring| - 1] == k.ring[..|k.ring| - 1]
  {
    hide ForwardWords, BackwardWords, L.RecordInsert;
    var p, t := k.ed.point, Extent(c, k.ed.text, k.ed.point);
    if p < t {
      SpliceMore(k.ed.text, p, t, Newest(k.ring));
    } else {
      SpliceMoreBefore(k.ed.text, t, p, Newest(k.ring));
    }
  }

  lemma SpliceMore(text: string, p: nat, t: nat, s: string)
    requires p <= t <= |text|
    ensures L.Spliced(L.Cut(text, p, t), p, s + text[p..t]) == L.Spliced(text, p, s)
  {
    assert text[p..] == text[p..t] + text[t..];
    assert L.Cut(text, p, t)[..p] == text[..p] && L.Cut(text, p, t)[p..] == text[t..];
  }

  lemma SpliceMoreBefore(text: string, t: nat, p: nat, s: string)
    requires t <= p <= |text|
    ensures L.Spliced(L.Cut(text, t, p), t, text[t..p] + s) == L.Spliced(text, p, s)
  {
    assert text[..p] == text[..t] + text[t..p];
    assert L.Cut(text, t, p)[..t] == text[..t] && L.Cut(text, t, p)[t..] == text[p..];
  }

  /** Kill commands one after the other, each of which removes some text. */
  ghost predicate KillsText(k: State, cs: seq<Kill>, max: nat, original: string)
    requires Good(k, original)
    decreases |cs|
  {
    if cs == [] then true
    else
      PressKeepsGood(k, Key.Kill(cs[0]), max, original);
      Removes(k, cs[0]) && KillsText(Press(k, Key.Kill(cs[0]), max), cs[1..], max, original)
  }

  function Keys(cs: seq<Kill>): seq<Key> { seq(|cs|, i requires 0 <= i < |cs| => Key.Kill(cs[i])) }

  lemma {:induction false} MoreKills(k: State, cs: seq<Kill>, max: nat, original: string)
    requires Good(k, original) && k.last > 0 && KillsText(k, cs, max, original)
    ensures var k' := PressAll(k, Keys(cs), max, original);
      && |k'.ring| == |k.ring| && k'.last > 0 && Whole(k') == Whole(k)
      && k'.ring[..|k'.ring| - 1] == k.ring[..|k.ring| - 1]
    decreases |cs|
  {
    hide DoKill, L.Unwind, L.OpenGroups, Whole;
    if cs != [] {
      NextKillKeepsWhole(k, cs[0], max);
      PressKeepsGood(k, Key.Kill(cs[0]), max, original);
      assert Keys(cs)[1..] == Keys(cs[1..]);
      MoreKills(Press(k, Key.Kill(cs[0]), max), cs[1..], max, original);
    }
  }

  /** After any run of kills rl_yank puts the line back as it was before the run; the run took one slot. */
  lemma YankRestores(k: State, cs: seq<Kill>, max: nat, original: string)
    requires Good(k, original) && k.last == 0 && cs != [] && KillsText(k, cs, max, original)
    ensures var k' := PressAll(k, Keys(cs), max, original);
      && k'.ring != [] && Press(k', Yank, max).ed.text == k.ed.text
      && k'.ring[..|k'.ring| - 1] == if k.ring != [] && |k.ring| == max then k.ring[1..] else k.ring
  {
    hide DoKill, L.Unwind, L.OpenGroups, L.RecordInsert;
    FirstKillTakesSlot(k, cs[0], max);
    PressKeepsGood(k, Key.Kill(cs[0]), max, original);
    assert Keys(cs)[1..] == Keys(cs[1..]);
    MoreKills(Press(k, Key.Kill(cs[0]), max), cs[1..], max, original);
  }

  // ---- the ring keeps the newest texts ----

  function LastOnes(ring: seq<string>, max: nat): seq<string> {
    if |ring| <= max then ring else ring[|ring| - max..]
  }

  /** `h` is what `k` would be if no text were ever dropped. */
  ghost predicate IsWindow(k: State, h: State, max: nat) {
    k.ed == h.ed && k.last == h.last && k.ring == LastOnes(h.ring, max)
  }

  lemma NewSlotKeepsWindow(h: seq<string>, text: string, max: nat)
    requires max > 0
    ensures NewSlot(LastOnes(h, max), text, max) == LastOnes(NewSlot(h, text, 0), max)
  {
  }

  lemma StoredKeepsWindow(h: seq<string>, last: nat, text: string, append: bool, max: nat)
    requires max > 0 && (last > 0 ==> h != [])
    ensures last > 0 ==> LastOnes(h, max) != []
    ensures Stored(LastOnes(h, max), last, text, append, max) == LastOnes(Stored(h, last, text, append, 0), max)
  {
    if last == 0 {
      NewSlotKeepsWindow(h, text, max);
    } else {
      assert Newest(LastOnes(h, max)) == Newest(h);
      LastReplaced(h, if append then Newest(h) + text else text + Newest(h), max);
    }
  }

  lemma LastReplaced(h: seq<string>, text: string, max: nat)
    requires max > 0 && h != []
    ensures LastOnes(h, max) != []
    ensures LastOnes(h, max)[..|LastOnes(h, max)| - 1] + [text] == LastOnes(h[..|h| - 1] + [text], max)
  {
  }

  lemma KillKeepsWindow(k: State, h: State, c: Kill, max: nat)
    requires max > 0 && L.InBounds(k.ed) && (k.last > 0 ==> k.ring != []) && IsWindow(k, h, max)
    ensures IsWindow(DoKill(k, c, max), DoKill(h, c, 0), max)
  {
    hide Extent, L.DeleteText, Stored, LastOnes;
    var p, t := k.ed.point, Extent(c, k.ed.text, k.ed.point);
    if p != t {
      RingBehind(k, h, max);
      StoredKeepsWindow(h.ring, k.last, if p < t then k.ed.text[p..t] else k.ed.text[t..p], p < t, max);
    }
  }

  lemma RingBehind(k: State, h: State, max: nat)
    requires (k.last > 0 ==> k.ring != []) && IsWindow(k, h, max)
    ensures k.last > 0 ==> h.ring != []
  {
  }

  lemma PressKeepsWindow(k: State, h: State, key: Key, max: nat, original: string)
    requires max > 0 && Good(k, original) && Good(h, original) && IsWindow(k, h, max)
    ensures IsWindow(Press(k, key, max), Press(h, key, 0), max)
  {
    hide L.Unwind, L.OpenGroups, L.UndoThing, L.RecordInsert, L.Do, DoKill;
    assert k.ring == [] <==> h.ring == [];
    match key
    case Kill(c) => KillKeepsWindow(k, h, c, max);
    case Yank => assert k.ring != [] ==> Newest(k.ring) == Newest(h.ring);
    case Edit(c) =>
  }

  /** Over every run of keys the ring holds at most `max` texts, namely the newest of all that were killed, and
      the line is never affected by the older ones having been dropped. */
  lemma {:induction false} RingKeepsNewest(k: State, h: State, keys: seq<Key>, max: nat, original: string)
    requires max > 0 && Good(k, original) && Good(h, original) && IsWindow(k, h, max)
    ensures IsWindow(PressAll(k, keys, max, original), PressAll(h, keys, 0, original), max)
    ensures |PressAll(k, keys, max, original).ring| <= max
    decreases |keys|
  {
    hide Press;
    if keys != [] {
      PressKeepsWindow(k, h, keys[0], max, original);
      PressKeepsGood(k, keys[0], max, original);
      PressKeepsGood(h, keys[0], 0, original);
      RingKeepsNewest(Press(k, keys[0], max), Press(h, keys[0], 0), keys[1..], max, original);
    }
  }

  function PointAt(k: State, p: nat): State { k.(ed := k.ed.(point := p)) }

  /** What is killed does not depend on where the point is. */
  lemma PointStays(k: State, p: nat, from: nat, to: nat, max: nat)
    requires from <= |k.ed.text| && to <= |k.ed.text| && (k.last > 0 ==> k.ring != [])
    ensures KillText(PointAt(k, p), from, to, max) == PointAt(KillText(k, from, to, max), p)
  {
  }

  // ---- the commands ----

  predicate RingStrings(ring: seq<string>) { forall i :: 0 <= i < |ring| ==> L.CString(ring[i]) }

  lemma StoredStrings(ring: seq<string>, last: nat, text: string, append: bool, max: nat)
    requires RingStrings(ring) && L.CString(text) && (last > 0 ==> ring != [])
    ensures RingStrings(Stored(ring, last, text, append, max))
  {
  }

  lemma YankedIsString(ring: seq<string>, index: nat)
    requires RingStrings(ring) && index < |ring|
    ensures L.CString(ring[index])
  {
  }

  predicate CommandStrings(c: L.Command) { c.Type? || c.Rewrite? ==> L.CString(c.s) }

  lemma KillKeepsStrings(k: State, c: Kill, max: nat)
    requires L.InBounds(k.ed) && (k.last > 0 ==> k.ring != []) && L.StringsIn(k.ed.undo) && L.CString(k.ed.text)
    ensures L.StringsIn(DoKill(k, c, max).ed.undo)
  {
  }

  lemma YankKeepsStrings(ed: L.Editor, s: string)
    requires L.InBounds(ed) && L.StringsIn(ed.undo)
    ensures L.StringsIn(L.InsertText(ed, s).undo)
  {
  }

  /** rl_kill_ring, which has a cell more than rl_kill_ring_length, rl_kill_index and last_command_was_kill. */
  class Killer {
    const line: L.Line
    const maxKills: nat
    var ring: array?<string>
    var length: nat
    var index: nat
    var lastCommandWasKill: nat

    ghost predicate Valid()
      reads this, line, line.line, ring
    {
      && line.Valid() && line.point <= line.end && !line.doingAnUndo
      && (ring == null ==> length == 0)
      && (ring != null ==> length > 0 && ring.Length == length + 1 && RingStrings(ring[..length]))
      && (lastCommandWasKill > 0 ==> length > 0)
    }

    function Ring(): seq<string>
      requires ring != null ==> length <= ring.Length
      reads this, ring
    {
      if ring == null then [] else ring[..length]
    }

    function View(): State
      requires Valid()
      reads this, line, line.line, ring
    {
      State(line.View(), Ring(), index, lastCommandWasKill)
    }

    constructor (line: L.Line, maxKills: nat)
      requires line.Valid() && line.point <= line.end && !line.doingAnUndo
      ensures Valid() && this.line == line && this.maxKills == maxKills && ring == null
      ensures View() == State(line.View(), [], 0, 0)
    {
      this.line, this.maxKills := line, maxKills;
      ring, length, index, lastCommandWasKill := null, 0, 0, 0;
    }

    /** xrealloc */
    method Grow()
      requires ring != null && ring.Length == length + 1
      modifies this`ring, this`length
      ensures fresh(ring) && length == old(length) + 1 && ring.Length == length + 1
      ensures ring[..old(length)] == old(ring[..length])
    {
      length := length + 1;
      ring := new string[length + 1](i requires 0 <= i reads this, ring => if ring != null && i < ring.Length then ring[i] else "");
    }

    /** Every text moves down one slot; the oldest is gone. */
    method Shift()
      requires ring != null && length > 0 && ring.Length == length + 1
      modifies ring
      ensures ring[..length - 1] == old(ring[..length])[1..]
    {
      for i := 0 to length
        invariant forall j :: 0 <= j < i ==> ring[j] == old(ring[j + 1])
        invariant forall j :: i <= j <= length ==> ring[j] == old(ring[j])
      {
        ring[i] := ring[i + 1];
      }
    }

    /** A slot for a kill that does not follow another one. */
    method FindSlot() returns (slot: nat)
      requires ring == null ==> length == 0
      requires ring != null ==> length > 0 && ring.Length == length + 1
      modifies this`ring, this`length, ring
      ensures ring != null && (fresh(ring) || ring == old(ring)) && ring.Length == length + 1
      ensures slot == length - 1
      ensures old(ring) == null ==> slot == 0
      ensures old(ring) != null ==>
        ring[..slot] == if old(length) == maxKills then old(Ring())[1..] else old(Ring())
    {
      if ring == null {
        length := 1;
        ring := new string[2](_ => "");
        slot := 1;
      } else {
        slot := length;
        if slot == maxKills {
          Shift();
        } else {
          Grow();
          slot := length;
        }
      }
      slot := slot - 1;
    }

    /** Put killed text into the ring. */
    method Store(text: string, append: bool)
      requires ring == null ==> length == 0 && lastCommandWasKill == 0
      requires ring != null ==> length > 0 && ring.Length == length + 1 && RingStrings(ring[..length])
      requires L.CString(text)
      modifies this`ring, this`length, this`index, this`lastCommandWasKill, ring
      ensures ring != null && length > 0 && ring.Length == length + 1 && RingStrings(ring[..length])
      ensures fresh(ring) || ring == old(ring)
      ensures Ring() == Stored(old(Ring()), old(lastCommandWasKill), text, append, maxKills)
      ensures index == length - 1 && lastCommandWasKill == old(lastCommandWasKill) + 1
    {
      ghost var before := Ring();
      var slot: nat;
      if lastCommandWasKill == 0 {
        slot := FindSlot();
        ring[slot] := text;
      } else {
        slot := length - 1;
        var old1 := ring[slot];
        ring[slot] := if append then old1 + text else text + old1;
      }
      assert ring[..length] == ring[..slot] + [ring[slot]];
      StoredStrings(before, lastCommandWasKill, text, append, maxKills);
      index := slot;
      lastCommandWasKill := lastCommandWasKill + 1;
    }

    /** rl_kill_text */
    method KillRange(from: nat, to: nat)
      requires Valid() && from <= line.end && to <= line.end
      modifies this, ring, line, line.line
      ensures line.Valid() && !line.doingAnUndo && line.line == old(line.line) && line.point == old(line.point)
      ensures ring == null ==> length == 0
      ensures ring != null ==> length > 0 && ring.Length == length + 1 && RingStrings(ring[..length])
      ensures fresh(ring) || ring == old(ring)
      ensures lastCommandWasKill > 0 && from != to ==> length > 0
      ensures State(line.View(), Ring(), index, lastCommandWasKill) == KillText(old(View()), from, to, maxKills)
    {
      hide Stored, RingStrings;
      ghost var k := View();
      if from == to {
        lastCommandWasKill := lastCommandWasKill + 1;
        return;
      }
      var text := if from < to then line.line[from..to] else line.line[to..from];
      L.CutIsCString(line.line[..line.end], Min(from, to), if from < to then to else from);
      assert from < to ==> line.line[..line.end][from..to] == line.line[from..to];
      assert to < from ==> line.line[..line.end][to..from] == line.line[to..from];
      assert text == if from < to then k.ed.text[from..to] else k.ed.text[to..from];
      line.DeleteRange(from, to);
      Store(text, from < to);
    }

    /** The loops of rl_forward_word: on from the next character up to one that is in a word, or is not. */
    method SkipForward(inWord: bool)
      requires line.Valid() && line.point < line.end
      modifies line`point
      ensures line.point == NextPlace(line.line[..line.end], old(line.point) + 1, inWord)
    {
      line.point := line.point + 1;
      ghost var text := line.line[..line.end];
      while line.point < line.end
        invariant line.point <= line.end
        invariant NextPlace(text, line.point, inWord) == NextPlace(text, old(line.point) + 1, inWord)
      {
        if Alphabetic(line.line[line.point]) == inWord { break; }
        line.point := line.point + 1;
      }
    }

    /** rl_forward_word, for a count that is not negative */
    method ForwardWord(count: nat)
      requires line.Valid() && line.point <= line.end
      modifies line`point
      ensures line.point == ForwardWords(line.line[..line.end], old(line.point), count)
    {
      var n := count;
      ghost var text := line.line[..line.end];
      while n > 0
        invariant line.point <= line.end
        invariant ForwardWords(text, line.point, n) == ForwardWords(text, old(line.point), count)
      {
        if line.point == line.end { return; }
        assert text[line.point] == line.line[line.point];
        ghost var p := line.point;
        if !Alphabetic(line.line[line.point]) { SkipForward(true); }
        assert line.point == NextPlace(text, p, true);
        if line.point == line.end { return; }
        NextPlaceIsNext(text, p, true);
        SkipForward(false);
        n := n - 1;
      }
    }

    /** The loops of rl_backward_word: back while the character in front is in a word, or is not. */
    method SkipBackward(inWord: bool)
      requires line.Valid() && line.point <= line.end
      modifies line`point
      ensures line.point == PreviousPlace(line.line[..line.end], old(line.point), inWord)
    {
      ghost var text := line.line[..line.end];
      while line.point > 0
        invariant line.point <= line.end
        invariant PreviousPlace(text, line.point, inWord) == PreviousPlace(text, old(line.point), inWord)
      {
        if Alphabetic(line.line[line.point - 1]) == inWord { break; }
        line.point := line.point - 1;
      }
    }

    /** rl_backward_word, for a count that is not negative */
    method BackwardWord(count: nat)
      requires line.Valid() && line.point <= line.end
      modifies line`point
      ensures line.point == BackwardWords(line.line[..line.end], old(line.point), count)
    {
      var n := count;
      ghost var text := line.line[..line.end];
      while n > 0
        invariant line.point <= line.end
        invariant BackwardWords(text, line.point, n) == BackwardWords(text, old(line.point), count)
      {
        if line.point == 0 { return; }
        SkipBackward(true);
        SkipBackward(false);
        n := n - 1;
      }
    }

    /** What rl_kill_text does, with the point at `p`, and the point then put to `q`. */
    method KillAndPoint(from: nat, to: nat, q: nat)
      requires Valid() && from <= line.end && to <= line.end && from != to && q == Min(from, to)
      modifies this, ring, line, line.line
      ensures Valid() && line.line == old(line.line) && (fresh(ring) || ring == old(ring))
      ensures View() == PointAt(KillText(old(View()), from, to, maxKills), q)
    {
      hide Stored, RingStrings, L.RecordInsert;
      KillRange(from, to);
      assert |line.View().text| == line.end;
      line.point := q;
    }

    /** rl_kill_word; a negative count is the other command's */
    method KillWord(count: int)
      requires Valid()
      modifies this, ring, line, line.line
      ensures Valid() && line.line == old(line.line) && (fresh(ring) || ring == old(ring))
      ensures View() == DoKill(old(View()), Kill.KillWord(count), maxKills)
      ensures WordsKilled(old(View()), View(), count, maxKills)
      decreases if count < 0 then 1 else 0
    {
      hide KillText, L.DeleteText, ForwardWords, BackwardWords, WordsKilled, Killed;
      var origPoint := line.point;
      if count < 0 {
        BackwardKillWord(-count);
      } else {
        ghost var k := View();
        ForwardWord(count);
        assert View() == PointAt(k, line.point);
        if line.point != origPoint {
          PointStays(k, line.point, origPoint, line.point, maxKills);
          KillAndPoint(origPoint, line.point, origPoint);
        }
        line.point := origPoint;
      }
      WordIsKilled(old(View()), count, maxKills);
    }

    /** rl_backward_kill_word */
    method BackwardKillWord(count: int)
      requires Valid()
      modifies this, ring, line, line.line
      ensures Valid() && line.line == old(line.line) && (fresh(ring) || ring == old(ring))
      ensures View() == DoKill(old(View()), Kill.BackwardKillWord(count), maxKills)
      ensures WordsKilled(old(View()), View(), -count, maxKills)
      decreases if count < 0 then 1 else 0
    {
      hide KillText, L.DeleteText, ForwardWords, BackwardWords, WordsKilled, Killed;
      var origPoint := line.point;
      if count < 0 {
        KillWord(-count);
      } else {
        ghost var k := View();
        BackwardWord(count);
        assert View() == PointAt(k, line.point);
        if line.point != origPoint {
          PointStays(k, line.point, origPoint, line.point, maxKills);
          KillAndPoint(origPoint, line.point, line.point);
        }
      }
      WordIsKilledBackward(old(View()), count, maxKills);
    }

    /** rl_kill_line */
    method KillLine(direction: int)
      requires Valid()
      modifies this, ring, line, line.line
      ensures Valid() && line.line == old(line.line) && (fresh(ring) || ring == old(ring))
      ensures View() == DoKill(old(View()), Kill.KillLine(direction), maxKills)
      ensures
        if direction < 0 then Killed(old(View()), View(), 0, old(line.point), false, maxKills)
        else Killed(old(View()), View(), old(line.point), old(line.end), true, maxKills)
      decreases if direction < 0 then 1 else 0
    {
      hide KillText, L.DeleteText, ForwardWords, BackwardWords, WordsKilled, Killed;
      var origPoint := line.point;
      if direction < 0 {
        BackwardKillLine(1);
      } else {
        ghost var k := View();
        line.point := line.end;
        assert View() == PointAt(k, line.point);
        if origPoint != line.point {
          PointStays(k, line.point, origPoint, line.point, maxKills);
          KillAndPoint(origPoint, line.point, origPoint);
        }
        line.point := origPoint;
      }
      LineIsKilled(old(View()), direction, maxKills);
    }

    /** rl_backward_kill_line */
    method BackwardKillLine(direction: int)
      requires Valid()
      modifies this, ring, line, line.line
      ensures Valid() && line.line == old(line.line) && (fresh(ring) || ring == old(ring))
      ensures View() == DoKill(old(View()), Kill.BackwardKillLine(direction), maxKills)
      ensures
        if direction < 0 then Killed(old(View()), View(), old(line.point), old(line.end), true, maxKills)
        else Killed(old(View()), View(), 0, old(line.point), false, maxKills)
      decreases if direction < 0 then 1 else 0
    {
      hide KillText, L.DeleteText, ForwardWords, BackwardWords, WordsKilled, Killed;
      var origPoint := line.point;
      if direction < 0 {
        KillLine(1);
      } else if line.point != 0 {
        ghost var k := View();
        line.point := 0;
        assert View() == PointAt(k, line.point);
        PointStays(k, line.point, origPoint, line.point, maxKills);
        KillAndPoint(origPoint, line.point, line.point);
      }
      LineIsKilledBackward(old(View()), direction, maxKills);
    }

    /** rl_unix_line_discard */
    method UnixLineDiscard()
      requires Valid()
      modifies this, ring, line, line.line
      ensures Valid() && line.line == old(line.line) && (fresh(ring) || ring == old(ring))
      ensures View() == DoKill(old(View()), Kill.UnixLineDiscard, maxKills)
      ensures Killed(old(View()), View(), 0, old(line.point), false, maxKills)
    {
      if line.point != 0 {
        KillAndPoint(line.point, 0, 0);
      }
      BeginningIsKilled(old(View()), maxKills);
    }

    /** rl_yank; `ok` is false when it aborts */
    method YankText() returns (ok: bool)
      requires Valid() && (ring != null ==> index < length)
      modifies this, line, line.line
      ensures Valid() && (fresh(line.line) || line.line == old(line.line)) && ring == old(ring)
      ensures ok <==> ring != null
      ensures View() == if ring != null then old(View()).(ed := L.InsertText(old(View().ed), old(Ring())[old(index)])) else old(View())
    {
      hide L.RecordInsert, RingStrings;
      if ring == null { return false; }
      ghost var texts := ring[..length];
      assert ring[index] == texts[index];
      YankedIsString(texts, index);
      line.Insert(ring[index]);
      assert ring[..length] == texts && |line.View().text| == line.end;
      return true;
    }

    /** One key, as rl_dispatch and the loop around it handle it. */
    method Handle(key: Key, ghost original: string)
      requires Valid() && Good(View(), original) && L.StringsIn(line.undo)
      requires key.Edit? ==> CommandStrings(key.command) && L.Possible(line.View(), key.command)
      modifies this, ring, line, line.line
      ensures Valid() && (fresh(line.line) || line.line == old(line.line)) && (fresh(ring) || ring == old(ring))
      ensures View() == Press(old(View()), key, maxKills)
      ensures Good(View(), original) && L.StringsIn(line.undo)
    {
      hide DoKill, L.Do, L.UndoThing, L.InsertText, L.RecordInsert, L.OpenGroups, L.Unwind, L.Possible, L.StringsIn, RingStrings;
      ghost var k := View();
      PressKeepsGood(k, key, maxKills, original);
      var lk := lastCommandWasKill;
      match key {
        case Kill(c) =>
          KillKeepsStrings(k, c, maxKills);
          PerformKill(c);
        case Yank =>
          if ring != null {
            YankKeepsStrings(k.ed, Newest(k.ring));
          }
          var ok := YankText();
          if !ok { return; }
        case Edit(c) =>
          L.DoKeepsEditing(k.ed, c, original);
          line.Perform(c);
      }
      if lk == lastCommandWasKill { lastCommandWasKill := 0; }
    }

    method PerformKill(c: Kill)
      requires Valid()
      modifies this, ring, line, line.line
      ensures Valid() && line.line == old(line.line) && (fresh(ring) || ring == old(ring))
      ensures View() == DoKill(old(View()), c, maxKills)
    {
      hide DoKill;
      match c
      case KillWord(n) => KillWord(n);
      case BackwardKillWord(n) => BackwardKillWord(n);
      case KillLine(d) => KillLine(d);
      case BackwardKillLine(d) => BackwardKillLine(d);
      case UnixLineDiscard => UnixLineDiscard();
    }
  }
}
