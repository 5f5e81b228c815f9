/** update_line of readline/readline.c: the minimal redrawing of one screen line.

  The code writes characters and terminal commands; what they do is given by a model of a terminal row.  The row
  has one cell more than `screenwidth`, because readline never uses the last column of the terminal.
  */
module Display {

  // ---- the terminal ----

  /** A termcap string: it may be missing, or be there and do nothing. */
  datatype Cap = Absent | Empty | Code

  /** The termcap entries IC, ic, im, ei, DC, dc and ce. */
  datatype Caps = Caps(
    insertMany: Cap, insertOne: Cap, startInsert: Cap, endInsert: Cap,
    deleteMany: Cap, deleteOne: Cap, clearToEnd: Cap)

  datatype Op =
    | Put(c: char)
    | Return
    | Back
    | Open(n: nat)
    | StartInsert
    | EndInsert
    | Delete(n: nat)
    | Clear

  /** A row of cells and the cursor in it.  A character put into the last cell leaves the cursor in a place that
      terminals do not agree on: it is `lost`. */
  datatype Screen = Screen(row: string, col: nat, lost: bool, inserting: bool)

  function Blanks(n: nat): (r: string)
    ensures |r| == n && forall k :: 0 <= k < n ==> r[k] == ' '
  {
    seq(n, _ => ' ')
  }

  function Padded(text: string, cells: nat): (r: string)
    requires |text| <= cells
    ensures |r| == cells
    ensures forall k :: 0 <= k < cells ==> r[k] == if k < |text| then text[k] else ' '
  {
    text + Blanks(cells - |text|)
  }

  function Least(a: nat, b: nat): nat { if a < b then a else b }

  predicate OnRow(s: Screen) { s.col < |s.row| }

  /** What the terminal does.  In insert mode a character makes room for itself if there is no special command
      for that (`shifts`). */
  function Step(s: Screen, op: Op, shifts: bool): (s': Screen)
    requires OnRow(s)
    ensures OnRow(s') && |s'.row| == |s.row|
  {
    if s.lost then s else
    match op
    case Put(c) =>
      var row := if s.inserting && shifts then s.row[..s.col] + [c] + s.row[s.col..|s.row| - 1] else s.row[s.col := c];
      if s.col + 1 < |s.row| then s.(row := row, col := s.col + 1) else s.(row := row, lost := true)
    case Return => s.(col := 0)
    case Back => s.(col := if s.col > 0 then s.col - 1 else 0)
    case Open(n) =>
      var m := Least(n, |s.row| - s.col);
      s.(row := s.row[..s.col] + Blanks(m) + s.row[s.col..|s.row| - m])
    case StartInsert => s.(inserting := true)
    case EndInsert => s.(inserting := false)
    case Delete(n) =>
      var m := Least(n, |s.row| - s.col);
      s.(row := s.row[..s.col] + s.row[s.col + m..] + Blanks(m))
    case Clear => s.(row := s.row[..s.col] + Blanks(|s.row| - s.col))
  }

  function Run(s: Screen, ops: seq<Op>, shifts: bool): (s': Screen)
    requires OnRow(s)
    ensures OnRow(s') && |s'.row| == |s.row|
    decreases |ops|
  {
    if ops == [] then s else Run(Step(s, ops[0], shifts), ops[1..], shifts)
  }

  lemma {:induction false} RunAppend(s: Screen, a: seq<Op>, b: seq<Op>, shifts: bool)
    requires OnRow(s)
    ensures Run(s, a + b, shifts) == Run(Run(s, a, shifts), b, shifts)
    decreases |a|
  {
    hide Step;
    if a == [] {
      assert a + b == b;
    } else {
      assert (a + b)[1..] == a[1..] + b;
      RunAppend(Step(s, a[0], shifts), a[1..], b, shifts);
    }
  }

  function Puts(text: string): seq<Op> { seq(|text|, i requires 0 <= i < |text| => Put(text[i])) }

  function Repeat(op: Op, n: nat): seq<Op> { seq(n, _ => op) }

  /** `text` put over the row from column `at` on. */
  function Over(row: string, at: nat, text: string): string
    requires at + |text| <= |row|
  {
    row[..at] + text + row[at + |text|..]
  }

  /** `text` pushed into the row at column `at`; what leaves the row on the right is gone. */
  function Pushed(row: string, at: nat, text: string): string
    requires at + |text| <= |row|
  {
    row[..at] + text + row[at..|row| - |text|]
  }

  /** Plain characters that do not reach the last cell go over what was there. */
  lemma {:induction false} PutsGoOver(s: Screen, text: string, shifts: bool)
    requires !s.lost && !(s.inserting && shifts) && s.col + |text| < |s.row|
    ensures Run(s, Puts(text), shifts) == s.(row := Over(s.row, s.col, text), col := s.col + |text|)
    decreases |text|
  {
    if text == [] {
      assert Over(s.row, s.col, text) == s.row;
    } else {
      var s1 := Step(s, Put(text[0]), shifts);
      assert Puts(text)[1..] == Puts(text[1..]);
      PutsGoOver(s1, text[1..], shifts);
      assert Over(s1.row, s1.col, text[1..]) == Over(s.row, s.col, text);
    }
  }

  lemma RunOne(s: Screen, op: Op, shifts: bool)
    requires OnRow(s)
    ensures Run(s, [op], shifts) == Step(s, op, shifts)
  {
  }

  lemma PushedTwice(row: string, at: nat, a: string, b: string)
    requires at + |a| + |b| <= |row|
    ensures Pushed(Pushed(row, at, a), at + |a|, b) == Pushed(row, at, a + b)
  {
    var row1 := Pushed(row, at, a);
    assert forall k :: at + |a| <= k < |row| ==> row1[k] == row[k - |a|];
    assert row1[..at + |a|] == row[..at] + a;
    assert row1[at + |a|..|row| - |b|] == row[at..|row| - |a| - |b|];
    Concatenated(row[..at], a, b);
  }

  lemma {:induction false} PutsPush(s: Screen, text: string)
    requires !s.lost && s.inserting && s.col + |text| < |s.row|
    ensures Run(s, Puts(text), true) == s.(row := Pushed(s.row, s.col, text), col := s.col + |text|)
    decreases |text|
  {
    if text == [] {
      assert Pushed(s.row, s.col, text) == s.row;
    } else {
      var s1 := Step(s, Put(text[0]), true);
      assert Puts(text)[1..] == Puts(text[1..]);
      assert s1 == s.(row := Pushed(s.row, s.col, [text[0]]), col := s.col + 1);
      assert [text[0]] + text[1..] == text;
      PushedTwice(s.row, s.col, [text[0]], text[1..]);
      hide Pushed, Step;
      PutsPush(s1, text[1..]);
    }
  }

  lemma {:induction false} BackMovesLeft(s: Screen, n: nat, shifts: bool)
    requires !s.lost && n <= s.col && OnRow(s)
    ensures Run(s, Repeat(Back, n), shifts) == s.(col := s.col - n)
    decreases n
  {
    if n > 0 {
      assert Repeat(Back, n)[1..] == Repeat(Back, n - 1);
      BackMovesLeft(Step(s, Back, shifts), n - 1, shifts);
    }
  }

  lemma {:induction false} NothingWhenLost(s: Screen, ops: seq<Op>, shifts: bool)
    requires s.lost && OnRow(s)
    ensures Run(s, ops, shifts) == s
    decreases |ops|
  {
    if ops != [] { NothingWhenLost(s, ops[1..], shifts); }
  }

  lemma PushedBlanks(row: string, at: nat, n: nat)
    requires at + n <= |row| && n > 0
    ensures Pushed(Pushed(row, at, Blanks(1)), at, Blanks(n - 1)) == Pushed(row, at, Blanks(n))
  {
    hide Pushed;
    var row1 := Pushed(row, at, Blanks(1));
    PushedAt(row, at, Blanks(1), 0);
    PushedAt(row, at, Blanks(n), 0);
    PushedAt(row1, at, Blanks(n - 1), 0);
    forall k | 0 <= k < |row| ensures Pushed(row1, at, Blanks(n - 1))[k] == Pushed(row, at, Blanks(n))[k] {
      PushedAt(row, at, Blanks(1), k);
      PushedAt(row, at, Blanks(n), k);
      PushedAt(row1, at, Blanks(n - 1), k);
      if k > at + n - 1 { PushedAt(row, at, Blanks(1), k - (n - 1)); } else if k >= at { PushedAt(row, at, Blanks(1), at); }
    }
  }

  lemma PushedAt(row: string, at: nat, text: string, k: nat)
    requires at + |text| <= |row|
    ensures |Pushed(row, at, text)| == |row|
    ensures k < |row| ==>
      Pushed(row, at, text)[k] == (if k < at then row[k] else if k < at + |text| then text[k - at] else row[k - |text|])
  {
  }

  lemma {:induction false} OpenOnesOpenAll(s: Screen, n: nat, shifts: bool)
    requires !s.lost && s.col + n < |s.row|
    ensures Run(s, Repeat(Open(1), n), shifts) == s.(row := Pushed(s.row, s.col, Blanks(n)))
    decreases n
  {
    if n == 0 {
      assert Pushed(s.row, s.col, Blanks(0)) == s.row;
    } else {
      var s1 := Step(s, Open(1), shifts);
      assert Repeat(Open(1), n)[1..] == Repeat(Open(1), n - 1);
      assert s1 == s.(row := Pushed(s.row, s.col, Blanks(1)));
      PushedBlanks(s.row, s.col, n);
      hide Pushed, Step;
      OpenOnesOpenAll(s1, n - 1, shifts);
    }
  }

  /** The row without `n` cells from column `at` on. */
  function Pulled(row: string, at: nat, n: nat): string
    requires at + n <= |row|
  {
    row[..at] + row[at + n..] + Blanks(n)
  }

  lemma PulledTwice(row: string, at: nat, n: nat)
    requires at + n <= |row| && n > 0
    ensures Pulled(Pulled(row, at, 1), at, n - 1) == Pulled(row, at, n)
  {
    var row1 := Pulled(row, at, 1);
    assert row1[..at] == row[..at];
    assert row1[at + (n - 1)..] == row[at + n..] + Blanks(1);
    assert Blanks(1) + Blanks(n - 1) == Blanks(n);
  }

  lemma {:induction false} DeleteOnesDeleteAll(s: Screen, n: nat, shifts: bool)
    requires !s.lost && s.col + n < |s.row|
    ensures Run(s, Repeat(Delete(1), n), shifts) == s.(row := Pulled(s.row, s.col, n))
    decreases n
  {
    if n == 0 {
      assert Pulled(s.row, s.col, 0) == s.row;
    } else {
      var s1 := Step(s, Delete(1), shifts);
      assert Repeat(Delete(1), n)[1..] == Repeat(Delete(1), n - 1);
      assert s1 == s.(row := Pulled(s.row, s.col, 1));
      PulledTwice(s.row, s.col, n);
      hide Pulled, Step;
      DeleteOnesDeleteAll(s1, n - 1, shifts);
    }
  }

  // ---- what readline sends ----

  /** terminal_can_insert */
  predicate CanInsert(caps: Caps) { !caps.insertMany.Absent? || !caps.startInsert.Absent? || !caps.insertOne.Absent? }

  predicate Shifts(caps: Caps) { !caps.insertOne.Code? }

  function Sent(cap: Cap, ops: seq<Op>): seq<Op> { if cap.Code? then ops else [] }

  /** insert_some_chars */
  function InsertOps(caps: Caps, text: string): seq<Op> {
    if !caps.insertMany.Absent? then Sent(caps.insertMany, [Open(|text|)]) + Puts(text)
    else
      Sent(caps.startInsert, [StartInsert]) + Sent(caps.insertOne, Repeat(Open(1), |text|)) + Puts(text)
      + Sent(caps.endInsert, [EndInsert])
  }

  /** delete_chars, for a count that is not larger than the screen */
  function DeleteOps(caps: Caps, n: nat): seq<Op> {
    if caps.deleteMany.Code? then [Delete(n)] else Sent(caps.deleteOne, Repeat(Delete(1), n))
  }

  /** clear_to_eol */
  function ClearOps(caps: Caps, count: nat): seq<Op> {
    if !caps.clearToEnd.Absent? then Sent(caps.clearToEnd, [Clear])
    else Puts(Blanks(count + 1)) + Repeat(Back, count + 1)
  }

  /** move_cursor_relative: over `data`, which is what the row shows */
  function MoveOps(last: nat, to: nat, data: string): seq<Op>
    requires to <= |data|
  {
    var jump := to + 1 < last - to;
    var from := if jump then 0 else last;
    (if jump then [Return] else []) + (if from < to then Puts(data[from..to]) else Repeat(Back, from - to))
  }

  /** The first difference of two rows. */
  function FirstDifference(o: string, n: string, i: nat): (r: nat)
    requires i <= |o| && i <= |n|
    ensures i <= r <= |o| && r <= |n|
    decreases |o| - i
  {
    if i < |o| && i < |n| && o[i] == n[i] then FirstDifference(o, n, i + 1) else i
  }

  /** How many characters at the ends are the same, `k` of them being known; never back to the first difference. */
  function SameAtEnd(o: string, n: string, p: nat, k: nat): (r: nat)
    requires p <= |o| && p <= |n| && p + k <= |o| && p + k <= |n|
    ensures k <= r && p + r <= |o| && p + r <= |n|
    decreases |o| - k
  {
    if p + k + 1 < |o| && p + k + 1 < |n| && o[|o| - 1 - k] == n[|n| - 1 - k] then SameAtEnd(o, n, p, k + 1) else k
  }

  predicate AllBlank(s: string) { forall k :: 0 <= k < |s| ==> s[k] == ' ' }

  /** The length of the common end that is left alone: none if it is blank, and one more than `SameAtEnd` if that
      stopped at the first difference and not at different characters. */
  function LastSame(o: string, n: string, p: nat): (r: nat)
    requires p <= |o| && p <= |n|
    ensures p + r <= |o| && p + r <= |n|
  {
    var k := SameAtEnd(o, n, p, 0);
    if AllBlank(o[|o| - k..]) then 0
    else if p + k < |o| && p + k < |n| && o[|o| - 1 - k] == n[|n| - 1 - k] then k + 1
    else k
  }

  /** The case in which readline finds it cheaper to print the whole end of the line than to insert characters
      does not occur: at least the inserted characters are printed anyway. */
  lemma NeverCheaperToPrint(o: string, n: string)
    requires |n| > |o|
    ensures var p := FirstDifference(o, n, 0); 2 * (|n| - p) >= |n| - |o|
  {
  }

  /** What update_line sends from the first difference `p` on, leaving alone the last `same` characters; and where
      it thinks the cursor is afterwards. */
  function ChangeOps(caps: Caps, o: string, n: string, p: nat, same: nat): (seq<Op>, nat)
    requires p + same <= |o| && p + same <= |n|
  {
    var nls := |n| - same;
    if |n| > |o| then
      if CanInsert(caps) then
        var m := p + (|n| - |o|);
        ((if same > 0 then InsertOps(caps, n[p..m]) else Puts(n[p..m])) + Puts(n[m..nls]), nls)
      else (Puts(n[p..]), |n|)
    else if !caps.deleteOne.Absent? && 2 * (|n| - p) >= |o| - |n| then
      ((if |n| < |o| then DeleteOps(caps, |o| - |n|) else []) + Puts(n[p..nls]), nls)
    else
      (Puts(n[p..]) + ClearOps(caps, |o| - |n|), |n|)
  }

  /** update_line, for the rows `o` and `n` and last_c_pos `last` */
  function UpdateOps(caps: Caps, o: string, n: string, last: nat): (seq<Op>, nat) {
    var p := FirstDifference(o, n, 0);
    if p == |o| && p == |n| then ([], last)
    else
      var (ops, last') := ChangeOps(caps, o, n, p, LastSame(o, n, p));
      (MoveOps(last, p, o) + ops, last')
  }

  // ---- the differences ----

  lemma {:induction false} PrefixIsSame(o: string, n: string, i: nat)
    requires i <= |o| && i <= |n| && o[..i] == n[..i]
    ensures var p := FirstDifference(o, n, i);
      o[..p] == n[..p] && (p < |o| && p < |n| ==> o[p] != n[p])
    decreases |o| - i
  {
    if i < |o| && i < |n| && o[i] == n[i] {
      assert o[..i + 1] == o[..i] + [o[i]] && n[..i + 1] == n[..i] + [n[i]];
      PrefixIsSame(o, n, i + 1);
    }
  }

  lemma {:induction false} EndIsSame(o: string, n: string, p: nat, k: nat)
    requires p <= |o| && p <= |n| && p + k <= |o| && p + k <= |n| && o[|o| - k..] == n[|n| - k..]
    ensures var r := SameAtEnd(o, n, p, k); o[|o| - r..] == n[|n| - r..]
    decreases |o| - k
  {
    if p + k + 1 < |o| && p + k + 1 < |n| && o[|o| - 1 - k] == n[|n| - 1 - k] {
      OneMoreSame(o, n, k);
      EndIsSame(o, n, p, k + 1);
    }
  }

  lemma OneMoreSame(o: string, n: string, k: nat)
    requires k < |o| && k < |n| && o[|o| - k..] == n[|n| - k..] && o[|o| - 1 - k] == n[|n| - 1 - k]
    ensures o[|o| - (k + 1)..] == n[|n| - (k + 1)..]
  {
    assert o[|o| - (k + 1)..] == [o[|o| - 1 - k]] + o[|o| - k..];
    assert n[|n| - (k + 1)..] == [n[|n| - 1 - k]] + n[|n| - k..];
  }

  lemma LastSameIsSame(o: string, n: string, p: nat)
    requires p <= |o| && p <= |n|
    ensures var r := LastSame(o, n, p); o[|o| - r..] == n[|n| - r..]
  {
    EndIsSame(o, n, p, 0);
    var k := SameAtEnd(o, n, p, 0);
    if p + k < |o| && p + k < |n| && o[|o| - 1 - k] == n[|n| - 1 - k] { OneMoreSame(o, n, k); }
  }

  // ---- what is sent ----

  /** The rows begin alike in `p` characters, and no more. */
  predicate BeginAlike(o: string, n: string, p: nat) {
    && p <= |o| && p <= |n| && o[..p] == n[..p]
    && (p < |o| && p < |n| ==> o[p] != n[p])
  }

  /** Behind their beginnings they end alike in `e` characters, and no more. */
  predicate EndAlike(o: string, n: string, p: nat, e: nat) {
    && p + e <= |o| && p + e <= |n| && o[|o| - e..] == n[|n| - e..]
    && (p + e < |o| && p + e < |n| ==> o[|o| - 1 - e] != n[|n| - 1 - e])
  }

  lemma {:induction false} FirstDifferenceIs(o: string, n: string, p: nat, i: nat)
    requires BeginAlike(o, n, p) && i <= p
    ensures FirstDifference(o, n, i) == p
    decreases p - i
  {
    if i < p {
      assert o[i] == o[..p][i] == n[..p][i] == n[i];
      FirstDifferenceIs(o, n, p, i + 1);
    }
  }

  lemma {:induction false} SameAtEndIs(o: string, n: string, p: nat, e: nat, k: nat)
    requires EndAlike(o, n, p, e) && k <= e && (k == e > 0 ==> p + e < |o| && p + e < |n|)
    ensures SameAtEnd(o, n, p, k) == if e > 0 && (p + e == |o| || p + e == |n|) then e - 1 else e
    decreases e - k
  {
    if k < e {
      assert o[|o| - 1 - k] == o[|o| - e..][e - 1 - k] == n[|n| - e..][e - 1 - k] == n[|n| - 1 - k];
      if p + k + 1 < |o| && p + k + 1 < |n| { SameAtEndIs(o, n, p, e, k + 1); }
    }
  }

  /** The common end is left alone, unless it is blank; of rows that only differ in length the first of its characters is
      not looked at. */
  lemma LastSameIs(o: string, n: string, p: nat, e: nat)
    requires BeginAlike(o, n, p) && EndAlike(o, n, p, e)
    ensures LastSame(o, n, p) ==
      var k := if e > 0 && (p + e == |o| || p + e == |n|) then e - 1 else e;
      if forall i :: |o| - k <= i < |o| ==> o[i] == ' ' then 0 else e
  {
    hide AllBlank, SameAtEnd;
    SameAtEndIs(o, n, p, e, 0);
    var k := SameAtEnd(o, n, p, 0);
    if k < e { assert o[|o| - 1 - k] == o[|o| - e..][e - 1 - k] == n[|n| - e..][e - 1 - k] == n[|n| - 1 - k]; }
    BlankEnd(o, k);
  }

  lemma BlankEnd(o: string, k: nat)
    requires k <= |o|
    ensures AllBlank(o[|o| - k..]) <==> forall i :: |o| - k <= i < |o| ==> o[i] == ' '
  {
    assert forall i :: |o| - k <= i < |o| ==> o[i] == o[|o| - k..][i - (|o| - k)];
  }

  /** The shorter way: from where the cursor is, or from the beginning of the row. */
  lemma MoveIsShortest(last: nat, to: nat, data: string)
    requires to <= |data|
    ensures |MoveOps(last, to, data)| == Least(1 + to, if last < to then to - last else last - to)
    ensures MoveOps(to, to, data) == []
  {
  }

  /** The characters that are printed. */
  function Printed(ops: seq<Op>): string
    decreases |ops|
  {
    if ops == [] then "" else (if ops[0].Put? then [ops[0].c] else "") + Printed(ops[1..])
  }

  lemma {:induction false} PrintedAppend(a: seq<Op>, b: seq<Op>)
    ensures Printed(a + b) == Printed(a) + Printed(b)
    decreases |a|
  {
    if a == [] {
      assert a + b == b;
    } else {
      assert (a + b)[0] == a[0] && (a + b)[1..] == a[1..] + b;
      PrintedAppend(a[1..], b);
      Concatenated(if a[0].Put? then [a[0].c] else "", Printed(a[1..]), Printed(b));
    }
  }

  lemma Concatenated(a: string, b: string, c: string)
    ensures a + (b + c) == a + b + c
  {
  }

  lemma {:induction false} PrintedPuts(text: string)
    ensures Printed(Puts(text)) == text
    decreases |text|
  {
    if text != "" {
      assert Puts(text)[1..] == Puts(text[1..]);
      PrintedPuts(text[1..]);
    }
  }

  lemma {:induction false} PrintedNone(ops: seq<Op>)
    requires forall k :: 0 <= k < |ops| ==> !ops[k].Put?
    ensures Printed(ops) == ""
    decreases |ops|
  {
    if ops != [] { PrintedNone(ops[1..]); }
  }

  lemma InsertPrints(caps: Caps, text: string)
    ensures Printed(InsertOps(caps, text)) == text
  {
    PrintedPuts(text);
    var a, b := Sent(caps.startInsert, [StartInsert]), Sent(caps.insertOne, Repeat(Open(1), |text|));
    var d := if !caps.insertMany.Absent? then Sent(caps.insertMany, [Open(|text|)]) else a + b;
    var z := Sent(caps.endInsert, [EndInsert]);
    PrintedNone(d);
    PrintedNone(z);
    PrintedAppend(d, Puts(text));
    PrintedAppend(d + Puts(text), z);
  }

  lemma DeletePrints(caps: Caps, n: nat)
    ensures Printed(DeleteOps(caps, n)) == ""
  {
    PrintedNone(DeleteOps(caps, n));
  }

  lemma ClearPrints(caps: Caps, count: nat)
    ensures Printed(ClearOps(caps, count)) == if caps.clearToEnd.Absent? then Blanks(count + 1) else ""
  {
    if caps.clearToEnd.Absent? {
      PrintedPuts(Blanks(count + 1));
      PrintedNone(Repeat(Back, count + 1));
      PrintedAppend(Puts(Blanks(count + 1)), Repeat(Back, count + 1));
    } else {
      PrintedNone(ClearOps(caps, count));
    }
  }

  lemma ChangePrints(caps: Caps, o: string, n: string, p: nat, same: nat)
    requires p + same <= |o| && p + same <= |n|
    ensures Printed(ChangeOps(caps, o, n, p, same).0) ==
      if Shifted(caps, o, n, p) then n[p..|n| - same]
      else n[p..] + if |o| < |n| || !caps.clearToEnd.Absent? then "" else Blanks(|o| - |n| + 1)
  {
    hide Puts, InsertOps, DeleteOps, ClearOps, Printed;
    var nls := |n| - same;
    PrintedPuts(n[p..]);
    PrintedPuts(n[p..nls]);
    if |n| > |o| {
      if CanInsert(caps) {
        var m := p + (|n| - |o|);
        PrintedPuts(n[p..m]);
        PrintedPuts(n[m..nls]);
        InsertPrints(caps, n[p..m]);
        PrintedAppend(if same > 0 then InsertOps(caps, n[p..m]) else Puts(n[p..m]), Puts(n[m..nls]));
        assert n[p..m] + n[m..nls] == n[p..nls];
      }
    } else if Shifted(caps, o, n, p) {
      DeletePrints(caps, |o| - |n|);
      PrintedNone([]);
      PrintedAppend(if |n| < |o| then DeleteOps(caps, |o| - |n|) else [], Puts(n[p..nls]));
    } else {
      ClearPrints(caps, |o| - |n|);
      PrintedAppend(Puts(n[p..]), ClearOps(caps, |o| - |n|));
    }
  }

  /** The rest of the row is shifted by the terminal: it can insert characters, or it can delete them and they are not too
      many. */
  predicate Shifted(caps: Caps, o: string, n: string, p: nat)
    requires p <= |n|
  {
    if |n| > |o| then !caps.insertMany.Absent? || !caps.startInsert.Absent? || !caps.insertOne.Absent?
    else !caps.deleteOne.Absent? && 2 * (|n| - p) >= |o| - |n|
  }

  /** An update of a row that has not changed sends nothing.  Any other moves to the first difference, and prints from there
      to the common end, if the terminal can shift that; otherwise to the end of the row, and blanks over the old row if
      there is no command to clear it. */
  lemma UpdateSends(caps: Caps, o: string, n: string, last: nat, p: nat, e: nat)
    requires BeginAlike(o, n, p) && EndAlike(o, n, p, e)
    ensures o == n ==> UpdateOps(caps, o, n, last) == ([], last)
    ensures o != n ==>
      var move, ops := MoveOps(last, p, o), UpdateOps(caps, o, n, last).0;
      && move <= ops
      && Printed(ops[|move|..]) ==
         if Shifted(caps, o, n, p) then n[p..|n| - LastSame(o, n, p)]
         else n[p..] + if |o| < |n| || !caps.clearToEnd.Absent? then "" else Blanks(|o| - |n| + 1)
  {
    hide MoveOps, ChangeOps, LastSame, Printed, Shifted;
    FirstDifferenceIs(o, n, p, 0);
    if p == |o| == |n| {
      assert o == o[..p] && n == n[..p];
    } else if o != n {
      ChangePrints(caps, o, n, p, LastSame(o, n, p));
      var move, ops := MoveOps(last, p, o), ChangeOps(caps, o, n, p, LastSame(o, n, p)).0;
      assert UpdateOps(caps, o, n, last).0 == move + ops && (move + ops)[|move|..] == ops;
    }
  }

  // ---- the update is a repaint ----

  /** What readline relies on: a termcap string that is there does something, or another one does it. */
  predicate Usable(caps: Caps) {
    && (CanInsert(caps) ==>
          if !caps.insertMany.Absent? then caps.insertMany.Code?
          else caps.insertOne.Code? || (caps.startInsert.Code? && caps.endInsert.Code?))
    && (!caps.deleteOne.Absent? ==> caps.deleteOne.Code? || caps.deleteMany.Code?)
    && !caps.clearToEnd.Empty?
  }

  /** The screen shows `text` on a row of `width` + 1 cells, and the cursor is at column `last`. */
  predicate Shows(s: Screen, text: string, width: nat) {
    |text| <= width && s.row == Padded(text, width + 1)
  }

  /** The cursor is known, and characters are not inserted. */
  predicate Quiet(s: Screen, caps: Caps) { !s.lost && !(s.inserting && Shifts(caps)) }

  predicate CursorAt(s: Screen, last: nat) { !s.lost && s.col == last < |s.row| }

  lemma ReturnReturns(s: Screen, jump: bool, shifts: bool)
    requires !s.lost && OnRow(s)
    ensures Run(s, if jump then [Return] else [], shifts) == if jump then s.(col := 0) else s
  {
    if jump { RunOne(s, Return, shifts); }
  }

  /** Printing what is there changes nothing. */
  lemma ShownAnyway(row: string, o: string, from: nat, to: nat)
    requires from <= to <= |o| <= |row| && row == Padded(o, |row|)
    ensures Over(row, from, o[from..to]) == row
  {
  }

  lemma MoveIsRight(s: Screen, o: string, width: nat, last: nat, to: nat, shifts: bool)
    requires Shows(s, o, width) && CursorAt(s, last) && !(s.inserting && shifts) && to <= |o|
    ensures Run(s, MoveOps(last, to, o), shifts) == s.(col := to)
  {
    hide Run, Step, Over;
    var jump := to + 1 < last - to;
    var from := if jump then 0 else last;
    var first := if jump then [Return] else [];
    var s1 := s.(col := from);
    ReturnReturns(s, jump, shifts);
    if from < to {
      PutsGoOver(s1, o[from..to], shifts);
      ShownAnyway(s.row, o, from, to);
      RunAppend(s, first, Puts(o[from..to]), shifts);
    } else {
      BackMovesLeft(s1, from - to, shifts);
      RunAppend(s, first, Repeat(Back, from - to), shifts);
    }
  }

  /** Blanks that have been opened are printed over. */
  lemma OpenedIsFilled(s: Screen, ops: seq<Op>, text: string, shifts: bool)
    requires !s.lost && !(s.inserting && shifts) && s.col + |text| < |s.row|
    requires ops == [Open(|text|)] || ops == Repeat(Open(1), |text|)
    ensures Run(s, ops + Puts(text), shifts) == s.(row := Pushed(s.row, s.col, text), col := s.col + |text|)
  {
    var s1 := s.(row := Pushed(s.row, s.col, Blanks(|text|)));
    assert Run(s, ops, shifts) == s1 by {
      if ops == [Open(|text|)] { RunOne(s, Open(|text|), shifts); } else { OpenOnesOpenAll(s, |text|, shifts); }
    }
    RunAppend(s, ops, Puts(text), shifts);
    PutsGoOver(s1, text, shifts);
    FilledIsPushed(s.row, s.col, text);
  }

  lemma FilledIsPushed(row: string, at: nat, text: string)
    requires at + |text| <= |row|
    ensures Over(Pushed(row, at, Blanks(|text|)), at, text) == Pushed(row, at, text)
  {
    var row1 := Pushed(row, at, Blanks(|text|));
    assert row1[..at] == row[..at] && row1[at + |text|..] == row[at..|row| - |text|];
  }

  lemma InsertionIsRight(s: Screen, caps: Caps, text: string)
    requires Usable(caps) && CanInsert(caps) && Quiet(s, caps) && s.col + |text| < |s.row|
    ensures var s' := Run(s, InsertOps(caps, text), Shifts(caps));
      s'.row == Pushed(s.row, s.col, text) && s'.col == s.col + |text| && Quiet(s', caps)
  {
    if !caps.insertMany.Absent? {
      OpenedIsFilled(s, [Open(|text|)], text, Shifts(caps));
    } else {
      hide Pushed;
      ModeInsertionIsRight(s, caps, text);
    }
  }

  lemma RunInParts(s: Screen, a: seq<Op>, b: seq<Op>, c: seq<Op>, d: seq<Op>, shifts: bool)
    requires OnRow(s)
    ensures Run(s, a + b + c + d, shifts) == Run(Run(Run(s, a, shifts), b + c, shifts), d, shifts)
  {
    hide Run;
    assert a + b + c == a + (b + c);
    RunAppend(s, a + b + c, d, shifts);
    RunAppend(s, a, b + c, shifts);
  }

  lemma ModeInsertionIsRight(s: Screen, caps: Caps, text: string)
    requires caps.insertMany.Absent? && (caps.insertOne.Code? || (caps.startInsert.Code? && caps.endInsert.Code?))
    requires Quiet(s, caps) && s.col + |text| < |s.row|
    ensures var s' := Run(s, InsertOps(caps, text), Shifts(caps));
      s'.row == Pushed(s.row, s.col, text) && s'.col == s.col + |text| && Quiet(s', caps)
  {
    hide Run, Step, Pushed, Puts, Usable;
    var shifts := Shifts(caps);
    var a := Sent(caps.startInsert, [StartInsert]);
    var b := Sent(caps.insertOne, Repeat(Open(1), |text|));
    var d := Sent(caps.endInsert, [EndInsert]);
    var s1 := s.(inserting := s.inserting || caps.startInsert.Code?);
    var s2 := s1.(row := Pushed(s.row, s.col, text), col := s.col + |text|);
    StartInsertStarts(s, a, shifts);
    assert Run(s1, b + Puts(text), shifts) == s2 by {
      if caps.insertOne.Code? {
        OpenedIsFilled(s1, b, text, shifts);
      } else {
        assert b + Puts(text) == Puts(text);
        PutsPush(s1, text);
      }
    }
    RunInParts(s, a, b, Puts(text), d, shifts);
    EndInsertEnds(s2, d, shifts);
  }

  lemma StartInsertStarts(s: Screen, a: seq<Op>, shifts: bool)
    requires !s.lost && OnRow(s) && (a == [] || a == [StartInsert])
    ensures Run(s, a, shifts) == if a == [] then s else s.(inserting := true)
  {
  }

  lemma EndInsertEnds(s: Screen, d: seq<Op>, shifts: bool)
    requires !s.lost && OnRow(s) && (d == [] || d == [EndInsert])
    ensures Run(s, d, shifts) == if d == [] then s else s.(inserting := false)
  {
  }

  /** Clearing the end of the row: with the command, or with one blank more than necessary. */
  lemma ClearingIsRight(s: Screen, caps: Caps, count: nat, shifts: bool)
    requires !caps.clearToEnd.Empty? && !s.lost && !(s.inserting && shifts) && s.col + count < |s.row|
    requires forall k :: s.col + count <= k < |s.row| ==> s.row[k] == ' '
    ensures var s' := Run(s, ClearOps(caps, count), shifts);
      && s'.row == s.row[..s.col] + Blanks(|s.row| - s.col)
      && s'.inserting == s.inserting
      && (s'.lost <==> caps.clearToEnd.Absent? && s.col + count + 1 == |s.row|)
      && (!s'.lost ==> s'.col == s.col)
  {
    if caps.clearToEnd.Absent? {
      hide Run, Step;
      var back := Repeat(Back, count + 1);
      RunAppend(s, Puts(Blanks(count + 1)), back, shifts);
      var s1 := Run(s, Puts(Blanks(count + 1)), shifts);
      if s.col + count + 1 < |s.row| {
        PutsGoOver(s, Blanks(count + 1), shifts);
        BackMovesLeft(s1, count + 1, shifts);
      } else {
        BlanksToTheEnd(s, count, shifts);
        NothingWhenLost(s1, back, shifts);
      }
      assert s1.row == s.row[..s.col] + Blanks(|s.row| - s.col);
    } else {
      RunOne(s, Clear, shifts);
    }
  }

  lemma BlanksToTheEnd(s: Screen, count: nat, shifts: bool)
    requires !s.lost && !(s.inserting && shifts) && s.col + count + 1 == |s.row|
    ensures var s' := Run(s, Puts(Blanks(count + 1)), shifts);
      s'.lost && s'.row == s.row[..s.col] + Blanks(count + 1) && s'.inserting == s.inserting
  {
    assert Puts(Blanks(count + 1)) == Puts(Blanks(count)) + [Put(' ')];
    PutsGoOver(s, Blanks(count), shifts);
    var s1 := Run(s, Puts(Blanks(count)), shifts);
    hide Run;
    RunAppend(s, Puts(Blanks(count)), [Put(' ')], shifts);
    RunOne(s1, Put(' '), shifts);
  }

  /** When printing over the row reaches the last cell: a full row, and no command to clear its end. */
  predicate LosesCursor(caps: Caps, o: string, n: string, width: nat) {
    var p := FirstDifference(o, n, 0);
    && o != n && |o| == width && caps.clearToEnd.Absent?
    && (caps.deleteOne.Absent? || 2 * (|n| - p) < |o| - |n|)
  }

  /** Both rows start alike up to `p` and end alike in `same` characters. */
  predicate Alike(o: string, n: string, p: nat, same: nat) {
    && p + same <= |o| && p + same <= |n|
    && o[..p] == n[..p] && o[|o| - same..] == n[|n| - same..]
  }

  lemma InsertedRow(row: string, o: string, n: string, p: nat, same: nat)
    requires Alike(o, n, p, same) && |o| < |n| <= |row| && row == Padded(o, |row|)
    ensures var m := p + (|n| - |o|);
      Over(Pushed(row, p, n[p..m]), m, n[m..|n| - same]) == Padded(n, |row|)
  {
    var m := p + (|n| - |o|);
    var row1 := Pushed(row, p, n[p..m]);
    var row2 := Over(row1, m, n[m..|n| - same]);
    forall k | 0 <= k < |row| ensures row2[k] == Padded(n, |row|)[k] {
      if k < p {
        assert row1[k] == row[k] && o[..p][k] == n[..p][k];
      } else if |n| - same <= k {
        assert row1[k] == row[k - (|n| - |o|)];
        if k < |n| { assert o[|o| - same..][k - (|n| - same)] == n[|n| - same..][k - (|n| - same)]; }
      }
    }
  }

  lemma DeletedRow(row: string, o: string, n: string, p: nat, same: nat)
    requires Alike(o, n, p, same) && |n| <= |o| <= |row| && row == Padded(o, |row|)
    ensures Over(Pulled(row, p, |o| - |n|), p, n[p..|n| - same]) == Padded(n, |row|)
  {
    var d := |o| - |n|;
    var row1 := Pulled(row, p, d);
    var row2 := Over(row1, p, n[p..|n| - same]);
    forall k | 0 <= k < |row| ensures row2[k] == Padded(n, |row|)[k] {
      if k < p {
        assert row1[k] == row[k] && o[..p][k] == n[..p][k];
      } else if |n| - same <= k < |row| - d {
        assert row1[k] == row[k + d];
        if k < |n| { assert o[|o| - same..][k - (|n| - same)] == n[|n| - same..][k - (|n| - same)]; }
      }
    }
  }

  lemma PrintedRow(row: string, o: string, n: string, p: nat)
    requires p <= |o| && p <= |n| && o[..p] == n[..p] && |o| <= |row| && |n| <= |row| && row == Padded(o, |row|)
    ensures |o| <= |n| ==> Over(row, p, n[p..]) == Padded(n, |row|)
    ensures Over(row, p, n[p..])[..|n|] + Blanks(|row| - |n|) == Padded(n, |row|)
    ensures forall k :: |n| <= k && |o| <= k < |row| ==> Over(row, p, n[p..])[k] == ' '
  {
    var row1 := Over(row, p, n[p..]);
    assert forall k :: 0 <= k < p ==> row1[k] == o[..p][k] == n[..p][k];
    assert forall k :: p <= k < |n| ==> row1[k] == n[k];
    assert forall k :: |n| <= k < |row| ==> row1[k] == row[k];
  }

  /** The end of the row printed again. */
  lemma PrintingIsRight(s: Screen, caps: Caps, o: string, n: string, width: nat)
    requires Shows(s, o, width) && Quiet(s, caps) && |o| <= |n| <= width
    requires s.col <= |o| && o[..s.col] == n[..s.col]
    ensures var s' := Run(s, Puts(n[s.col..]), Shifts(caps));
      Shows(s', n, width) && Quiet(s', caps) && CursorAt(s', |n|)
  {
    hide Run, Step;
    PrintedRow(s.row, o, n, s.col);
    PutsGoOver(s, n[s.col..], Shifts(caps));
  }

  /** Characters inserted, and then the others printed up to the part that stays. */
  lemma InsertingIsRight(s: Screen, caps: Caps, o: string, n: string, same: nat, width: nat)
    requires Usable(caps) && CanInsert(caps) && Shows(s, o, width) && Quiet(s, caps) && Alike(o, n, s.col, same)
    requires |o| < |n| <= width
    ensures var m := s.col + (|n| - |o|);
      var s' := Run(s, InsertOps(caps, n[s.col..m]) + Puts(n[m..|n| - same]), Shifts(caps));
      Shows(s', n, width) && Quiet(s', caps) && CursorAt(s', |n| - same)
  {
    hide Run, Step, Usable, CanInsert, Pushed, Over, InsertOps, Puts;
    var shifts := Shifts(caps);
    var m := s.col + (|n| - |o|);
    InsertedRow(s.row, o, n, s.col, same);
    InsertionIsRight(s, caps, n[s.col..m]);
    RunAppend(s, InsertOps(caps, n[s.col..m]), Puts(n[m..|n| - same]), shifts);
    PutsGoOver(Run(s, InsertOps(caps, n[s.col..m]), shifts), n[m..|n| - same], shifts);
  }

  /** More characters than before: the difference is inserted, or the end of the row is printed again. */
  lemma GrowthIsRight(s: Screen, caps: Caps, o: string, n: string, p: nat, same: nat, width: nat)
    requires Usable(caps) && Shows(s, o, width) && Quiet(s, caps) && s.col == p && Alike(o, n, p, same)
    requires |o| < |n| <= width
    ensures var (ops, last) := ChangeOps(caps, o, n, p, same); var s' := Run(s, ops, Shifts(caps));
      Shows(s', n, width) && Quiet(s', caps) && CursorAt(s', last)
  {
    hide Run, Usable, CanInsert, InsertOps, Shows, Quiet, CursorAt;
    var m := p + (|n| - |o|);
    if CanInsert(caps) && same > 0 {
      InsertingIsRight(s, caps, o, n, same, width);
    } else {
      assert |n| - same >= m && (same == 0 ==> n[m..|n| - same] == n[m..]);
      assert Puts(n[p..m]) + Puts(n[m..]) == Puts(n[p..]);
      assert |o| <= width by { ShowsFits(s, o, width); }
      PrintingIsRight(s, caps, o, n, width);
    }
  }

  lemma ShowsFits(s: Screen, o: string, width: nat)
    requires Shows(s, o, width)
    ensures |o| <= width
  {
  }

  lemma DeletePulls(s: Screen, n: nat, shifts: bool)
    requires !s.lost && s.col + n < |s.row|
    ensures Step(s, Delete(n), shifts) == s.(row := Pulled(s.row, s.col, n))
  {
  }

  lemma DeletionIsRight(s: Screen, caps: Caps, n: nat)
    requires Usable(caps) && !caps.deleteOne.Absent? && Quiet(s, caps) && n > 0 && s.col + n < |s.row|
    ensures Run(s, DeleteOps(caps, n), Shifts(caps)) == s.(row := Pulled(s.row, s.col, n))
  {
    hide Run, Pulled;
    if caps.deleteMany.Code? {
      RunOne(s, Delete(n), Shifts(caps));
      DeletePulls(s, n, Shifts(caps));
    } else {
      DeleteOnesDeleteAll(s, n, Shifts(caps));
    }
  }

  /** Characters deleted, and then the others printed up to the part that stays. */
  lemma DeletingIsRight(s: Screen, caps: Caps, o: string, n: string, p: nat, same: nat, width: nat)
    requires Usable(caps) && Shows(s, o, width) && Quiet(s, caps) && s.col == p && Alike(o, n, p, same)
    requires |n| <= |o| && (p < |o| || p < |n|) && !caps.deleteOne.Absent?
    ensures var ops := (if |n| < |o| then DeleteOps(caps, |o| - |n|) else []) + Puts(n[p..|n| - same]);
      var s' := Run(s, ops, Shifts(caps));
      Shows(s', n, width) && Quiet(s', caps) && CursorAt(s', |n| - same)
  {
    hide Run, Step, Over, Pulled, DeleteOps, Puts, Usable;
    var shifts := Shifts(caps);
    var first := if |n| < |o| then DeleteOps(caps, |o| - |n|) else [];
    var s1 := s.(row := Pulled(s.row, p, |o| - |n|));
    assert Run(s, first, shifts) == s1 by {
      if |n| < |o| { DeletionIsRight(s, caps, |o| - |n|); } else { PulledNothing(s, shifts); }
    }
    RunAppend(s, first, Puts(n[p..|n| - same]), shifts);
    PutsGoOver(s1, n[p..|n| - same], shifts);
    DeletedRow(s.row, o, n, p, same);
  }

  /** The end of the row printed again, and what is left of the old one cleared. */
  lemma ReprintingIsRight(s: Screen, caps: Caps, o: string, n: string, p: nat, same: nat, width: nat)
    requires Usable(caps) && Shows(s, o, width) && Quiet(s, caps) && s.col == p && Alike(o, n, p, same) && |n| <= |o|
    ensures var s' := Run(s, Puts(n[p..]) + ClearOps(caps, |o| - |n|), Shifts(caps));
      && Shows(s', n, width) && !(s'.inserting && Shifts(caps))
      && (s'.lost <==> |o| == width && caps.clearToEnd.Absent?)
      && (!s'.lost ==> CursorAt(s', |n|))
  {
    hide Run, Step, Over, ClearOps, Puts;
    var shifts := Shifts(caps);
    PrintedRow(s.row, o, n, p);
    PutsGoOver(s, n[p..], shifts);
    var s1 := Run(s, Puts(n[p..]), shifts);
    RunAppend(s, Puts(n[p..]), ClearOps(caps, |o| - |n|), shifts);
    ClearingIsRight(s1, caps, |o| - |n|, shifts);
  }

  /** As many characters as before or fewer: the difference is deleted, or the row is printed over. */
  lemma ShrinkingIsRight(s: Screen, caps: Caps, o: string, n: string, p: nat, same: nat, width: nat)
    requires Usable(caps) && Shows(s, o, width) && Quiet(s, caps) && s.col == p && Alike(o, n, p, same)
    requires |n| <= |o| && (p < |o| || p < |n|)
    ensures var (ops, last) := ChangeOps(caps, o, n, p, same); var s' := Run(s, ops, Shifts(caps));
      && Shows(s', n, width) && !(s'.inserting && Shifts(caps))
      && (s'.lost <==> |o| == width && caps.clearToEnd.Absent? && (caps.deleteOne.Absent? || 2 * (|n| - p) < |o| - |n|))
      && (!s'.lost ==> CursorAt(s', last))
  {
    hide Run, Step, Over, Pulled, CanInsert, DeleteOps, ClearOps, Puts, Shows, Alike, Usable, Shifts;
    if !caps.deleteOne.Absent? && 2 * (|n| - p) >= |o| - |n| {
      DeletingIsRight(s, caps, o, n, p, same, width);
    } else {
      ReprintingIsRight(s, caps, o, n, p, same, width);
    }
  }

  lemma PulledNothing(s: Screen, shifts: bool)
    requires OnRow(s)
    ensures Run(s, [], shifts) == s.(row := Pulled(s.row, s.col, 0))
  {
    assert Pulled(s.row, s.col, 0) == s.row;
  }

  /** After update_line the row shows exactly `n`, given that it showed `o`: the update is as good as a repaint.
      last_c_pos is where the cursor is, unless a full row had to be printed over without a command to clear its
      end: then, and only then, the terminal has been made to print into its last column. */
  lemma UpdateIsRepaint(s: Screen, caps: Caps, o: string, n: string, width: nat, last: nat)
    requires Usable(caps) && Shows(s, o, width) && Quiet(s, caps) && CursorAt(s, last) && |n| <= width
    ensures var (ops, last') := UpdateOps(caps, o, n, last); var s' := Run(s, ops, Shifts(caps));
      && Shows(s', n, width) && !(s'.inserting && Shifts(caps))
      && (s'.lost <==> LosesCursor(caps, o, n, width))
      && (!s'.lost ==> Quiet(s', caps) && CursorAt(s', last'))
  {
    hide Run, Usable;
    var p := FirstDifference(o, n, 0);
    PrefixIsSame(o, n, 0);
    if p == |o| && p == |n| {
      assert o == o[..p] && n == n[..p];
      RunNothing(s, Shifts(caps));
    } else {
      var same := LastSame(o, n, p);
      LastSameIsSame(o, n, p);
      MoveIsRight(s, o, width, last, p, Shifts(caps));
      var s1 := s.(col := p);
      RunAppend(s, MoveOps(last, p, o), ChangeOps(caps, o, n, p, same).0, Shifts(caps));
      hide MoveOps, ChangeOps, LastSame, Shows, Padded;
      assert Shows(s1, o, width) by { ShowsAnyColumn(s, o, width, p); }
      if |n| > |o| {
        GrowthIsRight(s1, caps, o, n, p, same, width);
      } else {
        ShrinkingIsRight(s1, caps, o, n, p, same, width);
      }
    }
  }

  lemma RunNothing(s: Screen, shifts: bool)
    requires OnRow(s)
    ensures Run(s, [], shifts) == s
  {
  }

  lemma ShowsAnyColumn(s: Screen, o: string, width: nat, col: nat)
    requires Shows(s, o, width)
    ensures Shows(s.(col := col), o, width)
  {
  }

  // ---- runs of updates ----

  /** The rows that are displayed one after the other, each as an update of the one before. */
  function UpdateAll(caps: Caps, s: Screen, o: string, last: nat, rows: seq<string>): (Screen, nat)
    requires OnRow(s)
    decreases |rows|
  {
    if rows == [] then (s, last)
    else
      var (ops, last') := UpdateOps(caps, o, rows[0], last);
      UpdateAll(caps, Run(s, ops, Shifts(caps)), rows[0], last', rows[1..])
  }

  predicate KeepsCursor(caps: Caps, o: string, width: nat, rows: seq<string>)
    decreases |rows|
  {
    rows != [] ==> !LosesCursor(caps, o, rows[0], width) && KeepsCursor(caps, rows[0], width, rows[1..])
  }

  /** Over every run of updates the row shows the newest text and the cursor is where readline thinks it is. */
  lemma {:induction false} EveryUpdateShows(
      s: Screen, caps: Caps, o: string, width: nat, last: nat, rows: seq<string>)
    requires Usable(caps) && Shows(s, o, width) && Quiet(s, caps) && CursorAt(s, last)
    requires (forall k :: 0 <= k < |rows| ==> |rows[k]| <= width) && KeepsCursor(caps, o, width, rows)
    ensures var (s', last') := UpdateAll(caps, s, o, last, rows);
      Shows(s', if rows == [] then o else rows[|rows| - 1], width) && Quiet(s', caps) && CursorAt(s', last')
    decreases |rows|
  {
    hide Usable, UpdateOps, Run, LosesCursor, Shows;
    if rows != [] {
      UpdateIsRepaint(s, caps, o, rows[0], width, last);
      var (ops, last') := UpdateOps(caps, o, rows[0], last);
      EveryUpdateShows(Run(s, ops, Shifts(caps)), caps, rows[0], width, last', rows[1..]);
    }
  }

  /** On a terminal without dc and ce the last character of a full row cannot be changed without losing the
      cursor, although nothing has to be cleared. */
  lemma FullRowLosesCursor(caps: Caps, text: string, c: char, d: char)
    requires caps.clearToEnd.Absent? && caps.deleteOne.Absent? && c != d
    ensures LosesCursor(caps, text + [c], text + [d], |text| + 1)
  {
    assert (text + [c])[|text|] != (text + [d])[|text|];
  }

  // ---- which terminals are good enough ----

  ghost predicate Repaints(caps: Caps, o: string, n: string, width: nat, last: nat)
    requires |o| <= width && |n| <= width && last <= width
  {
    var s' := Run(Screen(Padded(o, width + 1), last, false, false), UpdateOps(caps, o, n, last).0, Shifts(caps));
    Shows(s', n, width) && !(s'.inserting && Shifts(caps))
  }

  ghost predicate AlwaysRepaints(caps: Caps) {
    forall o: string, n: string, width: nat, last: nat ::
      |o| <= width && |n| <= width && last <= width ==> Repaints(caps, o, n, width, last)
  }

  /** A terminal that says it can insert, but has no command for it, prints over the row. */
  lemma InsertingNeedsCommand(caps: Caps)
    requires CanInsert(caps)
    requires
      if !caps.insertMany.Absent? then !caps.insertMany.Code?
      else !caps.insertOne.Code? && !(caps.startInsert.Code? && caps.endInsert.Code?)
    ensures !Repaints(caps, "cb", "acb", 3, 0)
  {
    var o, n := "cb", "acb";
    assert FirstDifference(o, n, 0) == 0;
    assert SameAtEnd(o, n, 0, 0) == 1 && LastSame(o, n, 0) == 2;
    assert MoveOps(0, 0, o) == [];
    var s := Screen(Padded(o, 4), 0, false, false);
    var shifts := Shifts(caps);
    var text := n[0..1];
    assert Puts(n[1..1]) == [] && Puts(text) == [Put('a')];
    var ops := InsertOps(caps, text);
    assert UpdateOps(caps, o, n, 0).0 == ops;
    if !caps.insertMany.Absent? || !caps.startInsert.Code? {
      var rest := if caps.insertMany.Absent? then Sent(caps.endInsert, [EndInsert]) else [];
      assert ops == [Put('a')] + rest;
      RunAppend(s, [Put('a')], rest, shifts);
      RunOne(s, Put('a'), shifts);
      EndInsertEnds(Step(s, Put('a'), shifts), rest, shifts);
      assert Run(s, ops, shifts).row[1] == 'b';
    } else {
      assert ops == [StartInsert] + [Put('a')];
      RunAppend(s, [StartInsert], [Put('a')], shifts);
      RunOne(s, StartInsert, shifts);
      RunOne(s.(inserting := true), Put('a'), shifts);
    }
  }

  lemma DeletingNeedsCommand(caps: Caps)
    requires caps.deleteOne.Empty? && !caps.deleteMany.Code?
    ensures !Repaints(caps, "xab", "ab", 3, 0)
  {
    var o, n := "xab", "ab";
    assert FirstDifference(o, n, 0) == 0;
    assert SameAtEnd(o, n, 0, 0) == 1 && LastSame(o, n, 0) == 2;
    assert MoveOps(0, 0, o) == [] && Puts(n[0..0]) == [];
    assert UpdateOps(caps, o, n, 0).0 == [];
  }

  lemma ClearingNeedsCommand(caps: Caps)
    requires caps.clearToEnd.Empty?
    ensures !Repaints(caps, "a", "", 1, 0)
  {
    var o, n := "a", "";
    assert FirstDifference(o, n, 0) == 0;
    assert SameAtEnd(o, n, 0, 0) == 0 && LastSame(o, n, 0) == 0;
    assert MoveOps(0, 0, o) == [] && Puts(n[0..]) == [];
    assert UpdateOps(caps, o, n, 0).0 == [];
    assert Padded(o, 2)[0] == 'a' && Padded(n, 2)[0] == ' ';
  }

  /** The terminals on which every update is a repaint are the usable ones, and no others. */
  lemma UsableIsNeeded(caps: Caps)
    ensures AlwaysRepaints(caps) <==> Usable(caps)
  {
    hide Repaints;
    if Usable(caps) {
      forall o: string, n: string, width: nat, last: nat | |o| <= width && |n| <= width && last <= width
        ensures Repaints(caps, o, n, width, last)
      {
        UsableRepaints(caps, o, n, width, last);
      }
    } else if caps.clearToEnd.Empty? {
      ClearingNeedsCommand(caps);
    } else if caps.deleteOne.Empty? && !caps.deleteMany.Code? {
      DeletingNeedsCommand(caps);
    } else {
      InsertingNeedsCommand(caps);
    }
  }

  lemma UsableRepaints(caps: Caps, o: string, n: string, width: nat, last: nat)
    requires Usable(caps) && |o| <= width && |n| <= width && last <= width
    ensures Repaints(caps, o, n, width, last)
  {
    hide Run, UpdateOps;
    var s := Screen(Padded(o, width + 1), last, false, false);
    UpdateIsRepaint(s, caps, o, n, width, last);
  }

  // ---- the code ----

  /** A C string in a larger buffer: it can be read up to its end or to the width of the screen. */
  predicate Readable(buffer: string, width: nat) { '\0' in buffer || width < |buffer| }

  /** Where the row that starts at the beginning of `buffer` ends. */
  function RowEnd(buffer: string, width: nat, i: nat): (r: nat)
    requires Readable(buffer, width) && i <= width && '\0' !in buffer[..Least(i, |buffer|)] && i <= |buffer|
    ensures i <= r <= width && r < |buffer| && '\0' !in buffer[..r]
    ensures r < width ==> buffer[r] == '\0'
    decreases width - i
  {
    if i == width || buffer[i] == '\0' then i
    else
      assert buffer[..i + 1] == buffer[..i] + [buffer[i]];
      RowEnd(buffer, width, i + 1)
  }

  /** The row that a pointer into a screen buffer stands for. */
  function RowOf(buffer: string, width: nat): (r: string)
    requires Readable(buffer, width)
    ensures |r| <= width && '\0' !in r
  {
    buffer[..RowEnd(buffer, width, 0)]
  }

  /** The output stream, last_c_pos and screenwidth. */
  class Output {
    const caps: Caps
    const screenwidth: nat
    var out: seq<Op>
    var lastCPos: nat

    constructor (caps: Caps, screenwidth: nat)
      ensures this.caps == caps && this.screenwidth == screenwidth && out == [] && lastCPos == 0
    {
      this.caps, this.screenwidth := caps, screenwidth;
      out, lastCPos := [], 0;
    }

    method OutputSomeChars(text: string)
      modifies this`out
      ensures out == old(out) + Puts(text)
    {
      for i := 0 to |text|
        invariant out == old(out) + Puts(text[..i])
      {
        out := out + [Put(text[i])];
        assert Puts(text[..i + 1]) == Puts(text[..i]) + [Put(text[i])];
      }
      assert text[..|text|] == text;
    }

    /** One terminal command several times. */
    method Times(op: Op, count: nat)
      modifies this`out
      ensures out == old(out) + Repeat(op, count)
    {
      for i := 0 to count
        invariant out == old(out) + Repeat(op, i)
      {
        out := out + [op];
        assert Repeat(op, i + 1) == Repeat(op, i) + [op];
      }
    }

    /** delete_chars */
    method DeleteChars(count: nat)
      modifies this`out
      ensures out == old(out) + if count > screenwidth then [] else DeleteOps(caps, count)
    {
      if count > screenwidth { return; }
      if caps.deleteMany.Code? {
        out := out + [Delete(count)];
      } else if caps.deleteOne.Code? {
        Times(Delete(1), count);
      }
    }

    /** insert_some_chars */
    method InsertSomeChars(text: string)
      modifies this`out
      ensures out == old(out) + InsertOps(caps, text)
    {
      if !caps.insertMany.Absent? {
        if caps.insertMany.Code? { out := out + [Open(|text|)]; }
        OutputSomeChars(text);
      } else {
        if caps.startInsert.Code? { out := out + [StartInsert]; }
        if caps.insertOne.Code? { Times(Open(1), |text|); }
        OutputSomeChars(text);
        if caps.endInsert.Code? { out := out + [EndInsert]; }
      }
    }

    /** clear_to_eol, which does one more character space when it has to print blanks */
    method ClearToEol(count: nat)
      modifies this`out
      ensures out == old(out) + ClearOps(caps, count)
    {
      if !caps.clearToEnd.Absent? {
        if caps.clearToEnd.Code? { out := out + [Clear]; }
      } else {
        Times(Put(' '), count + 1);
        assert Repeat(Put(' '), count + 1) == Puts(Blanks(count + 1));
        Times(Back, count + 1);
      }
    }

    /** move_cursor_relative */
    method MoveCursorRelative(to: nat, data: string)
      requires to <= |data|
      modifies this
      ensures out == old(out) + MoveOps(old(lastCPos), to, data) && lastCPos == to
    {
      hide Puts;
      NoPuts();
      if to + 1 < lastCPos - to {
        out := out + [Return];
        lastCPos := 0;
      }
      if lastCPos == to { return; }
      if lastCPos < to {
        assert data[lastCPos..lastCPos] == "";
        for i := lastCPos to to
          invariant lastCPos <= i && lastCPos == if to + 1 < old(lastCPos) - to then 0 else old(lastCPos)
          invariant out == old(out) + (if to + 1 < old(lastCPos) - to then [Return] else []) + Puts(data[lastCPos..i])
        {
          out := out + [Put(data[i])];
          PutsNext(data, lastCPos, i);
        }
      } else {
        Times(Back, lastCPos - to);
      }
      lastCPos := to;
    }

    /** Find the end of the row, from `from` on. */
    method EndOf(buffer: string, from: nat) returns (end: nat)
      requires Readable(buffer, screenwidth) && from <= |RowOf(buffer, screenwidth)|
      ensures end == |RowOf(buffer, screenwidth)|
    {
      end := from;
      RowEndFrom(buffer, screenwidth, 0, from);
      while end < screenwidth && buffer[end] != '\0'
        invariant end <= |RowOf(buffer, screenwidth)|
        invariant RowEnd(buffer, screenwidth, 0) == RowEnd(buffer, screenwidth, end)
        decreases screenwidth - end
      {
        RowEndFrom(buffer, screenwidth, 0, end + 1);
        end := end + 1;
      }
    }

    /** The last characters that are the same; the end of the rows if these are only blanks.  The code also reads
        the character in front of a row when there is nothing to compare, but does not use it. */
    method LastSameOf(o: string, n: string, first: nat) returns (ols: nat, nls: nat)
      requires first <= |o| && first <= |n|
      ensures ols == |o| - LastSame(o, n, first) && nls == |n| - LastSame(o, n, first)
    {
      var i, j, wsatend := |o| as int - 1, |n| as int - 1, true;
      ghost var k := 0;
      while i > first && j > first && o[i] == n[j]
        invariant k >= 0 && i == |o| - 1 - k && j == |n| - 1 - k && first + k <= |o| && first + k <= |n|
        invariant k > 0 ==> first + k < |o| && first + k < |n|
        invariant SameAtEnd(o, n, first, k) == SameAtEnd(o, n, first, 0)
        invariant wsatend <==> AllBlank(o[|o| - k..])
      {
        assert o[|o| - (k + 1)..] == [o[i]] + o[|o| - k..];
        if o[i] != ' ' { wsatend := false; }
        i, j, k := i - 1, j - 1, k + 1;
      }
      if wsatend {
        ols, nls := |o|, |n|;
      } else {
        if o[i] != n[j] { i, j := i + 1, j + 1; }
        ols, nls := i, j;
      }
    }

    /** update_line; `before` and `after` start where the row of the line is in the buffers. */
    method UpdateLine(before: string, after: string)
      requires Readable(before, screenwidth) && Readable(after, screenwidth)
      modifies this
      ensures var (ops, last) := UpdateOps(caps, RowOf(before, screenwidth), RowOf(after, screenwidth), old(lastCPos));
        out == old(out) + ops && lastCPos == last
    {
      hide MoveOps, ChangeOps, LastSame;
      ghost var o, n := RowOf(before, screenwidth), RowOf(after, screenwidth);
      var first := 0;
      while first < screenwidth && before[first] != '\0' && before[first] == after[first]
        invariant first <= |o| && first <= |n|
        invariant FirstDifference(o, n, first) == FirstDifference(o, n, 0)
        decreases screenwidth - first
      {
        first := first + 1;
      }
      var oe := EndOf(before, first);
      var ne := EndOf(after, first);
      assert before[..oe] == o && after[..ne] == n;
      assert first == FirstDifference(o, n, 0);
      if first == oe && first == ne { return; }
      var ols, nls := LastSameOf(before[..oe], after[..ne], first);
      MoveCursorRelative(first, before[..oe]);
      Change(before, after, oe, ne, first, ols, nls);
    }

    /** The part of update_line that changes the row, from the first difference on. */
    method Change(before: string, after: string, oe: nat, ne: nat, first: nat, ols: nat, nls: nat)
      requires Readable(before, screenwidth) && Readable(after, screenwidth)
      requires oe == |RowOf(before, screenwidth)| && ne == |RowOf(after, screenwidth)|
      requires first <= ols <= oe && first <= nls <= ne && oe - ols == ne - nls && lastCPos == first
      modifies this
      ensures var (ops, last) := ChangeOps(caps, before[..oe], after[..ne], first, oe - ols);
        out == old(out) + ops && lastCPos == last
    {
      hide Puts, InsertOps, DeleteOps, ClearOps, CanInsert, Readable, RowOf, RowEnd;
      NoPuts();
      RowEndsAt(before, screenwidth, ols);
      RowEndsAt(after, screenwidth, nls);
      ghost var o, n := before[..oe], after[..ne];
      var lendiff := (nls - first) - (ols - first);
      SliceOfSlice(after, ne, first, ne);
      SliceOfSlice(after, ne, first, nls);
      if lendiff > 0 {
        SliceOfSlice(after, ne, first, first + lendiff);
        SliceOfSlice(after, ne, first + lendiff, nls);
      }
      if lendiff > 0 {
        if CanInsert(caps) {
          if 2 * (ne - first) < lendiff && caps.insertMany.Absent? {
            assert false;
          } else {
            if before[ols] != '\0' {
              InsertSomeChars(after[first..first + lendiff]);
            } else {
              OutputSomeChars(after[first..first + lendiff]);
            }
            lastCPos := lastCPos + lendiff;
            if (nls - first) - lendiff > 0 {
              OutputSomeChars(after[first + lendiff..nls]);
              lastCPos := lastCPos + ((nls - first) - lendiff);
            }
          }
        } else {
          OutputSomeChars(after[first..ne]);
          lastCPos := lastCPos + (ne - first);
        }
      } else if !caps.deleteOne.Absent? && 2 * (ne - first) >= -lendiff {
        if lendiff != 0 { DeleteChars(-lendiff); }
        if nls - first > 0 {
          OutputSomeChars(after[first..nls]);
          lastCPos := lastCPos + (nls - first);
        }
      } else {
        OutputSomeChars(after[first..ne]);
        lastCPos := lastCPos + (ne - first);
        ClearToEol(oe - ne);
      }
    }
  }

  lemma RowEndsAt(buffer: string, width: nat, at: nat)
    requires Readable(buffer, width) && at <= |RowOf(buffer, width)|
    ensures |RowOf(buffer, width)| < |buffer|
    ensures at < |RowOf(buffer, width)| ==> buffer[at] != '\0'
    ensures at == |RowOf(buffer, width)| < width ==> buffer[at] == '\0'
  {
  }

  lemma SliceOfSlice(s: string, n: nat, i: nat, j: nat)
    requires i <= j <= n <= |s|
    ensures s[..n][i..j] == s[i..j] && (j == n ==> s[..n][i..] == s[i..j])
  {
  }

  lemma PutsNext(data: string, from: nat, i: nat)
    requires from <= i < |data|
    ensures Puts(data[from..i + 1]) == Puts(data[from..i]) + [Put(data[i])]
  {
  }

  lemma NoPuts()
    ensures Puts("") == []
  {
  }

  lemma {:induction false} RowEndFrom(buffer: string, width: nat, i: nat, j: nat)
    requires Readable(buffer, width) && i <= width && i <= |buffer| && '\0' !in buffer[..Least(i, |buffer|)]
    requires i <= j <= RowEnd(buffer, width, i)
    ensures '\0' !in buffer[..Least(j, |buffer|)] && RowEnd(buffer, width, i) == RowEnd(buffer, width, j)
    decreases j - i
  {
    if i < j {
      assert buffer[..i + 1] == buffer[..i] + [buffer[i]];
      RowEndFrom(buffer, width, i + 1, j);
    }
  }

  function RowsOf(buffers: seq<string>, width: nat): seq<string>
    requires forall k :: 0 <= k < |buffers| ==> Readable(buffers[k], width)
  {
    seq(|buffers|, k requires 0 <= k < |buffers| => RowOf(buffers[k], width))
  }

  /** A new line on which the buffers are displayed one after the other. */
  method DisplayAll(caps: Caps, width: nat, buffers: seq<string>) returns (d: Output)
    requires Usable(caps) && forall k :: 0 <= k < |buffers| ==> Readable(buffers[k], width)
    requires KeepsCursor(caps, "", width, RowsOf(buffers, width))
    ensures fresh(d)
    ensures var s := Run(Screen(Blanks(width + 1), 0, false, false), d.out, Shifts(caps));
      && Shows(s, if buffers == [] then "" else RowOf(buffers[|buffers| - 1], width), width)
      && CursorAt(s, d.lastCPos)
  {
    hide Usable, UpdateOps, Run, LosesCursor, Step;
    d := new Output(caps, width);
    var shown := ['\0'];
    ghost var s0 := Screen(Blanks(width + 1), 0, false, false);
    ghost var rows := RowsOf(buffers, width);
    assert RowOf(shown, width) == "" && rows[0..] == rows;
    RunNothing(s0, Shifts(caps));
    for k := 0 to |buffers|
      invariant fresh(d) && d.caps == caps && d.screenwidth == width && Readable(shown, width)
      invariant var s := Run(s0, d.out, Shifts(caps));
        Shows(s, RowOf(shown, width), width) && Quiet(s, caps) && CursorAt(s, d.lastCPos)
      invariant KeepsCursor(caps, RowOf(shown, width), width, rows[k..])
      invariant k > 0 ==> shown == buffers[k - 1]
      invariant k == 0 ==> RowOf(shown, width) == ""
    {
      ghost var s := Run(s0, d.out, Shifts(caps));
      assert rows[k..][0] == rows[k] && rows[k..][1..] == rows[k + 1..];
      UpdateIsRepaint(s, caps, RowOf(shown, width), rows[k], width, d.lastCPos);
      RunAppend(s0, d.out, UpdateOps(caps, RowOf(shown, width), rows[k], d.lastCPos).0, Shifts(caps));
      d.UpdateLine(shown, buffers[k]);
      shown := buffers[k];
    }
  }
}
