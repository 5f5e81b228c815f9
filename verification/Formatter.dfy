/** python/lib/formatter.py: words put on lines, with the space between them stretched up to the right margin.

  A line is kept as a list of boxes until it is full; then it is drawn.  What fonts measure is left open.
  */
module Formatter {

  type Font(==, !new)

  /** What the drawing object tells about fonts. */
  datatype Metrics = Metrics(width: (Font, string) -> nat, baseline: Font -> nat, lineheight: Font -> nat, plain: Font)

  datatype Box = Box(font: Font, word: string, width: nat, space: int, stretch: int)

  /** A word that has been drawn. */
  datatype Text = Text(h: int, v: int, font: Font, word: string, width: nat)

  /** int(x), which truncates */
  function Truncated(x: real): int { if x >= 0.0 then x.Floor else -((-x).Floor) }

  /** Towards zero, by less than one. */
  lemma TruncatedIsNearer(x: real)
    ensures x >= 0.0 ==> 0.0 <= Truncated(x) as real <= x < Truncated(x) as real + 1.0
    ensures x <= 0.0 ==> Truncated(x) as real - 1.0 < x <= Truncated(x) as real <= 0.0
  {
  }

  /** int(float(n) * float(factor)) */
  function Scaled(n: nat, factor: real): int { Truncated(n as real * factor) }

  // ---- one line ----

  function Sum(xs: seq<int>): int
    decreases |xs|
  {
    if xs == [] then 0 else xs[0] + Sum(xs[1..])
  }

  function Stretches(boxes: seq<Box>): (r: seq<int>)
    ensures |r| == |boxes|
  {
    seq(|boxes|, i requires 0 <= i < |boxes| => boxes[i].stretch)
  }

  /** The width of boxes with the spaces behind them. */
  function Natural(boxes: seq<Box>): int
    decreases |boxes|
  {
    if boxes == [] then 0 else boxes[0].width + boxes[0].space + Natural(boxes[1..])
  }

  function ExtraFor(stretch: int, extra: int, total: int): int {
    if extra > 0 && total > 0 then stretch * extra / total else 0
  }

  /** The boxes drawn from `h` on, while `extra` is still to be distributed over `total` stretch. */
  function Placed(boxes: seq<Box>, m: Metrics, h: int, baseline: int, extra: int, total: int): (r: seq<Text>)
    ensures |r| == |boxes|
    decreases |boxes|
  {
    if boxes == [] then []
    else
      var b := boxes[0];
      var x := ExtraFor(b.stretch, extra, total);
      [Text(h, baseline - m.baseline(b.font), b.font, b.word, b.width)]
      + if extra > 0 && total > 0
        then Placed(boxes[1..], m, h + b.width + b.space + x, baseline, extra - x, total - b.stretch)
        else Placed(boxes[1..], m, h + b.width + b.space, baseline, extra, total)
  }

  /** What is left of the extra space after it has been distributed over `stretches`. */
  function Leftover(stretches: seq<int>, extra: int, total: int): int
    decreases |stretches|
  {
    if stretches == [] then extra
    else if extra > 0 && total > 0 then
      Leftover(stretches[1..], extra - ExtraFor(stretches[0], extra, total), total - stretches[0])
    else extra
  }

  /** No beginning of the stretches takes more than the total, up to where the total is used up; so it is if none
      is negative. */
  predicate NoOvershoot(stretches: seq<int>, total: int)
    decreases |stretches|
  {
    total == 0 || stretches == [] || (stretches[0] <= total && NoOvershoot(stretches[1..], total - stretches[0]))
  }

  lemma ShareIsSmaller(stretch: int, extra: int, total: int)
    requires 0 < total && 0 < extra && stretch <= total
    ensures var x := ExtraFor(stretch, extra, total);
      && x <= extra && (stretch == total ==> x == extra) && (stretch >= 0 ==> x >= 0)
      && (extra >= total ==> extra - x >= total - stretch)
  {
    var x := stretch * extra / total;
    DivIs(stretch * extra, total);
    AtMostAll(stretch, extra, total, x);
    if stretch >= 0 { NotNegative(stretch, extra, total, x); }
    if extra >= total { KeepsPace(stretch, extra, total, x); }
  }

  lemma DivIs(n: int, total: nat)
    requires total > 0
    ensures n / total * total <= n < n / total * total + total
  {
  }

  lemma AtMostAll(stretch: int, extra: int, total: int, x: int)
    requires 0 < total && 0 < extra && stretch <= total && x * total <= stretch * extra < x * total + total
    ensures x <= extra && (stretch == total ==> x == extra)
  {
    Mono(stretch, total, extra);
    if x > extra { Mono(extra + 1, x, total); }
    if x < extra { Mono(x + 1, extra, total); }
  }

  lemma NotNegative(stretch: nat, extra: int, total: int, x: int)
    requires 0 < total && 0 < extra && stretch * extra < x * total + total
    ensures x >= 0
  {
    Mono(0, stretch, extra);
    if x < 0 { Mono(x, -1, total); }
  }

  lemma Mono(x: int, y: int, p: nat)
    requires x <= y
    ensures x * p <= y * p
  {
  }

  /** The extra space stays as large as the stretch that is left. */
  lemma KeepsPace(stretch: int, extra: int, total: int, x: int)
    requires stretch <= total <= extra && 0 < total && x * total <= stretch * extra
    ensures extra - x >= total - stretch
  {
    var y := x - extra + total - stretch;
    Mono(0, total - stretch, extra - total);
    assert (total - stretch) * (extra - total) == total * extra - total * total - stretch * extra + stretch * total;
    assert y * total == x * total - extra * total + total * total - stretch * total;
    if y > 0 { Mono(1, y, total); }
  }

  /** All of the extra space is distributed, despite the integer divisions, if no beginning of the stretches
      overshoots the total. */
  lemma {:induction false} AllIsDistributed(stretches: seq<int>, extra: int, total: int)
    requires total == Sum(stretches) && NoOvershoot(stretches, total)
    requires extra >= 0 && total >= 0 && (total == 0 ==> extra == 0)
    ensures Leftover(stretches, extra, total) == 0
    decreases |stretches|
  {
    if stretches != [] && extra > 0 && total > 0 {
      ShareIsSmaller(stretches[0], extra, total);
      AllIsDistributed(stretches[1..], extra - ExtraFor(stretches[0], extra, total), total - stretches[0]);
    }
  }

  /** When a stretch takes more than there is, too much space is given away. */
  lemma TooMuch(stretch: int, extra: int, total: int)
    requires 0 < total <= extra && stretch > total
    ensures extra - ExtraFor(stretch, extra, total) < 0
  {
    var x := stretch * extra / total;
    assert x * total <= stretch * extra < x * total + total;
    assert (total + 1) * extra == total * extra + extra;
    Mono(total + 1, stretch, extra);
    if x <= extra {
      Mono(x, extra, total);
      assert false;
    }
  }

  /** And exactly then: for at least as much extra space as there is stretch, the line ends at the margin if and only
      if no beginning of the stretches overshoots. */
  lemma {:induction false} DistributedIff(stretches: seq<int>, extra: int, total: int)
    requires total == Sum(stretches) && 0 <= total <= extra && (total == 0 ==> extra == 0)
    ensures Leftover(stretches, extra, total) == 0 <==> NoOvershoot(stretches, total)
    decreases |stretches|
  {
    if stretches != [] && extra > 0 && total > 0 {
      if stretches[0] <= total {
        ShareIsSmaller(stretches[0], extra, total);
        var e, t := extra - ExtraFor(stretches[0], extra, total), total - stretches[0];
        DistributedIff(stretches[1..], e, t);
      } else {
        TooMuch(stretches[0], extra, total);
      }
    }
  }

  /** The first stretch that takes more than is left of the total finds so little extra space left that the division
      rounds the excess away. */
  predicate Harmless(stretches: seq<int>, extra: int, total: int)
    decreases |stretches|
  {
    if stretches == [] || extra <= 0 || total <= 0 then true
    else if stretches[0] > total then (stretches[0] - total) * extra < total
    else Harmless(stretches[1..], extra - ExtraFor(stretches[0], extra, total), total - stretches[0])
  }

  lemma ExcessRounds(stretch: int, extra: int, total: int)
    requires 0 < total < stretch && 0 < extra
    ensures var left := extra - ExtraFor(stretch, extra, total); left <= 0 && (left == 0 <==> (stretch - total) * extra < total)
  {
    var x := stretch * extra / total;
    DivIs(stretch * extra, total);
    assert (stretch - total) * extra == stretch * extra - total * extra;
    Mono(total, stretch, extra);
    if x < extra { Mono(x + 1, extra, total); }
    if x > extra { Mono(extra + 1, x, total); }
  }

  /** For any extra space: all of it is distributed, and no more, exactly if no stretch overshoots or the first that
      does is harmless. */
  lemma {:induction false} DistributedExactly(stretches: seq<int>, extra: int, total: int)
    requires total == Sum(stretches) && extra >= 0 && total >= 0 && (total == 0 ==> extra == 0)
    ensures Leftover(stretches, extra, total) == 0 <==> Harmless(stretches, extra, total)
    decreases |stretches|
  {
    if stretches != [] && extra > 0 && total > 0 {
      var x := ExtraFor(stretches[0], extra, total);
      if stretches[0] <= total {
        ShareIsSmaller(stretches[0], extra, total);
        DistributedExactly(stretches[1..], extra - x, total - stretches[0]);
      } else {
        ExcessRounds(stretches[0], extra, total);
        NothingGiven(stretches[1..], extra - x, total - stretches[0]);
      }
    }
  }

  /** With a negative stretch behind it, a word can be given more space than there is. */
  lemma NegativeStretchOvershoots()
    ensures Leftover([5, -3], 2, 2) == -3 && !Harmless([5, -3], 2, 2)
    ensures Leftover([3, -1], 1, 2) == 0 && !NoOvershoot([3, -1], 2) && Harmless([3, -1], 1, 2)
  {
    NothingGiven([5, -3][1..], -3, -3);
    NothingGiven([3, -1][1..], 0, -1);
  }

  lemma {:induction false} NoneNegative(stretches: seq<int>, total: int)
    requires total == Sum(stretches) && forall i :: 0 <= i < |stretches| ==> stretches[i] >= 0
    ensures total >= 0 && NoOvershoot(stretches, total)
    decreases |stretches|
  {
    if stretches != [] { NoneNegative(stretches[1..], total - stretches[0]); }
  }

  // ---- where the words are ----

  function Last(boxes: seq<Box>): Box
    requires boxes != []
  {
    boxes[|boxes| - 1]
  }

  function Front(boxes: seq<Box>): seq<Box>
    requires boxes != []
  {
    boxes[..|boxes| - 1]
  }

  /** One step of the loop that draws the boxes. */
  lemma PlacedStep(boxes: seq<Box>, m: Metrics, h: int, baseline: int, extra: int, total: int)
    requires boxes != []
    ensures var b := boxes[0]; var x := ExtraFor(b.stretch, extra, total); var all := Placed(boxes, m, h, baseline, extra, total);
      && all[0] == Text(h, baseline - m.baseline(b.font), b.font, b.word, b.width)
      && all[1..] ==
        if extra > 0 && total > 0
        then Placed(boxes[1..], m, h + b.width + b.space + x, baseline, extra - x, total - b.stretch)
        else Placed(boxes[1..], m, h + b.width + b.space, baseline, extra, total)
  {
  }

  /** Word `k` comes after the boxes in front of it and the space that has been given away by then. */
  lemma {:induction false} PlacedAt(boxes: seq<Box>, m: Metrics, h: int, baseline: int, extra: int, total: int, k: nat)
    requires k < |boxes|
    ensures var t := Placed(boxes, m, h, baseline, extra, total)[k];
      && t.h == h + Natural(boxes[..k]) + extra - Leftover(Stretches(boxes[..k]), extra, total)
      && t.word == boxes[k].word && t.width == boxes[k].width && t.font == boxes[k].font
      && t.v == baseline - m.baseline(boxes[k].font)
    decreases |boxes|
  {
    hide Placed;
    PlacedStep(boxes, m, h, baseline, extra, total);
    if k > 0 {
      var b := boxes[0];
      var x := ExtraFor(b.stretch, extra, total);
      assert boxes[..k][0] == b && boxes[..k][1..] == boxes[1..][..k - 1];
      assert Stretches(boxes[..k])[0] == b.stretch && Stretches(boxes[..k])[1..] == Stretches(boxes[1..][..k - 1]);
      hide Stretches;
      if extra > 0 && total > 0 {
        PlacedAt(boxes[1..], m, h + b.width + b.space + x, baseline, extra - x, total - b.stretch, k - 1);
      } else {
        PlacedAt(boxes[1..], m, h + b.width + b.space, baseline, extra, total, k - 1);
        NothingGiven(Stretches(boxes[..k]), extra, total);
        NothingGiven(Stretches(boxes[1..][..k - 1]), extra, total);
      }
    } else {
      assert boxes[..0] == [] && Stretches([]) == [];
    }
  }

  lemma NothingGiven(stretches: seq<int>, extra: int, total: int)
    requires !(extra > 0 && total > 0)
    ensures Leftover(stretches, extra, total) == extra
  {
  }

  lemma {:induction false} NaturalAppend(a: seq<Box>, b: Box)
    ensures Natural(a + [b]) == Natural(a) + b.width + b.space
    decreases |a|
  {
    if a == [] {
      assert [] + [b] == [b] && [b][1..] == [];
    } else {
      assert (a + [b])[1..] == a[1..] + [b];
      NaturalAppend(a[1..], b);
    }
  }

  lemma NaturalLast(boxes: seq<Box>)
    requires boxes != []
    ensures Natural(boxes) == Natural(Front(boxes)) + Last(boxes).width + Last(boxes).space
  {
    assert boxes == Front(boxes) + [Last(boxes)];
    NaturalAppend(Front(boxes), Last(boxes));
  }

  lemma {:induction false} SumAppend(a: seq<int>, x: int)
    ensures Sum(a + [x]) == Sum(a) + x
    decreases |a|
  {
    if a == [] {
      assert [] + [x] == [x] && [x][1..] == [];
    } else {
      assert (a + [x])[1..] == a[1..] + [x];
      SumAppend(a[1..], x);
    }
  }

  // ---- lines ----

  /** A line that has been drawn: `indent` is hang_indent, and `taken` all that tempindent took from the width. */
  datatype Line = Line(
    boxes: seq<Box>, left: int, right: int, indent: int, taken: int, baseline: int,
    fill: bool, center: bool, texts: seq<Text>)

  /** Where the line ends: at the right margin, if no more than one indentation was taken from its width. */
  function Margin(l: Line): int { l.right + l.indent - l.taken }

  function LineStart(l: Line): int { l.left + l.indent }

  /** The space that is missing to the margin. */
  function Missing(l: Line): int
    requires l.boxes != []
  {
    Margin(l) - (LineStart(l) + Natural(l.boxes) - Last(l.boxes).space)
  }

  function Stretch(l: Line): int
    requires l.boxes != []
  {
    Sum(Stretches(Front(l.boxes)))
  }

  /** A line with its words where _flush puts them. */
  predicate Drawn(l: Line, m: Metrics) {
    && l.boxes != []
    && l.texts ==
      if l.center then Placed(l.boxes, m, LineStart(l) + Missing(l) / 2, l.baseline, 0, 0)
      else if l.fill then Placed(l.boxes, m, LineStart(l), l.baseline, Missing(l), Stretch(l))
      else Placed(l.boxes, m, LineStart(l), l.baseline, 0, 0)
  }

  /** Each word but the first was only put on the line because there was room for it. */
  predicate Fitting(boxes: seq<Box>, room: int) {
    forall i :: 0 < i < |boxes| ==> Natural(boxes[..i]) + boxes[i].width <= room
  }

  function RightEdge(t: Text): int { t.h + t.width }

  /** A justified line with positive extra space and stretch ends exactly at its margin, despite the integer divisions,
      if and only if its stretches do no harm; so it is if none of their beginnings overshoots, and with extra space
      for all of the stretch only then.  The line does not pass the right margin exactly if at least as much was taken
      from its width as it is indented by, and ends there exactly if it was the same. */
  lemma JustifiedLineEndsAtMargin(l: Line, m: Metrics)
    requires Drawn(l, m) && l.fill && !l.center && Missing(l) > 0 && Stretch(l) > 0
    ensures var edge := RightEdge(l.texts[|l.boxes| - 1]);
      && (edge == Margin(l) <==> Harmless(Stretches(Front(l.boxes)), Missing(l), Stretch(l)))
      && (NoOvershoot(Stretches(Front(l.boxes)), Stretch(l)) ==> edge == Margin(l))
      && (edge == Margin(l) ==> (edge <= l.right <==> l.taken >= l.indent) && (edge == l.right <==> l.taken == l.indent))
      && (Missing(l) >= Stretch(l) ==> (edge == Margin(l) <==> NoOvershoot(Stretches(Front(l.boxes)), Stretch(l))))
  {
    var n := |l.boxes|;
    PlacedAt(l.boxes, m, LineStart(l), l.baseline, Missing(l), Stretch(l), n - 1);
    NaturalLast(l.boxes);
    var ss := Stretches(Front(l.boxes));
    DistributedExactly(ss, Missing(l), Stretch(l));
    if NoOvershoot(ss, Stretch(l)) { AllIsDistributed(ss, Missing(l), Stretch(l)); }
    if Missing(l) >= Stretch(l) { DistributedIff(ss, Missing(l), Stretch(l)); }
  }

  // ---- what each gap is given ----

  /** A justified line whose words are to be moved apart. */
  predicate Spread(l: Line, m: Metrics) {
    && Drawn(l, m) && l.fill && !l.center && Missing(l) > 0 && Stretch(l) > 0
    && forall k :: 0 <= k < |l.boxes| - 1 ==> l.boxes[k].stretch >= 0
  }

  /** What the words have been moved apart between word `k` and the next one. */
  function Given(l: Line, k: nat): int
    requires k + 1 < |l.boxes| == |l.texts|
  {
    l.texts[k + 1].h - RightEdge(l.texts[k]) - l.boxes[k].space
  }

  /** What of the missing space has not been given in front of word `k`. */
  function StillToGive(l: Line, k: nat): int
    requires k < |l.boxes| == |l.texts|
  {
    Missing(l) - (l.texts[k].h - LineStart(l) - Natural(l.boxes[..k]))
  }

  /** The stretch of the gaps behind word `k`. */
  function StretchBehind(l: Line, k: nat): int
    requires k < |l.boxes|
  {
    Sum(Stretches(Front(l.boxes)[k..]))
  }

  lemma {:induction false} LeftoverNext(ss: seq<int>, s: int, extra: int, total: int)
    requires (forall i :: 0 <= i < |ss| ==> ss[i] >= 0) && s >= 0 && Sum(ss) + s <= total
    requires extra >= 0 && (total == 0 <==> extra == 0)
    ensures var e, t := Leftover(ss, extra, total), total - Sum(ss);
      && e >= 0 && (t == 0 <==> e == 0)
      && Leftover(ss + [s], extra, total) == e - ExtraFor(s, e, t)
    decreases |ss|
  {
    if ss == [] {
      assert (ss + [s])[1..] == [];
    } else {
      assert (ss + [s])[1..] == ss[1..] + [s];
      SumNotNegative(ss[1..]);
      if total > 0 {
        ShareIsSmaller(ss[0], extra, total);
        if ss[0] < total { ShareLeaves(ss[0], extra, total); }
        LeftoverNext(ss[1..], s, extra - ExtraFor(ss[0], extra, total), total - ss[0]);
      }
    }
  }

  /** A share is all there is only if the stretch is. */
  lemma ShareLeaves(stretch: nat, extra: int, total: int)
    requires stretch < total && 0 < extra
    ensures ExtraFor(stretch, extra, total) < extra
  {
    var x := stretch * extra / total;
    DivIs(stretch * extra, total);
    assert (stretch + 1) * extra == stretch * extra + extra;
    Mono(stretch + 1, total, extra);
    if x >= extra { Mono(extra, x, total); }
  }

  lemma {:induction false} SumNotNegative(ss: seq<int>)
    requires forall i :: 0 <= i < |ss| ==> ss[i] >= 0
    ensures Sum(ss) >= 0
    decreases |ss|
  {
    if ss != [] { SumNotNegative(ss[1..]); }
  }

  lemma {:induction false} SumSplit(a: seq<int>, b: seq<int>)
    ensures Sum(a + b) == Sum(a) + Sum(b)
    decreases |a|
  {
    if a == [] {
      assert a + b == b;
    } else {
      assert (a + b)[1..] == a[1..] + b;
      SumSplit(a[1..], b);
    }
  }

  /** The stretch of the gaps in front of word `k` and behind it. */
  lemma StretchSplits(l: Line, k: nat)
    requires k < |l.boxes|
    ensures Stretch(l) == Sum(Stretches(l.boxes[..k])) + StretchBehind(l, k)
    ensures k + 1 < |l.boxes| ==> StretchBehind(l, k) == l.boxes[k].stretch + StretchBehind(l, k + 1)
  {
    var ss := Stretches(Front(l.boxes));
    assert ss == Stretches(l.boxes[..k]) + Stretches(Front(l.boxes)[k..]);
    SumSplit(Stretches(l.boxes[..k]), Stretches(Front(l.boxes)[k..]));
    if k + 1 < |l.boxes| {
      assert Stretches(Front(l.boxes)[k..])[0] == l.boxes[k].stretch;
      assert Stretches(Front(l.boxes)[k..])[1..] == Stretches(Front(l.boxes)[k + 1..]);
    }
  }

  lemma StillToGiveIs(l: Line, m: Metrics, k: nat)
    requires Spread(l, m) && k < |l.boxes|
    ensures |l.texts| == |l.boxes| && l.texts[k].width == l.boxes[k].width
    ensures StillToGive(l, k) == Leftover(Stretches(l.boxes[..k]), Missing(l), Stretch(l))
  {
    PlacedAt(l.boxes, m, LineStart(l), l.baseline, Missing(l), Stretch(l), k);
  }

  lemma GivenIs(l: Line, m: Metrics, k: nat)
    requires Spread(l, m) && k + 1 < |l.boxes|
    ensures |l.texts| == |l.boxes| && Given(l, k) == StillToGive(l, k) - StillToGive(l, k + 1)
  {
    StillToGiveIs(l, m, k);
    StillToGiveIs(l, m, k + 1);
    assert l.boxes[..k + 1] == l.boxes[..k] + [l.boxes[k]];
    NaturalAppend(l.boxes[..k], l.boxes[k]);
  }

  /** Of what has still to be given, a gap is given its part of the stretch that is left, rounded down; nothing is left
      once the stretch is used up, and only then. */
  lemma GapIsShare(l: Line, m: Metrics, k: nat)
    requires Spread(l, m) && k + 1 < |l.boxes|
    ensures |l.texts| == |l.boxes| && Given(l, k) == StillToGive(l, k) - StillToGive(l, k + 1)
    ensures var e, t, s := StillToGive(l, k), StretchBehind(l, k), l.boxes[k].stretch;
      && e >= 0 && t >= s && (t == 0 <==> e == 0) && StretchBehind(l, k + 1) == t - s
      && (t > 0 ==> Given(l, k) * t <= s * e < (Given(l, k) + 1) * t)
      && (t == 0 ==> Given(l, k) == 0)
  {
    hide Placed, Natural, Sum, Leftover, Missing, Stretch, Stretches, StillToGive, StretchBehind, Given, Spread;
    GivenIs(l, m, k);
    StillToGiveIs(l, m, k);
    StillToGiveIs(l, m, k + 1);
    StretchSplits(l, k);
    BehindNotNegative(l, m, k + 1);
    SpreadStretches(l, m, k);
    LeftoverNext(Stretches(l.boxes[..k]), l.boxes[k].stretch, Missing(l), Stretch(l));
    var e, t, s := StillToGive(l, k), StretchBehind(l, k), l.boxes[k].stretch;
    if t > 0 {
      DivIs(s * e, t);
      assert (s * e / t + 1) * t == s * e / t * t + t;
    }
  }

  lemma SpreadStretches(l: Line, m: Metrics, k: nat)
    requires Spread(l, m) && k + 1 < |l.boxes|
    ensures Missing(l) > 0 && Stretch(l) > 0 && l.boxes[k].stretch >= 0
    ensures forall i :: 0 <= i < |Stretches(l.boxes[..k])| ==> Stretches(l.boxes[..k])[i] >= 0
    ensures Stretches(l.boxes[..k + 1]) == Stretches(l.boxes[..k]) + [l.boxes[k].stretch]
  {
    hide Placed, Natural, Sum, Missing, Stretch;
  }

  lemma BehindNotNegative(l: Line, m: Metrics, k: nat)
    requires Spread(l, m) && k < |l.boxes|
    ensures StretchBehind(l, k) >= 0
  {
    SumNotNegative(Stretches(Front(l.boxes)[k..]));
  }

  lemma ProportionalStep(all: int, total: int, e: int, t: int, s: nat, x: int, k: nat)
    requires 0 < total && 0 <= all && s <= t && 0 < t && x * t <= s * e < (x + 1) * t
    requires all * t <= e * total && (if k == 0 then e * total <= all * t else e * total < all * t + k * total)
    ensures all * (t - s) <= (e - x) * total < all * (t - s) + (k + 1) * total
  {
    Expand(e, x, s, t);
    NotLess(all, total, e, t, e - x, t - s);
    NotMore(all, total, e, t, e - x, t - s, k);
  }

  lemma Commute(x: int, y: int, z: int)
    ensures x * y * z == x * z * y
  {
  }

  lemma NotLess(all: int, total: int, e: int, t: int, e': int, t': int)
    requires 0 < total && 0 < t && 0 <= t' && all * t <= e * total && e * t' <= e' * t
    ensures all * t' <= e' * total
  {
    Mono(e * t', e' * t, total);
    Mono(all * t, e * total, t');
    Commute(e, t', total);
    Commute(e', t, total);
    Commute(all, t, t');
    Cancel(all * t', e' * total, t);
  }

  lemma Cancel(x: int, y: int, p: int)
    requires x * p <= y * p && 0 < p
    ensures x <= y
  {
    if y < x { MonoStrict(y, x, p); }
  }

  lemma CancelStrict(x: int, y: int, p: int)
    requires x * p < y * p && 0 < p
    ensures x < y
  {
    if y <= x { Mono(y, x, p); }
  }

  lemma NotMore(all: int, total: int, e: int, t: int, e': int, t': int, k: nat)
    requires 0 < total && 0 < t && 0 <= t' <= t && e * total <= all * t + k * total && e' * t < e * t' + t
    ensures e' * total < all * t' + (k + 1) * total
  {
    MonoStrict(e' * t, e * t' + t, total);
    Distributes(e * t', t, total);
    Mono(e * total, all * t + k * total, t');
    Distributes(all * t, k * total, t');
    NotNegativeProduct(k, total);
    Mono(t', t, k * total);
    Commute(e, t', total);
    Commute(e', t, total);
    Commute(all, t, t');
    Distributes(all * t', k * total + total, t);
    Distributes(k * total, total, t);
    Distributes(k, 1, total);
    CancelStrict(e' * total, all * t' + (k * total + total), t);
  }

  lemma NotNegativeProduct(x: nat, y: nat)
    ensures 0 <= x * y
  {
  }

  lemma Distributes(x: int, y: int, p: int)
    ensures (x + y) * p == x * p + y * p
  {
  }

  lemma MonoStrict(x: int, y: int, p: int)
    requires x < y && p > 0
    ensures x * p < y * p
  {
  }

  lemma Expand(e: int, x: int, s: int, t: int)
    ensures (e - x) * t == e * t - x * t && e * (t - s) == e * t - s * e && (x + 1) * t == x * t + t
  {
  }

  /** The extra space is given in proportion to the stretch: what has not been given in front of a word is the part for the
      stretch behind it, and less than one unit more for each gap in front. */
  lemma {:induction false} GivenInProportion(l: Line, m: Metrics, k: nat)
    requires Spread(l, m) && k < |l.boxes|
    ensures |l.texts| == |l.boxes|
    ensures Missing(l) * StretchBehind(l, k) <= StillToGive(l, k) * Stretch(l)
    ensures if k == 0 then StillToGive(l, k) == Missing(l) && StretchBehind(l, k) == Stretch(l)
      else StillToGive(l, k) * Stretch(l) < Missing(l) * StretchBehind(l, k) + k * Stretch(l)
    decreases k
  {
    hide Missing, Stretch, StillToGive, StretchBehind, Natural, Sum, Given;
    if k == 0 {
      NothingGivenYet(l, m);
    } else {
      GivenInProportion(l, m, k - 1);
      GapIsShare(l, m, k - 1);
      var e, t, s := StillToGive(l, k - 1), StretchBehind(l, k - 1), l.boxes[k - 1].stretch;
      if t > 0 {
        ProportionalStep(Missing(l), Stretch(l), e, t, s, Given(l, k - 1), k - 1);
      } else {
        Mono(1, k, Stretch(l));
      }
    }
  }

  lemma NothingGivenYet(l: Line, m: Metrics)
    requires Spread(l, m)
    ensures |l.texts| == |l.boxes| && StillToGive(l, 0) == Missing(l) && StretchBehind(l, 0) == Stretch(l)
  {
    StillToGiveIs(l, m, 0);
    StretchSplits(l, 0);
    assert l.boxes[..0] == [] && Stretches(l.boxes[..0]) == [];
  }

  /** Past a gap whose stretch is a multiple of `s`, what is still to be given stays within one unit of `q` for each `s`. */
  lemma SlackStep(q: int, s: int, e: int, t: int, stretch: nat, x: int)
    requires 0 < s && 0 < t && stretch <= t && stretch % s == 0
    requires x * t <= stretch * e < (x + 1) * t && e * s < q * t + s
    ensures (e - x) * s < q * (t - stretch) + s
  {
    Expand(e, x, stretch, t);
    if e * s <= q * t {
      NotMore(q, s, e, t, e - x, t - stretch, 0);
    } else {
      Whole(stretch, s);
      SlackMultiple(q, s, e, t, stretch / s, x);
    }
  }

  lemma SlackMultiple(q: int, s: int, e: int, t: int, c: nat, x: int)
    requires 0 < s && 0 < t && c * s * e < (x + 1) * t && q * t <= e * s < q * t + s
    ensures (e - x) * s < q * (t - c * s) + s
  {
    Mono(q * t, e * s, c);
    Commute(q, t, c);
    Turn(e, s, c);
    CancelStrict(q * c, x + 1, t);
    Mono(q * c, x, s);
    Apart(e, x, s);
    Apart(t, c * s, q);
    Turn(t, 1, q);
    Turn(q, c, s);
    Turn(c, s, q);
    Commute(s, c, q);
    Turn(c * s, 1, q);
    Turn(t - c * s, 1, q);
  }

  lemma Turn(x: int, y: int, z: int)
    ensures x * y * z == z * y * x
  {
  }

  lemma Apart(x: int, y: int, p: int)
    ensures (x - y) * p == x * p - y * p
  {
  }

  lemma Whole(n: nat, s: int)
    requires s > 0 && n % s == 0
    ensures n == n / s * s && n / s >= 0
  {
  }

  /** What is still to be given for each unit of stretch only grows, and less than one unit for each gap. */
  lemma {:induction false} RatioGrows(l: Line, m: Metrics, i: nat, k: nat, q: int, s: int)
    requires Spread(l, m) && i <= k && k + 1 < |l.boxes| && 0 < s <= StretchBehind(l, k)
    requires |l.texts| == |l.boxes| && q * StretchBehind(l, i) <= StillToGive(l, i) * s < (q + 1) * StretchBehind(l, i)
    ensures StretchBehind(l, i) >= s
    ensures q * StretchBehind(l, k) <= StillToGive(l, k) * s < (q + 1) * StretchBehind(l, k) + (k - i) * s
    ensures (forall j :: i <= j < k ==> l.boxes[j].stretch % s == 0) ==>
      StillToGive(l, k) * s < (q + 1) * StretchBehind(l, k) + s
    decreases k
  {
    hide StillToGive, StretchBehind, Given, Stretches, Natural, Sum, Placed, Leftover;
    if k > i {
      GapIsShare(l, m, k - 1);
      RatioGrows(l, m, i, k - 1, q, s);
      var e, t, stretch, x := StillToGive(l, k - 1), StretchBehind(l, k - 1), l.boxes[k - 1].stretch, Given(l, k - 1);
      Expand(e, x, stretch, t);
      NotLess(q, s, e, t, e - x, t - stretch);
      NotMore(q + 1, s, e, t, e - x, t - stretch, k - 1 - i);
      if forall j :: i <= j < k ==> l.boxes[j].stretch % s == 0 { SlackStep(q + 1, s, e, t, stretch, x); }
    }
  }

  /** Of two gaps of equal stretch the one behind is given as much or more, at most one unit more for each step from the one
      to the other; and at most one unit more altogether if the stretches of the gaps between are multiples of theirs. */
  lemma EqualGaps(l: Line, m: Metrics, i: nat, j: nat)
    requires Spread(l, m) && i < j && j + 1 < |l.boxes| && l.boxes[i].stretch == l.boxes[j].stretch
    ensures |l.texts| == |l.boxes| && Given(l, i) <= Given(l, j) <= Given(l, i) + (j - i)
    ensures var s := l.boxes[i].stretch;
      (s > 0 ==> forall k :: i < k < j ==> l.boxes[k].stretch % s == 0) ==> Given(l, j) <= Given(l, i) + 1
  {
    hide StillToGive, StretchBehind, Given, Stretches, Natural, Sum, Placed, Leftover;
    var s := l.boxes[i].stretch;
    GapIsShare(l, m, i);
    GapIsShare(l, m, j);
    var q, x, e, t := Given(l, i), Given(l, j), StillToGive(l, j), StretchBehind(l, j);
    if s == 0 {
      NoShare(l, m, i);
      NoShare(l, m, j);
    } else {
      BehindShrinks(l, m, i, j);
      RatioGrows(l, m, i, j, q, s);
      CancelStrict(q, x + 1, t);
      Mono(s, t, j - i);
      Turn(s, 1, j - i);
      Turn(t, 1, j - i);
      Distributes(q + 1, j - i, t);
      CancelStrict(x, q + 1 + (j - i), t);
      if forall k :: i < k < j ==> l.boxes[k].stretch % s == 0 {
        assert s % s == 0;
        Distributes(q + 1, 1, t);
        CancelStrict(x, q + 2, t);
      }
    }
  }

  lemma NoShare(l: Line, m: Metrics, k: nat)
    requires Spread(l, m) && k + 1 < |l.boxes| && l.boxes[k].stretch == 0
    ensures |l.texts| == |l.boxes| && Given(l, k) == 0
  {
    hide StillToGive, StretchBehind, Given;
    GapIsShare(l, m, k);
    var x, t := Given(l, k), StretchBehind(l, k);
    if t > 0 {
      CancelStrict(0, x + 1, t);
      Cancel(x, 0, t);
    }
  }

  lemma {:induction false} BehindShrinks(l: Line, m: Metrics, i: nat, j: nat)
    requires Spread(l, m) && i <= j && j + 1 < |l.boxes|
    ensures StretchBehind(l, j) <= StretchBehind(l, i)
    decreases j
  {
    hide StretchBehind;
    if i < j {
      BehindShrinks(l, m, i, j - 1);
      GapIsShare(l, m, j - 1);
    }
  }

  // ---- and that is exact ----

  function GapBoxes(stretches: seq<int>, font: Font): (r: seq<Box>)
    ensures |r| == |stretches| + 1 && forall i :: 0 <= i < |r| ==> r[i].width == r[i].space == 0
    ensures forall i :: 0 <= i < |stretches| ==> r[i].stretch == stretches[i]
  {
    seq(|stretches|, i requires 0 <= i < |stretches| => Box(font, "", 0, 0, stretches[i])) + [Box(font, "", 0, 0, 0)]
  }

  /** The gaps of words without width and space, and of one word more, are spread over a line of width `extra`. */
  function GapLine(stretches: seq<int>, extra: int, m: Metrics, font: Font): Line {
    var boxes := GapBoxes(stretches, font);
    Line(boxes, 0, extra, 0, 0, 0, true, false, Placed(boxes, m, 0, 0, extra, Sum(stretches)))
  }

  lemma {:induction false} NothingNatural(boxes: seq<Box>)
    requires forall i :: 0 <= i < |boxes| ==> boxes[i].width == boxes[i].space == 0
    ensures Natural(boxes) == 0
    decreases |boxes|
  {
    if boxes != [] { NothingNatural(boxes[1..]); }
  }

  lemma GapLineIsSpread(stretches: seq<int>, extra: int, m: Metrics, font: Font)
    requires extra > 0 && Sum(stretches) > 0 && forall i :: 0 <= i < |stretches| ==> stretches[i] >= 0
    ensures var l := GapLine(stretches, extra, m, font); Spread(l, m) && Stretches(Front(l.boxes)) == stretches && Missing(l) == extra
  {
    hide Placed, Natural, Sum, GapBoxes;
    var l := GapLine(stretches, extra, m, font);
    NothingNatural(l.boxes);
    assert Stretches(Front(l.boxes)) == stretches;
  }

  /** Two units for the stretches 2, 1 and 2: the first gap gets nothing and the last one both. */
  lemma UnequalGaps(m: Metrics, font: Font)
    ensures var l := GapLine([2, 1, 2], 2, m, font);
      && Spread(l, m) && l.boxes[0].stretch == l.boxes[2].stretch == 2 && Missing(l) == 2
      && |l.texts| == 4 && Given(l, 0) == 0 && Given(l, 1) == 0 && Given(l, 2) == 2
  {
    hide Placed, Natural, Leftover, GapBoxes, StillToGive, Given;
    var ss := [2, 1, 2];
    assert ss[1..] == [1, 2] && [1, 2][1..] == [2] && [2][1..] == [];
    assert Sum(ss) == 5;
    var l := GapLine(ss, 2, m, font);
    GapLineIsSpread(ss, 2, m, font);
    NothingGivenYet(l, m);
    GapIsShare(l, m, 0);
    GapIsShare(l, m, 1);
    GapIsShare(l, m, 2);
  }

  /** In a line where the first gap gets nothing for a stretch of `s`, and a gap that is no multiple of it lies between,
      more than one unit is left for the last gap. */
  lemma {:induction false} FallsBehind(l: Line, m: Metrics, s: int, k: nat)
    requires Spread(l, m) && s > 0 && k + 1 < |l.boxes| && 0 < k && l.boxes[0].stretch == s && StretchBehind(l, k) > 0
    requires Missing(l) == (Stretch(l) - 1) / s
    ensures |l.texts| == |l.boxes| && Given(l, 0) == 0 && StillToGive(l, k) * s >= StretchBehind(l, k)
    ensures (exists i :: 0 < i < k && l.boxes[i].stretch % s != 0) ==> StillToGive(l, k) * s > StretchBehind(l, k)
    decreases k
  {
    hide StillToGive, StretchBehind, Given, Stretches, Natural, Sum, Placed, Leftover, Missing, Stretch;
    if k == 1 {
      FirstGetsNothing(l, m, s);
    } else {
      GapIsShare(l, m, k - 1);
      FallsBehind(l, m, s, k - 1);
      BehindStep(StillToGive(l, k - 1), StretchBehind(l, k - 1), s, l.boxes[k - 1].stretch, Given(l, k - 1));
    }
  }

  lemma FirstGetsNothing(l: Line, m: Metrics, s: int)
    requires Spread(l, m) && s > 0 && 2 < |l.boxes| && l.boxes[0].stretch == s && Missing(l) == (Stretch(l) - 1) / s
    ensures |l.texts| == |l.boxes| && Given(l, 0) == 0 && StillToGive(l, 1) * s >= StretchBehind(l, 1)
  {
    hide StillToGive, StretchBehind, Given, Stretches, Natural, Sum, Placed, Leftover, Missing, Stretch;
    NothingGivenYet(l, m);
    GapIsShare(l, m, 0);
    var e, t, x := Missing(l), Stretch(l), Given(l, 0);
    DivIs(t - 1, s);
    CancelStrict(x, 1, t);
    CancelStrict(0, x + 1, t);
    assert (e + 1) * s == e * s + s;
  }

  lemma BehindStep(e: int, t: int, s: int, stretch: nat, x: int)
    requires s > 0 && 0 < t && stretch < t && x * t <= stretch * e < (x + 1) * t && e * s >= t
    ensures (e - x) * s >= t - stretch
    ensures e * s > t || stretch % s != 0 ==> (e - x) * s > t - stretch
  {
    Expand(e, x, stretch, t);
    NotLess(1, s, e, t, e - x, t - stretch);
    if e * s > t {
      BehindStrictly(e, t, s, e - x, t - stretch);
    } else if stretch % s != 0 {
      Commute(x, e, s);
      Mono(x * t, stretch * e, s);
      Commute(x, t, s);
      Commute(stretch, e, s);
      assert x * s * t <= stretch * s * e;
      assert stretch * s * e == stretch * t;
      Cancel(x * s, stretch, t);
      if x * s == stretch { MultipleIs(x, s); }
      Expand(e, x, stretch, s);
    }
  }

  lemma MultipleIs(x: int, s: int)
    requires s > 0
    ensures x * s % s == 0
  {
    var n, c := x * s, x * s / s;
    DivIs(n, s);
    Cancel(c, x, s);
    Distributes(c, 1, s);
    CancelStrict(x, c + 1, s);
    Remainder(n, s);
  }

  lemma Remainder(n: int, s: int)
    requires s > 0
    ensures n == n / s * s + n % s
  {
  }

  lemma BehindStrictly(e: int, t: int, s: int, e': int, t': int)
    requires 0 < s && 0 < t && 0 < t' && e * s > t && e * t' <= e' * t
    ensures e' * s > t'
  {
    Mono(e * t', e' * t, s);
    Commute(e, t', s);
    Commute(e', t, s);
    MonoStrict(t, e * s, t');
    CancelStrict(t', e' * s, t);
  }

  /** All gaps of stretch `s` with the gaps `mid` between them differ by one unit at most, on all lines, exactly if the
      stretches between are multiples of `s`. */
  lemma EqualGapsIff(s: int, mid: seq<int>, m: Metrics, font: Font)
    requires s > 0 && forall k :: 0 <= k < |mid| ==> mid[k] >= 0
    ensures (forall l: Line, i: nat, j: nat :: Between(l, m, i, j, s, mid) ==> -1 <= Given(l, j) - Given(l, i) <= 1)
      <==> forall k :: 0 <= k < |mid| ==> mid[k] % s == 0
  {
    if forall k :: 0 <= k < |mid| ==> mid[k] % s == 0 {
      forall l: Line, i: nat, j: nat | Between(l, m, i, j, s, mid) ensures -1 <= Given(l, j) - Given(l, i) <= 1 {
        forall k | i < k < j ensures l.boxes[k].stretch % s == 0 { assert l.boxes[k].stretch == mid[k - i - 1]; }
        EqualGaps(l, m, i, j);
      }
    } else {
      var l := WideApart(s, mid, m, font);
      assert Between(l, m, 0, |mid| + 1, s, mid);
    }
  }

  /** Gaps `i` and `j` have stretch `s`, and those between them are `mid`. */
  ghost predicate Between(l: Line, m: Metrics, i: nat, j: nat, s: int, mid: seq<int>) {
    && Spread(l, m) && j == i + |mid| + 1 && j + 1 < |l.boxes| == |l.texts|
    && l.boxes[i].stretch == s && l.boxes[j].stretch == s
    && forall k :: 0 <= k < |mid| ==> l.boxes[i + 1 + k].stretch == mid[k]
  }

  lemma WideApart(s: int, mid: seq<int>, m: Metrics, font: Font) returns (l: Line)
    requires s > 0 && (forall k :: 0 <= k < |mid| ==> mid[k] >= 0) && exists k :: 0 <= k < |mid| && mid[k] % s != 0
    ensures Between(l, m, 0, |mid| + 1, s, mid) && Given(l, |mid| + 1) - Given(l, 0) > 1
  {
    hide Placed, Natural, Leftover;
    var ss, j := [s] + mid + [s], |mid| + 1;
    SumSplit([s] + mid, [s]);
    SumSplit([s], mid);
    SumNotNegative(mid);
    assert Sum([s]) == s by { assert [s][1..] == []; }
    var extra := (Sum(ss) - 1) / s;
    DivIs(Sum(ss) - 1, s);
    Distributes(extra, 1, s);
    CancelStrict(1, extra + 1, s);
    l := GapLine(ss, extra, m, font);
    GapLineIsSpread(ss, extra, m, font);
    LastGap(l, m, j);
    var k :| 0 <= k < |mid| && mid[k] % s != 0;
    assert l.boxes[k + 1].stretch % s != 0;
    FallsBehind(l, m, s, j);
    CancelStrict(1, StillToGive(l, j), s);
  }

  /** The last gap is given all that is left. */
  lemma LastGap(l: Line, m: Metrics, j: nat)
    requires Spread(l, m) && j + 2 == |l.boxes| && l.boxes[j].stretch > 0
    ensures |l.texts| == |l.boxes| && StretchBehind(l, j) == l.boxes[j].stretch && Given(l, j) == StillToGive(l, j)
  {
    hide Placed, Natural, Leftover, Missing;
    GapIsShare(l, m, j);
    assert Front(l.boxes)[j + 1..] == [] && Stretches([]) == [];
    var e, t, x := StillToGive(l, j), StretchBehind(l, j), Given(l, j);
    assert t == l.boxes[j].stretch;
    assert t * e == e * t;
    Cancel(x, e, t);
    CancelStrict(e, x + 1, t);
  }

  /** The space on the two sides of a centered line differs by one at most. */
  lemma CenteredLine(l: Line, m: Metrics)
    requires Drawn(l, m) && l.center
    ensures var before := l.texts[0].h - LineStart(l); var after := Margin(l) - RightEdge(l.texts[|l.boxes| - 1]);
      before == after || after == before + 1
  {
    var h := LineStart(l) + Missing(l) / 2;
    PlacedAt(l.boxes, m, h, l.baseline, 0, 0, |l.boxes| - 1);
    PlacedAt(l.boxes, m, h, l.baseline, 0, 0, 0);
    assert l.boxes[..0] == [];
    NaturalLast(l.boxes);
    NothingGiven(Stretches(Front(l.boxes)), 0, 0);
    NothingGiven(Stretches(l.boxes[..0]), 0, 0);
  }

  predicate Ordinary(boxes: seq<Box>) {
    forall i :: 0 <= i < |boxes| ==> boxes[i].space >= 0 && boxes[i].stretch >= 0
  }

  /** Words do not overlap: each one starts behind the one before it and its space. */
  lemma {:induction false} WordsInOrder(boxes: seq<Box>, m: Metrics, h: int, baseline: int, extra: int, total: int, k: nat)
    requires Ordinary(boxes) && 0 < k < |boxes| && total == Sum(Stretches(Front(boxes)))
    ensures var ts := Placed(boxes, m, h, baseline, extra, total);
      RightEdge(ts[k - 1]) + boxes[k - 1].space <= ts[k].h
    decreases |boxes|
  {
    var b := boxes[0];
    var x := ExtraFor(b.stretch, extra, total);
    var rest := boxes[1..];
    SharesAreNotNegative(boxes, total);
    if extra > 0 && total > 0 {
      ShareIsSmaller(b.stretch, extra, total);
      assert Stretches(Front(boxes))[0] == b.stretch && Stretches(Front(boxes))[1..] == Stretches(Front(rest));
      if k > 1 { WordsInOrder(rest, m, h + b.width + b.space + x, baseline, extra - x, total - b.stretch, k - 1); }
    } else {
      NoExtraInOrder(boxes, m, h, baseline, extra, total, k);
    }
  }

  lemma SharesAreNotNegative(boxes: seq<Box>, total: int)
    requires Ordinary(boxes) && |boxes| > 1 && total == Sum(Stretches(Front(boxes)))
    ensures total >= 0 && boxes[0].stretch <= total
  {
    var ss := Stretches(Front(boxes));
    NoneNegative(ss, total);
    NoneNegative(ss[1..], total - ss[0]);
  }

  lemma NoExtraInOrder(boxes: seq<Box>, m: Metrics, h: int, baseline: int, extra: int, total: int, k: nat)
    requires 0 < k < |boxes| && !(extra > 0 && total > 0)
    ensures var ts := Placed(boxes, m, h, baseline, extra, total);
      RightEdge(ts[k - 1]) + boxes[k - 1].space <= ts[k].h
  {
    PlacedAt(boxes, m, h, baseline, extra, total, k - 1);
    PlacedAt(boxes, m, h, baseline, extra, total, k);
    NothingGiven(Stretches(boxes[..k - 1]), extra, total);
    NothingGiven(Stretches(boxes[..k]), extra, total);
    assert Front(boxes[..k]) == boxes[..k - 1];
    NaturalLast(boxes[..k]);
  }

  /** No word crosses the margin, unless it is the first on its line and too wide by itself. */
  lemma {:induction false} NoWordCrosses(l: Line, m: Metrics, k: nat)
    requires Drawn(l, m) && Ordinary(l.boxes) && Fitting(l.boxes, Margin(l) - LineStart(l)) && k < |l.boxes|
    ensures RightEdge(l.texts[k]) <= Margin(l) || (k == 0 && l.boxes[0].width > Margin(l) - LineStart(l))
    decreases |l.boxes| - k
  {
    var n := |l.boxes|;
    if k < n - 1 {
      NoWordCrosses(l, m, k + 1);
      if l.fill && !l.center {
        WordsInOrder(l.boxes, m, LineStart(l), l.baseline, Missing(l), Stretch(l), k + 1);
      } else {
        NoExtraInOrder(l.boxes, m, if l.center then LineStart(l) + Missing(l) / 2 else LineStart(l), l.baseline, 0, 0, k + 1);
      }
    } else {
      LastWordFits(l, m);
    }
  }

  lemma {:induction false} LastWordFits(l: Line, m: Metrics)
    requires Drawn(l, m) && Ordinary(l.boxes) && Fitting(l.boxes, Margin(l) - LineStart(l))
    ensures var n := |l.boxes|;
      RightEdge(l.texts[n - 1]) <= Margin(l) || (n == 1 && l.boxes[0].width > Margin(l) - LineStart(l))
  {
    var n := |l.boxes|;
    NaturalLast(l.boxes);
    assert l.boxes[..n - 1] == Front(l.boxes);
    var ss := Stretches(Front(l.boxes));
    assert n == 1 ==> Natural(Front(l.boxes)) == 0;
    if l.fill && !l.center {
      PlacedAt(l.boxes, m, LineStart(l), l.baseline, Missing(l), Stretch(l), n - 1);
      NoneNegative(ss, Stretch(l));
      if Missing(l) > 0 && Stretch(l) > 0 {
        AllIsDistributed(ss, Missing(l), Stretch(l));
      } else {
        NothingGiven(ss, Missing(l), Stretch(l));
      }
    } else {
      PlacedAt(l.boxes, m, if l.center then LineStart(l) + Missing(l) / 2 else LineStart(l), l.baseline, 0, 0, n - 1);
      NothingGiven(ss, 0, 0);
    }
  }

  /** Lines of a certain indentation, from whose width so much was taken, with words that fit. */
  ghost predicate Set(l: Line, m: Metrics, left: int, right: int, indent: int, taken: int) {
    && l.left == left && l.right == right && l.indent == indent && l.taken == taken
    && Drawn(l, m) && Ordinary(l.boxes) && Fitting(l.boxes, right - left - taken) && l.boxes[0].width <= right - left - taken
  }

  /** The words of all such lines stay in front of the right margin exactly if at least as much was taken from the width
      as the lines are indented by. */
  lemma RightMarginIsKept(m: Metrics, left: int, right: int, indent: int, taken: int, font: Font)
    requires taken <= right - left
    ensures (forall l, k :: Set(l, m, left, right, indent, taken) && 0 <= k < |l.texts| ==> RightEdge(l.texts[k]) <= right)
      <==> taken >= indent
  {
    if taken >= indent {
      forall l, k | Set(l, m, left, right, indent, taken) && 0 <= k < |l.texts| ensures RightEdge(l.texts[k]) <= right {
        NoWordCrosses(l, m, k);
      }
    } else {
      var l := FullLine(m, left, right, indent, taken, font);
      assert RightEdge(l.texts[0]) > right;
    }
  }

  /** One word as wide as the line. */
  lemma FullLine(m: Metrics, left: int, right: int, indent: int, taken: int, font: Font) returns (l: Line)
    requires taken <= right - left
    ensures Set(l, m, left, right, indent, taken) && |l.texts| == 1 && RightEdge(l.texts[0]) == right + indent - taken
  {
    var boxes := [Box(font, "", right - left - taken, 0, 0)];
    l := Line(boxes, left, right, indent, taken, 0, false, false, Placed(boxes, m, left + indent, 0, 0, 0));
    PlacedStep(boxes, m, left + indent, 0, 0, 0);
  }

  // ---- the formatter ----

  function TextsOf(lines: seq<Line>): seq<Text>
    decreases |lines|
  {
    if lines == [] then [] else TextsOf(lines[..|lines| - 1]) + lines[|lines| - 1].texts
  }

  function WordsOf(texts: seq<Text>): seq<string> { seq(|texts|, i requires 0 <= i < |texts| => texts[i].word) }

  function BoxWords(boxes: seq<Box>): seq<string> { seq(|boxes|, i requires 0 <= i < |boxes| => boxes[i].word) }

  function Larger(a: int, b: int): int { if a > b then a else b }

  function TotalWidth(boxes: seq<Box>): int
    decreases |boxes|
  {
    if boxes == [] then 0 else TotalWidth(boxes[..|boxes| - 1]) + boxes[|boxes| - 1].width
  }

  function TotalSpace(boxes: seq<Box>): int
    decreases |boxes|
  {
    if boxes == [] then 0 else TotalSpace(boxes[..|boxes| - 1]) + boxes[|boxes| - 1].space
  }

  lemma {:induction false} NaturalIsTotal(boxes: seq<Box>)
    ensures Natural(boxes) == TotalWidth(boxes) + TotalSpace(boxes)
    decreases |boxes|
  {
    if boxes != [] {
      NaturalLast(boxes);
      NaturalIsTotal(Front(boxes));
    }
  }

  /** How far the words of a line reach above its baseline. */
  function Ascent(boxes: seq<Box>, m: Metrics): (r: int)
    ensures r >= 0
    decreases |boxes|
  {
    if boxes == [] then 0 else Larger(m.baseline(Last(boxes).font), Ascent(Front(boxes), m))
  }

  /** How far they reach below it. */
  function Descent(boxes: seq<Box>, m: Metrics): (r: int)
    ensures r >= 0
    decreases |boxes|
  {
    if boxes == [] then 0
    else Larger(m.lineheight(Last(boxes).font) - m.baseline(Last(boxes).font), Descent(Front(boxes), m))
  }

  lemma TallerBy(boxes: seq<Box>, b: Box, m: Metrics, space: nat, ascent: nat, descent: int)
    requires FontKnown(m, b.font, space, ascent, descent)
    ensures Ascent(boxes + [b], m) == Larger(ascent, Ascent(boxes, m))
    ensures Descent(boxes + [b], m) == Larger(descent, Descent(boxes, m))
  {
    assert Front(boxes + [b]) == boxes;
  }

  lemma {:induction false} NoneHigher(boxes: seq<Box>, m: Metrics, k: nat)
    requires k < |boxes|
    ensures m.baseline(boxes[k].font) <= Ascent(boxes, m)
    ensures m.lineheight(boxes[k].font) - m.baseline(boxes[k].font) <= Descent(boxes, m)
    decreases |boxes|
  {
    if k < |boxes| - 1 { NoneHigher(Front(boxes), m, k); }
  }

  /** All words of a line lie between its top and its bottom, whatever fonts are mixed on it. */
  lemma WordsWithinLine(l: Line, m: Metrics, top: int, k: nat)
    requires Drawn(l, m) && l.baseline == top + Ascent(l.boxes, m) && k < |l.boxes|
    ensures top <= l.texts[k].v
    ensures l.texts[k].v + m.lineheight(l.texts[k].font) <= l.baseline + Descent(l.boxes, m)
  {
    NoneHigher(l.boxes, m, k);
    if l.center {
      PlacedAt(l.boxes, m, LineStart(l) + Missing(l) / 2, l.baseline, 0, 0, k);
    } else if l.fill {
      PlacedAt(l.boxes, m, LineStart(l), l.baseline, Missing(l), Stretch(l), k);
    } else {
      PlacedAt(l.boxes, m, LineStart(l), l.baseline, 0, 0, k);
    }
  }

  /** And no more room than that: some word reaches up to the top, and some word down to the bottom, unless its baseline is
      there already. */
  lemma {:induction false} LineIsTight(boxes: seq<Box>, m: Metrics)
    ensures Ascent(boxes, m) == 0 || exists k :: 0 <= k < |boxes| && m.baseline(boxes[k].font) == Ascent(boxes, m)
    ensures Descent(boxes, m) == 0 ||
      exists k :: 0 <= k < |boxes| && m.lineheight(boxes[k].font) - m.baseline(boxes[k].font) == Descent(boxes, m)
    decreases |boxes|
  {
    if boxes != [] {
      LineIsTight(Front(boxes), m);
      var b := boxes[|boxes| - 1];
      assert forall k :: 0 <= k < |boxes| - 1 ==> boxes[k] == Front(boxes)[k];
    }
  }

  /** The words of a line that has been drawn are those of its boxes, each once and in order. */
  lemma {:induction false} PlacedWords(boxes: seq<Box>, m: Metrics, h: int, baseline: int, extra: int, total: int)
    ensures WordsOf(Placed(boxes, m, h, baseline, extra, total)) == BoxWords(boxes)
  {
    forall k | 0 <= k < |boxes| ensures Placed(boxes, m, h, baseline, extra, total)[k].word == boxes[k].word {
      PlacedAt(boxes, m, h, baseline, extra, total, k);
    }
  }

  /** The sums that are kept for the boxes of a line. */
  predicate Summed(boxes: seq<Box>, sumWidth: int, sumSpace: int, sumStretch: int, availWidth: int, room: int) {
    && sumWidth == TotalWidth(boxes) && sumSpace == TotalSpace(boxes) && sumStretch == Sum(Stretches(boxes))
    && availWidth == room - Natural(boxes)
  }

  lemma NothingSummed(room: int)
    ensures Summed([], 0, 0, 0, room, room) && Fitting([], room) && BoxWords([]) == []
  {
  }

  lemma RoomLeft(boxes: seq<Box>, sumWidth: int, sumSpace: int, sumStretch: int, availWidth: int, room: int)
    requires Summed(boxes, sumWidth, sumSpace, sumStretch, availWidth, room)
    ensures availWidth == room - Natural(boxes) && sumStretch == Sum(Stretches(boxes))
  {
  }

  lemma SummedAppend(boxes: seq<Box>, box: Box, sumWidth: int, sumSpace: int, sumStretch: int, availWidth: int, room: int)
    requires Summed(boxes, sumWidth, sumSpace, sumStretch, availWidth, room)
    ensures Summed(boxes + [box], sumWidth + box.width, sumSpace + box.space, sumStretch + box.stretch,
      availWidth - box.width - box.space, room)
  {
    assert (boxes + [box])[..|boxes|] == boxes;
    assert Stretches(boxes + [box]) == Stretches(boxes) + [box.stretch];
    SumAppend(Stretches(boxes), box.stretch);
    NaturalAppend(boxes, box);
  }

  predicate AllDrawn(lines: seq<Line>, m: Metrics) {
    forall i :: 0 <= i < |lines| ==> Drawn(lines[i], m) && Fitting(lines[i].boxes, Margin(lines[i]) - LineStart(lines[i]))
  }

  /** What has been drawn are the lines; with what is waiting, these are all the words that were added. */
  predicate History(lines: seq<Line>, m: Metrics, drawn: seq<Text>, boxes: seq<Box>, fed: seq<string>) {
    && AllDrawn(lines, m)
    && drawn == TextsOf(lines)
    && fed == WordsOf(drawn) + BoxWords(boxes)
  }

  lemma LineAdded(lines: seq<Line>, m: Metrics, drawn: seq<Text>, boxes: seq<Box>, fed: seq<string>, l: Line)
    requires History(lines, m, drawn, boxes, fed) && l.boxes == boxes
    requires Drawn(l, m) && Fitting(l.boxes, Margin(l) - LineStart(l))
    ensures History(lines + [l], m, drawn + l.texts, [], fed)
  {
    hide AllDrawn, TextsOf, WordsOf, BoxWords, Drawn, Fitting;
    OneMoreDrawn(lines, l, m);
    DrawnWords(l, m);
    WordsAppend(drawn, l.texts);
  }

  lemma WordsAppend(a: seq<Text>, b: seq<Text>)
    ensures WordsOf(a + b) == WordsOf(a) + WordsOf(b) && WordsOf(a + b) + BoxWords([]) == WordsOf(a + b)
  {
  }

  lemma DrawnWords(l: Line, m: Metrics)
    requires Drawn(l, m)
    ensures WordsOf(l.texts) == BoxWords(l.boxes)
  {
    var e, s := if l.fill && !l.center then Missing(l) else 0, if l.fill && !l.center then Stretch(l) else 0;
    PlacedWords(l.boxes, m, LineStart(l) + (if l.center then Missing(l) / 2 else 0), l.baseline, e, s);
  }

  lemma WordAdded(lines: seq<Line>, m: Metrics, drawn: seq<Text>, boxes: seq<Box>, fed: seq<string>, b: Box)
    requires History(lines, m, drawn, boxes, fed)
    ensures History(lines, m, drawn, boxes + [b], fed + [b.word])
  {
    BoxWordsAppend(boxes, b);
    assert WordsOf(drawn) + (BoxWords(boxes) + [b.word]) == WordsOf(drawn) + BoxWords(boxes) + [b.word];
  }

  lemma OneMoreDrawn(lines: seq<Line>, l: Line, m: Metrics)
    requires AllDrawn(lines, m) && Drawn(l, m) && Fitting(l.boxes, Margin(l) - LineStart(l))
    ensures AllDrawn(lines + [l], m) && TextsOf(lines + [l]) == TextsOf(lines) + l.texts
  {
    assert (lines + [l])[..|lines|] == lines;
  }

  /** What is remembered of the current font. */
  predicate FontKnown(m: Metrics, font: Font, space: nat, ascent: nat, descent: int) {
    space == m.width(font, " ") && ascent == m.baseline(font) && descent == m.lineheight(font) - m.baseline(font)
  }

  class Formatter {
    const m: Metrics
    var left: int
    var right: int
    var v: int
    var center: bool
    var justify: bool
    var font: Font
    var fontSpace: nat
    var fontAscent: nat
    var fontDescent: int
    var boxes: seq<Box>
    var sumWidth: int
    var sumSpace: int
    var sumStretch: int
    var maxAscent: int
    var maxDescent: int
    var availWidth: int
    var hangIndent: int
    var drawFont: Font
    var drawn: seq<Text>
    ghost var taken: int
    ghost var lines: seq<Line>
    ghost var fed: seq<string>

    /** What a line is made of: all the sums, and each word but the first only where there was room. */
    ghost predicate Valid()
      reads this
    {
      && Summed(boxes, sumWidth, sumSpace, sumStretch, availWidth, right - left - taken)
      && Fitting(boxes, right - left - taken)
      && drawFont == font && maxAscent == Ascent(boxes, m) && maxDescent == Descent(boxes, m)
      && FontKnown(m, font, fontSpace, fontAscent, fontDescent)
      && History(lines, m, drawn, boxes, fed)
    }

    /** The top of the next line. */
    function Below(): int
      reads this
    {
      v + if boxes == [] then 0 else maxAscent + maxDescent
    }

    constructor (m: Metrics, left: int, top: int, right: int)
      ensures Valid() && this.m == m && fed == [] && lines == [] && boxes == []
      ensures this.left == left && this.right == right && v == top && !center && justify && taken == hangIndent == 0
      ensures font == m.plain
    {
      this.m, this.left, this.right, v, center, justify := m, left, right, top, false, true;
      hide Summed, Fitting;
      NothingSummed(right - left);
      assert WordsOf([]) + BoxWords([]) == [];
      font, drawFont := m.plain, m.plain;
      fontSpace, fontAscent := m.width(m.plain, " "), m.baseline(m.plain);
      fontDescent := m.lineheight(m.plain) - m.baseline(m.plain);
      boxes, sumWidth, sumSpace, sumStretch, maxAscent, maxDescent := [], 0, 0, 0, 0, 0;
      availWidth, hangIndent, taken := right - left, 0, 0;
      drawn, lines, fed := [], [], [];
    }

    /** Nothing is waiting, and the next line has its full width. */
    method Reset()
      modifies this
      ensures unchanged(`left, `right, `v, `center, `justify, `font, `fontSpace, `fontAscent, `fontDescent)
      ensures unchanged(`drawFont, `drawn, `lines, `fed)
      ensures boxes == [] && sumWidth == sumSpace == sumStretch == maxAscent == maxDescent == 0
      ensures availWidth == right - left && hangIndent == 0 && taken == 0
    {
      boxes, sumWidth, sumSpace, sumStretch, maxAscent, maxDescent := [], 0, 0, 0, 0, 0;
      availWidth, hangIndent, taken := right - left, 0, 0;
    }

    method SetFont(font: Font)
      requires Valid()
      modifies this`font, this`drawFont, this`fontSpace, this`fontAscent, this`fontDescent
      ensures Valid() && this.font == font
    {
      hide Summed, Fitting, History;
      this.font, drawFont := font, font;
      fontSpace := m.width(drawFont, " ");
      fontAscent := m.baseline(drawFont);
      fontDescent := m.lineheight(drawFont) - fontAscent;
    }

    method AddWord(word: string, spaceFactor: real)
      requires Valid()
      modifies this
      ensures Valid() && fed == old(fed) + [word]
      ensures boxes != [] && Last(boxes) == Box(old(font), word, m.width(old(font), word),
          Scaled(old(fontSpace), spaceFactor), Scaled(old(fontSpace), spaceFactor))
    {
      AddWordStretch(word, spaceFactor, spaceFactor);
    }

    /** One more word to be drawn; if there is no room for it, the boxes that are waiting become a justified line before. */
    method AddWordStretch(word: string, spaceFactor: real, stretchFactor: real)
      requires Valid()
      modifies this
      ensures Valid() && fed == old(fed) + [word]
      ensures var box := Box(old(font), word, m.width(old(font), word),
          Scaled(old(fontSpace), spaceFactor), Scaled(old(fontSpace), stretchFactor));
        if box.width <= old(availWidth) || old(boxes) == []
        then boxes == old(boxes) + [box] && lines == old(lines) && v == old(v) && hangIndent == old(hangIndent) && taken == old(taken)
        else
          && boxes == [box] && v == old(Below()) && |lines| == |old(lines)| + 1 && lines[..|old(lines)|] == old(lines)
          && lines[|old(lines)|] == Line(
               old(boxes), old(left), old(right), old(hangIndent), old(taken), old(v + maxAscent),
               old(justify), old(center), lines[|old(lines)|].texts)
      ensures font == old(font) && fontSpace == old(fontSpace) && center == old(center) && justify == old(justify)
      ensures left == old(left) && right == old(right)
    {
      hide Summed, Fitting, History, Scaled;
      var width := m.width(drawFont, word);
      if width > availWidth { FlushLine(true); }
      var space := Scaled(fontSpace, spaceFactor);
      var stretch := Scaled(fontSpace, stretchFactor);
      Append(Box(font, word, width, space, stretch));
    }

    method Append(box: Box)
      requires Valid() && (boxes != [] ==> box.width <= availWidth) && box.font == font
      modifies this`boxes, this`sumWidth, this`sumSpace, this`sumStretch, this`maxAscent, this`maxDescent, this`availWidth, this`fed
      ensures Valid() && boxes == old(boxes) + [box] && fed == old(fed) + [box.word]
    {
      hide History, Natural, Summed, Fitting, Ascent, Descent, FontKnown, Larger;
      RoomLeft(boxes, sumWidth, sumSpace, sumStretch, availWidth, right - left - taken);
      WordAdded(lines, m, drawn, boxes, fed, box);
      FittingAppend(boxes, box, right - left - taken);
      Widen(box);
      Heighten(box);
      boxes, fed := boxes + [box], fed + [box.word];
    }

    method Widen(box: Box)
      requires Summed(boxes, sumWidth, sumSpace, sumStretch, availWidth, right - left - taken)
      modifies this`sumWidth, this`sumSpace, this`sumStretch, this`availWidth
      ensures Summed(boxes + [box], sumWidth, sumSpace, sumStretch, availWidth, right - left - taken)
    {
      hide Summed;
      SummedAppend(boxes, box, sumWidth, sumSpace, sumStretch, availWidth, right - left - taken);
      sumWidth, sumSpace, sumStretch := sumWidth + box.width, sumSpace + box.space, sumStretch + box.stretch;
      availWidth := availWidth - box.width - box.space;
    }

    method Heighten(box: Box)
      requires maxAscent == Ascent(boxes, m) && maxDescent == Descent(boxes, m)
      requires box.font == font && FontKnown(m, font, fontSpace, fontAscent, fontDescent)
      modifies this`maxAscent, this`maxDescent
      ensures maxAscent == Ascent(boxes + [box], m) && maxDescent == Descent(boxes + [box], m)
    {
      hide Ascent, Descent, FontKnown, Larger;
      TallerBy(boxes, box, m, fontSpace, fontAscent, fontDescent);
      maxAscent := Larger(fontAscent, maxAscent);
      maxDescent := Larger(fontDescent, maxDescent);
    }

    method Flush()
      requires Valid()
      modifies this
      ensures Valid() && Flushed(old(boxes), old(lines), old(fed)) && Kept(old(left), old(right), old(font), old(fontSpace))
      ensures v == old(Below()) && (old(boxes) == [] ==> hangIndent == old(hangIndent) && taken == old(taken))
      ensures old(boxes) != [] ==>
        lines[|old(lines)|] == Line(
          old(boxes), left, right, old(hangIndent), old(taken), old(v + maxAscent), false, old(center), lines[|old(lines)|].texts)
    {
      FlushLine(false);
    }

    ghost predicate Kept(left0: int, right0: int, font0: Font, space0: nat)
      reads this
    {
      left == left0 && right == right0 && font == font0 && fontSpace == space0
    }

    /** Nothing is waiting, and what was waiting is the newest line. */
    ghost predicate Flushed(boxes0: seq<Box>, lines0: seq<Line>, fed0: seq<string>)
      reads this
    {
      && boxes == [] && fed == fed0
      && (boxes0 == [] ==> lines == lines0)
      && (boxes0 != [] ==> |lines| == |lines0| + 1 && lines[..|lines0|] == lines0 && lines[|lines0|].boxes == boxes0)
    }

    /** _flush: draw the boxes and start a new line; flushing twice is harmless. */
    method FlushLine(justify0: bool)
      requires Valid()
      modifies this
      ensures Valid() && Flushed(old(boxes), old(lines), old(fed)) && Kept(old(left), old(right), old(font), old(fontSpace))
      ensures center == old(center) && justify == old(justify)
      ensures v == old(Below()) && (old(boxes) == [] ==> hangIndent == old(hangIndent) && taken == old(taken))
      ensures old(boxes) != [] ==>
        && hangIndent == taken == 0
        && lines[|old(lines)|] == Line(
             old(boxes), left, right, old(hangIndent), old(taken), old(v + maxAscent),
             justify0 && justify, center, lines[|old(lines)|].texts)
    {
      hide History, Fitting, Summed, Drawn, Margin, LineStart, FontKnown, BoxWords, WordsOf;
      if boxes == [] { return; }
      ghost var line := DrawLine(justify0 && justify);
      assert (lines + [line])[..|lines|] == lines;
      LineAdded(lines, m, old(drawn), boxes, fed, line);
      v := v + maxAscent + maxDescent;
      lines := lines + [line];
      drawFont := font;
      Reset();
      NothingSummed(right - left);
    }

    /** Where the boxes go, and drawing them. */
    method DrawLine(fill: bool) returns (ghost line: Line)
      requires Valid() && boxes != []
      modifies this`drawn, this`drawFont
      ensures line == Line(boxes, left, right, hangIndent, taken, v + maxAscent, fill, center, line.texts)
      ensures Drawn(line, m) && Fitting(line.boxes, Margin(line) - LineStart(line))
      ensures drawn == old(drawn) + line.texts
    {
      hide History, Natural, Placed, Fitting, Summed, Stretches, Sum;
      RoomLeft(boxes, sumWidth, sumSpace, sumStretch, availWidth, right - left - taken);
      var totExtra, totStretch := 0, 0;
      if fill || center {
        var lastBox := boxes[|boxes| - 1];
        totExtra := availWidth + lastBox.space;
        totStretch := sumStretch - lastBox.stretch;
      }
      var baseline := v + maxAscent;
      var h := left + hangIndent;
      line := Line(boxes, left, right, hangIndent, taken, baseline, fill, center, []);
      ExtraIsMissing(line, availWidth, sumStretch);
      hide Missing, Stretch;
      if center {
        h := h + totExtra / 2;
        totExtra, totStretch := 0, 0;
      }
      ghost var texts := Placed(boxes, m, h, baseline, totExtra, totStretch);
      SameLine(line, texts);
      line := line.(texts := texts);
      DrawBoxes(h, baseline, totExtra, totStretch);
    }

    /** The loop that draws the boxes. */
    method DrawBoxes(h0: int, baseline: int, extra0: int, total0: int)
      modifies this`drawn, this`drawFont
      ensures drawn == old(drawn) + Placed(boxes, m, h0, baseline, extra0, total0)
    {
      hide Placed;
      var h, totExtra, totStretch := h0, extra0, total0;
      ghost var all := Placed(boxes, m, h0, baseline, extra0, total0);
      assert boxes[0..] == boxes && all[0..] == all && all[..0] == [];
      for k := 0 to |boxes|
        invariant drawn == old(drawn) + all[..k]
        invariant Placed(boxes[k..], m, h, baseline, totExtra, totStretch) == all[k..]
      {
        var b := boxes[k];
        assert boxes[k..][0] == b && boxes[k..][1..] == boxes[k + 1..];
        PlacedStep(boxes[k..], m, h, baseline, totExtra, totStretch);
        assert all[k..][0] == all[k] && all[k..][1..] == all[k + 1..] && all[..k + 1] == all[..k] + [all[k]];
        drawFont := b.font;
        var v := baseline - m.baseline(drawFont);
        drawn := drawn + [Text(h, v, drawFont, b.word, b.width)];
        h := h + b.width + b.space;
        if totExtra > 0 && totStretch > 0 {
          var extra := b.stretch * totExtra / totStretch;
          h := h + extra;
          totExtra := totExtra - extra;
          totStretch := totStretch - b.stretch;
        }
      }
      assert all[..|boxes|] == all;
    }

    /** What is waiting is drawn, and the next line is so many line heights further down. */
    method VSpace(lines0: real)
      requires Valid()
      modifies this
      ensures Valid() && Flushed(old(boxes), old(lines), old(fed))
      ensures v == old(Below()) + Scaled(m.lineheight(old(font)), lines0)
    {
      VSpacePixels(Scaled(m.lineheight(drawFont), lines0));
    }

    method VSpacePixels(dv: int)
      requires Valid()
      modifies this
      ensures Valid() && Flushed(old(boxes), old(lines), old(fed)) && v == old(Below()) + dv
    {
      hide Summed, Fitting, History;
      Flush();
      v := v + dv;
    }

    /** The next line, and only that one, is indented.  Done twice on an empty line, this takes from the width
        twice, but the line is only indented by the second amount. */
    method TempIndent(space: real)
      requires Valid()
      modifies this
      ensures Valid() && Flushed(old(boxes), old(lines), old(fed))
      ensures v == old(Below()) && center == old(center) && Kept(old(left), old(right), old(font), old(fontSpace))
      ensures var hang := Scaled(old(fontSpace), space);
        hangIndent == hang && taken == hang + if old(boxes) == [] then old(taken) else 0
    {
      hide Fitting, History, TotalWidth, TotalSpace, Stretches, Sum, Natural, Scaled;
      FlushLine(false);
      TakenFrom(right - left - taken, right - left - taken - Scaled(fontSpace, space));
      var hang := Scaled(fontSpace, space);
      hangIndent := hang;
      availWidth := availWidth - hang;
      taken := taken + hang;
    }

    /** What is waiting is drawn, and the left margin moves for all lines that follow. */
    method AddLeftIndent(space: real)
      requires Valid()
      modifies this
      ensures Valid() && Flushed(old(boxes), old(lines), old(fed))
      ensures v == old(Below()) && right == old(right)
      ensures left == old(left) + Scaled(old(fontSpace), space) && hangIndent == taken == 0
    {
      hide Summed, Fitting, History, Scaled;
      Flush();
      left := left + Scaled(fontSpace, space);
      Reset();
      NothingSummed(right - left);
    }

    /** The program may turn centering and justification on and off at any time. */
    method SetStyle(center: bool, justify: bool)
      requires Valid()
      modifies this`center, this`justify
      ensures Valid() && this.center == center && this.justify == justify
    {
      hide Summed, Fitting, History;
      this.center, this.justify := center, justify;
    }
  }

  lemma TakenFrom(room: int, room1: int)
    ensures Fitting([], room1) && forall w: int, s: int, st: int :: Summed([], w, s, st, room, room) ==> Summed([], w, s, st, room1, room1)
  {
  }

  lemma BoxWordsAppend(boxes: seq<Box>, box: Box)
    ensures BoxWords(boxes + [box]) == BoxWords(boxes) + [box.word]
  {
  }

  lemma FittingAppend(boxes: seq<Box>, box: Box, room: int)
    requires Fitting(boxes, room) && (boxes != [] ==> Natural(boxes) + box.width <= room)
    ensures Fitting(boxes + [box], room)
  {
    var all := boxes + [box];
    forall i | 0 < i < |all| ensures Natural(all[..i]) + all[i].width <= room {
      assert all[..i] == boxes[..i];
      if i == |boxes| { assert boxes[..i] == boxes; }
    }
  }

  /** avail_width plus the glue of the last box is what is missing to the margin. */
  lemma ExtraIsMissing(l: Line, availWidth: int, sumStretch: int)
    requires l.boxes != [] && availWidth == l.right - l.left - l.taken - Natural(l.boxes) && sumStretch == Sum(Stretches(l.boxes))
    ensures availWidth + Last(l.boxes).space == Missing(l) && sumStretch - Last(l.boxes).stretch == Stretch(l)
  {
    assert Stretches(l.boxes) == Stretches(Front(l.boxes)) + [Last(l.boxes).stretch];
    SumAppend(Stretches(Front(l.boxes)), Last(l.boxes).stretch);
  }

  lemma SameLine(l: Line, texts: seq<Text>)
    requires l.boxes != []
    ensures Missing(l.(texts := texts)) == Missing(l) && Stretch(l.(texts := texts)) == Stretch(l)
  {
  }

  /** Done twice on an empty line, first with a negative and then with a positive amount, tempindent leaves more room
      than there is up to the right margin, and a word is drawn across it. */
  method TempIndentTwice(m: Metrics, left: int, top: int, right: int, word: string) returns (f: Formatter)
    requires m.width(m.plain, " ") == 1 && m.width(m.plain, word) == right - left + 2
    ensures f.drawn == [Text(left + 3, top, m.plain, word, right - left + 2)] && RightEdge(f.drawn[0]) == right + 5
  {
    hide Summed, Fitting, History, Scaled, Drawn, FontKnown;
    f := new Formatter(m, left, top, right);
    ScaledByOne();
    FontIsKnown(m, m.plain, f.fontSpace, f.fontAscent, f.fontDescent);
    f.TempIndent(-5.0);
    f.TempIndent(3.0);
    f.AddWordStretch(word, 1.0, 1.0);
    f.Flush();
    OneLine(f.lines, m, f.drawn, f.fed);
    OneWordLine(f.lines[0], m, top);
  }

  lemma ScaledByOne()
    ensures Scaled(1, -5.0) == -5 && Scaled(1, 3.0) == 3 && Scaled(1, 1.0) == 1
  {
  }

  lemma FontIsKnown(m: Metrics, font: Font, space: nat, ascent: nat, descent: int)
    requires FontKnown(m, font, space, ascent, descent)
    ensures space == m.width(font, " ")
  {
  }

  lemma OneWordLine(l: Line, m: Metrics, top: int)
    requires |l.boxes| == 1 && Drawn(l, m) && !l.fill && !l.center && l.baseline == top + Ascent(l.boxes, m)
    ensures var b := l.boxes[0]; l.texts == [Text(LineStart(l), top, b.font, b.word, b.width)]
  {
    PlacedStep(l.boxes, m, LineStart(l), l.baseline, 0, 0);
  }

  lemma OneLine(lines: seq<Line>, m: Metrics, drawn: seq<Text>, fed: seq<string>)
    requires |lines| == 1 && History(lines, m, drawn, [], fed)
    ensures drawn == lines[0].texts && Drawn(lines[0], m)
  {
    assert TextsOf(lines[..0]) == [];
  }

  lemma HistoryEnds(lines: seq<Line>, m: Metrics, drawn: seq<Text>, fed: seq<string>)
    requires History(lines, m, drawn, [], fed)
    ensures fed == WordsOf(drawn) && AllDrawn(lines, m)
  {
  }

  // ---- a whole text ----

  datatype Command =
    | Word(word: string, space: real, stretch: real)
    | SetFont(font: Font)
    | SetStyle(center: bool, justify: bool)
    | Flush
    | VSpace(lines: real)
    | TempIndent(space: real)
    | AddLeftIndent(space: real)

  function WordsIn(cs: seq<Command>): seq<string>
    decreases |cs|
  {
    if cs == [] then []
    else
      var c := cs[|cs| - 1];
      WordsIn(cs[..|cs| - 1]) + if c.Word? then [c.word] else []
  }

  /** Over every run each word is drawn once, in order; and every line is one that _flush has placed. */
  method Format(m: Metrics, left: int, top: int, right: int, cs: seq<Command>) returns (f: Formatter)
    ensures fresh(f) && f.Valid() && f.m == m && f.boxes == []
    ensures WordsOf(f.drawn) == WordsIn(cs)
    ensures AllDrawn(f.lines, m)
  {
    hide AllDrawn, Fitting, Summed, Scaled, History;
    f := new Formatter(m, left, top, right);
    assert cs[..0] == [];
    for k := 0 to |cs|
      invariant fresh(f) && f.Valid() && f.m == m && f.fed == WordsIn(cs[..k])
    {
      assert cs[..k + 1][..k] == cs[..k];
      match cs[k] {
        case Word(word, space, stretch) => f.AddWordStretch(word, space, stretch);
        case SetFont(font) => f.SetFont(font);
        case SetStyle(center, justify) => f.SetStyle(center, justify);
        case Flush => f.Flush();
        case VSpace(n) => f.VSpace(n);
        case TempIndent(space) => f.TempIndent(space);
        case AddLeftIndent(space) => f.AddLeftIndent(space);
      }
    }
    assert cs[..|cs|] == cs;
    f.Flush();
    HistoryEnds(f.lines, m, f.drawn, f.fed);
  }
}
