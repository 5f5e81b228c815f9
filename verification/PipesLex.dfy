/** How a shell reads the text of the scripts of python/lib/pipes.py: characters into tokens.

  The commands of the user are valid shell syntax of their own; they are read as they stand.  What makepipeline puts
  around them, with names of any characters, is read character by character.
  */
module PipesLex {
  import opened Pipes
  import opened PipesText

  /** The text of a script is made of characters and of commands of the user. */
  datatype Piece = Char(c: char) | Cmd(step: Step)

  function Flat(ps: seq<Piece>): string
    decreases |ps|
  {
    if ps == [] then "" else (if ps[0].Char? then [ps[0].c] else ps[0].step.cmd) + Flat(ps[1..])
  }

  function Chars(s: string): seq<Piece> { seq(|s|, i requires 0 <= i < |s| => Char(s[i])) }

  /** A script as makepipeline writes it. */
  function Pieces(ts: seq<Token>): seq<Piece>
    decreases |ts|
  {
    if ts == [] then []
    else (if ts[0].User? then [Cmd(ts[0].step)] else Chars(Text(ts[0]))) + Pieces(ts[1..])
  }

  // ---- reading ----

  /** The characters in front of the next command. */
  function Head(ps: seq<Piece>): (t: string)
    ensures |t| <= |ps|
    decreases |ps|
  {
    if ps == [] || ps[0].Cmd? then "" else [ps[0].c] + Head(ps[1..])
  }

  predicate Starts(t: string, x: string) { |x| <= |t| && t[..|x|] == x }

  /** Words, each with a space in front. */
  function ReadWords(t: string): (r: Option<(seq<string>, string)>)
    ensures r.Some? ==> |r.value.1| <= |t|
    decreases |t|
  {
    if !Starts(t, " ") then Some(([], t)) else
    var w := ReadWord(t[1..]);
    if w.None? then None else
    var rest := ReadWords(w.value.1);
    if rest.None? then None else Some(([w.value.0] + rest.value.0, rest.value.1))
  }

  /** The files that an rm command names, and the text after it. */
  function ReadRm(t: string): (r: Option<(seq<string>, string)>)
    ensures r.Some? ==> |r.value.1| < |t|
  {
    if Starts(t, "rm -f") then ReadWords(t[5..]) else None
  }

  /** The word behind `skip` characters. */
  function WordAfter(t: string, skip: nat): (r: Option<(string, string)>)
    requires 0 < skip <= |t|
    ensures r.Some? ==> |r.value.1| < |t|
  {
    ReadWord(t[skip..])
  }

  /** A trap command: a word that is a command itself, and the signals. */
  function ReadTrap(t: string): (r: Option<(seq<string>, string)>)
    ensures r.Some? ==> |r.value.1| < |t|
  {
    if !Starts(t, "trap ") then None else
    var w := WordAfter(t, 5);
    if w.None? || !Starts(w.value.1, " 1 2 3 13 14 15") then None else
    var rm := ReadRm(w.value.0);
    if rm.None? || rm.value.1 != "; exit" then None else Some((rm.value.0, w.value.1[15..]))
  }

  /** A token of two characters or more that is not a command. */
  function ReadMark(t: string): (r: Option<(Token, string)>)
    requires |t| >= 2
    ensures r.Some? ==> |r.value.1| < |t|
  {
    if t[0] == ';' && t[1] == ' ' then Some((Semi, t[2..]))
    else if t[0] == '{' && t[1] == ' ' then Some((Open, t[2..]))
    else if t[0] == ' ' && t[1] == '|' then Some((Pipe, t[2..]))
    else if t[0] == ' ' && t[1] == '<' then
      var w := WordAfter(t, 2);
      if w.None? then None else Some((Less(w.value.0), w.value.1))
    else if t[0] == ' ' && t[1] == '>' then
      var w := WordAfter(t, 2);
      if w.None? then None else Some((Great(w.value.0), w.value.1))
    else if Starts(t, "IN=") then
      var w := WordAfter(t, 3);
      if w.None? then None else Some((Assign(IN, w.value.0), w.value.1))
    else if Starts(t, "OUT=") then
      var w := WordAfter(t, 4);
      if w.None? then None else Some((Assign(OUT, w.value.0), w.value.1))
    else None
  }

  /** The next token, and the text after it. */
  function ReadToken(t: string): (r: Option<(Token, string)>)
    ensures r.Some? ==> |r.value.1| < |t|
  {
    if t == "" then None
    else if t[0] == '\n' then Some((Newline, t[1..]))
    else if t[0] == '}' then Some((Close, t[1..]))
    else if t[0] == 't' then
      var w := ReadTrap(t);
      if w.None? then None else Some((Trap(w.value.0), w.value.1))
    else if t[0] == 'r' then
      var w := ReadRm(t);
      if w.None? then None else Some((Rm(w.value.0), w.value.1))
    else if |t| == 1 then None
    else ReadMark(t)
  }

  /** The tokens of a script. */
  function Read(ps: seq<Piece>): Option<seq<Token>>
    decreases |ps|
  {
    if ps == [] then Some([]) else
    if ps[0].Cmd? then Before(User(ps[0].step), Read(ps[1..]))
    else
      var r := ReadToken(Head(ps));
      if r.None? then None else Before(r.value.0, Read(ps[|Head(ps)| - |r.value.1|..]))
  }

  function Before(t: Token, r: Option<seq<Token>>): Option<seq<Token>> {
    if r.None? then None else Some([t] + r.value)
  }

  // ---- single tokens are read back ----

  predicate NamesGiven(t: Token) {
    match t
    case Assign(_, name) => name != ""
    case Less(name) => name != ""
    case Great(name) => name != ""
    case Rm(names) => forall k :: 0 <= k < |names| ==> names[k] != ""
    case Trap(names) => forall k :: 0 <= k < |names| ==> names[k] != ""
    case _ => true
  }

  lemma {:induction false} ListedFirst(names: seq<string>)
    requires names != []
    ensures Listed(names) == " " + (Quote(names[0]) + Listed(names[1..]))
    decreases |names|
  {
    hide Quote, Listed;
    var n := |names| - 1;
    ListedLast(names);
    if n == 0 {
      assert names[..0] == [] && names[1..] == [];
      NothingListed("");
    } else {
      ListedFirst(names[..n]);
      ListedLast(names[1..]);
      assert names[..n][1..] == names[1..][..n - 1] && names[1..][n - 1] == names[n];
      Reassociate(" ", Quote(names[0]), Listed(names[1..][..n - 1]), " " + Quote(names[n]));
    }
  }

  lemma ListedLast(names: seq<string>)
    requires names != []
    ensures var n := |names| - 1; Listed(names) == Listed(names[..n]) + (" " + Quote(names[n]))
  {
    hide Quote;
  }

  lemma Reassociate(a: string, b: string, c: string, d: string)
    ensures a + (b + c) + d == a + (b + (c + d))
  {
  }

  /** A list of names ends where something else than a space follows. */
  predicate EndsList(rest: string) { rest == "" || (Delimiter(rest[0]) && rest[0] != ' ') }

  lemma NoMoreWords(rest: string)
    requires EndsList(rest)
    ensures ReadWords(rest) == Some(([], rest))
  {
  }

  lemma {:induction false} WordsAreRead(names: seq<string>, rest: string)
    requires EndsList(rest) && forall k :: 0 <= k < |names| ==> names[k] != ""
    ensures ReadWords(Listed(names) + rest) == Some((names, rest))
    decreases |names|
  {
    hide Quote, ReadWord, Listed, ReadWords;
    if names == [] {
      NothingListed(rest);
      NoMoreWords(rest);
    } else {
      var after := Listed(names[1..]) + rest;
      ListedFirst(names);
      ListStarts(names[1..], rest);
      WordsAreRead(names[1..], rest);
      QuotedIsRead(names[0], after);
      assert Listed(names) + rest == " " + (Quote(names[0]) + after) && [names[0]] + names[1..] == names;
      OneMoreWord(Quote(names[0]) + after, names[0], after, names[1..], rest);
    }
  }

  lemma NothingListed(rest: string)
    ensures Listed([]) + rest == rest
  {
  }

  lemma ListStarts(names: seq<string>, rest: string)
    requires EndsList(rest)
    ensures Ends(Listed(names) + rest)
  {
    hide Quote;
    if names != [] { ListedFirst(names); }
  }

  lemma OneMoreWord(t: string, name: string, after: string, names: seq<string>, rest: string)
    requires ReadWord(t) == Some((name, after)) && ReadWords(after) == Some((names, rest))
    ensures ReadWords(" " + t) == Some(([name] + names, rest))
  {
    hide ReadWord;
    assert (" " + t)[1..] == t && Starts(" " + t, " ");
  }

  /** rm is given exactly the names, whatever characters are in them. */
  lemma RmIsRead(names: seq<string>, rest: string)
    requires EndsList(rest) && forall k :: 0 <= k < |names| ==> names[k] != ""
    ensures ReadRm(RmText(names) + rest) == Some((names, rest))
  {
    hide Listed, ReadWords;
    WordsAreRead(names, rest);
    var t := RmText(names) + rest;
    assert t == "rm -f" + (Listed(names) + rest);
    assert t[..5] == "rm -f" && t[5..] == Listed(names) + rest;
  }

  /** And what a signal leads to is the same removal. */
  lemma TrapIsRead(names: seq<string>, rest: string)
    requires forall k :: 0 <= k < |names| ==> names[k] != ""
    ensures var t := Text(Trap(names)) + rest; t != "" && t[0] == 't' && ReadTrap(t) == Some((names, rest))
  {
    hide Quote, RmText, ReadRm, ReadWord;
    var signals := " 1 2 3 13 14 15";
    var w := RmText(names) + "; exit";
    var t := Text(Trap(names)) + rest;
    RmIsRead(names, "; exit");
    QuotedIsRead(w, signals + rest);
    assert t == "trap " + (Quote(w) + (signals + rest));
    FrontAndRest("trap ", Quote(w) + (signals + rest));
    FrontAndRest(signals, rest);
  }

  predicate Wordy(t: Token) { t.Assign? || t.Less? || t.Great? }

  /** What may follow a token directly. */
  predicate MayFollow(t: Token, rest: string) { (Wordy(t) ==> Ends(rest)) && (t.Rm? ==> EndsList(rest)) }

  lemma WordIsRead(x: string, name: string, rest: string)
    requires |x| >= 2 && name != "" && Ends(rest)
    ensures var t := x + Quote(name) + rest;
      |t| >= 2 && Starts(t, x) && t[0] == x[0] && t[1] == x[1] && WordAfter(t, |x|) == Some((name, rest))
  {
    hide Quote, ReadWord;
    var t := x + Quote(name) + rest;
    QuotedIsRead(name, rest);
    assert t == x + (Quote(name) + rest);
    FrontAndRest(x, Quote(name) + rest);
  }

  lemma TokenIsRead(t: Token, rest: string)
    requires !t.User? && NamesGiven(t) && MayFollow(t, rest)
    ensures Text(t) != "" && ReadToken(Text(t) + rest) == Some((t, rest))
  {
    hide Quote, WordAfter, ReadTrap, ReadRm, RmText, Ends, EndsList;
    match t
    case Assign(IN, name) => WordIsRead("IN=", name, rest);
    case Assign(OUT, name) => NotIn("OUT=", name, rest);
    case Less(name) => WordIsRead(" <", name, rest);
    case Great(name) => WordIsRead(" >", name, rest);
    case Rm(names) =>
      RmIsRead(names, rest);
      RmStarts(names, rest);
    case Trap(names) => TrapIsRead(names, rest);
    case _ => FrontAndRest(Text(t), rest);
  }

  /** OUT= is not IN=. */
  lemma NotIn(x: string, name: string, rest: string)
    requires x == "OUT=" && name != "" && Ends(rest)
    ensures var t := x + Quote(name) + rest;
      |t| >= 2 && t[0] == 'O' && !Starts(t, "IN=") && Starts(t, x) && WordAfter(t, |x|) == Some((name, rest))
  {
    hide Quote, WordAfter;
    WordIsRead(x, name, rest);
    StartsWithFirst(x + Quote(name) + rest, "IN=");
  }

  lemma StartsWithFirst(t: string, x: string)
    ensures Starts(t, x) && x != "" ==> t[0] == x[0]
  {
  }

  lemma FrontAndRest(x: string, rest: string)
    ensures (x + rest)[..|x|] == x && (x + rest)[|x|..] == rest
    ensures forall k :: 0 <= k < |x| ==> (x + rest)[k] == x[k]
  {
  }

  lemma RmStarts(names: seq<string>, rest: string)
    ensures var t := RmText(names) + rest; t != "" && t[0] == 'r' && RmText(names) != ""
  {
  }

  // ---- whole scripts are read back ----

  lemma {:induction false} HeadOf(x: string, ps: seq<Piece>)
    ensures Head(Chars(x) + ps) == x + Head(ps)
    decreases |x|
  {
    if x == "" {
      assert Chars(x) + ps == ps && "" + Head(ps) == Head(ps);
    } else {
      assert (Chars(x) + ps)[0] == Char(x[0]) && (Chars(x) + ps)[1..] == Chars(x[1..]) + ps;
      HeadOf(x[1..], ps);
      assert [x[0]] + (x[1..] + Head(ps)) == x + Head(ps);
    }
  }

  lemma {:induction false} FlatOf(x: string, ps: seq<Piece>)
    ensures Flat(Chars(x) + ps) == x + Flat(ps)
    decreases |x|
  {
    if x == "" {
      assert Chars(x) + ps == ps && "" + Flat(ps) == Flat(ps);
    } else {
      assert (Chars(x) + ps)[0] == Char(x[0]) && (Chars(x) + ps)[1..] == Chars(x[1..]) + ps;
      FlatOf(x[1..], ps);
      assert [x[0]] + (x[1..] + Flat(ps)) == x + Flat(ps);
    }
  }

  /** The pieces are the text that makepipeline returns. */
  lemma {:induction false} PiecesAreText(ts: seq<Token>)
    ensures Flat(Pieces(ts)) == TextOf(ts)
    decreases |ts|
  {
    hide Text;
    if ts != [] {
      PiecesAreText(ts[1..]);
      if ts[0].User? {
        FlatOfCommand(ts[0].step, Pieces(ts[1..]));
      } else {
        FlatOf(Text(ts[0]), Pieces(ts[1..]));
      }
    }
  }

  lemma FlatOfCommand(step: Step, ps: seq<Piece>)
    ensures Flat([Cmd(step)] + ps) == Text(User(step)) + Flat(ps)
  {
    assert ([Cmd(step)] + ps)[1..] == ps;
  }

  predicate Separator(t: Token) { t.Semi? || t.Newline? || t.Pipe? || t.Less? || t.Great? }

  /** Two tokens that may stand next to each other without becoming something else. */
  predicate Spaced(t: Token, u: Token) {
    (Wordy(t) ==> Separator(u)) && (t.Rm? ==> u.Semi? || u.Newline?)
  }

  predicate Readable(ts: seq<Token>) {
    && (forall i :: 0 <= i < |ts| ==> NamesGiven(ts[i]))
    && (forall i :: 0 <= i < |ts| - 1 ==> Spaced(ts[i], ts[i + 1]))
  }

  lemma HeadStarts(ts: seq<Token>)
    requires ts != [] && Separator(ts[0])
    ensures Ends(Head(Pieces(ts))) && (ts[0].Semi? || ts[0].Newline? ==> EndsList(Head(Pieces(ts))))
  {
    hide Quote;
    HeadOf(Text(ts[0]), Pieces(ts[1..]));
  }

  lemma NextMayFollow(ts: seq<Token>)
    requires ts != [] && Readable(ts)
    ensures MayFollow(ts[0], Head(Pieces(ts[1..])))
  {
    hide Pieces, Head, Ends, EndsList, NamesGiven;
    if |ts| > 1 {
      assert Spaced(ts[0], ts[0 + 1]);
      if Separator(ts[1]) { HeadStarts(ts[1..]); }
    } else {
      assert ts[1..] == [];
      NothingFollows();
    }
  }

  lemma NothingFollows()
    ensures Head(Pieces([])) == "" && Ends("") && EndsList("")
  {
  }

  lemma ReadOne(t: Token, ps: seq<Piece>)
    requires NamesGiven(t) && MayFollow(t, Head(ps))
    ensures Read((if t.User? then [Cmd(t.step)] else Chars(Text(t))) + ps) == Before(t, Read(ps))
  {
    hide Text, ReadToken, NamesGiven, MayFollow, Read;
    if t.User? {
      ReadCommand(t.step, ps);
    } else {
      TokenIsRead(t, Head(ps));
      HeadOf(Text(t), ps);
      ReadChars(Text(t), t, ps);
    }
  }

  lemma ReadCommand(step: Step, ps: seq<Piece>)
    ensures Read([Cmd(step)] + ps) == Before(User(step), Read(ps))
  {
    assert ([Cmd(step)] + ps)[1..] == ps;
  }

  lemma ReadChars(x: string, t: Token, ps: seq<Piece>)
    requires x != "" && Head(Chars(x) + ps) == x + Head(ps) && ReadToken(x + Head(ps)) == Some((t, Head(ps)))
    ensures Read(Chars(x) + ps) == Before(t, Read(ps))
  {
    hide ReadToken, Head;
    var all := Chars(x) + ps;
    assert all[0].Char? && |x + Head(ps)| - |Head(ps)| == |x| && all[|x|..] == ps;
  }

  /** The text of tokens that may stand next to each other is read back as these tokens. */
  lemma {:induction false} TextIsRead(ts: seq<Token>)
    requires Readable(ts)
    ensures Read(Pieces(ts)) == Some(ts)
    decreases |ts|
  {
    if ts != [] {
      RestIsReadable(ts);
      TextIsRead(ts[1..]);
      NextMayFollow(ts);
      ReadOne(ts[0], Pieces(ts[1..]));
      assert [ts[0]] + ts[1..] == ts;
    }
  }

  lemma RestIsReadable(ts: seq<Token>)
    requires Readable(ts) && ts != []
    ensures Readable(ts[1..]) && NamesGiven(ts[0])
  {
    forall i | 0 <= i < |ts[1..]| - 1 ensures Spaced(ts[1..][i], ts[1..][i + 1]) { assert Spaced(ts[i + 1], ts[i + 1 + 1]); }
  }

  // ---- scripts are such tokens ----

  lemma ReadableAppend(a: seq<Token>, b: seq<Token>)
    requires Readable(a) && Readable(b) && (a != [] && b != [] ==> Spaced(a[|a| - 1], b[0]))
    ensures Readable(a + b)
  {
    hide NamesGiven, Spaced;
    var c := a + b;
    forall i | 0 <= i < |c| - 1 ensures Spaced(c[i], c[i + 1]) {
      if i + 1 < |a| {
        assert Spaced(a[i], a[i + 1]);
      } else if i >= |a| {
        assert Spaced(b[i - |a|], b[i - |a| + 1]);
      }
    }
  }

  /** The words that are quoted in the script of linked items are never empty. */
  lemma ItemIsReadable(it: Item)
    requires Named(it)
    ensures Readable(ItemTokens(it)) && ItemTokens(it) != []
    ensures var t := ItemTokens(it)[|ItemTokens(it)| - 1]; t.User? || t.Less? || t.Great?
  {
    AssignIsReadable(it);
    UserIsReadable(it);
    hide Readable;
    ReadableAppend(AssignTokens(it), UserTokens(it));
  }

  lemma AssignIsReadable(it: Item)
    requires Named(it)
    ensures Readable(AssignTokens(it)) && (AssignTokens(it) != [] ==> AssignTokens(it)[|AssignTokens(it)| - 1].Semi?)
  {
  }

  lemma UserIsReadable(it: Item)
    ensures Readable(UserTokens(it)) && UserTokens(it) != []
    ensures var t := UserTokens(it)[|UserTokens(it)| - 1]; t.User? || t.Less? || t.Great?
  {
  }

  lemma MarksAreReadable()
    ensures Readable([Open]) && Readable([Semi, Close]) && Readable([Newline]) && Readable([Pipe, Newline])
  {
  }

  lemma InnerIsReadable(it: Item)
    requires Named(it)
    ensures Readable(InnerTokens(it)) && InnerTokens(it) != []
    ensures var t := InnerTokens(it)[|InnerTokens(it)| - 1]; t.User? || t.Less? || t.Great? || t.Close?
  {
    hide ItemTokens, Readable;
    MarksAreReadable();
    ItemIsReadable(it);
    if UsesFile(it) {
      ReadableAppend([Open], ItemTokens(it));
      ReadableAppend([Open] + ItemTokens(it), [Semi, Close]);
    }
  }

  predicate EndsItem(ts: seq<Token>) {
    ts != [] && var t := ts[|ts| - 1]; t.User? || t.Less? || t.Great? || t.Close?
  }

  lemma {:induction false} JoinedIsReadable(front: seq<Token>, items: seq<Item>)
    requires Readable(front) && EndsItem(front) && forall i :: 0 <= i < |items| ==> Named(items[i])
    ensures Readable(front + Joined(items)) && EndsItem(front + Joined(items))
    decreases |items|
  {
    hide ItemTokens, InnerTokens, Named, Readable;
    if items == [] {
      assert front + Joined(items) == front;
    } else {
      var it := items[0];
      var more := if it.inf == "" then [Pipe, Newline] + InnerTokens(it) else [Newline] + ItemTokens(it);
      MoreIsReadable(front, it);
      JoinedIsReadable(front + more, items[1..]);
      assert front + (more + Joined(items[1..])) == front + more + Joined(items[1..]);
    }
  }

  lemma MoreIsReadable(front: seq<Token>, it: Item)
    requires Readable(front) && EndsItem(front) && Named(it)
    ensures var ts := front + if it.inf == "" then [Pipe, Newline] + InnerTokens(it) else [Newline] + ItemTokens(it);
      Readable(ts) && EndsItem(ts)
  {
    hide ItemTokens, InnerTokens, Named, Readable;
    MarksAreReadable();
    ItemIsReadable(it);
    InnerIsReadable(it);
    if it.inf == "" {
      ReadableAppend([Pipe, Newline], InnerTokens(it));
      ReadableAppend(front, [Pipe, Newline] + InnerTokens(it));
    } else {
      ReadableAppend([Newline], ItemTokens(it));
      ReadableAppend(front, [Newline] + ItemTokens(it));
    }
  }

  /** The whole text of a script, with the trap and the removal of the files in between, is read by the shell as the
      tokens whose meaning is proved. */
  lemma ScriptIsRead(items: seq<Item>, garbage: seq<string>)
    requires items != [] && (forall i :: 0 <= i < |items| ==> Named(items[i]))
    requires forall k :: 0 <= k < |garbage| ==> garbage[k] != ""
    ensures Read(Pieces(Script(items, garbage))) == Some(Script(items, garbage))
    ensures Flat(Pieces(Script(items, garbage))) == TextOf(Script(items, garbage))
  {
    hide ItemTokens, Joined, Named, Read, Pieces, Flat, TextOf;
    ItemIsReadable(items[0]);
    JoinedIsReadable(ItemTokens(items[0]), items[1..]);
    if garbage != [] {
      ReadableAppend([Trap(garbage), Newline], Body(items));
      ReadableAppend([Trap(garbage), Newline] + Body(items), [Newline, Rm(garbage)]);
    }
    TextIsRead(Script(items, garbage));
    PiecesAreText(Script(items, garbage));
  }

  /** What makepipeline returns is read as it is meant, whatever characters are in the names of the files. */
  lemma {:induction false} MakePipelineIsRead(
      infile: string, steps: seq<Step>, outfile: string, temps: seq<string>, fs: map<string, Bytes>)
    requires Proper(steps) && TempsNeeded(infile, steps, outfile) <= |temps| && NewNames(temps, infile, outfile, fs)
    ensures var ts := MakePipelineTokens(infile, steps, outfile, temps);
      Flat(Pieces(ts)) == TextOf(ts) && Read(Pieces(ts)) == Some(ts)
  {
    hide ItemsOf, WithEnds, Proper, Named, Read, Pieces, Flat, TextOf, TempsNeeded, FilesAmong;
    var s := WithEnds(infile, steps, outfile);
    TokensAre(infile, steps, outfile, temps);
    WithEndsIsProper(infile, steps, outfile);
    ItemsAreLinked(infile, s, outfile, temps, fs);
    ScriptIsRead(ItemsOf(infile, s, outfile, temps), temps[..TempsNeeded(infile, steps, outfile)]);
  }

  /** What the shell does with a text. */
  function RunText(ps: seq<Piece>, w: World, m: (string, Bytes) -> Bytes, race: string -> Bytes): Option<World> {
    var ts := Read(ps);
    if ts.None? then None else
    var s := ParseScript(ts.value);
    if s.None? then None else Some(RunScript(s.value, w, Vars("", ""), m, race))
  }

  /** The text that makepipeline returns, given to a shell, computes the composition of the steps. */
  lemma {:induction false} TextMeansComposition(
      infile: string, steps: seq<Step>, outfile: string, temps: seq<string>, w: World, m: (string, Bytes) -> Bytes, race: string -> Bytes)
    requires Proper(steps) && (forall b :: m("cat", b) == b)
    requires TempsNeeded(infile, steps, outfile) <= |temps| && NewNames(temps, infile, outfile, w.fs)
    ensures var ts := MakePipelineTokens(infile, steps, outfile, temps);
      var r := RunText(Pieces(ts), w, m, race);
      && Flat(Pieces(ts)) == TextOf(ts) && r.Some?
      && var d := Taken(infile, steps, outfile, w, race);
      var out := Flow(steps, d, m);
      && r.value.fs == (if outfile != "" && !Sinks(steps) then w.fs[outfile := out] else w.fs)
      && r.value.stdout == w.stdout + (if outfile == "" && !Sinks(steps) then out else [])
      && r.value.sunk == w.sunk + (if Sinks(steps) then [(steps[|steps| - 1].cmd, Flow(steps[..|steps| - 1], d, m))] else [])
      && r.value.stdin == (if infile == "" && !Sources(steps) then [] else w.stdin)
  {
    hide NewNames, TempsNeeded, Proper, Read, Pieces, Flat, TextOf, ParseScript, RunScript, Flow, Taken, MakePipelineTokens;
    MakePipelineIsRead(infile, steps, outfile, temps, w.fs);
    ScriptMeansComposition(infile, steps, outfile, temps, w, m, race);
  }
}
