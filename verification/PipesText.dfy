/** The text side of python/lib/pipes.py: quote, the class Template, and makepipeline as it builds the string. */
module PipesText {
  import opened Pipes

  // ---- quote ----

  /** _safechars */
  predicate Safe(c: char) {
    || 'a' <= c <= 'z' || 'A' <= c <= 'Z' || '0' <= c <= '9' || c == '!' || c == '@' || c == '%' || c == '_'
    || c == '-' || c == '+' || c == '=' || c == ':' || c == ',' || c == '.' || c == '/'
  }

  /** _funnychars: special inside double quotes */
  predicate Funny(c: char) { c == '"' || c == '`' || c == '$' || c == '\\' }

  lemma SafeIs(c: char)
    ensures Safe(c) <==>
      || c in "abcdefghijklmnopqrstuvwxyz" || c in "ABCDEFGHIJKLMNOPQRSTUVWXYZ" || c in "0123456789" || c in "!@%_-+=:,./"
    ensures Funny(c) <==> c in "\"`$\\"
  {
  }

  predicate AllSafe(s: string) { forall k :: 0 <= k < |s| ==> Safe(s[k]) }

  function Escaped(s: string): string
    decreases |s|
  {
    if s == "" then "" else (if Funny(s[0]) then "\\" + s[..1] else s[..1]) + Escaped(s[1..])
  }

  function Quote(s: string): string {
    if AllSafe(s) then s
    else if '\'' !in s then "'" + s + "'"
    else "\"" + Escaped(s) + "\""
  }

  /** A name is left as it is if that is safe; quotes are single ones unless the name has one of them. */
  lemma QuoteStyle(s: string)
    ensures (forall c :: c in s ==> Safe(c)) ==> Quote(s) == s
    ensures (exists c :: c in s && !Safe(c)) ==>
      |Quote(s)| >= |s| + 2 && Quote(s)[0] == Quote(s)[|Quote(s)| - 1] == if '\'' in s then '"' else '\''
  {
    hide Safe;
    if forall c :: c in s ==> Safe(c) {
      assert AllSafe(s);
    } else {
      assert !AllSafe(s);
      EscapedIsLonger(s);
    }
  }

  lemma {:induction false} EscapedIsLonger(s: string)
    ensures |Escaped(s)| >= |s|
    decreases |s|
  {
    if s != "" { EscapedIsLonger(s[1..]); }
  }

  /** quote */
  method QuoteFile(file: string) returns (r: string)
    ensures r == Quote(file)
  {
    var safe := true;
    for k := 0 to |file|
      invariant safe && AllSafe(file[..k])
    {
      if !Safe(file[k]) { safe := false; break; }
    }
    hide Safe, Funny;
    if safe {
      assert file[..|file|] == file;
      return file;
    }
    if '\'' !in file { return "'" + file + "'"; }
    var res := "";
    for k := 0 to |file|
      invariant res + Escaped(file[k..]) == Escaped(file)
    {
      assert file[k..][..1] == [file[k]] && file[k..][1..] == file[k + 1..];
      Associate(res, if Funny(file[k]) then "\\" + [file[k]] else [file[k]], Escaped(file[k + 1..]));
      var c := if Funny(file[k]) then "\\" + [file[k]] else [file[k]];
      res := res + c;
    }
    assert res == Escaped(file);
    return "\"" + res + "\"";
  }

  // ---- how a shell reads a word: POSIX Shell Command Language, section 2.2 ----

  /** What ends an unquoted word. */
  predicate Delimiter(c: char) {
    c == ' ' || c == '\t' || c == '\n' || c == ';' || c == '|' || c == '&' || c == '<' || c == '>' || c == '(' || c == ')'
  }

  /** Characters that mean something when they are not quoted. */
  predicate Special(c: char) {
    c == '$' || c == '`' || c == '*' || c == '?' || c == '[' || c == '#' || c == '~'
  }

  /** The rest of a word outside quotes: its literal value and the text after it.  None if the word is not literal
      or a quote is not closed. */
  function Unquoted(t: string): (r: Option<(string, string)>)
    ensures r.Some? ==> |r.value.1| <= |t|
    decreases |t|
  {
    if t == "" || Delimiter(t[0]) then Some(("", t))
    else if t[0] == '\'' then InSingle(t[1..])
    else if t[0] == '"' then InDouble(t[1..])
    else if t[0] == '\\' then (if |t| > 1 then With(t[1], Unquoted(t[2..])) else None)
    else if Special(t[0]) then None
    else With(t[0], Unquoted(t[1..]))
  }

  function With(c: char, r: Option<(string, string)>): Option<(string, string)> {
    if r.None? then None else Some(([c] + r.value.0, r.value.1))
  }

  function InSingle(t: string): (r: Option<(string, string)>)
    ensures r.Some? ==> |r.value.1| <= |t|
    decreases |t|
  {
    if t == "" then None
    else if t[0] == '\'' then Unquoted(t[1..])
    else With(t[0], InSingle(t[1..]))
  }

  function InDouble(t: string): (r: Option<(string, string)>)
    ensures r.Some? ==> |r.value.1| <= |t|
    decreases |t|
  {
    if t == "" then None
    else if t[0] == '"' then Unquoted(t[1..])
    else if t[0] == '\\' && |t| > 1 && (Funny(t[1]) || t[1] == '\n') then With(t[1], InDouble(t[2..]))
    else if t[0] == '$' || t[0] == '`' then None
    else With(t[0], InDouble(t[1..]))
  }

  /** The next word, if there is one. */
  function ReadWord(t: string): (r: Option<(string, string)>)
    ensures r.Some? ==> |r.value.1| <= |t|
  {
    if t == "" || Delimiter(t[0]) then None else Unquoted(t)
  }

  predicate Ends(rest: string) { rest == "" || Delimiter(rest[0]) }

  lemma {:induction false} SafeIsRead(s: string, rest: string)
    requires AllSafe(s) && Ends(rest)
    ensures Unquoted(s + rest) == Some((s, rest))
    decreases |s|
  {
    if s == "" {
      assert s + rest == rest;
    } else {
      assert (s + rest)[0] == s[0];
      assert (s + rest)[1..] == s[1..] + rest;
      assert Safe(s[0]) && [s[0]] + s[1..] == s;
      hide AllSafe;
      SafeIsRead(s[1..], rest);
    }
  }

  lemma {:induction false} SingleIsRead(s: string, rest: string)
    requires '\'' !in s && Ends(rest)
    ensures InSingle(s + "'" + rest) == Some((s, rest))
    decreases |s|
  {
    var t := s + "'" + rest;
    if s == "" {
      assert t[1..] == rest;
    } else {
      assert t[1..] == s[1..] + "'" + rest && t[0] == s[0] && [s[0]] + s[1..] == s;
      SingleIsRead(s[1..], rest);
    }
  }

  lemma {:induction false} DoubleIsRead(s: string, rest: string)
    requires Ends(rest)
    ensures InDouble(Escaped(s) + "\"" + rest) == Some((s, rest))
    decreases |s|
  {
    var t := Escaped(s) + "\"" + rest;
    if s == "" {
      assert t[1..] == rest;
    } else {
      EscapedStep(s, rest);
      hide Escaped;
      DoubleIsRead(s[1..], rest);
      assert [s[0]] + s[1..] == s;
    }
  }

  lemma EscapedStep(s: string, rest: string)
    requires s != ""
    ensures var t, u := Escaped(s) + "\"" + rest, Escaped(s[1..]) + "\"" + rest;
      if Funny(s[0]) then |t| > 1 && t[0] == '\\' && t[1] == s[0] && t[2..] == u else t != "" && t[0] == s[0] && t[1..] == u
  {
    hide Escaped, Funny;
    EscapedOne(s);
    PutInFront(if Funny(s[0]) then ['\\', s[0]] else [s[0]], Escaped(s[1..]), "\"", rest);
  }

  lemma EscapedOne(s: string)
    requires s != ""
    ensures Escaped(s) == (if Funny(s[0]) then ['\\', s[0]] else [s[0]]) + Escaped(s[1..])
  {
    assert s[..1] == [s[0]] && "\\" + [s[0]] == ['\\', s[0]];
  }

  lemma PutInFront(x: string, a: string, b: string, c: string)
    ensures var t, u := x + a + b + c, a + b + c; t == x + u && |t| == |x| + |u| && t[|x|..] == u && t[..|x|] == x
    ensures forall k :: 0 <= k < |x| ==> (x + a + b + c)[k] == x[k]
  {
    assert x + a + b + c == x + (a + b + c);
  }

  lemma SingleQuoted(s: string, rest: string)
    requires '\'' !in s && Ends(rest)
    ensures ReadWord("'" + s + "'" + rest) == Some((s, rest))
  {
    hide Unquoted, InSingle;
    var t := "'" + s + "'" + rest;
    assert t[1..] == s + "'" + rest;
    SingleIsRead(s, rest);
    OpensSingle(t);
  }

  lemma DoubleQuoted(s: string, rest: string)
    requires Ends(rest)
    ensures ReadWord("\"" + Escaped(s) + "\"" + rest) == Some((s, rest))
  {
    hide Unquoted, InDouble, Escaped;
    var t := "\"" + Escaped(s) + "\"" + rest;
    assert t[1..] == Escaped(s) + "\"" + rest;
    DoubleIsRead(s, rest);
    OpensDouble(t);
  }

  lemma NotQuoted(s: string, rest: string)
    requires AllSafe(s) && s != "" && Ends(rest)
    ensures ReadWord(s + rest) == Some((s, rest))
  {
    hide Unquoted;
    assert Safe(s[0]) && (s + rest)[0] == s[0];
    SafeIsRead(s, rest);
  }

  /** A quoted name is read back by the shell as that name, whatever characters are in it; except that a name
      without characters disappears. */
  lemma {:induction false} QuotedIsRead(s: string, rest: string)
    requires Ends(rest)
    ensures ReadWord(Quote(s) + rest) == Some((s, rest)) <==> s != ""
  {
    hide ReadWord, Escaped, AllSafe;
    if s == "" {
      NothingIsRead(rest);
    } else if AllSafe(s) {
      NotQuoted(s, rest);
    } else if '\'' !in s {
      SingleQuoted(s, rest);
    } else {
      DoubleQuoted(s, rest);
    }
  }

  lemma NothingIsRead(rest: string)
    requires Ends(rest)
    ensures ReadWord(Quote("") + rest) == None
  {
    assert Quote("") + rest == rest;
  }

  lemma OpensSingle(t: string)
    requires t != "" && t[0] == '\''
    ensures Unquoted(t) == InSingle(t[1..])
  {
  }

  lemma OpensDouble(t: string)
    requires t != "" && t[0] == '"'
    ensures Unquoted(t) == InDouble(t[1..])
  {
  }

  // ---- the text of a script ----

  function RmText(names: seq<string>): string {
    "rm -f" + Listed(names)
  }

  function Listed(names: seq<string>): string
    decreases |names|
  {
    if names == [] then "" else Listed(names[..|names| - 1]) + " " + Quote(names[|names| - 1])
  }

  function Text(t: Token): string {
    match t
    case Assign(IN, name) => "IN=" + Quote(name)
    case Assign(OUT, name) => "OUT=" + Quote(name)
    case User(step) => step.cmd
    case Less(name) => " <" + Quote(name)
    case Great(name) => " >" + Quote(name)
    case Rm(names) => RmText(names)
    case Trap(names) => "trap " + Quote(RmText(names) + "; exit") + " 1 2 3 13 14 15"
    case Semi => "; "
    case Pipe => " |"
    case Newline => "\n"
    case Open => "{ "
    case Close => "}"
  }

  function TextOf(ts: seq<Token>): string
    decreases |ts|
  {
    if ts == [] then "" else Text(ts[0]) + TextOf(ts[1..])
  }

  lemma {:induction false} TextAppend(a: seq<Token>, b: seq<Token>)
    ensures TextOf(a + b) == TextOf(a) + TextOf(b)
    decreases |a|
  {
    if a == [] {
      assert a + b == b;
    } else {
      assert (a + b)[1..] == a[1..] + b;
      TextAppend(a[1..], b);
    }
  }

  lemma TextOne(t: Token)
    ensures TextOf([t]) == Text(t)
  {
    assert [t][1..] == [] && TextOf([]) == "";
  }

  lemma TextTwo(t: Token, u: Token)
    ensures TextOf([t, u]) == Text(t) + Text(u)
  {
    assert [t, u] == [t] + [u];
    TextAppend([t], [u]);
    TextOne(t);
    TextOne(u);
  }

  // ---- makepipeline ----

  function Prefixed(given: bool, x: string, name: string, cmd: string): string {
    if given then x + Quote(name) + "; " + cmd else cmd
  }

  function Suffixed(cmd: string, given: bool, x: string, name: string): string {
    if given then cmd + x + Quote(name) else cmd
  }

  /** The command of one list element, with its variables and redirections. */
  method ItemText(it: Item) returns (cmd: string)
    ensures cmd == TextOf(ItemTokens(it))
  {
    hide TextOf, Quote, ItemTokens;
    var k := it.step.kind;
    cmd := it.step.cmd;
    if k.output.File? {
      var q := QuoteFile(it.outf);
      cmd := "OUT=" + q + "; " + cmd;
    }
    if k.input.File? {
      var q := QuoteFile(it.inf);
      cmd := "IN=" + q + "; " + cmd;
    }
    if k.input.Std? && it.inf != "" {
      var q := QuoteFile(it.inf);
      cmd := cmd + " <" + q;
    }
    if k.output.Std? && it.outf != "" {
      var q := QuoteFile(it.outf);
      cmd := cmd + " >" + q;
    }
    ItemTokensText(it);
  }

  lemma ItemTokensText(it: Item)
    ensures var k := it.step.kind;
      TextOf(ItemTokens(it)) ==
        Suffixed(Suffixed(
          Prefixed(k.input.File?, "IN=", it.inf, Prefixed(k.output.File?, "OUT=", it.outf, it.step.cmd)),
          k.input.Std? && it.inf != "", " <", it.inf), k.output.Std? && it.outf != "", " >", it.outf)
  {
    hide TextOf, Quote;
    var k := it.step.kind;
    var user := [User(it.step)];
    var less := if k.input.Std? && it.inf != "" then [Less(it.inf)] else [];
    var great := if k.output.Std? && it.outf != "" then [Great(it.outf)] else [];
    var outs := if k.output.File? then [Assign(OUT, it.outf), Semi] else [];
    TextOne(User(it.step));
    PrefixedText(k.output.File?, OUT, it.outf, user);
    PrefixedText(k.input.File?, IN, it.inf, outs + user);
    var head := (if k.input.File? then [Assign(IN, it.inf), Semi] else []) + (outs + user);
    TextAppend(head, less);
    TextAppend(head + less, great);
    NoText();
    TextOne(Less(it.inf));
    TextOne(Great(it.outf));
    assert ItemTokens(it) == head + less + great;
    Appended(TextOf(head), less, Less(it.inf), " <", it.inf);
    Appended(TextOf(head + less), great, Great(it.outf), " >", it.outf);
  }

  lemma NoText()
    ensures TextOf([]) == ""
  {
  }

  lemma Appended(cmd: string, ts: seq<Token>, t: Token, x: string, name: string)
    requires (ts == [] || ts == [t]) && Text(t) == x + Quote(name)
    ensures cmd + TextOf(ts) == Suffixed(cmd, ts != [], x, name)
  {
    hide Quote;
    TextOne(t);
    assert cmd + "" == cmd;
    assert cmd + (x + Quote(name)) == cmd + x + Quote(name);
  }

  lemma PrefixedText(given: bool, v: Var, name: string, ts: seq<Token>)
    ensures TextOf((if given then [Assign(v, name), Semi] else []) + ts)
      == Prefixed(given, if v.IN? then "IN=" else "OUT=", name, TextOf(ts))
  {
    hide Quote;
    TextTwo(Assign(v, name), Semi);
    TextAppend([Assign(v, name), Semi], ts);
    assert [] + ts == ts;
  }

  /** The first loops of makepipeline: the list of commands with their files, and the names of the temporary files,
      of which `temps` are the ones that tempfile.mktemp is going to return. */
  method MakeList(infile: string, steps: seq<Step>, outfile: string, temps: seq<string>)
    returns (list: seq<Item>, garbage: seq<string>)
    requires TempsNeeded(infile, steps, outfile) <= |temps|
    ensures list == ItemsOf(infile, WithEnds(infile, steps, outfile), outfile, temps)
    ensures garbage == temps[..TempsNeeded(infile, steps, outfile)]
  {
    hide FilesAmong, WithEnds, LinkName, ItemsOf;
    ghost var s := WithEnds(infile, steps, outfile);
    TempsAre(infile, steps, outfile);
    list := EndsOfList(infile, steps, outfile);
    garbage := [];
    ListStart(list, infile, s, outfile, temps);
    var i := 1;
    while i < |list|
      invariant 0 < i <= |list| == |s|
      invariant FilesAmong(s, i) <= FilesAmong(s, |s|) && garbage == temps[..FilesAmong(s, i)]
      invariant ListState(list, infile, s, outfile, temps, i)
    {
      ListStep(list, infile, s, outfile, temps, i);
      var lkind := list[i - 1].step.kind;
      var rkind := list[i].step.kind;
      if lkind.output.File? || rkind.input.File? {
        var temp := temps[|garbage|];
        garbage := garbage + [temp];
        list := list[i - 1 := list[i - 1].(outf := temp)][i := list[i].(inf := temp)];
      }
      i := i + 1;
    }
    ListEnd(list, infile, s, outfile, temps);
  }

  /** List element `j` when the boundaries before `i` have been given their files. */
  function ItemAt(infile: string, s: seq<Step>, outfile: string, temps: seq<string>, i: nat, j: nat): Item
    requires j < |s| && FilesAmong(s, |s|) <= |temps|
  {
    Item(
      if j < i then LinkName(infile, s, outfile, temps, j) else "",
      s[j],
      if j + 1 < i || j + 1 == |s| then LinkName(infile, s, outfile, temps, j + 1) else "")
  }

  ghost predicate ListState(list: seq<Item>, infile: string, s: seq<Step>, outfile: string, temps: seq<string>, i: nat)
    requires FilesAmong(s, |s|) <= |temps|
  {
    |list| == |s| && forall j :: 0 <= j < |list| ==> list[j] == ItemAt(infile, s, outfile, temps, i, j)
  }

  lemma {:induction false} ListStart(list: seq<Item>, infile: string, s: seq<Step>, outfile: string, temps: seq<string>)
    requires s != [] && FilesAmong(s, |s|) <= |temps|
    requires list == seq(|s|, j requires 0 <= j < |s| => Item(if j == 0 then infile else "", s[j], if j == |s| - 1 then outfile else ""))
    ensures ListState(list, infile, s, outfile, temps, 1) && FilesAmong(s, 1) == 0
  {
    forall j | 0 <= j < |list| ensures list[j] == ItemAt(infile, s, outfile, temps, 1, j) {
      assert LinkName(infile, s, outfile, temps, 0) == infile && LinkName(infile, s, outfile, temps, |s|) == outfile;
    }
  }

  lemma {:induction false} ListStep(list: seq<Item>, infile: string, s: seq<Step>, outfile: string, temps: seq<string>, i: nat)
    requires FilesAmong(s, |s|) <= |temps| && ListState(list, infile, s, outfile, temps, i) && 0 < i < |s|
    ensures var need := list[i - 1].step.kind.output.File? || list[i].step.kind.input.File?;
      && FilesAmong(s, i + 1) == FilesAmong(s, i) + (if need then 1 else 0)
      && FilesAmong(s, i + 1) <= FilesAmong(s, |s|)
      && if need then
           var temp := temps[FilesAmong(s, i)];
           ListState(list[i - 1 := list[i - 1].(outf := temp)][i := list[i].(inf := temp)], infile, s, outfile, temps, i + 1)
         else ListState(list, infile, s, outfile, temps, i + 1)
  {
    FilesGrow(s, i, |s|);
    FilesAtNext(s, i);
    assert list[i] == ItemAt(infile, s, outfile, temps, i, i);
    assert list[i - 1] == ItemAt(infile, s, outfile, temps, i, i - 1);
    var need := NeedsFile(s, i);
    assert LinkName(infile, s, outfile, temps, i) == if need then temps[FilesAmong(s, i)] else "";
    var list1 := if need
      then list[i - 1 := list[i - 1].(outf := temps[FilesAmong(s, i)])][i := list[i].(inf := temps[FilesAmong(s, i)])]
      else list;
    hide FilesAmong, LinkName;
    forall j | 0 <= j < |list1| ensures list1[j] == ItemAt(infile, s, outfile, temps, i + 1, j) {
      assert list[j] == ItemAt(infile, s, outfile, temps, i, j);
    }
  }

  lemma {:induction false} FilesAtNext(s: seq<Step>, i: nat)
    requires 0 < i < |s|
    ensures FilesAmong(s, i + 1) == FilesAmong(s, i) + if NeedsFile(s, i) then 1 else 0
  {
  }

  lemma {:induction false} ListEnd(list: seq<Item>, infile: string, s: seq<Step>, outfile: string, temps: seq<string>)
    requires FilesAmong(s, |s|) <= |temps| && ListState(list, infile, s, outfile, temps, |s|)
    ensures list == ItemsOf(infile, s, outfile, temps)
  {
    hide LinkName, FilesAmong;
  }

  /** At least one step, and a `cat` at an end that has no file for a step that needs one. */
  method EndsOfList(infile: string, steps: seq<Step>, outfile: string) returns (list: seq<Item>)
    ensures var s := WithEnds(infile, steps, outfile);
      list == seq(|s|, j requires 0 <= j < |s| => Item(if j == 0 then infile else "", s[j], if j == |s| - 1 then outfile else ""))
  {
    list := [];
    for i := 0 to |steps|
      invariant |list| == i && forall j :: 0 <= j < i ==> list[j] == Item("", steps[j], "")
    {
      list := list + [Item("", steps[i], "")];
    }
    if list == [] { list := [Item("", CAT, "")]; }
    if list[0].step.kind.input.File? && infile == "" { list := [Item("", CAT, "")] + list; }
    list := list[0 := list[0].(inf := infile)];
    if list[|list| - 1].step.kind.output.File? && outfile == "" { list := list + [Item("", CAT, "")]; }
    list := list[|list| - 1 := list[|list| - 1].(outf := outfile)];
  }

  /** The commands of the list joined with newlines and pipes. */
  method JoinAll(list: seq<Item>) returns (cmdlist: string)
    requires list != []
    ensures cmdlist == TextOf(Body(list))
  {
    hide ItemTokens, InnerTokens, Text, UsesFile, TextOf;
    cmdlist := ItemText(list[0]);
    ghost var tokens := ItemTokens(list[0]);
    var i := 1;
    while i < |list|
      invariant 0 < i <= |list|
      invariant tokens + Joined(list[i..]) == Body(list)
      invariant cmdlist == TextOf(tokens)
    {
      assert list[i..][0] == list[i] && list[i..][1..] == list[i + 1..];
      ghost var more := if list[i].inf == "" then [Pipe, Newline] + InnerTokens(list[i]) else [Newline] + ItemTokens(list[i]);
      cmdlist := JoinOne(cmdlist, list[i], tokens, more);
      assert tokens + (more + Joined(list[i + 1..])) == (tokens + more) + Joined(list[i + 1..]);
      tokens := tokens + more;
      i := i + 1;
    }
    assert list[i..] == [] && tokens + Joined([]) == tokens;
  }

  method JoinOne(cmdlist0: string, it: Item, ghost tokens: seq<Token>, ghost more: seq<Token>) returns (cmdlist: string)
    requires cmdlist0 == TextOf(tokens)
    requires more == if it.inf == "" then [Pipe, Newline] + InnerTokens(it) else [Newline] + ItemTokens(it)
    ensures cmdlist == TextOf(tokens + more)
  {
    hide ItemTokens, InnerTokens, Text, TextOf;
    cmdlist := cmdlist0;
    var cmd := ItemText(it);
    JoinText(it, more);
    TextAppend(tokens, more);
    if it.inf == "" {
      if UsesFile(it) { cmd := "{ " + cmd + "; }"; }
      assert cmdlist + (" |\n" + cmd) == cmdlist + " |\n" + cmd;
      cmdlist := cmdlist + " |\n" + cmd;
    } else {
      assert cmdlist + ("\n" + cmd) == cmdlist + "\n" + cmd;
      cmdlist := cmdlist + "\n" + cmd;
    }
  }

  method RmCommand(garbage: seq<string>) returns (rmcmd: string)
    ensures rmcmd == RmText(garbage)
  {
    hide Quote;
    rmcmd := "rm -f";
    for k := 0 to |garbage|
      invariant rmcmd == RmText(garbage[..k])
    {
      var q := QuoteFile(garbage[k]);
      assert garbage[..k + 1][..k] == garbage[..k];
      assert "rm -f" + (Listed(garbage[..k]) + " " + q) == "rm -f" + Listed(garbage[..k]) + " " + q;
      rmcmd := rmcmd + " " + q;
    }
    assert garbage[..|garbage|] == garbage;
  }

  /** makepipeline */
  method MakePipeline(infile: string, steps: seq<Step>, outfile: string, temps: seq<string>) returns (cmdlist: string)
    requires TempsNeeded(infile, steps, outfile) <= |temps|
    ensures cmdlist == TextOf(MakePipelineTokens(infile, steps, outfile, temps))
  {
    hide ItemsOf, WithEnds, Body, TempsNeeded, TextOf, Quote, RmText;
    var list, garbage := MakeList(infile, steps, outfile, temps);
    TokensAre(infile, steps, outfile, temps);
    cmdlist := JoinAll(list);
    if garbage != [] {
      var rmcmd := RmCommand(garbage);
      var q := QuoteFile(rmcmd + "; exit");
      var trapcmd := "trap " + q + " 1 2 3 13 14 15";
      ScriptText(list, garbage, trapcmd, rmcmd);
      cmdlist := trapcmd + "\n" + cmdlist + "\n" + rmcmd;
    }
  }

  lemma ScriptText(list: seq<Item>, garbage: seq<string>, trapcmd: string, rmcmd: string)
    requires list != [] && garbage != [] && rmcmd == RmText(garbage)
    requires trapcmd == "trap " + Quote(rmcmd + "; exit") + " 1 2 3 13 14 15"
    ensures TextOf(Script(list, garbage)) == trapcmd + "\n" + TextOf(Body(list)) + "\n" + rmcmd
  {
    hide Body, Quote, RmText, TextOf;
    TextTwo(Trap(garbage), Newline);
    TextTwo(Newline, Rm(garbage));
    TextAppend([Trap(garbage), Newline] + Body(list), [Newline, Rm(garbage)]);
    TextAppend([Trap(garbage), Newline], Body(list));
  }

  lemma JoinText(it: Item, more: seq<Token>)
    requires more == if it.inf == "" then [Pipe, Newline] + InnerTokens(it) else [Newline] + ItemTokens(it)
    ensures var cmd := TextOf(ItemTokens(it));
      TextOf(more) == if it.inf == "" then " |\n" + (if UsesFile(it) then "{ " + cmd + "; }" else cmd) else "\n" + cmd
  {
    hide ItemTokens, TextOf;
    TextTwo(Pipe, Newline);
    TextTwo(Semi, Close);
    TextOne(Open);
    TextOne(Newline);
    TextAppend([Pipe, Newline], InnerTokens(it));
    TextAppend([Newline], ItemTokens(it));
    TextAppend([Open] + ItemTokens(it), [Semi, Close]);
    TextAppend([Open], ItemTokens(it));
  }

  // ---- templates ----

  datatype Error = BadKind | OnlyPrepended | OnlyAppended | EndsWithSink | BeginsWithSource | MissingIn | MissingOut

  datatype Outcome = Fine | Refused(error: Error)

  /** regex.search for a string */
  predicate Contains(cmd: string, word: string) {
    exists k :: 0 <= k <= |cmd| && At(cmd, word, k)
  }

  predicate At(cmd: string, word: string, k: nat)
    requires k <= |cmd|
  {
    k + |word| <= |cmd| && cmd[k..k + |word|] == word
  }

  predicate WordChar(c: char) { 'a' <= c <= 'z' || 'A' <= c <= 'Z' || '0' <= c <= '9' }

  /** regex.search for a string that must be the end of a word */
  predicate ContainsWord(cmd: string, word: string) {
    exists k :: 0 <= k <= |cmd| && At(cmd, word, k)
      && (k + |word| == |cmd| || !WordChar(cmd[k + |word|]))
  }

  /** What is wrong with a step that is to be added at the end. */
  predicate AppendFault(steps: seq<Step>, cmd: string, kind: Kind, e: Error) {
    match e
    case BadKind => !StepKind(kind)
    case OnlyPrepended => kind == SOURCE
    case EndsWithSink => Sinks(steps)
    case MissingIn => kind.input.File? && !Contains(cmd, "$IN")
    case MissingOut => kind.output.File? && !Contains(cmd, "$OUT")
    case _ => false
  }

  /** What is wrong with a step that is to be added at the front. */
  predicate PrependFault(steps: seq<Step>, cmd: string, kind: Kind, e: Error) {
    match e
    case BadKind => !StepKind(kind)
    case OnlyAppended => kind == SINK
    case BeginsWithSource => Sources(steps)
    case MissingIn => kind.input.File? && !ContainsWord(cmd, "$IN")
    case MissingOut => kind.output.File? && !ContainsWord(cmd, "$OUT")
    case _ => false
  }

  /** The order in which faults are looked for. */
  function Rank(e: Error): nat {
    match e
    case BadKind => 0
    case OnlyPrepended => 1
    case OnlyAppended => 1
    case EndsWithSink => 2
    case BeginsWithSource => 2
    case MissingIn => 3
    case MissingOut => 4
  }

  class Template {
    var steps: seq<Step>

    ghost predicate Valid()
      reads this
    {
      Proper(steps)
    }

    constructor ()
      ensures Valid() && steps == []
    {
      steps := [];
    }

    /** append: one more step behind the others, or the first fault that is found with it. */
    method Append(cmd: string, kind: Kind) returns (r: Outcome)
      requires Valid()
      modifies this
      ensures Valid()
      ensures steps == if r.Fine? then old(steps) + [Step(cmd, kind)] else old(steps)
      ensures r.Fine? ==> forall e :: !AppendFault(old(steps), cmd, kind, e)
      ensures r.Refused? ==> AppendFault(old(steps), cmd, kind, r.error)
      ensures r.Refused? ==> forall e :: AppendFault(old(steps), cmd, kind, e) ==> Rank(r.error) <= Rank(e)
    {
      if !StepKind(kind) { return Refused(BadKind); }
      if kind == SOURCE { return Refused(OnlyPrepended); }
      if steps != [] && steps[|steps| - 1].kind == SINK { return Refused(EndsWithSink); }
      if kind.input.File? && !Contains(cmd, "$IN") { return Refused(MissingIn); }
      if kind.output.File? && !Contains(cmd, "$OUT") { return Refused(MissingOut); }
      steps := steps + [Step(cmd, kind)];
      return Fine;
    }

    /** prepend: one more step in front of the others, or the first fault that is found with it. */
    method Prepend(cmd: string, kind: Kind) returns (r: Outcome)
      requires Valid()
      modifies this
      ensures Valid()
      ensures steps == if r.Fine? then [Step(cmd, kind)] + old(steps) else old(steps)
      ensures r.Fine? ==> forall e :: !PrependFault(old(steps), cmd, kind, e)
      ensures r.Refused? ==> PrependFault(old(steps), cmd, kind, r.error)
      ensures r.Refused? ==> forall e :: PrependFault(old(steps), cmd, kind, e) ==> Rank(r.error) <= Rank(e)
    {
      if !StepKind(kind) { return Refused(BadKind); }
      if kind == SINK { return Refused(OnlyAppended); }
      if steps != [] && steps[0].kind == SOURCE { return Refused(BeginsWithSource); }
      if kind.input.File? && !ContainsWord(cmd, "$IN") { return Refused(MissingIn); }
      if kind.output.File? && !ContainsWord(cmd, "$OUT") { return Refused(MissingOut); }
      steps := [Step(cmd, kind)] + steps;
      return Fine;
    }

    /** t.copy(infile, outfile): the command that is run, and what running it does */
    method Copy(
        infile: string, outfile: string, temps: seq<string>,
        ghost w: World, ghost m: (string, Bytes) -> Bytes, ghost race: string -> Bytes)
      returns (cmd: string)
      requires Valid() && (forall b :: m("cat", b) == b)
      requires TempsNeeded(infile, steps, outfile) <= |temps| && NewNames(temps, infile, outfile, w.fs)
      ensures cmd == TextOf(MakePipelineTokens(infile, steps, outfile, temps))
      ensures var s := ParseScript(MakePipelineTokens(infile, steps, outfile, temps));
        s.Some? &&
        var w' := RunScript(s.value, w, Vars("", ""), m, race);
        var d := Taken(infile, steps, outfile, w, race);
        var out := Flow(steps, d, m);
        && w'.fs == (if outfile != "" && !Sinks(steps) then w.fs[outfile := out] else w.fs)
        && w'.stdout == w.stdout + (if outfile == "" && !Sinks(steps) then out else [])
        && w'.sunk == w.sunk + (if Sinks(steps) then [(steps[|steps| - 1].cmd, Flow(steps[..|steps| - 1], d, m))] else [])
        && w'.stdin == (if infile == "" && !Sources(steps) then [] else w.stdin)
    {
      assert Proper(steps);
      hide *;
      ScriptMeansComposition(infile, steps, outfile, temps, w, m, race);
      cmd := MakePipeline(infile, steps, outfile, temps);
    }
  }
}
