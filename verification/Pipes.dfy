/** python/lib/pipes.py: conversion pipelines compiled to shell commands.

  A template is a list of steps, each of which reads and writes files or streams.  makepipeline turns it into a
  shell script with temporary files.  The script is given a meaning by a small shell: a parser for the token
  sequences that occur (sections 2.9.2, 2.9.3 and 2.10 of the POSIX Shell Command Language) and an interpreter.
  What a user's command does is a function on bytes.
  */
module Pipes {

  type Bytes = seq<bv8>

  datatype Option<T> = None | Some(value: T)

  // ---- steps ----

  /** How a step reads or writes: a named file ('f'), a stream ('-') or not at all ('.'). */
  datatype End = File | Std | Nothing

  datatype Kind = Kind(input: End, output: End)

  const SOURCE := Kind(Nothing, Std)
  const SINK := Kind(Std, Nothing)

  /** stepkinds */
  predicate StepKind(k: Kind) {
    k == SOURCE || k == SINK || (!k.input.Nothing? && !k.output.Nothing?)
  }

  datatype Step = Step(cmd: string, kind: Kind)

  const CAT := Step("cat", Kind(Std, Std))

  /** What append and prepend see to: SOURCE only comes first and SINK only last. */
  predicate Proper(steps: seq<Step>) {
    forall i :: 0 <= i < |steps| ==>
      && StepKind(steps[i].kind)
      && (steps[i].kind.input.Nothing? ==> i == 0)
      && (steps[i].kind.output.Nothing? ==> i == |steps| - 1)
  }

  /** A step with the names of its files; no name is "". */
  datatype Item = Item(inf: string, step: Step, outf: string)

  predicate ReadsNamed(it: Item) { it.step.kind.input.File? || (it.step.kind.input.Std? && it.inf != "") }

  predicate WritesNamed(it: Item) { it.step.kind.output.File? || (it.step.kind.output.Std? && it.outf != "") }

  /** The output goes to standard output. */
  predicate Streams(it: Item) { it.step.kind.output.Std? && it.outf == "" }

  // ---- the world ----

  datatype Event = Read(name: string) | Wrote(name: string) | Removed(name: string)

  /** Files, the streams of the script, what sinks were given, and what happened to files. */
  datatype World = World(
    fs: map<string, Bytes>, stdin: Bytes, stdout: Bytes, sunk: seq<(string, Bytes)>, log: seq<Event>)

  function Content(fs: map<string, Bytes>, name: string): Bytes {
    if name in fs then fs[name] else []
  }

  // ---- the meaning of a template ----

  /** The composition of the steps. */
  function Flow(steps: seq<Step>, d: Bytes, m: (string, Bytes) -> Bytes): Bytes
    decreases |steps|
  {
    if steps == [] then d else Flow(steps[1..], m(steps[0].cmd, d), m)
  }

  /** One step done on the data `d`. */
  function Done(it: Item, w: World, d: Bytes, m: (string, Bytes) -> Bytes): World {
    w.(
      fs := if WritesNamed(it) then w.fs[it.outf := m(it.step.cmd, d)] else w.fs,
      sunk := if it.step.kind.output.Nothing? then w.sunk + [(it.step.cmd, d)] else w.sunk,
      log := w.log + (if ReadsNamed(it) then [Read(it.inf)] else []) + (if WritesNamed(it) then [Wrote(it.outf)] else []))
  }

  /** All steps done one after the other, each on the output of the one before. */
  function AllDone(items: seq<Item>, w: World, d: Bytes, m: (string, Bytes) -> Bytes): World
    decreases |items|
  {
    if items == [] then w else AllDone(items[1..], Done(items[0], w, d, m), m(items[0].step.cmd, d), m)
  }

  function Steps(items: seq<Item>): seq<Step> { seq(|items|, i requires 0 <= i < |items| => items[i].step) }

  // ---- a small shell ----

  datatype Var = IN | OUT

  datatype Token =
    | Assign(v: Var, name: string)
    | User(step: Step)
    | Less(name: string)
    | Great(name: string)
    | Rm(names: seq<string>)
    | Trap(names: seq<string>)
    | Semi
    | Pipe
    | Newline
    | Open
    | Close

  datatype Simple =
    | Assignment(v: Var, name: string)
    | Command(step: Step, inf: string, outf: string)
    | Remove(names: seq<string>)
    | OnSignal(names: seq<string>)

  /** A simple command, or commands in braces. */
  datatype Part = One(s: Simple) | Group(body: seq<Simple>)

  type Pipeline = seq<Part>

  // ---- parsing ----

  function ParseRedirections(step: Step, inf: string, outf: string, ts: seq<Token>): (r: (Simple, seq<Token>))
    ensures |r.1| <= |ts|
    decreases |ts|
  {
    if ts != [] && ts[0].Less? then ParseRedirections(step, ts[0].name, outf, ts[1..])
    else if ts != [] && ts[0].Great? then ParseRedirections(step, inf, ts[0].name, ts[1..])
    else (Command(step, inf, outf), ts)
  }

  function ParseSimple(ts: seq<Token>): (r: Option<(Simple, seq<Token>)>)
    ensures r.Some? ==> |r.value.1| < |ts|
  {
    if ts == [] then None else
    match ts[0]
    case Assign(v, name) => Some((Assignment(v, name), ts[1..]))
    case User(step) => Some(ParseRedirections(step, "", "", ts[1..]))
    case Rm(names) => Some((Remove(names), ts[1..]))
    case Trap(names) => Some((OnSignal(names), ts[1..]))
    case _ => None
  }

  /** Simple commands up to the closing brace, each with a semicolon. */
  function ParseGroup(ts: seq<Token>): (r: Option<(seq<Simple>, seq<Token>)>)
    ensures r.Some? ==> |r.value.1| < |ts|
    decreases |ts|
  {
    if ts != [] && ts[0].Close? then Some(([], ts[1..])) else
    var s := ParseSimple(ts);
    if s.None? || s.value.1 == [] || !s.value.1[0].Semi? then None else
    var rest := ParseGroup(s.value.1[1..]);
    if rest.None? then None else Some(([s.value.0] + rest.value.0, rest.value.1))
  }

  function ParsePart(ts: seq<Token>): (r: Option<(Part, seq<Token>)>)
    ensures r.Some? ==> |r.value.1| < |ts|
  {
    if ts != [] && ts[0].Open? then
      var g := ParseGroup(ts[1..]);
      if g.None? || g.value.0 == [] then None else Some((Group(g.value.0), g.value.1))
    else
      var s := ParseSimple(ts);
      if s.None? then None else Some((One(s.value.0), s.value.1))
  }

  function SkipNewlines(ts: seq<Token>): (r: seq<Token>)
    ensures |r| <= |ts|
  {
    if ts != [] && ts[0].Newline? then SkipNewlines(ts[1..]) else ts
  }

  function ParsePipeline(ts: seq<Token>): (r: Option<(Pipeline, seq<Token>)>)
    ensures r.Some? ==> |r.value.1| < |ts| && r.value.0 != []
    decreases |ts|
  {
    var c := ParsePart(ts);
    if c.None? then None
    else if c.value.1 != [] && c.value.1[0].Pipe? then
      var rest := ParsePipeline(SkipNewlines(c.value.1[1..]));
      if rest.None? then None else Some(([c.value.0] + rest.value.0, rest.value.1))
    else Some(([c.value.0], c.value.1))
  }

  /** Pipelines separated by semicolons and newlines. */
  function ParseScript(ts: seq<Token>): (r: Option<seq<Pipeline>>)
    ensures r.Some? ==> forall i :: 0 <= i < |r.value| ==> r.value[i] != []
    decreases |ts|
  {
    if ts == [] then Some([]) else
    var p := ParsePipeline(ts);
    if p.None? then None
    else if p.value.1 == [] then Some([p.value.0])
    else if p.value.1[0].Semi? || p.value.1[0].Newline? then
      var rest := ParseScript(p.value.1[1..]);
      if rest.None? then None else Some([p.value.0] + rest.value)
    else None
  }

  // ---- running ----

  datatype Vars = Vars(inName: string, outName: string)

  /** The effect of a command, the variables afterwards, its output, and what is left of its standard input. */
  datatype Effect = Effect(w: World, v: Vars, out: Bytes, left: Bytes)

  function Logged(w: World, e: Event): World { w.(log := w.log + [e]) }

  function Removing(w: World, names: seq<string>): World
    decreases |names|
  {
    if names == [] then w else Removing(Logged(w.(fs := w.fs - {names[0]}), Removed(names[0])), names[1..])
  }

  /** A user's command with its redirections.  The shell opens the file behind `>` before it starts the command, and
      empties it by that; a file that the command gets as $OUT is only opened by the command. */
  function RunUser(step: Step, inf: string, outf: string, w: World, v: Vars, input: Bytes, m: (string, Bytes) -> Bytes): Effect {
    var source := if step.kind.input.File? then v.inName else if step.kind.input.Std? then inf else "";
    var w0 := if step.kind.output.Std? && outf != "" then w.(fs := w.fs[outf := []]) else w;
    var w1 := if source != "" then Logged(w0, Read(source)) else w0;
    var d := if source != "" then Content(w0.fs, source) else if step.kind.input.Std? then input else [];
    var left := if step.kind.input.Std? && inf == "" then [] else input;
    var target := if step.kind.output.File? then v.outName else if step.kind.output.Std? then outf else "";
    var out := m(step.cmd, d);
    if step.kind.output.Nothing? then Effect(w1.(sunk := w1.sunk + [(step.cmd, d)]), v, [], left)
    else if target != "" then Effect(Logged(w1.(fs := w1.fs[target := out]), Wrote(target)), v, [], left)
    else Effect(w1, v, if step.kind.output.Std? then out else [], left)
  }

  function RunSimple(s: Simple, w: World, v: Vars, input: Bytes, m: (string, Bytes) -> Bytes): Effect {
    match s
    case Assignment(IN, name) => Effect(w, v.(inName := name), [], input)
    case Assignment(OUT, name) => Effect(w, v.(outName := name), [], input)
    case Command(step, inf, outf) => RunUser(step, inf, outf, w, v, input, m)
    case Remove(names) => Effect(Removing(w, names), v, [], input)
    case OnSignal(_) => Effect(w, v, [], input)
  }

  function RunGroup(ss: seq<Simple>, w: World, v: Vars, input: Bytes, m: (string, Bytes) -> Bytes): Effect
    decreases |ss|
  {
    if ss == [] then Effect(w, v, [], input)
    else
      var e := RunSimple(ss[0], w, v, input, m);
      var e' := RunGroup(ss[1..], e.w, e.v, e.left, m);
      e'.(out := e.out + e'.out)
  }

  function RunPart(p: Part, w: World, v: Vars, input: Bytes, m: (string, Bytes) -> Bytes): Effect {
    match p
    case One(s) => RunSimple(s, w, v, input, m)
    case Group(body) => RunGroup(body, w, v, input, m)
  }

  /** The parts of a pipeline, each in a subshell: assignments do not outlive it. */
  function RunParts(p: Pipeline, w: World, v: Vars, input: Bytes, m: (string, Bytes) -> Bytes): Effect
    decreases |p|
  {
    if p == [] then Effect(w, v, input, input)
    else
      var e := RunPart(p[0], w, v, input, m);
      var e' := RunParts(p[1..], e.w, v, e.out, m);
      Effect(e'.w, v, e'.out, e.left)
  }

  /** The files that a part writes. */
  function Targets(ss: seq<Simple>, v: Vars): set<string>
    decreases |ss|
  {
    if ss == [] then {} else
    match ss[0]
    case Assignment(IN, name) => Targets(ss[1..], v.(inName := name))
    case Assignment(OUT, name) => Targets(ss[1..], v.(outName := name))
    case Command(step, inf, outf) =>
      (if step.kind.output.File? && v.outName != "" then {v.outName}
       else if step.kind.output.Std? && outf != "" then {outf}
       else {}) + Targets(ss[1..], v)
    case _ => Targets(ss[1..], v)
  }

  function PartTargets(p: Part, v: Vars): set<string> {
    Targets(match p case One(s) => [s] case Group(body) => body, v)
  }

  function PipelineTargets(p: Pipeline, v: Vars): set<string>
    decreases |p|
  {
    if p == [] then {} else PartTargets(p[0], v) + PipelineTargets(p[1..], v)
  }

  /** The parts of a pipeline run at the same time.  What the first one finds in a file that another one writes
      depends on which is faster: `race` says what it is. */
  function Raced(fs: map<string, Bytes>, names: set<string>, race: string -> Bytes): map<string, Bytes> {
    map f | f in fs.Keys + names :: if f in names then race(f) else fs[f]
  }

  function RunPipeline(p: Pipeline, w: World, v: Vars, m: (string, Bytes) -> Bytes, race: string -> Bytes): (World, Vars)
    requires p != []
  {
    var w0 := w.(fs := Raced(w.fs, PipelineTargets(p[1..], v), race));
    var e := if |p| == 1 then RunPart(p[0], w0, v, w.stdin, m) else RunParts(p, w0, v, w.stdin, m);
    (e.w.(stdin := e.left, stdout := e.w.stdout + e.out), e.v)
  }

  function RunScript(ps: seq<Pipeline>, w: World, v: Vars, m: (string, Bytes) -> Bytes, race: string -> Bytes): World
    requires forall i :: 0 <= i < |ps| ==> ps[i] != []
    decreases |ps|
  {
    if ps == [] then w
    else
      var (w1, v1) := RunPipeline(ps[0], w, v, m, race);
      RunScript(ps[1..], w1, v1, m, race)
  }

  // ---- the script of a list of items ----

  predicate UsesFile(it: Item) { it.step.kind.input.File? || it.step.kind.output.File? }

  /** IN=...; OUT=...; in front of a command that wants files */
  function AssignTokens(it: Item): seq<Token> {
    (if it.step.kind.input.File? then [Assign(IN, it.inf), Semi] else [])
    + (if it.step.kind.output.File? then [Assign(OUT, it.outf), Semi] else [])
  }

  function UserTokens(it: Item): seq<Token> {
    [User(it.step)]
    + (if it.step.kind.input.Std? && it.inf != "" then [Less(it.inf)] else [])
    + (if it.step.kind.output.Std? && it.outf != "" then [Great(it.outf)] else [])
  }

  function ItemTokens(it: Item): seq<Token> { AssignTokens(it) + UserTokens(it) }

  /** An item that is not the first of its pipeline. */
  function InnerTokens(it: Item): seq<Token> {
    if UsesFile(it) then [Open] + ItemTokens(it) + [Semi, Close] else ItemTokens(it)
  }

  function Joined(items: seq<Item>): seq<Token>
    decreases |items|
  {
    if items == [] then []
    else
      (if items[0].inf == "" then [Pipe, Newline] + InnerTokens(items[0]) else [Newline] + ItemTokens(items[0]))
      + Joined(items[1..])
  }

  /** cmdlist before the temporary files are dealt with */
  function Body(items: seq<Item>): seq<Token>
    requires items != []
  {
    ItemTokens(items[0]) + Joined(items[1..])
  }

  /** What makepipeline returns. */
  function Script(items: seq<Item>, garbage: seq<string>): seq<Token>
    requires items != []
  {
    if garbage == [] then Body(items)
    else [Trap(garbage), Newline] + Body(items) + [Newline, Rm(garbage)]
  }

  // ---- and how it is parsed ----

  function Assignments(it: Item): seq<Simple> {
    (if it.step.kind.input.File? then [Assignment(IN, it.inf)] else [])
    + (if it.step.kind.output.File? then [Assignment(OUT, it.outf)] else [])
  }

  function CommandOf(it: Item): Simple {
    Command(it.step, if it.step.kind.input.Std? then it.inf else "", if it.step.kind.output.Std? then it.outf else "")
  }

  function InnerPart(it: Item): Part {
    if UsesFile(it) then Group(Assignments(it) + [CommandOf(it)]) else One(CommandOf(it))
  }

  /** The items that belong to the pipeline of the one before them. */
  function InnerItems(items: seq<Item>): (r: seq<Item>)
    ensures |r| <= |items|
    decreases |items|
  {
    if items == [] || items[0].inf != "" then [] else [items[0]] + InnerItems(items[1..])
  }

  function InnerParts(items: seq<Item>): Pipeline
    decreases |items|
  {
    if items == [] then [] else [InnerPart(items[0])] + InnerParts(items[1..])
  }

  function OneByOne(ss: seq<Simple>): (r: seq<Pipeline>)
    ensures |r| == |ss|
  {
    seq(|ss|, i requires 0 <= i < |ss| => [One(ss[i])])
  }

  function Pipelines(items: seq<Item>): (r: seq<Pipeline>)
    requires items != []
    ensures forall i :: 0 <= i < |r| ==> r[i] != []
    decreases |items|
  {
    var inner := InnerItems(items[1..]);
    var rest := items[1 + |inner|..];
    OneByOne(Assignments(items[0])) + [[One(CommandOf(items[0]))] + InnerParts(inner)]
    + if rest == [] then [] else Pipelines(rest)
  }

  function InnerJoined(items: seq<Item>): seq<Token>
    decreases |items|
  {
    if items == [] then [] else [Pipe, Newline] + InnerTokens(items[0]) + InnerJoined(items[1..])
  }

  lemma {:induction false} JoinedSplits(items: seq<Item>)
    ensures var inner := InnerItems(items); var rest := items[|inner|..];
      Joined(items) == InnerJoined(inner) + (if rest == [] then [] else [Newline] + Body(rest))
    decreases |items|
  {
    hide InnerTokens, ItemTokens;
    if items != [] && items[0].inf == "" {
      JoinedSplits(items[1..]);
      JoinedInside(items);
    } else if items != [] {
      assert InnerJoined([]) == [] && InnerItems(items) == [];
      assert [] + ([Newline] + Body(items)) == [Newline] + Body(items);
    }
  }

  lemma JoinedInside(items: seq<Item>)
    requires items != [] && items[0].inf == ""
    requires var inner := InnerItems(items[1..]); var rest := items[1..][|inner|..];
      Joined(items[1..]) == InnerJoined(inner) + (if rest == [] then [] else [Newline] + Body(rest))
    ensures var inner := InnerItems(items); var rest := items[|inner|..];
      Joined(items) == InnerJoined(inner) + (if rest == [] then [] else [Newline] + Body(rest))
  {
    hide InnerTokens, ItemTokens, InnerItems, Body, Joined, InnerJoined;
    var inner := InnerItems(items[1..]);
    var rest := items[|inner| + 1..];
    InsideStep(items);
    assert items[1..][|inner|..] == rest;
    Associate([Pipe, Newline] + InnerTokens(items[0]), InnerJoined(inner), if rest == [] then [] else [Newline] + Body(rest));
  }

  lemma InsideStep(items: seq<Item>)
    requires items != [] && items[0].inf == ""
    ensures InnerItems(items) == [items[0]] + InnerItems(items[1..])
    ensures Joined(items) == [Pipe, Newline] + InnerTokens(items[0]) + Joined(items[1..])
    ensures InnerJoined(InnerItems(items)) == [Pipe, Newline] + InnerTokens(items[0]) + InnerJoined(InnerItems(items[1..]))
  {
    hide InnerTokens, ItemTokens;
    assert InnerItems(items)[0] == items[0] && InnerItems(items)[1..] == InnerItems(items[1..]);
  }

  lemma Associate<T>(a: seq<T>, b: seq<T>, c: seq<T>)
    ensures a + b + c == a + (b + c)
  {
  }

  predicate EndsCommand(ts: seq<Token>) { ts == [] || ts[0].Semi? || ts[0].Newline? || ts[0].Pipe? }

  predicate EndsPipeline(ts: seq<Token>) { ts == [] || ts[0].Semi? || ts[0].Newline? }

  lemma LessParses(step: Step, inf: string, given: bool, ts: seq<Token>)
    ensures ParseRedirections(step, "", "", (if given then [Less(inf)] else []) + ts)
      == ParseRedirections(step, if given then inf else "", "", ts)
  {
    assert [] + ts == ts && ([Less(inf)] + ts)[1..] == ts;
  }

  lemma GreatParses(step: Step, inf: string, outf: string, given: bool, rest: seq<Token>)
    requires EndsCommand(rest)
    ensures ParseRedirections(step, inf, "", (if given then [Great(outf)] else []) + rest)
      == (Command(step, inf, if given then outf else ""), rest)
  {
    assert [] + rest == rest && ([Great(outf)] + rest)[1..] == rest;
  }

  lemma UserParses(it: Item, rest: seq<Token>)
    requires EndsCommand(rest)
    ensures ParseSimple(UserTokens(it) + rest) == Some((CommandOf(it), rest))
  {
    hide ParseRedirections, EndsCommand;
    var k := it.step.kind;
    var less := if k.input.Std? && it.inf != "" then [Less(it.inf)] else [];
    var great := if k.output.Std? && it.outf != "" then [Great(it.outf)] else [];
    assert (UserTokens(it) + rest)[1..] == less + (great + rest);
    LessParses(it.step, it.inf, less != [], great + rest);
    GreatParses(it.step, if less != [] then it.inf else "", it.outf, great != [], rest);
  }

  lemma GroupStep(ts: seq<Token>, s: Simple, rest: seq<Token>, ss: seq<Simple>, end: seq<Token>)
    requires ts != [] && !ts[0].Close? && ParseSimple(ts) == Some((s, [Semi] + rest))
    requires ParseGroup(rest) == Some((ss, end))
    ensures ParseGroup(ts) == Some(([s] + ss, end))
  {
    assert ([Semi] + rest)[1..] == rest;
  }

  lemma AssignStep(v: Var, name: string, ts: seq<Token>, ss: seq<Simple>, end: seq<Token>)
    requires ParseGroup(ts) == Some((ss, end))
    ensures ParseGroup([Assign(v, name), Semi] + ts) == Some(([Assignment(v, name)] + ss, end))
  {
    var all := [Assign(v, name), Semi] + ts;
    assert all[1..] == [Semi] + ts;
    GroupStep(all, Assignment(v, name), ts, ss, end);
  }

  lemma PipeStep(ts: seq<Token>, c: Part, rest: seq<Token>, p: Pipeline, end: seq<Token>)
    requires ParsePart(ts) == Some((c, [Pipe, Newline] + rest)) && rest != [] && !rest[0].Newline?
    requires ParsePipeline(rest) == Some((p, end))
    ensures ParsePipeline(ts) == Some(([c] + p, end))
  {
    var after := [Pipe, Newline] + rest;
    assert after[1..] == [Newline] + rest && after[1..][1..] == rest;
    assert SkipNewlines(after[1..]) == rest;
  }

  lemma PipeEnd(ts: seq<Token>, c: Part, rest: seq<Token>)
    requires ParsePart(ts) == Some((c, rest)) && EndsPipeline(rest)
    ensures ParsePipeline(ts) == Some(([c], rest))
  {
  }

  lemma ScriptStep(ts: seq<Token>, p: Pipeline, sep: Token, rest: seq<Token>, ps: seq<Pipeline>)
    requires ParsePipeline(ts) == Some((p, [sep] + rest)) && (sep.Semi? || sep.Newline?)
    requires ParseScript(rest) == Some(ps)
    ensures ParseScript(ts) == Some([p] + ps)
  {
    assert ([sep] + rest)[1..] == rest && ts != [];
  }

  lemma ScriptEnd(ts: seq<Token>, p: Pipeline)
    requires ParsePipeline(ts) == Some((p, []))
    ensures ParseScript(ts) == Some([p])
  {
    assert ts != [];
  }

  /** An assignment that may be missing, and the rest of a group. */
  lemma MaybeAssignStep(given: bool, v: Var, name: string, ts: seq<Token>, ss: seq<Simple>, end: seq<Token>)
    requires ParseGroup(ts) == Some((ss, end))
    ensures ParseGroup((if given then [Assign(v, name), Semi] else []) + ts)
      == Some(((if given then [Assignment(v, name)] else []) + ss, end))
  {
    if given {
      AssignStep(v, name, ts, ss, end);
    } else {
      assert [] + ts == ts && [] + ss == ss;
    }
  }

  lemma GroupParses(it: Item, rest: seq<Token>)
    ensures ParseGroup(ItemTokens(it) + [Semi, Close] + rest) == Some((Assignments(it) + [CommandOf(it)], rest))
  {
    hide ParseGroup, ParseSimple, UserTokens, CommandOf;
    var k := it.step.kind;
    var c := [CommandOf(it)];
    var user := UserTokens(it) + ([Semi] + ([Close] + rest));
    UserParses(it, [Semi] + ([Close] + rest));
    UserTokensNotEmpty(it);
    GroupEnds(rest);
    GroupStep(user, CommandOf(it), [Close] + rest, [], rest);
    assert c + [] == c;
    MaybeAssignStep(k.output.File?, OUT, it.outf, user, c, rest);
    var out := (if k.output.File? then [Assign(OUT, it.outf), Semi] else []) + user;
    var outs := (if k.output.File? then [Assignment(OUT, it.outf)] else []) + c;
    MaybeAssignStep(k.input.File?, IN, it.inf, out, outs, rest);
    assert (if k.input.File? then [Assign(IN, it.inf), Semi] else []) + out == ItemTokens(it) + [Semi, Close] + rest;
    assert (if k.input.File? then [Assignment(IN, it.inf)] else []) + outs == Assignments(it) + c;
  }

  lemma GroupEnds(rest: seq<Token>)
    ensures ParseGroup([Close] + rest) == Some(([], rest))
  {
    assert ([Close] + rest)[1..] == rest;
  }

  lemma InnerParses(it: Item, rest: seq<Token>)
    requires EndsCommand(rest)
    ensures ParsePart(InnerTokens(it) + rest) == Some((InnerPart(it), rest))
  {
    if UsesFile(it) {
      assert (InnerTokens(it) + rest)[1..] == ItemTokens(it) + [Semi, Close] + rest;
      GroupParses(it, rest);
    } else {
      assert InnerTokens(it) == UserTokens(it);
      UserParses(it, rest);
      assert (UserTokens(it) + rest)[0].User?;
    }
  }

  lemma InnerTokensStart(it: Item)
    ensures InnerTokens(it) != [] && !InnerTokens(it)[0].Newline?
  {
  }

  lemma {:induction false} InnerJoinedParses(items: seq<Item>, rest: seq<Token>)
    requires items != [] && EndsPipeline(rest)
    ensures ParsePipeline(InnerTokens(items[0]) + (InnerJoined(items[1..]) + rest)) == Some((InnerParts(items), rest))
    decreases |items|
  {
    hide InnerTokens, InnerPart, ParsePart, ParsePipeline;
    var tail := InnerJoined(items[1..]) + rest;
    var ts := InnerTokens(items[0]) + tail;
    if |items| > 1 {
      var next := InnerTokens(items[1]) + (InnerJoined(items[2..]) + rest);
      assert items[1..][1..] == items[2..];
      assert tail == [Pipe, Newline] + next;
      InnerTokensStart(items[1]);
      InnerParses(items[0], tail);
      InnerJoinedParses(items[1..], rest);
      PipeStep(ts, InnerPart(items[0]), next, InnerParts(items[1..]), rest);
    } else {
      assert tail == rest;
      InnerParses(items[0], rest);
      PipeEnd(ts, InnerPart(items[0]), rest);
      assert InnerParts(items) == [InnerPart(items[0])];
    }
  }

  lemma UserPartParses(it: Item, rest: seq<Token>)
    requires EndsCommand(rest)
    ensures ParsePart(UserTokens(it) + rest) == Some((One(CommandOf(it)), rest))
  {
    UserParses(it, rest);
    assert (UserTokens(it) + rest)[0].User?;
  }

  lemma PipelineParses(it: Item, inner: seq<Item>, rest: seq<Token>)
    requires EndsPipeline(rest)
    ensures ParsePipeline(UserTokens(it) + (InnerJoined(inner) + rest)) == Some(([One(CommandOf(it))] + InnerParts(inner), rest))
  {
    hide InnerTokens, ParsePart, ParsePipeline, UserTokens, CommandOf;
    var tail := InnerJoined(inner) + rest;
    if inner == [] {
      assert tail == rest;
      UserPartParses(it, rest);
      PipeEnd(UserTokens(it) + rest, One(CommandOf(it)), rest);
      assert [One(CommandOf(it))] + InnerParts(inner) == [One(CommandOf(it))];
    } else {
      var next := InnerTokens(inner[0]) + (InnerJoined(inner[1..]) + rest);
      assert tail == [Pipe, Newline] + next;
      UserPartParses(it, tail);
      InnerTokensStart(inner[0]);
      InnerJoinedParses(inner, rest);
      PipeStep(UserTokens(it) + tail, One(CommandOf(it)), next, InnerParts(inner), rest);
    }
  }

  /** An assignment is a command of its own, because of the semicolon after it. */
  lemma AssignmentParses(v: Var, name: string, ts: seq<Token>, ps: seq<Pipeline>)
    requires ParseScript(ts) == Some(ps)
    ensures ParseScript([Assign(v, name), Semi] + ts) == Some([[One(Assignment(v, name))]] + ps)
  {
    var all := [Assign(v, name), Semi] + ts;
    assert all[1..] == [Semi] + ts;
    assert ParsePart(all) == Some((One(Assignment(v, name)), [Semi] + ts));
    PipeEnd(all, One(Assignment(v, name)), [Semi] + ts);
    ScriptStep(all, [One(Assignment(v, name))], Semi, ts, ps);
  }

  lemma HeadParses(it: Item, ts: seq<Token>, ps: seq<Pipeline>)
    requires ParseScript(ts) == Some(ps)
    ensures ParseScript(AssignTokens(it) + ts) == Some(OneByOne(Assignments(it)) + ps)
  {
    hide ParseScript;
    var out := (if it.step.kind.output.File? then [Assign(OUT, it.outf), Semi] else []) + ts;
    var outs := (if it.step.kind.output.File? then [[One(Assignment(OUT, it.outf))]] else []) + ps;
    if it.step.kind.output.File? {
      AssignmentParses(OUT, it.outf, ts, ps);
    } else {
      assert out == ts && outs == ps;
    }
    assert AssignTokens(it) + ts == (if it.step.kind.input.File? then [Assign(IN, it.inf), Semi] else []) + out;
    assert OneByOne(Assignments(it)) + ps == (if it.step.kind.input.File? then [[One(Assignment(IN, it.inf))]] else []) + outs;
    if it.step.kind.input.File? {
      AssignmentParses(IN, it.inf, out, outs);
    } else {
      assert AssignTokens(it) + ts == out && OneByOne(Assignments(it)) + ps == outs;
    }
  }

  /** The tokens of a body, up to the end of its first pipeline. */
  lemma BodySplits(items: seq<Item>, end: seq<Token>)
    requires items != []
    ensures var inner := InnerItems(items[1..]); var rest := items[1 + |inner|..];
      Body(items) + end ==
        AssignTokens(items[0]) + (UserTokens(items[0]) + (InnerJoined(inner) + ((if rest == [] then [] else [Newline] + Body(rest)) + end)))
  {
    hide UserTokens, AssignTokens, InnerJoined, InnerItems, Joined;
    var inner := InnerItems(items[1..]);
    JoinedSplits(items[1..]);
    assert items[1..][|inner|..] == items[1 + |inner|..];
  }

  lemma PipelinesSplit(items: seq<Item>, ps: seq<Pipeline>)
    requires items != []
    ensures var inner := InnerItems(items[1..]); var rest := items[1 + |inner|..];
      Pipelines(items) + ps ==
        OneByOne(Assignments(items[0])) + ([[One(CommandOf(items[0]))] + InnerParts(inner)] + ((if rest == [] then [] else Pipelines(rest)) + ps))
  {
    hide OneByOne, InnerParts, InnerItems, CommandOf, Assignments;
  }

  lemma {:induction false} BodyParses(items: seq<Item>, end: seq<Token>, ps: seq<Pipeline>)
    requires items != []
    requires (end == [] && ps == []) || (end != [] && end[0].Newline? && ParseScript(end[1..]) == Some(ps))
    ensures ParseScript(Body(items) + end) == Some(Pipelines(items) + ps)
    decreases |items|
  {
    hide *;
    var inner := InnerItems(items[1..]);
    var rest := items[1 + |inner|..];
    var p := [One(CommandOf(items[0]))] + InnerParts(inner);
    var later := (if rest == [] then [] else Pipelines(rest)) + ps;
    var after := (if rest == [] then [] else [Newline] + Body(rest)) + end;
    var ts := UserTokens(items[0]) + (InnerJoined(inner) + after);
    assert EndsPipeline(after) by { EndsWithNewline(after); }
    PipelineParses(items[0], inner, after);
    if rest != [] {
      BodyParses(rest, end, ps);
      assert after == [Newline] + (Body(rest) + end);
      ScriptStep(ts, p, Newline, Body(rest) + end, later);
    } else if end != [] {
      assert after == end == [Newline] + end[1..] && later == ps;
      ScriptStep(ts, p, Newline, end[1..], later);
    } else {
      assert after == [] && later == [];
      ScriptEnd(ts, p);
      assert [p] + later == [p];
    }
    HeadParses(items[0], ts, [p] + later);
    BodySplits(items, end);
    PipelinesSplit(items, ps);
  }

  lemma EndsWithNewline(ts: seq<Token>)
    requires ts == [] || ts[0].Newline?
    ensures EndsPipeline(ts)
  {
  }

  lemma UserTokensNotEmpty(it: Item)
    ensures UserTokens(it) != [] && UserTokens(it)[0].User?
  {
  }

  /** The shell reads the script as it is meant: one pipeline for each run of items without a file in between. */
  lemma ScriptParses(items: seq<Item>, garbage: seq<string>)
    requires items != []
    ensures ParseScript(Script(items, garbage)) ==
      Some(if garbage == [] then Pipelines(items)
           else [[One(OnSignal(garbage))]] + (Pipelines(items) + [[One(Remove(garbage))]]))
  {
    hide Body, Pipelines;
    if garbage == [] {
      BodyParses(items, [], []);
      assert Body(items) + [] == Body(items) && Pipelines(items) + [] == Pipelines(items);
    } else {
      var rm := [Rm(garbage)];
      PipeEnd(rm, One(Remove(garbage)), []);
      ScriptEnd(rm, [One(Remove(garbage))]);
      BodyParses(items, [Newline, Rm(garbage)], [[One(Remove(garbage))]]);
      var ts := Body(items) + [Newline, Rm(garbage)];
      var all := [Trap(garbage), Newline] + ts;
      assert all[1..] == [Newline] + ts;
      PipeEnd(all, One(OnSignal(garbage)), [Newline] + ts);
      hide ParseScript;
      ScriptStep(all, [One(OnSignal(garbage))], Newline, ts, Pipelines(items) + [[One(Remove(garbage))]]);
      assert all == Script(items, garbage);
    }
  }

  // ---- running the script of a list of items ----

  predicate Named(it: Item) {
    (it.step.kind.input.File? ==> it.inf != "") && (it.step.kind.output.File? ==> it.outf != "")
  }

  /** The variables are set for a command that wants files. */
  predicate Told(it: Item, v: Vars) {
    (it.step.kind.input.File? ==> v.inName == it.inf) && (it.step.kind.output.File? ==> v.outName == it.outf)
  }

  function Assigned(it: Item, v: Vars): (r: Vars)
    ensures Told(it, r)
  {
    Vars(if it.step.kind.input.File? then it.inf else v.inName, if it.step.kind.output.File? then it.outf else v.outName)
  }

  /** The output is redirected to the file that the item reads. */
  predicate OntoItself(it: Item) { ReadsNamed(it) && it.step.kind.output.Std? && it.outf == it.inf }

  /** What an item finds when it is the first of its pipeline. */
  function Found(it: Item, w: World): Bytes {
    if OntoItself(it) then []
    else if ReadsNamed(it) then Content(w.fs, it.inf)
    else if it.step.kind.input.Std? then w.stdin else []
  }

  lemma EmptiedThenWritten(it: Item, w: World, d: Bytes, m: (string, Bytes) -> Bytes)
    requires WritesNamed(it)
    ensures Done(it, w.(fs := w.fs[it.outf := []]), d, m) == Done(it, w, d, m)
  {
    assert w.fs[it.outf := []][it.outf := m(it.step.cmd, d)] == w.fs[it.outf := m(it.step.cmd, d)];
  }

  lemma HeadRuns(it: Item, w: World, v: Vars, m: (string, Bytes) -> Bytes)
    requires Named(it) && Told(it, v)
    ensures var d := Found(it, w);
      RunPart(One(CommandOf(it)), w, v, w.stdin, m) ==
        Effect(Done(it, w, d, m), v, if Streams(it) then m(it.step.cmd, d) else [],
               if it.step.kind.input.Std? && it.inf == "" then [] else w.stdin)
  {
    if WritesNamed(it) { EmptiedThenWritten(it, w, Found(it, w), m); }
  }

  lemma InnerRuns(it: Item, w: World, v: Vars, d: Bytes, m: (string, Bytes) -> Bytes)
    requires Named(it) && it.step.kind.input.Std? && it.inf == ""
    ensures var e := RunPart(InnerPart(it), w, v, d, m);
      e.w == Done(it, w, d, m) && e.out == (if Streams(it) then m(it.step.cmd, d) else []) && e.left == []
  {
    if WritesNamed(it) { EmptiedThenWritten(it, w, d, m); }
    if UsesFile(it) {
      var ss := Assignments(it) + [CommandOf(it)];
      assert ss == [Assignment(OUT, it.outf), CommandOf(it)];
      assert ss[1..] == [CommandOf(it)];
      var v' := v.(outName := it.outf);
      var e := RunSimple(CommandOf(it), w, v', d, m);
      assert RunGroup([CommandOf(it)], w, v', d, m) == RunGroup([], e.w, e.v, e.left, m).(out := e.out + []);
      assert e.out + [] == e.out;
      assert [] + e.out == e.out;
    }
  }

  /** The items of a pipeline: only the last one may write a file. */
  predicate OnePipeline(items: seq<Item>) {
    && items != []
    && (forall i :: 0 <= i < |items| ==> Named(items[i]))
    && (forall i :: 0 < i < |items| ==> items[i].inf == "" && items[i].step.kind.input.Std?)
    && (forall i :: 0 <= i < |items| - 1 ==> Streams(items[i]))
  }

  function Last(items: seq<Item>): Item
    requires items != []
  {
    items[|items| - 1]
  }

  function Output(items: seq<Item>, d: Bytes, m: (string, Bytes) -> Bytes): Bytes
    requires items != []
  {
    if Streams(Last(items)) then Flow(Steps(items), d, m) else []
  }

  lemma StepsRest(items: seq<Item>)
    requires items != []
    ensures Steps(items) != [] && Steps(items)[0] == items[0].step && Steps(items)[1..] == Steps(items[1..])
  {
  }

  lemma OneItem(items: seq<Item>, w: World, d: Bytes, m: (string, Bytes) -> Bytes)
    requires |items| == 1
    ensures AllDone(items, w, d, m) == Done(items[0], w, d, m)
    ensures Flow(Steps(items), d, m) == m(items[0].step.cmd, d)
  {
    StepsRest(items);
    assert items[1..] == [] && Steps(items[1..]) == [];
  }

  lemma {:induction false} InnerPartsRun(items: seq<Item>, w: World, v: Vars, d: Bytes, m: (string, Bytes) -> Bytes)
    requires OnePipeline(items) && items[0].inf == "" && items[0].step.kind.input.Std?
    ensures RunParts(InnerParts(items), w, v, d, m) == Effect(AllDone(items, w, d, m), v, Output(items, d, m), [])
    decreases |items|
  {
    hide InnerPart, RunPart, Done;
    var it := items[0];
    InnerRuns(it, w, v, d, m);
    StepsRest(items);
    var e := RunPart(InnerPart(it), w, v, d, m);
    assert InnerParts(items)[1..] == InnerParts(items[1..]);
    if |items| > 1 {
      assert Last(items) == Last(items[1..]);
      assert OnePipeline(items[1..]);
      InnerPartsRun(items[1..], e.w, v, e.out, m);
    } else {
      OneItem(items, w, d, m);
      assert InnerParts(items[1..]) == [];
      assert RunParts([], e.w, v, e.out, m) == Effect(e.w, v, e.out, e.out);
    }
  }

  /** A whole pipeline. */
  lemma PartsRun(items: seq<Item>, w: World, v: Vars, m: (string, Bytes) -> Bytes)
    requires OnePipeline(items) && Told(items[0], v)
    ensures var d := Found(items[0], w); var p := [One(CommandOf(items[0]))] + InnerParts(items[1..]);
      var e := if |p| == 1 then RunPart(p[0], w, v, w.stdin, m) else RunParts(p, w, v, w.stdin, m);
      e == Effect(AllDone(items, w, d, m), v, Output(items, d, m),
                  if items[0].step.kind.input.Std? && items[0].inf == "" then [] else w.stdin)
  {
    hide RunPart, Done, CommandOf, InnerPart;
    var it := items[0];
    var d := Found(it, w);
    var p := [One(CommandOf(it))] + InnerParts(items[1..]);
    HeadRuns(it, w, v, m);
    StepsRest(items);
    assert p[1..] == InnerParts(items[1..]);
    if |items| > 1 {
      assert Last(items) == Last(items[1..]);
      InnerPartsRun(items[1..], Done(it, w, d, m), v, m(it.step.cmd, d), m);
      assert |p| > 1;
    } else {
      OneItem(items, w, d, m);
      assert |p| == 1;
    }
  }

  // ---- files that are written while the pipeline runs ----

  function Target(it: Item): set<string> { if WritesNamed(it) then {it.outf} else {} }

  lemma CommandTargets(it: Item, v: Vars)
    requires Named(it) && Told(it, v)
    ensures Targets([CommandOf(it)], v) == Target(it)
  {
    assert Targets([CommandOf(it)][1..], v) == {};
  }

  lemma InnerTargets(it: Item, v: Vars)
    requires Named(it) && it.step.kind.input.Std?
    ensures PartTargets(InnerPart(it), v) == Target(it)
  {
    if UsesFile(it) {
      var ss := Assignments(it) + [CommandOf(it)];
      assert ss[0] == Assignment(OUT, it.outf) && ss[1..] == [CommandOf(it)];
      CommandTargets(it, v.(outName := it.outf));
    } else {
      CommandTargets(it, v);
    }
  }

  lemma {:induction false} InnerPartsTargets(items: seq<Item>, v: Vars)
    requires items == [] || (OnePipeline(items) && items[0].step.kind.input.Std?)
    ensures PipelineTargets(InnerParts(items), v) == if items == [] then {} else Target(Last(items))
    decreases |items|
  {
    if items != [] {
      InnerTargets(items[0], v);
      assert InnerParts(items)[1..] == InnerParts(items[1..]);
      if |items| > 1 { assert OnePipeline(items[1..]); }
      InnerPartsTargets(items[1..], v);
    }
  }

  lemma TargetsOfPipeline(items: seq<Item>, v: Vars)
    requires OnePipeline(items)
    ensures PipelineTargets(InnerParts(items[1..]), v) == if |items| > 1 then Target(Last(items)) else {}
  {
    if |items| > 1 { assert OnePipeline(items[1..]); }
    InnerPartsTargets(items[1..], v);
  }

  lemma DoneElsewhere(it: Item, w: World, fs: map<string, Bytes>, d: Bytes, m: (string, Bytes) -> Bytes)
    requires !WritesNamed(it)
    ensures Done(it, w.(fs := fs), d, m) == Done(it, w, d, m).(fs := fs) && Done(it, w, d, m).fs == w.fs
  {
  }

  /** What was in the file while the pipeline ran does not matter once it has been written. */
  lemma {:induction false} RaceIsOverwritten(
      items: seq<Item>, w: World, d: Bytes, m: (string, Bytes) -> Bytes, race: string -> Bytes)
    requires OnePipeline(items)
    ensures AllDone(items, w.(fs := Raced(w.fs, Target(Last(items)), race)), d, m) == AllDone(items, w, d, m)
    decreases |items|
  {
    var it := items[0];
    var fs := Raced(w.fs, Target(Last(items)), race);
    if |items| > 1 {
      assert OnePipeline(items[1..]) by { if |items| > 1 { assert items[1..][0] == items[1]; } }
      assert Last(items) == Last(items[1..]);
      DoneElsewhere(it, w, fs, d, m);
      RaceIsOverwritten(items[1..], Done(it, w, d, m), m(it.step.cmd, d), m, race);
    } else {
      assert items[1..] == [];
      if WritesNamed(it) {
        assert fs[it.outf := m(it.step.cmd, d)] == w.fs[it.outf := m(it.step.cmd, d)];
      } else {
        assert fs == w.fs;
      }
    }
  }

  /** What the first item of a pipeline reads: if a later one writes that file, what the race leaves. */
  function Input(items: seq<Item>, w: World, race: string -> Bytes): Bytes
    requires items != []
  {
    if |items| > 1 && ReadsNamed(items[0]) && items[0].inf in Target(Last(items)) then race(items[0].inf)
    else Found(items[0], w)
  }

  function Streamed(w: World, stdin: Bytes, out: Bytes): World { w.(stdin := stdin, stdout := w.stdout + out) }

  function LeftOf(it: Item, stdin: Bytes): Bytes { if it.step.kind.input.Std? && it.inf == "" then [] else stdin }

  lemma PipelineRuns(items: seq<Item>, w: World, v: Vars, m: (string, Bytes) -> Bytes, race: string -> Bytes)
    requires OnePipeline(items) && Told(items[0], v)
    ensures var d := Input(items, w, race);
      RunPipeline([One(CommandOf(items[0]))] + InnerParts(items[1..]), w, v, m, race) ==
        (Streamed(AllDone(items, w, d, m), LeftOf(items[0], w.stdin), Output(items, d, m)), v)
  {
    hide RunPart, RunParts, AllDone, CommandOf, InnerParts, Output;
    var names := if |items| > 1 then Target(Last(items)) else {};
    var fs := Raced(w.fs, names, race);
    var p := [One(CommandOf(items[0]))] + InnerParts(items[1..]);
    assert p[1..] == InnerParts(items[1..]);
    TargetsOfPipeline(items, v);
    PartsRun(items, w.(fs := fs), v, m);
    RaceIsOverwritten(items, w, Input(items, w, race), m, race);
    FoundInRace(items, w, race);
    if |items| == 1 { assert fs == w.fs; }
  }

  lemma FoundInRace(items: seq<Item>, w: World, race: string -> Bytes)
    requires OnePipeline(items)
    ensures Found(items[0], w.(fs := Raced(w.fs, if |items| > 1 then Target(Last(items)) else {}, race))) == Input(items, w, race)
  {
    if |items| > 1 { assert Streams(items[0]); }
  }

  // ---- whole lists of items ----

  /** Item `i` gets its input from the one before it: through a file if that is named, or else through a stream. */
  predicate Follows(items: seq<Item>, i: nat)
    requires 0 < i < |items|
  {
    && items[i - 1].outf == items[i].inf
    && !items[i - 1].step.kind.output.Nothing? && !items[i].step.kind.input.Nothing?
  }

  predicate Linked(items: seq<Item>) {
    && items != []
    && (forall i :: 0 <= i < |items| ==> Named(items[i]))
    && (forall i :: 0 < i < |items| ==> Follows(items, i))
  }

  /** The file in front of item `i` is none of those further on, and not the one at the other end. */
  predicate Fresh(items: seq<Item>, i: nat)
    requires i < |items|
  {
    items[i].inf != "" ==>
      && (forall j :: i < j < |items| ==> items[i].inf != items[j].inf)
      && items[i].inf != items[|items| - 1].outf
  }

  /** The names of the files in between are different from each other and from those at the ends. */
  predicate Apart(items: seq<Item>) {
    forall i :: 0 < i < |items| ==> Fresh(items, i) && (items[i].inf != "" ==> items[i].inf != items[0].inf)
  }

  /** Splits a list after its first pipeline. */
  lemma {:induction false} InnerItemsAre(items: seq<Item>)
    ensures var r := InnerItems(items);
      && r == items[..|r|]
      && (forall i :: 0 <= i < |r| ==> items[i].inf == "")
      && (|r| < |items| ==> items[|r|].inf != "")
    decreases |items|
  {
    if items != [] && items[0].inf == "" { InnerItemsAre(items[1..]); }
  }

  function FirstOf(items: seq<Item>): (r: seq<Item>)
    requires items != []
    ensures 0 < |r| <= |items|
  {
    items[..1 + |InnerItems(items[1..])|]
  }

  function RestOf(items: seq<Item>): (r: seq<Item>)
    requires items != []
    ensures |FirstOf(items)| + |r| == |items|
  {
    items[1 + |InnerItems(items[1..])|..]
  }

  /** The first pipeline of a list ends where the next item reads a file. */
  lemma FirstEnds(items: seq<Item>)
    requires items != []
    ensures var n := |FirstOf(items)|;
      && (forall i :: 0 < i < n ==> items[i].inf == "")
      && (n < |items| ==> items[n].inf != "")
      && FirstOf(items)[1..] == InnerItems(items[1..])
      && items == FirstOf(items) + RestOf(items)
  {
    InnerItemsAre(items[1..]);
    var n := |FirstOf(items)|;
    forall i | 0 < i < n ensures items[i].inf == "" { assert items[i] == items[1..][i - 1]; }
    if n < |items| { assert items[n] == items[1..][n - 1]; }
  }

  lemma LinkedHasItems(items: seq<Item>)
    requires Linked(items)
    ensures items != []
  {
  }

  lemma FirstIsPipeline(items: seq<Item>)
    requires Linked(items)
    ensures OnePipeline(FirstOf(items))
  {
    FirstEnds(items);
    var first := FirstOf(items);
    forall i | 0 < i < |first| ensures first[i].inf == "" && first[i].step.kind.input.Std? {
      assert Follows(items, i) && Named(items[i]);
    }
    forall i | 0 <= i < |first| - 1 ensures Streams(first[i]) {
      assert Follows(items, i + 1) && Named(items[i]);
    }
  }

  lemma RestIsLinked(items: seq<Item>)
    requires Linked(items) && Apart(items) && RestOf(items) != []
    ensures var rest := RestOf(items);
      && Linked(rest) && Apart(rest) && Fresh(rest, 0) && Last(rest) == Last(items)
      && rest[0].inf == Last(FirstOf(items)).outf != "" && ReadsNamed(rest[0]) && WritesNamed(Last(FirstOf(items)))
  {
    FirstEnds(items);
    var n, rest := |FirstOf(items)|, RestOf(items);
    assert rest == items[n..];
    assert Follows(items, n) && Fresh(items, n) && Named(items[n]) && Named(items[n - 1]);
    SuffixIsLinked(items, n);
  }

  lemma SuffixIsLinked(items: seq<Item>, n: nat)
    requires Linked(items) && Apart(items) && 0 < n < |items|
    ensures var rest := items[n..];
      Linked(rest) && Apart(rest) && Fresh(rest, 0) && Last(rest) == Last(items)
  {
    var rest := items[n..];
    assert Fresh(items, n);
    forall i | 0 < i < |rest| ensures Follows(rest, i) { assert Follows(items, n + i); }
    forall i | 0 < i < |rest| ensures Fresh(rest, i) && (rest[i].inf != "" ==> rest[i].inf != rest[0].inf) {
      assert Fresh(items, n + i);
    }
  }

  /** The first pipeline of a list does not write what its first item reads, when that is one of the files in between. */
  lemma FirstReadsOther(items: seq<Item>)
    requires Linked(items) && Fresh(items, 0) && items[0].inf != ""
    ensures items[0].inf !in Target(Last(FirstOf(items))) && items[0].outf != items[0].inf
  {
    FirstEnds(items);
    if |items| > 1 { assert Follows(items, 1); }
    var n := |FirstOf(items)|;
    if n < |items| { assert Follows(items, n); }
  }

  lemma {:induction false} AllDoneAppend(a: seq<Item>, b: seq<Item>, w: World, d: Bytes, m: (string, Bytes) -> Bytes)
    ensures AllDone(a + b, w, d, m) == AllDone(b, AllDone(a, w, d, m), Flow(Steps(a), d, m), m)
    ensures Flow(Steps(a + b), d, m) == Flow(Steps(b), Flow(Steps(a), d, m), m)
    decreases |a|
  {
    hide Done;
    if a == [] {
      assert a + b == b && Steps(a) == [];
    } else {
      assert (a + b)[1..] == a[1..] + b;
      StepsRest(a);
      StepsRest(a + b);
      AllDoneAppend(a[1..], b, Done(a[0], w, d, m), m(a[0].step.cmd, d), m);
    }
  }

  /** Streams are not touched by the steps themselves. */
  lemma {:induction false} AllDoneStreamed(
      items: seq<Item>, w: World, stdin: Bytes, out: Bytes, d: Bytes, m: (string, Bytes) -> Bytes)
    ensures AllDone(items, Streamed(w, stdin, out), d, m) == Streamed(AllDone(items, w, d, m), stdin, out)
    decreases |items|
  {
    if items != [] {
      assert Done(items[0], Streamed(w, stdin, out), d, m) == Streamed(Done(items[0], w, d, m), stdin, out);
      AllDoneStreamed(items[1..], Done(items[0], w, d, m), stdin, out, m(items[0].step.cmd, d), m);
    }
  }

  /** A pipeline that ends in a file has put its output there. */
  lemma {:induction false} LastIsWritten(items: seq<Item>, w: World, d: Bytes, m: (string, Bytes) -> Bytes)
    requires items != [] && WritesNamed(Last(items))
    ensures var fs := AllDone(items, w, d, m).fs;
      Last(items).outf in fs && fs[Last(items).outf] == Flow(Steps(items), d, m)
    decreases |items|
  {
    StepsRest(items);
    if |items| > 1 {
      assert Last(items) == Last(items[1..]);
      LastIsWritten(items[1..], Done(items[0], w, d, m), m(items[0].step.cmd, d), m);
    } else {
      OneItem(items, w, d, m);
    }
  }

  function VarsAfter(items: seq<Item>, v: Vars): Vars
    requires items != []
    decreases |items|
  {
    var rest := items[1 + |InnerItems(items[1..])|..];
    if rest == [] then Assigned(items[0], v) else VarsAfter(rest, Assigned(items[0], v))
  }

  lemma RunNext(p: Pipeline, ps: seq<Pipeline>, w: World, v: Vars, m: (string, Bytes) -> Bytes, race: string -> Bytes)
    requires p != [] && forall i :: 0 <= i < |ps| ==> ps[i] != []
    ensures var (w1, v1) := RunPipeline(p, w, v, m, race);
      RunScript([p] + ps, w, v, m, race) == RunScript(ps, w1, v1, m, race)
  {
    assert ([p] + ps)[1..] == ps;
  }

  lemma AssignmentRuns(x: Var, name: string, w: World, v: Vars, m: (string, Bytes) -> Bytes, race: string -> Bytes)
    ensures RunPipeline([One(Assignment(x, name))], w, v, m, race)
      == (w, if x.IN? then v.(inName := name) else v.(outName := name))
  {
    var p := [One(Assignment(x, name))];
    assert [Assignment(x, name)][1..] == [] && p[1..] == [];
    assert Raced(w.fs, PipelineTargets([], v), race) == w.fs;
    var v1 := if x.IN? then v.(inName := name) else v.(outName := name);
    assert RunPart(p[0], w, v, w.stdin, m) == Effect(w, v1, [], w.stdin) by { match x case IN => case OUT => }
    assert w.stdout + [] == w.stdout;
    assert w.(fs := w.fs) == w && w.(stdin := w.stdin, stdout := w.stdout) == w;
  }

  lemma AssignmentsRun(it: Item, ps: seq<Pipeline>, w: World, v: Vars, m: (string, Bytes) -> Bytes, race: string -> Bytes)
    requires forall i :: 0 <= i < |ps| ==> ps[i] != []
    ensures RunScript(OneByOne(Assignments(it)) + ps, w, v, m, race) == RunScript(ps, w, Assigned(it, v), m, race)
  {
    hide RunPipeline, RunScript;
    var k := it.step.kind;
    var v1 := if k.input.File? then v.(inName := it.inf) else v;
    var outs := (if k.output.File? then [[One(Assignment(OUT, it.outf))]] else []) + ps;
    AssignmentRuns(IN, it.inf, w, v, m, race);
    AssignmentRuns(OUT, it.outf, w, v1, m, race);
    assert OneByOne(Assignments(it)) + ps == if k.input.File? then [[One(Assignment(IN, it.inf))]] + outs else outs;
    if k.input.File? { RunNext([One(Assignment(IN, it.inf))], outs, w, v, m, race); }
    if k.output.File? { RunNext([One(Assignment(OUT, it.outf))], ps, w, v1, m, race); } else { assert outs == ps; }
  }

  /** The first pipeline of a script and the assignments in front of it. */
  lemma FirstPipelineRuns(items: seq<Item>, ps: seq<Pipeline>, w: World, v: Vars, m: (string, Bytes) -> Bytes, race: string -> Bytes)
    requires Linked(items)
    requires forall i :: 0 <= i < |ps| ==> ps[i] != []
    ensures RunScript(OneByOne(Assignments(items[0])) + ([[One(CommandOf(items[0]))] + InnerParts(InnerItems(items[1..]))] + ps), w, v, m, race)
      == RunScript(ps, Outcome(FirstOf(items), w, Input(FirstOf(items), w, race), m), Assigned(items[0], v), m, race)
  {
    hide RunPipeline, RunScript, InnerParts, CommandOf, Assignments, OnePipeline, Input, AllDone, Output;
    FirstEnds(items);
    FirstIsPipeline(items);
    var p := [One(CommandOf(items[0]))] + InnerParts(InnerItems(items[1..]));
    AssignmentsRun(items[0], [p] + ps, w, v, m, race);
    PipelineRuns(FirstOf(items), w, Assigned(items[0], v), m, race);
    RunNext(p, ps, w, Assigned(items[0], v), m, race);
  }

  /** The world after the script of a list of items. */
  function Outcome(items: seq<Item>, w: World, d: Bytes, m: (string, Bytes) -> Bytes): World
    requires items != []
  {
    Streamed(AllDone(items, w, d, m), LeftOf(items[0], w.stdin), Output(items, d, m))
  }

  lemma VarsAfterRest(items: seq<Item>, v: Vars)
    requires items != []
    ensures VarsAfter(items, v) ==
      if RestOf(items) == [] then Assigned(items[0], v) else VarsAfter(RestOf(items), Assigned(items[0], v))
  {
  }

  /** Running the script is doing the steps one after the other, each on the output of the one before. */
  lemma {:induction false} ScriptRuns(items: seq<Item>, ps: seq<Pipeline>, w: World, v: Vars, m: (string, Bytes) -> Bytes, race: string -> Bytes)
    requires Linked(items) && Apart(items)
    requires forall i :: 0 <= i < |ps| ==> ps[i] != []
    ensures RunScript(Pipelines(items) + ps, w, v, m, race)
      == RunScript(ps, Outcome(items, w, Input(FirstOf(items), w, race), m), VarsAfter(items, v), m, race)
    decreases |items|
  {
    hide *;
    LinkedHasItems(items);
    FirstEnds(items);
    VarsAfterRest(items, v);
    var first, rest := FirstOf(items), RestOf(items);
    var later := (if rest == [] then [] else Pipelines(rest)) + ps;
    PipelinesSplitAt(items, ps);
    FirstPipelineRuns(items, later, w, v, m, race);
    if rest == [] {
      assert first == items && later == ps;
    } else {
      var d := Input(first, w, race);
      var w1 := Outcome(first, w, d, m);
      RestIsLinked(items);
      ScriptRuns(rest, ps, w1, Assigned(items[0], v), m, race);
      FirstReadsOther(rest);
      RestContinues(first, rest, w, d, m, race);
    }
  }

  lemma PipelinesSplitAt(items: seq<Item>, ps: seq<Pipeline>)
    requires items != []
    ensures Pipelines(items) + ps ==
      OneByOne(Assignments(items[0])) + ([[One(CommandOf(items[0]))] + InnerParts(InnerItems(items[1..]))]
      + ((if RestOf(items) == [] then [] else Pipelines(RestOf(items))) + ps))
  {
    hide OneByOne, InnerParts, InnerItems, CommandOf, Assignments;
    PipelinesSplit(items, ps);
  }

  lemma RestContinues(first: seq<Item>, rest: seq<Item>, w: World, d: Bytes, m: (string, Bytes) -> Bytes, race: string -> Bytes)
    requires first != [] && rest != [] && WritesNamed(Last(first)) && Last(first).outf == rest[0].inf != ""
    requires ReadsNamed(rest[0]) && rest[0].outf != rest[0].inf && rest[0].inf !in Target(Last(FirstOf(rest)))
    ensures var w1 := Outcome(first, w, d, m);
      Outcome(rest, w1, Input(FirstOf(rest), w1, race), m) == Outcome(first + rest, w, d, m)
  {
    hide AllDone, Steps;
    var w1 := Outcome(first, w, d, m);
    var d1 := Flow(Steps(first), d, m);
    LastIsWritten(first, w, d, m);
    assert Output(first, d, m) == [];
    assert Input(FirstOf(rest), w1, race) == d1;
    AllDoneAppend(first, rest, w, d, m);
    AllDoneStreamed(rest, AllDone(first, w, d, m), LeftOf(first[0], w.stdin), [], d1, m);
    assert Last(first + rest) == Last(rest) && (first + rest)[0] == first[0];
    assert w.stdout + [] == w.stdout;
    StdoutKept(first, w, d, m);
    StdoutKept(first + rest, w, d, m);
  }

  lemma {:induction false} StdoutKept(items: seq<Item>, w: World, d: Bytes, m: (string, Bytes) -> Bytes)
    ensures AllDone(items, w, d, m).stdout == w.stdout && AllDone(items, w, d, m).stdin == w.stdin
    decreases |items|
  {
    if items != [] { StdoutKept(items[1..], Done(items[0], w, d, m), m(items[0].step.cmd, d), m); }
  }

  // ---- makepipeline ----

  /** The steps, at least one of them, with a `cat` at an end that wants a file but is not given one. */
  function WithEnds(infile: string, steps: seq<Step>, outfile: string): (r: seq<Step>)
    ensures r != []
  {
    var s0 := if steps == [] then [CAT] else steps;
    var s1 := if s0[0].kind.input.File? && infile == "" then [CAT] + s0 else s0;
    if s1[|s1| - 1].kind.output.File? && outfile == "" then s1 + [CAT] else s1
  }

  predicate NeedsFile(steps: seq<Step>, i: nat)
    requires 0 < i < |steps|
  {
    steps[i - 1].kind.output.File? || steps[i].kind.input.File?
  }

  /** How many files connect the first `i` steps. */
  function FilesAmong(steps: seq<Step>, i: nat): nat
    requires i <= |steps|
  {
    if i <= 1 then 0 else FilesAmong(steps, i - 1) + if NeedsFile(steps, i - 1) then 1 else 0
  }

  /** What is in front of step `i`: a file, or "" for a stream. */
  function LinkName(infile: string, steps: seq<Step>, outfile: string, temps: seq<string>, i: nat): string
    requires i <= |steps| && FilesAmong(steps, |steps|) <= |temps|
  {
    if i == 0 then infile
    else if i == |steps| then outfile
    else if NeedsFile(steps, i) then FilesGrow(steps, i, |steps|); temps[FilesAmong(steps, i)]
    else ""
  }

  lemma {:induction false} FilesGrow(steps: seq<Step>, i: nat, j: nat)
    requires 0 < i < j <= |steps|
    ensures FilesAmong(steps, i) + (if NeedsFile(steps, i) then 1 else 0) <= FilesAmong(steps, j)
    decreases j
  {
    if i < j - 1 { FilesGrow(steps, i, j - 1); }
  }

  function ItemsOf(infile: string, steps: seq<Step>, outfile: string, temps: seq<string>): (r: seq<Item>)
    requires FilesAmong(steps, |steps|) <= |temps|
    ensures |r| == |steps|
  {
    seq(|steps|, i requires 0 <= i < |steps| =>
      Item(LinkName(infile, steps, outfile, temps, i), steps[i], LinkName(infile, steps, outfile, temps, i + 1)))
  }

  /** The names that tempfile.mktemp returns: new ones. */
  predicate NewNames(temps: seq<string>, infile: string, outfile: string, fs: map<string, Bytes>) {
    && (forall i, j :: 0 <= i < j < |temps| ==> temps[i] != temps[j])
    && (forall i :: 0 <= i < |temps| ==> temps[i] != "" && temps[i] != infile && temps[i] != outfile && temps[i] !in fs)
  }

  function TempsNeeded(infile: string, steps: seq<Step>, outfile: string): nat {
    var s := WithEnds(infile, steps, outfile);
    FilesAmong(s, |s|)
  }

  function MakePipelineTokens(infile: string, steps: seq<Step>, outfile: string, temps: seq<string>): seq<Token>
    requires TempsNeeded(infile, steps, outfile) <= |temps|
  {
    Script(ItemsOf(infile, WithEnds(infile, steps, outfile), outfile, temps), temps[..TempsNeeded(infile, steps, outfile)])
  }

  // ---- it is composition ----

  predicate Sinks(steps: seq<Step>) { steps != [] && steps[|steps| - 1].kind.output.Nothing? }

  predicate Sources(steps: seq<Step>) { steps != [] && steps[0].kind.input.Nothing? }

  /** One command reads a file and has its output redirected to the same file. */
  predicate Clobbers(infile: string, steps: seq<Step>, outfile: string) {
    infile != "" && infile == outfile && (steps == [] || (|steps| == 1 && steps[0].kind.output.Std?))
  }

  /** The commands of one pipeline read and write the same file at the same time. */
  predicate Races(infile: string, steps: seq<Step>, outfile: string) {
    infile != "" && infile == outfile && |steps| > 1 && TempsNeeded(infile, steps, outfile) == 0 && !Sinks(steps)
  }

  /** What the first step is given. */
  function Taken(infile: string, steps: seq<Step>, outfile: string, w: World, race: string -> Bytes): Bytes {
    if Sources(steps) then []
    else if infile == "" then w.stdin
    else if Clobbers(infile, steps, outfile) then []
    else if Races(infile, steps, outfile) then race(infile)
    else Content(w.fs, infile)
  }

  /** The first step is given what was in the input file, whatever the outcome of races, exactly if its file is not the
      output file of the same command or pipeline. */
  lemma InputIsSafe(infile: string, steps: seq<Step>, outfile: string, w: World)
    requires infile != "" && !Sources(steps) && Content(w.fs, infile) != []
    ensures (forall race: string -> Bytes :: Taken(infile, steps, outfile, w, race) == Content(w.fs, infile))
      <==> !Clobbers(infile, steps, outfile) && !Races(infile, steps, outfile)
  {
    var lost: string -> Bytes := _ => [];
    assert Taken(infile, steps, outfile, w, lost) == Content(w.fs, infile)
      ==> !Clobbers(infile, steps, outfile) && !Races(infile, steps, outfile);
  }

  /** A `cat` is added only for want of a step, and where an end wants a file and is not given one. */
  lemma CatsAreNeeded(infile: string, steps: seq<Step>, outfile: string)
    ensures var cat, s := Step("cat", Kind(Std, Std)), WithEnds(infile, steps, outfile);
      if steps == [] then s == [cat]
      else
        var front := steps[0].kind.input.File? && infile == "";
        var back := steps[|steps| - 1].kind.output.File? && outfile == "";
        && s == (if front then [cat] else []) + steps + (if back then [cat] else [])
        && |s| == |steps| + (if front then 1 else 0) + (if back then 1 else 0)
  {
  }

  /** Between which steps there is a temporary file. */
  function FileLinks(steps: seq<Step>, n: nat): set<int>
    requires n <= |steps|
  {
    set i | 0 < i < n && (steps[i - 1].kind.output.File? || steps[i].kind.input.File?)
  }

  lemma {:induction false} FilesAreLinks(steps: seq<Step>, n: nat)
    requires n <= |steps|
    ensures FilesAmong(steps, n) == |FileLinks(steps, n)|
  {
    if n <= 1 {
      assert FileLinks(steps, n) == {};
    } else {
      FilesAreLinks(steps, n - 1);
      var i := n - 1;
      assert FileLinks(steps, n) == FileLinks(steps, i) + if NeedsFile(steps, i) then {i} else {};
    }
  }

  /** As many temporary files are needed as there are neighbours of which the one writes or the other reads a file. */
  lemma TempsAreNeeded(infile: string, steps: seq<Step>, outfile: string)
    ensures var s := WithEnds(infile, steps, outfile); TempsNeeded(infile, steps, outfile) == |FileLinks(s, |s|)|
    ensures (forall i :: 0 <= i < |steps| ==> !steps[i].kind.input.File? && !steps[i].kind.output.File?) ==>
      TempsNeeded(infile, steps, outfile) == 0
  {
    var s := WithEnds(infile, steps, outfile);
    FilesAreLinks(s, |s|);
    if forall i :: 0 <= i < |steps| ==> !steps[i].kind.input.File? && !steps[i].kind.output.File? {
      assert FileLinks(s, |s|) == {};
    }
  }

  lemma WithEndsIsProper(infile: string, steps: seq<Step>, outfile: string)
    requires Proper(steps)
    ensures var s := WithEnds(infile, steps, outfile);
      && Proper(s) && Sinks(s) == Sinks(steps) && Sources(s) == Sources(steps)
      && (infile == "" ==> !s[0].kind.input.File?)
      && (outfile == "" ==> !s[|s| - 1].kind.output.File?)
  {
    hide Proper;
    var s0 := if steps == [] then [CAT] else steps;
    if steps == [] { CatIsProper(); }
    CatInFront(s0);
    CatBehind(s0);
    CatBehind([CAT] + s0);
  }

  lemma CatIsProper()
    ensures Proper([CAT])
  {
  }

  lemma CatInFront(s: seq<Step>)
    requires Proper(s) && s != []
    ensures s[0].kind.input.File? ==> Proper([CAT] + s)
  {
  }

  lemma CatBehind(s: seq<Step>)
    ensures Proper(s) && s != [] && s[|s| - 1].kind.output.File? ==> Proper(s + [CAT])
  {
  }

  lemma FlowAppend(a: seq<Step>, b: seq<Step>, d: Bytes, m: (string, Bytes) -> Bytes)
    ensures Flow(a + b, d, m) == Flow(b, Flow(a, d, m), m)
    decreases |a|
  {
    if a == [] {
      assert a + b == b;
    } else {
      assert (a + b)[1..] == a[1..] + b;
      FlowAppend(a[1..], b, m(a[0].cmd, d), m);
    }
  }

  lemma CatFlows(d: Bytes, m: (string, Bytes) -> Bytes)
    requires m("cat", d) == d
    ensures Flow([CAT], d, m) == d
  {
    assert [CAT][1..] == [];
  }

  /** The `cat`s do not change what flows. */
  lemma WithEndsFlows(infile: string, steps: seq<Step>, outfile: string, d: Bytes, m: (string, Bytes) -> Bytes)
    requires forall b :: m("cat", b) == b
    ensures Flow(WithEnds(infile, steps, outfile), d, m) == Flow(steps, d, m)
  {
    var s0 := if steps == [] then [CAT] else steps;
    var s1 := if s0[0].kind.input.File? && infile == "" then [CAT] + s0 else s0;
    CatFlows(d, m);
    FlowAppend([CAT], s0, d, m);
    FlowAppend(s1, [CAT], d, m);
    CatFlows(Flow(s1, d, m), m);
  }

  lemma {:induction false} ItemNamed(infile: string, steps: seq<Step>, outfile: string, temps: seq<string>, fs: map<string, Bytes>, i: nat)
    requires i < |steps| && FilesAmong(steps, |steps|) <= |temps| && NewNames(temps, infile, outfile, fs)
    requires (infile == "" ==> !steps[0].kind.input.File?) && (outfile == "" ==> !steps[|steps| - 1].kind.output.File?)
    ensures Named(ItemsOf(infile, steps, outfile, temps)[i])
  {
    hide NewNames, FilesAmong;
    var it := ItemsOf(infile, steps, outfile, temps)[i];
    assert it.step == steps[i] && it.inf == LinkName(infile, steps, outfile, temps, i);
    assert it.outf == LinkName(infile, steps, outfile, temps, i + 1);
    LinkIsFile(infile, steps, outfile, temps, i, fs);
    LinkIsFile(infile, steps, outfile, temps, i + 1, fs);
    if i + 1 < |steps| { assert steps[i].kind.output.File? ==> NeedsFile(steps, i + 1); }
  }

  lemma {:induction false} ItemFollows(infile: string, steps: seq<Step>, outfile: string, temps: seq<string>, i: nat)
    requires 0 < i < |steps| && FilesAmong(steps, |steps|) <= |temps| && Proper(steps)
    ensures Follows(ItemsOf(infile, steps, outfile, temps), i)
  {
    hide FilesAmong, LinkName;
    var items := ItemsOf(infile, steps, outfile, temps);
    assert items[i - 1].step == steps[i - 1] && items[i].step == steps[i];
    assert StepKind(steps[i].kind) && StepKind(steps[i - 1].kind);
  }

  lemma {:induction false} ItemFresh(infile: string, steps: seq<Step>, outfile: string, temps: seq<string>, fs: map<string, Bytes>, i: nat)
    requires 0 < i < |steps| && FilesAmong(steps, |steps|) <= |temps| && NewNames(temps, infile, outfile, fs)
    ensures var items := ItemsOf(infile, steps, outfile, temps);
      Fresh(items, i) && (items[i].inf != "" ==> items[i].inf != items[0].inf)
  {
    hide FilesAmong, LinkName, NewNames;
    var items := ItemsOf(infile, steps, outfile, temps);
    EndItems(infile, steps, outfile, temps);
    LinkIsFile(infile, steps, outfile, temps, i, fs);
    TempsDiffer(temps, infile, outfile, fs, |temps|);
    assert temps[..|temps|] == temps;
    forall j | i < j < |items| && items[i].inf != "" ensures items[i].inf != items[j].inf {
      LinkIsFile(infile, steps, outfile, temps, j, fs);
      FilesGrow(steps, i, j);
    }
  }

  lemma {:induction false} ItemsAreLinked(infile: string, steps: seq<Step>, outfile: string, temps: seq<string>, fs: map<string, Bytes>)
    requires steps != [] && Proper(steps) && FilesAmong(steps, |steps|) <= |temps| && NewNames(temps, infile, outfile, fs)
    requires (infile == "" ==> !steps[0].kind.input.File?) && (outfile == "" ==> !steps[|steps| - 1].kind.output.File?)
    ensures var items := ItemsOf(infile, steps, outfile, temps);
      Linked(items) && Apart(items) && Steps(items) == steps
  {
    var items := ItemsOf(infile, steps, outfile, temps);
    assert Steps(items) == steps;
    hide FilesAmong, ItemsOf, NewNames, Proper, Named, Follows, Fresh;
    forall i | 0 <= i < |items| ensures Named(items[i]) { ItemNamed(infile, steps, outfile, temps, fs, i); }
    forall i | 0 < i < |items| ensures Follows(items, i) { ItemFollows(infile, steps, outfile, temps, i); }
    forall i | 0 < i < |items| ensures Fresh(items, i) && (items[i].inf != "" ==> items[i].inf != items[0].inf) {
      ItemFresh(infile, steps, outfile, temps, fs, i);
    }
  }

  /** A link between two steps is a new file exactly if one is needed. */
  lemma {:induction false} LinkIsFile(infile: string, steps: seq<Step>, outfile: string, temps: seq<string>, i: nat, fs: map<string, Bytes>)
    requires i <= |steps| && FilesAmong(steps, |steps|) <= |temps| && NewNames(temps, infile, outfile, fs)
    ensures 0 < i < |steps| ==>
      var name := LinkName(infile, steps, outfile, temps, i);
      && (name != "" <==> NeedsFile(steps, i))
      && (name != "" ==>
            && FilesAmong(steps, i) < FilesAmong(steps, |steps|) && name == temps[FilesAmong(steps, i)]
            && name != infile && name != outfile)
  {
    if 0 < i < |steps| { FilesGrow(steps, i, |steps|); }
  }

  /** Only a sink is given something for good. */
  lemma {:induction false} SunkAfter(items: seq<Item>, w: World, d: Bytes, m: (string, Bytes) -> Bytes)
    requires Linked(items)
    ensures AllDone(items, w, d, m).sunk ==
      w.sunk + if Last(items).step.kind.output.Nothing?
               then [(Last(items).step.cmd, Flow(Steps(items[..|items| - 1]), d, m))] else []
    decreases |items|
  {
    if |items| == 1 {
      OneItem(items, w, d, m);
      assert items[..0] == [] && Steps([]) == [];
    } else {
      assert Follows(items, 1);
      TailIsLinked(items);
      var front := items[..|items| - 1];
      assert front[1..] == items[1..][..|items| - 2];
      StepsRest(front);
      SunkAfter(items[1..], Done(items[0], w, d, m), m(items[0].step.cmd, d), m);
    }
  }

  lemma TailIsLinked(items: seq<Item>)
    requires Linked(items) && |items| > 1
    ensures Linked(items[1..]) && Last(items[1..]) == Last(items)
    ensures Apart(items) ==> Apart(items[1..]) && Fresh(items[1..], 0)
  {
    var rest := items[1..];
    forall i | 0 < i < |rest| ensures Follows(rest, i) { assert Follows(items, i + 1); }
    if Apart(items) {
      assert Fresh(items, 1);
      forall i | 0 < i < |rest| ensures Fresh(rest, i) && (rest[i].inf != "" ==> rest[i].inf != rest[0].inf) {
        assert Fresh(items, i + 1);
      }
    }
  }

  function Between(items: seq<Item>): set<string>
    decreases |items|
  {
    if |items| <= 1 then {} else (if items[1].inf != "" then {items[1].inf} else {}) + Between(items[1..])
  }

  /** Besides the files in between only the last one is written. */
  lemma {:induction false} FilesAfter(items: seq<Item>, w: World, d: Bytes, m: (string, Bytes) -> Bytes)
    requires Linked(items)
    ensures AllDone(items, w, d, m).fs - Between(items) ==
      (if WritesNamed(Last(items)) then w.fs[Last(items).outf := Flow(Steps(items), d, m)] else w.fs) - Between(items)
    decreases |items|
  {
    hide Linked, Done, AllDone, Between, Flow, Steps, Last, Named, Follows, WritesNamed;
    LinkedHasItems(items);
    if |items| == 1 {
      FilesAfterOne(items, w, d, m);
    } else {
      TailIsLinked(items);
      FirstIsDropped(items, w, d, m);
      var w1, out := Done(items[0], w, d, m), Flow(Steps(items), d, m);
      FilesAfter(items[1..], w1, m(items[0].step.cmd, d), m);
      DropMore(AllDone(items, w, d, m).fs, if WritesNamed(Last(items)) then w1.fs[Last(items).outf := out] else w1.fs,
        Between(items[1..]), Between(items));
      DropAfterUpdate(w1.fs, w.fs, Last(items).outf, out, Between(items));
    }
  }

  lemma FilesAfterOne(items: seq<Item>, w: World, d: Bytes, m: (string, Bytes) -> Bytes)
    requires |items| == 1
    ensures AllDone(items, w, d, m).fs == if WritesNamed(Last(items)) then w.fs[Last(items).outf := Flow(Steps(items), d, m)] else w.fs
  {
    OneItem(items, w, d, m);
  }

  /** What the first item writes, if anything, is a file in between. */
  lemma FirstIsDropped(items: seq<Item>, w: World, d: Bytes, m: (string, Bytes) -> Bytes)
    requires Linked(items) && |items| > 1
    ensures var w1, d1 := Done(items[0], w, d, m), m(items[0].step.cmd, d);
      && w1.fs - Between(items) == w.fs - Between(items) && Between(items[1..]) <= Between(items)
      && AllDone(items, w, d, m) == AllDone(items[1..], w1, d1, m)
      && Flow(Steps(items), d, m) == Flow(Steps(items[1..]), d1, m)
  {
    assert Follows(items, 1) && Named(items[0]);
    StepsRest(items);
  }

  lemma DropMore(a: map<string, Bytes>, b: map<string, Bytes>, some: set<string>, more: set<string>)
    requires a - some == b - some && some <= more
    ensures a - more == b - more
  {
    assert a - more == (a - some) - more && b - more == (b - some) - more;
  }

  lemma DropAfterUpdate(a: map<string, Bytes>, b: map<string, Bytes>, name: string, d: Bytes, gone: set<string>)
    requires a - gone == b - gone
    ensures a[name := d] - gone == b[name := d] - gone
  {
    forall f | f !in gone ensures f in a <==> f in b { assert f in a - gone <==> f in b - gone; }
    forall f | f !in gone && f in a ensures f in b && a[f] == b[f] { assert (a - gone)[f] == (b - gone)[f]; }
  }

  // ---- what happens to the temporary files ----

  function Events(items: seq<Item>): seq<Event>
    decreases |items|
  {
    if items == [] then []
    else
      (if ReadsNamed(items[0]) then [Read(items[0].inf)] else [])
      + (if WritesNamed(items[0]) then [Wrote(items[0].outf)] else []) + Events(items[1..])
  }

  lemma {:induction false} AllDoneLog(items: seq<Item>, w: World, d: Bytes, m: (string, Bytes) -> Bytes)
    ensures AllDone(items, w, d, m).log == w.log + Events(items)
    decreases |items|
  {
    if items == [] {
      assert w.log + [] == w.log;
    } else {
      DoneLog(items[0], w, d, m);
      hide Done;
      AllDoneLog(items[1..], Done(items[0], w, d, m), m(items[0].step.cmd, d), m);
      EventsStep(items);
      Associate(w.log, ItemEvents(items[0]), Events(items[1..]));
    }
  }

  function ItemEvents(it: Item): seq<Event> {
    (if ReadsNamed(it) then [Read(it.inf)] else []) + (if WritesNamed(it) then [Wrote(it.outf)] else [])
  }

  lemma EventsStep(items: seq<Item>)
    requires items != []
    ensures Events(items) == ItemEvents(items[0]) + Events(items[1..])
  {
  }

  lemma DoneLog(it: Item, w: World, d: Bytes, m: (string, Bytes) -> Bytes)
    ensures Done(it, w, d, m).log == w.log + ItemEvents(it)
  {
  }

  /** What happened to one file. */
  function History(log: seq<Event>, name: string): seq<Event>
    decreases |log|
  {
    if log == [] then [] else (if log[0].name == name then [log[0]] else []) + History(log[1..], name)
  }

  lemma {:induction false} HistoryAppend(a: seq<Event>, b: seq<Event>, name: string)
    ensures History(a + b, name) == History(a, name) + History(b, name)
    decreases |a|
  {
    if a == [] {
      assert a + b == b;
    } else {
      assert (a + b)[1..] == a[1..] + b && (a + b)[0] == a[0];
      HistoryAppend(a[1..], b, name);
      Associate(if a[0].name == name then [a[0]] else [], History(a[1..], name), History(b, name));
    }
  }

  lemma HistoryOfItem(items: seq<Item>, name: string)
    requires items != []
    ensures History(Events(items), name) ==
      (if ReadsNamed(items[0]) && items[0].inf == name then [Read(name)] else [])
      + (if WritesNamed(items[0]) && items[0].outf == name then [Wrote(name)] else [])
      + History(Events(items[1..]), name)
  {
    var a := if ReadsNamed(items[0]) then [Read(items[0].inf)] else [];
    var b := if WritesNamed(items[0]) then [Wrote(items[0].outf)] else [];
    HistoryOfFew(a, name);
    HistoryOfFew(b, name);
    hide History;
    HistoryAppend(a + b, Events(items[1..]), name);
    HistoryAppend(a, b, name);
    assert Events(items) == a + b + Events(items[1..]);
    hide Events;
  }

  lemma HistoryOfFew(log: seq<Event>, name: string)
    requires |log| <= 1
    ensures History(log, name) == if log != [] && log[0].name == name then log else []
  {
    if log != [] { assert log[1..] == [] && log == [log[0]]; }
  }

  lemma {:induction false} NotTouched(items: seq<Item>, name: string)
    requires forall i :: 0 <= i < |items| ==> items[i].inf != name && items[i].outf != name
    ensures History(Events(items), name) == []
    decreases |items|
  {
    if items != [] {
      HistoryOfItem(items, name);
      NotTouched(items[1..], name);
    }
  }

  /** A file in between is written by the item in front of it, then read by the item after it, and not touched otherwise. */
  lemma {:induction false} WrittenThenRead(items: seq<Item>, i: nat)
    requires Linked(items) && Apart(items) && 0 < i < |items| && items[i].inf != ""
    ensures History(Events(items), items[i].inf) == [Wrote(items[i].inf), Read(items[i].inf)]
    decreases |items|
  {
    var name := items[i].inf;
    assert Follows(items, i) && Fresh(items, i) && Follows(items, 1) && Fresh(items, 1);
    HistoryOfItem(items, name);
    if i == 1 {
      assert Named(items[0]) && Named(items[1]);
      TailIsLinked(items);
      ReadOnly(items[1..]);
    } else {
      TailIsLinked(items);
      hide History, Events, Linked, Apart, Fresh;
      WrittenThenRead(items[1..], i - 1);
    }
  }

  /** The file that the first item reads is not touched by the others. */
  lemma {:induction false} ReadOnly(items: seq<Item>)
    requires Linked(items) && Fresh(items, 0) && items[0].inf != "" && !items[0].step.kind.input.Nothing?
    ensures History(Events(items), items[0].inf) == [Read(items[0].inf)]
  {
    var name := items[0].inf;
    var rest := items[1..];
    HistoryOfItem(items, name);
    if rest != [] { assert Follows(items, 1); }
    forall j | 0 <= j < |rest| ensures rest[j].inf != name && rest[j].outf != name {
      assert rest[j] == items[j + 1];
      if j + 2 < |items| { assert Follows(items, j + 2); }
    }
    hide History, Events;
    NotTouched(rest, name);
  }

  lemma {:induction false} RemovingRemoves(w: World, names: seq<string>)
    ensures var w' := Removing(w, names);
      && w'.fs == w.fs - Set(names) && w' == w.(fs := w'.fs, log := w'.log)
      && w'.log == w.log + Removals(names)
    decreases |names|
  {
    if names != [] {
      var w1 := Logged(w.(fs := w.fs - {names[0]}), Removed(names[0]));
      RemovingRemoves(w1, names[1..]);
      assert Set(names) == {names[0]} + Set(names[1..]);
    } else {
      assert Set(names) == {};
    }
  }

  function Set(names: seq<string>): set<string> { set n | n in names }

  function Removals(names: seq<string>): seq<Event> { seq(|names|, i requires 0 <= i < |names| => Removed(names[i])) }

  lemma {:induction false} RemovedOnce(names: seq<string>, k: nat)
    requires k < |names| && forall i, j :: 0 <= i < j < |names| ==> names[i] != names[j]
    ensures History(Removals(names), names[k]) == [Removed(names[k])]
    decreases |names|
  {
    var log := Removals(names);
    assert log[1..] == Removals(names[1..]);
    if k > 0 {
      RemovedOnce(names[1..], k - 1);
    } else {
      NotRemoved(names[1..], names[0]);
    }
  }

  lemma {:induction false} NotRemoved(names: seq<string>, name: string)
    requires name !in names
    ensures History(Removals(names), name) == []
    decreases |names|
  {
    if names != [] {
      assert Removals(names)[1..] == Removals(names[1..]);
      NotRemoved(names[1..], name);
    }
  }

  // ---- the main theorem ----

  lemma RmRuns(names: seq<string>, w: World, v: Vars, m: (string, Bytes) -> Bytes, race: string -> Bytes)
    ensures RunScript([[One(Remove(names))]], w, v, m, race) == Removing(w, names)
  {
    var p := [One(Remove(names))];
    assert p[1..] == [] && Raced(w.fs, PipelineTargets([], v), race) == w.fs && w.(fs := w.fs) == w;
    RemovingRemoves(w, names);
    var w1 := Removing(w, names);
    assert w1.stdout + [] == w1.stdout && w1.(stdin := w.stdin, stdout := w1.stdout) == w1;
    assert RunPart(p[0], w, v, w.stdin, m) == Effect(w1, v, [], w.stdin);
    assert [p][1..] == [];
  }

  lemma TrapRuns(names: seq<string>, ps: seq<Pipeline>, w: World, v: Vars, m: (string, Bytes) -> Bytes, race: string -> Bytes)
    requires forall i :: 0 <= i < |ps| ==> ps[i] != []
    ensures RunScript([[One(OnSignal(names))]] + ps, w, v, m, race) == RunScript(ps, w, v, m, race)
  {
    var p := [One(OnSignal(names))];
    assert [OnSignal(names)][1..] == [];
    assert p[1..] == [] && Raced(w.fs, PipelineTargets([], v), race) == w.fs && w.(fs := w.fs) == w;
    assert w.stdout + [] == w.stdout && w.(stdin := w.stdin, stdout := w.stdout) == w;
    assert RunPart(p[0], w, v, w.stdin, m) == Effect(w, v, [], w.stdin);
    RunNext(p, ps, w, v, m, race);
  }

  /** The whole script: the items one after the other, and then the files in between are removed. */
  lemma {:induction false} WholeScriptRuns(items: seq<Item>, garbage: seq<string>, w: World, v: Vars, m: (string, Bytes) -> Bytes, race: string -> Bytes)
    requires Linked(items) && Apart(items)
    ensures var s := ParseScript(Script(items, garbage));
      s.Some? && RunScript(s.value, w, v, m, race) == Removing(Outcome(items, w, Input(FirstOf(items), w, race), m), garbage)
  {
    hide *;
    LinkedHasItems(items);
    ScriptParses(items, garbage);
    var w1 := Outcome(items, w, Input(FirstOf(items), w, race), m);
    if garbage == [] {
      ScriptRuns(items, [], w, v, m, race);
      assert Pipelines(items) + [] == Pipelines(items);
      NothingToRun(w1, VarsAfter(items, v), m, race);
    } else {
      var rm := [[One(Remove(garbage))]];
      TrapRuns(garbage, Pipelines(items) + rm, w, v, m, race);
      ScriptRuns(items, rm, w, v, m, race);
      RmRuns(garbage, w1, VarsAfter(items, v), m, race);
    }
  }

  lemma NothingToRun(w: World, v: Vars, m: (string, Bytes) -> Bytes, race: string -> Bytes)
    ensures RunScript([], w, v, m, race) == w && Removing(w, []) == w
  {
  }

  /** The names of the files in between are the first ones of `temps`. */
  lemma {:induction false} BetweenAreTemps(infile: string, steps: seq<Step>, outfile: string, temps: seq<string>, fs: map<string, Bytes>)
    requires steps != [] && FilesAmong(steps, |steps|) <= |temps| && NewNames(temps, infile, outfile, fs)
    ensures Between(ItemsOf(infile, steps, outfile, temps)) == Set(temps[..FilesAmong(steps, |steps|)])
  {
    var items := ItemsOf(infile, steps, outfile, temps);
    BetweenIs(items);
    forall i | 0 < i < |items| && items[i].inf != "" ensures items[i].inf in temps[..FilesAmong(steps, |steps|)] {
      LinkIsFile(infile, steps, outfile, temps, i, fs);
    }
    forall k | 0 <= k < FilesAmong(steps, |steps|) ensures exists i :: 0 < i < |items| && items[i].inf == temps[k] {
      var i := BoundaryOf(steps, |steps|, k);
      LinkIsFile(infile, steps, outfile, temps, i, fs);
      assert items[i].inf == temps[k];
    }
  }

  /** The boundary that gets the `k`th file. */
  lemma {:induction false} BoundaryOf(steps: seq<Step>, n: nat, k: nat) returns (i: nat)
    requires n <= |steps| && k < FilesAmong(steps, n)
    ensures 0 < i < n && NeedsFile(steps, i) && FilesAmong(steps, i) == k
    decreases n
  {
    if k < FilesAmong(steps, n - 1) { i := BoundaryOf(steps, n - 1, k); } else { i := n - 1; }
  }

  lemma {:induction false} BetweenIs(items: seq<Item>)
    ensures forall name :: name in Between(items) <==> name != "" && exists i :: 0 < i < |items| && items[i].inf == name
    decreases |items|
  {
    if |items| > 1 {
      BetweenIs(items[1..]);
      forall name | name in Between(items[1..]) ensures exists i :: 0 < i < |items| && items[i].inf == name {
        var i :| 0 < i < |items[1..]| && items[1..][i].inf == name;
        assert items[i + 1].inf == name;
      }
      forall name, i | name != "" && 0 < i < |items| && items[i].inf == name ensures name in Between(items) {
        if i > 1 { assert items[1..][i - 1].inf == name; }
      }
    }
  }

  /** The first pipeline ends in a new file, or it is all there is. */
  lemma {:induction false} EndOfFirst(infile: string, s: seq<Step>, outfile: string, temps: seq<string>, fs: map<string, Bytes>)
    requires s != [] && FilesAmong(s, |s|) <= |temps| && NewNames(temps, infile, outfile, fs)
    ensures var items := ItemsOf(infile, s, outfile, temps); var last := Last(FirstOf(items));
      && (FilesAmong(s, |s|) == 0 ==> FirstOf(items) == items)
      && (FilesAmong(s, |s|) > 0 ==> last.outf != infile)
      && (|s| > 1 ==> items[0].outf != infile || infile == "")
  {
    hide FirstOf, FilesAmong, LinkName, NewNames;
    var items := ItemsOf(infile, s, outfile, temps);
    LinkIsFile(infile, s, outfile, temps, 1, fs);
    assert items[0].outf == LinkName(infile, s, outfile, temps, 1);
    FirstEnds(items);
    FirstIsPrefix(items);
    var n := |FirstOf(items)|;
    if n < |items| {
      LinkIsFile(infile, s, outfile, temps, n, fs);
      assert Last(FirstOf(items)).outf == items[n].inf;
    } else {
      NoFilesAmong(s, items, infile, outfile, temps, fs);
    }
  }

  /** What the first pipeline reads, in terms of what the caller gave. */
  lemma {:induction false} InputIsTaken(infile: string, steps: seq<Step>, outfile: string, temps: seq<string>, w: World, race: string -> Bytes)
    requires Proper(steps) && TempsNeeded(infile, steps, outfile) <= |temps| && NewNames(temps, infile, outfile, w.fs)
    ensures var items := ItemsOf(infile, WithEnds(infile, steps, outfile), outfile, temps);
      Input(FirstOf(items), w, race) == Taken(infile, steps, outfile, w, race)
  {
    var s := WithEnds(infile, steps, outfile);
    hide WithEnds, Proper, FirstOf, LinkName, FilesAmong, NewNames, TempsNeeded, ItemsOf, Sinks, Sources;
    WithEndsIsProper(infile, steps, outfile);
    TempsAre(infile, steps, outfile);
    SourceIsFirst(s);
    SinkIsLast(s);
    EndItems(infile, s, outfile, temps);
    EndOfFirst(infile, s, outfile, temps, w.fs);
    FirstIsPrefix(ItemsOf(infile, s, outfile, temps));
    if infile != "" && outfile != "" { NoExtraEnds(infile, steps, outfile); }
  }

  lemma NoExtraEnds(infile: string, steps: seq<Step>, outfile: string)
    requires infile != "" && outfile != ""
    ensures WithEnds(infile, steps, outfile) == if steps == [] then [CAT] else steps
  {
  }

  lemma {:induction false} FirstIsPrefix(items: seq<Item>)
    requires items != []
    ensures FirstOf(items) == items[..|FirstOf(items)|]
  {
  }

  lemma {:induction false} NoFilesAmong(s: seq<Step>, items: seq<Item>, infile: string, outfile: string, temps: seq<string>, fs: map<string, Bytes>)
    requires FilesAmong(s, |s|) <= |temps| && NewNames(temps, infile, outfile, fs) && items == ItemsOf(infile, s, outfile, temps)
    requires forall i :: 0 < i < |items| ==> items[i].inf == ""
    ensures FilesAmong(s, |s|) == 0
  {
    if FilesAmong(s, |s|) > 0 {
      var i := BoundaryOf(s, |s|, 0);
      LinkAt(infile, s, outfile, temps, i, fs);
      assert false;
    }
  }

  /** makepipeline preserves meaning.  The script that it makes computes the composition of the steps: from the
      input file or the standard input to the output file or the standard output, or into the sink.  The input is
      lost when the output of one command is redirected to the file that it reads, and it is subject to a race when
      that happens in a pipeline of several.  Nothing else is left behind. */
  lemma {:induction false} ScriptMeansComposition(
      infile: string, steps: seq<Step>, outfile: string, temps: seq<string>, w: World, m: (string, Bytes) -> Bytes, race: string -> Bytes)
    requires Proper(steps) && (forall b :: m("cat", b) == b)
    requires TempsNeeded(infile, steps, outfile) <= |temps| && NewNames(temps, infile, outfile, w.fs)
    ensures var s := ParseScript(MakePipelineTokens(infile, steps, outfile, temps));
      s.Some? &&
      var w' := RunScript(s.value, w, Vars("", ""), m, race);
      var d := Taken(infile, steps, outfile, w, race);
      var out := Flow(steps, d, m);
      && w'.fs == (if outfile != "" && !Sinks(steps) then w.fs[outfile := out] else w.fs)
      && w'.stdout == w.stdout + (if outfile == "" && !Sinks(steps) then out else [])
      && w'.sunk == w.sunk + (if Sinks(steps) then [(steps[|steps| - 1].cmd, Flow(steps[..|steps| - 1], d, m))] else [])
      && w'.stdin == (if infile == "" && !Sources(steps) then [] else w.stdin)
  {
    hide *;
    var s := WithEnds(infile, steps, outfile);
    assert FilesAmong(s, |s|) == TempsNeeded(infile, steps, outfile) by { TempsAre(infile, steps, outfile); }
    var items := ItemsOf(infile, s, outfile, temps);
    var garbage := temps[..TempsNeeded(infile, steps, outfile)];
    var d := Taken(infile, steps, outfile, w, race);
    WithEndsIsProper(infile, steps, outfile);
    ItemsAreLinked(infile, s, outfile, temps, w.fs);
    TokensAre(infile, steps, outfile, temps);
    WholeScriptRuns(items, garbage, w, Vars("", ""), m, race);
    InputIsTaken(infile, steps, outfile, temps, w, race);
    RemovingRemoves(Outcome(items, w, d, m), garbage);
    OutcomeIs(items, w, d, m);
    EndsAre(infile, steps, outfile, temps, w, d, m);
    FilesLeft(infile, steps, outfile, temps, w, m, race);
    SunkAfter(items, w, d, m);
    SunkIs(infile, steps, outfile, temps, d, m);
  }

  /** What is in file "f" after its conversion to itself. */
  function ConvertedOnto(steps: seq<Step>, w: World, m: (string, Bytes) -> Bytes, race: string -> Bytes): Bytes
    requires TempsNeeded("f", steps, "f") == 0
  {
    var s := ParseScript(MakePipelineTokens("f", steps, "f", []));
    if s.None? then [] else Content(RunScript(s.value, w, Vars("", ""), m, race).fs, "f")
  }

  /** A command that is given both names finds its input, and may write over it. */
  lemma InPlace(w: World, m: (string, Bytes) -> Bytes, race: string -> Bytes)
    requires forall b :: m("cat", b) == b
    ensures var steps := [Step("sort -o $OUT $IN", Kind(File, File))];
      TempsNeeded("f", steps, "f") == 0 && ConvertedOnto(steps, w, m, race) == m(steps[0].cmd, Content(w.fs, "f"))
  {
    var steps := [Step("sort -o $OUT $IN", Kind(File, File))];
    ScriptMeansComposition("f", steps, "f", [], w, m, race);
    assert steps[1..] == [];
  }

  /** A command whose output is redirected to its input finds nothing there. */
  lemma Emptied(w: World, m: (string, Bytes) -> Bytes, race: string -> Bytes)
    requires forall b :: m("cat", b) == b
    ensures var steps := [Step("sort", Kind(Std, Std))];
      TempsNeeded("f", steps, "f") == 0 && ConvertedOnto(steps, w, m, race) == m("sort", [])
  {
    var steps := [Step("sort", Kind(Std, Std))];
    ScriptMeansComposition("f", steps, "f", [], w, m, race);
    assert steps[1..] == [];
  }

  /** In a pipeline it depends on which of the commands is faster. */
  lemma Raceable(w: World, m: (string, Bytes) -> Bytes, race: string -> Bytes)
    requires forall b :: m("cat", b) == b
    ensures var steps := [Step("sort", Kind(Std, Std)), Step("uniq", Kind(Std, Std))];
      TempsNeeded("f", steps, "f") == 0 && ConvertedOnto(steps, w, m, race) == m("uniq", m("sort", race("f")))
  {
    var steps := [Step("sort", Kind(Std, Std)), Step("uniq", Kind(Std, Std))];
    assert WithEnds("f", steps, "f") == steps && FilesAmong(steps, 1) == 0 && !NeedsFile(steps, 1);
    ScriptMeansComposition("f", steps, "f", [], w, m, race);
    assert steps[1..] == [Step("uniq", Kind(Std, Std))] && steps[1..][1..] == [];
  }

  lemma TempsAre(infile: string, steps: seq<Step>, outfile: string)
    ensures var s := WithEnds(infile, steps, outfile); FilesAmong(s, |s|) == TempsNeeded(infile, steps, outfile)
  {
  }

  lemma TokensAre(infile: string, steps: seq<Step>, outfile: string, temps: seq<string>)
    requires TempsNeeded(infile, steps, outfile) <= |temps|
    ensures var s := WithEnds(infile, steps, outfile); var n := TempsNeeded(infile, steps, outfile);
      FilesAmong(s, |s|) == n &&
      MakePipelineTokens(infile, steps, outfile, temps) == Script(ItemsOf(infile, s, outfile, temps), temps[..n])
  {
  }

  lemma OutcomeIs(items: seq<Item>, w: World, d: Bytes, m: (string, Bytes) -> Bytes)
    requires items != []
    ensures var w1 := Outcome(items, w, d, m); var done := AllDone(items, w, d, m);
      && w1.fs == done.fs && w1.sunk == done.sunk && w1.log == done.log
      && w1.stdout == w.stdout + Output(items, d, m) && w1.stdin == LeftOf(items[0], w.stdin)
  {
    StdoutKept(items, w, d, m);
  }

  /** The streams at both ends. */
  lemma {:induction false} EndsAre(
      infile: string, steps: seq<Step>, outfile: string, temps: seq<string>, w: World, d: Bytes, m: (string, Bytes) -> Bytes)
    requires Proper(steps) && (forall b :: m("cat", b) == b)
    requires TempsNeeded(infile, steps, outfile) <= |temps| && NewNames(temps, infile, outfile, w.fs)
    ensures var items := ItemsOf(infile, WithEnds(infile, steps, outfile), outfile, temps);
      && Output(items, d, m) == (if outfile == "" && !Sinks(steps) then Flow(steps, d, m) else [])
      && LeftOf(items[0], w.stdin) == (if infile == "" && !Sources(steps) then [] else w.stdin)
  {
    hide Flow, WithEnds, Linked, Apart, NewNames, Proper, Steps, TempsNeeded;
    var s := WithEnds(infile, steps, outfile);
    TempsAre(infile, steps, outfile);
    WithEndsIsProper(infile, steps, outfile);
    ItemsAreLinked(infile, s, outfile, temps, w.fs);
    WithEndsFlows(infile, steps, outfile, d, m);
    EndItems(infile, s, outfile, temps);
    SinkIsLast(s);
    SourceIsFirst(s);
  }

  lemma {:induction false} EndItems(infile: string, s: seq<Step>, outfile: string, temps: seq<string>)
    requires s != [] && FilesAmong(s, |s|) <= |temps|
    ensures var items := ItemsOf(infile, s, outfile, temps);
      items[0].inf == infile && items[0].step == s[0] && Last(items).outf == outfile && Last(items).step == s[|s| - 1]
  {
    var items, k := ItemsOf(infile, s, outfile, temps), |s| - 1;
    assert items[k].outf == LinkName(infile, s, outfile, temps, k + 1) && k + 1 == |s|;
  }

  lemma SinkIsLast(s: seq<Step>)
    requires s != [] && Proper(s)
    ensures Sinks(s) <==> s[|s| - 1].kind.output.Nothing?
  {
  }

  lemma SourceIsFirst(s: seq<Step>)
    requires s != [] && Proper(s)
    ensures Sources(s) <==> s[0].kind.input.Nothing?
  {
  }

  /** What a sink is given. */
  lemma {:induction false} SunkIs(
      infile: string, steps: seq<Step>, outfile: string, temps: seq<string>, d: Bytes, m: (string, Bytes) -> Bytes)
    requires Proper(steps) && (forall b :: m("cat", b) == b) && TempsNeeded(infile, steps, outfile) <= |temps|
    ensures var items := ItemsOf(infile, WithEnds(infile, steps, outfile), outfile, temps);
      (if Last(items).step.kind.output.Nothing?
       then [(Last(items).step.cmd, Flow(Steps(items[..|items| - 1]), d, m))] else [])
      == if Sinks(steps) then [(steps[|steps| - 1].cmd, Flow(steps[..|steps| - 1], d, m))] else []
  {
    hide Flow, LinkName;
    var s := WithEnds(infile, steps, outfile);
    WithEndsIsProper(infile, steps, outfile);
    if Sinks(steps) { FrontOfSink(infile, steps, outfile, d, m); }
    var items := ItemsOf(infile, s, outfile, temps);
    assert Steps(items[..|items| - 1]) == s[..|s| - 1];
  }

  /** What is left of the files once the temporary ones are removed. */
  lemma {:induction false} FilesLeft(
      infile: string, steps: seq<Step>, outfile: string, temps: seq<string>, w: World, m: (string, Bytes) -> Bytes, race: string -> Bytes)
    requires Proper(steps) && (forall b :: m("cat", b) == b)
    requires TempsNeeded(infile, steps, outfile) <= |temps| && NewNames(temps, infile, outfile, w.fs)
    ensures var items := ItemsOf(infile, WithEnds(infile, steps, outfile), outfile, temps);
      var d := Taken(infile, steps, outfile, w, race);
      AllDone(items, w, d, m).fs - Set(temps[..TempsNeeded(infile, steps, outfile)])
        == if outfile != "" && !Sinks(steps) then w.fs[outfile := Flow(steps, d, m)] else w.fs
  {
    var s := WithEnds(infile, steps, outfile);
    var items := ItemsOf(infile, s, outfile, temps);
    var garbage := temps[..TempsNeeded(infile, steps, outfile)];
    var d := Taken(infile, steps, outfile, w, race);
    hide Flow, WithEnds, Proper, AllDone, Linked, Apart, Taken, TempsNeeded;
    TempsAre(infile, steps, outfile);
    WithEndsIsProper(infile, steps, outfile);
    ItemsAreLinked(infile, s, outfile, temps, w.fs);
    EndItems(infile, s, outfile, temps);
    SinkIsLast(s);
    FilesAfter(items, w, d, m);
    BetweenAreTemps(infile, s, outfile, temps, w.fs);
    WithEndsFlows(infile, steps, outfile, d, m);
    assert Last(items).outf == outfile && (WritesNamed(Last(items)) <==> outfile != "" && !Sinks(steps));
    NothingDropped(if WritesNamed(Last(items)) then w.fs[outfile := Flow(steps, d, m)] else w.fs, Set(garbage));
  }

  lemma NothingDropped(fs: map<string, Bytes>, gone: set<string>)
    requires forall f :: f in gone ==> f !in fs
    ensures fs - gone == fs
  {
  }

  /** A sink at the end is given what all other steps make. */
  lemma {:induction false} FrontOfSink(infile: string, steps: seq<Step>, outfile: string, d: Bytes, m: (string, Bytes) -> Bytes)
    requires Sinks(steps) && forall b :: m("cat", b) == b
    ensures var s := WithEnds(infile, steps, outfile);
      s[|s| - 1] == steps[|steps| - 1] && Flow(s[..|s| - 1], d, m) == Flow(steps[..|steps| - 1], d, m)
  {
    var s := WithEnds(infile, steps, outfile);
    var front := steps[..|steps| - 1];
    if steps[0].kind.input.File? && infile == "" {
      assert s[..|s| - 1] == [CAT] + front;
      FlowAppend([CAT], front, d, m);
      CatFlows(d, m);
    } else {
      assert s == steps;
    }
  }

  /** Each temporary file is written once, then read once, and then removed. */
  lemma {:induction false} TemporaryFilesAreUsedOnce(
      infile: string, steps: seq<Step>, outfile: string, temps: seq<string>, w: World, m: (string, Bytes) -> Bytes, race: string -> Bytes, k: nat)
    requires Proper(steps) && k < TempsNeeded(infile, steps, outfile) <= |temps| && NewNames(temps, infile, outfile, w.fs)
    ensures var s := ParseScript(MakePipelineTokens(infile, steps, outfile, temps));
      s.Some? &&
      History(RunScript(s.value, w, Vars("", ""), m, race).log, temps[k])
        == History(w.log, temps[k]) + [Wrote(temps[k]), Read(temps[k]), Removed(temps[k])]
  {
    hide *;
    var s := WithEnds(infile, steps, outfile);
    TokensAre(infile, steps, outfile, temps);
    var items := ItemsOf(infile, s, outfile, temps);
    var garbage := temps[..TempsNeeded(infile, steps, outfile)];
    WithEndsIsProper(infile, steps, outfile);
    ItemsAreLinked(infile, s, outfile, temps, w.fs);
    WholeScriptRuns(items, garbage, w, Vars("", ""), m, race);
    var d := Input(FirstOf(items), w, race);
    RemovingRemoves(Outcome(items, w, d, m), garbage);
    OutcomeIs(items, w, d, m);
    AllDoneLog(items, w, d, m);
    var i := BoundaryOf(s, |s|, k);
    LinkAt(infile, s, outfile, temps, i, w.fs);
    assert items[i].inf == temps[k] == garbage[k];
    WrittenThenRead(items, i);
    TempsDiffer(temps, infile, outfile, w.fs, |garbage|);
    RemovedOnce(garbage, k);
    HistoryAppend(w.log + Events(items), Removals(garbage), temps[k]);
    HistoryAppend(w.log, Events(items), temps[k]);
  }

  lemma TempsDiffer(temps: seq<string>, infile: string, outfile: string, fs: map<string, Bytes>, n: nat)
    requires NewNames(temps, infile, outfile, fs) && n <= |temps|
    ensures var g := temps[..n]; forall i, j :: 0 <= i < j < |g| ==> g[i] != g[j]
  {
  }

  lemma {:induction false} LinkAt(infile: string, steps: seq<Step>, outfile: string, temps: seq<string>, i: nat, fs: map<string, Bytes>)
    requires 0 < i < |steps| && FilesAmong(steps, |steps|) <= |temps| && NewNames(temps, infile, outfile, fs) && NeedsFile(steps, i)
    ensures FilesAmong(steps, i) < |temps|
    ensures ItemsOf(infile, steps, outfile, temps)[i].inf == temps[FilesAmong(steps, i)] != ""
  {
    LinkIsFile(infile, steps, outfile, temps, i, fs);
  }
}
