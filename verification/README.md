# Verified models of eight components

This project models eight components of the Python 1.1 era source tree and proves what they are for.
`dafny verify dfyconfig.toml` checks all of it; every file is self-contained Dafny and uses no library.

| file | component |
|---|---|
| `Queue.dfy` | `Queue.Queue`: a bounded queue for many threads, built from three plain locks |
| `Persist.dfy` | `persist.dump`: an object graph with sharing and cycles printed as a straight-line program |
| `DldModel.dfy`, `DldLink.dfy`, `Dld.dfy`, `DldExec.dfy`, `DldChains.dfy` | the dynamic link editor `dld`: linking, rollback, unlinking, library search, executability |
| `LineEdit.dfy` | readline's line buffer and undo list |
| `KillRing.dfy` | readline's kill commands, kill ring and yank |
| `Display.dfy` | readline's `update_line` against a model of a terminal row |
| `Pipes.dfy`, `PipesText.dfy`, `PipesLex.dfy` | `pipes.makepipeline`: conversion steps compiled to a shell script |
| `FpFormat.dfy` | `fpformat`: rounding of decimal strings |
| `Aiff.dfy` | `aiff`: writer and reader of a sampled-sound format |
| `Formatter.dfy` | `formatter.formatter`: line breaking and justification |

Code that changes things step by step is modelled by classes and methods that do the same, each proved against
a function of the old state; what the functions mean is proved beside them as lemmas.

## How each model is built

**Queue.** A thread is a program counter with one value for each source statement; a schedule is any list of calls
and steps of any number of threads. Releasing a lock that is free, and taking an item from an empty list, are
faults. Every statement writes what it did into a history, from which first-in first-out order and atomicity are
read off. An invariant says who holds which lock; it is kept by every step of every schedule.

**Persist.** A heap of lists and dictionaries, immutable constants, strings and tuples; the printed statements and an
interpreter for them, in which an undefined name or a wrong type is an error. The dumper is an object with its memo
tables, its stack and its output. The result of the printed program is isomorphic to the part of the heap that was
dumped, which is then shown to mean that a program following paths through both graphs cannot tell them apart, aliases
included. No constant, string or tuple is created twice. `dumptuple` removes the top of the recursion stack although
it never pushed anything (python/lib/persist.py:205); the model does the same, and the proof shows it to be harmless,
because the type's table finds the object as well.

**Dld.** The symbol table says who defines and who refers to a symbol; all counters and reference lists are derived
from it, and `Consistent` says that they are right. Linking, a failed link, both kinds of unlink, the cascade of
obsolete modules, and the search of an archive through its `__.SYMDEF` are methods on that state. A file cannot be linked
exactly if one of its symbols is an initialised definition of what is already defined, in the table or by the file itself;
a second common definition counts as a reference. Three findings:

- `dld_init` takes the running program to have no undefined symbols, whatever its symbol table says
  (dld-3.2.3/dld.c:1980-1981). From then on, over every run, all counters are right but one: the program's own count stays
  too low by the number of symbols that it refers to and does not define (`DldLink.ProgramIsGood`, `Dld.Session`). It
  becomes negative when they are supplied, and the program is then taken for unresolved (`DldLink.SupplyingUnresolves`).
- `refs_by` is extended only when a symbol is defined (dld-3.2.3/dld.c:692-693), not when a file refers to a symbol that
  is defined already. If it is the inverse of `refs`, a module is flagged executable exactly if it needs no unresolved
  module (`DldChains.MarkExecutable`); a link keeps it so exactly under a condition on the symbols of the file
  (`DldChains.LinkKeepsInverse`). Otherwise a module that calls an unresolved one can be flagged executable
  (`DldChains.LateCallerIsFlagged`), although the comment on the search speaks of modules that can be executed safely
  (dld-3.2.3/dld.c:1706-1707).
- An unlink never takes a module off a `refs_by` chain. Chains stay inside the loaded modules over all links, and over
  an unlink exactly if no module that it frees is on the chain of one that it leaves, which for inverse chains means that
  it refers to none that stays (`DldChains.UnlinkAndChains`, with a pair of files for which that is not so,
  `DldChains.StaleChain`). The search needs the chains that it follows to name
  loaded modules only.

What an unlink frees is a function of the state before it: the least set that contains the unlinked family and every
module that nobody holds and only modules of the set refer to, with the libraries it leaves without members. The cascade
frees exactly that (`DldModel.DeadAreDoomed`); modules that only hold each other stay, since what stays is the largest
set whose members the user holds or refer to each other (`DldModel.SurvivorsAreHeld`, `DldModel.HeldSurvive`).

**LineEdit, KillRing.** The buffer is an array that is edited in place and grown; the specification is a text, a point
and the undo list. What an undo list means is a function from it and the text to the text before all changes; every
command keeps that, so that reverting restores the original line. Characters typed in a row share entries of at most
twenty, and one undo takes back the newest entry and nothing else. Kills are edits, so that the same holds for them; what
each kill command cuts off, and where it goes in the ring, is stated on the text in front of and behind the point. A
retained-kills limit of 0 works as no limit, because an existing ring is never empty.

**Display.** The terminal is a row of cells with a cursor, an insert mode and commands to insert, delete and clear; a
character put into the last cell leaves the cursor in a place terminals do not agree on. Termcap entries can be
missing, empty or real. The updated row is always right on exactly the terminals described by `Display.Usable`. The
cursor position is right except in one case, which is given exactly: clearing without a command prints one blank more
than necessary (readline/readline.c:2154-2160), which on a full row goes into the last column. What is printed is exactly
the part between the common beginning and the common end wherever the terminal can shift the rest (`Display.UpdateSends`).
The branch that prefers
printing to inserting (readline/readline.c:1658-1664) is dead (`Display.NeverCheaperToPrint`).

**Pipes.** The script is modelled as text and as tokens. A small shell (variables, redirections, pipelines, braces, in
the sense of sections 2.2 and 2.9 of the POSIX Shell Command Language) reads, parses and runs it; user commands are
arbitrary functions on bytes. One finding is about conversions of a file to itself. A command that is redirected onto its
input finds nothing there, because the shell empties the file before it starts the command; in a pipeline of several
commands the first one finds whatever the race with the last one leaves; in all other cases the input is safe
(`Pipes.InputIsSafe`). `Taken` is the input that the steps really get. `quote` of an empty name is an empty word, which
disappears; the script never quotes one (`PipesLex.MakePipelineIsRead`).

**FpFormat.** Strings denote real numbers; rounding is a relation between integers that has exactly one solution. Two
findings: an exponent with a leading zero is evaluated as an octal number (python/lib/fpformat.py:39), so that it is
misread exactly if it denotes eight or more, or cannot be read at all; and `sci` writes at least three digits, so its
own output is read back as the same number exactly if the exponent is below eight or has three digits without padding.

**Aiff.** Files are byte sequences with a position. Header fields, the patching of three of them, the 80-bit float and
the reader are modelled byte by byte. The mantissa has 64 bits, but an integer gets into it through a C double: it is
rounded to 53 bits, a tie to the even neighbour, so that the format is exact for an integer exactly if its other bits are
zeros, as they are for all supported rates. Written files are read back; a header is understood exactly if its frame
count and chunk size fit into signed 32 bits, which is what the reader takes them for.

**Formatter.** Boxes, sums and the drawn words are fields. The drawing loop divides integers; when exactly all of the
extra space is distributed is given for any stretches (`Formatter.DistributedExactly`), and it always is for stretches
that are not negative. Each gap then gets its share of what is left, rounded down, so that in front of any word the
space still to be given is in proportion to the stretch behind it up to one unit for each gap. Gaps of equal stretch
need not be equal: a later one can get more, and they differ by at most one unit on all lines exactly if the stretches
between them are multiples of theirs (`Formatter.EqualGapsIff`; `Formatter.UnequalGaps` has gaps of 0 and 2 units).
`tempindent` called twice on an empty line takes from the width twice but indents once
(python/lib/formatter.py:137-141); words stay in front of the right margin exactly if at least as much was taken from
the width as the line is indented by, and a negative indentation followed by a positive one breaks that
(`Formatter.TempIndentTwice`).

## Model

| member | source | states |
|---|---|---|
| `Queue.StatementKeepsBalance` | python/lib/Queue.py:40-89 | no statement of `put`, `get` or `get_nowait` releases a free lock or takes from an empty list; it acquires a lock only while nobody holds it, and keeps `esema` and `fsema` in step with the queue |
| `Queue.StatementLogs` | python/lib/Queue.py:40-89 | the notes of a statement move the thread through call, effect, return, and the queue from its old to its new contents |
| `Queue.ActKeepsInv` | python/lib/Queue.py:40-89 | any call or step of any thread keeps the invariant and does not fault |
| `Queue.EveryRunIsSafe` | python/lib/Queue.py:9-89 | in every interleaving of any number of threads, from the state `init` makes, nothing faults and the invariant holds |
| `Queue.LocksTellTheQueue` | python/lib/Queue.py:40-89 | each lock has at most one holder; outside critical sections `esema` is locked and ownerless iff the queue is empty, `fsema` iff it is full; the length never exceeds a positive maxsize |
| `Queue.NoDeadlock` | python/lib/Queue.py:40-89 | while an operation is in progress some thread can step iff it is not the case that all are getters waiting on an empty queue or all are putters waiting on a full one |
| `Queue.EmptyIsJustified` | python/lib/Queue.py:67-82 | `get_nowait` decides to raise Empty only on an empty queue or while another thread holds `esema`, and never leaves holding `esema` |
| `Queue.ReplayIsFifo` | python/lib/Queue.py:111-122 | a history that an atomic queue accepts has put exactly the items it has got, in order, followed by its contents |
| `Queue.EveryRunIsFifo` | python/lib/Queue.py:40-122 | in every run the items put are the items got, in order, followed by the contents of the queue: none lost, none twice |
| `Queue.ReturnHasEffect` | python/lib/Queue.py:40-89 | a return is preceded by one call and one effect of the same thread |
| `Queue.ReturnsReportEffects` | python/lib/Queue.py:40-89 | in every run each return reports the one effect its operation had since its call, so operations are atomic and refine a FIFO |
| `Queue.QueueObject.constructor` | python/lib/Queue.py:9-16 | the queue starts empty with `esema` locked and the other locks free |
| `Queue.QueueObject.Append` | python/lib/Queue.py:115-116 | `_put` adds at the end |
| `Queue.QueueObject.PopFront` | python/lib/Queue.py:119-122 | `_get` removes and returns the first item |
| `Queue.QueueObject.Execute` | python/lib/Queue.py:40-89 | executing a statement on the object's fields is the step of the state machine |
| `Queue.Simulate` | python/lib/Queue.py:9-89 | any schedule can be executed on one object, step by step as the state machine says, ending in a state with the invariant |
| `Persist.FollowSame` | python/lib/persist.py:64-68 | a path leads somewhere in the copy iff it does in the original, and to the same thing |
| `Persist.PathsAliasAlike` | python/lib/persist.py:82-97 | two paths meet in one list or dictionary of the copy iff they do in the original; constants and shapes agree |
| `Persist.DecimalInjective` | python/lib/persist.py:289-297 | different uids have different texts |
| `Persist.TupleKeyInjective` | python/lib/persist.py:198-204 | the text under which a tuple is remembered determines the uids of its items |
| `Persist.OpeningListKeepsInv` | python/lib/persist.py:218-229 | creating a list before its items are dumped keeps the relation between memo tables and printed program |
| `Persist.ClosingListKeepsInv` | python/lib/persist.py:236-237 | filling an open list with copies of its items keeps the relation between memo tables and printed program |
| `Persist.OpeningDictKeepsInv` | python/lib/persist.py:241-252 | creating a dictionary before its values are dumped keeps the relation between memo tables and printed program |
| `Persist.ClosingDictKeepsInv` | python/lib/persist.py:258-260 | filling an open dictionary with copies of its values keeps the relation between memo tables and printed program |
| `Persist.KnownTupleIsSame` | python/lib/persist.py:206-207 | a tuple that is found by its text has exactly the items asked for |
| `Persist.NewTupleKeepsInv` | python/lib/persist.py:208-214 | printing and remembering a new tuple keeps the relation between memo tables and printed program |
| `Persist.OnceMore` | python/lib/persist.py:127-146 | a statement that creates a constant, a string or a tuple is printed only for one that is not remembered, so that no two statements create the same one |
| `Persist.NewFromParts` | python/lib/persist.py:99-107 | what is created while the parts of an object are dumped can be reached from the object |
| `Persist.EntriesAreSame` | python/lib/persist.py:253-260 | whatever order the keys come in, the assignments rebuild the dictionary |
| `Persist.Dumper.constructor` | python/lib/persist.py:88-91 | a dump starts with empty tables and one statement |
| `Persist.Dumper.GenUid` | python/lib/persist.py:292-297 | uids are numbered from the seed on |
| `Persist.Dumper.DumpValue` | python/lib/persist.py:127-134 | a constant gets a uid that stands for it, and the tables only grow |
| `Persist.Dumper.DumpString` | python/lib/persist.py:138-146 | a string gets a uid that stands for it, and the tables only grow |
| `Persist.Dumper.FindUid` | python/lib/persist.py:218-224 | the search finds the uid of the same object iff it has one |
| `Persist.Dumper.DumpObject` | python/lib/persist.py:99-107 | any value, cyclic or shared: the dump terminates, its uid stands for a copy, and only objects reachable from it are copied |
| `Persist.Dumper.DumpItems` | python/lib/persist.py:201-204 | one uid for each item, each for a copy |
| `Persist.Dumper.DumpTuple` | python/lib/persist.py:198-214 | a tuple gets a uid that stands for a copy, although an entry of the stack is removed that it did not push |
| `Persist.Dumper.StartList` | python/lib/persist.py:225-229 | the list is remembered and created empty before its items are dumped, which breaks cycles |
| `Persist.Dumper.FillList` | python/lib/persist.py:236-237 | the appends make the new list a copy of the old one |
| `Persist.Dumper.DumpList` | python/lib/persist.py:218-238 | a list is dumped once, whatever refers to it |
| `Persist.Dumper.StartDict` | python/lib/persist.py:248-252 | a dictionary is remembered and created empty first |
| `Persist.Dumper.FillDict` | python/lib/persist.py:258-260 | the assignments make the new dictionary a copy of the old one |
| `Persist.Dumper.DumpDict` | python/lib/persist.py:241-261 | a dictionary is dumped once, whatever refers to it |
| `Persist.Dump` | python/lib/persist.py:88-97 | for every finite heap the dump terminates, the printed program uses only defined ids, rebuilds an isomorphic graph, copies nothing that is not reachable, and creates no constant, string or tuple twice |
| `Persist.Merge` | python/lib/persist.py:69-73 | a loaded dictionary is added to one whose own entries win |
| `Persist.SaveAndLoad` | python/lib/persist.py:55-73 | `writedict` followed by `readdict` into an empty dictionary gives back a copy of every entry |
| `DldModel.CountersAreDerived` | dld-3.2.3/dld.c:643-737 | two consistent states with the same symbol table and modules have the same counters and references |
| `DldModel.DefinitionKeepsConsistent` | dld-3.2.3/dld.c:662-710 | defining a symbol keeps the undefined-symbol counts, references and reference counts right |
| `DldModel.ReferenceKeepsConsistent` | dld-3.2.3/dld.c:711-736 | entering a reference keeps the undefined-symbol counts, references and reference counts right |
| `DldModel.PurgeUndoesDefinition` | dld-3.2.3/dld.c:756-809 | sweeping a dead module from the table undoes its definitions |
| `DldModel.PurgeUndoesReference` | dld-3.2.3/dld.c:756-809 | sweeping a dead module from the table undoes its references |
| `DldModel.ReleaseKeepsBalance` | dld-3.2.3/dld.c:1792-1802 | giving back one reference keeps each count the share plus the references still held, and never makes a positive count wrong |
| `DldModel.DefinitionKeepsLinking` | dld-3.2.3/dld.c:662-710 | after a definition has been entered, purging the new modules would still give the old table back |
| `DldModel.ReferenceKeepsLinking` | dld-3.2.3/dld.c:711-736 | after a reference has been entered, purging the new modules would still give the old table back |
| `DldModel.SweptIsConsistent` | dld-3.2.3/dld.c:1887-1923 | freeing the dead and the empty libraries leaves all counters right |
| `DldModel.DoomedIsClosed` | dld-3.2.3/dld.c:1776-1803 | whatever nobody holds and only doomed modules refer to is doomed |
| `DldModel.DoomedIsLeast` | dld-3.2.3/dld.c:1776-1803 | the doomed modules are the least set that contains the given ones and is closed in that way, so cycles of modules that only hold each other are not among them unless something doomed leads to them |
| `DldModel.DeadAreDoomed` | dld-3.2.3/dld.c:1776-1803 | when the cascade ends, exactly the doomed modules are dead |
| `DldModel.CleanCounts` | dld-3.2.3/dld.c:770-779 | sweeping one symbol changes a survivor's count of undefined symbols by exactly what the loop adds |
| `DldModel.CleanNames` | dld-3.2.3/dld.c:781-803 | sweeping one symbol changes the number of undefined symbols by exactly what the loop adds and subtracts |
| `DldModel.CascadeIsDone` | dld-3.2.3/dld.c:1744-1803 | after the cascade the survivors refer to exactly the survivors they referred to, and the counts are right |
| `DldModel.OldModulesHeld` | dld-3.2.3/dld.c:1860-1880 | when a failed link is undone every older module is held by its share or by another older module |
| `DldModel.OldModulesAlive` | dld-3.2.3/dld.c:1860-1880 | no older module has a count of zero while a link is undone |
| `DldModel.RollbackRestores` | dld-3.2.3/dld.c:1860-1880 | purging the new modules gives back the state before the link, counters included |
| `DldModel.UnlinkIsDetermined` | dld-3.2.3/dld.c:2061-2091 | there is only one good state that an unlink can lead to |
| `DldModel.RemovesUnheld` | dld-3.2.3/dld.c:2072-2080 | a soft unlink removes a module iff it is a file that the user holds and no other module refers to |
| `DldModel.SurvivorsAreHeld` | dld-3.2.3/dld.c:1892-1920 | of the modules that such an unlink leaves each file is held by the user or referred to by another one left, and each library has a member left |
| `DldModel.HeldSurvive` | dld-3.2.3/dld.c:1892-1920 | every set of modules with that property that has nothing of the unlinked family stays |
| `DldModel.SymbolsLeft` | dld-3.2.3/dld.c:764-806 | a symbol is left iff a module that stays defines it or refers to it, and these are what it then says |
| `DldModel.UnlinkIsDone` | dld-3.2.3/dld.c:2061-2091 | what is freed is the set computed from the state before the call, and the table and the modules that stay are as an unlink leaves them |
| `DldModel.SurvivorsAreSettled` | dld-3.2.3/dld.c:1887-1923 | no module is left that nobody needs, no library without members, and resolved modules are those without undefined symbols |
| `DldModel.FinishedUnlink` | dld-3.2.3/dld.c:2079-2090 | the state after an unlink is good, exactly the freed modules are gone, and the others are unchanged but for what is derived from the table |
| `DldModel.UnsharedIsGood` | dld-3.2.3/dld.c:2072-2090 | a soft unlink of a module still referred to only gives up the user's hold |
| `DldLink.EnterAllKeepsLinking` | dld-3.2.3/dld.c:743-752 | entering all symbols of a file, up to a clash, keeps the link revocable and the counters right |
| `DldLink.FailsIffMultiplyDefined` | dld-3.2.3/dld.c:643-672 | the symbols of a file can be entered iff none of them is an initialised definition of what is already defined, in the table before the call or by a symbol of the file in front of it |
| `DldLink.CommonsNeverClash` | dld-3.2.3/dld.c:630-640 | references and common definitions can always be entered |
| `DldLink.UnblamedIsEntered` | dld-3.2.3/dld.c:1023-1041 | a member that initialises nothing that is defined by what is linked, by itself in front or by another member, can be entered after any of the others |
| `DldLink.EnterAllDefines` | dld-3.2.3/dld.c:743-752 | once a file has been entered all that it defines is defined, by it unless it was before, and nothing becomes undefined |
| `DldLink.EnterAllMentions` | dld-3.2.3/dld.c:743-752 | the table relates the module to exactly the symbols of its file, and other modules to what they were related to |
| `DldLink.WantedIsCalled` | dld-3.2.3/dld.c:1114-1143 | a member that is wanted is referred to once it is linked |
| `DldLink.ObjectIsLinked` | dld-3.2.3/dld.c:1987-2033 | linking an object file over a good state gives a good state |
| `DldLink.MemberEntered` | dld-3.2.3/dld.c:1023-1041 | a member that has been loaded belongs to its library, whether or not its symbols clash; if they do not, it is referred to |
| `DldLink.LibraryIsLinked` | dld-3.2.3/dld.c:2009-2033 | linking a library with members gives a good state |
| `DldLink.ListedIsWanted` | dld-3.2.3/dld.c:980-1015 | with an accurate directory a needed name is reason enough to load the member |
| `DldLink.MembersMore` | dld-3.2.3/dld.c:1023-1050 | loading one more member leaves the table saying of every loaded member exactly what its file says |
| `DldLink.AllExhausted` | dld-3.2.3/dld.c:974-1052 | the entries of loaded members name nothing that is needed any more |
| `DldLink.ProgramIsGood` | dld-3.2.3/dld.c:1942-1983 | after `dld_init` all counters are right, except that the program counts too few undefined symbols by the number of symbols that it refers to and does not define |
| `DldLink.ProgramIsExact` | dld-3.2.3/dld.c:1942-1983 | its count is right iff it defines every symbol that it mentions |
| `DldLink.SupplyingUnresolves` | dld-3.2.3/dld.c:1942-1984 | for a program that refers to one symbol: linking a file that defines it makes the program count -1 undefined symbols and be taken for unresolved |
| `DldLink.LinkedIsGood` | dld-3.2.3/dld.c:2025-2033 | a link that has succeeded leaves a good state |
| `Dld.Linker.EnterGlobalRef` | dld-3.2.3/dld.c:643-737 | a definition is entered as one iff the symbol is not defined; it is refused iff it is initialised and the symbol is defined, and otherwise entered as a reference |
| `Dld.Linker.EnterDefinition` | dld-3.2.3/dld.c:662-710 | the loop over the referencers updates counts and reference lists as the table demands |
| `Dld.Linker.EnterReference` | dld-3.2.3/dld.c:711-736 | a reference is recorded once, and counted for its definer or as undefined |
| `Dld.Linker.LinkChain` | dld-3.2.3/dld.c:688-709 | one round of the loop over the referencers of a symbol gives the caller its reference, counts it once, and takes one from its undefined symbols |
| `Dld.Linker.ZeroCounts` | dld-3.2.3/dld.c:1866-1871 | the counts of a module and its members become zero |
| `Dld.Linker.RemoveCrossReferences` | dld-3.2.3/dld.c:1744-1769 | no module refers to the family any more |
| `Dld.Linker.CleanupObsoleteEntries` | dld-3.2.3/dld.c:1776-1803 | the cascade terminates on any graph, cycles included; counts stay balanced, what is held survives, and what dies has given back all references |
| `Dld.Linker.GiveBack` | dld-3.2.3/dld.c:1789-1802 | a module that has died gives back all its references, one by one, with the cascade this sets off |
| `Dld.Linker.CleanReferences` | dld-3.2.3/dld.c:765-779 | dead modules are taken off the list of referencers, the others need one symbol more if its definer is dead |
| `Dld.Linker.CleanSymbol` | dld-3.2.3/dld.c:764-806 | one symbol is kept, demoted to undefined or removed as its definer and referencers are dead or not, and the global count follows |
| `Dld.Linker.CleanupSymtab` | dld-3.2.3/dld.c:756-809 | the table without the dead modules, all survivors' counts and the global count right |
| `Dld.Linker.TakeDown` | dld-3.2.3/dld.c:1860-1880 | cross references, cascade and sweep together leave a swept state |
| `Dld.Linker.CleanUp` | dld-3.2.3/dld.c:1860-1880 | after a failed link of a file or library, any number of symbols and members in, the whole state is the one before the call |
| `Dld.Linker.DoUnlink` | dld-3.2.3/dld.c:1887-1923 | exactly the dead modules and the libraries left without members are freed |
| `Dld.Linker.PatchAllFiles` | dld-3.2.3/dld.c:1645-1682 | a module is resolved iff it has no undefined symbols |
| `Dld.Linker.UnlinkEntry` | dld-3.2.3/dld.c:2061-2091 | forced or not, an unlink leaves a good state and frees exactly the set that is determined by the state before it; a soft unlink of a library or of a module unlinked before changes nothing |
| `Dld.Linker.EnterFileSymbols` | dld-3.2.3/dld.c:743-752 | all symbols are entered, up to the first clash, which there is iff one of them is an initialised definition of what is already defined |
| `Dld.Linker.LinkObject` | dld-3.2.3/dld.c:1987-2033 | a link succeeds with all symbols entered iff the file can be read to its end and none of its symbols is an initialised definition of what is already defined; otherwise it leaves the state exactly as it was |
| `Dld.Linker.SubfileWanted` | dld-3.2.3/dld.c:1114-1143 | true iff the member defines a symbol that is referred to and undefined |
| `Dld.Linker.LoadMember` | dld-3.2.3/dld.c:1033-1036 | the symbols of the member are entered for a new module of the library; it is an error iff its text cannot be read or one of them is an initialised definition of what is already defined |
| `Dld.Linker.SymdefLibrary` | dld-3.2.3/dld.c:970-1056 | the search terminates for any directory; with an accurate one nothing is undefined, or no entry of the directory names an undefined symbol; the table holds exactly the symbols of the loaded members |
| `Dld.Linker.ClearOffset` | dld-3.2.3/dld.c:1046-1049 | all entries of a loaded member are marked as used |
| `Dld.Linker.FinishLibrary` | dld-3.2.3/dld.c:2015-2033 | a library without members is dropped and leaves no trace; otherwise only the new modules were added |
| `Dld.Linker.LinkLibrary` | dld-3.2.3/dld.c:1987-2033 | a library link that fails or loads nothing leaves no trace; otherwise exactly the library and its loaded members are added, old modules and definitions being as they were; it does not fail if the listed members can be read and none initialises what is linked or another member defines |
| `Dld.Linker.InitProgram` | dld-3.2.3/dld.c:1942-1983 | the symbols of the program are entered and it is taken to be resolved, whatever is undefined; it leaves nothing iff one of its symbols is an initialised definition of one defined in front |
| `Dld.Session` | dld-3.2.3/dld.c:1942-2091 | over every run of links and unlinks, failed ones included, from any program: all counters stay right, except that the count of the program stays too low by the number of symbols that it refers to and does not define |
| `DldExec.BlockedSpreads` | dld-3.2.3/dld.c:1690-1703 | what refers to a blocked module is blocked |
| `DldExec.PathIsCleared` | dld-3.2.3/dld.c:1690-1703 | a path from a cleared module leads to cleared ones only, although cleared modules are skipped |
| `DldExec.ClearedExactly` | dld-3.2.3/dld.c:1710-1739 | a finished search has cleared exactly the blocked modules |
| `DldExec.Marker.Invalidate` | dld-3.2.3/dld.c:1690-1703 | terminates on cycles and clears the module and all that reach it through `refs_by` |
| `DldExec.Marker.SetFlags` | dld-3.2.3/dld.c:1714-1724 | at the start of the search a module is executable iff it is resolved |
| `DldExec.Marker.FindAllExecutableModules` | dld-3.2.3/dld.c:1710-1739 | at the end a module is executable iff no unresolved module reaches it through `refs_by`, itself included |
| `DldChains.BlockedNeedsUnresolved` | dld-3.2.3/dld.c:1690-1739 | if `refs_by` is the inverse of `refs`, the search blocks a module iff it is unresolved or refers to an unresolved module, however indirectly |
| `DldChains.MarkExecutable` | dld-3.2.3/dld.c:1710-1739 | so on inverse chains a module is flagged executable iff it needs no unresolved module |
| `DldChains.LinkKeepsInverse` | dld-3.2.3/dld.c:662-736 | linking a file keeps the chains inverse iff none of its symbols is entered as a reference to a symbol that is defined by then, as the first that the file refers to of its definer; a condition on the table and the symbols before the call |
| `DldChains.LateCallerIsFlagged` | dld-3.2.3/dld.c:711-736 | a pair of files for which it does not: the second refers to the first, which is unresolved, and is flagged executable |
| `DldChains.ObjectKeepsChains` | dld-3.2.3/dld.c:1987-2033 | linking an object file keeps all `refs_by` chains inside the loaded modules |
| `DldChains.LinkKeepsChains` | dld-3.2.3/dld.c:1987-2033 | linking a file or library keeps all `refs_by` chains inside the loaded modules |
| `DldChains.UnlinkAndChains` | dld-3.2.3/dld.c:1809-1855 | an unlink keeps the chains inside the loaded modules iff no module that it frees is on the chain of one that it leaves, and inverse iff no module that it frees refers to one that it leaves: conditions on the state before the call |
| `DldChains.UnlinkKeepsInverse` | dld-3.2.3/dld.c:1809-1855 | inverse chains stay inverse iff no module that is freed refers to one that stays, which for them is the condition above |
| `DldChains.StaleChain` | dld-3.2.3/dld.c:1809-1855 | unlinking a caller while its callee stays frees exactly the caller and leaves it on the chain of the callee |
| `LineEdit.UndoIsSafe` | readline/readline.c:3989-4040 | an undo that does not start at the BEGIN of an open group does not abort, terminates, leaves the same groups open, and keeps the line revertible |
| `LineEdit.UndoAborts` | readline/readline.c:4021-4027 | an undo aborts iff it starts at an open BEGIN |
| `LineEdit.UndoThroughGroup` | readline/readline.c:4015-4039 | one undo runs through a group with nested groups to its BEGIN |
| `LineEdit.GroupIsUndoneAtOnce` | readline/readline.c:3989-4040 | one undo of a closed group restores the text at its BEGIN and drops the group |
| `LineEdit.InsertKeepsUnwind` | readline/readline.c:2626-2655 | an insertion, coalesced with the one before or not, keeps what the undo list means |
| `LineEdit.DeleteKeepsUnwind` | readline/readline.c:2659-2683 | a deletion, in either direction, keeps what the undo list means |
| `LineEdit.RewriteKeepsUnwind` | readline/readline.c:4055-4073 | a same-length rewrite guarded by `rl_modifying` keeps what the undo list means |
| `LineEdit.DoKeepsEditing` | readline/readline.c:3989-4102 | every command keeps the point in bounds, the groups nested and the line revertible to its original |
| `LineEdit.RunKeepsEditing` | readline/readline.c:3989-4102 | every run of commands keeps the point in bounds, the groups nested and the line revertible to its original; only an end of a group that was not begun and an undo right at an open BEGIN are not carried out |
| `LineEdit.DoIsLocal` | readline/readline.c:4043-4073 | a command inside a group does not touch what is below its BEGIN |
| `LineEdit.UndoIsLocal` | readline/readline.c:3989-4040 | an undo inside a group takes back part of the group and nothing below its BEGIN |
| `LineEdit.InsertIsLocal` | readline/readline.c:2642-2650 | an insertion is not coalesced with one in front of a BEGIN |
| `LineEdit.TypedEntries` | readline/readline.c:2642-2650 | n characters typed in a row where no insertion ends take (n + 19) / 20 entries, of which the last one holds exactly the last (n - 1) % 20 + 1 characters |
| `LineEdit.TypedUndone` | readline/readline.c:3989-4040 | one undo takes back exactly these, and leaves the line and the undo list as if they had not been typed |
| `LineEdit.NewEntry` | readline/readline.c:2642-2650 | after a move of the point, or for a string that is no single character, there is a new entry, and one undo takes back exactly it |
| `LineEdit.DeleteUndone` | readline/readline.c:4003-4014 | one undo of a deletion restores the line and puts the point behind the text |
| `LineEdit.RewriteUndone` | readline/readline.c:4055-4073 | one undo of a rewrite takes back all of it |
| `LineEdit.RewriteIs` | readline/readline.c:3228-3277 | a rewrite changes exactly the characters of its range |
| `LineEdit.InsideGroup` | readline/readline.c:4043-4052 | whatever is done in a group, undo commands included, what is recorded in it undoes to the text at its beginning |
| `LineEdit.GroupRestoresText` | readline/readline.c:3989-4073 | whatever was done inside a group, nested groups and undo commands included, one undo after its end takes back all of it |
| `LineEdit.Line.constructor` | readline/readline.c:1073-1076 | the line starts empty and terminated |
| `LineEdit.Line.ExtendLineBuffer` | readline/readline.c:2605-2613 | the buffer grows until there is room, keeping its text |
| `LineEdit.Line.Insert` | readline/readline.c:2626-2655 | the text is spliced in at the point, in place, within bounds, and recorded |
| `LineEdit.Line.Record` | readline/readline.c:2639-2651 | single characters share an entry of at most 20 while they are contiguous |
| `LineEdit.Line.Splice` | readline/readline.c:2635-2637 | the two loops put the text between what was before and behind the point |
| `LineEdit.Line.MakeRoom` | readline/readline.c:2635-2636 | moving up from the end overwrites nothing that is still needed |
| `LineEdit.Line.DeleteRange` | readline/readline.c:2659-2683 | the range is cut out in place and recorded, and nothing else changes |
| `LineEdit.Line.MoveDown` | readline/readline.c:2673 | moving down from the beginning cuts out the range |
| `LineEdit.Line.Guard` | readline/readline.c:4055-4073 | a group with the old text and an insertion over it is recorded |
| `LineEdit.Line.TakeBack` | readline/readline.c:4000-4030 | undoing one entry, without recording it |
| `LineEdit.Line.DoUndo` | readline/readline.c:3989-4040 | the loop does what the specification says and clears `doing_an_undo` unless it aborts |
| `LineEdit.Line.Overwrite` | readline/readline.c:3228-3277 | characters are put over the old ones in place |
| `LineEdit.Line.Perform` | readline/readline.c:2604-2683 | a command on the buffer is the command on the text |
| `LineEdit.Line.Revert` | readline/readline.c:4076-4083 | the line is its original again, nothing is left to undo |
| `LineEdit.EditAndRevert` | readline/readline.c:4076-4083 | after any run of commands with its groups closed, `rl_revert_line` restores the original text |
| `KillRing.OneWordForward` | readline/readline.c:2793-2810 | moving over one word makes progress and stops at the end of the first word that ends there |
| `KillRing.OneWordBackward` | readline/readline.c:2831-2851 | moving back over one word makes progress and stops at the start of the first word that starts there |
| `KillRing.ForwardWordsCounts` | readline/readline.c:2777-2812 | `rl_forward_word` moves to the end of the count-th word, or to the end of the line if there are fewer |
| `KillRing.BackwardWordsCounts` | readline/readline.c:2815-2853 | `rl_backward_word` moves to the start of the count-th word back, or to the start of the line if there are fewer |
| `KillRing.AlphabeticIs` | readline/readline.c:2521-2532 | the characters of words are the letters and the digits |
| `KillRing.WordsOnOnce` | readline/readline.c:2777-2812 | that place is the only one |
| `KillRing.WordsBackOnce` | readline/readline.c:2815-2853 | that place is the only one, backwards |
| `KillRing.PressKeepsGood` | readline/readline.c:4672-4846 | kills and yanks keep the line revertible and the ring index on the newest text |
| `KillRing.LineIsKilled` | readline/readline.c:4804-4818 | the text from the point to the end is cut off and is put behind the newest text, or in a new slot; for a negative direction the text in front of the point, which is put in front of the newest text |
| `KillRing.LineIsKilledBackward` | readline/readline.c:4822-4838 | the text in front of the point, or for a negative direction the text behind it |
| `KillRing.BeginningIsKilled` | readline/readline.c:3172-3179 | the text in front of the point is cut off and is put in front of the newest text, or in a new slot; the point is at the beginning |
| `KillRing.WordIsKilled` | readline/readline.c:4767-4781 | the text up to the end of the count-th word from the point, or of the line; for a negative count the text from the start of the count-th word back, or of the line |
| `KillRing.WordIsKilledBackward` | readline/readline.c:4786-4799 | the same with the sign of the count reversed |
| `KillRing.OnlyKillsGoOn` | readline/readline.c:376-416 | a key that is no kill, or a kill that has nothing to remove, ends the run of kills and leaves the ring as it is; a kill that removes text does not |
| `KillRing.KillsApart` | readline/readline.c:376-416 | so a kill after any such key takes a slot of its own, which holds exactly what it removed |
| `KillRing.FirstKillTakesSlot` | readline/readline.c:4689-4754 | a kill that follows no kill takes one slot at the end of the ring, and yanking it would restore the line |
| `KillRing.NextKillKeepsWhole` | readline/readline.c:4723-4754 | a kill that follows a kill joins it on the right side: yanking would still restore the line, other slots are untouched |
| `KillRing.MoreKills` | readline/readline.c:4672-4839 | any number of kills after a kill share its slot, and yanking it would still restore the line |
| `KillRing.YankRestores` | readline/readline.c:4672-4846 | after any run of text-removing kills `rl_yank` puts the line back as it was before the run; the run took one slot |
| `KillRing.NewSlotKeepsWindow` | readline/readline.c:4700-4720 | after a new slot the bounded ring is still the end of the unbounded one |
| `KillRing.PressKeepsWindow` | readline/readline.c:4672-4846 | over any key the bounded ring stays the end of the unbounded one, and the line is the same |
| `KillRing.RingKeepsNewest` | readline/readline.c:4646-4754 | over every run the ring never exceeds a positive limit and holds the newest texts |
| `KillRing.Killer.constructor` | readline/readline.c:4649-4659 | there is no ring before the first kill |
| `KillRing.Killer.Grow` | readline/readline.c:4712-4719 | the ring gets one slot more and keeps its texts |
| `KillRing.Killer.Shift` | readline/readline.c:4705-4711 | the oldest text goes |
| `KillRing.Killer.FindSlot` | readline/readline.c:4689-4726 | where a new text goes: the first slot, a slot more, or the last one after a shift |
| `KillRing.Killer.Store` | readline/readline.c:4689-4754 | appended behind, put in front, or in a new slot |
| `KillRing.Killer.KillRange` | readline/readline.c:4672-4754 | the text is copied, deleted and stored; an empty range only counts as a kill |
| `KillRing.Killer.SkipForward` | readline/readline.c:2798-2809 | the loops of `rl_forward_word` |
| `KillRing.Killer.ForwardWord` | readline/readline.c:2777-2812 | the point moves over count words |
| `KillRing.Killer.SkipBackward` | readline/readline.c:2834-2850 | the loops of `rl_backward_word` |
| `KillRing.Killer.BackwardWord` | readline/readline.c:2815-2853 | the point moves back over count words |
| `KillRing.Killer.KillWord` | readline/readline.c:4767-4781 | the text up to the count-th word end is killed; a negative count is the other command's |
| `KillRing.Killer.BackwardKillWord` | readline/readline.c:4786-4800 | the text from the count-th word start back is killed |
| `KillRing.Killer.KillLine` | readline/readline.c:4804-4818 | kills the text from the point to the end of the line, behind the newest text or in a new slot, or with a negative direction the text in front of the point |
| `KillRing.Killer.BackwardKillLine` | readline/readline.c:4822-4838 | kills the text in front of the point, or with a negative direction the text from the point to the end of the line |
| `KillRing.Killer.UnixLineDiscard` | readline/readline.c:3172-3179 | kills the text in front of the point |
| `KillRing.Killer.YankText` | readline/readline.c:4842-4846 | inserts the text at the index, or aborts without a ring |
| `KillRing.Killer.Handle` | readline/readline.c:377-416 | after each command the run of kills is over unless the command was a kill |
| `Display.NeverCheaperToPrint` | readline/readline.c:1658-1664 | the branch that prints instead of inserting is never taken |
| `Display.PrefixIsSame` | readline/readline.c:1607-1611 | up to the first difference the rows agree, there they differ |
| `Display.LastSameIsSame` | readline/readline.c:1621-1643 | the end that is left alone is the same in both rows |
| `Display.LastSameIs` | readline/readline.c:1621-1643 | of the longest common end behind the first difference all is left alone, or nothing if it is blank but for its first character when that is next to the difference |
| `Display.MoveIsShortest` | readline/readline.c:1747-1791 | the cursor is moved by the fewest commands: from where it is, or from the beginning of the row |
| `Display.UpdateSends` | readline/readline.c:1599-1716 | a row that has not changed sends nothing; any other is printed from the first difference to the common end if the terminal can shift that, and otherwise to its end, with blanks over the old row if it cannot be cleared |
| `Display.MoveIsRight` | readline/readline.c:1747-1791 | moving over the shown text, with a return or not, changes the cursor only |
| `Display.InsertionIsRight` | readline/readline.c:2076-2116 | with usable termcap entries the text is pushed into the row and insert mode is left |
| `Display.DeletionIsRight` | readline/readline.c:2057-2073 | deleting pulls the end of the row |
| `Display.ClearingIsRight` | readline/readline.c:2143-2162 | clearing blanks the end; the cursor comes back unless the blanks reach the last cell |
| `Display.GrowthIsRight` | readline/readline.c:1651-1692 | the branch for a longer row shows it |
| `Display.ShrinkingIsRight` | readline/readline.c:1693-1715 | the branch for a row that is not longer shows it, and exactly when the cursor is lost |
| `Display.UpdateIsRepaint` | readline/readline.c:1599-1716 | given that the row showed `o`, it shows exactly `n` padded with blanks after `update_line`; `last_c_pos` is the cursor iff the exceptional case does not apply |
| `Display.EveryUpdateShows` | readline/readline.c:1599-1716 | over every run of updates the row shows the newest text and the cursor is where readline thinks |
| `Display.FullRowLosesCursor` | readline/readline.c:1708-1714 | on a terminal without dc and ce, changing the last character of any full row loses the cursor |
| `Display.InsertingNeedsCommand` | readline/readline.c:2021-2034 | on a terminal that claims to insert but has no command for it the new text is printed over the row |
| `Display.DeletingNeedsCommand` | readline/readline.c:2057-2073 | on a terminal with an empty dc and no DC a deletion is not shown |
| `Display.ClearingNeedsCommand` | readline/readline.c:2143-2162 | on a terminal with an empty ce the end of a row is not cleared |
| `Display.UsableIsNeeded` | readline/readline.c:1599-1716 | every update is a repaint iff the termcap entries are usable, for all combinations |
| `Display.Output.DeleteChars` | readline/readline.c:2057-2073 | nothing is sent for more characters than the screen has |
| `Display.Output.InsertSomeChars` | readline/readline.c:2076-2116 | IC, or insert mode with ic for every character |
| `Display.Output.ClearToEol` | readline/readline.c:2143-2162 | ce, or one blank more than asked for and back |
| `Display.Output.MoveCursorRelative` | readline/readline.c:1747-1791 | the shorter of going back and starting over |
| `Display.Output.EndOf` | readline/readline.c:1613-1615 | the row ends at its terminator or at the width |
| `Display.Output.LastSameOf` | readline/readline.c:1621-1643 | the backward loop and the check for blanks |
| `Display.Output.UpdateLine` | readline/readline.c:1599-1716 | sends what the specification says, and sets `last_c_pos` as it says |
| `Display.Output.Change` | readline/readline.c:1648-1716 | the part behind the first difference |
| `Display.DisplayAll` | readline/readline.c:1599-1716 | displaying any buffers one after the other shows the last one |
| `Pipes.UserParses` | python/lib/pipes.py:236-246 | the shell reads the text of one item as its command with its variables and redirections |
| `Pipes.GroupParses` | python/lib/pipes.py:248-256 | the shell reads an item in braces as its assignments and its command |
| `Pipes.PipelineParses` | python/lib/pipes.py:248-256 | items joined by pipes are read as one pipeline |
| `Pipes.BodyParses` | python/lib/pipes.py:248-256 | the shell reads the joined items as one pipeline for each run of items without a file in between |
| `Pipes.ScriptParses` | python/lib/pipes.py:248-263 | the shell reads the whole script as the trap, these pipelines and the removal of the temporary files |
| `Pipes.HeadRuns` | python/lib/pipes.py:236-246 | an item takes its input file or the standard input and gives its output where it should |
| `Pipes.InnerRuns` | python/lib/pipes.py:248-256 | an item inside a pipeline takes what comes through the pipe and gives its output where it should |
| `Pipes.PartsRun` | python/lib/pipes.py:248-256 | a pipeline passes data through all its items |
| `Pipes.TargetsOfPipeline` | python/lib/pipes.py:248-256 | of the commands behind the first one of a pipeline only the last writes a file |
| `Pipes.RaceIsOverwritten` | python/lib/pipes.py:236-246 | what was in that file while the pipeline ran does not matter once it has been written |
| `Pipes.PipelineRuns` | python/lib/pipes.py:248-256 | a pipeline takes its input, which is empty if its only command is redirected onto it and up to the race if a later command writes it, and passes it through all its commands to its output |
| `Pipes.ScriptRuns` | python/lib/pipes.py:248-256 | running the script is doing the items one after the other, each on the output of the one before |
| `Pipes.WholeScriptRuns` | python/lib/pipes.py:200-265 | running the script does the items one after the other and then removes the files in between |
| `Pipes.ItemsAreLinked` | python/lib/pipes.py:201-234 | files come in between exactly where one of two neighbours needs one, under names not used otherwise |
| `Pipes.WithEndsFlows` | python/lib/pipes.py:215-223 | the `cat` added at an end does not change what flows |
| `Pipes.CatsAreNeeded` | python/lib/pipes.py:210-223 | `cat` is added where there is no step, and at an end that wants a file and is not given one; nowhere else |
| `Pipes.TempsAreNeeded` | python/lib/pipes.py:227-234 | there are as many temporary files as neighbours of which the one writes or the other reads a file |
| `Pipes.FilesAfter` | python/lib/pipes.py:227-246 | besides the files in between only the output file is written, with what flows through all steps |
| `Pipes.SunkAfter` | python/lib/pipes.py:236-246 | a sink is given what all steps before it make |
| `Pipes.WrittenThenRead` | python/lib/pipes.py:227-246 | a file in between is written once, then read once |
| `Pipes.InputIsTaken` | python/lib/pipes.py:200-223 | what the first pipeline reads, for every outcome of races, in terms of the arguments of the caller |
| `Pipes.InputIsSafe` | python/lib/pipes.py:200-234 | the first step is given what was in the input file, whatever the outcome of races, iff it is not the output file of the same redirected command or the same pipeline |
| `Pipes.InPlace` | python/lib/pipes.py:238-241 | one step that is given both names converts a file to itself |
| `Pipes.Emptied` | python/lib/pipes.py:242-245 | one step that is redirected onto its input finds nothing there |
| `Pipes.Raceable` | python/lib/pipes.py:242-256 | of two steps the first finds what the race leaves |
| `Pipes.ScriptMeansComposition` | python/lib/pipes.py:200-265 | for every template, every choice of named or standard input and output and every outcome of races the script computes the composition of the steps and leaves nothing else behind; the input is lost only where one command is redirected onto it, and subject to a race only inside one pipeline of several commands |
| `Pipes.FilesLeft` | python/lib/pipes.py:258-263 | once the temporary files are removed the files are as before, but for the output |
| `Pipes.TemporaryFilesAreUsedOnce` | python/lib/pipes.py:227-263 | every temporary file is written once, then read once, then removed |
| `PipesText.SafeIsRead` | python/lib/pipes.py:270-278 | a name of safe characters is read back unquoted |
| `PipesText.SingleIsRead` | python/lib/pipes.py:279-280 | a name without quotes is read back from single quotes |
| `PipesText.DoubleIsRead` | python/lib/pipes.py:281-286 | any name is read back from double quotes with escapes |
| `PipesText.SafeIs` | python/lib/pipes.py:270-271 | the characters of the two lists |
| `PipesText.QuoteStyle` | python/lib/pipes.py:273-286 | a name is not quoted iff all of its characters are safe; the quotes are single ones unless it has one of them |
| `PipesText.QuotedIsRead` | python/lib/pipes.py:273-286 | the shell reads a quoted name as that name iff it is not empty |
| `PipesText.ItemTokensText` | python/lib/pipes.py:236-246 | the text of an item is that of its tokens |
| `PipesText.QuoteFile` | python/lib/pipes.py:273-286 | the loops of `quote` |
| `PipesText.ItemText` | python/lib/pipes.py:236-246 | variables in front, redirections behind |
| `PipesText.MakeList` | python/lib/pipes.py:204-234 | the list of steps with their files, and the temporary names used |
| `PipesText.EndsOfList` | python/lib/pipes.py:208-223 | at least one step, `cat` where an end needs it |
| `PipesText.JoinAll` | python/lib/pipes.py:248-256 | the joining loop makes the text of the script's body |
| `PipesText.RmCommand` | python/lib/pipes.py:258-261 | the removal of the temporary files |
| `PipesText.MakePipeline` | python/lib/pipes.py:200-265 | the text is that of the tokens whose meaning is proved |
| `PipesText.Template.Append` | python/lib/pipes.py:115-134 | a step is added at the end iff nothing is wrong with it; otherwise the error raised names a fault it has, the first in the order of the checks |
| `PipesText.Template.Prepend` | python/lib/pipes.py:137-156 | a step is added in front iff nothing is wrong with it; otherwise the error raised names a fault it has, the first in the order of the checks |
| `PipesText.Template.Copy` | python/lib/pipes.py:189-197 | running the command of a template built by these methods computes the composition of its steps: files, standard output, what a sink is given, and the rest of the standard input |
| `PipesLex.RmIsRead` | python/lib/pipes.py:258-261 | the shell reads the removal as `rm` of exactly the temporary files, whatever characters are in their names |
| `PipesLex.TrapIsRead` | python/lib/pipes.py:262-263 | and the trap as a word that is the same removal |
| `PipesLex.TokenIsRead` | python/lib/pipes.py:236-263 | the text of every token is read back as that token |
| `PipesLex.TextIsRead` | python/lib/pipes.py:248-263 | the text of a sequence of tokens that may stand next to each other, with no name empty, is read back as that sequence |
| `PipesLex.ScriptIsRead` | python/lib/pipes.py:236-265 | so is the text of a whole script |
| `PipesLex.MakePipelineIsRead` | python/lib/pipes.py:200-286 | what `makepipeline` returns is read as it is meant, whatever characters are in the names; it never quotes an empty one |
| `PipesLex.TextMeansComposition` | python/lib/pipes.py:200-286 | the text that `makepipeline` returns, given to a shell, computes the composition of the steps |
| `FpFormat.UnexpoKeepsValue` | python/lib/fpformat.py:44-55 | `unexpo` preserves the denoted value for every exponent |
| `FpFormat.HalfUpIsUnique` | python/lib/fpformat.py:58-81 | rounding half up has one result |
| `FpFormat.NextDigitDecides` | python/lib/fpformat.py:65-67 | rounding half up depends on the first digit cut off only |
| `FpFormat.CarryIsPlusOne` | python/lib/fpformat.py:67-77 | a carry through any run of nines adds one |
| `FpFormat.Increment` | python/lib/fpformat.py:67-77 | the carry loop adds one to the digits kept, with one digit more if all were nines |
| `FpFormat.RoundFrac` | python/lib/fpformat.py:58-81 | exactly round-half-up of the magnitude at the digit, for every digit string and digit count |
| `FpFormat.HalfUpIsNearest` | python/lib/fpformat.py:58-81 | rounding half up gives the nearest multiple of the last place, a half going up |
| `FpFormat.RoundedIsNearest` | python/lib/fpformat.py:58-81 | the digits on both sides of the point after rounding are the nearest multiple, for positive and negative digit counts |
| `FpFormat.OctalIsSmaller` | python/lib/fpformat.py:39 | octal digits denote less than the same decimal digits, from eight on |
| `FpFormat.NumeralIsExtracted` | python/lib/fpformat.py:17-41 | of a sign, zeros, digits without a leading zero, a fraction or none, and an exponent or none, put together, `extract` gives back these parts: the sign iff it is a minus, the digits on both sides of the point, and 0 or the exponent |
| `FpFormat.OnlyNumerals` | python/lib/fpformat.py:17-33 | nothing else is a number |
| `FpFormat.LeadingZeroIsOctal` | python/lib/fpformat.py:39 | an exponent with a leading zero is the number that its digits denote to the base eight, and cannot be evaluated iff one of them is 8 or 9 |
| `FpFormat.ExponentIsMeant` | python/lib/fpformat.py:32-41 | an exponent is understood as meant iff it has no leading zero or denotes less than eight |
| `FpFormat.Fix` | python/lib/fpformat.py:86-97 | the text shows the value of the argument rounded to digs digits, with its sign; other strings are returned as they are |
| `FpFormat.Normalize` | python/lib/fpformat.py:105-116 | one digit in front of the point, not zero unless the number is, and the same value |
| `FpFormat.NormalBounds` | python/lib/fpformat.py:105-116 | the exponent of such a number is that of its leading digit's place |
| `FpFormat.FirstDigitStays` | python/lib/fpformat.py:117-122 | rounding does not lose the first digit |
| `FpFormat.NoCarry` | python/lib/fpformat.py:117-122 | without a carry the rounded digits have one digit in front of the point and the same exponent |
| `FpFormat.Carried` | python/lib/fpformat.py:119-122 | with a carry through all digits they are 10...0, and the exponent goes up by one |
| `FpFormat.Sci` | python/lib/fpformat.py:102-129 | one leading digit with the matching exponent, and the argument's value rounded to that many digits |
| `FpFormat.ExponentReads` | python/lib/fpformat.py:32-41 | an exponent of at least three digits is read as it was written iff it is below eight or needed no zeros in front |
| `FpFormat.SciReadsBack` | python/lib/fpformat.py:102-129 | what `sci` has written is read back as the same digits and exponent iff the exponent is below eight or has three digits or more without padding |
| `FpFormat.FixReadsBack` | python/lib/fpformat.py:86-97 | what `fix` has written is read back as the same digits, without an exponent |
| `Aiff.BigLow2` | python/lib/aiff.py:108-149 | shorts are read as they were written |
| `Aiff.BigLow4` | python/lib/aiff.py:118-142 | longs are, modulo 2^32 |
| `Aiff.HighestFirst` | python/lib/aiff.py:108-149 | the highest byte comes first, written and read |
| `Aiff.WriteLong` | python/lib/aiff.py:133-142 | four bytes at the position, for numbers from -2^32 on |
| `Aiff.WriteShort` | python/lib/aiff.py:144-149 | two bytes at the position |
| `Aiff.ReadBig` | python/lib/aiff.py:108-131 | big-endian bytes, or the end of the file |
| `Aiff.DoubleRounds` | python/src/floatobject.c:303-319 | an integer is converted to a nearest double; exactly those of 53 significant bits are unchanged |
| `Aiff.ExtendedRounds` | python/lib/aiff.py:149-198 | the 80-bit format keeps an integer of up to 64 bits as the double that it is converted to, negative ones included |
| `Aiff.ExtendedIsExact` | python/lib/aiff.py:149-198 | it is exact iff the bits behind the first 53 are zeros |
| `Aiff.FirstInexact` | python/src/mathmodule.c:136-158 | 2^53 + 1 is read back as 2^53 |
| `Aiff.RatesAreExact` | python/lib/aiff.py:168-198 | every supported rate is read back as it was |
| `Aiff.FieldsAre` | python/lib/aiff.py:168-198 | a number from 2^k on, below 2^(k + 1), has the exponent k with a bias of 16383, and a mantissa with its first bit at the left |
| `Aiff.RateBytes` | python/lib/aiff.py:168-198 | the ten bytes of each supported rate |
| `Aiff.ParamsRoundTrip` | python/lib/aiff.py:200-244 | parameters are accepted iff supported, and survive the way through the COMM fields |
| `Aiff.HeaderFields` | python/lib/aiff.py:246-273 | the size fields stand at 4, 22 and 42 |
| `Aiff.HeaderBytes` | python/lib/aiff.py:246-273 | the header byte by byte: names, sizes, channels, frames, bits of a sample, rate, zeros |
| `Aiff.PatchedIsHeader` | python/lib/aiff.py:265-273 | patching makes the header one of a file of the new size, whatever it was written for |
| `Aiff.ImageBytes` | python/lib/aiff.py:290-301 | a finished file is the header, the samples, and a zero byte if their number is odd |
| `Aiff.WriteExtended` | python/lib/aiff.py:168-198 | ten bytes at the position |
| `Aiff.WriteForm` | python/lib/aiff.py:246-249 | the FORM header |
| `Aiff.WriteComm` | python/lib/aiff.py:251-257 | the COMM chunk |
| `Aiff.WriteSsnd` | python/lib/aiff.py:259-263 | the SSND header |
| `Aiff.PatchSize` | python/lib/aiff.py:265-273 | three fields change, the position does not |
| `Aiff.WriteHeader` | python/lib/aiff.py:368-372 | the header of a new file |
| `Aiff.Writer.SetNSamps` | python/lib/aiff.py:353-357 | the number of frames is set at any time; a header that has been written stays as it is |
| `Aiff.Writer.Initialize` | python/lib/aiff.py:362-373 | the header is written once, iff the parameters are supported |
| `Aiff.Writer.WriteSampsRaw` | python/lib/aiff.py:359-381 | data is appended iff it is whole frames and not more than was set |
| `Aiff.Writer.WriteSamps` | python/lib/aiff.py:383-386 | the header is then up to date unless the number of frames was set |
| `Aiff.Writer.Destroy` | python/lib/aiff.py:290-301 | the closed file is the header for its contents, the contents, and a pad byte if odd; fails iff the preset number was not reached |
| `Aiff.HeaderIsRead` | python/lib/aiff.py:303-329 | the reader gets parameters and frame count out of a header iff frame count and size fit into signed 32 bits |
| `Aiff.FormIsRead` | python/lib/aiff.py:306-311 | the FORM header is read |
| `Aiff.CommIsRead` | python/lib/aiff.py:81-86 | the COMM chunk is read |
| `Aiff.SkippedIsInvisible` | python/lib/aiff.py:312-328 | a chunk of one of the ten kinds, wherever it stands among the others, makes no difference but that the samples are behind it |
| `Aiff.OpensWithChunk` | python/lib/aiff.py:303-329 | a file with such a chunk opens like the one without it |
| `Aiff.NothingWrittenIsUnreadable` | python/lib/aiff.py:290-329 | a file closed before anything was written cannot be opened |
| `Aiff.Reader.ReadChunkHeader` | python/lib/aiff.py:68-75 | identifier and size, or the end of the file |
| `Aiff.Reader.ReadCommChunk` | python/lib/aiff.py:81-86 | parameters and frame count, or an error for those that are not supported |
| `Aiff.Reader.ReadChunks` | python/lib/aiff.py:303-329 | unknown chunks are skipped up to SSND |
| `Aiff.Reader.InitRead` | python/lib/aiff.py:303-329 | the object is usable iff there was a COMM chunk before SSND |
| `Aiff.Reader.ReadSamps` | python/lib/aiff.py:331-342 | exactly the next frames, at most those that are left |
| `Aiff.WriteFile` | python/lib/aiff.py:344-386 | any sequence of whole-frame blocks, preset or not, makes the file image |
| `Aiff.ImageIsRead` | python/lib/aiff.py:303-329 | opening a finished file finds its parameters, its frame count and its samples |
| `Aiff.ReadBlocks` | python/lib/aiff.py:331-342 | blocks of any sizes that are read are consecutive parts of the samples, up to their end |
| `Aiff.ReadFile` | python/lib/aiff.py:303-342 | opening a finished file and reading it in any block sizes gives its parameters, frame count and samples |
| `Aiff.ThereAndBack` | python/lib/aiff.py:290-386 | write, close, read: the same parameters, frame count and bytes |
| `Formatter.AllIsDistributed` | python/lib/formatter.py:104-113 | all extra space is given away despite integer division |
| `Formatter.DistributedExactly` | python/lib/formatter.py:103-112 | for any extra space: all of it is distributed, and no more, iff no stretch overshoots what is left of the total, or the first that does finds so little extra space that the division rounds the excess away |
| `Formatter.NegativeStretchOvershoots` | python/lib/formatter.py:103-112 | with a negative stretch behind it a word can be given three units too many; and an overshoot can be harmless |
| `Formatter.DistributedIff` | python/lib/formatter.py:104-113 | all of at least as much extra space as there is stretch is distributed iff no beginning of the stretches overshoots the total |
| `Formatter.NoneNegative` | python/lib/formatter.py:104-113 | no beginning of the stretches overshoots the total if none is negative |
| `Formatter.PlacedAt` | python/lib/formatter.py:104-113 | where word k is drawn |
| `Formatter.JustifiedLineEndsAtMargin` | python/lib/formatter.py:78-119 | a justified line with positive extra space and stretch ends exactly at its margin iff its stretches do no harm; then it does not pass the right margin iff at least as much was taken from its width as it is indented by, and ends there iff it was the same |
| `Formatter.GapIsShare` | python/lib/formatter.py:104-113 | on the drawn line, each gap is given its part, by stretch, of what is still to be given, rounded down; nothing is left iff no stretch is |
| `Formatter.GivenInProportion` | python/lib/formatter.py:104-113 | in front of word k what is still to be given is the share of the stretch behind it in all of the missing space, and less than k units more |
| `Formatter.EqualGaps` | python/lib/formatter.py:104-113 | of two gaps of equal stretch the later one is given as much or more, at most one unit for each gap from the one to the other; at most one unit altogether if the stretches between are multiples of theirs |
| `Formatter.EqualGapsIff` | python/lib/formatter.py:104-113 | gaps of the same positive stretch differ by at most one unit on all lines iff the stretches between them are multiples of it |
| `Formatter.UnequalGaps` | python/lib/formatter.py:104-113 | two units for stretches 2, 1, 2 all go into the last gap |
| `Formatter.CenteredLine` | python/lib/formatter.py:99-108 | the space on both sides of a centred line differs by one at most |
| `Formatter.WordsInOrder` | python/lib/formatter.py:104-113 | words do not overlap |
| `Formatter.NoWordCrosses` | python/lib/formatter.py:56-69 | no word crosses the margin of its line unless it alone is too wide |
| `Formatter.RightMarginIsKept` | python/lib/formatter.py:56-117 | the words of all lines of an indentation, from whose width so much was taken, stay in front of the right margin iff at least as much was taken as they are indented by |
| `Formatter.TempIndentTwice` | python/lib/formatter.py:137-141 | `tempindent(-5)` and then `tempindent(3)` let a word be drawn five units across the right margin |
| `Formatter.WordsWithinLine` | python/lib/formatter.py:99-117 | every word lies between the top and the bottom of its line, whatever fonts are mixed |
| `Formatter.LineIsTight` | python/lib/formatter.py:67-68 | and no line is higher than that: some word touches its top, and some word its bottom, unless the baseline does |
| `Formatter.PlacedWords` | python/lib/formatter.py:104-113 | each box is drawn once, in order |
| `Formatter.TruncatedIsNearer` | python/lib/formatter.py:60-61 | factors that are no integers are truncated towards zero, by less than one |
| `Formatter.Formatter.constructor` | python/lib/formatter.py:16-25 | nothing added, nothing drawn |
| `Formatter.Formatter.Reset` | python/lib/formatter.py:29-37 | an empty line of full width |
| `Formatter.Formatter.SetFont` | python/lib/formatter.py:41-46 | the measurements are those of the font |
| `Formatter.Formatter.AddWord` | python/lib/formatter.py:53-54 | stretch equal to space |
| `Formatter.Formatter.AddWordStretch` | python/lib/formatter.py:56-69 | the word goes on the line if there is room, otherwise on the next one after exactly this line has been drawn justified |
| `Formatter.Formatter.Append` | python/lib/formatter.py:60-69 | sums, height and room follow |
| `Formatter.Formatter.Flush` | python/lib/formatter.py:75-76 | a line that is not justified |
| `Formatter.Formatter.FlushLine` | python/lib/formatter.py:78-119 | the boxes become one line, drawn below the one before; without boxes nothing happens |
| `Formatter.Formatter.DrawLine` | python/lib/formatter.py:84-113 | extra space and stretch are those of the boxes without the last glue |
| `Formatter.Formatter.DrawBoxes` | python/lib/formatter.py:104-113 | the loop puts every word where the specification does |
| `Formatter.Formatter.VSpace` | python/lib/formatter.py:125-126 | vertical space in lines |
| `Formatter.Formatter.VSpacePixels` | python/lib/formatter.py:130-132 | below what has been drawn |
| `Formatter.Formatter.TempIndent` | python/lib/formatter.py:137-141 | the indentation is set, but what it takes from the width adds up |
| `Formatter.Formatter.AddLeftIndent` | python/lib/formatter.py:145-149 | the left margin moves and the line starts anew |
| `Formatter.Format` | python/lib/formatter.py:16-149 | over every run each word is drawn once, in order, on lines placed as above |

## Left out

- `qsize`, `empty` and `full` of the queue: they only take and release `mutex` around one look at it.
- Subclasses of the queue that override `_put`, `_get`, `_empty` or `_full`.
- Persist: modules, types and volatile objects, how numbers and strings are printed (a constant is known by its type and
  its text), and the file the program is written to.
- Dictionaries of the dumped graph have string keys; the code prints any key by its representation.
- Dld: reading a.out files and archives, addresses, values, storage of common symbols and relocation; symbols are
  references, common or initialised definitions. Hash buckets and list order are sets and maps, so that the order in
  which modules are visited is left open; the results are proved for every order.
- Dld: the dummy entry with its counting rules (`dld_create_reference`, `dld_define_sym`, `dld_remove_defined_symbol`),
  `linear_library`, the atarist and sparc branches, and running out of memory.
- DldExec.Marker.FindAllExecutableModules: needs chains that name loaded modules only; when an unlink has left a removed
  module on a chain, the code follows a pointer to freed memory, and the model says nothing.
- Dld.Linker.SymdefLibrary: an inaccurate directory is allowed for termination and rollback, but then nothing is said about
  what is left undefined. A directory that is itself malformed, and an offset at the very end of the archive, where the code
  has no entry to go on with, are not part of this model.
- Dld.Linker.LinkLibrary: it is proved not to fail if no listed member clashes with another one, is unreadable or incomplete;
  otherwise that depends on which members are wanted, and a failure is only proved to leave no trace.
- Readline: what a command does is its effect on the line; key maps, numeric arguments, completion, vi mode, macros and
  signals are not part of this model. `rl_transpose_chars`, which edits without recording, `rl_unix_word_rubout`, which
  exchanges the ends of what it kills, and `rl_yank_pop` are left out.
- LineEdit.Line.Revert: groups must have been closed; undoing into an open group aborts, exactly as
  `LineEdit.UndoAborts` says.
- KillRing.ForwardWordsCounts: letters and digits are the ASCII ones, and the variable that allows path name characters in
  words is off.
- Display.UpdateIsRepaint: one row only; moving between rows, the prompt, control characters, padding and the empty
  strings for carriage return and backspace are not part of this model. The read of the character in front of an empty row
  is left out, because its value is not used.
- Pipes.ScriptMeansComposition: the text of a step is taken to be one command that accepts redirections, a command that is
  given `$OUT` to have read all of its input before it opens that file, input files that do not exist read as empty, and
  signals do not occur (the trap has no effect). The commands of a pipeline run one after the other, except that the first
  one finds anything at all in a file that a later one writes. `clone`, `debug`, `open_r` and `open_w` are left out.
- PipesLex.TextMeansComposition: between tokens the reader accepts the spaces that `makepipeline` writes and no others, and
  the commands of the user are taken as they stand.
- PipesText.MakePipeline: the names `tempfile.mktemp` will return are a parameter; they are new and differ.
- FpFormat.Fix: arguments that are numbers are converted by `repr` first, which is not part of this model; neither are the
  newline that `$` would allow at the end and exponents that are too large for a machine integer.
- Aiff.ExtendedIsExact: rates are integers; fractions, denormals, infinity and numbers that are not a number are left out.
- Aiff.Reader.ReadChunks: a chunk of negative size is skipped backwards by the code, which may then never end; the model
  reports it as a separate error.
- Aiff.Writer.constructor: files start empty, and writing to pipes is left out.
- Aiff: sizes are unbounded integers until they are written, where they wrap to 32 bits.
- Formatter.JustifiedLineEndsAtMargin: the drawing object is known by its measurements and by the words it was given;
  `float` products are exact reals.
