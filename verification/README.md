# A verified model of the GRASS file server

The GRASS server lets logged-in users move around a directory tree, transfer files and search file contents. This
project models the parts of it that are hard to get right and proves what they promise. Every statement below is a
lemma or a contract checked by Dafny 4.11 (`dafny verify dfyconfig.toml`).

**The pattern engine behind `grep`** (`include/common/regex*.h`, `src/common/commands/grep.cpp`).
A pattern is translated to postfix (`RegexPostfix`, `PostfixConverter`), the postfix text is compiled to an automaton
in an arena by patching dangling edges (`RegexNfa`, `Thompson`), lists of automaton nodes are stepped over the subject
with a stamp per node (`Simulation`), and a cache of at most 256 heap states, which may be flushed in the middle of a
match, memoises those steps (`RegexDfa`; what it keeps over a history of subjects is a function in `CacheRuns`). The
reference meaning is a set of words: `RegexLang.Lang` for expressions and `PatternMeaning.PatternL` for the grammar of
patterns in `PatternGrammar`, whose translation `PatternText` follows. The results compose in `RegexEngine`: what
`Compile` builds, `Match` decides, after any sequence of earlier matches. `GrepPattern` and `Grep` add the wrapping
between two `.*` and the sorted walk over the files. `Leaks`, `Escapes`, `BracedEscapes`, `Balance` and `EmptySubject`
settle when byte 2, escapes, braces on them, dollars, and the empty subject go wrong. `Syntax`, `BoundsText` and
`Oddities` tie all this to texts byte by byte, also to those outside the grammar.

**The tagged thread pool** (`include/common/threadpool.h`, `src/server/server.cpp`).
`ThreadPool` is a transition system whose steps are the locked sections of the threads; its theorems quantify over all
interleavings, and `PoolProgress` adds what can always go on, the order per worker, and that nothing is lost.
`JobQueue` is the two-array queue and `TaggedQueue` the shared queue object, proved to make those steps. `Server`
composes the server's two pools, where running jobs of the first are the producers of the second; `Shutdown` shows
that its end is always within reach.

**Paths and the session** (`src/common/path.cpp`, `src/common/command.cpp`, `src/common/commands/cd.cpp`).
`Paths` has the algebra of part lists, `PathObject` the mutable path and the working directory of a session.

**The virtual file tree** (`src/common/filesystem.cpp`, `include/common/filesystem.h`).
`FlatTree` is the tree as a table keyed by path, and says by sums over that table what the three aggregate counters
should be; `FilesystemTree` has the objects, with loops that walk the pointers and update counters in place modulo
2^64; `TreeRuns` and `RootRuns` say over whole runs which counters agree with a recount.

## Where the code differs from what it promises

The model follows the code. The following is proved.

* A subject byte 2 is taken for an epsilon node (`RegexLang.LeakIsReal`). `Match` is exact on all subjects for the
  language with that leak. A subject is safe from it under every expression iff it has no byte 2
  (`Leaks.LeakInvisibleIff`).
* `{0}` and `{1,}` are accepted but expanded wrongly; all other bounds are right (`Repetitions.ExpandRightIffSupported`).
  The comment above the expansion does not mention either case.
* A character after a backslash is not counted as an operand. A pattern of the grammar without dollars compiles iff
  every escaped character is all there is of the last alternative of its scope, with no unary operator after it, and
  with braces after it only where they copy nothing or the alternative before has several factors; what it then compiles
  to is given for all of them (`Escapes.CompilesIff`). So an escape is safe in parentheses of its own. Without braces on
  escapes such a pattern means what it says (`Escapes.EscapesMeaning`). Braces on an escaped character after a bar copy
  the last factor before the bar too (`EscapeExamples.BracesReachBack`); they are right, whatever is before the bar, iff
  they are `{1}`, `{0,1}` or `{0,}` (`BracedEscapes.BracedRightIff`, `BracedEscapes.SingleBraces`).
* A dollar is counted as an operand but written as a concatenation. A pattern of the grammar with a dollar anywhere and
  without escaped characters never compiles (`Escapes.DollarNeverCompiles`). With escaped characters one can compile
  (`EscapeExamples.DollarPaidFor`): if no braces follow escaped characters, iff the uncounted escapes make up for just
  two operands per dollar, and at no point of the translated text too late (`Balance.CompilesIffBalanced`). Of any
  translated text that is decided by its counts (`PatternCounts.CompiledIff`).
* Matching the empty subject is answered from a flag of the start state that is only set once a transition leads to
  it. So it is missed at first, by `a*` for one (`RegexEngine.EmptySubjectMissed`). It is matched iff it is in the
  language and the start list is among those the cache knows to have been led to, which is a function of the earlier
  subjects (`RegexEngine.Regex.Match`, `CacheRuns.KeptBy`). As long as those needed at most 256 lists, that is so iff some
  non-empty prefix of one of them leads back to the start list; beyond that this is still necessary
  (`CacheRuns.StartKept`). For an expression without loops it never happens (`EmptySubject.EmptyNeverMatched`).
* The search wraps the text of the pattern without parentheses, so with a bar at the top the two `.*` belong to the
  first and the last alternative only (`GrepPattern.WrappedEitherMeaning`, `GrepPattern.BarMisses`).
* Appending an absolute path to a relative one keeps the relative flag, and the root is printed as the empty text
  (`PathObject.Path.Append`, `Paths.PrintParse`). `cd` to a file reports an error but goes there
  (`PathObject.Session.Cd`).
* A removal decrements the entry count of the direct parent twice, and leaves the disk size of a removed folder in the
  sizes above it (`TreeRuns.RemovalMiscounts`, `TreeRuns.RemovalMissizes`). Over any history the two counters are right
  iff the errors it has added up are multiples of 2^64 (`TreeRuns.AfterTheScan`). Insertions never update the counters
  of the root object, removals do. So those agree with a recount iff all that the scan found and all that has been
  inserted since, removed again or not, adds up to a multiple of 2^64 with the errors of the removals
  (`RootRuns.RootAfterTheScan`).
* A job enqueued after the stop may never run (`ThreadPool.LateJobIsLost`, `ThreadPool.JobCanBeLost`); the order of the two
  joins in the server rules that out for the server's own jobs (`Server.ShutdownLeavesNothing`).

## Model

| member | source | states |
|---|---|---|
| `RegexLang.LeakSame` | include/common/regexnfa.h:163-175 | The language the automaton really has (a subject byte 2 can move through an epsilon node) has the same words as the reference language among all words without byte 2. |
| `RegexLang.LeakIsReal` | include/common/regexnfa.h:170 | The comparison with the subject byte also succeeds on epsilon nodes: `a?` matches the two bytes 2, `a`, which are not in its language. The byte 2 can stand before the first of two alternatives but not the second, and before another round of a loop but not before the round that is required. |
| `Leaks.LeakInvisibleIff` | include/common/regexnfa.h:170 | A subject cannot be matched wrongly by any expression iff it has no byte 2; for every subject with one there is an expression without reserved literals that matches it and should not. |
| `RegexLang.PlusIsCatStar` | include/common/regexnfa.h:102-116 | `e+` as built, one pass through `e` and then a loop, is `e` followed by `e*`. |
| `Thompson.LinkWires` | include/common/regexnfa.h:282-286 | Pointing all dangling edges of a fragment at a target gives the automaton of its expression with that target as its exit. |
| `Thompson.LinkedElsewhere` | include/common/regexnfa.h:282-286 | Linking changes no node outside the id range of the fragment whose slots are linked. |
| `Thompson.FragmentCorrect` | include/common/regexnfa.h:38-126 | For every expression, the wired fragment between its entry and its exit recognises exactly its language, from both sides: every path that leaves the range does so at the exit after a word of the language, and every word has such a path. Loops make the graphs cyclic. |
| `Thompson.AltRecognises` | include/common/regexnfa.h:59-73 | A split node over two fragments recognises the union (with byte 2 as an alias of the left edge). |
| `Thompson.LoopRecognises` | include/common/regexnfa.h:87-116 | A split node that closes a loop recognises the iteration of the looped language. |
| `Thompson.AutomatonCorrect` | include/common/regexnfa.h:34-139 | A finished automaton accepts a word iff the word is in the language of its expression. |
| `RegexNfa.PostfixRoundTrip` | include/common/regexnfa.h:34-139 | Reading the postfix text of an expression gives the expression back. |
| `RegexNfa.EvalPostfix` | include/common/regexnfa.h:34-139 | Reading the postfix text of an expression on any stack pushes just that expression. |
| `RegexNfa.ConcatFragment` | include/common/regexnfa.h:48-58 | Concatenation keeps the fragment invariant: contiguous disjoint id range, unshared slots still 0, and the wiring of both operands. |
| `RegexNfa.LoopFragment` | include/common/regexnfa.h:87-116 | Both loops keep the fragment invariant. |
| `RegexNfa.Nfa.AllocateState` | include/common/regexnfa.h:244-258 | A new node at the top of the arena, its edges as given, nothing else changed. |
| `RegexNfa.Nfa.Link` | include/common/regexnfa.h:282-286 | Sets exactly the given slots to the target. |
| `RegexNfa.Nfa.Apply` | include/common/regexnfa.h:38-126 | One postfix symbol: it throws iff an operand is missing; otherwise the fragment stack is laid out as the operand stack demands, and one node is allocated unless the symbol is a concatenation. |
| `RegexNfa.Nfa.From` | include/common/regexnfa.h:34-139 | Construction throws iff the postfix text does not reduce to exactly one operand; otherwise the object holds the automaton of that operand, every edge is 0 or an allocated node, and the number of nodes is the text length without concatenations plus one. |
| `RegexNfa.Nfa.AddStateToStateList` | include/common/regexnfa.h:225-241 | The recursive closure over stamps ends on every graph and computes the closure of the specification; its verdict is positive only if a final node was met, and always if one was met for the first time. |
| `RegexNfa.Nfa.GetStartStates` | include/common/regexnfa.h:141-146 | The start list depends on the automaton only, not on stamps left behind. |
| `RegexNfa.Nfa.Step` | include/common/regexnfa.h:163-175 | The next list depends on the list and the byte only, and the verdict is true iff that list has the final node (or it was true before). |
| `Simulation.AddCorrect` | include/common/regexnfa.h:225-241 | The closure adds exactly the not yet seen nodes that epsilon edges reach, each once. |
| `Simulation.StepCorrect` | include/common/regexnfa.h:163-175 | A step yields, without duplicates, exactly the nodes reachable by reading the byte and then following epsilon edges. |
| `Simulation.RunCorrect` | include/common/regexnfa.h:150-158 | After reading a word the list contains a final node iff some node of the first list accepts the word. |
| `Simulation.SimulationCorrect` | include/common/regexnfa.h:141-175 | Simulating the automaton of an expression decides its language, for every word. |
| `RegexDfa.Dfa.GetDfaStart` | include/common/regexdfa.h:103-108 | The start state is live and has the start list, also after a flush; what is kept changes as by looking the start list up. |
| `RegexDfa.Dfa.GetDfaState` | include/common/regexdfa.h:84-101 | Whatever the cache holds, the result is a live cached state for the list, the invariant is kept, the state in use survives a flush, and the cached lists and those known to have been led to are as specified: kept if there is room, else only what concerns the state in use. Its precondition, that a state in use with the empty list finds its successor cached, is proved at the only call. |
| `CacheRuns.KeptTracks` | include/common/regexdfa.h:84-101 | Over every history of subjects the cache keeps no more than the lists needed so far and those led to, and exactly these as long as they are at most 256. |
| `CacheRuns.StartKept` | include/common/regexdfa.h:33-46 | So that a byte has led to the start list is known after a history only if some non-empty prefix of a subject leads back there, and if so as long as at most 256 lists were needed. |
| `CacheRuns.OneByte` | include/common/regexdfa.h:36-44 | One byte: nothing is forgotten unless the cache holds 256 lists and needs one more; then all but the list in use, of which it is still known whether a byte has led to it. |
| `CacheRuns.FirstLookup` | include/common/regexdfa.h:103-108 | At the beginning of a subject a flush spares nothing. |
| `CacheRuns.KeptBounded` | include/common/regexdfa.h:84-101 | Never more than 256 lists are cached. |
| `RegexDfa.Dfa.DeleteAllBut` | include/common/regexdfa.h:58-67 | Deletes every cached state but one, each once. |
| `RegexDfa.Dfa.FlushCache` | include/common/regexdfa.h:58-75 | After a flush only the retained state is cached and live, with an empty table; no pointer leads to a deleted state. |
| `RegexDfa.Dfa.Fill` | include/common/regexdfa.h:38-42 | Filling one entry of the table and setting the verdict of its target keeps every memo right, and records that a byte has led to the target. |
| `RegexDfa.Dfa.Advance` | include/common/regexdfa.h:36-44 | One byte: the next state is live, has the list one step further, and its verdict is exact, memoised or not, flushed or not; what is kept afterwards does not depend on whether the step was memoised. |
| `RegexDfa.Dfa.Match` | include/common/regexdfa.h:33-46 | For a non-empty subject the verdict is that of the list simulation, whatever earlier matches left in the cache and however often it is flushed on the way; for the empty subject it also needs that a byte has led to the start list since that was cached. What is kept afterwards is a function of what was kept before and the subject. The invariant (at most 256 entries, keys are the lists, filled entries are live and right, a state's flag is set iff a byte has led to its list and that is final) is kept. |
| `RegexDfa.Dfa.Destroy` | include/common/regexdfa.h:20-22 | The destructor leaves no state allocated. |
| `RegexPostfix.ExpansionText` | include/common/regexpostfix.h:221-254 | The text appended for a repetition, after the operand's text, is the postfix text of the expanded expression. |
| `RegexPostfix.ParseRepetitions` | include/common/regexpostfix.h:173-219 | What is read ends at a closing brace with 0 <= n <= m. |
| `PostfixConverter.Converter.PopAllConcat` | include/common/regexpostfix.h:141-144 | The loop writes one operator for each waiting operand but the last, and leaves the counter as the loop does. |
| `PostfixConverter.Converter.ParseRepetitions` | include/common/regexpostfix.h:173-219 | The parsing loop agrees with the recursive specification, exceptions included. |
| `PostfixConverter.Converter.TranslateRepetitions` | include/common/regexpostfix.h:221-254 | The four loops append the expansion. |
| `PostfixConverter.Converter.Next` | include/common/regexpostfix.h:32-80 | One iteration of the scan agrees with the specification, exceptions included. |
| `PostfixConverter.Converter.Convert` | include/common/regexpostfix.h:28-83 | The translation object computes the specified postfix text or throws the specified exception. |
| `PatternText.TermText` | include/common/regexpostfix.h:132-144 | While a term is scanned one or two operands wait, never more, and writing the pending operator completes the term's text. |
| `PatternText.PatternText` | include/common/regexpostfix.h:81-82 | Closing a scope completes the text of the pattern in it, one alternation for each bar, also if the last alternative is an escaped character. |
| `PatternText.RepeatedState` | include/common/regexpostfix.h:60-70 | The text copied for a repetition, from where the last group started, is exactly the text of the operand on its left, also after groups, unaries and earlier repetitions. |
| `PatternGrammar.ScanGroup` | include/common/regexpostfix.h:33-48 | The scan of a parenthesised pattern, whatever it contains, leaves the outer scope with one more counted operand, or throws. |
| `PatternGrammar.ScanPattern` | include/common/regexpostfix.h:32-80 | Scanning the text of any pattern, escapes and dollars included, goes through its parts one after the other and throws where one of them does. |
| `PatternGrammar.ParseInContext` | include/common/regexpostfix.h:173-219 | What is read between braces does not depend on what surrounds them. |
| `PatternText.ConvertCorrect` | include/common/regexpostfix.h:28-83 | For every pattern among those that compile, translating its text gives the postfix text of its expression: concatenation nested to the left, alternation to the right, repetitions expanded, and braces on an escaped character copying the last factor before the bar too. |
| `PatternText.EscapeText` | include/common/regexpostfix.h:55-70 | An escaped character alone in its alternative, and what braces after it write: if the alternative before has several factors, the last of them is in every copy, and what results is the text of the expression `Garbled`. |
| `PatternText.GarbledText` | include/common/regexpostfix.h:221-254 | The copies of a factor, a concatenation and an operand, appended to the operand, are the postfix text of one expression, for all bounds. |
| `Repetitions.ExpandCorrect` | include/common/regexpostfix.h:221-254 | For 1 <= n <= m, for n = 0 with finite m >= 1, for n = 0 unbounded and for n >= 2 unbounded, the expanded expression is the union of the powers from n to m. |
| `Repetitions.ExpandRightIffSupported` | include/common/regexpostfix.h:221-254 | The expansion is right for all operands iff the bounds are neither `{0}` nor `{1,}`; both are accepted by the parser and expanded wrongly (to `e?` and to at least two copies). |
| `Repetitions.ExpandUnsupported` | include/common/regexpostfix.h:233-246 | What the two others are expanded to: `{0}` to at most one, `{1,}` to at least two. |
| `PatternMeaning.PatternCorrect` | include/common/regexpostfix.h:28-83 | The expression a pattern that compiles is translated to has the language of the pattern, if all repetitions have supported bounds and those on escaped characters copy nothing. |
| `PatternMeaning.EscapeCorrect` | include/common/regexpostfix.h:55-70 | Also for an escaped character with braces, whatever is before the bar. |
| `PatternMeaning.SafeBounds` | include/common/regexpostfix.h:221-254 | Supported bounds that copy nothing are `{1}`, `{0,1}` and `{0,}`. |
| `PatternMeaning.TranslationCorrect` | include/common/regexpostfix.h:28-83 | Text to text and back: the postfix text of a printed pattern reduces to one expression, whose language is that of the pattern. |
| `PatternMeaning.StoiDecimal` | include/common/regexpostfix.h:203-209 | A number written in decimal is read back. |
| `PatternMeaning.ReadExact` | include/common/regexpostfix.h:183-191 | `{n}` is read as the bounds n, n. |
| `PatternMeaning.ReadRange` | include/common/regexpostfix.h:173-219 | `{n,m}` and `{n,}` are read as the bounds n, m and n, unbounded. |
| `BoundsText.ReadsLimits` | include/common/regexpostfix.h:173-219 | Between braces there is at most one comma, and on each side of it only white space or a number; white space on the left means 0, on the right no bound, and without a comma both bounds are the same. Whatever does not fit, or has its bounds the wrong way round, is refused: for all texts without a closing brace. |
| `BoundsText.StoiReads` | include/common/regexpostfix.h:203-209 | A number is white space, a sign or none, decimal digits, and anything else after them; it is refused if it does not fit 32 bits. |
| `BoundsText.StoiFails` | include/common/regexpostfix.h:203-212 | Without a digit there is no number. |
| `Syntax.UnaryBytes` | include/common/regexpostfix.h:110-128 | In bytes: an ordinary character is itself, 46 is any byte, and 42, 43 and 63 after a character are its iteration, at least one round, and at most one. |
| `Syntax.BinaryBytes` | include/common/regexpostfix.h:47-54 | In bytes: two characters are one after the other, with 124 between them one or the other. |
| `Syntax.GroupAndEscape` | include/common/regexpostfix.h:33-59 | In bytes: a character between 40 and 41 is itself, and so is any byte above 6 after a 92. |
| `Syntax.BraceBytes` | include/common/regexpostfix.h:60-70 | In bytes: between 123 and 125 a decimal number, or one and a 44 and possibly another, after a character stand for so many of it. |
| `Oddities.Codes` | include/common/regexpostfix.h:9-16 | The codes 1 to 6 of the postfix text. |
| `Oddities.StrayClose` | include/common/regexpostfix.h:40 | A closing parenthesis without an opening one stands for itself. |
| `Oddities.NeverClosed` | include/common/regexpostfix.h:28-83 | A parenthesis that is never closed is closed at the end. |
| `Oddities.LastBackslash` | include/common/regexpostfix.h:55-59 | A backslash alone stands for a byte 0; at the end of anything else it does not compile. |
| `Oddities.NothingBefore` | include/common/regexpostfix.h:47-50 | A text that begins with a bar or a unary operator is refused, and with which message. |
| `Oddities.NothingBetween` | include/common/regexpostfix.h:155-158 | So are a bar or a unary operator directly after a bar. |
| `Oddities.WrongBraces` | include/common/regexpostfix.h:60-66 | Braces with anything else inside than bounds are refused, and with bounds too if there is nothing before them. |
| `Oddities.NothingAtAll` | include/common/regexpostfix.h:28-83 | Neither the empty text nor empty parentheses compile. |
| `Escapes.DollarNeverCompiles` | include/common/regexpostfix.h:108-128 | A pattern of the grammar with a dollar anywhere, under operators, in groups or between bars, and without escaped characters never compiles. |
| `Escapes.CompilesIff` | include/common/regexpostfix.h:55-70 | A pattern without dollars, with escaped characters anywhere, compiles iff every factor with an escaped character is all there is of the last alternative of its scope, has no unary operator, and has braces only if there is an alternative before, which has several factors unless the braces copy nothing; if so, to the expression given for it. |
| `Escapes.EscapesMeaning` | include/common/regexpostfix.h:55-59 | If no braces follow escaped characters, a pattern without dollars compiles iff every escaped character is all there is of the last alternative of its scope, and then, with supported bounds, has the words it says. |
| `BracedEscapes.BracedRightIff` | include/common/regexpostfix.h:55-70 | An escaped character with braces after a bar means what it says, whatever alternative is before the bar, iff there is no unary operator among the braces and all of them have supported bounds and copy nothing. |
| `BracedEscapes.SingleBraces` | include/common/regexpostfix.h:55-70 | For one pair of braces: iff they are `{1}`, `{0,1}` or `{0,}`. |
| `BracedEscapes.EscapeWord` | include/common/regexpostfix.h:60-70 | Why: where something is copied, a word is matched that contains the last byte before the bar. |
| `PatternCounts.NetIsHeight` | include/common/regexnfa.h:34-139 | Reading a postfix text changes the number of operands by its operands less its binary operators. |
| `PatternCounts.CompiledIff` | include/common/regexnfa.h:34-139 | A postfix text compiles iff its count is one and the count of every non-empty part from its start on is at least one. |
| `EscapeCounts.PatternAtLeast` | include/common/regexpostfix.h:28-83 | Without dollars the count of a pattern's text is at least one, and one only if the pattern is among those that compile. |
| `DollarCounts.PatternAtMost` | include/common/regexpostfix.h:28-83 | Without escaped characters the count of a pattern's text is at most one, and one only if there is no dollar. |
| `Balance.PatternBalanced` | include/common/regexpostfix.h:28-83 | With dollars and escaped characters, but no braces on the latter: the count of a pattern's text is one more than the balance of the pattern, which takes two for a dollar, adds one for an escaped character, takes one for an alternative that has nothing else, and is multiplied by copies. |
| `Balance.CompilesIffBalanced` | include/common/regexpostfix.h:55-70 | Such a pattern compiles iff its balance is zero and its translated text never runs out of operands. |
| `EscapeExamples.DollarPaidFor` | include/common/regexpostfix.h:120-121 | So a dollar can compile: the text of two escaped characters, `x` and a dollar is taken for those three characters. |
| `EscapeExamples.BracesReachBack` | include/common/regexpostfix.h:60-70 | With braces on an escaped character a pattern can compile to something else: the second alternative of `xb` and an escaped `a` with `{2}` is taken for `aba`. |
| `RegexEngine.Compile` | src/common/regex.cpp:14-18 | Compiling throws iff the pattern has no meaning; otherwise the object is ready to match that meaning and has matched nothing yet. |
| `RegexEngine.Regex.Match` | src/common/regex.cpp:20-22 | End to end, after any sequence of earlier matches: a non-empty subject is matched iff it is in the language of the compiled expression; if that comes from a pattern of the grammar and the subject has no byte 2, iff it is in the language of the pattern. The empty subject is matched iff it is in the language and the start list is among those the cache still knows to have been led to, a function of the earlier subjects; while these needed at most 256 lists, iff some non-empty prefix of one of them leads back to the start list. |
| `RegexEngine.EmptySubjectMissed` | include/common/regexdfa.h:33-46 | An engine for `a*` that is asked for the empty subject first, and nothing else, answers no. |
| `EmptySubject.NeverBack` | include/common/regexdfa.h:33-46 | If an expression has no loop, no non-empty word leads its automaton back to the start list. |
| `EmptySubject.EmptyNeverMatched` | include/common/regexdfa.h:33-46 | So an engine for an expression without loops never matches the empty subject, in any run. |
| `RegexEngine.MeaningCorrect` | src/common/regex.cpp:14-18 | Every pattern of the grammar among those that compile, with supported bounds and only harmless braces on escaped characters, has the pattern's words among those without byte 2. |
| `GrepPattern.WrappedText` | src/common/commands/grep.cpp:101 | Text: putting `.*` on both sides of a printed pattern is printing the pattern with one more factor at the front of its first and the back of its last alternative. |
| `GrepPattern.WrappedTermMeaning` | src/common/commands/grep.cpp:98-102 | Without a bar at the top, a line is matched iff a part of it is in the language of the pattern. |
| `GrepPattern.WrappedEitherMeaning` | src/common/commands/grep.cpp:98-102 | With bars at the top, a line is matched iff it ends in a word of the first alternative, is a word of one in between, or starts with a word of the last. |
| `GrepPattern.BarMisses` | src/common/commands/grep.cpp:98-102 | So the pattern with the alternatives `a` and `b` is not found in the line `xb`, which contains a word of it. |
| `GrepPattern.WrappedSound` | src/common/commands/grep.cpp:98-102 | A matched line always contains a word of the pattern. |
| `GrepPattern.SearchMeaning` | src/common/commands/grep.cpp:98-102 | End to end: the wrapped text of a pattern compiles to an expression that matches just the lines looked for: without a bar at the top those with a word of the pattern in them, with bars those of the row above. |
| `GrepPattern.WrappedEscape` | src/common/commands/grep.cpp:98-102 | A pattern that compiles and ends in an escaped character standing alone, with or without braces, does not compile once it is wrapped for the search. |
| `Grep.SearchFile` | src/common/commands/grep.cpp:41-59 | The line loop finds the first matching line; only an empty line may be missed, and only if the pattern matches the empty word. |
| `Grep.Walk` | src/common/commands/grep.cpp:22-63 | The recursive walk, with one engine object and its cache shared by all files, appends exactly the specified files if the pattern does not match the empty word; in any case every file it appends may be listed, with the right line, and no file is missed that has a matching line which is not empty. |
| `Grep.SortedAscending` | src/common/commands/grep.cpp:23-31 | The names of a folder are visited in ascending order, for every total order of names. |
| `Grep.HitsExact` | src/common/commands/grep.cpp:33-61 | Following the walk: a file is listed iff no name on the way to it begins with a dot and it has a line in the language; the line number is that of the first such line. |
| `Grep.HitsMeaning` | src/common/commands/grep.cpp:33-61 | Without following the walk: exactly the files are listed whose path leads to them, no part of which begins with a dot, with the first line in the language. |
| `Grep.ListsMeans` | src/common/filesystem.cpp:143-145 | The two descriptions of what is listed are the same, for every entry and path. |
| `Grep.HitsInOrder` | src/common/commands/grep.cpp:22-63 | Files are listed in depth-first order of sorted names, each once. |
| `Grep.SearchFinds` | src/common/commands/grep.cpp:98-102 | For a pattern, with bars at the top or not, whose wrapped form does not match the empty word, exactly the files are listed that are reached over names without a dot in front and have a line that is looked for, with the first such line. |
| `JobQueue.Queue.Spill` | include/common/threadpool.h:112-119 | Moving the pushed items over keeps the contents and their order, stays within both arrays and moves each item at most once over its life. |
| `JobQueue.Queue.PushBack` | include/common/threadpool.h:79-83 | The item goes to the back of the contents. |
| `JobQueue.Queue.PopFront` | include/common/threadpool.h:86-90 | The first item of the contents is taken. |
| `JobQueue.Queue.Front` | include/common/threadpool.h:73-76 | The first item is shown and the contents are kept. |
| `JobQueue.Queue.Empty` | include/common/threadpool.h:62-64 | True iff there are no contents. |
| `JobQueue.Queue.Size` | include/common/threadpool.h:67-70 | The length of the contents, which is pushes minus pops. |
| `TaggedQueue.ThreadPoolQueue.MapTag` | include/common/threadpool.h:144-151 | The first locked section of a push makes the tag-assignment step of the transition system. |
| `TaggedQueue.ThreadPoolQueue.Insert` | include/common/threadpool.h:153-155 | The second locked section makes the enqueue step. |
| `TaggedQueue.ThreadPoolQueue.TakeOrLeave` | include/common/threadpool.h:168-181 | A worker that no longer waits makes the pop step if its sub-queue has an item, and otherwise is allowed to leave. |
| `TaggedQueue.ThreadPoolQueue.StopAll` | include/common/threadpool.h:184-190 | Makes the stop step. |
| `ThreadPool.StepInv` | include/common/threadpool.h:130-276 | Every step of every thread keeps the invariant: one worker per tag holds all its items, per tag the enqueued items are those finished, then the running one, then the queued ones, workers are given to tags in turn, and a worker that has left runs nothing. |
| `ThreadPool.RunInv` | include/common/threadpool.h:130-276 | The invariant holds in every state of every interleaving. |
| `ThreadPool.TagOrder` | include/common/threadpool.h:221-223 | Over every interleaving the jobs of a tag run one at a time, in the order they were enqueued, on the worker of the tag. |
| `ThreadPool.TagSticks` | include/common/threadpool.h:135-143 | A tag never changes its worker. |
| `ThreadPool.ShutdownComplete` | include/common/threadpool.h:242-249 | When all workers have left, all jobs have finished, each once, iff none was enqueued for a worker that had already left. |
| `ThreadPool.JoinFinishesAll` | include/common/threadpool.h:224-249 | If nothing is enqueued after the stop, every job has finished when the last worker leaves. |
| `ThreadPool.LateJobIsLost` | include/common/threadpool.h:242-249 | A job enqueued after all workers have left is never run, so the promise of the join needs its condition. |
| `ThreadPool.JobCanBeLost` | include/common/threadpool.h:144-190 | There is such a run for every number of workers: a push is begun, the pool is stopped, all workers leave, the push is completed. |
| `ThreadPool.StoppedWorkerProgresses` | include/common/threadpool.h:263-275 | A stopped pool never blocks a worker that has not left, and each of the worker's steps leaves it less to do. |
| `ThreadPool.Balanced` | include/common/threadpool.h:144-151 | In every reachable state with k tags and n workers each worker owns k/n tags, rounded down or up. |
| `PoolProgress.NeverHeldUp` | include/common/threadpool.h:168-181 | A job that runs can finish at any time, a worker that is free takes an item as soon as there is one, and leaves when there is none and the pool is stopped; producers are never held up. |
| `PoolProgress.EveryJobCanFinish` | include/common/threadpool.h:213-223 | From every state of an open pool there is a way to one in which every job pushed, or begun to be pushed, has finished, without a stop. |
| `PoolProgress.FirstInFirstOut` | include/common/threadpool.h:168-181 | Over every interleaving each worker runs all its items, whatever their tags, in the order they were enqueued. |
| `PoolProgress.NothingLost` | include/common/threadpool.h:130-157 | Over every interleaving the items begun to be pushed are those between the two locks and those enqueued, each as often. |
| `Server.ServerStep` | src/server/server.cpp:105-128 | Every step of the two-pool server keeps its invariant: a transfer half scheduled belongs to a running command, so none can come after the second stop. |
| `Server.ShutdownLeavesNothing` | src/server/server.cpp:126-128 | After both joins no job of either pool is unfinished and none is half scheduled, whatever the interleaving. |
| `Shutdown.ServerNeverHeldUp` | src/server/server.cpp:105-128 | In every phase: commands can be pushed while the server is serving, command workers take, finish and leave when their pool lets them, a running command can push transfers, and ends unless it is in the middle of a push. |
| `Shutdown.TransfersNeverHeldUp` | src/server/server.cpp:105-128 | Transfer workers take, finish and leave when their pool lets them. |
| `Shutdown.FirstJoinProgresses` | src/server/server.cpp:126-127 | During the first join every worker that has not left, or the push its command is in the middle of, has a step that leaves less to do. |
| `Shutdown.SecondJoinProgresses` | src/server/server.cpp:126-128 | During the second join every worker that has not left has such a step. |
| `Shutdown.JoinReturns` | src/server/server.cpp:126-128 | When all workers of the pool being joined have left, the main thread goes on. |
| `Shutdown.CanEnd` | src/server/server.cpp:126-128 | From every state the server can be in there is a way to the end of both joins. |
| `Shutdown.ShutdownCanEnd` | src/server/server.cpp:105-128 | Whatever the numbers of workers: a run in which a command is pushed, runs and pushes a transfer, and both have finished when both joins have returned. |
| `Paths.AddPart` | src/common/path.cpp:101-113 | Adding a part keeps the normal form: some `..`s, then none. |
| `Paths.OnePart` | src/common/path.cpp:101-113 | A `.` changes nothing, a name is appended, a `..` takes back a name, and is appended after another `..` or at the beginning. |
| `Paths.HereIsNothing` | src/common/path.cpp:25-27 | Parts that are a `.` can be left out. |
| `Paths.JoinAssociative` | src/common/path.cpp:76-88 | Joining relative paths is associative although `..` cancels across the joints. |
| `Paths.JoinNeedsNoHere` | src/common/path.cpp:101-113 | It would not be for part lists that keep a `.`. |
| `Paths.NormalFixed` | src/common/path.cpp:15-40 | A normal path is its own normal form. |
| `Paths.PrintParse` | src/common/path.cpp:15-40 | Reading back the text of a path gives its parts, and the whole path iff it has a part or is relative: the root is printed as the empty text. |
| `Paths.ParseNormal` | src/common/path.cpp:15-40 | A constructed path is normal and has no empty part, no `.` and no slash in a part; it is absolute iff its text begins with a slash; its text is that of its parts. |
| `Paths.ParseJoined` | src/common/path.cpp:15-40 | A text with a slash in it is read by joining what is read on both sides of it. |
| `Paths.ParsePiece` | src/common/path.cpp:15-40 | A text without a slash is a part, unless it is empty or a `.`. |
| `Paths.DotSlash` | src/common/path.cpp:25-27 | A `./` at the front or after a slash makes no difference. |
| `Paths.RenderOneMore` | src/common/path.cpp:94-99 | The text of a path: its parts with slashes between them, and one in front if it is absolute. |
| `Paths.EscapesIffParentFirst` | src/common/path.cpp:48-59 | A normal path leads above its start iff its first part is `..`. |
| `PathObject.Path.constructor` | src/common/path.cpp:15-40 | The constructor loop computes the normal form and the text. |
| `PathObject.Path.ReconstructStringView` | src/common/path.cpp:94-99 | The text is the rendering of the parts. |
| `PathObject.Path.AddPathPart` | src/common/path.cpp:101-113 | A `.` changes nothing, a name is appended, a `..` takes the last part away unless that is a `..` too; and whether the text is out of date. |
| `PathObject.Path.AppendPart` | src/common/path.cpp:69-74 | One part more: parts and text are those of the path so far with the part added; a `.` changes nothing. |
| `PathObject.Path.Append` | src/common/path.cpp:76-88 | Appending a relative path joins the parts and rebuilds the text; an absolute one replaces parts and text but leaves the flag as it was. |
| `PathObject.Path.AttemptParentTraversal` | src/common/path.cpp:48-59 | The depth loop answers whether some prefix of the parts leads above the start. |
| `PathObject.RequestedIs` | src/common/command.cpp:30-48 | A path argument is refused as incorrect for a null byte, else for traversal if it leads above the base directory, else if its text is longer than 128; otherwise the path asked for is the argument itself if that begins with a slash, and the session's path with the argument added if not, with exactly that text. |
| `PathObject.RequestedBelow` | src/common/command.cpp:30-48 | A path argument that is accepted has no `..`, is relative and at most 128 characters long. |
| `PathObject.Session.Cd` | src/common/commands/cd.cpp:8-22 | The working directory becomes the argument itself, below the base directory, if that begins with a slash, and else the argument added to it, iff there is no null byte in the argument, the path does not lead above the base directory, its text has at most 128 characters and it names an entry; otherwise it stays. If the entry is a file there is a complaint, but the directory changes all the same. |
| `PathObject.NeverAboveBase` | src/common/command.cpp:34-48 | Over every run of directory changes, whatever happens to the tree between them, the working directory has no `..`, and base plus path extends the parts of the base. |
| `FlatTree.InsertedExact` | src/common/filesystem.cpp:176-204 | What a recount says after an insertion: one entry and its disk size more for every ancestor, nothing else. |
| `FlatTree.PrunedExact` | src/common/filesystem.cpp:220-237 | What a removal subtracts, against a recount: right but for one entry too many at the direct parent and a folder's own disk size that stays. |
| `FilesystemTree.FilesystemEntry.Get` | include/common/filesystem.h:70-75 | The child of that name, created iff it is missing. |
| `FilesystemTree.InsertionCounted` | src/common/filesystem.cpp:176-204 | The increments along the path keep all counters at and below the base equal to what the table says, modulo 2^64. |
| `FilesystemTree.RemovalCounted` | src/common/filesystem.cpp:220-237 | The decrements along the path keep all counters at and below the base equal to what the table says, modulo 2^64. |
| `FilesystemTree.Filesystem.GetEntryNode` | src/common/filesystem.cpp:129-141 | The lookup loop finds the object of a path iff the path is in the table. |
| `FilesystemTree.Filesystem.GetNumberMissingChild` | src/common/filesystem.cpp:157-169 | The result is the length of the path minus that of its longest prefix in the tree. |
| `FilesystemTree.Filesystem.ScanBase` | src/common/filesystem.cpp:176-215 | The first reported entry creates the chain to the base, of which only the base gets exact counters: the sub-folder counts above it start uninitialised. No entry starts with an error. |
| `FilesystemTree.Filesystem.InsertNode` | src/common/filesystem.cpp:176-204 | The walk over the objects adds just that path to the table, every folder on the way grows by the entry, the root does not, and the tree shape and all counters stay as specified. |
| `FilesystemTree.Filesystem.RemoveNode` | src/common/filesystem.cpp:220-237 | Throws iff the path is missing; otherwise exactly the paths that extend it go, every object on the way shrinks, the root too, and the tree shape and all counters stay as specified. |
| `FilesystemTree.Filesystem.Mkdir` | src/common/filesystem.cpp:47-68 | Succeeds iff the path is new, its parent is there and the disk agrees; says which of them failed; changes nothing when it fails. |
| `FilesystemTree.Filesystem.CreateFile` | src/common/filesystem.cpp:71-83 | A file may be created iff all but the last entry of its path is there. |
| `FilesystemTree.Filesystem.Commit` | src/common/filesystem.cpp:92-109 | The file takes the place of what was at its path before, or is added. |
| `TreeRuns.RunGood` | src/common/filesystem.cpp:176-237 | Over every run of insertions and removals the counters at and below the base are what the table says. |
| `TreeRuns.ValidIsGood` | src/common/filesystem.cpp:176-237 | What is proved of the values holds of the objects. |
| `TreeRuns.ScanIsStart` | src/common/filesystem.cpp:9-19 | What the scan ensures is what the theorems about runs start from. |
| `TreeRuns.AfterTheScan` | include/common/filesystem.h:51-64 | From the scan on, over every run of insertions and removals: the number of sub-folders is exact; the number of entries below is exact iff the history's miscount is a multiple of 2^64; the size of a folder is exact iff the sizes the history has left behind are. Both errors are defined on the list of changes: what each removal adds, and that a removed entry takes its own error with it. |
| `TreeRuns.SubFoldersExact` | include/common/filesystem.h:62-64 | The number of sub-folders is the number of folders below, after every run. |
| `TreeRuns.RecExactForInserts` | include/common/filesystem.h:55-60 | As long as nothing is removed the number of entries below is exact. |
| `TreeRuns.RecExactForFiles` | src/common/filesystem.cpp:227-230 | As long as only files are removed, the number of entries below a folder is exact iff the number of removals of its direct children since it was inserted is a multiple of 2^64. |
| `TreeRuns.RemovalMiscounts` | src/common/filesystem.cpp:227-230 | The first removal makes the count of exactly one entry wrong: the direct parent of what is removed, which is decremented twice. |
| `TreeRuns.RemovalMiscountsIff` | src/common/filesystem.cpp:225-236 | From any tree: after a removal the count of an entry above is right iff what a recount showed to be missing from it and from the removed entry cancel, one more being lost at the direct parent. |
| `TreeRuns.SizeExactForFiles` | include/common/filesystem.h:51-53 | As long as only files are removed the size of a folder is the sum of the disk sizes below it. |
| `TreeRuns.FileSizeExact` | src/common/filesystem.cpp:192-203 | The size of a file is its size on disk, after every run. |
| `TreeRuns.MethodsMakeSteps` | src/common/filesystem.cpp:176-237 | The changes of a run are what insertions and removals do, and all of those are allowed. |
| `TreeRuns.RemovalMissizes` | src/common/filesystem.cpp:226 | The first removal makes the size of a folder wrong iff it removes a folder below it that has a size on disk. |
| `TreeRuns.StepPaths` | src/common/filesystem.cpp:157-237 | As a set of paths: an insertion adds one, a removal takes the extensions of one, the set stays closed under prefixes and no other path changes what it names. |
| `TreeRuns.RemoveUndoesInsert` | src/common/filesystem.cpp:176-237 | A removal undoes an insertion but for the count of the direct parent and, for a folder, the sizes above it. |
| `RootRuns.RunLags` | src/common/filesystem.cpp:176-237 | Over every run that removes nothing above the base, the counters of the root lag behind what the table says by exactly what has been inserted. |
| `RootRuns.ScanTellsNothing` | src/common/filesystem.cpp:9-19 | What the scan ensures of the root, that its counters are still those of a new object, is what the next row starts from. |
| `RootRuns.RootAfterTheScan` | src/common/filesystem.cpp:176-237 | So from the scan on the counters of the root agree with a recount iff what was there after the scan, all that has been inserted since and the errors of the removals add up to a multiple of 2^64. |

## Left out

- RegexEngine.Compile: requires that the arena has room (`Fits`); the source does not check the 16-bit node ids for overflow, so larger patterns are outside the model.
- RegexNfa.Nfa.AllocateState: likewise requires a free node.
- RegexNfa.Nfa.Apply: likewise requires a free node.
- RegexNfa.Nfa.From: likewise requires that the arena has room for the text.
- RegexEngine.Regex.Match: for the empty subject after more lists than the cache holds, the exact condition is what the cache keeps (`CacheRuns.KeptBy`); which subjects fill it up is not put in terms of the language.
- RegexEngine.MeaningCorrect: is stated for patterns of the grammar; other patterns (an unmatched closing parenthesis, raw bytes 1 to 6) still have the meaning `RegexEngine.Meaning` computes, which `Compile` and `Match` are exact for.
- Escapes.DollarNeverCompiles: excludes escaped characters; for patterns with both, `Balance.CompilesIffBalanced` needs that no braces follow escaped characters, and speaks of the translated text where it says that no operand is missing on the way.
- EscapeExamples.BracesReachBack: is one pattern; which braces on an escaped character keep the meaning is `BracedEscapes.BracedRightIff`.
- PatternMeaning.ReadRange: an upper bound equal to the largest 32-bit integer is not told apart from a missing one, as in the source.
- RegexNfa.Nfa.AddStateToStateList: the stamp counter is an unbounded integer; wrap-around after 2^32 steps is not modelled.
- JobQueue.Queue.PushBack: requires a free slot among the 256, which the source takes for granted.
- TaggedQueue.ThreadPoolQueue.Insert: likewise requires that the sub-queue has a free slot.
- ThreadPool.StoppedWorkerProgresses: is progress of a single worker; wake-ups of waiting threads and fairness are not modelled, a wait is a guard.
- PathObject.Path.Append: appending a path to itself is not covered; the source would iterate over the list it extends.
- PathObject.Session.Cd: which entries are there, and of which kind, is a parameter; the home directory in place of `~` is not modelled.
- FilesystemTree.Filesystem.InsertNode: requires that the parent is there and is a folder, which its callers check or the disk guarantees; only `ScanBase` creates missing folders on the way.
- FilesystemTree.Filesystem.Mkdir: what the disk answers is a parameter.
- Grep.Walk: if the pattern matches the empty word, a file whose only matching lines are empty may be listed or not.
- GrepPattern.SearchMeaning: is stated for patterns that do not end in an escaped character standing alone; those do not compile once wrapped (`GrepPattern.WrappedEscape`).
- Stamps are kept in an array beside the nodes, and the deletion of cached states is modelled by a ghost set of live states.
- A byte is an integer from 0 to 255; the sign of `char` in the source plays no part where the model uses it.
- `RegexNfa::match`, `containsMatchState` and the indexing operator of the queue, which nothing in the server uses.
- The table of line positions in the search, limited to 100 entries without a check, is a list here; the collation of file names is any total order.
- The choice between the engine and the external command for a search, and that command.
- The hash of transfer keys: tags are values with equality, jobs are identities that do not throw.
- The comment on the shared queue speaks of a call that marks an item as done; the source has none, and neither has the model.
- Replacement of `~` in paths, name conversion of arguments, the other commands, sessions and logins, sockets, configuration and the client.
- Physical effects on the disk; `st_size` and the lines of files are given values.
- The two locked sections of `mkdir` and `commit` run without interruption here.
