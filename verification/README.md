# Verified model of p4ls

p4ls is a language server for P4. This project models its four hard components and proves
properties of the models.

1. **The lexer generator** (`server/p4l/lexer.h`). Regular-expression trees are numbered,
   turned into a position automaton, and compiled by a subset construction into tables that a
   longest-match scanner reads. The main result is that compilation preserves meaning: the
   tables answer every word with the first registered rule whose language holds it, so the
   scanner returns the longest nonempty prefix of the input in any rule's language. Around it
   stand the repetition operators, case folding, the token source, and saved tables.
2. **Incremental editing of open documents** (`server/lsp/p4unit.cpp`): positions, splices,
   undo, batches, and the text of a document after any run of notifications.
3. **The hand-written P4 lexer** (`server/p4l/lexer.cpp`): maximal munch, token-list round
   trip, comments, and two's-complement literals.
4. **Framing, dispatch and the two-thread loop** (`server/lsp/`): what is printed is read
   back, replies follow requests, and both hold in every interleaving, from the client's bytes
   to the server's replies.

`dafny verify dfyconfig.toml` checks everything.

## Layout

| file | component |
|---|---|
| `Common.dfy` | options, powers of two, quotients, decimal numbers, lines |
| `Regex.dfy` | syntax trees, their languages, the repetition actions |
| `Positions.dfy` | position numbers, nullable/first/last/follow, the position-automaton theorem |
| `Simulation.dfy` | set simulation, lists of rules, rule priority, letter case |
| `Viability.dfy` | which inputs the automaton keeps reading |
| `Dfa.dfy` | compiled tables and the table-driven matcher |
| `Tables.dfy` | followpos, match rows, end markers |
| `Subset.dfy` | the worklist of the subset construction |
| `Generator.dfy` | from registered rules to tables |
| `Overlay.dfy` | compiling over tables that are already there |
| `Lexer.dfy` | the lexer object: register, compile, match, save, load, start up |
| `Runs.dfy`, `Tokens.dfy` | runs of a token source, and the one on top of the lexer |
| `TableFile.dfy` | the saved form of the tables |
| `Document.dfy` | positions, edits, batches, open documents |
| `P4Grammar.dfy` | the characters, digits, bases, reserved words and operators of P4, written out |
| `Literals.dfy`, `P4Lexer.dfy`, `P4Trivia.dfy`, `P4Spelling.dfy`, `P4Laws.dfy` | the P4 lexer, what it skips, what it reads back, and what it reads in terms of the written-out grammar |
| `Framing.dfy`, `Dispatch.dfy`, `RunLoop.dfy`, `Server.dfy` | the wire format, one dispatch, the two threads, all of them together |

Code that changes state step by step is a method over a class, an array-like field or local
variables, proved equal to a function of the old state; the laws are lemmas about that
function. `ApplyAll`, `Read`, `Answer`, `Lex`, `Next` and `Image` are such functions; each has laws
that say what it does by literal names, numbers and bytes, without the predicates of the code.

## What the proofs found

Where the code does not do what its name or its documentation suggests, the model follows the
code, and the exact condition is proved.

- A repetition count of 2^31 or more becomes a negative `int` and builds a single copy. `{m}` and
  `{m,}` are exact on every operand if and only if m < 2^31, `{m,n}` if and only if also
  n - m < 2^31 (`Rep1IsExact`, `Rep2IsExact`, `Rep3IsExact`).
- The text that `next_token` collects can be longer than the slice it consumes, because the matcher
  appends every byte it looks at. It equals the slice if and only if the slice ends the input or no
  rule goes on after the slice and the next byte; for rules without empty classes that means that no
  word of any rule begins with them (`TextIsSlice`, `TextIsLongestBeginning`,
  `TextOvershootsExample`). The value that `get` returns is the text up to its first NUL byte
  (`TextIsCutAtNul`), which may also hide the overshoot; when value and slice agree is
  `ValueIsSlice`.
- When compiling a later lexer state fails after an earlier one succeeded, the lexer is left marked
  as compiled although the later tables are empty (`Lexer.CreateDfa`, `FailedCompilation`). The
  server's own lexer has one state (`server/p4l/lexer.h:3174`), where this cannot happen.
- Compiling again writes over the old tables without clearing them. The result walks and answers
  like fresh tables if and only if no reachable state has an old cell or verdict left in it
  (`RecompilingIsClean`), and the lexer is up to date if and only if that holds in every lexer state
  and no cell or verdict is out of range (`OverlayServes`, `Lexer.CreateDfa`); recompiling the rule
  `a` with letter case regarded keeps accepting `A` (`StaleCaseStays`).
- The cache file of the tables is keyed by the compile time of the lexer and not by its rules, which
  depend on the language mode. Loaded tables are right if and only if the two rule lists answer every
  word alike (`CachedTablesFit`, `CacheMismatch`).
- A position at or past the end of a line is rejected, although `server/p4l/info.h:59` says
  that it defaults to the end of the line (`GetPositionIndex`). As a consequence an accepted
  edit can be undone exactly when its text does not begin with a newline (`UndoRestores`), and
  in a batch an edit is lost exactly when it ends where a higher edit has just put a newline
  (`SequentialIsEffective`, `AllEffective`, `ClashLosesAnEdit`).
- Opening a path a second time and closing a path leave the stored text alone
  (`StoredTextIsFoldOfEdits`).
- After a complete frame the next one is read if and only if the length is below 2^63 - 1
  (`FrameIsPassed`). A header that announces exactly 2^63 - 1 loses everything behind it, one that
  announces more skips nothing, and from 2^64 on the server's conversion throws (`HugeLength`,
  `FramesBehindHugeLength`).
- A block comment is closed by a NUL as well as by its end mark; with neither the lexer loops forever
  (`LexBlockComment`, `UnclosedCommentHangs`, `CommentExamples`). An empty line comment ends the
  input, because extracting zero characters makes the stream fail (`EmptyLineCommentEndsInput`).
  Behind `#` one character is dropped unseen: one character alone on the line ends the input, and a
  newline there makes the whole next line vanish (`LexLocation`).
- Digits after an underscore are dropped. A number without a size reads as its digits without
  underscores if and only if no digit follows the first underscore or all digits are zero
  (`UnderscoresMatter`, `NumberValue`; `1_0` reads as 1). A number with a size reads as the truncated
  value of its digits if and only if the digits that are read agree with all digits modulo 2^size
  (`NumberValue`; `8w1_0` reads as 1, `1w2_4` is right). Digits that begin with an underscore throw
  (`LexNumeral`, `UnderscoreExamples`).
- The closing quote of a string literal opens the next string. The rest of the input is lost if and
  only if no free quote follows, one that is not escaped (`StringLiteralReads`, `StringSwallowsRest`,
  `EscapedQuoteIsNotFree`).
- An exit does not make the server return by itself: its reader may already wait inside
  `read_message`, and then stands still until the client sends once more or closes the stream
  (`StandsStillForClient`, `ExitStillWaits`).
- `|+` and `|-` not followed by `|` are not split into two operators but rejected
  (`LongestOperator`).

## Model

| member | source | states |
|---|---|---|
| Regex.LangStar | server/p4l/lexer.h:790-827 | a star denotes the union of all powers of its body, also over a nullable body |
| Regex.RepeatNode | server/p4l/lexer.h:1872-1880 | the loop builds `num` copies nested to the left, and one copy when `num` is not positive |
| Regex.RepeatedLang | server/p4l/lexer.h:1872-1880 | the nest of m copies denotes the m-fold power |
| Regex.PlusLang | server/p4l/lexer.h:1254-1265 | `+` denotes all powers from 1 on |
| Regex.OptionalLang | server/p4l/lexer.h:1883-1886 | `?` denotes the language with the empty word added |
| Regex.Rep1Lang | server/p4l/lexer.h:1905-1923 | `{m}` denotes the power of the number of copies really built |
| Regex.Rep2Lang | server/p4l/lexer.h:1943-1962 | `{m,}` denotes all powers from the number of copies really built on |
| Regex.Rep3Lang | server/p4l/lexer.h:1981-2007 | `{m,n}`, built as m copies and n-m optional copies, denotes exactly the powers between the numbers of copies really built |
| Regex.Rep1IsExact | server/p4l/lexer.h:1905-1923 | `{m}` is the m-fold power on every operand if and only if m < 2^31 |
| Regex.Rep2IsExact | server/p4l/lexer.h:1943-1962 | `{m,}` is all powers from m on, on every operand, if and only if m < 2^31 |
| Regex.Rep3IsExact | server/p4l/lexer.h:1981-2007 | `{m,n}` is the powers m to n on every operand if and only if m < 2^31 and n - m < 2^31 |
| Regex.RepeatCountIsExact | server/p4l/lexer.h:1872-1880 | on every language the copies built are the power asked for, if and only if the count is below 2^31 |
| Regex.NodeStack.MakePlus | server/p4l/lexer.h:1254-1265 | the top of the stack is replaced by its `+` tree, the rest is kept |
| Regex.NodeStack.MakeOptional | server/p4l/lexer.h:1284-1291 | the top of the stack is replaced by its `?` tree, the rest is kept |
| Regex.NodeStack.MakeRep1 | server/p4l/lexer.h:1905-1923 | refuses exactly a zero count, leaving the stack as it was |
| Regex.NodeStack.MakeRep2 | server/p4l/lexer.h:1943-1962 | refuses exactly a zero count, leaving the stack as it was |
| Regex.NodeStack.MakeRep3 | server/p4l/lexer.h:1981-2007 | refuses exactly a zero first count or a second count that is not larger, leaving the stack as it was |
| Positions.NumberingIsDistinct | server/p4l/lexer.h:2597-2598 | whatever ids the clones carried, numbering the whole tree makes all leaves distinct and uses exactly the numbers from the start up to the returned count |
| Positions.NumberingKeepsLanguage | server/p4l/lexer.h:2597-2598 | numbering does not change the language |
| Positions.OrTraces | server/p4l/lexer.h:505-538 | a path of an alternative is a path of exactly one operand |
| Positions.CatJoin | server/p4l/lexer.h:638-693 | a path of the left operand followed by one of the right is a path of the concatenation, empty ones included |
| Positions.CatSplit | server/p4l/lexer.h:638-693 | a path of a concatenation crosses from left to right once |
| Positions.StarJoin | server/p4l/lexer.h:790-821 | a path of the body followed by a path of the star is a path of the star |
| Positions.StarSplit | server/p4l/lexer.h:790-821 | every path of a star begins with a path of the body |
| Positions.WordHasPath | server/p4l/lexer.h:505-827 | every word of the language labels a path |
| Positions.PathSpellsWord | server/p4l/lexer.h:505-827 | every labelled path spells a word of the language |
| Positions.PositionAutomaton | server/p4l/lexer.h:505-827 | a word is in the language if and only if it labels a path from first to last positions along follow, the empty word if and only if the tree is nullable |
| Simulation.NumberedRules | server/p4l/lexer.h:2541-2573 | in the left-nested tree over all rules the end markers are numbered in registration order and no two rules share a position |
| Simulation.PathOfOneRule | server/p4l/lexer.h:2541-2573 | a path that touches one rule lies wholly in that rule |
| Simulation.EofReachedIffRuleMatches | server/p4l/lexer.h:2655-2696 | reading a word reaches the end marker of rule i if and only if the word, up to letter case when folding is on, is in the language of rule i |
| Viability.PathToLast | server/p4l/lexer.h:505-827 | from every position of a tree a last position can be reached |
| Viability.ReachIsViable | server/p4l/lexer.h:2655-2705 | some position is left exactly as long as the input can be read up to a further leaf of some rule; without empty classes, as long as it begins a word of some rule |
| Tables.ComputeFollowpos | server/p4l/lexer.h:672-693 | the table holds the follow set of every position |
| Tables.ComputeStateMatch | server/p4l/lexer.h:301-307 | one row for each position, telling which bytes its leaf accepts |
| Simulation.SwapCaseByLetter | server/p4l/lexer.h:2215-2220 | the two cases of the 26 ASCII letters are exchanged and no other byte |
| Tables.MakeCaseInsensitive | server/p4l/lexer.h:2206-2223 | a byte matches afterwards if and only if it or the other case of it, for an ASCII letter, did before |
| Tables.CombinedEofIds | server/p4l/lexer.h:2634-2635 | the collected end markers are those of the rules and no others |
| Tables.IndexInOrder | server/p4l/lexer.h:2636-2644 | the markers are indexed in ascending order |
| Tables.FindAcceptanceState | server/p4l/lexer.h:2514-2533 | finds the lowest end marker in a group, or none exactly when there is none |
| Subset.SubsetCount | server/p4l/lexer.h:2653-2710 | a family of subsets of n positions has at most 2^n members |
| Subset.Acceptance | server/p4l/lexer.h:2646-2651 | the value stored for a group is the lowest rule whose end marker it holds |
| Subset.MoveSet | server/p4l/lexer.h:2663-2675 | the union of the follow sets of the positions of a group that match a byte |
| Subset.StateFor | server/p4l/lexer.h:2678-2700 | an old group keeps its number, a new one gets the next; the two maps stay inverse and the tables keep one entry per state |
| Subset.ProcessGroup | server/p4l/lexer.h:2657-2707 | completes the row of the group and keeps every completed row |
| Subset.Construct | server/p4l/lexer.h:2608-2710 | the worklist ends with every row complete and at most 2^positions states |
| Subset.WalkIsReach | server/p4l/lexer.h:2655-2705 | after any word the table walk is at the number of exactly the reachable set of positions, and has stopped exactly when that set is empty |
| Subset.ConstructionImplementsRules | server/p4l/lexer.h:2589-2712 | on every word the finished tables answer with the first rule that accepts it |
| Dfas.DoMatch | server/p4l/lexer.h:2231-2274 | returns the longest nonempty prefix with a verdict, or fails exactly when there is none, leaving the input in place; appends exactly the bytes on which the walk was alive |
| Dfas.TablesFindLongestMatch | server/p4l/lexer.h:2231-2274 | for tables that implement a rule list, that is the longest nonempty prefix in some rule's language with the lowest rule, and failure means no nonempty prefix is in any |
| Generator.ParseRegexes | server/p4l/lexer.h:2541-2573 | builds the alternative of all rules, each with its end marker; fails exactly on an empty list or a rule that did not parse |
| Generator.BuildTables | server/p4l/lexer.h:2589-2712 | from the parsed rules to tables that implement them, folded or not, stop exactly where the automaton has no position left, name only registered rules, and have at most 2^positions states |
| Generator.AliveIsViable | server/p4l/lexer.h:2248-2260 | the table walk is alive exactly as long as some rule goes on, without empty classes on exactly the beginnings of words |
| Generator.StaleCaseStays | server/p4l/lexer.h:2589-2712 | the rule `a` compiled without and then with regard to case still matches `A` |
| Overlays.OverlayNothing | server/p4l/lexer.h:2612-2615 | compiling a state without tables leaves exactly the fresh tables |
| Generator.OverlayServes | server/p4l/lexer.h:2682-2704 | tables compiled over old ones serve the rules if and only if no reachable state keeps an old cell or verdict and nothing is out of range |
| Overlays.RecompilingIsClean | server/p4l/lexer.h:2682-2704 | compiling over old tables walks and answers like fresh tables if and only if no reachable state keeps an old cell or verdict |
| Lexers.Lexer.RegisterRegex | server/p4l/lexer.h:2462-2471 | appends the rule to its state and changes no other list |
| Lexers.Lexer.SetCaseInsensitive | server/p4l/lexer.h:2716-2719 | sets the flag and leaves existing tables alone |
| Lexers.Lexer.CreateDfaForState | server/p4l/lexer.h:2589-2712 | writes tables that serve the state's rules over those it had; on a bad rule nothing changes |
| Lexers.Lexer.CreateDfa | server/p4l/lexer.h:2578-2584 | succeeds exactly when every state's rules are good; a first compilation is then up to date, a further one if and only if every state is clean of old tables; a failure leaves the states from the bad one on as they were, and the lexer marked as compiled if any state came before it |
| Lexers.FailedCompilation | server/p4l/lexer.h:2578-2584 | two states of which the second has no rule: the lexer ends up marked as compiled without tables for it |
| Lexers.Lexer.NextToken | server/p4l/lexer.h:2473-2509 | compiles on first use, then returns the token of the longest match of the tables; with tables that are up to date that is the declarative longest match, and -1 without progress means that no rule matches a nonempty prefix |
| Lexers.Lexer.Save | server/p4l/lexer.h:2841-2899 | writes the image of the current tables under the id |
| Lexers.Lexer.Load | server/p4l/lexer.h:2759-2829 | succeeds exactly when the file starts with saved tables of this id; otherwise tables, state count and compiled flag are untouched |
| Lexers.Lexer.Init | server/p4l/lexer.h:3549-3583 | registers the rules, then loads the cached tables or, exactly when there are none, compiles and caches them |
| Lexers.TablesAreStorable | server/p4l/lexer.h:2841-2899 | the tables of fewer than 2^32 states and rules fit the 32-bit ids of the file |
| Lexers.ReloadedIsUpToDate | server/p4l/lexer.h:3563-3565 | a lexer with the same rules and flag that loads a saved file is up to date with the very same tables |
| Lexers.CachedTablesFit | server/p4l/lexer.h:3561-3565 | tables saved for one rule list are right for another if and only if the two answer every word alike |
| Lexers.CacheMismatch | server/p4l/lexer.h:3561-3565 | tables cached for the rule `a` are wrong for the rule `b` |
| TableFile.SaveFile | server/p4l/lexer.h:2841-2899 | the loops write exactly the image of the tables |
| TableFile.LoadFile | server/p4l/lexer.h:2759-2829 | returns tables that the stream holds, and fails only when it holds none |
| TableFile.HoldsIsUnique | server/p4l/lexer.h:2759-2829 | a stream holds at most one set of tables |
| TableFile.SavedFileHolds | server/p4l/lexer.h:2841-2899 | a saved file holds its own tables and state count and no others |
| TableFile.TruncatedFileHoldsNothing | server/p4l/lexer.h:2753-2755 | no strict prefix of a saved file holds any tables |
| TableFile.OtherIdHoldsNothing | server/p4l/lexer.h:2774-2778 | a file saved under another id holds no tables for this one |
| TableFile.WrongSignatureHoldsNothing | server/p4l/lexer.h:2762-2766 | a file without the signature holds no tables |
| TableFile.HeaderBytes | server/p4l/lexer.h:2416-2421 | the bytes of signature and version, and which versions are accepted |
| TableFile.WordBytes | server/p4l/lexer.h:2835-2837 | words are written least significant byte first |
| TableFile.FileBytes | server/p4l/lexer.h:2841-2899 | a whole saved file, byte by byte |
| Runs.CallsYieldAllTokens | server/p4l/lexer.h:3610-3726 | successive calls return the tokens in order, end of file once, end of input ever after |
| Runs.SlicesPartition | server/p4l/lexer.h:2473-2509 | the consumed slices are nonempty, consecutive, and a prefix of the input |
| Runs.CallsConsumeSlices | server/p4l/lexer.h:3610-3726 | after the end-of-file token the unread input is exactly what the slices do not cover |
| Tokens.SlexFunctor.Get | server/p4l/lexer.h:3610-3726 | one call returns the next token of the run, skipping continuation lines unless they are wanted |
| Tokens.TokensEnd | server/p4l/lexer.h:3617-3620 | the tokens end where no rule matches, without consuming anything, and where the matched rule carries the id -1 |
| Tokens.EveryByteIsTokenised | server/p4l/lexer.h:3610-3726 | when every byte matches some rule the slices are the whole input |
| Tokens.SliceIsPrefixOfText | server/p4l/lexer.h:2248-2260 | the consumed slice is a prefix of the collected text |
| Tokens.TextIsLongestBeginning | server/p4l/lexer.h:2248-2260 | the text is the longest prefix of the input after which some rule goes on, without empty classes the longest that begins a word of some rule |
| Tokens.TextIsSlice | server/p4l/lexer.h:2248-2260 | text and slice agree if and only if the slice ends the input or no rule goes on after the slice and the next byte, without empty classes no word begins with them |
| Tokens.ValueIsSlice | server/p4l/lexer.h:3615-3622 | the value of a token is its slice if and only if the slice holds no NUL and ends the input, is followed by a NUL, or has no rule going on after the next byte |
| Runs.TextIsCutAtNul | server/p4l/lexer.h:3622 | the returned text is whole if and only if it holds no NUL |
| Tokens.TextOvershoots | server/p4l/lexer.h:2253 | with any rules, the text goes past the slice when the next byte could have led to a longer word of some rule |
| Tokens.TextOvershootsExample | server/p4l/lexer.h:2253 | rules `a` and `abc` on `abd`: the slice is `a`, the text begins with `ab` |
| Document.PositionInLines | server/lsp/p4unit.cpp:15-40 | in a text given by its lines, line and character count lines and places from zero |
| Document.PositionsAreOrdered | server/lsp/p4unit.cpp:15-40 | offsets and positions are in the same order |
| Document.IndexOfPositionAt | server/lsp/p4unit.cpp:15-40 | every character but a newline is found at its own position and only there; a newline is at no position |
| Document.GetPositionIndex | server/lsp/p4unit.cpp:15-40 | the loop computes the inverse of counting newlines and column, and fails exactly on positions that no offset has |
| Document.P4File.ChangeSourceCode | server/lsp/p4unit.cpp:202-233 | the text becomes the fold of the changes, unacceptable ones being ignored |
| Document.RangeIsReplaced | server/lsp/p4unit.cpp:214-226 | a ranged change whose length fits replaces exactly the text it covers |
| Document.RangeIsIgnored | server/lsp/p4unit.cpp:216-230 | every other ranged change leaves the text alone |
| Document.LastReplacementCounts | server/lsp/p4unit.cpp:207-211 | a change without a range replaces the whole text, and only what follows it matters |
| Document.ReplacementDecides | server/lsp/lsp_server.cpp:140-149 | a full replacement sent for an open path decides its text over any run |
| Document.UndoRestores | server/lsp/p4unit.cpp:212-225 | the inverse edit restores the text if and only if the inserted text does not begin with a newline |
| Document.SequentialIsEffective | server/lsp/p4unit.cpp:205-231 | a descending batch, touching spans allowed, replaces at once exactly the spans that do not end where a higher edit has just put a newline |
| Document.AllEffective | server/lsp/p4unit.cpp:205-231 | no edit of a batch is lost if and only if none touches a higher one that begins with a newline |
| Document.SequentialIsSimultaneous | server/lsp/p4unit.cpp:205-231 | without such clashes, in particular with strict gaps, a descending batch is simultaneous replacement |
| Document.ClashLosesAnEdit | server/lsp/p4unit.cpp:216-230 | two touching edits of which the second is lost |
| Document.DocumentStore.Handle | server/lsp/lsp_server.cpp:140-165 | one notification changes the stored texts as specified, each path owning its own file object |
| Document.StoredTextIsFoldOfEdits | server/lsp/lsp_server.cpp:140-165 | over any run the text of a path is its first opened text with every later change applied |
| Literals.TruncateValue | server/p4l/lexer.cpp:200-203 | the masks compute the remainder modulo 2^width, less 2^width when signed and the sign bit is set |
| Literals.TruncateIsTwosComplement | server/p4l/lexer.cpp:200-203 | the value is in the range of the type and congruent to the literal |
| Literals.TruncateRoundTrip | server/p4l/lexer.cpp:200-203 | the two's-complement pattern of a representable value reads back as the value |
| P4Lexer.LongestOperator | server/p4l/lexer.cpp:25-135 | the operator scanned is the longest that the input starts with, except before a pragma and at a broken-off saturating operator |
| P4Lexer.Lexer.ReadIdentifier | server/p4l/lexer.cpp:234-372 | reads the longest run of word characters and tells keywords from identifiers |
| P4Lexer.Lexer.Convert | server/p4l/lexer.cpp:148-206 | value, width and outcome of a scanned number are those of the number function, every rejecting and throwing branch included |
| P4Lexer.Lexer.ReadBlockComment | server/p4l/lexer.cpp:379-392 | the nested loops stop where the comment function says, or never |
| P4Trivia.BlockCommentEnds | server/p4l/lexer.cpp:379-392 | that is behind the first NUL or end mark, and never exactly when there is neither |
| P4Trivia.LexBlockComment | server/p4l/lexer.cpp:374-393 | lexing goes on behind the first NUL or end mark, and hangs when there is neither |
| P4Trivia.UnclosedCommentHangs | server/p4l/lexer.cpp:379-392 | no end is found if and only if the text holds neither a NUL nor an end mark, and then the lexer hangs |
| P4Trivia.CommentExamples | server/p4l/lexer.cpp:379-392 | inputs that hang, and one closed by a NUL |
| P4Trivia.LexLocation | server/p4l/lexer.cpp:395-400 | a location mark drops one character and then the rest of the line, and ends the input when nothing is left of the line |
| P4Lexer.Lexer.ReadString | server/p4l/lexer.cpp:214-232 | the loop collects what the string function says |
| P4Trivia.StringBodyReads | server/p4l/lexer.cpp:214-232 | plain characters and escape pairs are collected as they stand, up to the first free quote, which stays in front of the input |
| P4Trivia.StringBodyIsSpelled | server/p4l/lexer.cpp:214-232 | conversely every string found is spelled so; otherwise the rest of the input is consumed |
| P4Trivia.StringLiteralReads | server/p4l/lexer.cpp:214-232 | a string literal is read back with its closing quote left over |
| P4Trivia.StringSwallowsRest | server/p4l/lexer.cpp:214-232 | the left-over quote swallows the rest of the input if and only if no free quote follows, otherwise the next token is a string again |
| P4Trivia.EscapedQuoteIsNotFree | server/p4l/lexer.cpp:214-232 | behind an empty literal an escaped quote is lost |
| P4Lexer.Lexer.ReadOther | server/p4l/lexer.cpp:25-135 | the switch on one, two or three characters agrees with the one-token function, restarting after comments and location marks |
| P4Lexer.Lexer.Next | server/p4l/lexer.cpp:8-23 | token, remaining input and registers are those of the one-token function |
| P4Laws.WordIsRead | server/p4l/lexer.cpp:234-372 | a word goes on through letters, digits and underscores, and is a keyword exactly when it is one of the 43 reserved words |
| P4Laws.WordExamples | server/p4l/lexer.cpp:234-372 | `x1` is one identifier, `_` a keyword |
| P4Laws.BlankIsSkipped | server/p4l/lexer.cpp:10-12 | the six white-space characters are skipped, and no others |
| P4Laws.SymbolIsRead | server/p4l/lexer.cpp:25-135 | each of the 37 operators is read as itself when nothing extends it |
| P4Laws.OnlySymbols | server/p4l/lexer.cpp:25-135 | nothing else is an operator |
| P4Laws.NumberIsRead | server/p4l/lexer.cpp:137-207 | a number spelled in base 2, 8, 10 or 16 behind its prefix, with digits of either case, with or without a size, leaves what it means |
| P4Laws.BaseExamples | server/p4l/lexer.cpp:164-175 | one literal in each base |
| P4Laws.PartsAreSplit | server/p4l/lexer.cpp:148-176 | size, sign, prefix and digits are taken apart again |
| P4Laws.SplitHasParts | server/p4l/lexer.cpp:148-153 | nothing else is taken apart |
| P4Laws.NumberOutcome | server/p4l/lexer.cpp:153-206 | the outcome of every number with any size, base and digits, branch by branch |
| P4Laws.NotANumber | server/p4l/lexer.cpp:206 | a run of number characters that does not come apart is unknown |
| P4Spelling.LexSpelled | server/p4l/lexer.cpp:8-23 | a word, operator or number is read back exactly if and only if the character behind it does not extend it |
| P4Spelling.SizedLiteralReadsBack | server/p4l/lexer.cpp:137-207 | a representable value of width 1 to 30 (2 to 30 signed), printed in base 2, 8, 10 or 16, is read back as that value |
| P4Spelling.LexNumeral | server/p4l/lexer.cpp:137-207 | a well-formed number is read as the value before its first underscore, and throws exactly when it begins with one or the value exceeds an `int` |
| P4Spelling.UnderscoresMatter | server/p4l/lexer.cpp:200 | the digits before the first underscore have the value of all digits if and only if no digit follows it or all are zero |
| P4Spelling.NumberValue | server/p4l/lexer.cpp:200-203 | the value register after a number, unsized or sized, against all its digits: when they agree, exactly |
| P4Spelling.SizedUnderscoreExamples | server/p4l/lexer.cpp:200-203 | `8w1_0` reads as 1, `1w2_4` has its one bit right |
| P4Spelling.UnderscoreExamples | server/p4l/lexer.cpp:200 | `1_0` reads as 1 and `0x_1` throws |
| P4Trivia.GapIsSkipped | server/p4l/lexer.cpp:374-393 | white space, closed block comments without NUL and nonempty line comments are skipped |
| P4Trivia.EmptyLineCommentEndsInput | server/p4l/lexer.cpp:376-378 | everything after an empty line comment is lost |
| P4Spelling.TokenListRoundTrip | server/p4l/lexer.cpp:8-393 | lexing the spelling of a token list, gaps or none as long as nothing extends a lexeme, yields that list, with its registers, and then the end token |
| P4Spelling.SpacedIsOk | server/p4l/lexer.cpp:8-23 | white space or a comment between any two lexemes, no comment behind a division, is enough for the round trip |
| P4Spelling.AdjacentTokens | server/p4l/lexer.cpp:8-23 | the spelling `abc&0x19&&&8w0x0f` without gaps |
| P4Spelling.CommentsDoNotMatter | server/p4l/lexer.cpp:374-393 | two spellings of the same list that differ in white space and comments lex alike |
| Common.DecimalPlaces | server/lsp/dispatcher.cpp:61-62 | the ten digits and the places of a decimal number |
| Common.ValueOfDecimal | server/lsp/dispatcher.cpp:61-62 | the printed length is parsed as the same number |
| Framing.InputStream.ReadMessage | server/lsp/lsp_server.cpp:330-392 | result and remaining stream of one call, for every stream |
| Framing.PrintFrame | server/lsp/dispatcher.cpp:60-63 | appends exactly one frame |
| Framing.ReadFrame | server/lsp/lsp_server.cpp:330-392 | a complete frame of less than 2^63 - 1 characters, other header lines allowed, is read exactly; an oversized one is skipped; the next frame comes next |
| Framing.OtherHeaderIsIgnored | server/lsp/lsp_server.cpp:356-364 | a line that is not `Content-Length: ` and digits alone is no content length |
| Framing.ReadBlock | server/lsp/lsp_server.cpp:330-392 | any block of headers, with either line end: the last content length counts, and each range of it has its outcome |
| Framing.UnfinishedIsNoMessage | server/lsp/lsp_server.cpp:337-391 | headers cut off by the end of the stream give no message |
| Framing.FrameExamples | server/lsp/lsp_server.cpp:356-364 | a content type behind the content length does not matter |
| Framing.FrameIsPassed | server/lsp/lsp_server.cpp:372-377 | the next frame comes next if and only if the length is below the largest stream size |
| Framing.HugeLength | server/lsp/lsp_server.cpp:356-377 | what a header does that announces 2^63 - 1 characters or more, in each of the three ranges |
| Framing.FramesBehindHugeLength | server/lsp/lsp_server.cpp:372-377 | of the frames behind such a header none is read, or all |
| Framing.FramesRoundTrip | server/lsp/dispatcher.cpp:60-63 | reading the printed frames returns the deliverable contents in order, then the end of the stream |
| Dispatch.FindValue | server/lsp/context.h:43-54 | the value of the innermost layer with the key |
| Dispatch.Worker.Send | server/lsp/dispatcher.cpp:40-65 | writes one reply under the request id of the context, or nothing without one |
| Dispatch.Worker.Invoke | server/lsp/dispatcher.cpp:147-166 | the selected handler answers, raises the flag, and changes the open documents, each as the message says |
| Dispatch.Worker.Dispatch | server/lsp/dispatcher.cpp:106-168 | at most one reply, only to a request and under its own id; the documents change as the message says; the context afterwards is the one before |
| Dispatch.InnermostWins | server/lsp/context.h:43-66 | a derived context answers for its own key and leaves the others to its parent |
| Dispatch.AnswerByName | server/lsp/dispatcher.cpp:147-166 | who is answered with a result, who with an error, and who not at all, by method name |
| Dispatch.RegisteredNames | server/lsp/dispatcher.cpp:73-98 | the 26 registered methods |
| Dispatch.ExitByName | server/lsp/lsp_server.cpp:84-88 | the flag is raised by `exit` alone |
| Dispatch.NoticeByName | server/lsp/lsp_server.cpp:140-165 | what each message does to each path, by method name |
| Dispatch.TextByName | server/lsp/lsp_server.cpp:140-165 | the text of a path is that of the first `textDocument/didOpen` with every later `textDocument/didChange` applied |
| Dispatch.RepliesAreSubsequence | server/lsp/dispatcher.cpp:140-168 | reply ids are a subsequence of request ids, picked at increasing positions |
| RunLoop.InvHolds | server/lsp/lsp_server.cpp:60-88 | in every interleaving every message is in exactly one place, in order, and replies and documents are those of the handled ones |
| RunLoop.DispatchInStreamOrder | server/lsp/lsp_server.cpp:60-82 | at any moment the dispatched messages are a prefix of the stream's messages |
| RunLoop.ReplyIdsFollowRequests | server/lsp/dispatcher.cpp:40-65 | in every interleaving reply ids are a subsequence of request ids |
| RunLoop.ReturnsAfterExit | server/lsp/lsp_server.cpp:77-88 | when `run` returns, everything up to and including the first handled exit is dispatched, and everything if there is none |
| RunLoop.NeverStuck | server/lsp/lsp_server.cpp:60-82 | until `run` returns a thread or the client can take a step |
| RunLoop.StandsStillForClient | server/lsp/lsp_server.cpp:64-66 | no thread can move if and only if all work is done and the reader waits for the client |
| RunLoop.ExitStillWaits | server/lsp/lsp_server.cpp:84-88 | a run that has handled an exit and stands still inside `read_message` |
| RunLoop.NoReadsAfterExit | server/lsp/lsp_server.cpp:64-66 | once the flag is up, only the message that is being read is still taken |
| RunLoop.RunsAreBounded | server/lsp/lsp_server.cpp:60-82 | the number of steps is bounded by the input |
| Server.FramesAreServed | server/lsp/lsp_server.cpp:60-82 | from the client's frames: dispatched and answered are a prefix of the deliverable contents, in order, complete up to the first exit when `run` returns |
| Server.DocumentsFollowFrames | server/lsp/lsp_server.cpp:60-165 | from the client's frames: by method names, at any moment the text of a path is that of the first handled `textDocument/didOpen` with every later handled `textDocument/didChange`, and after an exit-free session all messages are handled |
| Server.ServingEnds | server/lsp/lsp_server.cpp:60-82 | for any sequence of frames every run is bounded and can go on until `run` has returned, by the threads alone once the client has sent everything and closed the stream |

## Left out

- Multi-byte characters: only the single-byte matcher is used by the server.
- Parsing of regular-expression text: a rule is the tree that the grammar produces, or nothing when parsing fails; a class leaf is its set of bytes.
- Nodes are values: cloning and ownership are not modelled, and numbering returns the renumbered tree instead of writing into it. The local maps and vectors of the construction are values that its methods reassign.
- Node and state ids are unbounded integers, with -1 for the invalid node; wrap-around at 2^32 states is not modelled. Match rows hold booleans instead of 0/1 bytes.
- Callbacks, lexer states pushed by callbacks, and `lexer_control`: no rule of the server registers one.
- Lexers.Lexer.RegisterRegex: takes only existing states; the original indexes out of bounds for every other one.
- Lexers.Lexer.CreateDfaForState: old tables must have rows of 256 cells and one verdict for each row; with others, which only a foreign file can bring in, the original writes out of bounds. The fresh tables are written over the old ones in one step, since the loop only ever writes them.
- Lexers.Lexer.NextToken: a compiled lexer must have tables for its current state whose verdicts name registered rules; the original indexes out of bounds otherwise.
- TableFile.LoadFile: memory exhaustion on huge sizes is not modelled, and neither are write failures in TableFile.SaveFile; words are those of a 64-bit little-endian machine.
- Tokens.SlexFunctor.Get: positions, validation of identifiers and literals, trigraphs, the `include_next` conversion and include guards belong to a preprocessor library that is not part of this model.
- Document: the 32-bit width of lines and columns, compilation of the document, hover, highlights, symbols, and the search for a compile command.
- P4Lexer: row and column counters; a byte of 255, which the original cannot tell from the end of the input; widths above 30, whose shifts are undefined (outcome `Undefined`); string literals in token lists, because the closing quote is read again as the start of a string.
- Framing: interrupted reads, logging, stream failures other than the end, and the last character of an empty line, which is undefined in the original and taken not to be a carriage return.
- Framing.InputStream.ReadMessage: a content length of 2^64 or more makes the original throw (outcome `OutOfRange`), which ends the server; Server starts from streams without it.
- Dispatch: JSON text, the effects of handlers other than on documents, the members of results, and exceptions from malformed ids; a message is what parsing has made of it.
- RunLoop: results of `read_message` arrive whole, so waiting in the middle of a frame is not told from waiting before it; the unsynchronised flag is sequentially consistent here, and the loop condition reads it and the stream in one step.
