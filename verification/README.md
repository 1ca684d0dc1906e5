# Verified model of the AWCMS command-line gates and jobs

The repository's `scripts/` directory holds gates that guard a release and jobs that run once
against live data. Most are thin, but some carry an algorithm whose correctness nothing else
checks. This project models those algorithms in Dafny 4.11, keeping the branches and edge cases
of the code, and proves what the scripts' comments and callers rely on. `dafny verify
dfyconfig.toml` checks everything.

Code that updates state in place is imperative here: shared `seen` sets, the function table, the
migration table and the cleanup list are fields of classes, and each method is tied to a
specification whose properties are then proved. Concurrency is a transition system: a state, its
steps, and lemmas about every run. The network, the database, the converters and the parsers are
oracles, given as function parameters or as steps.

| file | models |
|---|---|
| `CleanupDrain.dfy` | the cleanup drain of `ci-local.ts`, any number of callers at once |
| `ProcessTree.dfy` | the breadth-first search for the descendants of a process |
| `DecisionLog.dfy` | the brace-depth dominance scan, against an execution semantics of block-structured code |
| `SqlLexer.dfy`, `ArgumentList.dfy` | the SQL gate: lexer and argument lists |
| `PostgresPieces.dfy` | what pieces of SQL mean in PostgreSQL, and where the lexer agrees |
| `FunctionHistory.dfy`, `FunctionFold.dfy` | what a history of function DDL means in the database, and the table the gate folds it into |
| `Migrations.dfy` | concurrent migration runners under an advisory lock, with crashes |
| `ConsumerContract.dfy` | slicing an API description for a consumer, and comparing two slices |
| `SchemaReach.dfy` | the search for the error envelope in a cyclic schema graph |
| `DocsClosure.dfy`, `ExampleValues.dfy` | links, headings and synthesised examples of the API reference |
| `EdgeVerify.dfy` | one redirect walk, and the pool of workers that run walks |
| `LegacyImport.dfy` | the many-gate plan of the legacy import |
| `JsonPointer.dfy`, `InlinedScripts.dfy` | two parsers that must undo a printer |
| `Json.dfy`, `Common.dfy` | shared vocabulary |

Where the code does not meet what its text suggests, the model follows the code:

- `ConsumerContract.ContainmentIsReflexiveWithoutNaN`: a YAML `.nan` makes a bundle break against
  itself; otherwise containment is reflexive.
- `DocsClosure.TablesLinkToHeadings`, `SiblingOfRefDangles`: the closure returns at a `$ref`, the
  tables do not, so properties beside a `$ref` can be linked to a heading that does not exist.
- `DecisionLog.DominanceIsExact`, `ExhaustiveLogIsRejected`, `LoggingTryIsRejected`: a return after an
  if/else, or a try/catch, that logs in every arm is rejected, though no execution reaches it without a row.
- `PostgresPieces.PieceIsReadExactly`, `ForeignLetterOpensDollar`: the lexer's word characters are ASCII
  and it judges by one character what PostgreSQL judges by tokens, so behind a letter beyond ASCII it can
  open a dollar quote where PostgreSQL has a name.
- `FunctionFold.KeepsUpExactly` says at which statements the table keeps up with the database.  It does
  not when a function outside `public` is renamed (`RenameHidesAnotherFunction`), when a SET follows a
  RESET in one ALTER (`SetAfterResetIsReported`) or another path, or DEFAULT, follows a first one
  (`SecondSetIsMissed`), at the second function of a DROP
  (`SecondDropIsMissed`), at a change of schema, and when a name goes on after a slash
  (`SlashedNamesAreHitToo`).
- `ArgumentList.ListComesBackExactly`: the argument splitter knows doubled quotes, but neither escaped
  ones nor quoted identifiers, and which commas separate follows from counting apostrophes and
  parentheses (`CommaBetweenEscapesSplits`, `CommaInIdentifierSplits`, `ParenInIdentifierCloses`).
- `ExampleValues.EveryCallReturnsExactlyWhenRanked`: only `allOf` can keep the recursion from ending;
  the guards on depth and on seen names do not cover it (`CircularAllOfNeverReturns`).
- `EdgeVerify.LoopIsReportedExactly`, `RingExhaustsItsBudget`: a loop that closes exactly at the hop
  budget is reported as exhausted, not as a loop.

## Model

| member | source | states |
|---|---|---|
| CleanupDrain.OneAtATimeAndOnce | scripts/ci-local.ts:1786-1811 | in every run of any number of callers, with registrations at any time, at most one cleanup body is in flight and none starts twice |
| CleanupDrain.StartsTheNewest | scripts/ci-local.ts:1772-1796 | whatever starts is the newest registered cleanup not yet started, and nothing else is in flight then |
| CleanupDrain.ReturnsOnlyWhenDrained | scripts/ci-local.ts:1776-1785 | a caller returns only at an instant when everything registered so far has finished, another caller's cleanup included |
| CleanupDrain.EveryCallReturns | scripts/ci-local.ts:1786-1811 | after finitely many registrations and calls the run has a bounded number of further steps, and when it is quiet every call has returned |
| CleanupDrain.NeverStuck | scripts/ci-local.ts:1787-1810 | a caller that has not returned always has an internal step to wait for or to take |
| CleanupDrain.InternalStepDrops | scripts/ci-local.ts:1787-1810 | the lexicographic measure of cleanups and waiting callers falls with every internal step |
| CleanupDrain.StepKeepsValid | scripts/ci-local.ts:1786-1811 | every step keeps pending and started cleanups a partition of the registered ones, with one unresolved drain at most |
| CleanupDrain.RunKeepsValid | scripts/ci-local.ts:1786-1811 | the same over whole runs |
| CleanupDrain.NaiveLoopReturnsEarly | scripts/ci-local.ts:1777-1783 | the first version's loop lets a second caller return while a cleanup is in flight |
| CleanupDrain.JobRun.LoopPass | scripts/ci-local.ts:1787-1810 | one pass over the mutable fields is one step of the transition system, and it starts or returns exactly then |
| CleanupDrain.JobRun.DrainSettled | scripts/ci-local.ts:1803-1805 | the `finally` callback is the step that clears the drain |
| CleanupDrain.JobRun.Register | scripts/ci-local.ts:930 | a registration puts the newest cleanup on top of the pending ones, at any time |
| ProcessTree.DescendantsOf | scripts/ci-local.ts:720-748 | for any table, duplicates and parent cycles included: exactly the pids below the root by parent links, each once, never the root, nearest first |
| ProcessTree.SearchIsExact | scripts/ci-local.ts:732-747 | when the queue is empty, what was found is exactly what a parent-link walk from the root reaches |
| ProcessTree.DepthIsDistance | scripts/ci-local.ts:732-747 | the depth at which a pid was found is the length of the shortest parent-link walk |
| ProcessTree.DiscoverOne | scripts/ci-local.ts:736-745 | queueing an unseen child keeps the search consistent |
| ProcessTree.GroupByParent | scripts/ci-local.ts:724-730 | the index holds, for every parent, exactly its rows in table order |
| ProcessTree.ChildrenInOrder | scripts/ci-local.ts:724-730 | the children the index gives a parent are the pids at the rows under it, each row once, in table order |
| DecisionLog.DepthMap | scripts/access-decision-log-coverage-check.ts:131-150 | each position gets the number of braces open around it |
| DecisionLog.IsDominatedByLog | scripts/access-decision-log-coverage-check.ts:157-196 | true exactly when some earlier log call's block is still open at the position |
| DecisionLog.CollectDecisionReturns | scripts/access-decision-log-coverage-check.ts:199-216 | one entry per decision return, in order, each with its verdict |
| DecisionLog.ScanOfBlock | scripts/access-decision-log-coverage-check.ts:157-196 | on the printed text of any block-structured program, character-level dominance is the syntactic one: an earlier direct log in an enclosing block |
| DecisionLog.DominanceIsExact | scripts/access-decision-log-coverage-check.ts:131-196 | a return is accepted exactly when a log directly in an enclosing block precedes it; and every execution reaching it has logged exactly when it is accepted, or dead, or an earlier if/else chain or try/catch in an enclosing block logs in each arm that falls through |
| DecisionLog.BlockRuns | scripts/access-decision-log-coverage-check.ts:152-196 | whatever an execution does, falling through or deciding, with or without a row, the text allows |
| DecisionLog.StraightRunArrives | scripts/access-decision-log-coverage-check.ts:152-196 | and what the text allows some execution does: it reaches the return, silently if nothing before it must log, taking one arm of every if/else chain and a part of every try/catch on the way |
| DecisionLog.ExecutionsAreExact | scripts/access-decision-log-coverage-check.ts:152-196 | must-log and dead code, both read off the text, are exactly what holds of all executions |
| DecisionLog.SilenceIsBroken | scripts/access-decision-log-coverage-check.ts:152-196 | what stands in the way of a silent execution is a direct log, a chain or try/catch that logs in every arm, or no way through at all |
| DecisionLog.ExhaustiveLogIsRejected | scripts/access-decision-log-coverage-check.ts:157-196 | the two-arm program: rejected, not dead, and always logged |
| DecisionLog.LoggingTryIsRejected | scripts/access-decision-log-coverage-check.ts:157-196 | the try whose body and handler both log: rejected, not dead, and always logged |
| DecisionLog.RejectedThoughLogged | scripts/access-decision-log-coverage-check.ts:157-196 | so is every return right after an if/else or try/catch that can be passed, but not without a log |
| DecisionLog.ReturningTryEnds | scripts/access-decision-log-coverage-check.ts:157-196 | a return after a try whose body and handler both return is dead |
| DecisionLog.UnloggedCodes | scripts/access-decision-log-coverage-check.ts:219-236 | a code is reported exactly when some return with it is unlogged and it is not exempt |
| DecisionLog.UnloggedInOrder | scripts/access-decision-log-coverage-check.ts:219-236 | what is reported are the codes at the unlogged, non-exempt returns, each return once, in order |
| DecisionLog.GateReportsExactly | scripts/access-decision-log-coverage-check.ts:199-236 | collecting and filtering together report exactly the codes of returns without an enclosing earlier log |
| DecisionLog.GreenGateMeansLogged | scripts/access-decision-log-coverage-check.ts:131-236 | when nothing is reported, every execution ending in a non-exempt decision has logged |
| SqlLexer.SplitStatements | scripts/db-function-search-path-check.ts:84-205 | the character loop ends on every text and computes the lexing specification |
| SqlLexer.ReadLexeme | scripts/db-function-search-path-check.ts:101-200 | one pass of the loop reads exactly one lexeme of the text ahead |
| SqlLexer.PrintedGroupsComeBack | scripts/db-function-search-path-check.ts:84-205 | text printed from fragments, comments, literals, quoted identifiers and dollar bodies, each taken by the lexer for what it is, gives one statement per non-blank group and exactly the dollar bodies, in order |
| PostgresPieces.PieceIsReadExactly | scripts/db-function-search-path-check.ts:101-200 | what is a piece to PostgreSQL (manual, sections 4.1.1, 4.1.2 and 4.1.5) is one pass of the loop exactly where the lexer agrees: a dollar quote with an ASCII tag not behind a word character, a literal whose E is judged alike or does not matter, a line comment ended by a line feed |
| PostgresPieces.PostgresGroupsComeBack | scripts/db-function-search-path-check.ts:84-205 | of text that is these statements to PostgreSQL the lexer reads every piece exactly where it agrees on each, and then the statements and the dollar bodies come back |
| PostgresPieces.ReadRawExactly | scripts/db-function-search-path-check.ts:136-159 | an E-string read without escapes ends where it should exactly when it has no escaped quote |
| PostgresPieces.ReadEscapedExactly | scripts/db-function-search-path-check.ts:136-159 | a plain string read with escapes ends where it should exactly when each backslash has a character other than a quote behind it |
| PostgresPieces.DollarExactly | scripts/db-function-search-path-check.ts:178-190 | a dollar quote is seen exactly with an ASCII tag and no word character or dollar sign before it |
| PostgresPieces.DelimiterExactly | scripts/db-function-search-path-check.ts:178-190 | the delimiter is seen exactly where, behind a dollar sign, another follows at once or behind an ASCII name that PostgreSQL would take as a tag |
| PostgresPieces.ForeignLetterOpensDollar | scripts/db-function-search-path-check.ts:178-190 | a name of a letter beyond ASCII and two dollar signs, then a semicolon and a statement: two statements to PostgreSQL, one with a body to the lexer |
| SqlLexer.PiecesAreLexed | scripts/db-function-search-path-check.ts:101-200 | a printed piece in front of any text adds its own text and body and nothing else |
| SqlLexer.PieceIsOneTurn | scripts/db-function-search-path-check.ts:101-200 | each printed piece is read whole by one pass of the loop |
| SqlLexer.SkipComment | scripts/db-function-search-path-check.ts:113-133 | a block comment is left at the end of its outermost level |
| SqlLexer.CommentIsSkipped | scripts/db-function-search-path-check.ts:113-133 | arbitrarily nested comments are skipped to their own closing |
| SqlLexer.ReadLiteral | scripts/db-function-search-path-check.ts:135-167 | the inside of a literal is read up to its closing quote or the end of the text |
| SqlLexer.LiteralIsRead | scripts/db-function-search-path-check.ts:135-167 | doubled quotes, and escaped ones in an E-string, do not close the literal |
| SqlLexer.NeutralIsHarmless | scripts/db-function-search-path-check.ts:161-164 | no semicolon or parenthesis of a literal survives, each of the three becomes its own control character, and every other character stays |
| SqlLexer.SpaceGivesNoStatement | scripts/db-function-search-path-check.ts:93-99 | what is left of a text may be spaces, tabs and line breaks alone: then no statement and no body comes of it |
| SqlLexer.VisibleTextIsFlushed | scripts/db-function-search-path-check.ts:93-99 | a group with one visible ASCII character is a statement, with all its blanks |
| ArgumentList.ReadParenthesised | scripts/db-function-search-path-check.ts:219-244 | the text between the first parenthesis and the one that balances it; null exactly when there is no such pair |
| ArgumentList.CountIdentityArguments | scripts/db-function-search-path-check.ts:247-292 | none for a blank list, otherwise the number of indices whose piece does not lead with OUT, in either case, behind blanks and in front of a character that is not a word character, or of the end |
| ArgumentList.CountIsExact | scripts/db-function-search-path-check.ts:285-289 | the count is the cardinality of that set of indices, for any pieces |
| ArgumentList.OutExactly | scripts/db-function-search-path-check.ts:285-289 | a piece is an OUT argument exactly when it is blanks, the three letters in either case, and then the end or a character other than a letter, digit or underscore |
| ArgumentList.ListComesBackExactly | scripts/db-function-search-path-check.ts:254-284 | a list of any texts is split into those texts exactly when no comma inside one is at nesting 0 after an even number of apostrophes, and each but the last ends at nesting 0 with an even number |
| ArgumentList.ListIsReadExactly | scripts/db-function-search-path-check.ts:219-244 | the list in the first parenthesis is read exactly when its parentheses balance |
| ArgumentList.ArityIsCounted | scripts/db-function-search-path-check.ts:219-292 | from the statement to the arity: of any printed list of proper arguments, the two functions together give the number of arguments whose text does not lead with OUT |
| ArgumentList.PrintedArgumentsComeBack | scripts/db-function-search-path-check.ts:254-284 | commas in nested parentheses and in literals with doubled quotes do not split, quoted identifiers included: the pieces are the printed arguments |
| ArgumentList.SeparatedExactlyWhenEven | scripts/db-function-search-path-check.ts:260-269 | of arguments without commas and parentheses, any number of them, the list comes back exactly when each but the last has an even number of escaped quotes and apostrophes in identifiers |
| ArgumentList.CommaInIdentifierSplits | scripts/db-function-search-path-check.ts:277-282 | a comma in a quoted identifier splits it |
| ArgumentList.CommaBetweenEscapesSplits | scripts/db-function-search-path-check.ts:260-282 | a literal with two escaped quotes and a comma between them is split |
| ArgumentList.ParenInIdentifierCloses | scripts/db-function-search-path-check.ts:231-241 | a closing parenthesis in a quoted identifier closes the argument list |
| FunctionFold.FunctionTable.Apply | scripts/db-function-search-path-check.ts:335-469 | every statement keeps each key equal to its entry's name and arity, and makes of every function what the gate reads in the statement |
| FunctionFold.FunctionTable.AlterTargets | scripts/db-function-search-path-check.ts:405-444 | each entry reached gets the path and security read, or is rewritten under the new name, whatever the order; all other entries stay |
| FunctionFold.FoldFunctions | scripts/db-function-search-path-check.ts:471-482 | over any migrations the table is keyed; of any functions whose statements were all read right it says what the history says, whatever was misread of others; and if all were, of every function |
| FunctionFold.FamilyKeepsUp | scripts/db-function-search-path-check.ts:335-469 | one more statement, read right for some functions: the table still agrees with the history on them |
| FunctionFold.ReadRightForAll | scripts/db-function-search-path-check.ts:335-469 | a statement read right is read right for every function |
| FunctionFold.KeepsUpExactly | scripts/db-function-search-path-check.ts:335-469 | at any statement the database accepts, a table that agrees with the history still agrees afterwards exactly when the gate reads the statement right: actions in order, renames in `public`, no change of schema, no function of a DROP behind the first, and no other function behind the prefix |
| FunctionFold.CreateExactly | scripts/db-function-search-path-check.ts:362-391 | for CREATE: exactly when path and security are read as set |
| FunctionFold.ActsExactly | scripts/db-function-search-path-check.ts:393-431 | for ALTER with actions: exactly when they are in order, and functions continuing the name are left as they are |
| FunctionFold.MoveExactly | scripts/db-function-search-path-check.ts:393-447 | for ALTER ... SET SCHEMA: exactly when it changes nothing |
| FunctionFold.DropExactly | scripts/db-function-search-path-check.ts:449-467 | for DROP: exactly when the further functions are reached too, and the prefix reaches no other |
| FunctionFold.RenameReadRight | scripts/db-function-search-path-check.ts:433-443 | for a rename in `public` that reaches no other function: the table has it under the name the database gives it |
| FunctionFold.RenameReadWrong | scripts/db-function-search-path-check.ts:433-443 | and only then |
| FunctionFold.ReadExactly | scripts/db-function-search-path-check.ts:295-317 | the path and the security read are those the actions set exactly when the last action on the path clears it where there is a RESET, is FROM CURRENT where there is one, and otherwise lists what the first one lists, and no INVOKER follows the last DEFINER |
| FunctionHistory.LastPinWins | scripts/db-function-search-path-check.ts:27-43 | a live function's path is that of the last statement that concerned it, under whatever name, and set or cleared the path |
| FunctionHistory.LastEventWins | scripts/db-function-search-path-check.ts:27-43 | of each of the three properties the last statement that concerns the function and decides it has the say, and none behind it decides |
| FunctionHistory.LastActionWins | scripts/db-function-search-path-check.ts:40-41 | within a statement the last SET or RESET decides |
| FunctionFold.ReportedExactlyWhenLastPinIsUnsafe | scripts/db-function-search-path-check.ts:320-491 | of a function on which table and history agree: reported exactly when it is live, its last CREATE returns a trigger or the last statement on its security made it DEFINER, and the last pin event, under whatever name and schema, left no path, a path of the session, an empty list, or one whose last name is not `pg_temp` |
| FunctionFold.CreatedIsJudged | scripts/db-function-search-path-check.ts:320-391 | right after a CREATE, read into any table, the function is reported exactly when it returns a trigger or is SECURITY DEFINER, and has FROM CURRENT, no path, or a first path that does not end in `pg_temp` |
| FunctionFold.UnpinnedTriggerIsReported | scripts/db-function-search-path-check.ts:328-391 | a trigger function created without a pin is reported, whatever the table held |
| FunctionFold.HistorySays | scripts/db-function-search-path-check.ts:40-41 | what the history says of a live function, field by field: the trigger of its last CREATE, the security of the last statement that set it, the path of the last that pinned it |
| FunctionFold.FileIsOfLastChange | scripts/db-function-search-path-check.ts:376-443 | the file on record is that of the last CREATE, ALTER or rename that reached the entry, and an entry not reached keeps its own |
| FunctionFold.KeyIsInjective | scripts/db-function-search-path-check.ts:332 | a key stands for one text and one arity |
| FunctionFold.KeyOfIsInjective | scripts/db-function-search-path-check.ts:207-216 | with the schema in the text, unless it is `public`, a key stands for one function name and arity |
| FunctionFold.ReachedExactly | scripts/db-function-search-path-check.ts:405-467 | a statement reaches the functions it names, and without arguments those that continue its name after a slash |
| FunctionFold.PrefixHitsExactly | scripts/db-function-search-path-check.ts:405-407 | the key prefix hits the same name, or one that continues it after a slash |
| FunctionFold.SlashedNamesAreHitToo | scripts/db-function-search-path-check.ts:461-465 | after `DROP FUNCTION a` an unsafe function "a/b" is no longer reported |
| FunctionFold.RenameHidesAnotherFunction | scripts/db-function-search-path-check.ts:433-443 | `app.f` renamed to `g` is written over `public.g`, whose missing pin is no longer reported |
| FunctionFold.SetAfterResetIsReported | scripts/db-function-search-path-check.ts:417-425 | RESET and then SET in one ALTER: the database has the pin, the gate reports the function |
| FunctionFold.SecondSetIsMissed | scripts/db-function-search-path-check.ts:299-317 | a safe path and then another, or DEFAULT, in one ALTER: the database has no safe path, the gate does not report the function |
| FunctionFold.SecondDropIsMissed | scripts/db-function-search-path-check.ts:449-467 | `DROP FUNCTION a(int), b(int)`: b is dropped in the database and still reported |
| Migrations.HistoryIsAPrefix | scripts/db-migrate.ts:125-173 | under any interleaving and any crashes, the table is the initial rows and then a prefix of the missing migrations, each once with its checksum; one runner at most is in the locked section; a finished run split its list, in order |
| Migrations.FreshHistoryIsAPrefix | scripts/db-migrate.ts:125-173 | on an empty table the rows are, one by one, the name and checksum of the first files of the list |
| Migrations.StepKeepsExclusive | scripts/db-migrate.ts:129-172 | every step, a crash included, keeps the locked section to the holder of the lock |
| Migrations.StepKeepsValid | scripts/db-migrate.ts:125-173 | every step keeps all runners consistent with one common history |
| Migrations.CommitAppends | scripts/db-migrate.ts:158-164 | rows are only appended, and every table is some prefix of the history |
| Migrations.MismatchCommitsNothing | scripts/db-migrate.ts:142-172 | in every run from the read on, a runner that sees a checksum mismatch commits nothing and never finishes, whatever the others do |
| Migrations.NotYetInTable | scripts/db-migrate.ts:148-167 | what a runner is about to commit is not in the table, so the unique constraint never fires |
| Migrations.NeverStuck | scripts/db-migrate.ts:125-173 | while a runner is present, somebody can move without crashing: the lock is never lost |
| Migrations.StepsRunOut | scripts/db-migrate.ts:125-173 | every step but a new start uses up a finite amount of work |
| Migrations.EndIsSplit | scripts/db-migrate.ts:148-169 | `applied` and `skipped` at the end are an order-preserving partition of the list, all of it recorded |
| Migrations.MismatchExactly | scripts/db-migrate.ts:106-123 | there is a mismatch exactly when the last row of some file holds a checksum that is neither missing, nor empty, nor the file's own |
| Migrations.ValidateAppliedChecksums | scripts/db-migrate.ts:106-123 | fails exactly when there is such a file, and names the first one |
| Migrations.ChecksumIsOfLastRow | scripts/db-migrate.ts:106-123 | the recorded checksum of a name is that of its last row, and none without a row |
| Migrations.PendingInOrder | scripts/db-migrate.ts:148-169 | what is applied are the files at the positions whose names are not recorded, each once, in list order |
| Migrations.AmongInOrder | scripts/db-migrate.ts:148-169 | what is skipped are the files at the other positions, each once, in list order |
| Migrations.RunMigrations | scripts/db-migrate.ts:125-173 | the section as written: what is committed on success, on a mismatch (nothing) and on a failed migration (those before it) |
| ConsumerContract.CollectRefs | scripts/api-consumer-contract.ts:178-215 | ends on cyclic graphs and adds to the shared set exactly a closed set of references that are reachable |
| ConsumerContract.CollectEntry | scripts/api-consumer-contract.ts:178-215 | a `$ref` string is followed once, anything else is searched, with the same closed and reachable result |
| ConsumerContract.CollectedIsReachable | scripts/api-consumer-contract.ts:178-215 | from an empty or closed start that is exactly the references reachable from the value |
| ConsumerContract.RefsAreTheMentioned | scripts/api-consumer-contract.ts:178-215 | the references collected from a value are exactly the component references that stand, as the text of a `$ref`, at the end of a way through its fields and items |
| ConsumerContract.ParsedRefIsPrinted | scripts/api-consumer-contract.ts:178-215 | a reference is the text of the group and the name parsed from it |
| ConsumerContract.WrittenRefIsRead | scripts/api-consumer-contract.ts:190 | and `#/components/`, a group, a slash and a name are read back as that group and name exactly when neither is empty and the name has no line break |
| ConsumerContract.BuildConsumerContract | scripts/api-consumer-contract.ts:218-249 | the chosen paths and exactly the components they reach, undefined where the bundle has none; an error names a path or group that is truly missing |
| ConsumerContract.FillComponents | scripts/api-consumer-contract.ts:236-246 | copying the referenced components yields that slice, or names a group that is needed and missing |
| ConsumerContract.BuiltIsContract | scripts/api-consumer-contract.ts:218-249 | the YAML file of a built slice holds exactly the needed components that resolve |
| ConsumerContract.SliceHoldsWhatIsMentioned | scripts/api-consumer-contract.ts:218-249 | whatever a chosen path or a component of the slice mentions by its written reference is in the slice, with the value it has in the bundle |
| ConsumerContract.SliceIsSelfContained | scripts/api-consumer-contract.ts:218-249 | every component reference in the slice resolves inside it as in the bundle |
| ConsumerContract.SliceIsLeast | scripts/api-consumer-contract.ts:218-249 | any self-contained slice with these paths holds every component of this one |
| ConsumerContract.SlicingTwiceChangesNothing | scripts/api-consumer-contract.ts:218-249 | building from its own output returns the same slice |
| ConsumerContract.ContainmentIsReflexiveWithoutNaN | scripts/api-consumer-contract.ts:255-279 | a value contains itself exactly when no `.nan` is in it |
| ConsumerContract.NaNIsNeverContained | scripts/api-consumer-contract.ts:255-279 | nothing contains a value with a `.nan` |
| ConsumerContract.ContainmentIsTransitive | scripts/api-consumer-contract.ts:255-279 | containment composes over three versions |
| ConsumerContract.ContainmentKeepsRefs | scripts/api-consumer-contract.ts:178-279 | a containing value mentions every reference of the contained one |
| ConsumerContract.ContainmentKeepsScalars | scripts/api-consumer-contract.ts:255-279 | every chain of object keys of the contained value leads in the containing one to the equal null, boolean, number or string, to an object where there was one, and to an array with each scalar item and with a container of each other item |
| ConsumerContract.ContainmentIsWhatCanBeSeen | scripts/api-consumer-contract.ts:255-279 | without a `.nan`, containment holds exactly when every probe, a finite set of ways through keys and into some item, ending in a scalar, an object or an array, that holds of the first value holds of the second |
| ConsumerContract.FindContractBreaks | scripts/api-consumer-contract.ts:282-324 | lists, each once, exactly the paths, groups and components that are missing or not contained |
| ConsumerContract.ChangedScalarBreaksPath | scripts/api-consumer-contract.ts:282-324 | one scalar under a chain of keys that is gone or has another value makes the path a changed one |
| ConsumerContract.ChangedScalarBreaksComponent | scripts/api-consumer-contract.ts:282-324 | and likewise of a component |
| ConsumerContract.GrowthKeepsWalks | scripts/api-consumer-contract.ts:178-324 | additive growth keeps every reference walk of the consumer |
| ConsumerContract.NoBreaksExactlyWhenGrown | scripts/api-consumer-contract.ts:218-324 | comparing an old slice's file with a new slice finds no break exactly when everything the consumer reaches is still there and contained, where `ContainmentIsWhatCanBeSeen` says what that means; without the file in between, exactly when in addition no old reference dangles |
| SchemaReach.SchemaReachesApiError | scripts/api-spec-check.ts:403-419 | with an empty set, true exactly when a chain, from a `$ref` to the schema it names and otherwise to an item under `allOf`, `oneOf` or `anyOf`, leads to a reference named ApiError |
| SchemaReach.Search | scripts/api-spec-check.ts:403-419 | despite cycles, short-circuits and the set shared by siblings: a hit is a real chain, and a miss leaves a set that hides none |
| SchemaReach.QuietNeverReaches | scripts/api-spec-check.ts:403-419 | no chain starts from a node that was searched in vain |
| SchemaReach.MembersExactly | scripts/api-spec-check.ts:412-416 | the members searched are the items of the arrays under `allOf`, `oneOf` and `anyOf`, and nothing else |
| DocsClosure.ExpandReachableClosure | scripts/api-docs-generate.ts:498-528 | ends on cycles with the least superset closed under the edges it follows |
| DocsClosure.Visit | scripts/api-docs-generate.ts:502-523 | one walk adds only names some closed set must hold, and covers the node |
| DocsClosure.VisitChild | scripts/api-docs-generate.ts:512-522 | descending into one child keeps what earlier children reached covered |
| DocsClosure.ChildExactly | scripts/api-docs-generate.ts:502-523 | the children it descends into are the items under `allOf`, `oneOf` and `anyOf`, the value of `items`, and every property |
| DocsClosure.SchemaSummary | scripts/api-docs-generate.ts:109-173 | the shared set grows by exactly the schemas the label links to |
| DocsClosure.LinksExactly | scripts/api-docs-generate.ts:109-173 | a name is linked from a node exactly when a chain of at most six steps leads from it to a reference with that name outside the envelope: a step goes to the first reference and the first data of a wrapper, else to any `allOf` member, else to any `oneOf` alternative, else to the items of an array |
| DocsClosure.PartsExactly | scripts/api-docs-generate.ts:131-160 | what a label without a reference is made of is exactly what one such step reaches |
| DocsClosure.LinksOfCovered | scripts/api-docs-generate.ts:109-173 | a covered node links only to headings or to what stands beside a `$ref` |
| DocsClosure.AppendixHeadings | scripts/api-docs-generate.ts:530-670 | the headings are the least closed set with every link of an operation table |
| DocsClosure.LinkedSchemaHasHeading | scripts/api-docs-generate.ts:530-670 | whatever such a chain from the label of an operation leads to gets a heading |
| DocsClosure.HeadingsAreReached | scripts/api-docs-generate.ts:498-528 | the headings are exactly the schemas reached from the operations' labels, mention by mention |
| DocsClosure.TableLinksSplit | scripts/api-docs-generate.ts:619-670 | the links of one appendix table are headings or stand beside a `$ref` |
| DocsClosure.TableLinksExactly | scripts/api-docs-generate.ts:619-670 | a table links exactly to what a chain from one of the schema's properties leads to, and an enumeration to nothing |
| DocsClosure.TablesLinkToHeadings | scripts/api-docs-generate.ts:498-670 | all appendix links have headings exactly when, in the document, whatever a reached schema's table links to beside a `$ref` is reached from the operations another way |
| DocsClosure.TidyTablesNeverDangle | scripts/api-docs-generate.ts:498-670 | without properties beside a `$ref`, no appendix link dangles |
| DocsClosure.SiblingOfRefDangles | scripts/api-docs-generate.ts:502-511 | an operation and a schema for which any headings the code makes leave a link dangling |
| ExampleValues.EveryCallReturnsExactlyWhenRanked | scripts/api-docs-generate.ts:180-274 | every call ends, whatever its node, depth and seen names, exactly when no named schema's chain of merges comes back to it |
| ExampleValues.CallReturns | scripts/api-docs-generate.ts:180-274 | if all chains of merges end, a call ends: levels left, then merges left, fall lexicographically |
| ExampleValues.MoveGoesDown | scripts/api-docs-generate.ts:180-274 | every nested call is on a deeper level, or on the same level with fewer merges left |
| ExampleValues.EndlessMerging | scripts/api-docs-generate.ts:202-217 | an endless chain of merges uses up every budget, since a merge stays on its level |
| ExampleValues.CircularAllOfNeverReturns | scripts/api-docs-generate.ts:202-217 | a schema that merges itself: no call on it returns, at any depth |
| ExampleValues.ChainsEndExactlyWhenRanked | scripts/api-docs-generate.ts:202-217 | all chains, from any node, end exactly when the schema names can be ranked along them |
| ExampleValues.SourceWins | scripts/api-docs-generate.ts:203-217 | the `allOf` that survives a merge is that of the last member having one |
| ExampleValues.MergedPropertiesExactly | scripts/api-docs-generate.ts:202-217 | the properties of a merge are exactly those of its members, references resolved, each as the last member with it has it |
| ExampleValues.MergeShows | scripts/api-docs-generate.ts:202-253 | and the example of a merge that is an object has exactly these keys, each with the example of the last member's property |
| ExampleValues.CompositionShows | scripts/api-docs-generate.ts:189-224 | a reference shows its schema, or that it is circular; otherwise the first `oneOf` alternative, else the first of `anyOf` |
| ExampleValues.ValueIsShown | scripts/api-docs-generate.ts:226-228 | otherwise `const`, else the first of `enum`, else `example` |
| ExampleValues.ArrayShows | scripts/api-docs-generate.ts:235-238 | an array shows one item above level 4, and is empty from there on |
| ExampleValues.ObjectShows | scripts/api-docs-generate.ts:240-250 | an object shows exactly its properties, each on the next level under its own key |
| ExampleValues.AcyclicNestingReturns | scripts/api-docs-generate.ts:180-274 | acyclic `allOf` nesting suffices, cycles of plain references allowed |
| EdgeVerify.WalkRedirectChain | scripts/blog-legacy-edge-verify.ts:155-248 | for every network: accepted, all-different URLs linked by the resolved location, and exactly the right reason to stop |
| EdgeVerify.FollowedExactly | scripts/blog-legacy-edge-verify.ts:196-240 | an answer is followed exactly when its status is from 300 to 399 and it has a location that resolves |
| EdgeVerify.ReasonsExclude | scripts/blog-legacy-edge-verify.ts:155-248 | the three reasons exclude each other, no URL is asked twice, and `exhausted` means a full budget of followable answers |
| EdgeVerify.LoopIsReportedExactly | scripts/blog-legacy-edge-verify.ts:155-248 | a chain whose redirects close a loop is reported looped exactly when the budget allows one more request, otherwise exhausted |
| EdgeVerify.RingExhaustsItsBudget | scripts/blog-legacy-edge-verify.ts:155-248 | for every budget, a loop that it reports exhausted and one more hop reports looped |
| EdgeVerify.NoEarlyStop | scripts/blog-legacy-edge-verify.ts:155-248 | no admissible report is a shorter part of another |
| EdgeVerify.ReportIsDetermined | scripts/blog-legacy-edge-verify.ts:155-248 | the report is a function of the network alone |
| EdgeVerify.RunKeepsValid | scripts/blog-legacy-edge-verify.ts:403-443 | every interleaving of workers keeps cursor, claims and rows consistent |
| EdgeVerify.EachIndexOnce | scripts/blog-legacy-edge-verify.ts:408-413 | the claims are 0, 1, 2 and so on up to the cursor; the workers are as many as `concurrency` or the targets allow, and no two walk the same index |
| EdgeVerify.ReportIsComplete | scripts/blog-legacy-edge-verify.ts:403-447 | when all workers have returned there is one row per target, in corpus order, duplicates included |
| EdgeVerify.RowsAreOfTheirWalks | scripts/blog-legacy-edge-verify.ts:403-443 | in every run a row that changes is the verdict of the walk of the worker that claimed its index |
| EdgeVerify.PoolFinishes | scripts/blog-legacy-edge-verify.ts:403-443 | every step brings the pool nearer its end |
| EdgeVerify.PoolNeverStuck | scripts/blog-legacy-edge-verify.ts:403-443 | a worker that has not returned can move |
| LegacyImport.PlanLegacyImportRows | scripts/blog-legacy-import.ts:399-648 | the loop computes the line-by-line plan, and keeps for exactly the accepted ids the body, lead and section they resolved to |
| LegacyImport.AcceptedRowHas | scripts/blog-legacy-import.ts:436-636 | an accepted row has as lead the media id its source is mapped to, none without a source, as body what the converter gives with the media map exactly when images are resolved, and as section the one resolved, none without a section map |
| LegacyImport.OnlyAcceptedRowsHave | scripts/blog-legacy-import.ts:633-636 | and no other id has any of the three |
| LegacyImport.AcceptedLines | scripts/blog-legacy-import.ts:436-636 | what is accepted are the records at the accepted lines, each line once, in file order |
| LegacyImport.WorkListsAre | scripts/blog-legacy-import.ts:510-538 | the two work lists have one entry for each line with a new id and slug, in file order: its categories; and the details of its unmanaged images in order, with the lead source exactly when the media map lacks it |
| LegacyImport.RefusalSays | scripts/blog-legacy-import.ts:436-631 | what a refusal says is so: the id, the line that first claimed the slug, the categories not in the map, what the resolver found, the converter's findings, or the lead source that is not mapped |
| LegacyImport.UnmappedAre | scripts/blog-legacy-import.ts:547-549 | the categories it names are those not in the term map, each position once, in order |
| LegacyImport.AcceptedExactlyWhen | scripts/blog-legacy-import.ts:436-636 | a line is accepted exactly when it parses, its id and slug are new, and everything it names is mapped |
| LegacyImport.AcceptedRowsAreImportable | scripts/blog-legacy-import.ts:436-636 | accepted rows have pairwise distinct ids and slugs, and each has its categories, lead, section and body |
| LegacyImport.NothingIsLost | scripts/blog-legacy-import.ts:436-636 | accepted and refused lines together are as many as the non-blank lines |
| LegacyImport.RefusedOnce | scripts/blog-legacy-import.ts:436-636 | refusals come in file order, one per line, each under its own number and for the first gate it failed |
| LegacyImport.WorkListsIgnoreTermsAndSections | scripts/blog-legacy-import.ts:510-538 | the category and image lists do not change with the term map, the section map or its resolver |
| LegacyImport.MoreTermsAcceptMore | scripts/blog-legacy-import.ts:547-563 | enlarging the term map un-accepts no row |
| LegacyImport.AddedRowsWereUnmapped | scripts/blog-legacy-import.ts:547-563 | a row it adds had been refused for a category, and for that alone |
| JsonPointer.ResolvePointer | scripts/asyncapi-provisional-check.ts:90-98 | follows the decoded keys from the document; undefined without the `#/` prefix |
| JsonPointer.PointerFollowsItsKeys | scripts/asyncapi-provisional-check.ts:90-98 | the pointer printed for any keys (section 4 of RFC 6901) follows exactly those keys |
| JsonPointer.FollowIsTheWay | scripts/asyncapi-provisional-check.ts:90-98 | following keys ends at a value exactly when there is a sequence of values from the document to it, each the previous one's field under the next key |
| JsonPointer.UndefinedExactlyWhenMissing | scripts/asyncapi-provisional-check.ts:90-98 | undefined exactly when some key is missing where those before it lead |
| JsonPointer.DecodeUndoesEncode | scripts/asyncapi-provisional-check.ts:93-95 | decoding undoes encoding on every key, tildes and slashes included |
| JsonPointer.OrderOfPassesMatters | scripts/asyncapi-provisional-check.ts:93-95 | the other order of the two passes misreads the key `~1` |
| InlinedScripts.ExtractInlinedScripts | scripts/build-inline-script-check.ts:64-130 | the character loop computes the scan from the first bracket after the first key, or nothing without one |
| InlinedScripts.JsonPairsComeBack | scripts/build-inline-script-check.ts:64-130 | of any pairs of strings printed as JSON, with text before and after, exactly those with a body come back, in order, with escaped id and the escaped length in code units |
| InlinedScripts.PrintedPairsComeBack | scripts/build-inline-script-check.ts:64-130 | the same for any well-escaped strings, however they were escaped |
| InlinedScripts.PrintedIsEscaped | scripts/build-inline-script-check.ts:64-130 | JSON printing (section 7 of RFC 8259) escapes well, and is empty only for the empty string |
| InlinedScripts.UnitsExactly | scripts/build-inline-script-check.ts:121 | the reported size is the number of characters and once more that of those beyond U+FFFF |
| InlinedScripts.PrintedIsReadBack | scripts/build-inline-script-check.ts:64-130 | printing loses nothing: reading the escapes of section 7 of RFC 8259 gives the string back |
| InlinedScripts.FindStart | scripts/build-inline-script-check.ts:65-70 | the scan starts at the first bracket at or after the first key |

## Left out

- Regular expressions that recognise SQL statements, clauses, log calls and decision returns: the models start from parsed statements and from marked positions in the text.
- Programs with brace-less branches, `switch` cases, braces inside strings, or a `finally` that overrides a return: brace depth does not mean dominance there, so they are outside the theorems of `DecisionLog`. A `do`/`while` body and a `finally` block count as parts that may be skipped, so of them only the soundness half is meant. Labelled statements other than loops, which `break` leaves for what follows them, are outside too.
- The forced `process.exit` timer of the signal handler: it depends on wall-clock time and can cut a drain short; the theorems of `CleanupDrain` are about runs without it, with a `log` that does not throw and cleanups that do not call `runCleanups` on their own run.
- `runSelected` in `scripts/ci-local.ts`: a loop that stops at the first failure.
- `collectStandardErrorSchemaProblems` around the schema search: nested loops that push messages, with the first media type chosen by key order.
- Wording of messages, reasons and markdown, and the sorting that makes lists stable (breaks, headings, reported functions); lists whose order is only that are sets.
- DocsClosure.SchemaSummary: does not model the text of the label, because only the set of links it needs matters here; the parameter table, which fills a throwaway set, is not covered.
- ExampleValues: the values of string, number and boolean leaves are a parameter, because which sample stands for a format does not bear on termination.
- LegacyImport: reasons keep the fact they state, not their text; parsing, conversion and section resolution are oracles.
- Objects with inherited keys (`__proto__`), component groups that are not objects, and component entries that are present but undefined.
- Migrations: `CREATE TABLE IF NOT EXISTS` run by several deployers at once, session time limits, and reading the directory; file names in one list are distinct, and every runner's list is a prefix of one list.
- FunctionHistory: functions are told apart by name and number of arguments, as the script's own comment chooses; identifiers are taken as `bareName` reads them, so a quoted identifier with a dot or capitals is not told apart; statements whose argument list cannot be read, bodies that hold DDL, and DDL the gate does not look at (dropping or renaming a schema) are not modelled.
- FunctionFold.ReportedExactlyWhenLastPinIsUnsafe: counts the path that FROM CURRENT takes from a session as unsafe, because the gate's tests make that its policy; in the database it may end in `pg_temp`.
- PostgresPieces: strings continued on the next line (where an E goes on to count), sessions without `standard_conforming_strings`, and numbers with letters behind them, which PostgreSQL refuses, are not modelled.
- FunctionFold.KeepsUpExactly: assumes that the database accepts the statement, because one that is refused ends its migration: a rename or move never takes the name of another live function.
- ArgumentList.PrintedArgumentsComeBack: does not cover arguments the code splits otherwise; ListComesBackExactly says which those are.
- The walk over the AsyncAPI document that collects references and property names: plain recursion over a finite value.
- Gates that are a few set differences, and scheduled-job wrappers whose logic is in other modules.
