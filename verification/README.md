# Memos, verified

A Dafny model of the parts of Memos (a note-taking server written in Go) where one behaviour spans several functions:
the filter compiler, the storage registry, memo trash and history, tag lexing and renaming, the in-memory cache, two
restart and concurrency protocols, and the cron search. Code that updates state in the original is a class or a method
here, and is proved equal to a function of its inputs or its old state; the properties are lemmas about those functions.
What the larger results share is pinned by laws of its own, stated on the fields of the entities and not on those
functions (`FilterLaws`, `FilterAccept`, `StorageLaws`, `TagLaws`, and the closing sections of the other modules).

## What is modelled

**Filter compiler** (`internal/filter`). A type-checked CEL expression (`FilterParser.Expr`) becomes a condition tree
(`FilterIr.Condition`), which the `Renderer` object turns into SQL and an argument list for SQLite, MySQL and Postgres.
SQL is an abstract syntax tree with placeholders (`FilterSql.Sql`), evaluated in three-valued logic; a `?` reads the
next argument, a `$n` the n-th. A database may also refuse a statement (`FilterSql.Accepts`): MySQL and Postgres an
empty `IN ()`, Postgres an argument without a placeholder, and MySQL, whose driver prepares the statement
(`store/db/mysql/memo.go:263`), a number of arguments other than that of its placeholders. LIKE is a recursive matcher
with an escape character. CEL's meaning (`FilterSource.CelMeaning`) knows neither dialect nor case folding. The chain of
results is: CEL meaning = tree meaning (`FilterSource.BuildCorrect`) = the database's answer to the rendered statement
(`FilterMeaning.StatementCorrect`) = its answer to the whole query (`FilterAppend.AppendedAnswer`). Which filters get
that far is exact too: an expression is built iff `Buildable` (`FilterAccept.BuiltIff`), a tree rendered iff
`Renderable` (`RenderedIff`), a list of filters appended iff each is `Accepted` (`AppendedIff`). Where the code does not
keep the meaning, the exact condition is proved:

- constant folding drops SQL text but not its arguments. A `?` then stands at its own argument exactly when no argument
  before that one was dropped, by its own filter (`FilterShape.PlaceholderBindsIff`) or by an earlier one of the query
  (`FilterAppend.AppendedBindsIff`). Placeholders and arguments are equal in number exactly when nothing was dropped
  (`PlaceholdersMatchArgsIff`);
- so MySQL and Postgres refuse a query exactly when a filter of it drops an argument, or keeps an `IN` over nothing in
  the text; SQLite takes every query (`FilterShape.AcceptedIff`, `FilterAppend.AppendedAcceptedIff`). Reading a
  foreign argument is therefore SQLite's alone: what the others take reads its own (`TakenStatementReads`), and
  `DroppedArgumentMisbinds` is a filter that only SQLite takes and misreads;
- a float literal compared with an integer field is truncated, harmless exactly under `TruncationExact`
  (`FilterIr.TruncationExactIff`);
- a missing or null boolean flag in the JSON payload reads differently per dialect, and differently from CEL
  (`FilterIr.FlagDialectsAgreeIff`, `FilterSource.FlagFaithfulIff`); where every flag of a tree is on the agreeing side,
  the tree has one meaning on all dialects (`FilterIr.MeaningDialectsAgree`);
- text matches fold case, which CEL's do not: it only ever adds matches, and adds none on any text exactly when no other
  character folds like one of the value's (`FilterSource.FoldHarmlessIff`, `FilterSource.CaselessIff`);
- `all` over an empty list is false, unlike CEL's (`FilterSource.ComprehensionAgreesIff`);
- `equivalent` misses equal sets exactly when the list field repeats an element (`FilterSource.SetConditionCorrectIff`);
- comparing two literals goes through 53-bit floats (`Float53.WidenedComparisonIff`,
  `FilterConstants.LiteralsCorrectIff`);
- arithmetic folds over truncated operands. `FilterConstants.ArithFoldIff` says for every operator and all operands when
  that gives CEL's number: integers when nothing overflows or divides by zero; doubles when the result fits and the
  fractions cancel (`+`), are equal (`-`), are absent or multiplied by zero (`*`), or when the quotient is whole and the
  divisor's lost fraction too small to carry into it (`/`). So `2.0 + 1.0` folds to 3 and `1.5 + 1.5` to 2.

**Storage registry** (`store/storage.go`). The setting object is normalised and updated in place. The hash that names a
storage is the constructor `Derived(namespace)`, which makes it injective. `IdempotentIff` says for every setting when
normalising twice is normalising once: the first configuration held, in default-first order, must be addressed by an S3
entry; where the legacy configuration was added over another holder of its identifier, it must be that first one and not
the default's; and the legacy default must not have been added over a holder of its own. `CanonicalIds` says that an
identifier of a generated form (`local`, `database`, or a derived one) sits only on the storage it is generated from;
with it updates move no attachment (`UpdateMovesNoAttachment`), and without it they can (`SquattedIdentifierMoves`).
Without it, for every registry, repeated identifiers included, `HousedIff` and `AttachmentStaysIff` say of each stored
storage and attachment when it stays: exactly when the request entry that takes its identifier (the first renamed onto
it, else the first that keeps it) addresses its namespace and the legacy configuration does not take it.
`DefaultFollowed` says where the default ends up and what it addresses, and `UnidentifiedAttachmentsStayIff` what
attachments without an identifier resolve to. In the entries' own fields, `StorageLaws` says which texts are trimmed to
what, when two entries are one place (`NamespaceEqualIff`) and share an identifier, which default a setting ends up with
(`GivenDefault`, `DeclaredDefault`), what a request entry becomes (`RevisedIs`), what each identifier leads to
afterwards (`EntryAfterUpdate`), and when an update is refused (`UpdateAcceptedIff`). The client cache is a state
machine whose steps are the critical sections of concurrent requests (`DriverCache`).

**Memo trash and history** (`store/memo_history.go`). The COMMENT relation is a list of rows; the breadth-first closure
is proved to be reachability on any graph, cycles included. Deletion, restore, and creation of comments are the
operations of a state machine over a forest with a non-decreasing deletion clock; who may restore what is
`RestoreOutcomeIff`. Revision capture coalesces and prunes one shared table; `CaptureCorrect` says field by field what
is stored and what stays.

**Tags** (`internal/markdown`). The scanners work on UTF-8 bytes (section 3 of RFC 3629, decoded and encoded in
`TagLaws`). The Unicode and emoji tables and the HTML entity lookup are the functions of a `Lexicon`; which runes a tag
takes and emits is `TagLaws.OpeningIs` and `ContinuationIs`. A text node is split inside its parent. The tags of a whole
document have disjoint ranges, so a rename splices the source in one pass. Scanning splits at a byte that cannot
continue what stands before it (`TagLocality.ScanSplits`). So where the renamed occurrences are delimited by such bytes,
the renamed text holds the tags of the text with the old one replaced exactly when `#newTag` on its own is the new tag
(`TagRescan.RenamedTagsIff`), and renaming those again is renaming at once (`RenameTextTwice`). Elsewhere a renamed tag
can grow: `a-` renamed to `ab` in `#a-'b` gives the tag `ab'b` (`UndelimitedTagGrows`).

**TTL cache** (`store/cache/cache.go`). A map, a counter, and a ghost history of what callers did, so that a hit can be
compared with the latest write. Maps are visited in an arbitrary order, as in Go.

**Protocols** (`store/plus_migrator.go`, `store/daily_question.go`). A migration run has a budget of statements after
which it stops, so every crash point is covered. Seed initialisers interleave freely, also with writers that replace the
whole row.

**Cron** (`internal/scheduler/parser.go`). Instants are integers, and `matches` joins day and weekday by OR whatever the
fields are. The code's comments say that the search never fails for a valid expression and that weekday 7 is Sunday. An
accepted expression selects some clock exactly when it names a weekday up to 6 or allows some day of an allowed month
(`RunsIff`); `FebruaryThirtiethNeverRuns` is one that does neither. The search itself sees only four years. Over any
calendar whose window shows every other date and every weekday at every time, it succeeds exactly when the expression
names a weekday up to 6, or allows a date other than 29 February, or a selected 29 February lies in the window
(`SearchFindsIff`). `CronCalendar` is the Gregorian calendar in UTC, the code's default zone, and there the last case
fails exactly in the gap around a century year without one: after the last selected instant of the leap day four years
before it and before its March (`UtcSearchFindsIff`). So `0 0 29 2 7` finds nothing from March 2096 to February 2100
(`LeapDayNotFound`). The weekday field reads 7 as Sunday exactly when it does not name 7 or names 0 too
(`SundayReadingIff`), and makes no difference exactly where another field fails or the day of month already matches
(`WeekdayIrrelevantIff`).

## Model

| member | source | states |
|---|---|---|
| Like.EscapedLiteral | internal/filter/render.go:600-603 | An escaped literal at the front of a pattern consumes exactly itself and leaves the rest of the pattern to the rest of the text |
| Like.PercentSkips | internal/filter/render.go:587-598 | `%` matches any number of characters: the pattern matches iff the rest matches some suffix of the text |
| Like.LikePatternIsTextMatch | internal/filter/render.go:587-603 | For every mode, text, value and usable escape character, LIKE against the escaped pattern holds iff the value is a prefix, suffix or substring of the text |
| Like.UnescapedPatternOvermatches | internal/filter/render.go:600-603 | Without escaping, user text `_` matches a text it is no prefix of |
| Like.FoldEscape | internal/filter/render.go:570-585 | Case folding commutes with escaping when it fixes the metacharacters |
| Like.FoldedLikeIsTextMatch | internal/filter/render.go:542-603 | Folding text and pattern before LIKE is the text match of the folded text and value |
| FilterIr.TruncateBounds | internal/filter/render.go:883-902 | Truncation rounds down from above zero, up from below, and is exact iff the number is integral |
| FilterIr.IntegersAgree | internal/filter/render.go:312-351 | Under `TruncationExact`, comparing any integer with the truncated literal answers as comparing it with the literal |
| FilterIr.TruncationExactIff | internal/filter/render.go:883-902 | `TruncationExact` is exactly when that holds for all integers |
| FilterIr.FlagDialectsAgreeIff | internal/filter/render.go:365-426 | All dialects give a comparison of a boolean JSON flag one answer iff it is stored as true or false, or missing under the two fields whose renderings default it alike, or null under `hidden` where MySQL's null literal falls on the right side |
| FilterIr.MeaningDialectsAgree | internal/filter/render.go:61-126 | A tree whose flag comparisons all meet that condition has one meaning on all dialects |
| FilterLaws.KleeneIs | internal/filter/render.go:91-126 | With false, unknown and true in order, AND is the lesser, OR the greater and NOT the reversal |
| FilterLaws.TextLessIff | internal/filter/render.go:312-351 | A text is less than another iff it is a proper prefix or has the lesser character where they first differ |
| FilterLaws.ComparisonIs | internal/filter/render.go:312-351 | Numbers compare with numbers and texts with texts, anything else is unknown; equal or less one way, the other operators deny these |
| FilterLaws.LessIs | internal/filter/render.go:312-351 | `<` on integers, doubles, both mixed, and texts; booleans are 0 and 1 |
| FilterLaws.AliasLeads | internal/filter/schema.go:75-88 | An alias leads to the field its entry names, any other field to itself; refused iff the field, or the alias's target, is missing |
| FilterLaws.TagMembershipMeans | internal/filter/render.go:450-483 | Where `tag` stands for a list, `tag in [..]` is true iff one of the listed texts is in that list of the row, and else false |
| FilterLaws.TagMembershipRenderedIff | internal/filter/render.go:450-483 | It is rendered iff the list is in the schema and every value is a text |
| FilterLaws.TagMembershipAnswers | internal/filter/render.go:450-483 | The rendered text answers exactly that on every row, on every dialect |
| FilterLaws.SizeOfAlias | internal/filter/render.go:257-303 | The size of an alias means, and renders as, the size of its target |
| FilterLaws.SizeMeans | internal/filter/render.go:257-303 | The size of a list is its length in the row, that of a text its number of characters, and of anything else unknown |
| FilterLaws.FieldConditionMeans | internal/filter/render.go:128-155 | A field used as a condition holds where the row stores true or 1 in the column, true in the payload, or the path |
| FilterLaws.ColumnComparisonMeans | internal/filter/render.go:312-351 | A column is compared by its stored value; without one the answer is unknown, except to a comparison with null |
| FilterLaws.ListMembershipMeans | internal/filter/render.go:510-540 | `in` over literals is true iff one equals the value, false iff every comparison is false |
| FilterLaws.BooleanArgumentIs | internal/filter/render.go:840-853 | A boolean compared with a column is passed to SQLite as 0 or 1, to the others as itself |
| FilterLaws.LeafFlagsAgreeIff | internal/filter/render.go:365-426 | Of the leaves only a comparison of a boolean JSON field can be one on which the dialects disagree |
| FilterSql.ReadMark | internal/filter/render.go:831-838 | In a list whose placeholders are bound, the one written for the k-th argument reads it, in both numbering schemes |
| FilterSql.BoundSplit | internal/filter/render.go:91-109 | If a joined argument list is bound, so are both parts, the second one after the first |
| FilterSql.InstrFindsOccurrence | internal/filter/render.go:702-730 | `instr` is 1 iff the value is a prefix and positive iff it is a substring |
| FilterSql.InstrFormsCorrect | internal/filter/render.go:702-730 | SQLite's `instr` and `substr` forms are the prefix, suffix and substring tests |
| FilterSql.LikeFormCorrect | internal/filter/render.go:702-745 | The other dialects' LIKE form with escape `!` is the same tests |
| FilterSql.ElementCorrect | internal/filter/render.go:678-745 | On every dialect the element predicate holds of exactly the tags the filter means, the empty value matching all |
| FilterSql.CountsCorrect | internal/filter/render.go:621-676 | `COUNT(*)` over the list counts the matching tags |
| FilterSql.CountAgreesWithExists | internal/filter/render.go:621-676 | The COUNT form is positive iff the EXISTS form holds, for every element predicate |
| FilterSql.RowsAreMatches | internal/filter/render.go:621-676 | EXISTS is "some tag", and non-empty with no failing row is "all tags" |
| FilterSql.ComprehensionCorrect | internal/filter/render.go:605-676 | Every dialect's encoding of exists, all and exists_one denotes the comprehension on every row |
| FilterSql.ComprehensionHoles | internal/filter/render.go:621-676 | A comprehension writes exactly one placeholder per argument it adds, in the order of the arguments |
| FilterRender.Renderer.AddArg | internal/filter/render.go:831-838 | Appends the argument and returns the placeholder that denotes it |
| FilterRender.Renderer.AddBoolArg | internal/filter/render.go:840-853 | The same for booleans, which SQLite stores as 0 and 1 |
| FilterRender.Renderer.RenderFieldPredicate | internal/filter/render.go:128-155 | Yields the described predicate text and adds no arguments |
| FilterRender.Renderer.RenderJsonBoolComparison | internal/filter/render.go:365-426 | Yields the described flag comparison for each dialect, operator and field |
| FilterRender.Renderer.RenderJsonExistsComparison | internal/filter/render.go:747-785 | Yields the existence test or its negation, and adds no arguments |
| FilterRender.Renderer.RenderScalar | internal/filter/render.go:312-351 | Yields a null test or a comparison with one argument, or the described error |
| FilterRender.Renderer.RenderSize | internal/filter/render.go:257-303 | Yields the length comparison of a list or text field, an alias being read as its target (`FilterLaws.SizeOfAlias`) |
| FilterRender.Renderer.RenderAccessor | internal/filter/render.go:208-255 | Yields the comparison of a date part brought to CEL's numbering |
| FilterRender.Renderer.RenderComparisonCondition | internal/filter/render.go:157-206 | Dispatches every left-hand side to its rendering |
| FilterRender.Renderer.RenderTagElement | internal/filter/render.go:678-730 | Yields the element predicate and exactly its arguments, in order |
| FilterRender.Renderer.RenderTagComprehension | internal/filter/render.go:621-676 | Yields the dialect's comprehension text |
| FilterRender.Renderer.RenderTagTests | internal/filter/render.go:450-483 | One membership test per listed tag, in order, stopping at the first value that is not a string |
| FilterRender.Renderer.RenderTagInList | internal/filter/render.go:450-483 | Yields the disjunction of the membership tests on the list `tag` stands for (`FilterLaws.TagMembershipAnswers`) |
| FilterRender.Renderer.RenderScalarIn | internal/filter/render.go:510-540 | Yields the IN list with consecutive placeholders for its arguments, in order |
| FilterRender.Renderer.RenderInCondition | internal/filter/render.go:428-448 | Chooses between tag and scalar membership, with the code's error cases |
| FilterRender.Renderer.RenderCondition | internal/filter/render.go:61-126 | The whole recursion yields `Rendering` of the tree and appends its arguments in order |
| FilterRender.Renderer.Render | internal/filter/render.go:32-59 | The finished statement: `1 = 0` when unsatisfiable, blank when trivial |
| FilterMeaning.AccessorsAgree | internal/filter/render.go:230-255 | Each dialect's date part minus its offset is CEL's accessor value |
| FilterMeaning.InListCorrect | internal/filter/render.go:510-540 | The IN list over placeholders is membership in the listed literals |
| FilterMeaning.TagListCorrect | internal/filter/render.go:450-483 | The disjunction of tag tests has the value of "some listed tag is in the list" |
| FilterMeaning.LeafCorrect | internal/filter/render.go:128-745 | Every rendered leaf has the condition's value on every row, for every dialect; the meaning follows an alias by the schema's own entry, not by the code's lookup |
| FilterShape.KeptIffNotDropped | internal/filter/render.go:91-126 | An argument keeps its placeholder iff it belongs to no operand of an operator that folds to a constant |
| FilterShape.RenderingShape | internal/filter/render.go:91-126 | A rendering is trivial or unsatisfiable exactly when its tree folds, is blank only when trivial, carries all arguments and exactly the placeholders of the kept ones in order, and keeps an empty `IN` iff its tree does |
| FilterShape.PlaceholdersMatchArgsIff | internal/filter/render.go:91-126 | A statement has as many placeholders as arguments iff folding dropped no argument-bearing subtree, and never more |
| FilterShape.PlaceholderBindsIff | internal/filter/render.go:91-126 | The j-th `?` stands at the place of the argument it was written for iff no argument before that one was dropped |
| FilterShape.StatementBindsIff | internal/filter/render.go:91-126 | All of them do iff every dropped argument comes after all kept ones |
| FilterShape.AcceptedIff | internal/filter/render.go:32-126 | SQLite takes every statement; MySQL and Postgres take it iff it keeps no empty `IN` and folding dropped no argument |
| FilterMeaning.FoldedMeaning | internal/filter/render.go:91-126 | A tree that folds has that constant's value on every row |
| FilterMeaning.RenderingCorrect | internal/filter/render.go:61-126 | Wherever its placeholders read the arguments they were written for, the rendered text has the tree's Kleene value on every row |
| FilterMeaning.StatementCorrect | internal/filter/render.go:32-126 | The database takes the finished statement exactly under `Acceptable`, and then, its placeholders reading their own arguments, answers on every row with the tree's Kleene value: blank is TRUE, `1 = 0` is FALSE |
| FilterMeaning.StatementReads | internal/filter/render.go:831-838 | Placeholders read their own arguments on Postgres always, and on `?` dialects, after one placeholder per earlier argument, when drops come last |
| FilterMeaning.TakenStatementReads | internal/filter/render.go:831-838 | A statement MySQL or Postgres takes has every placeholder reading its own argument |
| FilterMeaning.DroppedArgumentMisbinds | internal/filter/render.go:91-109 | A concrete filter whose only `?` was written for the second argument and stands at the first; SQLite alone takes it |
| Float53.WidenMonotone | internal/filter/parser.go:246-260 | Rounding to 53 bits, ties to even, is monotone |
| Float53.WidensToNearest | internal/filter/parser.go:252-260 | A widened integer is the nearest float: of the multiples of the least spacing at which 53 bits reach it, the closest, and the even one of two |
| Float53.ToFloatMonotone | internal/filter/parser.go:252-260 | So is widening any integer |
| Float53.SmallIntegersExact | internal/filter/parser.go:252-260 | Integers within 2^53 widen exactly |
| Float53.WidenedComparisonIff | internal/filter/parser.go:197-260 | Comparing widened integers answers the integer comparison iff `WideningHarmless` |
| Float53.LargeIntegersCollide | internal/filter/parser.go:197-260 | 2^53 and 2^53 + 1 compare equal |
| FilterParser.QuotRem | internal/filter/parser.go:571-580 | Truncated division and its remainder recompose the dividend, with the dividend's sign |
| FilterParser.MapConditions | internal/filter/parser.go:775-781 | One membership condition per value, in order |
| FilterParser.Combine | internal/filter/parser.go:783-789 | The left-nested tree of the conditions |
| FilterParser.Distinct | internal/filter/parser.go:791-801 | The same strings, each once, by first occurrence |
| FilterParser.CollectValues | internal/filter/parser.go:277-285 | The list's operands in order, or the first error |
| FilterParser.CollectStrings | internal/filter/parser.go:728-739 | The list's string literals in order, or the error for the first that is not one |
| FilterConstants.AddFoldIff | internal/filter/parser.go:522-566 | Truncating both doubles before adding gives their sum iff the fractions cancel and the sum fits |
| FilterConstants.MulFoldIff | internal/filter/parser.go:522-570 | Truncating before multiplying gives the product iff both are whole or one is zero, and the product fits |
| FilterConstants.DivFoldIff | internal/filter/parser.go:522-575 | Truncating before dividing gives the quotient iff it is whole, fits, and the divisor's lost fraction does not carry into it |
| FilterConstants.ArithFoldIff | internal/filter/parser.go:537-583 | For every operator and all operands, the folded operation is CEL's value iff the operator's condition on them holds; for integers that is no overflow and no zero divisor |
| FilterConstants.NumericFoldCorrect | internal/filter/parser.go:517-587 | If every operation of an expression meets its condition, it folds to CEL's value at any depth |
| FilterConstants.ArithmeticFoldsIff | internal/filter/parser.go:517-587 | An operation over such operands folds to CEL's value iff it meets its own condition |
| FilterConstants.FractionalArithmeticFoldsWrong | internal/filter/parser.go:517-587 | `1.5 + 1.5` is 3.0 in CEL and folds to 2; `2.0 + 1.0` meets the condition |
| FilterConstants.LiteralsCorrectIff | internal/filter/parser.go:197-260 | Folding a comparison of two literals gives its value iff widening merges no integers the operator tells apart and carries none across the other literal |
| FilterConstants.SmallLiteralsSafe | internal/filter/parser.go:252-260 | Integer literals within 2^53 always meet that condition |
| FilterSource.MirrorCorrect | internal/filter/parser.go:180-195 | Swapping operands with the mirrored operator keeps the comparison |
| FilterSource.LoopsCorrect | internal/filter/parser.go:843-874 | CEL's macro loops compute some, all and the number of matching elements |
| FilterSource.ComprehensionAgreesIff | internal/filter/parser.go:804-841 | The tree's comprehension is CEL's except for `all` on the empty list |
| FilterSource.SetConditionCorrectIff | internal/filter/parser.go:707-773 | contains is superset, intersects is non-empty intersection, equivalent is equality, for all literals including empty and repeated ones, except exactly when equal sets meet a field that repeats an element |
| FilterSource.FlagFaithfulIff | internal/filter/render.go:365-426 | A dialect's comparison of a JSON flag is CEL's, which reads anything but true as false, iff the flag is stored, or the rendering defaults it, or MySQL's null literal falls on the right side |
| FilterSource.FoldHarmlessIff | internal/filter/render.go:542-568 | The case-folded match is CEL's iff folding adds no match on this text; it never loses one |
| FilterSource.CaselessIff | internal/filter/render.go:542-568 | Folding is harmless for a value on every text iff no other character folds like one of the value's |
| FilterSource.ValueCorrect | internal/filter/parser.go:378-437 | A built operand is a literal with the number or value CEL computes, doubles included, or reads the row as the expression does |
| FilterSource.ComparisonBuildCorrect | internal/filter/parser.go:119-178 | Folded, swapped or kept, a built comparison has the value of CEL's comparison, which reads the row and no dialect; when it is built, `FilterAccept.ComparisonBuiltIff` says |
| FilterSource.BuildCorrect | internal/filter/parser.go:18-117 | The built tree has, on each dialect, the CEL expression's value on every row where the expression is faithful; when it is built, `FilterAccept.BuiltIff` says |
| FilterAppend.Query.AppendConditions | internal/filter/helpers.go:9-25 | Appends each non-blank statement and its arguments, with the offset of the arguments so far; a rejected filter stops it with the earlier ones appended |
| FilterAppend.AppendedUnreadIff | internal/filter/helpers.go:9-25 | After appending, an argument has no placeholder iff it had none before or an appended filter drops it |
| FilterAppend.AppendedBindsIff | internal/filter/helpers.go:9-25 | In the whole query the j-th `?` stands at the argument it was written for iff no argument before that one was dropped, by its own filter or an earlier one |
| FilterAppend.AppendedAlignedIff | internal/filter/helpers.go:9-25 | Over a whole filter list, placeholders and arguments stay equal in number iff each filter vanishes or drops none |
| FilterAppend.AppendedAcceptedIff | internal/filter/helpers.go:9-25 | SQLite takes every query; MySQL and Postgres take it iff they took the clauses before and no filter keeps an empty `IN` or drops an argument |
| FilterAppend.NumberedBinds | internal/filter/helpers.go:9-25 | In a query with as many placeholders as arguments every `?` stands at the argument it was written for |
| FilterAppend.AppendOneCorrect | internal/filter/helpers.go:9-25 | One appended statement narrows the clauses by its filter's CEL meaning |
| FilterAppend.AppendedCorrect | internal/filter/helpers.go:9-25 | Where the new placeholders bind, and whatever is appended later, the query keeps the rows the old clauses and all CEL filters keep, the same rows on every database |
| FilterAppend.AppendedAnswer | internal/filter/helpers.go:9-25 | The finished query is refused exactly as above and otherwise answered as the CEL filters are, on SQLite where the new placeholders bind |
| FilterAccept.FoldsIff | internal/filter/parser.go:517-644 | Constant folding yields a number, nothing or an error as the expression's shape says; beyond it only a zero divisor decides |
| FilterAccept.NegationIff | internal/filter/parser.go:488-515 | A chain of negations folds over a boolean constant and fails on a wrong number of arguments |
| FilterAccept.OperandBuiltIff | internal/filter/parser.go:378-437 | An operand is built iff its form is not refused: a constant of a known sort, the field it names, or a size or date part |
| FilterAccept.ComparisonBuiltIff | internal/filter/parser.go:119-178 | A comparison is built iff its operands are comparable: constants of one sort, or a field that allows the operator, mirrored when the constant stands left |
| FilterAccept.FieldAgainstConstantIff | internal/filter/parser.go:152-178 | A field with allowed operators S compares with a constant iff the operator is in S, the mirrored one with the constant on the left |
| FilterAccept.MembershipBuiltIff | internal/filter/parser.go:262-309 | `in` is built iff it has two operands and its field, through one alias, and every listed value are known |
| FilterAccept.BuiltIff | internal/filter/parser.go:18-117 | An expression becomes a tree iff `Buildable` holds of it, read off the expression and the schema |
| FilterAccept.LeafRenderedIff | internal/filter/render.go:128-745 | A leaf is rendered iff its field's kind and its literals' types fit |
| FilterAccept.RenderedIff | internal/filter/render.go:61-126 | A tree is rendered iff each of its leaves is, however many arguments precede it |
| FilterAccept.CompiledIff | internal/filter/engine.go:48-108 | A filter compiles iff it is buildable and its tree renderable |
| FilterAccept.AppendedIff | internal/filter/helpers.go:9-25 | A list of filters is appended without error iff every one is accepted |
| FilterAccept.AppendedUpTo | internal/filter/helpers.go:9-25 | The first filter not accepted ends it, with exactly those before it appended |
| StorageModel.NormalizeSettles | store/storage.go:391-449 | A normalised entry with an identifier is settled, and normalising a settled entry changes nothing |
| StorageModel.LegacyResolves | store/storage.go:214-249 | An attachment with an embedded configuration and no usable identifier resolves to that endpoint, region and bucket (places being compared as `StorageLaws.NamespaceEqualIff` says) |
| StorageNormalize.InstanceStorageSetting.KeepFirstEntries | store/storage.go:30-43 | Entries are normalised, and those without an identifier or with one already seen are dropped |
| StorageNormalize.InstanceStorageSetting.Normalize | store/storage.go:25-86 | The object becomes `Normalized` of its old value; which default that is, `StorageLaws.GivenDefault` and `DeclaredDefault` say |
| StorageNormalize.InstanceStorageSetting.MoveDefaultFirst | store/storage.go:493-502 | The default moves to the front |
| StorageNormalize.InstanceStorageSetting.SynchronizeLegacyFields | store/storage.go:504-523 | The legacy fields follow the default entry |
| StorageNormalize.CleanProperties | store/storage.go:30-43 | Kept entries are settled and distinct, all come from the input, and no identifier is lost |
| StorageNormalize.DefaultFirstKeeps | store/storage.go:493-502 | Nothing is lost or added, the default comes first and the others keep their order |
| StorageNormalize.GatheredDistinct | store/storage.go:44-82 | Identifiers end up pairwise distinct iff no legacy entry was added over a foreign holder of its identifier |
| StorageNormalize.NormalizedCorrect | store/storage.go:25-86 | Non-empty identifiers, an existing default in front with the rest in order, legacy fields equal to the default's type and the first S3 configuration, and when identifiers are distinct; which default, `StorageLaws.GivenDefault` and `DeclaredDefault` say |
| StorageNormalize.CanonicalNormalizes | store/storage.go:25-86 | With canonical identifiers nothing collides and the result is canonical |
| StorageIdempotence.FirstHeldCorrect | store/storage.go:504-523 | The legacy field ends up with the configuration of the first entry to hold one, the default first, read off the input |
| StorageIdempotence.IdempotentIff | store/storage.go:25-86 | For every setting, normalising twice is normalising once iff the first configuration held is addressed by an S3 entry, a legacy configuration added over another holder of its identifier is that first one and not the default's, and no legacy default was added over a holder of its own |
| StorageIdempotence.CanonicalIdempotent | store/storage.go:25-86 | Under the registry's conventions normalisation is idempotent |
| StorageIdempotence.MisplacedConfigNotIdempotent | store/storage.go:504-523 | A configuration left on a local entry makes the second normalisation differ |
| StorageUpdate.ValidIff | store/storage.go:525-546 | A request is valid iff its identifiers are non-empty and distinct, every type is given, every S3 entry is configured, and the default is one of them |
| StorageUpdate.ValidateStorages | store/storage.go:525-546 | The loop accepts exactly those requests, and returns the first error of the others |
| StorageUpdate.AlignLegacyRequest | store/storage.go:127-136 | The default of a legacy request takes the identifier, and if unnamed the name, of the stored entry it addresses |
| StorageUpdate.Reidentify | store/storage.go:122-167 | Each entry whose identifier is stored for another namespace is renamed, the default follows, and empty secrets are filled in |
| StorageUpdate.DedupeEntries | store/storage.go:169-185 | One entry per identifier: the first, unless a renamed one replaces one that was not |
| StorageUpdate.AppendMissing | store/storage.go:196-204 | Stored entries absent from the request are appended in order |
| StorageUpdate.MergeInto | store/storage.go:127-208 | The request object becomes `Merged` of its value and the stored one |
| StorageUpdate.PrepareUpdate | store/storage.go:90-208 | The object becomes `Prepared` of the request and the registry, or the described error is returned; a request entry is renamed as `StorageLaws.RenamedIff` says |
| StorageSafety.RevisedAgrees | store/storage.go:138-167 | A renamed entry only takes an identifier whose stored holder addresses the same namespace |
| StorageSafety.SecretsStayWithProvider | store/storage.go:151-166 | A secret filled in for a canonical request comes from an entry of the same endpoint and region, and the namespace is unchanged |
| StorageSafety.UpdateHousesEveryStorage | store/storage.go:90-208 | After an accepted update every stored identifier is present once and addresses the same namespace (`StorageLaws.NamespaceEqualIff`), also in the setting normalised once more when it is stored |
| StorageSafety.UpdateMovesNoAttachment | store/storage.go:90-249 | Resolving by a stored identifier, or by an embedded configuration with no identifier, gives an equal namespace before and after, also in the setting normalised once more; in endpoint, region and bucket, `StorageLaws.AttachmentKeepsPlace` |
| StorageHousing.DedupeFinds | store/storage.go:169-185 | After deduplication an identifier leads to the first entry renamed onto it, else to the first entry with it |
| StorageHousing.JoinedFinds | store/storage.go:138-204 | Among what is merged, an identifier leads to the request entry that takes it, else to the first stored entry under it |
| StorageHousing.HousedIff | store/storage.go:90-208 | For every registry, a stored storage is present once at its namespace iff the entry its identifier leads to (that of the request that takes it, else the first stored) addresses it and the legacy configuration is not registered under it |
| StorageHousing.AttachmentStaysIff | store/storage.go:90-249 | For every registry, an attachment stored by identifier stays iff the request entry that takes the identifier, if any, addresses its namespace; where the legacy configuration comes in front, iff that does |
| StorageDefault.RequestedDefaultKept | store/storage.go:90-208 | The default of an accepted update stands first and is the entry the request's default became, under its new identifier if renamed, at the namespace requested, unless a later renamed entry gives that identifier up; also after one more normalisation |
| StorageHousing.DefaultFollowed | store/storage.go:138-208 | In every accepted update the default is the request's, followed through all renamings front to back, stands first, and addresses what the request entry that takes its identifier does, or the legacy configuration where that comes in front; so it is where the request put it iff that one is |
| StorageHousing.HeldAfterCorrect | store/storage.go:504-523 | After an accepted update attachments with neither identifier nor configuration resolve through the configuration of the entry that becomes the default, else the first kept one, else the first preserved one, else the legacy one |
| StorageHousing.UnidentifiedAttachmentsStayIff | store/storage.go:90-249 | Attachments with neither stay iff that configuration and the stored setting's address one namespace |
| StorageHousing.SquattedIdentifierMoves | store/storage.go:90-249 | Whatever the two namespaces, an accepted update of a stored setting with a squatted identifier that moves an attachment |
| StorageLaws.SpaceIff | store/storage.go:395-449 | The characters trimmed are those of Unicode's White_Space property |
| StorageLaws.TrimSpaceIs | store/storage.go:358-366 | Trimming takes off the white space at both ends and nothing else |
| StorageLaws.EndpointIs | store/storage.go:548-550 | An endpoint loses its outer white space and then the slashes at its end, and nothing else |
| StorageLaws.NamespaceEqualIff | store/storage.go:353-367 | Two entries are equal in namespace iff they have one type and, if that is S3, one trimmed endpoint, region and bucket |
| StorageLaws.StorageIdIff | store/storage.go:406-430 | Identifiers generated for two entries are the same iff the entries are one place; which entries get one at all |
| StorageLaws.RenamedIff | store/storage.go:139-149 | A request entry is renamed, to its own generated identifier, iff its stored namesake lies at another type, endpoint, region or bucket |
| StorageLaws.NamesakeIsLast | store/storage.go:122-125 | The stored namesake of a request entry is the last with its identifier |
| StorageLaws.RevisedIs | store/storage.go:139-167 | A request entry keeps all it was sent with but a moved one's identifier and an empty secret, which is filled from its namesake, else from the first stored key of its endpoint and region, else, for a request without entries, from the first with its access key |
| StorageLaws.AlignedIs | store/storage.go:127-136 | The default of a request without entries takes identifier and unset name of the first stored entry of its place |
| StorageLaws.AdoptedIs | store/storage.go:97-106 | A default that is not sent is taken over from the stored entry of its identifier, or the request refused |
| StorageLaws.UpdateAcceptedIff | store/storage.go:90-194 | An update is accepted iff its default is sent or stored, the entries it lists have distinct identifiers, types and S3 configurations and hold the default, and no kept entry has an access key without a secret |
| StorageLaws.FirstUpdateIs | store/storage.go:90-118 | With nothing stored, a request is accepted iff its default is sent and its entries pass the checks, and is stored normalised |
| StorageLaws.EntryAfterUpdate | store/storage.go:90-208 | An identifier leads to the request entry that takes it, revised, else to the stored entry unchanged |
| StorageLaws.ResolvedIs | store/storage.go:214-249 | An attachment resolves to the first entry with its identifier, else through its own or the setting's configuration to the first entry of that place or the configuration itself, else to an error; which |
| StorageLaws.AttachmentKeepsPlace | store/storage.go:90-249 | An accepted update keeps an attachment's endpoint, region and bucket: those of the stored entry, or of its embedded configuration |
| StorageLaws.EntryNormalized | store/storage.go:391-449 | What normalising an entry leaves and what identifier, type and name it fills in |
| StorageLaws.EntryStays | store/storage.go:391-404 | An entry that says its type stays where it is |
| StorageLaws.EquivalentIsFirst | store/storage.go:451-458 | The equivalent entry found is the first at that place, or there is none |
| StorageLaws.RegisteredIff | store/storage.go:44-57 | The legacy configuration is registered behind the cleaned entries iff none of them addresses its place |
| StorageLaws.GivenDefault | store/storage.go:59-86 | A given default is the default iff it is listed; else the first entry, or Local on an empty registry |
| StorageLaws.DeclaredDefault | store/storage.go:59-86 | With none given: the first entry of the named type (Local when unspecified, the legacy configuration's place when S3), Local and Database being added if absent |
| DriverCache.StepKeepsInvariant | store/storage.go:270-327 | Every critical section keeps the cache fresh and every request served what it asked for |
| DriverCache.EveryRunIsFresh | store/storage.go:270-327 | So does every interleaving of requests and resets |
| DriverCache.GenerationCountsResets | store/storage.go:322-327 | The generation counts the resets |
| DriverCache.HitAfterResetIsNew | store/storage.go:270-327 | After a reset, a cached driver fits its key and was begun since |
| DriverCache.GenerationCheckNeeded | store/storage.go:294-302 | Without the generation check a construction begun before a reset would survive it |
| DriverCache.OthersUntouched | store/storage.go:270-327 | A step changes only its own caller's request, a reset none |
| DriverCache.CacheChangesIff | store/storage.go:294-327 | A key is cached after a step iff it was and no reset came, or a driver of the present generation was inserted under it; a cached driver is not replaced |
| DriverCache.CachedUntilReset | store/storage.go:270-309 | In every run without a reset a cached driver stays |
| DriverCache.AskAnswers | store/storage.go:270-288 | A request is answered with a new driver when its entry has no identifier, else with the cached one, else misses |
| DriverCache.MissIsCached | store/storage.go:284-308 | A miss that nothing interrupts ends with its driver cached and served |
| DriverCache.LateInsert | store/storage.go:294-308 | When another request cached first, its driver is served; after a reset the request's own, uncached |
| DriverCache.FailureReleases | store/storage.go:290-293 | A failed construction caches nothing and its caller may ask again |
| MemoTree.TreeIsReachable | store/memo_history.go:156-172 | The closure is exactly the memos reachable over COMMENT rows |
| MemoTree.MemoCommentTree | store/memo_history.go:156-172 | The work list ends on every finite graph, cycles included, with the root first and each reachable memo once |
| MemoTrash.Store.SoftDeleteMemoSet | store/memo_history.go:192-203 | The live memos of the tree, and no others, get the timestamp |
| MemoTrash.Store.RestoreDeletedMemo | store/memo_history.go:206-257 | Refused in the code's order of checks, else exactly the tree's memos carrying the root's timestamp are cleared |
| MemoTrash.RestoreOutcomeIff | store/memo_history.go:206-243 | Done iff the actor is active, wrote the memo or is an administrator acting as one, the memo is in the trash and every parent is live; when it is refused how |
| MemoTrash.DeletedIff | store/memo_history.go:192-203 | Exactly the unmarked memos reached over comment edges are marked; all else stays |
| MemoTrash.RestoredIff | store/memo_history.go:243-257 | Exactly the memos reached that carry the target's timestamp are unmarked; all else stays |
| MemoTrash.DeleteKeepsInvariant | store/memo_history.go:192-203 | Deleting with a non-decreasing clock keeps trashed children no later than trashed parents |
| MemoTrash.RestoreKeepsInvariant | store/memo_history.go:206-257 | An allowed restore keeps it too |
| MemoTrash.TrashedBelow | store/memo_history.go:192-257 | Everything below a trashed memo is trashed, no later than it |
| MemoTrash.EveryRunKeepsInvariant | store/memo_history.go:192-257 | Every run of creations, references, deletions and restores keeps the invariant |
| MemoTrash.LiveCommentsHaveLiveParents | store/memo_history.go:192-257 | From an empty store, a live comment always has a live parent and deletion times never grow downward |
| MemoTrash.DeleteThenRestoreIff | store/memo_history.go:192-257 | Deleting a live memo and restoring it gives back the exact memos iff none of its tree already carried that timestamp; the parents never block it |
| MemoRevision.History.CaptureMemoRevision | store/memo_history.go:37-90 | The tables become `Captured` of their old values, unchanged on failure; field by field, `CaptureCorrect` |
| MemoRevision.DeletesUpTo | store/memo_history.go:73-87 | Deleting from the threshold down leaves exactly the memo's later revisions and all of other memos' |
| MemoRevision.CaptureCorrect | store/memo_history.go:37-90 | A due snapshot holds the memo's former content, payload text, visibility and editor, the actor, the time, the memo and the next identifier; the memo keeps its newest revisions up to the limit, every other revision and memo is unchanged, and the memo's editor becomes the actor |
| MemoRevision.CaptureHappensIff | store/memo_history.go:37-58 | Refused iff history applies and the memo is missing or trashed; nothing happens iff it does not apply or neither content nor title changes; else a capture |
| MemoRevision.OfIs | store/memo_history.go:60-66 | A memo's history is its entries of the table, in order |
| MemoRevision.EveryRunIsTidy | store/memo_history.go:33-68 | In every run of unforced captures, whatever the clock does, one user's neighbouring snapshots of a memo are at least the merge window apart |
| TagScanner.ContainsCodePoint | internal/markdown/parser/tag.go:26-41 | Binary search over sorted disjoint ranges finds the rune iff some range holds it |
| TagScanner.MatchFullyQualifiedEmoji | internal/markdown/parser/tag.go:78-95 | The length of an emoji of the table at the front, or zero; no entry that ends at a rune boundary within the limit is longer |
| TagScanner.EmojiLongest | internal/markdown/parser/tag.go:78-95 | Every table entry at the front that ends at a rune boundary within the limit is no longer than the match |
| TagScanner.ScanTagSegment | internal/markdown/parser/tag.go:97-168 | The scan takes and emits exactly `Segment` |
| TagScanner.ScanTagIdentifier | internal/markdown/parser/tag.go:170-187 | Segments joined by slashes, up to the first that fails |
| TagScanner.FindTagMatches | internal/markdown/parser/tag.go:229-260 | All matches from the front, skipping emoji, references, escapes and other runes |
| TagScanner.SubsequenceFull | internal/markdown/parser/tag.go:97-168 | A tag value as long as its spelling is its spelling |
| TagScanner.SegmentEmits | internal/markdown/parser/tag.go:97-168 | A segment's value is its source bytes with some left out |
| TagScanner.IdentifierEmits | internal/markdown/parser/tag.go:170-187 | So is a whole identifier's, with its slashes |
| TagScanner.MatchesWellPlaced | internal/markdown/parser/tag.go:229-260 | Matches are in bounds, strictly increasing and disjoint, each begins at `#`, and its value is what its spelling emits |
| TagLaws.EncodedDecodes | internal/markdown/parser/tag.go:57-60 | Reading the UTF-8 encoding of any rune yields the rune and its width, whatever follows |
| TagLaws.DecodedEncodes | internal/markdown/parser/tag.go:57-60 | Whatever is read as well-formed is the encoding of the rune read |
| TagLaws.ReferenceIff | internal/markdown/parser/tag.go:189-227 | A character reference of n bytes is found iff `&#` with 1 to 7 digits, `&#x` with 1 to 6 hexadecimal ones, or a known name of up to 32 letters and digits stands there, closed by `;` |
| TagLaws.OpeningIs | internal/markdown/parser/tag.go:97-135 | A segment begins at the first rune that is neither ignorable nor a combining mark, if that is `-`, `+`, `&` or a word character |
| TagLaws.ContinuationIs | internal/markdown/parser/tag.go:137-168 | A segment takes exactly `-`, `+`, `&`, the identifier table's runes, an apostrophe between words, and ignorable runes, which alone are not emitted |
| TagLaws.OtherBytesAre | internal/markdown/parser/tag.go:102-150 | An emoji is taken and emitted whole; a reference or a malformed byte ends the segment |
| TagLaws.PunctuationIs | internal/markdown/parser/tag.go:241-244 | Escapable punctuation is the printable ASCII that is neither letter nor digit |
| TagLaws.SkippedIs | internal/markdown/parser/tag.go:229-250 | A tag may begin only at a `#` that begins no emoji; what else is passed over, and how far |
| TagLaws.EscapedHashIsNoTag | internal/markdown/parser/tag.go:241-244 | A `#` behind a backslash begins no tag |
| TagSplice.FoundMatchesPlaced | internal/markdown/extensions/tag.go:93-124 | Found matches never start in the segment's padding and lie inside its span |
| TagSplice.PiecesSpellSegment | internal/markdown/extensions/tag.go:93-134 | The text and tag pieces concatenate to the original segment, padding included |
| TagSplice.Parent.ReplaceTagsInText | internal/markdown/extensions/tag.go:93-124 | The text node is replaced by its pieces and the parent's text does not change |
| TagSplice.Parent.SplitAround | internal/markdown/extensions/tag.go:100-123 | Inserting before the node and then removing it leaves exactly the pieces in its place |
| TagSplice.ReplacementSpells | internal/markdown/extensions/tag.go:93-134 | Replacing a node leaves the parent's text as it was |
| TagSplice.LineBreaksSurvive | internal/markdown/extensions/tag.go:120-134 | The node's line break is on the last piece and nowhere else |
| TagSplice.PiecesAreNeeded | internal/markdown/extensions/tag.go:93-134 | The pieces are tags and texts that read something or break the line, raw where the node was |
| TagRename.SortOrders | internal/markdown/markdown.go:580 | Sorting disjoint ranges puts exactly them in order |
| TagDocument.NodeTagsInPlace | internal/markdown/extensions/tag.go:93-124 | The tag nodes of a text node lie left to right inside its span, none overlapping, each reading its spelling there from `#` on |
| TagDocument.DocumentTagsApart | internal/markdown/extensions/tag.go:93-124 | The tag nodes of all text nodes over disjoint spans are pairwise disjoint |
| TagDocument.RenameRangesDisjoint | internal/markdown/markdown.go:562-580 | So are the ranges any rename collects, and each tag is spelled in the source |
| TagDocument.RenameInDocument | internal/markdown/markdown.go:550-592 | Any document's tags can be renamed by the splice of those ranges |
| TagRename.RenameTag | internal/markdown/markdown.go:550-592 | The output is the splice of the ranges of the old tag, in any walk order |
| TagRename.Splice | internal/markdown/markdown.go:581-591 | The moving cursor writes exactly the splice |
| TagRename.SplicedIsReplacement | internal/markdown/markdown.go:580-591 | The one-pass splice equals replacing each range by `#newTag` on its own: every other byte stays, in order |
| TagRename.RenameTwice | internal/markdown/markdown.go:550-592 | Renaming the renamed tags is renaming the original ones |
| TagRename.SameSpellingIsIdentity | internal/markdown/markdown.go:550-592 | Writing back the spelling that is there changes nothing |
| TagRename.RenameRoundTrip | internal/markdown/markdown.go:550-592 | Renaming there and back restores a source whose tags are spelled exactly as the tag |
| TagRename.AppendTagHierarchy | internal/markdown/markdown.go:156-165 | The value's slash prefixes and the value are appended |
| TagRename.AncestorsExactly | internal/markdown/markdown.go:156-165 | Those are exactly its ancestors, shortest first |
| TagRename.AncestorsClosed | internal/markdown/markdown.go:156-165 | They are closed under taking ancestors |
| TagLocality.EmojiLocal | internal/markdown/parser/tag.go:78-95 | An emoji at the front is found alike whatever follows the text, if that begins with a byte no emoji continues with |
| TagLocality.IdentifierLocal | internal/markdown/parser/tag.go:97-187 | What follows a closing byte has no part in the identifier before it |
| TagLocality.MatchesShift | internal/markdown/parser/tag.go:229-260 | The scan from a position on sees only the bytes from there on |
| TagLocality.ScanSplits | internal/markdown/parser/tag.go:229-260 | At such a byte the matches of a text are those of both parts |
| TagRescan.MatchStops | internal/markdown/parser/tag.go:97-260 | A match begins at a `#` where no emoji does, and no emoji begins where it ends |
| TagRescan.RenameInText | internal/markdown/markdown.go:550-592 | Renaming the tag nodes of a text splices the ranges of the old tag |
| TagRescan.RenamedTags | internal/markdown/markdown.go:550-592 | Where the old tag is delimited, the renamed text holds the tags of the text, in order, with whatever `#newTag` scans as in place of the old one |
| TagRescan.RenamedTagsIff | internal/markdown/markdown.go:550-592 | So the old tag is replaced by the new one iff `#newTag` on its own is the new tag or the text did not hold the old one |
| TagRescan.NewTagRanges | internal/markdown/markdown.go:550-592 | The matches of a tag new to the text stand exactly where the splice put it |
| TagRescan.RenameTextTwice | internal/markdown/markdown.go:550-592 | Renaming to a tag new to the text, and that tag as the renamed text is scanned, is renaming at once |
| TagRescan.UndelimitedTagGrows | internal/markdown/parser/tag.go:137-162 | A concrete renamed tag that takes the apostrophe and letter behind it |
| TtlCache.Cache.SetWithTTL | store/cache/cache.go:98-120 | The counter stays exact, the capacity is respected, and an overfull map loses a threshold of entries none of which outlives a survivor |
| TtlCache.Cache.Get | store/cache/cache.go:123-147 | A hit is the latest value written and not since deleted, unexpired; an expired entry is dropped |
| TtlCache.Cache.Delete | store/cache/cache.go:150-160 | Removes the key, counting it once |
| TtlCache.Cache.Clear | store/cache/cache.go:163-179 | Empties the map and the counter |
| TtlCache.Cache.Cleanup | store/cache/cache.go:218-250 | Drops exactly the expired entries |
| TtlCache.Cache.CleanupOldest | store/cache/cache.go:253-313 | Evicts the threshold's worth of first-expiring entries, whatever the visiting order |
| TtlCache.SelectOldest | store/cache/cache.go:264-296 | The candidate buffer ends with entries none of which expires after one left out |
| TtlCache.ReplaceOldest | store/cache/cache.go:282-293 | Replacing the newest candidate by an older entry keeps that |
| TtlCache.OldestEvicts | store/cache/cache.go:298-312 | Removing the candidates removes exactly the threshold of entries |
| TtlCache.EvictionOutcome | store/cache/cache.go:253-313 | An entry surely survives when enough others expire strictly earlier, and is surely evicted, even if just written, when too few expire no later |
| TtlCache.ThresholdFits | store/cache/cache.go:253-262 | An eviction removes a fifth of the capacity, rounded down, and at least one |
| TtlCache.SurvivorsKept | store/cache/cache.go:298-312 | It leaves exactly that many fewer entries, each as it was |
| PlusMigrator.Migrator.InitLedger | store/plus_migrator.go:51-68 | A fresh database counts every file as applied, another stays as it is |
| PlusMigrator.Migrator.ApplyPlusMigrations | store/plus_migrator.go:70-132 | The loops over files and statements reach `ApplyAll`, stopping anywhere the budget ends |
| PlusMigrator.FileAdvances | store/plus_migrator.go:78-130 | A file enters the ledger only after all its objects exist |
| PlusMigrator.RunReaches | store/plus_migrator.go:70-132 | A run keeps what it found, adds only pending objects, and adds them all unless cut short |
| PlusMigrator.InterruptedRunsConverge | store/plus_migrator.go:70-132 | Any number of interrupted runs followed by one that finishes reach the schema and ledger of one uninterrupted run |
| PlusMigrator.GuardedStatementsRunOnce | store/plus_migrator.go:91-120 | Over all runs together each ADD COLUMN and CREATE INDEX is executed at most once |
| PlusMigrator.NoneExecutedTwice | store/plus_migrator.go:91-120 | Entry by entry: no two of the log add the same column or create the same index |
| PlusMigrator.ProducesIff | store/plus_migrator.go:98-116 | A statement adds column c to table t iff it reads so with at least seven words, creates index i iff with at least four; only these are looked up first |
| PlusMigrator.ObjectsApart | store/plus_migrator.go:98-116 | Different statements leave one object only when both name the same column of a table or the same index |
| PlusMigrator.WritesSpendBudget | store/plus_migrator.go:70-132 | Every statement executed and every ledger entry takes one write, and a run stops early only when none is left |
| DailyQuestionSeed.WithSeedDecodes | store/daily_question.go:36-56 | The row an initialiser writes decodes to its seed |
| DailyQuestionSeed.SeedNeverChanges | store/daily_question.go:60-124 | No enabled step changes a non-empty durable seed |
| DailyQuestionSeed.StepKeepsAgreement | store/daily_question.go:60-124 | Whoever succeeded holds the durable seed |
| DailyQuestionSeed.EveryRunAgrees | store/daily_question.go:60-124 | That holds over every interleaving |
| DailyQuestionSeed.SuccessesAgree | store/daily_question.go:60-124 | From any row, all initialisers that succeed return the one durable seed |
| DailyQuestionSeed.InitialisersKeepFields | store/daily_question.go:60-124 | No initialiser step touches another field |
| DailyQuestionSeed.RunKeepsFields | store/daily_question.go:60-124 | While only initialisers write, unrelated fields survive the whole run |
| DailyQuestionSeed.InitialisersFinishInTwoRounds | store/daily_question.go:60-124 | While only initialisers write, nobody passes the second round, and a failure means the stored row cannot be decoded |
| DailyQuestionSeed.SecondReadSucceeds | store/daily_question.go:60-124 | The second round's read returns the durable seed |
| DailyQuestionSeed.TwoRoundsSuffice | store/daily_question.go:60-124 | Started on any row with no other writer, every initialiser needs two reads at most and fails only on a row that cannot be decoded |
| DailyQuestionSeed.DecodedIs | store/daily_question.go:36-56 | The seed is the text under the current spelling, or under the older one where the current holds none; a deciding field that is no text cannot be decoded |
| DailyQuestionSeed.OlderSpellingIsRead | store/daily_question.go:44-54 | A seed under `daily_question_seed` alone is read |
| DailyQuestionSeed.ReadIs | store/daily_question.go:60-88 | A read returns a seed that is there, draws one where there is none, fails on an undecodable row, and gives up after eight rounds |
| DailyQuestionSeed.WriteIs | store/daily_question.go:89-123 | A write stores the seed iff the row is still the one read |
| DailyQuestionSeed.UndisturbedSucceeds | store/daily_question.go:60-124 | An initialiser alone with a row that holds no seed stores its own |
| CronSchedule.ParsedFieldCorrect | internal/scheduler/parser.go:129-225 | An accepted field matches exactly the values it denotes, all within bounds |
| CronSchedule.FieldAcceptedIff | internal/scheduler/parser.go:129-187 | A field is accepted iff it is `*`, a step between 1 and the greatest value, or names some value and only values within its bounds |
| CronSchedule.ExpressionAcceptedIff | internal/scheduler/parser.go:30-89 | An expression is accepted iff every field is, within seconds and minutes 0-59, hours 0-23, days 1-31, months 1-12 and weekdays 0-7 |
| CronSchedule.RunsOnWholeUnits | internal/scheduler/parser.go:92-98 | Candidates are whole minutes, or whole seconds with a seconds field |
| CronSchedule.ExpressionSelects | internal/scheduler/parser.go:30-127 | An accepted expression selects the instants whose fields its parts denote, day of month or weekday sufficing |
| CronSchedule.StartIsNext | internal/scheduler/parser.go:92-98 | The search starts at the first aligned instant strictly after the input |
| CronSchedule.Next | internal/scheduler/parser.go:92-118 | The least aligned matching instant strictly after the input, or none iff no aligned instant before the horizon matches |
| CronSchedule.RunsIff | internal/scheduler/parser.go:30-127 | An accepted expression selects some clock of some year iff its weekday field names a value up to 6 or its month and day fields allow some date |
| CronSchedule.UnsatisfiableNeverRuns | internal/scheduler/parser.go:92-118 | Otherwise every search over valid clocks returns the zero time |
| CronSchedule.FebruaryThirtiethNeverRuns | internal/scheduler/parser.go:117-118 | Such an expression is accepted |
| CronSchedule.SearchFindsIff | internal/scheduler/parser.go:92-118 | Over a calendar whose window shows every date but 29 February and every weekday of every month, at every time, the search succeeds iff the expression names a weekday up to 6, or allows a date other than 29 February, or a selected 29 February lies in the window |
| CronCalendar.DateOfDayNumber | internal/scheduler/parser.go:120-127 | Days and Gregorian dates correspond one to one |
| CronCalendar.UtcCovers | internal/scheduler/parser.go:92-118 | Every four-year window of UTC is such a window |
| CronCalendar.NoneDueIff | internal/scheduler/parser.go:100-118 | No selected 29 February lies in a window iff it starts in the gap around a common century year |
| CronCalendar.UtcSearchFindsIff | internal/scheduler/parser.go:92-118 | In UTC the search succeeds iff the expression names a weekday up to 6, or allows a date other than 29 February, or allows that one and the search does not start in such a gap |
| CronCalendar.NextUtc | internal/scheduler/parser.go:92-118 | Exactly then the search returns an instant, and it is the least selected one |
| CronCalendar.LeapDayNotFound | internal/scheduler/parser.go:100-118 | `0 0 29 2 7` is accepted and satisfiable, and no search from March 2096 to the last minute of February 2100 finds an instant |
| CronSchedule.SundayReadingIff | internal/scheduler/parser.go:82-86 | The weekday field reads 0 and 7 as Sunday on every day of the week iff it does not name 7 or names 0 too |
| CronSchedule.WeekdayIrrelevantIff | internal/scheduler/parser.go:121-127 | At an instant the weekday field makes no difference iff another field fails there or the day of month matches |

## Left out

- FilterSource.BuildCorrect: one direction, under `Faithful`. Each inexact case it excludes has its own exact condition
  (listed above); whether one of them shows in a whole expression depends on the values of its other operands. That a
  JSON boolean is compared with a boolean constant is what CEL's type checker and the renderer insist on.
- FilterMeaning.StatementCorrect: assumes that float literals satisfy `TruncationExact`, the exact condition for a
  single comparison over all integers, and that folding is per character and fixes the LIKE metacharacters.
- FilterConstants.ArithFoldIff: doubles are exact reals, so rounding of CEL's own double arithmetic is not modelled.
- StorageHousing.HousedIff: the accepted setting is meant, before the further normalisation made when it is stored;
  `UpdateHousesEveryStorage` covers that one for canonical registries.
- StorageDefault.RequestedDefaultKept: one direction, under `Undisturbed`; `DefaultFollowed` is exact for every accepted
  update.
- TagRescan.RenamedTagsIff: one text node, its occurrences delimited; how goldmark splits the renamed source into text
  nodes is not part of this model.
- MemoTrash.EveryRunKeepsInvariant: memos are never purged, each comment has the one parent it was created under, and
  the deletion clock does not go back.
- CEL parsing and type checking, detection of comprehension macros, regular expressions, and parsing of times and
  durations: expressions arrive as trees, and the parsers are functions of the context. Durations are whole seconds.
- SQL as text: quoting, grammar and typing.
- Collations and full Unicode folding, null elements in tag lists, float literals outside the 64-bit range, and
  comparisons of two row expressions, which the renderer rejects.
- Null entries and shared pointers in the storage list: entries are values, settings are objects. Unknown storage types
  and hash collisions.
- The drivers' construction, the lock itself, and the cost of building a driver twice.
- The tables behind the memo operations: a transaction is one step, queries read sequences and maps. Purge, attachments
  and notifications are not part of this model.
- goldmark's parser, the merging of adjacent text nodes, and the Unicode, emoji and HTML entity tables. The loops of
  `scanTagSegment`, `scanTagIdentifier` and `FindTagMatches` are split into one method per step, and the length of a
  character reference is a function.
- Interleavings inside cache operations (the counter is exact only for whole operations), the eviction callback, and
  size estimates. The candidate buffer of `cleanupOldest` is a sequence updated functionally.
- The text of migration files: a statement is its list of words. The sample seed step counts as one idempotent
  statement. The backup before migrating is not part of this model.
- Which random seed is drawn, JSON syntax (a stored payload that does not parse also fails a revision capture), and
  the SQL of the compare-and-swap.
- CronSchedule.SearchFindsIff: the calendar shows every time on every date, as UTC does. Zones with daylight saving skip
  some, and are otherwise not part of this model.
- HTTP handlers, access policies, object storage clients, email, webhooks, OAuth, AI adapters and the web client.
