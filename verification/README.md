# Verified models of Blastoise's decision procedures

Blastoise decides what a Postgres migration will do before it runs. Between its SQL parser and its report sit small
procedures whose answers people act on: which files are migrations, whether a type change rewrites a table, whether a
default is volatile, which locks a statement takes, what a log line may show, which comment a pull request carries, and
which bytes a signature covers. This project models those procedures and proves that each agrees with a simple
statement of what it is for, on every input.

Where the source works step by step (index-driven scanners, growing sets, page loops, objects with fields) the model is
a method or a class with the same loops and branches, proved against a function or a predicate; where the source is
expressions and recursion the model is functions. The lemmas are about those functions and predicates.

| modules | what they are about | main results |
|---|---|---|
| `Regex`, `Glob`, `GlobMeaning`, `GlobExact`, `GlobText`, `Detect` | `ci/detect.py` | the compiled regex of a glob accepts a path exactly when the path matches segment by segment the tokens that the glob's text spells, and exactly which globs this holds for; detection is a function of the set of normalised paths |
| `TypeChange`, `TypeValues`, `TypeChangeSound` | `live/typechange.py` | the growth rules are exact for the values of each family; verdicts are sound, and exact within and between types, in UTC and for domains; exactly when a missing fact or an implied typmod makes them unsound |
| `Volatility`, `VolatilityMeaning`, `VolatilityNames` | `volatility.py`, `live/resolve.py` | evaluator, collector and shortcut agree for every expression tree, and the lists of names decide the answer as they should |
| `Redaction`, `ConnInfo`, `ConnInfoSpace`, `ConnInfoMalformed` | `ci/redact.py` | exactly which secrets can never survive scrubbing; the connection-string tokenizer undoes printing, and exactly which settings it reads as libpq does |
| `Transactions`, `Baseline` | `parser.py` | transaction grouping refines a two-state machine; the baseline scan is its declarative claim |
| `LockModel`, `LockLoader`, `LockCatalog`, `LockResolve`, `LockResolveMeaning` | `catalog/*.py` | a catalog that loads answers every lookup, and with which row; resolution of nested DO blocks, and which relation each lock is on |
| `Markdown`, `Comments`, `ChangedFiles`, `Pages` | `ci/markdown.py`, `ci/github.py`, `ci/runner.py` | over whole runs a pull request carries at most one report comment, and exactly when that fails |
| `JsonText`, `Json`, `Signing`, `SignedReports` | `report/serialize.py`, `report/sign.py`, `cli.py` | canonical text is read back exactly; a signed, written and loaded report verifies |
| `KeyWindow`, `Calibration` | `classify.py`, `validation/harness/calibration.py` | a reported key window confines the rows between its operands, and exactly when that excludes anything; the drift curve's shape |
| `Options`, `Text`, `Sequences`, `Sorting` | shared vocabulary | option and result types, Python's `str` methods, sorting |

Some promises do not hold on every input. The model then follows the code, a lemma stands at an input where the
promise fails, and another gives the exact condition under which it holds:

| promise | holds exactly when | an input where it fails |
|---|---|---|
| a glob means segment-by-segment matching | no bracket can match a separator (`GlobExact.MeansSegmentsIff`) | `GlobExact.NegatedBracketCrossesSeparator` |
| a normalised path stays as it is when normalised again | the text is not a run of `./`s and `/`s followed by `./` behind a `/`, or by white space (`Detect.NormalizeTwice`) | `Detect.NormalizeTwiceExample` |
| a missing fact about a type change gives UNKNOWN | see `TypeChangeSound.MissingDomainFactsAreGuessed` for the three domain facts that are guessed | `TypeChangeSound.GuessExample`, `TypeChangeSound.TypmodGuessExample` |
| NO_REWRITE is right for names without a typmod | the name implies none, or the column already has the implied one (`TypeChangeSound.ImpliedTypmodIsLost`) | `TypeChangeSound.BareCharLosesItsLength` |
| every known secret is gone after scrubbing | the secret cannot overlap the placeholder (`Redaction.AlwaysGoneIffClear`) | `Redaction.WordInsidePlaceholderIsNotClear` |
| a push leaves one comment, or none without migrations | the existing comment is among the first 2000 (`Comments.SecondCommentIffOutOfReach`, `Comments.StaleCommentIffOutOfReach`) | `Comments.OutOfReachExample` |
| a key window bounds its column on both sides | neither operand mentions the column (`KeyWindow.ExcludesIff`, `KeyWindow.WindowExcludesIff`) | `KeyWindow.FloorExamples` |
| every column bounded on both sides is a key window | no conjunct compares two columns (`KeyWindow.ReportIsCompleteIff`) | `KeyWindow.ColumnChainIsMissed` |
| a connection string is read as libpq reads it | no key or bare value holds white space that only Python knows (`ConnInfoSpace.ReliableIff`) | `ConnInfoSpace.NoBreakSpaceEndsTheValue` |
| verification ends in a verdict | no float stands outside the signature block, or the block is not in order (`SignedReports.RaisesIffFloat`) | `SignedReports.FloatRaises` |

The guessed domain facts cannot come from the repository's own producer: `_gather_type_change`
(`src/blastoise/live/introspect.py:1393-1440`) makes all facts about the target type available together or not at all,
and without the type itself the verdict is UNKNOWN. Only a direct caller of `assess_type_change` can supply such facts.
The implied length of a bare `char` does reach the program.

`dafny verify dfyconfig.toml` checks the whole project.

## Model

| member | source | states |
|---|---|---|
| Glob.NormalizePath | src/blastoise/ci/detect.py:210-220 | the loop that strips `./` prefixes computes the normal form of a path |
| Glob.TokenAt | src/blastoise/ci/detect.py:245-278 | a token always advances and stays inside the glob, and is a separator exactly on `/` |
| Glob.ScanPart | src/blastoise/ci/detect.py:245-278 | one turn of the scanner writes the regex part of the token at the index and moves past the text it stands for |
| Glob.CompileAt | src/blastoise/ci/detect.py:244-279 | the scanner's turns, one after the other, are the compilation of the token list: a `**` swallows the separator after it |
| Glob.GlobToRegex | src/blastoise/ci/detect.py:234-280 | the index loop terminates and produces the compiled parts of the normalised pattern |
| GlobMeaning.MatchDirectories | src/blastoise/ci/detect.py:249-255 | `(?:[^/]+/)*` before a rest means: stop here, or take exactly one more nonempty directory |
| GlobMeaning.CompiledMeansSegments | src/blastoise/ci/detect.py:234-280 | for `**` in whole segments and brackets that exclude `/`, the regex accepts a newline-free path iff the path matches segment by segment |
| GlobExact.ShortestAccepted | src/blastoise/ci/detect.py:234-280 | every glob's regex accepts the path that chooses one character per token and nothing for stars |
| GlobExact.PathNeeds | src/blastoise/ci/detect.py:234-280 | a path that matches segment by segment has at least one non-separator character per one-character token |
| GlobExact.MeansSegmentsIff | src/blastoise/ci/detect.py:234-280 | such a glob means segment-wise matching on all paths iff none of its brackets can match a separator |
| GlobExact.NegatedBracketCrossesSeparator | src/blastoise/ci/detect.py:263-274 | `[!b]` accepts the path `/`, which has two segments |
| GlobExact.SegmentsOfText | src/blastoise/ci/detect.py:234-280 | if no bracket has a separator written inside it, the segments of the token list are the tokens of the text between separators |
| GlobExact.PlainGlobMeansSegments | src/blastoise/ci/detect.py:234-280 | a pattern whose brackets neither hold nor match a separator, end to end: normalised, cut at `/`, each piece lexed alone (which `GlobText.LexIff` describes), matched against the path's pieces |
| GlobText.LexIff | src/blastoise/ci/detect.py:245-278 | the tokens of a glob are exactly those its text spells: `*`, `**`, `?`, `[body]`, `[!body]`, `[^body]`, and any other character for itself, an unclosed `[` included |
| GlobText.EveryPatternIsSpelled | src/blastoise/ci/detect.py:245-278 | every text spells exactly one token list |
| GlobText.SegmentMatchesIff | src/blastoise/ci/detect.py:256-278 | a segment matches iff it can be cut into the texts its tokens take: any text for `*`, one character other than `/` for `?`, one listed character for `[body]`, one not listed for `[!body]` |
| GlobText.PathMatchesIff | src/blastoise/ci/detect.py:249-255 | a path matches iff every `**` before a segment skips some nonempty directories, a final `**` takes the rest, and every other segment is taken by one segment |
| GlobText.PatternMeansItsText | src/blastoise/ci/detect.py:234-280 | the whole compiler against the text of the pattern: for whole-segment `**` and brackets that take no separator, a newline-free path is accepted iff its segments are taken by the tokens the pattern spells |
| Detect.FirstRuleWins | src/blastoise/ci/detect.py:223-231 | the answer is the first matching layout's, and there is none exactly when no layout matches |
| Detect.LastIndexOf | src/blastoise/ci/detect.py:334-337 | the last occurrence, or -1 when there is none; decides where a file extension starts |
| Detect.CompileGlobs | src/blastoise/ci/detect.py:283-284 | each glob is compiled, in order |
| Detect.AnyAccepts | src/blastoise/ci/detect.py:287-288 | true iff some glob of the list accepts the path |
| Detect.Classify | src/blastoise/ci/detect.py:310-330 | a path is kept iff it passes the includes (or, without any, a layout) and no exclude, and is described by its layout or its extension |
| Detect.DetectMigrations | src/blastoise/ci/detect.py:291-331 | the result is strictly sorted by path, free of duplicates, and holds exactly the selected normalised paths |
| Detect.DetectionIsASetFunction | src/blastoise/ci/detect.py:291-331 | order and repetition of the inputs do not matter |
| Detect.ReportedIff | src/blastoise/ci/detect.py:310-330 | a path is reported iff it is nonempty, an include accepts it (or, without includes, some layout matches it) and no exclude accepts it, said with the lists' positions |
| Detect.ReportedAs | src/blastoise/ci/detect.py:317-330 | a reported file has the framework and kind of the first layout that matches it; without one it is `configured`, and code iff its last characters are one of the known extensions in any case |
| Detect.ConfiguredKindIff | src/blastoise/ci/detect.py:334-337 | the last dot and slash find that extension: an ending, with no further dot and no slash |
| Detect.ExcludeOnlyRemoves | src/blastoise/ci/detect.py:291-331 | another exclude glob removes exactly what it accepts and changes nothing else |
| Detect.IncludeOnlyAdds | src/blastoise/ci/detect.py:291-331 | another include glob on a nonempty list keeps every file, and adds only files it accepts |
| Detect.NormalizedShape | src/blastoise/ci/detect.py:210-220 | no backslash, leading separator or trailing white space is left |
| Detect.NormalizeTwice | src/blastoise/ci/detect.py:210-220 | normalising again changes nothing iff the trimmed text, read with forward slashes, is not a run of `./`s and then `/`s followed by `./` (after a `/`) or by white space |
| Detect.NormalizeTwiceExample | src/blastoise/ci/detect.py:210-220 | `/./a` becomes `./a`, and that becomes `a` |
| Detect.DotSlashIsIgnoredIff | src/blastoise/ci/detect.py:210-220 | a path and the same path behind `./` or `.\` have one normal form iff the path is blank or has no leading white space |
| TypeValues.RoundDivMultiple | src/blastoise/live/typechange.py:132-169 | rounding to a unit is the identity exactly on multiples of the unit |
| TypeValues.AllowedIsIdentity | src/blastoise/live/typechange.py:236-252 | where growth is allowed the new length, precision or scale leaves each stored value as it is |
| TypeValues.LostValue | src/blastoise/live/typechange.py:236-252 | where growth is not allowed some stored value is changed or refused |
| TypeValues.GrowthExact | src/blastoise/live/typechange.py:99-169 | for every family the growth rule says yes iff the coercion is the identity on all values of the old type, iff the new type contains the old one |
| TypeValues.GrowthIsAPreorder | src/blastoise/live/typechange.py:236-252 | growth is reflexive and transitive |
| TypeChangeSound.NoRewriteIsSound | src/blastoise/live/typechange.py:255-451 | NO_REWRITE on consistent facts: cast, typmod coercion and domain check together return every stored value unchanged and never fail |
| TypeChangeSound.SessionTzVerdictIsExact | src/blastoise/live/typechange.py:335-360 | the session-time-zone verdict: no value changes iff the zone offset is zero at every stored instant |
| TypeChangeSound.UnknownIffNotKnown | src/blastoise/live/typechange.py:264-305 | UNKNOWN iff there is no USING and one of the six checked facts is missing or a spelling is not understood; a USING is REWRITE whatever the facts |
| TypeChangeSound.FamilyVerdictIsExact | src/blastoise/live/typechange.py:362-406 | within one family of plain columns the verdict is NO_REWRITE iff no stored value can change or be refused, else REWRITE |
| TypeChangeSound.UtcVerdictIsExact | src/blastoise/live/typechange.py:335-360 | between timestamp and timestamptz, on every server version: the session-time-zone verdict iff the version is 12 or later and no value would change in UTC, else REWRITE |
| TypeChangeSound.SameBaseVerdictIsExact | src/blastoise/live/typechange.py:362-406 | within one base type and for a plain target the verdict is NO_REWRITE iff the facts guarantee that rows are left alone, but for one conservative case (a typmod over a domain column), else REWRITE |
| TypeChangeSound.PlainTargetIff | src/blastoise/live/typechange.py:410-431 | between different base types the facts guarantee that rows are left alone iff the cast is binary and any typmod is known to change nothing |
| TypeChangeSound.PlainVerdictIsExact | src/blastoise/live/typechange.py:410-451 | there the verdict is NO_REWRITE iff the facts guarantee it, but for one conservative case (a written typmod), else REWRITE |
| TypeChangeSound.DomainTargetIff | src/blastoise/live/typechange.py:306-333 | for a change to a domain the facts guarantee that every change they describe leaves the rows alone iff they rule out constraints, NOT NULL, a conversion and (unless the source has no narrower typmod) a typmod |
| TypeChangeSound.DomainVerdictIsExact | src/blastoise/live/typechange.py:306-333 | with every fact gathered, a domain target is NO_REWRITE iff the facts guarantee that the rows are left alone, but for one conservative case (a domain typmod over the narrowest source), else REWRITE |
| TypeChangeSound.MissingDomainFactsAreGuessed | src/blastoise/live/typechange.py:264-333 | a NO_REWRITE verdict is safe for every change the facts describe iff the target is no domain, or its constraint count and NOT NULL flag were gathered and so was its typmod flag, unless the source is a plain column that no typmod of its family narrows |
| TypeChangeSound.GuessExample | src/blastoise/live/typechange.py:264-333 | facts without constraint count and NOT NULL flag for which the verdict is NO_REWRITE and unsafe |
| TypeChangeSound.TypmodGuessExample | src/blastoise/live/typechange.py:323 | facts without the typmod flag alone for which the verdict is NO_REWRITE and unsafe |
| TypeChangeSound.ImpliedTypmodIff | src/blastoise/live/typechange.py:362-424 | between plain columns, NO_REWRITE to a bare name that implies a typmod leaves rows alone iff the typmod is written, none is implied, or the column has it already, or the type's coercion happens to keep every stored value |
| TypeChangeSound.ImpliedTypmodIsLost | src/blastoise/live/typechange.py:362-424 | whatever that coercion does, the verdict is right iff one of the first three holds |
| TypeChangeSound.BareCharLosesItsLength | src/blastoise/live/typechange.py:195-197 | `char(10)` to bare `char`, which is `char(1)`, is described by facts judged NO_REWRITE although values are refused |
| Volatility.Combine | src/blastoise/volatility.py:152-158 | the worst of the parts, from CONSTANT up |
| Volatility.CombineInPlace | src/blastoise/volatility.py:152-158 | the loop computes that |
| Volatility.Collect | src/blastoise/volatility.py:221-263 | adds the unknown function names of an expression to the shared set, and nothing else |
| Volatility.CollectAll | src/blastoise/volatility.py:221-263 | the same over a list of arguments |
| Volatility.UnknownFunctionKeys | src/blastoise/volatility.py:208-218 | the collected names, each once and sorted |
| VolatilityMeaning.EvalShape | src/blastoise/volatility.py:291-386 | every construct's volatility is the worst of its own leaf and its parts |
| VolatilityMeaning.EvalIsWorstLeaf | src/blastoise/volatility.py:291-386 | the answer is the value of some reachable leaf and at least as bad as every leaf, under any mapping |
| VolatilityMeaning.CollectorFindsUndecidedLeaves | src/blastoise/volatility.py:208-263 | a name is collected iff an undecided call of that name is reachable |
| VolatilityMeaning.OnlyCollectedNamesMatter | src/blastoise/volatility.py:197-263 | mappings that agree on the collected names give the same answer |
| VolatilityMeaning.StaticAnswerIsFinal | src/blastoise/live/resolve.py:40-54 | a live fact never overrides a statically known volatility |
| VolatilityMeaning.StaysUnknownIff | src/blastoise/live/resolve.py:40-54 | an answer stays UNKNOWN iff nothing is volatile and there is an unrecognised construct, operator or nameless call, or an uncovered name |
| VolatilityMeaning.ResolvedFunctionVolatilities | src/blastoise/live/resolve.py:26-37 | the loop builds the mapping of decided functions |
| VolatilityMeaning.ResolvedIsLastDecided | src/blastoise/live/resolve.py:26-37 | a name maps to its last decided fact, and is absent when no fact decides it |
| VolatilityMeaning.DefaultInfoOf | src/blastoise/classify.py:283-290 | a recorded default holds the static answer, and the collected names exactly when that is UNKNOWN |
| VolatilityMeaning.DecideIsFullReevaluation | src/blastoise/live/resolve.py:40-54 | the early exits always give what full re-evaluation would |
| VolatilityNames.OperandsAreReached | src/blastoise/volatility.py:291-386 | every operand of every construct counts, but for the literal under a cast |
| VolatilityNames.VolatileCallDecides | src/blastoise/volatility.py:180-206 | one reachable call on the volatile list makes the answer VOLATILE under every mapping |
| VolatilityNames.UnlistedCallIsLookedUp | src/blastoise/volatility.py:161-206 | a reachable call on no list makes the answer at least what the mapping says of its whole dotted name, and UNKNOWN or worse when it says nothing |
| VolatilityNames.UnrecognisedIsUnknown | src/blastoise/volatility.py:291-386 | so does an unrecognised construct, or an operator that is not a single listed symbol |
| VolatilityNames.SettledAnswer | src/blastoise/volatility.py:180-206 | where every reachable call is listed and not volatile and nothing is opaque, the answer is STABLE iff a stable call or an SQL value function is reachable, else CONSTANT if there are only literals, else IMMUTABLE |
| VolatilityNames.WorstAnswersIff | src/blastoise/volatility.py:180-206 | VOLATILE iff a call on the volatile list, or an unlisted one mapped to it, is reachable; UNKNOWN iff none is and something of which nothing is known is reachable |
| VolatilityNames.KeyIsDottedName | src/blastoise/volatility.py:167-177 | the key of a call gives back the parts of its name when cut at the dots |
| Redaction.Redactor.Register | src/blastoise/ci/redact.py:193-198 | adds a literal once, keeps all others, longest first |
| Redaction.Redactor.AddSecret | src/blastoise/ci/redact.py:200-207 | registers exactly the trimmed value, if it is long enough and not a generic word |
| Redaction.Redactor.ScrubLiterals | src/blastoise/ci/redact.py:240-245 | skipping absent literals changes nothing, and no clear literal is left in the result |
| Redaction.NothingToReplace | src/blastoise/ci/redact.py:243-245 | replacing a literal that does not occur is the identity |
| Redaction.ReplaceKeepsTheRest | src/blastoise/ci/redact.py:243-245 | a replacement changes the leftmost non-overlapping matches only: the pieces between them are kept in place, and none holds the literal |
| Redaction.LongestGoesFirst | src/blastoise/ci/redact.py:240-245 | no registered literal is longer than the one replaced first, and each of its matches is replaced as a whole |
| Redaction.NeverRecreated | src/blastoise/ci/redact.py:243-245 | what a clear literal occurs in after a replacement, it occurred in before |
| Redaction.ClearLiteralIsGone | src/blastoise/ci/redact.py:240-245 | a registered literal that cannot overlap the placeholder never survives, for any text and registry |
| Redaction.OrdinaryLiteralIsClear | src/blastoise/ci/redact.py:240-245 | literals without angle brackets that are no piece of `redacted` cannot overlap the placeholder |
| Redaction.AlwaysGoneIffClear | src/blastoise/ci/redact.py:240-245 | a literal is gone from every text under every registry iff it cannot overlap the placeholder in any alignment |
| Redaction.WordInsidePlaceholderIsNotClear | src/blastoise/ci/redact.py:240-245 | the secret `redact` can be left over |
| ConnInfo.SkipSpaces | src/blastoise/ci/redact.py:144-180 | the index lands on the text without its leading white space |
| ConnInfo.ReadQuoted | src/blastoise/ci/redact.py:144-180 | reads a quoted value and its escapes up to the closing quote or the end |
| ConnInfo.ReadBare | src/blastoise/ci/redact.py:144-180 | reads a bare value and its escapes up to unescaped white space |
| ConnInfo.Progress | src/blastoise/ci/redact.py:144-180 | a turn that finds no `=` still consumes text, so the tokenizer ends on every string |
| ConnInfo.ParseNext | src/blastoise/ci/redact.py:144-180 | one turn reads one setting and leaves the rest of the text to the next |
| ConnInfo.ParseKeywords | src/blastoise/ci/redact.py:144-180 | the whole index loop computes the settings of the text |
| ConnInfo.QuotedUndoesEscape | src/blastoise/ci/redact.py:144-180 | reading a quoted value undoes quoting it, for any value and whatever follows |
| ConnInfo.BareUndoesEscape | src/blastoise/ci/redact.py:144-180 | the same for bare values before white space or the end |
| ConnInfo.ParseUndoesPrint | src/blastoise/ci/redact.py:144-180 | parsing undoes printing in every mix of quoting and spacing, with all of Python's white space escaped in bare values; later settings of a key win |
| ConnInfoMalformed.UnclosedQuoteRunsToEnd | src/blastoise/ci/redact.py:157-167 | a value whose quote is never closed runs to the end of the text |
| ConnInfoMalformed.LastBackslashStands | src/blastoise/ci/redact.py:157-177 | a backslash at the very end stands for itself, in a quoted and in a bare value |
| ConnInfoMalformed.WordIsDropped | src/blastoise/ci/redact.py:144-156 | a word that no `=` follows is dropped, and reading goes on behind it |
| ConnInfoMalformed.KeylessValueIsForgotten | src/blastoise/ci/redact.py:144-180 | a value without a key is read and forgotten |
| ConnInfoSpace.ReliableIff | src/blastoise/ci/redact.py:144-180 | with the escapes that section 34.1.1.1 of the PostgreSQL 16 documentation asks for, a setting is read back among any clean settings iff neither its key nor its bare value holds a character that is white space to `str.isspace` and not to libpq |
| ConnInfoSpace.NoBreakSpaceEndsTheValue | src/blastoise/ci/redact.py:168-177 | a no-break space ends a bare value that libpq reads whole |
| Transactions.Scanner.Flush | src/blastoise/parser.py:256-272 | closes the current group if it is explicit or nonempty, and resets the variables |
| Transactions.Scanner.Read | src/blastoise/parser.py:241-308 | reading one statement keeps the variables equal to what the two-state machine says of the prefix |
| Transactions.GroupTransactions | src/blastoise/parser.py:241-308 | groups and warnings are those of the file cut at its effective boundaries |
| Transactions.OpenPieceHasOpener | src/blastoise/parser.py:241-308 | the machine is in a block iff the current piece was opened by a boundary |
| Transactions.InBlockIff | src/blastoise/parser.py:241-308 | a block is open iff some BEGIN came before and every COMMIT or ROLLBACK since then chained |
| Transactions.PlainInIsExact | src/blastoise/parser.py:241-308 | a piece's indices are exactly its non-boundary statements, increasing |
| Transactions.GroupsPartitionTheStatements | src/blastoise/parser.py:241-308 | the groups in order list every non-boundary statement exactly once |
| Transactions.PieceIsUniform | src/blastoise/parser.py:241-308 | inside a piece the machine does not change state |
| Transactions.GroupMeaning | src/blastoise/parser.py:241-308 | an index is in an explicit group iff the machine is in a block there; opener, closer and rollback flag are the boundaries around the piece |
| Transactions.GroupsStandForPieces | src/blastoise/parser.py:241-308 | every group stands for one piece between effective boundaries or file ends |
| Transactions.GroupsAreLinked | src/blastoise/parser.py:241-308 | no two adjacent groups are implicit, only the last can be unclosed, and neighbours share a boundary iff it chains |
| Transactions.WarningsCount | src/blastoise/parser.py:241-308 | one warning per boundary without effect, and one for a final unclosed block |
| Transactions.WarningsAreExact | src/blastoise/parser.py:241-308 | a warning is given iff it is that of a BEGIN inside a block, of an end outside one, or of the boundary that opened the block left open, each with its line |
| Baseline.IsBaselineShaped | src/blastoise/parser.py:200-238 | true iff there are enough statements and each needed name was introduced earlier (a partition parent possibly by the same statement) |
| KeyWindow.Bounds.Collect | src/blastoise/classify.py:158-188 | the sets grow by exactly the columns bounded by some conjunct from that side |
| KeyWindow.HasKeyWindow | src/blastoise/classify.py:146-191 | true iff two conjuncts bound one column from both sides, or a conjunct is a column BETWEEN |
| KeyWindow.ConjunctHolds | src/blastoise/classify.py:160-164 | a row that satisfies the condition satisfies every conjunct |
| KeyWindow.ReportedIffWindow | src/blastoise/classify.py:146-191 | a window is reported iff conjuncts bound some column from below and from above with named operands |
| KeyWindow.WindowConfinesRows | src/blastoise/classify.py:146-191 | a reported window is real: in every row the condition selects, some column lies between an operand that bounds it from below and one that bounds it from above |
| KeyWindow.ExcludesIff | src/blastoise/classify.py:177-188 | a bound excludes some value of its column, whatever its other operand computes, iff that operand does not mention the column |
| KeyWindow.WindowExcludesIff | src/blastoise/classify.py:146-191 | a condition excludes values of some column on both sides, whatever its expressions compute, iff it has a window neither of whose operands mentions the column |
| KeyWindow.FloorIsReported | src/blastoise/classify.py:177-188 | `id >= low AND id < x` is reported for every operand `low` |
| KeyWindow.DependentFloorIsNoFloor | src/blastoise/classify.py:177-188 | yet for an operand computed from `id` alone there may be rows below any value that satisfy it |
| KeyWindow.FloorExamples | src/blastoise/classify.py:177-188 | so it is for `id >= id` and for `id >= id + 0` |
| KeyWindow.SeesEveryBoundIff | src/blastoise/classify.py:178-188 | all bounds of a comparison are seen iff it does not compare two columns |
| KeyWindow.ReportedIffBoundedEitherWay | src/blastoise/classify.py:146-191 | without comparisons between columns, a window is reported iff some column is bounded from both sides, whichever operand it is |
| KeyWindow.ReportIsCompleteIff | src/blastoise/classify.py:146-191 | a conjunct loses no window, whatever condition without column comparisons stands beside it, iff it does not itself compare two columns |
| KeyWindow.ColumnChainIsMissed | src/blastoise/classify.py:178-188 | `a < b AND b < c` bounds `b` from both sides and is not reported |
| LockModel.CoveringIsExact | src/blastoise/catalog/model.py:259-264 | the candidates are exactly the rows covering the version |
| LockModel.FirstVariantApplies | src/blastoise/catalog/model.py:266-281 | the variant chosen is the first that covers the version and matches, if any does |
| LockModel.LookupIsTotal | src/blastoise/catalog/model.py:266-285 | on covered rows the LookupError is unreachable: the answer is the first matching variant or the version's only default |
| LockModel.VariantIsSelected | src/blastoise/catalog/model.py:266-285 | the first variant that covers the version and whose every field has the expected value, or a listed one, is the answer |
| LockModel.UnmetIsNeverAnswered | src/blastoise/catalog/model.py:203-218 | a variant with a field that is missing, different or not listed is never the answer |
| LockModel.UnexpectedValueDeselects | src/blastoise/catalog/model.py:203-218 | changing one mentioned field to an unexpected value deselects the row |
| LockModel.DefaultIsSelected | src/blastoise/catalog/model.py:266-285 | when no variant fits, the version's default row is the answer |
| LockModel.UnmentionedFieldsDoNotMatter | src/blastoise/catalog/model.py:203-218 | attributes that agree on the mentioned fields get one answer |
| LockModel.ConflictsAreMutual | src/blastoise/catalog/model.py:241-247 | table locks conflict both ways, no lock with none, an unknown one with all |
| LockModel.CollideIff | src/blastoise/catalog/loader.py:449-457 | two variants of one condition are refused iff some version has both |
| LockModel.BreakpointSeparates | src/blastoise/catalog/model.py:259-285 | rows that do not span a breakpoint give different answers on its two sides |
| LockLoader.ParseConflictMatrix | src/blastoise/catalog/loader.py:183-205 | accepted iff every table lock mode and no other has a row and conflicts go both ways |
| LockLoader.SymmetricIff | src/blastoise/catalog/loader.py:183-205 | accepted iff every table lock mode and no other has a row, and whatever a row lists has a row that lists it back |
| LockLoader.ParseAffected | src/blastoise/catalog/loader.py:208-247 | accepted iff roles are known, distinct and declare resolvability correctly; an omitted list means the target |
| LockLoader.Strongest | src/blastoise/catalog/resolve.py:205-217 | the strongest mode of a list, NONE for an empty one |
| LockLoader.AffectedIsSound | src/blastoise/catalog/loader.py:393-406 | the target takes the entry's lock; without a target no required relation takes a stronger one |
| LockLoader.AcceptedEntryIsSound | src/blastoise/catalog/loader.py:268-433 | an accepted row's blocking flags, scope and relations agree with its lock mode and the matrix; kind, versions, flags, condition and given scope are those of the data, and so are the listed relations, in order; an omitted list is the target |
| LockLoader.AcceptedIff | src/blastoise/catalog/loader.py:323-410 | every requirement on a row, one by one: accepted iff all of versions, calibration, sources, conditions, commitments, availability, transaction notes, flags, scope, roles and primary relation are in order |
| LockLoader.HasOneDefault | src/blastoise/catalog/loader.py:443-448 | true iff exactly one default row covers the version |
| LockLoader.CheckCoverage | src/blastoise/catalog/loader.py:436-457 | accepted iff every version has exactly one default and equal conditions never overlap |
| LockCatalog.ParseRows | src/blastoise/catalog/loader.py:588-597 | a kind's rows are accepted iff there are some, each is acceptable and together they cover the domain |
| LockCatalog.ParseTable | src/blastoise/catalog/loader.py:577-624 | a table is accepted iff its kinds are exactly the required ones and each kind's rows are acceptable |
| LockCatalog.CheckBreakpoints | src/blastoise/catalog/loader.py:460-477 | accepted iff no row of its kind covers both the version of a registered breakpoint and the one before |
| LockCatalog.ParseCatalog | src/blastoise/catalog/loader.py:528-636 | whatever loads is sound, and a rejection names a violated requirement |
| LockCatalog.LoadedLookupsSucceed | src/blastoise/catalog/model.py:266-285 | in a loaded catalog every known kind, version and attribute map has an answer, from a checked row |
| LockCatalog.LoadedBreakpointsSeparate | src/blastoise/catalog/loader.py:460-477 | in a loaded catalog the answers on the two sides of a registered breakpoint differ |
| LockResolve.LaterSourcesWin | src/blastoise/catalog/resolve.py:64-82 | action fields win over details, details over the statement; no other field appears |
| LockResolve.TargetsAreSplit | src/blastoise/catalog/resolve.py:85-92 | the first and the additional targets are all the targets, in order |
| LockResolve.Relations | src/blastoise/catalog/resolve.py:111-142 | the locks role by role, or the first required role that has no name |
| LockResolve.LockedIffNamed | src/blastoise/catalog/resolve.py:111-142 | a relation is locked iff some role names it, with that role's mode and the matrix's conflicts |
| LockResolve.ResolveLeaf | src/blastoise/catalog/resolve.py:170-202 | one statement or action: its looked-up row, or the failure |
| LockResolve.ResolveActions | src/blastoise/catalog/resolve.py:167-181 | one row per ALTER TABLE action in order, or the first failure |
| LockResolve.Resolve | src/blastoise/catalog/resolve.py:145-202 | one row per origin in order at any nesting, conditional iff the caller or a block around it says so, or the first failure |
| LockResolve.NestedRows | src/blastoise/catalog/resolve.py:182-196 | the flags passed down a guarded block are those of the nested origins |
| LockResolveMeaning.LeavesAreOrigins | src/blastoise/catalog/resolve.py:145-202 | origins are exactly the direct statements and actions reachable by a path through DO blocks, with the guards met on that path |
| LockResolveMeaning.OneOutcome | src/blastoise/catalog/resolve.py:145-202 | that description fixes the outcome |
| LockResolveMeaning.BlockTakesTheStrongestInnerLock | src/blastoise/catalog/resolve.py:205-217 | a block's rows are its inner statements' rows in order, and its lock is the strongest of theirs |
| LockResolveMeaning.RowsAreFaithful | src/blastoise/catalog/resolve.py:111-202 | in a loaded catalog each row answers its own lookup, its target lock blocks reads iff the entry does and writes only if the entry does, and every nameable role has a name |
| LockResolveMeaning.RowsNameTheirRelations | src/blastoise/catalog/resolve.py:85-142 | in a loaded catalog the locks of each role are on exactly what the statement or action gives for it: the first target, the other targets, the action's referenced table and partition, all references of a CREATE TABLE in order, its parent; none when it gives none |
| LockResolveMeaning.ResolvableIffNameable | src/blastoise/catalog/resolve.py:85-108 | the loader takes a role as resolvable iff the resolver can name its relations |
| LockResolveMeaning.RowsComeFromTheirTables | src/blastoise/catalog/resolve.py:170-202 | in a loaded catalog an action's row comes from the rows of the action's kind, a statement's from those of the statement's kind |
| LockResolveMeaning.RefusedAtOnce | src/blastoise/catalog/model.py:249-264 | a version outside the domain or a kind without direct rows is the outcome of the whole resolution, each with its own failure |
| LockResolveMeaning.FailsIffARelationIsMissing | src/blastoise/catalog/resolve.py:127-134 | in a loaded catalog resolution fails iff some row requires a relation its statement does not name |
| LockResolveMeaning.CollectKinds | src/blastoise/catalog/resolve.py:220-226 | the loop collects the kinds of the statement and of everything inside it |
| LockResolveMeaning.KindsAreReachable | src/blastoise/catalog/resolve.py:220-226 | a kind is listed iff some statement at some depth has it |
| Markdown.AssembleStartsWithMarker | src/blastoise/ci/markdown.py:282-291 | every rung's body starts with the marker |
| Markdown.ClipStartsWithMarker | src/blastoise/ci/markdown.py:437-443 | a clipped body still starts with the marker, and fits |
| Markdown.AssembleKeepsEveryLine | src/blastoise/ci/markdown.py:374-397 | line by line, a body is the marker and then every line its sections wrote, in order, as long as the last of them does not end in white space |
| Markdown.ClipKeepsAPrefix | src/blastoise/ci/markdown.py:437-443 | clipping keeps as much of the body as there is room for, but for white space at the cut |
| Markdown.RenderComment | src/blastoise/ci/markdown.py:425-443 | the first rung that fits, else the last one clipped; it starts with the marker and fits the limit |
| ChangedFiles.PullRequestFiles | src/blastoise/ci/github.py:177-209 | the page loop collects exactly the surviving names among the first 100 entries per allowed page |
| ChangedFiles.NamesAreSurvivors | src/blastoise/ci/github.py:177-209 | a name is collected iff some entry has it and was not removed |
| ChangedFiles.CompleteIff | src/blastoise/ci/github.py:177-209 | the list is complete iff nothing beyond the page cap would have been collected |
| Comments.FindComment | src/blastoise/ci/github.py:213-233 | the page loop finds the first marked comment if it is within the first 2000 |
| Comments.DeleteComment | src/blastoise/ci/github.py:235-248 | removes that comment and no other, and reports refusals |
| Comments.UpsertComment | src/blastoise/ci/github.py:250-281 | replaces that comment's body in place or posts one, and changes nothing on a refusal |
| Comments.Publish | src/blastoise/ci/runner.py:816-852 | one run's comment half: upsert with migrations, delete without, never fatal |
| Comments.PublishStep | src/blastoise/ci/runner.py:816-852 | other people's comments stay as they are and in order, and at most one is ours |
| Comments.AtMostOneMarked | src/blastoise/ci/github.py:253-266 | over any series of pushes, refusals and other people's edits there is never a second marked comment, within the search's reach |
| Comments.LatestPushWins | src/blastoise/ci/github.py:253-266 | after a successful push exactly one marked comment is left, with the new body, or none without migrations |
| Comments.SecondCommentIffOutOfReach | src/blastoise/ci/github.py:213-233 | a successful push with migrations leaves a second marked comment iff the existing one is at position 2000 or later |
| Comments.StaleCommentIffOutOfReach | src/blastoise/ci/github.py:235-248 | a push without migrations removes the comment iff it is below that position; otherwise the stale one stays and nothing changes |
| Comments.OutOfReachExample | src/blastoise/ci/github.py:213-233 | a list with 2000 comments before the report, for which both fail |
| Comments.StartingWithMarkerContainsIt | src/blastoise/ci/github.py:226-228 | a body that starts with the marker is found by the search |
| JsonText.ReadCharBack | src/blastoise/report/serialize.py:64-66 | every character is read back from its ASCII escape, surrogate pairs included |
| JsonText.ReadTextBack | src/blastoise/report/serialize.py:64-66 | every string is read back from its literal, whatever follows |
| JsonText.ShortestEscape | src/blastoise/report/serialize.py:64-66 | of all printable spellings that a reader takes for a character, the one written is the shortest, and the only one of its length with lower-case hexadecimal digits |
| JsonText.ReadIntBack | src/blastoise/report/serialize.py:64-66 | every integer is read back from its decimal digits |
| Json.KeysInOrder | src/blastoise/report/serialize.py:64-66 | the keys of an object, each once, ascending by code point |
| Json.ReadValueBack | src/blastoise/report/serialize.py:64-66 | a reader following sections 2 to 7 of RFC 8259 gives back the value and the untouched rest |
| Json.LoadUndoesPrint | src/blastoise/cli.py:567-581 | canonical text, also with the final newline of a report file, loads as the value that was printed |
| Json.SameTextIffSameValue | src/blastoise/report/serialize.py:64-66 | two values have equal text iff they are equal |
| Json.PrintIsPrintable | src/blastoise/report/sign.py:109-112 | canonical text is printable ASCII without line breaks, so encoding it cannot fail |
| Json.CompactText | src/blastoise/report/serialize.py:64-66 | lists and objects are their parts with single commas and colons between them and no white space, members in the order of their keys |
| Signing.ToJson | src/blastoise/report/serialize.py:20-61 | the loops that fill lists, sorted sets and dictionaries compute the reduction, and fail where it does |
| Signing.TextsMeaning | src/blastoise/report/serialize.py:40-51 | a set reduces iff all its elements are strings, to those strings |
| Signing.EntriesMeaning | src/blastoise/report/serialize.py:54-60 | a dictionary reduces iff all keys are strings and all values reduce, to the members with exactly those keys and values |
| Signing.RejectedIff | src/blastoise/report/serialize.py:20-61 | a value has no canonical form iff a float, an unsupported value, a key that is no text or a set with something other than texts stands somewhere inside |
| Signing.SetIsSortedList | src/blastoise/report/serialize.py:40-51 | a set of texts becomes the ascending list of exactly its elements |
| Signing.OrderIsIrrelevant | src/blastoise/report/serialize.py:20-66 | values that differ only in the iteration order of sets and dictionaries, at any depth, reduce to the same JSON |
| Signing.CanonicalIsFaithful | src/blastoise/report/serialize.py:64-66 | canonical text loads as the reduced value, and is equal for two values iff their reductions are |
| SignedReports.UnsignedMembers | src/blastoise/report/sign.py:109-112 | removing the signature block removes its member and nothing else |
| SignedReports.LoadedReduces | src/blastoise/cli.py:567-581 | a loaded value reduces to the JSON it was loaded from |
| SignedReports.SigningKeepsTheMessage | src/blastoise/report/sign.py:115-128 | a signed report has the signed message of the unsigned one |
| SignedReports.MessageCoversEverythingElse | src/blastoise/report/sign.py:109-112 | two loaded reports have one message iff they agree on everything but the signature block |
| SignedReports.WrittenReportVerifies | src/blastoise/cli.py:540-581 | a report signed, written with a newline and loaded has the message it was signed over, and verifies under any scheme that accepts its own signatures |
| SignedReports.VerdictOfLoaded | src/blastoise/report/sign.py:131-160 | on a loaded report without floats, from its members: unsigned iff the block is missing or null, malformed iff it is no object, of a wrong algorithm iff that is not `ed25519`, and verified iff key and signature are readable and accepted for the text of all other members; it never raises |
| SignedReports.AlteredReportNeverVerifies | src/blastoise/report/sign.py:131-160 | where a signature belongs to one message, a verified report altered outside the block into any other values is rejected, or verification raises if the new content has no canonical form |
| SignedReports.AlteredReportIsRejected | src/blastoise/report/sign.py:131-160 | among reports without floats it is rejected |
| SignedReports.FloatsHaveNoForm | src/blastoise/report/serialize.py:28-29 | of loaded values exactly those with a float inside have no canonical form |
| SignedReports.RaisesIffFloat | src/blastoise/report/sign.py:131-160 | verification of a loaded report raises iff its block is in order and a float stands outside it |
| SignedReports.FloatRaises | src/blastoise/report/sign.py:109-112 | a signed report to which a float is added raises under a key that reads its block |
| Calibration.OrderOfPassesIsIrrelevant | validation/harness/calibration.py:286-302 | the factor depends only on the multiset of passes |
| Calibration.PairAroundDecides | validation/harness/calibration.py:297-301 | inside the range the two passes around the time decide, and equal times are never interpolated |
| Calibration.SegmentShape | validation/harness/calibration.py:297-301 | a segment stays between its ends and moves from one to the other |
| Calibration.MovesOneWayBetweenNeighbours | validation/harness/calibration.py:286-302 | between neighbouring passes the curve stays between their factors and is monotone |
| Calibration.MovesLinearly | validation/harness/calibration.py:286-302 | between neighbouring passes the factor moves linearly with time |
| Calibration.EveryTimeIsCovered | validation/harness/calibration.py:286-302 | every time is before the first pass, between two neighbours or after the last, and the ends are flat |
| Calibration.OwnTimeGivesSmallestFactor | validation/harness/calibration.py:286-302 | at a pass's time the curve gives the smallest factor recorded then, so with distinct times the pass's own |
| Calibration.StaysInRange | validation/harness/calibration.py:286-302 | the curve never leaves the range of the recorded factors |

## Left out

- The verdict engine (`verdict/engine.py`, `verdict/model.py`, `verdict/probes.py`) and the rows of `lock_catalog.yaml` are not part of this model; catalogs are any data the loader accepts.
- SQL parsing, deparsing and the long classification ladder of `classify.py`: expression trees and statements are small datatypes, statement kinds are reduced to the roles the procedures test, and deparsing then reparsing a default is taken as the identity.
- Python's `re` module: the compiled glob is a regex syntax tree with a language; the framework layouts are an ordered list of predicates.
- GlobMeaning.CompiledMeansSegments: paths without newlines only, because `.` and `$` treat newlines specially.
- GlobExact.MeansSegmentsIff: globs whose text holds no newline and whose brackets each accept some other character than a newline; empty, reversed and escaped bracket bodies, which `re` rejects or reads differently, are outside.
- GlobExact.PlainGlobMeansSegments: brackets do not hold a `/`, which would be cut differently in the text and in the token list.
- Detect.Classify: the lower-casing of file extensions is that of ASCII letters; so is that of secrets in Redaction.
- TypeChangeSound.NoRewriteIsSound: names such as `char`, `bit` and `interval`, whose bare form implies a typmod, are outside its consistency condition (`ImpliedTypmodIsLost` covers them); the parser of type spellings, range limits of timestamps, reasons and citations are not modelled.
- TypeChangeSound.SessionTzVerdictIsExact: zone offsets are whole seconds, a function of the instant.
- The allowlists of `volatility.py` are data, given as sets; names arrive in lower case.
- Redaction.Redactor.ScrubLiterals: the literal stage of `scrub` only, not the three pattern substitutions after it, URI parsing, `add_connection_string` or `add_environment`.
- ConnInfo.ReadQuoted: the source steps one past a missing closing quote; both loops then end.
- Warning texts, line lookup and source spans of `parser.py`; statements carry their line.
- KeyWindow.WindowConfinesRows: columns are known by their last name part in one relation, an expression computes the same value in rows that agree on the columns it mentions, and operators applied through ANY or ALL are not comparisons here; the source tests none of this.
- Catalog YAML decoding, error messages and the texts of a row, which are reduced to whether they are present.
- LockModel.ConflictsWith is total; a mode without a matrix row, a KeyError in the source, cannot occur in a loaded catalog.
- HTTP transport, authentication, malformed API payloads and check runs: the pull request is a list of comments, and a refused call is a flag of the publish.
- Comments.AtMostOneMarked: publishes run one after the other; nobody else writes the marker or touches the marked comment.
- Report prose and Markdown layout: a ladder rung is the lines its sections write.
- Json.ReadValue: numbers with a fraction or an exponent are not read, since canonical text has none (`AlteredReportNeverVerifies` and `RaisesIffFloat` speak of loaded values that hold them); lone surrogates are not characters here; Python's limit on the digits of an integer is left out.
- Signing.Jsonable: records are the dictionaries of their fields, tuples are lists, enumeration members are their text; error texts are left out.
- Signature cryptography: a scheme is a signing function and what its public half accepts; malformed hexadecimal is rejected like a wrong signature.
- Calibration: floats are reals, and `comparable_factor` and `normalize` are not modelled.
