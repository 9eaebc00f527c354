# A verified model of Logpond's core

Logpond stores log events in time-windowed segments. Events are accepted into a bounded buffer,
flushed to active segment files, sealed into Parquet, archived to an object store, dropped by
retention, fetched back and evicted. A query language is compiled to SQL for stored events and
interpreted directly for live tail; an executor visits segments in time order and pages with a
cursor. This project models that core in Dafny and proves what it promises.

`dafny verify dfyconfig.toml` checks everything.

## How the model is laid out

| part | modules |
|---|---|
| query language | `Text`, `Like`, `Filter`, `Events`, `Lexer`, `Grammar`, `Finalize`, `Parser`, `ParserProperties`, `Spelling`, `TypedPredicates`, `TypedQueries`, `TypedParsing`, `TypedMeaning`, `RoundTrip` |
| two evaluators | `Sql`, `Compiler`, `ReadBack`, `Matcher`, `Agreement`, `Conditions`, `Where` |
| executor | `Ordering`, `Executor`, `Query`, `Paging`, `Facets` |
| segment lifecycle | `SegmentIds`, `SegmentCatalog`, `DataDir`, `Slots`, `Manager`, `Coverage`, `Recovery`, `Lifecycle` |
| archive and retention | `S3`, `RetentionPolicy`, `Retention`, `Rehydration` |
| ingest and live tail | `Buffer`, `RateLimiter` |

Code that changes state is a class or a method with loops (`Parser.Parser`, `Manager.Manager`,
`Recovery.Recover`, `Retention.Evaluator`, `S3.Backend`, `Buffer.Buffer`, ...). Each is proved equal to
a specification function or a stated property, and the properties of the whole system are lemmas
about those functions. `Slots` describes everything kept for one segment id and what each durable
step does to it; `Manager`, `Recovery`, `Retention` and `Rehydration` are proved to do just that for the id
they touch and nothing to the others, and `Lifecycle` runs all operations, stopped after any step, as one
machine. `Query` ties the clause the compiler emits to what the executor selects.

SQL is modelled at the level of tokens: `Compiler` emits them, `Sql` reads them back with NOT over AND
over OR and evaluates the result in the three truth values of ISO/IEC 9075-2:2003 (boolean value
expression, section 6.34; LIKE predicate, section 8.5).

Taken as given, with laws stated where they are used: lower-casing of characters (idempotent, and
leaving `\`, `%`, `_` alone), number and time parsing and printing, the Parquet encoding, hashing (no
two contents share a hash), the manifest encoding (it reads back), file rename (atomic) and the catalog's
single-row updates. The remote store draws the fate of each call from a script that may make it work,
fail, or take effect and still report failure.

## What the proofs bring to light

- A crash between the rename and the catalog update of a seal makes recovery mark the segment lost
  although its sealed file is complete (`Slots.SealingSurvivesCrashes`).
- The cursor's tie-break compares the cursor's segment id with itself, so of several events of one
  instant only those on the page survive paging (`Where.CursorMeans`, `Paging.PageLosesOnlyTies`); a whole
  run loses something exactly when a page ends between two such events (`Paging.FollowPages`).
- A range may leave out its upper end but not its lower one, because TO is then read as that end
  (`TypedPredicates.RangeIsParsed`, `TypedPredicates.LowerEndIsNeeded`).
- `neq` and `not_in` on an absent field select nothing in SQL but match in live tail
  (`Agreement.LeafAnswer`); so does NOT over a positive condition on an absent field other than a null test,
  while NOT over `neq` or `not_in` is answered no by both (`Agreement.NotOnAbsentFieldDiffers`, `Agreement.ChainAgreesIff`).
- A flush batch of at most half the buffer's capacity can leave a half-full buffer with no wake-up until
  the next tick (`Buffer.WakeUpsAreReliable`).
- Archive references are safe only while the clock does not go back into a sealed window and the active
  file is really removed at the end of a seal (`Lifecycle.ReopeningAClosedWindowIsUnsafe`,
  `Lifecycle.AStaleActiveFileIsUnsafe`).
- An event that arrives after its window closed is stored in the current segment, outside that segment's
  recorded range until it is sealed, and a query for its time misses it. Ranges cover the rows after a
  flush if and only if no event was late, but on the closing instant, and only then do queries see
  everything (`Coverage.LateEventIsMissed`, `Coverage.FlushCovers`, `Executor.PruningIsExact`).
- Free text is looked up as one phrase in message or raw text, so two words typed in the other order than
  they occur in are not found (`ParserProperties.TwoTermsAreAPhrase`).
- A file fetched from the archive stays in its place when its hash does not match, and a later job then
  takes it for the segment's file (`Rehydration.MismatchIsServed`); such a mismatch arises when a file is
  archived again with other content and the manifest's upload fails (`S3.ReplaceWithoutManifest`).
- A filter that is both too deep and ill-formed is called by whichever fault comes first
  (`Filter.TheFirstFaultDecides`).

## Model

| member | source | states |
|---|---|---|
| `Like.EscapeIsCharacterMap` | internal/query/compile.go:350-356 | the three sequential replacements equal one map on characters, in any order of the special characters in the text |
| `Like.EscapeCommutesWithLower` | internal/query/compile.go:231-238 | escaping and lower-casing commute, so lowering a finished pattern is the pattern of the lowered text |
| `Like.EscapedTextMatchesItself` | internal/query/compile.go:350-356 | in front of any pattern, an escaped text matches exactly that text |
| `Like.PrefixPatternIsExact` | internal/query/compile.go:220-239 | the starts_with pattern matches a text if and only if the value is a prefix of it |
| `Like.ContainsPatternIsExact` | internal/query/compile.go:220-239 | the contains pattern matches a text if and only if the value occurs in it |
| `Text.ContainsMeansOccurs` | internal/query/match.go:182-200 | the substring test holds exactly when the text has the value at some position |
| `Text.DoubledQuotesReadBack` | internal/query/compile.go:358-360 | a quoted name or literal ends at the quote the compiler wrote, whatever the name contains |
| `Text.LessMeans` | internal/query/executor.go:745-752 | one text comes before another exactly if it is a proper beginning of it or smaller where they first differ |
| `Filter.ValidateIsExact` | internal/query/filter.go:126-180 | validation accepts exactly the well-formed trees at most 32 deep, and calls a well-formed deeper one too deep |
| `Filter.VerdictIsFirstFault` | internal/query/filter.go:130-153 | the verdict is the first fault met with parents before children: what is called too deep is too deep and what is called illegal is ill-formed, whatever else is wrong |
| `Filter.TheFirstFaultDecides` | internal/query/filter.go:142-146 | of a deep child and an ill-formed one the first decides whether the tree is called too deep or illegal |
| `Compiler.CompileFilter` | internal/query/compile.go:34-41 | the recursion over the shared argument slice yields the text and arguments of the compositional definition |
| `Compiler.CompileNode` | internal/query/compile.go:43-77 | each level appends exactly its own arguments, in the order of its placeholders, and nothing before them changes |
| `Compiler.CompileChildren` | internal/query/compile.go:51-77 | the loop over the children appends, child by child, the arguments of those compiled, and stops at the first that fails |
| `Compiler.CollectInValues` | internal/query/compile.go:158-190 | the scan keeps the non-null values in order, lower-cased when asked, and knows whether a null was listed |
| `Compiler.CompileInLoop` | internal/query/compile.go:158-218 | membership with and without null, and the all-null list, as in the compositional definition |
| `Compiler.CombineAndLoop` | internal/query/compile.go:378-398 | empty fragments vanish, one stays bare, several are each parenthesised and joined, arguments concatenated |
| `Compiler.NeverEmpty` | internal/query/compile.go:43-77 | a filter that compiles has non-empty text |
| `ReadBack.JoinReads` | internal/query/compile.go:43-77 | with NOT over AND over OR, a join of parenthesised conditions reads as one conjunction or disjunction of them |
| `ReadBack.LeafReads` | internal/query/compile.go:79-261 | every leaf text reads as one self-contained condition whose placeholders are numbered consecutively, whatever follows |
| `ReadBack.TreeReads` | internal/query/compile.go:43-77 | the emitted text of any tree reads back as the tree: same boolean structure, placeholder i bound to argument i |
| `Agreement.LeafAnswer` | internal/query/match.go:77-230 | on a present field, or when the leaf tests for null, SQL gives the matcher's answer; otherwise SQL is unknown and the matcher says yes exactly to neq and not_in |
| `Agreement.LeafAgreesIff` | internal/query/match.go:114-180 | for a single condition SQL and matcher agree if and only if absence occurs at the right polarity |
| `Agreement.CompiledAgreesWithMatch` | internal/query/match.go:13-75 | the emitted text and arguments select exactly the events Match accepts, for every tree whose absent fields sit at the allowed polarity |
| `Agreement.ChainAgreesIff` | internal/query/match.go:13-75 | for a condition under any chain of single-child groups, negated or not, SQL and matcher agree if and only if an absent field sits at the allowed polarity |
| `Agreement.NotOnAbsentFieldDiffers` | internal/query/match.go:52-75 | NOT over a positive condition on an absent field: SQL selects nothing, the matcher says yes |
| `Agreement.PresentFieldsAgree` | internal/query/match.go:13-75 | with all mentioned fields present the clause is two-valued and equals Match |
| `Agreement.NegationFreeAgrees` | internal/query/match.go:13-75 | without NOT, neq and not_in the two agree even on absent fields |
| `Agreement.MatcherRefinesSql` | internal/query/match.go:52-75 | with no condition at all: whatever SQL answers definitely, Match answers the same |
| `Agreement.SelectedImpliesMatched` | internal/query/match.go:13-32 | every event the stored search returns is also shown by live tail |
| `Conditions.FieldsAreColumns` | internal/query/match.go:276-297 | a field stands for the column of its name, absent when empty; the timestamp for its printed instant; any other name for nothing |
| `Conditions.AttributesAreEntries` | internal/query/match.go:299-328 | an attribute stands for the entry under its path |
| `Conditions.MatcherAnswers` | internal/query/match.go:114-258 | on a present field: eq and in hold exactly if the texts are equal, letter case aside unless it counts, neq and not_in exactly if not; contains and starts_with exactly if the value occurs there in that sense; ranges compare by size where both are numbers of an attribute, else as text |
| `Conditions.ClauseAnswers` | internal/query/compile.go:79-261 | the emitted clause selects by the same equalities, occurrences and comparisons |
| `Conditions.TimestampAnswers` | internal/query/match.go:202-274 | a range on the timestamp compares instants; a text that is no instant bounds nothing |
| `Conditions.AbsentAnswers` | internal/query/match.go:114-180 | on an absent field exactly the denials and the tests for null hold |
| `Matcher.MatchNode` | internal/query/match.go:20-32 | the short-circuiting evaluation equals the plain meaning of the tree |
| `Matcher.MatchGroup` | internal/query/match.go:52-75 | the loop over children that stops early computes the conjunction or disjunction, negated when asked |
| `Matcher.MatchInLoop` | internal/query/match.go:140-180 | the list scan finds the value exactly when some non-null member equals it |
| `Where.SearchMeans` | internal/query/compile.go:364-376 | the compiled free-text clause is true exactly when MatchSearch finds the text in message or raw |
| `Where.CursorMeans` | internal/query/executor.go:804-826 | the cursor clause is strict on the timestamp: its tie-break compares a value with itself and is never true |
| `Where.TreeMoves` | internal/query/compile.go:43-77 | a compiled tree means the same wherever its arguments are placed in a longer list |
| `Where.CombinedReads` | internal/query/compile.go:378-398 | time range, filter, search and cursor combined read as the conjunction of the parts, with every placeholder bound to its own argument |
| `Where.WhereSelects` | internal/query/executor.go:230-256 | the WHERE clause of a query selects exactly the events accepted by every part |
| `Where.FacetSelects` | internal/query/executor.go:499-515 | the bare AND appended for a facet never lands inside an OR: exactly the selected events that have the field are counted |
| `Lexer.Tokenize` | internal/query/parser/lexer.go:91-204 | the index loop produces the token list of the recursive definition, or the same error at the same column |
| `Lexer.ReadString` | internal/query/parser/lexer.go:156-189 | the string loop resolves escapes as defined and finds the closing quote or its absence |
| `Lexer.LexIsWellFormed` | internal/query/parser/lexer.go:91-204 | every list ends with exactly one EOF, identifiers are non-empty, and all columns lie between 1 and one past the input |
| `Parser.Parser.ParseDisjunction` | internal/query/parser/parser.go:148-166 | advancing the position builds the tree, warnings and rest, or the error, of the grammar |
| `Parser.Parser.ParseConjunction` | internal/query/parser/parser.go:168-201 | explicit and implicit AND up to the first token that cannot start a factor, as in the grammar |
| `Parser.Parser.ParseFactor` | internal/query/parser/parser.go:203-228 | NOT, a lone dash and a dash glued to a word (whose token text is rewritten) negate the next atom as in the grammar |
| `Parser.Parser.ParseAtom` | internal/query/parser/parser.go:230-262 | parentheses, quoted terms, attributes and words, as in the grammar |
| `Parser.Parser.ParseRange` | internal/query/parser/parser.go:382-439 | both ends, either end or none, with the closing bracket that belongs to the opening one |
| `Parser.Parser.ParseValueList` | internal/query/parser/parser.go:441-471 | values separated by commas or OR up to the closing parenthesis |
| `Parser.Parser.FinalizeTree` | internal/query/parser/parser.go:491-525 | the splitting loop returns the kept factors as filter and the lifted terms as search |
| `Parser.Parse` | internal/query/parser/parser.go:37-75 | lexing, parsing, the trailing-token check and finalizing in sequence give the result of the definition |
| `ParserProperties.FinalizeKeepsMeaning` | internal/query/parser/parser.go:491-559 | what was typed, free text read as "the message contains it", holds of an event exactly when the filter matches and every lifted term occurs in its message; no filter exactly when everything was lifted |
| `ParserProperties.TermsInSourceOrder` | internal/query/parser/parser.go:491-525 | each lifted term stands between the terms typed before it and those typed after it; every top-level factor is lifted or kept, none twice |
| `ParserProperties.TermsKeepTheirOrder` | internal/query/parser/parser.go:503-513 | of two lifted terms the one typed first comes first among the search terms, each where the terms before it end |
| `ParserProperties.SearchJoinsTerms` | internal/query/parser/parser.go:491-525 | around each lifted term, the search text is the terms before it, a space, the term, a space, the terms after it |
| `ParserProperties.SearchOfTerms` | internal/query/match.go:37-50 | how the search text is run: no terms ask for nothing; one, trimmed, is found exactly when message or raw text has it; a phrase found means all terms are in the message or all in the raw text; for terms without white space around them, being in the message is what was meant |
| `ParserProperties.TwoTermsAreAPhrase` | internal/query/match.go:37-50 | a message with two terms the other way round has both, yet is found if and only if the two orders read the same |
| `ParserProperties.ParsedFilterIsLegal` | internal/query/filter.go:126-180 | a parsed filter passes validation unless it nests too deep |
| `ParserProperties.ParsedFilterCompiles` | internal/query/compile.go:79-104 | a parsed filter compiles if and only if its bare fields are stored columns, and then to non-empty text |
| `ParserProperties.RejectionPointsIntoInput` | internal/query/parser/parser.go:37-75 | every error column lies in 1..len(input)+1 |
| `Spelling.SpellingIsLexed` | internal/query/parser/lexer.go:91-204 | tokens written one after the other, with any white space between them or none where two words do not touch, lex back to themselves, each with the column it was written at |
| `Spelling.EscapedStringIsRead` | internal/query/parser/lexer.go:156-189 | escaping any string is undone by the lexer |
| `Spelling.OtherEscapeIsKept` | internal/query/parser/lexer.go:156-189 | a backslash before any other character stands for itself |
| `Spelling.UnclosedIsRefused` | internal/query/parser/lexer.go:156-189 | a string without its closing quote is refused at the column of the opening one |
| `Spelling.CharacterClasses` | internal/query/parser/lexer.go:206-216 | words are made of letters, digits and seven marks; blank, tab and line ends separate |
| `Spelling.StrayCharacterIsRefused` | internal/query/parser/lexer.go:191-204 | any other character is refused at its own column |
| `TypedPredicates.PieceIsCoerced` | internal/query/parser/parser.go:473-484 | a quoted text, a bare word that is no number, a bare 64-bit integer and a bare number whose printed form reads back are taken for just those values |
| `TypedPredicates.NumeralIsRead` | internal/query/parser/parser.go:473-484 | digits with or without a sign are taken for the integer they stand for if it fits in 64 bits, else for a number if they read as one, else for text |
| `TypedPredicates.ZeroInFront` | internal/query/parser/parser.go:473-484 | zeros in front of digits do not change the integer |
| `TypedPredicates.WildcardsVanish` | internal/query/parser/parser.go:367-377 | a word with wildcards elsewhere than at its end is looked for without them |
| `TypedPredicates.RangeIsParsed` | internal/query/parser/parser.go:382-439 | a range is read exactly when it has a lower end, TO and its own closing bracket, with or without an upper end, and then means its bounds, inclusive or not; a star or a missing end bounds nothing and without bounds the field must exist |
| `TypedPredicates.LowerEndIsNeeded` | internal/query/parser/parser.go:390-400 | a range that begins with TO is refused unless another TO follows, since TO is read as its lower end |
| `TypedParsing.TypedIsParsed` | internal/query/parser/parser.go:148-254 | alternatives joined by OR, each of terms joined by AND or merely side by side, each term plain or negated, at any depth, parse to their own tree and leave the rest of the input |
| `TypedParsing.GluedNegates` | internal/query/parser/parser.go:208-228 | a dash glued to a word negates the predicate or word that begins with it |
| `TypedParsing.SignNegates` | internal/query/parser/parser.go:203-228 | NOT in any letter case, or a dash alone, negates what comes next |
| `TypedMeaning.TypedQueryMeans` | internal/query/parser/parser.go:37-75 | whatever is typed in these forms, however spaced and quoted, is accepted; its free text is the search, no filter is left exactly if it was all free text, and some alternative has all its terms true of an event, each negated as written, if and only if the filter matches and the message has the free text |
| `TypedMeaning.NothingTyped` | internal/query/parser/parser.go:46-49 | a blank input is accepted with neither filter nor search |
| `TypedMeaning.LeftoverIsRefused` | internal/query/parser/parser.go:46-56 | after a query, a token that cannot go on with it, TO included, is refused at its own column whatever follows |
| `TypedPredicates.ColumnsCanBeTyped` | internal/query/parser/parser.go:264-277 | every stored column can be named in a query |
| `RoundTrip.RenderParsesBack` | internal/query/parser/parser.go:37-75 | rendering any predicate-only tree of texts and numbers, with any white space, and parsing it gives a filter with the same meaning on every event and no search text |
| `RoundTrip.SpacesSeparate` | internal/query/parser/lexer.go:91-131 | one blank after each token is always enough |
| `Ordering.EventOrder` | internal/query/executor.go:721-757 | the sort keys define a total preorder on events |
| `Ordering.EventsInOrder` | internal/query/executor.go:721-757 | two events are ordered by the named columns: the first key on which they differ decides, backwards for desc |
| `Ordering.SortedByColumns` | internal/query/executor.go:721-757 | a sorted list is one where every event may stand before all later ones; none is out of order by the first key |
| `Ordering.SortThenTake` | internal/query/executor.go:715-719 | sorting and cutting gives a first n: sorted, part of the input, nothing left over sorts before it |
| `Executor.OrderSegmentsOrders` | internal/query/executor.go:760-775 | segments come newest or oldest first by start time, none added or dropped |
| `Executor.PruningIsSound` | internal/catalog/catalog.go:261-285 | leaving out segments whose recorded range misses the query loses no match when the ranges of readable segments cover their rows |
| `Executor.PruningIsExact` | internal/catalog/catalog.go:261-285 | every accepted request sees every match of the whole store if and only if the recorded range of each readable segment covers its rows |
| `Executor.OutsiderIsMissed` | internal/catalog/catalog.go:261-285 | a row outside its segment's recorded range is missed by an accepted request for its very time, whatever else is stored |
| `Executor.RangeLosesNothing` | internal/catalog/catalog.go:261-285 | with covering ranges, a request sees every match of the whole store, each as often as it is stored |
| `Executor.DisjointSegmentsAreLayered` | internal/query/executor.go:760-775 | segments whose rows do not interleave in time are in sort order once visited by start time |
| `Executor.GatherHits` | internal/query/executor.go:261-281 | the visiting loop that stops early keeps everything seen or enough of it, and under layering nothing unvisited sorts before what is kept |
| `Executor.FinishAnswer` | internal/query/executor.go:283-292 | the final sort and cut turns what was gathered into the answer: sorted part of the matches, cursor at the last row if and only if more remain |
| `Executor.KeysAccepted` | internal/query/executor.go:202-211 | the sort keys accepted are timestamp, service, level, host and source, asc or desc |
| `Executor.Run` | internal/query/executor.go:182-292 | refusals in the order checked, filter and sort checks included; otherwise the answer for the matches of all segments, and with layered segments exactly the first limit of the globally sorted matches; rows stand in the order of the asked keys, newest first without any, a hundred unless asked otherwise and never over a thousand |
| `Query.SelectionIsTheClause` | internal/query/executor.go:224-256 | what the executor selects is exactly what the emitted clause of time range, filter, search and cursor selects |
| `Query.RefusedInOrder` | internal/query/executor.go:182-254 | with the checks that Validate and Compile make of the filter, the executor refuses for the first reason in source order |
| `Query.Run` | internal/query/executor.go:182-292 | from filter and search text to the answer: the first reason to refuse, else the answer for all that the emitted clause selects from the visited segments, which is all it selects of the store when ranges cover rows; order and number of rows as asked |
| `Paging.CountInSegments` | internal/query/executor.go:607-660 | filtering is pointwise: an accepted row occurs as often as stored, any other not at all |
| `Paging.TurnPage` | internal/query/executor.go:804-826 | a page and what its cursor leaves are disjoint parts of what was left before |
| `Paging.PageLosesOnlyTies` | internal/query/executor.go:804-826 | a page and its cursor lose nothing if and only if no match left over has the cursor's timestamp |
| `Paging.LeftOverTie` | internal/query/executor.go:818-819 | a first part of the matches leaves one of its last instant behind if and only if the next match in order is of that instant |
| `Paging.CursorStaysValid` | internal/query/executor.go:243-254 | a cursor handed out for an unchanging store is never refused |
| `Paging.FollowPages` | internal/query/executor.go:256-292 | following NextCursor ends, returns nothing twice and in order; over non-interleaving segments it returns every match if and only if no page boundary of the sorted matches falls between two of one instant |
| `Paging.TiesAreLost` | internal/query/executor.go:818-819 | two rows of one instant read one per page: the second is never returned |
| `Facets.Count` | internal/query/executor.go:358-383 | the guarded count is exact if and only if it is below the guard, and otherwise one less than the guard |
| `Facets.ComputeFacet` | internal/query/executor.go:461-605 | each value shown carries its true count over the sampled matches, larger counts first and equal ones by value, and nothing left out ranks higher |
| `Facets.BuildFacetResult` | internal/query/executor.go:575-605 | top values by count then name, cut at the cap, truncated if and only if there are more |
| `SegmentIds.DateOf` | internal/segments/manager.go:119-126 | every day number is shown as a valid date whose day number it is |
| `SegmentIds.DateOrder` | internal/segments/manager.go:119-126 | dates and day numbers are ordered alike and correspond one to one |
| `SegmentIds.FormatReadsBack` | internal/segments/manager.go:249-255 | printing an instant and parsing it gives the instant rounded down to the minute |
| `SegmentIds.IdsReadBack` | internal/segments/manager.go:119-126 | ids parse back to the window start for every instant if and only if the window is whole minutes, as all configurable ones are |
| `SegmentIds.ParsedIdPrintsBack` | internal/segments/manager.go:249-255 | only the printed form of an instant parses as an id |
| `SegmentIds.DatesFollow` | internal/segments/manager.go:249-255 | day numbers follow the calendar, leap years included, from the first day of the year 1 |
| `SegmentIds.IdsSortChronologically` | internal/segments/manager.go:303-317 | ids sort as text in the order of their windows and are equal only for the same window |
| `SegmentIds.ValidWindowsAreMinutes` | internal/config/config.go:392-396 | every configurable window is a positive whole number of minutes |
| `Manager.SharesConserve` | internal/segments/manager.go:145-162 | a flush gives each segment exactly the copies of each row that routing sends there: none dropped, none doubled |
| `Manager.RoutingIsFaithful` | internal/segments/manager.go:166-185 | an unmarked event lies in the window of its segment; a marked one goes to the current segment with the id of its true window, nothing else changed |
| `Coverage.FlushCovers` | internal/segments/manager.go:145-185 | after a flush the recorded range of an open segment covers its rows if and only if every row given to it lies in its window, if and only if none was late but on the closing instant |
| `Coverage.FlushAndCover` | internal/segments/manager.go:134-164 | so for every segment a flush of the manager writes |
| `Coverage.LateEventIsMissed` | internal/segments/manager.go:166-185 | a late event is in the file of the current segment and a query for its very time does not find it |
| `Coverage.ALateEvent` | internal/segments/manager.go:166-185 | an event of the window before, with only the current window open, is such an event |
| `Coverage.SealedCovers` | internal/segments/manager.go:395-406 | a sealed segment records the range of its own rows, so pruning is exact for it |
| `Coverage.DescribedCovers` | internal/segments/recovery.go:168-188 | a described file whose earliest and latest row have a time set is covered by its recorded range, from its first instant to its last |
| `Coverage.RecoverAndCover` | internal/segments/recovery.go:61-96 | so for every sealed file that recovery registers: count, size, hash and range are those of the file |
| `Manager.Manager.OpenOrCreate` | internal/segments/manager.go:187-247 | stopped after any number of steps, the id is in the state opening prescribes there: file, then row, then registration, created where missing, for that id only; refused when closing or for an id that does not parse |
| `Manager.Manager.Flush` | internal/segments/manager.go:134-164 | however far it gets, each segment has gained its whole share in order, none of it or, where an insert failed, the first rows of it, and all have theirs on success; only the current one may be opened, and nothing else changes |
| `Manager.Manager.SealableNow` | internal/segments/manager.go:303-317 | exactly the open segments whose window ended a grace period ago, sorted by id |
| `Manager.Manager.SealOne` | internal/segments/manager.go:334-418 | cut off after any number of durable steps, the segment is in the state sealing prescribes there and every other one is untouched |
| `Manager.Manager.SealOnce` | internal/segments/manager.go:321-332 | one undisturbed pass seals every sealable segment and nothing else |
| `Slots.ExportKeepsRows` | internal/storage/duckdb/duckdb.go:213-227 | the export holds the same rows, ordered by time |
| `Slots.SealingSurvivesCrashes` | internal/segments/manager.go:334-418 | stopped after any step, then crashed and recovered, all rows are whole in one place; they are queryable again if and only if the crash did not fall between the rename and the catalog update |
| `Slots.SealingDescribesTheFile` | internal/segments/manager.go:395-406 | a completed seal leaves one copy and a row whose count, size and hash are those of the file and whose range runs from its earliest row to its latest |
| `Slots.FoundRowDescribes` | internal/segments/recovery.go:168-188 | the row made for a found file has its count, size and hash, and its range from earliest to latest row, an end without a time taken from the window |
| `Slots.NewRowIsEmpty` | internal/segments/manager.go:187-247 | a row made on opening, or for an active file found without one, spans the window and claims nothing else |
| `Slots.LostKeepsRow` | internal/segments/recovery.go:98-108 | marking a segment lost changes nothing else in its row |
| `Slots.RecoveryIsConsistent` | internal/segments/recovery.go:30-119 | from any disk and catalog state: active rows have an opened file, sealed rows a sealed file, no id both files, every file a row |
| `Slots.RecoveryIsIdempotent` | internal/segments/recovery.go:30-119 | a second recovery finds nothing to do and changes nothing |
| `Recovery.PhasesCompose` | internal/segments/recovery.go:44-108 | doing the remedies kind by kind over all ids does what repairing each id does |
| `Recovery.OrphanDuplicates` | internal/segments/recovery.go:42-54 | exactly the active files with a sealed twin are moved to the orphans |
| `Recovery.RegisterUnknown` | internal/segments/recovery.go:61-96 | exactly the files without a row get one, active or sealed |
| `Recovery.MarkMissing` | internal/segments/recovery.go:98-108 | exactly the active rows without active file and sealed rows without sealed file become lost |
| `Recovery.Recover` | internal/segments/recovery.go:30-119 | recovery repairs every id on its own and each of its four reports names exactly the ids so treated |
| `Lifecycle.StepKeeps` | internal/catalog/catalog.go:223-248 | every operation, stopped after any of its steps, keeps the invariant of every segment |
| `Lifecycle.SealKeeps` | internal/segments/manager.go:334-418 | sealing, stopped anywhere, keeps every copy whole and every archived row off the active directory |
| `Lifecycle.RepairKeeps` | internal/segments/recovery.go:44-108 | each single repair of recovery keeps it too |
| `Lifecycle.ArchiveKeeps` | internal/retention/evaluator.go:178-238 | archiving, with or without the deletion after it, keeps it at every cut: file, then manifest, then row |
| `Lifecycle.DropKeeps` | internal/retention/evaluator.go:332-370 | a deletion the policy decides keeps it |
| `Lifecycle.RehydrateKeeps` | internal/api/rehydrate.go:178-254 | rehydration or a renewed expiry, with any manifest values, keeps it at every cut |
| `Lifecycle.EvictKeeps` | internal/api/rehydrate.go:324-341 | eviction keeps it: a row with a reference falls back to archived |
| `Lifecycle.ImportKeeps` | internal/api/import.go:128-171 | importing an uploaded file, completed, cut off or refused by the catalog, keeps it |
| `Lifecycle.ImportRecords` | internal/api/import.go:128-171 | a finished import leaves the file and a row with what its manifest says, without reference |
| `Lifecycle.CopiesAreWhole` | internal/catalog/catalog.go:626-719 | over every run: each active, sealed, orphaned or remote copy is whole; a row with a reference is archived or rehydrated with a committed complete remote copy, and the file it was rehydrated to is gone or whole |
| `Lifecycle.SealedHashesAreHonest` | internal/segments/manager.go:395-406 | over every run, what is recorded for a sealed segment is the hash of its file |
| `Lifecycle.NothingWrittenIsLost` | internal/retention/evaluator.go:332-349 | over every run with archive-before-delete and a backend, all rows written stay in the active file, the sealed file or the archive, committed by its manifest |
| `Lifecycle.ReferencesStay` | internal/catalog/catalog.go:333-348 | over every run, s3_url and archive_ref once recorded are never cleared and the row never becomes lost |
| `Lifecycle.AnEventReachesTheArchive` | internal/segments/manager.go:134-164 | the rules of a run leave room for the intended course: write, seal, archive, with the event in the remote copy |
| `Lifecycle.ReopeningAClosedWindowIsUnsafe` | internal/segments/manager.go:139-151 | why the clock must not go back: the next seal replaces the sealed file and the referenced row can become lost |
| `Lifecycle.AStaleActiveFileIsUnsafe` | internal/segments/manager.go:407-410 | why the last removal of a seal matters: a stale active file leads to a referenced row that retention marks lost |
| `RetentionPolicy.Plan` | internal/retention/evaluator.go:241-325 | the plan is the unprotected part of one oldest-first prefix; all aged ones are in it, the kept total fits or nothing evictable is kept, and each one taken for size was needed |
| `RetentionPolicy.PlanSaysWhy` | internal/retention/evaluator.go:241-349 | each action is for a listed segment not freshly sealed, by age exactly if past the limit, archived first exactly if it has no copy and must have one; all segments past the age limit are taken |
| `RetentionPolicy.SelectBySize` | internal/retention/evaluator.go:280-304 | the size loop stops as soon as the excess is gone and not before |
| `RetentionPolicy.MarkAged` | internal/retention/evaluator.go:268-278 | exactly the unprotected segments past the age limit are marked, and they form a prefix |
| `Retention.ListLocal` | internal/catalog/catalog.go:308-328 | exactly the local sealed, archived and rehydrated rows, oldest first |
| `Retention.Evaluator.Execute` | internal/retention/evaluator.go:351-371 | cut off after any step, the slot is as dropping it prescribes: the file gone, then the row in the decided state without path and expiry, its other columns kept; nothing else changes |
| `Retention.ArchivedStepByStep` | internal/retention/evaluator.go:178-238 | marking, removing and clearing after the store has file and manifest are the remaining steps of archiving and deleting a slot |
| `Retention.ReachedRowsAreHonest` | internal/retention/evaluator.go:178-238 | so the hashes recorded for segments still to be archived are those of their files, as archive-before-delete asks |
| `Retention.Evaluator.ArchiveThenDelete` | internal/retention/evaluator.go:178-238 | cut off anywhere, the local file is there or the store holds it all with its manifest, nothing local changes before that, and each step is the next one of the slot; success means all of them, with the columns then rewritten spelled out |
| `Retention.Evaluator.Run` | internal/retention/evaluator.go:136-172 | the actions are the exact plan for the listing; those reported executed are carried out, row and file; those no step of which fails are executed; and with archive-before-delete every sealed unarchived segment keeps row and file or is safely stored, whatever hashes other rows record; a dry run changes nothing |
| `S3.AssembledStays` | internal/archive/s3.go:317-345 | parts already sent are not disturbed by later ones |
| `S3.Backend.UploadMultipart` | internal/archive/s3.go:297-368 | the parts sent concatenate to the file; on any failure the object is as before or complete |
| `S3.Backend.EnsureFile` | internal/archive/s3.go:179-224 | success means the object holds the file, uploaded or already there with its hash |
| `S3.Backend.Archive` | internal/archive/s3.go:156-274 | success means file and manifest are stored; whatever happens other objects are untouched, no partial file appears and the manifest changes only behind a complete file |
| `S3.CommittedManifest` | internal/archive/s3.go:226-274 | the manifest of a committed segment carries its id, times and count, and the size and hash of the very file beside it |
| `Retention.ManifestDescribesSegment` | internal/retention/evaluator.go:178-238 | archiving a sealed segment gives it a manifest with its own range, count, size and hash |
| `S3.Backend.Retrieve` | internal/archive/s3.go:373-408 | what is returned has the manifest's hash, and a committed segment comes back unchanged; the file is left in its place even when its hash does not match, and with answering calls a failure leaves one if and only if it mismatches |
| `S3.ReplacedFileMismatches` | internal/archive/s3.go:156-274 | a replaced file object beside the manifest of the one before is a mismatch that archiving can leave |
| `S3.ReplaceWithoutManifest` | internal/archive/s3.go:156-274 | such a run of Archive: other content under the same name, only the manifest call failing |
| `Rehydration.Rehydrator.FetchOne` | internal/api/rehydrate.go:203-246 | one item, cut off anywhere: each step taken is the next of rehydrating the slot; a failure leaves the disk as it was unless the file was downloaded and did not match or could not be recorded; success keeps the references, records what the manifest says and decodes a committed file from the archived bytes |
| `Rehydration.Rehydrator.RunJob` | internal/api/rehydrate.go:178-254 | a prefix of the list is rehydrated, the failing item may keep a downloaded file, the rest is untouched; with answering calls the job stops exactly at the first item that cannot succeed |
| `Rehydration.MismatchIsServed` | internal/api/rehydrate.go:203-226 | a mismatched file is served after all: for a rehydrated row without its file the first job fails leaving it there, the next only renews the expiry |
| `Rehydration.Rehydrator.Evict` | internal/api/rehydrate.go:324-341 | cut off after any step, the slot is as evicting it prescribes: file gone, then the row without path and expiry, archived if it has a reference and lost otherwise |
| `Rehydration.Rehydrator.Sweep` | internal/api/evictor.go:68-105 | exactly the expired segments no query reads are evicted and counted, but for those whose removal or catalog update fails; the first of these, soonest expiry first, is reported; every other row and file stays |
| `Buffer.Buffer.Append` | internal/ingest/buffer.go:62-82 | a batch lands whole or not at all and the producer signals exactly when the buffer is then half full |
| `Buffer.Buffer.Drain` | internal/ingest/buffer.go:84-106 | what is taken followed by what remains is what was there; as much as asked or available |
| `Buffer.Flusher.DrainAll` | internal/ingest/buffer.go:176-184 | shutdown flushes everything buffered, in order |
| `Buffer.EventsAreConserved` | internal/ingest/buffer.go:62-106 | over any interleaving accepted is drained followed by buffered, in order, within capacity |
| `Buffer.WakeUpsAreReliable` | internal/ingest/buffer.go:108-174 | a half-full buffer always has a wake-up pending, a producer about to signal or a drain under way, over all interleavings, if and only if twice the batch exceeds the capacity |
| `RateLimiter.Limiter.Allow` | internal/ws/server.go:709-722 | the mutable counter answers as the history of calls determines |
| `RateLimiter.EachWindowIsCapped` | internal/ws/server.go:709-722 | no counting window lets more than the limit through, and nothing when it is negative |
| `RateLimiter.RefusedOnlyWhenFull` | internal/ws/server.go:709-722 | a call is refused only when its counting window has already let the limit through |
| `RateLimiter.RefusedOnlyWithinWindow` | internal/ws/server.go:709-722 | and that window lies within one window length before the call, for a clock past the instant that counts as not set |
| `RateLimiter.AnyIntervalIsCapped` | internal/ws/server.go:709-722 | for call times that do not go back, any closed interval as long as the window contains at most twice the limit |

## Left out

- HTTP handlers, pages, authentication, metrics, configuration loading, jobs, and the script archive
  backend: plumbing around the modelled core.
- Implicit casts and casts that fail: equality and membership with number or boolean values, ranges on
  columns with numbers, and attribute ranges with a number on text that is not one.
- Conditions on the timestamp field: the agreement of the two evaluators is stated for the other fields.
- Ordering of NULL in secondary sort keys: the database's order and the in-memory comparison are taken
  to be one order on text.
- Floating-point corner cases (NaN, infinities) and the exact text of numbers: numbers are reals with an
  abstract printer.
- Wording of errors and warnings: each is a constructor with its column or value.
- Text inside SQL identifiers and literals below the token level, except that doubled quotes read back.
- The text of archive URLs: one stands for each file object.
- Opening and reading DuckDB, SQLite and Parquet files.
- Recovery.Recover: single file and catalog calls succeed; a recovery cut off anywhere is covered by the
  single repairs of `Lifecycle.RepairKeeps`.
- Concurrent `Flush` and seal: each is one step with respect to the other.
- Sampling of facet segments and the facet registry: the sample is a parameter of `Facets.ComputeFacet`.
- Paging by other sort keys than the timestamp: the code makes no promise of complete coverage there.
- The text form of a cursor: it arrives decoded, and one that does not decode is an invalidated one.
- The manifest file kept beside a rehydrated segment, with its own removal, and the check of an uploaded
  file's hash before an import: the imported rows are arbitrary.
- S3.Backend.UploadMultipart: the service's limit on the number of parts is not modelled.
- Which columns and texts the parser's warnings carry: only that none of them changes the result.
- TypedMeaning.TypedQueryMeans: numbers are typed as they are printed; other numerals are those of
  `TypedPredicates.NumeralIsRead`.
- RoundTrip.RenderParsesBack: boolean values, which the search bar cannot write, and numbers whose printed
  form does not read back as them.
