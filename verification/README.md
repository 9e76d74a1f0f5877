# hadro, modelled and proved in Dafny

hadro is a read-only S3 server. This project models its algorithms and proves what they promise.
`dafny verify dfyconfig.toml` checks all of it.

| part | modules | main results |
|---|---|---|
| S3 Select evaluation | `Values` `Rows` `Like` `Masks` `Plan` `Select` `Run` | a SELECT answers its query row by row, with or without pushdown, in every format, refused predicates included (`Run.Run`); LIKE on any bytes is the wildcard matcher on their text exactly for the patterns `Like.RoutesAgreeExactly` names |
| S3 Select SQL | `Sql` `Lexer` `Lexical` `Grammar` `Spelling` `Parser` `Printer` `RoundTrip` `Reprint` `Decimal` | a text parses to a query if and only if it is laid out as tokens that spell the query (`RoundTrip.ParseTextIsExact`); parsing undoes printing in every spelling and layout, and printing undoes parsing |
| Listing | `Listing` `LocalWalk` `Sorting` `Order` | following the tokens shows the whole listing, if and only if max-keys is at least 1 or there is nothing to list |
| Whole SELECTs | `Execute` | from the text of a query to the decoded stream of its rows |
| Cache | `CacheModel` `CacheHeads` `Cache` `CacheStack` `CacheRuns` `CacheVersions` `CacheRaces` | the LRU stack property; safety under every interleaving; which changes of an object let reads go back in time, and which do not |
| Objects | `Objects` | a HEAD promises the length of the bytes a GET sends, on every path through the cache |
| Bandwidth | `Bandwidth` `Shaping` | the closed form of the link's clock; both caps over whole runs; exactly when windows are capped |
| Event stream | `EventStream` `Utf8` | decoding a stream gives back its events; their payloads are the rows |
| Signatures | `CanonicalQuery` | two canonical queries are equal if and only if the parameter lists are permutations of each other |

How the model is laid out:

- What the code computes in loops or by updating fields is a method or a class here, proved against a
  function; the lemmas are about that function. The cache, the parser and the shaper are classes.
- A function that the code's steps are proved against has a law of its own beside it, stated without
  it: what a name resolves to, what a key is listed under, what a header asks for, what a token list
  spells.
- A raised error is `None`, `Failed` or a variant of a result type. Which message it carries is not
  modelled.
- Where an outside library decides (number, date and decimal parsing, lower case), the model takes a
  `Host` or `Library` value and proves its results for all of them.
- Draken's kernels are pointwise three-valued operations. A rugo read keeps exactly the rows on which
  every predicate is true, or refuses the predicates, which it must do when a literal is not of the
  column's sort; it may yield nothing instead of an empty morsel.

Findings, each with a proof:

- With max-keys 0 a page is truncated and has no token, so the listing is not shown
  (`Listing.PagesAreTheListing`).
- A suffix range of an empty object is (0, -1) (`Objects.RangesAreInside`).
- With both bandwidth caps on and the stream rate below the total rate, responses hold chunks back and
  send them together, so a window can carry more than the total rate and one chunk
  (`Bandwidth.WindowsCappedExactly`, `Bandwidth.BurstIsTooMuch`).
- Reads through the cache are not monotonic: with any limit and any time to live a slow fetch can put
  older content back (`CacheRuns.ReadsCanGoBack`). They never go back if the object changes only in calm
  states, in which no task holds a copy it will store and no read is under way beside a usable cached
  copy (`CacheVersions.ReadsNeverGoBack`); from any other state a change can be followed by reads that
  go back (`CacheRaces.ChangeCanGoBack`).
- A column BETWEEN literal bounds is unknown if a bound is NULL; any other BETWEEN is a conjunction
  that one bound can make false. `tests/reference.py` (lines 139-143) always says unknown. The code is
  modelled; `Rows.BetweenNullRulesDiffer` says exactly where the two rules differ.
- On bytes that are not UTF-8 two of the LIKE routes compare bytes and the third compares decoded text.
  They do the same on all bytes if and only if the pattern goes to the matcher or has no U+FFFD in it
  (`Like.RoutesAgreeExactly`).

## Model

| member | source | states |
|---|---|---|
| `Execute.Execute` | src/hadro/select/__init__.py:109-143 | a text is a syntax error exactly if it is no query; a query with an answer is answered by the stream of exactly its rows, and one without streams no row |
| `Execute.RowsOf` | src/hadro/select/__init__.py:138-143 | the rows handed to the stream are those of the answer, none if the reader yields nothing |
| `Execute.AnswerIsRead` | src/hadro/select/__init__.py:109-143 | a client that sends the text of a query, in any spelling and layout, and decodes the stream has every row of the answer, written in order |
| `Run.Run` | src/hadro/select/__init__.py:159-190 | for every query, table, format, reader and LIMIT, with pushdown or without: the rows whose condition is true, in order, then the first n, then the column list; an error only where the query has none |
| `Run.AnswerIsExact` | src/hadro/select/__init__.py:183-190 | the answer of a query in plain terms: rows in ascending order, all selected, none passed over unless the limit is reached, and of each the cells of the listed columns under their output names, or of all columns |
| `Run.PlanAndRead` | src/hadro/select/__init__.py:169-179 | whatever is pushed or refused, the predicates in force and the residual together mean the WHERE clause, and the read shows exactly the rows the predicates pass |
| `Run.FilterAndLimit` | src/hadro/select/__init__.py:183-187 | residual mask and LIMIT leave the first n selected rows of the table; an error exactly where the clause is not typed |
| `Run.Evaluate` | src/hadro/select/__init__.py:183-190 | output columns and rows are the answer of the query, defined exactly where the query is |
| `Run.Needed` | src/hadro/select/__init__.py:162-167 | every projected column resolves to its own source, and all columns the query mentions are read |
| `Run.NarrowedNames` | src/hadro/select/evaluate.py:111-119 | a column resolves to the same name among the columns read as among all, exact match and case-insensitive match alike |
| `Run.NarrowedTyped` | src/hadro/select/evaluate.py:281-308 | a condition is typed on the narrowed table exactly if it is on the whole one |
| `Run.NarrowedTruth` | src/hadro/select/__init__.py:162-167 | a condition has the same truth on the narrowed row |
| `Run.ColumnsUsed` | src/hadro/select/evaluate.py:172-190 | the names the WHERE columns resolve to, each once, in the order of their first use; an error exactly if one does not resolve |
| `Run.DeduplicatedInOrder` | src/hadro/select/evaluate.py:190 | names are kept in the order of their first use |
| `Run.ReadIsExact` | src/hadro/select/__init__.py:220-262 | in every format a read that is not refused shows exactly the rows on which all predicates pass, and a read without predicates is never refused |
| `Run.CsvShows` | src/hadro/select/__init__.py:232-246 | reading CSV under rugo's names and renaming shows the same rows as reading under the S3 names |
| `Run.MaskSelects` | src/hadro/select/__init__.py:183-184 | reader rows filtered by the residual's mask are the rows the whole clause selects |
| `Select.FilterTwice` | src/hadro/select/__init__.py:173-184 | filtering by the reader and then by the residual is filtering once by the conjunction |
| `Select.Numbered` | src/hadro/select/__init__.py:232-262 | the k-th name is the stem and its number, so columns of CSV without a used header are _1, _2 and so on, and rugo's col_0, col_1 |
| `Plan.MakePlan` | src/hadro/select/evaluate.py:196-211 | every conjunct the reader can apply is pushed and the others are refolded in order; together they select what the clause selects; an error only for a clause that is not typed |
| `Plan.SplitConjuncts` | src/hadro/select/evaluate.py:200-207 | the loop keeps and pushes conjuncts in order and raises exactly if pushing one raises |
| `Plan.Refold` | src/hadro/select/evaluate.py:208-211 | the refolded residual has exactly the kept conjuncts, in order |
| `Plan.SplitOfIsExact` | src/hadro/select/evaluate.py:196-211 | pushed predicates and kept conjuncts are true on a row exactly if all conjuncts are |
| `Plan.PushingIsExact` | src/hadro/select/evaluate.py:227-275 | the predicates made of a conjunct pass on a row exactly if the conjunct is true there: flipped, inverted, NOT IN, NOT IS NULL and split BETWEEN |
| `Plan.PushedExactly` | src/hadro/select/evaluate.py:54-83 | for every conjunct and format with a reader: it stays if and only if it is no test of a column against literals without NULL, of a kind and form the format's reader applies; pushing it fails if and only if it is one but its column is unknown or a literal cannot be read |
| `Plan.ComparisonPush` | src/hadro/select/evaluate.py:232-243 | the same for a comparison, under NOT and with the literal on the left |
| `Plan.InListPush` | src/hadro/select/evaluate.py:251-263 | the same for IN and NOT IN over lists without NULL |
| `Plan.BetweenPush` | src/hadro/select/evaluate.py:265-275 | the same for BETWEEN with two literal bounds |
| `Plan.IsNullPush` | src/hadro/select/evaluate.py:245-249 | the same for IS NULL and IS NOT NULL, under NOT |
| `Plan.ConjunctsTrue` | src/hadro/select/evaluate.py:164-169 | a clause is true on a row exactly if all its conjuncts are |
| `Plan.SplitOnClauses` | src/hadro/select/evaluate.py:196-211 | the split read back on whole clauses: typed alike, and selecting the same rows |
| `Values.Trichotomy` | src/hadro/select/evaluate.py:47-51 | two values of one sort are ordered in exactly one way |
| `Values.FlippingSwapsOperands` | src/hadro/select/evaluate.py:48-49 | the flipped operator with swapped operands means the same, NULL included |
| `Values.InvertingNegates` | src/hadro/select/evaluate.py:50-51 | the inverse operator is the three-valued negation |
| `Values.OwnKindAgrees` | src/hadro/select/evaluate.py:80-83 | for readers without types, a literal coerced to its own kind is the scalar the column's kind would give, wherever it fits the column |
| `Values.ComparisonsMean` | src/hadro/select/evaluate.py:47-51 | numbers, dates and moments compare by size, false is below true, text compares by code points: each operator accepts exactly its signs |
| `Values.LiteralsCompareAsCells` | src/hadro/select/evaluate.py:122-161 | two literals of a kind compare by themselves as they do in a column of that kind |
| `Values.LiteralsCompare` | src/hadro/select/evaluate.py:329-336 | two literals are equal if they are the same text or the same number, a truth value counting as 0 or 1; a text and a number differ and have no order; the inverse operator negates |
| `Values.BooleansFromText` | src/hadro/select/evaluate.py:140-145 | exactly the texts true and false, in any case, are read as truth values |
| `Values.KleeneLogic` | src/hadro/select/evaluate.py:309-313 | AND is the least, OR the greatest of false, unknown, true, and NOT turns the order around |
| `Masks.CompileMask` | src/hadro/select/evaluate.py:281-418 | for every condition and morsel, entry i is the three-valued truth of the condition on row i; an error exactly if the condition is not typed |
| `Masks.Compare` | src/hadro/select/evaluate.py:296-306 | a column against a literal, NULL literals unknown everywhere |
| `Masks.CompareOperands` | src/hadro/select/evaluate.py:329-345 | every mix of columns and literals, the literal on the left flipped |
| `Masks.FoldIsInList` | src/hadro/select/evaluate.py:347-364 | the OR of equality masks is three-valued membership: a miss in a list with NULL is unknown |
| `Masks.Membership` | src/hadro/select/evaluate.py:347-364 | the loop's mask is IN, or NOT IN, on every row |
| `Masks.BetweenScalars` | src/hadro/select/evaluate.py:366-379 | a column between literals, unknown throughout if a bound is NULL |
| `Masks.BetweenOperands` | src/hadro/select/evaluate.py:380-382 | any other BETWEEN is the conjunction of two comparisons |
| `Masks.BetweenMask` | src/hadro/select/evaluate.py:366-383 | both forms, negated or not, on every row |
| `Masks.PrefixMask` | src/hadro/select/evaluate.py:398-404 | the mask of a byte range, its upper bound present or missing, holds exactly the cells that start with the prefix |
| `Masks.RouteMask` | src/hadro/select/evaluate.py:394-415 | each cell gets the verdict of the route its pattern takes, well formed or not |
| `Masks.LikeMask` | src/hadro/select/evaluate.py:385-416 | LIKE and NOT LIKE on columns and literals; an error exactly if the column is not text |
| `Rows.ResolveIsExact` | src/hadro/select/evaluate.py:111-119 | over any names: one that occurs is itself; a quoted one that does not occur is an error; an unquoted one is the column at the one place whose name is alike but for case, if there is exactly one, and an error otherwise |
| `Rows.ResolveDistinct` | src/hadro/select/evaluate.py:111-119 | over distinct names: an unquoted name that does not occur gives n if and only if n is the one name alike; none or two alike are an error |
| `Rows.BetweenIsTwoComparisons` | src/hadro/select/evaluate.py:366-383 | with two literal bounds that are not NULL, BETWEEN is the conjunction of the two comparisons |
| `Rows.LiteralMembership` | src/hadro/select/evaluate.py:347-357 | IN on a literal is the three-valued OR of the equalities with the members, NULL among them included |
| `Rows.TestsOfNull` | src/hadro/select/evaluate.py:316-327 | LIKE is unknown exactly on NULL, IN is unknown on it, and IS NULL is never unknown but tells it |
| `Rows.LikeReadsText` | src/hadro/select/evaluate.py:394-416 | LIKE on a cell is the wildcard matcher on its text, for all cells if and only if the pattern goes to the matcher or has no U+FFFD; for UTF-8 cells always |
| `Rows.BetweenNullRulesDiffer` | src/hadro/select/evaluate.py:366-383 | for every operand, bounds and row: BETWEEN differs from the always-unknown rule if and only if it is not a column between literals, something is NULL and one side fails by itself; then it is false |
| `Rows.SomeNullSomeUnknown` | src/hadro/select/evaluate.py:380-382 | one of the two comparisons is unknown exactly if something in the BETWEEN is NULL |
| `Rows.BetweenNullHasTwoMeanings` | src/hadro/select/evaluate.py:366-382 | the smallest case: a NULL bound makes a column's BETWEEN unknown and 5 BETWEEN NULL AND 3 false |
| `Like.OneMatches` | src/hadro/select/evaluate.py:439-443 | by itself % matches every text, _ every text of one character, and any other character only itself |
| `Like.MatchesInParts` | src/hadro/select/evaluate.py:439-443 | patterns one after the other match exactly the texts that can be cut into texts they match, for _ and % in every place; with single characters this determines matching |
| `Like.RoutesAgree` | src/hadro/select/evaluate.py:385-416 | exact equality, byte range and wildcard matcher agree with one recursive matcher for every pattern and text |
| `Like.RoutesAgreeExactly` | src/hadro/select/evaluate.py:394-415 | a pattern is matched on all byte strings as on their decoded text if and only if it goes to the matcher or has no U+FFFD |
| `Like.DamagedDisagrees` | src/hadro/select/evaluate.py:394-415 | for every other pattern, bytes on which the byte routes and the matcher differ |
| `Like.RouteIsExactlyFor` | src/hadro/select/evaluate.py:394-405 | a pattern takes the exact route if and only if it is plain, and the range route if and only if it is plain up to a last % |
| `Like.PrefixRangeIsExact` | src/hadro/select/evaluate.py:398-404 | the byte range holds exactly the byte strings with the prefix |
| `Like.UpperBoundIsLeast` | src/hadro/select/evaluate.py:431-436 | the bound is the least byte string above every string with the prefix, and is missing exactly if there is none |
| `Like.RoutesDifferOnOtherBytes` | src/hadro/select/evaluate.py:396-414 | the smallest case: the pattern U+FFFD and the byte 0xFF, which decodes to it |
| `Lexer.Tokenize` | src/hadro/select/sql.py:49-71 | the loop yields exactly the tokens of the text, ended by the end token, and fails exactly at a character that fits none |
| `Parser.Parse` | src/hadro/select/sql.py:334-335 | the parser returns exactly the query the grammar gives the text, or its error; it always ends |
| `Parser.QueryParser.constructor` | src/hadro/select/sql.py:154-159 | starts before the first token, without alias or references |
| `Parser.QueryParser.Accept` | src/hadro/select/sql.py:170-175 | takes a token exactly if it is the one asked for, and never the end token |
| `Parser.QueryParser.Parse` | src/hadro/select/sql.py:187-218 | the object's moves through a whole query are the grammar's |
| `Parser.QueryParser.ParseProjection` | src/hadro/select/sql.py:225-238 | `*` or the column list, with its references recorded in order |
| `Parser.QueryParser.ParseItem` | src/hadro/select/sql.py:230-235 | one column and its output name, refused before an opening parenthesis |
| `Parser.QueryParser.ParseColumnRef` | src/hadro/select/sql.py:246-261 | a column with its prefix, recorded for when the alias is known |
| `Parser.QueryParser.ParseFrom` | src/hadro/select/sql.py:191-199 | the table and its alias |
| `Parser.QueryParser.ParseOr` | src/hadro/select/sql.py:263-267 | left-nested ORs, references in source order |
| `Parser.QueryParser.ParseAnd` | src/hadro/select/sql.py:269-273 | left-nested ANDs, references in source order |
| `Parser.QueryParser.ParseNot` | src/hadro/select/sql.py:275-278 | NOT binds tighter than AND |
| `Parser.QueryParser.ParsePredicate` | src/hadro/select/sql.py:280-285 | parentheses or an operand with its test |
| `Parser.QueryParser.ParseTest` | src/hadro/select/sql.py:286-310 | IS, and the tests that may be negated |
| `Parser.QueryParser.ParseWordTest` | src/hadro/select/sql.py:292-310 | IN, BETWEEN or LIKE, a comparison only without NOT |
| `Parser.QueryParser.ParseInList` | src/hadro/select/sql.py:293-299 | at least one literal, each after a comma |
| `Parser.QueryParser.ParseBetween` | src/hadro/select/sql.py:300-303 | the AND of a BETWEEN belongs to it |
| `Parser.QueryParser.ParseComparison` | src/hadro/select/sql.py:309-310 | an operator, `<>` read as `!=` |
| `Parser.QueryParser.ParseOperand` | src/hadro/select/sql.py:312-317 | a column or a literal; a name before `(` is refused |
| `Parser.QueryParser.ParseLiteral` | src/hadro/select/sql.py:319-331 | strings, numbers, TRUE, FALSE and NULL |
| `Parser.QueryParser.ParseLimit` | src/hadro/select/sql.py:203-207 | LIMIT takes digits only |
| `Parser.QueryParser.ResolveRefs` | src/hadro/select/sql.py:213-223 | the columns of all references in order, or an error exactly if a prefix is not the alias |
| `Grammar.ParseOr` | src/hadro/select/sql.py:263-267 | every successful sub-parse moves on, ends before the end token, and records exactly the columns of its condition in source order |
| `Grammar.ColumnsLineUp` | src/hadro/select/sql.py:213-218 | the columns of a query are those of the column list followed by those of the condition, so output names stand beside their own columns |
| `Lexical.LexIsExact` | src/hadro/select/sql.py:23-71 | a text is read as these tokens if and only if it is laid out as them: each the longest text there is for a token where it starts, white space between them, the end token last; no other text is accepted |
| `Lexical.NextIsLongest` | src/hadro/select/sql.py:23-34 | the alternative that matches first gives the longest text of any token at that place |
| `Lexical.NumberCovered` | src/hadro/select/sql.py:28 | no numeral at the start of a text is longer than the one read: digits, fraction and exponent in every allowed combination |
| `Spelling.ParseIsExact` | src/hadro/select/sql.py:187-331 | for every token list and query: the parser gives the query if and only if the tokens spell it by the declarative grammar, prefixes checked against the alias; anything else is refused |
| `Spelling.ConditionBack` | src/hadro/select/sql.py:263-331 | every spelling of a condition, at any level, with any parentheses, operators and prefixes, is parsed as it, whatever follows |
| `Spelling.QueryBack` | src/hadro/select/sql.py:187-223 | every spelling of a query is parsed as it: output names and the alias with AS or without, bare and prefixed columns mixed, a final semicolon or none |
| `Spelling.OperatorIsExact` | src/hadro/select/sql.py:309-310 | `!=` and `<>` and no other text are read as not equal, and each other operator from its one text |
| `Spelling.LiteralIsExact` | src/hadro/select/sql.py:319-331 | a token is a literal if and only if it spells its value: integers with leading zeros, floats by a point or an exponent, strings, the three words |
| `Printer.PrintedIsParsed` | src/hadro/select/sql.py:187-331 | the tokens of a writable query, printed in any style, parse back to it: a choice of `<>` or `!=`, prefix, parentheses, leading zeros and output form at every place, and of alias, AS and semicolon |
| `RoundTrip.ParseTextIsExact` | src/hadro/select/sql.py:334-335 | from text to query: a text parses to a query if and only if it is laid out as tokens that spell it |
| `RoundTrip.TokenBack` | src/hadro/select/sql.py:23-47 | any text that stands for a token, keywords in any case, is read as that token if nothing that follows can be taken for a part of it |
| `RoundTrip.RenderBack` | src/hadro/select/sql.py:49-71 | tokens set in any layout, with any white space that keeps them apart, are read back |
| `RoundTrip.ParsingUndoesPrinting` | src/hadro/select/sql.py:49-331 | for every writable query, every style and every layout, parsing the printed text gives exactly that query |
| `RoundTrip.PlainIsSensible` | src/hadro/select/sql.py:191-199 | there is a style for every query: without an alias, the table in its usual case |
| `Reprint.PrintingUndoesParsing` | src/hadro/select/sql.py:49-331 | every query the parser accepts is writable, and printing it in any style and layout and parsing that gives it back |
| `Decimal.ReadUndoesPadding` | src/hadro/select/sql.py:203-207 | digits written for a number, zeros before them or none, are read as that number |
| `Decimal.PaddingUndoesRead` | src/hadro/select/sql.py:203-207 | every run of digits is a number with some zeros before it |
| `Listing.ListObjects` | src/hadro/api/buckets.py:116-138 | the loop's page is the first max-keys entries of the unlimited listing, truncated exactly if more follow, with the name of the last entry shown |
| `Listing.EffectiveMaxKeys` | src/hadro/api/buckets.py:98-103 | 1000 if absent, the number or 1000 if that is less; an error exactly for a negative number |
| `Listing.EntryIsExact` | src/hadro/api/buckets.py:124-138 | for every key, prefix followed by x: it is listed as itself if and only if there is no delimiter or it does not occur in x; otherwise as the common prefix that ends with its first occurrence in x |
| `Listing.ListingIsExact` | src/hadro/api/buckets.py:116-138 | the listing has the entry of every key after the pivot exactly once, in order |
| `Listing.GroupingKeepsOrder` | src/hadro/api/buckets.py:124-129 | keys in order have entries in order; equal entries are one common prefix, for any delimiter |
| `Listing.SharedPrefixGroups` | src/hadro/api/buckets.py:124-127 | a key that starts with another key's common prefix has the same one, self-overlapping delimiters included |
| `Listing.ResumingContinues` | src/hadro/api/buckets.py:105-138 | the listing after the name of an entry is the rest of the listing, whether that is a key or a common prefix |
| `Listing.PagesAreTheListing` | src/hadro/api/buckets.py:105-163 | following the tokens ends, and shows exactly the whole listing if and only if max-keys is at least 1 or no key is to be listed after the pivot |
| `Listing.NothingListed` | src/hadro/api/buckets.py:116-138 | a listing is empty exactly if no key is to be listed after the pivot |
| `LocalWalk.NarrowWalkIsExact` | src/hadro/storage/local.py:65-82 | for every tree and prefix, '.', '..' and empty names included, walking from where the prefix points finds exactly the keys with the prefix, each once |
| `LocalWalk.WalkIsExact` | src/hadro/storage/local.py:79-80 | the full walk visits exactly the directories of the tree |
| `LocalWalk.ListKeys` | src/hadro/storage/local.py:65-88 | strictly sorted, and exactly the keys of the bucket that start with the prefix |
| `LocalWalk.TreeIsPaged` | src/hadro/api/buckets.py:116-163 | from a directory tree to followed pages: a client is shown the entry of every key with the prefix after the pivot, exactly once, in order, and nothing else |
| `LocalWalk.KeysAreListable` | src/hadro/storage/base.py:1-5 | these keys meet what a listing asks of its backend |
| `Sorting.SortOrders` | src/hadro/storage/local.py:84 | sorting orders |
| `Sorting.OrderedUnique` | src/hadro/auth.py:36 | two ordered permutations of each other are equal |
| `Order.FirstDifference` | src/hadro/storage/base.py:3-4 | of two sequences one is below the other if and only if it ends, or has the lower element, where they first differ |
| `Utf8.EncodeKeepsOrder` | src/hadro/storage/base.py:3-4 | code point order of keys is the order of their UTF-8 bytes |
| `Utf8.EncodeKeepsPrefixes` | src/hadro/select/evaluate.py:398-404 | a text starts with another exactly if its bytes do |
| `Utf8.DecodeUndoesEncode` | src/hadro/select/eventstream.py:15-16 | decoding gives the text back |
| `Utf8.ReplacingKeepsText` | src/hadro/select/evaluate.py:408-411 | decoding with replacement keeps text, whatever bytes follow |
| `Utf8.ReplacingIsExact` | src/hadro/select/evaluate.py:408-411 | bytes decoded without a replacement character are those of the decoded text |
| `Utf8.SkippedIsLongest` | src/hadro/select/evaluate.py:408-411 | one replacement character stands for the longest run of bytes that begins a character, or for one byte that begins none |
| `Utf8.ReplacingKeepsPrefixes` | src/hadro/select/evaluate.py:398-411 | a text without U+FFFD starts the decoded bytes exactly if its bytes start the bytes |
| `Cache.CachedBackend.GetCached` | src/hadro/storage/cache.py:34-44 | a fresh entry is returned and becomes the newest, an expired one is dropped, and the size follows |
| `Cache.CachedBackend.Store` | src/hadro/storage/cache.py:46-54 | the new state, with the size the sum of the cached lengths |
| `Cache.CachedBackend.HeadObject` | src/hadro/storage/cache.py:65-77 | the new heads, at most 10 000 |
| `Cache.CachedBackend.GetObject` | src/hadro/storage/cache.py:79-100 | the new state and the answer on every path, the backend changing between its HEAD and its GET |
| `CacheModel.ReadsAreExact` | src/hadro/storage/cache.py:79-100 | while the backend does not change, every path gives exactly the bytes asked for, and the cache stays in agreement |
| `CacheModel.ReadsKeepBounds` | src/hadro/storage/cache.py:79-100 | whatever the backend does: no object twice, none larger than a quarter of the limit, all within the limit, heads bounded |
| `CacheModel.EvictsShortestRun` | src/hadro/storage/cache.py:52-54 | eviction drops the shortest oldest-first run that suffices |
| `CacheModel.StoreKeepsBounds` | src/hadro/storage/cache.py:46-54 | a store keeps the object just stored, as the newest |
| `CacheModel.StoreStaysFull` | src/hadro/storage/cache.py:52-54 | after an eviction the cache stays fuller than the limit less the largest item size |
| `CacheHeads.HeadReadIsExact` | src/hadro/storage/cache.py:65-77 | a head is used if and only if there is one stored less than the time to live ago; otherwise the backend is asked and what it says is kept, 10 000 at most, no object twice |
| `CacheHeads.StoredIsFound` | src/hadro/storage/cache.py:72-76 | after storing, the new head is there and the others are as they were or, if there is no room, gone |
| `CacheHeads.RangedReadsAskFirst` | src/hadro/storage/cache.py:79-100 | full reads leave the heads alone; a ranged read that is not cached asks for the head, answers nothing for a missing object and leaves the cache alone for a large one |
| `CacheStack.LruStack` | src/hadro/storage/cache.py:34-100 | after any full and ranged reads the cache holds exactly the longest most-recent-first run of distinct cacheable objects that fits, in that order |
| `CacheStack.CachedAreCacheable` | src/hadro/storage/cache.py:96-97 | what is cached exists and is small |
| `CacheRuns.EveryRunIsSafe` | src/hadro/storage/cache.py:31-100 | under every interleaving of reads, changes and time: the size is the sum of the cached lengths and within the limit, and every answer was read from the backend for that name |
| `CacheRuns.NextKeepsSafe` | src/hadro/storage/cache.py:34-100 | every single step keeps that |
| `CacheRuns.StoreSizeFollows` | src/hadro/storage/cache.py:46-54 | the running size of a store with its evictions is the sum of what it leaves |
| `CacheRuns.HitsAreYoung` | src/hadro/storage/cache.py:31-54 | in every run a hit gives what an earlier step stored, less than the time to live before |
| `CacheRuns.EntriesWereStored` | src/hadro/storage/cache.py:46-54 | every entry was stored by some step of the run, at the time it says |
| `CacheRuns.ReadsCanGoBack` | src/hadro/storage/cache.py:83-97 | for every limit and time to live, a run in which a later read gets older content |
| `CacheVersions.ResultsHaveVersions` | src/hadro/storage/cache.py:79-100 | under every schedule each result is (a range of) the content of its version |
| `CacheVersions.ReadsNeverGoBack` | src/hadro/storage/cache.py:34-100 | if an object changes only in calm states, whatever began after a result was handed out gets a version that is no older |
| `CacheVersions.NextKeepsOrder` | src/hadro/storage/cache.py:34-100 | every step, and every calm change, keeps what is under way up to date and results no newer than a hit |
| `CacheVersions.QuietIsCalm` | src/hadro/storage/cache.py:79-100 | a state in which no read of the object is under way is calm |
| `CacheRaces.ChangeCanGoBack` | src/hadro/storage/cache.py:34-100 | from every state that is not calm a change of the object can be followed by reads that go back |
| `CacheRaces.OldCopyGoesBack` | src/hadro/storage/cache.py:93-97 | a fetched copy of an old version is stored after a read of the new one |
| `CacheRaces.CachedCopyGoesBack` | src/hadro/storage/cache.py:83-93 | a read under way gets the new content beside an older cached copy |
| `CacheRaces.RoundsPush` | src/hadro/storage/cache.py:46-54 | reading enough other objects pushes out whatever was cached before |
| `Objects.RangesAreInside` | src/hadro/api/objects.py:42-61 | a range that is served lies inside the object, if and only if the object has a byte or the header asks for no suffix |
| `Objects.WholeExactly` | src/hadro/api/objects.py:42-51 | the whole object is sent if and only if there is no header or an empty one, the header without the white space around it is not of the form, or it has no digits at all |
| `Objects.WholeIsServed` | src/hadro/api/objects.py:84-111 | GET then answers 200 with exactly the object, and HEAD 200 with its size |
| `Objects.MatchedTexts` | src/hadro/api/objects.py:25 | a text is matched if and only if it is the unit, digits or none, a dash, and digits or none |
| `Objects.RangeTexts` | src/hadro/api/objects.py:46-49 | every header of that form is read as it is meant, with white space around it or without |
| `Objects.ClosedRange` | src/hadro/api/objects.py:57-61 | first and last byte, leading zeros or none, cut at the end of the object, or unsatisfiable |
| `Objects.OpenRange` | src/hadro/api/objects.py:57-61 | from the first byte on, or unsatisfiable |
| `Objects.SuffixRange` | src/hadro/api/objects.py:52-56 | the last bytes, all of them if there are fewer; zero is unsatisfiable |
| `Objects.HeadPromisesGet` | src/hadro/api/objects.py:90-119 | for every header and object the length promised is the length of the bytes sent |
| `Objects.HeadObject` | src/hadro/api/objects.py:84-97 | status and length for the header and the size the cache or the backend says; those of the object there is if the cache agrees with the backend |
| `Objects.GetObject` | src/hadro/api/objects.py:100-119 | with the backend changing between its HEAD and its GET, what the size and the bytes read make of it, NoSuchKey if the object is gone; over an unchanging backend the same status and exactly the bytes of the range, as many as HEAD says |
| `Bandwidth.FreeIsMaximum` | src/hadro/shaping.py:82-93 | for any interleaving the link is free exactly at the maximum over chunks of the time of the chunk plus the time of all bytes from it on: never promised twice, never idle while a chunk waits |
| `Bandwidth.TotalCap` | src/hadro/shaping.py:82-97 | bytes sent by t from chunks reserved at or after s are at most total rate times t - s, with both caps on and late timers too |
| `Bandwidth.StreamCap` | src/hadro/shaping.py:86-97 | the same for each response and the stream rate, whatever others do |
| `Bandwidth.WindowsCappedExactly` | src/hadro/shaping.py:82-97 | any window carries at most rate times its length and one chunk, if and only if streams are not capped or not below the total rate |
| `Bandwidth.BurstIsShaped` | src/hadro/shaping.py:82-97 | two responses that reserve at time 0 are a run of the shaper |
| `Bandwidth.BurstIsTooMuch` | src/hadro/shaping.py:82-97 | and they send too much in one window |
| `Shaping.Shaper.constructor` | src/hadro/shaping.py:38-50 | an idle link |
| `Shaping.Shaper.Begin` | src/hadro/shaping.py:57-72 | a new response with its own clock and number |
| `Shaping.Shaper.Reserve` | src/hadro/shaping.py:84-91 | the shared clock and the response's own clock after a chunk are those of the run with the chunk |
| `Shaping.Shaper.PacedSend` | src/hadro/shaping.py:74-97 | a body is sent as its pieces, each reserved in turn while others reserve in between; other messages go straight through. Either cap alone keeps all that is sent within a chunk; without caps the message goes as it is |
| `Shaping.PiecesAreTheBody` | src/hadro/shaping.py:80-97 | the pieces are the body, none empty or above the chunk size, and only the last says whether more follows |
| `EventStream.EncodeHeaders` | src/hadro/select/eventstream.py:12-22 | the bytes of all headers in order, or an error exactly if a name or value is too long |
| `EventStream.EncodeMessage` | src/hadro/select/eventstream.py:25-31 | the framed message, or an error exactly if a length does not fit its field |
| `EventStream.HeadersBack` | src/hadro/select/eventstream.py:12-22 | decoding the headers gives them back |
| `EventStream.HeaderLayout` | src/hadro/select/eventstream.py:12-22 | the bytes of a header: name length, name, the type 7, the value length with the high byte first, value |
| `EventStream.MessageLayout` | src/hadro/select/eventstream.py:25-31 | where the parts of a message stand: its whole length and its headers' length, the checksum of these eight bytes, headers, payload, and the checksum of all before it |
| `EventStream.FitsExactly` | src/hadro/select/eventstream.py:12-31 | a message can be framed if and only if every length can be read back from its field of one, two or four bytes |
| `EventStream.FrameBack` | src/hadro/select/eventstream.py:25-31 | a message at the start of any stream decodes to its headers and payload |
| `EventStream.StreamBack` | src/hadro/select/eventstream.py:25-31 | decoding the concatenation of any messages gives them all back, so it determines them |
| `EventStream.SendBatches` | src/hadro/select/__init__.py:287-291 | the loop sends the Records events of the batches up to the first that fails |
| `EventStream.Stream` | src/hadro/select/__init__.py:276-296 | the messages of a whole result: Records, then Stats and End, or an error event |
| `EventStream.PayloadsAreTheRows` | src/hadro/select/__init__.py:287-291 | for a row-by-row serialiser the payloads together are the serialisation of the first rows, of all if no batch failed, and the length reported is theirs |
| `EventStream.BatchesSucceed` | src/hadro/select/__init__.py:287-294 | no batch fails if and only if every row can be written and every batch that is sent gives an event that fits its length fields |
| `EventStream.EndsWellExactly` | src/hadro/select/__init__.py:276-296 | the stream ends with Stats and End if and only if the rows can be written and every event fits |
| `EventStream.ClientReadsTheRows` | src/hadro/select/__init__.py:276-296 | then a client that decodes the stream gets every row written in order, BytesReturned their total length, and the end |
| `EventStream.SelectResultsFit` | src/hadro/select/eventstream.py:34-59 | with the events of S3 Select every result of rows that can be written, below 4 GiB less 64 KiB, can be sent |
| `EventStream.StatisticsTellNumbers` | src/hadro/select/eventstream.py:45-51 | the Stats payload tells its three numbers |
| `EventStream.StatisticsAreNamed` | src/hadro/select/eventstream.py:45-51 | the bytes scanned, processed and returned stand each in the element of that name |
| `EventStream.SelectHeaders` | src/hadro/select/eventstream.py:34-59 | the headers of Records, Stats, End and error events |
| `CanonicalQuery.CanonicalQueryIsFaithful` | src/hadro/auth.py:35-37 | two parameter lists have the same canonical query if and only if they are permutations of each other |
| `CanonicalQuery.CanonicalIsSorted` | src/hadro/auth.py:35-37 | the canonical query has the quoted parameters, each as often as given, in ascending code point order of names and, for equal names, of values; splitting it at the separators gives exactly these |
| `CanonicalQuery.UnreservedStays` | src/hadro/auth.py:36 | a text stays as it is exactly if it has only letters, digits and the four marks, and otherwise gets longer |
| `CanonicalQuery.QuoteInjective` | src/hadro/auth.py:36 | percent-encoding tells texts apart |
| `CanonicalQuery.UnquoteUndoesQuote` | src/hadro/auth.py:36 | decoding gives the UTF-8 bytes back, with every unreserved character of section 2.3 of RFC 3986 kept as it is and upper-case triplets for the rest |
| `CanonicalQuery.JoinInjective` | src/hadro/auth.py:37 | the separators cannot be mistaken for parts of quoted names and values |

## Left out

- `Bandwidth.FreeIsMaximum`: arithmetic is over the reals, so rounding of floating point is not modelled.
- `Cache.CachedBackend.HeadObject`: only the size, not the other metadata, is kept in a head.
- Agreement between cached heads and cached bodies, which expire independently.
- `Listing.PagesAreTheListing`: continuation tokens are the names themselves; their base64 text is not modelled.
- NaN: values within a column are totally ordered, which comparing and inverting operators needs.
- Number, date, time zone and decimal parsing in `coerce`, and a float literal's value: taken from the host; a float literal keeps its numeral.
- `kind`'s reading of type names; JSON metadata is assumed to give the kinds the morsel has, and column names to be distinct.
- Digits, spaces and word characters outside ASCII in SQL and Range headers.
- Error messages and their positions.
- rugo and Draken inside, decompression, row serialisation, the Parquet fast path of `execute`, columns that cannot be decoded, and CSV rows of another width than the header.
- Symbolic links, files that change or vanish during a listing, and reading files.
- Latency, jitter, injected faults and unshaped health requests; sleeps are exact except where late sends are allowed explicitly.
- HMAC, signature checks, CRC-32 itself (any function of the bytes will do), XML, routing, TLS, configuration, the GCS client and the command line: plumbing without deep state.
- Python's recursion and memory limits.
