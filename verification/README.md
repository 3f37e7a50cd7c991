# SQL answer validator, modelled in Dafny

This project models the SQL "equivalence" validator of a SQL quiz. It lives in
`Frontend/src/utils/sqlValidator.js`. The validator decides whether a learner's
statement matches an accepted answer. It never runs the SQL. It works purely
on text, in four stages:

- `normalizeSQL` lower-cases the statement, trims it, strips trailing
  semicolons, collapses whitespace, rewrites `"` to `'` and deletes
  `where 1=1`-style text.
- `parseSQL` reads a record of clause fragments off the normal form. The
  record holds type, distinct, select, from, joins, where, group by, having,
  order by, limit, aggregate functions and the subquery count.
  `parseConditions` splits WHERE and HAVING text on `and`/`or`.
- `arraysMatch` compares two clause lists after the fragment normalisers
  `normalizeColumn`, `normalizeTable` and `normalizeCondition`.
- `validateSQL` runs a fixed, short-circuiting sequence of checks.
  `validateSQLAgainstMany` tries several accepted answers.

Everything is a pure Dafny function over `string` (`seq<char>`).

Each regular expression is an explicit scanner that follows JavaScript's
leftmost, backtracking match order. Lazy groups are tried shortest first and
greedy runs longest first. The quirks of the regexes are kept as written:

- The clause patterns need whitespace before the end of the text. So a clause
  that ends the statement without trailing whitespace is not captured
  (`Clauses.NoStopNoCapture`).
- The JOIN pattern's `[^join|where|group|order|limit]` is a character class
  (`Text.JoinTailChar`).
- The trivial-WHERE deletion removes the `where` keyword, the first listed
  form after which `\b` holds, and a following `and` with its whitespace. An
  `or` stays, and `where true=true` loses only `where true`.

Modules follow the pipeline:

| module | file | contents |
|---|---|---|
| `Text` | `text.dfy` | ASCII character classes, lower-casing, trimming, whitespace collapsing, split/join |
| `Sorting` | `sorting.dfy` | insertion sort on code-unit order; sorting two lists and comparing them is multiset equality |
| `Normalize` | `normalize.dfy` | `normalizeSQL` |
| `Clauses` | `clauses.dfy` | the clause, JOIN, LIMIT and subquery scanners |
| `Parse` | `parse.dfy` | `parseSQL`, `parseConditions` |
| `Fragments` | `fragments.dfy` | `normalizeColumn`, `normalizeTable`, `normalizeCondition` |
| `Compare` | `compare.dfy` | `arraysMatch` |
| `Validate` | `validate.dfy` | `validateSQL`, `validateSQLAgainstMany` |

`arraysMatch` takes a `type` string. The model replaces it with the datatype
`Compare.ClauseKind`; `Other` stands for the default branch.

The twelve checks of `validateSQL` are written as two tables:
`Validate.Fails(i, u, c)` holds the condition of check `i` and
`Validate.Message` holds its feedback. Both list the checks in the source's
order. `Validate.CompareParsed` reports the first check that fails. Joining a
one-element feedback list with `'. '` gives that element, so the feedback is
the message itself.

## Model

| member | source | states |
|---|---|---|
| Text.Lower | Frontend/src/utils/sqlValidator.js:11 | the length is kept; each character is lower-cased on its own, ASCII capitals becoming small letters; no capital remains |
| Text.LowerAppend | Frontend/src/utils/sqlValidator.js:11 | lower-casing distributes over concatenation |
| Text.LowerRemoveSpaces | Frontend/src/utils/sqlValidator.js:11-15 | lower-casing and deleting whitespace commute |
| Text.Trim | Frontend/src/utils/sqlValidator.js:11 | the result is a slice of the input with only whitespace outside it and no whitespace at its own ends; a trimmed input is unchanged |
| Text.TrimKeepsText | Frontend/src/utils/sqlValidator.js:11 | trimming deletes nothing but whitespace |
| Text.Collapse | Frontend/src/utils/sqlValidator.js:15 | the only whitespace left is the plain space, never two in a row; the result is empty iff the input is; the non-whitespace text is unchanged |
| Text.CollapseRun | Frontend/src/utils/sqlValidator.js:15 | a whole whitespace run at the front, of any length and kind, becomes exactly one space |
| Text.CollapseWord | Frontend/src/utils/sqlValidator.js:15 | text without whitespace is left alone |
| Text.CollapseAppend | Frontend/src/utils/sqlValidator.js:15 | collapsing works piece by piece across a cut that does not follow whitespace, so with CollapseRun and CollapseWord it fixes the result |
| Text.CollapseFromSingleSpaced | Frontend/src/utils/sqlValidator.js:15 | the collapsed text from any position is single-spaced |
| Text.CollapseChars | Frontend/src/utils/sqlValidator.js:15 | collapsing introduces no character other than the space |
| Text.CollapseKeepsText | Frontend/src/utils/sqlValidator.js:15 | deleting all whitespace from the collapsed text and from the input gives the same text |
| Text.CollapseOfSingleSpaced | Frontend/src/utils/sqlValidator.js:15 | single-spaced text (from a position that is not a space) is left alone |
| Text.CollapseTrimmed | Frontend/src/utils/sqlValidator.js:15 | collapsing keeps a trimmed string trimmed |
| Text.RemoveSpaces | Frontend/src/utils/sqlValidator.js:181-199 | no whitespace is left; whitespace-free text is unchanged |
| Text.RemoveSpacesChars | Frontend/src/utils/sqlValidator.js:181-199 | deleting whitespace introduces no character |
| Text.RemoveSpacesAppend | Frontend/src/utils/sqlValidator.js:181-199 | deleting whitespace works piece by piece over a concatenation |
| Text.RemoveQuotes | Frontend/src/utils/sqlValidator.js:180-200 | no `'`, `"` or backtick is left; quote-free text is unchanged |
| Text.RemoveQuotesFilters | Frontend/src/utils/sqlValidator.js:180-200 | the result is exactly the non-quote characters of the input, in their order |
| Text.RemoveQuotesAppend | Frontend/src/utils/sqlValidator.js:180-200 | deleting quotes works piece by piece over a concatenation |
| Text.RemoveQuotesChars | Frontend/src/utils/sqlValidator.js:180-200 | deleting quotes introduces no character |
| Text.Split | Frontend/src/utils/sqlValidator.js:90 | `split(',')` (also at lines 60, 109 and 121) gives at least one piece, no piece holds the separator, and joining the pieces with it gives the text back |
| Text.SplitJoin | Frontend/src/utils/sqlValidator.js:90 | splitting the join of separator-free pieces gives the pieces back |
| Normalize.NormalizeSQL | Frontend/src/utils/sqlValidator.js:7-21 | empty input gives `""`; otherwise the result has no upper-case letter and no `"`, and its only whitespace is the plain space |
| Normalize.NormalizePlain | Frontend/src/utils/sqlValidator.js:7-21 | for a statement without `;` and without `w`/`W`, the result keeps exactly the non-whitespace characters, lower-cased, with `"` made `'`, in order, single-spaced and trimmed |
| Normalize.StripTrailingSemicolons | Frontend/src/utils/sqlValidator.js:13 | the result is a prefix of the input, cut at the leftmost position where semicolons followed by trailing whitespace begin; no earlier position starts such a tail |
| Normalize.SemicolonTailAtIff | Frontend/src/utils/sqlValidator.js:13 | the scanner matches `;+\s*$` at `p` iff the text from `p` is one or more semicolons followed by nothing but whitespace |
| Normalize.FirstSemicolonTail | Frontend/src/utils/sqlValidator.js:13 | the position found is the leftmost match from `p`, or the end of the text when there is none |
| Normalize.DoubleToSingleQuotes | Frontend/src/utils/sqlValidator.js:17 | every `"` becomes `'`, every other character is kept, the length is unchanged, and no `"` is left |
| Normalize.QuotesRemoveSpaces | Frontend/src/utils/sqlValidator.js:15-17 | rewriting quotes and deleting whitespace commute |
| Normalize.TrivialWhereAt | Frontend/src/utils/sqlValidator.js:19 | a trivial-WHERE match starts with `where` and runs past the keyword |
| Normalize.TrivialGroupFirst | Frontend/src/utils/sqlValidator.js:19 | the alternation followed by `\b` takes the first alternative, in the listed order, after which `\b` holds |
| Normalize.TrivialGroupNone | Frontend/src/utils/sqlValidator.js:19 | the alternation fails iff no alternative is followed by `\b` |
| Normalize.TrailingAndIff | Frontend/src/utils/sqlValidator.js:19 | `(\s+and\s+)?` consumes something iff whitespace, `and` and whitespace follow; it then takes all the whitespace after `and` |
| Normalize.RemoveTrivialWhere | Frontend/src/utils/sqlValidator.js:19 | the replacement never lengthens the text |
| Normalize.RemoveTrivialWhereNoMatch | Frontend/src/utils/sqlValidator.js:19 | a text where no match starts is left unchanged |
| Normalize.RemoveTrivialWhereCopies | Frontend/src/utils/sqlValidator.js:19 | text where no match starts is copied, whatever follows it |
| Normalize.RemoveTrivialWhereLeftmost | Frontend/src/utils/sqlValidator.js:19 | the leftmost match is deleted, the text before it kept, and the scan goes on after the match |
| Normalize.RemoveTrivialWhereChars | Frontend/src/utils/sqlValidator.js:19 | deleting trivial WHERE text introduces no character that was not in the input |
| Normalize.RemoveTrivialWhereSkips | Frontend/src/utils/sqlValidator.js:19 | text that contains no `w` is copied through unchanged, whatever follows it |
| Normalize.WhereOneAndDeleted | Frontend/src/utils/sqlValidator.js:19 | `where 1=1 and ` before a word is deleted whole |
| Normalize.WhereOneOrKept | Frontend/src/utils/sqlValidator.js:19 | in `where 1=1 or `, only `where 1=1` is deleted and ` or ` stays |
| Normalize.WhereTrueLeavesEquals | Frontend/src/utils/sqlValidator.js:19 | in `where true=true`, only `where true` is deleted and `=true` stays |
| Normalize.NormalizeNotIdempotent | Frontend/src/utils/sqlValidator.js:11-15 | normalising is not idempotent: `"a ;"` gives `"a "`, and a second pass gives `"a"` |
| Normalize.TrivialWhereLeavesSpace | Frontend/src/utils/sqlValidator.js:11-19 | deleting a trivial WHERE keeps the space before it: `a where 1=1` (spelled out character by character) normalises to `a `, and a second pass gives `a` |
| Parse.ParseSQL | Frontend/src/utils/sqlValidator.js:24-128 | an empty statement gives the initial record (unknown type, no distinct, empty lists, null limit, no subqueries); the type is SELECT iff the normal form starts with `select`, distinct holds iff `select\s+distinct` occurs in it, and limit is null iff no LIMIT match occurs in it |
| Parse.ParseSeesNormalForm | Frontend/src/utils/sqlValidator.js:25 | statements with the same normal form parse to the same record |
| Parse.KindOf | Frontend/src/utils/sqlValidator.js:42-51 | the kind is SELECT, INSERT, UPDATE or DELETE exactly when the normal form starts with that keyword; otherwise it is unknown |
| Parse.NameInjective | Frontend/src/utils/sqlValidator.js:28-50 | two `type` strings are equal exactly when the kinds are equal; the unknown kind's name is `''` |
| Parse.ParseNormalized | Frontend/src/utils/sqlValidator.js:24-143 | the type is SELECT, INSERT, UPDATE or DELETE exactly when the text starts with that keyword; distinct holds iff `select\s+distinct` occurs; where and having hold only condition fragments; there is one join per JOIN match, trimmed, single-spaced and with that match's text once whitespace is ignored; from items are trimmed; limit follows the leftmost LIMIT match or is null when none exists; functions are the aggregates called, duplicate-free and in list order; the subquery count is bounded by the text length |
| Parse.ParseSelect | Frontend/src/utils/sqlValidator.js:57-61 | select is empty when no SELECT match exists; otherwise it is the comma split, trimmed and with `as` respaced, of the body of the leftmost match |
| Parse.ParseFrom | Frontend/src/utils/sqlValidator.js:64-91 | when the FROM-then-WHERE match has a trivial WHERE, from is the split of its table text; otherwise from comes from the leftmost FROM match, or is empty when there is none |
| Parse.ParseClauses | Frontend/src/utils/sqlValidator.js:101-122 | where and having are the parsed conditions of the leftmost WHERE/HAVING capture, group by and order by the trimmed comma pieces of theirs; each is empty when its pattern does not match |
| Parse.LimitValue | Frontend/src/utils/sqlValidator.js:125-128 | null iff no position matches `limit\s+(\d+)`; otherwise it is the decimal value of the digits at the leftmost match |
| Parse.FunctionsFrom | Frontend/src/utils/sqlValidator.js:131-137 | an aggregate is listed iff `name\s*(` occurs; no entry is repeated; entries keep the order of `[count,sum,avg,min,max]` |
| Parse.FunctionsAgree | Frontend/src/utils/sqlValidator.js:131-137 | two statements list the same aggregates iff they call the same ones |
| Parse.SameCallsSameFunctions | Frontend/src/utils/sqlValidator.js:131-137 | two statements calling the same aggregates get the same list |
| Parse.TrimmedPieces | Frontend/src/utils/sqlValidator.js:90 | a comma-separated list (FROM here; GROUP BY and ORDER BY at lines 109 and 121) gives one piece per comma-split piece, each that piece trimmed, with no comma |
| Parse.JoinFragments | Frontend/src/utils/sqlValidator.js:96-97 | one entry per JOIN match; entry `i` is trimmed and single-spaced and has the text of match `i` once whitespace is ignored |
| Parse.ParseConditions | Frontend/src/utils/sqlValidator.js:146-172 | empty text gives `[]`; otherwise the result is exactly the split pieces that survive the filter (not empty once trimmed, not `and`/`or`, not trivial), each collapsed, in order; every fragment is a condition fragment |
| Parse.SplitOnOperators | Frontend/src/utils/sqlValidator.js:150 | the split alternates condition pieces and captured operators: an odd number of pieces, every second one `and` or `or` in some letter case |
| Parse.SplitFirstPiece | Frontend/src/utils/sqlValidator.js:150 | the first piece is the text before the first `\s+(and|or)\s+` match; the split has one piece iff there is no match, and then it is the whole text |
| Parse.FirstOperatorLeftmost | Frontend/src/utils/sqlValidator.js:150 | the operator match found is the leftmost from `q`; none is found iff no position from `q` matches |
| Parse.OperatorAt | Frontend/src/utils/sqlValidator.js:150 | in a `\s+(and|or)\s+` match the captured operator is non-empty, with part of the match before and after it |
| Parse.SplitAnd | Frontend/src/utils/sqlValidator.js:150 | `x and y`, when no operator match starts inside `x`, splits into `x`, `and`, then the split of `y` without its leading whitespace |
| Parse.SplitOr | Frontend/src/utils/sqlValidator.js:150 | the same for `x or y`, when no operator match starts inside `x` |
| Parse.OperatorsDropped | Frontend/src/utils/sqlValidator.js:152-153 | the operator pieces `and` and `or` are not kept |
| Parse.KeepConditionsAppend | Frontend/src/utils/sqlValidator.js:151-170 | the filter works piece by piece: filtering a concatenation concatenates the filtered parts |
| Parse.KeepConditionsFragments | Frontend/src/utils/sqlValidator.js:151-170 | at most one fragment per piece; every fragment kept is a condition fragment |
| Parse.CollapsedFragment | Frontend/src/utils/sqlValidator.js:152-157 | a trimmed piece that is neither an operator nor trivial gives a condition fragment once its whitespace is collapsed |
| Parse.AndOrAlike | Frontend/src/utils/sqlValidator.js:150-153 | `x and y` and `x or y` give the same condition list when the split finds no operator inside `x`, because the operators are dropped |
| Parse.AndOrDifferWhenFirstHoldsOperator | Frontend/src/utils/sqlValidator.js:150-153 | without that condition the lists can differ: `a and` followed by `and y` gives `["a", "and y"]`, followed by `or y` gives `["a", "or y"]` |
| Parse.ReplaceAsKeepsText | Frontend/src/utils/sqlValidator.js:60 | on lower-case text, rewriting `\s+as\s+` to ` as ` changes nothing but whitespace |
| Clauses.CaptureFrom | Frontend/src/utils/sqlValidator.js:101-119 | the capture found is the leftmost match from `p`, with the backtracking choice of JavaScript (longest `\s+` first, shortest body first); none is found iff no position from `p` matches |
| Clauses.Capture | Frontend/src/utils/sqlValidator.js:101-119 | a captured clause body is the body of the leftmost match, at least as long as the pattern's minimum; there is none iff no position matches |
| Clauses.CaptureNeedsSpaceAfter | Frontend/src/utils/sqlValidator.js:101-119 | every clause match is followed by a whitespace character, so it never ends at the end of the text |
| Clauses.NoStopNoCapture | Frontend/src/utils/sqlValidator.js:101-119 | when no whitespace is followed by a stop word, and the text does not end in whitespace where `$` is allowed, the clause is not captured |
| Clauses.SelectFrom | Frontend/src/utils/sqlValidator.js:57 | the SELECT capture found is the leftmost match from `p`, with the longest `\s+` and the optional `distinct` tried first and the shortest body; none iff no position matches |
| Clauses.SelectCapture | Frontend/src/utils/sqlValidator.js:57 | the captured SELECT body is the body of the leftmost match; there is none iff no position matches |
| Clauses.SelectSpaceFirstFit | Frontend/src/utils/sqlValidator.js:57 | trying whitespace runs from the longest down gives the first fit in JavaScript's backtracking order, or nothing when no run fits |
| Clauses.FromWhereFrom | Frontend/src/utils/sqlValidator.js:66 | the four positions found are those of the leftmost FROM-then-WHERE match from `p`, in backtracking order; none iff no position matches |
| Clauses.FromWhere | Frontend/src/utils/sqlValidator.js:66 | the table and WHERE captures are those of the leftmost match, the tables non-empty; there are none iff no position matches |
| Clauses.TablesThenWhereFirst | Frontend/src/utils/sqlValidator.js:66 | the lazy table capture is grown one character at a time until a WHERE part fits, and the first fit is taken |
| Clauses.SelectDistinctAtIff | Frontend/src/utils/sqlValidator.js:54 | `select\s+distinct` matches at `p` iff `select` is there followed by some whitespace stretch and `distinct` |
| Clauses.CallAtIff | Frontend/src/utils/sqlValidator.js:133-134 | `name\s*\(` matches at `p` iff `name` is there followed by some whitespace stretch and `(` |
| Clauses.JoinsFrom | Frontend/src/utils/sqlValidator.js:94-95 | every JOIN match is non-empty |
| Clauses.JoinsFromEmpty | Frontend/src/utils/sqlValidator.js:94-95 | there are no JOIN fragments iff no position matches the JOIN pattern |
| Clauses.JoinsFromFirst | Frontend/src/utils/sqlValidator.js:94-95 | a non-empty list starts with the leftmost JOIN match, and the rest is the list of matches after it |
| Clauses.JoinAt | Frontend/src/utils/sqlValidator.js:94 | a JOIN match is non-empty and its final run is maximal: the text ends there or the next character is outside `[^join|where|group|order|limit]` |
| Clauses.SubqueriesFrom | Frontend/src/utils/sqlValidator.js:140 | each counted `(\s*select\s+` occupies at least eight characters, so the count is at most an eighth of the text |
| Clauses.SubqueriesFromZero | Frontend/src/utils/sqlValidator.js:140 | the count is zero iff no position matches |
| Clauses.SubqueriesFromFirst | Frontend/src/utils/sqlValidator.js:140 | a non-zero count is one for the leftmost match plus the count after it |
| Clauses.SubqueryAt | Frontend/src/utils/sqlValidator.js:140 | a `\(\s*select\s+` match takes at least eight characters |
| Clauses.LimitAt | Frontend/src/utils/sqlValidator.js:125 | the captured LIMIT text is a non-empty run of digits |
| Clauses.FirstLimit | Frontend/src/utils/sqlValidator.js:125 | the position found from `p` is a `limit\s+(\d+)` match and no earlier position from `p` matches; none is found iff no position from `p` matches |
| Fragments.NormalizeColumn | Frontend/src/utils/sqlValidator.js:175-183 | the result has no whitespace, no `'`, `"` or backtick, and no upper-case letter |
| Fragments.NormalizeTable | Frontend/src/utils/sqlValidator.js:186-194 | the result has no whitespace, no `'`, `"` or backtick, and no upper-case letter |
| Fragments.NormalizeCondition | Frontend/src/utils/sqlValidator.js:197-202 | the result has no whitespace, no `'`, `"` or backtick, and no upper-case letter |
| Fragments.RemoveAliases | Frontend/src/utils/sqlValidator.js:178 | `\s+as\s+\w+` deletion never lengthens the text, and leaves it unchanged iff no position matches |
| Fragments.RemoveAliasesFrom | Frontend/src/utils/sqlValidator.js:178 | the deletion from `p` shortens the text exactly when a match exists and copies it otherwise |
| Fragments.NextAliasLeftmost | Frontend/src/utils/sqlValidator.js:178 | the alias match found is the leftmost one from `p` |
| Fragments.NextAliasNone | Frontend/src/utils/sqlValidator.js:178 | no alias match is found iff no position from `p` matches |
| Fragments.StripTrailingAlias | Frontend/src/utils/sqlValidator.js:190 | the result is a prefix of the input, cut at the leftmost `\s+\w+$` match; the input is kept iff there is no match |
| Fragments.FirstTrailingAliasLeftmost | Frontend/src/utils/sqlValidator.js:190 | the position found is the leftmost `\s+\w+$` match from `p` |
| Fragments.FirstTrailingAliasNone | Frontend/src/utils/sqlValidator.js:190 | no position is found iff none from `p` matches |
| Fragments.StripQualifier | Frontend/src/utils/sqlValidator.js:179 | a changed result is what follows the first `.`, whose prefix is a non-empty word |
| Fragments.Squeeze | Frontend/src/utils/sqlValidator.js:180-201 | the common tail of the normalisers keeps exactly the characters that are neither whitespace nor quotes, in order and lower-cased; the result is a canonical key |
| Fragments.SqueezeCanonical | Frontend/src/utils/sqlValidator.js:180-201 | a canonical key is left unchanged by that tail |
| Fragments.NormalizeConditionIdempotent | Frontend/src/utils/sqlValidator.js:197-202 | normalising a condition twice gives the same as once |
| Fragments.NormalizeConditionIgnoresCase | Frontend/src/utils/sqlValidator.js:197-202 | conditions that differ only in letter case normalise alike |
| Fragments.ColumnWithQualifierAndAlias | Frontend/src/utils/sqlValidator.js:175-183 | `q.c as a` (any case of `as`) normalises to `c` lower-cased, for word-character `q`, `c` and `a` |
| Fragments.ColumnWithQualifier | Frontend/src/utils/sqlValidator.js:175-183 | `q.c`, for a word `q` and a canonical `c`, normalises to `c` |
| Fragments.TableWithAlias | Frontend/src/utils/sqlValidator.js:186-194 | `t a` normalises to `t` lower-cased, for words `t` and `a` |
| Fragments.TableWithAsAlias | Frontend/src/utils/sqlValidator.js:186-194 | `t as a` (any case of `as`) normalises to `t` lower-cased |
| Fragments.DocumentedColumnExample | Frontend/src/utils/sqlValidator.js:176 | `p.ProductName as name` normalises to `productname` |
| Fragments.DocumentedTableExamples | Frontend/src/utils/sqlValidator.js:187 | `Products p` and `Products AS p` normalise to `products` |
| Fragments.NormalizeColumnNotIdempotent | Frontend/src/utils/sqlValidator.js:179 | only one qualifier is stripped per pass: `a.b.c` gives `b.c`, and that gives `c` |
| Fragments.AliasAt | Frontend/src/utils/sqlValidator.js:178 | a `\s+as\s+\w+` match (here and at line 189) takes at least five characters |
| Fragments.AliasDeleted | Frontend/src/utils/sqlValidator.js:178 | `x as a` (any case of `as`; the same deletion as line 189) loses ` as a` when `x` has no whitespace and `a` is a word |
| Fragments.NoTrailingAliasWithoutSpace | Frontend/src/utils/sqlValidator.js:190 | text without whitespace has no `\s+\w+$` match, so it keeps its last word |
| Fragments.QualifierStripped | Frontend/src/utils/sqlValidator.js:179 | for a word `q`, stripping the qualifier of `q.c` leaves `c` |
| Sorting.StrLeTotal | Frontend/src/utils/sqlValidator.js:211-212 | code-unit order compares every two strings |
| Sorting.StrLeAntisymmetric | Frontend/src/utils/sqlValidator.js:211-212 | strings ordered both ways are equal |
| Sorting.StrLeTransitive | Frontend/src/utils/sqlValidator.js:211-212 | code-unit order is transitive |
| Sorting.Insert | Frontend/src/utils/sqlValidator.js:211-212 | inserting into a sorted list keeps it sorted and adds exactly the new item |
| Sorting.Sort | Frontend/src/utils/sqlValidator.js:211-212 | the sorted list is in order and is a permutation of the input |
| Sorting.SortedUnique | Frontend/src/utils/sqlValidator.js:211-212 | two sorted lists with the same items are the same list |
| Sorting.SortEqualIff | Frontend/src/utils/sqlValidator.js:211-213 | two lists sort to the same list iff they are permutations of each other |
| Compare.ArraysMatch | Frontend/src/utils/sqlValidator.js:205-265 | lists of different lengths never match; SELECT lists of equal length match whenever either holds `*` |
| Compare.DropTrivial | Frontend/src/utils/sqlValidator.js:224-238 | the filtered list is exactly the non-trivial conditions of the input, in order |
| Compare.DropTrivialMultiset | Frontend/src/utils/sqlValidator.js:237-238 | filtering permutations gives permutations |
| Compare.EveryAtIff | Frontend/src/utils/sqlValidator.js:213 | for lists of equal length, agreeing position by position is list equality |
| Compare.SortedBranchIff | Frontend/src/utils/sqlValidator.js:211-213 | sorting both lists and comparing them position by position holds iff they are permutations of each other |
| Compare.MapMultiset | Frontend/src/utils/sqlValidator.js:211-212 | normalising permutations gives permutations |
| Compare.SortedAgreeIff | Frontend/src/utils/sqlValidator.js:211-213 | for lists of equal length, comparing the sorted lists position by position is multiset equality |
| Compare.LengthsMustAgree | Frontend/src/utils/sqlValidator.js:206 | lists of different lengths never match, whatever the clause kind, even with `*` |
| Compare.SelectMatchIff | Frontend/src/utils/sqlValidator.js:206-214 | SELECT lists match iff they have equal length and either one contains `*` or the normalised columns are the same multiset |
| Compare.FromMatchIff | Frontend/src/utils/sqlValidator.js:216-220 | FROM lists match iff the normalised tables are the same multiset |
| Compare.GroupByMatchIff | Frontend/src/utils/sqlValidator.js:246-250 | GROUP BY lists match iff the normalised columns are the same multiset |
| Compare.ConditionsMatchIff | Frontend/src/utils/sqlValidator.js:222-244 | WHERE/HAVING lists match iff they have equal length (line 206) and either both have only trivial conditions or their normalised non-trivial conditions are the same multiset |
| Compare.StrictMatchIff | Frontend/src/utils/sqlValidator.js:259-262 | the strict default branch matches iff the lists are permutations of each other |
| Compare.OrderByMatchIff | Frontend/src/utils/sqlValidator.js:252-256 | ORDER BY lists match iff the normalised columns are equal position by position |
| Compare.OrderBySwapFails | Frontend/src/utils/sqlValidator.js:252-256 | swapping two items of a matching ORDER BY list that normalise differently breaks the match |
| Compare.PermutationInvariant | Frontend/src/utils/sqlValidator.js:205-250 | for SELECT, FROM, WHERE, HAVING and GROUP BY, permuting a list does not change the result |
| Compare.StrictPermutationInvariant | Frontend/src/utils/sqlValidator.js:259-262 | the strict branch does not change under permuting a list |
| Compare.MatchSymmetric | Frontend/src/utils/sqlValidator.js:205-262 | every branch except the non-strict default is symmetric in its two lists |
| Validate.ValidateSQL | Frontend/src/utils/sqlValidator.js:269-386 | valid iff the normal forms are equal or all twelve checks pass, with `Perfect match!` exactly when the normal forms are equal and the equivalence message otherwise; otherwise the feedback is the message of the first failing check, every earlier check passing |
| Validate.Fails | Frontend/src/utils/sqlValidator.js:284-381 | there are twelve checks; the first fails iff the types differ; the SELECT check passes on equal-length lists with `*` |
| Validate.Message | Frontend/src/utils/sqlValidator.js:284-381 | each of the twelve checks has a message of at least two characters; there is none beyond them |
| Validate.MessageIdentifiesCheck | Frontend/src/utils/sqlValidator.js:284-381 | no two checks share a message, so the feedback names the check that failed |
| Validate.FirstFailure | Frontend/src/utils/sqlValidator.js:284-381 | finds the first failing check from `i` on, with all earlier checks passing; none means every remaining check passes |
| Validate.CompareParsed | Frontend/src/utils/sqlValidator.js:284-386 | valid iff all twelve checks pass, with the "semantically equivalent" message; otherwise the verdict is the message of the first failing check, with every earlier check passing |
| Validate.SameChecksSameVerdict | Frontend/src/utils/sqlValidator.js:284-386 | the verdict depends only on which checks fail |
| Validate.SameNormalFormIsPerfect | Frontend/src/utils/sqlValidator.js:271-277 | equal normal forms give `{true, 'Perfect match!'}` |
| Validate.ValidateReflexive | Frontend/src/utils/sqlValidator.js:271-277 | every statement is a perfect match for itself |
| Validate.FailsSymmetric | Frontend/src/utils/sqlValidator.js:284-381 | each check fails or passes alike when the two statements change sides |
| Validate.CompareSymmetric | Frontend/src/utils/sqlValidator.js:284-386 | whether the checks accept does not depend on the order of the two parsed statements |
| Validate.ValidSymmetric | Frontend/src/utils/sqlValidator.js:269-386 | `validateSQL(a, b).isValid == validateSQL(b, a).isValid` |
| Validate.JoinsOnlyCounted | Frontend/src/utils/sqlValidator.js:310-314 | replacing the JOIN fragments by any list of the same length leaves the verdict unchanged |
| Validate.DistinctReportedFirst | Frontend/src/utils/sqlValidator.js:284-294 | with the same type and a DISTINCT mismatch, the feedback is `DISTINCT usage differs`, whatever else differs |
| Validate.WrongTypeNamesExpected | Frontend/src/utils/sqlValidator.js:284-288 | a type mismatch gives `Wrong query type. Expected <T>`, where T is the answer's type |
| Validate.LimitComparedExactly | Frontend/src/utils/sqlValidator.js:371-375 | the LIMIT check fails iff exactly one side has a limit, or both have one and the values differ |
| Validate.ValidateAgainstMany | Frontend/src/utils/sqlValidator.js:397-413 | valid iff the statement validates against some candidate answer, and then the verdict is that of the first candidate that validates, every earlier one failing; otherwise `Your query does not match any of the expected answers.` |
| Validate.Candidates | Frontend/src/utils/sqlValidator.js:398-401 | a single answer is wrapped in a one-element list; a list is taken as it is |
| Validate.FirstValid | Frontend/src/utils/sqlValidator.js:402-412 | valid iff some answer validates; then the result is the first valid one, with every earlier answer failing; otherwise `{false, 'Your query does not match any of the expected answers.'}` |
| Validate.SingleAnswer | Frontend/src/utils/sqlValidator.js:397-413 | with one answer, the result is `validateSQL`'s when it accepts, and the fixed failure otherwise |
| Validate.NoAnswers | Frontend/src/utils/sqlValidator.js:402-412 | an empty answer list gives the fixed failure |
| Validate.SelfAmongAnswers | Frontend/src/utils/sqlValidator.js:397-413 | a statement listed among the answers is always accepted |

## Left out

- Unicode: `\s`, `\w`, `toLowerCase` and `trim` are ASCII-only here. Whitespace is space and tab through carriage return, and only `A`-`Z` are lower-cased. JavaScript's Unicode whitespace and case mapping are not modelled.
- Sort order: `Array.prototype.sort` compares UTF-16 code units; the model compares `char` values. These agree on ASCII text.
- `parseInt` precision: LIMIT values are unbounded naturals. The loss of precision of JavaScript numbers above 2^53 is not modelled.
- The `catch` branch at `Frontend/src/utils/sqlValidator.js:388-393`: it is reachable only for non-string inputs, and every input here is a string.
- The non-strict default branch at `Frontend/src/utils/sqlValidator.js:263-265` is modelled (`Compare.FuzzyAgree`) but has no lemma. `validateSQL` never reaches it, because it passes `strict = true` at line 357.
- Two expectations in `Frontend/src/utils/sqlValidator.test.js` disagree with the code, and the model follows the code. The first is lines 22-27: the trivial WHERE deletion leaves a trailing space, so FROM is captured on one side only. The second is lines 43-48: both WHERE clauses end the statement with no whitespace after them, so neither is captured (`Clauses.NoStopNoCapture`). Neither expectation is stated as a lemma about the whole pipeline.
- Parse.AndOrAlike: stated only when the split finds no operator inside `x`. Without that condition the claim is false: for `x` = `a and` and `y` = `y`, the lists are `["a", "and y"]` and `["a", "or y"]` (`Parse.AndOrDifferWhenFirstHoldsOperator`).
- Normalize.NormalizeSQL: its own contract states the shape of the result only. The content is stated by `Normalize.NormalizePlain` for statements without `;` and `w`, and stage by stage elsewhere (`Text.Trim`, `Text.Lower`, `Normalize.StripTrailingSemicolons`, `Text.Collapse`, `Normalize.DoubleToSingleQuotes`, `Normalize.RemoveTrivialWhereLeftmost`). No single lemma composes the stages for every input.
- Normalize.TrivialWhereAt: its own contract bounds the match. Which alternative is taken and what `(\s+and\s+)?` consumes are stated by `Normalize.TrivialGroupFirst`, `Normalize.TrivialGroupNone` and `Normalize.TrailingAndIff`.
- Normalize.RemoveTrivialWhere: its own contract is the length bound. The deletions are stated by `Normalize.RemoveTrivialWhereLeftmost`, `Normalize.RemoveTrivialWhereCopies` and `Normalize.RemoveTrivialWhereNoMatch`.
- Parse.ParseNormalized: its own contract does not fix select, group by, order by, where and having. Those are stated by `Parse.ParseSelect`, `Parse.ParseFrom` and `Parse.ParseClauses`.
- Parse.ParseSQL: states the type, distinct and limit against the normal form. The other fields follow through `Parse.ParseNormalized` and its field lemmas.
- Clauses.JoinsFrom: its own contract is non-emptiness. The matches are stated by `Clauses.JoinsFromEmpty` and `Clauses.JoinsFromFirst`.
- Clauses.SubqueriesFrom: its own contract is the upper bound. The count is stated by `Clauses.SubqueriesFromZero` and `Clauses.SubqueriesFromFirst`.
- Compare.ArraysMatch: its own contract states the length rule and the `*` rule. Each branch is stated by the `Compare.*MatchIff` lemmas.
- Validate.Fails: its own contract states the type check and the number of checks. The other checks are its definition, one line of the source each.
- Validate.Message: its own contract states only the message lengths. The messages are the source's literals, and `Validate.MessageIdentifiesCheck` states that they are distinct.
- Idempotence of `normalizeSQL` and `normalizeColumn` is not claimed; both fail it (`Normalize.NormalizeNotIdempotent`, `Normalize.TrivialWhereLeavesSpace`, `Fragments.NormalizeColumnNotIdempotent`).
- `Backend/server.js`, `Backend/diagnose.js` and `Backend/DB/innitdb.js` are not part of this model. They are an HTTP server, database access and setup scripts, all I/O.
- The React components under `Frontend/src/components/` and `Frontend/src/App.jsx` are not part of this model. They hold UI state, timers, random question choice and floating-point scoring.
