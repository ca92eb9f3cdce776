# Roadmunk ESLint rules, modelled in Dafny

This project models the decision logic of a set of ESLint rules and their autofixes.

**The import ordering engine** (`lib/order-common.js`) is the centre:
- every registered import gets a rank from its module name, by matching it against a category table;
- a greedy scan with a running maximum flags the imports that rank below an earlier one;
- each flagged import is reported with an anchor, the first import that ranks strictly above it;
- the report's fix is a pair of edits: it removes the import, with any trailing comment that starts on its last line and the character after it, and re-inserts that text followed by a newline in front of the anchor's statement.

**Other modelled pieces:**
- the older `order-require` rule, with its own rank table and its climb to the statement to move;
- the helpers of `lib/helper.js`:
  - the property-path check;
  - the `require` call test;
  - the `_.isNull` / `_.isUndefined` autofix, which handles `!` parity and parentheses;
- `prefer-isempty`, which classifies `.length` comparisons and rewrites them;
- `no-require-path-js`, which strips a `.js` suffix;
- `align-assign`, which finds candidates, groups them into blocks, computes the target `=` column and builds the whitespace fix;
- the two log-context rules, which derive the expected context from the file name and the enclosing function, and check it;
- `log-message-length`;
- `no-lodash-deprecated-functions`.

**Modules:**
- `Optional`, `Text` and `Ast` are shared building blocks:
  - `Text` holds the JavaScript string operations the rules use (`includes`, `startsWith`, `endsWith`, `substring`, `indexOf`, `split`, `join`) and source edits with their application.
  - `Ast` is a small stand-in for the ESTree nodes the rules read.
- `Ordering` holds the parts of the ordering engine that do not depend on how ranks are computed. It is generic in the record type and is shared by `OrderCommon` and `OrderRequire`.
- Every other module follows one source file.

Host services become parameters:
- the source text;
- node offsets, lines and columns;
- comments;
- the file name;
- the chain of ancestors of a node.

A report is a value: its message and its edits. A thrown `TypeError` is an explicit outcome (`LogContext.Throws`).

## Model

| member | source | states |
|---|---|---|
| OrderCommon.ComputeRank | lib/order-common.js:55-86 | A bare package name that matches no entry ranks 0. A name whose last matching entry is at table position k ranks 2(k+1), plus one when it starts with `.`; matched ranks lie in [2, 21]. An unmatched name with a `/` ranks 22, and an unmatched relative name without one ranks 24, the largest rank. |
| OrderCommon.ComputeRankByCategory | lib/order-common.js:55-86 | For any table without duplicates, filtering and then taking `indexOf` of the last match ranks a name exactly by its category: the highest matching table position and whether it is relative. |
| OrderCommon.LastOfMatches | lib/order-common.js:57 | The filtered list is empty exactly when no entry matches, and its last element is the entry at the highest matching position. |
| OrderCommon.CategoryRankRoundTrip | lib/order-common.js:60-83 | The category can be read back from the rank, so different categories never share a rank. |
| OrderCommon.RelativeVariantRanksOneAbove | lib/order-common.js:79-82 | `./x` and `../x` rank exactly one above a matching non-relative name `x`. |
| OrderCommon.RegisterNode | lib/order-common.js:30-33 | Registration appends one record carrying the name, the root and the category rank, and leaves the earlier records as they were. |
| OrderCommon.ExtendEndIsMax | lib/order-common.js:113-120 | The extended end is at least the statement's end and at least the end of every comment starting on the given line. It equals one of these. |
| OrderCommon.MovedEnd | lib/order-common.js:108-120 | The moved span ends at the later of the statement's end and the ends of the trailing comments that start on the statement's last line. |
| OrderCommon.OtherLineCommentIgnored | lib/order-common.js:115-119 | A trailing comment that starts on another line never changes the moved span, wherever it sits among the comments. |
| OrderCommon.ImportFixMovesCommentToo | lib/order-common.js:100-141 | For imports in source order, the fix for an out-of-order import is a valid edit set. Applied, it moves the import and its same-line comment, then a newline, in front of the first import that ranks above it. This holds as well for an import that ends the file, where nothing follows it to remove. |
| Ordering.MaxRankAtMost | lib/order-common.js:166-180 | The running maximum is at most x exactly when every rank seen so far is at most x. |
| Ordering.DetectOutOfOrder | lib/order-common.js:165-183 | The single pass returns, in list order, exactly the records that rank strictly below the greatest earlier rank. `lib/rules/order-require.js` has its own copy of this pass (lines 47-61). |
| Ordering.NothingFlaggedIffNonDecreasing | lib/order-common.js:165-183 | Nothing is flagged exactly when the ranks never decrease along the list, ties allowed. |
| Ordering.FlaggedAreOutOfOrder | lib/order-common.js:173-176 | Every flagged record stands at a position where some earlier record ranks above it. |
| Ordering.FindAnchorFrom | lib/order-common.js:156 | `list.find(x => x.rank > r)` finds the first record ranking strictly above r, or none when no record does. |
| Ordering.AnchorPrecedesViolator | lib/order-common.js:154-157 | An out-of-order record always has an anchor, and the anchor comes before it in the list. |
| Ordering.ReportAll | lib/order-common.js:155-158 | The loop makes one report per record, in order. Each is about its record, carries its message, and has the first record ranking above it as anchor. |
| Ordering.GenerateReport | lib/order-common.js:148-159 | One report per flagged record, in list order, each anchored at the first record ranking strictly above it. |
| Ordering.RelocationAppliedInOrder | lib/order-common.js:130-138 | When the anchor lies before the violator, the edit pair is valid and non-overlapping. Applying it equals removing the violator first and then replacing the anchor. |
| Ordering.RelocationComposed | lib/order-common.js:122-138 | Removing `[s1, e1+1)` and then replacing the anchor `[s2, e2)` with the violator, a newline and the anchor gives one splice of the original text. |
| Ordering.RelocationSplice | lib/order-common.js:122-138 | When the anchor lies before the violator, the edit pair is valid and moves the violator and a newline in front of the anchor. Everything before the anchor and after the removed character stays. A violator that ends the text loses no character after it, so the text grows by one. |
| Ordering.RelocationKeepsCharacters | lib/order-common.js:130-138 | When the character removed after the violator is a newline, the fix only rearranges characters: the multiset of characters is unchanged. When the violator ends the text, the fix adds exactly one newline. |
| Ordering.FixMovesViolatorBeforeAnchor | lib/order-common.js:100-141 | For records in source order, the fix of an out-of-order record is the splice that moves its span in front of its anchor, which lies earlier in the list. A span that ends the text is included. |
| OrderRequire.ComputeRank | lib/rules/order-require.js:26-40 | The rank is one more than the position of the last matching entry, so no match gives 0 and every rank lies in [0, 8]. The `!match` branch never applies. |
| OrderRequire.RelativePrefixKeepsRank | lib/rules/order-require.js:26-40 | `./x` and `../x` rank exactly like `x`: relative names get no rank of their own. |
| OrderRequire.FindRootNode | lib/rules/order-require.js:63-71 | The climb stops at the node whose parent is missing or has a body, with no body-holding node below it. |
| OrderRequire.RootUnique | lib/rules/order-require.js:63-71 | That stopping point is unique. |
| OrderRequire.RegisterCall | lib/rules/order-require.js:130-138 | A call is appended exactly when it is `require` of one literal and its parent is a variable declarator. The new record holds the module name, its rank and the given root's range, and the list is otherwise unchanged. |
| OrderRequire.RegisterRequire | lib/rules/order-require.js:89-95 | The recorded range of a registered `require` is that of the node the climb from the call stops at. The record is appended exactly when the call is a `require` of one literal under a variable declarator. |
| OrderRequire.GenerateRequireReport | lib/rules/order-require.js:117-128 | One report per flagged `require`, in order. Each message is the module name followed by ` was not required in the correct order`, and each anchor is the first `require` ranking above it. |
| OrderRequire.RequireFixMovesStatement | lib/rules/order-require.js:85-115 | For `require`s in source order, the fix is a valid edit set. It moves exactly the statement, with no comment extension and then a newline, in front of its anchor's statement, also when the statement ends the file. |
| OrderRequire.ModelsRank | lib/rules/order-require.js:26-40 | `models/a` ranks 4, in the `models` category. |
| OrderRequire.RoadmunkRank | lib/rules/order-require.js:26-40 | `@roadmunk/b` ranks 1, in the `@roadmunk` category. |
| OrderRequire.SharedDeclarationFixOverlaps | lib/rules/order-require.js:63-71 | As written, in `const a = require('models/a'), b = require('@roadmunk/b');` both records carry the declaration's range. The second is flagged with the first as its anchor, and its two edits overlap, so they are not a valid edit set. |
| OrderRequire.RequireFixCorrected | lib/rules/order-require.js:100-113 | Corrected, a fix is offered exactly when the anchor's statement ends before the violator's begins, and it is then the fix as written. |
| OrderRequire.CorrectedFixNeverOverlaps | lib/rules/order-require.js:85-115 | With shared declarations allowed, the corrected fix is withheld exactly when the violator shares its anchor's non-empty range. Otherwise it is a valid edit set that moves the statement in front of its anchor. |
| Helper.HasPropsWithValues | lib/helper.js:12-22 | False for a missing node, true for no attributes. Otherwise true exactly when every path looks up to its given value. |
| Helper.HasPropsConcat | lib/helper.js:12-22 | Checking two attribute lists together is checking each of them. |
| Helper.IdentifierWithNameSpec | lib/helper.js:24-26 | The `type`/`name` path check holds exactly when the named child is the identifier with that name. |
| Helper.IsPropertyAnIdentifierWithName | lib/helper.js:28-30 | Holds exactly for a member expression whose property is the identifier `name`. |
| Helper.IsObjectAnIdentifierWithName | lib/helper.js:32-34 | Holds exactly for a member expression whose object is the identifier `name`. |
| Helper.IsRequire | lib/helper.js:104-110 | Holds exactly for a call of the identifier `require` with a single literal argument. `lib/rules/order-require.js` has the same function at lines 13-19. |
| Helper.ConsumedSpec | lib/helper.js:70-78 | The number of `!` parents consumed is the unique count that takes all of them, up to two. |
| Helper.LodashAutofix | lib/helper.js:46-96 | No fix when the parent is not a call or the call has more than one argument. Otherwise it replaces the outermost consumed node with the argument text compared by `!==` (one `!` consumed) or `===` (none or two). The comparison is parenthesised only under a binary expression. |
| Helper.AutofixKeepsValue | lib/helper.js:65-80 | The replacement comparison has the truth value of the node it replaces: `!==` exactly when the consumed `!` operators negate the test. Spliced under a further unary operator, the unparenthesised text does not keep that value (see Findings). |
| Helper.NegationsParity | lib/helper.js:70-78 | Applying `!` an odd number of times negates, an even number keeps. |
| Helper.TripleNotLosesParentheses | lib/helper.js:87-95 | As written, `!!!_.isNull(x)` becomes `!x === null`, which negates `x` rather than the comparison. |
| Helper.LodashAutofixCorrected | lib/helper.js:87-95 | The autofix with the comparison parenthesised under any operator, unary included. |
| Helper.TripleNotKeepsParentheses | lib/helper.js:87-95 | Corrected, `!!!_.isNull(x)` becomes `!(x === null)`. |
| Helper.CorrectedWrapsUnderOperators | lib/helper.js:87-95 | Corrected, the replacement is in parentheses whenever the replaced node is an operand. Away from unary parents it agrees with the original. |
| PreferIsEmpty.Classify | lib/rules/prefer-isempty.js:37-67 | A comparison is classified exactly for `===`/`!==` against 0 in either order and the four one-sided forms. It is negated for all but `===`, and the length operand reads `.length`. |
| PreferIsEmpty.FlaggedComparisonIsEmptinessTest | lib/rules/prefer-isempty.js:37-67 | Every classified comparison, evaluated with any length, tests emptiness when not negated and non-emptiness when negated. |
| PreferIsEmpty.OtherComparisonsNotFlagged | lib/rules/prefer-isempty.js:37-69 | `length === 1`, `length < 0`, `0 > length`, `1 < length`, `length > 1` and `==` are not reported. |
| PreferIsEmpty.CollectionOf | lib/rules/prefer-isempty.js:70-84 | The collection is the argument of a one-argument `Object.keys` call, and otherwise the object whose `.length` is read. |
| PreferIsEmpty.FixTextRoundTrip | lib/rules/prefer-isempty.js:92 | The negation and the collection text can be read back from the replacement text. |
| PreferIsEmpty.PreferIsEmptyFix | lib/rules/prefer-isempty.js:69-96 | A fix exists exactly for the classified forms. It replaces the whole comparison, and its text starts with `!` exactly when negated and holds the collection's source. |
| NoRequirePathJs.GetFixedModuleName | lib/rules/no-require-path-js.js:39-41 | The last three characters go exactly when the name ends in `.js`, and the result is always a prefix of the name. |
| NoRequirePathJs.FixedNameRoundTrip | lib/rules/no-require-path-js.js:39-41 | Stripping `base + ".js"` gives back `base`. |
| NoRequirePathJs.OtherExtensionsAccepted | lib/rules/no-require-path-js.js:44 | `.ejs`, `.html` and names without a `.` are not offending. |
| NoRequirePathJs.OffendingNodesMembers | lib/rules/no-require-path-js.js:44 | The filter keeps exactly the literals ending in `.js`, and no more literals than it was given. |
| NoRequirePathJs.OffendingNodesCount | lib/rules/no-require-path-js.js:44 | Each offending literal is kept as many times as it occurs, and every other literal is dropped. |
| NoRequirePathJs.OffendingNodesConcat | lib/rules/no-require-path-js.js:44 | Filtering a concatenation is concatenating the filtered parts, so the filter keeps list order. |
| NoRequirePathJs.OffendingNodesSingle | lib/rules/no-require-path-js.js:44 | A single literal is kept exactly when it ends in `.js`. |
| NoRequirePathJs.FixEdits | lib/rules/no-require-path-js.js:27-33 | One replacement per offending literal, over its own range, by the stripped name in single quotes. |
| NoRequirePathJs.Message | lib/rules/no-require-path-js.js:54 | The message starts with `Import` exactly for an import declaration, otherwise with `Require`. |
| NoRequirePathJs.FixCoversOnlyOffending | lib/rules/no-require-path-js.js:44-56 | Every edit of the fix covers the range of an offending literal, so other literals are untouched. |
| NoRequirePathJs.GenerateReport | lib/rules/no-require-path-js.js:43-59 | Nothing is reported when no literal ends in `.js`. Otherwise the single report's fix rewrites exactly the offending literals. |
| AlignAssign.FirstInitialised | lib/rules/align-assign.js:82 | The first declarator with an initialiser, or none when there is none. |
| AlignAssign.IndexOfEquals | lib/rules/align-assign.js:141-149 | For an assignment statement: -1 when the left-hand side ends on a later line than the statement starts. Otherwise, the first `=` at or after the left-hand side's end column (relative to the statement, clamped to the text), and -1 exactly when there is none. For a declaration: the first `=` of the text, and -1 exactly when there is none. |
| AlignAssign.CandidatesSpec | lib/rules/align-assign.js:33-68 | The candidates are exactly the statements passing the filter: an assignment on its own lines, not on the block's opening line, with no comment ending on its start line, and with its `=` found. |
| AlignAssign.CandidateEqualsOnFirstLine | lib/rules/align-assign.js:51-55 | A candidate's `=` lies on its first line. |
| AlignAssign.Group | lib/rules/align-assign.js:56-65 | Grouping keeps every candidate in order. Inside a block, statements start on consecutive lines, and a new block never starts on the line right after the previous block's last statement. |
| AlignAssign.TargetColumnIsMax | lib/rules/align-assign.js:71-89 | A block's target column is the largest column after the token before `=`, reached by one member. It is 0 for an empty block. |
| AlignAssign.Spaces | lib/rules/align-assign.js:120 | `[...new Array(n + 1)].join(' ')` is exactly n spaces. |
| AlignAssign.AlignFix | lib/rules/align-assign.js:111-123 | The fix starts right after the token before `=` and grows the text by exactly n. For n > 0 it inserts n spaces; otherwise it removes -n characters and inserts nothing. |
| AlignAssign.ReportFor | lib/rules/align-assign.js:92-125 | A statement is reported exactly when its `=` column differs from the target. The report is on the statement's first line, at the column as written: the `=` column plus the start column. It carries the fix for the difference. |
| AlignAssign.ReportsUpTo | lib/rules/align-assign.js:94-126 | The reports of a block, statement by statement, against its target. |
| AlignAssign.CheckBody | lib/rules/align-assign.js:28-128 | One list of reports per block of grouped candidates, each against that block's own target column, with the report columns as written. |
| AlignAssign.FixPutsEqualsOnTarget | lib/rules/align-assign.js:111-123 | In the statement shifted as the fix shifts it, the `=` is found at the target column. |
| AlignAssign.AlignFixInFile | lib/rules/align-assign.js:111-123 | Applied to a file holding the statement's text at its offset, the fix stays within the file. It changes only that text, shifting it after the token before `=` by the given amount. |
| AlignAssign.TargetLeavesRoom | lib/rules/align-assign.js:71-89 | Every block member whose token ends on its first line leaves room for its fix: a removal never reaches its `=`, because the block's target lies past its token. |
| AlignAssign.ReportFixAligns | lib/rules/align-assign.js:95-123 | The fix of a report, applied to the file, rewrites only the reported statement, and afterwards its `=` is on the target column. |
| AlignAssign.BlockFixAligns | lib/rules/align-assign.js:92-127 | A block member whose token ends on its first line is reported exactly when its `=` is off the block's target. The report's fix, applied to the file, rewrites only that statement and puts its `=` on the target column. |
| AlignAssign.ReportColumnCorrected | lib/rules/align-assign.js:95-109 | The reported column, counting the start column once, points at the statement's `=`. |
| AlignAssign.ReportColumnOffByIndent | lib/rules/align-assign.js:95-103 | As written, an indented statement's report column is past its `=`. |
| AlignAssign.PatternDefaultReportRepeats | lib/rules/align-assign.js:148 | As written, `const {a = 1} = obj;` finds the default's `=` at 9 against a target of 14. It is reported with a fix of five spaces after the pattern, and the fixed statement is reported again. |
| AlignAssign.IndexOfEqualsCorrected | lib/rules/align-assign.js:141-149 | Corrected, the search starts where the token before `=` ends, for declarations as for assignments. It gives -1 when that token ends on a later line, and otherwise the first `=` from there, or -1 exactly when there is none. |
| AlignAssign.CorrectedAgreesOnAssignments | lib/rules/align-assign.js:142-146 | For assignment statements, the corrected search is the search as written. |
| AlignAssign.CorrectedEqualsFollowsToken | lib/rules/align-assign.js:141-149 | The corrected search never finds an `=` before the token before it ends. |
| AlignAssign.CorrectedSettlesPatternDefault | lib/rules/align-assign.js:148 | Corrected, `const {a = 1} = obj;` finds the declaration's own `=` at 14, already on the target, so it is not reported. |
| LogContext.IsLogCallee | lib/rules/enforce-log-context.js:10-21 | Holds exactly for `log.info`, `log.warn` and `log.error`. `lib/rules/standard-log-context.js` repeats it at lines 10-21. |
| LogContext.NearestNameWins | lib/rules/enforce-log-context.js:23-46 | The walk answers with the name given by the nearest naming ancestor: a named function declaration, a function bound by a declarator or assignment, or a property, whatever lies above it. |
| LogContext.NoNameWithoutNamer | lib/rules/enforce-log-context.js:23-46 | With no naming ancestor up to the root, there is no name. |
| LogContext.ExpectedContext | lib/rules/enforce-log-context.js:75-83 | The context is the file name up to its last `.`, or the whole name when that is empty or there is no `.`. It is followed by `.` and the function name when there is one. `lib/rules/standard-log-context.js` computes it the same way at lines 74-80. |
| Text.StripLastExtensionSpec | lib/rules/enforce-log-context.js:75 | `split('.').slice(0, -1).join('.') \|\| name` keeps exactly the text before the last `.`, unless that is empty. |
| EnforceLogContext.FirstArgText | lib/rules/enforce-log-context.js:73-74 | A literal gives text exactly when its value is truthy. A template gives its raw pieces joined by spaces. |
| EnforceLogContext.Fix | lib/rules/enforce-log-context.js:89-104 | The fix inserts and removes nothing else. For a string or template it inserts `context ` just inside the opening quote. For a number it inserts, at the number's start, text beginning with the quoted context and a space; `EnforceLogContext.FixNumberSource` states the whole inserted text. |
| EnforceLogContext.Check | lib/rules/enforce-log-context.js:61-107 | Only log calls are checked. It throws exactly for a log call with no argument or a falsy literal. Reports carry the message and fix for the expected context. |
| EnforceLogContext.ReportedIff | lib/rules/enforce-log-context.js:74-85 | A log call with a text argument is reported exactly when the first word holds no `.` and is not the expected context. |
| EnforceLogContext.FixSettlesString | lib/rules/enforce-log-context.js:85-103 | A fixed string message is no longer reported. |
| EnforceLogContext.FixSettlesTemplate | lib/rules/enforce-log-context.js:85-103 | A fixed template message is no longer reported. |
| EnforceLogContext.FixQuotedSource | lib/rules/enforce-log-context.js:89-103 | On the source text, the fix turns the quoted literal into the quoted literal of the context, a space and the old message. |
| EnforceLogContext.FixNumberSource | lib/rules/enforce-log-context.js:97-103 | On the source text, the fix puts the quoted context and a `+` in front of a number. |
| StandardLogContext.Check | lib/rules/standard-log-context.js:61-90 | Only log calls are checked. It throws exactly for a log call with no argument or a non-string literal. A report has the message for the expected context and no fix. |
| StandardLogContext.ContextFirstAccepted | lib/rules/standard-log-context.js:72-89 | A message that starts with the context and a space is accepted. |
| StandardLogContext.AgreesWithEnforce | lib/rules/standard-log-context.js:67-89 | On non-empty string messages whose first word has no `.`, this rule and `enforce-log-context` agree on reporting. |
| StandardLogContext.DottedWordOnlyReportedHere | lib/rules/standard-log-context.js:72-89 | A first word holding a `.` that is not the context is reported here but exempt in `enforce-log-context`. |
| StandardLogContext.ExpectedNonEmpty | lib/rules/standard-log-context.js:76-80 | A non-empty file name gives a non-empty context. |
| StandardLogContext.EmptyMessageReported | lib/rules/standard-log-context.js:72-85 | An empty message is checked and reported, since its first word is empty. |
| LogMessageLength.TooLong | lib/rules/log-message-length.js:13-43 | A call is reported exactly when it is `log.<m>` for one of the five methods and its first argument is a string literal longer than 50 characters. |
| LogMessageLength.LimitIsFifty | lib/rules/log-message-length.js:14 | Fifty characters pass and fifty-one are reported, for every method. |
| LogMessageLength.OnlyStringLiteralsMeasured | lib/rules/log-message-length.js:32-40 | Templates, numbers and other expressions are never reported. |
| LogMessageLength.ExtraArgumentsIgnored | lib/rules/log-message-length.js:32-40 | Arguments after the first do not change the verdict. |
| NoLodashDeprecated.Check | lib/rules/no-lodash-deprecated-functions.js:56-64 | Reported exactly for `_.<name>` with `name` a key of the table. The fix replaces only the property's range with the mapped name. |
| NoLodashDeprecated.ReplacementsCurrent | lib/rules/no-lodash-deprecated-functions.js:11-42 | No replacement name is itself in the table. |
| NoLodashDeprecated.FixSettles | lib/rules/no-lodash-deprecated-functions.js:56-63 | After the rename the member expression is not reported again. |
| NoLodashDeprecated.WholeNamesOnly | lib/rules/no-lodash-deprecated-functions.js:57-58 | `_.containsWithMoreThingsHere` and `lodash.contains` are not reported; `_.contains` is. |
| NoLodashDeprecated.LookupAsWritten | lib/rules/no-lodash-deprecated-functions.js:57 | The object-literal lookup, which also finds the members every object inherits. |
| NoLodashDeprecated.CheckAsWritten | lib/rules/no-lodash-deprecated-functions.js:56-64 | The visitor with that lookup. |
| NoLodashDeprecated.InheritedNameReported | lib/rules/no-lodash-deprecated-functions.js:57-62 | As written, `_.toString` is reported, and its fix writes a function's source text in place of the name. |
| NoLodashDeprecated.AgreeOnOwnNames | lib/rules/no-lodash-deprecated-functions.js:57-58 | Away from inherited names, the lookup as written and the own-entries lookup agree. |

## Left out

- **ESLint host machinery.**
  - Not modelled: visitor dispatch, `context.report`, the fixer objects, `getSourceCode`, `getComments`, `getFilename` and `Program:exit`.
  - Their results enter as parameters, and a report is returned as a value.
  - How ESLint merges the two edits of one fix, and overlapping fixes of several reports, is not modelled. The ordering fix is applied removal first, which is the order the two non-overlapping edits compose in.
- Ordering.GenerateReport: a report stores the anchor record rather than the fix closure; `Ordering.ReportFix` computes the fix from that record and the text as the closure would when called. The node the report points at is not modelled.
- **Concrete ESTree traversal.** Parent-chain walks work on explicit ancestor lists:
  - `findRootNode`;
  - `getNamedFunctionName`;
  - `isUnaryExpression` in `lodashAutofix`.

  The `_.get` path lookup in `hasPropsWithValues` is a lookup function passed in.
- LogContext.NearestNameWins: a function expression with no parent is treated as not matching the declarator and assignment rules; the source would throw there, but no ESTree function expression lacks a parent.
- **lodash calls** (`_.forEach`, `_.filter`, `_.map`, `_.every`, `_.some`, `_.isEmpty`, `_.get`) are native sequence operations.
- **Files not modelled:**
  - `lib/index.js` only loads the rule directory.
  - `lib/rules/no-string-localecompare.js` is not part of this model. Its own tests expect behaviour its code does not have.
  - `lib/rules/order-import.js`, `no-lodash-isnull.js`, `no-lodash-isundefined.js`, `no-log-info.js` and `assert-length.js` are thin wrappers with no logic of their own. The autofix the two lodash rules delegate to is modelled in `Helper`.
  - `isRequireCall`, `isRequireCallLiteral` and `getLiteralModuleNamesFromRequireCall` are not part of this model, because they are not defined in `lib/helper.js`. So `no-require-path-js` starts from the list of module-name literals, and `no-require-views` is left out.
- LogContext.IsLogCallee: looks levels up among the three own entries of `LEVELS`; in the source, `log.constructor(...)` would also count as a log call, because the lookup reaches inherited members.
- NoLodashDeprecated.Check: uses the table's own entries only; the lookup as written is `NoLodashDeprecated.CheckAsWritten` (see Findings).
- **Value kinds:**
  - Literal values are strings, integers, booleans and `null`. Regular expressions, big integers and non-integral numbers are left out.
  - `EnforceLogContext.ValueText` renders integers only.
- LogMessageLength.TooLong: counts a message's length in Unicode scalar values, where JavaScript's `length` counts UTF-16 code units, so a message holding characters outside the Basic Multilingual Plane can be longer in the source than in the model.
- **Thrown errors:**
  - The log-context rules throw a `TypeError` on a missing first argument, and on a falsy literal (`enforce-log-context`) or a non-string literal (`standard-log-context`). This is modelled as the outcome `Throws`, not as a precondition.
  - `OrderRequire.RegisterCall` requires a registered `require` literal to hold a string, because `name.includes` throws on anything else.
- **Where the tests and the code disagree, the code is followed:**
  - The `order-require` tests expect the `order-common` behaviour: the `text!` entry, the trailing comments and relative ranks.
  - The `standard-log-context` tests expect fixes that only `enforce-log-context` makes.
- AlignAssign.BlockReports: states only its length; the per-statement content is stated by `AlignAssign.BlockReportAt` and `AlignAssign.ReportsUpTo`.
- RequireFixMovesStatement: requires the `require`s in source order, which two `require`s of one declaration are not: they share the declaration's range, and their fix overlaps itself (see Findings).
- FixPutsEqualsOnTarget: requires the token before `=` to end at or before the `=` the search finds. A declaration whose pattern holds a default, such as `const {a = 1} = obj;`, does not meet this, and its fix never settles (see Findings). `AlignAssign.BlockFixAligns` and `AlignAssign.ReportFixAligns` carry the same requirement.
- NoRequirePathJs.OffendingNodes: has no contract of its own. Membership, count and order are stated by `NoRequirePathJs.OffendingNodesMembers`, `NoRequirePathJs.OffendingNodesCount` and `NoRequirePathJs.OffendingNodesConcat`.
- **Edits past the end of the text.** The ordering fix's removal `[start, end + 1)` reaches one past the text when the moved span ends the file; the host's slice clamps it, which `Ordering.RemovalEnd` models.

## Findings

| source | as written | input that shows it | evidently intended | confidence | as-written member | corrected member |
|---|---|---|---|---|---|---|
| lib/helper.js:91-93 | The comparison is wrapped in parentheses only when the replaced node's parent is a binary expression. A third `!` above the two consumed ones is a unary parent, so the comparison stays bare. | `!!!_.isNull(x)` is fixed to `!x === null`, which is `(!x) === null`: always false, where the original was `x !== null`. | Parenthesise whenever the replaced node is an operand, giving `!(x === null)`. | not executed; follows from JavaScript operator precedence | Helper.LodashAutofix | Helper.LodashAutofixCorrected |
| lib/rules/align-assign.js:95,103 | `currentEqualsPos` already includes the statement's start column, and the report location adds it a second time. | `a = 1;` starting at column 1: the `=` is at column 3, but the report points at column 4. | The report column is the `=` column. | not executed | AlignAssign.ReportColumnOffByIndent | AlignAssign.ReportColumnCorrected |
| lib/rules/align-assign.js:148 | For a declaration, the search for `=` starts at the beginning of the text, so a default inside a destructuring pattern is found first. | `const {a = 1} = obj;`: the `=` found is at 9, the target is 14, and the fix inserts five spaces after the pattern. The default's `=` does not move, so the statement is reported again after every fix. | Search from the end of the token before `=`, as for assignment statements, which finds the `=` at 14 and reports nothing. | not executed | AlignAssign.PatternDefaultReportRepeats | AlignAssign.IndexOfEqualsCorrected |
| lib/rules/order-require.js:63-71,106-109 | Both `require` calls of one declaration climb to the same declaration, so both records carry its range. | `const a = require('models/a'), b = require('@roadmunk/b');`: `b` ranks 1 below `a`'s 4 and is anchored at `a`. Its fix replaces `[s, e)` and removes `[s, e + 1)`, two overlapping edits in one fix. | Offer no fix when the anchor's statement does not end before the violator's begins. | not executed | OrderRequire.SharedDeclarationFixOverlaps | OrderRequire.RequireFixCorrected |
| lib/rules/no-lodash-deprecated-functions.js:57-62 | The name is looked up on an object literal, which also answers for the members every object inherits, all truthy. | `_.toString(v)`: lodash 4's `toString` is reported as deprecated, and the fix writes `function toString() { [native code] }` over the name. | Only the table's own names are reported. | not executed; relies on the standard `Object.prototype` members | NoLodashDeprecated.CheckAsWritten | NoLodashDeprecated.Check |
