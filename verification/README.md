# Backup SELECTs from UPDATE/DELETE batches

The repository holds two versions of a generator. Each one reads a batch of
SQL text and, before the batch is run, writes the `SELECT` statements that
save the rows its `UPDATE` and `DELETE` statements will touch:

- `generar_selects_de_respaldo` in `Generate-selects-v2.py`;
- `formatear_y_generar_selects` in `generate-scriptv3.py`.

Both work in the same five stages:

1. **Normalise.** Remove comments: line comments in both versions, and
   `/* … */` block comments in the first one only. Strip every line, drop
   the blank lines, and join the rest with single spaces.
2. **Cut into statements.** Cut the joined text before every `delete` or
   `update` keyword that starts a word (`\b(?=delete|update)\b`, ignoring
   case).
3. **Recognise each statement.** Each statement is matched against the
   `update … set … where …` and `delete from … where …` shapes. The match
   yields the table name and the WHERE text, stripped and without its
   trailing `;`. The first version also skips `set `, `commit` and
   `rollback` fragments.
4. **Analyse the WHERE.** Cut it at every `AND` word. Match each conjunct
   with the version's conjunct pattern:
   - first version: any of a list of operators, of which `=` and `IN` can
     be grouped, with `IN` lists expanded item by item;
   - second version: only `column = 'quoted'` or `column = digits`.

   A statement whose conjuncts all qualify is *grouped*. Its
   `(column, value)` pairs are added to a table → column → set-of-values
   map, and its column list becomes the table's column order if the table
   has none yet. Any other statement produces one stand-alone SELECT.
5. **Emit.** Write one `SELECT * FROM t WHERE c1 IN (…) AND c2 IN (…);` per
   grouped table, in first-grouped order, with the columns in the recorded
   order and each value list sorted as strings. The stand-alone SELECTs
   follow in encounter order. The first version writes keywords in upper
   case, the second in lower case.

The model mirrors those stages module by module:

- `Ascii`: character classes, `strip`/`split`/`join`, Python's string
  order, `sorted` on a set.
- `Normalize`: stages 1-2.
- `Statements`: stage 3.
- `Conditions`: stage 4, for both conjunct patterns.
- `Aggregation`: the grouping state and stage 5.
- `SelectsV2` and `SelectsV3`: one driver per version.

The regular expressions are written out as functions that make the same
choices as Python's backtracking matcher. Examples:
- the lazy `.+?` in the UPDATE shape stops at the first workable `where`;
- the operator alternatives are tried in the order written, so `<` wins
  over `<=`;
- the column group gives characters back, so `login` reads as `log IN`;
- the equality pattern of the second version only needs to match a
  prefix, so `5.5` yields `5`.

Each driver is an imperative method over the generator's own state: a
record of the three local collections (the grouped values, the column
order per table and the stand-alone SELECTs) plus the list of tables in
first-insertion order, which the dictionary keeps implicitly. The method's loop is proved
equal to a specification fold. Lemmas about that fold state what the
output looks like.

## Model

| member | source | states |
|---|---|---|
| Normalize.StripLineComments | Generate-selects-v2.py:9 | the result holds no `--`; text without `--` is unchanged; the same call is line 6 of generate-scriptv3.py |
| Normalize.StripLineCommentsKeepsLine | Generate-selects-v2.py:9 | a line without `--` is kept with its `\n`, and the rest is processed on its own |
| Normalize.StripLineCommentsCutsLine | Generate-selects-v2.py:9 | a line is cut at its first `--` up to, not including, its `\n` |
| Normalize.FindCommentClose | Generate-selects-v2.py:10 | finds the first `*/` at or after a position, or reports that there is none |
| Normalize.StripBlockComments | Generate-selects-v2.py:10 | never longer than the input; text without `/*` is unchanged |
| Normalize.StripBlockCommentsKeepsPrefix | Generate-selects-v2.py:10 | text without `/*` that does not end in `/` is kept as it is, and the rest is processed on its own |
| Normalize.StripBlockCommentsUnclosed | Generate-selects-v2.py:10 | a `/*` with no `*/` after it is not a comment: the text is kept unchanged |
| Normalize.StripBlockCommentInside | Generate-selects-v2.py:10 | a closed block comment after other text is dropped with its delimiters, and the text before it is kept |
| Normalize.InnerCommentRemoved | Generate-selects-v2.py:10 | `a/*c*/b` becomes `ab` |
| Normalize.StripBlockCommentAtHead | Generate-selects-v2.py:10 | a closed block comment is dropped with its delimiters, across lines, ending at the first `*/` |
| Normalize.SplitLinesNoLineBreak | Generate-selects-v2.py:13 | `splitlines`: no piece holds a line-break character |
| Normalize.SplitLinesCons | Generate-selects-v2.py:13 | a break-free line followed by a break is the first piece, and the rest is split on its own |
| Normalize.SplitLinesSingle | Generate-selects-v2.py:13 | a non-empty text without a break is a single line |
| Normalize.NonBlankOne | Generate-selects-v2.py:13 | one line is kept as its stripped text exactly when that text is not empty |
| Normalize.NonBlankAppend | Generate-selects-v2.py:13 | the kept lines of two lists are those of the first followed by those of the second, so lines are kept in order |
| Normalize.NonBlankLines | Generate-selects-v2.py:13 | every kept line is non-empty, stripped and free of line breaks |
| Normalize.NonBlankAround | Generate-selects-v2.py:13 | the kept lines around a break are the kept lines before it followed by those after it |
| Normalize.JoinLines | Generate-selects-v2.py:13 | the joined text has no line break and no blank at either end |
| Normalize.JoinLinesOne | Generate-selects-v2.py:13 | a stripped, non-empty line without a break is joined to itself |
| Normalize.JoinLinesAppend | Generate-selects-v2.py:13 | two non-blank texts on either side of a `\n` join to their own joins with one space between them |
| Normalize.Fragments | Generate-selects-v2.py:16 | the fragments concatenate back to the text; every fragment after the first starts with `delete`/`update`; every fragment but the last ends outside a word |
| Normalize.FragmentsNoNewline | Generate-selects-v2.py:16 | fragments of the joined text hold no `\n` |
| Normalize.SplitFromPieces | Generate-selects-v2.py:16 | the pieces concatenate back to the text from the start position; each later piece starts with `delete`/`update` and each but the last ends outside a word |
| Normalize.FragmentsCutAtSplitPoints | Generate-selects-v2.py:16 | the text is cut at every split point: no fragment holds one after its first character, and a text that starts with a keyword gives an empty first fragment |
| Normalize.FragmentsAppend | Generate-selects-v2.py:16 | a text ending outside a word followed by a keyword is cut exactly there: the fragments are those of each side, less the second side's empty first one |
| Normalize.OneStatement | Generate-selects-v2.py:16 | a text that starts with a keyword and has no other split point is one fragment after an empty one |
| Normalize.UpdatedAtFragments | Generate-selects-v2.py:16 | `update t set updated_at = 1 where id = 1` is cut into `update t set ` and `updated_at = 1 where id = 1`, since the lookahead needs no word end after the keyword |
| Normalize.KeywordIsWord | Generate-selects-v2.py:16 | two split points are at least a keyword apart, so the piece between them starts with the keyword |
| SelectsV2.JoinedText | Generate-selects-v2.py:9-13 | the normalised text has no line break and no blank at either end; text without comments is only joined |
| SelectsV2.JoinedTextCutsLineComment | Generate-selects-v2.py:9-13 | a `--` comment is dropped up to its line end, and the line before it is joined to the rest |
| SelectsV2.JoinedTextDropsBlockComment | Generate-selects-v2.py:10-13 | a closed `/* … */` comment at the head is dropped with its delimiters, and only the rest is joined |
| SelectsV2.JoinedTextDropsInnerBlockComment | Generate-selects-v2.py:10-13 | a closed `/* … */` comment after other text is dropped, and the text around it is joined as if it were not there |
| SelectsV3.JoinedText | generate-scriptv3.py:6-7 | the normalised text has no line break and no blank at either end; text without `--` is only joined |
| SelectsV3.JoinedTextCutsLineComment | generate-scriptv3.py:6-7 | a `--` comment is dropped up to its line end, and the line before it is joined to the rest |
| SelectsV3.JoinedTextKeepsBlockComment | generate-scriptv3.py:6-7 | a `/* … */` comment is not removed: it is joined like any other text |
| Statements.FirstWhere | Generate-selects-v2.py:33 | the lazy `.+?` stops at the first workable `where` and at no earlier position |
| Statements.SetTail | Generate-selects-v2.py:33 | after the `set` part, the WHERE group found is a non-empty suffix of the statement |
| Statements.WhereTail | Generate-selects-v2.py:33 | the `(.+)` group is a non-empty suffix, preceded only by blanks after `where` |
| Statements.MatchUpdate | Generate-selects-v2.py:33 | a match starts with `update`, has a table of table characters and a non-empty WHERE suffix |
| Statements.MatchDelete | Generate-selects-v2.py:34 | a match starts with `delete`, has a table of table characters and a non-empty WHERE suffix |
| Statements.TableAndWhere | Generate-selects-v2.py:33-34 | the shared `table\s+where\s+(.+)` tail yields a non-empty table of table characters and a non-empty WHERE suffix |
| Statements.MatchStatement | Generate-selects-v2.py:36-44 | the UPDATE shape is tried before the DELETE shape; a match has a table name and a non-empty WHERE suffix |
| Statements.MatchNeedsWhere | Generate-selects-v2.py:33-34 | a statement without any workable `where` matches neither shape |
| Statements.SetHeadIsNotStatement | Generate-selects-v2.py:33-44 | `update t set` matches neither shape |
| Statements.UpdatedAtIsNotStatement | Generate-selects-v2.py:33-44 | `updated_at = 1 where id = 1` matches neither shape, since it starts with neither keyword as a whole word |
| Statements.CleanWhere | Generate-selects-v2.py:38 | `strip().rstrip(";")`: the result is the stripped text less exactly its trailing run of `;`; it does not start with a blank or end with `;` |
| Statements.DeleteRecognised | Generate-selects-v2.py:34 | `delete from <t> where <w>` is read back as table `t` and WHERE text `w` |
| Statements.UpdateRecognised | Generate-selects-v2.py:33 | `update <t> set <a> where <w>` is read back as table `t` and WHERE text `w` whenever `a` starts with a non-blank and holds no `where` word with a blank before it and a blank or the end after it |
| Statements.ControlIsNotStatement | Generate-selects-v2.py:29-30 | a `set `/`commit`/`rollback` text never matches either statement shape |
| Conditions.Conjuncts | Generate-selects-v2.py:47 | there is at least one conjunct; a WHERE text without an `AND` word is one stripped conjunct |
| Conditions.SplitAndFromRebuilds | Generate-selects-v2.py:47 | `re.split(r"\bAND\b")`: the pieces, rejoined with the `AND` words they were cut at, rebuild the text |
| Conditions.SplitAndFromNoAnd | Generate-selects-v2.py:47 | the split cuts at every `AND` word: no piece holds one |
| Conditions.ConjunctsSplitAtAnd | Generate-selects-v2.py:47 | the conjuncts are the stripped pieces of a cut of the WHERE text at `AND` words, and none of them holds an `AND` word |
| Conditions.ConjunctsOf | Generate-selects-v2.py:38-47 | a recognised statement has at least one conjunct, each free of `\n` |
| Conditions.OperatorFrom | Generate-selects-v2.py:57 | the operator found is the first alternative, in written order, that starts the text |
| Conditions.ShorterColumn | Generate-selects-v2.py:57 | backtracking yields a shorter, non-empty prefix of the word as the column |
| Conditions.MatchCondition | Generate-selects-v2.py:56-64 | a match has a non-empty column of word characters that is a prefix of the conjunct |
| Conditions.EqualityMatched | Generate-selects-v2.py:56-68 | `<col> = <v>` is read as an `=` on `col` with value `v` stripped |
| Conditions.LoginReadsAsIn | Generate-selects-v2.py:56-60 | the conjunct `login` matches as column `log` with operator `in` |
| Conditions.LessEqualReadsAsLess | Generate-selects-v2.py:57 | `a <= 5` matches `<`, with value `= 5` |
| Conditions.InItems | Generate-selects-v2.py:71-72 | the `IN` list gives at least one item; no item holds a comma or a surrounding blank |
| Conditions.InItemsArePieces | Generate-selects-v2.py:71-72 | the items are exactly the stripped comma pieces of the value with its leading `(` and trailing `)` runs removed |
| Conditions.MatchAll | Generate-selects-v2.py:53-60 | one match per conjunct, in order |
| Conditions.AnalyseV2 | Generate-selects-v2.py:53-82 | the analysis of the conjuncts seen so far keeps one value per column |
| Conditions.Pairs | Generate-selects-v2.py:66-82 | a conjunct adds equal numbers of columns and values, all under its own column; a groupable one adds at least one |
| Conditions.EqConjunctAppends | Generate-selects-v2.py:66-68 | an `=` conjunct appends exactly its column and its stripped value |
| Conditions.OtherConjunctClears | Generate-selects-v2.py:75-82 | any other conjunct, matched or not, adds nothing and clears the flag |
| Conditions.AnalyseV2Simple | Generate-selects-v2.py:50-82 | the flag stays set exactly when every conjunct is an `=` or an `IN` |
| Conditions.AnalyseV2Columns | Generate-selects-v2.py:53-74 | every recorded column is the column of some matched conjunct |
| Conditions.GroupedIffAllGroupable | Generate-selects-v2.py:84 | a statement is grouped (flag set and a column recorded) exactly when every conjunct is `=` or `IN` |
| Conditions.InConjunctFlattens | Generate-selects-v2.py:69-74 | an `IN` conjunct appends all its items as values, each under its column |
| Conditions.AppendItems | Generate-selects-v2.py:72-74 | the loop over the items appends the column once per item and the items in order |
| Conditions.AddConjunct | Generate-selects-v2.py:61-82 | one conjunct appends its pairs and clears the flag unless it is `=` or `IN` |
| Conditions.AnalyseConditionsV2 | Generate-selects-v2.py:53-82 | the loop's lists and flag are the analysis of the matched conjuncts; the flag is set exactly when all are groupable |
| Conditions.LiteralAt | generate-scriptv3.py:42 | the literal found is the text at that position: a closed quote, or the whole digit run; there is none exactly when no quote is closed and no digit stands there |
| Conditions.MatchSimple | generate-scriptv3.py:42-45 | a match gives a word-character column that prefixes the conjunct and a quoted or digit literal |
| Conditions.MatchSimpleReads | generate-scriptv3.py:42-45 | a match's value is the literal found after its column, blanks, `=` and blanks |
| Conditions.MatchSimpleFails | generate-scriptv3.py:42-45 | no match means that no column, blanks, `=` and blanks are followed by a literal |
| Conditions.LiteralEqualityMatched | generate-scriptv3.py:42-45 | `<col> = <lit>` with a quoted or digit literal reads back as `(col, lit)` |
| Conditions.DecimalKeepsIntegerPart | generate-scriptv3.py:42 | only a prefix must match: `id = 5.5` yields `5` |
| Conditions.QuotedLiteralKept | generate-scriptv3.py:42 | a quoted literal is kept with its quotes and inner blanks |
| Conditions.AnalyseV3 | generate-scriptv3.py:41-50 | all values are literals, one per column; a statement whose flag stays set has one column per conjunct |
| Conditions.AnalyseV3Pairs | generate-scriptv3.py:41-50 | the k-th recorded pair is the match of the k-th conjunct; when the flag is cleared, the conjunct after the last pair does not match |
| Conditions.AnalyseV3Simple | generate-scriptv3.py:41-50 | all or nothing: the flag stays set exactly when every conjunct matches the equality pattern |
| Conditions.AnalyseV3Stops | generate-scriptv3.py:48-50 | after the first conjunct that fails, the later ones change nothing |
| Conditions.AnalyseConditionsV3 | generate-scriptv3.py:41-50 | the loop with its `break` computes the analysis; the flag is set exactly when every conjunct matches |
| Aggregation.AddValue | Generate-selects-v2.py:89 | adding a value gives the table a key |
| Aggregation.AddValueValues | Generate-selects-v2.py:89 | the value is added to `(t, c)` and no other set changes |
| Aggregation.AddPairs | Generate-selects-v2.py:88-89 | the zip loop adds the table's key exactly when there is a pair |
| Aggregation.AddPairsValues | Generate-selects-v2.py:88-89 | a value is under `(t, c)` afterwards exactly when it was before or `(c, v)` is one of the pairs; other tables are untouched |
| Aggregation.Group | Generate-selects-v2.py:84-89 | grouping keeps the stand-alone list, lists the table at the end if it is new, records its order, and leaves other tables' orders alone |
| Aggregation.Standalone | Generate-selects-v2.py:90-93 | the stand-alone list gains exactly the new SELECT at its end; the grouping is unchanged |
| Aggregation.GroupValid | Generate-selects-v2.py:84-89 | grouping keeps each table listed once, exactly the grouped tables listed, each with a non-empty order |
| Aggregation.OrderFixedOnceSet | Generate-selects-v2.py:86-87 | a table's column order is its first grouped column list and never changes afterwards |
| Aggregation.GroupAddsPairs | Generate-selects-v2.py:88-89 | grouping into `t` adds exactly its pairs to `t` and changes no other table |
| Aggregation.StepsExtend | Generate-selects-v2.py:84-93 | both outcomes of a statement only extend the state: lists grow at the end, orders stay, values are never lost |
| Aggregation.InList | Generate-selects-v2.py:103 | the value list is strictly ascending in string order and holds exactly the column's values |
| Ascii.SortedList | Generate-selects-v2.py:103 | `sorted` of a set: strictly ascending, the same members, the same count |
| Ascii.Strip | Generate-selects-v2.py:24 | `str.strip`: the result is a slice of the text with only blanks outside it and no blank at either end; text already stripped is unchanged |
| Ascii.Join | Generate-selects-v2.py:13 | `sep.join`: the text opens with the first part, followed by the separator when there are more |
| Ascii.JoinAppend | Generate-selects-v2.py:13 | joining two non-empty lists joins each and puts one separator between them |
| Ascii.SplitChar | Generate-selects-v2.py:72 | `str.split(",")`: at least one piece, none holding the separator, and joining them back gives the text |
| Ascii.StripAll | Generate-selects-v2.py:72 | strips each item of the list, keeping its length |
| Ascii.LStripChar | Generate-selects-v2.py:71 | `lstrip("(")`: removes exactly the leading run of the character |
| Ascii.RStripChar | Generate-selects-v2.py:71 | `rstrip(")")`: removes exactly the trailing run of the character |
| Ascii.StrLtTotal | Generate-selects-v2.py:103 | Python's string order is total on distinct strings |
| Aggregation.SelectTextReads | Generate-selects-v2.py:93 | the f-string SELECT reads back as `SELECT * FROM`, the table, ` WHERE `, the WHERE text and `;` |
| Aggregation.InConditionReads | Generate-selects-v2.py:103-104 | an IN condition reads back as the column, ` IN (`, the comma-joined sorted values and `)` |
| Aggregation.ColumnOrder | Generate-selects-v2.py:99 | the recorded order when there is one; otherwise the table's columns, sorted |
| Aggregation.GroupedSelect | Generate-selects-v2.py:99-106 | a table yields no SELECT exactly when it has neither a column order nor a column |
| Aggregation.InConditions | Generate-selects-v2.py:100-104 | one `col IN (…)` condition per column of the order, in that order |
| Aggregation.FallbackUnreachable | Generate-selects-v2.py:99 | in a valid state the sorted-keys fallback is never taken and every grouped table yields its SELECT |
| Aggregation.GroupedSelectsAll | Generate-selects-v2.py:97-106 | in a valid state every listed table yields exactly its grouped SELECT, in order |
| Aggregation.Emit | Generate-selects-v2.py:96-110 | the stand-alone SELECTs end the output, after at most one SELECT per listed table |
| Aggregation.EmitShape | Generate-selects-v2.py:96-110 | the output is one grouped SELECT per table in first-grouped order, then the stand-alone SELECTs |
| Aggregation.AddGroupValues | Generate-selects-v2.py:88-89 | the zip loop computes the specified grouping update |
| Aggregation.BuildInConditions | Generate-selects-v2.py:100-104 | the loop over the order builds exactly the specified conditions |
| Aggregation.BuildGroupedSelect | Generate-selects-v2.py:99-106 | one table's column order, IN conditions and optional SELECT are exactly its specified grouped SELECT |
| Aggregation.CollectGroupedSelects | Generate-selects-v2.py:96-106 | the loop over the tables yields exactly the specified grouped SELECTs, in table order, skipping none that has a condition |
| Aggregation.EmitSelects | Generate-selects-v2.py:96-110 | the grouped SELECTs followed by the stand-alone ones are exactly the specified output |
| SelectsV2.Recognise | Generate-selects-v2.py:23-44 | a recognised statement's WHERE text holds no `\n` |
| SelectsV2.StandaloneSelect | Generate-selects-v2.py:92-93 | the stand-alone SELECT reads back as the table and the conjuncts joined with ` AND ` |
| SelectsV2.StepTarget | Generate-selects-v2.py:47-93 | a recognised statement adds at most one table or one stand-alone SELECT, and removes nothing |
| SelectsV2.Step | Generate-selects-v2.py:24-93 | one fragment adds at most one table or one stand-alone SELECT, and removes nothing |
| SelectsV2.Fold | Generate-selects-v2.py:23-93 | there are never more listed tables and stand-alone SELECTs than fragments |
| SelectsV2.BackupSelects | Generate-selects-v2.py:7-110 | there are never more SELECTs than statement fragments |
| SelectsV2.FoldNothingRecognised | Generate-selects-v2.py:23-93 | fragments none of which is recognised leave the state empty |
| SelectsV2.NothingRecognised | Generate-selects-v2.py:7-110 | a batch in which no fragment is recognised yields no SELECT |
| SelectsV2.EmptyNotRecognised | Generate-selects-v2.py:25-26 | the empty fragment is skipped |
| SelectsV2.SetHeadNotRecognised | Generate-selects-v2.py:24-44 | the fragment `update t set ` is skipped |
| SelectsV2.UpdatedAtPartNotRecognised | Generate-selects-v2.py:24-44 | the fragment `updated_at = 1 where id = 1` is skipped |
| SelectsV2.CutFragmentsSkipped | Generate-selects-v2.py:24-44 | the empty head fragment and two unrecognised fragments are all skipped |
| SelectsV2.CutStatementDropped | Generate-selects-v2.py:7-110 | a batch cut into two unrecognised fragments yields no SELECT |
| SelectsV2.UpdatedAtStatementDropped | Generate-selects-v2.py:7-110 | `update t set updated_at = 1 where id = 1` yields no SELECT at all: the UPDATE is silently dropped |
| SelectsV2.StepSkips | Generate-selects-v2.py:24-44 | blank, transaction-control and unrecognised fragments leave the state unchanged |
| SelectsV2.StepAllOrNothing | Generate-selects-v2.py:84-93 | a statement is grouped with its pairs exactly when every conjunct is `=`/`IN`; otherwise it adds one stand-alone SELECT |
| SelectsV2.StepInvariant | Generate-selects-v2.py:23-93 | each statement keeps the state valid and only extends it |
| SelectsV2.FoldInvariant | Generate-selects-v2.py:23-93 | after any prefix of the statements the state is valid, and later statements only extend it |
| SelectsV2.BackupSelectsShape | Generate-selects-v2.py:7-110 | the result is one grouped SELECT per grouped table, in first-grouped order, then the stand-alone SELECTs |
| SelectsV2.ProcessStatement | Generate-selects-v2.py:47-93 | the body of the main loop for one recognised statement computes the specified step |
| SelectsV2.ProcessFragment | Generate-selects-v2.py:24-93 | one fragment is skipped unless recognised, and otherwise processed, as the specified step |
| SelectsV2.FoldFragments | Generate-selects-v2.py:23-93 | the loop over the fragments computes the specified fold |
| SelectsV2.GenerateBackupSelects | Generate-selects-v2.py:7-110 | the generator returns exactly the specified SELECT list |
| SelectsV3.Recognise | generate-scriptv3.py:16-33 | a recognised statement's WHERE text holds no `\n` |
| SelectsV3.SameStatementsAsV2 | generate-scriptv3.py:16-33 | without the transaction-control skip, the same statements are recognised as in the first version |
| SelectsV3.StandaloneSelect | generate-scriptv3.py:58-60 | the stand-alone SELECT reads back as the table and the cleaned WHERE text, unsplit |
| SelectsV3.StepTarget | generate-scriptv3.py:36-60 | a recognised statement adds at most one table or one stand-alone SELECT, and removes nothing |
| SelectsV3.Step | generate-scriptv3.py:17-60 | one fragment adds at most one table or one stand-alone SELECT, and removes nothing |
| SelectsV3.Fold | generate-scriptv3.py:16-60 | there are never more listed tables and stand-alone SELECTs than fragments |
| SelectsV3.BackupSelects | generate-scriptv3.py:5-76 | there are never more SELECTs than statement fragments |
| SelectsV3.FoldNothingRecognised | generate-scriptv3.py:16-60 | fragments none of which is recognised leave the state empty |
| SelectsV3.NothingRecognised | generate-scriptv3.py:5-76 | a batch in which no fragment is recognised yields no SELECT |
| SelectsV3.EmptyNotRecognised | generate-scriptv3.py:18-19 | the empty fragment is skipped |
| SelectsV3.SetHeadNotRecognised | generate-scriptv3.py:17-33 | the fragment `update t set ` is skipped |
| SelectsV3.UpdatedAtPartNotRecognised | generate-scriptv3.py:17-33 | the fragment `updated_at = 1 where id = 1` is skipped |
| SelectsV3.CutFragmentsSkipped | generate-scriptv3.py:17-33 | the empty head fragment and two unrecognised fragments are all skipped |
| SelectsV3.CutStatementDropped | generate-scriptv3.py:5-76 | a batch cut into two unrecognised fragments yields no SELECT |
| SelectsV3.UpdatedAtStatementDropped | generate-scriptv3.py:5-76 | `update t set updated_at = 1 where id = 1` yields no SELECT at all: the UPDATE is silently dropped |
| SelectsV3.StepSkips | generate-scriptv3.py:17-33 | blank and unrecognised fragments leave the state unchanged |
| SelectsV3.StepAllOrNothing | generate-scriptv3.py:52-60 | a statement is grouped with one pair per conjunct exactly when every conjunct matches; otherwise it adds one stand-alone SELECT of its cleaned WHERE |
| SelectsV3.GroupKeepsLiterals | generate-scriptv3.py:56-57 | grouping literals keeps every grouped value a quoted or digit literal |
| SelectsV3.StepInvariant | generate-scriptv3.py:16-60 | each statement keeps the state valid, only extends it, and groups only literals |
| SelectsV3.FoldInvariant | generate-scriptv3.py:16-60 | after any prefix of the statements the state is valid and holds only literals, and later statements only extend it |
| SelectsV3.BackupSelectsShape | generate-scriptv3.py:5-76 | the result is one grouped SELECT per grouped table, in first-grouped order, then the stand-alone SELECTs; all grouped values are literals |
| SelectsV3.ProcessStatement | generate-scriptv3.py:36-60 | the body of the main loop for one recognised statement computes the specified step |
| SelectsV3.ProcessFragment | generate-scriptv3.py:17-60 | one fragment is skipped unless recognised, and otherwise processed, as the specified step |
| SelectsV3.FoldFragments | generate-scriptv3.py:16-60 | the loop over the fragments computes the specified fold |
| SelectsV3.GenerateBackupSelects | generate-scriptv3.py:5-76 | the generator returns exactly the specified SELECT list |

## Left out

- The `__main__` blocks of both files are not modelled: file reading and writing, and console messages. The SQL text is a parameter and the SELECT list is the result.
- Characters are treated as ASCII. `\s`, `\w`, `\b`, case-insensitive matching, `str.strip` and `str.splitlines` are modelled on ASCII: blanks are `\t`-`\r`, space and `\x1c`-`\x1f`. Non-ASCII blanks, letters and line breaks are not modelled.
- Normalize.SplitLines: cuts `\r\n` as two breaks. The empty line in between is dropped by the join, so the joined text is the same as Python's.
- Statements.MatchStatement: states a table and a WHERE suffix, not the full language the two patterns accept. DeleteRecognised and UpdateRecognised cover the well-formed shapes.
- Statements.UpdateRecognised: covers assignments that hold no `where` word between blanks. With such a word the lazy `.+?` stops there, and FirstWhere states where.
- Statements.MatchUpdate, Statements.MatchDelete, Conditions.MatchCondition: take their input as one line (no `\n`). The joined text has none, as FragmentsNoNewline proves, so the regex dot's refusal of `\n` is never exercised.
- Conditions.MatchCondition: the contract states only the column. The operator and value choices are stated by EqualityMatched and the concrete lemmas (LoginReadsAsIn, LessEqualReadsAsLess).
- The first version's `condiciones_complejas` list (lines 51, 78, 82 of Generate-selects-v2.py) is filled but never read, so it is not modelled. Neither is the unused `OrderedDict` import of generate-scriptv3.py.
- Python dict iteration order is modelled as the `tables` list of first insertions into the table map. The value sets are `set<string>`, ordered only at emission.
- What the SELECTs mean in SQL, and whether they capture the rows the statements change, is not modelled.
