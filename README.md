# A spreadsheet's formula engine, modelled in Dafny

The spreadsheet keeps one text entry per cell. Entry text that starts with
`=` is a formula. A formula is parsed into a tree whose leaves are numbers
and cell references and whose inner nodes are calls of `sum`, `avg` and the
operators `-` (unary and binary), `+`, `*` and `/`. The tree's references
are then bound to nodes of a dependency graph. Each node of that graph
caches the value of its cell and passes on every change of that value to
the cells that depend on it. The graph also records the reference cycles
among the cells: the cache rule gives undefined for every member of a
cycle, so each member the flood recomputes caches undefined.

A malformed formula is a `ParseError`, which names a span of the text and a
message. Every element of the parse carries the span of text it came from,
and text regions are merged into separated spans for highlighting.

The project models four parts of the code:

- **The parser and evaluator** (`modules/formula-tree.js`). `values.dfy`
  holds the values and the built-in functions. `text.dfy` holds the
  regular expressions of the tokeniser, as matching functions.
  - `tree.dfy` (module `FormulaTree`) gives the whole parser as functions:
    - tokenising and bracket matching;
    - the "Missing operator" check;
    - the three operator passes over a list of slots, where null marks a
      consumed slot;
    - argument splitting;
    - constant folding and `parseFormula`.
  - `parser.dfy` (module `FormulaParser`) gives the source's imperative
    parser: a `TextMarker` class, the loops of `findNext`/`findPrev`, and
    the in-place passes over an `array`. Each method is proved equal to its
    `FormulaTree` function.
  - `tree_props.dfy` (module `FormulaTreeProps`) proves what those
    functions promise.
- **The cell graph** (`modules/cell-graph.js`), in three files:
  - `cells.dfy` (`CellValues`) holds the value datatypes and pure rules:
    the cache rule, `evaluateFormula`, `deriveDependOn`, `displayValue`,
    `columnToNum`, and the classification of entry text.
  - `arena.dfy` (`CellArena`) keeps the nodes in an arena, a sequence
    indexed by node number. It states the graph's invariants and proves
    that every step of `setValue` preserves them:
    - dependsOn and dependants are symmetric;
    - every edge stays inside the arena;
    - each cycle in the cycle table is closed and registered on all its
      members.
  - `graph.dfy` (`CellGraphs`) is the `CellGraph` class. Its methods change
    the arena, the cycle table, the active cells, the stored entries and the
    log of display-update events.
- **Text-region merging** (`modules/text-regions.js`), `regions.dfy`.
- **The column names** produced by `getColumnLetters`
  (`modules/spreadsheet.js`), `columns.dfy`.

`isDynamic` (`modules/cell-graph.js:130-132`) holds for a value that is a
`Formula` (a call) or a `CellNodeRef` (a reference), and a reference to a
cell out of scope is still a `CellNodeRef`, bound to null. So `=avg()` and a
formula whose only reference is out of scope are dynamic, not static.

## Model

| member | source | states |
|---|---|---|
| FormulaValues.Count | modules/formula-tree.js:76-92 | the number of numeric arguments avg divides by never exceeds the number of arguments; it equals it exactly when every argument is a number, and is 0 exactly when none is |
| FormulaValues.Sum | modules/formula-tree.js:63-74 | the accumulator loop of sum returns SumOf: undefined as soon as one argument is neither a number nor null, otherwise the total of the numbers |
| FormulaValues.Avg | modules/formula-tree.js:76-92 | the loop of avg returns AvgOf: undefined for a bad argument or when no argument is a number, otherwise total divided by count |
| FormulaValues.OperatorsNeedNumbers | modules/formula-tree.js:16-54 | each operator gives a number exactly when every argument it uses is a number, a missing argument being undefined |
| FormulaValues.EmptyCalls | modules/formula-tree.js:63-92 | sum() is 0 and avg() is undefined |
| FormulaValues.TotalConcat | modules/formula-tree.js:63-92 | the total and the count of numbers are additive over a split of the arguments |
| FormulaValues.HasUndefinedConcat | modules/formula-tree.js:63-92 | an argument list has a bad argument exactly when one of its halves has |
| FormulaValues.NullIgnored | modules/formula-tree.js:63-92 | removing a null argument changes neither sum nor avg |
| FormulaValues.SumSplit | modules/formula-tree.js:63-74 | sum of a concatenation is the sum of the sums when both are defined |
| FormulaValues.UndefinedPoisons | modules/formula-tree.js:63-92 | an undefined argument anywhere makes sum and avg undefined |
| FormulaText.Run | modules/formula-tree.js:250-257 | a run of characters of a class is a prefix of the text |
| FormulaText.RunSpec | modules/formula-tree.js:250-257 | a run holds only characters of its class and stops at the first character outside it |
| FormulaText.NumberMatch | modules/formula-tree.js:252 | the match of the number pattern is a prefix of the text |
| FormulaText.RefMatch | modules/formula-tree.js:256 | the match of the reference pattern is a prefix of the text |
| FormulaText.RefRangeMatch | modules/formula-tree.js:255 | the match of the cell-range pattern is a prefix of the text |
| FormulaText.FunctionSingletonMatch | modules/formula-tree.js:251 | a match of the call pattern ends in '(' and is longer than the name it captures |
| FormulaText.Lower | modules/formula-tree.js:180 | toLowerCase keeps the length |
| FormulaText.LowerSpec | modules/formula-tree.js:180 | toLowerCase maps each character on its own, letters to lowercase letters and anything else to itself |
| FormulaText.LowerAppend | modules/formula-tree.js:180 | toLowerCase distributes over concatenation |
| FormulaText.LowerNoLetters | modules/formula-tree.js:180 | toLowerCase leaves a text without letters unchanged |
| FormulaText.TrimEnd | modules/cell-graph.js:448 | trimEnd removes exactly the trailing whitespace: the result is a prefix, ends in no whitespace, and only whitespace was cut |
| FormulaTree.NumOrNew | modules/formula-tree.js:133-143 | numOrNew returns a number or the call itself, always with the call's span |
| FormulaTree.ReferenceFromStringSpec | modules/formula-tree.js:171-181 | Reference.fromString succeeds exactly on a cell name; the column is lowercased, the row kept as written, and they spell the lowercased name; the error covers the whole text |
| FormulaTree.CellNameParts | modules/formula-tree.js:171-181 | a cell name splits into letters and digits, and lowercasing the letters lowercases the name |
| FormulaTree.ReferenceRangeFromStringSpec | modules/formula-tree.js:195-225 | every error of ReferenceRange.fromString covers the whole token; a range has a lowercase column, digit rows and its start row strictly before its end row |
| FormulaTree.OperatorWrongArgError | modules/formula-tree.js:385-401 | the error spans the operator and the wrong argument, from whichever comes first, or the operator alone when the argument has no span |
| FormulaTree.NextFrom | modules/formula-tree.js:352-361 | findNext gives the first non-null slot after the start, or -1 when all are null |
| FormulaTree.PrevFrom | modules/formula-tree.js:363-372 | findPrev gives the last non-null slot before the start, or -1 when all are null |
| FormulaTree.UnaryStep | modules/formula-tree.js:403-437 | one step of the unary pass keeps the number of slots |
| FormulaTree.UnaryPass | modules/formula-tree.js:403-437 | the unary pass keeps the number of slots (fixed length) |
| FormulaTree.BinaryStep | modules/formula-tree.js:439-476 | one step of the binary pass keeps the number of slots |
| FormulaTree.BinaryPass | modules/formula-tree.js:439-476 | the binary pass keeps the number of slots (fixed length) |
| FormulaTree.MissingOperatorFrom | modules/formula-tree.js:479-493 | the neighbour scan can only fail with "Missing operator" |
| FormulaTree.Wrap | modules/formula-tree.js:497 | the slots start out holding exactly the elements |
| FormulaTree.Present | modules/formula-tree.js:501 | filtering out null gives no more elements than slots |
| FormulaTree.OperatorPasses | modules/formula-tree.js:497-499 | the three passes keep the number of slots |
| FormulaTree.ClosingBracketFrom | modules/formula-tree.js:284-298 | a closing bracket found ends at a ')' after the start, inside the text |
| FormulaTree.ScanElement | modules/formula-tree.js:264-347 | each element consumes at least one character and no more than the text |
| FormulaTree.ScanBracket | modules/formula-tree.js:299-308 | a call or bracketed sub-expression consumes the text through its closing bracket |
| FormulaTree.ScanToken | modules/formula-tree.js:310-346 | each token consumes at least one character and no more than the text |
| FormulaTree.ReplaceRawNumbers | modules/formula-tree.js:512-520 | no raw number remains at the root after replaceRawNumbers |
| FormulaParser.MatchLength | modules/formula-tree.js:241-247 | a pattern matches a prefix of the text |
| FormulaParser.TextMarker.constructor | modules/formula-tree.js:231-234 | the marker starts at the text and the start index |
| FormulaParser.TextMarker.ShiftBy | modules/formula-tree.js:236-239 | shiftBy drops num characters (all of them past the end, as slice does) and advances the index by num |
| FormulaParser.TextMarker.StartsWith | modules/formula-tree.js:241-247 | startsWith gives the longest prefix of the marker's text in the pattern's language, and null exactly when no non-empty prefix is in it |
| FormulaParser.LongestMatch | modules/formula-tree.js:250-257 | each anchored pattern (whitespace, number, operator, separator, cell-range, reference, closing bracket) matches greedily: its match is in the pattern's language and no longer prefix is |
| FormulaParser.FindNext | modules/formula-tree.js:352-361 | the loop returns NextFrom after the start |
| FormulaParser.FindPrev | modules/formula-tree.js:363-372 | the loop returns PrevFrom before the start |
| FormulaParser.ReplaceUnaryRawSymbols | modules/formula-tree.js:403-437 | rewriting the array in place gives exactly the slots, or the error, of UnaryPass on the old contents |
| FormulaParser.ReplaceBinaryRawSymbols | modules/formula-tree.js:439-476 | rewriting the array in place gives exactly the slots, or the error, of BinaryPass on the old contents |
| FormulaParser.ReplaceOperatorRawSymbols | modules/formula-tree.js:478-510 | the missing-operator scan, the three passes and the final filter compute FormulaTree.ReplaceOperatorRawSymbols |
| FormulaParser.FindClosingBracket | modules/formula-tree.js:284-298 | the do-while finds ClosingBracketFrom with one bracket open |
| FormulaParser.ParseContent | modules/formula-tree.js:259-350 | the tokenising loop over a TextMarker returns the elements, or the error, of the parse specification |
| FormulaParser.SkipWhitespace | modules/formula-tree.js:265-268 | skipping leading whitespace leaves none and does not change what the rest parses to |
| FormulaParser.NextElement | modules/formula-tree.js:273-347 | one iteration scans one element, after which the rest of the text is parsed, or raises the error that ends the parse |
| FormulaParser.ContentUnfold | modules/formula-tree.js:264-349 | the parse of a text without leading whitespace is its first element followed by the parse of what remains |
| FormulaParser.ContentSkip | modules/formula-tree.js:265-268 | skipping leading whitespace does not change the parse |
| FormulaParser.ContentEnd | modules/formula-tree.js:269-271 | the loop stops when no text is left |
| FormulaParser.ScanElement | modules/formula-tree.js:273-347 | the loop body computes Scan on the current text |
| FormulaParser.ScanBracket | modules/formula-tree.js:299-308 | the bracket branch computes FormulaTree.ScanBracket |
| FormulaParser.ScanToken | modules/formula-tree.js:310-346 | the token branch computes FormulaTree.ScanToken |
| FormulaParser.ScanReference | modules/formula-tree.js:317-333 | after no number, operator or separator matched, the cell-range and reference tests give the token, whatever separators are allowed |
| FormulaParser.ParseSingleton | modules/formula-tree.js:568-583 | computes FormulaTree.ParseSingleton |
| FormulaParser.FormulaFromString | modules/formula-tree.js:145-160 | computes FormulaTree.FormulaFromString |
| FormulaParser.ParseArguments | modules/formula-tree.js:522-566 | the separator loop computes FormulaTree.ParseArguments |
| FormulaParser.ParseFormula | modules/formula-tree.js:585-593 | computes FormulaTree.ParseFormula |
| FormulaTreeProps.ClosingBracketSpec | modules/formula-tree.js:284-298 | the bracket match ends at the first position where the depth, counting '(' up and ')' down, returns to zero; there is none exactly when the depth never does |
| FormulaTreeProps.MissingClosingBracket | modules/formula-tree.js:286-290 | when the depth never returns to zero, the error is "Missing closing bracket", covering the name and the opening bracket |
| FormulaTreeProps.SeparatorRefused | modules/formula-tree.js:314-319 | a ',' where separators are not allowed is the one-character error "Separators not allowed" |
| FormulaTreeProps.StrayClosingBracket | modules/formula-tree.js:330-333 | a ')' that opens no token is the error "Unmatched closing bracket" on that character |
| FormulaTreeProps.UnrecognisedText | modules/formula-tree.js:342-346 | a character that starts no token makes "Unrecognised text" covering the rest of the text |
| FormulaTreeProps.UnrecognisedWord | modules/formula-tree.js:342-346 | a word of letters that is neither a reference nor a call is unrecognised, from its start to the end of the text |
| FormulaTreeProps.RangeRefused | modules/formula-tree.js:320-325 | a cell-range where ranges are not allowed is "Cell-ranges not allowed", covering the range |
| FormulaTreeProps.RangeErrors | modules/formula-tree.js:195-225 | on letters, digits, ':', letters, digits: columns that differ apart from case are "Mismatched columns in cell-range"; then equal row numbers are "Cell-range starts and ends at the same row", a greater start row is "Cell-range end row before the start row", and otherwise the range holds the lowercased column and the two row texts; every error spans the whole text |
| FormulaTreeProps.RefMatchOfName | modules/formula-tree.js:256 | a cell name followed by anything but a digit is matched as a reference of exactly that name |
| FormulaTreeProps.CellNameOf | modules/formula-tree.js:184 | letters followed by digits form a cell name whose column ends where the letters do |
| FormulaTreeProps.RangeTextOf | modules/formula-tree.js:228 | two cell names around a ':' are range text split at that ':' |
| FormulaTreeProps.EmptyFormula | modules/formula-tree.js:585-590 | a formula of only whitespace is "Empty Formula", spanning the whole text |
| FormulaTreeProps.EmptyBrackets | modules/formula-tree.js:568-575 | brackets around only whitespace are "Empty Brackets", spanning both brackets |
| FormulaTreeProps.BlankThenClose | modules/formula-tree.js:284-297 | after whitespace, a final ')' closes the open bracket at the end of the text |
| FormulaTreeProps.UnknownFunction | modules/formula-tree.js:145-152 | a call whose name is neither sum nor avg in any case is "Unknown function", spanning only the name, whatever the arguments |
| FormulaTreeProps.RangeIsNoCall | modules/formula-tree.js:251-255 | a text that starts with a cell-range does not match the call pattern |
| FormulaTreeProps.MissingOperatorSpec | modules/formula-tree.js:479-493 | "Missing operator" is raised exactly when two neighbouring elements are both not symbols, at the first such pair, spanning the pair |
| FormulaTreeProps.NoOperatorsPass | modules/formula-tree.js:403-476 | a pass changes nothing when no slot holds one of its operators |
| FormulaTreeProps.UnaryMinus | modules/formula-tree.js:420-433 | a leading minus becomes a negation of its operand, spanning from the operator through the operand |
| FormulaTreeProps.MinusAfterOperand | modules/formula-tree.js:411-414 | a minus after an operand is not unary; it is left for the binary pass, and a - b becomes a subtraction |
| FormulaTreeProps.NoDoubleUnary | modules/formula-tree.js:407-424 | "- - a" fails with the wrong-first-argument error of the first unary minus |
| FormulaTreeProps.UnaryPassKeeps | modules/formula-tree.js:403-437 | the unary pass leaves a list without a minus unchanged |
| FormulaTreeProps.LeftToRight | modules/formula-tree.js:439-476 | a o1 b o2 c with both operators in one pass reduces to (a o1 b) o2 c, spanning the whole expression |
| FormulaTreeProps.AdditiveLeftToRight | modules/formula-tree.js:497-499 | plus and minus associate to the left |
| FormulaTreeProps.MultiplicativeLeftToRight | modules/formula-tree.js:497-499 | times and divide associate to the left |
| FormulaTreeProps.MiddlePass | modules/formula-tree.js:497-499 | the multiplicative pass reduces b * c inside a + b * c first |
| FormulaTreeProps.MultiplyBeforeAdd | modules/formula-tree.js:497-499 | a + b * c reduces to a + (b * c): times and divide bind tighter than plus and minus |
| FormulaTreeProps.ReducesToItself | modules/formula-tree.js:478-510 | a single operand reduces to itself |
| FormulaTreeProps.EmptyFirstArgument | modules/formula-tree.js:533-536 | a separator first in the content is the error "Empty argument" on that separator |
| FormulaTreeProps.ArgumentsThroughPrefix | modules/formula-tree.js:531-552 | the separator loop runs through a prefix whose arguments all parse up to the separator after it, then holds exactly the arguments the prefix alone yields, with that separator as the previous one |
| FormulaTreeProps.EmptyMiddleArgument | modules/formula-tree.js:531-552 | after any arguments that all parse, two separators in a row are "Empty argument", spanning both, whatever follows |
| FormulaTreeProps.EmptyLastArgument | modules/formula-tree.js:531-557 | after any arguments that all parse, a separator last in the content is "Empty argument" on that separator |
| FormulaTreeProps.OneArgument | modules/formula-tree.js:531-563 | a single operand is one argument, itself |
| FormulaTreeProps.ArgumentsFromShape | modules/formula-tree.js:531-563 | the separator loop, from any point, succeeds only when no argument is empty, and then yields one argument per separator-delimited part |
| FormulaTreeProps.ArgumentsShape | modules/formula-tree.js:522-566 | arguments split without error have no empty argument, and there are as many as separators plus one (none for empty content) |
| FormulaTreeProps.BinaryStepSpan | modules/formula-tree.js:459-473 | a binary node spans from its first operand through its second; the operand slots become null and nothing else changes |
| FormulaTreeProps.UnaryStepSpan | modules/formula-tree.js:426-433 | a unary node spans from the operator through its operand; the operand slot becomes null and nothing else changes |
| FormulaTreeProps.BracketSpan | modules/formula-tree.js:299-308 | a call spans from its name through its closing bracket; a bracketed element is widened to cover its brackets |
| FormulaTreeProps.NumOrNewFolds | modules/formula-tree.js:133-143 | a call folds into a number exactly when all its arguments are numbers and the function's value is a number, and then that is the number |
| FormulaTreeProps.EmptyAvgKept | modules/formula-tree.js:136-141 | avg() is not folded: the call is kept, because its value is undefined |
| FormulaTreeProps.AvgScanned | modules/formula-tree.js:273-308 | the text "avg  () " scans as the call avg with no arguments, spanning the name through the bracket |
| FormulaTreeProps.AvgContent | modules/formula-tree.js:259-350 | " avg  () " tokenises to that one call |
| FormulaTreeProps.EmptyAvgFormula | __tests__/formula-tree.js:153-157 | parseFormula(' avg  () ') is the call avg with no arguments at index 1, length 7, allowing null |
| ColumnLetters.Repeat | modules/spreadsheet.js:28-32 | k copies of a letter |
| ColumnLetters.NextLetter | modules/spreadsheet.js:36 | incrementing a letter code below 'z' gives a letter whose base-26 digit is worth one more |
| ColumnLetters.Succ | modules/spreadsheet.js:27-37 | the successor of a column name is a non-empty name |
| ColumnLetters.ColumnName | modules/spreadsheet.js:20-42 | a column name is made of letters and is empty only for 0 |
| ColumnLetters.SuccValue | modules/spreadsheet.js:27-37 | incrementing a name, bijective base 26, adds one to the number it stands for |
| ColumnLetters.NameOfValue | modules/spreadsheet.js:20-42 | every letter string is the name of the number it stands for |
| ColumnLetters.ValueOfName | modules/spreadsheet.js:20-42 | the name of n stands for n |
| ColumnLetters.ColumnNameInjective | modules/spreadsheet.js:20-42 | distinct columns have distinct names |
| ColumnLetters.SuccName | modules/spreadsheet.js:27-37 | incrementing the name of column n gives the name of column n + 1 |
| ColumnLetters.FirstNames | modules/spreadsheet.js:20-42 | the first column is "a", the 26th "z" and the 27th "aa" |
| ColumnLetters.LastNonZ | modules/spreadsheet.js:28-32 | the carry stops at the last letter that is not 'z', every later one being 'z' |
| ColumnLetters.SuccCarry | modules/spreadsheet.js:28-37 | the successor is what the carry computes: trailing 'z's become 'a' and the letter before is incremented, or an 'a' is put in front |
| ColumnLetters.Increment | modules/spreadsheet.js:27-37 | the loop body turns the code of one name into the code of its successor |
| ColumnLetters.Carry | modules/spreadsheet.js:28-32 | the carry loop turns the trailing 'z's into 'a's and stops at the last other letter |
| ColumnLetters.BumpAfterCarry | modules/spreadsheet.js:36 | incrementing the letter the carry stopped at completes the successor |
| ColumnLetters.NamesInOrder | modules/spreadsheet.js:20-42 | the list of the first column names is a chain of successors with no repeats |
| ColumnLetters.GetColumnLetters | modules/spreadsheet.js:20-42 | a new array with one name per column, the c-th the name of column c + 1, so the first is "a", each the successor of the one before, all distinct |
| TextRegions.SortRegionOrder | modules/text-regions.js:26-48 | sortRegion answers "not after" exactly for the intended order (empty regions first, then by start, then by end), 0 only for equal non-empty regions, and is antisymmetric on non-empty regions |
| TextRegions.RegionLeTotal | modules/text-regions.js:26-48 | any two regions are ordered one way or the other |
| TextRegions.RegionLeTrans | modules/text-regions.js:26-48 | the order is transitive |
| TextRegions.InsertPermutes | modules/text-regions.js:51 | inserting a region adds exactly it |
| TextRegions.InsertSorted | modules/text-regions.js:51 | inserting into a sorted list keeps it sorted |
| TextRegions.SortRegionsCorrect | modules/text-regions.js:51 | the sort gives a sorted permutation of the regions |
| TextRegions.CoversConcat | modules/text-regions.js:50-89 | two lists of regions cover a position exactly when one of them does |
| TextRegions.SameElementsSameCover | modules/text-regions.js:51 | reordering regions does not change what they cover |
| TextRegions.DropZeroLength | modules/text-regions.js:53-57 | dropping the leading zero-length regions of a sorted list leaves non-empty regions in ascending start order covering the same positions |
| TextRegions.ExtendRun | modules/text-regions.js:66-79 | a region starting inside or just after the run widens it to the larger end |
| TextRegions.MergeStart | modules/text-regions.js:59-60 | the outer loop's invariant holds when it starts |
| TextRegions.MergeStepSeparated | modules/text-regions.js:81-86 | after a run is collapsed, every merged region ends before each later region starts |
| TextRegions.MergeStepCover | modules/text-regions.js:81-86 | collapsing a run keeps what the merged prefix covers |
| TextRegions.MergeStepStarts | modules/text-regions.js:81-86 | collapsing a run keeps every region non-empty and starting where an input region starts |
| TextRegions.MergeStep | modules/text-regions.js:60-88 | one round of the outer loop preserves its invariant |
| TextRegions.MergePrepared | modules/text-regions.js:51-57 | after the sort and the drop, the regions are non-empty, in ascending start order, cover what the input covers and all come from the input |
| TextRegions.MergeFinish | modules/text-regions.js:60-88 | when the outer loop ends the regions are non-empty, separated and cover what they covered before |
| TextRegions.MergeChain | modules/text-regions.js:50-89 | the coverage and the starts carry back to the input |
| TextRegions.ScanRun | modules/text-regions.js:61-79 | the inner loop counts the regions that overlap or touch the growing run; they cover exactly the run, and the next region starts after its end |
| TextRegions.RunHead | modules/text-regions.js:61-64 | the region the outer loop is at is non-empty and starts no later than those after it |
| TextRegions.CollapseRun | modules/text-regions.js:81-86 | a run of more than one region becomes its first region widened to the run's end |
| TextRegions.MergeRuns | modules/text-regions.js:59-88 | the outer loop makes the regions separated, keeping coverage, number and starts |
| TextRegions.MergeRegions | modules/text-regions.js:50-89 | mergeRegions leaves no zero-length region; the regions are separated (touching ones merged), cover exactly what the input covers, are no more than the input, and each starts where an input region starts |
| CellValues.Digit36 | modules/cell-graph.js:287-290 | a base-36 digit has a value below 36, or is not a digit |
| CellValues.Digits36 | modules/cell-graph.js:287-290 | parseInt reads a prefix of the text |
| CellValues.Digits36Longest | modules/cell-graph.js:287-290 | parseInt reads the longest leading run of base-36 digits: each is one, and the character after them is not |
| CellValues.NatToString | modules/cell-graph.js:370 | String(row) is never empty |
| CellValues.NatToStringNoLeadingZero | modules/cell-graph.js:370 | String(row) starts with 0 only for row 0: it has no leading zeros |
| CellValues.UnionAllMember | modules/cell-graph.js:31-39 | a target is in a union of sets exactly when it is in one of them |
| CellValues.TargetSetMember | modules/cell-graph.js:31-39 | a target is collected exactly when some reference has it |
| CellValues.UnionFlatten | modules/cell-graph.js:31-39 | collecting argument by argument collects all the references' targets |
| CellValues.DependOnRefs | modules/cell-graph.js:31-39 | deriveDependOn collects exactly the targets of the tree's references |
| CellValues.UndefinedPoisons | modules/cell-graph.js:41-92 | a dependency that is null or caches undefined makes the whole formula undefined |
| CellValues.EvaluateLocal | modules/cell-graph.js:41-92 | a formula's value depends only on the caches of the nodes it depends on |
| CellValues.NatToStringValue | modules/cell-graph.js:365-370 | String(row) is a row of digits whose value is row |
| CellValues.CellNameCanonical | modules/cell-graph.js:333 | the corrected name of a reference's node is the one a cell-range reaches for that row |
| CellValues.LeadingZeroAsWritten | modules/cell-graph.js:329-346 | as written, the row "046" is in scope as row 46 but names a different node from "46" |
| CellValues.LeadingZeroCorrected | modules/cell-graph.js:329-346 | corrected, "a046" and "a46" name the same node "a46" |
| CellValues.Base36Lower | modules/cell-graph.js:287-290 | a lowercase column is worth at least 10 in base 36, the value of 'a' |
| CellValues.ColumnOfWord | modules/cell-graph.js:287-290 | columnToNum reads the whole lowercase column, never below columnToNum("a") = 10 |
| CellValues.BlankIsEmpty | modules/cell-graph.js:444-452 | a text of whitespace is an empty cell: nothing is stored for it |
| CellArena.NextIndex | modules/cell-graph.js:267-271 | the position after i in a cycle stays in the cycle |
| CellArena.NextIndexMod | modules/cell-graph.js:270 | it is (i + 1) % cycleLength |
| CellArena.CachesIrrelevant | modules/cell-graph.js:181-213 | changing caches keeps every invariant of the graph |
| CellArena.CachesKeepDependants | modules/cell-graph.js:205-210 | changing caches keeps every dependant in the arena |
| CellArena.DroppedAll | modules/cell-graph.js:249-256 | removing a cycle from each of its members removes it from every node |
| CellArena.RewiredAfter | modules/cell-graph.js:221-242 | the edge rewiring, then cycle and cache changes, leave n with the new value and its derived dependencies and every edge matched |
| CellArena.AppendFresh | modules/cell-graph.js:135-149 | a new node, with no edges and no cycles, keeps the invariants |
| CellArena.EdgesSymmetric | modules/cell-graph.js:228-242 | rewiring only the gained and lost edges keeps dependsOn and dependants symmetric |
| CellArena.EdgesFrame | modules/cell-graph.js:221-242 | rewiring changes n's value, isDynamic and dependsOn, and other nodes' dependants by at most n |
| CellArena.EdgesRest | modules/cell-graph.js:221-242 | rewiring keeps edges in the arena, values' shapes and the cycle members' records |
| CellArena.EdgesTable | modules/cell-graph.js:244-258 | after rewiring only the cycles through n whose next node was lost can be open, which are those setValue breaks |
| CellArena.DropKeeps | modules/cell-graph.js:249-256 | dropping a cycle from every node and from the table keeps the table's invariants |
| CellArena.CyclesIrrelevant | modules/cell-graph.js:244-277 | edges, values and their shapes do not depend on the cycles |
| CellArena.RegisterKeeps | modules/cell-graph.js:265-276 | registering a closed cycle on its members under a new id keeps the invariants |
| CellArena.ClosedTransfer | modules/cell-graph.js:13-29 | whether a cycle is closed depends only on dependsOn |
| CellArena.CycleMembersUndefined | modules/cell-graph.js:185-188 | the cache rule gives undefined for every member of a registered cycle |
| CellArena.CachesThrough | modules/cell-graph.js:215-277 | the value, edge and cycle steps of setValue leave every cache as it was |
| CellArena.EdgesNone | modules/cell-graph.js:228-242 | with no gained and no lost dependency, rewiring changes nothing |
| CellArena.RecycledOf | modules/cell-graph.js:244-277 | dropping exactly the broken cycles and then registering those found in order keeps the unbroken cycles and places the new ones after them |
| CellArena.AppendedTrans | modules/cell-graph.js:260-277 | registering one batch of cycles after another registers their concatenation |
| CellArena.ClosingDependant | modules/cell-graph.js:13-29 | a cycle found from a node ends in a node that depends on it, so a node without dependants finds no cycle |
| CellArena.RecycledNone | modules/cell-graph.js:246-277 | breaking no cycle and finding none leaves the cycle table and its counter as they were |
| CellArena.CyclesDetermined | modules/cell-graph.js:170-182 | every node's cycles map is fixed by the cycle table: two valid arenas with one table agree on their shared nodes' cycles, and a node only the larger has is in no cycle |
| CellGraphs.SetMinus | modules/cell-graph.js:3-11 | setMinus gives exactly the elements of the first set not in the second |
| CellGraphs.ArgDepsStep | modules/cell-graph.js:31-39 | the loop over a call's arguments collects one argument's dependencies at a time |
| CellGraphs.ArgDepsAll | modules/cell-graph.js:31-39 | after every argument, the call's dependencies are collected |
| CellGraphs.DeriveDependOn | modules/cell-graph.js:31-39 | deriveDependOn adds to dependSet exactly the targets of the tree's references |
| CellGraphs.CallFunc | modules/cell-graph.js:41-92 | a node's function applied to its argument values |
| CellGraphs.EmptyOk | modules/cell-graph.js:293-301 | a new graph, with no nodes, cycles, active cells or entries, meets every invariant |
| CellGraphs.Reported | modules/cell-graph.js:471-482 | the display callback is called once, with the new display, or not at all |
| CellGraphs.SameFormula | modules/cell-graph.js:405-410 | a stored formula with the same text is the entry the new text stands for, so skipping it changes nothing |
| CellGraphs.StoreSame | modules/cell-graph.js:464-469 | storing the entry already held changes nothing |
| CellGraphs.BlankEntryQuiet | modules/cell-graph.js:444-482 | whitespace entered in a cell with no entry and no active node leaves the entries unchanged and reports nothing |
| CellGraphs.SameValueEqual | modules/cell-graph.js:217-220 | values that setValue finds identical are equal, trees being compared by identity |
| CellGraphs.ArgSitesFlat | modules/cell-graph.js:349-360 | the references of a call's arguments, collected one argument at a time, are those of the arguments in order |
| CellGraphs.ArgSitesAll | modules/cell-graph.js:349-360 | after every argument the call's references are collected |
| CellGraphs.ArgRefsConcat | modules/cell-graph.js:349-360 | the references of converted arguments are those of each argument, in order |
| CellGraphs.PieceRefs | modules/cell-graph.js:352-358 | a converted argument spliced into the call keeps its references |
| CellGraphs.CallRefs | modules/cell-graph.js:349-360 | a call's references are its arguments' references |
| CellGraphs.ShapeDynamic | modules/cell-graph.js:130-132 | a converted formula is dynamic exactly when it parsed to a call or a reference, and a static one is worth its number or undefined |
| CellGraphs.EntryForCanonical | modules/cell-graph.js:405-440 | a stored formula entry is what its own text parses to |
| CellGraphs.ObjectsAfter | modules/cell-graph.js:215-281 | a value change that brings no new tree object keeps every tree older than the next object |
| CacheFlood.ReplaysConcat | modules/cell-graph.js:209-211 | replaying one log and then another replays their concatenation, as the nested calls run one after another |
| CacheFlood.ReplaysFinal | modules/cell-graph.js:181-213 | after a replayed log only caches differ; each node's cache is that of the last step on it, and a node no step touches is as before |
| CacheFlood.CycleStepsUndefined | modules/cell-graph.js:185-188 | every step a log takes on a dynamic node in a cycle caches undefined |
| CacheFlood.FloodEventsConcat | modules/cell-graph.js:204-211 | the events of a concatenation are those of its parts, in order |
| CacheFlood.FloodEventsSame | modules/cell-graph.js:204-208 | the events do not depend on the caches |
| CacheFlood.FloodEventsSpec | modules/cell-graph.js:204-208 | the events are exactly those of the steps that changed a dynamic node's cache, each with the node's name and new cache |
| CacheFlood.FloodLeaf | modules/cell-graph.js:202-213 | an unchanged cache, no depth left or no dependants make the one step the whole flood |
| CacheFlood.FloodStart | modules/cell-graph.js:181-203 | a changed first step starts a flood with no dependant done |
| CacheFlood.FloodJoin | modules/cell-graph.js:209-211 | a dependant's own flood, run on the arena reached so far, extends the flood under way with that dependant done |
| CacheFlood.FloodDone | modules/cell-graph.js:209-211 | once every dependant is done, the flood under way is the flood from n |
| CacheFlood.ReplaysAt | modules/cell-graph.js:181-213 | step j of a replayed log sees the arena the earlier steps reached, and its cache is the cache rule on that arena |
| CacheFlood.LastStep | modules/cell-graph.js:181-213 | the cache of a node after a log is that of the last step on it |
| CacheFlood.LastUntouched | modules/cell-graph.js:181-213 | a node no step touches keeps its cache |
| CacheFlood.ReplayedCaches | modules/cell-graph.js:181-213 | replaying a log changes only caches, each to that of the last step on its node |
| CacheFlood.RefFollows | __tests__/cell-graph.js:68-70 | a cell whose formula is a lone reference to a changed cell is recomputed later in the flood to that cell's new value |
| CacheFlood.FloodSecond | modules/cell-graph.js:202-211 | the step after the first in a flood recomputes a dependant of n |
| CacheFlood.FloodAlone | modules/cell-graph.js:181-213 | a node with no dependants floods in one step, to its cache rule |
| CacheFlood.RuleIgnoresOwnCache | modules/cell-graph.js:181-200 | the cache rule of a node that does not refer to itself does not depend on its own cache |
| CellGraphs.CellGraph.constructor | modules/cell-graph.js:293-301 | a new graph is empty and valid, its rows are 1 to maxRow and its columns columnToNum('a') to columnToNum(maxCol) |
| CellGraphs.CellGraph.AddDependant | modules/cell-graph.js:158-160 | adds d to node k's dependants and changes nothing else |
| CellGraphs.CellGraph.RemoveDependant | modules/cell-graph.js:162-168 | removes d from node k's dependants; succeeds exactly when d was one (the source throws otherwise) |
| CellGraphs.CellGraph.RemoveCycle | modules/cell-graph.js:170-175 | removes the cycle from node k; succeeds exactly when k was in it (the source throws otherwise) |
| CellGraphs.CellGraph.AddCycle | modules/cell-graph.js:177-179 | records the cycle on node k with its next node |
| CellGraphs.CellGraph.EvaluateFormula | modules/cell-graph.js:41-92 | evaluateFormula computes Evaluate on the arena's caches |
| CellGraphs.CellGraph.ApplyCache | modules/cell-graph.js:181-203 | node n's new cache is the cache rule, and it is reported changed exactly when it differs |
| CellGraphs.CellGraph.UpdateCache | modules/cell-graph.js:181-213 | the log is a flood from n on the old arena: its first step recomputes n by the cache rule; an unchanged cache ends it; each changed cache with depth left is followed later by a recomputation of every dependant one level deeper; no other step occurs; each step's cache is the cache rule on the arena of that moment; the events are exactly the changed dynamic steps, in order; only caches change |
| CellGraphs.CellGraph.FindCyclesFrom | modules/cell-graph.js:13-29 | the corrected search finds cycles through node back to the path's start, each closed and made of distinct arena nodes |
| CellGraphs.CellGraph.FindCyclesFromAsWritten | modules/cell-graph.js:13-29 | the search as written crashes on a null node, including a reachable node that depends on a cell out of scope |
| CellGraphs.CellGraph.DropCycle | modules/cell-graph.js:249-256 | a broken cycle is removed from every member and from the table |
| CellGraphs.CellGraph.RemoveFromMembers | modules/cell-graph.js:251-255 | each member of the cycle loses it; no other node changes |
| CellGraphs.CellGraph.RegisterCycle | modules/cell-graph.js:265-276 | each member of a new cycle records it with its next member, under a fresh id |
| CellGraphs.CellGraph.DetachLost | modules/cell-graph.js:233-237 | n leaves the dependants of every lost node, none of which throws |
| CellGraphs.CellGraph.AttachGained | modules/cell-graph.js:238-242 | n joins the dependants of every gained node |
| CellGraphs.CellGraph.BreakCycles | modules/cell-graph.js:244-258 | exactly the cycles of n whose next node was lost are dropped; the others are kept as they were |
| CellGraphs.CellGraph.BreakOne | modules/cell-graph.js:246-257 | one cycle of n is dropped if and only if it is broken |
| CellGraphs.CellGraph.RegisterAll | modules/cell-graph.js:265-276 | the cycles found are registered in order: the next id grows by their number and the j-th takes the j-th new id; old cycles keep their ids; registering none changes nothing |
| CellGraphs.CellGraph.AddNewCycles | modules/cell-graph.js:260-277 | the cycles the search finds from each gained node, all starting at n, are registered under the ids after the old next id, in the order found; old cycles are kept; no gained edge changes nothing |
| CellGraphs.CellGraph.SetValue | modules/cell-graph.js:215-281 | an identical value changes nothing; otherwise n takes the value and its derived dependencies, only gained and lost edges are rewired, an old cycle stays exactly when it is not broken, the cycles found (each starting at n) take the next ids in order, unchanged dependencies change no cycle, every invariant holds again, and from an arena with the old caches (base) the caches flood from n, the events being exactly those of that flood |
| CellGraphs.CellGraph.Relink | modules/cell-graph.js:221-277 | setValue before its flood: n takes the value and its derived dependencies with every cache kept; exactly the broken cycles are dropped and those found registered after them; unchanged dependencies change only the value |
| CellGraphs.CellGraph.BoundConcat | modules/cell-graph.js:348-377 | the bindings of two parts of a formula together bind the whole |
| CellGraphs.CellGraph.BoundMono | modules/cell-graph.js:321-346 | a binding stays a binding when more cells become active |
| CellGraphs.CellGraph.BoundNames | modules/cell-graph.js:329-346 | every in-scope reference's cell is active |
| CellGraphs.CellGraph.BoundBelow | modules/cell-graph.js:329-346 | bound references point at nodes of the arena |
| CellGraphs.CellGraph.CreateActiveCell | modules/cell-graph.js:321-327 | a new node named cellName becomes the active cell of that name; the old nodes are kept, rewired for its value, and keep their cycles; the new node is in no cycle and the cycle table is unchanged, since nothing depends on the new node; its cache is its cache rule; undefined (Unset) leaves a fresh node and sends nothing; null, a number or a text gives an isolated node that caches its rule and sends nothing; a tree value comes with the one-step flood from an arena with the old caches, whose events are sent |
| CellGraphs.CellGraph.GetActiveCell | modules/cell-graph.js:329-346 | null out of scope; otherwise the active cell of that name, created with the stored entry's value (or null) when missing, and only then does anything change; the old nodes and cycles are kept, a new node is isolated with its cache rule as its cache, and no event is sent |
| CellGraphs.CellGraph.NewCellValid | modules/cell-graph.js:336-343 | a node created for an inactive cell from its entry leaves the graph valid |
| CellGraphs.CellGraph.ConvertFormulaTree | modules/cell-graph.js:348-377 | every reference is bound to the active cell it names (null out of scope), each cell-range expands to one reference per row, and exactly the cells in scope become active; old nodes and cycles are kept, new nodes are isolated, and no event is sent |
| CellGraphs.CellGraph.ConvertCall | modules/cell-graph.js:349-360 | a call's arguments are converted in turn, a range's references spliced in; old nodes and cycles are kept, new nodes isolated, no event sent |
| CellGraphs.CellGraph.ConvertArgs | modules/cell-graph.js:351-359 | the loop over the arguments binds each of them |
| CellGraphs.CellGraph.ConvertArg | modules/cell-graph.js:352-358 | one more argument converted: the arguments so far, extended by the trees it becomes, are bound to the cells their references name, every invariant holds, and only the active cells its references name were added |
| CellGraphs.CellGraph.ConvertRange | modules/cell-graph.js:364-374 | a cell-range becomes one bound reference per row from its start to its end, with the range's span; old nodes and cycles are kept, new nodes isolated, no event sent |
| CellGraphs.RangeSitesOf | modules/cell-graph.js:365-369 | a cell-range's references are the rows its loop visits, none when a bound is not a number |
| CellGraphs.CellGraph.ExpandRows | modules/cell-graph.js:368-372 | the row loop binds every row from start to end |
| CellGraphs.CellGraph.ConvertRow | modules/cell-graph.js:369-371 | one row is bound to the active cell of String(row) |
| CellGraphs.CellGraph.RowDone | modules/cell-graph.js:368-372 | the row loop's invariant holds after one more row |
| CellGraphs.CellGraph.ConvertStep | modules/cell-graph.js:351-359 | one more converted argument extends the binding |
| CellGraphs.CellGraph.RefSites | modules/cell-graph.js:361-363 | a reference is bound to the cell it names, or to null out of scope |
| CellGraphs.CellGraph.RangeStep | modules/cell-graph.js:368-372 | one more row extends the range's binding |
| CellGraphs.CellGraph.ConvertParsed | modules/cell-graph.js:412-440 | a parse error gives an invalid formula and changes nothing; otherwise the formula is converted and is dynamic exactly when its tree is a call or a reference; old nodes and cycles are kept, new nodes isolated, no event sent |
| CellGraphs.CellGraph.FormulaCell | modules/cell-graph.js:412-440 | the entry the parsed formula stands for and, for a dynamic one, a new tree object as the value, its cell made active; binding grows the arena into bound and leaves the cycle table as it was; a cell created for the tree is appended to bound by its one-step flood, keeping every old node's cycles, and its events are the only ones sent |
| CellGraphs.CellGraph.NewTree | modules/cell-graph.js:430-436 | a dynamic formula gets a new tree object with the next identity; its cell, if not active, is created with it and nothing else is; the cycle table and every old node's cycles are unchanged |
| CellGraphs.CellGraph.ActiveTree | modules/cell-graph.js:430-433 | for a cell already active only a new tree object is made |
| CellGraphs.CellGraph.FreshTree | modules/cell-graph.js:430-436 | a cell not active is created with the new tree by its one-step flood, appended to the arena in no cycle; the cycle table and the old nodes' cycles are unchanged |
| CellGraphs.CellGraph.NewObject | modules/cell-graph.js:426-431 | a new tree object takes the next identity and nothing else changes |
| CellGraphs.CellGraph.NewFormulaCell | modules/cell-graph.js:431-436 | a cell with a new dynamic formula becomes active with the tree as its value, created by the one-step flood of createActiveCell, whose events are sent; the old nodes are kept, rewired for the tree, with their cycles; the cycle table is unchanged |
| CellGraphs.CellGraph.FreshTreeValid | modules/cell-graph.js:431-436 | a node created for an inactive cell with a new tree leaves every other cell agreeing with its entry and every tree older than the next object |
| CellGraphs.CellGraph.UpdateNode | modules/cell-graph.js:454-462 | the active node takes the new value through setValue, which changes no other cell's value; nothing changes, cycle table included, exactly when the value is identical; otherwise the arena is rewired for the value and the caches flood from it, the events being those of that flood, and the cycle table loses exactly the node's cycles through a lost dependency and gains the cycles found, each starting at the node |
| CellGraphs.CellGraph.EntryOf | modules/cell-graph.js:405-452 | the entry is what the text stands for; a formula whose text is stored already is left alone; a number or text changes nothing yet; the cycle table is unchanged; binding a formula grows the arena, and a cell created for it is appended by its one-step flood, in no cycle and keeping the old nodes' cycles, and its events are the only ones sent |
| CellGraphs.CellGraph.FormulaEntryOf | modules/cell-graph.js:412-440 | formula text other than the stored formula's is parsed and converted into the entry it stands for, which differs from the stored one |
| CellGraphs.CellGraph.SetCellEntry | modules/cell-graph.js:395-483 | stores what the text stands for (nothing for an empty text), gives the active node its value, changes nothing for the stored formula's own text; binding grows the arena and keeps its nodes; a cell created for its dynamic formula is appended by its one-step flood, in no cycle, and shows its cache rule; otherwise the node is rewired for its value and the caches flood from it, the cycle table losing exactly the node's cycles through a lost dependency and gaining those found; with no such flood the cycle table is unchanged; the events are exactly those floods' and then the cell's display, exactly when it changed |
| CellGraphs.CellGraph.EnteredOf | modules/cell-graph.js:395-483 | binding, then setValue on the node, then storing the entry, is what setCellEntry did: a created cell takes no second flood, since its node already holds the tree, and the only change to the cycle table is that setValue's |
| CellGraphs.CellGraph.Commit | modules/cell-graph.js:454-482 | the active node takes the value, the entry is stored or deleted; a node already holding the tree is not changed, nor is the cycle table; otherwise the arena is rewired for the value and the caches flood from it, and the cycle table loses exactly the node's cycles through a lost dependency and gains those found; the events are exactly the flood's, then the display exactly when it differs |
| CellGraphs.CellGraph.StoredValid | modules/cell-graph.js:464-469 | storing the entry its node agrees with makes every entry agree again |

## Left out

- IEEE floating point: numbers are exact reals. Division by zero gives 0
  as a stand-in for Infinity or NaN. The result is still a number, so
  folding and `typeof` tests behave as in the source.
- `Number()` on entry text is modelled exactly on the decimal texts that
  the number pattern admits. Rounding to a double is not modelled.
- `Array.prototype.sort` in `mergeRegions` is modelled as an insertion
  sort by the comparator. The comparator answers -1 both ways for two
  zero-length regions, and the engine's resulting order among those is not
  modelled. They are dropped right after the sort either way.
- TextRegions.MergeRegions: modelled on the value of the array. It returns
  the new sequence and does not update the caller's array in place.
  Aliasing of the region objects (`reg.length = ...` writes into a shared
  object) is not modelled.
- CellGraphs.CellGraph.ConvertFormulaTree: the splice into a call's
  `args` array is modelled as building the new argument sequence. A
  `Formula` object shared with some other holder would see the change in
  the source; the model does not capture that.
- Object identity: nodes are arena indices, cycles have numeric ids, and
  trees carry a fresh identity number. `value === prevValue` compares
  these. `Map` and `Set` iteration order is not modelled, so the order of
  dependants, of cycles and of the flood is left open.
- CellGraphs.CellGraph.UpdateCache: the recursive flood is bounded by a
  fuel `depth` fixed when the graph is made. Beyond that depth, further
  dependants are not updated. The source has no bound. It terminates
  because a cycle's members all become undefined.
- CellGraphs.CellGraph.Valid: because of that bound, the graph's invariant
  does not say that every cache equals the cache rule on the arena. The
  flood's contract says which nodes were recomputed and to what instead.
- Callbacks: `cellDisplayUpdateCallback` becomes a log of events.
  `dynamicCellCacheChangedCB` appends to that log.
- `activeCellInactiveCB` and `testInactive` are modelled as a guard that
  never fires. `testInactive` tests a field that is never assigned, so no
  cell ever becomes inactive.
- CellGraphs.CellGraph.FormulaCell: when a dynamic formula refers to its
  own cell, the cell's node already exists. The contract then says only
  that the node holds the new tree or that every existing tree is older,
  rather than which case holds.
- CellGraphs.CellGraph.FindCyclesFrom: the contract says only that every
  cycle found is a real cycle that starts with the path. It does not say
  that every such cycle is found; the search's completeness is not proved.
- CellGraphs.CellGraph.AddNewCycles: registers exactly the cycles the
  search returns. Since the search is proved sound and not complete, the
  contract does not promise that every cycle a gained edge closes is
  registered. For example, it does not imply that the one-node cycle
  `[a2]` of a self-reference is registered.
- CellGraphs.CellGraph.Relink: the cycles it registers are those
  AddNewCycles registers, so the same completeness gap applies.
- CellGraphs.CellGraph.UpdateNode: the cycles the table gains are those
  setValue's search found; that they are all the new cycles is not
  promised, as for AddNewCycles.
- CellGraphs.CellGraph.Commit: the cycles the table gains are those
  setValue's search found; that they are all the new cycles is not
  promised, as for AddNewCycles.
- CellGraphs.CellGraph.SetCellEntry: the cycles the table gains are those
  setValue's search found; that they are all the new cycles is not
  promised, as for AddNewCycles.
- CellGraphs.CellGraph.GetActiveCell: the main model names the node with
  the corrected `String(Number(cellRow))` of the Findings, not with the
  row digits as typed. CellValues.CellNameAsWritten, with
  CellValues.LeadingZeroAsWritten, models the name as written.
- CellGraphs.CellGraph.SetValue: the main model searches for new cycles
  with the corrected FindCyclesFrom of the Findings, which skips a null
  node. FindCyclesFromAsWritten models the search that reads
  `null.dependsOn`.
- Text lengths: strings are sequences of characters, while JavaScript's
  `length` and `index` count UTF-16 code units. A character outside the
  Basic Multilingual Plane (an emoji, say) counts once in the model and
  twice in the source, so error spans after one differ.
- TextRegions.TextRegion: a region's length is a natural number.
  `text-regions.js` never makes a negative length itself, and a caller's
  region with a negative length is not modelled.
- `console.error` and JavaScript exceptions other than `ParseError` are
  not modelled. An error the source throws where it says "not expected"
  becomes a boolean or an `Err` result.
- `namedFunctions` is a plain object, so `constructor` and other inherited
  properties would be found by the lookup. The model's lookup knows only
  `sum` and `avg`.
- The rest of `modules/spreadsheet.js` (the DOM and formatting) is not
  part of this model. So are the parts of `modules/text-regions.js` and
  `modules/formula-tree.js` not named in the table.

## Findings

| source | as written | input that shows it | evidently intended | confidence | as-written member | corrected member |
|---|---|---|---|---|---|---|
| modules/cell-graph.js:13-29 | findCyclesFrom recurses into every entry of dependsOn, which holds null for a reference out of scope, and reads `null.dependsOn` | with maxRow 50, set a1 to `=a51`, then a2 to `=a1`: the search from a1 reaches null and throws | skip a null node, as setValue's own loop over gainedDepsOn does | not executed | CellGraphs.CellGraph.FindCyclesFromAsWritten | CellGraphs.CellGraph.FindCyclesFrom |
| modules/cell-graph.js:333 | getActiveCell names the node `cellCol + cellRow` with the row digits as typed | `=a046` passes the scope test as row 46, yet binds to a node `a046` apart from the cell `a46` that `=a46` and the range `a45:a46` reach | name the node with the row's number, `String(Number(cellRow))`, as the range expansion does | not executed | CellValues.LeadingZeroAsWritten | CellValues.LeadingZeroCorrected |
