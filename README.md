# donedrop task sorter, modelled in Dafny

donedrop reorders the checkbox tasks of a Markdown document. Inside every
group of sibling lines, completed tasks (`- [x]`) move below incomplete ones
(`- [ ]`). A line's siblings are decided by its indentation. `TaskSorter.sort`
does the work in four steps:

1. It splits the text into lines.
2. It builds a tree of `TaskBlock`s from the indentation, using a stack of open
   ancestors.
3. It sorts every sibling group in place with a three-way comparator.
4. It writes the tree back out in pre-order, with `"\n"` between lines.

The project models each step on its own, in the form the source uses:

| file | module | models |
|---|---|---|
| `blocks.dfy` | `Blocks` | the `TaskBlock` record and its constructor; the regular expressions `^\s*` and `^\s*[-*]\s+\[(.)\]` with ECMAScript's `\s` and `.`; `getIndentLevel` |
| `lines.dfy` | `Lines` | `split(/\r?\n/)` and joining with `"\n"` |
| `parser.dfy` | `Parser` | `parseBlocks` as a loop over an explicit stack of frames, proved equal to a functional fold `Parsed`, and the rule that decides each line's parent |
| `sorting.dfy` | `Sorting` | `sortLevel` as a stable in-place insertion sort on an `array<Block>` with the exact comparator, proved equal to an independent description `Segmented` |
| `forest.dfy` | `Forest` | `sortBlocksRecursively` on an `array<Block>`, proved equal to `SortedForest` |
| `serializer.dfy` | `Serializer` | `stringifyBlocks` |
| `sorter.dfy` | `TaskSorter` | `sort`, and the properties of the whole pipeline |
| `seqs.dfy` | `Seqs` | small facts about sequences that the proofs above use |

Blocks are values. `parseBlocks` pushes a block into its parent's child list
when the block itself is pushed on the stack. The model instead attaches each
block to its parent's child list when the block's own frame is popped; the
parent's frame is still on the stack at that moment. `Parser.Close(roots, stack)`
is the tree as the source's heap shows it after every line.

## Model

| member | source | states |
|---|---|---|
| Blocks.NewBlock | src/sorter.ts:14-25 | the block keeps the line and its number and has no children; its indentation is the leading whitespace; it is a task exactly when the line has the shape whitespace, `-` or `*`, one or more whitespace characters, `[`, one status character, `]`; it is completed exactly when it has that shape and the status character is not a space |
| Blocks.TaskStatusMatchesShape | src/sorter.ts:19-24 | the left-to-right scan used for the task regular expression succeeds exactly on lines of the task shape, and captures the character between the brackets |
| Blocks.CompletedIsTask | src/sorter.ts:23-24 | a line that is not a task is never completed |
| Blocks.Indentation | src/sorter.ts:27-30 | the indentation is a prefix of the line, all whitespace, and maximal: the next character, if any, is not whitespace |
| Blocks.WhitespaceEnd | src/sorter.ts:20 | the longest whitespace run from a position: within bounds, all whitespace, and stopped by a non-whitespace character or the end |
| Blocks.WhitespaceEndUnique | src/sorter.ts:20 | a maximal whitespace run starting at a given position has only one possible end, so `\s*` and `\s+` never backtrack |
| Blocks.GetIndentLevel | src/sorter.ts:162-169 | the loop returns the indentation width: 4 for each tab and 1 for each other character |
| Blocks.IndentWidthCounts | src/sorter.ts:162-169 | the width equals the number of characters plus three per tab |
| Blocks.LevelZero | src/sorter.ts:27-30 | a line is at level 0 exactly when it is empty or does not start with whitespace |
| Lines.SplitLines | src/sorter.ts:45 | splitting on `\r?\n` gives at least one line and no line contains `\n` |
| Lines.JoinSplitLines | src/sorter.ts:45 | joining the split lines with `"\n"` gives the text back with each `"\r\n"` replaced by `"\n"` |
| Lines.JoinSplitLinesPlain | src/sorter.ts:45 | a text without `"\r\n"` is exactly the join of its split lines |
| Parser.ParseBlocks | src/sorter.ts:56-84 | the stack-based loop builds exactly the forest `Parsed(lines)`; its invariant is that the roots plus the stack, closed, are the forest of the lines read so far |
| Parser.PopDeeper | src/sorter.ts:69-72 | the loop pops every frame at or deeper than the new line's level: afterwards the stack is valid, every frame left is shallower than the new line, and the closed forest is unchanged |
| Parser.PopAll | src/sorter.ts:83 | attaching every frame still on the stack to its parent gives the closed forest, which is the forest the source's roots array holds |
| Parser.PushLine | src/sorter.ts:74-80 | attaching the new block under the top frame, or as a root when the stack is empty, and then pushing it, extends the closed forest by one line |
| Parser.ParsedListsLines | src/sorter.ts:56-84 | the parsed forest makes one block per line: its pre-order listing is the lines in order, each classified with its own line number |
| Parser.ParsedTexts | src/sorter.ts:56-84 | the pre-order lines of the parsed forest are the input lines |
| Parser.ParsedWellNested | src/sorter.ts:69-80 | every child in the parsed forest is strictly deeper than its parent |
| Parser.LineLevelOfBlock | src/sorter.ts:27-30 | the level the parent rule reads off a line is the level of the block the parser makes from it |
| Parser.LastShallowerIs | src/sorter.ts:69-72 | the search names line `p` exactly when `p` comes before the bound, is strictly shallower than the level, and every line in between is at least that deep |
| Parser.LastShallowerNone | src/sorter.ts:69-72 | the search finds nothing exactly when every line before the bound is at least as deep as the level |
| Parser.InsertEdges | src/sorter.ts:74-78 | adding one childless block adds exactly one parent-child pair, from the block it is attached under, and none when it becomes a root |
| Parser.RootLinesInsert | src/sorter.ts:74-78 | adding one block adds its line to the roots exactly when it is attached as a root |
| Parser.AttachParsed | src/sorter.ts:69-78 | after some lines, a new line is attached under the last of them that is strictly shallower, and becomes a root when there is none |
| Parser.ParsedParents | src/sorter.ts:56-84 | the parent-child pairs of the parsed forest are exactly the pairs (parent line, line) for every line that has a parent line, and its roots are exactly the lines without one |
| Parser.ParentRule | src/sorter.ts:69-78 | line `p` is the parent of line `c` exactly when `p` comes before `c`, is strictly shallower, and every line between them is at least as deep as `c` |
| Parser.RootRule | src/sorter.ts:69-78 | line `c` is a root exactly when every line before it is at least as deep as `c` |
| Sorting.Compare | src/sorter.ts:117-135 | the comparator is positive exactly for a completed task before an incomplete one, and negative exactly for the reverse; everything else is a tie |
| Sorting.CompareAntisymmetric | src/sorter.ts:117-135 | swapping the arguments negates the comparator's result |
| Sorting.InsertAt | src/sorter.ts:117 | one insertion step in place: the first `i + 1` cells become the sorted prefix with the new block inserted, and the rest of the array is unchanged |
| Sorting.SortLevel | src/sorter.ts:110-136 | sorting a group in place leaves the array equal to the stable insertion sort of its old contents |
| Sorting.SortLevelPermutes | src/sorter.ts:110-136 | the sorted group is a permutation of the group |
| Sorting.SortLevelLength | src/sorter.ts:110-136 | the sorted group has the same length as the group |
| Sorting.SortLevelIsSegmented | src/sorter.ts:104-136 | the sort equals the independent description: each non-task keeps its place, and each maximal run of tasks becomes its incomplete tasks and then its completed tasks, each kind in original order |
| Sorting.SortLevelKeepsPlain | src/sorter.ts:118-119 | a non-task line keeps its exact position in its group |
| Sorting.SortLevelAllTasks | src/sorter.ts:104-136 | a group made only of tasks becomes its incomplete tasks and then its completed tasks, each kind in original order |
| Sorting.SortLevelStable | src/sorter.ts:104-136 | the incomplete tasks keep their relative order, and so do the completed tasks |
| Sorting.SortLevelInOrder | src/sorter.ts:104-106 | after sorting, no completed task stands directly before an incomplete one |
| Sorting.SortLevelKeepsInOrder | src/sorter.ts:104-108 | a group with no completed task directly before an incomplete one is left unchanged |
| Sorting.SortLevelFixedPoints | src/sorter.ts:104-136 | sorting leaves a group unchanged exactly when no completed task directly precedes an incomplete one |
| Sorting.RunEndUnique | src/sorter.ts:119-124 | a maximal run of consecutive tasks starting at a position has only one possible end |
| Forest.SortBlocksRecursively | src/sorter.ts:92-102 | sorting the group and then, block by block, its children's groups leaves the array equal to `SortedForest` of its old contents |
| Forest.SortTree | src/sorter.ts:97-101 | a block with children has them sorted recursively; a block without children is left as it is |
| Forest.SortedForest | src/sorter.ts:92-102 | the sorted forest has as many roots as the forest |
| Forest.SortedForestAt | src/sorter.ts:92-102 | each root of the sorted forest is the block at that position of the sorted group, with its children sorted, and that block comes from the group |
| Forest.SortedForestInOrder | src/sorter.ts:92-136 | in the sorted tree, no group has a completed task directly before an incomplete one |
| Forest.SortedForestKeepsInOrder | src/sorter.ts:92-136 | a tree whose every group is already in order is left unchanged |
| Forest.SortedForestIdempotent | src/sorter.ts:92-102 | sorting the tree a second time changes nothing |
| Forest.SortedForestFlatten | src/sorter.ts:92-102 | the sorted tree lists the same blocks, each as often as before, in its pre-order listing |
| Forest.PermutedFlatten | src/sorter.ts:94-101 | groups that are permutations of each other list the same blocks in their subtrees |
| Serializer.StringifyBlocks | src/sorter.ts:138-156 | the returned text is the lines of the blocks and all their descendants in pre-order, with exactly one `"\n"` between consecutive lines and none before the first or after the last |
| Serializer.JoinSingle | src/sorter.ts:142-145 | one block is written as its own line, followed by a newline and its children's text when it has children |
| Serializer.JoinSnoc | src/sorter.ts:151-153 | writing one more sibling after a non-empty group puts exactly one newline between them |
| TaskSorter.Sort | src/sorter.ts:42-51 | the whole pipeline returns `SortedText(text)`: the empty text for an empty document, otherwise the split, parsed, sorted and written-out lines |
| TaskSorter.SortKeepsLines | src/sorter.ts:42-51 | the lines the output is joined from are a permutation of the input lines: same count, and each line occurs as often as before |
| TaskSorter.TextsOfPermuted | src/sorter.ts:138-156 | blocks that are permutations of each other have lines that are permutations of each other |
| TaskSorter.SortKeepsSortedText | src/sorter.ts:42-51 | a document whose every group is already in order comes back with only its `"\r\n"` separators turned into `"\n"` |
| TaskSorter.SortKeepsSortedPlainText | src/sorter.ts:42-51 | a document already in order and without `"\r\n"` comes back unchanged |
| TaskSorter.SortedLinesInOrder | src/sorter.ts:42-51 | the tree the output is written from has every group in order, and sorting it again changes nothing |
| TaskSorter.SortedForestWellNested | src/sorter.ts:92-102 | sorting keeps every child strictly deeper than its parent |
| TaskSorter.SortedParseWellNested | src/sorter.ts:46-48 | the tree the output is written from is well nested |

## Left out

- The editor extension that calls `TaskSorter.sort` (commands, change events, debouncing, file I/O) and the lint configuration are not part of this model. Text goes in and text comes out.
- The order `Array.prototype.sort` gives a mixed group is not modelled. ECMAScript leaves it to the engine, because the comparator is not a consistent ordering: a non-task ties with both kinds of task, but the two kinds of task do not tie with each other. The model fixes a stable insertion sort with the source's comparator. `Sorting.SortLevelIsSegmented` describes the result. For a group made only of tasks the comparator is consistent, and every stable sort gives the result the model gives.
- `Sorting.SortLevel` sorts by insertion, not with the engine's sort algorithm, so the O(n log n) running time is not modelled.
- `Sorting.SortLevelKeepsPlain` holds for the model's insertion sort, not for every engine. V8's binary insertion sort turns the group done a, open b, note, open c into b, c, a, note, which moves the note; the model gives b, a, note, c.
- Strings are sequences of code points, not UTF-16 code units. A status character outside the Basic Multilingual Plane, which `(.)` cannot match, is excluded explicitly. Lone surrogates cannot be written in the model.
- Object identity and aliasing are not modelled. Blocks are values, so the model attaches each block to its parent's child list when the block's own frame is popped; the TypeScript does it when the block is pushed, and later changes to the block show through the parent's array.
- `Forest.SortTree` copies a block's children into a fresh array, sorts that array and stores the result back. The TypeScript sorts the child array in place.
- `TaskSorter.Sort`: the output uses `"\n"` everywhere, because the code splits on `\r?\n` and joins with `"\n"`. The output is therefore not byte-identical to the input for documents with `"\r\n"` separators. `TaskSorter.SortKeepsSortedText` states what the output is in that case.
- `TaskSorter.SortedLinesInOrder`: idempotence is proved for the tree, not for the text. Re-parsing the output can give a different tree from the one that was sorted. In `"- [ ] P\n    - [x] C1\n  - [ ] C2"`, the block `C1` moves below the shallower `C2` and is re-read as its child. So text-level idempotence, `sort(sort(x)) == sort(x)`, is not proved here.
- The `lineNumber` field is kept on every block. The source never reads it; the model uses it only to name lines in `Parser.Edges` and `Parser.RootLines`.
