# golandfmt's wrap-if-long engine, in Dafny

golandfmt reformats Go source the way GoLand's "wrap if long" setting does.
After gofmt, the engine revisits these lists, from the last in the file to
the first:
- the arguments of every call and the elements of every composite literal,
  when there is at least one;
- the non-empty parameter list of every function declaration or function
  literal;
- that function's result list, when it is parenthesized and has two or more
  fields (so not `(err error)` and not `(a, b int)`).

Interface methods and `func` types are never wrapped. A bracketed list is
put on one line when that line then fits in `maxLen` columns. Otherwise it is broken after the opening delimiter. Its items are
then packed greedily onto lines indented one tab deeper, each line ending
in a comma, and the closing delimiter goes on a line of its own.

This project models that engine (`formatter.go`) from "a buffer and some
offsets" to "the rewritten buffer", and proves what it does:

- `width.dfy` (`Columns`): the tab-aware width `visualLen`.
- `normalize.dfy` (`Whitespace`): `strings.TrimSpace` and
  `normalizeWhitespace`.
- `lines.dfy` (`Lines`): `findLineStart` and `extractIndent`.
- `pack.dfy` (`Pack`): the greedy packer `packItems`. It is characterised
  without running it: `IsGreedy` describes a greedy grouping, and there is
  exactly one.
- `node.dfy` (`Node`): `extractItems` and `processNode`, that is, the
  collapse-or-expand decision for one construct and its splice into the
  buffer.
- `wrap.dfy` (`Wrap`): the loop of `wrapIfLong` that applies `processNode`
  to the constructs in descending order and tracks the `changed` flag.
- `discover.dfy` (`Discover`): which syntax nodes `collectWrappables` and
  `collectFuncType` turn into bracketed lists.
- `text.dfy` (`Text`): `strings.Join` and small sequence facts shared by the
  others.

Each loop of the engine, from `visualLen` to the loop of `wrapIfLong`, is a
Dafny `method` with the same loop. It is proved equal to a function that
specifies it, and the properties are proved about that function. The loops
of `collectWrappables` and `collectFuncType` that copy item positions are
not methods: their result is the `Span`s each `Construct` carries.

Text is `seq<char>` with one char per byte. The Go code indexes bytes
(`src[openOff]`, `src[:openOff]`) but counts runes in `visualLen` and
`normalizeWhitespace`; the two agree only on ASCII text. The model assumes
ASCII throughout. Positions that the parser reports through
`token.FileSet` are given directly as byte offsets: a `Wrappable` is the
offsets of the opening and closing delimiters plus one `Span` (start, end)
per item.

Two behaviours of the code are modelled as written:

- `normalizeWhitespace` returns text without a newline unchanged, with its
  tabs and double spaces included. Trimmed text that spans several lines
  becomes its words (`Words`, the maximal runs of characters other than
  space, tab, carriage return and newline) separated by single spaces
  (`NormalizeSpec`, `ItemTextWords`).
- The multi-line test in `processNode` looks at texts that normalisation has
  already stripped of newlines, so it is always false (`NoMultiLineItem`).

The loop's main result is about constructs that do not interfere
(`Separate`: each lies in the buffer, its items lie between its delimiters,
and it closes before the one processed before it opens). For them,
`processNode` applied in turn to the changing buffer gives the same buffer
as computing every construct's edit on the original text and splicing all
the edits in (`AppliedIsAssembled`). The `changed` flag is set exactly when
one of those edits differs from the text it replaces
(`ChangedIffSomeEditDiffers`).

## Model

| member | source | states |
|---|---|---|
| `Columns.VisualLen` | formatter.go:52-62 | the column loop computes the width `Width`, where a tab moves to the next multiple of the tab width and any other character adds one |
| `Columns.TabStop` | formatter.go:55-56 | after a tab the width is a multiple of the tab width, strictly greater than before and at most one tab width further |
| `Columns.WidthAppend` | formatter.go:52-62 | appending text never lowers the width, and each appended character adds at least one column |
| `Columns.WidthAtLeastLength` | formatter.go:52-62 | the width is at least the number of characters |
| `Columns.WidthAppendWithoutTabs` | formatter.go:57-58 | appended text without tabs adds exactly its length, whatever precedes it |
| `Columns.WidthWithoutTabs` | formatter.go:57-58 | without tabs the width equals the number of characters |
| `Columns.LeadingTabs` | formatter_test.go:19-20 | one and two leading tabs at tab width 4 reach columns 4 and 8 |
| `Columns.WidthExamples` | formatter_test.go:18-22 | "hello" is 5 columns and "no tabs here" 12 at tab width 4 |
| `Columns.IndentedWidthExamples` | formatter_test.go:19-21 | "\thello" is 9 columns, "\t\thello" 13 and "\tprintln()" 13 at tab width 4 |
| `Columns.CollapsedLineWidth` | formatter_test.go:157-179 | the collapse test's joined line "\tprintln(1, 2, 3)" is 20 columns wide |
| `Lines.LineStart` | formatter.go:263-270 | the line start lies at or before the offset, no newline lies between them, and it is 0 or just after a newline |
| `Lines.FindLineStart` | formatter.go:263-270 | the backward scan returns `LineStart` |
| `Lines.LineStartOfPrefix` | formatter.go:263-270 | the line start depends only on the text before the offset |
| `Lines.Indent` | formatter.go:272-282 | the indent is a prefix of the line made only of spaces and tabs, followed by a character that is neither or by the end of the line |
| `Lines.IndentIsBlankPrefix` | formatter.go:272-282 | any blank prefix followed by a non-blank character or by the end of the line is the indent, so the indent is the longest blank prefix |
| `Lines.ExtractIndent` | formatter.go:272-282 | the forward scan, which stops at the first non-blank character, returns `Indent` |
| `Whitespace.TrimLeftSuffix` | formatter.go:202 | trimming the left keeps a suffix that starts with a non-space, and only white space is removed |
| `Whitespace.TrimRightPrefix` | formatter.go:202 | trimming the right keeps a prefix that ends with a non-space, and only white space is removed |
| `Whitespace.TrimSpaceSlice` | formatter.go:202 | `TrimSpace` returns a slice of its input with no white space at either end, and everything cut off is white space |
| `Whitespace.CollapseFacts` | formatter.go:213-226 | the folding loop leaves no newline, carriage return or tab and no two adjacent spaces, never grows the text, and keeps the non-layout characters in order (how each run is folded is stated by `CollapseWords`) |
| `Whitespace.WordsShape` | formatter.go:216-224 | every word is non-empty and holds no space, tab, carriage return or newline |
| `Whitespace.CollapseWord` | formatter.go:221-224 | a run of non-layout characters is copied as it is, and the folding starts afresh after it |
| `Whitespace.CollapseRun` | formatter.go:216-220 | inside a run of layout characters nothing more is written once a space has been |
| `Whitespace.LayoutThenWord` | formatter.go:216-220 | a run of layout characters before a word is written as exactly one space and contributes no word |
| `Whitespace.CollapseWords` | formatter.go:213-226 | on text that starts and ends with a non-layout character, the folding loop writes the words separated by exactly one space |
| `Whitespace.Normalize` | formatter.go:209-227 | the normalised text never holds a newline |
| `Whitespace.NormalizeSpec` | formatter.go:209-227 | text without a newline is returned unchanged; otherwise no newline, carriage return, tab or double space is left, and text that starts and ends with a non-layout character becomes its words joined by single spaces; either way the non-layout characters are kept in order |
| `Whitespace.NormalizeWhitespace` | formatter.go:209-227 | the builder loop with its `inSpace` flag returns `Normalize` |
| `Text.JoinTerminated` | formatter.go:260 | joining one or more lines with "\n" and adding "\n" ends every line, the last included, with its own newline |
| `Text.JoinAvoids` | formatter.go:171 | a character found in neither the parts nor the separator is not in the joined text |
| `Pack.LineWidthSnoc` | formatter.go:244-247 | adding an item to a line adds 2 for the separator plus the item's width to the credited width |
| `Pack.LineWidthPrefix` | formatter.go:244-247 | a line's credited width is never below that of a non-empty prefix of it |
| `Pack.PackFromIsGreedy` | formatter.go:236-258 | from an open line that fits, the packer's lines are a greedy grouping of the remaining items, and the first of them extends the open line |
| `Pack.GreedyCons` | formatter.go:248-251 | a line that fits, closed because the next item does not fit on it, in front of a greedy grouping of the rest, is a greedy grouping of all the items |
| `Pack.GroupsAreGreedy` | formatter.go:229-261 | the packer's lines are a greedy grouping: read in order they give back the items, none is empty, a line of two or more items fits with its trailing comma, and the first item of every line did not fit on the line before |
| `Pack.FlattenSplit` | formatter.go:236-258 | the first line of a grouping holds the first items, and the other lines hold the rest |
| `Pack.GreedyTail` | formatter.go:236-258 | dropping the first line of a greedy grouping leaves a greedy grouping of the items after it |
| `Pack.FirstLinesAgree` | formatter.go:239-252 | no greedy grouping has a shorter first line than another greedy grouping of the same items |
| `Pack.GreedyUnique` | formatter.go:239-252 | two greedy groupings of the same items are equal |
| `Pack.GroupsCharacterised` | formatter.go:229-261 | a grouping is greedy if and only if it is the one the packer produces |
| `Pack.PackTextShape` | formatter.go:229-261 | for a non-empty list the packed text has between one line and one line per item; every line is the indent, the line's items joined by ", " and a comma, followed by its own newline; the lines hold the items in order, none dropped or split; and they are the greedy grouping |
| `Pack.FlattenLength` | formatter.go:229-261 | a grouping of non-empty lines has no more lines than items |
| `Pack.PackItems` | formatter.go:229-261 | the packing loop, with its additive width accounting, returns `PackText` |
| `Pack.LineWidthUniform` | formatter.go:244-247 | a line of n items of equal width w is credited the indent plus n·w plus 2 per separator |
| `Pack.TwoLines` | formatter.go:239-252 | items of equal width are packed as two lines split at n when the first line fits, the item after it does not, and the second line fits |
| `Pack.PackTwentyThreeNumbers` | formatter_test.go:33-46 | at indent "\t\t" and width 120, 22 of the items "100".."122" share the first line and "122" goes alone on the second |
| `Pack.PackSixNumbers` | formatter_test.go:199-231 | at indent "\t\t" and width 30, "100".."105" split 4 + 2 |
| `Pack.PackSixParameters` | formatter_test.go:233-242 | at indent "\t" and width 30, "p1 int".."p6 int" split 3 + 3 |
| `Node.ItemTextWords` | formatter.go:202-203 | an item's text is its trimmed slice, or, when that slice spans several lines, the slice's words joined by single spaces |
| `Node.ExtractedItemsSpec` | formatter.go:194-207 | no extracted text holds a newline, there are at most as many texts as items, and there are none exactly when every item lies outside the buffer |
| `Node.ExtractedItemsAll` | formatter.go:194-207 | when every item lies in the buffer, each yields its trimmed, normalised text, in order |
| `Node.ExtractItems` | formatter.go:194-207 | the extraction loop, which skips items outside the buffer, returns `ExtractedItems` |
| `Node.HasMultiLineItem` | formatter.go:174-180 | the scan reports true exactly when some item text holds a newline |
| `Node.NoMultiLineItem` | formatter.go:174-182 | the multi-line test of `processNode` is always false on extracted texts |
| `Node.ProcessNode` | formatter.go:151-192 | `processNode` returns `Rewrite`, the buffer with the construct's replacement spliced in, or the buffer itself |
| `Node.RewriteFrame` | formatter.go:155-165 | the buffer is returned unchanged when a delimiter lies outside it or no item lies in it; otherwise the text before the opening and after the closing delimiter is kept, and the replacement in between starts with the opening delimiter and ends with the closing one |
| `Node.Collapses` | formatter.go:167-184 | when the single line after the text before it on its line fits in `maxLen`, the list becomes the opening delimiter, the items joined by ", " and the closing delimiter, with no newline between the delimiters |
| `Node.Expands` | formatter.go:186-191 | when it does not fit, the list becomes the opening delimiter, a newline, the greedy grouping of the items as lines at the line's indent plus a tab, the indent and the closing delimiter |
| `Node.ExtractedItemsLocal` | formatter.go:194-207 | the extracted texts depend only on the buffer below the bound that all items end at |
| `Node.ReplacementLocal` | formatter.go:151-192 | the replacement for a construct whose items lie between its delimiters depends only on the buffer up to its closing delimiter |
| `Node.RewriteSplicesEdit` | formatter.go:183-191 | the rewrite puts the construct's edit in place of the text from its opening to its closing delimiter, and leaves the buffer unchanged exactly when the edit equals that text |
| `Node.AlreadyOneLine` | formatter.go:182-184 | a list already written as its single line, when that line fits in `maxLen`, leaves the buffer unchanged |
| `Node.PlainItem` | formatter.go:202-203 | an item whose slice has no white space at either end and no newline is its own text |
| `Node.NoWrapExample` | formatter_test.go:58-72 | `println(100, 101, 102)` at width 120 comes back unchanged |
| `Columns.NoWrapLineWidth` | formatter_test.go:58-72 | "\tprintln(100, 101, 102)" is 26 columns at tab width 4 |
| `Node.SingleCharItem` | formatter.go:202-203 | a one-character item that is not white space is its own text |
| `Node.CollapseExampleItems` | formatter_test.go:157-179 | the collapse test's three items extract as "1", "2", "3" |
| `Node.CollapseExample` | formatter_test.go:157-179 | `println(\n\t\t1, 2, 3,\n\t)` at width 120 is rewritten to `println(1, 2, 3)` |
| `Wrap.UnchangedIsIdentity` | formatter.go:92-94 | when no call changed the buffer, the loop's result is its input |
| `Wrap.WrapIfLong` | formatter.go:64-96 | the loop returns the buffer after every `processNode` call in turn and the flag "some call changed the buffer"; an unchanged run returns the input itself |
| `Wrap.SeparateDisjoint` | formatter.go:78-80 | constructs that do not interfere are pairwise disjoint and in the descending order the sort produces |
| `Wrap.AssembledShift` | formatter.go:84-90 | starting the assembly earlier only adds the original text in between |
| `Wrap.RewriteOfAgreeing` | formatter.go:151-192 | on a buffer that agrees with the original up to a construct's closing delimiter, the rewrite splices in the construct's edit computed on the original |
| `Wrap.AppliedIsAssembled` | formatter.go:82-90 | for constructs that do not interfere, the loop's buffer equals the original with every construct's edit, computed on the original, spliced in |
| `Wrap.PrefixKept` | formatter.go:84-90 | the constructs above an offset leave the buffer below it untouched |
| `Wrap.RewriteChangesIffEditDiffers` | formatter.go:86-89 | a call changes a buffer that agrees with the original up to the construct's end exactly when the construct's edit differs from the original text |
| `Wrap.LastCallChanges` | formatter.go:85-89 | the last call changes the buffer exactly when the last construct's edit differs from the text it replaces |
| `Wrap.ChangedIffSomeEditDiffers` | formatter.go:83-90 | for constructs that do not interfere, `changed` is set exactly when some construct's edit differs from the text it replaces |
| `Discover.SelectedShape` | formatter.go:98-149 | a node contributes at most two lists, and only a signature can contribute two; no contributed list is empty |
| `Discover.CallSelectedIff` | formatter.go:101-118 | a call or composite literal is collected exactly when it has an element, with its own delimiters and element offsets |
| `Discover.SingleResultNotCollected` | formatter.go:141 | a result list of one field or without parentheses is never collected |
| `Discover.ResultsCollected` | formatter.go:141-148 | a parenthesized result list of two or more fields is collected, after the parameter list |
| `Discover.CollectAppend` | formatter.go:98-130 | collecting two stretches of the walk gives the two collections one after the other |
| `Discover.CollectKeeps` | formatter.go:98-130 | every list a visited node contributes is collected |
| `Discover.CollectOrigin` | formatter.go:98-130 | every collected list comes from some visited node |
| `Discover.CollectMembers` | formatter.go:98-130 | the collected lists are exactly the lists the visited nodes contribute |
| `Discover.CollectShape` | formatter.go:98-130 | no collected list is empty, and a walk over n nodes collects at most 2n lists |

## Left out

- `main.go`: flag parsing, reading and writing files and standard streams, and error reporting are I/O.
- `Format` and `FormatWithTabWidth` (formatter.go:15-35): the calls to gofmt's `format.Source` and their error and fallback branches wrap an external formatter.
- `parser.ParseFile`, the `ast.Inspect` walk and `token.FileSet.Position` (formatter.go:65-72, 99-129, 152-153, 197-198) are library calls. The walk is given as the sequence of `Construct`s it visits, and positions are given as byte offsets. `Discover.Collect` is not connected to `Wrap.WrapIfLong` through the parser.
- A parse error (formatter.go:67-69) is not modelled, since parsing is not.
- `sort.Slice` (formatter.go:78-80) is not modelled. `Wrap.WrapIfLong` takes constructs already in descending order (`Descending`) as a precondition.
- Wrap.AppliedIsAssembled: nested constructs are not covered. After an inner construct is rewritten, the offsets of an enclosing one are stale, and the code does not guarantee the result. `Wrap.Applied` reproduces the behaviour as written for any constructs, but properties of the whole loop are proved only for constructs that do not interfere (`Separate`).
- Node.ItemText: non-ASCII text is not modelled. `TrimSpace` removes only the ASCII white space characters (space, tab, newline, carriage return, vertical tab, form feed), not Unicode spaces. Widths count one column per character, which matches the Go code only on ASCII.
- Whitespace.NormalizeSpec: the words form is stated only for text that starts and ends with a non-layout character, which is all that `extractItems` passes after `strings.TrimSpace`. On other text with a newline, a leading or trailing run also becomes one space, and that is not stated.
- Columns.VisualLen: a tab width of zero or less is not modelled; every width-dependent member requires `tabWidth > 0`. The command line accepts any value (main.go:12), and with 0 `visualLen` divides by zero on the first tab (formatter.go:56) and the program panics; with a negative width Go's truncating division gives negative columns.
- Node.Ordered: an item whose end offset lies before its start would make Go's slice panic. The parser never reports one, and the model requires `start <= end` of every item.
- The `replacement` struct (formatter.go:37-41) is declared but never used.
- `defaultTabWidth` (formatter.go:12): the tab width is a parameter of every operation, and the examples use 4.
