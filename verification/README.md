# Algorithms of the Cython tool chain, verified

This project models the parts of Cython that work as algorithms and proves what they are for. Code that
changes things step by step is modelled by methods and classes with the same branches, proved equal to a
specification function or to a statement about the old state; what matters is then proved about those
functions for all inputs.

| file | what it models |
|---|---|
| `LzssSearch`, `LzssLayout`, `Lzss`, `LzssChoices` | the LZSS compressor (match search, three encodings, flag bytes), what it has to choose, and the C decompressor that reads its output |
| `TransitiveMerge` | the memoised search over cyclic import graphs in the dependency engine |
| `StripTokens`, `StripLiterals`, `StripLexer`, `StripRestore`, `ParseLists` | the stripper of string literals and comments, a lexer to compare it with, putting literals back, and `parse_list` |
| `Forests`, `WriterRuns`, `StringIOTrees`, `CodeWriters` | output buffers with insertion points, and the C code writer with its line markers |
| `UtilityCodes`, `UtilityEmissions` | emission of utility code with its requirements and with what its macros request |
| `TempNames` | the allocator of temporary C variables |
| `BufferChecks`, `BufferLookups` | the generator of index checks and lookup macros for buffers, with an interpreter for what it writes |
| `LargeNumbers`, `NumConstants`, `ConstantOrder` | the generated table of number constants |
| `IntegerLiterals`, `ExpressionSyntax`, `ExpressionRoundTrip`, `ExpressionText` | the expression writer, its lexer and Cython's own operator parser |
| `TransitionMaps`, `Automata`, `SubsetConstruction` | the conversion of the scanner's nondeterministic machines to deterministic ones, and scanning with them |
| `LineTable` | the location table of code objects |
| `HeldErrors` | nested holding and releasing of errors |
| `TopHeaps` | the bounded heap of the test runner and its merging |
| `CharacterRanges` | ranges and escapes of the generated character sets |
| `Bits`, `Decimals` | bitwise operations and decimal notation, used by the others |

## What the code does differently from what it says or promises

- **Ties in the match search.** A comment (Cython/LZSS.py:70) says that closer offsets win ties. The strict
  comparison keeps the first candidate, which is the farthest one, so the closest one is returned if and only if no
  other match is as long (`LzssSearch.TieKeepsFarthest`, and `CloserTieIsPassedOver` for an example).
- **Empty input.** The compressed form of no bytes is empty, and the C decompressor reads a flag byte before it
  looks at the size; the round trip holds exactly for non-empty input (`Lzss.RoundTrip`).
- **Chained comparisons, same-level operands and signs.** The expression writer drops what is chained to a comparison
  and writes no parentheses around an operand of the same level on the side to which the operator does not associate.
  It never writes any around an integer literal, so `(-1) ** 2` comes out as `-1 ** 2`, and the parser takes the minus
  sign of `-1` into the literal (`ExpressionRoundTrip.SignsAreLost`). `RoundTrip` says exactly which trees survive, and
  `ParsePrinted` what the others turn into.
- **Literals after an empty f-string.** In `f'''''''{x}'` the stripper takes the seventh quote for the start of an
  f-string (`StripLexer.LongPrefixedRun`). It agrees with the lexer if and only if the lexer nowhere meets, in code, an
  `f` before more than six quotes of a kind that open a literal with an odd run of opening braces
  (`StripLexer.StripsWhatIsLexed`).
- **Equality of utility code.** The documentation of `UtilityCode` says that objects are equal by instance. They are
  equal when their code sections are, whatever they require, so of two equal objects only the first one's
  requirements are written (`UtilityCodes.EqualCodesLoseRequirements`, and for any library
  `UtilityCodes.Library.LaterTwinLoses`). Without cyclic requirements all requests get their exact closure if and only
  if equal objects need the same code, directly or not (`ExactWhenEqualClosures`). With cycles that is not enough
  (`UtilityCodes.CyclesLoseRequirements`); there they do if and only if in addition each object gets its own closure
  when it is requested alone (`ExactWhenSinglesAre`; this reduces all lists of requests to single ones and does not say
  which single ones succeed), for which it is enough that equal objects among those needed
  require equal objects (`WalkIsClosure`).
- **Empty quoted items.** Two quotes are no literal to the stripper, so `parse_list('""')` looks up a label that is
  not there and ends with a key error (`ParseLists.EmptyItemFails`; quoted items that are not empty are `ParsesFields`).
- **Positions over several lines.** The location table counts each line delta from the previous entry's end line. A
  reader that counts from its start line, as the table format that the file cites does, gets the positions back if and
  only if all entries but the last lie within one line, and is otherwise off by the lines spanned
  (`LineTable.FormatReader`, `FormatReaderDrift`). The only caller (Cython/Compiler/ExprNodes.py:11657, with positions
  from Cython/Compiler/ParseTreeTransforms.py:3433-3465) makes positions that begin and end in the same line, so only
  direct calls of the function can run into this.
- **Positions without columns.** A column of -1 can only be stored in the long form; in the two short forms it ends in
  a negative character code (`LineTable.Encodable` has the exact condition).
- **Heaps of different lengths.** Nothing keeps a test shard's heap from being shorter than the one it is merged into;
  merging is then wrong (`TopHeaps.MergeExactly`). All heaps of a `Stats` object have the same length.
- **Indentation of closing braces.** Lines like `} else {` are to stand where they are least deep. A line does so if and
  only if it closes no older block, is no deeper at its end than there, or is of just this kind
  (`CodeWriters.DedentIsLowest`); `}} else {`, for one, is not.
- **Width of number constants.** An array that was left for a wider one is never used again, so every constant is in the
  narrowest array that it fits if and only if the constants come in the order of their widths
  (`NumConstants.NarrowestExactly`). The sorting by the lengths of texts sees to that for integers of one type
  (`ConstantOrder.SortedNarrowest`), but those with a suffix are sorted behind all others
  (`ConstantOrder.TypesDoNotAscend`).
- **Empty character sets.** For no characters the generated parentheses hold no literal, so they are an empty tuple and
  not an empty string (`CharacterRanges.SplitStringsRead`).

## Model

| member | source | states |
|---|---|---|
| LzssSearch.FindLongestMatch | Cython/LZSS.py:37-97 | the search with its two scans computes the specified result, including lazy matching |
| LzssSearch.FindIsLongest | Cython/LZSS.py:37-97 | a non-zero result is the length of a longest match among the stored positions in the window and its offset leads to one of that length; nothing is returned only if the window has no candidate or the next position has a better match |
| LzssSearch.BestIsLongest | Cython/LZSS.py:60-73 | no candidate inside the window matches longer than the result |
| LzssSearch.BestIsAttained | Cython/LZSS.py:60-73 | the result is the match of the first in-window candidate of that length |
| LzssSearch.TieKeepsFarthest | Cython/LZSS.py:60-73 | among the longest matches the result is the farthest one, and the closest one if and only if there is no other |
| LzssSearch.CloserTieIsPassedOver | Cython/LZSS.py:60-73 | data on which a closer match of the same length is passed over |
| LzssSearch.BestCopies | Cython/LZSS.py:60-73 | a result is a true copy of at least 3 bytes that does not exceed the maximal length |
| LzssSearch.ExtendIsMaximal | Cython/LZSS.py:64-68 | a match is extended until its limit or the first difference |
| Lzss.Compress | Cython/LZSS.py:16-170 | the loop that appends items and patches flag bytes produces the encoding of the parse of the whole input, of which `LzssChoices.ChosenExactly` says what every item is |
| Lzss.AppendItem | Cython/LZSS.py:118-148 | the chosen form, its bytes, the flag and the number of input bytes it stands for |
| LzssChoices.ChosenExactly | Cython/LZSS.py:37-148 | every item of every input, said of the bytes and the starts of the earlier items alone: if none of these starts is in the window and agrees in three bytes, a literal; otherwise the farthest of the longest matches in the first of the three forms that it fits, or a literal if it fits none or, in exactly the stated case, the next position has a match longer by more than one byte |
| LzssChoices.RightIsUnique | Cython/LZSS.py:37-148 | these conditions leave no choice: they determine the item |
| LzssChoices.SkipsIs | Cython/LZSS.py:75-95 | the second scan skips a position exactly if the next one has a better match |
| LzssChoices.ExtendIsMatch | Cython/LZSS.py:64-68 | the extension ends at the limit or the first difference, and all before it agrees |
| Lzss.ItemsAreCopies | Cython/LZSS.py:107-148 | every emitted match copies already decoded bytes that do not overlap what it produces, and all stored fields fit their bits |
| Lzss.ItemsCover | Cython/LZSS.py:107-148 | the items cover the input exactly |
| Lzss.CompressedSize | Cython/LZSS.py:99-164 | n bytes compress to at most n + ceil(n / 8) bytes |
| LzssLayout.RegisterStep | Cython/LZSS.py:150-155 | entering a flag extends the register by one item, and the sentinel drops out exactly with the eighth |
| LzssLayout.PadFlags | Cython/LZSS.py:157-164 | padding the last flag byte leaves the flags of its items in the low bits |
| Lzss.ReadItem | Cython/Utility/StringTools.c:173-190 | the decoder tells the three match forms apart and reads back the stored offset and length of each |
| Lzss.DecodeItem | Cython/Utility/StringTools.c:168-198 | one decoder step undoes one encoder step |
| Lzss.DecodeRest | Cython/Utility/StringTools.c:161-200 | from any point of the stream the decoder completes the data and stops at its end |
| Lzss.RoundTrip | Cython/Utility/StringTools.c:161-200 | decompressing to the known size returns exactly the data and consumes exactly the compressed bytes, if and only if the data is not empty; no read or write is out of bounds |
| TransitiveMerge.DependencyTree.TransitiveMergeHelper | Cython/Build/Dependencies.py:670-693 | one visit, on any finite graph: the result is sound, covers all paths that avoid the stack from the reported node upwards, every cached entry is exact, and the recursion ends |
| TransitiveMerge.DependencyTree.VisitChildren | Cython/Build/Dependencies.py:679-686 | the loop over the outgoing nodes covers each of them up to the oldest reported loop |
| TransitiveMerge.DependencyTree.MergeChild | Cython/Build/Dependencies.py:681-686 | keeping the older of two loops keeps what is covered |
| TransitiveMerge.DependencyTree.CoverParent | Cython/Build/Dependencies.py:687-691 | when the loop ends at the node itself its own result is complete, so only complete results are cached |
| TransitiveMerge.DependencyTree.TransitiveMerge | Cython/Build/Dependencies.py:662-668 | a query returns exactly the union of what is extracted from all reachable nodes, and leaves an exact cache |
| TransitiveMerge.AnswerQueries | Cython/Build/Dependencies.py:662-668 | any sequence of queries is answered exactly with one cache |
| TransitiveMerge.AllDependencies | Cython/Build/Dependencies.py:615-623 | the dependencies of a file are the files reachable over cimports and the files these include |
| StripLiterals.Stripper.ParseString | Cython/Build/Dependencies.py:300-339 | the loop appends exactly the pieces of the string parser and returns its position |
| StripLiterals.Stripper.ParseCode | Cython/Build/Dependencies.py:341-386 | the loop appends exactly the pieces of the code parser and returns its position |
| StripLiterals.StripStringLiterals | Cython/Build/Dependencies.py:282-389 | the stripped code has a label with the next number for every stored literal, in order |
| StripLiterals.StringLossless | Cython/Build/Dependencies.py:300-339 | the pieces of a string literal reproduce the source up to where the parser stops |
| StripLiterals.CodeLossless | Cython/Build/Dependencies.py:341-386 | so do the pieces of code, through nested f-strings, quote runs, comments and unterminated strings |
| StripLiterals.Lossless | Cython/Build/Dependencies.py:282-389 | substituting every literal for its label gives the source back, for every source |
| StripLexer.StripsWhatIsLexed | Cython/Build/Dependencies.py:282-389 | for every source, what is stored away is exactly what an independent character-by-character lexer finds inside literals and comments, if and only if the lexer meets no prefix in code that the stripper misreads before a literal with an odd run of opening braces |
| StripLexer.StripsLoosely | Cython/Build/Dependencies.py:282-389 | for every source, what is stored away is what that lexer finds if it reads an `f` before more than six quotes as the stripper does |
| StripLexer.SameUnlessMisled | Cython/Build/Dependencies.py:355-364 | from any position and nesting, reading prefixes like that changes what is found if and only if such a literal with an odd run of opening braces is met |
| StripLexer.WithField | Cython/Build/Dependencies.py:319-328 | read as an f-string or not, a literal with an odd run of opening braces has different content: the last brace of the run |
| StripLexer.WithoutField | Cython/Build/Dependencies.py:319-328 | without such a run it makes no difference whether a literal is read as an f-string |
| StripLexer.StringAgrees | Cython/Build/Dependencies.py:300-339 | from any position inside a literal the string parser stores what the lexer classifies as content and stops in the context that the lexer returns to, prefixes being read as the stripper does |
| StripLexer.CodeAgrees | Cython/Build/Dependencies.py:341-386 | the same for code and for replacement fields, in every source |
| StripLexer.EscapeRun | Cython/Build/Dependencies.py:314-317 | the parity of a run of backslashes decides whether the quote behind it is hidden |
| StripLexer.BraceRun | Cython/Build/Dependencies.py:319-328 | an odd run of opening braces starts a replacement field with its last brace, every other run is content |
| StripLexer.QuotesOpen | Cython/Build/Dependencies.py:354-364 | counting quotes modulo six opens the literal that reading them in order opens, whose prefix is the `f` in front only for a run of up to six |
| StripLexer.LongPrefixedRun | Cython/Build/Dependencies.py:355-364 | a source on which the stripper and the lexer differ |
| StripRestore.ReplacementRestores | Cython/Build/Inline.py:245-246 | if the label prefix does not occur in the source, replacing the labels one by one restores the source |
| StripRestore.LoopRestores | Cython/Build/Inline.py:245-246 | the loop of textual replacements puts each literal in its place although earlier ones are already text |
| StripRestore.CodeFormed | Cython/Build/Dependencies.py:341-386 | labels are followed by text that cannot extend them |
| ParseLists.ParseInvertsPrint | Cython/Build/Dependencies.py:108-135 | parsing a printed list of quoted items gives the items back, with commas, spaces, comment signs, single quotes, hidden quotes and a trailing f inside them |
| ParseLists.ParsesFields | Cython/Build/Dependencies.py:108-135 | in both forms, words and quoted items with either quote in any mixture, with white space around them and whatever backslashes hide inside them, are parsed to exactly the items as they are written; fields without an item are dropped |
| ParseLists.ParsesWords | Cython/Build/Dependencies.py:108-135 | words with any number of spaces between them are parsed to exactly the words |
| ParseLists.EmptyItemFails | Cython/Build/Dependencies.py:129-135 | two quotes without anything between them end in a key error |
| StringIOTrees.StringIOTree.Write | Cython/StringIOTree.py:46-51 | appends to the buffer's own stream |
| StringIOTrees.StringIOTree.Empty | Cython/StringIOTree.py:53-56 | true exactly when the value is empty |
| StringIOTrees.StringIOTree.GetValue | Cython/StringIOTree.py:58-61 | the values of the children in order, then the own text |
| StringIOTrees.StringIOTree.CollectIn | Cython/StringIOTree.py:63-69 | appends the value in non-empty parts |
| StringIOTrees.StringIOTree.CopyTo | Cython/StringIOTree.py:71-79 | appends to the target exactly what `GetValue` returns |
| StringIOTrees.StringIOTree.AllMarkersOf | Cython/StringIOTree.py:122-125 | the markers of the children in order, then the own ones |
| StringIOTrees.StringIOTree.Commit | Cython/StringIOTree.py:81-89 | text and markers move together to a new child in front; an empty buffer is left alone |
| StringIOTrees.StringIOTree.Insert | Cython/StringIOTree.py:97-103 | commits and appends the given tree |
| StringIOTrees.StringIOTree.InsertionPoint | Cython/StringIOTree.py:105-120 | commits and leaves a new empty buffer behind |
| StringIOTrees.WriteWithin | Cython/StringIOTree.py:46-51 | a write to a buffer anywhere in a tree changes the value of the tree only by inserting the text right after what the buffer has |
| StringIOTrees.CommitWithin | Cython/StringIOTree.py:81-89 | a commit anywhere in a tree is that of the run model and changes the value of no buffer |
| StringIOTrees.InsertWithin | Cython/StringIOTree.py:97-103 | inserting a separate tree anywhere in a tree is the insertion of the run model: its value goes right after the current content |
| StringIOTrees.InsertionPointWithin | Cython/StringIOTree.py:105-120 | an insertion point anywhere in a tree changes the value of no buffer, and the new buffer stands where the next write would have gone |
| Forests.WriteInserts | Cython/StringIOTree.py:46-51 | the value after a write is what was there up to the buffer, the text, and what comes after |
| Forests.MoveKeepsOutput | Cython/StringIOTree.py:81-89 | moving text to a child in front does not change the output |
| Forests.MoveKeepsValues | Cython/StringIOTree.py:81-89 | nor the value of any other buffer |
| Forests.InsertValue | Cython/StringIOTree.py:97-103 | an inserted tree appears at the cursor |
| Forests.CommitKeeps | Cython/StringIOTree.py:81-89 | a commit changes no value and no cursor |
| Forests.PointKeepsValues | Cython/StringIOTree.py:105-120 | an insertion point changes no value |
| Forests.PointCursor | Cython/StringIOTree.py:105-120 | the new buffer of an insertion point has the old cursor |
| Forests.OutputAround | Cython/StringIOTree.py:58-69 | the value of every buffer is a stretch of the output that ends where the next write to it goes |
| WriterRuns.StepAligned | Cython/Compiler/Code.py:2706-2744 | every operation keeps the trees separate, and texts and markers equal to those of a reference in which each character carries its position |
| WriterRuns.RunAligned | Cython/Compiler/Code.py:2706-2744 | so does every run |
| WriterRuns.MarkersFollowNewlines | Cython/Compiler/Code.py:2712-2720 | after any run, the markers of every tree are, one per newline and in order, the positions at which the newlines were written; `CodeWriters` ties writes, insertion points and insertions of the objects to the steps of the run |
| WriterRuns.WriteInsertsTagged | Cython/Compiler/Code.py:2706-2720 | a write inserts its text with its position right after what the buffer has |
| WriterRuns.CommitKeepsTagged | Cython/StringIOTree.py:81-120 | commits and insertion points leave the tagged text alone |
| CodeWriters.CCodeWriter.WriteLines | Cython/Compiler/Code.py:2713-2720 | one marker with the marked position per newline |
| CodeWriters.CCodeWriter.Write | Cython/Compiler/Code.py:2706-2710 | the test for a newline makes no difference to text and markers |
| CodeWriters.CCodeWriter.MarkPos | Cython/Compiler/Code.py:2930-2935 | a place becomes pending unless its line is the marked one |
| CodeWriters.CCodeWriter.EmitMarker | Cython/Compiler/Code.py:2938-2953 | the pending place becomes the marked one; the blank line, the comment and the trace line belong to it; a trace line has the offset of the place and the error label of the moment, which is in use from then on |
| CodeWriters.FunctionContext.ErrorGoto | Cython/Compiler/Code.py:3507-3518 | the jump to the error label of the moment, which is marked as used |
| CodeWriters.CCodeWriter.Put | Cython/Compiler/Code.py:3009-3027 | the level changes by exactly the surplus of opening braces; the line is indented at the level its closing braces ask for, about which see `DedentIsLowest` |
| CodeWriters.DedentIsLowest | Cython/Compiler/Code.py:3009-3027 | a line of any text stands at its least nesting if and only if it closes no older block, ends as deep as it is there, or starts with the one brace that it closes and reopens |
| CodeWriters.CCodeWriter.Putln | Cython/Compiler/Code.py:2916-2928 | everything a line writes belongs to one position, the pending one if the line starts here and otherwise the one before; a line directive names that position |
| CodeWriters.CCodeWriter.InsertionPoint | Cython/Compiler/Code.py:2725-2727 | the new writer has the position and the formatting of the old one and an empty buffer that stands right before what the old one writes next |
| CodeWriters.CCodeWriter.NewWriter | Cython/Compiler/Code.py:2729-2734 | the new writer has the position of the old one, no formatting and a tree of its own |
| CodeWriters.WriteWithin | Cython/Compiler/Code.py:2706-2723 | in any tree that contains the buffer, a write is the write of the run model, so text and markers stay those of the tagged reference |
| CodeWriters.PutlnWithin | Cython/Compiler/Code.py:2916-2928 | so is a whole line, with marker, trace line and directive, at the position that is marked afterwards |
| CodeWriters.Untouched | Cython/StringIOTree.py:40-49 | a new buffer is a tree of which the tagged reference is empty, so every run has a start |
| CodeWriters.Begin | Cython/Compiler/Code.py:2662-2686 | a first writer has such a tree |
| CodeWriters.BeginWithin | Cython/Compiler/Code.py:2729-2734 | so has a writer that is to be inserted |
| CodeWriters.InsertionPointWithin | Cython/Compiler/Code.py:2725-2727 | so is an insertion point: no value and no marker changes, and the new writer writes at the cursor |
| CodeWriters.InsertWithin | Cython/Compiler/Code.py:2736-2744 | so is inserting another writer: its text and its markers go to the cursor |
| CodeWriters.Outcome | Cython/StringIOTree.py:58-125 | the value and the markers that the buffers of a tree return are those of the tagged reference: one marker per newline, with the position that was marked when it was written |
| UtilityEmissions.GlobalState.UseUtilityCode | Cython/Compiler/Code.py:2584-2595 | nothing for a code that equals a used one; otherwise it is marked and put after everything it requires; ends even if requirements are cyclic |
| UtilityEmissions.GlobalState.PutCode | Cython/Compiler/Code.py:901-930 | requirements are used first unless the shared module supplies them, then the code is put; its effect on what is used and on the log is that of the walk, about which see `WritesWhatBelongs` and `WrittenInTime` |
| UtilityEmissions.GlobalState.PutSections | Cython/Compiler/Code.py:864-930 | the sections of a code and the entries beside them, each after what its macros request; every block of the output holds exactly what has been written to it, about which see `PartsAreRight` |
| UtilityEmissions.GlobalState.PutCodeSection | Cython/Compiler/Code.py:864-882 | a section, if the code has it, after the codes that its macros request |
| UtilityEmissions.WrittenOnce | Cython/Compiler/Code.py:864-930 | after any requests, the log has the list of tasks of every code that is written once and in order, and nothing of any other code |
| UtilityEmissions.WritesWhatBelongs | Cython/Compiler/Code.py:864-930 | after any requests, the log has of every code that is written exactly one entry for each part that is not empty and is due, in its block, and none for any other part: the code and its exported prototypes only if the shared module does not supply it, cleanup only on demand; function pointers exactly for what the shared module supplies, and a check for errors exactly behind initialisation; all in the order of the parts |
| UtilityEmissions.PartsAreRight | Cython/Compiler/Code.py:864-930 | the same of the blocks: each holds exactly the entries that belong there, each once and in order |
| UtilityEmissions.Generate | Cython/Compiler/Code.py:2584-2595 | a state that has taken any requests has such blocks |
| UtilityEmissions.NeedsAreAsked | Cython/Compiler/Code.py:864-908 | the needs that are followed are what a code requires unless the shared module supplies it, and what the macros of a due part request |
| UtilityEmissions.WrittenInTime | Cython/Compiler/Code.py:864-930 | everything that belongs to what a code requires had been written before anything of the code was, and what the macros of a part request, before that part; unless it is on a cycle with the code |
| UtilityEmissions.ReadyInTime | Cython/Compiler/Code.py:901-930 | whatever a section needs, by requirement or by macro, had been written in full before the section was, unless it is on a cycle with it |
| UtilityEmissions.ReadyWithoutCycles | Cython/Compiler/Code.py:901-930 | without cycles there is no exception |
| UtilityCodes.Library.UseAllAppend | Cython/Compiler/Code.py:2584-2595 | a sequence of calls is the walk over the list of its requests |
| UtilityCodes.Library.WalkIsSound | Cython/Compiler/Code.py:901-930 | no two equal codes are written, everything written is needed by some request, and a code is finished before one of its needs only if it is on a cycle with it |
| UtilityCodes.Library.WalkIsClosure | Cython/Compiler/Code.py:901-930 | the codes written are, up to equality, exactly the closure of the requests, cycles or none, if equal codes among those needed require equal codes |
| UtilityCodes.Library.ExactWhenEqualClosures | Cython/Compiler/Code.py:901-930 | without cycles, every list of requests gets exactly its closure if and only if equal codes need the same codes, directly or not |
| UtilityCodes.Library.ExactWhenSinglesAre | Cython/Compiler/Code.py:2584-2595 | in any library, cycles or none, every list of requests gets exactly its closure if and only if equal codes need the same codes and each code requested alone gets its closure |
| UtilityCodes.Library.UsedBefore | Cython/Compiler/Code.py:2584-2595 | the walk from a code does the same outside a closed set of used codes as it does from nothing |
| UtilityCodes.Library.LaterTwinLoses | Cython/Compiler/Code.py:804-814 | in any library, of two equal codes the one with more needs loses some of them when it is requested second |
| UtilityCodes.Library.RequirementsComeFirst | Cython/Compiler/Code.py:906-908 | without cycles every code is finished after all it needs |
| UtilityCodes.EqualCodesLoseRequirements | Cython/Compiler/Code.py:804-814 | a library in which a requirement is never written, because the code that has it equals one that does not |
| UtilityCodes.CyclesLoseRequirements | Cython/Compiler/Code.py:901-908 | a library with cycles in which equal codes need the same codes and still one of these is never written |
| TempNames.FunctionState.AllocateTemp | Cython/Compiler/Code.py:1273-1329 | the method is the specified allocation: type adjustment, the free list of the kind, or a new name; `AllRunsReuse` says which name it has to be |
| TempNames.StoredIsAssignable | Cython/Compiler/Code.py:1289-1297 | the adjusted type can be assigned to and holds the same values, through a pointer for functions; it is the same type if and only if that could be assigned to |
| TempNames.FunctionState.NewName | Cython/Compiler/Code.py:1313-1316 | the loop ends, with the first name behind the counter that is not taken |
| TempNames.FunctionState.ReleaseTemp | Cython/Compiler/Code.py:1331-1348 | the method is the specified release; refused releases change nothing |
| TempNames.FunctionState.TempsInUse | Cython/Compiler/Code.py:1350-1359 | the temporaries that are not in the released set of their kind, in order |
| TempNames.FunctionState.ValidateExit | Cython/Compiler/Code.py:1192-1202 | passes if and only if no temporary is in use |
| TempNames.Temps.AllocateGivesFree | Cython/Compiler/Code.py:1273-1329 | a name handed out is not in use, not taken and not one that must not be reused; it keeps the kind it had; all other names stay as they are |
| TempNames.Temps.ReleaseTakesBack | Cython/Compiler/Code.py:1331-1348 | a release succeeds exactly for names in use, and only that name leaves them |
| TempNames.RunIsProper | Cython/Compiler/Code.py:1273-1359 | over any run from a valid state, every event is as a caller may expect and the names in use are those that the events say |
| TempNames.AllRuns | Cython/Compiler/Code.py:1273-1359 | the same for every run from the start of a function |
| TempNames.AllRunsReuse | Cython/Compiler/Code.py:1273-1359 | in every run, from the events alone: a reusable request gets the name of its kind that was given back last, if any is available, and every other request gets a name not seen before; names that must not be reused never come back |
| TempNames.NoMoreNamesThanNeeded | Cython/Compiler/Code.py:1273-1359 | in every run the number of reusable names of a kind is the largest number of them in use at once |
| BufferChecks.CodeWriter.PutBufferLookupCode | Cython/Compiler/Buffer.py:423-484 | the loops write exactly the specified lines for any number of dimensions and any mix of signed and unsigned indices |
| BufferChecks.CheckRuns | Cython/Compiler/Buffer.py:445-463 | running the lines of one dimension wraps its index and records the dimension if it is out of bounds |
| BufferChecks.ChecksAreExact | Cython/Compiler/Buffer.py:440-478 | the generated code falls through, with all indices wrapped and nothing else changed, if and only if every index after one wraparound is in bounds; otherwise it raises, through the function that takes the GIL exactly in code without it, for the last dimension that is not; nothing overflows |
| BufferChecks.UncheckedWraps | Cython/Compiler/Buffer.py:480-484 | without bounds checks negative signed indices are wrapped once and nothing else happens |
| BufferLookups.GlobalState.GenerateBufferLookupCode | Cython/Compiler/Buffer.py:219-261 | every macro name in use has exactly one definition, the one of its mode and number of dimensions |
| BufferLookups.CContigIsStrided | Cython/Compiler/Buffer.py:514-536 | the C-contiguous address equals the strided one if and only if the last stride is the item size or the last index is 0 |
| BufferLookups.FortranIsStrided | Cython/Compiler/Buffer.py:539-548 | the same for the first stride and index |
| BufferLookups.FullIsStrided | Cython/Compiler/Buffer.py:493-511 | with no suboffsets the full lookup is the strided one |
| BufferLookups.RowsOfPointers | Cython/Compiler/Buffer.py:493-511 | for an array of pointers to rows the full lookup follows the pointer and adds the suboffset, even if it is zero, before it goes on in the row |
| BufferLookups.RowMajorAddress | Cython/Compiler/Buffer.py:525-536 | in a row-major buffer the address is that of the element with the index tuple's number |
| BufferLookups.UnrankRank | Cython/Compiler/Buffer.py:525-536 | index tuples inside the shape are recovered from element numbers |
| BufferLookups.RankUnrank | Cython/Compiler/Buffer.py:525-536 | element numbers are recovered from index tuples, so the numbering is one-to-one onto the buffer |
| BufferLookups.AddressesAreDistinct | Cython/Compiler/Buffer.py:525-536 | two tuples have the same address only if they are equal |
| BufferLookups.CheckedAccess | Cython/Compiler/Buffer.py:423-486 | if the generated checks let an access to a row-major buffer pass, its address is that of an element of the buffer |
| NumConstants.SplitConstants | Cython/Compiler/Code.py:2371-2397 | no constant is lost or moved within its section, each small integer fits the signed width of its bucket, and every further bucket starts with one that does not fit the width before |
| NumConstants.SmallExactly | Cython/Compiler/Code.py:2380-2397 | the small integers are exactly those that fit the widest array |
| NumConstants.PlaceConstant | Cython/Compiler/Code.py:2385-2395 | the constant goes to the last bucket that is there if it fits, and otherwise to the narrowest further one that it fits, behind empty ones; all other buckets stay as they are |
| NumConstants.NarrowestExactly | Cython/Compiler/Code.py:2371-2397 | every constant is in the narrowest array that it fits if and only if no constant is wider than a later one |
| ConstantOrder.SortedNarrowest | Cython/Compiler/Code.py:2359-2397 | in the order of sorting, every small integer of one type is in the narrowest array that it fits |
| ConstantOrder.SortedAscends | Cython/Compiler/ExprNodes.py:1708-1711 | sorting by the lengths of texts and then by texts, decimal or hexadecimal, puts small integers in the order of their widths |
| ConstantOrder.DigitsGrow | Cython/Compiler/Code.py:2360-2362 | decimal texts sorted like that are in the order of their numbers |
| ConstantOrder.TypesDoNotAscend | Cython/Compiler/Code.py:2360-2362 | two constants of different types that are sorted but not in the order of their widths |
| NumConstants.BuildAccess | Cython/Compiler/Code.py:2437-2457 | the nested conditional reads the i-th constant for every i, and the names follow the same order |
| NumConstants.NarrowFits | Cython/Compiler/Code.py:2459-2461 | with at most three array widths every constant fits a 32-bit long |
| NumConstants.ArrangedPermutes | Cython/Compiler/Code.py:2371-2397 | the table holds every constant as often as the input does |
| NumConstants.LargeRead | Cython/Compiler/Code.py:2490-2501 | the parsing loop stores each large integer at its place |
| NumConstants.GenerateNumConstants | Cython/Compiler/Code.py:2359-2501 | for every list of constants: each place of the table holds the constant arranged there, and the index of each name holds that name's own value across all three sections |
| LargeNumbers.ToBase32 | Cython/Compiler/Code.py:2470-2487 | the digit loop with its reversal gives the number in base 32 |
| LargeNumbers.ParseBase32 | Cython/Compiler/Code.py:2470-2499 | a number in base 32 is read back, sign and all, up to the character that ends it |
| LargeNumbers.TextRead | Cython/Compiler/Code.py:2489-2500 | reading one number after the other from the joined string returns all of them |
| ExpressionText.ExpressionWriter.OperatorEnter | Cython/CodeWriter.py:595-599 | an opening parenthesis exactly when the context binds tighter, and the new level on the stack |
| ExpressionText.ExpressionWriter.OperatorExit | Cython/CodeWriter.py:601-605 | the closing one in the same case, and the stack without its top |
| ExpressionText.ExpressionWriter.VisitIntNode | Cython/CodeWriter.py:519-520 | the value of a literal with its sign, and never in parentheses |
| ExpressionText.ExpressionWriter.VisitNotNode | Cython/CodeWriter.py:607-613 | appends the text of the expression in its context and restores the stack |
| ExpressionText.ExpressionWriter.VisitUnopNode | Cython/CodeWriter.py:615-621 | the same for unary operators |
| ExpressionText.ExpressionWriter.VisitBinopNode | Cython/CodeWriter.py:623-633 | the same for binary and boolean operators; the levels behind the text are those of the parser, see `ExpressionRoundTrip.Nonterminal` |
| ExpressionText.ExpressionWriter.VisitPrimaryCmpNode | Cython/CodeWriter.py:635-636 | the same for comparisons, without what is chained to them |
| ExpressionText.ExpressionWriter.Write | Cython/CodeWriter.py:493-495 | the text of the whole expression, which `WrittenText` reads with the grammar of the parser |
| ExpressionText.LexText | Cython/CodeWriter.py:607-636 | the written text is read as the tokens of the expression |
| ExpressionText.WrittenText | Cython/CodeWriter.py:519-636 | reading the written text with the grammar of the parser gives the regrouped tree, which is the tree itself exactly for faithful trees; names are not literals |
| ExpressionText.Balanced | Cython/CodeWriter.py:595-605 | parentheses are balanced |
| ExpressionRoundTrip.ParsePrinted | Cython/Compiler/Parsing.py:100-387 | for every tree, with integer literals of either sign, the parser, which has the operators of each nonterminal and not the levels of the writer, reads the printed tokens as the regrouped tree |
| ExpressionRoundTrip.Continues | Cython/Compiler/Parsing.py:100-387 | a nonterminal of the parser goes on at exactly the operators that the writer puts on its level |
| ExpressionRoundTrip.RegroupFixed | Cython/CodeWriter.py:519-636 | a tree is its own regrouping if and only if no operand of the same level stands on the non-associative side, no comparison is chained, no literal has a suffix, no negative one is in other than plain decimal form or the base of a power, and no minus sign stands on a literal |
| ExpressionRoundTrip.RoundTrip | Cython/CodeWriter.py:576-636 | printing and parsing gives back the same tree if and only if it is faithful |
| ExpressionRoundTrip.SignsAreLost | Cython/Compiler/ExprNodes.py:12760-12770 | a negative base of a power comes back as a negated power, and a negated literal as a negative one |
| ExpressionRoundTrip.NegatedValue | Cython/Compiler/ExprNodes.py:12763-12765 | taking a sign into a literal negates its number |
| IntegerLiterals.DigitsAreLiteral | Cython/Utils.py:412-438 | the decimal text of a number is read as that number |
| IntegerLiterals.PlainExactly | Cython/Utils.py:412-438 | a literal that is not zero is the text of its number if and only if it is decimal without leading zeros |
| TransitionMaps.TransitionMap.Split | Cython/Plex/Transitions.py:114-142 | bisection finds the split point or makes one; the states of no code and no symbol change |
| TransitionMaps.TransitionMap.AddSet | Cython/Plex/Transitions.py:64-80 | states are added on exactly what the event covers |
| TransitionMaps.TransitionMap.Items | Cython/Plex/Transitions.py:87-110 | the ranges and symbols with their states |
| TransitionMaps.SplitKeeps | Cython/Plex/Transitions.py:114-142 | splitting a range keeps the invariants of the map and all it says |
| TransitionMaps.ItemListed | Cython/Plex/Transitions.py:87-110 | every code and symbol with states is covered by an item, and every code if there are states beyond all split points |
| TransitionMaps.ItemGives | Cython/Plex/Transitions.py:87-110 | an item has the states of everything that it covers |
| TransitionMaps.EndsStaySame | Cython/Plex/Transitions.py:28-34 | events on both ends or on neither keep the two ends of the map the same |
| Automata.Machine.AddToEpsilonClosure | Cython/Plex/DFA.py:91-106 | the recursion over epsilon moves adds only what can be reached and leaves no move out of what it adds; it ends on cycles |
| Automata.Machine.EpsilonClosure | Cython/Plex/DFA.py:76-88 | with or without a kept result: exactly what paths of epsilon moves reach |
| Automata.Machine.SetEpsilonClosure | Cython/Plex/DFA.py:63-73 | the union of the closures |
| Automata.ReachedStep | Cython/Plex/DFA.py:21-35 | what runs of the machine reach on an input is found step by step from sets |
| Automata.BestIsUnique | Cython/Plex/DFA.py:136-145 | if equal priorities mean equal actions, a set of nodes has one best action |
| SubsetConstruction.FastMachine.AddTransitions | Cython/Plex/Machines.py:149-163 | exactly the keys of the event lead to the new state |
| SubsetConstruction.StateMap.OldToNew | Cython/Plex/DFA.py:119-134 | one state for each set of nodes, made on demand, with an action of the highest priority |
| SubsetConstruction.StateMap.HighestPriorityAction | Cython/Plex/DFA.py:136-145 | the loop finds an action of the highest priority, or none if no node has one |
| SubsetConstruction.Connected | Cython/Plex/Machines.py:149-163 | a state whose items have all been written goes on, on every input, to the state for the nodes of the map there, by its own key or by `else` |
| SubsetConstruction.ConnectedExactly | Cython/Plex/Transitions.py:28-34 | it does so on every input if and only if the codes above all split points are those of no character or lead where those below all of them do, which the documented invariant guarantees |
| SubsetConstruction.Connect | Cython/Plex/DFA.py:48-55 | the transitions of one state are written; others only gain company |
| SubsetConstruction.Gather | Cython/Plex/DFA.py:48-53 | the map of a state has, for every code and symbol, the closure of what its nodes move to |
| SubsetConstruction.NfaToDfa | Cython/Plex/DFA.py:21-60 | the loop over the growing list of states ends; every state stands for a set of nodes, has its best action and goes on as the nodes do |
| SubsetConstruction.MappedCount | Cython/Plex/DFA.py:46-55 | there are never more states than sets of nodes |
| SubsetConstruction.DeterministicAgrees | Cython/Plex/DFA.py:21-60 | after every input the new machine is in the state for exactly the nodes that the old one can be in, and is blocked only if that is none |
| SubsetConstruction.SameAction | Cython/Plex/DFA.py:21-60 | so it accepts with an action of the highest priority among these nodes, on every input |
| SubsetConstruction.FastMachine.Scan | Cython/Plex/Scanners.py:168-278 | the longest prefix after which the machine has an action, and that action |
| SubsetConstruction.Recognise | Cython/Plex/Scanners.py:168-278 | converting and scanning finds the longest prefix that the old machine accepts and its best action |
| LineTable.BuildLineTable | Cython/Compiler/LineTable.py:11-28 | succeeds exactly for positions that are in order and whose numbers the chosen forms can store, with the specified bytes |
| LineTable.EncodableInOrder | Cython/Compiler/LineTable.py:11-61 | positions with columns can be encoded if and only if none ends before it begins or begins before an earlier one ends |
| LineTable.EncodeSinglePosition | Cython/Compiler/LineTable.py:32-61 | the form and the bytes of one entry, and the end line as the next reference line |
| LineTable.EncodeVarint | Cython/Compiler/LineTable.py:108-113 | the loop appends the six-bit groups, lowest first |
| LineTable.VarintRead | Cython/Compiler/LineTable.py:108-113 | a number is read back from its groups, none of which has bit 7 set |
| LineTable.EntryRead | Cython/Compiler/LineTable.py:32-91 | each of the three forms is read back, and bit 7 is set on its first byte only |
| LineTable.VarintIsShortest | Cython/Compiler/LineTable.py:108-113 | no bytes that are read as a number are fewer than those written for it |
| LineTable.EntryIsShortest | Cython/Compiler/LineTable.py:32-61 | no bytes that are read as a position are fewer than those of the chosen form |
| LineTable.RoundTrip | Cython/Compiler/LineTable.py:11-61 | reading the table with line deltas counted from the previous end line returns exactly the positions |
| LineTable.FormatReader | Cython/Compiler/LineTable.py:11-61 | with deltas counted from the previous start line the positions come back if and only if all but the last lie within one line |
| LineTable.FormatReaderDrift | Cython/Compiler/LineTable.py:11-61 | and each line is off by exactly the lines that the earlier entries span |
| LineTable.OneMarkPerEntry | Cython/Compiler/LineTable.py:66-91 | as many bytes with bit 7 as entries, and all numbers are bytes |
| HeldErrors.Errors.ReportError | Cython/Compiler/Errors.py:167-193 | held in the innermost frame, or given to the sink once: marked, listed, echoed if the line is new, counted |
| HeldErrors.Errors.HoldErrors | Cython/Compiler/Errors.py:278-281 | a new empty frame |
| HeldErrors.Errors.ReleaseErrors | Cython/Compiler/Errors.py:284-288 | the frame is removed and, unless ignored, its errors are reported to what is around it |
| HeldErrors.Errors.Perform | Cython/Compiler/Errors.py:297-303 | a program of reports and nested `local_errors` blocks does what the run function says |
| HeldErrors.RunHeld | Cython/Compiler/Errors.py:278-303 | inside a frame, a block adds what it keeps to the frame and sends on what bypasses the frames |
| HeldErrors.RunReaches | Cython/Compiler/Errors.py:167-303 | outside all frames, a run is the same as giving the errors that reach the sink to it one by one |
| HeldErrors.SinkTakes | Cython/Compiler/Errors.py:172-191 | the sink counts each error once, lists it once if there is a listing, and echoes each line once if there is an echo, in first-report order |
| HeldErrors.WholeRun | Cython/Compiler/Errors.py:167-303 | after every well-nested run, with or without a listing file and an echo: the count is the number of distinct errors outside ignored blocks, a listing has them, and an echo is the listing without repeated or already seen lines |
| HeldErrors.ReachingIsProgramOrder | Cython/Compiler/Errors.py:284-303 | if no error inside a block bypasses its frame, what reaches the sink is what was reported with no ignoring block around it, in program order |
| HeldErrors.FirstNewExactly | Cython/Compiler/Errors.py:172-191 | keeping first occurrences keeps exactly the new elements, without repetition |
| TopHeaps.Heap.Push | runtests.py:671-674 | if the heap held the k largest of some items it holds the k largest of these and the new one, before and after the switch of the pushing function |
| TopHeaps.Heap.PushAll | runtests.py:676-678 | the same for a list of items |
| TopHeaps.Heap.PushHeap | runtests.py:676-678 | merging the heap of another shard gives the k largest of everything pushed to either, if the other heap is at least as long |
| TopHeaps.TopIsUnique | runtests.py:663-684 | the k largest items are determined as a multiset |
| TopHeaps.TopOfTop | runtests.py:713-724 | dropping items early in one shard loses none of the k largest of all |
| TopHeaps.MergeExactly | runtests.py:663-684 | taking over what a heap of another length has kept gives the k largest of everything if and only if that heap is at least as long |
| TopHeaps.LeadsToTop | runtests.py:713-724 | after any pushes and merges on any number of shards, a heap holds the k largest of all that went into it |
| TopHeaps.AnyOrder | runtests.py:713-724 | the order of pushes and merges and the spread of the items over shards make no difference |
| TopHeaps.Perform | runtests.py:663-724 | heap objects that are created, pushed to and merged in any such way hold what these results say |
| CharacterRanges.ToRanges | Tools/cython-generate-lexicon.py:90-109 | for every list, the single characters and closed ranges together list exactly the given characters, each as often as given, in order; if none is given twice, no range and no single character could be joined with a neighbour |
| CharacterRanges.EscapeChars | Tools/cython-generate-lexicon.py:112-118 | the loop concatenates the escapes |
| CharacterRanges.EscapesRead | Tools/cython-generate-lexicon.py:112-118 | escapes are read back as the characters they were made of |
| CharacterRanges.SplitStringsRead | Tools/cython-generate-lexicon.py:121-124 | in parentheses, the joined lines read as the characters, or as an empty tuple for none; no literal is too long; there is a text exactly for widths of at least ten |

## Left out

- LZSS: the statistics and their printing; the C integer types of the encoder; the memory of the decompressor beyond the sizes of source and target.
- Dependency engine: the files themselves, `timestamp` and `newest_dependency`, merging of `DistutilsInfo`, cyclic `include` files, which have no guard.
- StripLexer: the lexer knows the prefix `f` as the stripper does and no other one, and lets a one-quote literal run over the end of its line.
- Regular expression engines: the token patterns are scanning functions for the leftmost match.
- ParseLists: `str.strip` removes ASCII white space only; fields in which quotes stand beside other text, prefixes among it.
- StringIOTree: `reset`, and calls to a `write` bound before a commit.
- CCodeWriter: `put_multilines`, `put_or_include`; the texts of position comments and file names are parameters.
- UtilityCode: loading code and the texts that macros substitute, the list of shared functions, lazy and template utility codes, `used_by` comments; a section is an entry rather than its text.
- FunctionState: labels, exception variables, collecting of temporaries, debug comments, and the utility code requested for optional C++ locals. A reused temporary keeps the `static` flag of its first allocation, as in the code.
- Buffers: acquiring and releasing buffers, `get_flags`, type names; arithmetic of addresses is unbounded. Index variables are taken to be as wide as `Py_ssize_t` or `size_t`.
- Number constants: the sorting itself (the table is right for any order), the L and LL suffixes of literals, `split_string_literal`, garbage collection of the table, and the conversion of floats, whose code is kept as it is.
- Expressions: everything but names, integer literals, `not`, unary, binary and comparison operators; the prefix `!`, type casts and `sizeof`; the spelling `<>`. Names are words that are no operators. Suffixes and underscores in the text of literals are not read, as the writer writes none; texts like `09`, which stand for no number, are no literals.
- Plex: regular expressions and the machines built from them, the text buffer and the line counting of the scanner. A machine has to keep the documented invariants of its transition maps (Cython/Plex/Transitions.py:28-34). The order in which dictionaries and sets are gone through, which only decides how states are numbered, is fixed or left open.
- LineTable: the width of C integers; entries without columns, which the encoder never writes, are not read.
- Errors: encoding failures while writing, `fast_fail`, exceptions inside a block, warnings; a frame is released by its own block.
- Heap: `heapq` is represented by what it promises; `max`, iteration and the other numbers of `Stats`.
- TopHeaps.Heap.PushHeap: promises the k largest of everything only if the other heap is at least as long, which `TopHeaps.MergeExactly` shows to be necessary.
- Character sets: `sorted` is represented by what it promises; reading and replacing the generated file.
- Builtin tables, the type system, `Nodes` and `ExprNodes`, `Visitor` and `Scanning`: types, nodes and positions are opaque values.
