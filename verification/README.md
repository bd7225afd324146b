# tmux in Dafny

A model of four parts of tmux, with proofs of what they keep. Each part has a
specification on values (trees, sequences of lines, states of a parser) about
which the properties are proved, and, where the C code changes things in place,
classes and methods that are proved to compute it.

**The layout engine** (`layout.c`, `layout-custom.c`, `layout-string.c`).
`LayoutTree` has the trees of cells and the two functions everything rests on,
`Check` (layout_resize_check) and `Adjust` (layout_resize_adjust);
`LayoutEnds` says when the loop of the second ends;
`LayoutGeometry` places cells and shows that they tile; `LayoutOps` splits and
destroys; `LayoutResize` moves borders and follows the window; `LayoutTight` says
what space a closed pane leaves over; `LayoutRuns` has runs of operations and
`LayoutPanes` the order of the panes. `LayoutCell`, `LayoutShape` and `LayoutWindow`
do the same on linked cells with parents and child lists, in place; a ghost `Shape`
says which cells hang below which. `LayoutCustom` prints and parses layout strings,
`LayoutCorrupt` says what the checksum tells, `LayoutTrim` trims the parsed tree to
the panes there are, and `LayoutAssign` hands these out and fits the result to the
window.

**The grid with history** (`grid.c`, `grid-view.c`, `screen.c`,
`screen-write.c`). `GridLines` has lines, their buffers and who owns them, and
the dense view in which columns past the end of a line read as default. `Grid`
is the array of lines in place, with the arithmetic of `u_int` and a ghost set
of the buffers allocated and not freed: its invariant says that each belongs to
exactly one line and none is lost. `GridView` has the operations of the
screen, `GridHistory` runs of scrolling, `Screen` changes of size, `Padding` the
rows in which wide characters have their padding, and `ScreenWrite` the writing
of characters.

**The output cache** (`tty.c`). `TtyCursor` has a terminal that obeys cursor
control functions (section 8.3 of ECMA-48, and DECSTBM) and what tmux sends it;
`TtyRendition` what the terminal draws with and what tmux remembers of that, `TtyLooks`
what is then seen of a cell; `Tty` is the record, in place. Capabilities are a set of booleans.

**The byte-stream parser and its indexes** (`input.c`, `utf8.c`, `tty-keys.c`).
`InputTable` has the tables of the state machine, `InputParser` the machine over
values, `InputText` what text, escapes and strings come to, `InputPassthrough` the strings it hands on to the outer terminal, `Input` the
machine with its fixed-size buffers; `Utf8` characters, code points and the tree of
widths; `TtyKeys` the ternary search tree of keys, on values and on linked nodes.
`Common` has limits of C types, and `Sums` sums, minima and maxima of sequences.

Where a promise of the code or its comments does not hold, the code is kept as it
is, an input shows that it does not, and the exact condition under which it does
is proved:

- Inserting lines or columns without a region does not blank all that is inserted
  (`GridView.InsertOnlyMoving`, `GridView.InsertMayNotBlank`; `GridView.InsertedColumns`,
  `GridView.InsertedMayNotBlank`).
- Closing a pane while the layout is larger than the window does not fit the layout
  again (`LayoutRuns.CloseFitsExactly`, `LayoutRuns.CloseMayOverflow`).
- The checksum of a layout string does not always tell that its end is missing
  (`LayoutCorrupt.TruncatedExactly`, `LayoutCorrupt.TruncatedMayPass`).
- Fitting a layout string to fewer panes may never end where a size in it reaches
  INT_MAX, even if its sizes add up (`LayoutEnds.EndsExactly`,
  `LayoutTrim.HandedExactly`, `LayoutAssign.ParseMayStall`).
- A mark of no width written after a wide character goes to its padding, which is not
  drawn, and is lost (`Padding.MarkTakenExactly`, `Padding.MarkMayBeLost`).
- A line feed in a screen of one row with no history does not clear it
  (`ScreenWrite.FedBlanksExactly`, `ScreenWrite.FedMayNotBlank`).
- A bright background comes out as none that was meant on terminals with fewer than 16
  colours (`TtyLooks.BrightBgExactly`, `TtyLooks.BrightBgMayMiss`).
- The cursor may be stopped by margins that were set and are not known
  (`TtyCursor.UnknownMarginsExactly`, `TtyCursor.StoppedAbove`, `TtyCursor.StoppedBelow`).
- Setting margins leaves the terminal's cursor one row down when its place was not
  known and there is no code for home (`TtyCursor.RegionArrives`,
  `TtyCursor.RegionMayMiss`).
- The rendition cache is faithful only on terminals that can undo what they can do
  (`TtyRendition.FaithfulExactly` and the Stuck lemmas).
- Code points of four-byte characters come out 0xc00000 too large, so none of them is
  found in the table of widths (`Utf8.CombineEncode`, `Utf8.FourBytesNotFound`,
  `Utf8.IdeographNarrow`).
- Adding a key through a search may replace the key of a shorter string
  (`TtyKeys.AddFoundExactly`, `TtyKeys.KeyLost`).

## Model

| member | source | states |
|---|---|---|
| LayoutTree.CheckBelowSize | layout.c:243-281 | the space a cell can give up never exceeds its size, so no unsigned subtraction in the layout wraps; no child is larger than its cell |
| LayoutTree.AbleExists | layout.c:307-323 | the round over the children never goes round for nothing: while change is left, some child takes it, which is why the `while (change != 0)` loop ends |
| LayoutEnds.RoundEndsExactly | layout.c:307-323 | for any change at all, the loop over the children ends just when they have as much to give as it takes, and it then leaves what RoundRobin gives |
| LayoutEnds.EndsExactly | layout.c:284-324 | and the whole of layout_resize_adjust ends just when that is so of each container along the direction that is met first |
| LayoutTree.StepCorrect | layout.c:284-324 | a change of one changes the size by one, leaves the other size and the space across alone, and lowers the space by exactly one when shrinking, of any tree, whether or not its sizes add up; those that do still do |
| LayoutTree.AdjustCorrect | layout.c:284-324 | any change no smaller than minus what layout_resize_check allows keeps the cells, panes and offsets of any tree, keeps it well formed if it was, and makes no leaf it shrinks smaller than PANE_MINIMUM |
| LayoutTree.AdjustExact | layout.c:243-324 | the size changes by exactly the amount asked for, the other size not at all, and a shrink lowers the space there is by exactly its amount, whether or not the sizes add up |
| LayoutTree.RoundRobinCorrect | layout.c:303-323 | the round over the children shares out exactly the whole change, from any child on, and never takes from a child what it does not have |
| LayoutTree.RoundRobinShares | layout.c:303-323 | growth gives each child of the same direction a definite share of it, by its place after the first |
| LayoutTree.SharesEven | layout.c:303-323 | no two of those shares differ by more than one |
| LayoutTree.RoundRobinEven | layout.c:303-323 | a shrink, from any child on, takes from each child space that it had; and from no child more than from one with space left, but for one column or row where the round came to it before |
| LayoutTree.ShrinkEven | layout.c:303-323 | so what it takes from two children that still have space left differs by at most one |
| LayoutTree.AdjustOne | layout.c:284-324 | a change of one is one step of the round: the loop and its body agree |
| LayoutCell.LayoutCell.ResizeCheck | layout.c:243-281 | on linked cells: returns the space of the tree the cells form, and changes nothing |
| LayoutCell.LayoutCell.ResizeAdjust | layout.c:284-324 | on linked cells, in place: the cells then form the tree that Adjust gives, the links are as they were, and only sizes below this cell were written |
| LayoutCell.LayoutCell.FixChildOffsets | layout.c:140-164 | on linked cells, in place: the offsets become those that FixOffsets gives and nothing else is written |
| LayoutGeometry.FixPlaces | layout.c:140-164 | fixing offsets puts every child just after the one before and its separator, whatever the offsets were, and changes no size |
| LayoutGeometry.PlacedNext | layout.c:140-164 | placed children begin at their container's corner and each is next to the one before, past a separator |
| LayoutGeometry.PlacementUnique | layout.c:140-164 | there is only one way to place the cells of a tree from its corner |
| LayoutGeometry.PlacedIsFixed | layout.c:140-164 | fixing the offsets of a placed tree changes nothing |
| LayoutGeometry.Tiles | layout.c:140-164 | every point of a placed well-formed tree's rectangle is in exactly one pane or on exactly one separator, and every other point in none |
| LayoutOps.SplitSizes | layout.c:678-706 | the two parts and the separator sum to the old size; without a hint the first is equal to the second or one more; a hint is the second part, as far as PANE_MINIMUM for that and one for the first allow |
| LayoutOps.RoomExactly | layout.c:635-646 | a split is refused just when two panes of PANE_MINIMUM and a separator do not fit |
| LayoutOps.SplitPathIs | layout.c:648-676 | the new cell is in the pane's container, after it, if that runs the same way, and otherwise in a new one in its place |
| LayoutOps.SplitMakes | layout.c:678-708 | the cell at the new path and the one before it have those sizes, the old size across, the pane's corner and the place next to it; the pane stays with the first |
| LayoutOps.SplitElsewhere | layout.c:619-708 | every cell that is not above or below the pane is as it was |
| LayoutOps.SplitAbove | layout.c:619-708 | every cell above it keeps all but its children, of which the pane's container gets one more if it runs the same way |
| LayoutOps.SplitSound | layout.c:619-708 | a split keeps the tree well formed and its size, corner and placement, whether it joins a container or makes one |
| LayoutOps.DestroySound | layout.c:327-374 | destroying a cell keeps the tree well formed and its size, with the space given to a neighbour and a container of one replaced by its child |
| LayoutOps.DestroyGives | layout.c:344-373 | the size destroyed and its separator go to the cell before, or to the one after when it was the first; the rest of the container is as it was; the last one left takes its place |
| LayoutOps.DestroyElsewhere | layout.c:327-374 | and so is every cell outside that container |
| LayoutOps.CloseSound | layout.c:720-730 | closing a pane leaves a well-formed, placed tree of the same size at the corner |
| LayoutOps.DestroyUndoesSplit | layout.c:327-374 | destroying the cell that a split made gives back exactly the tree before, in both kinds of split |
| LayoutOps.CloseUndoesSplit | layout.c:619-730 | splitting a pane and closing the new one is the identity, offsets included |
| LayoutResize.TransferSound | layout.c:536-605 | moving space from one child to another keeps the children well formed and the sum of their sizes |
| LayoutResize.PullSound | layout.c:467-482 | the transfer loop moves exactly as much as is wanted or as the donors have, whichever is less, takes only from donors, and keeps the sum |
| LayoutResize.MoveBorderSound | layout.c:448-486 | moving a border keeps the container filled, grows one child by exactly that amount and makes no other larger |
| LayoutResize.BorderMoves | layout.c:462-606 | growing gives the child, or the one before when it is the last, the lesser of the change and what all others have, taken from those after it, nearest first, then from those before; shrinking gives the child after it what it and those before have, nearest first, and leaves those further on alone |
| LayoutResize.ResizeAtMoves | layout.c:456-464 | that border is one of the nearest container above the pane that runs in the direction asked for |
| LayoutResize.ResizeAtElsewhere | layout.c:456-486 | no cell changes but those below that container |
| LayoutResize.ResizeAtNowhere | layout.c:456-460 | and none does where there is no such container |
| LayoutResize.ResizeAtSound | layout.c:448-486 | resizing a pane keeps the tree well formed and its size, whichever border of whichever enclosing container moves |
| LayoutResize.FollowFits | layout.c:396-444 | after a window resize the layout in each direction equals the window or exceeds it with no space left to give up; growing the window past the layout makes it fit exactly; its sizes need not add up |
| LayoutResize.FollowAmount | layout.c:396-444 | in any case a layout with nothing to give up grows to the window if that is larger, and any other changes as the window does, as far as its space allows |
| LayoutResize.ResizeWindowSound | layout.c:396-444 | a window resize leaves any layout placed and at its corner, keeps it fitting in both directions, and keeps it well formed if it was |
| LayoutWindow.Window.constructor | layout.c:377-386 | the first layout is one pane of the window's size, with the invariant of every later one |
| LayoutWindow.Window.SplitPane | layout.c:619-708 | on linked cells: refuses exactly when there is no room, otherwise the cells form the tree that Split gives, the new cell returned is the one at the path SplitPath gives, and the two share the pane's size as above |
| LayoutWindow.Window.AssignPane | layout.c:608-613 | on linked cells: the cell takes the pane and nothing else changes |
| LayoutWindow.Window.ClosePane | layout.c:720-730 | on linked cells: the cells left form the tree that Close gives, or none when the last pane goes |
| LayoutWindow.Window.Resize | layout.c:396-444 | on linked cells: the cells form the tree that ResizeWindow gives |
| LayoutWindow.Window.ResizePane | layout.c:448-486 | on linked cells: the cells form the tree that ResizePane gives, of which the four rows on ResizeAt and BorderMoves above say who grows |
| LayoutWindow.FittingFitsInt | layout.c:396-444 | a layout that fits its window has sizes that stay ints under any window resize |
| LayoutRuns.ApplyTiled | layout.c:396-730 | every operation keeps the whole invariant: well formed, placed, at the corner |
| LayoutRuns.ReachableTiles | layout.c:377-730 | after any run of splits, closes, pane resizes and window resizes from layout_init, every point of the layout is in exactly one pane or on one separator |
| LayoutTight.StepsAlong | layout.c:307-323 | a container given columns or rows one at a time, as the round above it gives them, gives them all to its first child |
| LayoutTight.RoundRobinSteps | layout.c:303-323 | the round comes to giving each child its share one at a time |
| LayoutTight.AdjustTight | layout.c:284-324 | when a tree that has grown has no space to give up, said of its sizes before |
| LayoutTight.DestroyTight | layout.c:327-374 | when a tree without a cell has no space to give up, said of the tree with it: of the cells beside the path to it and of what its heir is given |
| LayoutRuns.CloseFitsExactly | layout.c:720-730 | after closing a pane the layout fits its window just when in each direction it has the window's size, or is larger and is then tight without the pane |
| LayoutRuns.ApplyFitting | layout.c:396-730 | every operation but that close keeps the layout fitting, and a window grown past its layout is filled exactly |
| LayoutRuns.ReachableFits | layout.c:396-444 | over any run from layout_init the layout at every point equals the window or exceeds it with nothing to give up, just when every pane closed is one after which it does |
| LayoutRuns.CloseMayOverflow | layout.c:720-730 | a run, of two splits and a smaller window, after which closing a pane leaves the layout larger than the window with space to give up |
| LayoutPanes.ApplyPanes | layout.c:396-730 | what every operation does to the order of the panes: a split puts the new one just after the one split, a close takes out that one, resizes change none |
| LayoutPanes.ReachableHolds | layout.c:377-730 | over any run from layout_init in which each split brings a pane not there yet, every cell has a pane and no two the same: they are the first and those split in, but for those closed |
| LayoutPanes.SplitPathIndex | layout.c:619-708 | the path of the new cell is that of the pane just after the one split |
| LayoutCustom.TextReads | layout-custom.c:61-98 | what is printed for a tree is read back as the tree, types, sizes, offsets and order, and all of it is consumed, whatever follows |
| LayoutCorrupt.ChecksumDetects | layout-custom.c:33-43 | changing any one byte anywhere to another that does not end the string changes the checksum |
| LayoutCustom.DumpReads | layout-custom.c:47-57 | a dump, with its checksum padded with spaces, is accepted and read back as the tree |
| LayoutCustom.ShownDumped | tmux.1:951-955 | the layout that the manual shows is dumped as it has it, checksum and all |
| LayoutCustom.ColumnText | layout-custom.c:61-98 | cells on top of one another come out in square brackets |
| LayoutCustom.DumpInjective | layout-custom.c:47-57 | trees with the same dump are the same |
| LayoutCorrupt.CorruptRefused | layout-custom.c:102-120 | a dump with any one byte of the layout changed is refused, unless the byte now ends the string |
| LayoutCorrupt.TruncatedExactly | layout-custom.c:102-120 | a dump cut short by a zero is accepted just when it ends within the last number of the first cell and what is left has the checksum of the whole |
| LayoutCorrupt.TruncatedMayPass | layout-custom.c:102-120 | a dump that is accepted without its last character |
| LayoutCorrupt.ReadExtends | layout-custom.c:187-264 | a cell that ends in a bracket, or has something after it, is read the same whatever follows |
| LayoutCustom.ReadPrintable | layout-custom.c:187-264 | whatever is read is a tree that can be printed: containers have children and numbers fit |
| LayoutCustom.ParseStable | layout-custom.c:102-120 | printing what was parsed and parsing it again gives the same, for every string |
| LayoutCustom.Append | layout-custom.c:61-98 | in the buffer: the text is appended, or the call fails, exactly as it fits; nothing is written past the end |
| LayoutCustom.Dump | layout-custom.c:47-57 | gives the text with its checksum, or nothing just when it does not fit |
| LayoutCustom.ComputeChecksum | layout-custom.c:33-43 | the accumulator loop computes the checksum in 16 bits, of the bytes before the zero that ends the string |
| LayoutCustom.Cursor.Construct | layout-custom.c:187-264 | on the shared text pointer: reads what Read gives and leaves the pointer after it |
| LayoutCustom.Parse | layout-custom.c:102-120 | accepts and reads exactly what ReadDump does of the string before its zero: a number as `%hx` reads it, then after five bytes a text with that checksum that is one tree to its end |
| LayoutTrim.BottomRightLast | layout-string.c:161-169 | the bottom right pane is the last in order |
| LayoutTrim.CountCells | layout.c:223-241 | counts the panes |
| LayoutTrim.DestroyBranching | layout.c:327-374 | destroying a cell of any tree whose containers have two children keeps them so, and no cell comes to need more room than the tree had, whether or not its sizes add up |
| LayoutTrim.WellFormedExtent | layout.c:327-374 | where the sizes add up, that room is the size |
| LayoutTrim.AtExtent | layout.c:350-353 | the cell destroyed is no larger than that room |
| LayoutTrim.HandedExactly | layout.c:350-353 | what is given to its neighbour is its size and the separator just when the size is below INT_MAX; from there on it is taken instead, and layout_resize_adjust then ends just when the neighbour affords it |
| LayoutTrim.TrimmedSound | layout-custom.c:122-138 | without the cells past the first n: those are the first n in order, the room needed is no more, and a well-formed tree stays so with its size |
| LayoutTrim.Trim | layout-custom.c:122-138 | fails just when there are more panes than cells; otherwise leaves the first cells in order, as many as there are panes; where it closes cells, none needs room of INT_MAX or more |
| LayoutAssign.AssignInOrder | layout-custom.c:168-184 | the panes go to the cells in order and nothing else of the tree changes |
| LayoutAssign.LayOut | layout-custom.c:102-152 | for a string whose sizes may be any, but below INT_MAX where cells are closed: fails just when it is no layout or has too few cells, otherwise the panes are in its first cells in order, which are placed |
| LayoutAssign.ParseLayout | layout-custom.c:102-158 | for a string whose sizes are ints, whether or not they add up: the window's layout then has the panes in order, is placed, and equals the window or exceeds it with nothing to give up; it is well formed where the string's was |
| LayoutAssign.ArrangedInInt | layout.c:396-444 | where no cell needs more room than INT_MAX, the space and the differences of sizes that layout_resize takes for ints are ints |
| LayoutAssign.ParseMayStall | layout-custom.c:122-138 | a dump, of sizes that add up, whose last cell is of INT_MAX columns: closing it, as for three panes, takes INT_MIN from a neighbour, in which layout_resize_adjust never ends |
| LayoutAssign.DumpRestores | layout-custom.c:47-158 | a window whose layout fits, given its own dump, gets exactly that layout back, panes and offsets included |
| GridLines.RearrangedOwned | grid.c:186-217 | moving lines about, each used once and the rest blank, leaves every buffer with exactly one owner and loses none |
| GridLines.MovedLooks | grid.c:422-455 | seen through the dense matrix of columns, every cell moves with the character kept apart for it, and the columns it leaves are default |
| GridLines.MovedSlots | grid.c:422-455 | after moving cells, every cell with a character kept apart still has a place for it |
| GridLines.ClearedLooks | grid.c:321-354 | cutting a line or filling it with default cells looks the same: the columns cleared are default, the others as they were |
| GridLines.PaddedLooks | grid.c:220-234 | making a line longer changes nothing that is seen |
| GridLines.HistoryVals | grid.c:186-217 | the lines after a region's top line joins the history, with their owners |
| Grid.Grid.constructor | grid.c:72-89 | blank lines of the number asked for, none of them history, and no buffers |
| Grid.Grid.ClearLines | grid.c:357-381 | blanks exactly the lines asked for and frees their buffers, or, when the count runs past the end or wraps in 32 bits, does nothing |
| Grid.Grid.MoveLines | grid.c:384-419 | moves the lines, blanks the places left, frees what was replaced; or does nothing when out of range; every buffer keeps one owner |
| Grid.Grid.CollectHistory | grid.c:149-165 | at the limit, drops exactly the oldest tenth (at least one line) and nothing else |
| Grid.Grid.ScrollHistory | grid.c:171-183 | adds a blank line at the end and counts one more line of history |
| Grid.Grid.ScrollHistoryRegion | grid.c:186-217 | the region's top line becomes the newest of the history, the region's lines move up and a blank one comes in at its end |
| Grid.Grid.PeekCell | grid.c:251-260 | reads the dense matrix: default outside the lines and past the end of one |
| Grid.Grid.ExpandLine | grid.c:220-234 | a line gets cells, default ones, up to the length asked for, in a buffer of its own |
| Grid.Grid.ExpandLineUtf8 | grid.c:237-248 | the places for characters grow, those there are kept, and what new ones hold is left open |
| Grid.Grid.SetCell | grid.c:274-283 | changes one cell of one line, made long enough, and no other line |
| Grid.Grid.SetUtf8 | grid.c:309-318 | changes the character of one column and no cell |
| Grid.Grid.Clear | grid.c:321-354 | clears the area, whole lines by freeing them, line ends by cutting; counts that wrap clear nothing |
| Grid.Grid.MoveCells | grid.c:422-455 | moves cells with their characters within a line, in place, overlapping or not, and wipes what is left |
| Grid.Grid.Shrink | screen.c:221-223 | giving back the memory for blank lines at the end loses no buffer |
| Grid.Grid.Enlarge | screen.c:221-246 | new memory is made blank lines exactly where it comes into use |
| GridView.DeleteInserted | grid-view.c:163-210 | deleting the lines inserted gives back the region but for those pushed out of it |
| GridView.InsertedAt | grid-view.c:163-177 | line by line: what inserting puts where |
| GridView.DeletedAt | grid-view.c:196-210 | line by line: what deleting leaves where |
| GridView.InsertLinesRegion | grid-view.c:163-177 | for every legal count, also when ny - ny2 wraps: exactly that many blank lines are inserted, the rest of the region shifts, nothing outside it changes |
| GridView.DeleteLinesRegion | grid-view.c:196-210 | for every legal count, also when ny - ny2 wraps: exactly those lines go, the rest of the region shifts up, blank lines follow, nothing outside changes |
| GridView.DeleteLines | grid-view.c:180-193 | the same to the end of the screen |
| GridView.InsertLines | grid-view.c:148-160 | what inserting without a region does: the lines are only moved |
| GridView.InsertOnlyMoving | grid-view.c:148-160 | that is inserting blank lines just when the lines neither moved nor moved onto were blank already; there are such lines when more than half the rest of the screen is inserted |
| GridView.InsertMayNotBlank | grid-view.c:148-160 | an input for which it is not |
| GridView.ScrollRegionDown | grid-view.c:136-145 | inserts one blank line at the top of a region, pushing its last out |
| GridView.FullScreenPath | grid-view.c:115-133 | the short way for a full-screen scroll gives the same lines as the way for a region |
| GridView.ScrollRegionUp | grid-view.c:115-133 | with history, collects and then moves the region's top line into it; without, deletes that line from the region |
| GridView.InsertCells | grid-view.c:213-229 | what inserting columns does to the line, which is all it changes |
| GridView.InsertedMayNotBlank | grid-view.c:213-229 | a line of four columns in which three are inserted and two keep what they held |
| GridView.InsertedColumns | grid-view.c:213-229 | every column moves with its character, but the columns inserted are all blank just when those neither moved nor moved onto were, or in the last column |
| GridView.DeleteCells | grid-view.c:232-246 | for every count that fits, also when the count to clear wraps: the columns go, the rest of the line moves up with its characters, and the columns left are blank |
| GridHistory.HistoryIsRecent | grid-view.c:115-133 | over any run of scrolls of any regions, with any drawing between: the history is a suffix, in order, of all lines scrolled off; it never exceeds the limit (or what it was) and never has fewer than a limit less a tenth of it, or one |
| GridHistory.ScrolledUpHistory | grid-view.c:115-133 | what one scroll does to the history |
| GridHistory.ScrolledUpScreen | grid-view.c:115-133 | what it does to the screen: the lines of the region go up one, a blank one follows, and the others stay |
| GridHistory.NothingLost | grid-view.c:115-133 | a full-screen scroll of a history not yet full only adds a blank line at the end |
| Screen.ResizedKeeps | screen.c:171-252 | with history, a change of height keeps every line down to the cursor's and the cursor on its line; what goes is below, what comes is blank; lines join the history only when none are left below the cursor, and blank ones come only when no history is left |
| Screen.ResizedWithout | screen.c:171-252 | without history the lines shown are those that were, down from one above the cursor's, with lines gone from the top only when none are left below the cursor, and blank ones after; the cursor stays on its line |
| Screen.ResizedAllKeeps | screen.c:171-252 | so does any sequence of them: shrinking and growing loses no line at or above the cursor |
| Screen.ShortenedAndBack | screen.c:171-252 | with the cursor in the last row, shrinking and growing back is the identity |
| Screen.ShortenedBySteps | screen.c:194-221 | deleting lines and then cutting memory, as the code does, gives that result, and only blank lines are cut off |
| Screen.Screen.ResizeY | screen.c:171-252 | in place: the lines, the history, the height and the cursor are those that Resized gives, and the region is reset |
| Screen.Screen.ResizeX | screen.c:149-168 | keeps every line and puts the cursor on the screen |
| Screen.Screen.Reinit | screen.c:53-68 | blanks the screen, keeps the history, and resets cursor and region |
| Padding.ExactPadding | screen-write.c:1148-1156 | in a row in order, every character of width w is followed by exactly w - 1 padding columns and every padding column belongs to one |
| Padding.WrittenOk | screen-write.c:989-1097 | writing a character of any width over any part of others keeps the row in order |
| Padding.WrittenLooks | screen-write.c:1065-1097 | the character is seen where the cursor was, padding in its other columns, and nothing of any character that it covers part of; all others look as they did |
| Padding.JoinedOk | screen-write.c:1100-1146 | so does joining a character of no width to the column before the cursor, whatever it holds, whether it fits or is scrapped |
| Padding.JoinedShows | screen-write.c:1116-1143 | the bytes joined come after those there, or all become underscores, one a column, when there are more than nine; colours, attributes and columns stay |
| Padding.MarkTakenExactly | screen-write.c:1100-1146 | the character that covers the column before the cursor takes the mark just when that column is not its padding; otherwise every character of the row looks as before |
| Padding.MarkMayBeLost | screen-write.c:1112-1126 | a character of two columns that an accent written after it leaves as it was |
| ScreenWrite.Overwrite | screen-write.c:1157-1195 | clears exactly what would be left of characters partly overwritten, back to the start of the one under the cursor and on to the end of the last |
| ScreenWrite.Combine | screen-write.c:1100-1146 | appends to what the column before the cursor holds, keeping its width, or replaces that by underscores when there is no room; nothing else changes |
| ScreenWrite.FedOk | screen-write.c:864-886 | a line feed keeps every row in order, with or without history |
| ScreenWrite.FedIs | screen-write.c:864-883 | only the line's mark changes and the cursor goes down a row, or stays in the last; at the bottom of the region the cursor stays, each row has what the next had, the last is empty, rows outside stay, and the top one is the newest line of the history if that is kept |
| ScreenWrite.FedBlanksExactly | screen-write.c:879-880 | the row the cursor is then in is empty just when there is a history, or the region has more rows, or it was so |
| ScreenWrite.FedMayNotBlank | screen-write.c:879-880 | a screen of one row without history, which a line feed leaves as it is |
| ScreenWrite.Linefeed | screen-write.c:864-886 | in place: the lines and the cursor are those that Fed gives, and so as in the three rows above |
| ScreenWrite.WriteCell | screen-write.c:989-1097 | wraps, by a line feed as above, exactly when the character does not fit; the character is then where the cursor was, its padding after it, and all rows of screen and history stay in order, with a place for every character kept apart |
| ScreenWrite.WriteRun | screen-write.c:989-1097 | from a new screen, any run of characters keeps every row in order and the history within its limit |
| TtyCursor.MovesArrive | tty.c:1118-1242 | for every set of capabilities and every row on the screen the terminal's cursor ends at (min(px, sx - 1), cy), nothing scrolls and the margins stay |
| TtyCursor.UnknownMarginsExactly | tty.c:1118-1242 | should margins have been set that are not known, the cursor arrives wherever it is sent, whatever the capabilities of a terminal that tmux takes, just when they would stop it nowhere from where it is |
| TtyCursor.StoppedAbove | tty.c:1193-1232 | a place above to which it does not get, on a terminal that tmux takes |
| TtyCursor.StoppedBelow | tty.c:1193-1232 | a place below to which it does not get |
| TtyCursor.AlongUp | tty.c:1193-1232 | a relative move up that is chosen is not stopped by the top margin |
| TtyCursor.AlongDown | tty.c:1193-1232 | a relative move down that is chosen is not stopped by the bottom margin |
| TtyCursor.RegionArrives | tty.c:1084-1106 | setting margins tracks the cursor at (0, 0), and the terminal's is there just when its place was known or there is a code for home; otherwise one line is fed |
| TtyCursor.RegionMayMiss | tty.c:1084-1106 | a terminal just started whose cursor ends one row down |
| Tty.Tty.constructor | tty.c:195-210 | the state after starting: tracked and real agree |
| Tty.Tty.Cursor | tty.c:1118-1242 | sends what Moves gives; from agreeing states tracked and real cursor end together at the place asked for |
| Tty.Tty.Region | tty.c:1084-1106 | sends what Regioned gives, with that result |
| TtyRendition.AttributesAgree | tty.c:1244-1519 | where the terminal can undo what it can do, the cache still matches it afterwards and remembers exactly the cell wanted |
| TtyRendition.FaithfulExactly | tty.c:1244-1519 | telling the terminal only of differences comes to the same as a reset and telling it all, from every matching state and for every cell, just when it can undo what it can do; this up to the default's being colour 7 or 0 with neither AX nor OP |
| TtyLooks.FgShown | tty.c:1382-1479 | the foreground shown of any cell, said of it and the terminal: the colour of its number, a bright one as such or as the plain one on fewer than 16 colours, one of 256 as such or as the tables for 88 and 16 have it, or the default |
| TtyLooks.BgShown | tty.c:1413-1519 | the background likewise, except that a bright one on fewer than 16 colours comes out ten too large |
| TtyLooks.BrightBgExactly | tty.c:1435-1441 | a bright background is shown as such or as the plain one just on terminals with 16 colours |
| TtyLooks.BrightBgMayMiss | tty.c:1435-1441 | the first bright background, on a terminal of 8 colours, is asked for as colour 10 |
| TtyLooks.AttributesShown | tty.c:1244-1311 | each attribute is in effect by its own code, just when it is wanted and the terminal has it; standout stands in for italics and reverse, bright for bright colours, and reverse for a background that can't be set |
| TtyRendition.StuckFg | tty.c:1446-1479 | without SETAF, a foreground set by a sequence stays when a plain one is wanted |
| TtyRendition.StuckBg | tty.c:1481-1519 | without SETAB, so does a background |
| TtyRendition.StuckAttribute | tty.c:1059-1071 | without SGR0, an attribute stays |
| TtyRendition.StuckColour | tty.c:1059-1071 | without SGR0, a colour stays when an attribute is cleared, for the cache takes it to be reset |
| TtyRendition.StuckCharset | tty.c:1059-1071 | without RMACS, the other character set stays |
| TtyRendition.LastLooksFresh | tty.c:1244-1519 | however many cells have been drawn, the last looks as it would on its own |
| Tty.Tty.Reset | tty.c:1059-1071 | changes cache and terminal as Reset gives |
| Tty.Tty.Colours | tty.c:1313-1380 | changes cache and terminal as Colours gives |
| Tty.Tty.Attributes | tty.c:1244-1311 | changes cache and terminal as Attributes gives; on a terminal that can undo what it can do, both match and look as if told afresh |
| TtyKeys.AddLookup | tty-keys.c:305-340 | adding changes the key of one string and of no other |
| TtyKeys.LastWins | tty-keys.c:305-340 | after any adding, in any order, each string has the key last given for it |
| TtyKeys.AllLive | tty-keys.c:305-340 | no node of a tree so made leads nowhere |
| TtyKeys.FindExactly | tty-keys.c:389-425 | a search finds the whole input with its key where a stored string is it or goes on from it; else the stored string that the input goes on from and no other does; else nothing |
| TtyKeys.AddFoundExactly | tty-keys.c:287-302 | adding through a search changes the key of its string alone just when the string does not go on from a stored one that no other goes on from |
| TtyKeys.KeyLost | tty-keys.c:287-302 | an order of adding in which a key is lost |
| TtyKeys.AddKey | tty-keys.c:305-340 | on linked nodes, in place: the tree becomes the one Add gives, old nodes are kept, new ones fresh |
| TtyKeys.FindKey | tty-keys.c:389-425 | on linked nodes: the node found, or null, and the count, as Find gives |
| Utf8.OverlapExactly | utf8.c:249-262 | two entries overlap just when they have a value in common |
| Utf8.WalkIsScan | utf8.c:335-353 | for any table of disjoint entries, the walk of the tree gives the width that a scan of the table does, and one where no entry has the value |
| Utf8.Build | utf8.c:265-289 | builds the tree just when no entries overlap, and the tree then gives for every value what a scan does |
| Utf8.Width | utf8.c:335-353 | the loop computes the walk |
| Utf8.CombineEncode | utf8.c:292-319 | the bytes of a code point give it back up to three bytes; of four they give it with 0xc00000 added, which is what the mask for the first byte leaves |
| Utf8.FourBytesNotFound | utf8.c:292-319 | so none of these is found in a table of code points: its width is one |
| Utf8.IdeographNarrow | utf8.c:40 | such as an ideograph that the table has as two columns wide |
| Utf8.EncodeCombine | utf8.c:292-319 | two bytes accepted are the encoding of their code point, and so are three unless two would do |
| Utf8.Split2Combine | utf8.c:322-332 | splitting in two and combining is the identity |
| Utf8.Utf8Data.Open | utf8.c:211-225 | accepts exactly the first bytes of characters of two to four bytes |
| Utf8.Utf8Data.Append | utf8.c:232-246 | adds a byte, within the buffer, and says whether more are to come |
| InputTable.Total | input.c:362-651 | every state has a transition for every byte, and the states for UTF-8 count down to the byte that closes a character |
| InputText.GroundStep | input.c:362-377 | outside sequences a byte of text is printed, a control is carried out, DEL is ignored, and nothing is remembered of any |
| InputText.TextPrinted | input.c:362-377 | a run of text and controls: each byte once, in order |
| InputText.EscapeParsed | input.c:380-418 | an escape is carried out as the table has it, with exactly its intermediates and final byte, or not at all with more than three |
| InputText.EscapeOther | input.c:380-418 | a control within an escape is carried out at once, and DEL and bytes past it are ignored |
| InputText.StringDelivered | input.c:571-618 | a string for OSC, APC or a window's name is delivered at its end with exactly its bytes from 0x20 on, or not at all when they are more than 255; one for SOS or PM is not |
| InputText.EditingCommands | input.c:147-174 | the final bytes of control functions that move the cursor and edit, as ECMA-48 has them |
| InputText.StandardCommands | input.c:147-174 | those that erase, and the others of the standard |
| InputText.PrivateCommands | input.c:147-174 | those that are private to DEC |
| InputText.EscapeCommands | input.c:103-116 | those after ESC |
| InputTable.TablesAscending | input.c:103-175 | the tables of commands are in the order that a binary search needs |
| InputTable.BSearch | input.c:1050-1055 | finds the row with the character and the intermediates just when there is one |
| InputParser.RunBounded | input.c:694-761 | after any input all that is collected is within bounds: 3 intermediates, 63 bytes of parameters, 255 of strings, and exactly 3, 2 or 1 bytes to come in the states for UTF-8 |
| InputParser.StartBounded | input.c:666-685 | the parser starts within bounds |
| InputParser.StepBounded | input.c:694-761 | each byte keeps that, and a byte added to a character always has room |
| InputParser.Interleaved | input.c:421-483 | controls anywhere in a control sequence are carried out once each, in order, and the sequence as if they were not there |
| InputParser.CsiParsed | input.c:421-483 | a control sequence is dispatched with exactly its marker, parameters and intermediates, or, when there is more of them than room, not at all |
| InputParser.WholeSequence | input.c:421-483 | from any state that ESC leaves, a whole sequence with controls anywhere in it: both of these together |
| InputParser.CharacterParsed | input.c:1535-1572 | the encoding of every code point of more than one byte is carried out as one character |
| InputParser.MiddleStep | input.c:618-651 | in the middle of a character a byte that continues it is added, the last one closes it, and any other byte is lost with it |
| InputParser.SplitJoin | input.c:764-792 | a list of parameters is read back as it was written, those left out too, and refused just when it fills its room |
| InputPassthrough.PassedThrough | input.c:486-560 | a string for the outer terminal, with every ESC in it doubled, delivers exactly its bytes, or nothing when they and the prefix are more than there is room for |
| InputPassthrough.DeviceString | input.c:486-569 | whatever parameters and intermediates come before it, data that starts with tmux; is delivered when all has room, and no other is |
| InputPassthrough.DeviceIgnored | input.c:486-569 | a device control string with a colon before its data is ignored |
| InputParser.DispatchedShort | input.c:764-792 | nothing marked to be discarded is dispatched, and no list that is has filled |
| Input.InputCtx.constructor | input.c:666-685 | starts in the ground state with empty buffers |
| Input.InputCtx.Clear | input.c:827-840 | empties the buffers and the mark to discard |
| Input.InputCtx.AddIntermediate | input.c:853-864 | collects, keeping room for the zero, or marks to discard |
| Input.InputCtx.AddParameter | input.c:867-878 | collects, keeping room for the zero, or marks to discard |
| Input.InputCtx.AddInput | input.c:881-892 | collects, keeping room for the zero, or marks to discard |
| Input.InputCtx.SplitParameters | input.c:764-792 | fills the list as Split gives, never past its 24 entries, and leaves zeros for the semicolons it has read, as strsep does |
| Input.InputCtx.CsiDispatch | input.c:1034-1055 | carries out the command that the table has, with the parameters, unless discarded |
| Input.InputCtx.EscDispatch | input.c:948-964 | carries out the command that the table has, unless discarded |
| Input.InputCtx.Utf8Open | input.c:1535-1547 | opens a character, or prints the byte and stays where UTF-8 is off |
| Input.InputCtx.Utf8Add | input.c:1550-1557 | adds a byte, for which there is room |
| Input.FindTransition | input.c:724-739 | the loop finds the first transition for the byte, and there is one |
| Input.InputCtx.Parse | input.c:694-761 | in the buffers: whatever the input, what is collected and carried out is what Run gives, and every buffer ends in a zero within its bounds |

## Left out

- Layout sizes are integers; that no unsigned subtraction wraps is LayoutTree.CheckBelowSize, and sizes are at most INT_MAX after a resize by LayoutWindow.FitsInt, which holds whenever the layout fitted the window.
- LayoutWindow.Window.Resize: requires the sizes of the window, and of the layout after it, to fit an `int`, as the changes computed from them are of that type; LayoutWindow.FittingFitsInt shows that they do for every layout that fits.
- LayoutCustom.Cursor.Construct: builds a tree value where the C code links cells, so memory freed on errors is not modelled; numbers too large are cut to their width as `strtoul` and a conversion would.
- LayoutCustom.Parse: a string too short for its header is refused, where the C code reads past its end; `0x` without digits is read as zero.
- LayoutTrim.Trim: promises nothing of closing cells where a container has a single child, as the C code then follows a null pointer, or where the tree needs room of INT_MAX or more, as the change it computes is then not the size; where no cell is closed it takes any tree.
- LayoutAssign.LayOut: promises nothing of such layouts either where cells are closed: by LayoutAssign.ParseMayStall the C code may not return for them, and by LayoutTrim.HandedExactly this is decided by what the neighbour affords.
- LayoutAssign.ParseLayout: the same, and promises nothing where a cell needs more room than INT_MAX or the window is larger, as layout_resize computes with ints. Where sizes do not add up, a container may come out with a negative size that the C code has modulo 2^32, as it then has the offsets after it.
- layout_fix_panes (cropping), layout_resize_pane_mouse, layout_print_cell, the other finders of layout-string.c and layout-set.c, whose arrangements need not fill their cells.
- Grid.Grid.MoveLines: requires a count no larger than the grid, and a grid of at most 2^31 lines; beyond it the C code moves memory outside the array.
- Grid.Grid.CollectHistory: requires a limit of at least one; with none the count of history lines wraps.
- Grid.Grid.MoveCells: requires column sums that do not wrap.
- Grid.Grid.ExpandLineUtf8: what new places hold is left open, as it is in the memory that `realloc` gives.
- ScreenWrite.WriteCell: wrap mode without insert mode, and characters no wider than the screen or nine columns. In insert mode the C code moves cells of row cy of the history instead of the screen.
- ScreenWrite.Combine: a character's bytes are those before the 0xff that ends them.
- grid_view_clear_history, which does not collect; grid_compare, grid_string_cells, grid_duplicate_lines; selections, tabs and titles; the other commands of screen-write.c.
- TtyCursor.MovesArrive: the row must be on the screen, and margins that are not known are taken never to have been set; TtyCursor.UnknownMarginsExactly has the other case.
- TtyRendition.FaithfulExactly: the tables from 256 to 16 and 88 colours may be any, the first with values below 16.
- Tty: output is a sequence of control functions, not bytes; terminfo lookup, modes, cursor style, drawing of lines and tracking through printed text.
- TtyKeys.AddKey: gives back the node to keep where the C code writes through a pointer to a pointer; tty_keys_free, mouse and xterm keys, timers and the default tables of keys.
- Utf8.Build: links tree values where the C code links the entries of the table; the table itself is not modelled.
- Input.InputCtx.Parse: what is carried out is recorded as a list of actions; what each does to the screen, the option of an OSC string and replies are not modelled.
- Sockets, events, processes, options, sessions, key tables, status line, prompts, copy mode and commands.
