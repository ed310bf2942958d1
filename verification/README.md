# Verified model of the cruse editor core

cruse keeps the text of a buffer in a singly linked list of cons cells, with three
pointers into it: `content`, the first cell, `point` and `mark`.  NULL means the end of the
buffer, and `mark` may also be the sentinel `hil`, which means that it is not set.  This
project models that structure as it is, a mutable chain of heap cells, and proves that it
refines a simple thing: a character sequence with a point index and a mark index.  On top
of it come the clip ring, the commands and whole runs of them, the window that scrolls over
the text, and the key maps that dispatch key sequences to commands.

| file | what it models |
|---|---|
| `Sequences.dfy`, `Cells.dfy`, `ConsList.dfy` | cells, chains of them, the list functions of `include/Cons.h` |
| `TextModel.dfy`, `Edits.dfy` | the text, point and mark; what every edit does to them; which edits undo which |
| `Lines.dfy`, `Words.dfy`, `Rows.dfy` | lines, words and window rows of a text, and the laws of the motions |
| `Distances.dfy`, `Buffer.dfy` | the functions of `src/Buffer.cc` on cells, proved against the above |
| `Window.dfy` | `prepare` and `next_char` of `src/SupplyWindow.cc` |
| `Editing.dfy` | `transpose_lines` and `clip_word` of `python/editing.py` |
| `Session.dfy`, `Commands.dfy` | twenty commands on texts, runs of them, and each command said on characters and places alone |
| `ClipRing.dfy`, `Editor.dfy` | the clip ring with its append flag, the commands and runs of them on the heap |
| `KeyMaps.dfy` | the tables of key bindings as a trie |

`Buffer.Valid` says that the chain from `content` ends in NULL, which makes it acyclic, and
that `point` and `mark` sit where the ghost fields say.  A mark is unset, at a place of the
text, or *stray*: on a cell that has left the buffer.  The last case is real, because
`clip_to` does not compare the last cell it takes with the mark (`src/Buffer.cc:180-185`).
The model keeps it, says exactly when it arises in a call and in a run (`Sessions.StrandsMark`,
`Sessions.MarkStaysHome`), and follows it through the clip ring: clip_region and copy_region
look for it in vain from inside the buffer, copy_region copies the rest of its clip from the
end, and swap_positions takes point out of the buffer.  `delete` and `free` are modelled as
dropping a cell or table from what is in use.

The main results are these.

* Every command, and so every run of commands that does not follow a stray mark out of the
  buffer or off its end, keeps the editor valid, with the buffer's cells disjoint from the
  clip ring's, and does to the heap exactly what it means on the text
  (`Editors.Editor.RunCommands`).
* What each command means is determined by what is where in the text, without the functions
  that compute it (`Commands`); so are the edits, the motions, `transpose_lines`, the row
  metric and the start that `prepare` chooses in each of its branches.
* `clip_to` and `copy_to`, on either side of point, against one description of the stretch
  between; `insert` puts every cell that `clip_to` took back where it was
  (`Buffers.Buffer.ClipThenInsert`).
* `n` `clip_line` commands take exactly the next `n` newlines and runs of other characters,
  and a `yank` restores the text exactly when no earlier clip gets appended to
  (`Sessions.KillsThenYank`).
* The row search backward finds the place exactly `k` rows up (`Rows.BackwardRows`); the
  search forward agrees with the metric exactly where every stretch of text fills as many
  rows at either width (`Rows.ForwardRowsAgree`); and `prepare` leaves point visible exactly
  when the condition of the branch it takes holds (`Windows.PrepareShowsPoint`), always on
  lines shorter than the window (`Windows.PrepareOnShortLines`).
* `transpose_lines` swaps two lines with the same cells through a list that is circular
  half way, and twice is the identity exactly when it does not raise.
* The key tables mean a prefix-free map; binding changes it in one place, frees nothing
  twice and nothing in use, and typing finds the unique bound beginning.

Some statements of the repository do not hold of its code as it is, and the model follows
the code.  `insert` is documented to return the content if that has changed
(`include/Buffer.h:52-54`), but returns point when it fills an empty buffer
(`src/Buffer.cc:136-141`), and it never sets `modified`.  `clip_char` is documented for
counts of either sign (`include/Buffer.h:56-58`), but a forward move that ends inside the
buffer leaves -1 in the count, so a positive count never removes anything before the end
(`Edits.CharClippedExactly`).  The forward row search takes rows of `cols + 1` cells, the
backward search and the metric take `cols`; `Rows.ForwardRowsAgree` says exactly when they
agree.  `prepare` can leave point out of the window on lines that are wider than it, in four
ways: forward it overshoots because of the wider rows; backward onto point's line it counts
rows from both ends of the line, or from its beginning and a start inside it, and may stop past
point; backward to the first line it takes all of that, however many rows it has; and with
point less than a row before a start inside its line the metric is 0, so that nothing moves
unless a top margin brings point back.  `Windows.ScrollWorks` is the condition for each, and
there is a failing input for each; the start in the last one is where `prepare` itself put it.
`line_distance` is documented to give 0 on the same line and 1 on adjacent ones in either order
(`include/Buffer.h:132-139`), but gives one more when TWO comes right before ONE, and does not
return for any earlier TWO.

## Model

| member | source | states |
|---|---|---|
| Cells.ChainDistinct | include/Cons.h:21-24 | a chain of cells that ends in NULL never meets a cell twice: what is a valid buffer is acyclic |
| ConsList.Length | include/Cons.h:67-82 | the number of cells up to NULL |
| ConsList.Last | include/Cons.h:84-94 | the cell whose cdr is NULL |
| ConsList.FindBut | include/Cons.h:96-118 | with d cells to the target, the cell max(0, d - n) from the head; max(0, n - d) is left in the counter |
| ConsList.Distance | include/Cons.h:128-167 | the number of cells from ONE to a TWO that follows it, 1 if TWO comes right before ONE, -1 if TWO is NULL or the end of another list; in every other case the function does not return |
| ConsList.CopyList | include/Cons.h:169-179 | an all-fresh chain with the same text |
| Buffers.PlacedAfterInsert | src/Buffer.cc:129-159 | spliced-in cells leave point and mark on their cells, at shifted indices; a mark that strayed onto the list comes home |
| Buffers.PlacedAfterCut | src/Buffer.cc:179-218 | unlinking a stretch with point at its start moves a mark on any cell but the last to the cut, strands one on the last, shifts one behind it |
| Buffers.Buffer.constructor | include/Buffer.h:32-33 | an empty buffer: no text, point at the end, mark unset, not modified |
| Buffers.Buffer.Walk | src/Buffer.cc:341-345 | forward `count` cells or to the end; the count is -1 when it stops inside, else what is missing |
| Buffers.Buffer.ForwardChars | src/Buffer.cc:321-346 | point moves by the count clamped to the text, text and mark stay, and what is left in the count |
| Buffers.Buffer.LinkAfter | src/Buffer.cc:109-117 | the copy-the-neighbour trick inserts the character before point's although the new cell is linked behind |
| Buffers.Buffer.InsertChar | src/Buffer.cc:106-127 | one fresh cell; the text is what was before point, the very character given, and what was behind; point stays before what it was before, a mark at point stays before the new character unless at the end of the buffer |
| Buffers.Buffer.Insert | src/Buffer.cc:129-159 | the list's own cells are spliced in at point, point is behind them, every mark keeps its cell, `modified` is not set; the documented result, the content if it has changed, is returned exactly unless a list goes into an empty buffer |
| Buffers.Buffer.CellBefore | src/Buffer.cc:179-185 | the walk finds the cell before the target exactly when the target lies ahead, and sees the mark exactly when it is on a cell before that one |
| Buffers.Buffer.FindStretch | src/Buffer.cc:167-201 | the two tries put point at the first of the two ends and find the cell before the second; a cell of another list is found neither way and point is put back |
| Buffers.Buffer.ClipBetween | src/Buffer.cc:203-220 | with point at the start of the stretch: terminates it, links over it, moves point and a seen mark to the cut, returns it as a list |
| Buffers.Buffer.ClipTo | src/Buffer.cc:161-221 | with the other end before or after point or NULL: exactly the cells between leave the buffer as a chain with their text, point is at the cut, the mark as in PlacedAfterCut; nothing happens when the ends are equal or the cell is on no side |
| Buffers.Buffer.ClipThenInsert | src/Buffer.cc:129-221 | clip_to and then insert of the very list it returned: every cell is where it was, on whichever side of point the other end lies; a mark on the stretch ends up behind it, except that a mark on the last cell, lost meanwhile, is back in its place |
| Buffers.Buffer.ClipAway | src/Buffer.cc:161-221 | clip and buffer share out the cells there were, and a mark that comes to stray is on the last cell of the clip |
| Buffers.Buffer.CopyStretch | src/Buffer.cc:255-264 | truncating, copying and repairing leaves the truncated cell as it was |
| Buffers.Buffer.CopyTo | src/Buffer.cc:223-265 | every cell, point and mark as before; the result is all fresh and says what clip_to would have taken, whichever end comes first; with point NULL and a cell of another list, all that follows there |
| Buffers.Buffer.Absorb | src/Buffer.cc:284-286 | the copy trick backward: point's cell takes over its neighbour, and point's character is the one gone |
| Buffers.Buffer.EraseInside | src/Buffer.cc:281-290 | removes the character at point by dropping the next cell, a mark on which moves to point |
| Buffers.Buffer.EraseLast | src/Buffer.cc:291-306 | removes the last character with its own cell and resets any set mark to the end |
| Buffers.Buffer.ClipChar | src/Buffer.cc:267-312 | point moves by the count, and the character there goes exactly if the count was used up; no cell is new |
| Buffers.Buffer.BeginningOfLine | src/Buffer.cc:529-543 | the cell after the last newline before point |
| Buffers.Buffer.EndOfLine | src/Buffer.cc:545-557 | the first newline from point on, or NULL |
| Buffers.Buffer.CountNextLine | src/Buffer.cc:480-489 | the count leads from a newline to the end of the next line, NULL included |
| Buffers.Buffer.ForwardLine | src/Buffer.cc:462-492 | point moves as the line motion on the text does (Lines.ForwardOntoNext); with no newline from point on it goes to NULL |
| Buffers.Buffer.StepAlong | src/Buffer.cc:518-524 | up to `len` cells on, but not past the line's newline |
| Buffers.Buffer.BackwardLine | src/Buffer.cc:494-527 | point moves as the line motion on the text does (Lines.BackwardOntoPrevious); with no newline before point it goes to the start |
| Buffers.Buffer.SkipForward | src/Buffer.cc:359-365 | the cell after the count-th newline, or NULL |
| Buffers.Buffer.UpLines | src/Buffer.cc:367-369 | from a line's beginning, the beginning of the k-th line before, or the first |
| Buffers.Buffer.NextLineFrom | src/Buffer.cc:348-374 | the beginning of the line `count` away in either direction, with point put back; see Lines.NextLineRoundTrip |
| Buffers.Buffer.CurrentLine | src/Buffer.cc:76-80 | the number of newlines before point |
| Buffers.Buffer.CurrentColumn | src/Buffer.cc:82-104 | the width of the text from the line's beginning to point, tabs expanded |
| Buffers.Buffer.RowsDown | src/Buffer.cc:386-400 | the forward search of Rows.ForwardRows |
| Buffers.Buffer.CountEdges | src/Buffer.cc:420-437 | the row ends between a line's entry and a later cell, stopping at a newline |
| Buffers.Buffer.SearchLine | src/Buffer.cc:420-453 | one round of the backward search: finished, or that many fewer rows to go from the line before |
| Buffers.Buffer.RowsUp | src/Buffer.cc:401-455 | the backward search terminates without running off the list, at the place Rows.BackwardRows describes |
| Buffers.Buffer.NextWindowLineFrom | src/Buffer.cc:376-460 | the row search in either direction, with point put back |
| Buffers.Buffer.SetMark | src/bindables.cc:31-37 | the mark is where point is, whatever it was before |
| Buffers.Buffer.SwapPositions | include/Buffer.h:155-167 | point and mark trade places, or nothing happens while the mark is unset; a stray mark puts point on a cell that is not in the buffer |
| Buffers.Buffer.SwapTwice | include/Buffer.h:155-167 | swapping twice is the identity on every valid buffer, with a stray mark too |
| Distances.CountLines | src/Buffer.cc:726-742 | the newlines from a cell to the end |
| Distances.LineDistance | src/Buffer.cc:598-649 | the newlines between ONE and a later TWO; NULL on either side counts from the other to the end; for TWO right before ONE one more than the lines between; -1 for a TWO that ends another list; in every other case the function does not return |
| Distances.CountRows | src/Buffer.cc:662-688 | finds TWO exactly when it is not before ONE, and then the row ends between, one more for the end of the buffer |
| Distances.WindowLineDistance | src/Buffer.cc:651-724 | the signed row metric, negative when TWO comes first |
| Edits.MoveAndBack | src/Buffer.cc:321-346 | n forward and n back is the identity exactly when n does not overrun the end or point began at the start; the other way round likewise |
| Edits.MoveLands | src/Buffer.cc:321-346 | a move ends where it is asked to, or at the end of the text on that side |
| Edits.TypedIsThere | src/Buffer.cc:106-127 | text, point and mark after typing, by characters and places |
| Edits.InsertedIsThere | src/Buffer.cc:129-159 | the same for an inserted list |
| Edits.ClippedIsGone | src/Buffer.cc:161-221 | the clip is the text between the two ends, whichever comes first, and just that is gone; a mark inside goes to the cut, one on the last character strays |
| Edits.CharIsGone | src/Buffer.cc:267-312 | clip_char by any count: which character goes, if any, where point is and where the mark |
| Edits.CountAddsUp | src/Buffer.cc:321-346 | where a move ends and what it leaves in the count add up to where it was asked to go; -1 is left exactly by a forward move that stops inside, and by -1 at the start |
| Edits.CharClippedExactly | src/Buffer.cc:267-312 | a character is removed exactly for a count that is not positive and stays inside; otherwise point only moves |
| Edits.TypeThenRubOut | src/Buffer.cc:106-127 | insert_char then clip_char (-1) is the identity on text and point, and on the mark exactly unless it was set elsewhere with point at the end |
| Edits.ErasedMark | src/Buffer.cc:287-304 | removing a character keeps the mark's place, exactly except for the reset when the last one goes |
| Edits.ClipThenInsertCopy | src/Buffer.cc:129-221 | inserting a copy of what clip_to took, as yank does, restores the text, point is behind it, the mark is restored exactly when it was not on a clipped cell, and is lost exactly when it was on the last one |
| Edits.SwapTwice | include/Buffer.h:155-167 | with the mark in the buffer or unset, swapping shows on the text, point and mark exactly when the mark is set elsewhere than at point, and swapping again undoes it; for a stray mark Buffers.Buffer.SwapTwice |
| Lines.BolIsLast | src/Buffer.cc:529-543 | no line begins between a place's line beginning and the place |
| Lines.BolOfLine | src/Buffer.cc:529-543 | a line beginning with no newline between it and a place is that place's line beginning |
| Lines.EolOfLine | src/Buffer.cc:545-557 | a newline, or the end of the text, with none between is a place's line end |
| Lines.ForwardOntoNext | src/Buffer.cc:462-492 | from the line b..e to the next, e + 1..n: the same column, or n if that is beyond |
| Lines.ForwardOffLast | src/Buffer.cc:475-478 | from any last line, to the end of the text |
| Lines.BackwardOntoPrevious | src/Buffer.cc:494-527 | from the line at b to the one before, a..b - 1: the same column, or its end if that is beyond |
| Lines.BackwardOffFirst | src/Buffer.cc:494-527 | from the first line, to the start of the text |
| Lines.LineForwardLands | src/Buffer.cc:462-492 | with a next line, point lands on it at column min(col, its length), also when it is the last and has no newline |
| Lines.LineBackwardLands | src/Buffer.cc:494-527 | off the first line, point lands on the previous line at column min(col, its length) |
| Lines.ForwardThenBackward | src/Buffer.cc:462-527 | forward_line then backward_line is the identity exactly when there is a next line with at least col characters, or point is at the start |
| Lines.BackwardThenForward | src/Buffer.cc:462-527 | the other way round: exactly when the previous line has at least col characters, or at the end of a one-line buffer |
| Lines.NewlinesAdd | src/Buffer.cc:726-742 | newlines before point and from point on add up to those of the buffer: current_line () + lines (point) == lines (content) |
| Lines.NewlinesAreCounted | src/Buffer.cc:726-742 | the count is the number of places with a newline |
| Lines.WidthOfTabs | src/Buffer.cc:82-104 | the column is the number of characters before, with each tab counted as the tab width |
| Lines.NextLineLands | src/Buffer.cc:348-374 | next_line down ends behind the count-th newline from the line's beginning, or at the end of a text with fewer; up at the line beginning with that many newlines between, or at the start |
| Lines.SkipThenBack | src/Buffer.cc:357-369 | from a line beginning, k lines down and k up is back when there are k newlines |
| Lines.SkipToLastLine | src/Buffer.cc:357-369 | with fewer, the skip ends at NULL, and as many lines up as there were newlines is back |
| Lines.NextLineRoundTrip | src/Buffer.cc:348-374 | next_line (k) then next_line (-k) from its result is the original line's beginning exactly when k newlines lie at or after point, or it is the first line |
| Rows.RowStepsAdd | src/Buffer.cc:667-688 | row distances add up at a line beginning |
| Rows.DistanceAlong | src/Buffer.cc:651-724 | the metric along a stretch without newlines, both ways: the full rows, and one more onto the end of the buffer |
| Rows.DistanceOverNewline | src/Buffer.cc:651-724 | ... and over a newline: the rows before it, one for it, and the rest |
| Rows.EdgesAreSteps | src/Buffer.cc:423-437 | the backward search counts the row ends of a line as the metric does |
| Rows.FullRows | src/Buffer.cc:442-448 | a line's first rows are full, so moving forward whole rows subtracts exactly that many |
| Rows.RoundOfSearch | src/Buffer.cc:406-453 | one round from a line beginning: the place k rows up is found on the previous line exactly when that line has k rows, else k shrinks by its rows |
| Rows.SearchUp | src/Buffer.cc:406-454 | the whole backward search by induction on the lines |
| Rows.BackwardRows | src/Buffer.cc:401-459 | from the first column of any line, NULL included: the result is exactly k rows away and a whole number of rows into its line when the lines from the second on have that many rows, else it is the start of the text |
| Rows.ForwardSteps | src/Buffer.cc:386-400 | the forward search against the metric at one more column, from anywhere in a row |
| Rows.ForwardRows | src/Buffer.cc:386-400 | a result inside the text is exactly k rows away at width cols + 1 |
| Rows.ForwardRowsFirst | src/Buffer.cc:386-400 | the result is the first place that is k rows away at width cols + 1: places before it are fewer away, and places from it on are not |
| Rows.DriftIsGap | src/Buffer.cc:667-688 | between any two places the metric counts as many rows more at width cols than at cols + 1 as the stretches between newlines fill |
| Rows.ForwardRowsDrift | src/Buffer.cc:386-400 | on any text, a result inside it is k rows and the drift on the way from point at width cols |
| Rows.ForwardRowsAgree | src/Buffer.cc:386-400 | on any text, it is exactly k rows away at width cols exactly when every stretch crossed fills as many rows at either width |
| Rows.ForwardRowsNarrow | src/Buffer.cc:386-400 | ... as it does when no stretch crossed has cols characters |
| Rows.ForwardRowsWide | src/Buffer.cc:386-400 | ... and along one long line exactly while k < cols, the distance being k + k / cols |
| Words.BackwardWordLands | src/bindables.cc:236-258 | ends at the start or at the first character of a word, never at the second character of the text, always moves if it can, crosses one word at most |
| Words.ForwardWordLands | src/bindables.cc:260-278 | ends at the end or just behind a word, always moves if it can, crosses one word at most |
| Windows.ShortDistance | src/Buffer.cc:651-688 | on lines shorter than the window the metric counts newlines, and one for the end of an unfinished last line |
| Windows.ShortBack | src/Buffer.cc:401-455 | on such lines the backward row search goes up lines |
| Windows.ShortForward | src/Buffer.cc:386-400 | ... and the forward search goes down lines |
| Windows.ScrollUp | src/SupplyWindow.cc:46-47 | point above the window: its own line becomes the first |
| Windows.ScrollDown | src/SupplyWindow.cc:67-78 | m rows forward bring point exactly m rows closer, and the start stays a line beginning |
| Windows.ScrollOneUp | src/SupplyWindow.cc:48-49 | one row backward puts point one row further down, except at the start of the text |
| Windows.PrepareOnShortLines | src/SupplyWindow.cc:16-84 | with every line shorter than the window, wherever point is and whether or not the start was adjusted: after prepare point is 0 to rows - 1 rows below the start, and the start is a line beginning |
| Windows.PrepareRow | src/SupplyWindow.cc:16-84 | the row point is on then: the first if it was above the window, the last if it was below, one further down from the top margin unless the start is the text's, one further up from the bottom margin, and with an adjusted start, or between the margins, the row it was on |
| Windows.PrepareStays | src/SupplyWindow.cc:37-84 | with point between the margins the start stays, and counts as not adjusted |
| Windows.PrepareAtBottom | src/SupplyWindow.cc:54-81 | in the bottom margin the start moves on to the first place one row further by the forward search, or to the end; an adjusted one stays, and the flag is kept |
| Windows.PrepareBelow | src/SupplyWindow.cc:54-81 | with point below the window the start moves on to the first place as many rows further as there are too many, and counts as adjusted |
| Windows.PrepareAtTop | src/SupplyWindow.cc:37-53 | in the top margin a start at a line beginning moves back exactly one row, or to the start of the text; an adjusted one stays, and the flag is kept |
| Windows.PrepareAbove | src/SupplyWindow.cc:37-53 | with point above the window such a start moves back exactly as many rows, or to the start of the text, and the flag is kept |
| Windows.SearchToLine | src/Buffer.cc:401-455 | on any text, going back the rows from point's line to a later line ends on that line, one row further in for each row there are fewer from point on than from the line's beginning |
| Windows.ShowsAbove | src/SupplyWindow.cc:46-47 | a row or more above the window, on an earlier line or on the line the start is inside: point becomes visible exactly, on the first line, when it is less than rows rows into it; on a later one, when the part row before the line's end, or before the start, is no longer from point than from the line's beginning |
| Windows.ShowsSameLine | src/SupplyWindow.cc:46-47 | on the line of the start and a row or more before it: the new start is not past point exactly when the part row before the old start is no longer from point than from the line's beginning, and then point is on the first row |
| Windows.ShowsNear | src/SupplyWindow.cc:37-49 | less than a row before a start inside its line: the metric is 0, and one row up, which only the top margin gives, shows point always, except exactly on a first line where point is rows rows in or more |
| Windows.ShowsOneUp | src/SupplyWindow.cc:48-49 | one row up over a point near the top keeps it visible, wherever in a line the start is, except exactly when the start was on the first line or was the second line, and point is too far into the text |
| Windows.OneUpInside | src/Buffer.cc:401-455 | one row up from inside a line, not the first, moves the start up and puts point at most two rows further down |
| Windows.ForwardTo | src/SupplyWindow.cc:67-78 | m rows forward bring point m rows closer or more, and pass it exactly when it is fewer than m of the wider rows away |
| Windows.ShowsBelow | src/SupplyWindow.cc:67-75 | point below the window: visible exactly when the drift up to it is less than the rows there are; always at the end of the buffer |
| Windows.ShowsOneDown | src/SupplyWindow.cc:77-78 | one row down under a point near the bottom always keeps it visible |
| Windows.PrepareShowsPoint | src/SupplyWindow.cc:16-84 | on lines of any width, wherever point is, wherever in a line the window starts and whether or not the start was adjusted: after prepare point is at or after the start and less than rows rows below it, exactly when the condition of the branch taken holds; only a start inside a line with point on an earlier line than that, not at the start of the text, is left out |
| Windows.PrepareOvershoots | src/SupplyWindow.cc:67-75 | a failing input for the scroll forward: it passes point |
| Windows.PrepareGivesUp | src/SupplyWindow.cc:48-49 | a failing input for the scroll over the top margin: from the second line the search goes to the start of the text, and point is below the window |
| Windows.PrepareStopsShort | src/SupplyWindow.cc:46-47 | a failing input for the scroll backward: the search stops on point's line, past point |
| Windows.PrepareSticks | src/SupplyWindow.cc:37-84 | a failing input for no scroll at all: prepare puts the start inside a line, point moves to less than a row before it, and prepare leaves both there |
| Windows.SupplyWindow.constructor | include/SupplyWindow.h:32-39 | a window on a buffer with the start given |
| Windows.SupplyWindow.Rows | src/SupplyWindow.cc:54-56 | all rows but the one for a mode line, if there is one |
| Windows.SupplyWindow.Prepare | src/SupplyWindow.cc:5-93 | the new start and flag are those PrepareShowsPoint is about; text, point and mark stay; line and column are those of point |
| Windows.SupplyWindow.Measure | src/SupplyWindow.cc:12-35 | the start a window measures from, the current line and column, and the signed distance to point |
| Windows.SupplyWindow.Scroll | src/SupplyWindow.cc:37-84 | by how many rows point is below the start: start and flag in each of the five branches, with point borrowed for the row search and put back |
| Windows.SupplyWindow.NextChar | src/SupplyWindow.cc:95-119 | the next character with its point and mark flags, one newline at the end, then NUL |
| Windows.SupplyWindow.SupplyAll | src/SupplyWindow.cc:95-119 | until more_chars is false: exactly the text from the start on and one newline; point and mark are flagged on exactly the character they are before, the end included |
| Editing.TransposeLines | python/editing.py:88-128 | off the first line and on a line with a newline, the line and the previous one trade places, with point at the beginning of the moved line one; the window begins with line two whenever line one was the first line, wherever it began before, and else where it did; an exception, with line one lost, exactly on a later line without a newline |
| Editing.TransposedText | python/editing.py:88-128 | with a..b and b..e + 1 the two lines: the text has them in the other order, with their newlines, and nothing else has changed; point is where the first one begins now, a mark is on its character |
| Editing.TransposedLost | python/editing.py:112-127 | on a later line without a newline: the line before is gone from the text, point is at the end, and the function raises |
| Editing.TransposedNothing | python/editing.py:88-96 | on the first line point goes to the start; behind a final newline nothing happens |
| Editing.StartMovesToTwo | python/editing.py:103-107 | the window start becomes the beginning of line two exactly when there is no newline before line one's own |
| Editing.TransposeBack | python/editing.py:95-127 | the same cells in the order prefix, two, one, rest; or, without a newline at the end of two, line one lost |
| Editing.LinkBehind | python/editing.py:116-127 | relinking through a circular list ends in a NULL-terminated chain with line one behind line two |
| Editing.TakeOut | python/editing.py:95-114 | half way: line one is out of the list but still leads to line two, at whose end point is |
| Editing.TransposeTwice | python/editing.py:88-128 | twice restores text and mark, with point at its line's beginning |
| Editing.TransposeTwiceRestores | python/editing.py:88-128 | twice restores the text exactly when the function does not raise |
| Editing.TradedLines | python/editing.py:112-127 | after the swap the two stretches are lines of the new text |
| Editing.FindWordEnd | python/editing.py:20-38 | the last cell of the next word, or None when there is none, and whether the mark is on any cell passed |
| Editing.ClipWord | python/editing.py:15-64 | exactly the cells forward_word would pass leave the buffer as a terminated list; point and any mark on them are at the cut; it raises exactly at the end of the buffer |
| Editing.WordIsGone | python/editing.py:15-64 | text, point and mark afterwards, by characters and places |
| Editing.WordClippedThenInserted | python/editing.py:15-64 | putting the word back restores the text with point where forward_word leaves it; no mark is ever lost |
| Sessions.StrandsMark | src/bindables.cc:60-150 | a command strands the mark exactly when it is a clip that takes something and the mark is on the last cell taken; clip_region does so exactly on the one character after the mark |
| Sessions.MarkStaysHome | src/bindables.cc:60-150 | the mark stays in the buffer all through a run exactly when no clip of the run ends on it |
| Sessions.RunsWithoutClips | src/bindables.cc:60-150 | runs without clip_line and clip_region are such runs |
| Sessions.MarkTrap | src/bindables.cc:129-150 | set_mark, forward_char, clip_region strands the mark; swap_positions would then put point outside the buffer, as Buffers.Buffer.SwapPositions shows |
| Sessions.RunAppend | src/Editor.cc:350-391 | runs compose |
| Sessions.ClipsJoin | src/Editor.cc:403-413 | two clips in a row make one ring entry |
| Sessions.NextKill | src/bindables.cc:60-82 | each further clip_line takes more of the original text into the same entry, or nothing at the end |
| Sessions.OneMorePiece | src/bindables.cc:60-82 | ... exactly one more newline or run of other characters |
| Sessions.Kills | src/bindables.cc:60-82 | n clip_line commands in a row remove the next n newlines and runs of other characters, or all there is, as one stretch from point on, and keep it in the ring |
| Sessions.KillsThenYank | src/bindables.cc:60-203 | n clip_line commands and a yank: what was removed is determined by the text and n, the front entry gained all of it, older entries stay, and the text is restored exactly when no earlier clip was appended to |
| Sessions.ClipRegionThenYank | src/bindables.cc:129-203 | the same for the region, with the mark on either side |
| Sessions.CopyKeepsText | src/bindables.cc:280-294 | copy_region leaves text, point and mark, and gives the ring what clip_region would |
| Sessions.SpotKept | src/Editor.cc:393-415 | adding a clip leaves a mark that is astray in the ring on the character it was on, or puts it on the clip's last one |
| Sessions.StrandedAtEnd | src/bindables.cc:60-150 | a mark that a clip strands is on the last character of the front entry, the one it was before in the text |
| Sessions.CopyFromStray | src/bindables.cc:280-294 | from the end of the buffer copy_region finds a stray mark: a new entry says what follows it in its own, and text and mark are as they were |
| Commands.TypingTypes | src/bindables.cc:10-97 | the key typed, or a newline for insert_newline, comes in at point and nothing else changes |
| Commands.BolGoesBack | src/bindables.cc:17-22 | to the nearest place behind a newline, or to the start |
| Commands.EolGoesOn | src/bindables.cc:24-29 | to the nearest newline, or to the end |
| Commands.CharsAndEnds | src/bindables.cc:39-234 | one character on or back within the text, and to either end of it |
| Commands.ForwardLineGoesDown | src/bindables.cc:99-104 | to the same column of the next line, or its end |
| Commands.BackwardLineGoesUp | src/bindables.cc:106-111 | to the same column of the previous line, or its end |
| Commands.LinesGoNoFurther | src/bindables.cc:99-111 | from the last line to the end, from the first to the start |
| Commands.BackwardWordGoesBack | src/bindables.cc:236-258 | over characters that are not alphanumeric and then to the beginning of a word, or to the start |
| Commands.ForwardWordGoesOn | src/bindables.cc:260-278 | over such characters and then to the end of a word, or to the end |
| Commands.SetMarkMarksPoint | src/bindables.cc:31-37 | the mark is at point, whatever it was |
| Commands.SwapExchanges | src/bindables.cc:182-190 | a set mark and point exchange places; without one nothing happens |
| Commands.CharsGo | src/bindables.cc:53-210 | clip_char takes the character at point, clip_char_back the one before, if there is one |
| Commands.ClipLineTakes | src/bindables.cc:60-82 | exactly the newline at point, or all up to the next one or the end, goes to a new entry or onto the front one |
| Commands.RegionGoes | src/bindables.cc:129-294 | what is between point and mark goes to the ring, out of the text for clip_region only |
| Commands.NoRegion | src/bindables.cc:129-294 | no mark, a mark at point, or a stray one looked for from inside: nothing happens |
| Commands.StrayRegion | src/bindables.cc:280-294 | from the end copy_region gives the ring what follows a stray mark in its entry |
| Commands.YankPutsBack | src/bindables.cc:192-203 | the front entry comes in before point |
| Commands.AppendIsGain | src/Editor.cc:363-415 | the next clip is appended exactly when this command gave the ring something |
| ClipRings.ClipRing.AddClip | src/Editor.cc:393-415 | the ring's texts, and the cells that say them, become what ClipAdded says, and the ring takes over the clip's cells |
| ClipRings.ClipRing.Append | src/Editor.cc:403-406 | the clip is linked to the end of the front entry, the other entries stay |
| ClipRings.ClipRing.Push | src/Editor.cc:407-412 | the front cons moves back as a copy: all older entries stay behind the new one |
| ClipRings.ClipRing.ListFrom | src/Editor.cc:393-415 | a cell in an entry of the ring heads a NULL-terminated list, the rest of that entry, which says the rest of its text |
| Editors.MoveBackwardWord | src/bindables.cc:236-258 | the loop ends where Words.BackwardWordLands says |
| Editors.MoveForwardWord | src/bindables.cc:260-278 | the loop ends where Words.ForwardWordLands says |
| Editors.Move | src/bindables.cc:17-278 | the motion commands on the heap, to the places Commands determines; only bob and eob move the window start, eob by the backward row search from the end |
| Editors.Editor.constructor | src/Editor.cc:50-63 | an editor with an empty ring |
| Editors.Editor.AddClip | src/Editor.cc:393-415 | adds to the ring cells that the buffer does not hold, and notes that a clip came last; a mark that the clip took away is on its last cell, and one astray before is on the cell it was on, wherever the entry is now |
| Editors.Editor.TakeClip | src/Buffer.cc:161-221 | what clip_to returns belongs to neither the buffer nor the ring any more |
| Editors.Editor.ClipLine | src/bindables.cc:60-82 | the newline at point, or what is left of the line without its newline, leaves the text and goes to the ring; a window start at point moves behind it |
| Editors.Editor.ClipRegion | src/bindables.cc:129-150 | everything between point and mark goes to the ring, and a window start at one end moves to the other; without a mark nothing happens, and with a stray mark only the window start may move |
| Editors.Editor.CopyRegion | src/bindables.cc:280-294 | a copy goes to the ring, the buffer stays; with a stray mark and point at the end it is a copy of what follows the mark in its clip; nothing happens without a mark, or with a stray one from inside the buffer |
| Editors.Editor.Yank | src/bindables.cc:192-203 | a copy of the front entry is inserted; buffer and ring stay disjoint; the window starts with it if it came to the front of a text |
| Editors.Editor.Execute | src/Editor.cc:363-369 | one round of the display loop on a command, with the append flag shadowed and reset; cells held are old ones or new; the window start stays but for clip_line, clip_region, yank, bob and eob |
| Editors.Editor.RunCommands | src/Editor.cc:350-391 | any run of the twenty commands keeps the invariant, a stray mark on its character of a clip included, and refines the run on texts |
| KeyMaps.BindKeepsTrie | src/Editor.cc:85-137 | if sequences led to others through maps only, they still do after a binding |
| KeyMaps.BindSays | src/Editor.cc:85-137 | an attempt changes nothing exactly when a function is on the way; else the sequence means what it was given, its beginnings maps, its continuations nothing, all others what they did |
| KeyMaps.BindAllKeepsTrie | src/Editor.cc:85-137 | ... and after any run of bindings |
| KeyMaps.PrefixFree | src/Editor.cc:218-258 | no bound sequence continues another |
| KeyMaps.RunsArePrefixFree | src/Editor.cc:85-137 | from an empty root on, no run of bindings makes one bound sequence continue another |
| KeyMaps.SeparateAllBound | src/Editor.cc:85-137 | sequences none of which continues another are all bound in the end, in any order |
| KeyMaps.NothingElseBound | src/Editor.cc:85-137 | ... and nothing else is bound to a function, nor are there other maps than on the way to them |
| KeyMaps.OneBoundBeginning | src/Editor.cc:218-258 | following maps finds the one bound beginning of the input, and none exactly when there is none |
| KeyMaps.BindThenType | src/Editor.cc:85-258 | a sequence that was bound and is typed runs its function after exactly its keys |
| KeyMaps.OpenedUpToFunction | src/Editor.cc:98-112 | when a function stops bind_sequence, no map had to be made before |
| KeyMaps.KeyBindings.constructor | src/Editor.cc:265-270 | an empty root table: nothing is bound |
| KeyMaps.KeyBindings.FreeKeyMap | src/Editor.cc:151-160 | a table is freed now exactly if it was before or it is reached from here without a last key, which the loop skips; none is freed twice |
| KeyMaps.KeyBindings.PathsToTables | src/Editor.cc:98-134 | every table is reached through tables |
| KeyMaps.KeyBindings.LedByMaps | src/Editor.cc:98-134 | whatever leads to a bound sequence is a map |
| KeyMaps.KeyBindings.BindKeyInMap | src/Editor.cc:168-190 | one sequence means the function now, its continuations nothing, all others what they did; the tables it led to are freed and none in use; the old parameter is returned |
| KeyMaps.GraftedIsTree | src/Editor.cc:198-216 | a tree of tables put in the place of what a slot led to makes a tree again, in which every table is reached by one path |
| KeyMaps.KeyBindings.BindKeyToMapInMap | src/Editor.cc:198-216 | the key leads to the table and all the tables below it: continuations mean what they mean from there on, all other sequences what they did; the tables it led to before are freed and none in use |
| KeyMaps.KeyBindings.BindKey | src/Editor.cc:145-149 | a key bound at the root, or nothing when it is out of range |
| KeyMaps.KeyBindings.NextTable | src/Editor.cc:101-130 | one prefix key: fails exactly on a function, leaves a map alone, makes one otherwise |
| KeyMaps.KeyBindings.LastTable | src/Editor.cc:94-130 | the prefix loop: fails exactly when part of the prefix is a function, and then no table has changed |
| KeyMaps.KeyBindings.BindSequence | src/Editor.cc:84-137 | on success the sequence means the function, its beginnings maps, its continuations nothing, all others what they did; 0 is returned exactly when part of the prefix is a function, with every table as it was |
| KeyMaps.KeyBindings.Interpret | src/Editor.cc:218-258 | terminates, reading keys while they mean maps |
| KeyMaps.KeyBindings.InterpretLastInput | src/Editor.cc:218-258 | from the root: runs the function of the unique bound beginning of the input, having read exactly that, or returns 3 exactly when there is none |

## Left out

- Distances.LineDistance: where TWO does not follow ONE and its cdr is neither ONE nor NULL, the second loop of `line_distance` (`src/Buffer.cc:633-646`) never advances and does not end; there is no result to state.
- ConsList.Distance: the same, where the cdr of TWO is neither ONE nor NULL (`include/Cons.h:156-164`).
- Distances.WindowLineDistance: with only ONE at NULL, or with cells of different lists, `src/Buffer.cc:712-720` takes the character of NULL; there is no result to state.
- Buffers.Buffer.ClipTo: a cell of another list is modelled only with point in the buffer; with point NULL the source looks for that cell in the buffer and walks off its end (`src/Buffer.cc:203-213`).
- Windows.PrepareShowsPoint: a start inside a line with point on an earlier line is left out, unless point is at the start of the text; the row search assumes the first column (`include/Buffer.h:96`) and from inside a line counts every line above from that column on.  The scroll margins leave the window a row.
- Windows.SupplyWindow.SupplyAll: the loop of the drawing code without its limit on rows and columns.
- Editors.Editor.RunCommands: a run must not give a stray mark to `swap_positions`, which takes point out of the buffer (`Buffers.Buffer.SwapPositions`), nor to `clip_region` with point at the end, which walks off the buffer.
- Editors.Editor.Execute: the command is given; that keys lead to commands is `KeyMaps`.
- Rows.BackwardRows: point is in the first column of a line, as the source assumes; the method itself is modelled from any column.
- KeyMaps.KeyBindings.BindSequence: keys are table indices; negative or too large characters index outside the source's table.  Functions are numbers, a NULL function has no parameter, and a function is never `interpret_last_input` itself.
- KeyMaps.KeyBindings.BindKeyToMapInMap: the tables bound form a tree of their own; tables shared between keys and keys that lead back to the root, after which `free_key_map` need not end, are not modelled.
- KeyMaps.KeyBindings.InterpretLastInput: the display and the echo between keys, and what the function run does.
- Buffers.Buffer.CurrentColumn: the tab width is set once, when the editor makes the buffer (`src/CursedEditor.cc:70`).
- Characters are characters: the source keeps them as pointers, and key codes above 255 that get typed in are not modelled.
- `isalnum` is that of the C locale.
- Allocation failure, destructors and leaks; a cell or table that is deleted is dropped from what is in use.
- The goto loops of `clip_to`, `copy_to` and `window_line_distance` and the `first` flag of the row search are written as a call of one loop for each of the two passes.
- `window->start` is not in the editor's invariant, because `clip_char` can delete its cell; `prepare` takes it as given.
- `transpose_chars`, window pages, `center`, mode lines, the command line: easy, or without a crisp law.
- File input and output, curses, signals, the GTK front end, the Python embedding and its reference counts, the CERN, GMP and PPL demos.
- `push_input`, whose shift is not sequenced (`src/Editor.cc:73-74`).
