# Verified models of the editor engine, the popup and select helpers, and the book–author association

The editing pages of this application ship the CodeMirror 5.65.12 document engine as one minified file; every citation of
that file is line 1, with the minified name given in the third column.  Next to it are two algorithms of the bundled
application script (the modifier ordering of Popper and the string cuttings of Tom Select, both on line 2) and two of the
project's own entities.

The models keep the form of the code.  Chunks, lines, the document, the editor, the display, a token stream, books and
authors are classes whose methods update fields; positions, edits, ranges, spans, history entries and modifiers are
values.  What an operation does to the heap is stated against plain values: the tree keeps, for the proof only, its shape
(`Graphs.Graph`: children, lines, parents, a rank that grows towards the root, heights), and the editor keeps the texts
that undoing and redoing lead to.

| file | content |
|---|---|
| `Positions.dfy`, `Texts.dfy`, `Changes.dfy` | positions, documents as sequences of lines, edits as splices, where positions go |
| `Lists.dfy`, `Wrappers.dfy` | lists without repetition, splices of lists; `Option` |
| `Graphs.dfy`, `Shapes.dfy`, `Walks.dfy` | shapes of trees and what updates do to them; numbers of children and lines; visits, look-ups by number and height |
| `LineTree.dfy`, `Documents.dfy` | the B-tree of chunks and lines; the document on top of it and `updateDoc` |
| `HistoryLog.dfy`, `Records.dfy` | the record of edits and where its events lead; what every operation does to any record, sound or not |
| `Runs.dfy`, `Keystrokes.dfy` | what runs keep and which run breaks it; which edits and selections join, where undo and redo put the selection |
| `Histories.dfy` | the editor with undo, redo, generations and the clean state |
| `Sessions.dfy` | document and history together: edits, undo, redo and whole runs on the tree |
| `Selections.dfy`, `Cursors.dfy` | normalizing selections; replacing several ranges at once |
| `Views.dfy` | the window of lines that is shown, kept in step with the document |
| `Spans.dfy` | marked ranges across edits and their undo |
| `Columns.dfy` | columns with tabs |
| `Modifiers.dfy`, `Cuttings.dfy` | Popper's ordering; Tom Select's cuttings |
| `Library.dfy` | books and authors |

## Main results

* A tree is *whole* (`LineTree.Whole`) when the children of a branch are distinct and point back to it, every chunk but the
  root is a child of its parent, the lines of a branch are those of its children in order, every cached size and height is
  the sum over the lines below, and the lines of a leaf are distinct, point to it and have the recorded heights.  Inserting,
  removing, splitting, spilling, collapsing and changing a height keep the tree whole; leaves hold 1 to 50 lines, branches 1
  to 10 children.  `maybeSpill` terminates although spilling the root calls it on the root again: the distance to the root
  shrinks, or at the root the number of children.
* `updateDoc` has the effect of a splice in every branch, on the lines and on the joined string, and leaves the line objects
  outside the edit alone; the view window relies on this.
* Each undo restores exactly the text before the whole event, and k redos after k undos change nothing.  Over any run of
  edits, selections, undos, redos, closings and marks in which no selection takes the place of an event above another event,
  no undo throws, a generation number stands for one text, whatever is merged or dropped, and a document that is clean shows
  the text of the last mark (`Runs.RunSound`, `Runs.SameGeneration`, `Runs.CleanShowsMark`, `Histories.Editor.Run`).
* Of two edits one right after the other, one undo takes both back exactly if they share the operation, or an origin that
  starts with a star, or with a plus and less than the delay has passed; an undo, a redo, a closing mark or a moved cursor
  ends this (`Keystrokes.SecondEdit`, `Keystrokes.EditAfterStop`, `Keystrokes.EditAfterMove`).  Undo puts the selection back
  to the one before the event and redo to the one right after it, wherever the cursor has been in between
  (`Keystrokes.SelectionReturns`, `Histories.Editor.UndoThenRedo`).
* All of this holds of the tree as well: `Sessions.Session` carries out edits, undos and redos on the document through
  `updateDoc`, and the tree shows the text of the history throughout, also where the record is no longer sound.
* Range i of a multiple replacement covers exactly text i, although the edits are made from the last to the first and the
  positions are computed from the first to the last; made on the tree in one operation, one undo takes all of them back
  (`Sessions.Session.ReplaceSelections`, `Sessions.Session.ReplaceAndUndo`).
* Every edit but a replacement of the whole text, which drops the marks, moves every marked range and every bookmark to where
  its flags say, with a span on exactly the lines between its ends (`Spans.RangeFollows`, `Spans.BookmarkFollows`).  Undoing
  any number of edits of either kind, or text typed and merged into one, brings ranges and bookmarks back as they were
  (`Spans.RangeReturns`, `Spans.BookmarkReturns`, `Spans.TypingReturns`), with the one exception named below; markers that
  have been cleared stay away (`Spans.ClearedStayAway`).

## What the code does not keep

Where a property fails, the model follows the code and the exact condition is proved.

* `addSelectionToHistory` replaces the entry on top of the record without looking at it.  After an edit, an undo, a redo and
  a selection within one operation this is an event, which is lost (`Histories.LostEvent`).  The record stays sound exactly
  if the replaced entry is not an event (`Histories.Editor.AddSelection`).
* If there is another event below the lost one, the next undo carries that event out on a text it was not made for and takes
  over its generation.  The text is the one of this generation exactly if the event leads there from the current text as
  well as from the text that the lost event led to (`Runs.SpoiledUndo`).  So a document can be clean without showing the
  marked text: `Runs.SpoiledRun` for any text and any two edits, `Runs.FalseClean` and `Histories.FalselyClean` for the
  empty document and the insertions of a and b, after which the document is clean and shows a.
* Undoing a deletion over the end of a line, with nothing inserted, may give a range spans on lines where it had none, and a
  bookmark a second place: `mergeOldSpans` adds the stretched span wherever the line had no old one.
  `Spans.RangeRestored` and `Spans.BookmarkRestored` say exactly when; `Spans.SpreadRange` is a range over one line that
  ends up on two.
* A document marked clean is clean again after an edit and its undo exactly if the record may hold more than one entry
  (`Histories.Editor.CleanAgain`); with a limit of one or less every event is dropped at once.
* After a full replacement by a shorter text, what is left of the view lies behind the end of the document; it is right
  exactly if the new document is at least as long as the view reached (`Views.Display.RegAll`).  Later edits keep this, and
  `adjustView` builds the view anew (`Views.Display.Adjust`).  `Views.StaleView` reaches such a view.
* The column cache of the token stream is right exactly as long as tokens do not start before the one last asked for
  (`Columns.Stream.TokenColumn`); `Columns.EarlierToken` reaches a wrong column.
* `indexFromPos` after `posFromIndex` gives back an index exactly if it falls into a line or right behind it
  (`Changes.OffsetOfPos`); an index between the two characters of a separator does not come back
  (`Changes.BetweenSeparatorCharacters`).  In the other order they are inverse on all positions.
* An author may go on listing a book that does not list the author, and adding the book to the author does not repair it
  (`Library.OneSided`).

## Model

| member | source | states |
|---|---|---|
| `Texts.BetweenCat` | bbl_articles/public/bundles/easyadmin/field-code-editor.6507533d.js:1 | `getBetween` (`tt`): the text between two positions is what, put between the text before the first and the text after the second, gives back the document |
| `Texts.SpliceIsStringSplice` | bbl_articles/public/bundles/easyadmin/field-code-editor.6507533d.js:1 | `updateDoc` (`bo`), on lines: the joined text becomes value[..i] + text + value[j..], where i and j are the offsets of the ends of the edit |
| `Changes.ChangeEndIsEnd` | bbl_articles/public/bundles/easyadmin/field-code-editor.6507533d.js:1 | `changeEnd` (`po`): the position where the text before the edit and the inserted text together end |
| `Changes.InverseUndoes` | bbl_articles/public/bundles/easyadmin/field-code-editor.6507533d.js:1 | `historyChangeFromChange` (`Mo`): the inverse edit is valid after the edit, gives back the document, and its own inverse is the edit |
| `Changes.AdjustKeepsText` | bbl_articles/public/bundles/easyadmin/field-code-editor.6507533d.js:1 | `adjustForChange` (`fo`): every valid position becomes a valid one; outside the edit it keeps the text before it or the text after it, inside it goes to the end of the inserted text |
| `Changes.AdjustOffset` | bbl_articles/public/bundles/easyadmin/field-code-editor.6507533d.js:1 | `adjustForChange` (`fo`), in offsets of the joined text: the shift by the difference of the two lengths |
| `Changes.AdjustMonotone` | bbl_articles/public/bundles/easyadmin/field-code-editor.6507533d.js:1 | `adjustForChange` (`fo`) never swaps two positions in the order `cmp` (`ct`) |
| `Changes.ClipPosIsRetraction` | bbl_articles/public/bundles/easyadmin/field-code-editor.6507533d.js:1 | `clipPos` (`ht`): the result is valid, valid positions and only these stay, and the order is kept |
| `Changes.IndexFromPos` | bbl_articles/public/bundles/easyadmin/field-code-editor.6507533d.js:1 | `indexFromPos`: the offset of the clipped position in the joined text |
| `Changes.PosFromIndex` | bbl_articles/public/bundles/easyadmin/field-code-editor.6507533d.js:1 | `posFromIndex`: the last position whose offset does not exceed the index; the start for a negative index |
| `Changes.PosOfOffset` | bbl_articles/public/bundles/easyadmin/field-code-editor.6507533d.js:1 | `posFromIndex` after `indexFromPos` is the identity on valid positions |
| `Changes.OffsetOfPos` | bbl_articles/public/bundles/easyadmin/field-code-editor.6507533d.js:1 | `indexFromPos` after `posFromIndex` gives back an index exactly if the index falls into a line or right behind it, for every separator that is not empty |
| `Changes.OffsetOfPosShort` | bbl_articles/public/bundles/easyadmin/field-code-editor.6507533d.js:1 | the same for a separator of one character: exactly the indices within the text come back |
| `Changes.BetweenSeparatorCharacters` | bbl_articles/public/bundles/easyadmin/field-code-editor.6507533d.js:1 | for the lines a and b and the separator of carriage return and line feed, index 2 lies within the text and does not come back |
| `LineTree.Chunk.Leaf` | bbl_articles/public/bundles/easyadmin/field-code-editor.6507533d.js:1 | `LeafChunk` (`pa`): height is the sum over the lines, every line points to the leaf |
| `LineTree.Chunk.Branch` | bbl_articles/public/bundles/easyadmin/field-code-editor.6507533d.js:1 | `BranchChunk` (`fa`): size and height are the sums over the children, every child points to the branch |
| `LineTree.Chunk.MoveLastFive` | bbl_articles/public/bundles/easyadmin/field-code-editor.6507533d.js:1 | `maybeSpill`, one turn below the root: the last five children go to a new sibling right behind, which takes their size and height along |
| `LineTree.Chunk.AddLevel` | bbl_articles/public/bundles/easyadmin/field-code-editor.6507533d.js:1 | `maybeSpill`, the turn at the root: all children go to two new branches, the last five to the second |
| `LineTree.Chunk.MaybeSpill` | bbl_articles/public/bundles/easyadmin/field-code-editor.6507533d.js:1 | `maybeSpill`: terminates, no branch has more than ten children afterwards, the tree is well-formed and has the same lines in the same leaves |
| `LineTree.Chunk.CutLeaf` | bbl_articles/public/bundles/easyadmin/field-code-editor.6507533d.js:1 | `insertInner` of a branch, a leaf of more than 50 lines: it keeps 25 to 49 of them and new leaves right behind take the rest |
| `LineTree.Chunk.CutPiece` | bbl_articles/public/bundles/easyadmin/field-code-editor.6507533d.js:1 | `insertInner` of a branch: each new leaf takes exactly the next 25 lines and their height |
| `LineTree.Chunk.InsertLines` | bbl_articles/public/bundles/easyadmin/field-code-editor.6507533d.js:1 | `insertInner` of a leaf: the lines are inserted, the height grows, the new lines point to the leaf |
| `LineTree.Chunk.InsertInner` | bbl_articles/public/bundles/easyadmin/field-code-editor.6507533d.js:1 | `insertInner` of a branch: afterwards the tree is whole (structure, sizes, heights, parents, lines), its lines are the splice, leaves hold 1 to 50 lines and branches 1 to 10 children |
| `LineTree.Chunk.RemoveLines` | bbl_articles/public/bundles/easyadmin/field-code-editor.6507533d.js:1 | `removeInner` of a leaf: the lines go, the height shrinks by theirs, and they lose their parent |
| `LineTree.Chunk.RemoveTurn` | bbl_articles/public/bundles/easyadmin/field-code-editor.6507533d.js:1 | `removeInner` of a branch, one turn of its loop: the child loses as many lines as it has from there on, or as are left to remove, and leaves the branch exactly if these are all it has |
| `LineTree.Chunk.RemoveInner` | bbl_articles/public/bundles/easyadmin/field-code-editor.6507533d.js:1 | `removeInner` of a branch: it loses exactly the lines asked for, everything outside it stays as it was, leaves are not empty unless the branch is, and the sizes, heights and parents below it are right; with fewer than 25 lines left it has one child, a leaf |
| `LineTree.Chunk.Gather` | bbl_articles/public/bundles/easyadmin/field-code-editor.6507533d.js:1 | `collapse`: the lines under a chunk in order |
| `LineTree.Chunk.Shrink` | bbl_articles/public/bundles/easyadmin/field-code-editor.6507533d.js:1 | `removeInner` of a branch, its end: with fewer than 25 lines left the branch has one child, a leaf, and otherwise nothing changes; the lines stay |
| `LineTree.Chunk.IterN` | bbl_articles/public/bundles/easyadmin/field-code-editor.6507533d.js:1 | `iterN`: sees the lines of the range in order, up to and including the first at which the callback says stop, and reports whether there was one |
| `LineTree.Chunk.AddHeight` | bbl_articles/public/bundles/easyadmin/field-code-editor.6507533d.js:1 | `updateLineHeight` (`nt`), its loop: the chunk and exactly the chunks above it change by the difference |
| `LineTree.HeldOwned` | bbl_articles/public/bundles/easyadmin/field-code-editor.6507533d.js:1 | in a well-formed tree no line is under a chunk twice, and every line is in the leaf it points to |
| `Walks.UptoIsPrefix` | bbl_articles/public/bundles/easyadmin/field-code-editor.6507533d.js:1 | `iterN`: what a visit sees is the prefix that ends with the first stop, or everything |
| `Walks.LineAtIsUnique` | bbl_articles/public/bundles/easyadmin/field-code-editor.6507533d.js:1 | `lineAtHeight` (`ot`): exactly one line satisfies its contract, and for a height within the document it is the line around that height |
| `Walks.LineAtAbove` | bbl_articles/public/bundles/easyadmin/field-code-editor.6507533d.js:1 | `lineAtHeight` (`ot`) of `heightAtLine` (`lr`) of a line of positive height is that line |
| `Documents.Doc.LinesOwned` | bbl_articles/public/bundles/easyadmin/field-code-editor.6507533d.js:1 | no line is in a document twice |
| `Documents.Doc.Empty` | bbl_articles/public/bundles/easyadmin/field-code-editor.6507533d.js:1 | `Doc` (`Ma`): a new document is a whole tree with one empty line of height 1 |
| `Documents.NewDoc` | bbl_articles/public/bundles/easyadmin/field-code-editor.6507533d.js:1 | `Doc` (`Ma`): a new document shows the text it is given |
| `Documents.Doc.Insert` | bbl_articles/public/bundles/easyadmin/field-code-editor.6507533d.js:1 | `insert` of `Doc` (`Ma`): the lines of the document become the splice, and the tree stays whole and balanced |
| `Documents.Doc.Remove` | bbl_articles/public/bundles/easyadmin/field-code-editor.6507533d.js:1 | `remove` of `Doc` (`Ma`): the lines of the document without the range; the tree stays whole and balanced, and a document of fewer than 25 lines is one leaf; without lines it keeps one empty leaf |
| `Documents.Doc.GetLine` | bbl_articles/public/bundles/easyadmin/field-code-editor.6507533d.js:1 | `getLine` (`et`): the line with that number, and nothing for a number out of range |
| `Documents.Doc.LineNo` | bbl_articles/public/bundles/easyadmin/field-code-editor.6507533d.js:1 | `lineNo` (`it`): the number of the line, and nothing for a line without a parent |
| `Documents.Doc.HeightAtLine` | bbl_articles/public/bundles/easyadmin/field-code-editor.6507533d.js:1 | `heightAtLine` (`lr`): the sum of the heights of the lines above |
| `Documents.Doc.LineAtHeight` | bbl_articles/public/bundles/easyadmin/field-code-editor.6507533d.js:1 | `lineAtHeight` (`ot`): the first line that ends below the height, or the number of lines; also for negative heights |
| `Documents.Doc.UpdateLineHeight` | bbl_articles/public/bundles/easyadmin/field-code-editor.6507533d.js:1 | `updateLineHeight` (`nt`): one line gets another height, the lines stay, and every chunk's height is again the sum |
| `Documents.Doc.UpdateLine` | bbl_articles/public/bundles/easyadmin/field-code-editor.6507533d.js:1 | `updateLine` (`pr`): text and estimated height of one line |
| `Documents.Doc.ReplaceInLine` | bbl_articles/public/bundles/easyadmin/field-code-editor.6507533d.js:1 | `updateDoc` (`bo`), one line in and one out: the line objects stay |
| `Documents.Doc.SplitLine` | bbl_articles/public/bundles/easyadmin/field-code-editor.6507533d.js:1 | `updateDoc` (`bo`), one line in and several out: the first keeps its line object, the others are new |
| `Documents.Doc.JoinLines` | bbl_articles/public/bundles/easyadmin/field-code-editor.6507533d.js:1 | `updateDoc` (`bo`), several lines in and one out: the first keeps its line object, the others go |
| `Documents.Doc.ReplaceLines` | bbl_articles/public/bundles/easyadmin/field-code-editor.6507533d.js:1 | `updateDoc` (`bo`), several lines in and several out: the first and the last keep their line objects, the others are new |
| `Documents.Doc.ReplaceWhole` | bbl_articles/public/bundles/easyadmin/field-code-editor.6507533d.js:1 | `updateDoc` (`bo`), whole lines (`_o`): the line behind the edit keeps its object and its text, new lines come before it |
| `Documents.Doc.ReplaceAll` | bbl_articles/public/bundles/easyadmin/field-code-editor.6507533d.js:1 | `updateDoc` (`bo`), the full replacement: insert first, then remove the rest; all line objects are new |
| `Documents.Doc.UpdateDoc` | bbl_articles/public/bundles/easyadmin/field-code-editor.6507533d.js:1 | `updateDoc` (`bo`), every branch: the texts become the splice; lines outside the edit are the same objects with the same text and height, the others have their estimated height, and which of the line objects at its ends stay is said; the tree stays whole and balanced |
| `Documents.Doc.UpdateValue` | bbl_articles/public/bundles/easyadmin/field-code-editor.6507533d.js:1 | `updateDoc` (`bo`): the value of the document becomes value[..i] + text + value[j..] |
| `Documents.Doc.GetLines` | bbl_articles/public/bundles/easyadmin/field-code-editor.6507533d.js:1 | `getLines` (`rt`): the texts of the lines of a range in order |
| `Documents.Doc.GetBetween` | bbl_articles/public/bundles/easyadmin/field-code-editor.6507533d.js:1 | `getBetween` (`tt`): the lines between two positions, the first and the last cut |
| `Documents.Doc.GetValue` | bbl_articles/public/bundles/easyadmin/field-code-editor.6507533d.js:1 | `getValue`: the texts joined with the separator |
| `HistoryLog.UndoesMore` | bbl_articles/public/bundles/easyadmin/field-code-editor.6507533d.js:1 | `addChangeToHistory` (`zo`), pushing an inverse edit: the event still leads to where it led |
| `HistoryLog.InsertionMerges` | bbl_articles/public/bundles/easyadmin/field-code-editor.6507533d.js:1 | `addChangeToHistory` (`zo`), extending `a.to` for an adjacent insertion: undoing the longer edit is undoing both |
| `HistoryLog.StackEvents` | bbl_articles/public/bundles/easyadmin/field-code-editor.6507533d.js:1 | every event of the record leads to one text, and the record starts with a selection |
| `HistoryLog.StackShiftEvent` | bbl_articles/public/bundles/easyadmin/field-code-editor.6507533d.js:1 | `addChangeToHistory` (`zo`), dropping the oldest event: the others lead where they led |
| `Histories.DropSelections` | bbl_articles/public/bundles/easyadmin/field-code-editor.6507533d.js:1 | `clearSelectionEvents` (`To`): exactly the selections on top go |
| `Histories.LastChangeEvent` | bbl_articles/public/bundles/easyadmin/field-code-editor.6507533d.js:1 | `lastChangeEvent` (`Lo`): found exactly if there is an event on top or under one selection, or, when forced, anywhere; only selections are dropped |
| `Histories.Merge` | bbl_articles/public/bundles/easyadmin/field-code-editor.6507533d.js:1 | `addChangeToHistory` (`zo`), merging: only the top event changes: its last edit gets longer for an insertion right behind, and otherwise one inverse edit is added |
| `Records.JoinedStack` | bbl_articles/public/bundles/easyadmin/field-code-editor.6507533d.js:1 | `addChangeToHistory` (`zo`), merging: the event leads from the new text to where it led before, and so do the events below |
| `Histories.NewEvent` | bbl_articles/public/bundles/easyadmin/field-code-editor.6507533d.js:1 | `addChangeToHistory` (`zo`), a new event: the record gets a selection, unless one is on top, and the event with its generation; with more entries than the limit only the end of this is left, no shorter than it has to be, and with a limit of one or less nothing |
| `Histories.Truncate` | bbl_articles/public/bundles/easyadmin/field-code-editor.6507533d.js:1 | `addChangeToHistory` (`zo`), the limit: the oldest entries go, no more than needed, events together with the selection below them; with a limit of one or less nothing remains |
| `Records.TruncatedStack` | bbl_articles/public/bundles/easyadmin/field-code-editor.6507533d.js:1 | `addChangeToHistory` (`zo`), the limit: the events that are left lead where they led; the newest one stays for a limit above one |
| `Records.RecordedStack` | bbl_articles/public/bundles/easyadmin/field-code-editor.6507533d.js:1 | `addChangeToHistory` (`zo`), all of it: undoing leads to the texts it led to, and to the one before the edit first unless the edit was merged; a limit drops the oldest |
| `Histories.Revert` | bbl_articles/public/bundles/easyadmin/field-code-editor.6507533d.js:1 | `makeChangeFromHistory` (`na`), its loop, for any edits and any text: those that do not fit are cut as `makeChangeSingleDoc` (`oa`) cuts them, and one without text throws |
| `Records.RevertedUndoes` | bbl_articles/public/bundles/easyadmin/field-code-editor.6507533d.js:1 | `makeChangeFromHistory` (`na`), its loop: edits that lead to a text can be carried out, and the edits recorded on the way lead back |
| `Records.TravelledStack` | bbl_articles/public/bundles/easyadmin/field-code-editor.6507533d.js:1 | `makeChangeFromHistory` (`na`): an event goes from one stack to the other, the text becomes the one it led to, and both stacks lead to the remaining texts and to the text left |
| `Records.StepReady` | bbl_articles/public/bundles/easyadmin/field-code-editor.6507533d.js:1 | every operation on any record keeps its shape: a selection below every event, events with edits and a generation |
| `Histories.Editor.MakeChange` | bbl_articles/public/bundles/easyadmin/field-code-editor.6507533d.js:1 | `makeChangeInner` (`ra`) with `addChangeToHistory` (`zo`), on any record: the state afterwards; on a sound one undoing leads to the text before the edit, or where it led if the edit was merged, and the generation is new; which edits are merged is said by `Keystrokes.SecondEdit` and the rows after it |
| `Keystrokes.SecondEdit` | bbl_articles/public/bundles/easyadmin/field-code-editor.6507533d.js:1 | `addChangeToHistory` (`zo`), on any sound record with room: of two edits one right after the other, one undo takes both back exactly if they were made in the same operation, or have the same origin and this starts with a star, or with a plus and less than `historyEventDelay` has passed |
| `Histories.TypeTwice` | bbl_articles/public/bundles/easyadmin/field-code-editor.6507533d.js:1 | the same of a new editor, in operations, origins and times: the text after two edits and an undo |
| `Keystrokes.EditAfterStop` | bbl_articles/public/bundles/easyadmin/field-code-editor.6507533d.js:1 | `lastOrigin` after `makeChangeFromHistory` (`na`) and `changeGeneration`: after an undo or redo an edit in another operation, and after a closing mark any edit, is taken back alone |
| `Keystrokes.EditAfterMove` | bbl_articles/public/bundles/easyadmin/field-code-editor.6507533d.js:1 | `lastChangeEvent` (`Lo`): after an edit and a new selection, not in the same operation or of the same origin, an edit in another operation is taken back alone |
| `Keystrokes.EmptyEdit` | bbl_articles/public/bundles/easyadmin/field-code-editor.6507533d.js:1 | `makeChangeInner` (`ra`): an edit that takes nothing out and puts nothing in changes nothing, in the record either |
| `Histories.Editor.Undo` | bbl_articles/public/bundles/easyadmin/field-code-editor.6507533d.js:1 | `makeChangeFromHistory` (`na`), on any record: the state afterwards, or where it throws; on a sound one it does not, the text becomes the one before the whole last event, by the edits handed out, from the last to the first, with the generation that text had, and the event can be redone |
| `Histories.Editor.Redo` | bbl_articles/public/bundles/easyadmin/field-code-editor.6507533d.js:1 | `makeChangeFromHistory` (`na`), in the other direction; which selection it leads to is said by `Keystrokes.SelectionReturns` |
| `Histories.Editor.UndoThenRedo` | bbl_articles/public/bundles/easyadmin/field-code-editor.6507533d.js:1 | k undos and k redos lead back to the text, and to the same pasts and futures; the selection is the one right after the last event |
| `Histories.Editor.MoveAndReturn` | bbl_articles/public/bundles/easyadmin/field-code-editor.6507533d.js:1 | an edit, selections that do not take the place of another, an undo (`na`) and a redo: the undo goes back to the selection before the edit, if that made an event of its own, and the redo to the one right after it |
| `Keystrokes.SelectionReturns` | bbl_articles/public/bundles/easyadmin/field-code-editor.6507533d.js:1 | the same as a law of the operations on any sound record (`zo`, `Ao`, `qo`, `na`): which selection is the one before the edit is said too |
| `Keystrokes.TravelledSelections` | bbl_articles/public/bundles/easyadmin/field-code-editor.6507533d.js:1 | `makeChangeFromHistory` (`na`): the selection below the event becomes current and stays on top; the one that was right above it goes below it on the other stack |
| `Keystrokes.ShiftedAll` | bbl_articles/public/bundles/easyadmin/field-code-editor.6507533d.js:1 | `makeChangeFromHistory` (`na`) with `pushSelectionToHistory` (`qo`): all selections above the event go to the other stack, in turn |
| `Histories.Editor.UndoAll` | bbl_articles/public/bundles/easyadmin/field-code-editor.6507533d.js:1 | k undos lead to the text k events ago |
| `Histories.Editor.ChangeGeneration` | bbl_articles/public/bundles/easyadmin/field-code-editor.6507533d.js:1 | `changeGeneration`: the number that stands for the current text; when closed, no later edit is merged |
| `Histories.Editor.MarkClean` | bbl_articles/public/bundles/easyadmin/field-code-editor.6507533d.js:1 | `markClean`: the document is clean, and the marked text is the current one |
| `Histories.Editor.CleanText` | bbl_articles/public/bundles/easyadmin/field-code-editor.6507533d.js:1 | `isClean`, in a sound record: true implies that the text is the one at the last mark (a ghost field that only `MarkClean` writes), or the one the given generation stood for |
| `Histories.Editor.Run` | bbl_articles/public/bundles/easyadmin/field-code-editor.6507533d.js:1 | `isClean` over any run of edits, selections, undos, redos, closings and marks on any record: the state afterwards; without a selection in the place of an event above another event nothing throws, the generation of the start comes back only with the text of the start, and a clean document shows the text of the last mark |
| `Runs.SelectedSound` | bbl_articles/public/bundles/easyadmin/field-code-editor.6507533d.js:1 | `addSelectionToHistory` (`Ao`): the record leads where it led exactly if the selection does not take the place of an event; if that was the only event, it leads nowhere and is sound all the same |
| `Runs.RunSound` | bbl_articles/public/bundles/easyadmin/field-code-editor.6507533d.js:1 | any run without a selection in the place of an event above another event: nothing throws, the record is sound, and generations keep their texts |
| `Runs.SameGeneration` | bbl_articles/public/bundles/easyadmin/field-code-editor.6507533d.js:1 | `isClean` with a generation: in such a run a generation that comes back brings its text back |
| `Runs.CleanShowsMark` | bbl_articles/public/bundles/easyadmin/field-code-editor.6507533d.js:1 | `markClean` and `isClean`: after such a run a clean document shows the text it had at the last mark |
| `Runs.SpoiledUndo` | bbl_articles/public/bundles/easyadmin/field-code-editor.6507533d.js:1 | `addSelectionToHistory` (`Ao`) over an event above another event, and `makeChangeFromHistory` (`na`): the undo takes over a generation, and the text is the one of that generation exactly if the event leads from the current text to where it leads from the text of the lost event |
| `Runs.SpoiledRun` | bbl_articles/public/bundles/easyadmin/field-code-editor.6507533d.js:1 | `addSelectionToHistory` (`Ao`), for any text and any two edits: an edit; in a second operation an edit, an undo, a redo and a selection; then an undo: the document is clean and shows the text after both edits with the first one taken out of it |
| `Runs.FalseClean` | bbl_articles/public/bundles/easyadmin/field-code-editor.6507533d.js:1 | the same from the empty document with insertions of a and b: clean, and the text is a |
| `Histories.Editor.CleanAgain` | bbl_articles/public/bundles/easyadmin/field-code-editor.6507533d.js:1 | after a mark, any edit and its undo, the document is clean exactly if the record may hold more than one entry, and then shows the marked text |
| `Histories.Editor.AddSelection` | bbl_articles/public/bundles/easyadmin/field-code-editor.6507533d.js:1 | `addSelectionToHistory` (`Ao`), on any record: the state afterwards; a sound record stays sound exactly if the entry replaced is not an event |
| `Histories.Editor.ReplaceSelection` | bbl_articles/public/bundles/easyadmin/field-code-editor.6507533d.js:1 | `setSelectionReplaceHistory` (`$o`), on any record: the selection takes the place of a selection on top and otherwise goes the way of `addSelectionToHistory`; the redo record loses its selections only in that case and if asked to; a sound record stays sound under the same condition |
| `Keystrokes.SelectionAfterEdit` | bbl_articles/public/bundles/easyadmin/field-code-editor.6507533d.js:1 | `addSelectionToHistory` (`Ao`) right after an edit: the selection takes the place of the one after the edit exactly if it shares the operation or the origin |
| `Keystrokes.SecondSelection` | bbl_articles/public/bundles/easyadmin/field-code-editor.6507533d.js:1 | `addSelectionToHistory` (`Ao`) with `selectionEventCanBeMerged` (`Do`): of two selections the second takes the place of the first exactly if they share the operation, or an origin that starts with a star, or with a plus for selections of the same kind within the delay, or that is the origin of an edit made at the time of the first |
| `Keystrokes.SelectionAfterStop` | bbl_articles/public/bundles/easyadmin/field-code-editor.6507533d.js:1 | `lastSelOrigin` and `lastSelOp` after `makeChangeFromHistory` (`na`) and `changeGeneration`: the next selection of another operation, or without an origin, is put on top |
| `Histories.LostEvent` | bbl_articles/public/bundles/easyadmin/field-code-editor.6507533d.js:1 | an edit, an undo, a redo and a selection in one operation: `addSelectionToHistory` (`Ao`) replaces the event, which can no longer be undone |
| `Histories.FalselyClean` | bbl_articles/public/bundles/easyadmin/field-code-editor.6507533d.js:1 | `isClean`: the run of `Runs.FalseClean` on an editor: marked empty, clean, and the text is a |
| `Sessions.Session.MakeChange` | bbl_articles/public/bundles/easyadmin/field-code-editor.6507533d.js:1 | `makeChangeInner` (`ra`) on the tree of lines: record and tree show the same text after every edit, on any record; on a sound one undoing leads back to the text the tree showed, or where it led if the edit was merged; generations, mark and merging as in the record |
| `Sessions.Session.EditTree` | bbl_articles/public/bundles/easyadmin/field-code-editor.6507533d.js:1 | `makeChangeSingleDoc` (`oa`): an edit on the tree as far as it fits: none behind the last line, and cut at the ends of lines and of the document |
| `Records.AppliedIs` | bbl_articles/public/bundles/easyadmin/field-code-editor.6507533d.js:1 | `makeChangeSingleDoc` (`oa`), in texts: what is left before and behind the two ends, cut to the document, and the inserted text between; over the end of the document only its first line |
| `Records.ReplacementIs` | bbl_articles/public/bundles/easyadmin/field-code-editor.6507533d.js:1 | `replaceRange`: for positions in order the edit between them; swapping them changes nothing, and positions outside are cut |
| `Sessions.Session.Undo` | bbl_articles/public/bundles/easyadmin/field-code-editor.6507533d.js:1 | `makeChangeFromHistory` (`na`) on the tree of lines, edit by edit through `updateDoc` (`bo`), on any record; with a sound one the tree shows exactly the text before the whole last event, and the record has moved by one |
| `Sessions.Session.Redo` | bbl_articles/public/bundles/easyadmin/field-code-editor.6507533d.js:1 | `makeChangeFromHistory` (`na`) on the tree, in the other direction |
| `Sessions.Session.UndoThenRedo` | bbl_articles/public/bundles/easyadmin/field-code-editor.6507533d.js:1 | k undos and k redos lead the tree back to the text it showed |
| `Sessions.Session.ThereAndBack` | bbl_articles/public/bundles/easyadmin/field-code-editor.6507533d.js:1 | an edit and its undo on the tree: it shows the text before the edit if that made an event with room in the record, and where the event led before if it was merged |
| `Sessions.Session.Run` | bbl_articles/public/bundles/easyadmin/field-code-editor.6507533d.js:1 | any run on the tree: it shows the text of the history, and without a selection in the place of an event above another event the generation of the start brings the text of the start back and a clean tree shows the text of the last mark |
| `Sessions.Session.ReplaceSelections` | bbl_articles/public/bundles/easyadmin/field-code-editor.6507533d.js:1 | `replaceSelections` on the tree, in one operation: the edits from the last to the first, every range of the result at its own text, and one event that leads back to the text before all of them |
| `Sessions.Session.ReplaceAndUndo` | bbl_articles/public/bundles/easyadmin/field-code-editor.6507533d.js:1 | `replaceSelections` and one undo: the tree shows the text it showed |
| `Selections.Normalize` | bbl_articles/public/bundles/easyadmin/field-code-editor.6507533d.js:1 | `normalizeSelection` (`co`): sorted, apart (or touching, if allowed), the same positions covered; every range is made of given ones each of which meets one before it, points the way of the first of those given that starts where it starts and is not empty, and one that meets no other comes back unchanged; the primary index names a range that contains the original primary range |
| `Selections.SeparateMeans` | bbl_articles/public/bundles/easyadmin/field-code-editor.6507533d.js:1 | `normalizeSelection` (`co`), when two ranges stay apart: no position is in both, or, if touching is allowed and the second is not empty, only the one where they touch |
| `Selections.MergedCovers` | bbl_articles/public/bundles/easyadmin/field-code-editor.6507533d.js:1 | `normalizeSelection` (`co`): a merged range covers what the two covered and points the way of the first, or of the second if the first is empty |
| `Cursors.SelectionIsOrdered` | bbl_articles/public/bundles/easyadmin/field-code-editor.6507533d.js:1 | `replaceSelections`: the edits for a normalized selection are in order and do not overlap |
| `Cursors.ApplyFromLast` | bbl_articles/public/bundles/easyadmin/field-code-editor.6507533d.js:1 | `replaceSelections`: making the edits from the last to the first is possible |
| `Cursors.AppliedIs` | bbl_articles/public/bundles/easyadmin/field-code-editor.6507533d.js:1 | `replaceSelections`: the document afterwards is the old one with every range replaced by its text |
| `Cursors.ReplacedSelection` | bbl_articles/public/bundles/easyadmin/field-code-editor.6507533d.js:1 | `computeReplacedSel` (`go`) with `offsetPos` (`ho`): range i covers exactly inserted text i in the final document, behind the texts before it and what was between them, and points the way it did, or stands at its start |
| `Views.Display.FindIndex` | bbl_articles/public/bundles/easyadmin/field-code-editor.6507533d.js:1 | `findViewIndex` (`jn`): the entry for a line of the view, nothing for others |
| `Views.Display.Build` | bbl_articles/public/bundles/easyadmin/field-code-editor.6507533d.js:1 | `buildViewArray` (`Cr`): the line objects of the range |
| `Views.Display.RegChange` | bbl_articles/public/bundles/easyadmin/field-code-editor.6507533d.js:1 | `regChange` (`Wn`) with `viewCuttingPoint` (`Rn`): a view that listed the lines of its window before an edit lists those of the updated window after it; every line of the window that the edit leaves alone stays in it, and only new lines between such come in |
| `Views.Display.RegAll` | bbl_articles/public/bundles/easyadmin/field-code-editor.6507533d.js:1 | `regChange` (`Wn`) without a range: the view is right afterwards, and empty, exactly if the new document is at least as long as the view reached; otherwise what is left of it lies behind the end |
| `Views.Display.Adjust` | bbl_articles/public/bundles/easyadmin/field-code-editor.6507533d.js:1 | `adjustView` (`$n`): the view lists exactly the lines of the window asked for, also after `regChange` left it behind the end |
| `Views.Display.ApplyChange` | bbl_articles/public/bundles/easyadmin/field-code-editor.6507533d.js:1 | `makeChangeSingleDocInEditor` (`aa`): every edit keeps text and view in step and the window where its lines are; a full one leaves the view right exactly if the new document is as long as the view reached |
| `Views.StaleView` | bbl_articles/public/bundles/easyadmin/field-code-editor.6507533d.js:1 | `regChange` (`Wn`) without a range: from a new document of two lines, both shown, a full replacement by one line reaches a view that is not right |
| `Spans.MarkedSpansBefore` | bbl_articles/public/bundles/easyadmin/field-code-editor.6507533d.js:1 | `markedSpansBefore` (`Wt`): before the column every marker covers exactly the columns it covered; the spans are those of the code, one by one |
| `Spans.MarkedSpansAfter` | bbl_articles/public/bundles/easyadmin/field-code-editor.6507533d.js:1 | `markedSpansAfter` (`Bt`): behind the column every marker covers exactly the columns it covered, counted from there; the spans are those of the code, one by one |
| `Spans.ClearEmptySpans` | bbl_articles/public/bundles/easyadmin/field-code-editor.6507533d.js:1 | `clearEmptySpans` (`Rt`): exactly the emptied spans whose marker allows it go |
| `Spans.SpanFor` | bbl_articles/public/bundles/easyadmin/field-code-editor.6507533d.js:1 | `getMarkedSpanFor` (`It`): the first span of the marker |
| `Spans.StretchSpans` | bbl_articles/public/bundles/easyadmin/field-code-editor.6507533d.js:1 | `stretchSpansOverChange` (`Ht`): spans for every line of the inserted text, and none for a replacement of the whole text |
| `Spans.StretchedOf` | bbl_articles/public/bundles/easyadmin/field-code-editor.6507533d.js:1 | `stretchSpansOverChange` (`Ht`): what happens to a marker does not depend on the other markers |
| `Spans.RangeFollows` | bbl_articles/public/bundles/easyadmin/field-code-editor.6507533d.js:1 | `stretchSpansOverChange` (`Ht`), every range the editor can have and every edit: a replacement of the whole text drops it; otherwise where each end goes, by the inclusive flags, a span on every line between and no other; the range goes when nothing is left of it, unless it has just become empty and wants to stay |
| `Spans.ClearRangeFollows` | bbl_articles/public/bundles/easyadmin/field-code-editor.6507533d.js:1 | `stretchSpansOverChange` (`Ht`): a range strictly before, after or around the edit ends up with `adjustForChange` (`fo`) of its ends |
| `Spans.BookmarkFollows` | bbl_articles/public/bundles/easyadmin/field-code-editor.6507533d.js:1 | `stretchSpansOverChange` (`Ht`), bookmarks: one strictly inside the text taken out goes; the others stay or go where `adjustForChange` (`fo`) sends them, and `insertLeft` decides at an insertion |
| `Spans.OldSpans` | bbl_articles/public/bundles/easyadmin/field-code-editor.6507533d.js:1 | `getOldSpans` (`Eo`) with `removeClearedSpans` (`Fo`): of the spans stored with the edit none of a cleared marker, and all of every other |
| `Spans.MergeOldSpans` | bbl_articles/public/bundles/easyadmin/field-code-editor.6507533d.js:1 | `mergeOldSpans` (`Oo`): on every line the old spans and the stretched ones of the markers that have no old one there |
| `Spans.RangeRestored` | bbl_articles/public/bundles/easyadmin/field-code-editor.6507533d.js:1 | `attachLocalSpans` (`No`) and `mergeOldSpans` (`Oo`), every range and every edit: undoing the edit brings the range back as it was exactly unless the edit was a deletion over the end of a line and the range, not gone by it, starts behind its first line and not behind its end, or ends before its last line and not before its start, on a side that takes up text |
| `Spans.SpreadRange` | bbl_articles/public/bundles/easyadmin/field-code-editor.6507533d.js:1 | `mergeOldSpans` (`Oo`): a range over the line ab that takes up text at its end has a span on the next line, cd, too, after deleting from behind the a to behind the c and undoing |
| `Spans.BookmarkRestored` | bbl_articles/public/bundles/easyadmin/field-code-editor.6507533d.js:1 | `mergeOldSpans` (`Oo`), bookmarks: back as they were exactly unless a deletion over the end of a line had the bookmark at its start, inserting to the left of it, or at its end and not so |
| `Spans.RangeReturns` | bbl_articles/public/bundles/easyadmin/field-code-editor.6507533d.js:1 | `makeChangeFromHistory` (`na`) with `mergeOldSpans` (`Oo`): after any number of edits, clearing of other markers, and as many undos every range is back as it was, if none of the edits is one of those named before |
| `Spans.BookmarkReturns` | bbl_articles/public/bundles/easyadmin/field-code-editor.6507533d.js:1 | the same for bookmarks |
| `Spans.InversesMakeable` | bbl_articles/public/bundles/easyadmin/field-code-editor.6507533d.js:1 | `historyChangeFromChange` (`Mo`): the inverses of edits that fit the text, one after the other, take them back in the sense of these results |
| `Spans.TypingReturns` | bbl_articles/public/bundles/easyadmin/field-code-editor.6507533d.js:1 | `addChangeToHistory` (`zo`), extending `a.to`, with `mergeOldSpans` (`Oo`): text typed in any number of insertions that were merged into one edit and taken back at once, with the spans kept for the first of them: every range and every bookmark is back as it was |
| `Spans.ClearedBack` | bbl_articles/public/bundles/easyadmin/field-code-editor.6507533d.js:1 | `removeClearedSpans` (`Fo`) and `mergeOldSpans` (`Oo`): undoing an edit does not bring back a marker that was cleared after it, wherever its spans were when the edit was made |
| `Spans.ClearedStayAway` | bbl_articles/public/bundles/easyadmin/field-code-editor.6507533d.js:1 | the same for any number of edits, then clearing, and as many undos |
| `Columns.CountResumes` | bbl_articles/public/bundles/easyadmin/field-code-editor.6507533d.js:1 | `countColumn` (`B`): counting resumed anywhere gives what counting from the start gives |
| `Columns.CountColumn` | bbl_articles/public/bundles/easyadmin/field-code-editor.6507533d.js:1 | `countColumn` (`B`): the column, from tab to tab, is the one counted character by character |
| `Columns.TabStops` | bbl_articles/public/bundles/easyadmin/field-code-editor.6507533d.js:1 | `countColumn` (`B`): a tab leads to the next column that is a multiple of the tab size, at most that far, and any other character to the next column |
| `Columns.FindColumn` | bbl_articles/public/bundles/easyadmin/field-code-editor.6507533d.js:1 | `findColumn` (`X`): the least index whose column is at least the goal, or the end |
| `Columns.IndexOfColumn` | bbl_articles/public/bundles/easyadmin/field-code-editor.6507533d.js:1 | `findColumn` (`X`) of the column of an index is the index |
| `Columns.ColumnOfIndex` | bbl_articles/public/bundles/easyadmin/field-code-editor.6507533d.js:1 | `findColumn` (`X`) overshoots the goal by less than the width of the character before |
| `Columns.Stream.TokenColumn` | bbl_articles/public/bundles/easyadmin/field-code-editor.6507533d.js:1 | `column` of `StringStream` (`Je`): the cached column is right exactly as long as tokens do not start before the one last asked for |
| `Columns.EarlierToken` | bbl_articles/public/bundles/easyadmin/field-code-editor.6507533d.js:1 | `column` of `StringStream` (`Je`) after a character, a token and a step back: the column is wrong |
| `Modifiers.Ordering.Sort` | bbl_articles/public/bundles/easyadmin/app.dcb9a87a.js:2 | the inner function of `En`: the walk terminates, puts out each name once, and leaves the modifiers it is inside of as they were |
| `Modifiers.Order` | bbl_articles/public/bundles/easyadmin/app.dcb9a87a.js:2 | `En`: for any dependencies, every name once; without cycles, every present dependency, required or required if it exists, before its dependents; a list that is in order already stays as it is |
| `Modifiers.SortKeeps` | bbl_articles/public/bundles/easyadmin/app.dcb9a87a.js:2 | `An`: a modifier of a known phase is kept as often as it was given, the others are not |
| `Modifiers.SortKeepsNames` | bbl_articles/public/bundles/easyadmin/app.dcb9a87a.js:2 | `An`: one modifier per name stays one per name |
| `Modifiers.SortKeepsOrder` | bbl_articles/public/bundles/easyadmin/app.dcb9a87a.js:2 | `An`: dependencies stay first whenever none of them has a later phase |
| `Modifiers.PhaseByPhase` | bbl_articles/public/bundles/easyadmin/app.dcb9a87a.js:2 | `An`: earlier phases come first, and every phase has the modifiers of the list in their order |
| `Modifiers.Stages` | bbl_articles/public/bundles/easyadmin/app.dcb9a87a.js:2 | the list of phases (`Qe`): read, main and write in this order, each between what comes before and after it |
| `Modifiers.OrderModifiers` | bbl_articles/public/bundles/easyadmin/app.dcb9a87a.js:2 | `En` and `An` together: one modifier per name, each of them given and of a known phase; every name all of whose modifiers have a known phase appears; earlier phases first; without cycles, and when no dependency has a later phase, in order; for a list that is in order already, each phase in the order of the list |
| `Cuttings.Cut` | bbl_articles/public/bundles/easyadmin/app.dcb9a87a.js:2 | `d`: the list it builds |
| `Cuttings.HowMany` | bbl_articles/public/bundles/easyadmin/app.dcb9a87a.js:2 | `d`: 2 to the power of n - 1 lists for n characters |
| `Cuttings.CuttingAt` | bbl_articles/public/bundles/easyadmin/app.dcb9a87a.js:2 | `d`: every list consists of non-empty pieces that make up the string |
| `Cuttings.AllAppear` | bbl_articles/public/bundles/easyadmin/app.dcb9a87a.js:2 | `d`: every such list appears |
| `Cuttings.NoneTwice` | bbl_articles/public/bundles/easyadmin/app.dcb9a87a.js:2 | `d`: no list appears twice |
| `Library.Livre.AddAuteur` | bbl_articles/src/Entity/Livre.php:112-120 | `addAuteur`: terminates, and the new state of both lists |
| `Library.Livre.RemoveAuteur` | bbl_articles/src/Entity/Livre.php:122-127 | `removeAuteur`: only the book's list changes |
| `Library.Auteur.AddLivre` | bbl_articles/src/Entity/Auteur.php:147-155 | `addLivre`: terminates, and the new state of both lists |
| `Library.Auteur.RemoveLivre` | bbl_articles/src/Entity/Auteur.php:157-164 | `removeLivre`: the new state of both lists |
| `Library.Livre.AddAuteurIn` | bbl_articles/src/Entity/Livre.php:112-120 | `addAuteur` keeps: nobody twice, an author of a book lists the book; afterwards the two list each other |
| `Library.Livre.RemoveAuteurIn` | bbl_articles/src/Entity/Livre.php:122-127 | `removeAuteur` keeps the same; the converse, that every book an author lists has the author, survives exactly if the author was not listed |
| `Library.Auteur.AddLivreIn` | bbl_articles/src/Entity/Auteur.php:147-155 | `addLivre` keeps the same; the book lists the author afterwards unless the author alone listed the book before |
| `Library.Auteur.RemoveLivreIn` | bbl_articles/src/Entity/Auteur.php:157-164 | `removeLivre` keeps the same and takes both entries away |
| `Library.OneSided` | bbl_articles/src/Entity/Livre.php:112-127 | after `addAuteur` and `removeAuteur` the author still lists the book, and `addLivre` does not repair it |

## Left out

- LineNo: that a line taken out of the document has no parent is stated where the leaf lets it go (`LineTree.Chunk.RemoveLines`), not again for the document.
- MakeChange: the selection after an edit, the clock and the operation are parameters.
- Undo: `Sessions.Session` carries out the edits of an event on the tree after the history has moved, not in turns with it; where the code throws half way the model leaves everything as it was, and what the code has done by then is not modelled.
- TypingReturns: of the merged edits only insertions behind an insertion; a replacement with insertions merged into it is covered for its text (`HistoryLog.InsertionMerges`), not for marks.
- RangeReturns: marks and text are related by `Spans.InversesMakeable`, but a session does not hold marks; a marker that is moved or made between an edit and its undo is not covered.
- Normalize: finds the primary range after sorting by value, not by object identity, and the built-in sort is an insertion sort here.
- IterN: the callback is a function of the line and changes nothing.
- CountColumn: which characters are white space is a parameter.
- Order: two modifiers of the same name are told apart only by which of them is put out; merging them by name beforehand (`Sn`) is not modelled.
- The document is a class with a root chunk, not a subclass of the branch chunk, and its lines are numbered from 0.
- New line objects are made after the lines that stay have been updated, not before; nothing can see the difference.
- Linked documents; shared, atomic, collapsed and read-only markers; filters of edits and selections: none are present.
- `clearHistory` and `setHistory`, which start the generations again, and undoing selections alone.
- Measuring, scrolling, drawing, input and key maps; language modes and text direction; line widgets, classes and gutters.
- Line heights are natural numbers, and the estimate of a height is a function of the text of the line.
- The rest of the application script, the other entities, controllers, repositories and the Angular client: accessors, configuration, user interface and network.
- The collection of the entities stands for Doctrine's: `contains` by identity, `add` at the end, `removeElement` of the first occurrence.
