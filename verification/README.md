# A verified model of Kakoune's text engine

This project models the parts of Kakoune that hold and change text, and proves what they promise:

- **Buffer** (`Lines`, `LineEdits`, `Edits`, `History`, `Reloads`, `Buffers`, `Sessions`). A buffer is a
  list of lines that each end in their only newline. Everything is proved against the flat text those
  lines stand for: insertions and erasures are splices of it, an undo group is a run of modifications that
  can be replayed and inverted on it, the undo tree gives the text at each node. `Sessions` runs arbitrary
  sequences of edits, commits, undo, redo, moves in the tree, reloads and saves.
- **Diff** (`EditPaths`, `Snakes`, `Diff`). The linear-space difference with its cost limit: within the limit no
  script has fewer edits. `EditPaths` is the theory of edit paths: what a path may reach, how two searches meet,
  why an overlap found first lies in the grid and on a shortest path. The arrays of furthest points are arrays here as well.
- **Position tracking** (`Coords`, `ChangeMaps`, `Tracker`, `Runs`, `RangeUpdates`, `MultiReplace`). The change log is
  described against the texts before and after each change. One pass with the tracker over a sorted run of
  changes is compared with mapping a position through each change.
- **Hash map** (`HashTables`, `HashIndexes`, `HashMaps`). The Robin Hood index without wrap-around and the
  insertion-ordered map on top of it, compared with linear search in the item list.
- **Files, columns, display, JSON** (`FileFormats`, `Columns`, `DisplayAtoms`, `AtomLists`, `Displays`, `Json`,
  `JsonRoundTrip`, `JsonCode`). Reading and writing files byte for byte, tab-aware columns and vertical
  movement, painting of display atoms, and the JSON printer against the JSON parser.

`Sequences` holds facts about sequences only, `Options` the optional values and `Integers` the limits and
comparisons of several modules.

Objects the code updates in place are classes (`Buffer`, `ForwardChangesTracker`, `Merger`, `HashIndex`,
`HashMap`, `DisplayLine`, `DisplayBuffer`); ranges being moved and the work space of the difference are arrays.
`Buffer` carries three ghost fields: the text before and after every logged change, the text at every history
node, and the text last saved. A line, a text and a file are strings of characters that stand for bytes.

## What the code does not promise, and when exactly it holds

- Tracking a backward run does not always agree with mapping a position through each change: a position
  strictly inside text that was erased right in front of the insertion logged just before goes behind that
  insertion instead of in front of it, where mapping the end of that insertion leads (`Runs.LandsBehindInsertion`).
  `Runs.TrackingEnds` says that this is the only exception, and `Runs.SwallowedExample` gives an instance. Positions of surviving bytes are not affected
  (`RangeUpdates.SwallowedIsErased`).
- `update_forward` searches for the first range whose last endpoint is not in front of the changes. The last
  endpoint of an empty range is in front of the buffer, so the search can end behind empty ranges, which
  are then left alone together with the ranges in front of them in the list. A run then moves all ranges as it should exactly if it leaves the ranges
  that were left alone where they are (`RangeUpdates.PassMovesAll`; for a single change, exactly if their endpoints
  are in front of it, or on a later line and the change is within one line: `RangeUpdates.StillForOneChange`). An
  instance is `RangeUpdates.EmptyRangeLeftBehind`. A list of empty ranges only is left alone by every forward run
  and moved by every backward run (`RangeUpdates.ChainOfEmpty`); a list without any is always moved as it should
  (`RangeUpdates.ChainWithoutEmpty`).
- The tracker only goes forward. A position that comes after a later one, as when ranges overlap, is mapped right by
  a forward run exactly if the last change taken in so far does not begin behind it (`Runs.LatePosition`; an
  instance in `Runs.LatePositionExample`). No assertion of the tracker fails, in whatever order positions come.
- `parse_json` gives back what `to_json` printed exactly for values that are nested at most 100 levels deep,
  have no control character in a string or key, and are not a lone boolean (`JsonRoundTrip.ParseInvertsPrint`;
  instances in `JsonRoundTrip.ControlCharacterIsLost` and `JsonRoundTrip.LoneBooleanFails`).
- `replace` drops the last newline of its content before it inserts it at the end of the buffer, counting on the
  newline of the text it replaces. If it replaces nothing there, that newline is gone exactly when the rest of
  the content is empty or ends a line itself (`Buffers.ReplacesAll`; an instance in `Buffers.EmptyLineIsLost`).
- `DisplayLine::optimize` merges neighbours that meet even across the end of a buffer line, and `content` does
  not accept the merged atom. All merged atoms can be displayed exactly if no run of neighbours to be merged goes
  past the end of the buffer line it begins on (`AtomLists.OptimizedOnOneLine`; an instance in
  `AtomLists.MergedAcrossLines`); then every character and its face are displayed as before
  (`AtomLists.OptimizedShowsSame`).
- `parse_lines` throws exactly for files with more than `INT_MAX` lines or with a line of `INT_MAX` bytes or more
  (`FileFormats.ParseLines`); all others are written back byte for byte (`FileFormats.ReadAndWrite`).
- Moving some lines down and back up leads back exactly if the start was not the newline of a non-empty line
  (`Columns.DownAndUp`).
- The comment at `src/hash_map.hh:144` assumes table sizes that are powers of two. That is kept as an
  invariant, and it is what makes the mask of the hash a position in the table.

## Model

| member | source | states |
|---|---|---|
| Lines.FlatInjective | src/buffer.hh:122 | well-formed line lists correspond one to one with the texts they stand for |
| Lines.OffsetIsPos | src/buffer.inl.hh:44-49 | a coordinate is valid exactly as the place reached at its own offset in the flat text; only the end coordinate has the offset of the end |
| Lines.PosIsValid | src/buffer.inl.hh:44-49 | every offset of the text is named by a valid coordinate |
| Lines.OffsetOrder | src/buffer.inl.hh:51-54 | the order of valid coordinates is the order of their offsets, which is what `is_end` and every comparison of coordinates rely on |
| Lines.NextOffset | src/buffer.inl.hh:16-21 | `next` of a place in the buffer is valid and one byte further |
| Lines.PrevOffset | src/buffer.inl.hh:23-28 | `prev` of any place but the origin is valid, in a line, and `next` takes it back |
| Lines.Distance | src/buffer.inl.hh:30-42 | the distance is the difference of the offsets, negative for swapped arguments |
| Lines.StringBetween | src/buffer.cc:181-196 | the string between two coordinates is that slice of the flat text |
| Lines.Advance | src/buffer.cc:580-607 | advancing adds to the offset, stopping at the first and at the end coordinate |
| LineEdits.NewLines | src/buffer.cc:433-447 | cutting an insertion into lines loses nothing and makes well-formed lines |
| LineEdits.InsertIntoLines | src/buffer.cc:418-464 | the lines after `do_insert` are well formed, stand for the spliced text, and the returned end is the end of the inserted text |
| LineEdits.EraseFromLines | src/buffer.cc:466-484 | the lines after `do_erase` are well formed and stand for the text without the erased bytes |
| Edits.ApplyInverse | src/buffer.cc:198-201 | the inverse of an applied modification can be applied and restores the exact text |
| Edits.ReplayConcat | src/buffer.cc:339-340 | replaying two groups in a row is replaying them as one |
| Edits.ReplayInverse | src/buffer.cc:318-319 | the inverses of a group, last one first, lead from its result back to its start, each finding the content it recorded |
| Edits.SpliceDescribed | src/buffer.hh:243-253 | an insertion and its removal are described by log entries with the coordinates of both ends |
| History.FindLowestCommonParent | src/buffer.cc:354-376 | terminates in a common ancestor of both nodes that every other common ancestor is an ancestor of |
| History.DepthOf | src/buffer.cc:355-360 | the number of steps to the root |
| History.CommitKeepsHistory | src/buffer.cc:299-304 | a committed group becomes a new node whose text is what the group makes of its parent's text; older nodes keep their parents and groups |
| History.CommitKeepsRedoPath | src/buffer.cc:299-304 | after a commit the redo children lead from the root to the new node |
| History.PendingGrows | src/buffer.cc:523-524 | recording one more modification keeps the pending group leading from the current node's text to the buffer's |
| History.RedoAfterUndo | src/buffer.cc:307-343 | as many steps of redo as of undo lead back to the same node |
| History.UndoClimbs | src/buffer.cc:314-322 | undoing goes up as many nodes as asked for, or all the way to the root |
| History.RedirectedWhereItLeads | src/buffer.cc:387-401 | moving to a node redo already leads to changes no redo child |
| History.TextIsReplay | src/buffer.hh:278-286 | the text at a node is the first text with all groups on the path from the root replayed on it |
| Buffers.Buffer.constructor | src/buffer.cc:29-58 | a new buffer has one logged insertion, one history node, and counts as saved |
| Buffers.Buffer.DoInsert | src/buffer.cc:418-464 | text spliced, log entry added, earlier log entries kept |
| Buffers.Buffer.DoErase | src/buffer.cc:466-484 | text cut out, log entry added, earlier log entries kept |
| Buffers.Buffer.ApplyModification | src/buffer.cc:486-507 | applies a recorded modification to the text; an erase finds exactly its recorded content |
| Buffers.Buffer.Insert | src/buffer.cc:509-526 | inserts, adding the newline that text at the very end needs, and records it; the buffer stays valid and keeps its history |
| Buffers.Buffer.Erase | src/buffer.cc:528-545 | erases all but the last newline, unless whole lines behind the first go; the buffer never becomes empty |
| Buffers.Buffer.Replace | src/buffer.cc:547-561 | the text between the coordinates is replaced, with the rule for the end of the buffer; the returned end and the log entries, for every valid end: nothing is logged if the text is there already, and a last newline in both texts stays where it is |
| Buffers.ReplacesAll | src/buffer.cc:554-559 | the whole content is put in exactly if it does not go to the very end, replacing nothing, with a newline to spare |
| Buffers.EmptyLineIsLost | src/buffer.cc:554-559 | an empty line that replaces nothing at the end of a one-line buffer leaves no trace |
| Buffers.ReplacedBySame | src/buffer.cc:551-552 | leaving equal text alone is replacing it |
| Buffers.ErasedText | src/buffer.cc:528-545 | what erasing up to any valid end leaves behind the erased part |
| Buffers.Buffer.CommitUndoGroup | src/buffer.cc:291-305 | a non-empty pending group becomes a child of the current node and its redo child; the buffer then stands at it with nothing pending |
| Buffers.Buffer.RevertGroup | src/buffer.cc:318-319 | reverting a group in reverse order arrives at the text it started from |
| Buffers.Buffer.UndoStep | src/buffer.cc:316-322 | one step arrives at the parent, in a valid state |
| Buffers.Buffer.RedoStep | src/buffer.cc:335-341 | one step arrives at the redo child, in a valid state |
| Buffers.Buffer.Undo | src/buffer.cc:307-325 | commits, fails only at the root, otherwise goes up as many nodes as asked for and there are; the text is the one at that node |
| Buffers.Buffer.Redo | src/buffer.cc:327-343 | fails exactly with something pending or no redo child, otherwise follows redo children; the text is the one at that node |
| Buffers.Buffer.RevertUpTo | src/buffer.cc:380-385 | undoing from a node up to an ancestor arrives at the ancestor's text |
| Buffers.Buffer.ApplyFromParent | src/buffer.cc:387-401 | redoing from an ancestor down to a node arrives at the node's text; redo children then lead to the node, and all others are as before |
| Buffers.Buffer.MoveTo | src/buffer.cc:345-404 | for every existing id, and only for those, arrives at that node and its text; parents and groups stay, redo children lead to the node, and those off the way there, its own included, are as before |
| Buffers.Buffer.NotifySaved | src/buffer.cc:570-578 | what was pending is committed as a new node, and the text at hand is the saved one |
| Buffers.Buffer.UnmodifiedIsSaved | src/buffer.cc:563-568 | a file buffer that is not modified holds the text last saved or loaded |
| Reloads.ScriptStep | src/buffer.cc:233-277 | each step of a difference takes both sides on from where the steps before ended |
| Reloads.LinesDescribed | src/buffer.cc:249-275 | inserting or erasing whole lines is described by the log entry that reloading makes |
| Reloads.RecordInsertions | src/buffer.cc:246-248 | the insertions recorded for added lines replay to the text with those lines |
| Reloads.RecordErasures | src/buffer.cc:268-272 | the erasures recorded for removed lines replay to the text without them |
| Reloads.KeptLineStays | src/buffer.cc:233-277 | a place in a line that is kept is never erased by what reloading logs, and ends up at the same place in that line |
| Buffers.Buffer.ReloadKeep | src/buffer.cc:236-243 | kept lines are moved down over lines no longer needed |
| Buffers.Buffer.ReloadAdd | src/buffer.cc:244-265 | added lines go into the gap first and in front of the unread lines then, and are recorded |
| Buffers.Buffer.ReloadRemove | src/buffer.cc:266-276 | removed lines are recorded from what is still unread |
| Buffers.Buffer.Compact | src/buffer.cc:230-278 | the compaction ends with exactly the new lines, the group it records leads to their text with one modification for each line that goes or comes, and the log has one entry for each step that is not a Keep |
| Buffers.Buffer.Reload | src/buffer.cc:203-289 | the lines are the new ones, the buffer is not modified; the log says which whole lines went and came, no more of them than any difference within the cost limit has; at most one node is added, whose group replays old to new and, inverted in reverse, new to old; reloading the same lines logs nothing and adds no node |
| Sessions.Execute | src/buffer.cc:203-578 | every operation leads to the lines, node, pending group and history its description promises, redo children included, keeps the buffer valid, only adds to log and history, and leaves parents and groups of old nodes alone; the saved text and node change with saving and reloading only |
| Sessions.ValidMeansReplay | src/buffer.cc:291-404 | the text is the replay of the groups from the root to the current node and the pending one |
| Sessions.Run | src/buffer.cc:203-578 | over any sequence of operations each one leads from stage to stage as described, the text stays that replay, no history node of an earlier stage changes its parent, group or text, the log describes every step since the start; the buffer is modified exactly if it is a file buffer with something pending or at another node than at the last save or reload, or at the start, and has the lines it had then if not |
| Sessions.UndoThenRedo | src/buffer.cc:307-343 | with nothing pending, n steps of undo and n of redo restore lines, node and tree |
| Sessions.MoveUpThenRedo | src/buffer.cc:327-404 | with nothing pending, moving to the node n steps up and n steps of redo restore lines, node and tree |
| Sessions.UpdateBufferRanges | src/changes.hh:86-109 | ranges kept since any timestamp, in whatever order, are updated run by run without a failing assertion; ranges in order, none of them left alone by a run that should move it, are in order after the update, and every endpoint whose byte was not erased is at the coordinate of that same byte: of exactly the offset the logged edits have taken it to, one after the other |
| EditPaths.CutPath | src/diff.hh:24-47 | a path of the two edit counts together passes through a point where it can be cut |
| EditPaths.OverlapInGrid | src/diff.hh:65-78 | a first overlap of the two searches lies in the grid |
| EditPaths.ExtremeInGrid | src/diff.hh:82-98 | one of the two outermost diagonals of the last round ends in the grid |
| EditPaths.PathOverlaps | src/diff.hh:66-76 | if there is a path of that many edits, the two searches overlap |
| EditPaths.DiagonalBack | src/diff.hh:65-78 | going back along a diagonal, free or not, takes no more edits |
| EditPaths.PathBehindPrefix | src/diff.hh:124-126 | without a prefix of the same length on either side no more edits are needed |
| EditPaths.PathBeforeSuffix | src/diff.hh:128-130 | the same for a suffix |
| Snakes.FindEndSnake | src/diff.hh:24-47 | the furthest point on a diagonal, and a snake of equal elements that ends there |
| Snakes.Round | src/diff.hh:60-79 | one round extends every diagonal, or stops at the first that meets the other search |
| Snakes.RaiseBound | src/diff.hh:58-80 | a round without overlap rules out all paths of that many edits |
| Snakes.ForwardSnakeSplits | src/diff.hh:60-69 | a forward snake that meets the reverse search lies on a path with as few edits as possible |
| Snakes.ReverseSnakeSplits | src/diff.hh:71-79 | a reverse snake that meets the forward search does so, too |
| Snakes.LastRound | src/diff.hh:83-98 | the best snake kept when giving up lies in the grid, and no furthest path of that many edits that ends in the grid gets further |
| Snakes.GiveUp | src/diff.hh:82-102 | the snake returned after the cost limit is a proper one, and the furthest of its round |
| Snakes.FindMiddleSnake | src/diff.hh:49-103 | every snake returned, the fallback included, lies in the grid, has a diagonal of equal elements and its edit in range; unless more edits are needed than the cost limit allows, it lies on a path with as few edits as possible, and the two parts around it take one edit less together |
| Diff.FollowGivesTarget | src/diff.hh:105-112 | following a script produces the second sequence |
| Diff.ScriptIsPath | src/diff.hh:112-167 | a script is an edit path with as many edits |
| Diff.Merger.OnDiff | src/diff.hh:183-193 | a step is merged into the last one of its kind, so that no two neighbours are of one kind |
| Diff.FindDiffRec | src/diff.hh:112-167 | terminates, and extends a script for the prefixes by one for the given ranges: it goes on from what was reported, keeps the common front and the common back of what is left, and, within the cost limit, adds as few edits as any path has |
| Diff.DiffAroundSnake | src/diff.hh:141-164 | the two halves and the snake between them cover the ranges, with as few edits as possible within the cost limit |
| Diff.ForEachDiff | src/diff.hh:175-197 | positive lengths, no equal neighbours, both sequences accounted for, only equal elements kept; the common front and back are kept; no script has fewer edits, unless all have more than 1998; equal sequences give a single step that keeps all |
| Diff.FewestAroundSnake | src/diff.hh:141-164 | parts with as few edits as possible around a snake on a shortest path have as few as possible together |
| Diff.SameIsKept | src/diff.hh:175-197 | equal sequences: everything is kept, in one step |
| ChangeMaps.FoldConcat | src/changes.hh:87-109 | mapping through a log in pieces |
| ChangeMaps.SurvivorFound | src/changes.cc:42-61 | a byte no change erased is taken by the edits to an offset of the last text, with its value, whose coordinate is the mapped one |
| ChangeMaps.SurvivorsStayInOrder | src/changes.cc:42-61 | different surviving bytes are taken to different offsets, in the same order |
| ChangeMaps.DescribedIsWellFormed | src/buffer.hh:243-253 | a change that describes an edit has its begin before its end |
| Tracker.ForwardChangesTracker.Update | src/changes.cc:5-19 | follows the change; both positions only go forward |
| Tracker.ForwardChangesTracker.UpdateSince | src/changes.cc:21-26 | takes in all changes since the timestamp, which is brought up to date |
| Tracker.ForwardChangesTracker.GetNewCoord | src/changes.cc:42-54 | the position as far behind the current change as it was behind its old place; the asserts hold |
| Tracker.ForwardChangesTracker.GetOldCoord | src/changes.cc:28-40 | the way back, for positions behind the current change; the asserts hold |
| Tracker.AfterMaps | src/changes.cc:56-68 | a change relevant to a position is taken in so that the position then is where the change takes it |
| Tracker.NewIsMonotone | src/changes.cc:42-61 | the tracker keeps the order of positions |
| Runs.StepForward | src/changes.hh:53-57 | taking in the next change of a forward run keeps the tracker standing for all changes taken in |
| Runs.StepBackward | src/changes.hh:68-80 | the same for a backward run read from its end |
| Runs.TrackingEnds | src/changes.hh:33-84 | the tracker agrees with mapping the position through the whole run, except exactly for swallowed positions of a backward run, which it sends further, behind the insertion |
| Runs.LandsBehindInsertion | src/changes.hh:64-84 | a swallowed position goes where mapping leads from the end of the insertion logged just before it was erased |
| Runs.LatePosition | src/changes.cc:56-61 | after a later position a forward run maps an earlier one right exactly if the last change taken in does not begin behind it |
| Runs.LatePositionExample | src/changes.cc:56-61 | a position in front of an insertion, visited after one behind it, is moved although it should stay |
| Runs.SwallowedExample | src/changes.hh:64-84 | a backward run and an erased position for which the two differ |
| RangeUpdates.AdvanceWhileRelevant | src/changes.hh:53-80 | takes in changes until the next one is not relevant; all asserts of the tracker hold, in whatever order positions come |
| RangeUpdates.UpdateRange | src/changes.hh:33-46 | both endpoints are moved, in order; of an empty range the first one, and its last endpoint stays |
| RangeUpdates.LowerBound | src/changes.hh:58-59 | for any list, a range with its last endpoint in front of the run, if any, directly in front of the result and none at it; for a partitioned list, exactly the ranges in front of the result end before the run |
| RangeUpdates.UpdateForward | src/changes.hh:48-62 | for any list, empty ranges included: the ranges in front of the search result stay, and, if the list was in order, the others have every endpoint mapped through every change and stay in order |
| RangeUpdates.UpdateBackward | src/changes.hh:64-84 | the same with no range left alone, except exactly for swallowed positions, which go behind the insertion |
| RangeUpdates.ForwardSortedUntil | src/changes.cc:70-82 | the longest forward-sorted run from there |
| RangeUpdates.BackwardSortedUntil | src/changes.cc:84-95 | the longest backward-sorted run from there |
| RangeUpdates.SwallowedIsErased | src/changes.hh:64-84 | a swallowed position has lost its byte, and some insertion was followed by an erase ending at its begin |
| RangeUpdates.UpdateRanges | src/changes.hh:86-109 | over any log and list, the passes take in the runs of the log one after the other, each as long as a run of either kind can be and a backward one only if it is no forward run; for ordered lists without empty ranges, or when no pass leaves a range alone that is to move, endpoints whose byte survives, and all endpoints if nothing is swallowed, are mapped through every change, and order is kept |
| RangeUpdates.LongerIsChosen | src/changes.hh:93-108 | of the two runs that begin at a change the longer one is taken, the forward one if they are equally long |
| RangeUpdates.PassMovesAll | src/changes.hh:48-84 | a pass over ordered ranges moves them all as it should exactly if the ranges it left alone are to stay |
| RangeUpdates.PassKeepsOrder | src/changes.hh:48-84 | such a pass keeps the ranges in order |
| RangeUpdates.StillForOneChange | src/changes.hh:48-62 | a single change leaves a range where it is exactly if each endpoint is in front of it, or on a later line and the change is within one line |
| RangeUpdates.AllEmptyIsSkipped | src/changes.hh:58-59 | a forward run leaves every list of empty ranges alone |
| RangeUpdates.EmptyRangeLeftBehind | src/changes.hh:58-61 | an empty range behind two inserted bytes that does not move along |
| RangeUpdates.ChainCarries | src/changes.hh:86-109 | passes that leave no range alone that is to move carry out the whole log on every endpoint |
| RangeUpdates.ChainWithoutEmpty | src/changes.hh:86-109 | without empty ranges every pass is of that kind |
| RangeUpdates.ChainOfEmpty | src/changes.hh:86-109 | empty ranges in order stay so; each backward run moves them, each forward run does not |
| RangeUpdates.EndpointsKeepTheirBytes | src/changes.hh:86-109 | such an endpoint is the coordinate of its own byte in the final text: of the offset the edits have taken that byte to |
| MultiReplace.TrackReplacement | src/buffer_utils.cc:35 | the changes of one replacement take the tracker's later positions along |
| MultiReplace.NextCut | src/buffer_utils.cc:33 | replacing a range in the text so far gives the text with one more range replaced all at once |
| MultiReplace.SpanKept | src/buffer_utils.cc:33-34 | later replacements do not disturb a returned range |
| MultiReplace.ReplaceOne | src/buffer_utils.cc:29-35 | the range is found where it has moved to, is valid there, and is replaced |
| MultiReplace.ReplaceRanges | src/buffer_utils.cc:22-39 | the result is the original text with all ranges replaced at once, and each returned range spans its string in it: its own, the last one for ranges beyond the strings given, nothing without any |
| HashTables.MaskIsRemainder | src/hash_map.hh:142-146 | for a power of two the mask is the remainder |
| HashTables.ComputeSlot | src/hash_map.hh:142-146 | a slot of the table |
| HashTables.SwapAt | src/hash_map.hh:83-89 | exchanging a carried entry for one nearer its home keeps the table in Robin Hood order |
| HashTables.DropInto | src/hash_map.hh:77-81 | dropping the carried entry into a free slot keeps the table in order |
| HashTables.FullTail | src/hash_map.hh:91-92 | no free slot found means every slot from the home on is taken |
| HashTables.HomesAlongRun | src/hash_map.hh:83-89 | along used slots the homes never decrease |
| HashTables.SearchCanStop | src/hash_map.hh:224-232 | a search from the home of an entry that has reached a free slot, or the end, without meeting it: the entry is not in the table |
| HashTables.HoleMoves | src/hash_map.hh:105-112 | shifting the next entry back moves the hole and keeps everything else in place |
| HashTables.HoleStays | src/hash_map.hh:107-109 | where the shifting stops the table is in order again |
| HashIndexes.HashIndex.Resize | src/hash_map.hh:43-53 | a larger table with the same entries |
| HashIndexes.HashIndex.Reserve | src/hash_map.hh:55-67 | room for the count, same entries |
| HashIndexes.HashIndex.TryAdd | src/hash_map.hh:74-90 | one pass puts the entry in, or carries another one to the end and loses none |
| HashIndexes.HashIndex.Add | src/hash_map.hh:69-94 | terminates with exactly the old entries and the new one |
| HashIndexes.HashIndex.Remove | src/hash_map.hh:96-116 | exactly that entry is gone |
| HashIndexes.HashIndex.OrderedFixEntries | src/hash_map.hh:118-125 | every index behind the removed one is one lower |
| HashIndexes.HashIndex.UnorderedFixEntries | src/hash_map.hh:127-138 | the entry is found and renamed |
| HashMaps.HashMap.FromList | src/hash_map.hh:184-188 | a map of the given items, distinct keys being the caller's duty |
| HashMaps.HashMap.FindIndex | src/hash_map.hh:221-233 | agrees with linear search; with several equal keys, some matching position |
| HashMaps.HashMap.Insert | src/hash_map.hh:197-219 | overwrites in place or appends |
| HashMaps.HashMap.Remove | src/hash_map.hh:270-282 | removes a matching item and keeps the order of the others |
| HashMaps.HashMap.UnorderedRemove | src/hash_map.hh:284-298 | the last item takes the place of the removed one |
| HashMaps.HashMap.RemoveAll | src/hash_map.hh:303-315 | exactly the items with other keys are left, in order |
| FileFormats.AnalyseEols | src/buffer_utils.cc:132-135 | which kinds of line ends the text has |
| FileFormats.ParseLines | src/buffer_utils.cc:91-113 | the lines the text splits into, one newline for an empty text; an exception exactly if there are more than `INT_MAX` lines or `INT_MAX` bytes without a newline |
| FileFormats.SplitEncodes | src/buffer_utils.cc:95-108 | the lines encode the text they were split from, the last line end completed |
| FileFormats.EncodedInjective | src/buffer_utils.cc:189-199 | the bytes written for the lines determine the lines |
| FileFormats.WhatWasRead | src/buffer_utils.cc:136-138 | the derived final-eol flag makes the lines stand for exactly the bytes read |
| FileFormats.ParseFile | src/buffer_utils.cc:124-142 | reads exactly the files within those limits; the line end is CRLF exactly if there is a newline and every one has a carriage return in front of it, which is then no part of a line; each line is what stands between two line ends; the final-eol flag says whether the last byte is a newline; lines, mark and flags stand for exactly the bytes of the file |
| FileFormats.WriteBuffer | src/buffer_utils.cc:172-200 | writes exactly the bytes the lines and flags stand for, with a final end of line if that is asked for, or for `IfNotEmpty` unless there is one empty line only |
| FileFormats.ReadAndWrite | src/buffer_utils.cc:91-200 | exactly the byte strings within the limits can be read, and writing what was read gives the same bytes |
| Columns.ColsIncrease | src/buffer_utils.cc:45-55 | every character adds to the column, tabs included |
| Columns.TabEndsOnStop | src/buffer_utils.cc:48-52 | a tab ends on the first multiple of the tab stop behind its begin |
| Columns.GetColumn | src/buffer_utils.cc:41-58 | the column of the first character boundary at or behind the byte |
| Columns.GetByteToColumn | src/buffer_utils.cc:65-89 | the byte of the last character boundary whose column is at most the target |
| Columns.ColumnsRoundTrip | src/buffer_utils.cc:41-89 | the two are inverse on character boundaries |
| Columns.OffsetCoord | src/buffer.cc:170-179 | the line aimed at, or the nearest there is, with the target carried on; the place is the character nearest the target, short of the newline unless asked for |
| Columns.LineReachedIsNearest | src/buffer.cc:174 | no other line of the buffer is as near to the one aimed at |
| Columns.MovesCompose | src/buffer.cc:170-179 | without clamping, two moves are one move by the sum |
| Columns.DownAndUp | src/buffer.cc:170-179 | n lines and back lead to the same character exactly if it was not the newline of a non-empty line |
| Columns.DownAndUpAgain | src/buffer.cc:170-179 | a place with a carried target is always come back to |
| DisplayAtoms.HighlightPaints | src/highlighters.cc:51-89 | highlighting gives the new face to exactly the bytes of range atoms inside the range, and to replaced atoms it touches |
| DisplayAtoms.PaintKeepsText | src/highlighters.cc:51-89 | the displayed text does not change |
| AtomLists.CutsAtEndsOnly | src/highlighters.cc:77-83 | atoms are split at the ends of the range only, and only range atoms |
| AtomLists.AtMostTwoCuts | src/highlighters.cc:77-83 | at most two atoms of a line are split |
| AtomLists.HighlightKeepsSpan | src/highlighters.cc:65-67 | the range of the line stays right and its atoms stay in order |
| AtomLists.HighlightOutsideSpan | src/highlighters.cc:57-67 | lines outside the range need not be looked at |
| AtomLists.OptimizedOnOneLine | src/display_buffer.cc:203-231 | `content` accepts every merged atom exactly if no run of neighbours to be merged goes past the end of a buffer line |
| AtomLists.OptimizedShowsSame | src/display_buffer.cc:203-231 | if that holds, and only then, the merged atoms can be displayed, and they show every character with the face it had |
| AtomLists.MergedAcrossLines | src/display_buffer.cc:203-231 | two atoms of neighbouring lines whose merger it does not accept |
| AtomLists.OptimizedIsDone | src/display_buffer.cc:203-231 | one pass leaves no neighbours of the same kind and face that meet or are both text |
| AtomLists.OptimizedKeepsSpan | src/display_buffer.cc:203-231 | the range of the line stays right |
| Displays.DisplayLine.Split | src/display_buffer.cc:114-123 | one atom becomes two that meet at the position; the index is that of the first |
| Displays.DisplayLine.Optimize | src/display_buffer.cc:203-231 | the merging in place is the merging of the list from left to right |
| Displays.DisplayLine.ComputeRange | src/display_buffer.cc:295-308 | the span of the atoms, or what is prescribed if they have none |
| Displays.DisplayBuffer.ComputeRange | src/display_buffer.cc:310-321 | the smallest range that contains the range of every line, which makes a display of valid lines valid |
| Displays.HighlightLine | src/highlighters.cc:69-87 | the loop over the atoms does to each of them what it would do to it alone |
| Displays.HighlightRange | src/highlighters.cc:51-89 | on a whole display: same text, the face on exactly the reached characters, at most two splits a line, lines still valid |
| JsonRoundTrip.InsertedMember | src/json.cc:142 | a member of a new name is appended, one of a known name replaces the first of that name in its place |
| JsonRoundTrip.InsertedAsInMap | src/json.hh:13 | members are inserted exactly as the hash map inserts items |
| JsonCode.ToJson | src/json.cc:17-41 | the loop prints the quoted string with every special character escaped |
| JsonCode.ParseText | src/json.cc:64-87 | the loop reads up to the closing quote, replacing each backslash by what follows it |
| JsonCode.ParseElementsOf | src/json.cc:90-113 | the loop over elements, with its errors |
| JsonCode.ParseMembersOf | src/json.cc:115-150 | the loop over members, with its errors |
| JsonCode.ParseJsonImpl | src/json.cc:47-153 | the recursive parser computes the function the round trip is proved about |
| JsonRoundTrip.IntRoundTrip | src/string_utils.cc:123-146 | every 32-bit integer, the smallest included, reads back as printed |
| JsonRoundTrip.NumbersRead | src/string_utils.cc:123-139 | read are exactly digits behind an optional minus, as their number cut to 32 bits |
| JsonRoundTrip.EscapedCharacters | src/json.cc:22-38 | which characters are escaped, and how |
| JsonRoundTrip.BlanksSkipped | src/json.cc:49-50 | which blanks are skipped, and no other character |
| JsonRoundTrip.ParsePrintedString | src/json.cc:64-87 | a printed string reads back with each control character turned into five plain ones |
| JsonRoundTrip.DecodedSame | src/json.cc:22-38 | that changes nothing exactly if there is no control character |
| JsonRoundTrip.ParsePrinted | src/json.cc:47-153 | wherever a printed value stands in front of a separator, it is read in whole, or refused exactly if too deep |
| JsonRoundTrip.NormalSame | src/json.hh:29-34 | a value reads back as itself exactly if it has no control character in a string or key |
| JsonRoundTrip.ParseInvertsPrint | src/json.cc:15-153 | `parse_json` inverts `to_json` exactly for values nested at most 100 deep, without control characters, other than a lone boolean |
| JsonRoundTrip.LoneBooleanFails | src/json.cc:61-64 | a boolean on its own is refused |
| JsonRoundTrip.ControlCharacterIsLost | src/json.cc:33-34 | a string with an escape character does not read back |

## Left out

- Diff.ForEachDiff: beyond the cost limit the number of edits is not bounded; what is proved there is that the script is one, that common ends are kept, and that the best snake of the last round is taken.
- `NoUndo` buffers and fifo buffers: edits that are not recorded break the replay on purpose.
- Read-only errors, hooks, options, names, file status, the `New` flag and committed timestamps: side channels of the operations modelled. `set_name` resetting the saved node is one of them.
- RangeUpdates.UpdateRanges: endpoints are non-negative, except for the last one of an empty range. Where a pass takes ranges that are out of order, or overlap, is left open; for forward runs `Runs.LatePosition` tells. Mixed lists are out of order too after a pass that left an empty range behind.
- MultiReplace.ReplaceRanges: the ranges must be sorted, disjoint and stop short of the end of the buffer.
- Buffers.Buffer.Reload: moved-from lines in the gap of the compaction are left as they were, not emptied; nothing reads them.
- Displays.DisplayLine.Optimize: an atom moved onto itself is left as it is.
- HashIndexes.HashIndex.Add: table sizes and indices are unbounded; hashes are 64-bit values.
- HashIndexes.HashIndex.Reserve: the fill rate of one half is exact arithmetic here, without rounding to `float`.
- HashMaps.HashMap.FromList: the keys must be distinct unless the map allows several equal ones, since the source does not look for duplicates there. `operator[]`, `get` and iteration are not modelled.
- Columns.OffsetCoord: a line is given as its characters with byte lengths and widths, all positive; UTF-8 decoding is not modelled, nor is horizontal `offset_coord`.
- JsonRoundTrip.ParseInvertsPrint: numbers are 32-bit integers. A name that is not a string fails here, where the source goes on with a wrong cast in builds without asserts. `\u` escapes are not decoded by the source.
- JsonCode.ParseJsonImpl: an exception and its message are one outcome, `Failed`; blanks are the ASCII ones.
- The remaining `BufferIterator` arithmetic: `next`, `prev`, `advance` and `distance` carry its content.
- `DisplayLine` trimming, splitting at columns, extraction and parsing of markup: they depend on character widths.
- System calls, regular expressions, tree-sitter, faces and their registry, and everything of the client and the shell.
