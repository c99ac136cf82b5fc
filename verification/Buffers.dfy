/** The buffer: its lines, its change log and its undo tree. */
module Buffers {
  import opened Coords
  import opened Lines
  import opened Edits
  import opened LineEdits
  import opened History
  import opened Reloads
  import opened Options
  import Diff
  import Sequences

  class Buffer {
    const isFile: bool
    var lines: seq<string>
    var changes: seq<Change>
    var history: seq<HistoryNode>
    var historyId: int
    var lastSaveHistoryId: int
    var currentUndoGroup: seq<Modification>

    /** The text before the first change and after each one. */
    ghost var trace: seq<string>
    /** The text at each history node. */
    ghost var texts: seq<string>
    /** The text when the buffer was last saved or loaded. */
    ghost var saved: string

    ghost function Text(): string reads this {
      Flat(lines)
    }

    /** The lines are well formed and the log leads to them. */
    ghost predicate LinesOk() reads this {
      && WellFormed(lines)
      && LogMatches(changes, trace)
      && trace[|changes|] == Text()
    }

    ghost predicate Valid() reads this {
      && LinesOk() && lines != []
      && AtNode(history, texts, historyId, currentUndoGroup, Text())
      && (lastSaveHistoryId == INVALID || (0 <= lastSaveHistoryId < |texts| && texts[lastSaveHistoryId] == saved))
    }

    constructor (isFile: bool, lines: seq<string>)
      requires WellFormed(lines) && lines != []
      ensures Valid() && this.isFile == isFile && this.lines == lines
      ensures saved == Text() && lastSaveHistoryId == FIRST && historyId == FIRST && |history| == 1
      ensures trace == ["", Text()] && texts == [Text()]
    {
      this.isFile := isFile;
      this.lines := lines;
      changes := [Change(Kind.Insert, ORIGIN, EndCoord(lines))];
      history := [HistoryNode(INVALID, INVALID, [])];
      historyId, lastSaveHistoryId := FIRST, FIRST;
      currentUndoGroup := [];
      trace, texts, saved := ["", Flat(lines)], [Flat(lines)], Flat(lines);
      new;
      FlatIsValidText(lines);
      PosOfFlat(lines);
      SpliceDescribed("", 0, Flat(lines));
      assert Splice("", 0, 0, Flat(lines)) == Flat(lines) && "" + Flat(lines) == Flat(lines);
      assert DescribesStep(changes, trace, 0);
      assert NodeOk(history, texts, FIRST);
      HistoryIsTree(history, texts);
      assert Replay(Flat(lines), []) == Some(Flat(lines));
    }

    // ----- editing the lines

    /** The log has grown: what it said before still stands. */
    twostate predicate LogGrows() reads this {
      old(changes) <= changes && old(trace) <= trace
    }

    method LogChange(kind: Kind, begin: Coord, end: Coord, ghost before: string)
      requires WellFormed(lines) && LogMatches(changes, trace) && trace[|changes|] == before
      requires Describes(Change(kind, begin, end), before, Text())
      modifies `changes, `trace
      ensures LinesOk() && LogGrows()
      ensures changes == old(changes) + [Change(kind, begin, end)]
      ensures trace == old(trace) + [Text()]
    {
      LogMatchesSnoc(changes, trace, Change(kind, begin, end), Text());
      changes := changes + [Change(kind, begin, end)];
      trace := trace + [Text()];
    }

    method DoInsert(pos: Coord, content: string) returns (begin: Coord, end: Coord)
      requires LinesOk() && IsValid(lines, pos)
      requires content != "" && IsEnd(lines, pos) ==> EndsLine(content)
      modifies `lines, `changes, `trace
      ensures LinesOk() && LogGrows() && begin == pos && IsValid(lines, end)
      ensures old(Offset(lines, pos)) <= |old(Text())|
      ensures Text() == Splice(old(Text()), old(Offset(lines, pos)), 0, content)
      ensures Offset(lines, end) == old(Offset(lines, pos)) + |content|
      ensures content != "" ==> changes == old(changes) + [Change(Kind.Insert, pos, end)]
      ensures content == "" ==> unchanged(this)
    {
      OffsetIsPos(lines, pos);
      if content == "" {
        return pos, pos;
      }
      ghost var t, o := Text(), Offset(lines, pos);
      begin := pos;
      lines, end := InsertIntoLines(lines, pos, content);
      InsertDescribed(t, o, content, lines, end);
      LogChange(Kind.Insert, pos, end, t);
    }

    method DoErase(begin: Coord, end: Coord) returns (r: Coord)
      requires LinesOk() && IsValid(lines, begin) && IsValid(lines, end) && Le(begin, end)
      requires end == EndCoord(lines) && begin != end ==> begin.column == 0
      modifies `lines, `changes, `trace
      ensures LinesOk() && LogGrows() && r == begin
      ensures old(Offset(lines, begin)) <= old(Offset(lines, end)) <= |old(Text())|
      ensures Text() == old(Text())[..old(Offset(lines, begin))] + old(Text())[old(Offset(lines, end))..]
      ensures begin != end ==> changes == old(changes) + [Change(Kind.Erase, begin, end)]
      ensures begin == end ==> unchanged(this)
    {
      OffsetOrder(lines, begin, end);
      OffsetIsPos(lines, begin);
      OffsetIsPos(lines, end);
      if begin == end {
        return begin;
      }
      ghost var t := Text();
      lines := EraseFromLines(lines, begin, end);
      LogChange(Kind.Erase, begin, end, t);
      r := begin;
    }
  
    method ApplyModification(m: Modification)
      requires LinesOk() && CanApply(Text(), m)
      modifies `lines, `changes, `trace
      ensures LinesOk() && LogGrows() && Text() == Apply(old(Text()), m)
    {
      hide LogMatches, Flat, Offset, OffsetOf;
      var coord, content := m.coord, m.content;
      ghost var t, o := Text(), OffsetOf(Text(), m.coord);
      PosIsValid(lines, o);
      OffsetIsPos(lines, coord);
      if m.kind == Kind.Insert {
        var begin, end := DoInsert(coord, content);
      } else {
        var end := Advance(lines, coord, |content|);
        OffsetIsPos(lines, end);
        OffsetOrder(lines, coord, end);
        StartOfLine(lines, coord);
        var recorded := StringBetween(lines, coord, end);
        assert recorded == content;
        var r := DoErase(coord, end);
      }
    }

    // ----- editing operations

    /** Nothing but the text, the log and the pending group changes. */
    twostate predicate EditKeeps() reads this {
      && LogGrows() && old(currentUndoGroup) <= currentUndoGroup
      && history == old(history) && texts == old(texts) && historyId == old(historyId)
      && lastSaveHistoryId == old(lastSaveHistoryId) && saved == old(saved)
    }

    twostate lemma EditDone(m: Modification)
      requires old(Valid()) && LinesOk() && CanApply(old(Text()), m)
      requires Text() == Apply(old(Text()), m) && lines != []
      requires currentUndoGroup == old(currentUndoGroup) + [m] && LogGrows()
      requires history == old(history) && texts == old(texts) && historyId == old(historyId)
      requires lastSaveHistoryId == old(lastSaveHistoryId) && saved == old(saved)
      ensures Valid() && EditKeeps()
    {
      PendingGrows(history, texts, historyId, old(currentUndoGroup), old(Text()), m);
    }

    method Insert(pos: Coord, content: string) returns (begin: Coord, end: Coord)
      requires Valid() && IsValid(lines, pos)
      modifies `lines, `changes, `trace, `currentUndoGroup
      ensures Valid() && EditKeeps() && begin == pos && IsValid(lines, end)
      ensures Inserted(old(lines), lines, pos, content, end)
      ensures content != "" ==> changes == old(changes) + [Change(Kind.Insert, pos, end)]
      ensures content == "" ==> end == pos && unchanged(this)
    {
      hide CanApply, Apply, HistoryOk, TreeOk, RedoPath, Replay;
      OffsetIsPos(lines, pos);
      if content == "" {
        return pos, pos;
      }
      var realContent := RealContent(lines, pos, content);
      var m := Modification(Kind.Insert, pos, realContent);
      InsertCanApply(lines, pos, m);
      currentUndoGroup := currentUndoGroup + [m];
      begin, end := DoInsert(pos, realContent);
      FlatIsValidText(lines);
      EditDone(m);
    }

    method Erase(begin: Coord, end: Coord) returns (r: Coord)
      requires Valid() && IsValid(lines, begin) && IsValid(lines, end)
      modifies `lines, `changes, `trace, `currentUndoGroup
      ensures Valid() && EditKeeps() && r == begin
      ensures Erased(old(lines), lines, begin, end)
      ensures var end' := EraseEnd(old(lines), begin, end);
        if Le(end', begin) then unchanged(this) else changes == old(changes) + [Change(Kind.Erase, begin, end')]
    {
      hide CanApply, Apply, HistoryOk, TreeOk, RedoPath, Replay;
      var end' := EraseEnd(lines, begin, end);
      if Le(end', begin) {
        return begin;
      }
      var content := StringBetween(lines, begin, end');
      var m := Modification(Kind.Erase, begin, content);
      EraseCanApply(lines, begin, end', m);
      currentUndoGroup := currentUndoGroup + [m];
      r := DoErase(begin, end');
      SomethingLeft(old(lines), begin, end', lines);
      EditDone(m);
    }

    method Replace(begin: Coord, end: Coord, content: string) returns (b: Coord, e: Coord)
      requires Valid() && IsValid(lines, begin) && IsValid(lines, end) && Le(begin, end)
      modifies `lines, `changes, `trace, `currentUndoGroup
      ensures Valid() && EditKeeps() && b == begin && IsValid(lines, e)
      ensures Replaced(old(lines), lines, begin, end, KeptContent(old(lines), begin, content), e)
      ensures end != EndCoord(old(lines)) ==>
        changes == old(changes) + ReplaceChanges(begin, end, content, e, old(Between(lines, begin, end)))
      ensures end == EndCoord(old(lines)) ==>
        changes == old(changes)
          + ReplaceEndChanges(old(lines), lines, begin, content, e, old(Between(lines, begin, end)))
    {
      hide HistoryOk, TreeOk, RedoPath, Replay, ReplacedIn;
      var current := StringBetween(lines, begin, end);
      if current == content {
        ReplacedBySame(lines, begin, end, content);
        return begin, end;
      }
      if IsEnd(lines, end) && EndsLine(content) {
        OffsetIsPos(lines, end);
        b := ReplaceTail(begin, content);
        e := EndCoord(lines);
        return;
      }
      b, e := EraseThenInsert(begin, end, content);
    }

    method EraseThenInsert(begin: Coord, end: Coord, content: string) returns (b: Coord, e: Coord)
      requires Valid() && IsValid(lines, begin) && IsValid(lines, end) && Le(begin, end)
      requires IsEnd(lines, end) ==> !EndsLine(content)
      modifies `lines, `changes, `trace, `currentUndoGroup
      ensures Valid() && EditKeeps() && b == begin && IsValid(lines, e)
      ensures Replaced(old(lines), lines, begin, end, content, e)
      ensures changes == old(changes) + EraseInsertChanges(begin, EraseEnd(old(lines), begin, end), content, e)
    {
      hide CanApply, Apply, HistoryOk, TreeOk, RedoPath, Replay;
      hide ReplacedIn, Erased, Inserted, ErasedTail, EraseInsertChanges;
      ghost var before := lines;
      EraseEndNotBefore(before, begin, end);
      var r := Erase(begin, end);
      ghost var middle, log := lines, changes;
      if begin == EndCoord(before) {
        NothingErased(before, middle, end);
      } else {
        ErasedText(before, middle, begin, end);
      }
      b, e := Insert(r, content);
      if begin == EndCoord(before) {
        AppendedText(before, lines, content, e, content);
      } else {
        ReplacedText(before, middle, lines, begin, end, content, e);
      }
      TwoLogged(old(changes), log, changes, begin, EraseEnd(before, begin, end), content, e);
    }

    /** Replace everything from `begin` on, but keep the last newline in place. */
    method ReplaceTail(begin: Coord, content: string) returns (b: Coord)
      requires Valid() && IsValid(lines, begin) && EndsLine(content)
      modifies `lines, `changes, `trace, `currentUndoGroup
      ensures Valid() && EditKeeps() && b == begin
      ensures Replaced(old(lines), lines, begin, EndCoord(old(lines)), KeptContent(old(lines), begin, content),
        EndCoord(lines))
      ensures changes == old(changes) + TailChanges(old(lines), lines, begin, content)
    {
      hide CanApply, Apply, HistoryOk, TreeOk, RedoPath, Replay, LogMatches;
      hide Erased, Inserted, EraseInsertChanges, Replaced;
      ghost var before := lines;
      var back := BackCoord(lines);
      BackIsLast(lines);
      var r := Erase(begin, back);
      ghost var middle, log := lines, changes;
      var kept := content[..|content| - 1];
      ghost var e;
      if begin == EndCoord(before) {
        NothingErased(before, middle, back);
      } else {
        ErasedToBack(before, middle, begin);
      }
      b, e := Insert(r, kept);
      if begin == EndCoord(before) {
        AppendedText(before, lines, kept, e, KeptContent(before, begin, content));
        TwoLogged(old(changes), log, changes, begin, begin, kept, e);
      } else {
        EraseEndNotBefore(before, begin, back);
        TailIsReplaced(before, middle, lines, begin, content, e);
        TwoLogged(old(changes), log, changes, begin, back, kept, e);
      }
    }

    // ----- history

    /** The lines and the log stay; only the history changes. */
    method CommitUndoGroup()
      requires Valid()
      modifies `history, `historyId, `currentUndoGroup, `texts
      ensures Valid() && currentUndoGroup == []
      ensures history == Committed(old(history), old(historyId), old(currentUndoGroup))
      ensures historyId == CommittedId(old(history), old(historyId), old(currentUndoGroup))
      ensures old(texts) <= texts
    {
      if currentUndoGroup == [] {
        return;
      }
      FlatIsValidText(lines);
      CommitArrives(history, texts, historyId, currentUndoGroup, Text());
      var id := |history|;
      CommittedInSteps(history, historyId, currentUndoGroup);
      history := history + [HistoryNode(historyId, INVALID, currentUndoGroup)];
      texts := texts + [Text()];
      history := history[historyId := history[historyId].(redoChild := id)];
      historyId := id;
      currentUndoGroup := [];
    }

    /** Apply the inverse of a group, last modification first. */
    method RevertGroup(group: seq<Modification>, ghost target: string)
      requires LinesOk() && ValidText(target) && Replay(target, group) == Some(Text())
      modifies `lines, `changes, `trace
      ensures LinesOk() && LogGrows() && Text() == target
    {
      var i := |group|;
      assert group[..i] == group;
      while i > 0
        invariant 0 <= i <= |group| && LinesOk() && LogGrows()
        invariant Replay(target, group[..i]) == Some(Text())
      {
        i := i - 1;
        ReplayPrefix(target, group, i);
        ReplayKeepsValid(target, group[..i]);
        ApplyInverse(Replay(target, group[..i]).value, group[i]);
        ApplyModification(group[i].Inverse());
      }
    }

    method ApplyGroup(group: seq<Modification>)
      requires LinesOk() && Replay(Text(), group).Some?
      modifies `lines, `changes, `trace
      ensures LinesOk() && LogGrows() && Some(Text()) == Replay(old(Text()), group)
    {
      ghost var start := Text();
      assert group[..0] == [];
      for i := 0 to |group|
        invariant LinesOk() && LogGrows()
        invariant Replay(start, group[..i]) == Some(Text())
      {
        ReplayPrefix(start, group, i);
        ApplyModification(group[i]);
      }
      assert group[..|group|] == group;
    }
  
    /** The buffer stands at a node, with nothing pending. */
    lemma ArriveAt(id: int)
      requires HistoryOk(history, texts) && TreeOk(history) && IsNode(history, id) && RedoPath(history, id)
      requires LinesOk() && Text() == texts[id] && historyId == id && currentUndoGroup == []
      requires lastSaveHistoryId == INVALID || (0 <= lastSaveHistoryId < |texts| && texts[lastSaveHistoryId] == saved)
      ensures Valid()
    {
      assert NodeOk(history, texts, id);
      FlatIsValidText(lines);
      assert Replay(texts[id], []) == Some(texts[id]);
    }

    /** One step of `undo`. */
    method UndoStep()
      requires Valid() && currentUndoGroup == [] && historyId != FIRST
      modifies `lines, `changes, `trace, `historyId
      ensures Valid() && LogGrows() && historyId == history[old(historyId)].parent
    {
      hide LogMatches, Flat;
      var parent := history[historyId].parent;
      assert NodeOk(history, texts, historyId) && NodeOk(history, texts, parent);
      RevertGroup(history[historyId].undoGroup, texts[parent]);
      historyId := parent;
      ArriveAt(parent);
    }

    /** One step of `redo`. */
    method RedoStep()
      requires Valid() && currentUndoGroup == [] && history[historyId].redoChild != INVALID
      modifies `lines, `changes, `trace, `historyId
      ensures Valid() && LogGrows() && historyId == history[old(historyId)].redoChild
    {
      hide LogMatches, Flat;
      var child := history[historyId].redoChild;
      assert NodeOk(history, texts, historyId) && NodeOk(history, texts, child);
      historyId := child;
      ApplyGroup(history[child].undoGroup);
      ArriveAt(child);
    }

    method Undo(count: nat) returns (ok: bool)
      requires Valid()
      modifies `lines, `changes, `trace, `history, `historyId, `currentUndoGroup, `texts
      ensures Valid() && LogGrows() && currentUndoGroup == [] && Text() == texts[historyId]
      ensures history == Committed(old(history), old(historyId), old(currentUndoGroup)) && old(texts) <= texts
      ensures var start := CommittedId(old(history), old(historyId), old(currentUndoGroup));
              && (ok <==> start != FIRST)
              && historyId == UndoTarget(history, start, count)
    {
      CommitUndoGroup();
      assert NodeOk(history, texts, historyId);
      ghost var start, h := historyId, history;
      if history[historyId].parent == INVALID {
        return false;
      }
      var left := count;
      while left != 0 && history[historyId].parent != INVALID
        invariant Valid() && LogGrows() && currentUndoGroup == [] && history == h && old(texts) <= texts
        invariant 0 <= left <= count
        invariant UndoTarget(h, historyId, left) == UndoTarget(h, start, count)
      {
        assert NodeOk(history, texts, historyId);
        left := left - 1;
        UndoStep();
      }
      assert NodeOk(history, texts, historyId);
      ok := true;
    }

    method Redo(count: nat) returns (ok: bool)
      requires Valid()
      modifies `lines, `changes, `trace, `historyId
      ensures Valid() && LogGrows() && RedoOk(history)
      ensures ok <==> history[old(historyId)].redoChild != INVALID && currentUndoGroup == []
      ensures if ok then historyId == RedoTarget(history, old(historyId), count) && Text() == texts[historyId]
              else unchanged(this)
    {
      RedoChildrenExist(history, texts);
      if history[historyId].redoChild == INVALID || currentUndoGroup != [] {
        return false;
      }
      var left := count;
      while left != 0 && history[historyId].redoChild != INVALID
        invariant Valid() && LogGrows() && currentUndoGroup == []
        invariant 0 <= left <= count
        invariant RedoTarget(history, historyId, left) == RedoTarget(history, old(historyId), count)
      {
        left := left - 1;
        RedoStep();
      }
      ok := true;
    }

    /** Undo from node `from` up to its ancestor `top`; the current node is left to the caller. */
    method RevertUpTo(from: int, top: int)
      requires LinesOk() && HistoryOk(history, texts) && TreeOk(history)
      requires IsNode(history, from) && IsAncestor(history, top, from) && Text() == texts[from]
      modifies `lines, `changes, `trace
      ensures LinesOk() && LogGrows() && IsNode(history, top) && Text() == texts[top]
    {
      var id := from;
      while id != top
        invariant LinesOk() && LogGrows() && IsNode(history, id) && IsAncestor(history, top, id)
        invariant Text() == texts[id]
        decreases id
      {
        assert NodeOk(history, texts, id) && NodeOk(history, texts, history[id].parent);
        RevertGroup(history[id].undoGroup, texts[history[id].parent]);
        id := history[id].parent;
      }
    }

    /** Redo from `top` down to its descendant `id`, making this the path that redo follows. */
    method ApplyFromParent(top: int, id: int)
      requires LinesOk() && HistoryOk(history, texts) && TreeOk(history)
      requires IsNode(history, id) && IsAncestor(history, top, id) && IsNode(history, top)
      requires Text() == texts[top] && RedoPath(history, top)
      modifies `lines, `changes, `trace, `history
      ensures LinesOk() && LogGrows() && HistoryOk(history, texts) && TreeOk(history)
      ensures RedirectedTo(old(history), history, id) && Text() == texts[id]
      decreases id
    {
      if id == top {
        RedirectedNowhere(history, id);
        return;
      }
      var parent := history[id].parent;
      ApplyFromParent(top, parent);
      RedirectedOn(old(history), history, id);
      ghost var h := history;
      history := history[parent := history[parent].(redoChild := id)];
      RedirectRedo(h, texts, parent, id);
      assert NodeOk(history, texts, id);
      ApplyGroup(history[id].undoGroup);
    }

    method MoveTo(id: int) returns (ok: bool)
      requires Valid()
      modifies `lines, `changes, `trace, `history, `historyId, `currentUndoGroup, `texts
      ensures Valid() && LogGrows()
      ensures ok <==> 0 <= id < |old(history)|
      ensures !ok ==> unchanged(this)
      ensures ok ==> historyId == id && currentUndoGroup == [] && Text() == texts[id] && old(texts) <= texts
      ensures ok ==> RedirectedTo(Committed(old(history), old(historyId), old(currentUndoGroup)), history, id)
    {
      if id < 0 || id >= |history| {
        return false;
      }
      CommitUndoGroup();
      ghost var h := history;
      assert Replay(texts[historyId], []) == Some(texts[historyId]);
      var parent := FindLowestCommonParent(history, historyId, id);
      RedoPathOfAncestor(history, parent, historyId);
      RevertUpTo(historyId, parent);
      ApplyFromParent(parent, id);
      historyId := id;
      ArriveAt(id);
      ok := true;
    }

    predicate IsModified() reads this {
      isFile && (historyId != lastSaveHistoryId || currentUndoGroup != [])
    }

    method NotifySaved()
      requires Valid()
      modifies `history, `historyId, `currentUndoGroup, `texts, `lastSaveHistoryId, `saved
      ensures Valid() && currentUndoGroup == [] && !IsModified()
      ensures historyId == CommittedId(old(history), old(historyId), old(currentUndoGroup))
      ensures saved == Text() && lastSaveHistoryId == historyId && old(texts) <= texts
      ensures history == Committed(old(history), old(historyId), old(currentUndoGroup))
    {
      if currentUndoGroup != [] {
        CommitUndoGroup();
      }
      lastSaveHistoryId := historyId;
      saved := Text();
      assert Replay(texts[historyId], []) == Some(texts[historyId]);
    }

    /** A file buffer that is not modified holds exactly the text last saved or loaded. */
    lemma UnmodifiedIsSaved()
      requires Valid() && isFile && !IsModified()
      ensures Text() == saved
    {
      assert Replay(texts[historyId], []) == Some(texts[historyId]);
    }
  
    // ----- reloading

    /** The log and the pending group lead to the lines `now`, whatever the lines vector holds
        in the meantime. */
    ghost predicate RecordedUpTo(base: string, now: seq<string>) reads this {
      && WellFormed(now)
      && LogMatches(changes, trace) && trace[|changes|] == Flat(now)
      && LeadsTo(base, currentUndoGroup, Flat(now))
    }

    /** Compaction in place: the first `n` slots hold new lines, the slots from `read` on hold the
        old lines from `p` on, and what is in between is no longer needed. */
    ghost predicate Compacting(a: seq<string>, b: seq<string>, p: int, n: int, read: int) reads this {
      && 0 <= p <= |a| && 0 <= n <= |b| && n <= read <= |lines| && WellFormed(a) && WellFormed(b)
      && lines[..n] == b[..n] && lines[read..] == a[p..]
      && RecordedUpTo(Flat(a), b[..n] + a[p..])
    }

    method ReloadKeep(b: seq<string>, len: nat, read: nat, write: nat, ghost a: seq<string>, ghost p: nat)
      requires Compacting(a, b, p, write, read) && p + len <= |a| && write + len <= |b|
      requires a[p..p + len] == b[write..write + len]
      modifies `lines
      ensures Compacting(a, b, p + len, write + len, read + len)
    {
      OldLinesAhead(lines, read, a, p, len);
      if read != write {
        lines := MoveDown(lines, read, write, len);
      }
      assert b[..write + len] == b[..write] + b[write..write + len];
      assert lines[..write + len] == lines[..write] + lines[write..write + len];
      assert b[..write] + a[p..] == b[..write + len] + a[p + len..] by {
        assert a[p..] == a[p..p + len] + a[p + len..];
      }
    }

    method ReloadAdd(b: seq<string>, len: nat, read: nat, write: nat, ghost a: seq<string>,
                     ghost p: nat) returns (read': nat)
      requires Compacting(a, b, p, write, read) && 0 < len && write + len <= |b|
      modifies `lines, `changes, `trace, `currentUndoGroup
      ensures Compacting(a, b, p, write + len, read') && LogGrows()
      ensures changes == old(changes) + [Change(Kind.Insert, Coord(write, 0), Coord(write + len, 0))]
      ensures |currentUndoGroup| == |old(currentUndoGroup)| + len
    {
      ghost var now, now' := b[..write] + a[p..], b[..write + len] + a[p..];
      currentUndoGroup := RecordInsertions(currentUndoGroup, write, b[write..write + len], Flat(a), now);
      ReplacedAhead(b, write, len, a[p..]);
      LinesDescribed(now, write, b[write..write + len]);
      RecordStep(Change(Kind.Insert, Coord(write, 0), Coord(write + len, 0)), Flat(now), Flat(now'));
      ghost var before := lines;
      lines, read' := FillGap(lines, read, write, b[write..write + len]);
      assert b[..write + len] == b[..write] + b[write..write + len];
    }

    method ReloadRemove(b: seq<string>, len: nat, read: nat, write: nat, ghost a: seq<string>, ghost p: nat)
      requires Compacting(a, b, p, write, read) && 0 < len && p + len <= |a|
      modifies `changes, `trace, `currentUndoGroup
      ensures Compacting(a, b, p + len, write, read + len) && LogGrows()
      ensures changes == old(changes) + [Change(Kind.Erase, Coord(write, 0), Coord(write + len, 0))]
      ensures |currentUndoGroup| == |old(currentUndoGroup)| + len
    {
      ghost var now, now' := b[..write] + a[p..], b[..write] + a[p + len..];
      OldLinesAhead(lines, read, a, p, len);
      GapAhead(b[..write], a, p, len);
      currentUndoGroup := RecordErasures(currentUndoGroup, write, lines[read..read + len], Flat(a), now);
      LinesDescribed(now', write, a[p..p + len]);
      RecordStep(Change(Kind.Erase, Coord(write, 0), Coord(write + len, 0)), Flat(now), Flat(now'));
    }

    method RecordStep(change: Change, ghost t: string, ghost t': string)
      requires LogMatches(changes, trace) && trace[|changes|] == t && Describes(change, t, t')
      modifies `changes, `trace
      ensures LogMatches(changes, trace) && trace[|changes|] == t' && LogGrows()
      ensures changes == old(changes) + [change]
    {
      LogMatchesSnoc(changes, trace, change, t');
      changes := changes + [change];
      trace := trace + [t'];
    }

    /** The steps of the difference, one by one. */
    method Compact(diff: seq<Diff.Step>, newLines: seq<string>)
      requires LinesOk() && WellFormed(newLines) && currentUndoGroup == []
      requires Diff.Script(diff, lines, newLines)
      modifies `lines, `changes, `trace, `currentUndoGroup
      ensures LinesOk() && LogGrows() && lines == newLines
      ensures LeadsTo(old(Text()), currentUndoGroup, Text())
      ensures changes == old(changes) + ChangesOf(diff) && |currentUndoGroup| == Diff.Edits(diff)
    {
      ghost var a := lines;
      var read, write := 0, 0;
      assert diff[..0] == [] && newLines[..0] + a[0..] == a;
      assert Replay(Flat(a), []) == Some(Flat(a));
      for i := 0 to |diff|
        invariant LogGrows()
        invariant write == NewLen(diff[..i])
        invariant changes == old(changes) + ChangesOf(diff[..i]) && |currentUndoGroup| == Diff.Edits(diff[..i])
        invariant Compacting(a, newLines, OldLen(diff[..i]), write, read)
      {
        ScriptStep(diff, a, newLines, i);
        Sequences.TakeTake(diff, i, i + 1);
        Sequences.Assoc(old(changes), ChangesOf(diff[..i]), ChangeOf(diff[i], write));
        read, write := CompactStep(diff[i], newLines, read, write, a,
                                   OldLen(diff[..i]), OldLen(diff[..i + 1]), NewLen(diff[..i + 1]));
      }
      assert diff[..|diff|] == diff;
      ScriptLens(diff, a, newLines);
      lines := lines[..write];
      assert newLines[..|newLines|] == newLines && newLines + a[|a|..] == newLines;
    }

    method CompactStep(step: Diff.Step, newLines: seq<string>, read: nat, write: nat, ghost a: seq<string>,
                       ghost p: nat, ghost p': nat, ghost n': nat)
        returns (read': nat, write': nat)
      requires Compacting(a, newLines, p, write, read) && NextStep(step, a, newLines, p, write, p', n')
      modifies `lines, `changes, `trace, `currentUndoGroup
      ensures Compacting(a, newLines, p', write', read') && write' == n' && LogGrows()
      ensures changes == old(changes) + ChangeOf(step, write)
      ensures |currentUndoGroup| == |old(currentUndoGroup)| + if step.op == Diff.Keep then 0 else step.len
    {
      read', write' := read, write;
      match step.op
      case Keep =>
        ReloadKeep(newLines, step.len, read, write, a, p);
        read', write' := read + step.len, write + step.len;
      case Add =>
        read' := ReloadAdd(newLines, step.len, read, write, a, p);
        write' := write + step.len;
      case Remove =>
        ReloadRemove(newLines, step.len, read, write, a, p);
        read' := read + step.len;
    }

    /** The lines are compacted along a difference of old and new, which takes as few edits as possible within the
        cost limit; the log says which whole lines went and came, and a new node records one modification a line. */
    method Reload(newLines: seq<string>) returns (ghost diff: seq<Diff.Step>)
      requires Valid() && WellFormed(newLines) && newLines != []
      modifies this
      ensures Valid() && LogGrows() && lines == newLines && currentUndoGroup == []
      ensures saved == Text() && lastSaveHistoryId == historyId && !IsModified()
      ensures Diff.Script(diff, old(lines), newLines) && Diff.KeepsCommonEnds(diff, old(lines), newLines)
      ensures forall s :: Diff.Script(s, old(lines), newLines) && Diff.Edits(s) <= 1998 ==>
        Diff.Edits(diff) <= Diff.Edits(s)
      ensures changes == old(changes) + ChangesOf(diff)
      ensures old(texts) <= texts
      ensures ReloadedHistory(Committed(old(history), old(historyId), old(currentUndoGroup)),
                              CommittedId(old(history), old(historyId), old(currentUndoGroup)), history, historyId,
                              texts, old(Text()), Text(), Diff.Edits(diff))
      ensures old(lines) == newLines ==>
        && changes == old(changes) && history == Committed(old(history), old(historyId), old(currentUndoGroup))
        && historyId == CommittedId(old(history), old(historyId), old(currentUndoGroup))
    {
      hide NodeOk, TreeOk, RedoPath, Replay, LogMatches, Flat, InverseGroup, ReloadedHistory;
      hide Diff.Script, Diff.KeepsCommonEnds, Diff.Edits, ChangesOf;
      CommitUndoGroup();
      NothingPending(texts[historyId]);
      ghost var h, id, before := history, historyId, Text();
      diff := ReloadLines(newLines);
      ghost var group := currentUndoGroup;
      CommitUndoGroup();
      CommittedIsReloaded(h, id, group, texts, before, Text());
      NothingPending(texts[historyId]);
      lastSaveHistoryId := historyId;
      saved := Text();
    }

    /** The lines are replaced, and what that takes is pending. */
    method ReloadLines(newLines: seq<string>) returns (ghost diff: seq<Diff.Step>)
      requires Valid() && WellFormed(newLines) && newLines != [] && currentUndoGroup == []
      modifies `lines, `changes, `trace, `currentUndoGroup
      ensures Valid() && LogGrows() && lines == newLines
      ensures Diff.Script(diff, old(lines), newLines) && Diff.KeepsCommonEnds(diff, old(lines), newLines)
      ensures forall s :: Diff.Script(s, old(lines), newLines) && Diff.Edits(s) <= 1998 ==>
        Diff.Edits(diff) <= Diff.Edits(s)
      ensures changes == old(changes) + ChangesOf(diff) && |currentUndoGroup| == Diff.Edits(diff)
      ensures Replay(old(Text()), currentUndoGroup) == Some(Text())
      ensures Replay(Text(), InverseGroup(currentUndoGroup)) == Some(old(Text()))
      ensures old(lines) == newLines ==> changes == old(changes) && currentUndoGroup == []
    {
      hide NodeOk, TreeOk, RedoPath, Replay, LogMatches, Flat, InverseGroup;
      hide Diff.Script, Diff.KeepsCommonEnds, Diff.Edits, ChangesOf;
      NothingPending(texts[historyId]);
      var script := Diff.ForEachDiff(lines, newLines);
      FlatIsValidText(lines);
      Compact(script, newLines);
      if old(lines) == newLines {
        NothingLogged(|newLines|);
      }
      ReplayInverse(old(Text()), currentUndoGroup);
      diff := script;
    }
  }

  lemma NothingPending(t: string)
    ensures Replay(t, []) == Some(t)
  {
  }

  /** What reloading at node `id` adds to the history: nothing, or a child whose group of `n` modifications leads from
      the old text to the new one and, inverted, back. */
  ghost predicate ReloadedHistory(h: seq<HistoryNode>, id: int, h': seq<HistoryNode>, id': int, texts: seq<string>,
                                  before: string, after: string, n: int)
  {
    && IsNode(h, id) && IsNode(h', id') && |texts| == |h'| && id < |texts| && texts[id] == before
    && (var group := if id' == id then [] else h'[id'].undoGroup;
        && h' == Committed(h, id, group) && id' == CommittedId(h, id, group) && |group| == n
        && Replay(before, group) == Some(after) && Replay(after, InverseGroup(group)) == Some(before))
  }

  lemma CommittedIsReloaded(h: seq<HistoryNode>, id: int, group: seq<Modification>, texts: seq<string>,
                            before: string, after: string)
    requires IsNode(h, id) && |texts| == |Committed(h, id, group)| && texts[id] == before
    requires Replay(before, group) == Some(after) && Replay(after, InverseGroup(group)) == Some(before)
    ensures ReloadedHistory(h, id, Committed(h, id, group), CommittedId(h, id, group), texts, before, after, |group|)
  {
  }

  lemma NothingLogged(n: nat)
    ensures ChangesOf([Diff.Step(Diff.Keep, n)]) == [] && Diff.Edits([Diff.Step(Diff.Keep, n)]) == 0
  {
    assert [Diff.Step(Diff.Keep, n)][..0] == [];
  }

  /** `std::move` of `len` lines from `read` down to `write`. */
  function MoveDown(lines: seq<string>, read: nat, write: nat, len: nat): (r: seq<string>)
    requires write <= read && read + len <= |lines|
    ensures |r| == |lines|
    ensures r[..write] == lines[..write] && r[write..write + len] == lines[read..read + len]
    ensures r[read + len..] == lines[read + len..]
  {
    lines[..write] + lines[read..read + len] + lines[write + len..]
  }

  /** New lines go into the slots between `write` and `read` first, then in front of `read`. */
  method FillGap(lines: seq<string>, read: nat, write: nat, added: seq<string>) returns (r: seq<string>, read': nat)
    requires write <= read <= |lines|
    ensures write + |added| <= read' <= |r|
    ensures r[..write + |added|] == lines[..write] + added && r[read'..] == lines[read..]
  {
    r, read' := lines, read;
    var write', count := write, 0;
    if read != write {
      count := if |added| < read - write then |added| else read - write;
      r := lines[..write] + added[..count] + lines[write + count..];
      write' := write + count;
      if |added| == count {
        return;
      }
    }
    r := r[..write'] + added[count..] + r[write'..];
    read' := read + |added| - count;
  }

  lemma OldLinesAhead(lines: seq<string>, read: nat, a: seq<string>, p: nat, len: nat)
    requires read <= |lines| && p + len <= |a| && lines[read..] == a[p..]
    ensures read + len <= |lines|
    ensures lines[read..read + len] == a[p..p + len] && lines[read + len..] == a[p + len..]
  {
    assert |lines[read..]| == |a[p..]|;
    assert lines[read..read + len] == lines[read..][..len] && a[p..p + len] == a[p..][..len];
    assert lines[read + len..] == lines[read..][len..] && a[p + len..] == a[p..][len..];
  }

  lemma GapAhead(done: seq<string>, a: seq<string>, p: nat, len: nat)
    requires p + len <= |a| && WellFormed(done) && WellFormed(a)
    ensures var now, now' := done + a[p..], done + a[p + len..];
      && WellFormed(now) && WellFormed(now') && WellFormed(a[p..p + len])
      && |done| + len <= |now| && now[|done|..|done| + len] == a[p..p + len]
      && ReplaceLines(now, |done|, |done| + len, []) == now'
      && ReplaceLines(now', |done|, |done|, a[p..p + len]) == now
  {
  }

  lemma ReplacedAhead(b: seq<string>, n: nat, len: nat, rest: seq<string>)
    requires n + len <= |b|
    ensures ReplaceLines(b[..n] + rest, n, n, b[n..n + len]) == b[..n + len] + rest
  {
  }

  lemma CommittedInSteps(h: seq<HistoryNode>, id: int, group: seq<Modification>)
    requires 0 <= id < |h| && group != []
    ensures var grown := h + [HistoryNode(id, INVALID, group)];
      grown[id := grown[id].(redoChild := |h|)] == Committed(h, id, group)
  {
  }

  /** Making `id` the redo child of its parent. */
  lemma RedirectRedo(h: seq<HistoryNode>, texts: seq<string>, parent: int, id: int)
    requires HistoryOk(h, texts) && TreeOk(h) && IsNode(h, id) && id != FIRST && parent == h[id].parent
    requires RedoPath(h, parent)
    ensures var h' := h[parent := h[parent].(redoChild := id)];
      && HistoryOk(h', texts) && TreeOk(h') && SameTree(h, h') && RedoPath(h', id)
  {
    var h' := h[parent := h[parent].(redoChild := id)];
    assert NodeOk(h, texts, id);
    forall i | 0 <= i < |h'| ensures NodeOk(h', texts, i) {
      assert NodeOk(h, texts, i);
    }
    RedoPathKept(h, h', parent, parent);
  }

  lemma RedoChildrenExist(h: seq<HistoryNode>, texts: seq<string>)
    requires HistoryOk(h, texts)
    ensures RedoOk(h)
  {
    forall i | 0 <= i < |h| ensures h[i].redoChild == INVALID || 0 <= h[i].redoChild < |h| {
      assert NodeOk(h, texts, i);
    }
  }

  lemma SomethingLeft(before: seq<string>, begin: Coord, end: Coord, after: seq<string>)
    requires WellFormed(before) && IsValid(before, begin) && IsValid(before, end) && WellFormed(after)
    requires end == EndCoord(before) ==> begin.column == 0 && begin != ORIGIN
    requires Offset(before, begin) <= Offset(before, end) <= |Flat(before)|
    requires Flat(after) == Flat(before)[..Offset(before, begin)] + Flat(before)[Offset(before, end)..]
    ensures after != []
  {
    FlatIsValidText(after);
    OffsetIsPos(before, end);
    OffsetOrder(before, ORIGIN, begin);
  }

  lemma InsertCanApply(lines: seq<string>, pos: Coord, m: Modification)
    requires WellFormed(lines) && IsValid(lines, pos) && m.kind == Kind.Insert && m.coord == pos
    requires m.content != "" && (IsEnd(lines, pos) ==> EndsLine(m.content))
    ensures CanApply(Flat(lines), m) && Offset(lines, pos) <= |Flat(lines)|
    ensures Apply(Flat(lines), m) == Splice(Flat(lines), Offset(lines, pos), 0, m.content)
  {
    OffsetIsPos(lines, pos);
  }

  /** The log entries of a replacement inside the buffer: nothing if the text is already there. */
  function ReplaceChanges(begin: Coord, end: Coord, content: string, e: Coord, current: string): seq<Change> {
    if current == content then []
    else EraseInsertChanges(begin, end, content, e)
  }

  /** The log entries of erasing up to `erasedTo` and inserting up to `e`. */
  function EraseInsertChanges(begin: Coord, erasedTo: Coord, content: string, e: Coord): seq<Change> {
    (if begin == erasedTo then [] else [Change(Kind.Erase, begin, erasedTo)])
    + (if content == "" then [] else [Change(Kind.Insert, begin, e)])
  }

  function TailChanges(before: seq<string>, after: seq<string>, begin: Coord, content: string): seq<Change>
    requires before != [] && after != [] && content != ""
  {
    if begin == EndCoord(before) then EraseInsertChanges(begin, begin, content[..|content| - 1], EndCoord(after))
    else EraseInsertChanges(begin, BackCoord(before), content[..|content| - 1], BackCoord(after))
  }

  /** The log entries of a replacement that reaches the end of the buffer: a last newline that is in both texts
      stays where it is, and so does that of a line that is not erased as a whole. */
  function ReplaceEndChanges(before: seq<string>, after: seq<string>, begin: Coord, content: string, e: Coord,
                             current: string): seq<Change>
    requires WellFormed(before) && before != [] && after != [] && IsValid(before, begin)
  {
    if current == content then []
    else if EndsLine(content) then TailChanges(before, after, begin, content)
    else EraseInsertChanges(begin, EraseEnd(before, begin, EndCoord(before)), content, e)
  }

  /** What a replacement that reaches the end of the buffer leaves from `begin` on: the last line
      keeps its newline, unless whole lines are erased. */
  function Terminated(begin: Coord, content: string): string {
    if EndsLine(content) then content
    else if content == "" && begin.column == 0 && begin != ORIGIN then ""
    else content + "\n"
  }

  /** The range is empty and at the very end, and without its last newline the content is empty or still ends a
      line. */
  predicate LosesNewline(lines: seq<string>, begin: Coord, content: string) {
    begin == EndCoord(lines) && EndsLine(content) && (|content| == 1 || content[|content| - 2] == '\n')
  }

  /** What of the content `replace` puts into the buffer. */
  function KeptContent(lines: seq<string>, begin: Coord, content: string): string {
    if LosesNewline(lines, begin, content) then content[..|content| - 1] else content
  }

  /** What a replacement that reaches the end of the buffer returns the end of: the content, with the newline
      it was given if whole lines were erased. */
  function ReturnedText(begin: Coord, content: string): string {
    if begin.column == 0 && begin != ORIGIN then Terminated(begin, content) else content
  }

  /** The text `t'` is `t` with `content` between `o` and `o'`, and the replacement ends at `n`. */
  ghost predicate ReplacedIn(t: string, o: nat, o': nat, t': string, begin: Coord, content: string, n: nat) {
    && o <= o' <= |t|
    && (o' < |t| ==> t' == t[..o] + content + t[o'..] && n == o + |content|)
    && (o' == |t| ==> t' == t[..o] + Terminated(begin, content) && n == o + |ReturnedText(begin, content)|)
  }

  /** The lines `after` are those `before` with `content` between `begin` and `end`; the replacement ends at `e`. */
  ghost predicate Replaced(before: seq<string>, after: seq<string>, begin: Coord, end: Coord, content: string, e: Coord)
    requires IsValid(before, begin) && IsValid(before, end) && IsValid(after, e)
  {
    ReplacedIn(Flat(before), Offset(before, begin), Offset(before, end), Flat(after), begin, content, Offset(after, e))
  }

  lemma ReplacedBySame(lines: seq<string>, begin: Coord, end: Coord, content: string)
    requires WellFormed(lines) && IsValid(lines, begin) && IsValid(lines, end) && Le(begin, end)
    requires lines != [] && content == Between(lines, begin, end)
    ensures Replaced(lines, lines, begin, end, content, end) && KeptContent(lines, begin, content) == content
  {
    hide Flat, Offset, ReplacedIn;
    OffsetIsPos(lines, begin);
    OffsetIsPos(lines, end);
    OffsetOrder(lines, begin, end);
    FlatIsValidText(lines);
    SameText(Flat(lines), Offset(lines, begin), Offset(lines, end), begin);
  }

  lemma SameText(t: string, o: nat, o': nat, begin: Coord)
    requires o <= o' <= |t| && if o < |t| then t[|t| - 1] == '\n' else begin.column == 0 && begin != ORIGIN
    ensures ReplacedIn(t, o, o', t, begin, t[o..o'], o')
  {
    assert t == t[..o] + t[o..o'] + t[o'..];
    if o' == |t| && o < |t| {
      assert t == t[..o] + t[o..o'] && t[o..o'][o' - o - 1] == t[|t| - 1];
    }
  }

  /** The lines `after` are those `before` without the bytes that erasing takes away. */
  ghost predicate Erased(before: seq<string>, after: seq<string>, begin: Coord, end: Coord)
    requires WellFormed(before) && before != [] && IsValid(before, begin) && IsValid(before, end)
  {
    var end' := EraseEnd(before, begin, end);
    if Le(end', begin) then after == before
    else
      && Offset(before, begin) <= Offset(before, end') <= |Flat(before)|
      && Flat(after) == Flat(before)[..Offset(before, begin)] + Flat(before)[Offset(before, end')..]
  }

  /** The lines `after` are those `before` with the text that inserting puts at `pos`. */
  ghost predicate Inserted(before: seq<string>, after: seq<string>, pos: Coord, content: string, end: Coord)
    requires IsValid(before, pos) && IsValid(after, end)
  {
    var inserted := RealContent(before, pos, content);
    && Offset(before, pos) <= |Flat(before)|
    && Flat(after) == Splice(Flat(before), Offset(before, pos), 0, inserted)
    && Offset(after, end) == Offset(before, pos) + |inserted|
  }

  /** What `erase` leaves, given that `begin` is not the end of the buffer. */
  ghost function ErasedTail(t: string, o: nat, o': nat, begin: Coord): string
    requires o <= o' <= |t| && 0 < |t|
  {
    if o' < |t| then t[o'..] else if begin.column != 0 || begin == ORIGIN then t[|t| - 1..] else ""
  }

  lemma ErasedFlat(before: seq<string>, middle: seq<string>, begin: Coord, end: Coord)
    requires WellFormed(before) && before != []
    requires IsValid(before, begin) && IsValid(before, end) && Le(begin, end) && begin != EndCoord(before)
    requires Erased(before, middle, begin, end)
    ensures Offset(before, begin) <= Offset(before, end) <= |Flat(before)| && Flat(before) != ""
    ensures Flat(middle) == Flat(before)[..Offset(before, begin)]
                          + ErasedTail(Flat(before), Offset(before, begin), Offset(before, end), begin)
  {
    hide Flat;
    var end' := EraseEnd(before, begin, end);
    var t, o := Flat(before), Offset(before, begin);
    OffsetIsPos(before, begin);
    OffsetIsPos(before, end);
    OffsetOrder(before, begin, end);
    OffsetOrder(before, end', begin);
    BackIsLast(before);
    Sequences.TakeDrop(t, o);
    Sequences.TakeAll(t);
    if end == EndCoord(before) && end' != end {
      PrevIsBack(before);
    }
  }

  lemma ErasedText(before: seq<string>, middle: seq<string>, begin: Coord, end: Coord)
    requires WellFormed(before) && before != [] && WellFormed(middle)
    requires IsValid(before, begin) && IsValid(before, end) && Le(begin, end) && begin != EndCoord(before)
    requires Erased(before, middle, begin, end)
    ensures Offset(before, begin) <= Offset(before, end) <= |Flat(before)| && Flat(before) != ""
    ensures Flat(middle) == Flat(before)[..Offset(before, begin)]
                          + ErasedTail(Flat(before), Offset(before, begin), Offset(before, end), begin)
    ensures IsValid(middle, begin) && Offset(middle, begin) == Offset(before, begin)
    ensures begin == EndCoord(middle) <==> Offset(before, begin) == |Flat(middle)|
  {
    var t, o, o' := Flat(before), Offset(before, begin), Offset(before, end);
    ErasedFlat(before, middle, begin, end);
    Sequences.Cut(t[..o], ErasedTail(t, o, o', begin));
    PlaceKept(before, middle, begin);
  }

  lemma PrevIsBack(lines: seq<string>)
    requires WellFormed(lines) && lines != []
    ensures Prev(lines, EndCoord(lines)) == BackCoord(lines)
  {
  }

  lemma ReplacedText(before: seq<string>, middle: seq<string>, after: seq<string>, begin: Coord, end: Coord,
                     content: string, e: Coord)
    requires WellFormed(before) && before != [] && IsValid(before, begin) && IsValid(before, end) && IsValid(after, e)
    requires begin != EndCoord(before) && (IsEnd(before, end) ==> !EndsLine(content))
    requires Offset(before, begin) <= Offset(before, end) <= |Flat(before)| && Flat(before) != ""
    requires Flat(middle) == Flat(before)[..Offset(before, begin)]
                           + ErasedTail(Flat(before), Offset(before, begin), Offset(before, end), begin)
    requires begin == EndCoord(middle) <==> Offset(before, begin) == |Flat(middle)|
    requires IsValid(middle, begin) && Offset(middle, begin) == Offset(before, begin)
    requires Inserted(middle, after, begin, content, e)
    requires content == "" ==> e == begin && after == middle
    ensures Replaced(before, after, begin, end, content, e)
  {
    hide Flat, Offset, ReplacedIn, ErasedTail;
    var t, o, o' := Flat(before), Offset(before, begin), Offset(before, end);
    OffsetIsPos(before, end);
    FlatIsValidText(before);
    TextReplaced(t, o, o', Flat(middle), Flat(after), begin, content, Offset(after, e));
  }

  /** Erasing and inserting is replacing. */
  lemma TextReplaced(t: string, o: nat, o': nat, middle: string, after: string, begin: Coord, content: string, n: nat)
    requires o <= o' <= |t| && t != "" && t[|t| - 1] == '\n' && (o' == |t| ==> !EndsLine(content))
    requires middle == t[..o] + ErasedTail(t, o, o', begin)
    requires var inserted := if o == |middle| && content != "" && !EndsLine(content) then content + "\n" else content;
      after == Splice(middle, o, 0, inserted) && n == o + |inserted|
    ensures ReplacedIn(t, o, o', after, begin, content, n)
  {
    var tail := ErasedTail(t, o, o', begin);
    Sequences.Cut(t[..o], tail);
  }

  /** Everything from `begin` on but the last newline is gone. */
  lemma ErasedToBack(before: seq<string>, middle: seq<string>, begin: Coord)
    requires WellFormed(before) && before != [] && WellFormed(middle) && IsValid(before, begin)
    requires begin != EndCoord(before)
    requires IsValid(before, BackCoord(before)) && Erased(before, middle, begin, BackCoord(before))
    ensures var t, o := Flat(before), Offset(before, begin);
      && o < |t| && Flat(middle) == t[..o] + "\n"
      && IsValid(middle, begin) && Offset(middle, begin) == o && !IsEnd(middle, begin)
  {
    var t, o := Flat(before), Offset(before, begin);
    BackIsLast(before);
    OffsetIsPos(before, begin);
    OffsetOrder(before, begin, BackCoord(before));
    LastByte(t);
    assert Flat(middle) == t[..o] + "\n";
    Sequences.Cut(t[..o], "\n");
    PlaceKept(before, middle, begin);
  }

  lemma LastByte(t: string)
    requires t != "" && t[|t| - 1] == '\n'
    ensures t[|t| - 1..] == "\n" && t == t[..|t| - 1] + "\n"
  {
  }

  lemma TailReplaced(t: string, o: nat, middle: string, content: string, after: string)
    requires o <= |t| && middle == t[..o] + "\n" && EndsLine(content)
    requires after == Splice(middle, o, 0, content[..|content| - 1])
    ensures after == t[..o] + content
  {
    Sequences.Cut(t[..o], "\n");
    LastByte(content);
    Sequences.Assoc(t[..o], content[..|content| - 1], "\n");
  }

  lemma TailIsReplaced(before: seq<string>, middle: seq<string>, after: seq<string>, begin: Coord, content: string,
                       e: Coord)
    requires WellFormed(before) && before != [] && WellFormed(middle) && WellFormed(after) && EndsLine(content)
    requires IsValid(before, begin) && begin != EndCoord(before) && IsValid(middle, begin) && !IsEnd(middle, begin)
    requires Offset(before, begin) <= |Flat(before)| && Offset(middle, begin) == Offset(before, begin)
    requires Flat(middle) == Flat(before)[..Offset(before, begin)] + "\n" && IsValid(after, e)
    requires Inserted(middle, after, begin, content[..|content| - 1], e)
    ensures Replaced(before, after, begin, EndCoord(before), content, EndCoord(after)) && e == BackCoord(after)
  {
    hide Flat, Offset;
    OffsetIsPos(before, EndCoord(before));
    OffsetIsPos(after, EndCoord(after));
    TailReplaced(Flat(before), Offset(before, begin), Flat(middle), content, Flat(after));
    LastPlace(after, e);
  }

  /** Inserting `added` at the very end is replacing the nothing there by `content`, if they become the same text. */
  lemma AppendedText(before: seq<string>, after: seq<string>, added: string, e: Coord, content: string)
    requires WellFormed(before) && before != [] && WellFormed(after) && IsValid(after, e)
    requires Inserted(before, after, EndCoord(before), added, e)
    requires RealContent(before, EndCoord(before), added) == Terminated(EndCoord(before), content)
    ensures Replaced(before, after, EndCoord(before), EndCoord(before), content, e) && e == EndCoord(after)
  {
    hide Flat, Offset;
    OffsetIsPos(before, EndCoord(before));
    OffsetIsPos(after, e);
    Sequences.TakeAll(Flat(before));
  }

  /** `replace` puts its whole content into the buffer exactly if that is not to go to the very end with a newline
      to spare. */
  lemma ReplacesAll(before: seq<string>, after: seq<string>, begin: Coord, end: Coord, content: string, e: Coord)
    requires WellFormed(before) && before != [] && IsValid(before, begin) && IsValid(before, end) && IsValid(after, e)
    requires Le(begin, end) && Replaced(before, after, begin, end, KeptContent(before, begin, content), e)
    ensures Replaced(before, after, begin, end, content, e) <==> !LosesNewline(before, begin, content)
  {
    OffsetIsPos(before, begin);
    OffsetOrder(before, begin, end);
    OffsetIsPos(before, end);
  }

  /** An empty line to be put at the end of a buffer of one line: nothing happens. */
  lemma EmptyLineIsLost(after: seq<string>, e: Coord)
    requires IsValid(after, e)
    requires Replaced(["a\n"], after, Coord(1, 0), Coord(1, 0), KeptContent(["a\n"], Coord(1, 0), "\n"), e)
    ensures Flat(after) == "a\n"
  {
    assert Flat(["a\n"]) == "a\n";
    OffsetIsPos(["a\n"], Coord(1, 0));
  }

  lemma LastPlace(lines: seq<string>, c: Coord)
    requires WellFormed(lines) && lines != [] && IsValid(lines, c) && Offset(lines, c) + 1 == |Flat(lines)|
    ensures c == BackCoord(lines)
  {
    BackIsLast(lines);
    OffsetIsPos(lines, c);
    OffsetIsPos(lines, BackCoord(lines));
  }

  lemma TwoLogged(log: seq<Change>, erased: seq<Change>, after: seq<Change>, begin: Coord, erasedTo: Coord,
                  content: string, e: Coord)
    requires Le(begin, erasedTo)
    requires erased == if Le(erasedTo, begin) then log else log + [Change(Kind.Erase, begin, erasedTo)]
    requires after == if content == "" then erased else erased + [Change(Kind.Insert, begin, e)]
    ensures after == log + EraseInsertChanges(begin, erasedTo, content, e)
  {
  }

  lemma EraseEndNotBefore(lines: seq<string>, begin: Coord, end: Coord)
    requires WellFormed(lines) && lines != [] && IsValid(lines, begin) && IsValid(lines, end)
    requires Le(begin, end)
    ensures Le(begin, EraseEnd(lines, begin, end))
  {
  }

  lemma NothingErased(before: seq<string>, middle: seq<string>, end: Coord)
    requires WellFormed(before) && before != [] && IsValid(before, end) && Erased(before, middle, EndCoord(before), end)
    ensures middle == before
  {
  }

  /** A place keeps its coordinate and its offset when the text before it does not change. */
  lemma PlaceKept(before: seq<string>, after: seq<string>, c: Coord)
    requires WellFormed(before) && WellFormed(after) && IsValid(before, c)
    requires Offset(before, c) <= |Flat(before)| && Offset(before, c) <= |Flat(after)|
    requires Flat(before)[..Offset(before, c)] == Flat(after)[..Offset(before, c)]
    ensures IsValid(after, c) && Offset(after, c) == Offset(before, c)
    ensures c == EndCoord(after) <==> Offset(before, c) == |Flat(after)|
  {
    OffsetIsPos(before, c);
    PosIsValid(after, Offset(before, c));
    OffsetIsPos(after, c);
  }

  lemma BackIsLast(lines: seq<string>)
    requires WellFormed(lines) && lines != []
    ensures IsValid(lines, BackCoord(lines)) && Flat(lines) != ""
    ensures Offset(lines, BackCoord(lines)) == |Flat(lines)| - 1
    ensures Flat(lines)[|Flat(lines)| - 1] == '\n'
  {
    FlatSplit(lines, |lines| - 1);
    assert lines[|lines|..] == [];
    FlatIsValidText(lines);
  }

  /** Text inserted at the very end gets the newline its last line needs. */
  function RealContent(lines: seq<string>, pos: Coord, content: string): string {
    if content != "" && IsEnd(lines, pos) && content[|content| - 1] != '\n' then content + "\n" else content
  }

  /** The last newline of the buffer is not erased, except when whole lines go, the first one
      not included. */
  function EraseEnd(lines: seq<string>, begin: Coord, end: Coord): (r: Coord)
    requires WellFormed(lines) && lines != [] && IsValid(lines, begin) && IsValid(lines, end)
    ensures IsValid(lines, r) && (r == EndCoord(lines) ==> begin.column == 0 && begin != ORIGIN)
  {
    if IsEnd(lines, end) then
      if begin.column != 0 || begin == ORIGIN then
        PrevOffset(lines, end);
        Prev(lines, end)
      else EndCoord(lines)
    else end
  }

  /** A column of zero means the byte before is a newline. */
  lemma StartOfLine(lines: seq<string>, c: Coord)
    requires WellFormed(lines) && IsValid(lines, c)
    ensures Offset(lines, c) <= |Flat(lines)|
    ensures c.column == 0 <==> Offset(lines, c) == 0 || Flat(lines)[Offset(lines, c) - 1] == '\n'
  {
    var t, o := Flat(lines), Offset(lines, c);
    OffsetIsPos(lines, c);
    if o > 0 {
      assert t[..o][..o - 1] == t[..o - 1];
    }
  }

  lemma EraseCanApply(lines: seq<string>, begin: Coord, end: Coord, m: Modification)
    requires WellFormed(lines) && IsValid(lines, begin) && IsValid(lines, end) && Lt(begin, end)
    requires end == EndCoord(lines) ==> begin.column == 0
    requires m == Modification(Kind.Erase, begin, Between(lines, begin, end))
    ensures CanApply(Flat(lines), m)
    ensures Offset(lines, begin) < Offset(lines, end) <= |Flat(lines)|
    ensures Apply(Flat(lines), m) == Flat(lines)[..Offset(lines, begin)] + Flat(lines)[Offset(lines, end)..]
  {
    OffsetIsPos(lines, begin);
    OffsetIsPos(lines, end);
    OffsetOrder(lines, begin, end);
    StartOfLine(lines, begin);
    SliceCanApply(Flat(lines), Offset(lines, begin), Offset(lines, end), m);
  }

  lemma SliceCanApply(t: string, i: nat, j: nat, m: Modification)
    requires i < j <= |t| && m.kind == Kind.Erase && m.content == t[i..j]
    requires Reaches(t, m.coord) && OffsetOf(t, m.coord) == i
    requires j == |t| ==> i == 0 || t[i - 1] == '\n'
    ensures CanApply(t, m) && Apply(t, m) == t[..i] + t[j..]
  {
    assert i + |m.content| == j;
  }

  lemma InsertDescribed(t: string, o: nat, content: string, lines: seq<string>, end: Coord)
    requires WellFormed(lines) && IsValid(lines, end) && content != "" && o <= |t|
    requires Flat(lines) == Splice(t, o, 0, content) && Offset(lines, end) == o + |content|
    ensures Describes(Change(Kind.Insert, PosOf(t[..o]), end), t, Flat(lines))
  {
    OffsetIsPos(lines, end);
    assert Flat(lines)[..o + |content|] == t[..o] + content;
    SpliceDescribed(t, o, content);
  }
}
