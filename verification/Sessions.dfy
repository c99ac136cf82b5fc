/** Whole runs of buffer operations, and what holds after all of them. */
module Sessions {
  import opened Coords
  import opened Lines
  import opened Edits
  import opened History
  import opened Buffers
  import opened ChangeMaps
  import opened RangeUpdates
  import Diff
  import Sequences
  import opened Options

  datatype Command =
    | InsertText(pos: Coord, content: string)
    | EraseText(begin: Coord, end: Coord)
    | ReplaceText(begin: Coord, end: Coord, content: string)
    | Commit
    | UndoSteps(count: nat)
    | RedoSteps(count: nat)
    | GoTo(id: int)
    | ReloadLines(newLines: seq<string>)
    | Save

  /** What the operation demands of its caller. */
  predicate Allowed(lines: seq<string>, command: Command) {
    match command
    case InsertText(pos, _) => IsValid(lines, pos)
    case EraseText(begin, end) => IsValid(lines, begin) && IsValid(lines, end)
    case ReplaceText(begin, end, _) =>
      IsValid(lines, begin) && IsValid(lines, end) && Le(begin, end)
    case ReloadLines(newLines) => WellFormed(newLines) && newLines != []
    case _ => true
  }

  /** Log, log trace and history texts only ever grow. */
  twostate predicate Grows(buffer: Buffer)
    reads buffer
  {
    && old(buffer.changes) <= buffer.changes
    && old(buffer.trace) <= buffer.trace
    && old(buffer.texts) <= buffer.texts
  }

  /** The operation makes the text at hand the saved one. */
  predicate SavesText(command: Command) {
    command.Save? || command.ReloadLines?
  }

  /** A buffer between two operations. */
  datatype Stage = Stage(lines: seq<string>, history: seq<HistoryNode>, historyId: int, pending: seq<Modification>,
                         texts: seq<string>)

  ghost function StageOf(buffer: Buffer): Stage
    reads buffer
  {
    Stage(buffer.lines, buffer.history, buffer.historyId, buffer.currentUndoGroup, buffer.texts)
  }

  ghost predicate StageOk(s: Stage) {
    && WellFormed(s.lines) && s.lines != []
    && TreeOk(s.history) && RedoOk(s.history) && IsNode(s.history, s.historyId) && |s.texts| == |s.history|
  }

  /** The text is the one at the current node, with nothing pending. */
  ghost predicate AtItsNode(s: Stage)
    requires StageOk(s)
  {
    s.pending == [] && Flat(s.lines) == s.texts[s.historyId]
  }

  ghost predicate Edited(a: Stage, b: Stage) {
    b.history == a.history && b.historyId == a.historyId && b.texts == a.texts && a.pending <= b.pending
  }

  ghost predicate CommittedTo(a: Stage, b: Stage)
    requires StageOk(a)
  {
    && b.lines == a.lines && b.pending == []
    && b.history == Committed(a.history, a.historyId, a.pending)
    && b.historyId == CommittedId(a.history, a.historyId, a.pending)
  }

  /** The pending group is committed first; the lines then are the new ones, at the same node or at a child of it
      whose group leads from the old text to the new one and, inverted, back, with as few modifications as possible.
      If the lines are the old ones, nothing else happens. */
  ghost predicate ReloadedTo(a: Stage, b: Stage, newLines: seq<string>)
    requires StageOk(a) && StageOk(b)
  {
    var h, id := Committed(a.history, a.historyId, a.pending), CommittedId(a.history, a.historyId, a.pending);
    && AtItsNode(b) && b.lines == newLines
    && (exists n :: ReloadedHistory(h, id, b.history, b.historyId, b.texts, Flat(a.lines), Flat(b.lines), n)
                    && forall s :: Diff.Script(s, a.lines, newLines) && Diff.Edits(s) <= 1998 ==> n <= Diff.Edits(s))
    && (a.lines == newLines ==> b.history == h && b.historyId == id)
  }

  /** The operation leads from stage `a` to stage `b`. */
  ghost predicate Leads(command: Command, a: Stage, b: Stage)
    requires StageOk(a) && StageOk(b) && Allowed(a.lines, command)
  {
    match command
    case InsertText(pos, content) =>
      Edited(a, b) && exists e :: IsValid(b.lines, e) && Inserted(a.lines, b.lines, pos, content, e)
    case EraseText(begin, end) =>
      Edited(a, b) && Erased(a.lines, b.lines, begin, end)
    case ReplaceText(begin, end, content) =>
      && Edited(a, b)
      && exists e ::
           IsValid(b.lines, e) && Replaced(a.lines, b.lines, begin, end, KeptContent(a.lines, begin, content), e)
    case Commit => CommittedTo(a, b)
    case UndoSteps(count) =>
      && AtItsNode(b) && b.history == Committed(a.history, a.historyId, a.pending)
      && b.historyId == UndoTarget(b.history, CommittedId(a.history, a.historyId, a.pending), count)
    case RedoSteps(count) =>
      if a.pending != [] || a.history[a.historyId].redoChild == INVALID then b == a
      else AtItsNode(b) && b.history == a.history && b.historyId == RedoTarget(a.history, a.historyId, count)
    case GoTo(id) =>
      if IsNode(a.history, id) then
        && AtItsNode(b) && b.historyId == id
        && RedirectedTo(Committed(a.history, a.historyId, a.pending), b.history, id)
      else b == a
    case ReloadLines(newLines) => ReloadedTo(a, b, newLines)
    case Save => CommittedTo(a, b)
  }

  lemma ValidStage(buffer: Buffer)
    requires buffer.Valid()
    ensures StageOk(StageOf(buffer))
    ensures buffer.currentUndoGroup == [] ==> AtItsNode(StageOf(buffer))
  {
    RedoChildrenExist(buffer.history, buffer.texts);
    assert Replay(buffer.texts[buffer.historyId], []) == Some(buffer.texts[buffer.historyId]);
  }

  method Edit(buffer: Buffer, command: Command)
    requires buffer.Valid() && Allowed(buffer.lines, command)
    requires command.InsertText? || command.EraseText? || command.ReplaceText?
    modifies buffer
    ensures buffer.Valid() && Grows(buffer) && buffer.history == old(buffer.history)
    ensures buffer.saved == old(buffer.saved) && buffer.lastSaveHistoryId == old(buffer.lastSaveHistoryId)
    ensures StageOk(old(StageOf(buffer))) && StageOk(StageOf(buffer))
    ensures Leads(command, old(StageOf(buffer)), StageOf(buffer))
  {
    hide StageOk, HistoryOk, TreeOk, RedoPath, RedoOk, Replay, Inserted, Erased, Replaced, LogMatches;
    ValidStage(buffer);
    match command
    case InsertText(pos, content) =>
      var begin, end := buffer.Insert(pos, content);
      ValidStage(buffer);
    case EraseText(begin, end) =>
      var r := buffer.Erase(begin, end);
      ValidStage(buffer);
    case ReplaceText(begin, end, content) =>
      var b, e := buffer.Replace(begin, end, content);
      ValidStage(buffer);
  }

  method Travel(buffer: Buffer, command: Command)
    requires buffer.Valid() && (command.UndoSteps? || command.RedoSteps? || command.GoTo?)
    modifies buffer
    ensures buffer.Valid() && Grows(buffer) && SameTree(old(buffer.history), buffer.history)
    ensures buffer.saved == old(buffer.saved) && buffer.lastSaveHistoryId == old(buffer.lastSaveHistoryId)
    ensures StageOk(old(StageOf(buffer))) && StageOk(StageOf(buffer))
    ensures Leads(command, old(StageOf(buffer)), StageOf(buffer))
  {
    hide HistoryOk, TreeOk, RedoPath, RedoOk, Replay, LogMatches;
    ValidStage(buffer);
    ghost var committed := Committed(buffer.history, buffer.historyId, buffer.currentUndoGroup);
    CommitKeepsTree(buffer.history, buffer.historyId, buffer.currentUndoGroup);
    match command
    case UndoSteps(count) =>
      var ok := buffer.Undo(count);
      ValidStage(buffer);
    case RedoSteps(count) =>
      var ok := buffer.Redo(count);
      ValidStage(buffer);
    case GoTo(id) =>
      var ok := buffer.MoveTo(id);
      if ok {
        SameTreeTransitive(old(buffer.history), committed, buffer.history);
      }
      ValidStage(buffer);
  }

  method ReloadTo(buffer: Buffer, newLines: seq<string>)
    requires buffer.Valid() && WellFormed(newLines) && newLines != []
    modifies buffer
    ensures buffer.Valid() && Grows(buffer) && SameTree(old(buffer.history), buffer.history)
    ensures StageOk(old(StageOf(buffer))) && StageOk(StageOf(buffer))
    ensures ReloadedTo(old(StageOf(buffer)), StageOf(buffer), newLines) && buffer.saved == buffer.Text()
    ensures buffer.lastSaveHistoryId == buffer.historyId
  {
    hide StageOk, HistoryOk, TreeOk, RedoPath, RedoOk, Replay, LogMatches, Diff.Script, Diff.Edits;
    ValidStage(buffer);
    ghost var committed := Committed(buffer.history, buffer.historyId, buffer.currentUndoGroup);
    CommitKeepsTree(buffer.history, buffer.historyId, buffer.currentUndoGroup);
    ghost var diff := buffer.Reload(newLines);
    ValidStage(buffer);
    ReloadKeepsTree(old(buffer.history), committed,
                    CommittedId(old(buffer.history), old(buffer.historyId), old(buffer.currentUndoGroup)),
                    buffer.history, buffer.historyId, buffer.texts, old(buffer.Text()), buffer.Text(),
                    Diff.Edits(diff));
  }

  lemma ReloadKeepsTree(h: seq<HistoryNode>, committed: seq<HistoryNode>, id: int, h': seq<HistoryNode>, id': int,
                        texts: seq<string>, before: string, after: string, n: int)
    requires SameTree(h, committed) && ReloadedHistory(committed, id, h', id', texts, before, after, n)
    ensures SameTree(h, h')
  {
    var group := if id' == id then [] else h'[id'].undoGroup;
    CommitKeepsTree(committed, id, group);
    SameTreeTransitive(h, committed, h');
  }

  /** One operation, whichever it is. */
  method Execute(buffer: Buffer, command: Command)
    requires buffer.Valid() && Allowed(buffer.lines, command)
    modifies buffer
    ensures buffer.Valid() && Grows(buffer) && SameTree(old(buffer.history), buffer.history)
    ensures StageOk(old(StageOf(buffer))) && StageOk(StageOf(buffer))
    ensures Leads(command, old(StageOf(buffer)), StageOf(buffer))
    ensures buffer.saved == if SavesText(command) then buffer.Text() else old(buffer.saved)
    ensures buffer.lastSaveHistoryId == if SavesText(command) then buffer.historyId else old(buffer.lastSaveHistoryId)
  {
    hide StageOk, HistoryOk, TreeOk, RedoPath, RedoOk, Replay, LogMatches;
    ValidStage(buffer);
    CommitKeepsTree(buffer.history, buffer.historyId, buffer.currentUndoGroup);
    match command
    case Commit =>
      buffer.CommitUndoGroup();
      ValidStage(buffer);
    case ReloadLines(newLines) =>
      ReloadTo(buffer, newLines);
    case Save =>
      buffer.NotifySaved();
      ValidStage(buffer);
    case UndoSteps(_) => Travel(buffer, command);
    case RedoSteps(_) => Travel(buffer, command);
    case GoTo(_) => Travel(buffer, command);
    case _ => Edit(buffer, command);
  }

  /** The text is the first text with the groups from the root to the current node, and then the
      pending group, replayed on it. */
  ghost predicate TextIsHistory(buffer: Buffer)
    requires buffer.Valid()
    reads buffer
  {
    Replay(buffer.texts[FIRST], PathGroup(buffer.history, buffer.historyId) + buffer.currentUndoGroup) ==
      Some(buffer.Text())
  }

  lemma ValidMeansReplay(buffer: Buffer)
    requires buffer.Valid()
    ensures TextIsHistory(buffer)
  {
    TextIsReplay(buffer.history, buffer.texts, buffer.historyId);
    ReplayConcat(buffer.texts[FIRST], PathGroup(buffer.history, buffer.historyId), buffer.currentUndoGroup);
  }

  /** The stage of the last save or reload, or the first one. */
  function LastSaved(commands: seq<Command>): (i: nat)
    ensures i <= |commands|
  {
    if commands == [] then 0
    else if SavesText(commands[|commands| - 1]) then |commands|
    else LastSaved(commands[..|commands| - 1])
  }

  /** The operation at `i` leads from stage `i` to the next one. */
  ghost predicate LeadsAt(commands: seq<Command>, stages: seq<Stage>, i: nat)
    requires i < |commands| && i + 1 < |stages|
  {
    && StageOk(stages[i]) && StageOk(stages[i + 1]) && Allowed(stages[i].lines, commands[i])
    && Leads(commands[i], stages[i], stages[i + 1])
  }

  /** One stage for each operation and one before all of them.  The operations lead from stage to stage, and none
      of them changed the parents, the groups or the texts of the history nodes there were. */
  ghost predicate StagesOk(commands: seq<Command>, stages: seq<Stage>, now: Stage) {
    && |stages| == |commands| + 1
    && stages[|commands|] == now
    && (forall i :: 0 <= i < |commands| ==> LeadsAt(commands, stages, i))
    && (forall i :: 0 <= i < |stages| ==> SameTree(stages[i].history, now.history) && stages[i].texts <= now.texts)
  }

  lemma NextStage(commands: seq<Command>, stages: seq<Stage>, now: Stage, command: Command, next: Stage)
    requires StagesOk(commands, stages, now)
    requires StageOk(now) && StageOk(next) && Allowed(now.lines, command) && Leads(command, now, next)
    requires SameTree(now.history, next.history) && now.texts <= next.texts
    ensures StagesOk(commands + [command], stages + [next], next)
  {
    hide Leads, StageOk;
    var commands', stages' := commands + [command], stages + [next];
    forall i | 0 <= i < |commands'| ensures LeadsAt(commands', stages', i) {
      assert i < |commands| ==> LeadsAt(commands, stages, i);
    }
    forall i | 0 <= i < |stages'| ensures SameTree(stages'[i].history, next.history) && stages'[i].texts <= next.texts {
      if i < |stages| {
        SameTreeTransitive(stages[i].history, now.history, next.history);
      }
    }
  }

  lemma LastSavedSnoc(commands: seq<Command>, command: Command)
    ensures LastSaved(commands + [command]) == if SavesText(command) then |commands| + 1 else LastSaved(commands)
  {
    Sequences.Cut(commands, [command]);
  }

  /** Any run of operations, as far as their callers' duties are met. */
  method Run(lines: seq<string>, isFile: bool, commands: seq<Command>)
      returns (buffer: Buffer, done: nat, ghost stages: seq<Stage>)
    requires WellFormed(lines) && lines != []
    ensures fresh(buffer) && buffer.Valid() && buffer.isFile == isFile
    ensures done <= |commands| && (done < |commands| ==> !Allowed(buffer.lines, commands[done]))
    ensures buffer.texts[FIRST] == Flat(lines) && TextIsHistory(buffer)
    ensures StagesOk(commands[..done], stages, StageOf(buffer)) && stages[0].lines == lines
    ensures buffer.IsModified() <==>
      && isFile
      && (buffer.currentUndoGroup != [] || buffer.historyId != stages[LastSaved(commands[..done])].historyId)
    ensures isFile && !buffer.IsModified() ==> buffer.lines == stages[LastSaved(commands[..done])].lines
    ensures LogMatches(buffer.changes, buffer.trace) && |buffer.trace| > 1 && buffer.trace[1] == Flat(lines)
    ensures buffer.trace[|buffer.changes|] == buffer.Text()
  {
    buffer := new Buffer(isFile, lines);
    done := 0;
    stages := [StageOf(buffer)];
    while done < |commands| && Allowed(buffer.lines, commands[done])
      invariant done <= |commands| && fresh(buffer) && buffer.Valid() && buffer.isFile == isFile
      invariant |buffer.trace| > 1 && buffer.trace[1] == Flat(lines) && buffer.texts[FIRST] == Flat(lines)
      invariant StagesOk(commands[..done], stages, StageOf(buffer)) && stages[0].lines == lines
      invariant WellFormed(stages[LastSaved(commands[..done])].lines)
      invariant buffer.saved == Flat(stages[LastSaved(commands[..done])].lines)
      invariant buffer.lastSaveHistoryId == stages[LastSaved(commands[..done])].historyId
    {
      ghost var now := StageOf(buffer);
      Execute(buffer, commands[done]);
      ghost var next := StageOf(buffer);
      NextStage(commands[..done], stages, now, commands[done], next);
      LastSavedSnoc(commands[..done], commands[done]);
      Sequences.Parts(commands, done);
      stages := stages + [next];
      done := done + 1;
    }
    ValidMeansReplay(buffer);
    if isFile && !buffer.IsModified() {
      buffer.UnmodifiedIsSaved();
      FlatInjective(buffer.lines, stages[LastSaved(commands[..done])].lines);
    }
  }

  /** `n` steps of undo and `n` steps of redo, with nothing pending: everything is as before. */
  method UndoThenRedo(buffer: Buffer, n: nat)
    requires buffer.Valid() && buffer.currentUndoGroup == [] && n <= Depth(buffer.history, buffer.historyId)
    modifies buffer
    ensures buffer.Valid() && Grows(buffer)
    ensures buffer.historyId == old(buffer.historyId) && buffer.lines == old(buffer.lines)
    ensures buffer.history == old(buffer.history) && buffer.currentUndoGroup == []
  {
    ghost var h, id := buffer.history, buffer.historyId;
    assert Replay(buffer.texts[id], []) == Some(buffer.texts[id]);
    RedoChildrenExist(h, buffer.texts);
    RedoAfterUndo(h, id, n);
    var undone := buffer.Undo(n);
    assert buffer.historyId == UndoTarget(h, id, n);
    var redone := buffer.Redo(n);
    assert buffer.historyId == id;
    FlatInjective(buffer.lines, old(buffer.lines));
  }

  /** Moving to the node `n` steps up the tree, and `n` steps of redo: everything is as before. */
  method MoveUpThenRedo(buffer: Buffer, top: int, n: nat)
    requires buffer.Valid() && buffer.currentUndoGroup == [] && n <= Depth(buffer.history, buffer.historyId)
    requires top == UndoTarget(buffer.history, buffer.historyId, n)
    modifies buffer
    ensures buffer.Valid() && Grows(buffer)
    ensures buffer.historyId == old(buffer.historyId) && buffer.lines == old(buffer.lines)
    ensures buffer.history == old(buffer.history) && buffer.currentUndoGroup == []
  {
    ghost var h, id := buffer.history, buffer.historyId;
    assert Replay(buffer.texts[id], []) == Some(buffer.texts[id]);
    RedoChildrenExist(h, buffer.texts);
    RedoAfterUndo(h, id, n);
    RedoPathAbove(h, id, n);
    var moved := buffer.MoveTo(top);
    RedirectedWhereItLeads(h, buffer.history, top);
    var redone := buffer.Redo(n);
    assert buffer.historyId == id;
    FlatInjective(buffer.lines, old(buffer.lines));
  }

  // ----- ranges of a buffer

  lemma MatchingLogIsWellFormed(log: seq<Change>, trace: seq<string>)
    requires LogMatches(log, trace)
    ensures WellFormedLog(log)
  {
    forall i | 0 <= i < |log| ensures WellFormedChange(log[i]) {
      assert DescribesStep(log, trace, i);
      DescribedIsWellFormed(log[i], trace[i], trace[i + 1]);
    }
  }

  /** If `p` was the place of a byte of the first text that no change of the log erased, then `r` is the place
      of that same byte in the last text: at the offset to which the changes have taken it. */
  ghost predicate KeepsItsByte(log: seq<Change>, trace: seq<string>, p: Coord, r: Coord)
    requires LogMatches(log, trace)
  {
    forall o: nat {:trigger trace[0][o]} :: o < |trace[0]| && p == PosOf(trace[0][..o]) && Alive(log, p) ==>
      var o' := OffsetThrough(log, trace, o);
      0 <= o' < |trace[|log|]| && r == PosOf(trace[|log|][..o']) && trace[|log|][o'] == trace[0][o]
  }

  lemma CarriedKeepsItsByte(log: seq<Change>, trace: seq<string>, p: Coord, r: Coord)
    requires LogMatches(log, trace) && Carried(log, p, r)
    ensures KeepsItsByte(log, trace, p, r)
  {
    forall o: nat | o < |trace[0]| && p == PosOf(trace[0][..o]) && Alive(log, p)
      ensures var o' := OffsetThrough(log, trace, o);
        0 <= o' < |trace[|log|]| && r == PosOf(trace[|log|][..o']) && trace[|log|][o'] == trace[0][o]
    {
      EndpointsKeepTheirBytes(log, trace, o, r);
    }
  }

  ghost predicate RangeKeepsItsBytes(log: seq<Change>, trace: seq<string>, before: Range, after: Range)
    requires LogMatches(log, trace)
  {
    && KeepsItsByte(log, trace, before.first, after.first)
    && if IsEmptyRange(before) then after.last == before.last else KeepsItsByte(log, trace, before.last, after.last)
  }

  /** Ranges recorded at `timestamp`, brought up to date with the buffer: as long as they are in order and no pass
      leaves an empty range alone that is to move, they are in order as before, and every endpoint whose byte was not
      erased is on that byte. */
  method UpdateBufferRanges(buffer: Buffer, timestamp: nat, ranges: array<Range>) returns (ghost passes: seq<Pass>)
    requires buffer.Valid() && timestamp <= |buffer.changes| && AllPlaced(ranges[..])
    modifies ranges
    ensures Chained(passes, buffer.changes[timestamp..], old(ranges[..]), ranges[..]) && AllPlaced(ranges[..])
    ensures AllChosen(passes, buffer.changes[timestamp..], |buffer.changes| - timestamp)
    ensures var log, trace := buffer.changes[timestamp..], buffer.trace[timestamp..];
      LogMatches(log, trace) && trace[|log|] == buffer.Text()
    ensures Ordered(old(ranges[..])) && (NoneEmpty(old(ranges[..])) || AllHarmless(passes)) ==>
      && Ordered(ranges[..])
      && forall i :: 0 <= i < ranges.Length ==>
           RangeKeepsItsBytes(buffer.changes[timestamp..], buffer.trace[timestamp..], old(ranges[i]), ranges[i])
  {
    hide Chained, AllChosen, Carried, KeepsItsByte, Ordered, NoneEmpty, AllHarmless;
    ghost var before := ranges[..];
    ghost var log, trace := buffer.changes[timestamp..], buffer.trace[timestamp..];
    MatchingLogIsWellFormed(buffer.changes, buffer.trace);
    LogMatchesFrom(buffer.changes, buffer.trace, timestamp);
    passes := UpdateRanges(buffer.changes, timestamp, ranges);
    if AllCarried(log, before, ranges[..]) {
      forall i | 0 <= i < ranges.Length ensures RangeKeepsItsBytes(log, trace, before[i], ranges[i]) {
        assert RangeCarried(log, before[i], ranges[..][i]);
        CarriedKeepsItsByte(log, trace, before[i].first, ranges[i].first);
        if !IsEmptyRange(before[i]) {
          CarriedKeepsItsByte(log, trace, before[i].last, ranges[i].last);
        }
      }
    }
  }
}
