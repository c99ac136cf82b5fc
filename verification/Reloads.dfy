/** What reloading records: whole lines inserted and erased, one modification a line and one
    change a step of the difference. */
module Reloads {
  import opened Coords
  import opened Lines
  import opened Edits
  import opened LineEdits
  import opened Options
  import opened ChangeMaps
  import Diff
  import Sequences

  // ----- reading a difference step by step

  ghost function OldLen(s: seq<Diff.Step>): int {
    if s == [] then 0
    else OldLen(s[..|s| - 1]) + if s[|s| - 1].op == Diff.Add then 0 else s[|s| - 1].len
  }

  ghost function NewLen(s: seq<Diff.Step>): int {
    if s == [] then 0
    else NewLen(s[..|s| - 1]) + if s[|s| - 1].op == Diff.Remove then 0 else s[|s| - 1].len
  }

  lemma {:induction false} ScriptLens<T>(s: seq<Diff.Step>, a: seq<T>, b: seq<T>)
    requires Diff.Script(s, a, b)
    ensures OldLen(s) == |a| && NewLen(s) == |b|
  {
    if s != [] {
      var s', step := s[..|s| - 1], s[|s| - 1];
      ScriptLens(s', if step.op == Diff.Add then a else a[..|a| - step.len],
                     if step.op == Diff.Remove then b else b[..|b| - step.len]);
    }
  }

  /** A script cut short covers a prefix of either side. */
  lemma {:induction false} ScriptCut<T>(s: seq<Diff.Step>, a: seq<T>, b: seq<T>, i: nat)
    requires Diff.Script(s, a, b) && i <= |s|
    ensures 0 <= OldLen(s[..i]) <= |a| && 0 <= NewLen(s[..i]) <= |b|
    ensures Diff.Script(s[..i], a[..OldLen(s[..i])], b[..NewLen(s[..i])])
  {
    if i == |s| {
      assert s[..i] == s && a[..|a|] == a && b[..|b|] == b;
      ScriptLens(s, a, b);
    } else {
      var s', step := s[..|s| - 1], s[|s| - 1];
      var a' := if step.op == Diff.Add then a else a[..|a| - step.len];
      var b' := if step.op == Diff.Remove then b else b[..|b| - step.len];
      ScriptCut(s', a', b', i);
      assert s'[..i] == s[..i];
      assert a'[..OldLen(s[..i])] == a[..OldLen(s[..i])] && b'[..NewLen(s[..i])] == b[..NewLen(s[..i])];
    }
  }

  /** The next step takes either side on from where the script was cut. */
  ghost predicate NextStep<T>(step: Diff.Step, a: seq<T>, b: seq<T>, x: int, y: int, x': int, y': int) {
    && 0 < step.len && 0 <= x <= x' <= |a| && 0 <= y <= y' <= |b|
    && x' == (if step.op == Diff.Add then x else x + step.len)
    && y' == (if step.op == Diff.Remove then y else y + step.len)
    && (step.op == Diff.Keep ==> a[x..x'] == b[y..y'])
  }

  lemma ScriptStep<T>(s: seq<Diff.Step>, a: seq<T>, b: seq<T>, i: nat)
    requires Diff.Script(s, a, b) && i < |s|
    ensures NextStep(s[i], a, b, OldLen(s[..i]), NewLen(s[..i]), OldLen(s[..i + 1]), NewLen(s[..i + 1]))
  {
    ScriptCut(s, a, b, i);
    ScriptCut(s, a, b, i + 1);
    assert s[..i + 1][..i] == s[..i];
    var x, x', y, y' := OldLen(s[..i]), OldLen(s[..i + 1]), NewLen(s[..i]), NewLen(s[..i + 1]);
    assert s[i].op != Diff.Add ==> x == x' - s[i].len;
    if s[i].op == Diff.Keep {
      assert a[..x'][x..] == a[x..x'] && b[..y'][y..] == b[y..y'];
    }
  }

  // ----- what reloading logs

  /** The log entries of one step, at line `k` of the new lines: whole lines inserted or erased there. */
  function ChangeOf(step: Diff.Step, k: int): seq<Change> {
    match step.op
    case Keep => []
    case Add => [Change(Insert, Coord(k, 0), Coord(k + step.len, 0))]
    case Remove => [Change(Erase, Coord(k, 0), Coord(k + step.len, 0))]
  }

  ghost function ChangesOf(s: seq<Diff.Step>): seq<Change> {
    if s == [] then [] else ChangesOf(s[..|s| - 1]) + ChangeOf(s[|s| - 1], NewLen(s[..|s| - 1]))
  }

  function LineAfter(step: Diff.Step, line: int): int {
    match step.op
    case Keep => line
    case Add => line + step.len
    case Remove => line - step.len
  }

  /** A step takes a place in a line still to come to where that line now begins. */
  lemma StepMaps(step: Diff.Step, k: int, line: int, column: int)
    requires 0 < step.len && 0 <= k && 0 <= column
    requires if step.op == Diff.Remove then k + step.len <= line else k <= line
    ensures Takes(ChangeOf(step, k), Coord(line, column), Coord(LineAfter(step, line), column))
  {
    var log := ChangeOf(step, k);
    assert log != [] ==> log[1..] == [];
  }

  lemma ChangesSnoc(s: seq<Diff.Step>, m: nat)
    requires 0 < m <= |s|
    ensures ChangesOf(s[..m]) == ChangesOf(s[..m - 1]) + ChangeOf(s[m - 1], NewLen(s[..m - 1]))
  {
    Sequences.TakeTake(s, m - 1, m);
  }

  /** The log takes `p`, which it never erases, to `q`. */
  ghost predicate Takes(log: seq<Change>, p: Coord, q: Coord) {
    Alive(log, p) && Fold(log, p) == q
  }

  lemma TakesOn(log: seq<Change>, more: seq<Change>, p: Coord, q: Coord, r: Coord)
    requires Takes(log, p, q) && Takes(more, q, r)
    ensures Takes(log + more, p, r)
  {
    FoldConcat(log, more, p);
  }

  lemma StepLens<T>(s: seq<Diff.Step>, a: seq<T>, b: seq<T>, i: nat)
    requires Diff.Script(s, a, b) && i < |s|
    ensures 0 < s[i].len && 0 <= OldLen(s[..i]) && 0 <= NewLen(s[..i])
    ensures OldLen(s[..i + 1]) == OldLen(s[..i]) + if s[i].op == Diff.Add then 0 else s[i].len
    ensures NewLen(s[..i + 1]) == NewLen(s[..i]) + if s[i].op == Diff.Remove then 0 else s[i].len
  {
    ScriptStep(s, a, b, i);
  }

  lemma NextLine<T>(s: seq<Diff.Step>, a: seq<T>, b: seq<T>, i: nat, line: int)
    requires Diff.Script(s, a, b) && i < |s| && OldLen(s[..i + 1]) <= line
    ensures 0 < s[i].len && 0 <= NewLen(s[..i]) && OldLen(s[..i]) <= line
    ensures s[i].op == Diff.Remove ==> OldLen(s[..i]) + s[i].len <= line
    ensures LineAfter(s[i], NewLen(s[..i]) + line - OldLen(s[..i])) == NewLen(s[..i + 1]) + line - OldLen(s[..i + 1])
  {
    hide OldLen, NewLen, Diff.Script;
    StepLens(s, a, b, i);
  }

  /** Before the step that keeps it, a line moves with the lines in front of it. */
  lemma {:induction false} LineAhead<T>(s: seq<Diff.Step>, a: seq<T>, b: seq<T>, m: nat, line: int, column: int)
    requires Diff.Script(s, a, b) && m <= |s| && OldLen(s[..m]) <= line && 0 <= column
    ensures Takes(ChangesOf(s[..m]), Coord(line, column), Coord(NewLen(s[..m]) + line - OldLen(s[..m]), column))
  {
    if m != 0 {
      hide Takes, ChangesOf, ChangeOf, OldLen, NewLen, LineAfter, Diff.Script;
      var k, line' := NewLen(s[..m - 1]), NewLen(s[..m - 1]) + line - OldLen(s[..m - 1]);
      NextLine(s, a, b, m - 1, line);
      LineAhead(s, a, b, m - 1, line, column);
      StepMaps(s[m - 1], k, line', column);
      ChangesSnoc(s, m);
      TakesOn(ChangesOf(s[..m - 1]), ChangeOf(s[m - 1], k), Coord(line, column), Coord(line', column),
              Coord(LineAfter(s[m - 1], line'), column));
    }
  }

  /** Later steps do not move it any more. */
  lemma {:induction false} LineBehind<T>(s: seq<Diff.Step>, a: seq<T>, b: seq<T>, n: nat, m: nat, p: Coord, line: int,
                                         column: int)
    requires Diff.Script(s, a, b) && n <= m <= |s| && 0 <= line < NewLen(s[..n]) && 0 <= column
    requires Takes(ChangesOf(s[..n]), p, Coord(line, column))
    ensures Takes(ChangesOf(s[..m]), p, Coord(line, column)) && NewLen(s[..n]) <= NewLen(s[..m])
  {
    if n != m {
      hide Takes, ChangesOf, ChangeOf, OldLen, NewLen, Diff.Script;
      var k := NewLen(s[..m - 1]);
      StepLens(s, a, b, m - 1);
      LineBehind(s, a, b, n, m - 1, p, line, column);
      BehindStep(s[m - 1], k, line, column);
      ChangesSnoc(s, m);
      TakesOn(ChangesOf(s[..m - 1]), ChangeOf(s[m - 1], k), p, Coord(line, column), Coord(line, column));
    }
  }

  lemma BehindStep(step: Diff.Step, k: int, line: int, column: int)
    requires 0 < step.len && 0 <= line < k && 0 <= column
    ensures Takes(ChangeOf(step, k), Coord(line, column), Coord(line, column))
  {
    var log := ChangeOf(step, k);
    assert log != [] ==> log[1..] == [];
  }

  /** A place in a kept line is never erased, and the log takes it to the same place in the line as which it is kept. */
  lemma KeptLineStays<T>(s: seq<Diff.Step>, a: seq<T>, b: seq<T>, n: nat, line: int, column: int)
    requires Diff.Script(s, a, b) && n < |s| && s[n].op == Diff.Keep && 0 <= column
    requires OldLen(s[..n]) <= line < OldLen(s[..n + 1])
    ensures var line' := NewLen(s[..n]) + line - OldLen(s[..n]);
      && 0 <= line < |a| && 0 <= line' < |b| && a[line] == b[line']
      && Alive(ChangesOf(s), Coord(line, column)) && Fold(ChangesOf(s), Coord(line, column)) == Coord(line', column)
  {
    var line' := NewLen(s[..n]) + line - OldLen(s[..n]);
    KeptLine(s, a, b, n, line);
    assert Takes(ChangesOf(s), Coord(line, column), Coord(line', column)) by {
      hide Takes, ChangesOf, OldLen, NewLen, Diff.Script;
      StepLens(s, a, b, n);
      LineAhead(s, a, b, n, line, column);
      ChangesSnoc(s, n + 1);
      Sequences.TakeAll(ChangesOf(s[..n]));
      LineBehind(s, a, b, n + 1, |s|, Coord(line, column), line', column);
      Sequences.TakeAll(s);
    }
  }

  lemma KeptLine<T>(s: seq<Diff.Step>, a: seq<T>, b: seq<T>, n: nat, line: int)
    requires Diff.Script(s, a, b) && n < |s| && s[n].op == Diff.Keep
    requires OldLen(s[..n]) <= line < OldLen(s[..n + 1])
    ensures var line' := NewLen(s[..n]) + line - OldLen(s[..n]);
      0 <= line < |a| && 0 <= line' < |b| && a[line] == b[line']
  {
    hide OldLen, NewLen, Diff.Script;
    var x, y := OldLen(s[..n]), NewLen(s[..n]);
    ScriptStep(s, a, b, n);
    SameAt(a, x, b, y, s[n].len, line - x);
  }

  lemma SameAt<T>(a: seq<T>, x: nat, b: seq<T>, y: nat, n: nat, i: nat)
    requires i < n && x + n <= |a| && y + n <= |b| && a[x..x + n] == b[y..y + n]
    ensures a[x + i] == b[y + i]
  {
    assert a[x..x + n][i] == b[y..y + n][i];
  }

  // ----- whole lines

  lemma LineStart(lines: seq<string>, k: nat)
    requires WellFormed(lines) && k <= |lines|
    ensures IsValid(lines, Coord(k, 0)) && Offset(lines, Coord(k, 0)) == |Flat(lines[..k])| <= |Flat(lines)|
    ensures Reaches(Flat(lines), Coord(k, 0)) && OffsetOf(Flat(lines), Coord(k, 0)) == |Flat(lines[..k])|
    ensures Flat(lines) == Flat(lines[..k]) + Flat(lines[k..])
  {
    if k < |lines| {
      assert WellFormedLine(lines[k]);
    }
    OffsetIsPos(lines, Coord(k, 0));
    FlatTakeDrop(lines, k);
  }

  /** Inserting a line, as a modification of the flat text. */
  lemma InsertLine(lines: seq<string>, k: nat, line: string)
    requires WellFormed(lines) && k <= |lines| && WellFormedLine(line)
    ensures var m := Modification(Insert, Coord(k, 0), line);
      CanApply(Flat(lines), m) && Apply(Flat(lines), m) == Flat(ReplaceLines(lines, k, k, [line]))
  {
    LineStart(lines, k);
    FlatOne(line);
    ReplaceLinesFlat(lines, k, k, [line]);
    Sequences.Cut(Flat(lines[..k]), Flat(lines[k..]));
  }

  /** Erasing a line is the inverse of inserting it. */
  lemma EraseLine(lines: seq<string>, k: nat)
    requires WellFormed(lines) && k < |lines|
    ensures var m := Modification(Erase, Coord(k, 0), lines[k]);
      CanApply(Flat(lines), m) && Apply(Flat(lines), m) == Flat(ReplaceLines(lines, k, k + 1, []))
  {
    var without := ReplaceLines(lines, k, k + 1, []);
    var m := Modification(Insert, Coord(k, 0), lines[k]);
    forall i | 0 <= i < |without| ensures WellFormedLine(without[i]) {
      assert i < k ==> without[i] == lines[i];
      assert k <= i ==> without[i] == lines[i + 1];
    }
    InsertLine(without, k, lines[k]);
    assert ReplaceLines(without, k, k, [lines[k]]) == lines;
    FlatIsValidText(without);
    ApplyInverse(Flat(without), m);
  }

  /** Inserting and erasing lines, as entries of the change log. */
  lemma LinesDescribed(lines: seq<string>, k: nat, middle: seq<string>)
    requires WellFormed(lines) && k <= |lines| && WellFormed(middle) && middle != []
    ensures var with := ReplaceLines(lines, k, k, middle);
      && Describes(Change(Insert, Coord(k, 0), Coord(k + |middle|, 0)), Flat(lines), Flat(with))
      && Describes(Change(Erase, Coord(k, 0), Coord(k + |middle|, 0)), Flat(with), Flat(lines))
  {
    LineStart(lines, k);
    ReplaceLinesFlat(lines, k, k, middle);
    FlatIsValidText(middle);
    var t, o := Flat(lines), |Flat(lines[..k])|;
    Sequences.Cut(Flat(lines[..k]), Flat(lines[k..]));
    SpliceDescribed(t, o, Flat(middle));
    PosOfFlat(lines[..k]);
    FlatConcat(lines[..k], middle);
    PosOfFlat(lines[..k] + middle);
  }

  // ----- the modifications recorded for one step

  /** The pending group leads from `base` to `t`. */
  ghost predicate LeadsTo(base: string, group: seq<Modification>, t: string) {
    Replay(base, group) == Some(t)
  }

  method RecordInsertions(group: seq<Modification>, k: nat, middle: seq<string>, ghost base: string,
                          ghost lines: seq<string>)
      returns (r: seq<Modification>)
    requires WellFormed(lines) && k <= |lines| && WellFormed(middle)
    requires LeadsTo(base, group, Flat(lines))
    ensures group <= r && |r| == |group| + |middle|
    ensures LeadsTo(base, r, Flat(ReplaceLines(lines, k, k, middle)))
  {
    hide CanApply, Apply, Flat;
    r := group;
    assert ReplaceLines(lines, k, k, middle[..0]) == lines;
    for i := 0 to |middle|
      invariant group <= r && |r| == |group| + i
      invariant LeadsTo(base, r, Flat(ReplaceLines(lines, k, k, middle[..i])))
    {
      InsertNextLine(lines, k, middle, i);
      ReplaySnoc(base, r, Modification(Insert, Coord(k + i, 0), middle[i]));
      r := r + [Modification(Insert, Coord(k + i, 0), middle[i])];
    }
    assert middle[..|middle|] == middle;
  }

  lemma ReplacedAgain(lines: seq<string>, k: nat, middle: seq<string>, i: nat)
    requires k <= |lines| && i < |middle|
    ensures var now := ReplaceLines(lines, k, k, middle[..i]);
      k + i <= |now| && ReplaceLines(now, k + i, k + i, [middle[i]]) == ReplaceLines(lines, k, k, middle[..i + 1])
  {
  }

  lemma InsertNextLine(lines: seq<string>, k: nat, middle: seq<string>, i: nat)
    requires WellFormed(lines) && k <= |lines| && WellFormed(middle) && i < |middle|
    ensures var t, m := Flat(ReplaceLines(lines, k, k, middle[..i])), Modification(Insert, Coord(k + i, 0), middle[i]);
      CanApply(t, m) && Apply(t, m) == Flat(ReplaceLines(lines, k, k, middle[..i + 1]))
  {
    ReplaceLinesWellFormed(lines, k, k, middle[..i]);
    ReplacedAgain(lines, k, middle, i);
    InsertLine(ReplaceLines(lines, k, k, middle[..i]), k + i, middle[i]);
  }

  lemma RemovedAgain(lines: seq<string>, i: nat, end: nat)
    requires i < end <= |lines|
    ensures var now := ReplaceLines(lines, i + 1, end, []);
      i < |now| && now[i] == lines[i] && ReplaceLines(now, i, i + 1, []) == ReplaceLines(lines, i, end, [])
  {
  }

  lemma EraseNextLine(lines: seq<string>, i: nat, end: nat)
    requires WellFormed(lines) && i < end <= |lines|
    ensures var t, m := Flat(ReplaceLines(lines, i + 1, end, [])), Modification(Erase, Coord(i, 0), lines[i]);
      CanApply(t, m) && Apply(t, m) == Flat(ReplaceLines(lines, i, end, []))
  {
    ReplaceLinesWellFormed(lines, i + 1, end, []);
    RemovedAgain(lines, i, end);
    EraseLine(ReplaceLines(lines, i + 1, end, []), i);
  }

  method RecordErasures(group: seq<Modification>, k: nat, gone: seq<string>, ghost base: string,
                        ghost lines: seq<string>)
      returns (r: seq<Modification>)
    requires WellFormed(lines) && k + |gone| <= |lines| && lines[k..k + |gone|] == gone
    requires LeadsTo(base, group, Flat(lines))
    ensures group <= r && |r| == |group| + |gone|
    ensures LeadsTo(base, r, Flat(ReplaceLines(lines, k, k + |gone|, [])))
  {
    hide CanApply, Apply, Flat;
    r := group;
    var i := |gone|;
    ghost var end := k + |gone|;
    assert ReplaceLines(lines, end, end, []) == lines;
    while i > 0
      invariant 0 <= i <= |gone| && group <= r && |r| == |group| + |gone| - i
      invariant LeadsTo(base, r, Flat(ReplaceLines(lines, k + i, end, [])))
    {
      i := i - 1;
      EraseNextLine(lines, k + i, end);
      assert lines[k + i] == lines[k..end][i];
      ReplaySnoc(base, r, Modification(Erase, Coord(k + i, 0), gone[i]));
      r := r + [Modification(Erase, Coord(k + i, 0), gone[i])];
    }
  }
}
