/** Splicing text into and out of a line list. */
module LineEdits {
  import opened Coords
  import opened Lines
  import opened Edits
  import Sequences

  predicate EndsLine(s: string) {
    s != "" && s[|s| - 1] == '\n'
  }

  /** The lines that replace the one `content` is inserted into. */
  method NewLines(prefix: string, content: string, suffix: string) returns (newLines: seq<string>)
    requires '\n' !in prefix && content != ""
    requires if suffix == "" then EndsLine(content) else WellFormedLine(suffix)
    ensures newLines != [] && WellFormed(newLines)
    ensures Flat(newLines) == prefix + content + suffix
  {
    newLines := [];
    var start := 0;
    for i := 0 to |content|
      invariant 0 <= start <= i && '\n' !in content[start..i]
      invariant LinesSoFar(newLines, prefix, content, start)
    {
      assert content[start..i + 1] == content[start..i] + [content[i]];
      if content[i] == '\n' {
        newLines := FinishLine(newLines, prefix, content, start, i);
        start := i + 1;
      }
    }
    newLines := LastLine(newLines, prefix, content, suffix, start);
  }

  method LastLine(lines: seq<string>, prefix: string, content: string, suffix: string,
                  start: nat) returns (r: seq<string>)
    requires start <= |content| && '\n' !in prefix && content != "" && '\n' !in content[start..]
    requires if suffix == "" then EndsLine(content) else WellFormedLine(suffix)
    requires LinesSoFar(lines, prefix, content, start)
    ensures r != [] && WellFormed(r)
    ensures Flat(r) == prefix + content + suffix
  {
    r := lines;
    assert content == content[..start] + content[start..];
    if start == 0 {
      r := AppendLine(r, prefix + content + suffix);
    } else if start != |content| || suffix != "" {
      r := AppendLine(r, content[start..] + suffix);
    }
  }

  ghost predicate LinesSoFar(newLines: seq<string>, prefix: string, content: string, start: int) {
    && 0 <= start <= |content| && WellFormed(newLines)
    && if start == 0 then newLines == []
       else newLines != [] && content[start - 1] == '\n' && Flat(newLines) == prefix + content[..start]
  }

  method FinishLine(lines: seq<string>, prefix: string, content: string, start: nat, i: nat) returns (r: seq<string>)
    requires start <= i < |content| && content[i] == '\n'
    requires '\n' !in prefix && '\n' !in content[start..i]
    requires LinesSoFar(lines, prefix, content, start)
    ensures LinesSoFar(r, prefix, content, i + 1)
  {
    var line := content[start..i + 1];
    assert line == content[start..i] + ['\n'] && content[..i + 1] == content[..start] + line;
    r := AppendLine(lines, if start == 0 then prefix + line else line);
  }

  method AppendLine(lines: seq<string>, line: string) returns (r: seq<string>)
    requires WellFormed(lines) && EndsLine(line) && '\n' !in line[..|line| - 1]
    ensures r == lines + [line] && WellFormed(r) && Flat(r) == Flat(lines) + line
  {
    r := lines + [line];
    FlatConcat(lines, [line]);
    FlatOne(line);
  }

  /** Lines `i` up to `j` replaced by `middle`. */
  function ReplaceLines(lines: seq<string>, i: nat, j: nat, middle: seq<string>): seq<string>
    requires i <= j <= |lines|
  {
    lines[..i] + middle + lines[j..]
  }

  lemma ReplaceLinesFlat(lines: seq<string>, i: nat, j: nat, middle: seq<string>)
    requires i <= j <= |lines|
    ensures Flat(ReplaceLines(lines, i, j, middle)) == Flat(lines[..i]) + Flat(middle) + Flat(lines[j..])
    ensures Flat(ReplaceLines(lines, i, j, middle)[..i + |middle|]) == Flat(lines[..i]) + Flat(middle)
  {
    FlatConcat(lines[..i], middle);
    FlatConcat(lines[..i] + middle, lines[j..]);
    Sequences.Cut(lines[..i] + middle, lines[j..]);
  }

  lemma ReplaceLinesWellFormed(lines: seq<string>, i: nat, j: nat, middle: seq<string>)
    requires i <= j <= |lines| && WellFormed(lines) && WellFormed(middle)
    ensures WellFormed(ReplaceLines(lines, i, j, middle))
  {
  }

  lemma CutLine(line: string, c: nat)
    requires WellFormedLine(line) && c < |line|
    ensures '\n' !in line[..c] && WellFormedLine(line[c..])
  {
    Sequences.TakeTake(line, c, |line| - 1);
    var rest := line[c..];
    forall i | 0 <= i < |rest| - 1 ensures rest[i] != '\n' {
      assert rest[i] == line[..|line| - 1][c + i];
    }
  }

  /** A line cut in two around a coordinate. */
  lemma CutAt(lines: seq<string>, c: Coord)
    requires WellFormed(lines) && IsValid(lines, c) && c.line < |lines|
    ensures var line := lines[c.line];
      && '\n' !in line[..c.column] && WellFormedLine(line[c.column..])
      && Offset(lines, c) <= |Flat(lines)|
      && Flat(lines)[..Offset(lines, c)] == Flat(lines[..c.line]) + line[..c.column]
      && Flat(lines)[Offset(lines, c)..] == line[c.column..] + Flat(lines[c.line + 1..])
  {
    var t, o, line, p, r := Flat(lines), Offset(lines, c), lines[c.line], Flat(lines[..c.line]),
      Flat(lines[c.line + 1..]);
    FlatSplit(lines, c.line);
    CutLine(line, c.column);
    Sequences.FrontPart(t, p, line, r, c.column, o);
    Sequences.BackPart(t, p, line, r, c.column, o);
  }

  /** `do_insert`: the lines after inserting `content` at `pos`, and where it ends. */
  method InsertIntoLines(lines: seq<string>, pos: Coord, content: string) returns (r: seq<string>, end: Coord)
    requires WellFormed(lines) && IsValid(lines, pos) && content != ""
    requires IsEnd(lines, pos) ==> EndsLine(content)
    ensures WellFormed(r) && IsValid(r, end)
    ensures Offset(lines, pos) <= |Flat(lines)| && Flat(r) == Splice(Flat(lines), Offset(lines, pos), 0, content)
    ensures Offset(r, end) == Offset(lines, pos) + |content|
  {
    var atEnd := IsEnd(lines, pos);
    EndOfLines(lines, pos);
    var appendLines := atEnd && (lines == [] || lines[|lines| - 1][|lines[|lines| - 1]| - 1] == '\n');
    var prefix := if appendLines then "" else lines[pos.line][..pos.column];
    var suffix := if atEnd then "" else lines[pos.line][pos.column..];
    var newLines := NewLines(prefix, content, suffix);
    var stop := if appendLines then pos.line else pos.line + 1;
    r := ReplaceLines(lines, pos.line, stop, newLines);
    if atEnd {
      end := EndCoord(r);
      InsertedAtEnd(lines, content, newLines);
    } else {
      InsertedInside(lines, pos, content, newLines);
      var lastLine := pos.line + |newLines| - 1;
      end := Coord(lastLine, |r[lastLine]| - |suffix|);
    }
  }

  /** The end is behind a terminated line; any other place is in one. */
  lemma EndOfLines(lines: seq<string>, pos: Coord)
    requires WellFormed(lines) && IsValid(lines, pos)
    ensures if IsEnd(lines, pos) then
        pos == EndCoord(lines) && Offset(lines, pos) == |Flat(lines)| && (lines != [] ==> EndsLine(lines[|lines| - 1]))
      else
        pos.line < |lines| && '\n' !in lines[pos.line][..pos.column] && WellFormedLine(lines[pos.line][pos.column..])
  {
    if IsEnd(lines, pos) {
      Sequences.TakeAll(lines);
    } else {
      CutLine(lines[pos.line], pos.column);
    }
  }

  lemma InsertedAtEnd(lines: seq<string>, content: string, newLines: seq<string>)
    requires WellFormed(lines) && WellFormed(newLines) && Flat(newLines) == "" + content + ""
    ensures var r := ReplaceLines(lines, |lines|, |lines|, newLines);
      && WellFormed(r) && Flat(r) == Splice(Flat(lines), |Flat(lines)|, 0, content)
      && Offset(r, EndCoord(r)) == |Flat(lines)| + |content|
  {
    var r := ReplaceLines(lines, |lines|, |lines|, newLines);
    assert "" + content + "" == content;
    ReplaceLinesFlat(lines, |lines|, |lines|, newLines);
    ReplaceLinesWellFormed(lines, |lines|, |lines|, newLines);
    Sequences.TakeAll(lines);
    Sequences.TakeAll(r);
    Sequences.TakeAll(Flat(lines));
  }

  lemma RegroupInside(p: string, x: string, content: string, y: string, q: string)
    ensures p + (x + content + y) + q == (p + x) + content + (y + q)
  {
  }

  lemma InsertedInside(lines: seq<string>, pos: Coord, content: string, newLines: seq<string>)
    requires WellFormed(lines) && IsValid(lines, pos) && pos.line < |lines| && content != ""
    requires newLines != [] && WellFormed(newLines)
    requires Flat(newLines) == lines[pos.line][..pos.column] + content + lines[pos.line][pos.column..]
    ensures var r := ReplaceLines(lines, pos.line, pos.line + 1, newLines);
      var last, suffix := pos.line + |newLines| - 1, lines[pos.line][pos.column..];
      && WellFormed(r) && Offset(lines, pos) <= |Flat(lines)|
      && Flat(r) == Splice(Flat(lines), Offset(lines, pos), 0, content)
      && IsValid(r, Coord(last, |r[last]| - |suffix|))
      && Offset(r, Coord(last, |r[last]| - |suffix|)) == Offset(lines, pos) + |content|
  {
    var r := ReplaceLines(lines, pos.line, pos.line + 1, newLines);
    var last, suffix := pos.line + |newLines| - 1, lines[pos.line][pos.column..];
    ReplaceLinesFlat(lines, pos.line, pos.line + 1, newLines);
    ReplaceLinesWellFormed(lines, pos.line, pos.line + 1, newLines);
    CutAt(lines, pos);
    FlatSplit(r, last);
    LastLineHoldsSuffix(newLines, lines[pos.line][..pos.column] + content, suffix);
    assert r[last] == newLines[|newLines| - 1];
    RegroupInside(Flat(lines[..pos.line]), lines[pos.line][..pos.column], content, suffix, Flat(lines[pos.line + 1..]));
  }

  lemma LastLineHoldsSuffix(newLines: seq<string>, head: string, suffix: string)
    requires newLines != [] && WellFormed(newLines) && WellFormedLine(suffix) && head != ""
    requires Flat(newLines) == head + suffix
    ensures |suffix| <= |newLines[|newLines| - 1]|
  {
    var n := |newLines| - 1;
    var p, last := Flat(newLines[..n]), newLines[n];
    FlatSplit(newLines, n);
    assert newLines[n + 1..] == [];
    FlatIsValidText(newLines[..n]);
    var t := head + suffix;
    assert p != "" ==> t[|p| - 1] == '\n';
    assert forall i :: |head| <= i < |t| - 1 ==> t[i] == suffix[..|suffix| - 1][i - |head|];
  }

  /** `do_erase`: the lines without the bytes between `begin` and `end`. */
  method EraseFromLines(lines: seq<string>, begin: Coord, end: Coord) returns (r: seq<string>)
    requires WellFormed(lines) && IsValid(lines, begin) && IsValid(lines, end) && Lt(begin, end)
    requires end == EndCoord(lines) ==> begin.column == 0
    ensures WellFormed(r)
    ensures Offset(lines, begin) < Offset(lines, end) <= |Flat(lines)|
    ensures Flat(r) == Flat(lines)[..Offset(lines, begin)] + Flat(lines)[Offset(lines, end)..]
  {
    var prefix := lines[begin.line][..begin.column];
    var suffix := if end.line == |lines| then "" else lines[end.line][end.column..];
    OffsetOrder(lines, begin, end);
    OffsetIsPos(lines, end);
    r := lines[..begin.line] + lines[end.line..];
    if end.line == |lines| {
      ErasedToEnd(lines, begin);
    } else {
      r := r[begin.line := prefix + suffix];
      CollapsedLines(lines, begin.line, end.line, prefix + suffix);
      ErasedLines(lines, begin, end, prefix + suffix);
    }
  }

  /** Whole lines, up to the end. */
  lemma ErasedToEnd(lines: seq<string>, begin: Coord)
    requires WellFormed(lines) && IsValid(lines, begin) && begin.line < |lines| && begin.column == 0
    ensures var r := lines[..begin.line] + lines[|lines|..];
      && WellFormed(r) && Offset(lines, begin) <= |Flat(lines)|
      && Flat(r) == Flat(lines)[..Offset(lines, begin)] + Flat(lines)[|Flat(lines)|..]
  {
    var t, p := Flat(lines), Flat(lines[..begin.line]);
    FlatTakeDrop(lines, begin.line);
    Sequences.TakeAll(lines);
    Sequences.TakeAll(t);
    Sequences.Cut(p, Flat(lines[begin.line..]));
    assert lines[..begin.line] + [] == lines[..begin.line] && p + "" == p;
  }

  lemma CollapsedLines(lines: seq<string>, i: nat, j: nat, line: string)
    requires i <= j < |lines|
    ensures (lines[..i] + lines[j..])[i := line] == ReplaceLines(lines, i, j + 1, [line])
  {
  }

  lemma JoinedLine(x: string, y: string)
    requires '\n' !in x && WellFormedLine(y)
    ensures WellFormedLine(x + y)
  {
    assert (x + y)[..|x + y| - 1] == x + y[..|y| - 1];
  }

  lemma Regroup(p: string, x: string, y: string, q: string)
    ensures p + (x + y) + q == (p + x) + (y + q)
  {
  }

  lemma ErasedLines(lines: seq<string>, begin: Coord, end: Coord, line: string)
    requires WellFormed(lines) && IsValid(lines, begin) && IsValid(lines, end) && Le(begin, end) && end.line < |lines|
    requires line == lines[begin.line][..begin.column] + lines[end.line][end.column..]
    ensures Offset(lines, begin) <= |Flat(lines)| && Offset(lines, end) <= |Flat(lines)|
    ensures var r := ReplaceLines(lines, begin.line, end.line + 1, [line]);
      WellFormed(r) && Flat(r) == Flat(lines)[..Offset(lines, begin)] + Flat(lines)[Offset(lines, end)..]
  {
    var r := ReplaceLines(lines, begin.line, end.line + 1, [line]);
    CutAt(lines, begin);
    CutAt(lines, end);
    var x, y := lines[begin.line][..begin.column], lines[end.line][end.column..];
    JoinedLine(x, y);
    ReplaceLinesFlat(lines, begin.line, end.line + 1, [line]);
    ReplaceLinesWellFormed(lines, begin.line, end.line + 1, [line]);
    FlatOne(line);
    Regroup(Flat(lines[..begin.line]), x, y, Flat(lines[end.line + 1..]));
  }
}
