/** The line list of a buffer and the flat text it stands for. */
module Lines {
  import opened Coords
  import Sequences

  /** A stored line: one newline, at its end. */
  predicate WellFormedLine(s: string) {
    s != "" && s[|s| - 1] == '\n' && '\n' !in s[..|s| - 1]
  }

  predicate WellFormed(lines: seq<string>) {
    forall i :: 0 <= i < |lines| ==> WellFormedLine(lines[i])
  }

  ghost function Flat(lines: seq<string>): string {
    if lines == [] then "" else lines[0] + Flat(lines[1..])
  }

  lemma {:induction false} FlatConcat(a: seq<string>, b: seq<string>)
    ensures Flat(a + b) == Flat(a) + Flat(b)
  {
    if a == [] {
      assert a + b == b && "" + Flat(b) == Flat(b);
    } else {
      FlatConcat(a[1..], b);
      Sequences.FromFront(a, b);
      Sequences.Assoc(a[0], Flat(a[1..]), Flat(b));
    }
  }

  lemma FlatOne(line: string)
    ensures Flat([line]) == line
  {
    assert [line][1..] == [];
  }

  lemma FlatSplit(lines: seq<string>, i: nat)
    requires i < |lines|
    ensures Flat(lines) == Flat(lines[..i]) + lines[i] + Flat(lines[i + 1..])
    ensures Flat(lines[..i + 1]) == Flat(lines[..i]) + lines[i]
  {
    Sequences.Parts(lines, i);
    FlatOne(lines[i]);
    FlatConcat(lines[..i] + [lines[i]], lines[i + 1..]);
    FlatConcat(lines[..i], [lines[i]]);
  }

  lemma FlatTakeDrop(lines: seq<string>, i: nat)
    requires i <= |lines|
    ensures Flat(lines) == Flat(lines[..i]) + Flat(lines[i..])
  {
    Sequences.TakeDrop(lines, i);
    FlatConcat(lines[..i], lines[i..]);
  }

  // ----- coordinates that name a byte or the end of a line list

  predicate IsValid(lines: seq<string>, c: Coord) {
    && 0 <= c.line && 0 <= c.column
    && ((c.line < |lines| && c.column < |lines[c.line]|) || (c.line == |lines| && c.column == 0))
  }

  function EndCoord(lines: seq<string>): Coord {
    Coord(|lines|, 0)
  }

  function BackCoord(lines: seq<string>): Coord
    requires lines != []
  {
    Coord(|lines| - 1, |lines[|lines| - 1]| - 1)
  }

  predicate IsEnd(lines: seq<string>, c: Coord) {
    Le(EndCoord(lines), c)
  }

  ghost function Offset(lines: seq<string>, c: Coord): nat
    requires IsValid(lines, c)
  {
    |Flat(lines[..c.line])| + c.column
  }

  lemma {:induction false} PosOfNoNewline(s: string)
    requires '\n' !in s
    ensures PosOf(s) == Coord(0, |s|)
  {
    if s != "" {
      PosOfNoNewline(s[..|s| - 1]);
      assert s[|s| - 1] in s;
    }
  }

  lemma {:induction false} PosOfFlat(lines: seq<string>)
    requires WellFormed(lines)
    ensures PosOf(Flat(lines)) == EndCoord(lines)
  {
    if lines != [] {
      var n := |lines| - 1;
      FlatSplit(lines, n);
      assert lines[..n + 1] == lines;
      PosOfFlat(lines[..n]);
      PosOfNoNewline(lines[n][..|lines[n]| - 1]);
      PosOfConcat(Flat(lines[..n]), lines[n]);
    }
  }

  /** A place in a line. */
  lemma OffsetInLine(lines: seq<string>, c: Coord)
    requires WellFormed(lines) && IsValid(lines, c) && c.line < |lines|
    ensures Offset(lines, c) < |Flat(lines)| && PosOf(Flat(lines)[..Offset(lines, c)]) == c
  {
    var t, o, line, p := Flat(lines), Offset(lines, c), lines[c.line], Flat(lines[..c.line]);
    FlatSplit(lines, c.line);
    Sequences.FrontPart(t, p, line, Flat(lines[c.line + 1..]), c.column, o);
    PosOfFlat(lines[..c.line]);
    FrontOfLine(line, c.column);
    PosOfNoNewline(line[..c.column]);
    PosOfConcat(p, line[..c.column]);
  }

  lemma FrontOfLine(line: string, column: nat)
    requires WellFormedLine(line) && column < |line|
    ensures '\n' !in line[..column]
  {
    Sequences.TakeTake(line, column, |line| - 1);
  }

  /** A valid coordinate is the position reached at its own offset in the flat text. */
  lemma OffsetIsPos(lines: seq<string>, c: Coord)
    requires WellFormed(lines) && IsValid(lines, c)
    ensures Offset(lines, c) <= |Flat(lines)|
    ensures PosOf(Flat(lines)[..Offset(lines, c)]) == c
    ensures Reaches(Flat(lines), c) && OffsetOf(Flat(lines), c) == Offset(lines, c)
    ensures Offset(lines, c) == |Flat(lines)| <==> c == EndCoord(lines)
  {
    if c.line == |lines| {
      Sequences.TakeAll(lines);
      PosOfFlat(lines);
      Sequences.TakeAll(Flat(lines));
    } else {
      OffsetInLine(lines, c);
    }
    OffsetUnique(Flat(lines), Offset(lines, c));
  }

  /** Every offset of the flat text is named by a valid coordinate. */
  lemma {:induction false} PosIsValid(lines: seq<string>, o: nat)
    requires WellFormed(lines) && o <= |Flat(lines)|
    ensures IsValid(lines, PosOf(Flat(lines)[..o]))
    ensures Offset(lines, PosOf(Flat(lines)[..o])) == o
  {
    var c := FindOffset(lines, o);
    OffsetIsPos(lines, c);
  }

  lemma {:induction false} FindOffset(lines: seq<string>, o: nat) returns (c: Coord)
    requires WellFormed(lines) && o <= |Flat(lines)|
    ensures IsValid(lines, c) && Offset(lines, c) == o
  {
    if lines == [] {
      return Coord(0, 0);
    }
    var n := |lines| - 1;
    FlatSplit(lines, n);
    assert lines[..n + 1] == lines;
    if |Flat(lines[..n])| <= o {
      if o == |Flat(lines)| {
        c := EndCoord(lines);
      } else {
        c := Coord(n, o - |Flat(lines[..n])|);
      }
    } else {
      c := FindOffset(lines[..n], o);
      assert lines[..n][..n] == lines[..n];
      assert lines[..n][..c.line] == lines[..c.line];
    }
  }

  /** The order of valid coordinates is the order of their offsets. */
  lemma OffsetOrder(lines: seq<string>, a: Coord, b: Coord)
    requires WellFormed(lines) && IsValid(lines, a) && IsValid(lines, b)
    ensures Lt(a, b) <==> Offset(lines, a) < Offset(lines, b)
    ensures a == b <==> Offset(lines, a) == Offset(lines, b)
  {
    OffsetIsPos(lines, a);
    OffsetIsPos(lines, b);
    PrefixOrder(Flat(lines), Offset(lines, a), Offset(lines, b));
  }

  /** A flat text is empty or ends in a newline. */
  ghost predicate ValidText(t: string) {
    t == "" || t[|t| - 1] == '\n'
  }

  lemma {:induction false} FlatIsValidText(lines: seq<string>)
    requires WellFormed(lines)
    ensures ValidText(Flat(lines))
    ensures Flat(lines) == "" <==> lines == []
  {
    if lines != [] {
      FlatSplit(lines, |lines| - 1);
      assert lines[|lines|..] == [];
    }
  }

  lemma FirstLineNotLonger(a: string, r: string, b: string, q: string)
    requires WellFormedLine(a) && WellFormedLine(b) && a + r == b + q
    ensures |b| <= |a|
  {
    var t := a + r;
    assert t[|a| - 1] == '\n';
    assert forall i :: 0 <= i < |b| - 1 ==> t[i] == (b + q)[i] == b[..|b| - 1][i];
  }

  /** Well-formed line lists correspond one to one with their flat texts. */
  lemma {:induction false} FlatInjective(a: seq<string>, b: seq<string>)
    requires WellFormed(a) && WellFormed(b) && Flat(a) == Flat(b)
    ensures a == b
  {
    FlatIsValidText(a);
    FlatIsValidText(b);
    if a != [] {
      FirstLineNotLonger(a[0], Flat(a[1..]), b[0], Flat(b[1..]));
      FirstLineNotLonger(b[0], Flat(b[1..]), a[0], Flat(a[1..]));
      var t := Flat(a);
      assert a[0] == t[..|a[0]|] && b[0] == t[..|b[0]|];
      assert Flat(a[1..]) == t[|a[0]|..] == Flat(b[1..]);
      FlatInjective(a[1..], b[1..]);
      assert a == [a[0]] + a[1..] && b == [b[0]] + b[1..];
    }
  }

  // ----- stepping through a line list

  function Next(lines: seq<string>, c: Coord): Coord
    requires IsValid(lines, c) && c.line < |lines|
  {
    if c.column < |lines[c.line]| - 1 then Coord(c.line, c.column + 1) else Coord(c.line + 1, 0)
  }

  function Prev(lines: seq<string>, c: Coord): Coord
    requires IsValid(lines, c) && c != ORIGIN
  {
    if c.column == 0 then Coord(c.line - 1, |lines[c.line - 1]| - 1) else Coord(c.line, c.column - 1)
  }

  /** `next` is one byte further. */
  lemma NextOffset(lines: seq<string>, c: Coord)
    requires WellFormed(lines) && IsValid(lines, c) && c.line < |lines|
    ensures IsValid(lines, Next(lines, c))
    ensures Offset(lines, Next(lines, c)) == Offset(lines, c) + 1
  {
    FlatSplit(lines, c.line);
    if c.line + 1 < |lines| {
      assert WellFormedLine(lines[c.line + 1]);
    }
  }

  /** `prev` undoes `next`. */
  lemma PrevOffset(lines: seq<string>, c: Coord)
    requires WellFormed(lines) && IsValid(lines, c) && c != ORIGIN
    ensures IsValid(lines, Prev(lines, c)) && Prev(lines, c).line < |lines|
    ensures Next(lines, Prev(lines, c)) == c
  {
    if c.column == 0 {
      assert WellFormedLine(lines[c.line - 1]);
    }
  }

  /** The bytes from `begin` up to `end`. */
  ghost function Between(lines: seq<string>, begin: Coord, end: Coord): string
    requires WellFormed(lines) && IsValid(lines, begin) && IsValid(lines, end) && Le(begin, end)
  {
    OffsetOrder(lines, begin, end);
    OffsetIsPos(lines, end);
    Flat(lines)[Offset(lines, begin)..Offset(lines, end)]
  }

  /** The offset up to which `string(begin, end)` has read once it is done with the lines before `line`. */
  ghost function ReadUpTo(lines: seq<string>, begin: Coord, end: Coord, line: int): nat
    requires WellFormed(lines) && IsValid(lines, begin) && IsValid(lines, end)
    requires begin.line <= line <= |lines|
  {
    if line == begin.line then Offset(lines, begin)
    else if line <= end.line then |Flat(lines[..line])|
    else Offset(lines, end)
  }

  lemma ReadLineBounds(lines: seq<string>, begin: Coord, end: Coord, line: nat, start: nat, count: int)
    requires WellFormed(lines) && IsValid(lines, begin) && IsValid(lines, end) && Le(begin, end)
    requires begin.line <= line < |lines| && line <= end.line
    requires start == if line == begin.line then begin.column else 0
    requires count == if line == end.line then end.column - start else |lines[line]| - start
    ensures 0 <= count && start + count <= |lines[line]|
    ensures ReadUpTo(lines, begin, end, line) == |Flat(lines[..line])| + start
    ensures ReadUpTo(lines, begin, end, line + 1) == |Flat(lines[..line])| + start + count
  {
    FlatSplit(lines, line);
  }

  lemma ReadLine(lines: seq<string>, begin: Coord, end: Coord, line: nat, start: nat, count: nat)
    requires WellFormed(lines) && IsValid(lines, begin) && IsValid(lines, end)
    requires begin.line <= line < |lines| && start + count <= |lines[line]|
    requires ReadUpTo(lines, begin, end, line) == |Flat(lines[..line])| + start
    requires ReadUpTo(lines, begin, end, line + 1) == |Flat(lines[..line])| + start + count
    requires Offset(lines, begin) <= ReadUpTo(lines, begin, end, line)
    ensures ReadUpTo(lines, begin, end, line + 1) <= |Flat(lines)|
    ensures Flat(lines)[Offset(lines, begin)..ReadUpTo(lines, begin, end, line + 1)]
         == Flat(lines)[Offset(lines, begin)..ReadUpTo(lines, begin, end, line)] + lines[line][start..start + count]
  {
    var t, o, x, y := Flat(lines), Offset(lines, begin),
      ReadUpTo(lines, begin, end, line), ReadUpTo(lines, begin, end, line + 1);
    FlatSplit(lines, line);
    Sequences.MiddleSlice(t, Flat(lines[..line]), lines[line], Flat(lines[line + 1..]), start, start + count, x, y);
    Sequences.SliceParts(t, o, x, y);
  }

  /** `Buffer::string`, line by line. */
  method StringBetween(lines: seq<string>, begin: Coord, end: Coord) returns (res: string)
    requires WellFormed(lines) && IsValid(lines, begin) && IsValid(lines, end) && Le(begin, end)
    ensures res == Between(lines, begin, end)
  {
    res := "";
    var lastLine := if end.line < |lines| - 1 then end.line else |lines| - 1;
    var line := begin.line;
    ghost var t, o := Flat(lines), Offset(lines, begin);
    OffsetIsPos(lines, begin);
    while line <= lastLine
      invariant begin.line <= line <= |lines| && line <= end.line + 1
      invariant o <= ReadUpTo(lines, begin, end, line) <= |t|
      invariant res == t[o..ReadUpTo(lines, begin, end, line)]
    {
      var start := if line == begin.line then begin.column else 0;
      var count := if line == end.line then end.column - start else |lines[line]| - start;
      ReadLineBounds(lines, begin, end, line, start, count);
      ReadLine(lines, begin, end, line, start, count);
      res := res + lines[line][start..start + count];
      line := line + 1;
    }
    assert ReadUpTo(lines, begin, end, line) == Offset(lines, end);
  }

  /** `Buffer::distance` for ordered arguments: the number of bytes between them. */
  method Distance(lines: seq<string>, begin: Coord, end: Coord) returns (res: int)
    requires WellFormed(lines) && IsValid(lines, begin) && IsValid(lines, end)
    ensures res == Offset(lines, end) - Offset(lines, begin)
    decreases if Lt(end, begin) then 1 else 0
  {
    if Lt(end, begin) {
      var d := Distance(lines, end, begin);
      return -d;
    }
    if begin.line == end.line {
      return end.column - begin.column;
    }
    res := |lines[begin.line]| - begin.column;
    FlatSplit(lines, begin.line);
    var l := begin.line + 1;
    while l < end.line
      invariant begin.line < l <= end.line
      invariant res == |Flat(lines[..l])| - Offset(lines, begin)
    {
      FlatSplit(lines, l);
      res := res + |lines[l]|;
      l := l + 1;
    }
    res := res + end.column;
  }

  lemma FlatOfNothing(lines: seq<string>)
    ensures Flat(lines[..0]) == "" && Flat(lines[..|lines|]) == Flat(lines)
  {
    Sequences.TakeAll(lines);
  }

  lemma OffsetOfLine(lines: seq<string>, c: Coord)
    requires IsValid(lines, c)
    ensures Offset(lines, c) == |Flat(lines[..c.line])| + c.column
  {
  }

  /** Towards the end: `rest` is what is left of the count, from the begin of the line on. */
  method AdvanceForward(lines: seq<string>, coord: Coord, count: int) returns (res: Coord)
    requires WellFormed(lines) && IsValid(lines, coord) && coord.line < |lines| && 0 < count
    ensures IsValid(lines, res)
    ensures var o := Offset(lines, coord) + count;
            Offset(lines, res) == if |Flat(lines)| < o then |Flat(lines)| else o
  {
    hide Flat, Offset;
    FlatOfNothing(lines);
    OffsetOfLine(lines, coord);
    var line, rest := coord.line, count + coord.column;
    while rest >= |lines[line]|
      invariant coord.line <= line < |lines| && 0 <= rest
      invariant |Flat(lines[..line])| + rest == Offset(lines, coord) + count
      decreases |lines| - line
    {
      FlatSplit(lines, line);
      rest := rest - |lines[line]|;
      line := line + 1;
      if line == |lines| {
        OffsetOfLine(lines, Coord(line, 0));
        return Coord(line, 0);
      }
    }
    FlatSplit(lines, line);
    OffsetOfLine(lines, Coord(line, rest));
    res := Coord(line, rest);
  }

  /** Towards the begin. */
  method AdvanceBackward(lines: seq<string>, coord: Coord, count: int) returns (res: Coord)
    requires WellFormed(lines) && IsValid(lines, coord) && count < 0
    ensures IsValid(lines, res)
    ensures var o := Offset(lines, coord) + count; Offset(lines, res) == if o < 0 then 0 else o
  {
    hide Flat, Offset;
    FlatOfNothing(lines);
    OffsetOfLine(lines, coord);
    var line, rest := coord.line, count + coord.column;
    while rest < 0
      invariant 0 <= line <= coord.line
      invariant |Flat(lines[..line])| + rest == Offset(lines, coord) + count
      invariant rest < 0 || IsValid(lines, Coord(line, rest))
      decreases line
    {
      line := line - 1;
      if line < 0 {
        OffsetOfLine(lines, ORIGIN);
        return Coord(0, 0);
      }
      FlatSplit(lines, line);
      rest := rest + |lines[line]|;
    }
    OffsetOfLine(lines, Coord(line, rest));
    res := Coord(line, rest);
  }

  /** `Buffer::advance`: move by `count` bytes, stopping at either end of the buffer. */
  method Advance(lines: seq<string>, coord: Coord, count: int) returns (res: Coord)
    requires WellFormed(lines) && IsValid(lines, coord)
    requires 0 < count ==> coord.line < |lines|
    ensures IsValid(lines, res)
    ensures Offset(lines, res) ==
            (var o := Offset(lines, coord) + count;
             if o < 0 then 0 else if |Flat(lines)| < o then |Flat(lines)| else o)
  {
    OffsetIsPos(lines, coord);
    if count > 0 {
      res := AdvanceForward(lines, coord, count);
    } else if count < 0 {
      res := AdvanceBackward(lines, coord, count);
    } else {
      res := coord;
    }
  }
}
