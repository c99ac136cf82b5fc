/** Byte positions and display columns within a line, and vertical movement. */
module Columns {
  import opened Integers

  /** A character: what it adds to the byte position and, unless it is a tab, to the column. */
  datatype Glyph = Tab | Char(byteLength: nat, width: nat)

  /** The target that stands for the end of the line. */
  const MAX_COLUMN := INT_MAX

  predicate ValidGlyph(g: Glyph) {
    g.Char? ==> g.byteLength > 0 && g.width > 0
  }

  predicate ValidGlyphs(line: seq<Glyph>) {
    forall i :: 0 <= i < |line| ==> ValidGlyph(line[i])
  }

  /** A buffer line: its last character is the newline, which is one byte long. */
  predicate ValidLine(line: seq<Glyph>) {
    ValidGlyphs(line) && line != [] && line[|line| - 1].Char? && line[|line| - 1].byteLength == 1
  }

  function ByteLength(g: Glyph): nat {
    if g.Tab? then 1 else g.byteLength
  }

  function Advance(g: Glyph, tabstop: nat, col: nat): nat
    requires tabstop > 0
  {
    if g.Tab? then (col / tabstop + 1) * tabstop else col + g.width
  }

  /** The bytes of the first `i` characters. */
  function Bytes(line: seq<Glyph>, i: nat): nat
    requires i <= |line|
  {
    if i == 0 then 0 else Bytes(line, i - 1) + ByteLength(line[i - 1])
  }

  /** The columns of the first `i` characters. */
  function Cols(line: seq<Glyph>, tabstop: nat, i: nat): nat
    requires i <= |line| && tabstop > 0
  {
    if i == 0 then 0 else Advance(line[i - 1], tabstop, Cols(line, tabstop, i - 1))
  }

  lemma TabAdvances(tabstop: nat, col: nat)
    requires tabstop > 0
    ensures col < (col / tabstop + 1) * tabstop <= col + tabstop
  {
    assert col == tabstop * (col / tabstop) + col % tabstop;
    assert (col / tabstop + 1) * tabstop == tabstop * (col / tabstop) + tabstop;
  }

  /** A tab ends on the first multiple of the tab stop behind its begin. */
  lemma TabEndsOnStop(line: seq<Glyph>, tabstop: nat, i: nat)
    requires i < |line| && line[i].Tab? && tabstop > 0
    ensures var begin, end := Cols(line, tabstop, i), Cols(line, tabstop, i + 1);
      && begin < end <= begin + tabstop && end % tabstop == 0
      && forall k: nat :: begin < k * tabstop ==> end <= k * tabstop
  {
    var begin := Cols(line, tabstop, i);
    var q := begin / tabstop;
    TabAdvances(tabstop, begin);
    MultipleOf(q + 1, tabstop);
    forall k: nat | begin < k * tabstop ensures (q + 1) * tabstop <= k * tabstop {
      MultipleBehind(q, k, tabstop, begin);
    }
  }

  lemma MultipleOf(q: nat, n: nat)
    requires n > 0
    ensures (q * n) % n == 0
  {
    QuotientUnique(q, n, q * n);
  }

  lemma QuotientUnique(q: int, n: int, x: int)
    requires n > 0 && q * n <= x < q * n + n
    ensures x / n == q && x % n == x - q * n
  {
    var d := x / n - q;
    assert x == n * (x / n) + x % n;
    assert d * n == x - x % n - q * n;
    assert d >= 1 ==> d * n >= n;
    assert d <= -1 ==> d * n <= -n;
  }

  lemma MultipleBehind(q: nat, k: nat, n: nat, x: nat)
    requires n > 0 && q == x / n && x < k * n
    ensures (q + 1) * n <= k * n
  {
    assert x == n * q + x % n;
    assert k <= q ==> k * n <= q * n;
    assert q + 1 <= k ==> (q + 1) * n <= k * n;
  }

  lemma {:induction false} BytesIncrease(line: seq<Glyph>, i: nat, j: nat)
    requires ValidGlyphs(line) && i < j <= |line|
    ensures Bytes(line, i) < Bytes(line, j)
    decreases j
  {
    assert ValidGlyph(line[j - 1]);
    if i < j - 1 {
      BytesIncrease(line, i, j - 1);
    }
  }

  /** Tabs included, every character adds to the column. */
  lemma {:induction false} ColsIncrease(line: seq<Glyph>, tabstop: nat, i: nat, j: nat)
    requires ValidGlyphs(line) && i < j <= |line| && tabstop > 0
    ensures Cols(line, tabstop, i) < Cols(line, tabstop, j)
    decreases j
  {
    assert ValidGlyph(line[j - 1]);
    TabAdvances(tabstop, Cols(line, tabstop, j - 1));
    if i < j - 1 {
      ColsIncrease(line, tabstop, i, j - 1);
    }
  }

  // ----- from bytes to columns

  /** The first character boundary at or behind the byte position, or the end of the line. */
  ghost predicate IsBoundaryFor(line: seq<Glyph>, column: int, i: nat) {
    && i <= |line|
    && (i == |line| || column <= Bytes(line, i))
    && forall j :: 0 <= j < i ==> Bytes(line, j) < column
  }

  lemma BoundaryUnique(line: seq<Glyph>, column: int, i: nat, j: nat)
    requires IsBoundaryFor(line, column, i) && IsBoundaryFor(line, column, j)
    ensures i == j
  {
  }

  lemma NextBoundary(line: seq<Glyph>, tabstop: nat, i: nat)
    requires i < |line| && tabstop > 0
    ensures Bytes(line, i + 1) == Bytes(line, i) + ByteLength(line[i])
    ensures Cols(line, tabstop, i + 1) == Advance(line[i], tabstop, Cols(line, tabstop, i))
  {
  }

  /** `col` is the column of the boundary that a byte position belongs to. */
  ghost predicate IsColumnOf(line: seq<Glyph>, tabstop: nat, column: int, col: int)
    requires tabstop > 0
  {
    exists i: nat :: IsBoundaryFor(line, column, i) && col == Cols(line, tabstop, i)
  }

  /** `get_column`. */
  method GetColumn(line: seq<Glyph>, tabstop: nat, column: int) returns (col: nat)
    requires ValidGlyphs(line) && tabstop > 0
    ensures IsColumnOf(line, tabstop, column, col)
  {
    col := 0;
    var it, bytes := 0, 0;
    while it != |line| && column > bytes
      invariant it <= |line| && bytes == Bytes(line, it) && col == Cols(line, tabstop, it)
      invariant forall j :: 0 <= j < it ==> Bytes(line, j) < column
    {
      NextBoundary(line, tabstop, it);
      if line[it].Tab? {
        col := (col / tabstop + 1) * tabstop;
        bytes := bytes + 1;
      } else {
        col := col + line[it].width;
        bytes := bytes + line[it].byteLength;
      }
      it := it + 1;
    }
    assert IsBoundaryFor(line, column, it);
  }

  // ----- from columns to bytes

  /** The last character boundary whose column is at most the target; the first one if there is none. */
  ghost predicate IsLastBoundary(line: seq<Glyph>, tabstop: nat, target: int, i: nat)
    requires tabstop > 0
  {
    && i <= |line|
    && (i == 0 || Cols(line, tabstop, i) <= target)
    && forall j :: i < j <= |line| ==> Cols(line, tabstop, j) > target
  }

  lemma LastBoundaryUnique(line: seq<Glyph>, tabstop: nat, target: int, i: nat, j: nat)
    requires tabstop > 0 && IsLastBoundary(line, tabstop, target, i) && IsLastBoundary(line, tabstop, target, j)
    ensures i == j
  {
  }

  lemma NoLaterBoundary(line: seq<Glyph>, tabstop: nat, target: int, i: nat)
    requires ValidGlyphs(line) && tabstop > 0 && i <= |line|
    requires i == 0 || Cols(line, tabstop, i) <= target
    requires i == |line| || target <= Cols(line, tabstop, i) || Cols(line, tabstop, i + 1) > target
    ensures IsLastBoundary(line, tabstop, target, i)
  {
    forall j | i < j <= |line| ensures Cols(line, tabstop, j) > target {
      ColsIncrease(line, tabstop, i, j);
      if i + 1 < j {
        ColsIncrease(line, tabstop, i + 1, j);
      }
    }
  }

  /** `byte` is the place of the last boundary up to the target. */
  ghost predicate IsByteTo(line: seq<Glyph>, tabstop: nat, target: int, byte: int)
    requires tabstop > 0
  {
    exists i: nat :: IsLastBoundary(line, tabstop, target, i) && byte == Bytes(line, i)
  }

  /** `get_byte_to_column`. */
  method GetByteToColumn(line: seq<Glyph>, tabstop: nat, target: int) returns (byte: nat)
    requires ValidGlyphs(line) && tabstop > 0
    ensures IsByteTo(line, tabstop, target, byte)
  {
    var col, it := 0, 0;
    byte := 0;
    while it != |line| && target > col
      invariant it <= |line| && byte == Bytes(line, it) && col == Cols(line, tabstop, it)
      invariant it == 0 || col <= target
    {
      NextBoundary(line, tabstop, it);
      if line[it].Tab? {
        col := (col / tabstop + 1) * tabstop;
        if col > target {
          break;
        }
        byte := byte + 1;
      } else {
        var next := byte + line[it].byteLength;
        col := col + line[it].width;
        if col > target {
          break;
        }
        byte := next;
      }
      it := it + 1;
    }
    NoLaterBoundary(line, tabstop, target, it);
  }

  /** On character boundaries the two directions are inverse to each other. */
  lemma ColumnsRoundTrip(line: seq<Glyph>, tabstop: nat, i: nat)
    requires ValidGlyphs(line) && tabstop > 0 && i <= |line|
    ensures IsBoundaryFor(line, Bytes(line, i), i)
    ensures IsLastBoundary(line, tabstop, Cols(line, tabstop, i), i)
  {
    forall j | 0 <= j < i ensures Bytes(line, j) < Bytes(line, i) {
      BytesIncrease(line, j, i);
    }
    NoLaterBoundary(line, tabstop, Cols(line, tabstop, i), i);
  }

  // ----- vertical movement

  datatype CoordAndTarget = CoordAndTarget(line: int, column: int, target: int)

  function Clamp(i: int, lo: int, hi: int): int {
    if i < lo then lo else if hi < i then hi else i
  }

  /** The last byte of a line, where its newline is. */
  function MaxByte(line: seq<Glyph>): nat
    requires ValidLine(line)
  {
    Bytes(line, |line| - 1)
  }

  /** The character on which the movement ends up in a line. */
  ghost predicate LandsOn(line: seq<Glyph>, tabstop: nat, column: int, avoidEol: bool, i: nat)
    requires ValidLine(line) && tabstop > 0
  {
    var n := |line| - 1;
    var eol := Cols(line, tabstop, n);
    && i <= n
    && if column >= eol then
         i == if avoidEol && n > 0 then n - 1 else n
       else IsLastBoundary(line, tabstop, column, i)
  }

  lemma LandingUnique(line: seq<Glyph>, tabstop: nat, column: int, avoidEol: bool, i: nat, j: nat)
    requires ValidLine(line) && tabstop > 0
    requires LandsOn(line, tabstop, column, avoidEol, i) && LandsOn(line, tabstop, column, avoidEol, j)
    ensures i == j
  {
  }

  ghost predicate ValidLines(lines: seq<seq<Glyph>>) {
    lines != [] && forall k :: 0 <= k < |lines| ==> ValidLine(lines[k])
  }

  /** The column to aim for: the carried one, or that of the position itself. */
  ghost predicate Aims(lines: seq<seq<Glyph>>, tabstop: nat, coord: CoordAndTarget, column: int)
    requires 0 <= coord.line < |lines| && tabstop > 0
  {
    if coord.target == -1 then
      IsColumnOf(lines[coord.line], tabstop, coord.column, column)
    else column == coord.target
  }

  /** The line reached when aiming at `target`: that line, or the nearest there is. */
  ghost predicate IsLineReached(count: nat, target: int, line: int) {
    && 0 <= line < count
    && (0 <= target < count ==> line == target)
    && (target < 0 ==> line == 0)
    && (count <= target ==> line == count - 1)
  }

  /** No line of the buffer is nearer to the target. */
  lemma LineReachedIsNearest(count: nat, target: int, line: int, other: int)
    requires IsLineReached(count, target, line) && 0 <= other < count
    ensures Max(target - line, line - target) <= Max(target - other, other - target)
    ensures other != line ==> Max(target - line, line - target) < Max(target - other, other - target)
  {
  }

  /** What vertical movement makes of a position. */
  ghost predicate MovesTo(lines: seq<seq<Glyph>>, tabstop: nat, coord: CoordAndTarget, offset: int, r: CoordAndTarget)
    requires ValidLines(lines) && 0 <= coord.line < |lines| && tabstop > 0
  {
    && IsLineReached(|lines|, coord.line + offset, r.line)
    && Aims(lines, tabstop, coord, r.target)
    && exists i: nat ::
         LandsOn(lines[r.line], tabstop, r.target, coord.target < MAX_COLUMN, i)
         && r.column == Bytes(lines[r.line], i)
  }

  /** The column looked for in a line whose newline is at column `eol`. */
  function FinalColumn(column: int, eol: int, avoidEol: bool): int {
    Max(0, Min(column, eol - if avoidEol then 1 else 0))
  }

  /** The columns and bytes the code computes lead to the character the movement is meant for. */
  lemma LandsThere(line: seq<Glyph>, tabstop: nat, column: int, avoidEol: bool, i: nat)
    requires ValidLine(line) && tabstop > 0
    requires IsLastBoundary(line, tabstop, FinalColumn(column, Cols(line, tabstop, |line| - 1), avoidEol), i)
    ensures i <= |line| - 1 && LandsOn(line, tabstop, column, avoidEol, i)
  {
    var n := |line| - 1;
    var eol := Cols(line, tabstop, n);
    ColsIncrease(line, tabstop, n, n + 1);
    if n > 0 {
      ColsIncrease(line, tabstop, n - 1, n);
      ColsIncrease(line, tabstop, 0, n);
    }
    if column >= eol {
      var f := FinalColumn(column, eol, avoidEol);
      var last: nat := if avoidEol && n > 0 then n - 1 else n;
      NoLaterBoundary(line, tabstop, f, last);
      LastBoundaryUnique(line, tabstop, f, i, last);
    } else if column < 0 {
      NoLaterBoundary(line, tabstop, column, 0);
      NoLaterBoundary(line, tabstop, 0, 0);
      LastBoundaryUnique(line, tabstop, 0, i, 0);
    }
  }

  /** `offset_coord` for lines. */
  method OffsetCoord(lines: seq<seq<Glyph>>, coord: CoordAndTarget, offset: int,
                     tabstop: nat) returns (r: CoordAndTarget)
    requires ValidLines(lines) && 0 <= coord.line < |lines| && tabstop > 0
    ensures MovesTo(lines, tabstop, coord, offset, r)
  {
    var column := coord.target;
    if coord.target == -1 {
      column := GetColumn(lines[coord.line], tabstop, coord.column);
    }
    var avoidEol := coord.target < MAX_COLUMN;
    var line := Clamp(coord.line + offset, 0, |lines| - 1);
    var maxByte := MaxByte(lines[line]);
    var maxColumn := GetColumn(lines[line], tabstop, maxByte);
    var finalColumn := FinalColumn(column, maxColumn, avoidEol);
    var byte := GetByteToColumn(lines[line], tabstop, finalColumn);
    LandsWithin(lines[line], tabstop, column, avoidEol, maxColumn, byte);
    r := CoordAndTarget(line, Min(maxByte, byte), column);
  }

  /** The byte found is that of the character the movement is meant for. */
  lemma LandsWithin(line: seq<Glyph>, tabstop: nat, column: int, avoidEol: bool, maxColumn: int, byte: int)
    requires ValidLine(line) && tabstop > 0 && IsColumnOf(line, tabstop, MaxByte(line), maxColumn)
    requires IsByteTo(line, tabstop, FinalColumn(column, maxColumn, avoidEol), byte)
    ensures byte <= MaxByte(line)
    ensures exists i: nat :: LandsOn(line, tabstop, column, avoidEol, i) && byte == Bytes(line, i)
  {
    var n := |line| - 1;
    var k: nat :| IsBoundaryFor(line, MaxByte(line), k) && maxColumn == Cols(line, tabstop, k);
    ColumnsRoundTrip(line, tabstop, n);
    BoundaryUnique(line, MaxByte(line), k, n);
    var i: nat :| IsLastBoundary(line, tabstop, FinalColumn(column, maxColumn, avoidEol), i) && byte == Bytes(line, i);
    LandsThere(line, tabstop, column, avoidEol, i);
    BytesOrder(line, i, n);
  }

  lemma BytesOrder(line: seq<Glyph>, i: nat, j: nat)
    requires ValidGlyphs(line) && i <= j <= |line|
    ensures Bytes(line, i) <= Bytes(line, j)
  {
    if i < j {
      BytesIncrease(line, i, j);
    }
  }

  /** No clamping takes place. */
  predicate InLines(lines: seq<seq<Glyph>>, line: int) {
    0 <= line < |lines|
  }

  /** The columns of the line fit an `int`, and the end of the line is not taken for the special target. */
  ghost predicate ColumnsFit(line: seq<Glyph>, tabstop: nat)
    requires tabstop > 0
  {
    Cols(line, tabstop, |line|) < MAX_COLUMN
  }

  lemma AimIsUnique(lines: seq<seq<Glyph>>, tabstop: nat, coord: CoordAndTarget, a: int, b: int)
    requires 0 <= coord.line < |lines| && tabstop > 0
    requires Aims(lines, tabstop, coord, a) && Aims(lines, tabstop, coord, b)
    ensures a == b
  {
    if coord.target == -1 {
      var line := lines[coord.line];
      var i: nat :| IsBoundaryFor(line, coord.column, i) && a == Cols(line, tabstop, i);
      var j: nat :| IsBoundaryFor(line, coord.column, j) && b == Cols(line, tabstop, j);
      BoundaryUnique(line, coord.column, i, j);
    }
  }

  /** A position without a target aims at a column short of the special one. */
  lemma AimIsBelowMax(lines: seq<seq<Glyph>>, tabstop: nat, coord: CoordAndTarget, column: int)
    requires ValidLines(lines) && 0 <= coord.line < |lines| && tabstop > 0 && coord.target == -1
    requires Aims(lines, tabstop, coord, column) && ColumnsFit(lines[coord.line], tabstop)
    ensures 0 <= column < MAX_COLUMN
  {
    var line := lines[coord.line];
    var i: nat :| IsBoundaryFor(line, coord.column, i) && column == Cols(line, tabstop, i);
    if i < |line| {
      ColsIncrease(line, tabstop, i, |line|);
    }
  }

  /** Movement is determined. */
  lemma MovesUniquely(lines: seq<seq<Glyph>>, tabstop: nat, coord: CoordAndTarget, offset: int, r: CoordAndTarget,
                      q: CoordAndTarget)
    requires ValidLines(lines) && 0 <= coord.line < |lines| && tabstop > 0
    requires MovesTo(lines, tabstop, coord, offset, r) && MovesTo(lines, tabstop, coord, offset, q)
    ensures r == q
  {
    AimIsUnique(lines, tabstop, coord, r.target, q.target);
    var i: nat :| LandsOn(lines[r.line], tabstop, r.target, coord.target < MAX_COLUMN, i)
      && r.column == Bytes(lines[r.line], i);
    var j: nat :| LandsOn(lines[q.line], tabstop, q.target, coord.target < MAX_COLUMN, j)
      && q.column == Bytes(lines[q.line], j);
    LandingUnique(lines[r.line], tabstop, r.target, coord.target < MAX_COLUMN, i, j);
  }

  /** Without clamping, two moves are one move by the sum: the carried target forgets the lines between. */
  lemma MovesCompose(lines: seq<seq<Glyph>>, tabstop: nat, coord: CoordAndTarget, m: int, n: int, mid: CoordAndTarget,
                     r: CoordAndTarget)
    requires ValidLines(lines) && 0 <= coord.line < |lines| && tabstop > 0
    requires coord.target >= -1 && ColumnsFit(lines[coord.line], tabstop)
    requires InLines(lines, coord.line + m) && InLines(lines, coord.line + m + n)
    requires MovesTo(lines, tabstop, coord, m, mid) && MovesTo(lines, tabstop, mid, n, r)
    ensures MovesTo(lines, tabstop, coord, m + n, r)
  {
    if coord.target == -1 {
      AimIsBelowMax(lines, tabstop, coord, mid.target);
    }
    assert r.target == mid.target;
    var i: nat :| LandsOn(lines[r.line], tabstop, r.target, mid.target < MAX_COLUMN, i)
      && r.column == Bytes(lines[r.line], i);
    assert LandsOn(lines[r.line], tabstop, r.target, coord.target < MAX_COLUMN, i);
  }

  /** The position stands on the newline of a line that has other characters. */
  predicate OnEolOfNonEmpty(line: seq<Glyph>, i: nat) {
    i == |line| - 1 && |line| > 1
  }

  /** Where its own column leads a character of the line. */
  lemma LandsOnItself(line: seq<Glyph>, tabstop: nat, i: nat)
    requires ValidLine(line) && tabstop > 0 && i < |line|
    ensures LandsOn(line, tabstop, Cols(line, tabstop, i), true, if OnEolOfNonEmpty(line, i) then i - 1 else i)
  {
    ColumnsRoundTrip(line, tabstop, i);
    if i < |line| - 1 {
      ColsIncrease(line, tabstop, i, |line| - 1);
    }
  }

  /** A move by nothing stays in place exactly when not on the newline of a non-empty line. */
  lemma StaysInPlace(lines: seq<seq<Glyph>>, tabstop: nat, line: int, i: nat, r: CoordAndTarget)
    requires ValidLines(lines) && InLines(lines, line) && tabstop > 0 && i < |lines[line]|
    requires MovesTo(lines, tabstop, CoordAndTarget(line, Bytes(lines[line], i), -1), 0, r)
    ensures r.line == line && r.target == Cols(lines[line], tabstop, i)
    ensures r.column == Bytes(lines[line], i) <==> !OnEolOfNonEmpty(lines[line], i)
  {
    var glyphs := lines[line];
    var coord := CoordAndTarget(line, Bytes(glyphs, i), -1);
    ColumnsRoundTrip(glyphs, tabstop, i);
    assert Aims(lines, tabstop, coord, Cols(glyphs, tabstop, i));
    AimIsUnique(lines, tabstop, coord, r.target, Cols(glyphs, tabstop, i));
    var j: nat :| LandsOn(glyphs, tabstop, r.target, true, j) && r.column == Bytes(glyphs, j);
    var k: nat := if OnEolOfNonEmpty(glyphs, i) then i - 1 else i;
    LandsOnItself(glyphs, tabstop, i);
    LandingUnique(glyphs, tabstop, r.target, true, j, k);
    if k < i {
      BytesIncrease(glyphs, k, i);
    }
  }

  /** `n` lines down and `n` lines up again: back on the same character exactly when it was not the
      newline of a non-empty line. */
  lemma DownAndUp(lines: seq<seq<Glyph>>, tabstop: nat, line: int, i: nat, n: int, mid: CoordAndTarget,
                  r: CoordAndTarget)
    requires ValidLines(lines) && InLines(lines, line) && InLines(lines, line + n) && tabstop > 0 && i < |lines[line]|
    requires ColumnsFit(lines[line], tabstop)
    requires MovesTo(lines, tabstop, CoordAndTarget(line, Bytes(lines[line], i), -1), n, mid)
    requires MovesTo(lines, tabstop, mid, -n, r)
    ensures r.line == line && r.target == Cols(lines[line], tabstop, i)
    ensures r.column == Bytes(lines[line], i) <==> !OnEolOfNonEmpty(lines[line], i)
  {
    MovesCompose(lines, tabstop, CoordAndTarget(line, Bytes(lines[line], i), -1), n, -n, mid, r);
    StaysInPlace(lines, tabstop, line, i, r);
  }

  /** A position that carries a target, reached by vertical movement, is always come back to. */
  lemma DownAndUpAgain(lines: seq<seq<Glyph>>, tabstop: nat, start: CoordAndTarget, first: int, coord: CoordAndTarget,
                       n: int, mid: CoordAndTarget, r: CoordAndTarget)
    requires ValidLines(lines) && InLines(lines, start.line) && start.target >= -1 && tabstop > 0
    requires ColumnsFit(lines[start.line], tabstop) && InLines(lines, start.line + first)
    requires MovesTo(lines, tabstop, start, first, coord) && InLines(lines, coord.line + n)
    requires ColumnsFit(lines[coord.line], tabstop)
    requires MovesTo(lines, tabstop, coord, n, mid) && MovesTo(lines, tabstop, mid, -n, r)
    ensures r == coord
  {
    if start.target == -1 {
      AimIsBelowMax(lines, tabstop, start, coord.target);
    }
    MovesCompose(lines, tabstop, coord, n, -n, mid, r);
    MovesCompose(lines, tabstop, start, first, 0, coord, r);
    MovesUniquely(lines, tabstop, start, first, r, coord);
  }
}
