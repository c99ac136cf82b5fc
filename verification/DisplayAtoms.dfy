/** Display atoms, the characters they show, and what highlighting and merging do to them. */
module DisplayAtoms {
  import opened Coords

  datatype Face = Face(fg: int, bg: int, attributes: int, underline: int)

  /** A stretch of the buffer, a stretch shown as some other text, or plain text. */
  datatype AtomType = Range | ReplacedRange | Text

  datatype Atom = Atom(kind: AtomType, begin: Coord, end: Coord, text: string, face: Face)

  predicate HasBufferRange(a: Atom) {
    !a.kind.Text?
  }

  /** Where a displayed character comes from. */
  datatype Origin = BufferByte(at: Coord) | Replacing(begin: Coord, end: Coord) | PlainText

  /** One displayed character. */
  datatype Cell = Cell(origin: Origin, c: char, face: Face)

  /** What is seen of a cell. */
  datatype Shown = Shown(c: char, face: Face)

  /** A stretch of one buffer line, up to its end at most: what `content` accepts. */
  ghost predicate OnOneLine(lines: seq<string>, a: Atom) {
    a.kind.Range? ==>
      && NonNegative(a.begin) && NonNegative(a.end) && Le(a.begin, a.end) && a.begin.line < |lines|
      && (a.end.line == a.begin.line || a.end == Coord(a.begin.line + 1, 0))
  }

  ghost predicate AllOnOneLine(lines: seq<string>, atoms: seq<Atom>) {
    forall i :: 0 <= i < |atoms| ==> OnOneLine(lines, atoms[i])
  }

  // ----- cells

  ghost function ByteCells(line: string, l: int, i: nat, j: nat, face: Face): seq<Cell>
    decreases |line| - i
  {
    if i >= j || i >= |line| then []
    else [Cell(BufferByte(Coord(l, i)), line[i], face)] + ByteCells(line, l, i + 1, j, face)
  }

  ghost function ReplacedCells(begin: Coord, end: Coord, text: string, face: Face): seq<Cell> {
    seq(|text|, i requires 0 <= i < |text| => Cell(Replacing(begin, end), text[i], face))
  }

  ghost function TextCells(text: string, face: Face): seq<Cell> {
    seq(|text|, i requires 0 <= i < |text| => Cell(PlainText, text[i], face))
  }

  /** The column up to which the atom shows its line. */
  ghost function EndColumn(lines: seq<string>, a: Atom): nat
    requires a.kind.Range? && OnOneLine(lines, a)
  {
    if a.end.line == a.begin.line then a.end.column else |lines[a.begin.line]|
  }

  ghost function AtomCells(lines: seq<string>, a: Atom): seq<Cell>
    requires OnOneLine(lines, a)
  {
    match a.kind
    case Range => ByteCells(lines[a.begin.line], a.begin.line, a.begin.column, EndColumn(lines, a), a.face)
    case ReplacedRange => ReplacedCells(a.begin, a.end, a.text, a.face)
    case Text => TextCells(a.text, a.face)
  }

  ghost function Cells(lines: seq<string>, atoms: seq<Atom>): seq<Cell>
    requires AllOnOneLine(lines, atoms)
  {
    if atoms == [] then [] else AtomCells(lines, atoms[0]) + Cells(lines, atoms[1..])
  }

  lemma {:induction false} CellsConcat(lines: seq<string>, a: seq<Atom>, b: seq<Atom>)
    requires AllOnOneLine(lines, a) && AllOnOneLine(lines, b)
    ensures AllOnOneLine(lines, a + b)
    ensures Cells(lines, a + b) == Cells(lines, a) + Cells(lines, b)
  {
    if a == [] {
      assert a + b == b;
    } else {
      assert (a + b)[1..] == a[1..] + b;
      CellsConcat(lines, a[1..], b);
    }
  }

  lemma CellsOfOne(lines: seq<string>, a: Atom)
    requires OnOneLine(lines, a)
    ensures Cells(lines, [a]) == AtomCells(lines, a)
  {
    assert Cells(lines, [a]) == AtomCells(lines, a) + Cells(lines, []);
  }

  lemma {:induction false} ByteCellsSplit(line: string, l: int, i: nat, k: nat, j: nat, face: Face)
    requires i <= k && (k <= j || |line| <= j)
    ensures ByteCells(line, l, i, j, face) == ByteCells(line, l, i, k, face) + ByteCells(line, l, k, j, face)
    decreases |line| - i
  {
    if i < k && i < |line| {
      ByteCellsSplit(line, l, i + 1, k, j, face);
    } else if i == k {
      assert ByteCells(line, l, i, k, face) == [];
    }
  }

  // ----- painting

  /** Whether highlighting from `begin` to `end` reaches the cell. */
  predicate Reached(cell: Cell, begin: Coord, end: Coord, skipReplaced: bool) {
    match cell.origin
    case BufferByte(at) => Le(begin, at) && Lt(at, end)
    case Replacing(b, e) => !skipReplaced && Lt(b, end) && Lt(begin, e)
    case PlainText => false
  }

  function PaintCell(cell: Cell, begin: Coord, end: Coord, skipReplaced: bool, f: Face -> Face): Cell {
    if Reached(cell, begin, end, skipReplaced) then cell.(face := f(cell.face)) else cell
  }

  ghost function Paint(cells: seq<Cell>, begin: Coord, end: Coord, skipReplaced: bool, f: Face -> Face): seq<Cell> {
    seq(|cells|, i requires 0 <= i < |cells| => PaintCell(cells[i], begin, end, skipReplaced, f))
  }

  lemma PaintConcat(a: seq<Cell>, b: seq<Cell>, begin: Coord, end: Coord, skipReplaced: bool, f: Face -> Face)
    ensures Paint(a + b, begin, end, skipReplaced, f)
      == Paint(a, begin, end, skipReplaced, f) + Paint(b, begin, end, skipReplaced, f)
  {
  }

  lemma PaintNothing(cells: seq<Cell>, begin: Coord, end: Coord, skipReplaced: bool, f: Face -> Face)
    requires forall i :: 0 <= i < |cells| ==> !Reached(cells[i], begin, end, skipReplaced)
    ensures Paint(cells, begin, end, skipReplaced, f) == cells
  {
  }

  lemma {:induction false} ByteCellAt(line: string, l: int, i: nat, j: nat, face: Face, k: nat)
    requires k < |ByteCells(line, l, i, j, face)|
    ensures i + k < j && i + k < |line|
    ensures ByteCells(line, l, i, j, face)[k] == Cell(BufferByte(Coord(l, i + k)), line[i + k], face)
    decreases |line| - i
  {
    if k > 0 {
      ByteCellAt(line, l, i + 1, j, face, k - 1);
    }
  }

  lemma {:induction false} ByteCellsFaced(line: string, l: int, i: nat, j: nat, a: Face, b: Face)
    ensures |ByteCells(line, l, i, j, a)| == |ByteCells(line, l, i, j, b)|
    decreases |line| - i
  {
    if i < j && i < |line| {
      ByteCellsFaced(line, l, i + 1, j, a, b);
    }
  }

  /** Bytes all within the highlighted stretch get the new face. */
  lemma PaintInside(line: string, l: int, i: nat, j: nat, face: Face, begin: Coord, end: Coord, skipReplaced: bool,
                    f: Face -> Face)
    requires forall x :: i <= x < j && x < |line| ==> Le(begin, Coord(l, x)) && Lt(Coord(l, x), end)
    ensures Paint(ByteCells(line, l, i, j, face), begin, end, skipReplaced, f) == ByteCells(line, l, i, j, f(face))
  {
    var plain, painted := ByteCells(line, l, i, j, face), ByteCells(line, l, i, j, f(face));
    ByteCellsFaced(line, l, i, j, face, f(face));
    forall k | 0 <= k < |plain| ensures PaintCell(plain[k], begin, end, skipReplaced, f) == painted[k] {
      ByteCellAt(line, l, i, j, face, k);
      ByteCellAt(line, l, i, j, f(face), k);
    }
  }

  /** Bytes all outside the highlighted stretch stay as they are. */
  lemma PaintOutside(line: string, l: int, i: nat, j: nat, face: Face, begin: Coord, end: Coord, skipReplaced: bool,
                     f: Face -> Face)
    requires forall x :: i <= x < j && x < |line| ==> Lt(Coord(l, x), begin) || Le(end, Coord(l, x))
    ensures Paint(ByteCells(line, l, i, j, face), begin, end, skipReplaced, f) == ByteCells(line, l, i, j, face)
  {
    var cells := ByteCells(line, l, i, j, face);
    forall k | 0 <= k < |cells| ensures !Reached(cells[k], begin, end, skipReplaced) {
      ByteCellAt(line, l, i, j, face, k);
    }
    PaintNothing(cells, begin, end, skipReplaced, f);
  }

  // ----- highlighting

  /** The highlighting passes the atom by. */
  predicate PassedBy(a: Atom, begin: Coord, end: Coord, skipReplaced: bool) {
    a.kind.Text? || (skipReplaced && a.kind.ReplacedRange?) || Le(end, a.begin) || Le(a.end, begin)
  }

  /** What becomes of one atom: at most three pieces, cut at `begin` and at `end`. */
  function HighlightAtom(a: Atom, begin: Coord, end: Coord, skipReplaced: bool, f: Face -> Face): seq<Atom> {
    if PassedBy(a, begin, end, skipReplaced) then [a]
    else if a.kind.ReplacedRange? then [a.(face := f(a.face))]
    else
      (if Lt(a.begin, begin) then [a.(end := begin)] else [])
      + [Atom(a.kind, if Lt(a.begin, begin) then begin else a.begin, if Lt(end, a.end) then end else a.end,
              a.text, f(a.face))]
      + (if Lt(end, a.end) then [a.(begin := end)] else [])
  }

  function HighlightAtoms(atoms: seq<Atom>, begin: Coord, end: Coord, skipReplaced: bool, f: Face -> Face): seq<Atom> {
    if atoms == [] then []
    else
      HighlightAtoms(atoms[..|atoms| - 1], begin, end, skipReplaced, f)
      + HighlightAtom(atoms[|atoms| - 1], begin, end, skipReplaced, f)
  }

  /** The parts of a stretch in front of, inside and behind the highlighted one. */
  lemma CutRange(lines: seq<string>, a: Atom, pos: Coord, face: Face)
    requires a.kind.Range? && OnOneLine(lines, a) && NonNegative(pos) && Lt(a.begin, pos) && Lt(pos, a.end)
    ensures pos.line == a.begin.line
    ensures OnOneLine(lines, a.(end := pos)) && OnOneLine(lines, a.(begin := pos))
    ensures AtomCells(lines, a) == AtomCells(lines, a.(end := pos)) + AtomCells(lines, a.(begin := pos))
  {
    ByteCellsSplit(lines[a.begin.line], a.begin.line, a.begin.column, pos.column, EndColumn(lines, a), a.face);
  }

  /** A stretch that lies outside as a whole. */
  lemma RangeOutside(lines: seq<string>, a: Atom, begin: Coord, end: Coord, skipReplaced: bool, f: Face -> Face)
    requires a.kind.Range? && OnOneLine(lines, a) && (Le(end, a.begin) || Le(a.end, begin))
    ensures Paint(AtomCells(lines, a), begin, end, skipReplaced, f) == AtomCells(lines, a)
  {
    var l := a.begin.line;
    PaintOutside(lines[l], l, a.begin.column, EndColumn(lines, a), a.face, begin, end, skipReplaced, f);
  }

  /** A stretch that lies inside as a whole. */
  lemma RangeInside(lines: seq<string>, a: Atom, begin: Coord, end: Coord, skipReplaced: bool, f: Face -> Face)
    requires a.kind.Range? && OnOneLine(lines, a) && Le(begin, a.begin) && Le(a.end, end)
    ensures OnOneLine(lines, a.(face := f(a.face)))
    ensures Paint(AtomCells(lines, a), begin, end, skipReplaced, f) == AtomCells(lines, a.(face := f(a.face)))
  {
    var l := a.begin.line;
    PaintInside(lines[l], l, a.begin.column, EndColumn(lines, a), a.face, begin, end, skipReplaced, f);
  }

  /** A stretch whose begin is inside. */
  lemma RangeFromInside(lines: seq<string>, a: Atom, begin: Coord, end: Coord, skipReplaced: bool, f: Face -> Face)
    requires a.kind.Range? && OnOneLine(lines, a) && NonNegative(end) && Le(begin, a.begin) && Lt(a.begin, end)
    ensures var pieces :=
      [a.(end := if Lt(end, a.end) then end else a.end).(face := f(a.face))]
      + if Lt(end, a.end) then [a.(begin := end)] else [];
      AllOnOneLine(lines, pieces) && Cells(lines, pieces) == Paint(AtomCells(lines, a), begin, end, skipReplaced, f)
  {
    if Lt(end, a.end) {
      var inner, rest := a.(end := end), a.(begin := end);
      CutRange(lines, a, end, a.face);
      PaintConcat(AtomCells(lines, inner), AtomCells(lines, rest), begin, end, skipReplaced, f);
      RangeInside(lines, inner, begin, end, skipReplaced, f);
      RangeOutside(lines, rest, begin, end, skipReplaced, f);
      CellsOfOne(lines, inner.(face := f(a.face)));
      CellsOfOne(lines, rest);
      CellsConcat(lines, [inner.(face := f(a.face))], [rest]);
    } else {
      RangeInside(lines, a, begin, end, skipReplaced, f);
      CellsOfOne(lines, a.(face := f(a.face)));
    }
  }

  lemma HighlightRangeAtom(lines: seq<string>, a: Atom, begin: Coord, end: Coord, skipReplaced: bool, f: Face -> Face)
    requires a.kind.Range? && OnOneLine(lines, a) && NonNegative(begin) && NonNegative(end) && Lt(begin, end)
    ensures var pieces := HighlightAtom(a, begin, end, skipReplaced, f);
      AllOnOneLine(lines, pieces) && Cells(lines, pieces) == Paint(AtomCells(lines, a), begin, end, skipReplaced, f)
  {
    var pieces := HighlightAtom(a, begin, end, skipReplaced, f);
    if PassedBy(a, begin, end, skipReplaced) {
      RangeOutside(lines, a, begin, end, skipReplaced, f);
      CellsOfOne(lines, a);
    } else if Lt(a.begin, begin) {
      var first, rest := a.(end := begin), a.(begin := begin);
      CutRange(lines, a, begin, a.face);
      PaintConcat(AtomCells(lines, first), AtomCells(lines, rest), begin, end, skipReplaced, f);
      RangeOutside(lines, first, begin, end, skipReplaced, f);
      RangeFromInside(lines, rest, begin, end, skipReplaced, f);
      var others := [rest.(end := if Lt(end, a.end) then end else a.end).(face := f(a.face))]
        + if Lt(end, a.end) then [rest.(begin := end)] else [];
      CellsOfOne(lines, first);
      CellsConcat(lines, [first], others);
      assert pieces == [first] + others;
    } else {
      RangeFromInside(lines, a, begin, end, skipReplaced, f);
    }
  }

  lemma HighlightOneAtom(lines: seq<string>, a: Atom, begin: Coord, end: Coord, skipReplaced: bool, f: Face -> Face)
    requires OnOneLine(lines, a) && NonNegative(begin) && NonNegative(end) && Lt(begin, end)
    ensures var pieces := HighlightAtom(a, begin, end, skipReplaced, f);
      AllOnOneLine(lines, pieces) && Cells(lines, pieces) == Paint(AtomCells(lines, a), begin, end, skipReplaced, f)
  {
    if a.kind.Range? {
      HighlightRangeAtom(lines, a, begin, end, skipReplaced, f);
    } else {
      var painted := HighlightAtom(a, begin, end, skipReplaced, f)[0];
      CellsOfOne(lines, painted);
      assert Paint(AtomCells(lines, a), begin, end, skipReplaced, f) == AtomCells(lines, painted);
    }
  }

  /** Highlighting paints exactly the cells it reaches, and changes nothing else. */
  lemma {:induction false} HighlightPaints(lines: seq<string>, atoms: seq<Atom>, begin: Coord, end: Coord,
          skipReplaced: bool, f: Face -> Face)
    requires AllOnOneLine(lines, atoms) && NonNegative(begin) && NonNegative(end) && Lt(begin, end)
    ensures var painted := HighlightAtoms(atoms, begin, end, skipReplaced, f);
      AllOnOneLine(lines, painted) && Cells(lines, painted) == Paint(Cells(lines, atoms), begin, end, skipReplaced, f)
  {
    if atoms != [] {
      var n := |atoms| - 1;
      HighlightPaints(lines, atoms[..n], begin, end, skipReplaced, f);
      HighlightOneAtom(lines, atoms[n], begin, end, skipReplaced, f);
      CellsConcat(lines, HighlightAtoms(atoms[..n], begin, end, skipReplaced, f),
        HighlightAtom(atoms[n], begin, end, skipReplaced, f));
      CellsConcat(lines, atoms[..n], [atoms[n]]);
      CellsOfOne(lines, atoms[n]);
      assert atoms[..n] + [atoms[n]] == atoms;
      PaintConcat(Cells(lines, atoms[..n]), AtomCells(lines, atoms[n]), begin, end, skipReplaced, f);
    }
  }

  ghost function TextOf(cells: seq<Cell>): string {
    seq(|cells|, i requires 0 <= i < |cells| => cells[i].c)
  }

  /** The displayed text does not change. */
  lemma PaintKeepsText(cells: seq<Cell>, begin: Coord, end: Coord, skipReplaced: bool, f: Face -> Face)
    ensures TextOf(Paint(cells, begin, end, skipReplaced, f)) == TextOf(cells)
  {
    var painted := Paint(cells, begin, end, skipReplaced, f);
    forall i | 0 <= i < |cells| ensures painted[i].c == cells[i].c {
    }
  }
}
