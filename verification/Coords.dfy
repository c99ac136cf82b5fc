/** Buffer coordinates: a line and a byte column, ordered lexicographically.

    A coordinate also works as a displacement: `Plus(p, d)` is where one lands by
    reading a stretch of text of shape `d` from `p`.  With that reading, the
    coordinate reached after a text is a homomorphism (`PosOfConcat`), and the
    position tracker's line/column arithmetic becomes addition and subtraction. */
module Coords {

  datatype Coord = Coord(line: int, column: int)

  const ORIGIN := Coord(0, 0)

  datatype BufferRange = BufferRange(begin: Coord, end: Coord)

  predicate Lt(a: Coord, b: Coord) {
    a.line < b.line || (a.line == b.line && a.column < b.column)
  }

  predicate Le(a: Coord, b: Coord) {
    a == b || Lt(a, b)
  }

  predicate NonNegative(c: Coord) {
    0 <= c.line && 0 <= c.column
  }

  function Plus(p: Coord, d: Coord): Coord {
    if d.line == 0 then Coord(p.line, p.column + d.column) else Coord(p.line + d.line, d.column)
  }

  /** The displacement from `p` to `c`. */
  function Minus(c: Coord, p: Coord): Coord {
    if c.line == p.line then Coord(0, c.column - p.column) else Coord(c.line - p.line, c.column)
  }

  /** Where one stands after reading `s` from the origin. */
  ghost function PosOf(s: string): (c: Coord)
    ensures NonNegative(c)
  {
    if s == "" then ORIGIN
    else
      var p := PosOf(s[..|s| - 1]);
      if s[|s| - 1] == '\n' then Coord(p.line + 1, 0) else Coord(p.line, p.column + 1)
  }

  lemma {:induction false} PosOfConcat(a: string, b: string)
    ensures PosOf(a + b) == Plus(PosOf(a), PosOf(b))
  {
    if b == "" {
      assert a + b == a;
    } else {
      PosOfConcat(a, b[..|b| - 1]);
      assert (a + b)[..|a + b| - 1] == a + b[..|b| - 1];
    }
  }

  lemma PosOfPositive(s: string)
    requires s != ""
    ensures Lt(ORIGIN, PosOf(s))
  {
  }

  /** Distinct prefixes of one text end at distinct coordinates, in the same order. */
  lemma PrefixOrder(t: string, i: nat, j: nat)
    requires i <= |t| && j <= |t|
    ensures i < j <==> Lt(PosOf(t[..i]), PosOf(t[..j]))
    ensures i == j <==> PosOf(t[..i]) == PosOf(t[..j])
  {
    if i < j {
      LongerIsLater(t, i, j);
    } else if j < i {
      LongerIsLater(t, j, i);
    }
  }

  lemma LongerIsLater(t: string, i: nat, j: nat)
    requires i < j <= |t|
    ensures Lt(PosOf(t[..i]), PosOf(t[..j]))
  {
    assert t[..j] == t[..i] + t[i..j];
    PosOfConcat(t[..i], t[i..j]);
    PosOfPositive(t[i..j]);
  }

  /** Coordinate `c` is reached at some offset of `t`. */
  ghost predicate Reaches(t: string, c: Coord) {
    exists o: nat | o <= |t| :: PosOf(t[..o]) == c
  }

  ghost function OffsetOf(t: string, c: Coord): (o: nat)
    requires Reaches(t, c)
    ensures o <= |t| && PosOf(t[..o]) == c
  {
    var o: nat :| o <= |t| && PosOf(t[..o]) == c;
    o
  }

  lemma OffsetUnique(t: string, o: nat)
    requires o <= |t|
    ensures Reaches(t, PosOf(t[..o])) && OffsetOf(t, PosOf(t[..o])) == o
  {
    assert Reaches(t, PosOf(t[..o]));
    PrefixOrder(t, o, OffsetOf(t, PosOf(t[..o])));
  }

  /** A coordinate keeps its offset in any text that agrees up to it. */
  lemma OffsetOfCommonPrefix(t: string, u: string, o: nat)
    requires o <= |t| && o <= |u| && t[..o] == u[..o]
    ensures Reaches(u, PosOf(t[..o])) && OffsetOf(u, PosOf(t[..o])) == o
  {
    OffsetUnique(u, o);
  }
}
