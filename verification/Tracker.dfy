/** The forward changes tracker: one pair of coordinates that stands in for a whole run of
    changes. */
module Tracker {
  import opened Coords
  import opened Edits
  import opened ChangeMaps

  /** `was` is the place, before the run, of the last change; `now` is its place after it. */
  datatype Shift = Shift(now: Coord, was: Coord) {

    ghost predicate Ok() {
      NonNegative(now) && NonNegative(was)
    }

    function New(c: Coord): Coord {
      Plus(now, Minus(c, was))
    }

    function Old(c: Coord): Coord {
      Plus(was, Minus(c, now))
    }

    function Tolerant(c: Coord): Coord {
      if Lt(c, was) then now else New(c)
    }

    predicate Relevant(c: Change, p: Coord) {
      if c.kind == Insert then Le(c.begin, Tolerant(p)) else Lt(c.begin, Tolerant(p))
    }

    function After(c: Change): Shift {
      match c.kind
      case Insert => Shift(c.end, Old(c.begin))
      case Erase => Shift(c.begin, Old(c.end))
    }
  }

  const START := Shift(ORIGIN, ORIGIN)

  class ForwardChangesTracker {
    var curPos: Coord
    var oldPos: Coord

    ghost function State(): Shift reads this {
      Shift(curPos, oldPos)
    }

    constructor ()
      ensures State() == START
    {
      curPos, oldPos := ORIGIN, ORIGIN;
    }

    method Update(change: Change)
      requires State().Ok() && WellFormedChange(change) && Le(curPos, change.begin)
      modifies this
      ensures State() == old(State()).After(change) && State().Ok()
      ensures Le(old(curPos), curPos) && Le(old(oldPos), oldPos)
    {
      if change.kind == Insert {
        oldPos := GetOldCoord(change.begin);
        curPos := change.end;
      } else {
        oldPos := GetOldCoord(change.end);
        curPos := change.begin;
      }
    }

    /** Take in every change logged since `timestamp`. */
    method UpdateSince(changes: seq<Change>, timestamp: nat) returns (now: nat)
      requires State().Ok() && timestamp <= |changes| && Follows(State(), changes[timestamp..])
      modifies this
      ensures now == |changes| && State() == AfterAll(old(State()), changes[timestamp..]) && State().Ok()
    {
      ghost var target := AfterAll(State(), changes[timestamp..]);
      now := timestamp;
      while now < |changes|
        invariant timestamp <= now <= |changes| && State().Ok()
        invariant Follows(State(), changes[now..]) && AfterAll(State(), changes[now..]) == target
      {
        assert changes[now..][1..] == changes[now + 1..];
        Update(changes[now]);
        now := now + 1;
      }
    }

    /** Also proves the three assertions of the source. */
    function GetOldCoord(coord: Coord): (r: Coord)
      requires State().Ok() && NonNegative(coord) && Le(curPos, coord)
      reads this
      ensures r == State().Old(coord)
      ensures NonNegative(r) && Le(oldPos, r)
      ensures curPos.line == coord.line ==> curPos.column - oldPos.column <= coord.column
    {
      var line, column := curPos.line - oldPos.line, curPos.column - oldPos.column;
      Coord(coord.line - line, if curPos.line == coord.line then coord.column - column else coord.column)
    }

    function GetNewCoord(coord: Coord): (r: Coord)
      requires State().Ok() && NonNegative(coord) && Le(oldPos, coord)
      reads this
      ensures r == State().New(coord)
      ensures NonNegative(r) && Le(curPos, r)
      ensures oldPos.line == coord.line ==> -(curPos.column - oldPos.column) <= coord.column
    {
      var line, column := curPos.line - oldPos.line, curPos.column - oldPos.column;
      Coord(coord.line + line, if oldPos.line == coord.line then coord.column + column else coord.column)
    }

    function GetNewCoordTolerant(coord: Coord): (r: Coord)
      requires State().Ok() && NonNegative(coord)
      reads this
      ensures r == State().Tolerant(coord) && NonNegative(r)
    {
      if Lt(coord, oldPos) then curPos else GetNewCoord(coord)
    }

    predicate Relevant(change: Change, oldCoord: Coord)
      requires State().Ok() && NonNegative(oldCoord)
      reads this
      ensures Relevant(change, oldCoord) == State().Relevant(change, oldCoord)
    {
      var newCoord := GetNewCoordTolerant(oldCoord);
      if change.kind == Insert then Le(change.begin, newCoord) else Lt(change.begin, newCoord)
    }
  }

  /** Each change begins at or after the place the one before left. */
  ghost predicate Follows(s: Shift, log: seq<Change>)
    decreases log
  {
    log == [] || (WellFormedChange(log[0]) && Le(s.now, log[0].begin) && Follows(s.After(log[0]), log[1..]))
  }

  function AfterAll(s: Shift, log: seq<Change>): Shift
    decreases log
  {
    if log == [] then s else AfterAll(s.After(log[0]), log[1..])
  }

  // ----- algebra of shifts

  lemma NewIsMonotone(s: Shift, p: Coord, q: Coord)
    requires s.Ok() && NonNegative(p) && NonNegative(q)
    ensures Le(s.was, p) && Lt(p, q) ==> Lt(s.New(p), s.New(q))
    ensures Le(p, q) ==> Le(s.Tolerant(p), s.Tolerant(q))
    ensures Le(s.now, s.Tolerant(p)) && NonNegative(s.Tolerant(p))
    ensures Le(s.was, p) ==> Le(s.now, s.New(p)) && NonNegative(s.New(p))
  {
  }

  /** Moving on from a tracked place is tracked as moving on from its image. */
  lemma NewOfPlus(s: Shift, e: Coord, d: Coord)
    requires s.Ok() && NonNegative(e) && NonNegative(d) && Le(s.was, e)
    ensures s.New(Plus(e, d)) == Plus(s.New(e), d)
    ensures Le(e, Plus(e, d)) && NonNegative(Plus(e, d))
  {
  }

  lemma MinusNonNegative(c: Coord, p: Coord)
    requires NonNegative(c) && NonNegative(p) && Le(p, c)
    ensures NonNegative(Minus(c, p))
  {
  }

  /** The coordinate below which the tracker no longer tells places apart, after a change. */
  lemma OldAfter(s: Shift, c: Coord)
    requires s.Ok() && NonNegative(c) && Le(s.was, c)
    ensures s.Old(s.New(c)) == c
  {
  }

  /** Taking a relevant change into the shift is the same as mapping through it. */
  lemma AfterMaps(s: Shift, c: Change, q: Coord)
    requires s.Ok() && WellFormedChange(c) && NonNegative(q)
    requires Le(s.now, c.begin) && s.Relevant(c, q)
    ensures s.After(c).Ok() && Le(s.now, s.After(c).now)
    ensures s.After(c).Tolerant(q) == MapThrough(c, s.Tolerant(q))
  {
  }
}
