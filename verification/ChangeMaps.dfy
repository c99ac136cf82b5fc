/** What a change, and a run of changes, does to a coordinate, taken one change at a time. */
module ChangeMaps {
  import opened Coords
  import opened Edits

  ghost predicate WellFormedChange(c: Change) {
    NonNegative(c.begin) && NonNegative(c.end) && Lt(c.begin, c.end)
  }

  ghost predicate WellFormedLog(log: seq<Change>) {
    forall i :: 0 <= i < |log| ==> WellFormedChange(log[i])
  }

  /** Text at and after an insertion moves behind it; erased text collapses to its begin. */
  function MapThrough(c: Change, p: Coord): Coord {
    match c.kind
    case Insert => if Lt(p, c.begin) then p else Plus(c.end, Minus(p, c.begin))
    case Erase =>
      if Le(p, c.begin) then p
      else if Lt(p, c.end) then c.begin
      else Plus(c.begin, Minus(p, c.end))
  }

  function Fold(log: seq<Change>, p: Coord): Coord {
    if log == [] then p else Fold(log[1..], MapThrough(log[0], p))
  }

  /** The byte at `p` is not erased by any change of the log. */
  predicate Alive(log: seq<Change>, p: Coord) {
    log == [] ||
    (!(log[0].kind == Erase && Le(log[0].begin, p) && Lt(p, log[0].end))
     && Alive(log[1..], MapThrough(log[0], p)))
  }

  lemma {:induction false} FoldConcat(a: seq<Change>, b: seq<Change>, p: Coord)
    ensures Fold(a + b, p) == Fold(b, Fold(a, p))
    ensures Alive(a + b, p) == (Alive(a, p) && Alive(b, Fold(a, p)))
  {
    if a == [] {
      assert a + b == b;
    } else {
      assert (a + b)[1..] == a[1..] + b;
      FoldConcat(a[1..], b, MapThrough(a[0], p));
    }
  }

  lemma FoldOne(c: Change, p: Coord)
    ensures Fold([c], p) == MapThrough(c, p)
  {
    assert [c][1..] == [];
  }

  lemma {:induction false} FoldUntouched(log: seq<Change>, p: Coord)
    requires forall i :: 0 <= i < |log| ==> if log[i].kind == Insert then Lt(p, log[i].begin) else Le(p, log[i].begin)
    ensures Fold(log, p) == p
    ensures (forall i :: 0 <= i < |log| ==> Lt(p, log[i].begin)) ==> Alive(log, p)
  {
    if log != [] {
      assert forall i :: 0 <= i < |log[1..]| ==> log[1..][i] == log[i + 1];
      FoldUntouched(log[1..], p);
    }
  }

  lemma MapIsMonotone(c: Change, p: Coord, q: Coord)
    requires WellFormedChange(c) && NonNegative(p) && NonNegative(q) && Le(p, q)
    ensures Le(MapThrough(c, p), MapThrough(c, q)) && NonNegative(MapThrough(c, p)) && NonNegative(MapThrough(c, q))
  {
  }

  lemma {:induction false} FoldIsMonotone(log: seq<Change>, p: Coord, q: Coord)
    requires WellFormedLog(log) && NonNegative(p) && NonNegative(q) && Le(p, q)
    ensures Le(Fold(log, p), Fold(log, q)) && NonNegative(Fold(log, p))
  {
    if log != [] {
      assert WellFormedChange(log[0]) && WellFormedLog(log[1..]);
      MapIsMonotone(log[0], p, q);
      FoldIsMonotone(log[1..], MapThrough(log[0], p), MapThrough(log[0], q));
    }
  }

  // ----- coordinates as names of bytes

  /** Where the change takes the byte at offset `o`, if it is still there afterwards. */
  ghost function OffsetAfter(c: Change, t: string, t': string, o: int): int
    requires Describes(c, t, t')
  {
    match c.kind
    case Insert => var i, j := OffsetOf(t', c.begin), OffsetOf(t', c.end);
      if o < i then o else o + (j - i)
    case Erase => var i, j := OffsetOf(t, c.begin), OffsetOf(t, c.end);
      if o < j then o else o - (j - i)
  }

  lemma MapOffsetCorrect(c: Change, t: string, t': string, o: nat)
    requires Describes(c, t, t') && o <= |t| && Alive([c], PosOf(t[..o]))
    ensures var r := OffsetAfter(c, t, t', o);
      && 0 <= r <= |t'| && (o < |t| ==> r < |t'| && t'[r] == t[o])
      && PosOf(t'[..r]) == MapThrough(c, PosOf(t[..o]))
  {
    if c.kind == Insert {
      MapOffsetInsert(c, t, t', o);
    } else {
      MapOffsetErase(c, t, t', o);
    }
  }

  lemma MapOffsetInsert(c: Change, t: string, t': string, o: nat)
    requires c.kind == Insert && Describes(c, t, t') && o <= |t|
    ensures var r := OffsetAfter(c, t, t', o);
      && 0 <= r <= |t'| && (o < |t| ==> r < |t'| && t'[r] == t[o])
      && PosOf(t'[..r]) == MapThrough(c, PosOf(t[..o]))
  {
    var i, j := OffsetOf(t', c.begin), OffsetOf(t', c.end);
    assert t[..i] == t'[..i] && t[i..] == t'[j..];
    PrefixOrder(t, o, i);
    if o < i {
      assert t'[..o] == t[..o];
    } else {
      ShiftedPrefix(t, i, t', j, o - i);
    }
  }

  lemma MapOffsetErase(c: Change, t: string, t': string, o: nat)
    requires c.kind == Erase && Describes(c, t, t') && o <= |t| && Alive([c], PosOf(t[..o]))
    ensures var r := OffsetAfter(c, t, t', o);
      && 0 <= r <= |t'| && (o < |t| ==> r < |t'| && t'[r] == t[o])
      && PosOf(t'[..r]) == MapThrough(c, PosOf(t[..o]))
  {
    var i, j := OffsetOf(t, c.begin), OffsetOf(t, c.end);
    assert t[..i] == t'[..i] && t[j..] == t'[i..];
    PrefixOrder(t, o, i);
    PrefixOrder(t, o, j);
    if o < i {
      assert t'[..o] == t[..o];
    } else {
      ShiftedPrefix(t, j, t', i, o - j);
    }
  }

  /** Equal continuations after two places keep their displacement from them. */
  lemma ShiftedPrefix(t: string, i: nat, u: string, j: nat, n: nat)
    requires i + n <= |t| && j <= |u| && t[i..] == u[j..]
    ensures j + n <= |u|
    ensures PosOf(u[..j + n]) == Plus(PosOf(u[..j]), Minus(PosOf(t[..i + n]), PosOf(t[..i])))
    ensures i + n < |t| ==> j + n < |u| && t[i + n] == u[j + n]
  {
    assert |t[i..]| == |u[j..]|;
    var s := t[i..][..n];
    assert s == t[i..i + n] == u[j..j + n];
    assert t[..i + n] == t[..i] + s && u[..j + n] == u[..j] + s;
    PosOfConcat(t[..i], s);
    PosOfConcat(u[..j], s);
    if i + n < |t| {
      assert t[i..][n] == u[j..][n];
    }
  }

  /** Where the whole log takes the byte at offset `o` of the first text, one change at a time. */
  ghost function OffsetThrough(log: seq<Change>, trace: seq<string>, o: int): int
    requires LogMatches(log, trace)
  {
    if log == [] then o
    else
      LogMatchesFrom(log, trace, 1);
      assert DescribesStep(log, trace, 0);
      OffsetThrough(log[1..], trace[1..], OffsetAfter(log[0], trace[0], trace[1], o))
  }

  /** A byte that no change of the log erases is taken to a byte of the last text, with the same value, whose
      coordinate is where folding the original coordinate says. */
  lemma {:induction false} SurvivorFound(log: seq<Change>, trace: seq<string>, o: nat)
    requires LogMatches(log, trace) && o < |trace[0]| && Alive(log, PosOf(trace[0][..o]))
    ensures var r := OffsetThrough(log, trace, o);
      && 0 <= r < |trace[|log|]| && trace[|log|][r] == trace[0][o]
      && PosOf(trace[|log|][..r]) == Fold(log, PosOf(trace[0][..o]))
  {
    if log != [] {
      assert DescribesStep(log, trace, 0);
      assert Alive([log[0]], PosOf(trace[0][..o])) by { assert [log[0]][1..] == []; }
      MapOffsetCorrect(log[0], trace[0], trace[1], o);
      LogMatchesFrom(log, trace, 1);
      assert trace[1..][0] == trace[1] && trace[1..][|log| - 1] == trace[|log|];
      SurvivorFound(log[1..], trace[1..], OffsetAfter(log[0], trace[0], trace[1], o));
    }
  }

  /** Different surviving bytes are taken to different places, in the same order. */
  lemma {:induction false} SurvivorsStayInOrder(log: seq<Change>, trace: seq<string>, o: nat, o': nat)
    requires LogMatches(log, trace) && o < o' < |trace[0]|
    requires Alive(log, PosOf(trace[0][..o])) && Alive(log, PosOf(trace[0][..o']))
    ensures OffsetThrough(log, trace, o) < OffsetThrough(log, trace, o')
  {
    if log != [] {
      assert DescribesStep(log, trace, 0);
      var c, t, t' := log[0], trace[0], trace[1];
      assert Alive([c], PosOf(t[..o])) && Alive([c], PosOf(t[..o'])) by { assert [c][1..] == []; }
      MapOffsetCorrect(c, t, t', o);
      MapOffsetCorrect(c, t, t', o');
      OffsetsStayInOrder(c, t, t', o, o');
      LogMatchesFrom(log, trace, 1);
      assert trace[1..][0] == trace[1];
      SurvivorsStayInOrder(log[1..], trace[1..], OffsetAfter(c, t, t', o), OffsetAfter(c, t, t', o'));
    }
  }

  lemma OffsetsStayInOrder(c: Change, t: string, t': string, o: nat, o': nat)
    requires Describes(c, t, t') && o < o' <= |t| && Alive([c], PosOf(t[..o])) && Alive([c], PosOf(t[..o']))
    ensures OffsetAfter(c, t, t', o) < OffsetAfter(c, t, t', o')
  {
    if c.kind == Erase {
      var i, j := OffsetOf(t, c.begin), OffsetOf(t, c.end);
      PrefixOrder(t, o, i);
      PrefixOrder(t, o, j);
      PrefixOrder(t, o', j);
    }
  }

  /** A log of real edits is well formed. */
  lemma DescribedIsWellFormed(c: Change, t: string, t': string)
    requires Describes(c, t, t')
    ensures WellFormedChange(c)
  {
    var big := if c.kind == Insert then t' else t;
    PrefixOrder(big, OffsetOf(big, c.begin), OffsetOf(big, c.end));
  }
}
