/** Recorded modifications, and the change log that goes with them, on flat texts. */
module Edits {
  import opened Coords
  import opened Lines
  import opened Options
  import Sequences

  datatype Kind = Insert | Erase

  /** A single atomic modification of a buffer, as kept in undo groups. */
  datatype Modification = Modification(kind: Kind, coord: Coord, content: string) {
    function Inverse(): Modification {
      Modification(if kind == Insert then Erase else Insert, coord, content)
    }
  }

  /** An entry of the change log: where text appeared or disappeared, not which text. */
  datatype Change = Change(kind: Kind, begin: Coord, end: Coord)

  ghost function Splice(t: string, o: nat, n: nat, s: string): string
    requires o + n <= |t|
  {
    t[..o] + s + t[o + n..]
  }

  /** The modification names a place of `t`, removes only what it recorded, and leaves
      a text whose last line is still terminated. */
  ghost predicate CanApply(t: string, m: Modification) {
    && m.content != ""
    && Reaches(t, m.coord)
    && (var o := OffsetOf(t, m.coord);
        match m.kind
        case Insert => o == |t| ==> m.content[|m.content| - 1] == '\n'
        case Erase =>
          && o + |m.content| <= |t|
          && t[o..o + |m.content|] == m.content
          && (o + |m.content| == |t| ==> o == 0 || t[o - 1] == '\n'))
  }

  ghost function Apply(t: string, m: Modification): string
    requires CanApply(t, m)
  {
    var o := OffsetOf(t, m.coord);
    match m.kind
    case Insert => Splice(t, o, 0, m.content)
    case Erase => Splice(t, o, |m.content|, "")
  }

  lemma ApplyKeepsValid(t: string, m: Modification)
    requires ValidText(t) && CanApply(t, m)
    ensures ValidText(Apply(t, m))
  {
  }

  lemma SpliceIn(t: string, o: nat, s: string)
    requires o <= |t|
    ensures var u := Splice(t, o, 0, s);
      |u| == |t| + |s| && u[..o] == t[..o] && u[o..o + |s|] == s && u[o + |s|..] == t[o..] && Splice(u, o, |s|, "") == t
  {
  }

  lemma SpliceOut(t: string, o: nat, n: nat)
    requires o + n <= |t|
    ensures var u := Splice(t, o, n, "");
      |u| == |t| - n && u[..o] == t[..o] && u[o..] == t[o + n..] && Splice(u, o, 0, t[o..o + n]) == t
  {
    assert t == t[..o] + t[o..o + n] + t[o + n..];
  }

  lemma InsertUndone(t: string, m: Modification)
    requires ValidText(t) && CanApply(t, m) && m.kind == Insert
    ensures CanApply(Apply(t, m), m.Inverse()) && Apply(Apply(t, m), m.Inverse()) == t
  {
    var o, u := OffsetOf(t, m.coord), Apply(t, m);
    SpliceIn(t, o, m.content);
    OffsetOfCommonPrefix(t, u, o);
    assert o > 0 ==> u[o - 1] == u[..o][o - 1] == t[o - 1];
  }

  lemma EraseUndone(t: string, m: Modification)
    requires ValidText(t) && CanApply(t, m) && m.kind == Erase
    ensures CanApply(Apply(t, m), m.Inverse()) && Apply(Apply(t, m), m.Inverse()) == t
  {
    var o, u := OffsetOf(t, m.coord), Apply(t, m);
    SpliceOut(t, o, |m.content|);
    OffsetOfCommonPrefix(t, u, o);
    Sequences.LastOfSlice(t, o, o + |m.content|);
  }

  /** A modification is undone by its inverse. */
  lemma ApplyInverse(t: string, m: Modification)
    requires ValidText(t) && CanApply(t, m)
    ensures CanApply(Apply(t, m), m.Inverse())
    ensures Apply(Apply(t, m), m.Inverse()) == t
  {
    if m.kind == Insert {
      InsertUndone(t, m);
    } else {
      EraseUndone(t, m);
    }
  }

  /** The text after a run of modifications, if each one found what it expects. */
  ghost function Replay(t: string, group: seq<Modification>): Option<string> {
    if group == [] then Some(t)
    else
      var n := |group| - 1;
      var r := Replay(t, group[..n]);
      if r.Some? && CanApply(r.value, group[n]) then Some(Apply(r.value, group[n])) else None
  }

  lemma ReplaySnoc(t: string, group: seq<Modification>, m: Modification)
    ensures Replay(t, group + [m]) ==
            (var r := Replay(t, group);
             if r.Some? && CanApply(r.value, m) then Some(Apply(r.value, m)) else None)
  {
    assert (group + [m])[..|group|] == group;
  }

  lemma {:induction false} ReplayPrefix(t: string, group: seq<Modification>, i: nat)
    requires i <= |group| && Replay(t, group).Some?
    ensures Replay(t, group[..i]).Some?
    ensures i < |group| ==>
      CanApply(Replay(t, group[..i]).value, group[i])
      && Replay(t, group[..i + 1]) == Some(Apply(Replay(t, group[..i]).value, group[i]))
  {
    var n := |group| - 1;
    if i == |group| {
      assert group[..i] == group;
    } else if i == n {
      assert group[..i + 1] == group;
    } else {
      ReplayPrefix(t, group[..n], i);
      assert group[..n][..i] == group[..i];
      assert group[..n][..i + 1] == group[..i + 1];
    }
  }

  lemma {:induction false} ReplayKeepsValid(t: string, group: seq<Modification>)
    requires ValidText(t) && Replay(t, group).Some?
    ensures ValidText(Replay(t, group).value)
  {
    if group != [] {
      var n := |group| - 1;
      ReplayKeepsValid(t, group[..n]);
      ApplyKeepsValid(Replay(t, group[..n]).value, group[n]);
    }
  }

  /** The group that undoes `group`: the inverses, last one first. */
  function InverseGroup(group: seq<Modification>): seq<Modification> {
    if group == [] then []
    else [group[|group| - 1].Inverse()] + InverseGroup(group[..|group| - 1])
  }

  lemma {:induction false} ReplayConcat(t: string, a: seq<Modification>, b: seq<Modification>)
    requires Replay(t, a).Some?
    ensures Replay(t, a + b) == Replay(Replay(t, a).value, b)
  {
    if b == [] {
      assert a + b == a;
    } else {
      var b', m := b[..|b| - 1], b[|b| - 1];
      ReplayConcat(t, a, b');
      Sequences.Last(b);
      Sequences.Assoc(a, b', [m]);
      ReplaySnoc(t, a + b', m);
      ReplaySnoc(Replay(t, a).value, b', m);
    }
  }

  /** Replaying a group and then its inverse leads back to the start. */
  lemma {:induction false} ReplayInverse(t: string, group: seq<Modification>)
    requires ValidText(t) && Replay(t, group).Some?
    ensures Replay(Replay(t, group).value, InverseGroup(group)) == Some(t)
  {
    if group != [] {
      var n := |group| - 1;
      var before, u := Replay(t, group[..n]).value, Replay(t, group).value;
      var inv := group[n].Inverse();
      ReplayKeepsValid(t, group[..n]);
      ApplyInverse(before, group[n]);
      ReplaySnoc(u, [], inv);
      assert [] + [inv] == [inv];
      ReplayConcat(u, [inv], InverseGroup(group[..n]));
      ReplayInverse(t, group[..n]);
    }
  }

  // ----- the change log

  /** `t'` is `t` without the bytes between `begin` and `end`. */
  ghost predicate ErasesTo(begin: Coord, end: Coord, t: string, t': string) {
    && Reaches(t, begin) && Reaches(t, end)
    && OffsetOf(t, begin) < OffsetOf(t, end)
    && t' == t[..OffsetOf(t, begin)] + t[OffsetOf(t, end)..]
  }

  /** The change describes the step from `t` to `t'`. */
  ghost predicate Describes(c: Change, t: string, t': string) {
    match c.kind
    case Insert => ErasesTo(c.begin, c.end, t', t)
    case Erase => ErasesTo(c.begin, c.end, t, t')
  }

  ghost predicate DescribesStep(log: seq<Change>, trace: seq<string>, i: int)
    requires 0 <= i < |log| && i + 1 < |trace|
  {
    Describes(log[i], trace[i], trace[i + 1])
  }

  /** `trace` holds the text before the first change and after each one. */
  ghost predicate LogMatches(log: seq<Change>, trace: seq<string>) {
    && |trace| == |log| + 1
    && forall i :: 0 <= i < |log| ==> DescribesStep(log, trace, i)
  }

  lemma LogMatchesSnoc(log: seq<Change>, trace: seq<string>, c: Change, t: string)
    requires LogMatches(log, trace) && Describes(c, trace[|log|], t)
    ensures LogMatches(log + [c], trace + [t])
  {
    var log', trace' := log + [c], trace + [t];
    forall i | 0 <= i < |log'| ensures DescribesStep(log', trace', i) {
      assert i < |log| ==> DescribesStep(log, trace, i);
    }
  }

  /** A log from some point on matches the texts from there on. */
  lemma LogMatchesFrom(log: seq<Change>, trace: seq<string>, k: nat)
    requires LogMatches(log, trace) && k <= |log|
    ensures LogMatches(log[k..], trace[k..])
  {
    var log', trace' := log[k..], trace[k..];
    forall i | 0 <= i < |log'| ensures DescribesStep(log', trace', i) {
      assert DescribesStep(log, trace, k + i);
    }
  }

  lemma SpliceDescribed(t: string, o: nat, s: string)
    requires o <= |t| && s != ""
    ensures Describes(Change(Insert, PosOf(t[..o]), PosOf(t[..o] + s)), t, Splice(t, o, 0, s))
    ensures Describes(Change(Erase, PosOf(t[..o]), PosOf(t[..o] + s)), Splice(t, o, 0, s), t)
  {
    var u := Splice(t, o, 0, s);
    assert u[..o] == t[..o] && u[..o + |s|] == t[..o] + s;
    OffsetUnique(u, o);
    OffsetUnique(u, o + |s|);
    assert t == u[..o] + u[o + |s|..];
  }
}
