/** Reading a file into lines and writing the lines back.

    Bytes are characters here; nothing depends on their range. */
module FileFormats {
  import opened Lines
  import opened Options
  import opened Integers
  import Sequences

  datatype ByteOrderMark = NoMark | Utf8
  datatype EolFormat = Lf | Crlf
  datatype FinalEol = Missing | Present | IfNotEmpty

  /** What reading gives, or the exception it throws. */
  datatype Parsed =
    | Parsed(lines: seq<string>, bom: ByteOrderMark, eolformat: EolFormat, finaleol: FinalEol)
    | TooManyLines
    | LineTooLong

  const BOM := "\U{EF}\U{BB}\U{BF}"

  function EolData(eolformat: EolFormat): string {
    if eolformat.Crlf? then "\r\n" else "\n"
  }

  /** Every line, its newline replaced by the end-of-line bytes. */
  ghost function Encoded(lines: seq<string>, eol: string): string
    requires WellFormed(lines)
  {
    if lines == [] then ""
    else
      var last := lines[|lines| - 1];
      Encoded(lines[..|lines| - 1], eol) + last[..|last| - 1] + eol
  }

  /** The same without the final end-of-line bytes, unless they are asked for. */
  ghost function EncodedUpTo(lines: seq<string>, eol: string, eolAtEof: bool): string
    requires WellFormed(lines) && lines != []
  {
    var last := lines[|lines| - 1];
    Encoded(lines[..|lines| - 1], eol) + last[..|last| - 1] + (if eolAtEof then eol else "")
  }

  predicate WritesEolAtEof(lines: seq<string>, finaleol: FinalEol)
    requires lines != []
  {
    finaleol.Present? || (finaleol.IfNotEmpty? && (|lines| != 1 || lines[0] != "\n"))
  }

  /** The bytes a buffer stands for. */
  ghost function FileBytes(lines: seq<string>, bom: ByteOrderMark, eolformat: EolFormat, finaleol: FinalEol): string
    requires WellFormed(lines) && lines != []
  {
    (if bom.Utf8? then BOM else "") + EncodedUpTo(lines, EolData(eolformat), WritesEolAtEof(lines, finaleol))
  }

  // ----- the encoding

  lemma EncodedSnoc(lines: seq<string>, line: string, eol: string)
    requires WellFormed(lines) && WellFormedLine(line)
    ensures WellFormed(lines + [line])
    ensures Encoded(lines + [line], eol) == Encoded(lines, eol) + line[..|line| - 1] + eol
  {
    assert (lines + [line])[..|lines|] == lines;
  }

  lemma LastLineNotLonger(p: string, l: string, q: string, m: string)
    requires p + l == q + m && '\n' !in l && (q == "" || q[|q| - 1] == '\n')
    ensures |q| <= |p|
  {
    var t := p + l;
    forall i | |p| <= i < |t| ensures t[i] != '\n' {
      assert t[i] == l[i - |p|];
    }
    assert q != "" ==> (q + m)[|q| - 1] == '\n';
  }

  /** There is only one way to cut the last line off. */
  lemma LastLineUnique(p: string, l: string, q: string, m: string)
    requires p + l == q + m && '\n' !in l && '\n' !in m
    requires (p == "" || p[|p| - 1] == '\n') && (q == "" || q[|q| - 1] == '\n')
    ensures p == q && l == m
  {
    LastLineNotLonger(p, l, q, m);
    LastLineNotLonger(q, m, p, l);
    Sequences.Cut(p, l);
    Sequences.Cut(q, m);
  }

  lemma EncodedEnds(lines: seq<string>, eolformat: EolFormat)
    requires WellFormed(lines)
    ensures var t := Encoded(lines, EolData(eolformat)); if lines == [] then t == "" else t != "" && t[|t| - 1] == '\n'
  {
  }

  lemma SameWithoutEnd(p: string, q: string, eol: string)
    requires p + eol == q + eol
    ensures p == q
  {
    Sequences.Cut(p, eol);
    Sequences.Cut(q, eol);
    assert |p| == |q|;
  }

  /** The encoding determines the lines, with either kind of line end. */
  lemma {:induction false} EncodedInjective(a: seq<string>, b: seq<string>, eolformat: EolFormat)
    requires WellFormed(a) && WellFormed(b) && Encoded(a, EolData(eolformat)) == Encoded(b, EolData(eolformat))
    ensures a == b
  {
    EncodedEnds(a, eolformat);
    EncodedEnds(b, eolformat);
    if a != [] {
      var i, j := |a| - 1, |b| - 1;
      SameLastLine(a[..i], a[i], b[..j], b[j], eolformat);
      EncodedInjective(a[..i], b[..j], eolformat);
      Sequences.Last(a);
      Sequences.Last(b);
    }
  }

  lemma SameLastLine(a: seq<string>, l: string, b: seq<string>, m: string, eolformat: EolFormat)
    requires WellFormed(a) && WellFormed(b) && WellFormedLine(l) && WellFormedLine(m)
    requires Encoded(a, EolData(eolformat)) + l[..|l| - 1] + EolData(eolformat)
      == Encoded(b, EolData(eolformat)) + m[..|m| - 1] + EolData(eolformat)
    ensures Encoded(a, EolData(eolformat)) == Encoded(b, EolData(eolformat)) && l == m
  {
    var p, q := Encoded(a, EolData(eolformat)), Encoded(b, EolData(eolformat));
    SameWithoutEnd(p + l[..|l| - 1], q + m[..|m| - 1], EolData(eolformat));
    EncodedEnds(a, eolformat);
    EncodedEnds(b, eolformat);
    LastLineUnique(p, l[..|l| - 1], q, m[..|m| - 1]);
    Sequences.Last(l);
    Sequences.Last(m);
  }

  // ----- reading

  /** The next newline, or the end. */
  ghost function EolFrom(data: string, start: nat): (eol: nat)
    requires start <= |data|
    ensures start <= eol <= |data|
    decreases |data| - start
  {
    if start == |data| || data[start] == '\n' then start else EolFrom(data, start + 1)
  }

  /** `eol` is the first newline from `start` on, or the end if there is none. */
  ghost predicate IsNextEol(data: string, start: nat, eol: nat) {
    start <= eol <= |data| && (eol < |data| ==> data[eol] == '\n') && forall i :: start <= i < eol ==> data[i] != '\n'
  }

  lemma {:induction false} EolFound(data: string, start: nat)
    requires start <= |data|
    ensures IsNextEol(data, start, EolFrom(data, start))
    decreases |data| - start
  {
    if start < |data| && data[start] != '\n' {
      EolFound(data, start + 1);
    }
  }

  /** `std::find` of the next newline. */
  method FindEol(data: string, start: nat) returns (it: nat)
    requires start <= |data|
    ensures it == EolFrom(data, start)
  {
    it := start;
    while it < |data| && data[it] != '\n'
      invariant start <= it <= |data| && EolFrom(data, it) == EolFrom(data, start)
    {
      it := it + 1;
    }
  }

  /** The newline at `i` has a carriage return in front of it, within the text from `start`. */
  predicate IsCrlf(data: string, start: nat, i: nat)
    requires i < |data|
  {
    i > start && data[i - 1] == '\r'
  }

  /** Which kinds of line ends there are up to `end`. */
  ghost predicate EolsSeen(data: string, start: nat, end: nat, hasCrlf: bool, hasLf: bool) {
    && end <= |data|
    && (hasCrlf <==>
          exists i {:trigger IsCrlf(data, start, i)} ::
            start <= i < end && data[i] == '\n' && IsCrlf(data, start, i))
    && (hasLf <==>
          exists i {:trigger IsCrlf(data, start, i)} ::
            start <= i < end && data[i] == '\n' && !IsCrlf(data, start, i))
  }

  lemma NextEolSeen(data: string, start: nat, end: nat, it: nat, hasCrlf: bool, hasLf: bool)
    requires start <= end && EolsSeen(data, start, end, hasCrlf, hasLf) && IsNextEol(data, end, it) && it < |data|
    ensures EolsSeen(data, start, it + 1,
      hasCrlf || IsCrlf(data, start, it), hasLf || !IsCrlf(data, start, it))
  {
  }

  /** The first loop of `parse_file`. */
  method AnalyseEols(data: string, start: nat) returns (hasCrlf: bool, hasLf: bool)
    requires start <= |data|
    ensures EolsSeen(data, start, |data|, hasCrlf, hasLf)
  {
    hasCrlf, hasLf := false, false;
    var it := FindEol(data, start);
    ghost var end := start;
    EolFound(data, start);
    while it != |data|
      invariant start <= end && EolsSeen(data, start, end, hasCrlf, hasLf) && IsNextEol(data, end, it)
      decreases |data| - it
    {
      NextEolSeen(data, start, end, it, hasCrlf, hasLf);
      if it != start && data[it - 1] == '\r' {
        hasCrlf := true;
      } else {
        hasLf := true;
      }
      end := it + 1;
      it := FindEol(data, it + 1);
      EolFound(data, end);
    }
    LastEolSeen(data, start, end, hasCrlf, hasLf);
  }

  lemma LastEolSeen(data: string, start: nat, end: nat, hasCrlf: bool, hasLf: bool)
    requires start <= end && EolsSeen(data, start, end, hasCrlf, hasLf) && IsNextEol(data, end, |data|)
    ensures EolsSeen(data, start, |data|, hasCrlf, hasLf)
  {
  }

  /** There is a newline, and each one has a carriage return in front of it. */
  ghost predicate OnlyCrlf(data: string, start: nat) {
    && (exists i :: start <= i < |data| && data[i] == '\n')
    && (forall i {:trigger IsCrlf(data, start, i)} ::
          start <= i < |data| && data[i] == '\n' ==> IsCrlf(data, start, i))
  }

  lemma OnlyCrlfSeen(data: string, start: nat, hasCrlf: bool, hasLf: bool)
    requires EolsSeen(data, start, |data|, hasCrlf, hasLf)
    ensures hasCrlf && !hasLf <==> OnlyCrlf(data, start)
  {
    if OnlyCrlf(data, start) {
      var i :| start <= i < |data| && data[i] == '\n';
      assert IsCrlf(data, start, i);
    }
    if hasCrlf && !hasLf {
      NoLfSeen(data, start, hasCrlf);
    }
  }

  lemma NoLfSeen(data: string, start: nat, hasCrlf: bool)
    requires EolsSeen(data, start, |data|, hasCrlf, false) && hasCrlf
    ensures OnlyCrlf(data, start)
  {
    var k :| start <= k < |data| && data[k] == '\n' && IsCrlf(data, start, k);
    assert data[k] == '\n';
  }

  /** The line is what stands between two line ends, or between the last one and the end; where all line ends have a
      carriage return, that is no part of the line. */
  ghost predicate IsLineOf(data: string, start: nat, line: string) {
    exists pos: nat, eol: nat {:trigger IsNextEol(data, pos, eol)} ::
      && start <= pos <= eol <= |data| && (pos == start || data[pos - 1] == '\n') && IsNextEol(data, pos, eol)
      && (if OnlyCrlf(data, start) && eol < |data| then pos < eol && line == data[pos..eol - 1] + "\n"
          else line == data[pos..eol] + "\n")
  }

  /** With this line end, every newline of the text is a whole line end. */
  ghost predicate FitsFormat(data: string, start: nat, eolformat: EolFormat) {
    eolformat.Crlf? ==>
      forall i {:trigger IsCrlf(data, start, i)} ::
        start <= i < |data| && data[i] == '\n' ==> IsCrlf(data, start, i)
  }

  /** Where the content of a line ends: the carriage return belongs to the line end. */
  ghost function ContentEnd(data: string, pos: nat, eol: nat, eolformat: EolFormat): (end: nat)
    requires pos <= eol
    ensures pos <= end <= eol
  {
    if eolformat.Crlf? && eol != |data| && pos < eol then eol - 1 else eol
  }

  /** `pos` is the start of the text or right behind a newline, or there is no further line. */
  ghost predicate AtLineStart(data: string, start: nat, pos: nat) {
    start <= pos && (start < pos <= |data| ==> data[pos - 1] == '\n')
  }

  /** The lines from `pos` on. */
  ghost function SplitLines(data: string, pos: nat, eolformat: EolFormat): (lines: seq<string>)
    ensures |lines| <= |data|
    ensures pos < |data| ==> lines != [] && |lines| <= |data| - pos
    decreases |data| - pos
  {
    if pos >= |data| then []
    else
      var eol := EolFrom(data, pos);
      [data[pos..ContentEnd(data, pos, eol, eolformat)] + "\n"] + SplitLines(data, eol + 1, eolformat)
  }

  /** The number of lines from `pos` on. */
  ghost function LineCount(data: string, pos: nat): nat
    decreases |data| - pos
  {
    if pos >= |data| then 0 else 1 + LineCount(data, EolFrom(data, pos) + 1)
  }

  lemma {:induction false} SplitLinesCounted(data: string, pos: nat, eolformat: EolFormat)
    ensures |SplitLines(data, pos, eolformat)| == LineCount(data, pos)
    decreases |data| - pos
  {
    if pos < |data| {
      SplitLinesCounted(data, EolFrom(data, pos) + 1, eolformat);
    }
  }

  lemma ContentOfLine(data: string, start: nat, pos: nat, eolformat: EolFormat, eol: nat)
    requires FitsFormat(data, start, eolformat) && start <= pos && IsNextEol(data, pos, eol)
    requires pos > start ==> data[pos - 1] == '\n'
    ensures ContentEnd(data, pos, eol, eolformat) == eol - if eolformat.Crlf? && eol != |data| then 1 else 0
    ensures eol < |data| ==> data[ContentEnd(data, pos, eol, eolformat)..eol + 1] == EolData(eolformat)
  {
    assert eolformat.Crlf? && eol < |data| ==> IsCrlf(data, start, eol);
  }

  /** What is between two newlines makes a line. */
  lemma LineOf(data: string, pos: nat, end: nat)
    requires pos <= end <= |data| && forall i :: pos <= i < end ==> data[i] != '\n'
    ensures var line := data[pos..end] + "\n";
      WellFormedLine(line) && line[..|line| - 1] == data[pos..end] && |line| == end - pos + 1
  {
    Sequences.Cut(data[pos..end], "\n");
  }

  lemma Regroup(mark: string, done: string, content: string, eol: string)
    ensures mark + done + content + eol == mark + (done + content + eol)
    ensures eol == "" ==> mark + done + content == mark + (done + content + eol)
  {
  }

  lemma {:induction false} EncodedCons(line: string, rest: seq<string>, eol: string)
    requires WellFormedLine(line) && WellFormed(rest)
    ensures WellFormed([line] + rest)
    ensures Encoded([line] + rest, eol) == line[..|line| - 1] + eol + Encoded(rest, eol)
  {
    if rest == [] {
      EncodedSnoc([], line, eol);
      NothingAdded([line], line[..|line| - 1], eol);
    } else {
      var init, last := rest[..|rest| - 1], rest[|rest| - 1];
      EncodedCons(line, init, eol);
      EncodedSnoc([line] + init, last, eol);
      Sequences.Last(rest);
      Sequences.Assoc([line], init, [last]);
      Regroup(line[..|line| - 1] + eol, Encoded(init, eol), last[..|last| - 1], eol);
    }
  }

  lemma NothingAdded(lines: seq<string>, content: string, eol: string)
    ensures [] + lines == lines == lines + [] && "" + content + eol == content + eol + ""
  {
  }

  /** The rest behind the last newline, or nothing. */
  ghost function LastEol(data: string, eolformat: EolFormat): string
    requires data != ""
  {
    if data[|data| - 1] == '\n' then "" else EolData(eolformat)
  }

  /** The first line of the rest: where the next one begins, and what it stands for. */
  lemma FirstLine(data: string, start: nat, pos: nat, eolformat: EolFormat) returns (line: string, next: nat)
    requires FitsFormat(data, start, eolformat) && AtLineStart(data, start, pos) && pos < |data|
    ensures WellFormedLine(line) && pos < next && AtLineStart(data, start, next)
    ensures SplitLines(data, pos, eolformat) == [line] + SplitLines(data, next, eolformat)
    ensures var content, tail := line[..|line| - 1] + EolData(eolformat), LastEol(data, eolformat);
      if next < |data| then content + (data[next..] + tail) == data[pos..] + tail else content == data[pos..] + tail
  {
    hide EolFrom, FitsFormat;
    var eol := EolFrom(data, pos);
    var end := ContentEnd(data, pos, eol, eolformat);
    EolFound(data, pos);
    ContentOfLine(data, start, pos, eolformat, eol);
    LineOf(data, pos, end);
    line, next := data[pos..end] + "\n", eol + 1;
    if next < |data| {
      RestOf(data, pos, end, next, EolData(eolformat), LastEol(data, eolformat));
    } else {
      LastLineOf(data, pos, end, eol, EolData(eolformat));
    }
  }

  /** The lines stand for the text they were cut from, its last line end completed. */
  lemma {:induction false} SplitEncodes(data: string, start: nat, pos: nat, eolformat: EolFormat)
    requires FitsFormat(data, start, eolformat) && AtLineStart(data, start, pos) && pos < |data|
    ensures WellFormed(SplitLines(data, pos, eolformat))
    ensures Encoded(SplitLines(data, pos, eolformat), EolData(eolformat)) == data[pos..] + LastEol(data, eolformat)
    decreases |data| - pos
  {
    var line, next := FirstLine(data, start, pos, eolformat);
    if next < |data| {
      SplitEncodes(data, start, next, eolformat);
      EncodedCons(line, SplitLines(data, next, eolformat), EolData(eolformat));
    } else {
      OnlyLine(line, EolData(eolformat));
    }
  }

  lemma OnlyLine(line: string, eol: string)
    requires WellFormedLine(line)
    ensures WellFormed([line] + []) && Encoded([line] + [], eol) == line[..|line| - 1] + eol
  {
    EncodedSnoc([], line, eol);
    NothingAdded([line], line[..|line| - 1], eol);
  }

  lemma RestOf(data: string, pos: nat, end: nat, next: nat, eoldata: string, tail: string)
    requires pos <= end <= next <= |data| && data[end..next] == eoldata
    ensures data[pos..end] + eoldata + (data[next..] + tail) == data[pos..] + tail
  {
    Sequences.SliceParts(data, pos, end, next);
    Sequences.SliceParts(data, pos, next, |data|);
  }

  lemma LastLineOf(data: string, pos: nat, end: nat, eol: nat, eoldata: string)
    requires pos < |data| && pos <= end <= eol <= |data| <= eol + 1
    requires
      if eol < |data| then data[eol] == '\n' && data[end..eol + 1] == eoldata
      else end == eol && data[|data| - 1] != '\n'
    ensures data[pos..end] + eoldata == data[pos..] + if data[|data| - 1] == '\n' then "" else eoldata
  {
    if eol < |data| {
      Sequences.SliceParts(data, pos, end, |data|);
    }
  }

  datatype ParsedLines = LinesRead(lines: seq<string>) | TooMany | TooLong

  /** There is no newline among `INT_MAX` bytes. */
  ghost predicate HasLongLine(data: string, start: nat) {
    exists p: nat :: LongLineAt(data, start, p)
  }

  ghost predicate LongLineAt(data: string, start: nat, p: nat) {
    start <= p && p + INT_MAX <= |data| && forall i :: p <= i < p + INT_MAX ==> data[i] != '\n'
  }

  ghost predicate ShortLines(lines: seq<string>) {
    forall i :: 0 <= i < |lines| ==> |lines[i]| <= INT_MAX
  }

  /** The line from `pos` to the line end at `eol`, for the loop of `parse_lines`. */
  method ParseLine(data: string, ghost start: nat, pos: nat, eol: nat, eolformat: EolFormat,
                   ghost lines: seq<string>) returns (line: string)
    requires FitsFormat(data, start, eolformat) && AtLineStart(data, start, pos) && pos < |data|
    requires eol == EolFrom(data, pos)
    ensures |line| <= eol - pos + 1 && AtLineStart(data, start, eol + 1)
    ensures lines + SplitLines(data, pos, eolformat) == lines + [line] + SplitLines(data, eol + 1, eolformat)
  {
    EolFound(data, pos);
    ContentOfLine(data, start, pos, eolformat, eol);
    var end := eol - if eolformat.Crlf? && eol != |data| then 1 else 0;
    line := data[pos..end] + "\n";
    Sequences.Assoc(lines, [line], SplitLines(data, eol + 1, eolformat));
  }

  lemma LongLine(data: string, start: nat, pos: nat)
    requires start <= pos <= |data| && EolFrom(data, pos) - pos >= INT_MAX
    ensures HasLongLine(data, start)
  {
    EolFound(data, pos);
    assert LongLineAt(data, start, pos);
  }

  /** No long line begins between `start` and `pos`. */
  ghost predicate NoLongLineUpTo(data: string, start: nat, pos: nat) {
    forall p: nat :: p < pos ==> !LongLineAt(data, start, p)
  }

  lemma ShortLinePassed(data: string, start: nat, pos: nat)
    requires pos < |data| && NoLongLineUpTo(data, start, pos) && EolFrom(data, pos) - pos < INT_MAX
    ensures NoLongLineUpTo(data, start, EolFrom(data, pos) + 1)
  {
    var eol := EolFrom(data, pos);
    EolFound(data, pos);
    forall p: nat | pos <= p <= eol ensures !LongLineAt(data, start, p) {
      assert eol < |data| ==> data[eol] == '\n';
    }
  }

  /** There are at most `INT_MAX` lines, none of them with `INT_MAX` bytes or more in front of its end. */
  ghost predicate FitsLimits(data: string, start: nat) {
    LineCount(data, start) <= INT_MAX && !HasLongLine(data, start)
  }

  lemma SplitNothing(data: string, pos: nat, eolformat: EolFormat)
    ensures SplitLines(data, pos, eolformat) == [] <==> |data| <= pos
  {
  }

  lemma ShortSnoc(lines: seq<string>, line: string)
    requires ShortLines(lines) && |line| <= INT_MAX
    ensures ShortLines(lines + [line])
  {
  }

  /** `parse_lines`. */
  method ParseLines(data: string, start: nat, eolformat: EolFormat) returns (r: ParsedLines)
    requires start <= |data| && FitsFormat(data, start, eolformat)
    ensures r.LinesRead? ==> r.lines == if start == |data| then ["\n"] else SplitLines(data, start, eolformat)
    ensures r.LinesRead? ==> |r.lines| <= INT_MAX && ShortLines(r.lines)
    ensures r.LinesRead? <==> FitsLimits(data, start)
    ensures r.TooMany? ==> LineCount(data, start) > INT_MAX
    ensures r.TooLong? ==> HasLongLine(data, start)
  {
    hide SplitLines, EolFrom, FitsFormat, LineCount;
    SplitNothing(data, |data|, eolformat);
    var lines: seq<string> := [];
    var pos := start;
    ghost var all := SplitLines(data, start, eolformat);
    SplitLinesCounted(data, start, eolformat);
    while pos < |data|
      invariant lines + SplitLines(data, pos, eolformat) == all && AtLineStart(data, start, pos)
      invariant NoLongLineUpTo(data, start, pos)
      invariant |lines| <= INT_MAX && ShortLines(lines)
      decreases |data| - pos
    {
      if |lines| >= INT_MAX {
        return TooMany;
      }
      var eol := FindEol(data, pos);
      if eol - pos >= INT_MAX {
        LongLine(data, start, pos);
        return TooLong;
      }
      var line := ParseLine(data, start, pos, eol, eolformat, lines);
      ShortSnoc(lines, line);
      ShortLinePassed(data, start, pos);
      lines := lines + [line];
      pos := eol + 1;
    }
    Sequences.TakeAll(lines);
    SplitNothing(data, pos, eolformat);
    if lines == [] {
      lines := ["\n"];
    }
    r := LinesRead(lines);
  }

  /** Where the text begins: behind the byte order mark, if there is one. */
  function TextStart(data: string): nat {
    if |data| >= 3 && data[..3] == BOM then 3 else 0
  }

  /** The lines the text splits into are those between its line ends. */
  lemma {:induction false} SplitIntoLines(data: string, start: nat, pos: nat, eolformat: EolFormat)
    requires start <= pos && AtLineStart(data, start, pos) && (eolformat.Crlf? <==> OnlyCrlf(data, start))
    ensures forall i :: 0 <= i < |SplitLines(data, pos, eolformat)| ==>
      IsLineOf(data, start, SplitLines(data, pos, eolformat)[i])
    decreases |data| - pos
  {
    if pos < |data| {
      var eol, rest := EolFrom(data, pos), SplitLines(data, EolFrom(data, pos) + 1, eolformat);
      EolFound(data, pos);
      SplitIntoLines(data, start, eol + 1, eolformat);
      FirstIsLine(data, start, pos, eolformat);
      assert SplitLines(data, pos, eolformat)[1..] == rest;
      assert forall i :: 1 <= i < |rest| + 1 ==> SplitLines(data, pos, eolformat)[i] == rest[i - 1];
    }
  }

  lemma FirstIsLine(data: string, start: nat, pos: nat, eolformat: EolFormat)
    requires start <= pos < |data| && AtLineStart(data, start, pos) && (eolformat.Crlf? <==> OnlyCrlf(data, start))
    ensures IsLineOf(data, start, SplitLines(data, pos, eolformat)[0])
  {
    var eol := EolFrom(data, pos);
    EolFound(data, pos);
    if OnlyCrlf(data, start) && eol < |data| {
      assert IsCrlf(data, start, eol);
      assert pos < eol;
    }
    assert IsNextEol(data, pos, eol);
  }

  /** `parse_file`, from the mapped bytes on. */
  method ParseFile(data: string) returns (r: Parsed)
    ensures r.Parsed? <==> FitsLimits(data, TextStart(data))
    ensures r.Parsed? ==>
      && WellFormed(r.lines) && r.lines != []
      && (r.bom.Utf8? <==> |data| >= 3 && data[..3] == BOM)
    ensures r.Parsed? ==> FileBytes(r.lines, r.bom, r.eolformat, r.finaleol) == data
    ensures r.Parsed? ==> (r.eolformat.Crlf? <==> OnlyCrlf(data, TextStart(data)))
    ensures r.Parsed? ==>
      && (r.finaleol.IfNotEmpty? <==> TextStart(data) == |data|)
      && (r.finaleol.Present? <==> TextStart(data) < |data| && data[|data| - 1] == '\n')
    ensures r.Parsed? && TextStart(data) < |data| ==>
      forall i :: 0 <= i < |r.lines| ==> IsLineOf(data, TextStart(data), r.lines[i])
    ensures r.LineTooLong? ==> HasLongLine(data, TextStart(data))
    ensures r.TooManyLines? ==> LineCount(data, TextStart(data)) > INT_MAX
  {
    var pos := 0;
    var bom := NoMark;
    if |data| >= 3 && data[..3] == BOM {
      bom := Utf8;
      pos := 3;
    }
    var hasCrlf, hasLf := AnalyseEols(data, pos);
    OnlyCrlfSeen(data, pos, hasCrlf, hasLf);
    var eolformat := if hasCrlf && !hasLf then Crlf else Lf;
    var finaleol := if pos == |data| then IfNotEmpty else if data[|data| - 1] == '\n' then Present else Missing;
    var parsed := ParseLines(data, pos, eolformat);
    match parsed
    case TooMany =>
      r := TooManyLines;
    case TooLong =>
      r := LineTooLong;
    case LinesRead(lines) =>
      r := Parsed(lines, bom, eolformat, finaleol);
      if pos < |data| {
        SplitEncodes(data, pos, pos, eolformat);
        SplitIntoLines(data, pos, pos, eolformat);
      }
      WhatWasRead(data, pos, lines, eolformat, finaleol);
      Sequences.TakeDrop(data, pos);
  }

  /** The flags make the lines stand for the bytes they were read from. */
  lemma WhatWasRead(data: string, start: nat, lines: seq<string>, eolformat: EolFormat, finaleol: FinalEol)
    requires start <= |data| && WellFormed(lines) && lines != []
    requires finaleol ==
      if start == |data| then IfNotEmpty else if data[|data| - 1] == '\n' then Present else Missing
    requires if start == |data| then lines == ["\n"]
      else Encoded(lines, EolData(eolformat)) == data[start..] + LastEol(data, eolformat)
    ensures EncodedUpTo(lines, EolData(eolformat), WritesEolAtEof(lines, finaleol)) == data[start..]
  {
    var eol := EolData(eolformat);
    var last := lines[|lines| - 1];
    var body := Encoded(lines[..|lines| - 1], eol) + last[..|last| - 1];
    if start < |data| {
      assert Encoded(lines, eol) == body + eol;
      if data[|data| - 1] != '\n' {
        SameWithoutEnd(body, data[start..], eol);
      }
    }
  }

  // ----- writing

  /** `write_buffer_to_fd`: the bytes handed to the writer. */
  method WriteBuffer(lines: seq<string>, bom: ByteOrderMark, eolformat: EolFormat, finaleolOption: FinalEol,
                     finaleol: Option<FinalEol>) returns (out: string)
    requires WellFormed(lines) && lines != []
    ensures out == FileBytes(lines, bom, eolformat, if finaleol.Some? then finaleol.value else finaleolOption)
    ensures var mark, eol := if bom.Utf8? then BOM else "", if eolformat.Crlf? then "\r\n" else "\n";
      var flag := if finaleol.Some? then finaleol.value else finaleolOption;
      && (flag.Present? || (flag.IfNotEmpty? && lines != ["\n"]) ==> out == mark + Encoded(lines, eol))
      && (flag.Missing? || (flag.IfNotEmpty? && lines == ["\n"]) ==> out + eol == mark + Encoded(lines, eol))
  {
    var eolFlag := if finaleol.Some? then finaleol.value else finaleolOption;
    hide Encoded, EncodedUpTo, FileBytes;
    BytesWritten(lines, bom, eolformat, eolFlag);
    var eoldata := if eolformat.Crlf? then "\r\n" else "\n";
    var writeEolAtEof := eolFlag.Present? || (eolFlag.IfNotEmpty? && (|lines| != 1 || lines[0] != "\n"));
    out := "";
    if bom.Utf8? {
      out := out + BOM;
    }
    out := WriteLines(out, lines, eoldata, writeEolAtEof);
    IsFileBytes(lines, bom, eolformat, eolFlag);
  }

  /** The loop over the lines. */
  method WriteLines(mark: string, lines: seq<string>, eoldata: string, writeEolAtEof: bool) returns (out: string)
    requires WellFormed(lines) && lines != []
    ensures out == mark + EncodedUpTo(lines, eoldata, writeEolAtEof)
  {
    hide Encoded, EncodedUpTo, WrittenUpTo;
    out := mark;
    WrittenAtEnds(out, lines, mark, eoldata, writeEolAtEof);
    var i := 0;
    while i < |lines|
      invariant i <= |lines| && WrittenUpTo(out, lines, mark, eoldata, writeEolAtEof, i)
    {
      WriteOneLine(out, lines, mark, eoldata, writeEolAtEof, i);
      var linedata := lines[i];
      out := out + linedata[..|linedata| - 1];
      if writeEolAtEof || i != |lines| - 1 {
        out := out + eoldata;
      }
      i := i + 1;
    }
    WrittenAtEnds(out, lines, mark, eoldata, writeEolAtEof);
  }

  lemma WrittenAtEnds(out: string, lines: seq<string>, mark: string, eol: string, eolAtEof: bool)
    requires WellFormed(lines) && lines != []
    ensures out == mark ==> WrittenUpTo(out, lines, mark, eol, eolAtEof, 0)
    ensures WrittenUpTo(out, lines, mark, eol, eolAtEof, |lines|) ==> out == mark + EncodedUpTo(lines, eol, eolAtEof)
  {
    assert mark + "" == mark;
  }

  lemma IsFileBytes(lines: seq<string>, bom: ByteOrderMark, eolformat: EolFormat, flag: FinalEol)
    requires WellFormed(lines) && lines != []
    ensures FileBytes(lines, bom, eolformat, flag) ==
      (if bom.Utf8? then BOM else "")
      + EncodedUpTo(lines, if eolformat.Crlf? then "\r\n" else "\n",
                    flag.Present? || (flag.IfNotEmpty? && (|lines| != 1 || lines[0] != "\n")))
  {
  }

  /** A final end of line or none. */
  lemma BytesWritten(lines: seq<string>, bom: ByteOrderMark, eolformat: EolFormat, flag: FinalEol)
    requires WellFormed(lines) && lines != []
    ensures var mark, eol := if bom.Utf8? then BOM else "", if eolformat.Crlf? then "\r\n" else "\n";
      var out := FileBytes(lines, bom, eolformat, flag);
      && (flag.Present? || (flag.IfNotEmpty? && lines != ["\n"]) ==> out == mark + Encoded(lines, eol))
      && (flag.Missing? || (flag.IfNotEmpty? && lines == ["\n"]) ==> out + eol == mark + Encoded(lines, eol))
  {
    hide Encoded, EncodedUpTo;
    var mark, eol := if bom.Utf8? then BOM else "", EolData(eolformat);
    EndOfBytes(lines, eol);
    Sequences.Assoc(mark, EncodedUpTo(lines, eol, false), eol);
  }

  lemma EndOfBytes(lines: seq<string>, eol: string)
    requires WellFormed(lines) && lines != []
    ensures EncodedUpTo(lines, eol, true) == Encoded(lines, eol)
    ensures EncodedUpTo(lines, eol, false) + eol == Encoded(lines, eol)
  {
    var last := lines[|lines| - 1];
    NothingAdded(lines, Encoded(lines[..|lines| - 1], eol) + last[..|last| - 1], eol);
  }

  ghost predicate WrittenUpTo(out: string, lines: seq<string>, mark: string, eol: string, eolAtEof: bool, i: nat)
    requires WellFormed(lines) && lines != [] && i <= |lines|
  {
    out == mark + BytesUpTo(lines, eol, eolAtEof, i)
  }

  /** What has been written after `i` lines. */
  ghost function BytesUpTo(lines: seq<string>, eol: string, eolAtEof: bool, i: nat): string
    requires WellFormed(lines) && lines != [] && i <= |lines|
  {
    if i < |lines| then Encoded(lines[..i], eol) else EncodedUpTo(lines, eol, eolAtEof)
  }

  lemma BytesGrow(lines: seq<string>, eol: string, eolAtEof: bool, i: nat)
    requires WellFormed(lines) && i < |lines|
    ensures BytesUpTo(lines, eol, eolAtEof, i) == Encoded(lines[..i], eol)
    ensures BytesUpTo(lines, eol, eolAtEof, i + 1) ==
      Encoded(lines[..i], eol) + lines[i][..|lines[i]| - 1] + if eolAtEof || i != |lines| - 1 then eol else ""
  {
    Sequences.Parts(lines, i);
    EncodedSnoc(lines[..i], lines[i], eol);
  }

  lemma WriteOneLine(out: string, lines: seq<string>, mark: string, eol: string, eolAtEof: bool, i: nat)
    requires WellFormed(lines) && i < |lines| && WrittenUpTo(out, lines, mark, eol, eolAtEof, i)
    ensures eolAtEof || i != |lines| - 1 ==>
      WrittenUpTo(out + lines[i][..|lines[i]| - 1] + eol, lines, mark, eol, eolAtEof, i + 1)
    ensures !(eolAtEof || i != |lines| - 1) ==>
      WrittenUpTo(out + lines[i][..|lines[i]| - 1], lines, mark, eol, eolAtEof, i + 1)
  {
    var content, done := lines[i][..|lines[i]| - 1], Encoded(lines[..i], eol);
    BytesGrow(lines, eol, eolAtEof, i);
    Regroup(mark, done, content, eol);
    Regroup(mark, done, content, "");
  }

  /** Reading a file and writing it back: the bytes are the same. */
  method ReadAndWrite(data: string) returns (r: Parsed, out: string)
    ensures r.Parsed? <==> FitsLimits(data, TextStart(data))
    ensures r.Parsed? ==> out == data
  {
    r := ParseFile(data);
    out := "";
    if r.Parsed? {
      out := WriteBuffer(r.lines, r.bom, r.eolformat, r.finaleol, None);
    }
  }
}
