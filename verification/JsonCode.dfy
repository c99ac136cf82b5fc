/** The loops that print strings and parse values, against their meaning as functions. */
module JsonCode {
  import opened Json
  import opened Options
  import Sequences

  lemma {:induction false} EscapeConcat(a: string, b: string)
    ensures Escape(a + b) == Escape(a) + Escape(b)
  {
    if a == "" {
      assert a + b == b;
    } else {
      assert (a + b)[1..] == a[1..] + b;
      EscapeConcat(a[1..], b);
    }
  }

  predicate NeedsEscape(c: char) {
    c == '\\' || c == '"' || IsControl(c)
  }

  lemma {:induction false} EscapePlain(s: string)
    requires forall i :: 0 <= i < |s| ==> !NeedsEscape(s[i])
    ensures Escape(s) == s
  {
    if s != "" {
      EscapePlain(s[1..]);
      assert s == [s[0]] + s[1..];
    }
  }

  /** One run of plain characters, copied whole, and the character behind it. */
  lemma EscapeRun(str: string, it: nat, next: nat)
    requires it <= next < |str| && forall i :: it <= i < next ==> !NeedsEscape(str[i])
    ensures Escape(str[..next + 1]) == Escape(str[..it]) + str[it..next] + EscapeChar(str[next])
  {
    var run := str[it..next];
    EscapePlain(run);
    assert str[..next + 1] == (str[..it] + run) + [str[next]];
    EscapeConcat(str[..it] + run, [str[next]]);
    EscapeConcat(str[..it], run);
    assert [str[next]][1..] == "";
    assert Escape([str[next]]) == EscapeChar(str[next]) + "";
  }

  method FindSpecial(str: string, it: nat) returns (next: nat)
    requires it <= |str|
    ensures it <= next <= |str| && (next < |str| ==> NeedsEscape(str[next]))
    ensures forall i :: it <= i < next ==> !NeedsEscape(str[i])
  {
    next := it;
    while next < |str| && !NeedsEscape(str[next])
      invariant it <= next <= |str| && forall i :: it <= i < next ==> !NeedsEscape(str[i])
    {
      next := next + 1;
    }
  }

  /** The opening quote and the escaped text up to `it` have been written. */
  ghost predicate Written(res: string, str: string, it: nat) {
    it <= |str| && res == "\"" + Escape(str[..it])
  }

  lemma WriteRun(res: string, str: string, it: nat, next: nat)
    requires Written(res, str, it) && it <= next < |str| && forall i :: it <= i < next ==> !NeedsEscape(str[i])
    ensures Written(res + str[it..next] + EscapeChar(str[next]), str, next + 1)
  {
    EscapeRun(str, it, next);
  }

  lemma WriteRest(res: string, str: string, it: nat)
    requires Written(res, str, it) && forall i :: it <= i < |str| ==> !NeedsEscape(str[i])
    ensures Written(res + str[it..], str, |str|)
  {
    EscapePlain(str[it..]);
    Sequences.TakeDrop(str, it);
    Sequences.TakeAll(str);
    EscapeConcat(str[..it], str[it..]);
    Sequences.Assoc("\"", Escape(str[..it]), str[it..]);
  }

  /** `to_json` of a string: plain runs are copied, the characters between them escaped. */
  method ToJson(str: string) returns (res: string)
    ensures res == Print(Text(str))
  {
    res := "\"";
    var it := 0;
    while it < |str|
      invariant Written(res, str, it)
    {
      var next := FindSpecial(str, it);
      if next == |str| {
        WriteRest(res, str, it);
      } else {
        WriteRun(res, str, it, next);
      }
      res := res + str[it..next];
      if next == |str| {
        it := next;
        break;
      }
      var buf := if IsControl(str[next]) then EscapeChar(str[next]) else ['\\', str[next]];
      res := res + buf;
      it := next + 1;
    }
    assert str[..it] == str;
    res := res + "\"";
  }

  /** A parsed string with more text in front. */
  function Prepend(prefix: string, r: Option<(string, nat)>): Option<(string, nat)> {
    if r.None? then None else Some((prefix + r.value.0, r.value.1))
  }

  /** What has been read so far: the finished text, the run from `pos`, and a pending backslash. */
  ghost predicate Reading(s: string, start: nat, value: string, pos: nat, stringEnd: nat, escaped: bool) {
    && start <= pos <= stringEnd <= |s|
    && if escaped then (
         && pos < stringEnd && s[stringEnd - 1] == '\\'
         && ParseString(s, start) == Prepend(value + s[pos..stringEnd - 1], ParseString(s, stringEnd - 1)))
       else ParseString(s, start) == Prepend(value + s[pos..stringEnd], ParseString(s, stringEnd))
  }

  lemma ReadNothing(s: string, start: nat)
    requires start <= |s|
    ensures Reading(s, start, "", start, start, false)
  {
    var r := ParseString(s, start);
    assert "" + s[start..start] == "";
    if r.Some? {
      assert "" + r.value.0 == r.value.0;
    }
  }

  lemma ReadEscaped(s: string, start: nat, value: string, pos: nat, stringEnd: nat)
    requires Reading(s, start, value, pos, stringEnd, true) && stringEnd < |s|
    ensures
      Reading(s, start, value + s[pos..stringEnd][..stringEnd - pos - 1] + [s[stringEnd]], stringEnd + 1,
              stringEnd + 1, false)
  {
    var value' := value + s[pos..stringEnd - 1];
    var rest := ParseString(s, stringEnd + 1);
    assert s[pos..stringEnd][..stringEnd - pos - 1] == s[pos..stringEnd - 1];
    assert ParseString(s, stringEnd - 1) == Prepend([s[stringEnd]], rest);
    assert value' + [s[stringEnd]] + s[stringEnd + 1..stringEnd + 1] == value' + [s[stringEnd]];
    if rest.Some? {
      assert value' + ([s[stringEnd]] + rest.value.0) == value' + [s[stringEnd]] + rest.value.0;
    }
  }

  lemma ReadPlain(s: string, start: nat, value: string, pos: nat, stringEnd: nat)
    requires Reading(s, start, value, pos, stringEnd, false) && stringEnd < |s|
    ensures s[stringEnd] == '"' ==> ParseString(s, start) == Some((value + s[pos..stringEnd], stringEnd + 1))
    ensures s[stringEnd] != '"' ==> Reading(s, start, value, pos, stringEnd + 1, s[stringEnd] == '\\')
  {
    var value' := value + s[pos..stringEnd];
    assert value' + "" == value';
    if s[stringEnd] != '"' && s[stringEnd] != '\\' {
      var rest := ParseString(s, stringEnd + 1);
      assert value + s[pos..stringEnd + 1] == value' + [s[stringEnd]];
      if rest.Some? {
        assert value' + ([s[stringEnd]] + rest.value.0) == value' + [s[stringEnd]] + rest.value.0;
      }
    }
  }

  /** The loop over a string: runs are appended whole, a backslash is replaced by what follows it. */
  method ParseText(s: string, start: nat) returns (r: Result)
    requires start <= |s|
    ensures r == var p := ParseString(s, start); if p.None? then Nothing else Ok(Text(p.value.0), p.value.1)
  {
    var value, escaped := "", false;
    var pos: nat, stringEnd: nat := start, start;
    ReadNothing(s, start);
    while stringEnd != |s|
      invariant Reading(s, start, value, pos, stringEnd, escaped)
      decreases |s| - stringEnd
    {
      if escaped {
        ReadEscaped(s, start, value, pos, stringEnd);
        escaped := false;
        value := value + s[pos..stringEnd][..stringEnd - pos - 1] + [s[stringEnd]];
        pos := stringEnd + 1;
      } else {
        ReadPlain(s, start, value, pos, stringEnd);
        if s[stringEnd] == '\\' {
          escaped := true;
        }
        if s[stringEnd] == '"' {
          return Ok(Text(value + s[pos..stringEnd]), stringEnd + 1);
        }
      }
      stringEnd := stringEnd + 1;
    }
    r := Nothing;
  }

  method SkipWhileBlank(s: string, start: nat) returns (pos: nat)
    requires start <= |s|
    ensures pos == SkipBlanks(s, start)
  {
    pos := start;
    while pos < |s| && IsBlank(s[pos])
      invariant start <= pos <= |s| && SkipBlanks(s, pos) == SkipBlanks(s, start)
    {
      pos := pos + 1;
    }
  }

  method SkipWhileDigit(s: string, start: nat) returns (pos: nat)
    requires start <= |s|
    ensures pos == SkipDigits(s, start)
  {
    pos := start;
    while pos < |s| && IsDigit(s[pos])
      invariant start <= pos <= |s| && SkipDigits(s, pos) == SkipDigits(s, start)
    {
      pos := pos + 1;
    }
  }

  /** `parse_json_impl`: positions are indices into the text. */
  method ParseJsonImpl(s: string, start: nat, depth: nat) returns (r: Result)
    requires start <= |s|
    ensures r == Parse(s, start, depth)
    decreases |s| - start, 2
  {
    var pos := SkipWhileBlank(s, start);
    if pos == |s| {
      return Nothing;
    }
    if depth >= MAX_DEPTH {
      return Failed;
    }
    if IsDigit(s[pos]) || s[pos] == '-' {
      var digitEnd := SkipWhileDigit(s, pos + 1);
      var i := StrToInt(s[pos..digitEnd]);
      return if i.None? then Failed else Ok(Number(i.value), digitEnd);
    }
    if StartsWith(s, pos, "true") {
      return Ok(Boolean(true), pos + 4);
    }
    if StartsWith(s, pos, "false") {
      return Ok(Boolean(false), pos + 5);
    }
    if s[pos] == '"' {
      r := ParseText(s, pos + 1);
    } else if s[pos] == '[' {
      r := ParseElementsOf(s, pos + 1, depth);
    } else if s[pos] == '{' {
      r := ParseMembersOf(s, pos + 1, depth);
    } else {
      r := Failed;
    }
  }

  /** The loop over the elements of an array. */
  method ParseElementsOf(s: string, start: nat, depth: nat) returns (r: Result)
    requires start <= |s|
    ensures r == ParseArray(s, start, depth)
    decreases |s| - start, 3
  {
    if start == |s| {
      return Failed;
    }
    if s[start] == ']' {
      return Ok(Array([]), start + 1);
    }
    var elements, pos := [], start;
    while true
      invariant start <= pos <= |s| && ParseElements(s, pos, depth, elements) == ParseArray(s, start, depth)
      decreases |s| - pos
    {
      var element := ParseJsonImpl(s, pos, depth + 1);
      if !element.Ok? {
        return element;
      }
      elements := elements + [element.value];
      pos := SkipWhileBlank(s, element.newPos);
      if pos == |s| {
        return Nothing;
      }
      if s[pos] == ',' {
        pos := pos + 1;
      } else if s[pos] == ']' {
        return Ok(Array(elements), pos + 1);
      } else {
        return Failed;
      }
    }
  }

  /** One member: its name, the colon and its value. Stops at the end of the text and at errors. */
  method ParseMember(s: string, start: nat, depth: nat, members: seq<Member>)
    returns (stop: bool, r: Result, members': seq<Member>, end: nat)
    requires start <= |s|
    ensures stop ==> r == ParseMembers(s, start, depth, members)
    ensures !stop ==>
      start < end <= |s| && ParseMembers(s, start, depth, members) == AfterMember(s, end, depth, members')
    decreases |s| - start, 3
  {
    stop, members', end := true, members, start;
    var name := ParseJsonImpl(s, start, depth + 1);
    if !name.Ok? {
      return stop, name, members', end;
    }
    if !name.value.Text? {
      return stop, Failed, members', end;
    }
    assert ParseMembers(s, start, depth, members) == AfterName(s, name.newPos, depth, members, name.value.s);
    var pos := SkipWhileBlank(s, name.newPos);
    if pos == |s| {
      return stop, Nothing, members', end;
    }
    if s[pos] != ':' {
      return stop, Failed, members', end;
    }
    var element := ParseJsonImpl(s, pos + 1, depth + 1);
    if !element.Ok? {
      return stop, element, members', end;
    }
    stop, r, members', end := false, Nothing, InsertMember(members, Member(name.value.s, element.value)),
      element.newPos;
  }

  /** The loop over the members of an object. */
  method ParseMembersOf(s: string, start: nat, depth: nat) returns (r: Result)
    requires start <= |s|
    ensures r == ParseObject(s, start, depth)
    decreases |s| - start, 4
  {
    if start == |s| {
      return Failed;
    }
    if s[start] == '}' {
      return Ok(Object([]), start + 1);
    }
    var members, pos := [], start;
    while true
      invariant start <= pos <= |s| && ParseMembers(s, pos, depth, members) == ParseObject(s, start, depth)
      decreases |s| - pos
    {
      var stop, outcome, members', end := ParseMember(s, pos, depth, members);
      if stop {
        return outcome;
      }
      members := members';
      pos := SkipWhileBlank(s, end);
      if pos == |s| {
        return Nothing;
      }
      if s[pos] == ',' {
        pos := pos + 1;
      } else if s[pos] == '}' {
        return Ok(Object(members), pos + 1);
      } else {
        return Failed;
      }
    }
  }
}
