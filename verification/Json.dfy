/** JSON values, their printer, and the meaning of the parser as a function. */
module Json {
  import opened Options

  datatype Value =
    | Number(i: int)
    | Boolean(b: bool)
    | Text(s: string)
    | Array(elements: seq<Value>)
    | Object(members: seq<Member>)

  datatype Member = Member(key: string, value: Value)

  /** What a parsing step gives: a value and where it ends, the empty result, or an exception. */
  datatype Result = Ok(value: Value, newPos: nat) | Nothing | Failed

  const MAX_DEPTH := 100
  const TWO_31 := 0x8000_0000
  const TWO_32 := 0x1_0000_0000

  // ----- printing

  predicate IsControl(c: char) {
    c as int <= 0x1F
  }

  function HexDigit(n: nat): char
    requires n < 16
  {
    if n < 10 then '0' + n as char else 'a' + (n - 10) as char
  }

  function EscapeChar(c: char): string {
    if IsControl(c) then "\\u00" + [HexDigit(c as int / 16), HexDigit(c as int % 16)]
    else if c == '\\' || c == '"' then ['\\', c]
    else [c]
  }

  function Escape(s: string): string {
    if s == "" then "" else EscapeChar(s[0]) + Escape(s[1..])
  }

  function Digits(n: nat): string {
    (if n < 10 then "" else Digits(n / 10)) + ['0' + (n % 10) as char]
  }

  function PrintInt(i: int): string {
    if i < 0 then "-" + Digits(-i) else Digits(i)
  }

  /** `join`: the joiner goes in front of every string but those that follow nothing. */
  function Join(strings: seq<string>, joiner: string): string {
    if strings == [] then ""
    else
      var res := Join(strings[..|strings| - 1], joiner);
      (if res != "" then res + joiner else res) + strings[|strings| - 1]
  }

  function Print(v: Value): string
    decreases v, 0
  {
    match v
    case Number(i) => PrintInt(i)
    case Boolean(b) => if b then "true" else "false"
    case Text(s) => "\"" + Escape(s) + "\""
    case Array(elements) => "[" + Join(PrintAll(elements), ", ") + "]"
    case Object(members) => "{" + Join(PrintMembers(members), ",") + "}"
  }

  function PrintAll(vs: seq<Value>): seq<string>
    decreases vs, 1
  {
    if vs == [] then [] else [Print(vs[0])] + PrintAll(vs[1..])
  }

  function PrintMembers(ms: seq<Member>): seq<string>
    decreases ms, 1
  {
    if ms == [] then [] else [PrintMember(ms[0])] + PrintMembers(ms[1..])
  }

  function PrintMember(m: Member): string
    decreases m, 1
  {
    "\"" + Escape(m.key) + "\"" + ": " + Print(m.value)
  }

  // ----- parsing

  predicate IsBlank(c: char) {
    c == '\n' || c == '\r' || c == '\U{B}' || c == '\t' || c == '\U{C}' || c == ' '
  }

  predicate IsDigit(c: char) {
    '0' <= c <= '9'
  }

  function SkipBlanks(s: string, pos: nat): (r: nat)
    requires pos <= |s|
    ensures pos <= r <= |s|
    decreases |s| - pos
  {
    if pos < |s| && IsBlank(s[pos]) then SkipBlanks(s, pos + 1) else pos
  }

  function SkipDigits(s: string, pos: nat): (r: nat)
    requires pos <= |s|
    ensures pos <= r <= |s|
    decreases |s| - pos
  {
    if pos < |s| && IsDigit(s[pos]) then SkipDigits(s, pos + 1) else pos
  }

  function DigitOf(c: char): nat
    requires IsDigit(c)
  {
    c as int - '0' as int
  }

  /** The digits as an unsigned 32-bit number. */
  function DigitsValue(s: string): Option<nat> {
    if s == "" then Some(0)
    else
      var v := DigitsValue(s[..|s| - 1]);
      var c := s[|s| - 1];
      if v.None? || !IsDigit(c) then None else Some((v.value * 10 + DigitOf(c)) % TWO_32)
  }

  function ToSigned(n: int): int {
    var m := n % TWO_32;
    if m < TWO_31 then m else m - TWO_32
  }

  function StrToInt(s: string): Option<int> {
    var negative := s != "" && s[0] == '-';
    var digits := if negative then s[1..] else s;
    if digits == "" then None
    else
      var v := DigitsValue(digits);
      if v.None? then None else Some(ToSigned(if negative then 0 - v.value else v.value))
  }

  /** A string up to its closing quote: a backslash stands for whatever follows it. */
  function ParseString(s: string, pos: nat): (r: Option<(string, nat)>)
    requires pos <= |s|
    ensures r.Some? ==> pos < r.value.1 <= |s|
    decreases |s| - pos
  {
    if pos == |s| then None
    else if s[pos] == '"' then Some(("", pos + 1))
    else if s[pos] == '\\' then
      if pos + 1 == |s| then None
      else
        var r := ParseString(s, pos + 2);
        if r.None? then None else Some(([s[pos + 1]] + r.value.0, r.value.1))
    else
      var r := ParseString(s, pos + 1);
      if r.None? then None else Some(([s[pos]] + r.value.0, r.value.1))
  }

  predicate StartsWith(s: string, pos: nat, word: string)
    requires pos <= |s|
  {
    |s| - pos > |word| && s[pos..pos + |word|] == word
  }

  /** Insertion into a hash map: overwrite in place or append. */
  function InsertMember(ms: seq<Member>, m: Member): (r: seq<Member>)
    ensures |ms| <= |r| <= |ms| + 1
  {
    if ms == [] then [m]
    else if ms[0].key == m.key then [m] + ms[1..]
    else [ms[0]] + InsertMember(ms[1..], m)
  }

  /** Numbers, the two words and strings. */
  function ParseAtom(s: string, pos: nat): (r: Result)
    requires pos < |s|
    ensures r.Ok? ==> pos < r.newPos <= |s|
  {
    if IsDigit(s[pos]) || s[pos] == '-' then
      var digitEnd := SkipDigits(s, pos + 1);
      var i := StrToInt(s[pos..digitEnd]);
      if i.None? then Failed else Ok(Number(i.value), digitEnd)
    else if StartsWith(s, pos, "true") then Ok(Boolean(true), pos + 4)
    else if StartsWith(s, pos, "false") then Ok(Boolean(false), pos + 5)
    else if s[pos] == '"' then
      var r := ParseString(s, pos + 1);
      if r.None? then Nothing else Ok(Text(r.value.0), r.value.1)
    else Failed
  }

  function Parse(s: string, start: nat, depth: nat): (r: Result)
    requires start <= |s|
    ensures r.Ok? ==> start < r.newPos <= |s|
    decreases |s| - start, 5
  {
    var pos := SkipBlanks(s, start);
    if pos == |s| then Nothing
    else if depth >= MAX_DEPTH then Failed
    else ParseAt(s, pos, depth)
  }

  function ParseAt(s: string, pos: nat, depth: nat): (r: Result)
    requires pos < |s|
    ensures r.Ok? ==> pos < r.newPos <= |s|
    decreases |s| - pos, 4
  {
    if s[pos] == '[' then ParseArray(s, pos + 1, depth)
    else if s[pos] == '{' then ParseObject(s, pos + 1, depth)
    else ParseAtom(s, pos)
  }

  function ParseArray(s: string, pos: nat, depth: nat): (r: Result)
    requires pos <= |s|
    ensures r.Ok? ==> pos < r.newPos <= |s|
    decreases |s| - pos, 7
  {
    if pos == |s| then Failed
    else if s[pos] == ']' then Ok(Array([]), pos + 1)
    else ParseElements(s, pos, depth, [])
  }

  function ParseElements(s: string, pos: nat, depth: nat, acc: seq<Value>): (r: Result)
    requires pos <= |s|
    ensures r.Ok? ==> pos < r.newPos <= |s|
    decreases |s| - pos, 6
  {
    var element := Parse(s, pos, depth + 1);
    if !element.Ok? then element
    else AfterElement(s, element.newPos, depth, acc + [element.value])
  }

  function AfterElement(s: string, end: nat, depth: nat, acc: seq<Value>): (r: Result)
    requires end <= |s|
    ensures r.Ok? ==> end < r.newPos <= |s|
    decreases |s| - end, 8
  {
    var pos := SkipBlanks(s, end);
    if pos == |s| then Nothing
    else if s[pos] == ',' then ParseElements(s, pos + 1, depth, acc)
    else if s[pos] == ']' then Ok(Array(acc), pos + 1)
    else Failed
  }

  function ParseObject(s: string, pos: nat, depth: nat): (r: Result)
    requires pos <= |s|
    ensures r.Ok? ==> pos < r.newPos <= |s|
    decreases |s| - pos, 7
  {
    if pos == |s| then Failed
    else if s[pos] == '}' then Ok(Object([]), pos + 1)
    else ParseMembers(s, pos, depth, [])
  }

  function ParseMembers(s: string, pos: nat, depth: nat, acc: seq<Member>): (r: Result)
    requires pos <= |s|
    ensures r.Ok? ==> pos < r.newPos <= |s|
    decreases |s| - pos, 6
  {
    var name := Parse(s, pos, depth + 1);
    if !name.Ok? then name
    else if !name.value.Text? then Failed
    else AfterName(s, name.newPos, depth, acc, name.value.s)
  }

  function AfterName(s: string, end: nat, depth: nat, acc: seq<Member>, name: string): (r: Result)
    requires end <= |s|
    ensures r.Ok? ==> end < r.newPos <= |s|
    decreases |s| - end, 8
  {
    var colon := SkipBlanks(s, end);
    if colon == |s| then Nothing
    else if s[colon] != ':' then Failed
    else
      var element := Parse(s, colon + 1, depth + 1);
      if !element.Ok? then element
      else AfterMember(s, element.newPos, depth, InsertMember(acc, Member(name, element.value)))
  }

  function AfterMember(s: string, end: nat, depth: nat, acc: seq<Member>): (r: Result)
    requires end <= |s|
    ensures r.Ok? ==> end < r.newPos <= |s|
    decreases |s| - end, 8
  {
    var pos := SkipBlanks(s, end);
    if pos == |s| then Nothing
    else if s[pos] == ',' then ParseMembers(s, pos + 1, depth, acc)
    else if s[pos] == '}' then Ok(Object(acc), pos + 1)
    else Failed
  }
}
