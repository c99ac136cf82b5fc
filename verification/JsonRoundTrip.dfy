/** Parsing what was printed. */
module JsonRoundTrip {
  import opened Json
  import opened Options
  import opened Integers
  import opened HashMaps
  import Sequences

  // ----- numbers

  function LastDigit(n: nat): char {
    '0' + (n % 10) as char
  }

  lemma DigitStep(n: nat)
    requires n < TWO_32
    ensures IsDigit(LastDigit(n)) && (n / 10 * 10 + DigitOf(LastDigit(n))) % TWO_32 == n
    ensures n < 10 ==> n / 10 == 0
  {
    assert n == n / 10 * 10 + n % 10;
  }

  /** A number is printed as its leading digits and its last one. */
  lemma DigitsSplit(n: nat)
    ensures Digits(n) == (if n < 10 then "" else Digits(n / 10)) + [LastDigit(n)]
    ensures IsDigit(LastDigit(n))
  {
  }

  lemma {:induction false} DigitsAreDigits(n: nat)
    ensures Digits(n) != "" && forall i :: 0 <= i < |Digits(n)| ==> IsDigit(Digits(n)[i])
  {
    DigitsSplit(n);
    if n >= 10 {
      DigitsAreDigits(n / 10);
    }
  }

  lemma ValueSnoc(s: string, c: char)
    requires IsDigit(c) && DigitsValue(s).Some?
    ensures DigitsValue(s + [c]) == Some((DigitsValue(s).value * 10 + DigitOf(c)) % TWO_32)
  {
    Sequences.Cut(s, [c]);
  }

  lemma {:induction false} DigitsRoundTrip(n: nat)
    requires n < TWO_32
    ensures DigitsValue(Digits(n)) == Some(n)
  {
    hide Digits;
    DigitsSplit(n);
    DigitStep(n);
    if n >= 10 {
      DigitsRoundTrip(n / 10);
      ValueSnoc(Digits(n / 10), LastDigit(n));
    } else {
      ValueSnoc("", LastDigit(n));
    }
  }

  predicate InRange(i: int) {
    -TWO_31 <= i < TWO_31
  }

  lemma SignedAgain(i: int)
    requires InRange(i)
    ensures ToSigned(i) == i
  {
    if i < 0 {
      assert i == -1 * TWO_32 + (i + TWO_32);
    }
  }

  /** The sign is read first, the digits behind it. */
  lemma ReadSign(negative: bool, digits: string)
    requires digits != "" && digits[0] != '-'
    ensures StrToInt((if negative then "-" else "") + digits) ==
      var v := DigitsValue(digits);
      if v.None? then None else Some(ToSigned(if negative then 0 - v.value else v.value))
  {
    var s := (if negative then "-" else "") + digits;
    if negative {
      assert s[1..] == digits;
    } else {
      assert s == digits;
    }
  }

  lemma ReadBack(i: int, digits: string)
    requires InRange(i) && digits != "" && digits[0] != '-' && DigitsValue(digits) == Some(if i < 0 then -i else i)
    ensures StrToInt((if i < 0 then "-" else "") + digits) == Some(i)
  {
    ReadSign(i < 0, digits);
    SignedAgain(i);
  }

  lemma PrintedInt(i: int)
    ensures PrintInt(i) == (if i < 0 then "-" else "") + Digits(if i < 0 then -i else i)
  {
    var digits := Digits(if i < 0 then -i else i);
    assert "" + digits == digits;
  }

  /** `to_json` and `str_to_int` agree on every `int`, the smallest one included. */
  lemma IntRoundTrip(i: int)
    requires InRange(i)
    ensures StrToInt(PrintInt(i)) == Some(i)
  {
    var n := if i < 0 then -i else i;
    DigitsAreDigits(n);
    DigitsRoundTrip(n);
    assert IsDigit(Digits(n)[0]);
    ReadBack(i, Digits(n));
    PrintedInt(i);
  }

  /** The number the digits stand for. */
  ghost function Decimal(s: string): nat {
    if s == "" then 0 else Decimal(s[..|s| - 1]) * 10 + if IsDigit(s[|s| - 1]) then DigitOf(s[|s| - 1]) else 0
  }

  lemma SameRemainder(x: nat, d: nat)
    ensures ((x % TWO_32) * 10 + d) % TWO_32 == (x * 10 + d) % TWO_32
  {
    var y := (x % TWO_32) * 10 + d;
    assert x == TWO_32 * (x / TWO_32) + x % TWO_32;
    assert x * 10 + d == y + TWO_32 * ((x / TWO_32) * 10);
  }

  lemma {:induction false} DigitsValueIs(s: string)
    ensures DigitsValue(s).Some? <==> forall i :: 0 <= i < |s| ==> '0' <= s[i] <= '9'
    ensures DigitsValue(s).Some? ==> DigitsValue(s).value == Decimal(s) % TWO_32
  {
    if s != "" {
      var init, c := s[..|s| - 1], s[|s| - 1];
      DigitsValueIs(init);
      assert forall i :: 0 <= i < |init| ==> s[i] == init[i];
      if IsDigit(c) {
        SameRemainder(Decimal(init), DigitOf(c));
      }
    }
  }

  /** Read are digits behind an optional minus, as the number they stand for, cut to 32 bits with a sign. */
  lemma NumbersRead(s: string)
    ensures var negative := s != "" && s[0] == '-';
      var digits := if negative then s[1..] else s;
      var d: int := Decimal(digits);
      && (StrToInt(s).Some? <==> digits != "" && forall i :: 0 <= i < |digits| ==> '0' <= digits[i] <= '9')
      && (StrToInt(s).Some? ==>
            && -0x8000_0000 <= StrToInt(s).value <= 0x7FFF_FFFF
            && (StrToInt(s).value - if negative then -d else d) % 0x1_0000_0000 == 0)
  {
    hide DigitsValue, Decimal, ToSigned;
    var negative := s != "" && s[0] == '-';
    var digits := if negative then s[1..] else s;
    DigitsValueIs(digits);
    if StrToInt(s).Some? {
      var v: int := DigitsValue(digits).value;
      var d: int := Decimal(digits);
      assert d == TWO_32 * (d / TWO_32) + v;
      if negative {
        SignedRemainder(-v, -d, d / TWO_32);
      } else {
        SignedRemainder(v, d, -(d / TWO_32));
      }
    }
  }

  lemma SignedRemainder(v: int, d: int, k: int)
    requires v == d + k * TWO_32
    ensures (ToSigned(v) - d) % TWO_32 == 0 && InRange(ToSigned(v))
  {
    var m := v % TWO_32;
    assert v == TWO_32 * (v / TWO_32) + m;
    var j := k - v / TWO_32 - if m < TWO_31 then 0 else 1;
    assert ToSigned(v) - d == j * TWO_32;
  }

  /** The text is found in `s` at `pos`. */
  ghost predicate At(s: string, pos: nat, text: string) {
    pos + |text| <= |s| && s[pos..pos + |text|] == text
  }

  lemma AtParts(s: string, pos: nat, text: string, a: string, b: string, middle: nat)
    requires At(s, pos, text) && text == a + b && middle == pos + |a|
    ensures At(s, pos, a) && At(s, middle, b)
  {
    var t := s[pos..pos + |text|];
    assert s[pos..pos + |a|] == t[..|a|];
    assert s[middle..middle + |b|] == t[|a|..];
  }

  lemma AtChar(s: string, pos: nat, text: string, i: nat)
    requires At(s, pos, text) && i < |text|
    ensures s[pos + i] == text[i]
  {
    assert s[pos..pos + |text|][i] == text[i];
  }

  lemma {:induction false} SkipsAllDigits(s: string, pos: nat, end: nat)
    requires pos <= end <= |s| && (end < |s| ==> !IsDigit(s[end]))
    requires forall i :: pos <= i < end ==> IsDigit(s[i])
    ensures SkipDigits(s, pos) == end
    decreases end - pos
  {
    if pos < end {
      SkipsAllDigits(s, pos + 1, end);
    }
  }

  /** What may stand behind a value: the end, or a separator. */
  ghost predicate Delimited(s: string, pos: nat) {
    pos <= |s| && (pos < |s| ==> s[pos] == ',' || s[pos] == ']' || s[pos] == '}' || s[pos] == ':')
  }

  /** The digits of a printed number, in place. */
  lemma NumberAt(s: string, pos: nat, i: int, end: nat)
    requires At(s, pos, PrintInt(i)) && end == pos + |PrintInt(i)|
    ensures pos < end && (s[pos] == '-' || IsDigit(s[pos])) && s[pos..end] == PrintInt(i)
    ensures forall j :: pos < j < end ==> IsDigit(s[j])
  {
    hide Digits, PrintInt;
    var n := if i < 0 then -i else i;
    var sign := if i < 0 then "-" else "";
    DigitsAreDigits(n);
    PrintedInt(i);
    AtParts(s, pos, PrintInt(i), sign, Digits(n), pos + |sign|);
    forall j | pos + |sign| <= j < end ensures IsDigit(s[j]) {
      AtChar(s, pos + |sign|, Digits(n), j - (pos + |sign|));
    }
    if i < 0 {
      AtChar(s, pos, sign, 0);
    }
  }

  lemma NumberAtom(s: string, pos: nat, i: int, end: nat)
    requires InRange(i) && At(s, pos, PrintInt(i)) && end == pos + |PrintInt(i)| && Delimited(s, end)
    ensures pos < |s| && !IsBlank(s[pos]) && s[pos] != '[' && s[pos] != '{'
    ensures ParseAtom(s, pos) == Ok(Number(i), end)
  {
    hide PrintInt, StrToInt;
    NumberAt(s, pos, i, end);
    SkipsAllDigits(s, pos + 1, end);
    IntRoundTrip(i);
  }

  lemma ParseNumber(s: string, pos: nat, depth: nat, i: int)
    requires InRange(i) && At(s, pos, PrintInt(i)) && Delimited(s, pos + |PrintInt(i)|) && depth < MAX_DEPTH
    ensures Parse(s, pos, depth) == Ok(Number(i), pos + |PrintInt(i)|)
  {
    hide PrintInt, ParseAtom;
    NumberAtom(s, pos, i, pos + |PrintInt(i)|);
    assert SkipBlanks(s, pos) == pos;
    assert Parse(s, pos, depth) == ParseAt(s, pos, depth) == ParseAtom(s, pos);
  }

  // ----- strings

  /** What a printed string reads back as: a control character comes back as five plain ones. */
  function Decoded(s: string): string {
    if s == "" then ""
    else (if IsControl(s[0]) then EscapeChar(s[0])[1..] else [s[0]]) + Decoded(s[1..])
  }

  ghost predicate NoControl(s: string) {
    forall i :: 0 <= i < |s| ==> !IsControl(s[i])
  }

  lemma NoControlParts(s: string)
    requires s != ""
    ensures NoControl(s) <==> !IsControl(s[0]) && NoControl(s[1..])
  {
    var rest := s[1..];
    if !IsControl(s[0]) && NoControl(rest) {
      forall i | 0 <= i < |s| ensures !IsControl(s[i]) {
        assert i == 0 || s[i] == rest[i - 1];
      }
    }
    if NoControl(s) {
      forall i | 0 <= i < |rest| ensures !IsControl(rest[i]) {
        assert rest[i] == s[i + 1];
      }
    }
  }

  lemma {:induction false} DecodedIsLonger(s: string)
    ensures |s| <= |Decoded(s)|
    ensures |Decoded(s)| == |s| ==> NoControl(s)
    ensures NoControl(s) ==> Decoded(s) == s
  {
    if s != "" {
      DecodedIsLonger(s[1..]);
      NoControlParts(s);
      Sequences.Parts(s, 0);
      assert Decoded(s) == (if IsControl(s[0]) then EscapeChar(s[0])[1..] else [s[0]]) + Decoded(s[1..]);
    }
  }

  /** A string reads back unchanged exactly if it has no control characters. */
  lemma DecodedSame(s: string)
    ensures Decoded(s) == s <==> NoControl(s)
  {
    DecodedIsLonger(s);
  }

  /** Quotes and backslashes are printed behind a backslash, control characters with the two hexadecimal digits of
      their code, and all others as they are. */
  lemma EscapedCharacters(c: char)
    ensures c == '"' || c == '\\' ==> EscapeChar(c) == ['\\', c]
    ensures c as int > 0x1F && c != '"' && c != '\\' ==> EscapeChar(c) == [c]
    ensures c as int <= 0x1F ==>
      var e, hex := EscapeChar(c), "0123456789abcdef";
      && |e| == 6 && e[..4] == "\\u00"
      && exists i: nat, j: nat :: i < 16 && j < 16 && e[4] == hex[i] && e[5] == hex[j] && 16 * i + j == c as int
  {
    if c as int <= 0x1F {
      var e, hex := EscapeChar(c), "0123456789abcdef";
      var i, j := c as int / 16, c as int % 16;
      HexDigitAt(i);
      HexDigitAt(j);
      assert e[4] == hex[i] && e[5] == hex[j] && 16 * i + j == c as int;
    }
  }

  lemma HexDigitAt(n: nat)
    requires n < 16
    ensures HexDigit(n) == "0123456789abcdef"[n]
  {
  }

  lemma {:induction false} ParsePlain(s: string, pos: nat, plain: string)
    requires At(s, pos, plain) && (forall i :: 0 <= i < |plain| ==> plain[i] != '"' && plain[i] != '\\')
    requires ParseString(s, pos + |plain|).Some?
    ensures ParseString(s, pos) ==
      (var r := ParseString(s, pos + |plain|).value; Some((plain + r.0, r.1)))
    decreases |plain|
  {
    if plain == "" {
      var r := ParseString(s, pos).value;
      assert "" + r.0 == r.0;
    } else {
      AtChar(s, pos, plain, 0);
      assert plain == [plain[0]] + plain[1..];
      AtParts(s, pos, plain, [plain[0]], plain[1..], pos + 1);
      ParsePlain(s, pos + 1, plain[1..]);
      var r := ParseString(s, pos + |plain|).value;
      assert [plain[0]] + (plain[1..] + r.0) == plain + r.0;
    }
  }

  lemma ParseEscapedChar(s: string, pos: nat, c: char)
    requires At(s, pos, EscapeChar(c)) && ParseString(s, pos + |EscapeChar(c)|).Some?
    ensures ParseString(s, pos) ==
      (var r := ParseString(s, pos + |EscapeChar(c)|).value; Some((Decoded([c]) + r.0, r.1)))
  {
    var e := EscapeChar(c);
    var r := ParseString(s, pos + |e|).value;
    assert [c][1..] == "" && Decoded([c]) == if IsControl(c) then e[1..] else [c];
    AtChar(s, pos, e, 0);
    if IsControl(c) {
      AtChar(s, pos, e, 1);
      assert e == e[..2] + e[2..] && |e| == 6;
      AtParts(s, pos, e, e[..2], e[2..], pos + 2);
      ParsePlain(s, pos + 2, e[2..]);
      assert ['u'] + (e[2..] + r.0) == e[1..] + r.0;
    } else if c == '\\' || c == '"' {
      AtChar(s, pos, e, 1);
    }
  }

  /** A printed string, from behind its opening quote. */
  lemma {:induction false} ParsePrintedString(s: string, pos: nat, text: string)
    requires At(s, pos, Escape(text) + "\"")
    ensures ParseString(s, pos) == Some((Decoded(text), pos + |Escape(text)| + 1))
    decreases |text|
  {
    if text == "" {
      PrintedEnd(s, pos);
    } else {
      hide At, Decoded, Escape, EscapeChar, ParseString;
      FirstPrinted(s, pos, text);
      ParsePrintedString(s, pos + |EscapeChar(text[0])|, text[1..]);
      ParseEscapedChar(s, pos, text[0]);
      DecodedHead(text);
    }
  }

  /** A printed string is the first printed character, and then the rest. */
  lemma FirstPrinted(s: string, pos: nat, text: string)
    requires text != "" && At(s, pos, Escape(text) + "\"")
    ensures var e, rest := EscapeChar(text[0]), Escape(text[1..]);
      && At(s, pos, e) && At(s, pos + |e|, rest + "\"")
      && |e| + |rest| == |Escape(text)| && pos + |Escape(text)| < |s|
  {
    hide At, Escape, EscapeChar;
    EscapedHead(text);
    FirstOfThree(s, pos, EscapeChar(text[0]), Escape(text[1..]), "\"");
  }

  lemma EscapedHead(text: string)
    requires text != ""
    ensures Escape(text) == EscapeChar(text[0]) + Escape(text[1..])
  {
  }

  lemma FirstOfThree(s: string, pos: nat, a: string, b: string, c: string)
    requires At(s, pos, a + b + c)
    ensures At(s, pos, a) && At(s, pos + |a|, b + c) && pos + |a| + |b| + |c| <= |s|
  {
    Sequences.Assoc(a, b, c);
    AtParts(s, pos, a + (b + c), a, b + c, pos + |a|);
  }

  lemma PrintedEnd(s: string, pos: nat)
    requires At(s, pos, Escape("") + "\"")
    ensures ParseString(s, pos) == Some((Decoded(""), pos + |Escape("")| + 1))
  {
    AtChar(s, pos, Escape("") + "\"", 0);
  }

  lemma DecodedHead(text: string)
    requires text != ""
    ensures Decoded(text) == Decoded([text[0]]) + Decoded(text[1..])
  {
    var head := if IsControl(text[0]) then EscapeChar(text[0])[1..] else [text[0]];
    assert [text[0]][1..] == "";
    assert Decoded([text[0]]) == head + "" == head;
  }

  // ----- values

  /** What a printed value reads back as. */
  function Normal(v: Value): Value
    decreases v, 0
  {
    match v
    case Number(_) => v
    case Boolean(_) => v
    case Text(s) => Text(Decoded(s))
    case Array(elements) => Array(NormalAll(elements))
    case Object(members) => Object(NormalMembers(members, []))
  }

  function NormalAll(vs: seq<Value>): seq<Value>
    decreases vs, 1
  {
    if vs == [] then [] else [Normal(vs[0])] + NormalAll(vs[1..])
  }

  function NormalMembers(ms: seq<Member>, acc: seq<Member>): seq<Member>
    decreases ms, 1
  {
    if ms == [] then acc
    else
      NormalMembers(ms[1..], InsertMember(acc, Member(Decoded(ms[0].key), Normal(ms[0].value))))
  }

  /** The depth of nesting. */
  function Levels(v: Value): (n: nat)
    ensures 1 <= n
    decreases v, 0
  {
    match v
    case Array(elements) => 1 + LevelsOfAll(elements)
    case Object(members) => 1 + LevelsOfMembers(members)
    case _ => 1
  }

  function LevelsOfAll(vs: seq<Value>): nat
    decreases vs, 1
  {
    if vs == [] then 0 else Max(Levels(vs[0]), LevelsOfAll(vs[1..]))
  }

  function LevelsOfMembers(ms: seq<Member>): nat
    decreases ms, 1
  {
    if ms == [] then 0
    else
      Max(Levels(ms[0].value), LevelsOfMembers(ms[1..]))
  }

  /** Every number fits an `int`. */
  ghost predicate Printable(v: Value)
    decreases v, 0
  {
    match v
    case Number(i) => InRange(i)
    case Array(elements) => AllPrintable(elements)
    case Object(members) => MembersPrintable(members)
    case _ => true
  }

  ghost predicate AllPrintable(vs: seq<Value>)
    decreases vs, 1
  {
    vs == [] || (Printable(vs[0]) && AllPrintable(vs[1..]))
  }

  ghost predicate MembersPrintable(ms: seq<Member>)
    decreases ms, 1
  {
    ms == [] || (Printable(ms[0].value) && MembersPrintable(ms[1..]))
  }

  // ----- joined texts, read from the front

  function TextOfAll(vs: seq<Value>): string
    requires vs != []
  {
    if |vs| == 1 then Print(vs[0]) else Print(vs[0]) + (", " + TextOfAll(vs[1..]))
  }

  function TextOfMembers(ms: seq<Member>): string
    requires ms != []
  {
    if |ms| == 1 then PrintMember(ms[0]) else PrintMember(ms[0]) + ("," + TextOfMembers(ms[1..]))
  }

  lemma FirstChar(v: Value)
    ensures Print(v) != "" && !IsBlank(Print(v)[0])
    ensures IsDigit(Print(v)[0]) || Print(v)[0] == '-' <==> v.Number?
    ensures Print(v)[0] == '"' <==> v.Text?
    ensures Print(v)[0] == '[' <==> v.Array?
    ensures Print(v)[0] == '{' <==> v.Object?
    ensures Print(v)[0] == 't' <==> v == Boolean(true)
    ensures Print(v)[0] == 'f' <==> v == Boolean(false)
    ensures Print(v)[0] != ']' && Print(v)[0] != '}'
  {
    if v.Number? {
      var n := if v.i < 0 then -v.i else v.i;
      DigitsAreDigits(n);
      assert IsDigit(Digits(n)[0]);
    }
  }

  lemma {:induction false} JoinFromFront(strings: seq<string>, joiner: string)
    requires |strings| >= 2 && forall i :: 0 <= i < |strings| ==> strings[i] != ""
    ensures Join(strings, joiner) == strings[0] + (joiner + Join(strings[1..], joiner))
    ensures Join(strings[1..], joiner) != ""
  {
    var n := |strings| - 1;
    var init, tail := strings[..n], strings[1..];
    assert tail[..n - 1] == init[1..] && tail[n - 1] == strings[n];
    if n == 1 {
      assert init == [strings[0]] && init[..0] == [] && tail[..0] == [];
    } else {
      JoinFromFront(init, joiner);
      var r := Join(init[1..], joiner);
      assert Join(strings, joiner) == (strings[0] + (joiner + r)) + joiner + strings[n];
      assert Join(tail, joiner) == r + joiner + strings[n];
    }
  }

  lemma {:induction false} PrintedAll(vs: seq<Value>)
    ensures |PrintAll(vs)| == |vs| && forall i :: 0 <= i < |vs| ==> PrintAll(vs)[i] != ""
    ensures vs != [] ==> Join(PrintAll(vs), ", ") == TextOfAll(vs)
  {
    if vs != [] {
      FirstChar(vs[0]);
      PrintedAll(vs[1..]);
      var strings := PrintAll(vs);
      assert strings[1..] == PrintAll(vs[1..]);
      if |vs| == 1 {
        assert strings[..0] == [] && strings == [Print(vs[0])];
      } else {
        JoinFromFront(strings, ", ");
      }
    }
  }

  lemma {:induction false} PrintedMembers(ms: seq<Member>)
    ensures |PrintMembers(ms)| == |ms| && forall i :: 0 <= i < |ms| ==> PrintMembers(ms)[i] != ""
    ensures ms != [] ==> Join(PrintMembers(ms), ",") == TextOfMembers(ms)
  {
    if ms != [] {
      PrintedMembers(ms[1..]);
      var first, others := PrintMember(ms[0]), PrintMembers(ms[1..]);
      var strings := [first] + others;
      assert PrintMembers(ms) == strings && strings[1..] == others && first[0] == '"';
      assert forall i :: 1 <= i < |ms| ==> strings[i] == others[i - 1];
      if |ms| == 1 {
        assert strings[..0] == [];
      } else {
        JoinFromFront(strings, ",");
      }
    }
  }

  // ----- parsing printed values

  /** The outcome for a value that starts at `pos` and takes `len` characters. */
  function Outcome(v: Value, depth: nat, levels: nat, end: nat): Result {
    if depth + levels <= MAX_DEPTH then Ok(v, end) else Failed
  }

  ghost predicate PrintedAt(s: string, pos: nat, v: Value) {
    && Printable(v) && At(s, pos, Print(v)) && Delimited(s, pos + |Print(v)|)
    && (v.Boolean? ==> pos + |Print(v)| < |s|)
  }

  lemma NoBlank(s: string, pos: nat)
    requires pos < |s| && !IsBlank(s[pos])
    ensures SkipBlanks(s, pos) == pos
  {
  }

  lemma OtherWord(s: string, pos: nat, word: string)
    requires pos < |s| && word != "" && s[pos] != word[0]
    ensures !StartsWith(s, pos, word)
  {
    assert |s| - pos > |word| ==> s[pos..pos + |word|][0] == s[pos];
  }

  lemma ParsePrintedBoolean(s: string, pos: nat, depth: nat, b: bool)
    requires PrintedAt(s, pos, Boolean(b))
    ensures Parse(s, pos, depth) == Outcome(Boolean(b), depth, 1, pos + |Print(Boolean(b))|)
  {
    FirstChar(Boolean(b));
    AtChar(s, pos, Print(Boolean(b)), 0);
    NoBlank(s, pos);
    if !b {
      OtherWord(s, pos, "true");
    }
  }

  lemma TextAtom(s: string, pos: nat, text: string)
    requires At(s, pos, Print(Text(text)))
    ensures ParseAtom(s, pos) == Ok(Text(Decoded(text)), pos + |Print(Text(text))|)
  {
    var v := Text(text);
    AtChar(s, pos, Print(v), 0);
    assert Print(v) == "\"" + (Escape(text) + "\"");
    AtParts(s, pos, Print(v), "\"", Escape(text) + "\"", pos + 1);
    ParsePrintedString(s, pos + 1, text);
    OtherWord(s, pos, "true");
    OtherWord(s, pos, "false");
  }

  lemma ParsePrintedText(s: string, pos: nat, depth: nat, text: string)
    requires At(s, pos, Print(Text(text)))
    ensures Parse(s, pos, depth) == Outcome(Text(Decoded(text)), depth, 1, pos + |Print(Text(text))|)
  {
    AtChar(s, pos, Print(Text(text)), 0);
    NoBlank(s, pos);
    TextAtom(s, pos, text);
    if depth < MAX_DEPTH {
      assert Parse(s, pos, depth) == ParseAt(s, pos, depth) == ParseAtom(s, pos);
    }
  }

  lemma {:induction false} ParsePrinted(s: string, pos: nat, depth: nat, v: Value)
    requires PrintedAt(s, pos, v)
    ensures Parse(s, pos, depth) == Outcome(Normal(v), depth, Levels(v), pos + |Print(v)|)
    decreases v, 0
  {
    match v
    case Number(i) =>
      FirstChar(v);
      AtChar(s, pos, Print(v), 0);
      NoBlank(s, pos);
      if depth < MAX_DEPTH {
        ParseNumber(s, pos, depth, i);
      }
    case Boolean(b) => ParsePrintedBoolean(s, pos, depth, b);
    case Text(text) => ParsePrintedText(s, pos, depth, text);
    case Array(elements) => ParsePrintedArray(s, pos, depth, elements);
    case Object(members) => ParsePrintedObject(s, pos, depth, members);
  }

  lemma ParseTooDeep(s: string, pos: nat, depth: nat)
    requires pos < |s| && !IsBlank(s[pos]) && depth >= MAX_DEPTH
    ensures Parse(s, pos, depth) == Failed
  {
    NoBlank(s, pos);
  }

  /** The brackets around a printed list, and what is between them. */
  lemma BracketsAt(s: string, pos: nat, open: string, inner: string, close: string)
    requires |open| == 1 && |close| == 1 && At(s, pos, open + inner + close)
    ensures pos + 1 < |s| && s[pos] == open[0] && At(s, pos + 1, inner + close)
    ensures s[pos + 1] == if inner == "" then close[0] else inner[0]
  {
    assert open + inner + close == open + (inner + close);
    AtParts(s, pos, open + inner + close, open, inner + close, pos + 1);
    AtChar(s, pos, open, 0);
    AtChar(s, pos + 1, inner + close, 0);
  }

  lemma OpensArray(s: string, pos: nat, depth: nat)
    requires pos + 1 < |s| && s[pos] == '['
    ensures Parse(s, pos, depth) ==
      if depth >= MAX_DEPTH then Failed
      else if s[pos + 1] == ']' then Ok(Array([]), pos + 2)
      else ParseElements(s, pos + 1, depth, [])
  {
    hide ParseElements, ParseObject, ParseAtom;
    NoBlank(s, pos);
    if depth >= MAX_DEPTH {
      ParseTooDeep(s, pos, depth);
    } else {
      assert Parse(s, pos, depth) == ParseAt(s, pos, depth) == ParseArray(s, pos + 1, depth);
    }
  }

  lemma PrintedArray(vs: seq<Value>)
    ensures vs == [] ==> Print(Array(vs)) == "[" + "" + "]" && NormalAll(vs) == [] && LevelsOfAll(vs) == 0
    ensures vs != [] ==>
      && Print(Array(vs)) == "[" + TextOfAll(vs) + "]" && |Print(Array(vs))| == |TextOfAll(vs)| + 2
      && TextOfAll(vs) != "" && TextOfAll(vs)[0] != ']'
      && NormalFrom([], vs) == NormalAll(vs)
  {
    PrintedAll(vs);
    if vs != [] {
      FirstChar(vs[0]);
      assert TextOfAll(vs)[0] == Print(vs[0])[0];
      var inner := TextOfAll(vs);
      assert |"[" + inner + "]"| == |inner| + 2;
    }
  }

  lemma {:induction false} ParsePrintedArray(s: string, pos: nat, depth: nat, vs: seq<Value>)
    requires AllPrintable(vs) && At(s, pos, Print(Array(vs)))
    ensures Parse(s, pos, depth) == Outcome(Array(NormalAll(vs)), depth, 1 + LevelsOfAll(vs), pos + |Print(Array(vs))|)
    decreases vs, 3
  {
    hide At, Parse, ParseElements, Print, TextOfAll, NormalAll, LevelsOfAll, NormalFrom;
    PrintedArray(vs);
    BracketsAt(s, pos, "[", if vs == [] then "" else TextOfAll(vs), "]");
    OpensArray(s, pos, depth);
    if vs != [] && depth < MAX_DEPTH {
      ParsePrintedElements(s, pos + 1, depth, vs, [], pos + |Print(Array(vs))|);
    }
  }

  /** Skipped are spaces, tabs, newlines, carriage returns, vertical tabs and form feeds, and nothing else. */
  lemma {:induction false} BlanksSkipped(s: string, pos: nat)
    requires pos <= |s|
    ensures var end := SkipBlanks(s, pos);
      && pos <= end <= |s|
      && (forall i :: pos <= i < end ==> s[i] in " \t\n\r\U{B}\U{C}")
      && (end < |s| ==> s[end] !in " \t\n\r\U{B}\U{C}")
    decreases |s| - pos
  {
    if pos < |s| && IsBlank(s[pos]) {
      BlanksSkipped(s, pos + 1);
    }
  }

  /** A blank in front of an element makes no difference. */
  lemma BlankBefore(s: string, pos: nat, depth: nat)
    requires pos < |s| && IsBlank(s[pos])
    ensures Parse(s, pos, depth) == Parse(s, pos + 1, depth)
    ensures forall acc :: ParseElements(s, pos, depth, acc) == ParseElements(s, pos + 1, depth, acc)
  {
  }

  /** Where the first printed element ends, and what is behind it. */
  lemma FirstElementAt(s: string, pos: nat, vs: seq<Value>, end: nat)
    requires vs != [] && At(s, pos, TextOfAll(vs) + "]") && end == pos + |Print(vs[0])|
    ensures At(s, pos, Print(vs[0])) && end < |s|
    ensures |vs| == 1 ==> s[end] == ']' && end == pos + |TextOfAll(vs)|
    ensures |vs| > 1 ==> (
      && s[end] == ',' && end + 1 < |s| && s[end + 1] == ' '
      && At(s, end + 2, TextOfAll(vs[1..]) + "]") && end + 2 + |TextOfAll(vs[1..])| == pos + |TextOfAll(vs)|)
  {
    var text, behind := TextOfAll(vs) + "]", (if |vs| == 1 then "" else TextOfAll(vs[1..])) + "]";
    var separator := if |vs| == 1 then "" else ", ";
    assert text == Print(vs[0]) + (separator + behind);
    AtParts(s, pos, text, Print(vs[0]), separator + behind, end);
    AtParts(s, end, separator + behind, separator, behind, end + |separator|);
    if |vs| > 1 {
      AtChar(s, end, separator, 0);
      AtChar(s, end, separator, 1);
    } else {
      AtChar(s, end, behind, 0);
    }
  }

  /** The elements read so far and those to come. */
  function NormalFrom(acc: seq<Value>, vs: seq<Value>): seq<Value> {
    acc + NormalAll(vs)
  }

  lemma NormalHead(vs: seq<Value>, acc: seq<Value>, acc': seq<Value>)
    requires vs != [] && acc' == acc + [Normal(vs[0])]
    ensures NormalFrom(acc, vs) == NormalFrom(acc', vs[1..])
    ensures |vs| == 1 ==> NormalFrom(acc, vs) == acc'
  {
    Sequences.Assoc(acc, [Normal(vs[0])], NormalAll(vs[1..]));
    Sequences.TakeAll(acc');
  }

  /** A list fits if its first part and the rest do. */
  lemma OutcomeStep(whole: Value, depth: nat, first: nat, rest: nat, levels: nat, last: bool, close: nat, r: Result)
    requires levels == Max(first, rest) && (last ==> rest == 0)
    requires r ==
      if depth + 1 + first > MAX_DEPTH then Failed
      else if last then Ok(whole, close)
      else Outcome(whole, depth, 1 + rest, close)
    ensures r == Outcome(whole, depth, 1 + levels, close)
  {
  }

  lemma LevelsHead(vs: seq<Value>)
    requires vs != []
    ensures LevelsOfAll(vs) == Max(Levels(vs[0]), LevelsOfAll(vs[1..])) && (|vs| == 1 ==> LevelsOfAll(vs[1..]) == 0)
  {
  }

  /** The first printed element, and how the array goes on behind it. */
  lemma ParseFirstElement(s: string, pos: nat, depth: nat, vs: seq<Value>, acc: seq<Value>, acc': seq<Value>, end: nat)
    requires vs != [] && AllPrintable(vs) && At(s, pos, TextOfAll(vs) + "]") && end == pos + |Print(vs[0])|
    requires acc' == acc + [Normal(vs[0])]
    ensures end < |s| && ParseElements(s, pos, depth, acc) ==
      if depth + 1 + Levels(vs[0]) > MAX_DEPTH then Failed
      else if |vs| == 1 then Ok(Array(acc'), end + 1)
      else if end + 2 <= |s| then ParseElements(s, end + 2, depth, acc')
      else Nothing
    ensures |vs| == 1 ==> end == pos + |TextOfAll(vs)|
    ensures |vs| > 1 ==>
      At(s, end + 2, TextOfAll(vs[1..]) + "]") && end + 2 + |TextOfAll(vs[1..])| == pos + |TextOfAll(vs)|
    decreases vs, 1
  {
    hide Parse, ParseElements, Normal, Levels, TextOfAll;
    FirstElementAt(s, pos, vs, end);
    ParsePrinted(s, pos, depth + 1, vs[0]);
    NextElement(s, pos, depth, acc, end);
    if |vs| > 1 {
      BlankBefore(s, end + 1, depth);
    }
  }

  lemma {:induction false} ParsePrintedElements(s: string, pos: nat, depth: nat, vs: seq<Value>, acc: seq<Value>,
          close: nat)
    requires vs != [] && AllPrintable(vs) && At(s, pos, TextOfAll(vs) + "]") && depth < MAX_DEPTH
    requires close == pos + |TextOfAll(vs)| + 1
    ensures ParseElements(s, pos, depth, acc) == Outcome(Array(NormalFrom(acc, vs)), depth, 1 + LevelsOfAll(vs), close)
    decreases vs, 2
  {
    hide Parse, ParseElements, Print, Normal, NormalAll, Levels, LevelsOfAll, TextOfAll;
    var end := pos + |Print(vs[0])|;
    var acc' := acc + [Normal(vs[0])];
    ParseFirstElement(s, pos, depth, vs, acc, acc', end);
    if |vs| > 1 && depth + 1 + Levels(vs[0]) <= MAX_DEPTH {
      ParsePrintedElements(s, end + 2, depth, vs[1..], acc', close);
    }
    NormalHead(vs, acc, acc');
    LevelsHead(vs);
    OutcomeStep(Array(NormalFrom(acc, vs)), depth, Levels(vs[0]), LevelsOfAll(vs[1..]), LevelsOfAll(vs),
                |vs| == 1, close, ParseElements(s, pos, depth, acc));
  }

  /** How an array goes on after an element that ends right in front of a separator. */
  lemma NextElement(s: string, pos: nat, depth: nat, acc: seq<Value>, end: nat)
    requires pos <= |s| && Parse(s, pos, depth + 1).Ok? ==> Parse(s, pos, depth + 1).newPos == end
    requires pos <= |s| && end < |s| && (s[end] == ',' || s[end] == ']')
    ensures var r := Parse(s, pos, depth + 1);
      ParseElements(s, pos, depth, acc) ==
        if !r.Ok? then r
        else if s[end] == ',' then ParseElements(s, end + 1, depth, acc + [r.value])
        else Ok(Array(acc + [r.value]), end + 1)
  {
    NoBlank(s, end);
  }

  lemma OpensObject(s: string, pos: nat, depth: nat)
    requires pos + 1 < |s| && s[pos] == '{'
    ensures Parse(s, pos, depth) ==
      if depth >= MAX_DEPTH then Failed
      else if s[pos + 1] == '}' then Ok(Object([]), pos + 2)
      else ParseMembers(s, pos + 1, depth, [])
  {
    hide ParseMembers, ParseArray, ParseAtom;
    NoBlank(s, pos);
    if depth >= MAX_DEPTH {
      ParseTooDeep(s, pos, depth);
    } else {
      assert Parse(s, pos, depth) == ParseAt(s, pos, depth) == ParseObject(s, pos + 1, depth);
    }
  }

  lemma PrintedObject(ms: seq<Member>)
    ensures ms == [] ==>
      Print(Object(ms)) == "{" + "" + "}" && NormalMembers(ms, []) == [] && LevelsOfMembers(ms) == 0
    ensures ms != [] ==>
      && Print(Object(ms)) == "{" + TextOfMembers(ms) + "}" && |Print(Object(ms))| == |TextOfMembers(ms)| + 2
      && TextOfMembers(ms) != "" && TextOfMembers(ms)[0] != '}'
  {
    PrintedMembers(ms);
    if ms != [] {
      assert TextOfMembers(ms)[0] == PrintMember(ms[0])[0] == '"';
      var inner := TextOfMembers(ms);
      assert |"{" + inner + "}"| == |inner| + 2;
    }
  }

  lemma {:induction false} ParsePrintedObject(s: string, pos: nat, depth: nat, ms: seq<Member>)
    requires MembersPrintable(ms) && At(s, pos, Print(Object(ms)))
    ensures Parse(s, pos, depth) ==
      Outcome(Object(NormalMembers(ms, [])), depth, 1 + LevelsOfMembers(ms), pos + |Print(Object(ms))|)
    decreases ms, 3
  {
    hide At, Parse, ParseMembers, Print, TextOfMembers, NormalMembers, LevelsOfMembers;
    PrintedObject(ms);
    BracketsAt(s, pos, "{", if ms == [] then "" else TextOfMembers(ms), "}");
    OpensObject(s, pos, depth);
    if ms != [] && depth < MAX_DEPTH {
      ParsePrintedMembers(s, pos + 1, depth, ms, [], pos + |Print(Object(ms))|);
    }
  }

  lemma MemberText(m: Member, after: string)
    ensures PrintMember(m) + after == Print(Text(m.key)) + (": " + (Print(m.value) + after))
  {
    RegroupText(Print(Text(m.key)), ": ", Print(m.value), after);
  }

  /** Where the parts of a printed member are. */
  lemma MemberAt(s: string, pos: nat, m: Member, text: string, after: string, colon: nat, end: nat)
    requires At(s, pos, text) && text == PrintMember(m) + after && after != ""
    requires colon == pos + |Print(Text(m.key))| && end == colon + 2 + |Print(m.value)|
    ensures At(s, pos, Print(Text(m.key))) && colon + 2 <= end < |s| && s[colon] == ':' && s[colon + 1] == ' '
    ensures At(s, colon + 2, Print(m.value)) && At(s, end, after) && s[end] == after[0]
  {
    hide Print;
    var key, value := Print(Text(m.key)), Print(m.value);
    var tail := ": " + (value + after);
    MemberText(m, after);
    AtParts(s, pos, text, key, tail, colon);
    AtParts(s, colon, tail, ": ", value + after, colon + 2);
    AtParts(s, colon + 2, value + after, value, after, end);
    AtChar(s, colon, ": ", 0);
    AtChar(s, colon, ": ", 1);
    AtChar(s, end, after, 0);
  }

  /** What is printed behind the first member. */
  function BehindFirst(ms: seq<Member>): string
    requires ms != []
  {
    if |ms| == 1 then "}" else "," + (TextOfMembers(ms[1..]) + "}")
  }

  lemma FirstMemberText(ms: seq<Member>)
    requires ms != []
    ensures TextOfMembers(ms) + "}" == PrintMember(ms[0]) + BehindFirst(ms)
    ensures |PrintMember(ms[0])| == |Print(Text(ms[0].key))| + 2 + |Print(ms[0].value)|
  {
    if |ms| > 1 {
      RegroupText(PrintMember(ms[0]), ",", TextOfMembers(ms[1..]), "}");
    }
  }

  lemma RegroupText(a: string, b: string, c: string, d: string)
    ensures a + (b + c) + d == a + (b + (c + d))
  {
  }

  /** Where the first printed member ends, and what is behind it. */
  lemma FirstMemberAt(s: string, pos: nat, ms: seq<Member>, colon: nat, end: nat)
    requires ms != [] && At(s, pos, TextOfMembers(ms) + "}")
    requires colon == pos + |Print(Text(ms[0].key))| && end == colon + 2 + |Print(ms[0].value)|
    ensures At(s, pos, Print(Text(ms[0].key))) && At(s, colon + 2, Print(ms[0].value))
    ensures colon + 2 <= end < |s| && s[colon] == ':' && s[colon + 1] == ' '
    ensures |ms| == 1 ==> s[end] == '}' && end == pos + |TextOfMembers(ms)|
    ensures |ms| > 1 ==> (
      && s[end] == ',' && At(s, end + 1, TextOfMembers(ms[1..]) + "}")
      && end + 1 + |TextOfMembers(ms[1..])| == pos + |TextOfMembers(ms)|)
  {
    hide Print, TextOfMembers;
    var text, rest := TextOfMembers(ms) + "}", ms[1..];
    var after := BehindFirst(ms);
    FirstMemberText(ms);
    MemberAt(s, pos, ms[0], text, after, colon, end);
    if |ms| > 1 {
      assert |after| == 2 + |TextOfMembers(rest)|;
      AtParts(s, end, after, ",", TextOfMembers(rest) + "}", end + 1);
    }
  }

  lemma MembersHead(ms: seq<Member>, acc: seq<Member>, acc': seq<Member>)
    requires ms != [] && acc' == InsertMember(acc, Member(Decoded(ms[0].key), Normal(ms[0].value)))
    ensures NormalMembers(ms, acc) == NormalMembers(ms[1..], acc')
    ensures |ms| == 1 ==> NormalMembers(ms, acc) == acc'
    ensures LevelsOfMembers(ms) == Max(Levels(ms[0].value), LevelsOfMembers(ms[1..]))
    ensures |ms| == 1 ==> LevelsOfMembers(ms[1..]) == 0
  {
  }

  /** The first printed member, and how the object goes on behind it. */
  lemma ParseFirstMember(s: string, pos: nat, depth: nat, ms: seq<Member>, acc: seq<Member>, acc': seq<Member>,
                         end: nat)
    requires ms != [] && MembersPrintable(ms) && At(s, pos, TextOfMembers(ms) + "}")
    requires end == pos + |PrintMember(ms[0])|
    requires acc' == InsertMember(acc, Member(Decoded(ms[0].key), Normal(ms[0].value)))
    ensures end < |s| && ParseMembers(s, pos, depth, acc) ==
      if depth + 1 + Levels(ms[0].value) > MAX_DEPTH then Failed
      else if |ms| == 1 then Ok(Object(acc'), end + 1)
      else ParseMembers(s, end + 1, depth, acc')
    ensures |ms| == 1 ==> end == pos + |TextOfMembers(ms)|
    ensures |ms| > 1 ==>
      At(s, end + 1, TextOfMembers(ms[1..]) + "}") && end + 1 + |TextOfMembers(ms[1..])| == pos + |TextOfMembers(ms)|
    decreases ms, 1
  {
    hide Parse, ParseMembers, AfterMember, Normal, Levels, TextOfMembers;
    var m := ms[0];
    var colon := pos + |Print(Text(m.key))|;
    assert end == colon + 2 + |Print(m.value)|;
    FirstMemberAt(s, pos, ms, colon, end);
    ParsePrinted(s, colon + 2, depth + 1, m.value);
    PrintedMember(s, pos, depth, m, acc, colon, end);
    NextMember(s, depth, acc', end);
  }

  lemma {:induction false} ParsePrintedMembers(s: string, pos: nat, depth: nat, ms: seq<Member>, acc: seq<Member>,
          close: nat)
    requires ms != [] && MembersPrintable(ms) && At(s, pos, TextOfMembers(ms) + "}") && depth < MAX_DEPTH
    requires close == pos + |TextOfMembers(ms)| + 1
    ensures ParseMembers(s, pos, depth, acc) ==
      Outcome(Object(NormalMembers(ms, acc)), depth, 1 + LevelsOfMembers(ms), close)
    decreases ms, 2
  {
    hide Parse, ParseMembers, Print, Normal, NormalMembers, Levels, LevelsOfMembers, TextOfMembers;
    var m := ms[0];
    var end := pos + |PrintMember(m)|;
    var acc' := InsertMember(acc, Member(Decoded(m.key), Normal(m.value)));
    ParseFirstMember(s, pos, depth, ms, acc, acc', end);
    if |ms| > 1 && depth + 1 + Levels(m.value) <= MAX_DEPTH {
      ParsePrintedMembers(s, end + 1, depth, ms[1..], acc', close);
    }
    MembersHead(ms, acc, acc');
    OutcomeStep(Object(NormalMembers(ms, acc)), depth, Levels(m.value), LevelsOfMembers(ms[1..]), LevelsOfMembers(ms),
                |ms| == 1, close, ParseMembers(s, pos, depth, acc));
  }

  /** How an object goes on right behind a member. */
  lemma NextMember(s: string, depth: nat, acc: seq<Member>, end: nat)
    requires end < |s| && (s[end] == ',' || s[end] == '}')
    ensures s[end] == ',' ==> AfterMember(s, end, depth, acc) == ParseMembers(s, end + 1, depth, acc)
    ensures s[end] == '}' ==> AfterMember(s, end, depth, acc) == Ok(Object(acc), end + 1)
  {
    NoBlank(s, end);
  }

  /** How a printed member is read. */
  lemma PrintedMember(s: string, pos: nat, depth: nat, m: Member, acc: seq<Member>, colon: nat, end: nat)
    requires At(s, pos, Print(Text(m.key))) && colon == pos + |Print(Text(m.key))|
    requires colon + 2 <= end < |s| && s[colon] == ':' && s[colon + 1] == ' '
    requires Parse(s, colon + 2, depth + 1) == Outcome(Normal(m.value), depth + 1, Levels(m.value), end)
    ensures ParseMembers(s, pos, depth, acc) ==
      if depth + 1 + Levels(m.value) > MAX_DEPTH then Failed
      else AfterMember(s, end, depth, InsertMember(acc, Member(Decoded(m.key), Normal(m.value))))
  {
    ParsePrintedText(s, pos, depth + 1, m.key);
    ValueAfterName(s, depth, m, acc, colon, end);
    if depth + 2 <= MAX_DEPTH {
      var name := Parse(s, pos, depth + 1);
      assert name == Ok(Text(Decoded(m.key)), colon);
    }
  }

  lemma ValueAfterName(s: string, depth: nat, m: Member, acc: seq<Member>, colon: nat, end: nat)
    requires colon + 2 <= end < |s| && s[colon] == ':' && s[colon + 1] == ' '
    requires Parse(s, colon + 2, depth + 1) == Outcome(Normal(m.value), depth + 1, Levels(m.value), end)
    ensures AfterName(s, colon, depth, acc, Decoded(m.key)) ==
      if depth + 1 + Levels(m.value) > MAX_DEPTH then Failed
      else AfterMember(s, end, depth, InsertMember(acc, Member(Decoded(m.key), Normal(m.value))))
  {
    NoBlank(s, colon);
    BlankBefore(s, colon + 1, depth + 1);
  }

  // ----- when a value reads back as itself

  /** No string and no key in the value has a control character. */
  ghost predicate Plain(v: Value)
    decreases v, 0
  {
    match v
    case Text(s) => NoControl(s)
    case Array(elements) => AllPlain(elements)
    case Object(members) => MembersPlain(members)
    case _ => true
  }

  ghost predicate AllPlain(vs: seq<Value>)
    decreases vs, 1
  {
    vs == [] || (Plain(vs[0]) && AllPlain(vs[1..]))
  }

  ghost predicate MembersPlain(ms: seq<Member>)
    decreases ms, 1
  {
    ms == [] || (NoControl(ms[0].key) && Plain(ms[0].value) && MembersPlain(ms[1..]))
  }

  ghost predicate DistinctKeys(ms: seq<Member>) {
    forall i, j :: 0 <= i < j < |ms| ==> ms[i].key != ms[j].key
  }

  /** No object in the value has two members of one name: what a hash map of members always is. */
  ghost predicate Proper(v: Value)
    decreases v, 0
  {
    match v
    case Array(elements) => AllProper(elements)
    case Object(members) => DistinctKeys(members) && MembersProper(members)
    case _ => true
  }

  ghost predicate AllProper(vs: seq<Value>)
    decreases vs, 1
  {
    vs == [] || (Proper(vs[0]) && AllProper(vs[1..]))
  }

  ghost predicate MembersProper(ms: seq<Member>)
    decreases ms, 1
  {
    ms == [] || (Proper(ms[0].value) && MembersProper(ms[1..]))
  }

  /** The members as they read back, one by one. */
  function NormalEach(ms: seq<Member>): seq<Member> {
    if ms == [] then [] else [Member(Decoded(ms[0].key), Normal(ms[0].value))] + NormalEach(ms[1..])
  }

  /** The members as items of a hash map. */
  ghost function ItemsOf(ms: seq<Member>): seq<Item<string, Value>> {
    seq(|ms|, i requires 0 <= i < |ms| => Item(ms[i].key, ms[i].value))
  }

  /** Members are inserted as the hash map inserts items. */
  lemma {:induction false} InsertedAsInMap(ms: seq<Member>, m: Member)
    ensures ItemsOf(InsertMember(ms, m)) == WithItem(ItemsOf(ms), Item(m.key, m.value), false)
  {
    if ms != [] && ms[0].key != m.key {
      InsertedAsInMap(ms[1..], m);
      assert ItemsOf(ms)[1..] == ItemsOf(ms[1..]);
      assert ItemsOf(InsertMember(ms, m)) == [ItemsOf(ms)[0]] + ItemsOf(InsertMember(ms[1..], m));
    }
  }

  /** `i` is the first member of this name. */
  ghost predicate IsFirstOf(ms: seq<Member>, key: string, i: nat) {
    i < |ms| && ms[i].key == key && forall j :: 0 <= j < i ==> ms[j].key != key
  }

  /** A new name is appended, a known one overwritten in place. */
  lemma {:induction false} InsertedMember(ms: seq<Member>, m: Member)
    ensures |InsertMember(ms, m)| == |ms| + 1 <==> forall i :: 0 <= i < |ms| ==> ms[i].key != m.key
    ensures |InsertMember(ms, m)| == |ms| + 1 ==> InsertMember(ms, m) == ms + [m]
    ensures forall i: nat :: IsFirstOf(ms, m.key, i) ==> InsertMember(ms, m) == ms[i := m]
  {
    if ms != [] && ms[0].key != m.key {
      var rest := ms[1..];
      InsertedMember(rest, m);
      assert forall i :: 1 <= i < |ms| ==> ms[i] == rest[i - 1];
      forall i: nat | IsFirstOf(ms, m.key, i) ensures InsertMember(ms, m) == ms[i := m] {
        assert IsFirstOf(rest, m.key, i - 1);
        assert [ms[0]] + rest[i - 1 := m] == ms[i := m];
      }
      if |InsertMember(ms, m)| == |ms| + 1 {
        assert [ms[0]] + (rest + [m]) == ms + [m];
      } else {
        var i :| 0 <= i < |rest| && rest[i].key == m.key;
        assert ms[i + 1].key == m.key;
      }
    }
  }

  lemma EachFromFront(ms: seq<Member>, acc: seq<Member>, m: Member)
    requires ms != [] && m == Member(Decoded(ms[0].key), Normal(ms[0].value))
    ensures acc + NormalEach(ms) == acc + [m] + NormalEach(ms[1..])
  {
  }

  /** No name gets lost only if every member is appended. */
  lemma {:induction false} NormalMembersAppend(ms: seq<Member>, acc: seq<Member>)
    ensures |NormalMembers(ms, acc)| <= |acc| + |ms|
    ensures |NormalMembers(ms, acc)| == |acc| + |ms| ==> NormalMembers(ms, acc) == acc + NormalEach(ms)
  {
    if ms == [] {
      assert acc + [] == acc;
    } else {
      var m := Member(Decoded(ms[0].key), Normal(ms[0].value));
      var acc' := InsertMember(acc, m);
      var read := NormalMembers(ms[1..], acc');
      InsertedMember(acc, m);
      NormalMembersAppend(ms[1..], acc');
      EachFromFront(ms, acc, m);
      assert NormalMembers(ms, acc) == read && |ms[1..]| == |ms| - 1;
    }
  }

  /** Members whose names read back differently are all kept. */
  lemma {:induction false} NormalMembersKeepAll(ms: seq<Member>, acc: seq<Member>)
    requires DistinctKeys(acc + NormalEach(ms))
    ensures NormalMembers(ms, acc) == acc + NormalEach(ms)
  {
    if ms == [] {
      assert acc + [] == acc;
    } else {
      var m := Member(Decoded(ms[0].key), Normal(ms[0].value));
      var all := acc + NormalEach(ms);
      EachFromFront(ms, acc, m);
      assert all[|acc|] == m && forall i :: 0 <= i < |acc| ==> all[i] == acc[i];
      InsertedMember(acc, m);
      assert InsertMember(acc, m) == acc + [m];
      NormalMembersKeepAll(ms[1..], acc + [m]);
    }
  }

  lemma {:induction false} NormalSame(v: Value)
    requires Proper(v)
    ensures Normal(v) == v <==> Plain(v)
    decreases v, 0
  {
    match v
    case Number(_) =>
    case Boolean(_) =>
    case Text(s) => DecodedSame(s);
    case Array(elements) => NormalAllSame(elements);
    case Object(members) =>
      NormalEachSame(members);
      NormalMembersAppend(members, []);
      assert [] + NormalEach(members) == NormalEach(members);
      if Plain(v) {
        NormalMembersKeepAll(members, []);
      }
  }

  lemma {:induction false} NormalAllSame(vs: seq<Value>)
    requires AllProper(vs)
    ensures NormalAll(vs) == vs <==> AllPlain(vs)
    decreases vs, 1
  {
    if vs != [] {
      NormalSame(vs[0]);
      NormalAllSame(vs[1..]);
      assert vs == [vs[0]] + vs[1..];
      assert NormalAll(vs)[0] == Normal(vs[0]) && NormalAll(vs)[1..] == NormalAll(vs[1..]);
    }
  }

  lemma {:induction false} NormalEachSame(ms: seq<Member>)
    requires MembersProper(ms)
    ensures |NormalEach(ms)| == |ms|
    ensures NormalEach(ms) == ms <==> MembersPlain(ms)
    decreases ms, 1
  {
    if ms != [] {
      NormalSame(ms[0].value);
      DecodedSame(ms[0].key);
      NormalEachSame(ms[1..]);
      var m := Member(Decoded(ms[0].key), Normal(ms[0].value));
      assert ms == [ms[0]] + ms[1..];
      assert NormalEach(ms)[0] == m && NormalEach(ms)[1..] == NormalEach(ms[1..]);
    }
  }

  // ----- whole texts

  /** What `parse_json` makes of a printed value that is not a lone boolean. */
  lemma ParseWhole(v: Value)
    requires Printable(v) && !v.Boolean?
    ensures Parse(Print(v), 0, 0) == Outcome(Normal(v), 0, Levels(v), |Print(v)|)
  {
    var s := Print(v);
    assert s[0..0 + |s|] == s;
    ParsePrinted(s, 0, 0, v);
  }

  /** A lone boolean is refused: the comparison wants a character behind the word. */
  lemma LoneBooleanFails(b: bool)
    ensures Parse(Print(Boolean(b)), 0, 0) == Failed
  {
    var s := Print(Boolean(b));
    FirstChar(Boolean(b));
    NoBlank(s, 0);
    if b {
      OtherWord(s, 0, "false");
    } else {
      OtherWord(s, 0, "true");
    }
  }

  /** `parse_json` inverts `to_json` exactly on these values. */
  lemma ParseInvertsPrint(v: Value)
    requires Printable(v) && Proper(v)
    ensures Parse(Print(v), 0, 0) == Ok(v, |Print(v)|) <==> Levels(v) <= 100 && Plain(v) && !v.Boolean?
  {
    if v.Boolean? {
      LoneBooleanFails(v.b);
    } else {
      ParseWhole(v);
      NormalSame(v);
    }
  }

  /** An escape character is printed as a code that the parser does not decode. */
  lemma ControlCharacterIsLost()
    ensures Parse(Print(Text("\U{1B}")), 0, 0) == Ok(Text("u001b"), 8)
  {
    var s := "\U{1B}";
    var e := "\\u001b";
    assert HexDigit(0x1B / 16) == '1' && HexDigit(0x1B % 16) == 'b';
    assert s[1..] == "" && EscapeChar(s[0]) == e && e[1..] == "u001b";
    assert Decoded(s) == "u001b" + "" == "u001b" && Escape(s) == e + "" == e;
    assert Print(Text(s)) == "\"" + e + "\"";
    ParseWhole(Text(s));
  }
}
