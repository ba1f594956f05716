/** JSON text (RFC 8259) as the relay's reporter prints it and the ingest endpoint reads it. */
module Json {
  import opened Wrappers

  datatype Value =
    | Null
    | Bool(on: bool)
    | Number(digits: string)
    | Str(text: string)
    | Arr(elements: seq<Value>)
    | Obj(members: seq<Member>)

  datatype Member = Member(key: string, value: Value)

  // ------------------------------------------------------------ printing

  const HEX := "0123456789abcdef"

  /** One character inside a string literal (section 7): quotes, backslashes and control characters are
      escaped, everything else stands for itself. */
  function Escape(c: char): (r: string)
    ensures r != []
    ensures forall i | 0 <= i < |r| :: r[i] as int >= 0x20
  {
    var n := c as int;
    if c == '"' then "\\\""
    else if c == '\\' then "\\\\"
    else if n == 0x08 then "\\b"
    else if n == 0x09 then "\\t"
    else if n == 0x0A then "\\n"
    else if n == 0x0C then "\\f"
    else if n == 0x0D then "\\r"
    else if n < 0x20 then ['\\', 'u', '0', '0', HEX[n / 16], HEX[n % 16]]
    else [c]
  }

  function Escaped(s: string): string {
    if s == [] then "" else Escape(s[0]) + Escaped(s[1..])
  }

  function Quote(s: string): string {
    "\"" + Escaped(s) + "\""
  }

  /** A value as text, with the same gap after every comma and every colon. */
  function Print(v: Value, gap: string): string {
    match v
    case Null => "null"
    case Bool(on) => if on then "true" else "false"
    case Number(digits) => digits
    case Str(text) => Quote(text)
    case Arr(elements) => if elements == [] then "[]" else "[" + PrintElements(elements, gap) + "]"
    case Obj(members) => if members == [] then "{}" else "{" + PrintMembers(members, gap) + "}"
  }

  function PrintElements(vs: seq<Value>, gap: string): string
    requires vs != []
  {
    if |vs| == 1 then Print(vs[0], gap) else Print(vs[0], gap) + "," + (gap + PrintElements(vs[1..], gap))
  }

  function PrintMembers(ms: seq<Member>, gap: string): string
    requires ms != []
  {
    var one := Quote(ms[0].key) + ":" + (gap + Print(ms[0].value, gap));
    if |ms| == 1 then one else one + "," + (gap + PrintMembers(ms[1..], gap))
  }

  // ------------------------------------------------------------- reading

  predicate IsBlank(c: char) {
    c == ' ' || c == '\t' || c == '\n' || c == '\r'
  }

  function SkipBlank(s: string): (r: string)
    ensures |r| <= |s|
  {
    if s != [] && IsBlank(s[0]) then SkipBlank(s[1..]) else s
  }

  function HexDigit(c: char): Option<nat> {
    if '0' <= c <= '9' then Some(c as int - '0' as int)
    else if 'a' <= c <= 'f' then Some(c as int - 'a' as int + 10)
    else if 'A' <= c <= 'F' then Some(c as int - 'A' as int + 10)
    else None
  }

  /** Four hexadecimal digits. */
  function Hex4(s: string): (r: Option<nat>)
    ensures r.Some? ==> |s| >= 4 && r.value < 0x1_0000
  {
    if |s| < 4 then None
    else
      var a, b, c, d := HexDigit(s[0]), HexDigit(s[1]), HexDigit(s[2]), HexDigit(s[3]);
      if a.Some? && b.Some? && c.Some? && d.Some?
      then Some(0x1000 * a.value + 0x100 * b.value + 0x10 * c.value + d.value)
      else None
  }

  /** The character a `\u` escape stands for, with a second escape for the other half of a surrogate
      pair, and what follows it. Half a pair is an error. */
  function UnicodeEscape(s: string): (r: Option<(char, string)>)
    ensures r.Some? ==> |r.value.1| < |s|
  {
    var u := Hex4(s);
    if u.None? then None
    else if u.value < 0xD800 || 0xE000 <= u.value then Some((u.value as char, s[4..]))
    else if u.value >= 0xDC00 || |s| < 10 || s[4] != '\\' || s[5] != 'u' then None
    else
      var l := Hex4(s[6..]);
      if l.None? || l.value < 0xDC00 || 0xE000 <= l.value then None
      else Some(((0x1_0000 + (u.value - 0xD800) * 0x400 + (l.value - 0xDC00)) as char, s[10..]))
  }

  /** What a backslash and the character after it stand for. */
  function Unescape(s: string): (r: Option<(char, string)>)
    ensures r.Some? ==> |r.value.1| < |s|
  {
    if s == [] then None
    else
      match s[0]
      case '"' => Some(('"', s[1..]))
      case '\\' => Some(('\\', s[1..]))
      case '/' => Some(('/', s[1..]))
      case 'b' => Some((0x08 as char, s[1..]))
      case 'f' => Some((0x0C as char, s[1..]))
      case 'n' => Some(('\n', s[1..]))
      case 'r' => Some(('\r', s[1..]))
      case 't' => Some(('\t', s[1..]))
      case 'u' => UnicodeEscape(s[1..])
      case _ => None
  }

  /** The rest of a string literal, up to its closing quote. */
  function ReadString(s: string): (r: Option<(string, string)>)
    ensures r.Some? ==> |r.value.1| < |s|
    decreases |s|
  {
    if s == [] || s[0] as int < 0x20 then None
    else if s[0] == '"' then Some(("", s[1..]))
    else if s[0] == '\\' then
      match Unescape(s[1..])
      case None => None
      case Some(e) =>
        (match ReadString(e.1)
         case None => None
         case Some(more) => Some(([e.0] + more.0, more.1)))
    else
      match ReadString(s[1..])
      case None => None
      case Some(more) => Some(([s[0]] + more.0, more.1))
  }

  function Digits(s: string): (n: nat)
    ensures n <= |s|
  {
    if s != [] && '0' <= s[0] <= '9' then 1 + Digits(s[1..]) else 0
  }

  /** What follows one or more digits. */
  function SkipDigits(s: string): (r: Option<string>)
    ensures r.Some? ==> |r.value| < |s|
  {
    var n := Digits(s);
    if n == 0 then None else Some(s[n..])
  }

  function SkipFraction(s: string): (r: Option<string>)
    ensures r.Some? ==> |r.value| <= |s|
  {
    if s != [] && s[0] == '.' then SkipDigits(s[1..]) else Some(s)
  }

  function SkipExponent(s: string): (r: Option<string>)
    ensures r.Some? ==> |r.value| <= |s|
  {
    if s == [] || (s[0] != 'e' && s[0] != 'E') then Some(s)
    else if |s| > 1 && (s[1] == '+' || s[1] == '-') then SkipDigits(s[2..])
    else SkipDigits(s[1..])
  }

  /** What follows a number, if there is one here (section 6). */
  function ReadNumber(s: string): (r: Option<string>)
    ensures r.Some? ==> |r.value| < |s|
  {
    var t := if s != [] && s[0] == '-' then s[1..] else s;
    if |t| > 1 && t[0] == '0' && '0' <= t[1] <= '9' then None
    else
      var whole := SkipDigits(t);
      if whole.None? then None
      else
        var fraction := SkipFraction(whole.value);
        if fraction.None? then None else SkipExponent(fraction.value)
  }

  function Word(s: string, word: string, v: Value): (r: Option<(Value, string)>)
    requires word != []
    ensures r.Some? ==> |r.value.1| < |s|
  {
    if word <= s then Some((v, s[|word|..])) else None
  }

  /** One value and what follows it. */
  function Read(s: string): (r: Option<(Value, string)>)
    ensures r.Some? ==> |r.value.1| < |s|
    decreases |s|, 0
  {
    var t := SkipBlank(s);
    if t == [] then None
    else if t[0] == '"' then
      match ReadString(t[1..])
      case None => None
      case Some(x) => Some((Str(x.0), x.1))
    else if t[0] == '[' then
      var u := SkipBlank(t[1..]);
      if u != [] && u[0] == ']' then Some((Arr([]), u[1..]))
      else
        match ReadElements(t[1..])
        case None => None
        case Some(x) => Some((Arr(x.0), x.1))
    else if t[0] == '{' then
      var u := SkipBlank(t[1..]);
      if u != [] && u[0] == '}' then Some((Obj([]), u[1..]))
      else
        match ReadMembers(t[1..])
        case None => None
        case Some(x) => Some((Obj(x.0), x.1))
    else if t[0] == 't' then Word(t, "true", Bool(true))
    else if t[0] == 'f' then Word(t, "false", Bool(false))
    else if t[0] == 'n' then Word(t, "null", Null)
    else
      match ReadNumber(t)
      case None => None
      case Some(rest) => Some((Number(t[..|t| - |rest|]), rest))
  }

  /** The elements of an array, through its closing bracket. */
  function ReadElements(s: string): (r: Option<(seq<Value>, string)>)
    ensures r.Some? ==> |r.value.1| < |s|
    decreases |s|, 1
  {
    match Read(s)
    case None => None
    case Some(v) =>
      var t := SkipBlank(v.1);
      if t != [] && t[0] == ']' then Some(([v.0], t[1..]))
      else if t != [] && t[0] == ',' then
        match ReadElements(t[1..])
        case None => None
        case Some(more) => Some(([v.0] + more.0, more.1))
      else None
  }

  /** The members of an object, through its closing brace. */
  function ReadMembers(s: string): (r: Option<(seq<Member>, string)>)
    ensures r.Some? ==> |r.value.1| < |s|
    decreases |s|, 1
  {
    var t := SkipBlank(s);
    if t == [] || t[0] != '"' then None
    else
      match ReadString(t[1..])
      case None => None
      case Some(k) =>
        var u := SkipBlank(k.1);
        if u == [] || u[0] != ':' then None
        else
          (match Read(u[1..])
           case None => None
           case Some(v) =>
             var w := SkipBlank(v.1);
             if w != [] && w[0] == '}' then Some(([Member(k.0, v.0)], w[1..]))
             else if w != [] && w[0] == ',' then
               match ReadMembers(w[1..])
               case None => None
               case Some(more) => Some(([Member(k.0, v.0)] + more.0, more.1))
             else None)
  }

  /** A whole text: one value and nothing else. */
  function Parse(s: string): Option<Value> {
    match Read(s)
    case None => None
    case Some(v) => if SkipBlank(v.1) == [] then Some(v.0) else None
  }

  // ------------------------------------------------------ forms of tokens

  /** The four blanks. */
  lemma BlanksAre(c: char)
    ensures IsBlank(c) <==> c as int in {9, 10, 13, 32}
  {
  }

  /** Hexadecimal digits of either case. */
  lemma HexDigitsAre(c: char, d: nat)
    ensures d < 16 ==> HexDigit("0123456789abcdef"[d]) == Some(d) && HexDigit("0123456789ABCDEF"[d]) == Some(d)
    ensures c !in "0123456789abcdefABCDEF" ==> HexDigit(c) == None
  {
    if HexDigit(c).Some? {
      var s := "0123456789abcdefABCDEF";
      var i := c as int - (if c <= '9' then '0' as int else if c >= 'a' then 'a' as int - 10 else 'A' as int - 16);
      assert s[i] == c;
    }
  }

  lemma Hex4Is(a: char, b: char, c: char, d: char, rest: string)
    requires HexDigit(a).Some? && HexDigit(b).Some? && HexDigit(c).Some? && HexDigit(d).Some?
    ensures Hex4([a, b, c, d] + rest) ==
              Some(((HexDigit(a).value * 16 + HexDigit(b).value) * 16 + HexDigit(c).value) * 16 + HexDigit(d).value)
  {
    hide HexDigit;
  }

  /** The short escapes and the two forms of the long one: a character by its number, or by two halves
      of a surrogate pair. A half alone is an error. */
  lemma EscapesAre(four: string, other: string, rest: string)
    requires |four| == 4 && Hex4(four).Some? && |other| == 4 && Hex4(other).Some?
    ensures Unescape("\"" + rest) == Some(('"', rest)) && Unescape("\\" + rest) == Some(('\\', rest))
    ensures Unescape("/" + rest) == Some(('/', rest)) && Unescape("n" + rest) == Some(('\n', rest))
    ensures Unescape("r" + rest) == Some(('\r', rest)) && Unescape("t" + rest) == Some(('\t', rest))
    ensures var v := Hex4(four).value;
            !(0xD800 <= v <= 0xDFFF) ==> UnicodeEscape(four + rest) == Some((v as char, rest))
    ensures var v, l := Hex4(four).value, Hex4(other).value;
            0xD800 <= v <= 0xDBFF && 0xDC00 <= l <= 0xDFFF ==>
              UnicodeEscape(four + ("\\u" + (other + rest))) ==
                Some(((0x1_0000 + (v - 0xD800) * 1024 + (l - 0xDC00)) as char, rest))
    ensures 0xDC00 <= Hex4(four).value <= 0xDFFF ==> UnicodeEscape(four + rest) == None
  {
    hide HexDigit;
    assert (four + rest)[4..] == rest;
    var pair := four + ("\\u" + (other + rest));
    assert pair[4] == '\\' && pair[5] == 'u' && pair[6..] == other + rest && pair[10..] == rest;
  }

  /** A number: an optional sign, a whole part, and a fraction and an exponent or not. */
  lemma NumberForms(minus: bool, whole: string, fraction: string, exponent: string, rest: string)
    requires IsWhole(whole) && Follows(rest)
    requires fraction == "" || (|fraction| > 1 && fraction[0] == '.' && AllDigits(fraction[1..]))
    requires exponent == "" || (|exponent| > 1 && exponent[0] in {'e', 'E'}
                                && (AllDigits(exponent[1..])
                                    || (|exponent| > 2 && exponent[1] in {'+', '-'} && AllDigits(exponent[2..]))))
    ensures ReadNumber((if minus then "-" else "") + (whole + (fraction + (exponent + rest)))) == Some(rest)
  {
    var tail := fraction + (exponent + rest);
    var t := whole + tail;
    var s := (if minus then "-" else "") + t;
    assert whole[0] != '-' && s != [] && (if minus then s[0] == '-' && s[1..] == t else s == t);
    DigitsEnd(whole, tail);
    assert t[|whole|..] == tail && t[0] == whole[0] && (|whole| > 1 ==> t[1] == whole[1]);
    assert |whole| == 1 && |t| > 1 ==> t[1] == tail[0];
    FractionIs(fraction, exponent + rest);
    ExponentIs(exponent, rest);
  }

  predicate AllDigits(s: string) {
    forall i | 0 <= i < |s| :: '0' <= s[i] <= '9'
  }

  lemma {:induction false} DigitsEnd(digits: string, tail: string)
    requires AllDigits(digits) && (tail == "" || !('0' <= tail[0] <= '9'))
    ensures Digits(digits + tail) == |digits|
  {
    if digits == "" {
      assert digits + tail == tail;
    } else {
      assert (digits + tail)[1..] == digits[1..] + tail;
      DigitsEnd(digits[1..], tail);
    }
  }

  lemma FractionIs(fraction: string, tail: string)
    requires fraction == "" || (|fraction| > 1 && fraction[0] == '.' && AllDigits(fraction[1..]))
    requires tail == "" || (!('0' <= tail[0] <= '9') && tail[0] != '.')
    ensures SkipFraction(fraction + tail) == Some(tail)
  {
    if fraction == "" {
      assert fraction + tail == tail;
    } else {
      assert (fraction + tail)[1..] == fraction[1..] + tail;
      DigitsEnd(fraction[1..], tail);
      assert (fraction[1..] + tail)[|fraction| - 1..] == tail;
    }
  }

  lemma ExponentIs(exponent: string, rest: string)
    requires Follows(rest)
    requires exponent == "" || (|exponent| > 1 && exponent[0] in {'e', 'E'}
                                && (AllDigits(exponent[1..])
                                    || (|exponent| > 2 && exponent[1] in {'+', '-'} && AllDigits(exponent[2..]))))
    ensures SkipExponent(exponent + rest) == Some(rest)
  {
    var s := exponent + rest;
    if exponent == "" {
      assert s == rest;
    } else {
      var k := if exponent[1] in {'+', '-'} then 2 else 1;
      assert s[k..] == exponent[k..] + rest;
      DigitsEnd(exponent[k..], rest);
      assert (exponent[k..] + rest)[|exponent| - k..] == rest;
    }
  }

  // ---------------------------------------------------------- round trip

  /** A whole number as it is written: digits, and no zero in front of others. */
  predicate IsWhole(digits: string) {
    && digits != "" && (|digits| > 1 ==> digits[0] != '0')
    && forall i | 0 <= i < |digits| :: '0' <= digits[i] <= '9'
  }

  /** Other numbers than whole ones are not part of the round trip. */
  predicate Textual(v: Value) {
    match v
    case Number(digits) => IsWhole(digits)
    case Arr(elements) => forall e | e in elements :: Textual(e)
    case Obj(members) => forall m | m in members :: Textual(m.value)
    case _ => true
  }

  lemma EscapeReadsBack(c: char, rest: string)
    ensures ReadString(Escape(c) + rest) ==
              match ReadString(rest) case None => None case Some(more) => Some(([c] + more.0, more.1))
  {
    var n := c as int;
    var s := Escape(c) + rest;
    if n < 0x20 && n !in {0x08, 0x09, 0x0A, 0x0C, 0x0D} {
      var t := s[1..];
      assert t[1..] == ['0', '0', HEX[n / 16], HEX[n % 16]] + rest;
      HexReadsBack(n, rest);
      assert Unescape(t) == Some((c, rest));
    } else if |Escape(c)| == 2 {
      assert s[1..][1..] == rest;
    } else {
      assert s[1..] == rest;
    }
  }

  lemma HexReadsBack(n: nat, rest: string)
    requires n < 0x20
    ensures UnicodeEscape(['0', '0', HEX[n / 16], HEX[n % 16]] + rest) == Some((n as char, rest))
  {
    var s := ['0', '0', HEX[n / 16], HEX[n % 16]] + rest;
    assert s[4..] == rest;
    assert HexDigit(HEX[n / 16]) == Some(n / 16) && HexDigit(HEX[n % 16]) == Some(n % 16);
  }

  lemma EndOfString(rest: string)
    ensures ReadString("\"" + rest) == Some(("", rest))
  {
  }

  /** Every string comes back from between its quotes. */
  lemma {:induction false} StringReadsBack(s: string, rest: string)
    ensures ReadString(Escaped(s) + "\"" + rest) == Some((s, rest))
  {
    hide ReadString, Escape;
    if s == [] {
      EndOfString(rest);
      assert "" + "\"" + rest == "\"" + rest;
    } else {
      StringReadsBack(s[1..], rest);
      var more := Escaped(s[1..]) + "\"" + rest;
      EscapeReadsBack(s[0], more);
      assert Escaped(s) + "\"" + rest == Escape(s[0]) + more;
      assert [s[0]] + s[1..] == s;
    }
  }

  lemma QuoteReadsBack(s: string, rest: string)
    ensures var q := Quote(s) + rest;
            q[0] == '"' && SkipBlank(q) == q && ReadString(q[1..]) == Some((s, rest))
  {
    StringReadsBack(s, rest);
    assert (Quote(s) + rest)[1..] == Escaped(s) + "\"" + rest;
  }

  /** What follows a value in printed JSON is no blank. */
  predicate Follows(rest: string) {
    rest == [] || rest[0] in {',', ']', '}'}
  }

  lemma SkipNothing(s: string)
    requires s == [] || !IsBlank(s[0])
    ensures SkipBlank(s) == s
  {
  }

  predicate AllBlank(gap: string) {
    forall i | 0 <= i < |gap| :: IsBlank(gap[i])
  }

  lemma {:induction false} SkipGap(gap: string, s: string)
    requires AllBlank(gap)
    ensures SkipBlank(gap + s) == SkipBlank(s)
    decreases |gap|
  {
    if gap == [] {
      assert gap + s == s;
    } else {
      assert (gap + s)[1..] == gap[1..] + s;
      SkipGap(gap[1..], s);
    }
  }

  /** Blanks before a value, a list of elements or a list of members make no difference. */
  lemma ReadsPastGap(gap: string, s: string)
    requires AllBlank(gap)
    ensures Read(gap + s) == Read(s) && ReadElements(gap + s) == ReadElements(s)
    ensures ReadMembers(gap + s) == ReadMembers(s)
  {
    SkipGap(gap, s);
    assert Read(gap + s) == Read(s);
  }

  lemma {:induction false} DigitsAre(digits: string, rest: string)
    requires (forall i | 0 <= i < |digits| :: '0' <= digits[i] <= '9') && Follows(rest)
    ensures Digits(digits + rest) == |digits|
  {
    if digits == "" {
      assert digits + rest == rest;
    } else {
      assert (digits + rest)[1..] == digits[1..] + rest;
      DigitsAre(digits[1..], rest);
    }
  }

  lemma NumberReadsBack(digits: string, rest: string)
    requires IsWhole(digits) && Follows(rest)
    ensures ReadNumber(digits + rest) == Some(rest)
  {
    DigitsAre(digits, rest);
    var s := digits + rest;
    assert s[0] == digits[0] && s[|digits|..] == rest;
    assert |s| > 1 && '0' <= s[1] <= '9' ==> |digits| > 1;
  }

  lemma PrintStarts(v: Value, gap: string)
    requires Textual(v)
    ensures Print(v, gap) != [] && !IsBlank(Print(v, gap)[0]) && Print(v, gap)[0] !in {']', '}', ','}
  {
  }

  /** Printing and reading back gives the value, and leaves exactly what followed it. */
  lemma {:induction false} ReadsBack(v: Value, gap: string, rest: string)
    requires Textual(v) && AllBlank(gap) && Follows(rest)
    ensures Read(Print(v, gap) + rest) == Some((v, rest))
    decreases v
  {
    hide ReadString, ReadNumber, Escaped, PrintElements, PrintMembers, ReadElements, ReadMembers, SkipBlank, Quote,
      AllBlank;
    var s := Print(v, gap) + rest;
    PrintStarts(v, gap);
    SkipNothing(s);
    match v
    case Null => assert s[4..] == rest;
    case Bool(on) => assert if on then s[4..] == rest else s[5..] == rest;
    case Number(digits) => NumberIsRead(digits, rest);
    case Str(text) => QuoteReadsBack(text, rest);
    case Arr(elements) =>
      if elements == [] {
        assert s[1..] == "]" + rest && ("]" + rest)[1..] == rest;
        SkipNothing("]" + rest);
      } else {
        ElementsReadBack(elements, gap, rest);
        assert s[1..] == PrintElements(elements, gap) + "]" + rest;
        ElementsStart(elements, gap);
        SkipNothing(s[1..]);
      }
    case Obj(members) =>
      if members == [] {
        assert s[1..] == "}" + rest && ("}" + rest)[1..] == rest;
        SkipNothing("}" + rest);
      } else {
        MembersReadBack(members, gap, rest);
        assert s[1..] == PrintMembers(members, gap) + "}" + rest;
        MembersStart(members, gap);
        SkipNothing(s[1..]);
      }
  }

  lemma NumberIsRead(digits: string, rest: string)
    requires IsWhole(digits) && Follows(rest)
    ensures Read(digits + rest) == Some((Number(digits), rest))
  {
    var s := digits + rest;
    NumberReadsBack(digits, rest);
    assert s[0] == digits[0];
    SkipNothing(s);
    hide ReadNumber, SkipBlank;
    assert s[..|s| - |rest|] == digits;
  }

  lemma MembersStart(ms: seq<Member>, gap: string)
    requires ms != []
    ensures PrintMembers(ms, gap) != [] && PrintMembers(ms, gap)[0] == '"'
  {
  }

  lemma ElementsStart(vs: seq<Value>, gap: string)
    requires vs != [] && Textual(vs[0])
    ensures var s := PrintElements(vs, gap); s != [] && !IsBlank(s[0]) && s[0] != ']'
  {
    PrintStarts(vs[0], gap);
  }

  lemma LastElement(s: string, v: Value, rest: string)
    requires Read(s) == Some((v, "]" + rest))
    ensures ReadElements(s) == Some(([v], rest))
  {
  }

  lemma NextElement(s: string, v: Value, more: string, vs: seq<Value>, rest: string)
    requires Read(s) == Some((v, "," + more)) && ReadElements(more) == Some((vs, rest))
    ensures ReadElements(s) == Some(([v] + vs, rest))
  {
  }

  lemma RegroupElements(first: string, gap: string, tail: string, rest: string)
    ensures (first + "," + (gap + tail)) + "]" + rest == first + ("," + (gap + (tail + "]" + rest)))
  {
  }

  lemma {:induction false} ElementsReadBack(vs: seq<Value>, gap: string, rest: string)
    requires vs != [] && AllBlank(gap) && forall e | e in vs :: Textual(e)
    ensures ReadElements(PrintElements(vs, gap) + "]" + rest) == Some((vs, rest))
    decreases vs
  {
    hide Read, ReadElements, Print, AllBlank;
    var s := PrintElements(vs, gap) + "]" + rest;
    if |vs| == 1 {
      assert s == Print(vs[0], gap) + ("]" + rest);
      ReadsBack(vs[0], gap, "]" + rest);
      LastElement(s, vs[0], rest);
      assert vs == [vs[0]];
    } else {
      var more := PrintElements(vs[1..], gap) + "]" + rest;
      RegroupElements(Print(vs[0], gap), gap, PrintElements(vs[1..], gap), rest);
      ReadsBack(vs[0], gap, "," + (gap + more));
      ElementsReadBack(vs[1..], gap, rest);
      ReadsPastGap(gap, more);
      NextElement(s, vs[0], gap + more, vs[1..], rest);
      assert vs == [vs[0]] + vs[1..];
    }
  }

  /** One member, and what the text after it is read as. */
  lemma OneMember(m: Member, gap: string, after: string)
    requires Textual(m.value) && AllBlank(gap) && after != [] && after[0] in {',', '}'}
    requires Read(Print(m.value, gap) + after) == Some((m.value, after))
    ensures var s := Quote(m.key) + (":" + (gap + (Print(m.value, gap) + after)));
            ReadMembers(s) ==
              if after[0] == '}' then Some(([m], after[1..]))
              else match ReadMembers(after[1..]) case None => None case Some(more) => Some(([m] + more.0, more.1))
  {
    var text := Print(m.value, gap) + after;
    ReadsPastGap(gap, text);
    hide Read, ReadString, Print, Quote, SkipBlank, AllBlank;
    var value := ":" + (gap + text);
    assert value[1..] == gap + text;
    QuoteReadsBack(m.key, value);
    SkipNothing(value);
    SkipNothing(after);
    assert m == Member(m.key, m.value);
  }

  /** What stands after the value of the first member. */
  function AfterFirst(ms: seq<Member>, gap: string, rest: string): string
    requires ms != []
  {
    if |ms| == 1 then "}" + rest else "," + (gap + (PrintMembers(ms[1..], gap) + "}" + rest))
  }

  lemma RegroupOne(key: string, gap: string, value: string, after: string)
    ensures (key + ":" + (gap + value)) + after == key + (":" + (gap + (value + after)))
  {
  }

  lemma Regroup(one: string, gap: string, tail: string, rest: string)
    ensures (one + "," + (gap + tail)) + "}" + rest == one + ("," + (gap + (tail + "}" + rest)))
  {
  }

  lemma MembersText(ms: seq<Member>, gap: string, rest: string)
    requires ms != []
    ensures PrintMembers(ms, gap) + "}" + rest ==
              Quote(ms[0].key) + (":" + (gap + (Print(ms[0].value, gap) + AfterFirst(ms, gap, rest))))
  {
    hide Print, Quote;
    var key, value := Quote(ms[0].key), Print(ms[0].value, gap);
    var one := key + ":" + (gap + value);
    if |ms| == 1 {
      assert one + "}" + rest == one + ("}" + rest);
      RegroupOne(key, gap, value, "}" + rest);
    } else {
      var tail := PrintMembers(ms[1..], gap);
      Regroup(one, gap, tail, rest);
      RegroupOne(key, gap, value, "," + (gap + (tail + "}" + rest)));
    }
  }

  lemma {:induction false} MembersReadBack(ms: seq<Member>, gap: string, rest: string)
    requires ms != [] && AllBlank(gap) && forall m | m in ms :: Textual(m.value)
    ensures ReadMembers(PrintMembers(ms, gap) + "}" + rest) == Some((ms, rest))
    decreases ms
  {
    hide Read, ReadMembers, Print, Quote, PrintMembers, AllBlank;
    var m := ms[0];
    assert m in ms;
    var after := AfterFirst(ms, gap, rest);
    ReadsBack(m.value, gap, after);
    OneMember(m, gap, after);
    MembersText(ms, gap, rest);
    if |ms| == 1 {
      assert after[1..] == rest && ms == [m];
    } else {
      var more := PrintMembers(ms[1..], gap) + "}" + rest;
      assert after[1..] == gap + more;
      ReadsPastGap(gap, more);
      MembersReadBack(ms[1..], gap, rest);
      assert ms == [m] + ms[1..];
    }
  }

  /** Parsing what was printed gives the value back, whatever blanks stand after commas and colons. */
  lemma ParsePrint(v: Value, gap: string)
    requires Textual(v) && AllBlank(gap)
    ensures Parse(Print(v, gap)) == Some(v)
  {
    ReadsBack(v, gap, "");
    assert Print(v, gap) + "" == Print(v, gap);
  }

  /** No control character, and so no raw line feed, is ever printed. */
  predicate Printable(s: string) {
    forall i | 0 <= i < |s| :: s[i] as int >= 0x20
  }

  lemma {:induction false} EscapedIsPrintable(s: string)
    ensures Printable(Escaped(s))
  {
    if s != [] {
      EscapedIsPrintable(s[1..]);
    }
  }

  lemma {:induction false} PrintIsPrintable(v: Value, gap: string)
    requires Textual(v) && Printable(gap)
    ensures Printable(Print(v, gap))
    decreases v
  {
    match v
    case Str(text) => EscapedIsPrintable(text);
    case Arr(elements) => if elements != [] { ElementsPrintable(elements, gap); }
    case Obj(members) => if members != [] { MembersPrintable(members, gap); }
    case _ =>
  }

  lemma {:induction false} ElementsPrintable(vs: seq<Value>, gap: string)
    requires vs != [] && Printable(gap) && forall e | e in vs :: Textual(e)
    ensures Printable(PrintElements(vs, gap))
    decreases vs
  {
    PrintIsPrintable(vs[0], gap);
    if |vs| > 1 {
      ElementsPrintable(vs[1..], gap);
    }
  }

  lemma {:induction false} MembersPrintable(ms: seq<Member>, gap: string)
    requires ms != [] && Printable(gap) && forall m | m in ms :: Textual(m.value)
    ensures Printable(PrintMembers(ms, gap))
    decreases ms
  {
    EscapedIsPrintable(ms[0].key);
    assert ms[0] in ms;
    PrintIsPrintable(ms[0].value, gap);
    if |ms| > 1 {
      MembersPrintable(ms[1..], gap);
    }
  }
}
