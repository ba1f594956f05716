/** The string operations the parsers share, as Rust's standard library defines them. */
module Text {
  import opened Wrappers

  /** The characters with Unicode's White_Space property. */
  predicate IsSpace(c: char) {
    var n := c as int;
    || 0x09 <= n <= 0x0D || n == 0x20 || n == 0x85 || n == 0xA0 || n == 0x1680
    || 0x2000 <= n <= 0x200A || n == 0x2028 || n == 0x2029 || n == 0x202F || n == 0x205F || n == 0x3000
  }

  predicate AllSpace(s: string) {
    forall i | 0 <= i < |s| :: IsSpace(s[i])
  }

  function ToLower(c: char): char {
    if 'A' <= c <= 'Z' then c - 'A' + 'a' else c
  }

  function Lower(s: string): (r: string)
    ensures |r| == |s|
    ensures forall i | 0 <= i < |s| :: r[i] == ToLower(s[i])
  {
    seq(|s|, i requires 0 <= i < |s| => ToLower(s[i]))
  }

  const UPPER := "ABCDEFGHIJKLMNOPQRSTUVWXYZ"

  /** Lower-casing turns the 26 letters into their small ones and leaves every other character alone. */
  lemma LowerLetters(c: char)
    ensures Lower(UPPER) == "abcdefghijklmnopqrstuvwxyz"
    ensures c !in UPPER ==> Lower([c]) == [c]
  {
    if 'A' <= c <= 'Z' {
      assert UPPER[c as int - 'A' as int] == c;
    }
  }

  /** The 25 characters of Unicode's White_Space property, by number. */
  lemma SpacesAre(c: char)
    ensures IsSpace(c) <==> c as int in {
              9, 10, 11, 12, 13, 32, 133, 160, 5760, 8192, 8193, 8194, 8195, 8196, 8197, 8198, 8199, 8200, 8201, 8202,
              8232, 8233, 8239, 8287, 12288}
  {
  }

  lemma LowerConcat(a: string, b: string)
    ensures Lower(a + b) == Lower(a) + Lower(b)
  {
  }

  function TrimStart(s: string): (r: string)
    ensures |r| <= |s|
  {
    if s != [] && IsSpace(s[0]) then TrimStart(s[1..]) else s
  }

  function TrimEnd(s: string): (r: string)
    ensures |r| <= |s|
  {
    if s != [] && IsSpace(s[|s| - 1]) then TrimEnd(s[..|s| - 1]) else s
  }

  function Trim(s: string): (r: string)
    ensures |r| <= |s|
  {
    TrimEnd(TrimStart(s))
  }

  /** Trimming the start cuts off whitespace and nothing else, and all of it. */
  lemma {:induction false} TrimStartCuts(s: string)
    ensures var r := TrimStart(s);
            r == s[|s| - |r|..] && AllSpace(s[..|s| - |r|]) && (r != [] ==> !IsSpace(r[0]))
  {
    if s != [] && IsSpace(s[0]) {
      hide IsSpace;
      TrimStartCuts(s[1..]);
      var r := TrimStart(s);
      assert s[..|s| - |r|] == [s[0]] + s[1..][..|s| - 1 - |r|];
    }
  }

  lemma {:induction false} TrimEndCuts(s: string)
    ensures var r := TrimEnd(s);
            r == s[..|r|] && AllSpace(s[|r|..]) && (r != [] ==> !IsSpace(r[|r| - 1]))
  {
    if s != [] && IsSpace(s[|s| - 1]) {
      hide IsSpace;
      var n := |s| - 1;
      TrimEndCuts(s[..n]);
      var r := TrimEnd(s);
      assert s[|r|..] == s[..n][|r|..] + [s[n]];
    }
  }

  lemma TrimmedEnds(s: string)
    ensures var r := Trim(s); r != [] ==> !IsSpace(r[0]) && !IsSpace(r[|r| - 1])
  {
    TrimStartCuts(s);
    TrimEndCuts(TrimStart(s));
  }

  lemma TrimKeeps(s: string)
    requires s != [] ==> !IsSpace(s[0]) && !IsSpace(s[|s| - 1])
    ensures Trim(s) == s
  {
  }

  lemma {:induction false} TrimStartIs(s: string, n: nat)
    requires n <= |s| && AllSpace(s[..n]) && (n < |s| ==> !IsSpace(s[n]))
    ensures TrimStart(s) == s[n..]
  {
    hide IsSpace;
    if n > 0 {
      assert s[..n][0] == s[0] && s[1..][..n - 1] == s[..n][1..];
      TrimStartIs(s[1..], n - 1);
    }
  }

  lemma {:induction false} TrimEndIs(s: string, n: nat)
    requires n <= |s| && AllSpace(s[n..]) && (n > 0 ==> !IsSpace(s[n - 1]))
    ensures TrimEnd(s) == s[..n]
    decreases |s|
  {
    hide IsSpace;
    if n < |s| {
      var m := |s| - 1;
      assert s[n..][m - n] == s[m] && s[..m][n..] == s[n..][..m - n];
      TrimEndIs(s[..m], n);
    }
  }

  lemma TrimPadded(left: string, core: string, right: string)
    requires AllSpace(left) && AllSpace(right)
    requires core != [] && !IsSpace(core[0]) && !IsSpace(core[|core| - 1])
    ensures Trim(left + core + right) == core
  {
    hide IsSpace;
    var s := left + core + right;
    assert s[..|left|] == left;
    TrimStartIs(s, |left|);
    assert s[|left|..] == core + right && (core + right)[|core|..] == right;
    TrimEndIs(core + right, |core|);
    assert (core + right)[..|core|] == core;
  }

  /** Where `c` first occurs in `s`, or the length of `s`. */
  function IndexOf(s: string, c: char): (i: nat)
    ensures i <= |s|
    ensures forall j | 0 <= j < i :: s[j] != c
    ensures i < |s| ==> s[i] == c
  {
    if s == [] || s[0] == c then 0 else 1 + IndexOf(s[1..], c)
  }

  lemma {:induction false} IndexOfUnique(s: string, c: char, i: nat)
    requires i <= |s|
    requires forall j | 0 <= j < i :: s[j] != c
    requires i < |s| ==> s[i] == c
    ensures IndexOf(s, c) == i
  {
  }

  /** The parts before and after the first `c`. */
  function SplitOnce(s: string, c: char): (r: Option<(string, string)>)
    ensures r.Some? <==> c in s
    ensures r.Some? ==> s == r.value.0 + [c] + r.value.1 && c !in r.value.0
  {
    var i := IndexOf(s, c);
    if i < |s| then Some((s[..i], s[i + 1..])) else None
  }

  lemma SplitOnceAt(head: string, c: char, tail: string)
    requires c !in head
    ensures SplitOnce(head + [c] + tail, c) == Some((head, tail))
  {
    IndexOfUnique(head + [c] + tail, c, |head|);
    assert (head + [c] + tail)[..|head|] == head;
    assert (head + [c] + tail)[|head| + 1..] == tail;
  }

  /** All the pieces of `s` between occurrences of `c`; never empty. */
  function Split(s: string, c: char): (r: seq<string>)
    ensures r != []
    ensures forall k | 0 <= k < |r| :: c !in r[k]
  {
    var i := IndexOf(s, c);
    if i < |s| then [s[..i]] + Split(s[i + 1..], c) else [s]
  }

  lemma SplitAt(head: string, c: char, tail: string)
    requires c !in head
    ensures Split(head + [c] + tail, c) == [head] + Split(tail, c)
  {
    var s := head + [c] + tail;
    IndexOfUnique(s, c, |head|);
    assert s[..|head|] == head && s[|head| + 1..] == tail;
  }

  lemma SplitWhole(s: string, c: char)
    requires c !in s
    ensures Split(s, c) == [s]
  {
  }

  /** The whitespace-separated words of `s`. */
  function Words(s: string): seq<string> {
    var t := TrimStart(s);
    if t == [] then [] else
      TrimStartCuts(s);
      var n := WordLength(t);
      [t[..n]] + Words(t[n..])
  }

  /** How many leading characters of `s` are not whitespace. */
  function WordLength(s: string): (n: nat)
    ensures n <= |s|
    ensures forall i | 0 <= i < n :: !IsSpace(s[i])
    ensures n < |s| ==> IsSpace(s[n])
    ensures s != [] && !IsSpace(s[0]) ==> n > 0
  {
    if s == [] || IsSpace(s[0]) then 0 else 1 + WordLength(s[1..])
  }

  function Join(parts: seq<string>, sep: string): string {
    if parts == [] then "" else if |parts| == 1 then parts[0]
    else parts[0] + sep + Join(parts[1..], sep)
  }

  predicate PartAt(s: string, part: string, i: nat) {
    i + |part| <= |s| && s[i..i + |part|] == part
  }

  predicate Contains(s: string, part: string) {
    exists i | 0 <= i <= |s| :: PartAt(s, part, i)
  }

  /** Text lines: split at line feeds, each without a carriage return before its line feed, and no
      empty line after a final line feed. */
  function Lines(s: string): seq<string> {
    if s == [] then [] else
      var i := IndexOf(s, '\n');
      if i < |s| then [DropCarriageReturn(s[..i])] + Lines(s[i + 1..]) else [s]
  }

  function DropCarriageReturn(s: string): string {
    if s != [] && s[|s| - 1] == '\r' then s[..|s| - 1] else s
  }

  lemma LinesAt(head: string, tail: string)
    requires '\n' !in head
    ensures Lines(head + "\n" + tail) == [DropCarriageReturn(head)] + Lines(tail)
  {
    var s := head + "\n" + tail;
    IndexOfUnique(s, '\n', |head|);
    assert s[..|head|] == head && s[|head| + 1..] == tail;
  }

  /** Each line ends at its line feed, without the carriage return before that if there is one; what
      stands after the last line feed is a line as it is, unless it is nothing (`LastLine`). */
  lemma LinesAre(line: string, rest: string)
    requires '\n' !in line
    ensures Lines(line + "\r\n" + rest) == [line] + Lines(rest)
    ensures (line == "" || line[|line| - 1] != '\r') ==> Lines(line + "\n" + rest) == [line] + Lines(rest)
  {
    hide Lines;
    LinesAt(line, rest);
    LineReturned(line, rest);
  }

  lemma LineReturned(line: string, rest: string)
    requires '\n' !in line
    ensures Lines(line + "\r\n" + rest) == [line] + Lines(rest)
  {
    hide Lines;
    var ended := line + ['\r'];
    assert line + "\r\n" + rest == ended + "\n" + rest;
    LinesAt(ended, rest);
    assert ended[|ended| - 1] == '\r' && ended[..|ended| - 1] == line;
  }

  lemma LastLine(line: string)
    requires '\n' !in line
    ensures Lines(line) == if line == "" then [] else [line]
  {
    IndexOfUnique(line, '\n', |line|);
  }

  /** A number in decimal. */
  function Decimal(n: nat): string {
    if n < 10 then ["0123456789"[n]] else Decimal(n / 10) + ["0123456789"[n % 10]]
  }

  /** What a row of digits stands for. */
  function NumberOf(digits: string): int {
    if digits == "" then 0
    else 10 * NumberOf(digits[..|digits| - 1]) + (digits[|digits| - 1] as int - '0' as int)
  }

  lemma DigitStands(d: nat)
    requires d < 10
    ensures var c := "0123456789"[d]; '0' <= c <= '9' && c as int - '0' as int == d
  {
  }

  /** It stands for the number, in digits only and without a zero in front. */
  lemma {:induction false} DecimalReads(n: nat)
    ensures NumberOf(Decimal(n)) == n && Decimal(n) != ""
    ensures forall i | 0 <= i < |Decimal(n)| :: '0' <= Decimal(n)[i] <= '9'
    ensures n > 0 ==> Decimal(n)[0] != '0'
  {
    DigitStands(n % 10);
    if n < 10 {
      assert Decimal(n)[..0] == "";
    } else {
      DecimalReads(n / 10);
      var front, last := Decimal(n / 10), "0123456789"[n % 10];
      assert Decimal(n) == front + [last];
      hide Decimal;
      assert (front + [last])[..|front|] == front;
    }
  }
}
