/** Python strings as the pipeline uses them: character classes, stripping,
    line splitting, joining and decimal numerals. */
module Text {

  datatype Option<+T> = None | Some(value: T) {
    function GetOr(default: T): T {
      match this
      case None => default
      case Some(v) => v
    }
  }

  datatype Result<+T, +E> = Ok(value: T) | Err(error: E)

  /** `str.isspace`, which is also the regular expression class `\s`. */
  predicate IsSpace(c: char) {
    var n := c as int;
    || 0x09 <= n <= 0x0d || 0x1c <= n <= 0x20 || n == 0x85 || n == 0xa0 || n == 0x1680
    || 0x2000 <= n <= 0x200a || n == 0x2028 || n == 0x2029 || n == 0x202f || n == 0x205f || n == 0x3000
  }

  /** The characters at which `str.splitlines` ends a line. */
  predicate IsLineBreak(c: char) {
    var n := c as int;
    0x0a <= n <= 0x0d || 0x1c <= n <= 0x1e || n == 0x85 || n == 0x2028 || n == 0x2029
  }

  predicate IsDigit(c: char) { '0' <= c <= '9' }

  predicate IsLetter(c: char) { 'a' <= c <= 'z' || 'A' <= c <= 'Z' }

  /** `\w`, ASCII part. */
  predicate IsWord(c: char) { IsLetter(c) || IsDigit(c) || c == '_' }

  predicate IsBlank(s: string) { forall i | 0 <= i < |s| :: IsSpace(s[i]) }

  ghost predicate AllDigits(s: string) { s != "" && forall i | 0 <= i < |s| :: IsDigit(s[i]) }

  ghost predicate OneLine(s: string) {
    forall i | 0 <= i < |s| :: !IsLineBreak(s[i])
  }

  function Spaces(n: nat): (s: string)
    ensures |s| == n && forall i | 0 <= i < n :: s[i] == ' '
  {
    seq(n, _ => ' ')
  }

  // ----- stripping -----

  function LStrip(s: string): (r: string)
    ensures |r| <= |s|
  {
    if s != "" && IsSpace(s[0]) then LStrip(s[1..]) else s
  }

  function RStrip(s: string): (r: string)
    ensures |r| <= |s|
  {
    if s != "" && IsSpace(s[|s| - 1]) then RStrip(s[..|s| - 1]) else s
  }

  function Strip(s: string): string { RStrip(LStrip(s)) }

  /** What is stripped on the left is exactly the leading space. */
  lemma {:induction false} LStripSplits(s: string)
    ensures var n := |s| - |LStrip(s)|;
      && s[n..] == LStrip(s) && (forall i | 0 <= i < n :: IsSpace(s[i]))
      && (LStrip(s) != "" ==> !IsSpace(LStrip(s)[0]))
    decreases |s|
  {
    hide IsSpace;
    if s != "" && IsSpace(s[0]) {
      LStripSplits(s[1..]);
      var n := |s[1..]| - |LStrip(s[1..])|;
      assert s[n + 1..] == s[1..][n..];
      forall i | 0 <= i < n + 1 ensures IsSpace(s[i]) { if i > 0 { assert s[i] == s[1..][i - 1]; } }
    }
  }

  lemma {:induction false} LStripOf(space: string, s: string)
    requires forall i | 0 <= i < |space| :: IsSpace(space[i])
    requires s != "" ==> !IsSpace(s[0])
    ensures LStrip(space + s) == s
    decreases |space|
  {
    hide IsSpace;
    if space == "" {
      assert space + s == s;
    } else {
      assert (space + s)[0] == space[0] && (space + s)[1..] == space[1..] + s;
      LStripOf(space[1..], s);
    }
  }

  /** Stripping is the identity on a text whose two ends are not space. */
  lemma {:induction false} StripIdentity(s: string)
    requires s != "" ==> !IsSpace(s[0]) && !IsSpace(s[|s| - 1])
    ensures Strip(s) == s
  {
    hide IsSpace;
  }

  lemma {:induction false} RStripOf(s: string, space: string)
    requires forall i | 0 <= i < |space| :: IsSpace(space[i])
    requires s != "" ==> !IsSpace(s[|s| - 1])
    ensures RStrip(s + space) == s
    decreases |space|
  {
    hide IsSpace;
    var n := |space| - 1;
    if space == "" {
      assert s + space == s;
    } else {
      assert (s + space)[..|s| + n] == s + space[..n] && (s + space)[|s| + n] == space[n];
      RStripOf(s, space[..n]);
    }
  }

  /** Stripping takes all outer space and nothing else. */
  lemma {:induction false} StripOf(left: string, s: string, right: string)
    requires forall i | 0 <= i < |left| :: IsSpace(left[i])
    requires forall i | 0 <= i < |right| :: IsSpace(right[i])
    requires s != "" ==> !IsSpace(s[0]) && !IsSpace(s[|s| - 1])
    ensures Strip(left + s + right) == s
  {
    hide IsSpace;
    if s == "" {
      assert left + s + right == (left + right) + "";
      LStripOf(left + right, "");
    } else {
      assert left + s + right == left + (s + right);
      LStripOf(left, s + right);
      RStripOf(s, right);
    }
  }

  lemma {:induction false} RStripSplits(s: string)
    ensures var r := RStrip(s);
      && s[..|r|] == r && (forall i | |r| <= i < |s| :: IsSpace(s[i])) && (r != "" ==> !IsSpace(r[|r| - 1]))
    decreases |s|
  {
    hide IsSpace;
    if s != "" && IsSpace(s[|s| - 1]) {
      var t := s[..|s| - 1];
      RStripSplits(t);
      assert s[..|RStrip(t)|] == t[..|RStrip(t)|];
    }
  }

  lemma {:induction false} StripSplits(s: string) returns (left: string, right: string)
    ensures s == left + Strip(s) + right
    ensures (forall i | 0 <= i < |left| :: IsSpace(left[i])) && (forall i | 0 <= i < |right| :: IsSpace(right[i]))
    ensures Strip(s) != "" ==> !IsSpace(Strip(s)[0]) && !IsSpace(Strip(s)[|Strip(s)| - 1])
  {
    hide IsSpace, LStrip, RStrip;
    var t := LStrip(s);
    LStripSplits(s);
    RStripSplits(t);
    left, right := s[..|s| - |t|], t[|RStrip(t)|..];
    assert s == left + t && t == RStrip(t) + right;
  }

  // ----- searching -----

  /** `s.find(c, i)`: the first index at or after `i` holding `c`, or -1. */
  function Find(s: string, c: char, i: nat): (j: int)
    ensures j == -1 || (i <= j < |s| && s[j] == c)
    ensures forall k | i <= k < (if j == -1 then |s| else j) :: s[k] != c
    decreases |s| - i
  {
    if i >= |s| then -1 else if s[i] == c then i else Find(s, c, i + 1)
  }

  predicate StartsWith(s: string, p: string) { p <= s }

  /** `part in s`. */
  predicate Contains(s: string, part: string) {
    exists i | 0 <= i <= |s| :: StartsWith(s[i..], part)
  }

  // ----- joining and splitting -----

  function Join(sep: string, parts: seq<string>): string {
    if |parts| == 0 then ""
    else if |parts| == 1 then parts[0]
    else parts[0] + sep + Join(sep, parts[1..])
  }

  lemma {:induction false} JoinFour(r: seq<string>)
    requires |r| == 4
    ensures Join(".", r) == r[0] + "." + r[1] + "." + r[2] + "." + r[3]
  {
    assert r[1..][1..] == r[2..] && r[2..][1..] == r[3..];
    assert Join(".", r[3..]) == r[3];
    assert Join(".", r[2..]) == r[2] + "." + r[3];
    assert Join(".", r[1..]) == r[1] + "." + (r[2] + "." + r[3]);
  }

  /** `s.split(c)` for a one-character separator. */
  function Split(s: string, c: char): (r: seq<string>)
    ensures |r| > 0
    ensures forall i | 0 <= i < |r| :: c !in r[i]
  {
    var j := Find(s, c, 0);
    if j == -1 then [s] else [s[..j]] + Split(s[j + 1..], c)
  }

  lemma {:induction false} FindAt(s: string, c: char, rest: string)
    requires c !in s
    ensures Find(s + [c] + rest, c, 0) == |s|
  {
    var t := s + [c] + rest;
    assert t[|s|] == c;
    assert forall i | 0 <= i < |s| :: t[i] == s[i];
  }

  /** Splitting undoes joining when no part holds the separator. */
  lemma {:induction false} SplitJoin(parts: seq<string>, c: char)
    requires |parts| > 0
    requires forall i | 0 <= i < |parts| :: c !in parts[i]
    ensures Split(Join([c], parts), c) == parts
  {
    if |parts| == 1 {
      assert Find(parts[0], c, 0) == -1;
    } else {
      var rest := Join([c], parts[1..]);
      FindAt(parts[0], c, rest);
      assert Join([c], parts) == parts[0] + [c] + rest;
      assert (parts[0] + [c] + rest)[|parts[0]| + 1..] == rest;
      assert (parts[0] + [c] + rest)[..|parts[0]|] == parts[0];
      SplitJoin(parts[1..], c);
    }
  }

  /** Joining undoes splitting. */
  lemma {:induction false} JoinSplit(s: string, c: char)
    ensures Join([c], Split(s, c)) == s
    decreases |s|
  {
    hide Join;
    var j := Find(s, c, 0);
    if j == -1 {
      JoinOne([c], s);
    } else {
      JoinSplit(s[j + 1..], c);
      JoinCons([c], s[..j], Split(s[j + 1..], c));
      CutAt(s, j);
    }
  }

  lemma {:induction false} JoinOne(sep: string, part: string)
    ensures Join(sep, [part]) == part
  {
  }

  lemma {:induction false} CutAt(s: string, j: nat)
    requires j < |s|
    ensures s[..j] + [s[j]] + s[j + 1..] == s
  {
  }

  lemma {:induction false} JoinCons(sep: string, first: string, tail: seq<string>)
    requires tail != []
    ensures Join(sep, [first] + tail) == first + sep + Join(sep, tail)
  {
    assert ([first] + tail)[1..] == tail;
  }

  // ----- str.splitlines -----

  /** Length of the line at the head of `s`, without its line break. */
  function LineLen(s: string): (n: nat)
    ensures n <= |s|
    ensures forall i | 0 <= i < n :: !IsLineBreak(s[i])
    ensures n < |s| ==> IsLineBreak(s[n])
  {
    if s == "" || IsLineBreak(s[0]) then 0 else 1 + LineLen(s[1..])
  }

  function SplitLines(s: string): (r: seq<string>)
    ensures forall i | 0 <= i < |r| :: OneLine(r[i])
    decreases |s|
  {
    if s == "" then []
    else
      var n := LineLen(s);
      if n == |s| then [s]
      else if s[n] == '\r' && n + 1 < |s| && s[n + 1] == '\n' then [s[..n]] + SplitLines(s[n + 2..])
      else [s[..n]] + SplitLines(s[n + 1..])
  }

  /** A line ends at any of these characters, a carriage return and a newline together
      being one end; what is left behind the last end is a line if it is not empty. */
  lemma {:induction false} LineEndsAt(line: string, c: char, rest: string)
    requires OneLine(line)
    ensures c as int in {0x0a, 0x0b, 0x0c, 0x0d, 0x1c, 0x1d, 0x1e, 0x85, 0x2028, 0x2029} ==>
            SplitLines(line + [c] + rest) ==
            [line] + SplitLines(if c == '\r' && rest != "" && rest[0] == '\n' then rest[1..] else rest)
    ensures SplitLines(line) == if line == "" then [] else [line]
  {
    if c as int in {0x0a, 0x0b, 0x0c, 0x0d, 0x1c, 0x1d, 0x1e, 0x85, 0x2028, 0x2029} {
      var t := line + [c] + rest;
      assert t[|line|] == c && forall i | 0 <= i < |line| :: t[i] == line[i];
      assert t[..|line|] == line && t[|line| + 1..] == rest;
      assert LineLen(t) == |line|;
      if rest != "" { assert t[|line| + 1] == rest[0] && t[|line| + 2..] == rest[1..]; }
    }
  }

  /** The text of a list of lines, each ended by a newline. */
  function Unlines(lines: seq<string>): string {
    if lines == [] then "" else lines[0] + "\n" + Unlines(lines[1..])
  }

  lemma {:induction false} JoinIsUnlines(lines: seq<string>)
    requires lines != []
    ensures Join("\n", lines) + "\n" == Unlines(lines)
  {
    if |lines| > 1 {
      JoinIsUnlines(lines[1..]);
      assert Join("\n", lines) + "\n" == lines[0] + "\n" + (Join("\n", lines[1..]) + "\n");
    } else {
      assert Unlines(lines[1..]) == "";
    }
  }

  lemma {:induction false} LineLenAt(line: string, rest: string)
    requires OneLine(line)
    ensures LineLen(line + "\n" + rest) == |line|
  {
    var t := line + "\n" + rest;
    assert IsLineBreak(t[|line|]);
    assert forall i | 0 <= i < |line| :: t[i] == line[i];
  }

  /** Splitting a text written line by line gives back exactly those lines. */
  lemma {:induction false} SplitUnlines(lines: seq<string>)
    requires forall i | 0 <= i < |lines| :: OneLine(lines[i])
    ensures SplitLines(Unlines(lines)) == lines
  {
    if lines != [] {
      var rest := Unlines(lines[1..]);
      var t := lines[0] + "\n" + rest;
      LineLenAt(lines[0], rest);
      assert t[|lines[0]|] == '\n';
      assert t[..|lines[0]|] == lines[0] && t[|lines[0]| + 1..] == rest;
      SplitUnlines(lines[1..]);
    }
  }

  // ----- decimal numerals -----

  function DigitChar(d: nat): (c: char)
    requires d < 10
    ensures IsDigit(c)
  {
    '0' + d as char
  }

  /** `str(n)`. */
  function Dec(n: nat): (s: string)
    ensures s != "" && forall i | 0 <= i < |s| :: IsDigit(s[i])
  {
    if n < 10 then [DigitChar(n)] else Dec(n / 10) + [DigitChar(n % 10)]
  }

  /** `int(s)` on a run of digits. */
  function DigitsToNat(s: string): nat
    requires forall i | 0 <= i < |s| :: IsDigit(s[i])
  {
    if s == "" then 0
    else
      assert IsDigit(s[|s| - 1]);
      10 * DigitsToNat(s[..|s| - 1]) + (s[|s| - 1] as int - '0' as int)
  }

  lemma {:induction false} DecRoundTrip(n: nat)
    ensures DigitsToNat(Dec(n)) == n
  {
    if n >= 10 {
      DecRoundTrip(n / 10);
      assert Dec(n)[..|Dec(n)| - 1] == Dec(n / 10);
    } else {
      assert Dec(n)[..0] == "";
    }
  }

  lemma {:induction false} DecInjective(m: nat, n: nat)
    requires Dec(m) == Dec(n)
    ensures m == n
  {
    DecRoundTrip(m);
    DecRoundTrip(n);
  }
}
