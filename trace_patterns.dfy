/** The two regular expressions of AndroidRunner.java, written out as string predicates:
    EXCEPTION_PARSER `^\s*([a-z]+(?:\.[a-z]+)+)(?:: .+)?$` (case-insensitive, whole line)
    and LOCATION `\(([^:]+):(\d+)\)` (searched for, leftmost match). Each comes as a
    declarative reading of the pattern and a scanner, proved to agree. */
module TracePatterns {
  import opened Wrappers
  import opened Strings

  /** `\s` of java.util.regex: space, tab, newline, vertical tab, form feed, carriage return. */
  predicate IsSpace(ch: char) {
    ch == ' ' || ch == '\t' || ch == '\n' || ch == '\U{000B}' || ch == '\U{000C}' || ch == '\r'
  }

  /** `[a-z]` under CASE_INSENSITIVE (US-ASCII folding only). */
  predicate IsLetter(ch: char) {
    ('a' <= ch <= 'z') || ('A' <= ch <= 'Z')
  }

  /** The characters `.` does not match: the line terminators. */
  predicate IsLineTerminator(ch: char) {
    ch == '\n' || ch == '\r' || ch == '\U{0085}' || ch == '\U{2028}' || ch == '\U{2029}'
  }

  /** `\d`: an ASCII digit. */
  predicate IsDigit(ch: char) {
    '0' <= ch <= '9'
  }

  predicate IsNameChar(ch: char) {
    IsLetter(ch) || ch == '.'
  }

  // ---------------------------------------------------------------------------------------
  // EXCEPTION_PARSER

  /** `[a-z]+(?:\.[a-z]+)+`: two or more non-empty runs of letters joined by dots. */
  predicate IsDottedName(t: string) {
    var parts := SplitOn(t, '.');
    |parts| >= 2 && forall k :: 0 <= k < |parts| ==> parts[k] != [] && forall ch :: ch in parts[k] ==> IsLetter(ch)
  }

  /** `(?:: .+)?$`: nothing, or a colon, a space and at least one character of the same line. */
  predicate IsMessageTail(u: string) {
    u == [] || (|u| >= 3 && u[0] == ':' && u[1] == ' ' && forall ch :: ch in u[2..] ==> !IsLineTerminator(ch))
  }

  /** The pattern matches the whole line with group 1 at `s[i..j]`. */
  predicate ExceptionMatchAt(s: string, i: nat, j: nat) {
    i <= j <= |s| && (forall ch :: ch in s[..i] ==> IsSpace(ch)) && NameAndTail(s, i, j)
  }

  /** Group 1 spans `s[i..j]` and the optional message runs to the end of the line. */
  predicate NameAndTail(s: string, i: nat, j: nat)
    requires i <= j <= |s|
  {
    IsDottedName(s[i..j]) && IsMessageTail(s[j..])
  }

  /** Number of leading `\s` characters. */
  function SpacePrefix(s: string): (n: nat)
    ensures n <= |s|
    ensures forall k :: 0 <= k < n ==> IsSpace(s[k])
    ensures n < |s| ==> !IsSpace(s[n])
  {
    if |s| > 0 && IsSpace(s[0]) then 1 + SpacePrefix(s[1..]) else 0
  }

  /** Number of leading letters and dots. */
  function NamePrefix(s: string): (n: nat)
    ensures n <= |s|
    ensures forall k :: 0 <= k < n ==> IsNameChar(s[k])
    ensures n < |s| ==> !IsNameChar(s[n])
  {
    if |s| > 0 && IsNameChar(s[0]) then 1 + NamePrefix(s[1..]) else 0
  }

  /** `EXCEPTION_PARSER.matcher(line).matches()`, giving `group(1)`, the exception class. */
  function ParseExceptionLine(s: string): Option<string> {
    var i := SpacePrefix(s);
    var j := i + NamePrefix(s[i..]);
    if NameAndTail(s, i, j) then Some(s[i..j]) else None
  }

  /** A prefix of length `n` made of the scanned characters, stopped by one that is not,
      is exactly the scanned prefix. */
  lemma SpacePrefixUnique(s: string, n: nat)
    requires n <= |s| && (forall k :: 0 <= k < n ==> IsSpace(s[k])) && (n < |s| ==> !IsSpace(s[n]))
    ensures SpacePrefix(s) == n
  {
  }

  lemma NamePrefixUnique(s: string, n: nat)
    requires n <= |s| && (forall k :: 0 <= k < n ==> IsNameChar(s[k])) && (n < |s| ==> !IsNameChar(s[n]))
    ensures NamePrefix(s) == n
  {
  }

  /** Every character of a joined sequence is the separator or a character of some part. */
  lemma {:induction false} JoinChars(parts: seq<string>, c: char, ch: char)
    requires |parts| >= 1 && ch in Join(parts, c)
    ensures ch == c || exists k :: 0 <= k < |parts| && ch in parts[k]
  {
    if |parts| > 1 {
      if ch !in parts[0] && ch != c {
        JoinChars(parts[1..], c, ch);
        var k :| 0 <= k < |parts[1..]| && ch in parts[1..][k];
        assert ch in parts[k + 1];
      }
    }
  }

  /** A dotted name consists of letters and dots only. */
  lemma DottedNameChars(t: string)
    requires IsDottedName(t)
    ensures forall k :: 0 <= k < |t| ==> IsNameChar(t[k])
  {
    JoinSplitOn(t, '.');
    forall k | 0 <= k < |t| ensures IsNameChar(t[k]) {
      JoinChars(SplitOn(t, '.'), '.', t[k]);
    }
  }

  /** In a match, group 1 starts right after the leading white space. */
  lemma MatchStartsAfterSpace(s: string, i: nat, j: nat)
    requires ExceptionMatchAt(s, i, j)
    ensures SpacePrefix(s) == i
  {
    DottedNameChars(s[i..j]);
    assert s[i..j] != [] && s[i..j][0] == s[i];
    assert IsNameChar(s[i]);
    forall k | 0 <= k < i ensures IsSpace(s[k]) { assert s[k] in s[..i]; }
    SpacePrefixUnique(s, i);
  }

  /** In a match, group 1 is the whole run of letters and dots after the white space. */
  lemma MatchNameIsLongest(s: string, i: nat, j: nat)
    requires ExceptionMatchAt(s, i, j)
    ensures NamePrefix(s[i..]) == j - i
  {
    DottedNameChars(s[i..j]);
    var rest := s[i..];
    forall k | 0 <= k < j - i ensures IsNameChar(rest[k]) { assert rest[k] == s[i..j][k]; }
    if j < |s| {
      assert s[j..][0] == ':';
      assert rest[j - i] == ':';
    }
    NamePrefixUnique(rest, j - i);
  }

  /** Any match is the one the scanner finds. */
  lemma MatchIsParsed(s: string, i: nat, j: nat)
    requires ExceptionMatchAt(s, i, j)
    ensures ParseExceptionLine(s) == Some(s[i..j])
  {
    MatchStartsAfterSpace(s, i, j);
    MatchNameIsLongest(s, i, j);
    assert NameAndTail(s, i, j);
    assert SpacePrefix(s) + NamePrefix(s[SpacePrefix(s)..]) == j;
  }

  /** The scanner agrees with the pattern: it succeeds exactly when the pattern matches the
      line, and then it returns the text of group 1 of the (only) match. */
  lemma ParseExceptionLineCorrect(s: string)
    ensures ParseExceptionLine(s).Some? ==>
      ExceptionMatchAt(s, SpacePrefix(s), SpacePrefix(s) + NamePrefix(s[SpacePrefix(s)..]))
    ensures forall i: nat, j: nat :: ExceptionMatchAt(s, i, j) ==> ParseExceptionLine(s) == Some(s[i..j])
  {
    forall i: nat, j: nat | ExceptionMatchAt(s, i, j) ensures ParseExceptionLine(s) == Some(s[i..j]) {
      MatchIsParsed(s, i, j);
    }
  }

  // ---------------------------------------------------------------------------------------
  // LOCATION

  /** The pattern matches at position `p` with group 1 `file` and group 2 `digits`. */
  predicate LocationAt(s: string, p: nat, file: string, digits: string) {
    && p + |file| + |digits| + 3 <= |s|
    && file != [] && ':' !in file
    && digits != [] && (forall ch :: ch in digits ==> IsDigit(ch))
    && s[p] == '('
    && s[p + 1..p + 1 + |file|] == file
    && s[p + 1 + |file|] == ':'
    && s[p + 2 + |file|..p + 2 + |file| + |digits|] == digits
    && s[p + 2 + |file| + |digits|] == ')'
  }

  /** Length of the colon-free run starting at `i`. */
  function ColonFreeRun(s: string, i: nat): (n: nat)
    requires i <= |s|
    ensures i + n <= |s|
    ensures forall k :: i <= k < i + n ==> s[k] != ':'
    ensures i + n < |s| ==> s[i + n] == ':'
    decreases |s| - i
  {
    if i < |s| && s[i] != ':' then 1 + ColonFreeRun(s, i + 1) else 0
  }

  /** Length of the digit run starting at `i`. */
  function DigitRun(s: string, i: nat): (n: nat)
    requires i <= |s|
    ensures i + n <= |s|
    ensures forall k :: i <= k < i + n ==> IsDigit(s[k])
    ensures i + n < |s| ==> !IsDigit(s[i + n])
    decreases |s| - i
  {
    if i < |s| && IsDigit(s[i]) then 1 + DigitRun(s, i + 1) else 0
  }

  /** The match attempt at position `p`: `[^:]+` must run up to the first colon and `\d+`
      over all the following digits, since the next pattern character excludes both. */
  function LocationTry(s: string, p: nat): Option<(string, string)> {
    if p >= |s| || s[p] != '(' then None
    else
      var f := ColonFreeRun(s, p + 1);
      if f == 0 || p + 1 + f >= |s| then None
      else
        var d := DigitRun(s, p + 2 + f);
        if d == 0 || p + 2 + f + d >= |s| || s[p + 2 + f + d] != ')' then None
        else Some((s[p + 1..p + 1 + f], s[p + 2 + f..p + 2 + f + d]))
  }

  /** A parenthesis, a colon-free run, a colon, a digit run and a closing parenthesis form a
      match. */
  lemma LocationFromRuns(s: string, p: nat, f: nat, d: nat)
    requires p + 3 + f + d <= |s| && 0 < f && 0 < d
    requires s[p] == '(' && s[p + 1 + f] == ':' && s[p + 2 + f + d] == ')'
    requires forall k :: p + 1 <= k < p + 1 + f ==> s[k] != ':'
    requires forall k :: p + 2 + f <= k < p + 2 + f + d ==> IsDigit(s[k])
    ensures LocationAt(s, p, s[p + 1..p + 1 + f], s[p + 2 + f..p + 2 + f + d])
  {
    var file, digits := s[p + 1..p + 1 + f], s[p + 2 + f..p + 2 + f + d];
    forall ch | ch in digits ensures IsDigit(ch) {
      var k :| 0 <= k < d && digits[k] == ch;
      assert digits[k] == s[p + 2 + f + k];
    }
    forall ch | ch in file ensures ch != ':' {
      var k :| 0 <= k < f && file[k] == ch;
      assert file[k] == s[p + 1 + k];
    }
  }

  /** What the attempt at `p` reports is a match of the pattern. */
  lemma LocationTrySound(s: string, p: nat)
    requires LocationTry(s, p).Some?
    ensures LocationAt(s, p, LocationTry(s, p).value.0, LocationTry(s, p).value.1)
  {
    var f := ColonFreeRun(s, p + 1);
    LocationFromRuns(s, p, f, DigitRun(s, p + 2 + f));
  }

  /** A colon-free run that ends at a colon is the run `ColonFreeRun` measures. */
  lemma ColonFreeRunUnique(s: string, i: nat, n: nat)
    requires i + n < |s| && (forall k :: i <= k < i + n ==> s[k] != ':') && s[i + n] == ':'
    ensures ColonFreeRun(s, i) == n
  {
  }

  /** A digit run that ends at a non-digit is the run `DigitRun` measures. */
  lemma DigitRunUnique(s: string, i: nat, n: nat)
    requires i + n < |s| && (forall k :: i <= k < i + n ==> IsDigit(s[k])) && !IsDigit(s[i + n])
    ensures DigitRun(s, i) == n
  {
  }

  /** A match of the pattern at `p` is what the attempt at `p` reports (and it is unique). */
  lemma LocationTryComplete(s: string, p: nat, file: string, digits: string)
    requires LocationAt(s, p, file, digits)
    ensures LocationTry(s, p) == Some((file, digits))
  {
    var f, d := |file|, |digits|;
    forall k | p + 1 <= k < p + 1 + f ensures s[k] != ':' {
      assert s[k] == s[p + 1..p + 1 + f][k - p - 1];
      assert file[k - p - 1] in file;
    }
    ColonFreeRunUnique(s, p + 1, f);
    forall k | p + 2 + f <= k < p + 2 + f + d ensures IsDigit(s[k]) {
      assert s[k] == s[p + 2 + f..p + 2 + f + d][k - p - 2 - f];
      assert digits[k - p - 2 - f] in digits;
    }
    DigitRunUnique(s, p + 2 + f, d);
  }

  /** `LOCATION.matcher(line).find()` from position `p`: the leftmost match, as its position
      and its two groups. */
  function FindLocation(s: string, p: nat): (r: Option<(nat, string, string)>)
    ensures r.Some? ==> p <= r.value.0 < |s| && LocationTry(s, r.value.0) == Some((r.value.1, r.value.2))
    ensures r.Some? ==> forall q :: p <= q < r.value.0 ==> LocationTry(s, q).None?
    ensures r.None? ==> forall q :: p <= q < |s| ==> LocationTry(s, q).None?
    decreases |s| - p
  {
    if p >= |s| then None
    else match LocationTry(s, p)
      case Some(g) => Some((p, g.0, g.1))
      case None => FindLocation(s, p + 1)
  }

  /** `find()` succeeds exactly when the pattern occurs, and then reports its leftmost
      occurrence. */
  lemma FindLocationCorrect(s: string)
    ensures FindLocation(s, 0).Some? ==>
      var m := FindLocation(s, 0).value;
      LocationAt(s, m.0, m.1, m.2) &&
      forall q: nat, file, digits :: q < m.0 ==> !LocationAt(s, q, file, digits)
    ensures FindLocation(s, 0).None? ==> forall q: nat, file, digits :: !LocationAt(s, q, file, digits)
  {
    var r := FindLocation(s, 0);
    if r.Some? {
      LocationTrySound(s, r.value.0);
    }
    forall q: nat, file, digits | LocationAt(s, q, file, digits)
      ensures r.Some? && r.value.0 <= q
    {
      LocationTryComplete(s, q, file, digits);
    }
  }

  /** The first parenthesis of a line, when it opens a well-formed location, is the match
      `LOCATION.find()` reports. */
  lemma FirstLocation(before: string, file: string, digits: string, after: string)
    requires '(' !in before
    requires file != [] && ':' !in file
    requires digits != [] && forall ch :: ch in digits ==> IsDigit(ch)
    ensures FindLocation(before + "(" + file + ":" + digits + ")" + after, 0) == Some((|before|, file, digits))
  {
    var s := before + "(" + file + ":" + digits + ")" + after;
    var p := |before|;
    LocationAfter(before, file, digits, after);
    LocationTryComplete(s, p, file, digits);
    forall q | 0 <= q < p ensures LocationTry(s, q).None? {
      assert s[q] == before[q];
    }
  }

  /** A parenthesis followed by a well-formed location is a match at that parenthesis. */
  lemma LocationAfter(before: string, file: string, digits: string, after: string)
    requires file != [] && ':' !in file
    requires digits != [] && forall ch :: ch in digits ==> IsDigit(ch)
    ensures LocationAt(before + "(" + file + ":" + digits + ")" + after, |before|, file, digits)
  {
    var s := before + "(" + file + ":" + digits + ")" + after;
    var p := |before|;
    assert s[p + 1..p + 1 + |file|] == file;
    assert s[p + 2 + |file|..p + 2 + |file| + |digits|] == digits;
  }

  // ---------------------------------------------------------------------------------------
  // Integer.parseInt on the digits of group 2

  const INT_MAX := 0x7fff_ffff

  /** The decimal value of a digit string. */
  function DecimalValue(digits: string): nat
    requires forall k :: 0 <= k < |digits| ==> IsDigit(digits[k])
  {
    if digits == [] then 0
    else
      assert IsDigit(digits[|digits| - 1]);
      DecimalValue(digits[..|digits| - 1]) * 10 + (digits[|digits| - 1] as int - '0' as int)
  }

  /** 10ⁿ. */
  function Pow10(n: nat): (p: nat)
    ensures p >= 1
  {
    if n == 0 then 1 else 10 * Pow10(n - 1)
  }

  /** At most `n` digits denote less than 10ⁿ. */
  lemma {:induction false} DecimalValueBelow(digits: string, n: nat)
    requires forall k :: 0 <= k < |digits| ==> IsDigit(digits[k])
    requires |digits| <= n
    ensures DecimalValue(digits) < Pow10(n)
  {
    if digits != [] {
      var init := digits[..|digits| - 1];
      DecimalValueBelow(init, n - 1);
      var last := digits[|digits| - 1] as int - '0' as int;
      assert 0 <= last <= 9 by { assert IsDigit(digits[|digits| - 1]); }
      assert DecimalValue(digits) == DecimalValue(init) * 10 + last;
      assert DecimalValue(init) * 10 <= (Pow10(n - 1) - 1) * 10;
    }
  }

  /** A line number of at most nine digits never makes `parseInt` throw. */
  lemma ShortNumberParses(digits: string)
    requires forall k :: 0 <= k < |digits| ==> IsDigit(digits[k])
    requires |digits| <= 9
    ensures ParseInt(digits) == Some(DecimalValue(digits))
  {
    DecimalValueBelow(digits, 9);
    assert Pow10(9) == 1_000_000_000;
  }

  /** `Integer.parseInt(digits)`: its value, or None for the NumberFormatException on a value
      beyond the range of `int`. */
  function ParseInt(digits: string): (r: Option<int>)
    requires forall k :: 0 <= k < |digits| ==> IsDigit(digits[k])
    ensures r.Some? ==> 0 <= r.value <= INT_MAX
    ensures r.None? <==> DecimalValue(digits) > INT_MAX
    ensures r.Some? ==> r.value == DecimalValue(digits)
  {
    var v := DecimalValue(digits);
    if v <= INT_MAX then Some(v) else None
  }
}
