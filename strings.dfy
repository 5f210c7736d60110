/** The few java.lang.String operations the device registry and the launcher rely on,
    written out over `string`. A Dafny `char` is a Unicode scalar value rather than Java's
    UTF-16 code unit; the characters the code tests for are all ASCII, where the two agree. */
module Strings {

  /** `s.contains(t)`: `t` occurs somewhere in `s`. */
  predicate Contains(s: string, t: string) {
    exists i :: 0 <= i <= |s| && t <= s[i..]
  }

  /** `contains` is the infix relation: `t` occurs in `s` exactly when `s` is `t` with some
      text before and after it. */
  lemma ContainsIsInfix(s: string, t: string)
    ensures Contains(s, t) <==> exists a, b :: s == a + t + b
  {
    if Contains(s, t) {
      var i :| 0 <= i <= |s| && t <= s[i..];
      assert s == s[..i] + t + s[i + |t|..];
    }
    if exists a, b :: s == a + t + b {
      var a, b :| s == a + t + b;
      assert t <= s[|a|..];
    }
  }

  /** A string never contains a longer one. */
  lemma NotContainsLonger(s: string, t: string)
    requires |t| > |s|
    ensures !Contains(s, t)
  {
  }

  /** Split `s` around every occurrence of `c`: one more piece than there are separators. */
  function SplitOn(s: string, c: char): (r: seq<string>)
    ensures |r| >= 1
    ensures forall k :: 0 <= k < |r| ==> c !in r[k]
  {
    if |s| == 0 then [""]
    else
      var rest := SplitOn(s[1..], c);
      if s[0] == c then [""] + rest else [[s[0]] + rest[0]] + rest[1..]
  }

  /** Glue pieces back together with `c` between neighbours. */
  function Join(parts: seq<string>, c: char): string
    requires |parts| >= 1
  {
    if |parts| == 1 then parts[0] else parts[0] + [c] + Join(parts[1..], c)
  }

  /** Splitting loses nothing: joining the pieces with the separator gives back the string. */
  lemma {:induction false} JoinSplitOn(s: string, c: char)
    ensures Join(SplitOn(s, c), c) == s
  {
    if |s| > 0 {
      var rest := SplitOn(s[1..], c);
      JoinSplitOn(s[1..], c);
      if s[0] != c {
        if |rest| == 1 {
          assert SplitOn(s, c) == [[s[0]] + rest[0]];
        } else {
          assert SplitOn(s, c)[1..] == rest[1..];
        }
      } else {
        assert SplitOn(s, c)[1..] == rest;
      }
    }
  }

  /** Remove the trailing empty pieces, as String.split with no limit does. */
  function DropTrailingEmpty(p: seq<string>): (r: seq<string>)
    ensures r <= p
    ensures |r| > 0 ==> r[|r| - 1] != ""
    ensures forall k :: |r| <= k < |p| ==> p[k] == ""
  {
    if |p| > 0 && p[|p| - 1] == "" then DropTrailingEmpty(p[..|p| - 1]) else p
  }

  /** `s.split(c)` for a separator that is no regular-expression metacharacter:
      without any match the result is `s` itself, otherwise the pieces with
      trailing empty ones removed (a leading empty piece is kept). */
  function JavaSplit(s: string, c: char): seq<string> {
    if c !in s then [s] else DropTrailingEmpty(SplitOn(s, c))
  }

  /** Without a separator there is exactly one piece, the whole string. */
  lemma {:induction false} SplitOnWithoutSeparator(s: string, c: char)
    requires c !in s
    ensures SplitOn(s, c) == [s]
  {
    if |s| > 0 {
      SplitOnWithoutSeparator(s[1..], c);
      assert [s[0]] + s[1..] == s;
    }
  }

  /** The first piece is everything before the first separator. */
  lemma {:induction false} SplitOnFirst(a: string, b: string, c: char)
    requires c !in a
    ensures SplitOn(a + [c] + b, c) == [a] + SplitOn(b, c)
  {
    var s := a + [c] + b;
    if a == [] {
      assert s[1..] == b;
    } else {
      assert s[1..] == a[1..] + [c] + b;
      SplitOnFirst(a[1..], b, c);
      assert [a[0]] + a[1..] == a;
    }
  }

  /** Two tab-free fields joined by one separator split back into those two fields, as long
      as the second is not empty. */
  lemma SplitTwoFields(a: string, b: string, c: char)
    requires c !in a && c !in b && b != ""
    ensures JavaSplit(a + [c] + b, c) == [a, b]
  {
    assert (a + [c] + b)[|a|] == c;
    SplitOnFirst(a, b, c);
    SplitOnWithoutSeparator(b, c);
  }

  /** A row `"id\t"` splits into the single field `"id"`: a second field does not exist. */
  lemma TrailingTabLeavesOneField()
    ensures JavaSplit("id\t", '\t') == ["id"]
  {
    assert "id\t" == "id" + ['\t'] + "";
    SplitOnFirst("id", "", '\t');
    assert SplitOn("id\t", '\t') == ["id", ""];
  }

  /** A leading tab keeps an empty first field: `"\tdevice"` splits into `""` and `"device"`. */
  lemma LeadingTabKeepsEmptyField()
    ensures JavaSplit("\tdevice", '\t') == ["", "device"]
  {
    assert "\tdevice" == "" + ['\t'] + "device";
    SplitTwoFields("", "device", '\t');
  }

  /** Characters String.trim() strips: every code unit up to and including space. */
  predicate IsTrimmable(ch: char) {
    ch <= ' '
  }

  function TrimStart(s: string): (r: string)
    ensures r == [] || !IsTrimmable(r[0])
  {
    if |s| > 0 && IsTrimmable(s[0]) then TrimStart(s[1..]) else s
  }

  function TrimEnd(s: string): string {
    if |s| > 0 && IsTrimmable(s[|s| - 1]) then TrimEnd(s[..|s| - 1]) else s
  }

  /** `s.trim()`. */
  function Trim(s: string): string {
    TrimEnd(TrimStart(s))
  }

  /** Every code unit of `s` is one trim() strips. */
  predicate IsBlank(s: string) {
    forall i :: 0 <= i < |s| ==> IsTrimmable(s[i])
  }

  lemma {:induction false} TrimStartEmpty(s: string)
    ensures TrimStart(s) == [] <==> IsBlank(s)
  {
    if |s| > 0 && IsTrimmable(s[0]) {
      TrimStartEmpty(s[1..]);
      assert IsBlank(s) <==> IsBlank(s[1..]) by {
        if IsBlank(s[1..]) {
          forall i | 0 <= i < |s| ensures IsTrimmable(s[i]) {
            if i > 0 { assert s[i] == s[1..][i - 1]; }
          }
        }
      }
    }
  }

  lemma {:induction false} TrimEndEmpty(s: string)
    ensures TrimEnd(s) == [] <==> IsBlank(s)
  {
    if |s| > 0 && IsTrimmable(s[|s| - 1]) {
      TrimEndEmpty(s[..|s| - 1]);
      assert IsBlank(s) <==> IsBlank(s[..|s| - 1]) by {
        if IsBlank(s[..|s| - 1]) {
          forall i | 0 <= i < |s| ensures IsTrimmable(s[i]) {
            if i < |s| - 1 { assert s[i] == s[..|s| - 1][i]; }
          }
        }
      }
    } else if |s| > 0 {
      assert !IsTrimmable(s[|s| - 1]);
    }
  }

  /** `s.trim().length() == 0` exactly when every code unit of `s` is at most a space. */
  lemma TrimEmptyIffBlank(s: string)
    ensures |Trim(s)| == 0 <==> IsBlank(s)
  {
    TrimStartEmpty(s);
    TrimEndEmpty(TrimStart(s));
    var t := TrimStart(s);
    if t != [] { assert !IsTrimmable(t[0]); }
  }
}
