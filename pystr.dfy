/**
 * The Python 2 byte-string operations the parser relies on: the whitespace class shared by
 * str.strip() and the regex class \s, \w without the LOCALE or UNICODE flags, str.strip,
 * str.startswith, str.join, str.splitlines and the ordering that sorted() applies to strings.
 */
module PyStr {

  /** The characters str.isspace(), str.strip() and the regex classes \s and \S work with. */
  const Whitespace: set<char> := {' ', '\t', '\n', '\r', '\U{000B}', '\U{000C}'}

  predicate IsSpace(c: char) {
    c in Whitespace
  }

  /** The regex class \w on a byte string: [A-Za-z0-9_]. */
  predicate IsWordChar(c: char) {
    ('a' <= c <= 'z') || ('A' <= c <= 'Z') || ('0' <= c <= '9') || c == '_'
  }

  lemma WordCharIsNotSpace(c: char)
    requires IsWordChar(c)
    ensures !IsSpace(c)
  {
  }

  // ---------------------------------------------------------------------------------------
  // str.strip

  /** str.lstrip(chars): drops the longest prefix made of characters of cs. */
  function LStrip(s: string, cs: set<char>): (r: string)
    ensures |r| <= |s|
  {
    if s != [] && s[0] in cs then LStrip(s[1..], cs) else s
  }

  /** lstrip leaves a suffix that does not start with a stripped character, and cuts away only
      stripped characters. */
  lemma {:induction false} LStripIsSuffix(s: string, cs: set<char>)
    ensures var r := LStrip(s, cs);
      r == s[|s| - |r|..] && (forall k :: 0 <= k < |s| - |r| ==> s[k] in cs)
      && (r != [] ==> r[0] !in cs)
    decreases |s|
  {
    if s != [] && s[0] in cs {
      LStripIsSuffix(s[1..], cs);
      var r := LStrip(s, cs);
      forall k | 0 <= k < |s| - |r| ensures s[k] in cs {
        if k > 0 {
          assert s[k] == s[1..][k - 1];
        }
      }
    }
  }

  /** str.rstrip(chars): drops the longest suffix made of characters of cs. */
  function RStrip(s: string, cs: set<char>): (r: string)
    ensures |r| <= |s|
  {
    if s != [] && s[|s| - 1] in cs then RStrip(s[..|s| - 1], cs) else s
  }

  /** rstrip leaves a prefix that does not end in a stripped character, and cuts away only
      stripped characters. */
  lemma {:induction false} RStripIsPrefix(s: string, cs: set<char>)
    ensures var r := RStrip(s, cs);
      r == s[..|r|] && (forall k :: |r| <= k < |s| ==> s[k] in cs)
      && (r != [] ==> r[|r| - 1] !in cs)
    decreases |s|
  {
    if s != [] && s[|s| - 1] in cs {
      var t := s[..|s| - 1];
      RStripIsPrefix(t, cs);
      var r := RStrip(s, cs);
      assert r == t[..|r|];
      forall k | |r| <= k < |s| ensures s[k] in cs {
        if k < |s| - 1 {
          assert s[k] == t[k];
        }
      }
    }
  }

  /** str.strip(chars). */
  function StripChars(s: string, cs: set<char>): string {
    RStrip(LStrip(s, cs), cs)
  }

  /** str.strip() with no argument. */
  function Strip(s: string): string {
    StripChars(s, Whitespace)
  }

  /** What strip leaves is a slice of its argument whose two ends are not stripped characters,
      and everything cut away on either side is a stripped character. */
  lemma StripCharsIsSlice(s: string, cs: set<char>)
    ensures var r, i := StripChars(s, cs), |s| - |LStrip(s, cs)|;
      0 <= i && i + |r| <= |s| && r == s[i..i + |r|]
        && (forall k :: 0 <= k < i ==> s[k] in cs)
        && (forall k :: i + |r| <= k < |s| ==> s[k] in cs)
        && (r != [] ==> r[0] !in cs && r[|r| - 1] !in cs)
  {
    var l := LStrip(s, cs);
    var r := RStrip(l, cs);
    var i := |s| - |l|;
    LStripIsSuffix(s, cs);
    RStripIsPrefix(l, cs);
    assert l == s[i..];
    assert r == l[..|r|];
    assert r == s[i..i + |r|];
    assert r != [] ==> r[0] == l[0];
    forall k | i + |r| <= k < |s| ensures s[k] in cs {
      var j := k - i;
      assert |r| <= j < |l|;
      assert l[j] in cs;
      assert s[k] == l[j];
    }
  }

  /** A string without stripped characters at its ends is left as it is. */
  lemma StripCharsKeepsClean(s: string, cs: set<char>)
    requires s != [] ==> s[0] !in cs && s[|s| - 1] !in cs
    ensures StripChars(s, cs) == s
  {
  }

  /** Stripping a token followed by one stripped character gives the token back. */
  lemma StripCharsDropsOneTrailing(t: string, c: char, cs: set<char>)
    requires t != [] && t[0] !in cs && t[|t| - 1] !in cs && c in cs
    ensures StripChars(t + [c], cs) == t
  {
    assert LStrip(t + [c], cs) == t + [c];
    assert (t + [c])[..|t + [c]| - 1] == t;
    assert RStrip(t, cs) == t;
  }

  /** strip is idempotent. */
  lemma StripCharsIdempotent(s: string, cs: set<char>)
    ensures StripChars(StripChars(s, cs), cs) == StripChars(s, cs)
  {
    var r := StripChars(s, cs);
    StripCharsIsSlice(s, cs);
    StripCharsKeepsClean(r, cs);
  }

  /** Every character strip keeps comes from its argument. */
  lemma StripCharsChars(s: string, cs: set<char>, c: char)
    requires c in StripChars(s, cs)
    ensures c in s
  {
    StripCharsIsSlice(s, cs);
    var r, i := StripChars(s, cs), |s| - |LStrip(s, cs)|;
    var j :| 0 <= j < |r| && r[j] == c;
    assert s[i + j] == c;
  }

  // ---------------------------------------------------------------------------------------
  // str.startswith and str.join

  predicate StartsWith(s: string, prefix: string) {
    |prefix| <= |s| && s[..|prefix|] == prefix
  }

  /** sep.join(xs). */
  function Join(sep: string, xs: seq<string>): string
    decreases |xs|
  {
    if |xs| == 0 then "" else if |xs| == 1 then xs[0] else xs[0] + sep + Join(sep, xs[1..])
  }

  // ---------------------------------------------------------------------------------------
  // str.splitlines

  predicate IsLineBreak(c: char) {
    c == '\n' || c == '\r'
  }

  predicate NoLineBreak(s: string) {
    forall j :: 0 <= j < |s| ==> !IsLineBreak(s[j])
  }

  /** The index of the first line-break character of s, or |s| when there is none. */
  function FirstBreak(s: string): (k: nat)
    ensures k <= |s|
    ensures NoLineBreak(s[..k])
    ensures k < |s| ==> IsLineBreak(s[k])
  {
    if s == [] || IsLineBreak(s[0]) then 0
    else
      var k := 1 + FirstBreak(s[1..]);
      assert s[..k] == [s[0]] + s[1..][..k - 1];
      k
  }

  /** str.splitlines() on a Python 2 byte string: "\n", "\r" and "\r\n" end a line, the
      terminators are dropped, and a terminator at the very end opens no further line. */
  function SplitLines(s: string): (lines: seq<string>)
    ensures forall i :: 0 <= i < |lines| ==> NoLineBreak(lines[i])
    decreases |s|
  {
    if s == [] then []
    else
      var k := FirstBreak(s);
      if k == |s| then
        assert s[..k] == s;
        [s]
      else
        var next := if s[k] == '\r' && k + 1 < |s| && s[k + 1] == '\n' then k + 2 else k + 1;
        [s[..k]] + SplitLines(s[next..])
  }

  /** The lines, each followed by "\n". */
  function JoinLines(lines: seq<string>): string
    decreases |lines|
  {
    if lines == [] then "" else lines[0] + "\n" + JoinLines(lines[1..])
  }

  lemma {:induction false} JoinLinesSnoc(lines: seq<string>, x: string)
    ensures JoinLines(lines + [x]) == JoinLines(lines) + x + "\n"
    decreases |lines|
  {
    if lines == [] {
      assert lines + [x] == [x];
    } else {
      assert (lines + [x])[1..] == lines[1..] + [x];
      JoinLinesSnoc(lines[1..], x);
    }
  }

  /** Splitting lines joined with "\n" gives the lines back, so long as no line holds a line break. */
  lemma {:induction false} SplitJoinLines(lines: seq<string>)
    requires forall i :: 0 <= i < |lines| ==> NoLineBreak(lines[i])
    ensures SplitLines(JoinLines(lines)) == lines
    decreases |lines|
  {
    if lines != [] {
      var s := JoinLines(lines);
      var l := lines[0];
      var rest := JoinLines(lines[1..]);
      assert s == l + ("\n" + rest);
      assert s[|l|] == '\n';
      assert s[..|l|] == l;
      FirstBreakAt(s, |l|);
      assert s[|l| + 1..] == rest;
      SplitJoinLines(lines[1..]);
    }
  }

  lemma FirstBreakAt(s: string, k: nat)
    requires k < |s| && IsLineBreak(s[k]) && NoLineBreak(s[..k])
    ensures FirstBreak(s) == k
  {
  }

  // ---------------------------------------------------------------------------------------
  // The order sorted() puts strings in: Python 2 compares byte strings lexicographically.

  predicate StrLess(a: string, b: string)
    decreases |a|
  {
    b != [] && (a == [] || a[0] < b[0] || (a[0] == b[0] && StrLess(a[1..], b[1..])))
  }

  lemma {:induction false} StrLessIrreflexive(a: string)
    ensures !StrLess(a, a)
    decreases |a|
  {
    if a != [] {
      StrLessIrreflexive(a[1..]);
    }
  }

  lemma {:induction false} StrLessTransitive(a: string, b: string, c: string)
    requires StrLess(a, b) && StrLess(b, c)
    ensures StrLess(a, c)
    decreases |a|
  {
    if a != [] && a[0] == b[0] && b[0] == c[0] {
      StrLessTransitive(a[1..], b[1..], c[1..]);
    }
  }

  lemma {:induction false} StrLessTotal(a: string, b: string)
    requires a != b
    ensures StrLess(a, b) || StrLess(b, a)
    decreases |a|
  {
    if a != [] && b != [] && a[0] == b[0] {
      assert a == [a[0]] + a[1..] && b == [b[0]] + b[1..];
      StrLessTotal(a[1..], b[1..]);
    }
  }

  lemma StrLessAsymmetric()
    ensures forall a, b :: StrLess(a, b) ==> !StrLess(b, a)
  {
    forall a, b | StrLess(a, b) ensures !StrLess(b, a) {
      if StrLess(b, a) {
        StrLessTransitive(a, b, a);
        StrLessIrreflexive(a);
      }
    }
  }

  /** A finite non-empty set of strings has a least element. */
  lemma {:induction false} MinStringExists(s: set<string>)
    requires s != {}
    ensures exists m :: m in s && forall y :: y in s && y != m ==> StrLess(m, y)
    decreases |s|
  {
    var x :| x in s;
    var rest := s - {x};
    if rest == {} {
      assert s == {x};
    } else {
      assert |rest| < |s|;
      MinStringExists(rest);
      var m :| m in rest && forall y :: y in rest && y != m ==> StrLess(m, y);
      StrLessTotal(m, x);
      if StrLess(m, x) {
        forall y | y in s && y != m ensures StrLess(m, y) {
          if y != x {
            assert y in rest;
          }
        }
      } else {
        forall y | y in s && y != x ensures StrLess(x, y) {
          assert y in rest;
          if y != m {
            StrLessTransitive(x, m, y);
          }
        }
      }
    }
  }

  function MinString(s: set<string>): (m: string)
    requires s != {}
    ensures m in s
    ensures forall y :: y in s && y != m ==> StrLess(m, y)
  {
    MinStringExists(s);
    StrLessAsymmetric();
    var m :| m in s && forall y :: y in s && y != m ==> StrLess(m, y);
    m
  }

  /** sorted() applied to a set of strings: its elements in strictly increasing order. */
  function SortedStrings(s: set<string>): (r: seq<string>)
    ensures forall x :: x in r <==> x in s
    ensures forall i, j :: 0 <= i < j < |r| ==> StrLess(r[i], r[j])
    decreases |s|
  {
    if s == {} then []
    else
      var m := MinString(s);
      var rest := SortedStrings(s - {m});
      assert forall j :: 0 <= j < |rest| ==> StrLess(m, rest[j]) by {
        forall j | 0 <= j < |rest| ensures StrLess(m, rest[j]) {
          assert rest[j] in s - {m};
        }
      }
      [m] + rest
  }
}
