/**
 The two string operations the manifest parsers apply before handing text to
 a library: stripping surrounding whitespace from a requirement line, and
 joining the lines of a manifest with newlines into one document.
 */
module Text {

  /**
   Whitespace as Python 2.7 unicode strings define it (what `strip()` with no
   argument removes): the ASCII controls TAB..CR and FS..US, SPACE, NEL,
   NO-BREAK SPACE, and the Unicode 5.2 space separators, line and paragraph
   separators.
   */
  predicate IsSpace(c: char)
  {
    var n := c as int;
    || 0x09 <= n <= 0x0D
    || 0x1C <= n <= 0x20
    || n == 0x85 || n == 0xA0 || n == 0x1680 || n == 0x180E
    || 0x2000 <= n <= 0x200A
    || n == 0x2028 || n == 0x2029 || n == 0x202F || n == 0x205F || n == 0x3000
  }

  /** `s` with its leading whitespace removed. */
  function StripLeading(s: string): (r: string)
    ensures |r| <= |s| && r == s[|s| - |r|..]
    ensures forall k :: 0 <= k < |s| - |r| ==> IsSpace(s[k])
    ensures r == [] || !IsSpace(r[0])
    decreases |s|
  {
    if |s| > 0 && IsSpace(s[0]) then StripLeading(s[1..]) else s
  }

  /** `s` with its trailing whitespace removed. */
  function StripTrailing(s: string): (r: string)
    ensures |r| <= |s| && r == s[..|r|]
    ensures forall k :: |r| <= k < |s| ==> IsSpace(s[k])
    ensures r == [] || !IsSpace(r[|r| - 1])
    decreases |s|
  {
    if |s| > 0 && IsSpace(s[|s| - 1]) then StripTrailing(s[..|s| - 1]) else s
  }

  /**
   Python's `str.strip()`: the slice of `s` left after removing whitespace at
   both ends. Only whitespace is removed, and none remains at either end.
   */
  function Strip(s: string): (r: string)
    ensures exists i, j :: 0 <= i <= j <= |s| && r == s[i..j]
                           && (forall k :: 0 <= k < i ==> IsSpace(s[k]))
                           && (forall k :: j <= k < |s| ==> IsSpace(s[k]))
    ensures r == [] || (!IsSpace(r[0]) && !IsSpace(r[|r| - 1]))
  {
    var t := StripLeading(s);
    var r := StripTrailing(t);
    var i := |s| - |t|;
    assert r == s[i..i + |r|];
    r
  }

  /** Stripping a string that has no whitespace at either end leaves it alone. */
  lemma StripTrimmed(s: string)
    requires s == [] || (!IsSpace(s[0]) && !IsSpace(s[|s| - 1]))
    ensures Strip(s) == s
  {
    assert StripLeading(s) == s;
    assert StripTrailing(s) == s;
  }

  /** Stripping twice is stripping once. */
  lemma StripIdempotent(s: string)
    ensures Strip(Strip(s)) == Strip(s)
  {
    StripTrimmed(Strip(s));
  }

  /** Python's `u'\n'.join(lines)`. */
  function JoinLines(lines: seq<string>): string
  {
    if lines == [] then ""
    else if |lines| == 1 then lines[0]
    else lines[0] + "\n" + JoinLines(lines[1..])
  }

  /**
   The pieces of `s` between newlines (Python's `s.split(u'\n')`); used only
   to state what joining keeps.
   */
  function SplitLines(s: string): (r: seq<string>)
    ensures |r| >= 1
    decreases |s|
  {
    if s == [] then [""]
    else if s[0] == '\n' then [""] + SplitLines(s[1..])
    else
      var rest := SplitLines(s[1..]);
      [[s[0]] + rest[0]] + rest[1..]
  }

  /** A line without a newline is one piece. */
  lemma {:induction false} SplitSingle(line: string)
    requires '\n' !in line
    ensures SplitLines(line) == [line]
    decreases |line|
  {
    if line != [] {
      assert '\n' !in line[1..];
      SplitSingle(line[1..]);
      assert [line[0]] + line[1..] == line;
    }
  }

  /** Splitting after a newline-free line yields that line, then the rest. */
  lemma {:induction false} SplitAfterLine(line: string, tail: string)
    requires '\n' !in line
    ensures SplitLines(line + "\n" + tail) == [line] + SplitLines(tail)
    decreases |line|
  {
    var s := line + "\n" + tail;
    if line == [] {
      assert s == "\n" + tail;
      assert s[1..] == tail;
    } else {
      assert '\n' !in line[1..];
      assert s[1..] == line[1..] + "\n" + tail;
      SplitAfterLine(line[1..], tail);
      assert [line[0]] + line[1..] == line;
    }
  }

  /**
   Joining a non-empty list of newline-free lines loses nothing: splitting
   the document at its newlines gives the lines back.
   */
  lemma {:induction false} JoinSplitRoundTrip(lines: seq<string>)
    requires |lines| > 0
    requires forall k :: 0 <= k < |lines| ==> '\n' !in lines[k]
    ensures SplitLines(JoinLines(lines)) == lines
  {
    if |lines| == 1 {
      SplitSingle(lines[0]);
    } else {
      SplitAfterLine(lines[0], JoinLines(lines[1..]));
      JoinSplitRoundTrip(lines[1..]);
      assert [lines[0]] + lines[1..] == lines;
    }
  }
}
