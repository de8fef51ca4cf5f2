/** Lines of a text buffer as Python's `str.splitlines()` cuts them, and
    `"\n".join(...)` that puts them back together. */
module Lines {
  import opened Chars

  /** No line boundary anywhere in `s`. */
  predicate NoBreak(s: string) {
    forall i :: 0 <= i < |s| ==> !IsLineBreak(s[i])
  }

  /** Index of the first line boundary of `s`, or |s| when there is none. */
  function FirstBreak(s: string): (k: nat)
    ensures k <= |s|
    ensures k < |s| ==> IsLineBreak(s[k])
    ensures NoBreak(s[..k])
  {
    if s == [] || IsLineBreak(s[0]) then 0
    else
      var k := 1 + FirstBreak(s[1..]);
      assert s[..k] == [s[0]] + s[1..][..k - 1];
      k
  }

  /** Length of the boundary starting at `k`: CR LF counts as one boundary of two characters. */
  function BreakWidth(s: string, k: nat): nat
    requires k < |s|
  {
    if s[k] == '\r' && k + 1 < |s| && s[k + 1] == '\n' then 2 else 1
  }

  /** `str.splitlines()`: the text between boundaries, the boundaries
      themselves dropped; a final boundary does not open another line, and the
      empty text has no lines at all. */
  function SplitLines(s: string): (lines: seq<string>)
    ensures forall l :: l in lines ==> NoBreak(l)
    ensures lines == [] <==> s == []
    decreases |s|
  {
    if s == [] then []
    else
      var k := FirstBreak(s);
      if k == |s| then [s]
      else [s[..k]] + SplitLines(s[k + BreakWidth(s, k)..])
  }

  /** `"\n".join(lines)`. */
  function Join(lines: seq<string>): (s: string)
    ensures lines == [] ==> s == []
  {
    if |lines| == 0 then ""
    else if |lines| == 1 then lines[0]
    else lines[0] + "\n" + Join(lines[1..])
  }

  /** Number of line boundaries in `s`, a CR LF pair counted once. */
  function Breaks(s: string): nat
    decreases |s|
  {
    if s == [] then 0
    else if |s| >= 2 && s[0] == '\r' && s[1] == '\n' then 1 + Breaks(s[2..])
    else (if IsLineBreak(s[0]) then 1 else 0) + Breaks(s[1..])
  }

  lemma {:induction false} BreaksSkipText(s: string, k: nat)
    requires k <= |s|
    requires NoBreak(s[..k])
    ensures Breaks(s) == Breaks(s[k..])
    decreases k
  {
    if k > 0 {
      assert !IsLineBreak(s[..k][0]);
      assert s[1..][..k - 1] == s[..k][1..];
      BreaksSkipText(s[1..], k - 1);
      assert s[1..][k - 1..] == s[k..];
    }
  }

  /** The line count: one line per boundary, plus one for text after the last
      boundary. In particular a trailing boundary adds no empty line and the
      empty text has no lines. */
  lemma {:induction false} LineCount(s: string)
    ensures |SplitLines(s)| == Breaks(s) + (if s != [] && !IsLineBreak(s[|s| - 1]) then 1 else 0)
    decreases |s|
  {
    if s != [] {
      var k := FirstBreak(s);
      BreaksSkipText(s, k);
      if k < |s| {
        var rest := s[k + BreakWidth(s, k)..];
        assert |SplitLines(s)| == 1 + |SplitLines(rest)|;
        LineCount(rest);
        BreaksAtBoundary(s, k);
        assert Breaks(s) == 1 + Breaks(rest);
        LastAfterBoundary(s, k);
      } else {
        assert s[k..] == [];
        assert !IsLineBreak(s[|s| - 1]) by {
          assert s[..k][|s| - 1] == s[|s| - 1];
        }
      }
    }
  }

  /** A boundary counts once, whatever its width. */
  lemma BreaksAtBoundary(s: string, k: nat)
    requires k < |s| && IsLineBreak(s[k])
    ensures Breaks(s[k..]) == 1 + Breaks(s[k + BreakWidth(s, k)..])
  {
    assert s[k..][1..] == s[k + 1..];
    if BreakWidth(s, k) == 2 {
      assert s[k..][2..] == s[k + 2..];
    }
  }

  /** What follows a boundary ends inside a line exactly when `s` does. */
  lemma LastAfterBoundary(s: string, k: nat)
    requires k < |s| && IsLineBreak(s[k])
    ensures var rest := s[k + BreakWidth(s, k)..];
      (rest != [] && !IsLineBreak(rest[|rest| - 1])) <==> !IsLineBreak(s[|s| - 1])
  {
    var rest := s[k + BreakWidth(s, k)..];
    if rest == [] {
      if BreakWidth(s, k) == 2 {
        assert s[|s| - 1] == '\n';
      }
    } else {
      assert rest[|rest| - 1] == s[|s| - 1];
    }
  }

  /** Appending a newline to text that ends inside a line does not change its
      lines: `splitlines` never yields a trailing empty line. */
  lemma {:induction false} TrailingNewlineIgnored(s: string)
    requires s != [] && !IsLineBreak(s[|s| - 1])
    ensures SplitLines(s + "\n") == SplitLines(s)
    decreases |s|
  {
    var k := FirstBreak(s);
    if k == |s| {
      NewlineAfterLastLine(s);
    } else {
      var w := BreakWidth(s, k);
      NewlineAfterBoundary(s, k);
      TrailingNewlineIgnored(s[k + w..]);
    }
  }

  /** Text without a boundary followed by "\n" is still one line. */
  lemma NewlineAfterLastLine(s: string)
    requires s != [] && FirstBreak(s) == |s|
    ensures SplitLines(s + "\n") == SplitLines(s)
  {
    var t := s + "\n";
    FirstBreakPrefix(s, "\n");
    assert t[..|s|] == s;
    assert t[|s| + 1..] == [];
  }

  /** A "\n" appended after text that ends inside a line lands after the
      first line: the first line and its boundary are unchanged. */
  lemma NewlineAfterBoundary(s: string, k: nat)
    requires s != [] && !IsLineBreak(s[|s| - 1])
    requires k == FirstBreak(s) && k < |s|
    ensures k + BreakWidth(s, k) < |s|
    ensures SplitLines(s + "\n") == [s[..k]] + SplitLines(s[k + BreakWidth(s, k)..] + "\n")
  {
    var t := s + "\n";
    FirstBreakPrefix(s, "\n");
    BoundaryBeforeEnd(s, k);
    var w := BreakWidth(s, k);
    assert BreakWidth(t, k) == w;
    AppendSlices(s, "\n", k, w);
  }

  /** A boundary is not the end of text that ends inside a line. */
  lemma BoundaryBeforeEnd(s: string, k: nat)
    requires k < |s| && IsLineBreak(s[k]) && !IsLineBreak(s[|s| - 1])
    ensures k + BreakWidth(s, k) < |s|
  {
    if BreakWidth(s, k) == 2 {
      assert s[k + 1] == '\n';
    }
  }

  lemma AppendSlices(s: string, u: string, k: nat, w: nat)
    requires k + w <= |s|
    ensures (s + u)[..k] == s[..k]
    ensures (s + u)[k + w..] == s[k + w..] + u
  {
  }

  /** The first boundary of `s + t` is the one of `s` when `s` has one; and if
      `s` has none, it is at |s| exactly when `t` starts with one. */
  lemma {:induction false} FirstBreakPrefix(s: string, t: string)
    ensures FirstBreak(s) < |s| ==> FirstBreak(s + t) == FirstBreak(s)
    ensures FirstBreak(s) == |s| && t != [] && IsLineBreak(t[0]) ==> FirstBreak(s + t) == |s|
  {
    var k := FirstBreak(s);
    var j := FirstBreak(s + t);
    if k < |s| {
      assert (s + t)[k] == s[k];
      assert (s + t)[..k] == s[..k];
    } else if t != [] && IsLineBreak(t[0]) {
      assert (s + t)[|s|] == t[0];
      assert (s + t)[..|s|] == s;
    }
  }

  /** Cutting joined lines gives them back, when no line holds a boundary and
      the last line is not empty (a final empty line would be dropped). */
  lemma {:induction false} SplitJoin(lines: seq<string>)
    requires forall l :: l in lines ==> NoBreak(l)
    requires lines == [] || lines[|lines| - 1] != ""
    ensures SplitLines(Join(lines)) == lines
  {
    if |lines| == 1 {
      assert FirstBreak(lines[0]) == |lines[0]| by {
        assert lines[0] in lines;
      }
    } else if |lines| > 1 {
      var first := lines[0];
      var rest := Join(lines[1..]);
      var s := Join(lines);
      assert s == first + ("\n" + rest);
      assert first in lines;
      NoBreakFirstBreak(first);
      FirstBreakPrefix(first, "\n" + rest);
      var k := FirstBreak(s);
      assert k == |first|;
      assert s[k] == '\n';
      assert BreakWidth(s, k) == 1;
      assert s[..k] == first;
      assert s[k + 1..] == rest;
      assert forall l :: l in lines[1..] ==> l in lines;
      SplitJoin(lines[1..]);
    }
  }

  /** One boundary of `splitlines`: a single boundary character, or CR LF. */
  predicate IsBoundary(b: string) {
    b == "\r\n" || (|b| == 1 && IsLineBreak(b[0]))
  }

  /** The first line is the text before the first boundary, whichever
      boundary that is; what follows the boundary is cut the same way. A lone
      CR is a boundary of its own unless a LF follows it. */
  lemma SplitAtBoundary(a: string, b: string, rest: string)
    requires NoBreak(a) && IsBoundary(b)
    requires b == "\r" ==> rest == [] || rest[0] != '\n'
    ensures SplitLines(a + b + rest) == [a] + SplitLines(rest)
  {
    var s := a + b + rest;
    FirstBreakAt(a, b, rest);
    ThreeSlices(a, b, rest);
    assert SplitLines(s) == [s[..|a|]] + SplitLines(s[|a| + |b|..]);
  }

  lemma ThreeSlices(a: string, b: string, rest: string)
    ensures (a + b + rest)[..|a|] == a
    ensures (a + b + rest)[|a| + |b|..] == rest
  {
  }

  /** In `a + b + rest` the first boundary is `b`, with its full width. */
  lemma FirstBreakAt(a: string, b: string, rest: string)
    requires NoBreak(a) && IsBoundary(b)
    requires b == "\r" ==> rest == [] || rest[0] != '\n'
    ensures FirstBreak(a + b + rest) == |a| < |a + b + rest|
    ensures BreakWidth(a + b + rest, |a|) == |b|
  {
    assert a + b + rest == a + (b + rest);
    NoBreakFirstBreak(a);
    FirstBreakPrefix(a, b + rest);
    BreakWidthAt(a, b, rest);
  }

  lemma BreakWidthAt(a: string, b: string, rest: string)
    requires IsBoundary(b)
    requires b == "\r" ==> rest == [] || rest[0] != '\n'
    ensures BreakWidth(a + b + rest, |a|) == |b|
  {
    var s := a + b + rest;
    if b == "\r\n" {
      assert s[|a|] == '\r' && s[|a| + 1] == '\n';
    } else {
      assert s[|a|] == b[0];
      if |a| + 1 < |s| {
        assert s[|a| + 1] == rest[0];
      }
    }
  }

  /** Two lines separated by any one boundary. */
  lemma TwoLines(a: string, b: string, c: string)
    requires NoBreak(a) && IsBoundary(b) && NoBreak(c) && c != []
    ensures SplitLines(a + b + c) == [a, c]
  {
    assert !IsLineBreak(c[0]);
    SplitAtBoundary(a, b, c);
    LastLine(c);
  }

  /** Text without a boundary is one line. */
  lemma LastLine(a: string)
    requires NoBreak(a) && a != []
    ensures SplitLines(a) == [a]
  {
    NoBreakFirstBreak(a);
  }

  lemma NoBreakFirstBreak(s: string)
    requires NoBreak(s)
    ensures FirstBreak(s) == |s|
  {
  }

  lemma ExampleLines()
    ensures SplitLines("a b\nc\n") == ["a b", "c"]
    ensures SplitLines("") == []
    ensures SplitLines("a\r\nb") == ["a", "b"]
    ensures SplitLines("a\n\n") == ["a", ""]
    ensures SplitLines("a\rb") == ["a", "b"]
    ensures SplitLines("a\U{2028}b") == ["a", "b"]
  {
    ExampleTrailingNewline();
    ExampleCrLf();
    ExampleEmptyLine();
    ExampleOtherBoundaries();
  }

  /** Two boundaries in a row enclose an empty line. */
  lemma ExampleEmptyLine()
    ensures SplitLines("a\n\n") == ["a", ""]
  {
    SplitAtBoundary("a", "\n", "\n");
    SplitAtBoundary("", "\n", "");
    assert "a\n\n" == "a" + "\n" + "\n";
  }

  lemma ExampleOtherBoundaries()
    ensures SplitLines("a\rb") == ["a", "b"]
    ensures SplitLines("a\U{2028}b") == ["a", "b"]
  {
    TwoLines("a", "\r", "b");
    TwoLines("a", "\U{2028}", "b");
    assert "a" + "\r" + "b" == "a\rb";
    assert "a" + "\U{2028}" + "b" == "a\U{2028}b";
  }

  lemma ExampleTrailingNewline()
    ensures SplitLines("a b\nc\n") == ["a b", "c"]
  {
    assert Join(["a b", "c"]) == "a b\nc" by {
      assert ["a b", "c"][1..] == ["c"];
    }
    SplitJoin(["a b", "c"]);
    assert "a b\nc\n" == "a b\nc" + "\n";
    TrailingNewlineIgnored("a b\nc");
  }

  lemma ExampleCrLf()
    ensures SplitLines("a\r\nb") == ["a", "b"]
  {
    var t := "a\r\nb";
    assert FirstBreak(t) == 1;
    assert BreakWidth(t, 1) == 2;
    assert t[..1] == "a";
    assert t[3..] == "b";
    assert FirstBreak("b") == 1;
  }
}
