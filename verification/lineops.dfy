/** The edit tools of the text view: `_text_transform`'s line reversal,
    line sort, blank-line removal and case changes, each rebuilt with
    `"\n".join` from the buffer's `splitlines()`. */
module LineOps {
  import opened Chars
  import opened Lines

  // ---------------------------------------------------------------------
  // Python's ordering of str: code point by code point, a proper prefix first.

  predicate LexLe(a: string, b: string)
    decreases |a|
  {
    a == [] || (b != [] && (a[0] < b[0] || (a[0] == b[0] && LexLe(a[1..], b[1..]))))
  }

  lemma {:induction false} LexLeTotal(a: string, b: string)
    ensures LexLe(a, b) || LexLe(b, a)
    decreases |a|
  {
    if a != [] && b != [] && a[0] == b[0] {
      LexLeTotal(a[1..], b[1..]);
    }
  }

  lemma {:induction false} LexLeTransitive(a: string, b: string, c: string)
    requires LexLe(a, b) && LexLe(b, c)
    ensures LexLe(a, c)
    decreases |a|
  {
    if a != [] && a[0] == b[0] && b[0] == c[0] {
      LexLeTransitive(a[1..], b[1..], c[1..]);
    }
  }

  lemma {:induction false} LexLeAntisymmetric(a: string, b: string)
    requires LexLe(a, b) && LexLe(b, a)
    ensures a == b
    decreases |a|
  {
    if a != [] {
      LexLeAntisymmetric(a[1..], b[1..]);
      assert a == [a[0]] + a[1..] && b == [b[0]] + b[1..];
    }
  }

  /** Only the empty line sorts at or below the empty line. */
  lemma LexLeEmpty(a: string)
    requires LexLe(a, "")
    ensures a == ""
  {
  }

  predicate Sorted(s: seq<string>) {
    forall i, j :: 0 <= i < j < |s| ==> LexLe(s[i], s[j])
  }

  // ---------------------------------------------------------------------
  // `sorted(lines)`

  function InsertLine(x: string, s: seq<string>): (r: seq<string>)
    ensures multiset(r) == multiset(s) + multiset{x}
    ensures |r| == |s| + 1
  {
    if s == [] then [x]
    else if LexLe(x, s[0]) then [x] + s
    else
      assert s == [s[0]] + s[1..];
      [s[0]] + InsertLine(x, s[1..])
  }

  lemma {:induction false} InsertLineSorted(x: string, s: seq<string>)
    requires Sorted(s)
    ensures Sorted(InsertLine(x, s))
  {
    var r := InsertLine(x, s);
    if s != [] {
      if LexLe(x, s[0]) {
        forall j | 1 <= j < |r| ensures LexLe(r[0], r[j]) {
          assert r[j] == s[j - 1];
          if j > 1 { LexLeTransitive(x, s[0], s[j - 1]); }
        }
      } else {
        LexLeTotal(x, s[0]);
        var r' := InsertLine(x, s[1..]);
        assert r == [s[0]] + r';
        InsertLineSorted(x, s[1..]);
        forall j | 1 <= j < |r| ensures LexLe(r[0], r[j]) {
          var y := r[j];
          assert y == r'[j - 1];
          InsertLineElements(x, s[1..], y);
          if y != x {
            var k :| 0 <= k < |s[1..]| && s[1..][k] == y;
            assert s[k + 1] == y;
          }
        }
      }
    }
  }

  lemma InsertLineElements(x: string, s: seq<string>, y: string)
    ensures y in InsertLine(x, s) <==> y == x || y in s
  {
    assert y in multiset(InsertLine(x, s)) <==> y in multiset(s) + multiset{x};
  }

  /** `sorted(lines)`: the lines in ascending order, each kept as often as it occurs. */
  function SortLines(lines: seq<string>): (r: seq<string>)
    ensures multiset(r) == multiset(lines)
    ensures Sorted(r)
  {
    if lines == [] then []
    else
      assert lines == [lines[0]] + lines[1..];
      InsertLineSorted(lines[0], SortLines(lines[1..]));
      InsertLine(lines[0], SortLines(lines[1..]))
  }

  /** There is only one sorted arrangement of a multiset of lines, so
      `SortLines` is THE ascending permutation. */
  lemma {:induction false} SortedUnique(a: seq<string>, b: seq<string>)
    requires Sorted(a) && Sorted(b) && multiset(a) == multiset(b)
    ensures a == b
    decreases |a|
  {
    assert |a| == |multiset(a)| == |b|;
    if a != [] {
      assert a[0] in multiset(b) && b[0] in multiset(a);
      var i :| 0 <= i < |b| && b[i] == a[0];
      var j :| 0 <= j < |a| && a[j] == b[0];
      SortedHeadLe(b, i);
      SortedHeadLe(a, j);
      LexLeAntisymmetric(a[0], b[0]);
      SameTail(a, b);
      SortedUnique(a[1..], b[1..]);
    }
  }

  lemma SameTail(a: seq<string>, b: seq<string>)
    requires a != [] && b != [] && a[0] == b[0]
    requires Sorted(a) && Sorted(b) && multiset(a) == multiset(b)
    ensures Sorted(a[1..]) && Sorted(b[1..]) && multiset(a[1..]) == multiset(b[1..])
  {
    assert a == [a[0]] + a[1..] && b == [b[0]] + b[1..];
    assert multiset(a) == multiset{a[0]} + multiset(a[1..]);
    assert multiset(b) == multiset{b[0]} + multiset(b[1..]);
    forall x ensures multiset(a[1..])[x] == multiset(b[1..])[x] {
      assert multiset(a)[x] == multiset(b)[x];
    }
  }

  lemma {:induction false} LexLeReflexive(a: string)
    ensures LexLe(a, a)
    decreases |a|
  {
    if a != [] {
      LexLeReflexive(a[1..]);
    }
  }

  lemma SortedHeadLe(s: seq<string>, k: int)
    requires Sorted(s) && 0 <= k < |s|
    ensures LexLe(s[0], s[k])
  {
    if k == 0 {
      LexLeReflexive(s[0]);
    }
  }

  lemma SortLinesOfSorted(lines: seq<string>)
    requires Sorted(lines)
    ensures SortLines(lines) == lines
  {
    SortedUnique(SortLines(lines), lines);
  }

  // ---------------------------------------------------------------------
  // `reversed(lines)`

  function Reverse(s: seq<string>): (r: seq<string>)
    ensures |r| == |s|
    ensures forall i :: 0 <= i < |s| ==> r[i] == s[|s| - 1 - i]
  {
    if s == [] then [] else Reverse(s[1..]) + [s[0]]
  }

  lemma ReverseReverse(s: seq<string>)
    ensures Reverse(Reverse(s)) == s
  {
  }

  // ---------------------------------------------------------------------
  // `l.strip()` and blank lines

  predicate AllSpace(s: string) {
    forall i :: 0 <= i < |s| ==> IsSpace(s[i])
  }

  /** Length of the leading whitespace. */
  function LeadingSpace(s: string): (k: nat)
    ensures k <= |s|
    ensures forall i :: 0 <= i < k ==> IsSpace(s[i])
    ensures k < |s| ==> !IsSpace(s[k])
  {
    if s == [] || !IsSpace(s[0]) then 0 else 1 + LeadingSpace(s[1..])
  }

  /** Where the trailing whitespace begins. */
  function TrailingSpace(s: string): (j: nat)
    ensures j <= |s|
    ensures forall i :: j <= i < |s| ==> IsSpace(s[i])
    ensures j > 0 ==> !IsSpace(s[j - 1])
  {
    if s == [] || !IsSpace(s[|s| - 1]) then |s| else TrailingSpace(s[..|s| - 1])
  }

  /** `strip()`: the text between the leading and the trailing whitespace,
      which starts and ends with a non-whitespace character; nothing is left
      exactly when the line is all whitespace. */
  function Strip(s: string): (r: string)
    ensures r == [] <==> AllSpace(s)
    ensures r != [] ==> !IsSpace(r[0]) && !IsSpace(r[|r| - 1])
    ensures r != [] ==> var k := LeadingSpace(s);
              k + |r| <= |s| && r == s[k..k + |r|] && AllSpace(s[k + |r|..])
  {
    var k := LeadingSpace(s);
    if k == |s| then []
    else
      var j := TrailingSpace(s);
      assert j > k;
      assert forall i :: 0 <= i < |s[j..]| ==> s[j..][i] == s[j + i];
      s[k..j]
  }

  predicate Blank(l: string) {
    Strip(l) == []
  }

  /** `a` is `b` with some elements left out, order kept. */
  predicate Subsequence(a: seq<string>, b: seq<string>)
    decreases |b|
  {
    a == [] || (b != [] && ((a[0] == b[0] && Subsequence(a[1..], b[1..])) || Subsequence(a, b[1..])))
  }

  /** `[l for l in lines if l.strip()]`: non-blank lines of `lines` only,
      in their original order. */
  function KeepNonBlank(lines: seq<string>): (r: seq<string>)
    ensures forall l :: l in r ==> !Blank(l) && l in lines
    ensures Subsequence(r, lines)
  {
    if lines == [] then []
    else
      var rest := KeepNonBlank(lines[1..]);
      if Blank(lines[0]) then rest
      else
        var r := [lines[0]] + rest;
        assert r[1..] == rest;
        r
  }

  /** Every non-blank line is kept as often as it occurs, and no blank one. */
  lemma {:induction false} KeepNonBlankCount(lines: seq<string>, x: string)
    ensures multiset(KeepNonBlank(lines))[x] == if Blank(x) then 0 else multiset(lines)[x]
  {
    if lines != [] {
      assert lines == [lines[0]] + lines[1..];
      KeepNonBlankCount(lines[1..], x);
    }
  }

  lemma {:induction false} KeepAllNonBlank(lines: seq<string>)
    requires forall l :: l in lines ==> !Blank(l)
    ensures KeepNonBlank(lines) == lines
  {
    if lines != [] {
      assert !Blank(lines[0]) by { assert lines[0] in lines; }
      forall l | l in lines[1..] ensures !Blank(l) {
        assert l in lines;
      }
      KeepAllNonBlank(lines[1..]);
      assert [lines[0]] + lines[1..] == lines;
    }
  }

  // ---------------------------------------------------------------------
  // The buffer-level tools

  function RevLines(t: string): string {
    Join(Reverse(SplitLines(t)))
  }

  function SortText(t: string): string {
    Join(SortLines(SplitLines(t)))
  }

  function RemoveBlank(t: string): string {
    Join(KeepNonBlank(SplitLines(t)))
  }

  /** `_text_transform(op)`: an unknown operation leaves the text as it is. */
  function Transform(op: string, t: string): string {
    if op == "upper" then Upper(t)
    else if op == "lower" then Lower(t)
    else if op == "rev_lines" then RevLines(t)
    else if op == "sort" then SortText(t)
    else if op == "rm_blank" then RemoveBlank(t)
    else t
  }

  lemma TransformUnknown(op: string, t: string)
    requires op !in {"upper", "lower", "rev_lines", "sort", "rm_blank"}
    ensures Transform(op, t) == t
  {
  }

  /** Blank-line removal: the lines of the result are exactly the
      non-blank lines of the input, in order; and doing it twice changes
      nothing more. */
  lemma RemoveBlankLines(t: string)
    ensures SplitLines(RemoveBlank(t)) == KeepNonBlank(SplitLines(t))
    ensures RemoveBlank(RemoveBlank(t)) == RemoveBlank(t)
  {
    var kept := KeepNonBlank(SplitLines(t));
    assert forall l :: l in kept ==> NoBreak(l);
    if kept != [] {
      assert kept[|kept| - 1] in kept;
    }
    SplitJoin(kept);
    KeepAllNonBlank(kept);
  }

  /** The largest of several lines is empty only when they all are. */
  lemma SortedLastNonEmpty(lines: seq<string>)
    requires exists l :: l in lines && l != ""
    ensures SortLines(lines) != [] && SortLines(lines)[|SortLines(lines)| - 1] != ""
  {
    var l :| l in lines && l != "";
    SortLinesElements(lines, l);
    LastOfSortedNonEmpty(SortLines(lines), l);
  }

  lemma LastOfSortedNonEmpty(s: seq<string>, l: string)
    requires Sorted(s) && l in s && l != ""
    ensures s[|s| - 1] != ""
  {
    var k :| 0 <= k < |s| && s[k] == l;
    SortedLastGe(s, k);
    if s[|s| - 1] == "" {
      LexLeEmpty(l);
    }
  }

  /** Sorting keeps exactly the lines it was given. */
  lemma SortLinesElements(lines: seq<string>, l: string)
    ensures l in SortLines(lines) <==> l in lines
  {
    assert l in multiset(SortLines(lines)) <==> l in multiset(lines);
  }

  lemma ReverseElements(s: seq<string>, l: string)
    ensures l in Reverse(s) <==> l in s
  {
    if l in Reverse(s) {
      var i :| 0 <= i < |s| && Reverse(s)[i] == l;
      assert s[|s| - 1 - i] == l;
    }
    if l in s {
      var i :| 0 <= i < |s| && s[i] == l;
      assert Reverse(s)[|s| - 1 - i] == l;
    }
  }

  lemma SortedLastGe(s: seq<string>, k: int)
    requires Sorted(s) && 0 <= k < |s|
    ensures LexLe(s[k], s[|s| - 1])
  {
    if k == |s| - 1 {
      LexLeReflexive(s[k]);
    }
  }

  /** Sorting: the lines of the result are the input's lines in ascending
      order, provided not every line is empty (a last empty line would be
      lost by the next `splitlines`). */
  lemma SortTextLines(t: string)
    requires exists l :: l in SplitLines(t) && l != ""
    ensures SplitLines(SortText(t)) == SortLines(SplitLines(t))
  {
    var lines := SplitLines(t);
    var s := SortLines(lines);
    SortedLastNonEmpty(lines);
    forall l | l in s ensures NoBreak(l) {
      SortLinesElements(lines, l);
    }
    SplitJoin(s);
  }

  /** Sorting a second time changes nothing. */
  lemma SortTextIdempotent(t: string)
    requires exists l :: l in SplitLines(t) && l != ""
    ensures SortText(SortText(t)) == SortText(t)
  {
    SortTextLines(t);
    SortLinesOfSorted(SortLines(SplitLines(t)));
  }

  /** "sort" then "rev_lines" lists the lines in descending order. */
  lemma SortThenReverse(t: string)
    requires exists l :: l in SplitLines(t) && l != ""
    ensures Transform("rev_lines", Transform("sort", t)) == Join(Reverse(SortLines(SplitLines(t))))
  {
    SortTextLines(t);
  }

  /** Reversing twice gives the lines back, joined with "\n", when the first
      line is not empty (it becomes the last after one reversal). */
  lemma RevLinesTwice(t: string)
    requires SplitLines(t) == [] || SplitLines(t)[0] != ""
    ensures RevLines(RevLines(t)) == Join(SplitLines(t))
  {
    var lines := SplitLines(t);
    var r := Reverse(lines);
    forall l | l in r ensures NoBreak(l) {
      ReverseElements(lines, l);
    }
    SplitJoin(r);
    ReverseReverse(lines);
  }

  /** The condition of `RevLinesTwice` is needed: a leading empty line
      ends up last after one reversal, and the next `splitlines` drops it. */
  lemma ExampleRevLinesLosesEmptyLine()
    ensures RevLines(RevLines("\nb")) == "b"
  {
    var t := "\nb";
    assert SplitLines(t) == ["", "b"] by {
      assert FirstBreak(t) == 0;
      assert t[..0] == "" && t[1..] == "b";
      assert FirstBreak("b") == 1;
    }
    assert Reverse(["", "b"]) == ["b", ""];
    assert Join(["b", ""]) == "b\n" by {
      assert ["b", ""][1..] == [""];
    }
    assert SplitLines("b\n") == ["b"] by {
      assert "b\n" == "b" + "\n";
      TrailingNewlineIgnored("b");
      assert FirstBreak("b") == 1;
    }
    assert Reverse(["b"]) == ["b"];
  }

  /** The condition of `SortTextIdempotent` is needed: when every line is
      empty, joining them and cutting again loses the last one, so a second
      sort differs from the first. */
  lemma ExampleSortTextLosesEmptyLine()
    ensures SortText("\n\n") == "\n"
    ensures SortText("\n") == ""
  {
    TwoEmptyLines();
    OneEmptyLine();
    SortEmptyLines();
  }

  lemma TwoEmptyLines()
    ensures SplitLines("\n\n") == ["", ""]
    ensures Join(["", ""]) == "\n"
  {
    assert "\n\n" == "" + "\n" + "\n";
    SplitAtBoundary("", "\n", "\n");
    OneEmptyLine();
    assert ["", ""][1..] == [""];
  }

  lemma OneEmptyLine()
    ensures SplitLines("\n") == [""]
  {
    assert "\n" == "" + "\n" + "";
    SplitAtBoundary("", "\n", "");
  }

  lemma SortEmptyLines()
    ensures SortLines(["", ""]) == ["", ""]
    ensures SortLines([""]) == [""]
  {
    LexLeReflexive("");
    assert Sorted(["", ""]);
    SortLinesOfSorted(["", ""]);
    SortLinesOfSorted([""]);
  }

  /** Case changes: lower-casing undoes an earlier upper-casing, and each of
      "upper" and "lower" is idempotent. */
  lemma CaseTransforms(t: string)
    ensures Transform("lower", Transform("upper", t)) == Transform("lower", t)
    ensures Transform("upper", Transform("upper", t)) == Transform("upper", t)
    ensures Transform("lower", Transform("lower", t)) == Transform("lower", t)
  {
    LowerAfterCase(t);
  }

  lemma JoinThree(x: string, y: string, z: string)
    ensures Join([x, y, z]) == x + "\n" + y + "\n" + z
  {
    assert [x, y, z][1..] == [y, z];
    assert [y, z][1..] == [z];
    assert Join([z]) == z;
    assert Join([y, z]) == y + "\n" + z;
    assert Join([x, y, z]) == x + "\n" + (y + "\n" + z);
    assert x + "\n" + (y + "\n" + z) == x + "\n" + y + "\n" + z;
  }

  lemma ExampleSplit()
    ensures SplitLines("b\na\nc") == ["b", "a", "c"]
  {
    JoinThree("b", "a", "c");
    assert "b" + "\n" + "a" + "\n" + "c" == "b\na\nc";
    SplitJoin(["b", "a", "c"]);
  }

  lemma ExampleInsert()
    ensures InsertLine("b", ["a", "c"]) == ["a", "b", "c"]
  {
    assert !LexLe("b", "a") && LexLe("b", "c");
    assert ["a", "c"][1..] == ["c"];
    assert InsertLine("b", ["c"]) == ["b", "c"];
  }

  lemma ExampleSort()
    ensures SortLines(["b", "a", "c"]) == ["a", "b", "c"]
  {
    assert ["b", "a", "c"][1..] == ["a", "c"];
    assert ["a", "c"][1..] == ["c"];
    assert ["c"][1..] == [];
    assert SortLines(["c"]) == ["c"];
    assert LexLe("a", "c");
    assert SortLines(["a", "c"]) == ["a", "c"];
    ExampleInsert();
  }

  lemma ExampleJoin()
    ensures Join(["c", "b", "a"]) == "c\nb\na"
  {
    JoinThree("c", "b", "a");
    assert "c" + "\n" + "b" + "\n" + "a" == "c\nb\na";
  }

  /** "b", "a", "c" sorted then reversed reads "c", "b", "a". */
  lemma ExampleSortThenReverse()
    ensures Transform("rev_lines", Transform("sort", "b\na\nc")) == "c\nb\na"
  {
    var t := "b\na\nc";
    calc {
      Transform("rev_lines", Transform("sort", t));
      { ExampleSplit(); assert "b" in SplitLines(t); SortThenReverse(t); }
      Join(Reverse(SortLines(SplitLines(t))));
      { ExampleSplit(); ExampleSort(); }
      Join(Reverse(["a", "b", "c"]));
      { assert Reverse(["a", "b", "c"]) == ["c", "b", "a"]; }
      Join(["c", "b", "a"]);
      { ExampleJoin(); }
      "c\nb\na";
    }
  }
}
