/** Find & Replace: Python's `str.replace(find, repl)` on the whole buffer —
    every non-overlapping occurrence, found scanning left to right. */
module Replace {

  predicate OccursAt(t: string, f: string, i: int) {
    0 <= i && i + |f| <= |t| && t[i..i + |f|] == f
  }

  /** `f in t`. */
  predicate Occurs(t: string, f: string) {
    exists i :: 0 <= i <= |t| && OccursAt(t, f, i)
  }

  /** With an empty `find`, Python inserts `repl` before every character and
      once more at the end. */
  function Interleave(t: string, r: string): string {
    if t == [] then r else r + [t[0]] + Interleave(t[1..], r)
  }

  /** The left-to-right scan for a non-empty `find`: on a match, emit `repl`
      and resume after the match; otherwise keep one character. */
  function ReplaceScan(t: string, f: string, r: string): string
    requires f != ""
    decreases |t|
  {
    if |t| < |f| then t
    else if t[..|f|] == f then r + ReplaceScan(t[|f|..], f, r)
    else [t[0]] + ReplaceScan(t[1..], f, r)
  }

  function ReplaceAll(t: string, f: string, r: string): string {
    if f == "" then Interleave(t, r) else ReplaceScan(t, f, r)
  }

  /** `t.count(f)`: the occurrences the same scan finds (non-overlapping);
      the empty string occurs at each of the |t| + 1 positions. */
  function Matches(t: string, f: string): nat
    decreases |t|
  {
    if f == "" then |t| + 1
    else if |t| < |f| then 0
    else if t[..|f|] == f then 1 + Matches(t[|f|..], f)
    else Matches(t[1..], f)
  }

  /** Each replaced occurrence changes the length by |repl| - |find|. */
  lemma {:induction false} ReplaceLength(t: string, f: string, r: string)
    ensures |ReplaceAll(t, f, r)| == |t| + Matches(t, f) * (|r| - |f|)
    decreases |t|
  {
    if f == "" {
      InterleaveLength(t, r);
    } else if |t| >= |f| {
      if t[..|f|] == f {
        var rest := t[|f|..];
        ReplaceLength(rest, f, r);
        assert ReplaceAll(t, f, r) == r + ReplaceAll(rest, f, r);
        assert Matches(t, f) == 1 + Matches(rest, f);
        assert |rest| == |t| - |f|;
        MulSucc(Matches(rest, f), |r| - |f|);
      } else {
        ReplaceLength(t[1..], f, r);
      }
    }
  }

  lemma MulSucc(k: int, d: int)
    ensures (1 + k) * d == d + k * d
  {
  }

  lemma {:induction false} InterleaveLength(t: string, r: string)
    ensures |Interleave(t, r)| == |t| + (|t| + 1) * |r|
  {
    if t != [] {
      InterleaveLength(t[1..], r);
      assert (|t| + 1) * |r| == |r| + |t| * |r|;
    }
  }

  lemma OccursInTail(t: string, f: string, i: int)
    requires t != [] && OccursAt(t[1..], f, i)
    ensures OccursAt(t, f, i + 1)
  {
    assert t[1..][i..i + |f|] == t[i + 1..i + 1 + |f|];
  }

  lemma OccursInTailConverse(t: string, f: string, i: int)
    requires 1 <= i && OccursAt(t, f, i)
    ensures OccursAt(t[1..], f, i - 1)
  {
    assert t[1..][i - 1..i - 1 + |f|] == t[i..i + |f|];
  }

  /** A non-empty `find` that does not occur leaves the text unchanged. */
  lemma {:induction false} ReplaceAbsent(t: string, f: string, r: string)
    requires f != "" && !Occurs(t, f)
    ensures ReplaceAll(t, f, r) == t
    decreases |t|
  {
    if |t| >= |f| {
      assert !OccursAt(t, f, 0);
      assert t[0..|f|] == t[..|f|];
      assert !Occurs(t[1..], f) by {
        forall i | OccursAt(t[1..], f, i) ensures false {
          OccursInTail(t, f, i);
        }
      }
      ReplaceAbsent(t[1..], f, r);
      assert [t[0]] + t[1..] == t;
    }
  }

  /** For a non-empty `find`, the scan finds nothing exactly when `find` does
      not occur. */
  lemma {:induction false} NoMatchesIffAbsent(t: string, f: string)
    requires f != ""
    ensures Matches(t, f) == 0 <==> !Occurs(t, f)
    decreases |t|
  {
    if |t| < |f| {
      assert forall i :: !OccursAt(t, f, i);
    } else if t[..|f|] == f {
      assert OccursAt(t, f, 0) by { assert t[0..|f|] == t[..|f|]; }
    } else {
      NoMatchesIffAbsent(t[1..], f);
      if Occurs(t, f) {
        var i :| 0 <= i <= |t| && OccursAt(t, f, i);
        assert i != 0 by { assert t[0..|f|] == t[..|f|]; }
        OccursInTailConverse(t, f, i);
      }
      if Occurs(t[1..], f) {
        var i :| 0 <= i <= |t[1..]| && OccursAt(t[1..], f, i);
        OccursInTail(t, f, i);
      }
    }
  }

  /** Replacing a string by itself is the identity, for an empty `find` too. */
  lemma {:induction false} ReplaceSelf(t: string, f: string)
    ensures ReplaceAll(t, f, f) == t
    decreases |t|
  {
    if f == "" {
      InterleaveEmpty(t);
    } else if |t| >= |f| {
      if t[..|f|] == f {
        ReplaceSelf(t[|f|..], f);
        assert t[..|f|] + t[|f|..] == t;
      } else {
        ReplaceSelf(t[1..], f);
        assert [t[0]] + t[1..] == t;
      }
    }
  }

  lemma {:induction false} InterleaveEmpty(t: string)
    ensures Interleave(t, "") == t
  {
    if t != [] {
      InterleaveEmpty(t[1..]);
      assert [t[0]] + t[1..] == t;
    }
  }

  lemma ExampleReplace()
    ensures ReplaceAll("aaa", "aa", "b") == "ba"
    ensures ReplaceAll("ab", "", "-") == "-a-b-"
  {
    assert "aaa"[..2] == "aa";
    assert "aaa"[2..] == "a";
    assert ReplaceScan("a", "aa", "b") == "a";
    assert "ab"[1..] == "b";
    assert "b"[1..] == "";
    assert Interleave("b", "-") == "-b-";
  }
}
