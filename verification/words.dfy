/** Word splitting as `str.split()` with no separator does it, and the line,
    word and character counts the text tools report. */
module Words {
  import opened Chars
  import opened Lines

  /** No whitespace anywhere in `s`. */
  predicate NoSpace(s: string) {
    forall i :: 0 <= i < |s| ==> !IsSpace(s[i])
  }

  /** Index of the first whitespace character of `s`, or |s|. */
  function WordEnd(s: string): (k: nat)
    ensures k <= |s|
    ensures k < |s| ==> IsSpace(s[k])
    ensures NoSpace(s[..k])
  {
    if s == [] || IsSpace(s[0]) then 0
    else
      var k := 1 + WordEnd(s[1..]);
      assert s[..k] == [s[0]] + s[1..][..k - 1];
      k
  }

  /** `str.split()`: the maximal runs of non-whitespace, in order. */
  function SplitWords(s: string): (words: seq<string>)
    ensures forall w :: w in words ==> w != "" && NoSpace(w)
    decreases |s|
  {
    if s == [] then []
    else if IsSpace(s[0]) then SplitWords(s[1..])
    else
      var k := WordEnd(s);
      [s[..k]] + SplitWords(s[k..])
  }

  /** Reference count of words: the positions that END a run of
      non-whitespace (a non-space followed by a space or by the end). */
  function RunEnds(s: string): nat {
    if s == [] then 0
    else (if !IsSpace(s[0]) && (|s| == 1 || IsSpace(s[1])) then 1 else 0) + RunEnds(s[1..])
  }

  lemma {:induction false} RunEndsOfWord(s: string, k: nat)
    requires 0 < k <= |s|
    requires NoSpace(s[..k])
    requires k == |s| || IsSpace(s[k])
    ensures RunEnds(s) == 1 + RunEnds(s[k..])
    decreases k
  {
    assert !IsSpace(s[..k][0]);
    if k > 1 {
      assert !IsSpace(s[..k][1]);
      assert s[1..][..k - 1] == s[..k][1..];
      RunEndsOfWord(s[1..], k - 1);
      assert s[1..][k - 1..] == s[k..];
    } else {
      assert s[1..] == s[k..];
    }
  }

  /** `len(t.split())` is the number of maximal non-whitespace runs. */
  lemma {:induction false} WordCount(s: string)
    ensures |SplitWords(s)| == RunEnds(s)
    decreases |s|
  {
    if s != [] {
      if IsSpace(s[0]) {
        WordCount(s[1..]);
      } else {
        var k := WordEnd(s);
        assert s[..k][0] == s[0];
        RunEndsOfWord(s, k);
        WordCount(s[k..]);
      }
    }
  }

  /** A word of `x` ends where it ends in `x + z` when `z` starts with
      whitespace. */
  lemma {:induction false} WordEndPrefix(x: string, z: string)
    requires z != [] && IsSpace(z[0])
    ensures WordEnd(x + z) == WordEnd(x)
  {
    if x == [] {
      assert x + z == z;
    } else if !IsSpace(x[0]) {
      assert (x + z)[1..] == x[1..] + z;
      WordEndPrefix(x[1..], z);
    }
  }

  /** Whitespace separates words: none runs from `x` into a `t` that
      starts with whitespace. */
  lemma {:induction false} SplitWordsAtSpace(x: string, t: string)
    requires t != [] && IsSpace(t[0])
    ensures SplitWords(x + t) == SplitWords(x) + SplitWords(t)
    decreases |x|
  {
    if x == [] {
      assert x + t == t;
    } else if IsSpace(x[0]) {
      SpaceSplitsOff(x, t);
      SplitWordsAtSpace(x[1..], t);
    } else {
      WordEndPrefix(x, t);
      WordSplitsOff(x, t);
      SplitWordsAtSpace(x[WordEnd(x)..], t);
    }
  }

  lemma SpaceSplitsOff(x: string, t: string)
    requires x != [] && IsSpace(x[0])
    ensures SplitWords(x) == SplitWords(x[1..])
    ensures SplitWords(x + t) == SplitWords(x[1..] + t)
  {
    assert (x + t)[1..] == x[1..] + t;
  }

  lemma WordSplitsOff(x: string, t: string)
    requires x != [] && !IsSpace(x[0]) && WordEnd(x + t) == WordEnd(x)
    ensures SplitWords(x + t) == [x[..WordEnd(x)]] + SplitWords(x[WordEnd(x)..] + t)
  {
    var k := WordEnd(x);
    assert (x + t)[..k] == x[..k];
    assert (x + t)[k..] == x[k..] + t;
  }

  /** Leading whitespace contributes no word. */
  lemma SkipSpace(t: string)
    requires t != [] && IsSpace(t[0])
    ensures SplitWords(t) == SplitWords(t[1..])
  {
  }

  /** The words of each line in turn. */
  function WordsOfLines(lines: seq<string>): seq<string> {
    if lines == [] then [] else SplitWords(lines[0]) + WordsOfLines(lines[1..])
  }

  /** No word spans two lines: the words of the text are the words of its
      lines, line after line, since every line boundary is whitespace. */
  lemma {:induction false} WordsWithinLines(s: string)
    ensures SplitWords(s) == WordsOfLines(SplitLines(s))
    decreases |s|
  {
    if s != [] {
      var k := FirstBreak(s);
      if k == |s| {
        assert s[..k] == s;
        assert SplitLines(s) == [s];
        assert WordsOfLines([s]) == SplitWords(s) + WordsOfLines([]);
      } else {
        var rest := s[k + BreakWidth(s, k)..];
        var lines := SplitLines(rest);
        WordsAcrossBoundary(s, k);
        WordsWithinLines(rest);
        assert SplitLines(s) == [s[..k]] + lines;
        assert ([s[..k]] + lines)[1..] == lines;
      }
    }
  }

  lemma WordsAcrossBoundary(s: string, k: nat)
    requires k < |s| && IsLineBreak(s[k])
    ensures SplitWords(s) == SplitWords(s[..k]) + SplitWords(s[k + BreakWidth(s, k)..])
  {
    LineBreakIsSpace(s[k]);
    assert s == s[..k] + s[k..];
    SplitWordsAtSpace(s[..k], s[k..]);
    SkipBoundary(s, k);
  }

  /** The words after a boundary are those after its last character. */
  lemma SkipBoundary(s: string, k: nat)
    requires k < |s| && IsLineBreak(s[k])
    ensures SplitWords(s[k..]) == SplitWords(s[k + BreakWidth(s, k)..])
  {
    LineBreakIsSpace(s[k]);
    SkipSpace(s[k..]);
    assert s[k..][1..] == s[k + 1..];
    if BreakWidth(s, k) == 2 {
      SkipSpace(s[k + 1..]);
      assert s[k + 1..][1..] == s[k + 2..];
    }
  }

  /** The figures `_text_count` shows. */
  datatype Stats = Stats(lines: nat, words: nat, chars: nat)

  function TextStats(s: string): Stats {
    Stats(|SplitLines(s)|, |SplitWords(s)|, |s|)
  }

  /** What each figure counts: boundaries (plus an unterminated last line),
      whitespace-separated runs, and characters. */
  lemma TextStatsMeaning(s: string)
    ensures TextStats(s).lines == Breaks(s) + (if s != [] && !IsLineBreak(s[|s| - 1]) then 1 else 0)
    ensures TextStats(s).words == RunEnds(s)
    ensures TextStats(s).chars == |s|
  {
    LineCount(s);
    WordCount(s);
  }

  lemma ExampleStats()
    ensures TextStats("a b\nc\n") == Stats(2, 3, 6)
  {
    ExampleLines();
    WordCount("a b\nc\n");
    ExampleRunEnds();
  }

  lemma ExampleRunEnds()
    ensures RunEnds("a b\nc\n") == 3
  {
    assert RunEnds("\n") == 0 by { assert "\n"[1..] == ""; }
    assert RunEnds("c\n") == 1 by { assert "c\n"[1..] == "\n"; }
    assert RunEnds("\nc\n") == 1 by { assert "\nc\n"[1..] == "c\n"; }
    assert RunEnds("b\nc\n") == 2 by { assert "b\nc\n"[1..] == "\nc\n"; }
    assert RunEnds(" b\nc\n") == 2 by { assert " b\nc\n"[1..] == "b\nc\n"; }
    assert "a b\nc\n"[1..] == " b\nc\n";
  }
}
