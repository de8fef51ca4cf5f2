/** Character frequency: `Counter(c for c in text if c.isalpha()).most_common(10)`.
    The counter holds its letters in order of first appearance, and
    `most_common` orders by count, highest first, keeping that order among
    equal counts; so the ranking is by count and then by first appearance. */
module Freq {
  import opened Chars

  /** Occurrences of `c` in `t`. */
  function Count(t: string, c: char): nat {
    multiset(t)[c]
  }

  /** Index of the first occurrence of `c` in `t`, or |t| when there is none. */
  function First(t: string, c: char): (i: nat)
    ensures i <= |t|
    ensures i < |t| <==> c in t
    ensures i < |t| ==> t[i] == c
    ensures forall j :: 0 <= j < i ==> t[j] != c
  {
    if t == [] then 0 else if t[0] == c then 0 else 1 + First(t[1..], c)
  }

  lemma FirstOfPrefix(t: string, n: nat, c: char)
    requires n <= |t| && c in t[..n]
    ensures First(t, c) == First(t[..n], c)
  {
    var i := First(t[..n], c);
    assert t[..n][i] == t[i];
    assert forall j :: 0 <= j < i ==> t[..n][j] == t[j];
  }

  /** The counter's keys: the letters of `t`, each once, in order of first appearance. */
  function Alphabet(t: string): (cs: seq<char>)
    ensures forall c :: c in cs <==> c in t && IsAlpha(c)
    ensures forall i, j :: 0 <= i < j < |cs| ==> First(t, cs[i]) < First(t, cs[j])
  {
    if t == [] then []
    else
      var n := |t| - 1;
      var cs := Alphabet(t[..n]);
      assert t == t[..n] + [t[n]];
      forall c | c in cs ensures First(t, c) < n && First(t, c) == First(t[..n], c) {
        FirstOfPrefix(t, n, c);
      }
      if IsAlpha(t[n]) && t[n] !in cs then
        assert First(t, t[n]) == n;
        cs + [t[n]]
      else cs
  }

  /** `a` is ranked before `b`: more occurrences, or as many and seen earlier. */
  predicate Above(t: string, a: char, b: char) {
    Count(t, a) > Count(t, b) || (Count(t, a) == Count(t, b) && First(t, a) < First(t, b))
  }

  predicate Ranked(t: string, s: seq<char>) {
    forall i, j :: 0 <= i < j < |s| ==> Above(t, s[i], s[j])
  }

  /** Letters of `t` are ranked one way or the other. */
  lemma AboveTotal(t: string, a: char, b: char)
    requires a in t && b in t && a != b
    ensures Above(t, a, b) || Above(t, b, a)
  {
  }

  function Insert(t: string, c: char, s: seq<char>): (r: seq<char>)
    ensures multiset(r) == multiset(s) + multiset{c}
    ensures |r| == |s| + 1
  {
    if s == [] then [c]
    else if Above(t, c, s[0]) then [c] + s
    else
      assert s == [s[0]] + s[1..];
      [s[0]] + Insert(t, c, s[1..])
  }

  lemma {:induction false} InsertRanked(t: string, c: char, s: seq<char>)
    requires Ranked(t, s) && c !in s && c in t
    requires forall x :: x in s ==> x in t
    ensures Ranked(t, Insert(t, c, s))
  {
    var r := Insert(t, c, s);
    if s != [] {
      if Above(t, c, s[0]) {
        forall j | 1 <= j < |r| ensures Above(t, r[0], r[j]) {
          assert r[j] == s[j - 1];
        }
      } else {
        AboveTotal(t, c, s[0]);
        var r' := Insert(t, c, s[1..]);
        assert r == [s[0]] + r';
        InsertRanked(t, c, s[1..]);
        forall j | 1 <= j < |r| ensures Above(t, r[0], r[j]) {
          assert r[j] in multiset(r');
          assert r[j] in multiset(s[1..]) + multiset{c};
          if r[j] != c {
            assert r[j] in s[1..];
            var k :| 0 <= k < |s[1..]| && s[1..][k] == r[j];
            assert s[k + 1] == r[j];
          }
        }
      }
    }
  }

  /** Insertion sort by rank. */
  function Rank(t: string, cs: seq<char>): (s: seq<char>)
    requires forall i, j :: 0 <= i < j < |cs| ==> cs[i] != cs[j]
    requires forall c :: c in cs ==> c in t
    ensures multiset(s) == multiset(cs)
    ensures Ranked(t, s)
  {
    if cs == [] then []
    else
      assert cs == [cs[0]] + cs[1..];
      var s := Rank(t, cs[1..]);
      assert cs[0] !in multiset(cs[1..]);
      forall x | x in s ensures x in t {
        assert x in multiset(cs[1..]);
      }
      InsertRanked(t, cs[0], s);
      Insert(t, cs[0], s)
  }

  function Min(a: int, b: int): int {
    if a < b then a else b
  }

  /** The ten (or fewer) best-ranked letters of `t`. */
  function TopLetters(t: string): (top: seq<char>)
    ensures |top| <= 10
    ensures forall c :: c in top ==> IsAlpha(c) && c in t
    ensures Ranked(t, top)
    ensures forall c :: c in t && IsAlpha(c) && c !in top ==> |top| == 10 && Above(t, top[9], c)
  {
    var alpha := Alphabet(t);
    AlphabetDistinct(t);
    var ranked := Rank(t, alpha);
    var top := ranked[..Min(10, |ranked|)];
    forall c | c in top ensures IsAlpha(c) && c in t {
      RankElements(t, alpha, c);
    }
    forall c | c in t && IsAlpha(c) && c !in top ensures |top| == 10 && Above(t, top[9], c) {
      RankElements(t, alpha, c);
      Omitted(t, ranked, c);
    }
    top
  }

  lemma AlphabetDistinct(t: string)
    ensures forall i, j :: 0 <= i < j < |Alphabet(t)| ==> Alphabet(t)[i] != Alphabet(t)[j]
  {
  }

  lemma RankElements(t: string, cs: seq<char>, c: char)
    requires forall i, j :: 0 <= i < j < |cs| ==> cs[i] != cs[j]
    requires forall c :: c in cs ==> c in t
    ensures c in Rank(t, cs) <==> c in cs
  {
    assert c in multiset(Rank(t, cs)) <==> c in multiset(cs);
  }

  /** A ranked letter left out of the first ten ranks below the tenth. */
  lemma Omitted(t: string, ranked: seq<char>, c: char)
    requires Ranked(t, ranked) && c in ranked && c !in ranked[..Min(10, |ranked|)]
    ensures Min(10, |ranked|) == 10 && Above(t, ranked[..10][9], c)
  {
    var k :| 0 <= k < |ranked| && ranked[k] == c;
  }

  /** The ten (or fewer) most frequent letters with their exact counts,
      ranked by count and then by first appearance; every letter left out
      ranks below the last one listed. */
  function CharFreq(t: string): (r: seq<(char, nat)>)
    ensures |r| <= 10
    ensures forall i :: 0 <= i < |r| ==> IsAlpha(r[i].0) && r[i].0 in t && r[i].1 == Count(t, r[i].0)
    ensures forall i, j :: 0 <= i < j < |r| ==>
              r[i].1 > r[j].1 || (r[i].1 == r[j].1 && First(t, r[i].0) < First(t, r[j].0))
    ensures forall c :: c in t && IsAlpha(c) && (c, Count(t, c)) !in r ==>
              |r| == 10 && Above(t, r[9].0, c)
  {
    var top := TopLetters(t);
    var r := seq(|top|, i requires 0 <= i < |top| => (top[i], Count(t, top[i])));
    assert forall i :: 0 <= i < |r| ==> r[i].0 == top[i];
    forall c | c in top ensures (c, Count(t, c)) in r {
      var k :| 0 <= k < |top| && top[k] == c;
      assert r[k] == (c, Count(t, c));
    }
    r
  }
}
