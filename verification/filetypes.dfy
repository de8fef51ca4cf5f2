/** The type classifier: a path is routed to one of five tool sets by the
    extension of its final component, compared case-insensitively against
    four fixed sets. */
module FileTypes {
  import opened Chars

  datatype FileType = Image | Audio | Video | Text | Unknown

  const ImageExts: set<string> := {".jpg", ".jpeg", ".png", ".bmp", ".gif", ".tiff", ".webp", ".ico"}
  const AudioExts: set<string> := {".mp3", ".wav", ".ogg", ".flac", ".aac", ".m4a"}
  const VideoExts: set<string> := {".mp4", ".avi", ".mov", ".mkv", ".wmv", ".flv", ".webm"}
  const TextExts: set<string> := {".txt", ".csv", ".log", ".json", ".xml", ".html", ".md", ".py",
                                  ".js", ".css", ".java", ".c", ".cpp", ".h"}

  /** `str.rfind` for one character: the last index holding `c`, or -1. */
  function LastIndex(s: string, c: char): (k: int)
    ensures -1 <= k < |s|
    ensures k >= 0 ==> s[k] == c
    ensures forall i :: k < i < |s| ==> s[i] != c
  {
    if s == [] then -1
    else if s[|s| - 1] == c then |s| - 1
    else LastIndex(s[..|s| - 1], c)
  }

  /** True when every character of `s` is a dot (vacuously for ""). */
  predicate AllDots(s: string) {
    forall i :: 0 <= i < |s| ==> s[i] == '.'
  }

  /** `os.path.splitext` with POSIX separators: the extension starts at the
      last dot, provided that dot lies in the final path component and is
      preceded there by something other than dots. */
  function SplitExt(p: string): (parts: (string, string))
    ensures parts.0 + parts.1 == p
  {
    var sep := LastIndex(p, '/');
    var dot := LastIndex(p, '.');
    if dot > sep && !AllDots(p[sep + 1..dot]) then (p[..dot], p[dot..]) else (p, "")
  }

  function Ext(p: string): string {
    SplitExt(p).1
  }

  /** Reference definition of an extension, independent of the scan above:
      `e` ends `p`, is a dot followed by neither dots nor slashes, and what
      precedes it in the final component is not only dots. */
  ghost predicate IsExtensionOf(p: string, e: string) {
    && 1 <= |e| <= |p|
    && p[|p| - |e|..] == e
    && e[0] == '.'
    && (forall i :: 1 <= i < |e| ==> e[i] != '.' && e[i] != '/')
    && HasStem(p[..|p| - |e|])
  }

  /** The final component of `root` holds a character that is not a dot. */
  ghost predicate HasStem(root: string) {
    exists i :: 0 <= i < |root| && root[i] != '.' && root[i] != '/' && NoSlashAfter(root, i)
  }

  ghost predicate NoSlashAfter(s: string, i: nat) {
    forall j :: i < j < |s| ==> s[j] != '/'
  }

  /** A non-empty extension meets the reference definition. */
  lemma ExtIsExtension(p: string)
    requires Ext(p) != ""
    ensures IsExtensionOf(p, Ext(p))
  {
    var sep := LastIndex(p, '/');
    var dot := LastIndex(p, '.');
    ExtAt(p, sep, dot);
    ExtTailFree(p, sep, dot);
    ExtHasStem(p, sep, dot);
  }

  /** After the last dot, itself after the last slash, there is neither a
      dot nor a slash. */
  lemma ExtTailFree(p: string, sep: int, dot: int)
    requires sep == LastIndex(p, '/') && dot == LastIndex(p, '.') && dot > sep
    ensures forall j :: 1 <= j < |p[dot..]| ==> p[dot..][j] != '.' && p[dot..][j] != '/'
  {
    var e := p[dot..];
    forall j | 1 <= j < |e| ensures e[j] != '.' && e[j] != '/' {
      assert e[j] == p[dot + j];
    }
  }

  lemma ExtHasStem(p: string, sep: int, dot: int)
    requires sep == LastIndex(p, '/') && dot == LastIndex(p, '.')
    requires dot > sep && !AllDots(p[sep + 1..dot])
    ensures HasStem(p[..dot])
  {
    var k :| 0 <= k < |p[sep + 1..dot]| && p[sep + 1..dot][k] != '.';
    var i := sep + 1 + k;
    var root := p[..dot];
    assert root[i] == p[i];
    assert NoSlashAfter(root, i);
  }

  /** Whatever meets the reference definition is the extension. */
  lemma ExtensionIsExt(p: string, e: string)
    requires IsExtensionOf(p, e)
    ensures e == Ext(p)
  {
    ExtensionDot(p, e);
    StemAfterLastSlash(p, |p| - |e|);
  }

  /** The dot that opens an extension is the last dot of the path, and
      nothing after it is a slash. */
  lemma ExtensionDot(p: string, e: string)
    requires IsExtensionOf(p, e)
    ensures LastIndex(p, '.') == |p| - |e|
    ensures forall j :: |p| - |e| <= j < |p| ==> p[j] != '/'
  {
    var d := |p| - |e|;
    assert p[d] == '.' by { assert p[d] == p[d..][0]; }
    forall j | d < j < |p| ensures p[j] != '.' && p[j] != '/' {
      assert p[j] == p[d..][j - d];
    }
    LastIndexIs(p, '.', d);
  }

  /** A stem before position `d`, with no slash from `d` on, lies after the
      last slash. */
  lemma StemAfterLastSlash(p: string, d: nat)
    requires d <= |p| && HasStem(p[..d])
    requires forall j :: d <= j < |p| ==> p[j] != '/'
    ensures LastIndex(p, '/') < d
    ensures !AllDots(p[LastIndex(p, '/') + 1..d])
  {
    var i :| 0 <= i < |p[..d]| && p[..d][i] != '.' && p[..d][i] != '/' && NoSlashAfter(p[..d], i);
    SlashFreeFrom(p, d, i);
    LastIndexBefore(p, '/', i);
    StemNotAllDots(p, LastIndex(p, '/'), d, i);
  }

  /** No slash from a stem character on, when there is none after it in the
      root and none in the extension. */
  lemma SlashFreeFrom(p: string, d: nat, i: nat)
    requires i < d <= |p|
    requires p[..d][i] != '.' && p[..d][i] != '/' && NoSlashAfter(p[..d], i)
    requires forall j :: d <= j < |p| ==> p[j] != '/'
    ensures p[i] != '.'
    ensures forall j :: i <= j < |p| ==> p[j] != '/'
  {
    forall j | i <= j < d ensures p[j] != '/' {
      assert p[..d][j] == p[j];
    }
  }

  /** A character other than a dot between `sep` and `d` makes that slice
      not all dots. */
  lemma StemNotAllDots(p: string, sep: int, d: nat, i: nat)
    requires -1 <= sep < i < d <= |p| && p[i] != '.'
    ensures !AllDots(p[sep + 1..d])
  {
    assert p[sep + 1..d][i - sep - 1] == p[i];
  }

  /** The last occurrence is the one with no occurrence after it. */
  lemma LastIndexIs(s: string, c: char, k: int)
    requires 0 <= k < |s| && s[k] == c
    requires forall j :: k < j < |s| ==> s[j] != c
    ensures LastIndex(s, c) == k
  {
  }

  lemma LastIndexBefore(s: string, c: char, i: int)
    requires 0 <= i
    requires forall j :: i <= j < |s| ==> s[j] != c
    ensures LastIndex(s, c) < i
  {
  }

  /** The extension is exactly the one the reference definition describes,
      and it is empty exactly when the reference admits none. */
  lemma ExtCharacterised(p: string, e: string)
    ensures IsExtensionOf(p, e) <==> (e != "" && e == Ext(p))
  {
    if e != "" && e == Ext(p) {
      ExtIsExtension(p);
    }
    if IsExtensionOf(p, e) {
      ExtensionIsExt(p, e);
    }
  }

  /** The four extension sets are pairwise disjoint. */
  lemma ExtSetsDisjoint()
    ensures ImageExts !! AudioExts && ImageExts !! VideoExts && ImageExts !! TextExts
    ensures AudioExts !! VideoExts && AudioExts !! TextExts && VideoExts !! TextExts
  {
    ImageExtsDisjoint();
    AudioExtsDisjoint();
    forall x | x in VideoExts ensures x !in TextExts { }
  }

  lemma ImageExtsDisjoint()
    ensures ImageExts !! AudioExts && ImageExts !! VideoExts && ImageExts !! TextExts
  {
    forall x | x in ImageExts ensures x !in AudioExts { }
    forall x | x in ImageExts ensures x !in VideoExts { }
    forall x | x in ImageExts ensures x !in TextExts { }
  }

  lemma AudioExtsDisjoint()
    ensures AudioExts !! VideoExts && AudioExts !! TextExts
  {
    forall x | x in AudioExts ensures x !in VideoExts { }
    forall x | x in AudioExts ensures x !in TextExts { }
  }

  /** `file_type`: the lower-cased extension decides the tag. */
  function Classify(path: string): (t: FileType)
    ensures t == Image <==> Lower(Ext(path)) in ImageExts
    ensures t == Audio <==> Lower(Ext(path)) in AudioExts
    ensures t == Video <==> Lower(Ext(path)) in VideoExts
    ensures t == Text <==> Lower(Ext(path)) in TextExts
    ensures t == Unknown <==> Lower(Ext(path)) !in ImageExts + AudioExts + VideoExts + TextExts
  {
    var ext := Lower(Ext(path));
    ExtSetsDisjoint();
    if ext in ImageExts then Image
    else if ext in AudioExts then Audio
    else if ext in VideoExts then Video
    else if ext in TextExts then Text
    else Unknown
  }

  /** Two strings that agree up to ASCII case. */
  predicate SameIgnoringCase(p: string, q: string) {
    |p| == |q| && forall i :: 0 <= i < |p| ==> LowerChar(p[i]) == LowerChar(q[i])
  }

  lemma {:induction false} LastIndexIgnoringCase(p: string, q: string, c: char)
    requires SameIgnoringCase(p, q)
    requires c == '.' || c == '/'
    ensures LastIndex(p, c) == LastIndex(q, c)
  {
    if p != [] {
      var n := |p| - 1;
      assert LowerChar(p[n]) == LowerChar(q[n]);
      assert p[n] == c <==> q[n] == c;
      if p[n] != c {
        assert SameIgnoringCase(p[..n], q[..n]) by {
          forall i | 0 <= i < n ensures LowerChar(p[..n][i]) == LowerChar(q[..n][i]) {
            assert p[..n][i] == p[i] && q[..n][i] == q[i];
          }
        }
        LastIndexIgnoringCase(p[..n], q[..n], c);
      }
    }
  }

  /** The classifier is case-insensitive: paths that differ only in ASCII
      case get the same tag. */
  lemma ClassifyIgnoresCase(p: string, q: string)
    requires SameIgnoringCase(p, q)
    ensures Classify(p) == Classify(q)
  {
    ExtIgnoresCase(p, q);
  }

  lemma ExtIgnoresCase(p: string, q: string)
    requires SameIgnoringCase(p, q)
    ensures Lower(Ext(p)) == Lower(Ext(q))
  {
    LastIndexIgnoringCase(p, q, '/');
    LastIndexIgnoringCase(p, q, '.');
    var sep := LastIndex(p, '/');
    var dot := LastIndex(p, '.');
    if dot > sep {
      SliceIgnoringCase(p, q, sep + 1, dot);
      AllDotsIgnoringCase(p[sep + 1..dot], q[sep + 1..dot]);
      SliceIgnoringCase(p, q, dot, |p|);
      assert p[dot..|p|] == p[dot..] && q[dot..|q|] == q[dot..];
      LowerIgnoringCase(p[dot..], q[dot..]);
      ExtAt(p, sep, dot);
      ExtAt(q, sep, dot);
    } else {
      ExtAt(p, sep, dot);
      ExtAt(q, sep, dot);
    }
  }

  /** The extension in terms of the last slash and the last dot. */
  lemma ExtAt(p: string, sep: int, dot: int)
    requires sep == LastIndex(p, '/') && dot == LastIndex(p, '.')
    ensures dot <= sep ==> Ext(p) == ""
    ensures dot > sep ==> Ext(p) == if AllDots(p[sep + 1..dot]) then "" else p[dot..]
  {
  }

  lemma AllDotsIgnoringCase(p: string, q: string)
    requires SameIgnoringCase(p, q)
    ensures AllDots(p) <==> AllDots(q)
  {
    forall i | 0 <= i < |p| ensures p[i] == '.' <==> q[i] == '.' {
      assert LowerChar(p[i]) == LowerChar(q[i]);
    }
  }

  lemma SliceIgnoringCase(p: string, q: string, i: nat, j: nat)
    requires SameIgnoringCase(p, q)
    requires i <= j <= |p|
    ensures SameIgnoringCase(p[i..j], q[i..j])
  {
    forall k | 0 <= k < j - i ensures LowerChar(p[i..j][k]) == LowerChar(q[i..j][k]) {
      assert p[i..j][k] == p[i + k] && q[i..j][k] == q[i + k];
    }
  }

  lemma LowerIgnoringCase(p: string, q: string)
    requires SameIgnoringCase(p, q)
    ensures Lower(p) == Lower(q)
  {
  }

  /** In particular, upper-casing a path never changes its tag. */
  lemma ClassifyUpper(p: string)
    ensures Classify(Upper(p)) == Classify(p)
  {
    ClassifyIgnoresCase(Upper(p), p);
  }

  lemma {:induction false} LastIndexAppend(a: string, b: string, c: char)
    ensures LastIndex(a + b, c) == if LastIndex(b, c) >= 0 then |a| + LastIndex(b, c) else LastIndex(a, c)
  {
    if b != [] {
      var n := |b| - 1;
      assert (a + b)[..|a + b| - 1] == a + b[..n];
      if b[n] != c {
        LastIndexAppend(a, b[..n], c);
      }
    } else {
      assert a + b == a;
    }
  }

  /** Only the final path component matters: directories, dotted or not,
      never contribute an extension. */
  lemma ExtOfFinalComponent(dir: string, name: string)
    requires '/' !in name
    ensures Ext(dir + "/" + name) == Ext(name)
    ensures Classify(dir + "/" + name) == Classify(name)
  {
    FinalComponentExt(dir, name);
    ClassifyByExt(dir + "/" + name, name);
  }

  lemma FinalComponentExt(dir: string, name: string)
    requires '/' !in name
    ensures Ext(dir + "/" + name) == Ext(name)
  {
    var p := dir + "/" + name;
    var d := LastIndex(name, '.');
    FinalComponentIndices(dir, name);
    ExtAt(p, |dir|, LastIndex(p, '.'));
    ExtAt(name, -1, d);
    if d >= 0 {
      FinalComponentSlices(dir, name, d);
    }
  }

  /** The last slash is the one after `dir`; the last dot, if any, is that of `name`. */
  lemma FinalComponentIndices(dir: string, name: string)
    requires '/' !in name
    ensures LastIndex(name, '/') == -1
    ensures LastIndex(dir + "/" + name, '/') == |dir|
    ensures LastIndex(dir + "/" + name, '.') ==
              if LastIndex(name, '.') >= 0 then |dir| + 1 + LastIndex(name, '.') else LastIndex(dir + "/", '.')
    ensures LastIndex(dir + "/", '.') < |dir|
  {
    LastIndexAbsent(name, '/');
    SlashEndsDirectory(dir);
    LastIndexAppend(dir + "/", name, '/');
    LastIndexAppend(dir + "/", name, '.');
  }

  /** In `dir + "/"` the last slash is the final character and every dot comes before it. */
  lemma SlashEndsDirectory(dir: string)
    ensures LastIndex(dir + "/", '/') == |dir|
    ensures LastIndex(dir + "/", '.') < |dir|
  {
    var pre := dir + "/";
    assert pre[|pre| - 1] == '/';
  }

  lemma FinalComponentSlices(dir: string, name: string, d: nat)
    requires d < |name|
    ensures (dir + "/" + name)[|dir| + 1..|dir| + 1 + d] == name[0..d]
    ensures (dir + "/" + name)[|dir| + 1 + d..] == name[d..]
  {
  }

  /** The tag depends on the path only through its extension. */
  lemma ClassifyByExt(p: string, q: string)
    requires Ext(p) == Ext(q)
    ensures Classify(p) == Classify(q)
  {
  }

  /** Without an extension the tag is "unknown". */
  lemma NoExtUnknown(p: string)
    requires Ext(p) == ""
    ensures Classify(p) == Unknown
  {
    assert Lower(Ext(p)) == "";
    assert "" !in ImageExts && "" !in AudioExts && "" !in VideoExts && "" !in TextExts;
  }

  lemma ExampleDoubleExtension()
    ensures Classify("a.tar.mp3") == Audio
  {
    ExtOfLiteral("a.tar.mp3", "a.tar", "mp3");
    assert Lower(".mp3") == ".mp3";
  }

  /** `ExtOfStemAndSuffix` for a path written out as one literal. */
  lemma ExtOfLiteral(p: string, stem: string, suffix: string)
    requires stem != [] && stem[0] != '.' && '/' !in stem
    requires '.' !in suffix && '/' !in suffix
    requires p == stem + "." + suffix
    ensures Ext(p) == "." + suffix
  {
    ExtOfStemAndSuffix(stem, suffix);
  }

  lemma ExampleUpperCase()
    ensures Classify("X.JPG") == Image
  {
    ExtOfLiteral("X.JPG", "X", "JPG");
    LowerJpg();
    assert ".jpg" in ImageExts;
  }

  lemma LowerJpg()
    ensures Lower(".JPG") == ".jpg"
  {
    var r := Lower(".JPG");
    assert r[0] == '.' && r[1] == 'j' && r[2] == 'p' && r[3] == 'g';
  }

  lemma ExampleDottedDirectory()
    ensures Classify("dir.png/file") == Unknown
  {
    DottedDirectoryExt();
    NoExtUnknown("dir.png/file");
  }

  lemma DottedDirectoryExt()
    ensures Ext("dir.png/file") == ""
  {
    assert "dir.png/file" == "dir.png" + "/" + "file";
    ExtOfPlainFinalComponent("dir.png", "file");
  }

  /** A final component without dots has no extension, whatever dots the directory holds. */
  lemma ExtOfPlainFinalComponent(dir: string, name: string)
    requires '.' !in name && '/' !in name
    ensures Ext(dir + "/" + name) == ""
  {
    FinalComponentExt(dir, name);
    ExtOfPlainName(name);
  }

  lemma ExampleDotFile()
    ensures Classify(".bashrc") == Unknown
  {
    DotFileExt();
    NoExtUnknown(".bashrc");
  }

  lemma DotFileExt()
    ensures Ext(".bashrc") == ""
  {
    ExtOfHiddenName("bashrc");
    assert "." + "bashrc" == ".bashrc";
  }

  /** A final component that does not start with a dot, followed by a dot
      and a dot-free suffix, has that dot and suffix as extension. */
  lemma ExtOfStemAndSuffix(stem: string, suffix: string)
    requires stem != [] && stem[0] != '.' && '/' !in stem
    requires '.' !in suffix && '/' !in suffix
    ensures Ext(stem + "." + suffix) == "." + suffix
  {
    var p := stem + "." + suffix;
    StemAndSuffixIndices(stem, suffix);
    ExtAt(p, -1, |stem|);
    StemNotAllDots(p, -1, |stem|, 0);
  }

  lemma StemAndSuffixIndices(stem: string, suffix: string)
    requires stem != [] && stem[0] != '.' && '/' !in stem
    requires '.' !in suffix && '/' !in suffix
    ensures LastIndex(stem + "." + suffix, '/') == -1
    ensures LastIndex(stem + "." + suffix, '.') == |stem|
    ensures (stem + "." + suffix)[0] != '.'
    ensures (stem + "." + suffix)[|stem|..] == "." + suffix
  {
    StemAndSuffixNoSlash(stem, suffix);
    StemAndSuffixLastDot(stem, suffix);
    StemAndSuffixSlices(stem, suffix);
  }

  lemma StemAndSuffixNoSlash(stem: string, suffix: string)
    requires '/' !in stem && '/' !in suffix
    ensures LastIndex(stem + "." + suffix, '/') == -1
  {
    assert '/' !in stem + "." + suffix;
    LastIndexAbsent(stem + "." + suffix, '/');
  }

  lemma StemAndSuffixLastDot(stem: string, suffix: string)
    requires '.' !in suffix
    ensures LastIndex(stem + "." + suffix, '.') == |stem|
  {
    LastIndexAbsent(suffix, '.');
    LastIndexAppend(stem + ".", suffix, '.');
  }

  lemma StemAndSuffixSlices(stem: string, suffix: string)
    requires stem != []
    ensures (stem + "." + suffix)[0] == stem[0]
    ensures (stem + "." + suffix)[|stem|..] == "." + suffix
  {
  }

  /** A character that does not occur has no last occurrence. */
  lemma LastIndexAbsent(s: string, c: char)
    requires c !in s
    ensures LastIndex(s, c) == -1
  {
    LastIndexBefore(s, c, 0);
  }

  /** A name without dots has no extension. */
  lemma ExtOfPlainName(name: string)
    requires '.' !in name && '/' !in name
    ensures Ext(name) == ""
  {
    LastIndexBefore(name, '/', 0);
    LastIndexBefore(name, '.', 0);
    ExtAt(name, -1, -1);
  }

  /** A name whose only dot is the leading one has no extension. */
  lemma ExtOfHiddenName(name: string)
    requires '.' !in name && '/' !in name
    ensures Ext("." + name) == ""
  {
    var p := "." + name;
    HiddenNameIndices(name);
    ExtAt(p, -1, 0);
    assert AllDots(p[0..0]);
  }

  lemma HiddenNameIndices(name: string)
    requires '.' !in name && '/' !in name
    ensures LastIndex("." + name, '/') == -1
    ensures LastIndex("." + name, '.') == 0
  {
    var p := "." + name;
    forall j | 0 < j < |p| ensures p[j] != '.' && p[j] != '/' {
      assert p[j] == name[j - 1];
    }
    LastIndexBefore(p, '/', 0);
    LastIndexIs(p, '.', 0);
  }
}
