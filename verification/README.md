# Multimedia file manipulator: verified model of the core

The application is a single-window desktop tool (`app.py`). You type or browse a
path; it classifies the file by its extension and loads it; it then shows a
panel of tools for that file type. This project models the logic behind
that window and proves properties about it:

- **`file_type`**, the extension classifier (module `FileTypes`): Python's
  POSIX `os.path.splitext`, ASCII lower-casing, and the four fixed extension
  sets.
- **The session state** of `MultimediaApp` (module `Session`), held in
  `class App<Img>`. Its fields are the loaded path, the file type, the
  original/current image pair, the text buffer, and the kind of tool panel
  showing. The class has a method for each of these:
  - `_load_file` with its five-way handler table;
  - `_setup_image` and `_setup_text`;
  - `_img_op`;
  - the enhance and resize dialogs' `apply`;
  - the text tools.

  Each state-changing method is tied to a pure function of the old state
  (`LoadPath`, `ImgStep`, `ReplaceAll`, `Transform`). The properties are
  proved about those functions.
- **The text engine** over the buffer. Each piece has its own module:
  - `str.splitlines` and `"\n".join` (`Lines`);
  - `str.split()` and the counts (`Words`);
  - `str.replace` (`Replace`);
  - `Counter(...).most_common(10)` over letters (`Freq`);
  - the line transforms: upper, lower, reverse, sort, blank-line removal
    (`LineOps`).
- `Chars` fixes the character classes these depend on:
  - the `str.isspace` set: ASCII tab to CR, U+001C–U+001F, space, U+0085,
    U+00A0, U+1680, U+2000–U+200A, U+2028, U+2029, U+202F, U+205F and U+3000;
  - the `splitlines` boundary set: LF, VT, FF, CR, U+001C–U+001E, U+0085,
    U+2028 and U+2029, with CR LF counted as one boundary;
  - ASCII letters and ASCII case mapping.

Pixels are abstract: `Img` is a type parameter. Each imaging-library call is
a function parameter:
- `pil(op, img)` for the operation table and sepia;
- `enhance` for the enhance dialog;
- `resize` for the resize dialog.

The file system and the library import are a `Host` value. It carries:
- `isFile`, which is `os.path.isfile`;
- `pillow`, the `PIL_OK` flag;
- `openImage` and `readText`, which return `None` where `Image.open` or the
  file read raises;
- `decodes`, which says whether the `copy()` after `Image.open` succeeds.
  `Image.open` only identifies the file; the pixels are decoded by that
  copy. When it raises, `_img_original` has already been replaced while
  `_img_current` keeps its old value and no panel is built. The session
  invariant `Consistent` therefore allows an original without a current
  image, and `Session.LoadUndecodableImage` states this case;
- `previews`, which says whether `_show_image` can draw the decoded image.
  It scales the image to fit 680×540 and truncates each side to an
  integer, so a very long, thin image gets a side of zero and the resize
  raises. That happens after both images are set and before any button is
  built, so both images are replaced and no panel shows.
  `Session.LoadUnpreviewableImage` states this case.

The line count is `len(text.splitlines())`. `splitlines` never yields a
trailing empty line, and `"".splitlines()` is empty. `Lines.LineCount` and
`Lines.TrailingNewlineIgnored` state this.

The tool buttons are destroyed by every load of an existing file
(`_clear_tools`); a path that is not a file returns before that. So the image
operations, counts, frequency and transforms require the matching panel.
The enhance, resize and find-and-replace dialogs are separate windows and can
outlive the panel that opened them. So their `apply` methods only require an
image or a buffer to be present.

## Model

| member | source | states |
|---|---|---|
| Chars.IsSpace | app.py:591 | the characters `str.split()` and `strip()` treat as whitespace, Python's `str.isspace` set |
| Chars.IsLineBreak | app.py:590 | the characters `splitlines` ends a line at |
| Chars.IsAlpha | app.py:600 | the letters `isalpha` admits to the frequency count (ASCII) |
| Chars.Lower | app.py:626 | `str.lower` on ASCII keeps the length and lower-cases each character independently |
| Chars.Upper | app.py:625 | `str.upper` on ASCII keeps the length and upper-cases each character independently |
| Chars.LowerAfterCase | app.py:625-626 | on ASCII text, lower-casing after upper-casing equals lower-casing; lower and upper are each idempotent |
| Chars.LineBreakIsSpace | app.py:590-591 | every line boundary is also whitespace; `Words.WordsWithinLines` uses it to show that no word spans two lines |
| FileTypes.ImageExts | app.py:42 | the image extensions |
| FileTypes.AudioExts | app.py:43 | the audio extensions |
| FileTypes.VideoExts | app.py:44 | the video extensions |
| FileTypes.TextExts | app.py:45-46 | the text extensions |
| FileTypes.Ext | app.py:50 | `os.path.splitext(path)[1]`; `ExtCharacterised` states what it is |
| FileTypes.SplitExt | app.py:50 | root and extension concatenate back to the path |
| FileTypes.ExtIsExtension | app.py:50 | a non-empty extension is a dot plus a dot-free, slash-free tail, preceded in the final component by a non-dot |
| FileTypes.ExtensionIsExt | app.py:50 | any suffix meeting that description is the extension `splitext` returns |
| FileTypes.ExtCharacterised | app.py:50 | both directions: `e` meets the reference description exactly when `e` is the non-empty extension |
| FileTypes.ExtSetsDisjoint | app.py:42-46 | the image, audio, video and text extension sets are pairwise disjoint |
| FileTypes.Classify | app.py:49-55 | the tag is image/audio/video/text exactly when the lower-cased extension is in that set, unknown exactly when it is in none |
| FileTypes.ClassifyIgnoresCase | app.py:50 | paths equal up to ASCII case get the same tag |
| FileTypes.ClassifyUpper | app.py:50 | upper-casing a path never changes its tag ("X.JPG" is an image) |
| FileTypes.ExtOfFinalComponent | app.py:50 | a directory prefix, dotted or not, never changes the extension or the tag |
| FileTypes.ClassifyByExt | app.py:50-55 | paths with the same extension get the same tag |
| FileTypes.ExtOfStemAndSuffix | app.py:50 | a final component that does not start with a dot, then a dot and a dot-free suffix, has that dot and suffix as its extension |
| FileTypes.ExtOfPlainName | app.py:50 | a name without dots has no extension |
| FileTypes.ExtOfHiddenName | app.py:50 | a name whose only dot is the leading one has no extension |
| FileTypes.ExtOfPlainFinalComponent | app.py:50 | a final component without dots has no extension, whatever dots the directory holds |
| FileTypes.NoExtUnknown | app.py:50-55 | a path without an extension is unknown |
| FileTypes.ExampleDoubleExtension | app.py:49-55 | "a.tar.mp3" is audio: only the last dot counts |
| FileTypes.ExampleUpperCase | app.py:49-55 | "X.JPG" is an image |
| FileTypes.ExampleDottedDirectory | app.py:49-55 | "dir.png/file" is unknown: the dot is in a directory |
| FileTypes.ExampleDotFile | app.py:49-55 | ".bashrc" is unknown: leading dots do not start an extension |
| Lines.SplitLines | app.py:590 | no line holds a boundary; there are no lines exactly when the text is empty |
| Lines.LineCount | app.py:590-594 | the line count is the number of boundaries, CR LF once, plus one if text follows the last boundary |
| Lines.TrailingNewlineIgnored | app.py:590 | a final newline adds no empty line |
| Lines.SplitAtBoundary | app.py:590 | for every boundary (any single boundary character, or CR LF; a lone CR only when no LF follows), the first line is the text before it and the rest is split the same way |
| Lines.TwoLines | app.py:590 | two boundary-free texts around any one boundary are two lines |
| Lines.LastLine | app.py:590 | non-empty text without a boundary is one line |
| Lines.Join | app.py:627-629 | `"\n".join`: no lines join to the empty text; `SplitJoin` is its partner |
| Lines.SplitJoin | app.py:627-629 | splitting joined lines gives them back when none holds a boundary and the last is non-empty |
| Lines.ExampleLines | app.py:590 | "a b\nc\n" has lines "a b", "c"; "" has none; "a\r\nb", "a\rb" and "a" U+2028 "b" have "a", "b"; "a\n\n" has "a", "" |
| Words.SplitWords | app.py:591 | every word is non-empty and free of whitespace |
| Words.WordCount | app.py:591 | the word count is the number of maximal non-whitespace runs |
| Words.SplitWordsAtSpace | app.py:591 | text cut just before a whitespace character splits into the words of each part |
| Words.WordsWithinLines | app.py:590-591 | the words of the text are the words of its lines, in order: no word spans a line boundary |
| Words.TextStats | app.py:588-592 | the three figures `_text_count` shows: lines, words, characters |
| Words.TextStatsMeaning | app.py:588-596 | lines, words and characters are boundaries (plus a trailing line), runs, and length |
| Words.ExampleStats | app.py:588-596 | "a b\nc\n" gives 2 lines, 3 words, 6 characters |
| Replace.ReplaceAll | app.py:615-617 | `str.replace` with every occurrence, left to right without overlap; an empty find inserts the replacement around every character |
| Replace.ReplaceLength | app.py:615-617 | the result length is len(t) + k·(len(repl) − len(find)) for k non-overlapping matches, k = len(t)+1 for an empty find |
| Replace.NoMatchesIffAbsent | app.py:615-617 | for a non-empty find, the scan finds no match exactly when find does not occur |
| Replace.ReplaceAbsent | app.py:615-617 | a non-empty find that does not occur leaves the text unchanged |
| Replace.ReplaceSelf | app.py:615-617 | replacing a string by itself is the identity, for an empty find too |
| Replace.ExampleReplace | app.py:615-617 | "aaa" with "aa"→"b" is "ba" (left to right, no overlap); "ab" with ""→"-" is "-a-b-" |
| Freq.Alphabet | app.py:600 | the counter's keys are exactly the letters of the text, in order of first appearance |
| Freq.Rank | app.py:601 | ranking is a permutation of the letters, ordered by count, then first appearance |
| Freq.TopLetters | app.py:601 | at most ten ranked letters of the text; any letter left out ranks below the tenth |
| Freq.CharFreq | app.py:598-603 | at most ten pairs of a letter and its exact count, counts non-increasing with ties by first appearance, every omitted letter ranking below the last |
| LineOps.LexLe | app.py:628 | Python's `str` order: code point by code point, a proper prefix first |
| LineOps.LexLeTotal | app.py:628 | Python's string order is total |
| LineOps.LexLeTransitive | app.py:628 | Python's string order is transitive |
| LineOps.LexLeAntisymmetric | app.py:628 | Python's string order is antisymmetric |
| LineOps.SortLines | app.py:628 | `sorted` returns a permutation of the lines in ascending order |
| LineOps.SortedUnique | app.py:628 | there is only one ascending permutation, so `SortLines` is it |
| LineOps.SortLinesOfSorted | app.py:628 | sorting sorted lines changes nothing |
| LineOps.SortLinesElements | app.py:628 | sorting keeps exactly the lines it is given |
| LineOps.Reverse | app.py:627 | `reversed` puts line i at position n−1−i |
| LineOps.ReverseReverse | app.py:627 | reversing twice gives the lines back |
| LineOps.Strip | app.py:629 | `strip` leaves the text between leading and trailing whitespace; nothing remains exactly when the line is all whitespace |
| LineOps.Blank | app.py:629 | a line is blank when `strip` leaves nothing of it, that is, when it is all whitespace |
| LineOps.KeepNonBlank | app.py:629 | the kept lines are non-blank lines of the input, in input order |
| LineOps.KeepNonBlankCount | app.py:629 | every non-blank line is kept as often as it occurs; no blank line is kept |
| LineOps.KeepAllNonBlank | app.py:629 | lines that are all non-blank are all kept |
| LineOps.RevLines | app.py:627 | "rev_lines": split, reverse, join with "\n" |
| LineOps.SortText | app.py:628 | "sort": split, sort, join with "\n" |
| LineOps.RemoveBlank | app.py:629 | "rm_blank": split, keep the lines `strip` leaves non-empty, join with "\n" |
| LineOps.Transform | app.py:623-631 | the five transform names and their results; any other name keeps the text |
| LineOps.RemoveBlankLines | app.py:629 | the lines of the "rm_blank" result are exactly the non-blank input lines; removal is idempotent |
| LineOps.SortTextLines | app.py:628 | the lines of the "sort" result are the input lines in ascending order, when some line is non-empty |
| LineOps.SortTextIdempotent | app.py:628 | sorting twice equals sorting once, when some line is non-empty |
| LineOps.SortThenReverse | app.py:627-628 | "sort" then "rev_lines" yields the lines in descending order, when some line is non-empty |
| LineOps.ExampleSortTextLosesEmptyLine | app.py:628 | "\n\n" sorts to "\n" and "\n" to "": with only empty lines, sorting loses one each time |
| LineOps.CaseTransforms | app.py:625-626 | on ASCII text, "lower" after "upper" is "lower"; "upper" and "lower" are each idempotent |
| LineOps.RevLinesTwice | app.py:627 | "rev_lines" twice gives the lines rejoined, when the first line is non-empty |
| LineOps.ExampleRevLinesLosesEmptyLine | app.py:627 | "\nb" reversed twice is "b": the leading empty line is lost |
| LineOps.TransformUnknown | app.py:623-631 | an unrecognised transform name leaves the text unchanged |
| LineOps.ExampleSortThenReverse | app.py:627-628 | lines b, a, c sorted then reversed are c, b, a |
| Session.ToolsFor | app.py:188-195 | every file type has a handler that builds a panel |
| Session.Consistent | app.py:188-205 | the session invariant: a panel shows only for the loaded file's type, the image panel only with both images, the text panel only with a buffer, and never a current image without an original |
| Session.ImageSetup | app.py:200-206 | `_setup_image` on the state: no library or no image leaves it; an image that does not decode becomes the original only; one that decodes becomes original and current, with the image panel only if its preview can be drawn |
| Session.TextSetup | app.py:560-563 | `_setup_text` on the state: a readable file becomes the buffer with the text panel |
| Session.Setup | app.py:188-195 | the handler table: exactly the handler keyed by the type runs; audio, video and unknown only get their panel |
| Session.Load | app.py:178 | the path loaded is the entry stripped of surrounding whitespace |
| Session.LoadPath | app.py:177-195 | a path that is not an existing file changes nothing; otherwise path and type are set, and the panel is either empty or the one for that type; only loading an image touches the image pair, only a successful text load the buffer |
| Session.LoadConsistent | app.py:177-195 | loading keeps the session invariant: the panel matches the type, and the image pair or buffer is present when its panel shows |
| Session.LoadText | app.py:560-563 | after loading a readable text file, the buffer is its content and the text panel shows |
| Session.LoadImage | app.py:200-206 | after loading an image that opens, decodes and can be previewed, with the library present, original and current are that image and the image panel shows |
| Session.LoadUndecodableImage | app.py:200-205 | an image that opens but does not decode replaces the original only; the current image stays and no panel shows |
| Session.LoadUnpreviewableImage | app.py:200-206 | an image that decodes but whose preview raises replaces both images, and no panel shows |
| Session.ImageOps | app.py:236-248 | the names in the operation table of `_img_op` |
| Session.Known | app.py:249-257 | the names `_img_op` acts on: "sepia" and the table's names |
| Session.ImgStep | app.py:233-259 | "reset" gives the original; sepia and table names apply their library call; any other name leaves the current image |
| Session.ImgRunAppend | app.py:233-259 | pressing two runs of buttons equals pressing the first, then the second |
| Session.ResetForgetsHistory | app.py:230-259 | after "reset" the current image is the original, whatever came before |
| Session.UnknownOpsIgnored | app.py:249-258 | names outside the table can be dropped from any button sequence |
| Session.KnownOnly | app.py:249-258 | every name `_img_op` acts on is kept as often as it occurs and every other name is dropped, in the original order |
| Session.App.Valid | app.py:177-205 | the window's fields satisfy `Consistent` |
| Session.App.constructor | app.py:61-69 | a new window has nothing loaded and no panel |
| Session.App.LoadFile | app.py:177-195 | the path is the entry stripped of whitespace; the result reports whether it exists; the new state is `Load` of the old |
| Session.App.LoadStripped | app.py:179-195 | the new state is `LoadPath` of the old; the invariant is kept |
| Session.App.RunHandler | app.py:188-195 | exactly the handler keyed by the type runs |
| Session.App.SetupImage | app.py:200-206 | the new state is `ImageSetup` of the old: without the library, or if opening fails, nothing changes; if decoding fails only the original changes; otherwise original and current become the opened image, and the image panel shows if the preview can be drawn |
| Session.App.SetupText | app.py:560-563 | the buffer becomes the file's content and the text panel shows |
| Session.App.ImgOp | app.py:233-259 | only the current image changes, to `ImgStep` of it; the original never changes |
| Session.App.Enhance | app.py:278-280 | the current image is replaced by the enhanced one; the original never changes |
| Session.App.Resize | app.py:295-298 | the current image is replaced by the resized one; the original never changes |
| Session.App.CountText | app.py:588-596 | the figures are `TextStats` of the buffer |
| Session.App.CharFrequency | app.py:598-603 | the list is `CharFreq` of the buffer |
| Session.App.FindReplace | app.py:615-617 | the buffer becomes `ReplaceAll` of itself |
| Session.App.TransformText | app.py:623-631 | the buffer becomes `Transform(op)` of itself |

## Left out

- The Tk user interface is not modelled: window construction, styling, hover bindings, the file dialog of `_browse`, message boxes, the status bar, and preview rendering (`_show_image`, `_show_text`, `_clear_preview`); of `_show_image` only whether it raises is kept, as `Host.previews`. The tool panel is reduced to the kind of buttons it shows.
- Imaging-library pixel work (rotate, flip, grey, invert, blur, sharpen, edges, emboss, the sepia float factors, enhance factors, LANCZOS resampling) is an abstract function parameter; images have no content in the model.
- Session.App.Resize: does not model the library raising for a non-positive width or height; the `resize` parameter stands for whatever the library returns.
- Audio and video handlers only install their panel. Their tools are outside this model: pydub decoding, trimming, volume, export, the cv2 probing, frame extraction in a background thread, and the histogram.
- `_setup_unknown`'s info text, `_img_info`, `_img_save` and `_text_save` are output-only and are not modelled.
- File input and output: existence, image opening and text reading (including `errors="replace"` decoding) are `Host` functions supplied from outside.
- FileTypes.Classify: lowers ASCII only. Python's `str.lower` maps U+212A KELVIN SIGN to "k", so `file_type` calls "a.m" U+212A "v" a video, while the model calls it unknown.
- `os.path.splitext` is modelled with POSIX separators only; a backslash is an ordinary character.
- Chars.Lower: ASCII only; full Unicode case mapping (which can change the length, as "ß" to "SS" does) is not modelled.
- Chars.Upper: ASCII only, for the same reason.
- Chars.LowerAfterCase: holds of the ASCII mapping only. In Python `"ß".upper().lower()` is "ss" while `"ß".lower()` is "ß", so lowering after upper-casing can differ from lowering.
- LineOps.CaseTransforms: for the same reason, "lower" after "upper" equals "lower" only on ASCII text; on "ß" the program gives "ss".
- Chars.IsAlpha: ASCII letters only, so the frequency tool counts only ASCII letters in the model.
- Freq.CharFreq: returns the ranked pairs; the message text they are formatted into is not modelled.
- LineOps.SortTextLines: stated only when some line is non-empty; if every line is empty, joining them and splitting again drops the last one.
- LineOps.SortTextIdempotent: stated only when some line is non-empty, for the same reason; `LineOps.ExampleSortTextLosesEmptyLine` shows the case that is excluded.
- LineOps.SortThenReverse: stated only when some line is non-empty, for the same reason.
- LineOps.RevLinesTwice: stated only when the first line is non-empty, for the same reason; `LineOps.ExampleRevLinesLosesEmptyLine` shows the case that is excluded.
- Image identity is not modelled: `copy()` and the original are the same value in the model.
