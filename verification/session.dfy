/** The session state of the main window: which file is loaded, its type,
    the original/current image pair, the text buffer, and which tool panel
    is showing. The widgets themselves are not modelled; the tool panel is
    reduced to the kind of buttons it offers, since only those buttons can
    trigger the operations below. */
module Session {
  import opened FileTypes
  import opened Words
  import opened Freq
  import opened Replace
  import opened LineOps

  datatype Option<T> = None | Some(value: T)

  /** The buttons on the left-hand panel after a handler has run. */
  datatype Toolbar = NoTools | ImageTools | AudioTools | VideoTools | TextTools | InfoTools

  /** The panel each handler builds. */
  function ToolsFor(t: FileType): (b: Toolbar)
    ensures b != NoTools
  {
    match t
    case Image => ImageTools
    case Audio => AudioTools
    case Video => VideoTools
    case Text => TextTools
    case Unknown => InfoTools
  }

  /** What the session reaches out to: the file system and the imaging
      library. `isFile` is `os.path.isfile`; `pillow` says whether the imaging
      library could be imported; `openImage` and `readText` give `None` when
      `Image.open` or the read raises. `Image.open` only identifies the file:
      the pixels are decoded by the `copy()` that follows, and `decodes` says
      whether that succeeds. `previews` says whether `_show_image` can draw
      the image: its scaled-down size must not round to zero. */
  datatype Host<!Img> = Host(
    isFile: string -> bool,
    pillow: bool,
    openImage: string -> Option<Img>,
    decodes: Img -> bool,
    previews: Img -> bool,
    readText: string -> Option<string>)

  /** A snapshot of the window's fields. Before the first load the
      attributes do not exist yet: `None`. */
  datatype State<Img> = State(
    path: Option<string>,
    ftype: Option<FileType>,
    original: Option<Img>,
    current: Option<Img>,
    text: Option<string>,
    tools: Toolbar)

  /** What every reachable state satisfies: a panel is only showing for the
      loaded file's type, the image buttons only with an image pair, the
      text buttons only with a buffer; and there is never a current image
      without an original. (An original without a current image is
      reachable: a first image that opens but does not decode.) */
  predicate Consistent<Img>(s: State<Img>) {
    (s.tools != NoTools ==> s.path.Some? && s.ftype.Some? && s.tools == ToolsFor(s.ftype.value)) &&
    (s.tools == ImageTools ==> s.original.Some? && s.current.Some?) &&
    (s.tools == TextTools ==> s.text.Some?) &&
    (s.current.Some? ==> s.original.Some?)
  }

  // ---------------------------------------------------------------------
  // Loading a file

  /** `_setup_image`: without the imaging library only a message is shown;
      otherwise the file is opened and becomes the original, and its decoded
      copy the current image; once the preview is drawn the image panel is
      built. If decoding raises, the original has already been replaced
      while the current image and the empty panel stay; if the preview
      raises, both images are replaced and the panel stays empty. */
  function ImageSetup<Img>(s: State<Img>, host: Host<Img>): State<Img>
    requires s.path.Some?
  {
    if !host.pillow then s
    else match host.openImage(s.path.value)
      case None => s
      case Some(img) =>
        if !host.decodes(img) then s.(original := Some(img))
        else if !host.previews(img) then s.(original := Some(img), current := Some(img))
        else s.(original := Some(img), current := Some(img), tools := ImageTools)
  }

  /** `_setup_text`: the whole file becomes the buffer. */
  function TextSetup<Img>(s: State<Img>, host: Host<Img>): State<Img>
    requires s.path.Some?
  {
    match host.readText(s.path.value)
    case None => s
    case Some(content) => s.(text := Some(content), tools := TextTools)
  }

  /** The handler table of `_load_file`: exactly the handler keyed by the
      file type runs. Audio, video and unknown files only get their panel. */
  function Setup<Img>(s: State<Img>, host: Host<Img>): State<Img>
    requires s.path.Some? && s.ftype.Some?
  {
    match s.ftype.value
    case Image => ImageSetup(s, host)
    case Audio => s.(tools := AudioTools)
    case Video => s.(tools := VideoTools)
    case Text => TextSetup(s, host)
    case Unknown => s.(tools := InfoTools)
  }

  /** `_load_file` once the entry has been stripped. A path that is not an
      existing file changes nothing. Otherwise the path and its type are
      recorded, the panel is cleared, and the one handler for that type
      builds its panel (or leaves it empty if it fails). Only the image
      handler touches the image pair and only the text handler the buffer. */
  function LoadPath<Img>(s: State<Img>, p: string, host: Host<Img>): (r: State<Img>)
    ensures !host.isFile(p) ==> r == s
    ensures host.isFile(p) ==>
              r.path == Some(p) && r.ftype == Some(Classify(p)) &&
              (r.tools == NoTools || r.tools == ToolsFor(Classify(p)))
    ensures host.isFile(p) && Classify(p) in {Audio, Video, Unknown} ==> r.tools == ToolsFor(Classify(p))
    ensures r.original != s.original ==> host.isFile(p) && Classify(p) == Image
    ensures r.current != s.current ==> host.isFile(p) && Classify(p) == Image
    ensures r.text != s.text ==> r.tools == TextTools
  {
    if !host.isFile(p) then s
    else Setup(s.(path := Some(p), ftype := Some(Classify(p)), tools := NoTools), host)
  }

  /** `_load_file`: the path is the entry's text with surrounding
      whitespace stripped. */
  function Load<Img>(s: State<Img>, entry: string, host: Host<Img>): State<Img> {
    LoadPath(s, Strip(entry), host)
  }

  /** Loading keeps the session consistent. */
  lemma LoadConsistent<Img>(s: State<Img>, p: string, host: Host<Img>)
    requires Consistent(s)
    ensures Consistent(LoadPath(s, p, host))
  {
    if host.isFile(p) {
      var cleared := s.(path := Some(p), ftype := Some(Classify(p)), tools := NoTools);
      assert Consistent(cleared);
    }
  }

  /** The text buffer after a successful load of a text file is that
      file's content, whatever was loaded before. */
  lemma LoadText<Img>(s: State<Img>, p: string, host: Host<Img>)
    requires host.isFile(p) && Classify(p) == Text && host.readText(p).Some?
    ensures LoadPath(s, p, host).text == host.readText(p)
    ensures LoadPath(s, p, host).tools == TextTools
  {
  }

  /** After a load of an image that opens, decodes and can be previewed,
      both images are that image and the image panel shows, whatever was
      loaded before. */
  lemma LoadImage<Img>(s: State<Img>, p: string, host: Host<Img>)
    requires host.isFile(p) && Classify(p) == Image && host.pillow
    requires host.openImage(p).Some? && host.decodes(host.openImage(p).value)
    requires host.previews(host.openImage(p).value)
    ensures LoadPath(s, p, host).original == host.openImage(p)
    ensures LoadPath(s, p, host).current == host.openImage(p)
    ensures LoadPath(s, p, host).tools == ImageTools
  {
  }

  /** An image that opens but does not decode replaces the original only:
      the current image is the one from before and no panel shows. */
  lemma LoadUndecodableImage<Img>(s: State<Img>, p: string, host: Host<Img>)
    requires host.isFile(p) && Classify(p) == Image && host.pillow
    requires host.openImage(p).Some? && !host.decodes(host.openImage(p).value)
    ensures LoadPath(s, p, host).original == host.openImage(p)
    ensures LoadPath(s, p, host).current == s.current
    ensures LoadPath(s, p, host).tools == NoTools
  {
  }

  /** An image that decodes but cannot be previewed replaces both images,
      but no panel shows. */
  lemma LoadUnpreviewableImage<Img>(s: State<Img>, p: string, host: Host<Img>)
    requires host.isFile(p) && Classify(p) == Image && host.pillow
    requires host.openImage(p).Some? && host.decodes(host.openImage(p).value)
    requires !host.previews(host.openImage(p).value)
    ensures LoadPath(s, p, host).original == host.openImage(p)
    ensures LoadPath(s, p, host).current == host.openImage(p)
    ensures LoadPath(s, p, host).tools == NoTools
  {
  }

  // ---------------------------------------------------------------------
  // Image operations

  /** The operation table of `_img_op`; "sepia" is handled before it. */
  const ImageOps: set<string> := {"rotate90", "rotate180", "flip_h", "flip_v", "gray", "invert",
                                  "blur", "sharpen", "edges", "emboss", "reset"}

  /** One `_img_op(op)`. `pil(op, img)` stands for the imaging-library call
      that the table (or the sepia branch) makes for `op`. "reset" gives the
      original back; a name that is neither "sepia" nor in the table leaves
      the current image as it is. */
  function ImgStep<Img>(pil: (string, Img) -> Img, orig: Img, cur: Img, op: string): (r: Img)
    ensures op == "reset" ==> r == orig
    ensures op != "sepia" && op !in ImageOps ==> r == cur
    ensures op != "reset" && (op == "sepia" || op in ImageOps) ==> r == pil(op, cur)
  {
    if op == "sepia" then pil("sepia", cur)
    else if op in ImageOps then (if op == "reset" then orig else pil(op, cur))
    else cur
  }

  /** The current image after the buttons `ops` are pressed in order. */
  function ImgRun<Img>(pil: (string, Img) -> Img, orig: Img, cur: Img, ops: seq<string>): Img
    decreases |ops|
  {
    if ops == [] then cur else ImgRun(pil, orig, ImgStep(pil, orig, cur, ops[0]), ops[1..])
  }

  lemma {:induction false} ImgRunAppend<Img>(pil: (string, Img) -> Img, orig: Img, cur: Img,
                                              xs: seq<string>, ys: seq<string>)
    ensures ImgRun(pil, orig, cur, xs + ys) == ImgRun(pil, orig, ImgRun(pil, orig, cur, xs), ys)
    decreases |xs|
  {
    if xs != [] {
      var next := ImgStep(pil, orig, cur, xs[0]);
      assert (xs + ys)[0] == xs[0] && (xs + ys)[1..] == xs[1..] + ys;
      assert ImgRun(pil, orig, cur, xs + ys) == ImgRun(pil, orig, next, xs[1..] + ys);
      ImgRunAppend(pil, orig, next, xs[1..], ys);
    } else {
      assert xs + ys == ys;
    }
  }

  /** After "reset" the history before it no longer matters: the image is
      the original, and what follows starts from the original. */
  lemma ResetForgetsHistory<Img>(pil: (string, Img) -> Img, orig: Img, cur: Img,
                                 before: seq<string>, after: seq<string>)
    ensures ImgRun(pil, orig, cur, before + ["reset"]) == orig
    ensures ImgRun(pil, orig, cur, before + ["reset"] + after) == ImgRun(pil, orig, orig, after)
  {
    ImgRunAppend(pil, orig, cur, before, ["reset"]);
    ImgRunAppend(pil, orig, cur, before + ["reset"], after);
  }

  /** The names `_img_op` acts on. */
  predicate Known(op: string) {
    op == "sepia" || op in ImageOps
  }

  /** `ops` with the names `_img_op` ignores struck out: every known name
      is kept as often as it occurs, in order, and nothing else. */
  function KnownOnly(ops: seq<string>): (r: seq<string>)
    ensures forall op :: multiset(r)[op] == if Known(op) then multiset(ops)[op] else 0
    ensures Subsequence(r, ops)
  {
    if ops == [] then []
    else
      assert ops == [ops[0]] + ops[1..];
      var rest := KnownOnly(ops[1..]);
      if Known(ops[0]) then
        var r := [ops[0]] + rest;
        assert r[1..] == rest;
        r
      else rest
  }

  /** Names outside the table can be struck from any sequence of operations
      without changing the result. */
  lemma {:induction false} UnknownOpsIgnored<Img>(pil: (string, Img) -> Img, orig: Img, cur: Img,
                                                  ops: seq<string>)
    ensures ImgRun(pil, orig, cur, ops) == ImgRun(pil, orig, cur, KnownOnly(ops))
    decreases |ops|
  {
    if ops != [] {
      UnknownOpsIgnored(pil, orig, ImgStep(pil, orig, cur, ops[0]), ops[1..]);
      if Known(ops[0]) {
        assert ([ops[0]] + KnownOnly(ops[1..]))[1..] == KnownOnly(ops[1..]);
      }
    }
  }

  // ---------------------------------------------------------------------
  // The window

  class App<Img> {
    var path: Option<string>
    var ftype: Option<FileType>
    var original: Option<Img>
    var current: Option<Img>
    var text: Option<string>
    var tools: Toolbar

    function Snapshot(): State<Img>
      reads this
    {
      State(path, ftype, original, current, text, tools)
    }

    ghost predicate Valid()
      reads this
    {
      Consistent(Snapshot())
    }

    /** A fresh window: nothing loaded, no panel. */
    constructor()
      ensures Snapshot() == State(None, None, None, None, None, NoTools)
      ensures Valid()
    {
      path, ftype := None, None;
      original, current := None, None;
      text := None;
      tools := NoTools;
    }

    /** `_load_file`. */
    method LoadFile(entry: string, host: Host<Img>) returns (found: bool)
      requires Valid()
      modifies this
      ensures found <==> host.isFile(Strip(entry))
      ensures Snapshot() == Load(old(Snapshot()), entry, host)
      ensures Valid()
    {
      var p := Strip(entry);
      found := LoadStripped(p, host);
    }

    method LoadStripped(p: string, host: Host<Img>) returns (found: bool)
      requires Valid()
      modifies this
      ensures found <==> host.isFile(p)
      ensures Snapshot() == LoadPath(old(Snapshot()), p, host)
      ensures Valid()
    {
      LoadConsistent(Snapshot(), p, host);
      if !host.isFile(p) {
        return false;
      }
      path := Some(p);
      ftype := Some(Classify(p));
      tools := NoTools;
      RunHandler(host);
      found := true;
    }

    /** The dispatch through the handler table. */
    method RunHandler(host: Host<Img>)
      requires path.Some? && ftype.Some?
      modifies this`original, this`current, this`text, this`tools
      ensures Snapshot() == Setup(old(Snapshot()), host)
    {
      match ftype.value
      case Image => SetupImage(host);
      case Audio => tools := AudioTools;
      case Video => tools := VideoTools;
      case Text => SetupText(host);
      case Unknown => tools := InfoTools;
    }

    /** `_setup_image`. */
    method SetupImage(host: Host<Img>)
      requires path.Some?
      modifies this`original, this`current, this`tools
      ensures Snapshot() == ImageSetup(old(Snapshot()), host)
    {
      if !host.pillow {
        return;
      }
      var img := host.openImage(path.value);
      if img.Some? {
        original := img;
        if !host.decodes(img.value) {
          return;
        }
        current := img;
        if !host.previews(img.value) {
          return;
        }
        tools := ImageTools;
      }
    }

    /** `_setup_text`. */
    method SetupText(host: Host<Img>)
      requires path.Some?
      modifies this`text, this`tools
      ensures Snapshot() == TextSetup(old(Snapshot()), host)
    {
      var content := host.readText(path.value);
      if content.Some? {
        text := content;
        tools := TextTools;
      }
    }

    /** `_img_op(op)`: only the current image changes, never the original. */
    method ImgOp(op: string, pil: (string, Img) -> Img)
      requires Valid() && tools == ImageTools
      modifies this`current
      ensures original == old(original)
      ensures current == Some(ImgStep(pil, original.value, old(current).value, op))
      ensures Valid()
    {
      current := Some(ImgStep(pil, original.value, current.value, op));
    }

    /** The enhance dialog's `apply`: `enhance` is the brightness or
        contrast enhancer applied with the chosen factor. The dialog can
        outlive the panel that opened it, so it only needs an image. */
    method Enhance(enhance: Img -> Img)
      requires Valid() && current.Some?
      modifies this`current
      ensures original == old(original)
      ensures current == Some(enhance(old(current).value))
      ensures Valid()
    {
      current := Some(enhance(current.value));
    }

    /** The resize dialog's `apply`, with the width and height typed in. */
    method Resize(width: int, height: int, resize: (Img, int, int) -> Img)
      requires Valid() && current.Some?
      modifies this`current
      ensures original == old(original)
      ensures current == Some(resize(old(current).value, width, height))
      ensures Valid()
    {
      current := Some(resize(current.value, width, height));
    }

    /** `_text_count`: the figures shown for the buffer. */
    method CountText() returns (stats: Stats)
      requires Valid() && tools == TextTools
      ensures stats == TextStats(text.value)
    {
      stats := TextStats(text.value);
    }

    /** `_text_char_freq`: the top letters shown for the buffer. */
    method CharFrequency() returns (top: seq<(char, nat)>)
      requires Valid() && tools == TextTools
      ensures top == CharFreq(text.value)
    {
      top := CharFreq(text.value);
    }

    /** The find & replace dialog's `apply`. Like the enhance dialog it
        can outlive its panel, so it only needs a buffer. */
    method FindReplace(find: string, repl: string)
      requires Valid() && text.Some?
      modifies this`text
      ensures text == Some(ReplaceAll(old(text).value, find, repl))
      ensures Valid()
    {
      text := Some(ReplaceAll(text.value, find, repl));
    }

    /** `_text_transform(op)`. */
    method TransformText(op: string)
      requires Valid() && tools == TextTools
      modifies this`text
      ensures text == Some(Transform(op, old(text).value))
      ensures Valid()
    {
      text := Some(Transform(op, text.value));
    }
  }
}
