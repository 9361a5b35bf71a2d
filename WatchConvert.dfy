/** The watcher of md2pdf_workspace/convert.py: a Markdown file created or modified
    in INPUT_DIR is converted with WeasyPrint into OUTPUT_DIR, under a `try` that
    catches and logs every exception. Paths are `pathlib` paths relative to the
    working directory. */
module WatchConvert {
  import opened PyPath
  import opened PurePath
  import opened Fs
  import opened Watch

  /** `Path("input")` and `Path("output")`. */
  const InputDir: string := "input"
  const OutputDir: string := "output"

  /** The Markdown extensions the parser is called with. */
  const Extensions: seq<string> := ["tables", "fenced_code", "nl2br", "sane_lists"]

  /** PDF_CSS, the style sheet handed to WeasyPrint. */
  const PdfCss: string := @"
@page {
    size: A4;
    margin: 2cm;
}
body {
    font-family: ""Helvetica Neue"", Helvetica, Arial, sans-serif;
    font-size: 10pt;
    line-height: 1.2; /* Single spacing like requested */
    color: #333;
}
h1, h2, h3, h4, h5, h6 {
    color: #000;
    margin-top: 1.5em;
    margin-bottom: 0.5em;
    line-height: 1.2;
}
h1 { font-size: 18pt; border-bottom: 1px solid #ddd; padding-bottom: 0.3em; }
h2 { font-size: 16pt; }
h3 { font-size: 14pt; }
p {
    margin-bottom: 0.8em;
    text-align: justify;
}
code {
    font-family: Consolas, ""Courier New"", monospace;
    background-color: #f5f5f5;
    padding: 2px 4px;
    border-radius: 3px;
    font-size: 0.9em;
}
pre {
    background-color: #f5f5f5;
    padding: 1em;
    border-radius: 5px;
    overflow-x: auto;
    font-family: Consolas, ""Courier New"", monospace;
    font-size: 0.9em;
    border: 1px solid #ddd;
}
/* Table Styling */
table {
    border-collapse: collapse;
    width: 100%;
    margin-bottom: 1em;
    font-size: 0.9em;
}
th, td {
    border: 1px solid #ddd;
    padding: 6px 10px; /* Compact padding */
    text-align: left;
}
th {
    background-color: #f2f2f2;
    font-weight: bold;
}
tr:nth-child(even) {
    background-color: #f9f9f9;
}
blockquote {
    border-left: 4px solid #ddd;
    margin: 0;
    padding-left: 1em;
    color: #666;
}
img {
    max-width: 100%;
    height: auto;
    display: block;
    margin: 1em auto;
}
"

  /** The text before the fragment. */
  const Prefix: string := @"
            <!DOCTYPE html>
            <html>
            <head>
                <meta charset=""UTF-8"">
            </head>
            <body>
                "

  /** The text after the fragment. */
  const Suffix: string := @"
            </body>
            </html>
            "

  const Document: Shell := Shell(Prefix, Suffix)

  /** The style sheet is handed to the renderer on its own, not embedded: each
      text of the shell is shorter than PDF_CSS, so neither contains it. */
  lemma {:induction false} StyleSheetNotInShell()
    ensures |Document.prefix| < |PdfCss| && |Document.suffix| < |PdfCss|
  {
  }

  /** Module start-up: `INPUT_DIR.mkdir(exist_ok=True)`, then the same for
      OUTPUT_DIR, without `parents`; an exception here ends the program. */
  function Startup(fs: FileSystem): Raise<FileSystem> {
    match PathMkdir(fs, InputDir, true)
    case Raised => Raised
    case Ok(fs1) => PathMkdir(fs1, OutputDir, true)
  }

  /** Both directories lie in the working directory, so start-up succeeds
      exactly when each name is a directory or is not taken by a file; it then creates what is
      missing, touches no file, and a second start-up changes nothing. */
  lemma {:induction false} StartupEffect(fs: FileSystem)
    ensures Startup(fs).Ok? <==>
      (InputDir in fs.dirs || InputDir !in fs.files) && (OutputDir in fs.dirs || OutputDir !in fs.files)
    ensures Startup(fs).Ok? ==>
      var fs1 := Startup(fs).value;
      && fs1 == fs.(dirs := fs.dirs + {InputDir, OutputDir})
      && Startup(fs1) == Ok(fs1)
  {
    assert Dirname(InputDir) == "" by { RFindAt(InputDir, '/', -1); }
    assert Dirname(OutputDir) == "" by { RFindAt(OutputDir, '/', -1); }
  }

  /** `MDHandler`: `on_created` and `on_modified` both convert the source path
      when the event is not about a directory and the path's suffix, lower-cased,
      is ".md". There is no `on_moved`, `on_deleted` or `on_closed` handler. */
  function RouteOf(e: Event): Route {
    match e
    case Created(src, isDir) =>
      if !isDir && Lower(PurePath.Suffix(src)) == ".md" then Convert(src) else Ignore
    case Modified(src, isDir) =>
      if !isDir && Lower(PurePath.Suffix(src)) == ".md" then Convert(src) else Ignore
    case _ => Ignore
  }

  /** The file name ends in ".md" in any case after at least one more character:
      a name that is only ".md" has no suffix in `pathlib`. */
  predicate MarkdownName(name: string) {
    |name| >= 4 && MdSuffixAnyCase(name)
  }

  /** The suffix filter, stated on the file name. */
  lemma {:induction false} SuffixIsMd(p: string)
    ensures Lower(PurePath.Suffix(p)) == ".md" <==> MarkdownName(Name(p))
  {
    var name, suf := Name(p), PurePath.Suffix(p);
    StemSuffix(p);
    LowerEndsWithMd(suf);
    if MarkdownName(name) {
      var i := |name| - 3;
      assert name[i] == '.' && name[i + 1] != '.' && name[i + 2] != '.';
      RFindAt(name, '.', i);
      assert suf == name[i..];
    }
    if Lower(suf) == ".md" {
      assert name == Stem(p) + suf;
      assert name[|name| - 3..] == suf;
    }
  }

  /** A created or modified file is converted exactly when it is no directory
      and its name is a Markdown name; moves and other events are ignored. */
  lemma {:induction false} RouteSpec(e: Event)
    ensures RouteOf(e).Convert? <==>
      (e.Created? || e.Modified?) && !e.isDir && MarkdownName(Name(e.src))
    ensures RouteOf(e).Convert? ==> RouteOf(e).path == e.src
    ensures !RouteOf(e).Skip?
  {
    if e.Created? || e.Modified? {
      SuffixIsMd(e.src);
    }
  }

  /** A modification is handled exactly like a creation, and a move never. */
  lemma {:induction false} ModifiedAsCreated(src: string, dest: string, isDir: bool)
    ensures RouteOf(Modified(src, isDir)) == RouteOf(Created(src, isDir))
    ensures RouteOf(Moved(src, dest, isDir)) == Ignore
  {
  }

  /** A file named only ".md" is not converted, unlike by a `splitext` filter. */
  lemma {:induction false} DotMdIgnored()
    ensures RouteOf(Created(".md", false)) == Ignore
  {
    SuffixOfDotName(".md");
  }

  /** `OUTPUT_DIR / (filepath.stem + ".pdf")`. */
  function OutputPath(src: string): string {
    Div(OutputDir, Stem(src) + ".pdf")
  }

  /** The output file lies directly in "output" and is named after the source's
      stem; unless that stem is empty, its own suffix is ".pdf". */
  lemma {:induction false} OutputPathShape(src: string)
    ensures OutputPath(src) == OutputDir + "/" + (Stem(src) + ".pdf")
    ensures Stem(src) != "" ==> Lower(PurePath.Suffix(OutputPath(src))) == ".pdf"
  {
    var name := Stem(src) + ".pdf";
    assert '/' !in name by {
      StemSuffix(src);
    }
    assert OutputPath(src) == OutputDir + "/" + name by {
      DivPlain(OutputDir, name);
    }
    if Stem(src) != "" {
      NameOfChild(OutputDir, name);
      PdfSuffix(OutputDir + "/" + name, Stem(src));
    }
  }

  /** A path whose name is a non-empty stem followed by ".pdf" has suffix ".pdf". */
  lemma {:induction false} PdfSuffix(p: string, stem: string)
    requires Name(p) == stem + ".pdf" && stem != ""
    ensures Lower(PurePath.Suffix(p)) == ".pdf"
  {
    var name := stem + ".pdf";
    var j := |stem|;
    assert name[j..] == ".pdf";
    assert name[j] == '.' && name[j + 1] == 'p' && name[j + 2] == 'd' && name[j + 3] == 'f';
    RFindAt(name, '.', j);
    assert PurePath.Suffix(p) == ".pdf";
    assert Lower(".pdf") == ".pdf";
  }

  /** Two sources with the same stem, wherever they are, share one output file. */
  lemma {:induction false} OutputPathOfStem(p: string, q: string)
    requires Stem(p) == Stem(q)
    ensures OutputPath(p) == OutputPath(q)
  {
  }

  /** `process_file(filepath)`, as a function of the file system: read
      `str(filepath)`, parse it with `Extensions`, compose, then let WeasyPrint
      render with the source's directory as base URL and PDF_CSS as style sheet,
      and write the result. WeasyPrint opens the target only after rendering, so a
      rendering error leaves the file system as it was. */
  function Conversion(fs: FileSystem, src: string, markdown: Markdown,
                      weasy: WeasyPrint): (Outcome, FileSystem)
  {
    var out := OutputPath(src);
    match ReadText(fs, Str(src))
    case Raised => (Caught(Reading), fs)
    case Ok(text) =>
      match markdown(text, Extensions)
      case Raised => (Caught(Parsing), fs)
      case Ok(html) =>
        match weasy(Wrap(Document, html), Parent(src), PdfCss)
        case Raised => (Caught(Rendering), fs)
        case Ok(pdf) =>
          if CanOpenForWrite(fs, out) then (Converted(out), WriteFile(fs, out, pdf))
          else (Caught(Writing), fs)
  }

  /** The step sequence of `process_file`. */
  method ProcessFile(fs: FileSystem, src: string, markdown: Markdown, weasy: WeasyPrint)
    returns (outcome: Outcome, fs': FileSystem)
    ensures (outcome, fs') == Conversion(fs, src, markdown, weasy)
  {
    fs' := fs;
    var read := ReadText(fs, Str(src));
    if read.Raised? {
      outcome := Caught(Reading);
      return;
    }
    var htmlContent := markdown(read.value, Extensions);
    if htmlContent.Raised? {
      outcome := Caught(Parsing);
      return;
    }
    var outputPath := Div(OutputDir, Stem(src) + ".pdf");
    assert outputPath == OutputPath(src);
    var fullHtml := Wrap(Document, htmlContent.value);
    var pdf := weasy(fullHtml, Parent(src), PdfCss);
    if pdf.Raised? {
      outcome := Caught(Rendering);
      return;
    }
    if !CanOpenForWrite(fs, outputPath) {
      outcome := Caught(Writing);
      return;
    }
    fs' := WriteFile(fs, outputPath, pdf.value);
    outcome := Converted(outputPath);
  }

  /** What handling one event does to the file system. */
  function HandleEvent(fs: FileSystem, e: Event, markdown: Markdown,
                       weasy: WeasyPrint): (Outcome, FileSystem)
  {
    match RouteOf(e)
    case Convert(p) => Conversion(fs, p, markdown, weasy)
    case _ => (NotTriggered, fs)
  }

  /** watchdog's dispatch to `on_created` / `on_modified`. */
  method OnEvent(fs: FileSystem, e: Event, markdown: Markdown, weasy: WeasyPrint)
    returns (outcome: Outcome, fs': FileSystem)
    ensures (outcome, fs') == HandleEvent(fs, e, markdown, weasy)
  {
    match RouteOf(e)
    case Convert(p) =>
      outcome, fs' := ProcessFile(fs, p, markdown, weasy);
    case _ =>
      outcome, fs' := NotTriggered, fs;
  }

  /** The conversion is all or nothing: it changes the file system only when it
      succeeds, and then only the output file, which holds the rendered PDF.
      It succeeds exactly when every step does. */
  lemma {:induction false} ConversionEffect(fs: FileSystem, src: string, markdown: Markdown,
                                            weasy: WeasyPrint)
    ensures var (outcome, fs') := Conversion(fs, src, markdown, weasy);
      var out := OutputPath(src);
      && (outcome.Converted? <==>
            && Str(src) in fs.files
            && markdown(fs.files[Str(src)], Extensions).Ok?
            && weasy(Wrap(Document, markdown(fs.files[Str(src)], Extensions).value),
                     Parent(src), PdfCss).Ok?
            && CanOpenForWrite(fs, out))
      && (!outcome.Converted? ==> fs' == fs)
      && (outcome.Converted? ==> (outcome.output == out &&
            fs' == WriteFile(fs, out, weasy(Wrap(Document, markdown(fs.files[Str(src)],
                                                  Extensions).value), Parent(src), PdfCss).value)))
  {
  }

  /** A source that cannot be read ends the conversion before the parser or the
      renderer is called. */
  lemma {:induction false} ReadFailureCallsNothing(fs: FileSystem, src: string,
                                                   m1: Markdown, w1: WeasyPrint,
                                                   m2: Markdown, w2: WeasyPrint)
    requires Str(src) !in fs.files
    ensures Conversion(fs, src, m1, w1) == (Caught(Reading), fs)
    ensures Conversion(fs, src, m1, w1) == Conversion(fs, src, m2, w2)
  {
  }

  /** `str()` of a path with at least one part ends with its name. */
  lemma {:induction false} StrEndsWithName(p: string)
    requires Parts(p) != []
    ensures EndsWith(Str(p), Name(p))
  {
    var ps := Parts(p);
    var j := JoinParts(ps);
    assert EndsWith(j, ps[|ps| - 1]);
    var s := Str(p);
    assert s == Root(p) + j;
    assert s[|s| - |Name(p)|..] == j[|j| - |Name(p)|..];
  }

  /** A Markdown source is never its own output file: the one ends in "d" or
      "D", the other in "f". */
  lemma {:induction false} SourceIsNotOutput(src: string)
    requires MarkdownName(Name(src))
    ensures Str(src) != OutputPath(src)
  {
    SourceEndsInD(src);
    OutputEndsInF(src);
  }

  /** `str()` of a Markdown source ends in its name's last letter. */
  lemma {:induction false} SourceEndsInD(src: string)
    requires MarkdownName(Name(src))
    ensures Str(src) != [] && Str(src)[|Str(src)| - 1] in {'d', 'D'}
  {
    var s, n := Str(src), Name(src);
    assert Parts(src) != [];
    StrEndsWithName(src);
    assert s[|s| - 1] == s[|s| - |n|..][|n| - 1];
  }

  /** The output path ends in the "f" of ".pdf". */
  lemma {:induction false} OutputEndsInF(src: string)
    ensures OutputPath(src) != [] && OutputPath(src)[|OutputPath(src)| - 1] == 'f'
  {
    OutputPathShape(src);
    var o, name := OutputPath(src), Stem(src) + ".pdf";
    assert o == OutputDir + "/" + name;
    assert o[|o| - 1] == name[|name| - 1];
  }

  /** No debounce: an event handled again on the result writes the output once
      more, with what the renderer returns for the same document, and reports the
      same. The renderer is a function here, so it returns the same bytes. */
  lemma {:induction false} RepeatedEventIdempotent(fs: FileSystem, e: Event,
                                                   markdown: Markdown, weasy: WeasyPrint)
    ensures var (outcome, fs1) := HandleEvent(fs, e, markdown, weasy);
      HandleEvent(fs1, e, markdown, weasy) == (outcome, fs1)
  {
    RouteSpec(e);
    if RouteOf(e).Convert? {
      var src := e.src;
      SourceIsNotOutput(src);
      var (outcome, fs1) := Conversion(fs, src, markdown, weasy);
      if outcome.Converted? {
        var out := OutputPath(src);
        assert fs1.files[Str(src)] == fs.files[Str(src)];
        assert CanOpenForWrite(fs1, out);
        var pdf := weasy(Wrap(Document, markdown(fs.files[Str(src)], Extensions).value),
                         Parent(src), PdfCss).value;
        WriteFileTwice(fs, out, pdf, pdf);
      }
    }
  }
}
