/** The watcher of md2pdf_workspace/main.py: a Markdown file created in, or moved
    into, INPUT_DIR is converted with xhtml2pdf into OUTPUT_DIR, under a `try` that
    catches and logs every exception. */
module WatchMain {
  import opened PyPath
  import opened Fs
  import opened Watch

  /** INPUT_DIR and OUTPUT_DIR. */
  datatype Layout = Layout(inputDir: string, outputDir: string)

  /** `os.path.abspath("input")` and `os.path.abspath("output")` for a working
      directory `cwd` that is absolute and normalised, as `os.getcwd()` returns it. */
  function LayoutAt(cwd: string): Layout {
    Layout(Join(cwd, "input"), Join(cwd, "output"))
  }

  /** The Markdown extensions the parser is called with. */
  const Extensions: seq<string> := ["tables", "fenced_code"]

  /** The text before the fragment: the document head with its style sheet. */
  const Prefix: string := @"
        <html>
        <head>
        <style>
            @page {
                size: A4;
                margin: 2cm;
            }
            body {
                font-family: Helvetica, sans-serif;
                font-size: 12pt;
            }
            table {
                border: 1px solid black;
                border-collapse: collapse;
                width: 100%;
                margin-bottom: 1em;
            }
            th, td {
                border: 1px solid black;
                padding: 5px;
                text-align: left;
            }
            th {
                background-color: #f2f2f2;
                font-weight: bold;
            }
            code {
                font-family: Courier;
                background-color: #f5f5f5;
            }
            pre {
                background-color: #f5f5f5;
                padding: 10px;
                border: 1px solid #ccc;
            }
        </style>
        </head>
        <body>
        "

  /** The text after the fragment. */
  const Suffix: string := @"
        </body>
        </html>
        "

  const Document: Shell := Shell(Prefix, Suffix)

  /** Module start-up: `os.makedirs(INPUT_DIR, exist_ok=True)`, then the same for
      OUTPUT_DIR; an exception here ends the program. */
  function Startup(fs: FileSystem, layout: Layout): Raise<FileSystem> {
    match MakeDirs(fs, layout.inputDir, true)
    case Raised => Raised
    case Ok(fs1) => MakeDirs(fs1, layout.outputDir, true)
  }

  /** Start-up creates both directories, touches no file, and a second start-up
      on its result changes nothing. */
  lemma {:induction false} StartupIdempotent(fs: FileSystem, layout: Layout)
    requires Startup(fs, layout).Ok?
    ensures var fs1 := Startup(fs, layout).value;
      && fs1.files == fs.files && fs.dirs <= fs1.dirs
      && layout.inputDir in fs1.dirs && layout.outputDir in fs1.dirs
      && Startup(fs1, layout) == Ok(fs1)
  {
    var fs0 := MakeDirs(fs, layout.inputDir, true).value;
    MakeDirsGrows(fs, layout.inputDir, true);
    MakeDirsGrows(fs0, layout.outputDir, true);
    var fs1 := Startup(fs, layout).value;
    MakeDirsExistOk(fs1, layout.inputDir);
    MakeDirsExistOk(fs1, layout.outputDir);
  }

  /** Directories that already exist are accepted as they are. */
  lemma {:induction false} StartupExisting(fs: FileSystem, layout: Layout)
    requires layout.inputDir in fs.dirs && layout.outputDir in fs.dirs
    ensures Startup(fs, layout) == Ok(fs)
  {
    MakeDirsExistOk(fs, layout.inputDir);
    MakeDirsExistOk(fs, layout.outputDir);
  }

  /** `MDHandler`: `on_created` converts the source path and `on_moved` the
      destination path, each when the event is not about a directory and the
      lower-cased path ends with ".md"; every other event kind is ignored. */
  function RouteOf(e: Event): Route {
    match e
    case Created(src, isDir) =>
      if !isDir && EndsWith(Lower(src), ".md") then Convert(src) else Ignore
    case Moved(_, dest, isDir) =>
      if !isDir && EndsWith(Lower(dest), ".md") then Convert(dest) else Ignore
    case _ => Ignore
  }

  /** A created file is converted exactly when it is no directory and its name
      ends in ".md" in any case. */
  lemma {:induction false} CreatedRoute(src: string, isDir: bool)
    ensures RouteOf(Created(src, isDir)) ==
      if !isDir && MdSuffixAnyCase(src) then Convert(src) else Ignore
  {
    LowerEndsWithMd(src);
  }

  /** A move is routed as if its destination had been created; the source path
      plays no part. */
  lemma {:induction false} MovedRoute(src: string, dest: string, isDir: bool)
    ensures RouteOf(Moved(src, dest, isDir)) == RouteOf(Created(dest, isDir))
    ensures RouteOf(Moved(src, dest, isDir)).Convert? ==>
      RouteOf(Moved(src, dest, isDir)).path == dest
  {
  }

  /** There is no `on_modified` (nor `on_deleted`, `on_closed`) handler. */
  lemma {:induction false} OtherEventsIgnored(src: string, isDir: bool)
    ensures RouteOf(Modified(src, isDir)) == Ignore
    ensures RouteOf(Deleted(src, isDir)) == Ignore
    ensures RouteOf(Closed(src, isDir)) == Ignore
  {
  }

  lemma {:induction false} RouteExamples()
    ensures RouteOf(Created("/w/input/notes.MD", false)) == Convert("/w/input/notes.MD")
    ensures RouteOf(Created("/w/input/notes.txt", false)) == Ignore
    ensures RouteOf(Created("/w/input/sub.md", true)) == Ignore
    ensures RouteOf(Moved("/tmp/x.txt", "/w/input/x.Md", false)) == Convert("/w/input/x.Md")
  {
    CreatedRoute("/w/input/notes.MD", false);
    CreatedRoute("/w/input/notes.txt", false);
    CreatedRoute("/w/input/x.Md", false);
  }

  /** `os.path.join(OUTPUT_DIR, f"{name}.pdf")` where `name` is the base name of
      the input without its last extension. */
  function OutputPath(layout: Layout, inputPath: string): string {
    Join(layout.outputDir, Splitext(Basename(inputPath)).0 + ".pdf")
  }

  /** The output file's name is the input's base name with its last extension
      (if any) replaced by ".pdf", and it lies directly in OUTPUT_DIR. */
  lemma {:induction false} OutputPathShape(layout: Layout, inputPath: string)
    ensures var (stem, ext) := Splitext(Basename(inputPath));
      && stem + ext == Basename(inputPath)
      && Basename(OutputPath(layout, inputPath)) == stem + ".pdf"
      && (layout.outputDir != [] && layout.outputDir[|layout.outputDir| - 1] != '/' &&
          !AllSlashes(layout.outputDir) ==>
            Dirname(OutputPath(layout, inputPath)) == layout.outputDir)
  {
    var stem := Splitext(Basename(inputPath)).0;
    SplitextParts(Basename(inputPath));
    StemOfBasename(inputPath);
    assert '/' !in stem + ".pdf";
    JoinFile(layout.outputDir, stem + ".pdf");
  }

  /** The source's directory plays no part in the output path. */
  lemma {:induction false} OutputPathIgnoresDirectory(layout: Layout, p: string, q: string)
    requires Basename(p) == Basename(q)
    ensures OutputPath(layout, p) == OutputPath(layout, q)
  {
  }

  /** The output path ends in ".pdf", so it is never a path the handler routes
      for conversion. */
  lemma {:induction false} OutputPathIsNotMarkdown(layout: Layout, p: string)
    requires EndsWith(Lower(p), ".md")
    ensures OutputPath(layout, p) != p
  {
    var stem := Splitext(Basename(p)).0;
    var name := stem + ".pdf";
    StemOfBasename(p);
    assert name[0] != '/' by {
      if stem != [] { assert name[0] == stem[0]; }
    }
    JoinEndsWith(layout.outputDir, name);
    LowerEndsWithMd(p);
    var o := OutputPath(layout, p);
    assert o[|o| - 1] == name[|name| - 1] == 'f';
  }

  /** A file named ".md", in any directory, has no extension in `splitext`, so
      the whole name is kept and ".pdf" appended. */
  lemma {:induction false} OutputPathOfDotName(layout: Layout, dir: string)
    ensures OutputPath(layout, Join(dir, ".md")) == Join(layout.outputDir, ".md.pdf")
  {
    DotMdRoot(dir);
    assert ".md" + ".pdf" == ".md.pdf";
  }

  /** `convert_md_to_pdf(input_path)`, as a function of the file system: read the
      source, parse it with `Extensions`, compose, open the output file for writing
      (which empties it), let xhtml2pdf write into it, then report. Every exception
      ends the conversion at its step with what was written so far. */
  function Conversion(fs: FileSystem, layout: Layout, inputPath: string,
                      markdown: Markdown, pisa: Pisa): (Outcome, FileSystem)
  {
    var out := OutputPath(layout, inputPath);
    match ReadText(fs, inputPath)
    case Raised => (Caught(Reading), fs)
    case Ok(text) =>
      match markdown(text, Extensions)
      case Raised => (Caught(Parsing), fs)
      case Ok(html) =>
        if !CanOpenForWrite(fs, out) then (Caught(Writing), fs)
        else
          match pisa(Wrap(Document, html))
          case RaisedAfter(written) => (Caught(Rendering), WriteFile(fs, out, written))
          case Finished(written, err) =>
            (if err != 0 then RenderError(out) else Converted(out), WriteFile(fs, out, written))
  }

  /** The step sequence of `convert_md_to_pdf`. */
  method ConvertMdToPdf(fs: FileSystem, layout: Layout, inputPath: string,
                        markdown: Markdown, pisa: Pisa)
    returns (outcome: Outcome, fs': FileSystem)
    ensures (outcome, fs') == Conversion(fs, layout, inputPath, markdown, pisa)
  {
    fs' := fs;
    var name := Splitext(Basename(inputPath)).0;
    var outputPath := Join(layout.outputDir, name + ".pdf");
    // 1. read the Markdown
    var read := ReadText(fs', inputPath);
    if read.Raised? {
      outcome := Caught(Reading);
      return;
    }
    // 2. convert it to HTML
    var parsed := markdown(read.value, Extensions);
    if parsed.Raised? {
      outcome := Caught(Parsing);
      return;
    }
    // 3. add the styling
    var fullHtml := Wrap(Document, parsed.value);
    // 4. open the output file, then let the renderer write into it
    if !CanOpenForWrite(fs', outputPath) {
      outcome := Caught(Writing);
      return;
    }
    fs' := WriteFile(fs', outputPath, "");
    var status := pisa(fullHtml);
    WriteFileTwice(fs, outputPath, "", status.written);
    fs' := WriteFile(fs', outputPath, status.written);
    if status.RaisedAfter? {
      outcome := Caught(Rendering);
    } else if status.err != 0 {
      outcome := RenderError(outputPath);
    } else {
      outcome := Converted(outputPath);
    }
  }

  /** What handling one event does to the file system. */
  function HandleEvent(fs: FileSystem, layout: Layout, e: Event,
                       markdown: Markdown, pisa: Pisa): (Outcome, FileSystem)
  {
    match RouteOf(e)
    case Convert(p) => Conversion(fs, layout, p, markdown, pisa)
    case _ => (NotTriggered, fs)
  }

  /** watchdog's dispatch to `on_created` / `on_moved`. */
  method OnEvent(fs: FileSystem, layout: Layout, e: Event, markdown: Markdown, pisa: Pisa)
    returns (outcome: Outcome, fs': FileSystem)
    ensures (outcome, fs') == HandleEvent(fs, layout, e, markdown, pisa)
  {
    match RouteOf(e)
    case Convert(p) =>
      outcome, fs' := ConvertMdToPdf(fs, layout, p, markdown, pisa);
    case _ =>
      outcome, fs' := NotTriggered, fs;
  }

  /** A conversion changes at most the output file: no directory, and no other
      file. It reports success exactly when the renderer finished without error,
      and then the output file holds what the renderer wrote. */
  lemma {:induction false} ConversionEffect(fs: FileSystem, layout: Layout, inputPath: string,
                         markdown: Markdown, pisa: Pisa)
    ensures var (outcome, fs') := Conversion(fs, layout, inputPath, markdown, pisa);
      var out := OutputPath(layout, inputPath);
      && fs'.dirs == fs.dirs
      && (fs' == fs || (out in fs'.files && fs' == WriteFile(fs, out, fs'.files[out])))
      && (outcome.Converted? <==>
            && inputPath in fs.files
            && markdown(fs.files[inputPath], Extensions).Ok?
            && CanOpenForWrite(fs, out)
            && pisa(Wrap(Document, markdown(fs.files[inputPath], Extensions).value)).Finished?
            && pisa(Wrap(Document, markdown(fs.files[inputPath], Extensions).value)).err == 0)
      && (outcome.Converted? ==> (outcome.output == out &&
            fs'.files[out] == pisa(Wrap(Document, markdown(fs.files[inputPath], Extensions).value)).written))
  {
  }

  /** The output file is opened before rendering, so a renderer error or
      exception still replaces any earlier PDF of the same name with what the
      renderer wrote, possibly nothing. */
  lemma {:induction false} FailedRenderReplacesOutput(fs: FileSystem, layout: Layout, inputPath: string,
                                   markdown: Markdown, pisa: Pisa)
    requires var outcome := Conversion(fs, layout, inputPath, markdown, pisa).0;
      outcome.RenderError? || outcome == Caught(Rendering)
    ensures var out := OutputPath(layout, inputPath);
      var html := markdown(fs.files[inputPath], Extensions).value;
      Conversion(fs, layout, inputPath, markdown, pisa).1 == WriteFile(fs, out, pisa(Wrap(Document, html)).written)
  {
  }

  /** A source that cannot be read ends the conversion before the parser or the
      renderer is called: the result is the same whatever they would do. */
  lemma {:induction false} ReadFailureCallsNothing(fs: FileSystem, layout: Layout, inputPath: string,
                                m1: Markdown, p1: Pisa, m2: Markdown, p2: Pisa)
    requires inputPath !in fs.files
    ensures Conversion(fs, layout, inputPath, m1, p1) == (Caught(Reading), fs)
    ensures Conversion(fs, layout, inputPath, m1, p1) == Conversion(fs, layout, inputPath, m2, p2)
  {
  }

  /** A conversion repeated on its own result changes nothing more and reports
      the same, provided the source is not its own output file. The output is
      rewritten with what the renderer returns for the same document, which, the
      renderer being a function here, is what it returned the first time. */
  lemma {:induction false} ConversionIdempotent(fs: FileSystem, layout: Layout, inputPath: string,
                                                markdown: Markdown, pisa: Pisa)
    requires inputPath != OutputPath(layout, inputPath)
    ensures var (outcome, fs1) := Conversion(fs, layout, inputPath, markdown, pisa);
      Conversion(fs1, layout, inputPath, markdown, pisa) == (outcome, fs1)
  {
    var (outcome, fs1) := Conversion(fs, layout, inputPath, markdown, pisa);
    var out := OutputPath(layout, inputPath);
    if fs1 != fs {
      assert fs1.files[inputPath] == fs.files[inputPath];
      assert CanOpenForWrite(fs1, out);
      var html := markdown(fs.files[inputPath], Extensions).value;
      assert WriteFile(fs1, out, pisa(Wrap(Document, html)).written) == fs1;
    }
  }

  /** No debounce: the same event handled again on the result rewrites the same
      output file, with what the renderer returns for the same document, and
      reports the same. */
  lemma {:induction false} RepeatedEventIdempotent(fs: FileSystem, layout: Layout, e: Event,
                                markdown: Markdown, pisa: Pisa)
    ensures var (outcome, fs1) := HandleEvent(fs, layout, e, markdown, pisa);
      HandleEvent(fs1, layout, e, markdown, pisa) == (outcome, fs1)
  {
    if RouteOf(e).Convert? {
      var p := RouteOf(e).path;
      OutputPathIsNotMarkdown(layout, p);
      ConversionIdempotent(fs, layout, p, markdown, pisa);
    }
  }
}
