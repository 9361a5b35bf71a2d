/** The watcher of pdf_converter.py: a Markdown file created, modified or moved
    into `pdf_workspace/input` is converted with xhtml2pdf into the `output`
    directory next to the directory the file is in, under a `try` that catches
    and logs every exception. */
module PdfConverter {
  import opened PyPath
  import opened Fs
  import opened Watch

  /** `os.path.join(os.getcwd(), 'pdf_workspace', 'input')`. */
  function WatchedDir(cwd: string): string {
    Join(Join(cwd, "pdf_workspace"), "input")
  }

  /** Start-up: the watched directory is created, with its parents, unless a
      file or directory of that name exists; an exception ends the program. */
  function Startup(fs: FileSystem, cwd: string): Raise<FileSystem> {
    var path := WatchedDir(cwd);
    if Exists(fs, path) then Ok(fs) else MakeDirs(fs, path, false)
  }

  /** Start-up on success leaves the watched path in place, touches no file,
      and a second start-up changes nothing. */
  lemma {:induction false} StartupEffect(fs: FileSystem, cwd: string)
    requires Startup(fs, cwd).Ok?
    ensures var fs1 := Startup(fs, cwd).value;
      && fs1.files == fs.files && fs.dirs <= fs1.dirs
      && Exists(fs1, WatchedDir(cwd))
      && Startup(fs1, cwd) == Ok(fs1)
  {
    if !Exists(fs, WatchedDir(cwd)) {
      MakeDirsGrows(fs, WatchedDir(cwd), false);
    }
  }

  /** `os.path.getsize` of an existing entry: the length of a file's content,
      and a positive size for a directory. */
  function Size(fs: FileSystem, p: string): nat
    requires Exists(fs, p)
  {
    if p in fs.files then |fs.files[p]| else DirectorySize
  }

  /** `st_size` of a directory; any positive value routes the same way. */
  const DirectorySize: nat := 4096

  /** `MDHandler`: `on_created` and `on_modified` call `process`, which converts
      the source path of an event that is not about a directory, whose path ends
      with ".md" (case-sensitively), and whose file exists with a positive size;
      an existing-but-empty or missing file is skipped. `on_moved` converts the
      destination whenever it ends with ".md", without checking kind or size. */
  function RouteOf(fs: FileSystem, e: Event): Route {
    match e
    case Created(src, isDir) => Process(fs, src, isDir)
    case Modified(src, isDir) => Process(fs, src, isDir)
    case Moved(_, dest, _) => if EndsWith(dest, ".md") then Convert(dest) else Ignore
    case _ => Ignore
  }

  /** `process(event)`. */
  function Process(fs: FileSystem, src: string, isDir: bool): Route {
    if isDir || !EndsWith(src, ".md") then Ignore
    else if Exists(fs, src) && Size(fs, src) > 0 then Convert(src)
    else Skip
  }

  /** A created or modified file is converted exactly when it is no directory,
      its path ends in ".md" in lower case, and it is a non-empty file or a
      directory; a file that is missing or empty is skipped. */
  lemma {:induction false} ProcessSpec(fs: FileSystem, src: string, isDir: bool)
    ensures Process(fs, src, isDir).Convert? <==>
      !isDir && EndsWith(src, ".md") &&
      ((src in fs.files && fs.files[src] != "") || (src !in fs.files && src in fs.dirs))
    ensures Process(fs, src, isDir).Convert? ==> Process(fs, src, isDir).path == src
    ensures Process(fs, src, isDir) == Skip <==>
      !isDir && EndsWith(src, ".md") && (src in fs.files ==> fs.files[src] == "") && (src !in fs.files ==> src !in fs.dirs)
  {
  }

  /** A move converts its destination whatever the file system holds and even
      for a directory; only the destination's name is looked at. */
  lemma {:induction false} MovedRoute(fs1: FileSystem, fs2: FileSystem, src1: string, src2: string,
                                      dest: string, isDir1: bool, isDir2: bool)
    ensures RouteOf(fs1, Moved(src1, dest, isDir1)) == RouteOf(fs2, Moved(src2, dest, isDir2))
    ensures RouteOf(fs1, Moved(src1, dest, isDir1)) == if EndsWith(dest, ".md") then Convert(dest) else Ignore
  {
  }

  /** The filter is case-sensitive: an upper-case extension is ignored. */
  lemma {:induction false} UpperCaseIgnored(fs: FileSystem)
    ensures RouteOf(fs, Created("/w/pdf_workspace/input/notes.MD", false)) == Ignore
    ensures RouteOf(fs, Moved("/tmp/x", "/w/pdf_workspace/input/notes.MD", false)) == Ignore
  {
    var p := "/w/pdf_workspace/input/notes.MD";
    assert p[|p| - 3..] == ".MD";
  }

  /** The output directory: `output` under the directory containing the
      directory the source is in. */
  function OutputDirOf(filePath: string): string {
    Join(Dirname(Dirname(filePath)), "output")
  }

  /** The output file: the source's base name without its last extension, plus
      ".pdf", in the output directory. */
  function OutputPath(filePath: string): string {
    Join(OutputDirOf(filePath), Splitext(Basename(filePath)).0 + ".pdf")
  }

  /** A file `name` in `workspace/input` is converted into `workspace/output`: the
      output directory is a sibling of the input directory. */
  lemma {:induction false} OutputDirIsSibling(workspace: string, name: string)
    requires workspace != [] && workspace[|workspace| - 1] != '/' && !AllSlashes(workspace)
    requires '/' !in name && name != []
    ensures OutputDirOf(Join(Join(workspace, "input"), name)) == Join(workspace, "output")
  {
    var input := Join(workspace, "input");
    assert input == workspace + "/" + "input";
    assert !AllSlashes(input) by { assert input[|input| - 1] == 't'; }
    JoinFile(input, name);
    JoinFile(workspace, "input");
  }

  /** The output file lies in the output directory and is named after the
      source's base name with ".pdf" in place of its last extension. */
  lemma {:induction false} OutputPathShape(filePath: string)
    ensures Dirname(OutputPath(filePath)) == OutputDirOf(filePath)
    ensures Basename(OutputPath(filePath)) == Splitext(Basename(filePath)).0 + ".pdf"
    ensures EndsWith(OutputPath(filePath), ".pdf")
  {
    var name := Splitext(Basename(filePath)).0 + ".pdf";
    assert '/' !in name by {
      StemOfBasename(filePath);
    }
    assert OutputDirOf(filePath)[|OutputDirOf(filePath)| - 1] == 't';
    JoinFile(OutputDirOf(filePath), name);
    JoinEndsWith(OutputDirOf(filePath), name);
    PdfEnding(OutputPath(filePath), Splitext(Basename(filePath)).0);
  }

  /** What ends with a name ending in ".pdf" ends in ".pdf". */
  lemma {:induction false} PdfEnding(o: string, stem: string)
    requires EndsWith(o, stem + ".pdf")
    ensures EndsWith(o, ".pdf")
  {
    var name := stem + ".pdf";
    assert name[|name| - 4..] == ".pdf";
    assert o[|o| - 4..] == o[|o| - |name|..][|name| - 4..];
  }

  /** The output file is never a source the handlers route, which ends in ".md". */
  lemma {:induction false} OutputIsNotSource(filePath: string)
    requires EndsWith(filePath, ".md")
    ensures OutputPath(filePath) != filePath
  {
    OutputPathShape(filePath);
    var o := OutputPath(filePath);
    assert o[|o| - 1] == o[|o| - 4..][3] == 'f';
    assert filePath[|filePath| - 1] == filePath[|filePath| - 3..][2] == 'd';
  }

  /** The style sheet the document head carries. */
  const Css: string := @"
            <style>
                body { font-family: sans-serif; }
                h1 { color: #2c3e50; }
                p { line-height: 1.5; }
                code { background-color: #f4f4f4; padding: 2px 5px; border-radius: 3px; }
                pre { background-color: #f4f4f4; padding: 10px; border-radius: 5px; overflow-x: auto;}
            </style>
            "

  /** `f"<html><head>{css}</head><body>{html}</body></html>"`. */
  const Document: Shell := Shell("<html><head>" + Css + "</head><body>", "</body></html>")

  /** The first step of `convert_to_pdf`: `os.makedirs(output_dir)` unless an entry
      of that name exists. It runs before the source is read. */
  function Prepare(fs: FileSystem, filePath: string): Raise<FileSystem> {
    var outputDir := OutputDirOf(filePath);
    if Exists(fs, outputDir) then Ok(fs) else MakeDirs(fs, outputDir, false)
  }

  /** The rest of `convert_to_pdf`: read the source, parse it without extensions,
      compose, open the output file for writing (which empties it), let xhtml2pdf
      write into it, then report. */
  function Render(fs: FileSystem, filePath: string, markdown: Markdown, pisa: Pisa): (Outcome, FileSystem) {
    var out := OutputPath(filePath);
    match ReadText(fs, filePath)
    case Raised => (Caught(Reading), fs)
    case Ok(text) =>
      match markdown(text, [])
      case Raised => (Caught(Parsing), fs)
      case Ok(html) =>
        if !CanOpenForWrite(fs, out) then (Caught(Writing), fs)
        else
          match pisa(Wrap(Document, html))
          case RaisedAfter(written) => (Caught(Rendering), WriteFile(fs, out, written))
          case Finished(written, err) =>
            (if err != 0 then RenderError(out) else Converted(out), WriteFile(fs, out, written))
  }

  /** `convert_to_pdf(file_path)`, as a function of the file system. Every
      exception ends the conversion at its step, keeping what was done before. */
  function Conversion(fs: FileSystem, filePath: string, markdown: Markdown, pisa: Pisa): (Outcome, FileSystem) {
    match Prepare(fs, filePath)
    case Raised => (Caught(MakingDir), fs)
    case Ok(fs1) => Render(fs1, filePath, markdown, pisa)
  }

  /** The step sequence of `convert_to_pdf`. */
  method ConvertToPdf(fs: FileSystem, filePath: string, markdown: Markdown, pisa: Pisa)
    returns (outcome: Outcome, fs': FileSystem)
    ensures (outcome, fs') == Conversion(fs, filePath, markdown, pisa)
  {
    fs' := fs;
    var baseName := Basename(filePath);
    var fileNameNoExt := Splitext(baseName).0;
    var inputDir := Dirname(filePath);
    var workspaceDir := Dirname(inputDir);
    var outputDir := Join(workspaceDir, "output");
    if !Exists(fs', outputDir) {
      var made := MakeDirs(fs', outputDir, false);
      if made.Raised? {
        outcome := Caught(MakingDir);
        return;
      }
      fs' := made.value;
    }
    ghost var prepared := fs';
    var outputPath := Join(outputDir, fileNameNoExt + ".pdf");
    var read := ReadText(fs', filePath);
    if read.Raised? {
      outcome := Caught(Reading);
      return;
    }
    var html := markdown(read.value, []);
    if html.Raised? {
      outcome := Caught(Parsing);
      return;
    }
    var fullHtml := Wrap(Document, html.value);
    if !CanOpenForWrite(fs', outputPath) {
      outcome := Caught(Writing);
      return;
    }
    fs' := WriteFile(fs', outputPath, "");
    var pisaStatus := pisa(fullHtml);
    WriteFileTwice(prepared, outputPath, "", pisaStatus.written);
    fs' := WriteFile(fs', outputPath, pisaStatus.written);
    if pisaStatus.RaisedAfter? {
      outcome := Caught(Rendering);
    } else if pisaStatus.err != 0 {
      outcome := RenderError(outputPath);
    } else {
      outcome := Converted(outputPath);
    }
  }

  /** What handling one event does to the file system. */
  function HandleEvent(fs: FileSystem, e: Event, markdown: Markdown, pisa: Pisa): (Outcome, FileSystem) {
    match RouteOf(fs, e)
    case Convert(p) => Conversion(fs, p, markdown, pisa)
    case Skip => (Skipped, fs)
    case Ignore => (NotTriggered, fs)
  }

  /** watchdog's dispatch to `on_created`, `on_modified` and `on_moved`. */
  method OnEvent(fs: FileSystem, e: Event, markdown: Markdown, pisa: Pisa)
    returns (outcome: Outcome, fs': FileSystem)
    ensures (outcome, fs') == HandleEvent(fs, e, markdown, pisa)
  {
    var route := RouteOf(fs, e);
    match route
    case Convert(p) =>
      outcome, fs' := ConvertToPdf(fs, p, markdown, pisa);
    case Skip =>
      outcome, fs' := Skipped, fs;
    case Ignore =>
      outcome, fs' := NotTriggered, fs;
  }

  /** Preparing creates at most the output directory and its ancestors, touches
      no file, and leaves an entry named like the output directory. */
  lemma {:induction false} PrepareEffect(fs: FileSystem, filePath: string)
    requires Prepare(fs, filePath).Ok?
    ensures var fs1 := Prepare(fs, filePath).value;
      && fs1.files == fs.files && fs.dirs <= fs1.dirs
      && Exists(fs1, OutputDirOf(filePath))
      && Prepare(fs1, filePath) == Ok(fs1)
  {
    if !Exists(fs, OutputDirOf(filePath)) {
      MakeDirsGrows(fs, OutputDirOf(filePath), false);
    }
  }

  /** The output directory is created before the source is read: a source that
      cannot be read still leaves the output directory behind. */
  lemma {:induction false} ReadFailureAfterMakingDir(fs: FileSystem, filePath: string,
                                                     markdown: Markdown, pisa: Pisa)
    requires filePath !in fs.files && !Exists(fs, OutputDirOf(filePath))
    requires MakeDirs(fs, OutputDirOf(filePath), false).Ok?
    ensures Conversion(fs, filePath, markdown, pisa) ==
      (Caught(Reading), MakeDirs(fs, OutputDirOf(filePath), false).value)
  {
    MakeDirsGrows(fs, OutputDirOf(filePath), false);
  }

  /** A conversion changes only the output file and directories: no other file,
      and no directory disappears. It reports success exactly when the output
      directory could be prepared, the source read and parsed, the output opened,
      and the renderer finished without error. */
  lemma {:induction false} ConversionEffect(fs: FileSystem, filePath: string,
                                            markdown: Markdown, pisa: Pisa)
    ensures var (outcome, fs') := Conversion(fs, filePath, markdown, pisa);
      var out := OutputPath(filePath);
      && fs.dirs <= fs'.dirs
      && (forall p :: p in fs.files && p != out ==> p in fs'.files && fs'.files[p] == fs.files[p])
      && (forall p :: p in fs'.files && p != out ==> p in fs.files)
      && (outcome.Converted? <==>
            && Prepare(fs, filePath).Ok?
            && var fs1 := Prepare(fs, filePath).value;
            && filePath in fs.files
            && markdown(fs.files[filePath], []).Ok?
            && CanOpenForWrite(fs1, out)
            && pisa(Wrap(Document, markdown(fs.files[filePath], []).value)).Finished?
            && pisa(Wrap(Document, markdown(fs.files[filePath], []).value)).err == 0)
  {
    if Prepare(fs, filePath).Ok? {
      PrepareEffect(fs, filePath);
    }
  }

  /** A successful conversion leaves in the output file what the renderer wrote
      for the composed document. */
  lemma {:induction false} ConversionOutput(fs: FileSystem, filePath: string,
                                            markdown: Markdown, pisa: Pisa)
    requires Conversion(fs, filePath, markdown, pisa).0.Converted?
    ensures filePath in fs.files && markdown(fs.files[filePath], []).Ok?
    ensures var (outcome, fs') := Conversion(fs, filePath, markdown, pisa);
      && outcome.output == OutputPath(filePath)
      && OutputPath(filePath) in fs'.files
      && fs'.files[OutputPath(filePath)] == pisa(Wrap(Document, markdown(fs.files[filePath], []).value)).written
  {
    ConversionEffect(fs, filePath, markdown, pisa);
    PrepareEffect(fs, filePath);
  }

  /** Rendering again on the result of rendering gives the same outcome and
      writes what the renderer returns for the same document: the source, which
      is not the output, is unchanged, and the output can still be opened. */
  lemma {:induction false} RenderIdempotent(fs: FileSystem, filePath: string,
                                            markdown: Markdown, pisa: Pisa)
    requires filePath != OutputPath(filePath)
    ensures var (outcome, fs1) := Render(fs, filePath, markdown, pisa);
      fs1.dirs == fs.dirs && Render(fs1, filePath, markdown, pisa) == (outcome, fs1)
  {
    var out := OutputPath(filePath);
    var fs1 := Render(fs, filePath, markdown, pisa).1;
    if fs1 != fs {
      var html := markdown(fs.files[filePath], []).value;
      var written := pisa(Wrap(Document, html)).written;
      assert fs1 == WriteFile(fs, out, written);
      assert ReadText(fs1, filePath) == ReadText(fs, filePath);
      assert CanOpenForWrite(fs1, out);
      WriteFileTwice(fs, out, written, written);
    }
  }

  /** A conversion repeated on its own result changes nothing more and reports
      the same, when the source is not its own output file. The output is
      rewritten with what the renderer returns for the same document, which, the
      renderer being a function here, is what it returned the first time. */
  lemma {:induction false} ConversionIdempotent(fs: FileSystem, filePath: string,
                                                markdown: Markdown, pisa: Pisa)
    requires filePath != OutputPath(filePath)
    ensures var (outcome, fs1) := Conversion(fs, filePath, markdown, pisa);
      Conversion(fs1, filePath, markdown, pisa) == (outcome, fs1)
  {
    if Prepare(fs, filePath).Ok? {
      var fs0 := Prepare(fs, filePath).value;
      PrepareEffect(fs, filePath);
      RenderIdempotent(fs0, filePath, markdown, pisa);
      var fs1 := Render(fs0, filePath, markdown, pisa).1;
      assert Exists(fs1, OutputDirOf(filePath));
      assert Prepare(fs1, filePath) == Ok(fs1);
    }
  }

  /** A file system that keeps the source as it was, and every directory, routes a
      converted path the same way again. */
  lemma {:induction false} ProcessKept(fs: FileSystem, fs1: FileSystem, src: string, isDir: bool)
    requires Process(fs, src, isDir).Convert?
    requires fs.dirs <= fs1.dirs
    requires src in fs.files ==> src in fs1.files && fs1.files[src] == fs.files[src]
    requires src in fs1.files ==> src in fs.files
    ensures Process(fs1, src, isDir) == Process(fs, src, isDir)
  {
    ProcessSpec(fs, src, isDir);
    ProcessSpec(fs1, src, isDir);
  }

  /** No debounce: an event handled again on its own result writes the output
      once more, with what the renderer returns for the same document, and
      reports the same. */
  lemma {:induction false} RepeatedEventIdempotent(fs: FileSystem, e: Event,
                                                   markdown: Markdown, pisa: Pisa)
    ensures var (outcome, fs1) := HandleEvent(fs, e, markdown, pisa);
      HandleEvent(fs1, e, markdown, pisa) == (outcome, fs1)
  {
    var route := RouteOf(fs, e);
    if route.Convert? {
      var p := route.path;
      OutputIsNotSource(p);
      ConversionIdempotent(fs, p, markdown, pisa);
      var fs1 := Conversion(fs, p, markdown, pisa).1;
      assert HandleEvent(fs, e, markdown, pisa) == Conversion(fs, p, markdown, pisa);
      if e.Created? || e.Modified? {
        assert Process(fs, e.src, e.isDir) == route;
        assert fs.dirs <= fs1.dirs && (p in fs.files ==> p in fs1.files && fs1.files[p] == fs.files[p])
            && (p in fs1.files ==> p in fs.files) by {
          ConversionEffect(fs, p, markdown, pisa);
        }
        ProcessKept(fs, fs1, p, e.isDir);
      }
      assert RouteOf(fs1, e) == route;
    }
  }
}
