/** What the three Markdown watchers have in common: the events the file-system
    notification library (watchdog) delivers, the routing decision a handler
    takes, the outcome of handling one event, and the document shell. */
module Watch {
  import opened Fs

  /** A raw event as watchdog delivers it to a `FileSystemEventHandler`. */
  datatype Event =
    | Created(src: string, isDir: bool)
    | Modified(src: string, isDir: bool)
    | Moved(src: string, dest: string, isDir: bool)
    | Deleted(src: string, isDir: bool)
    | Closed(src: string, isDir: bool)

  /** What a handler does with an event: nothing, skip it after looking at the
      file, or convert the file at `path`. */
  datatype Route = Ignore | Skip | Convert(path: string)

  /** The step whose exception was caught by the conversion's `try`. */
  datatype Stage = MakingDir | Reading | Parsing | Rendering | Writing

  /** The observable result of handling one event (what the program logs). */
  datatype Outcome =
    | Converted(output: string)   // success is logged
    | RenderError(output: string) // the renderer reported an error
    | Skipped                     // missing or empty file, nothing logged
    | NotTriggered                // the handler ignores the event
    | Caught(stage: Stage)        // an exception was caught and logged

  datatype Option<T> = None | Some(value: T)

  /** A fixed text before and after the HTML fragment produced by the Markdown
      library. */
  datatype Shell = Shell(prefix: string, suffix: string)

  /** The composed document: the fragment, unchanged, between the shell's two
      texts. */
  function Wrap(shell: Shell, fragment: string): (doc: string)
    ensures |doc| == |shell.prefix| + |fragment| + |shell.suffix|
    ensures doc[..|shell.prefix|] == shell.prefix
    ensures doc[|shell.prefix|..|shell.prefix| + |fragment|] == fragment
    ensures doc[|shell.prefix| + |fragment|..] == shell.suffix
  {
    shell.prefix + fragment + shell.suffix
  }

  /** The fragment inside `doc`, when `doc` has the shell's form. */
  function Unwrap(shell: Shell, doc: string): (r: Option<string>)
    ensures r.Some? ==> Wrap(shell, r.value) == doc
  {
    var p, s := |shell.prefix|, |shell.suffix|;
    if p + s <= |doc| && doc[..p] == shell.prefix && doc[|doc| - s..] == shell.suffix then
      var f := doc[p..|doc| - s];
      assert doc == doc[..p] + f + doc[|doc| - s..];
      Some(f)
    else None
  }

  /** Composition loses nothing: the fragment can be recovered from the document. */
  lemma {:induction false} UnwrapWrap(shell: Shell, fragment: string)
    ensures Unwrap(shell, Wrap(shell, fragment)) == Some(fragment)
  {
  }

  /** Hence different fragments give different documents. */
  lemma {:induction false} WrapInjective(shell: Shell, f1: string, f2: string)
    requires Wrap(shell, f1) == Wrap(shell, f2)
    ensures f1 == f2
  {
    UnwrapWrap(shell, f1);
    UnwrapWrap(shell, f2);
  }

  /** `markdown.markdown(text, extensions=...)`: the HTML fragment, or an exception. */
  type Markdown = (string, seq<string>) -> Raise<string>

  /** One run of `pisa.CreatePDF(html, dest=f)` (xhtml2pdf) on a file opened for
      writing: the bytes it wrote and its error count, or an exception raised after
      some bytes were written. */
  datatype PisaRun = Finished(written: string, err: nat) | RaisedAfter(written: string)

  type Pisa = string -> PisaRun

  /** `HTML(string=doc, base_url=base).write_pdf(..., stylesheets=[CSS(string=css)])`
      (WeasyPrint) up to the point where the target is opened: the PDF bytes, or
      an exception. Arguments: document, base URL, style sheet. */
  type WeasyPrint = (string, string, string) -> Raise<string>
}
