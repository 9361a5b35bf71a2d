# Markdown watchers and copy-trading engine

This project models two unrelated parts of one repository.

The first part is three Python programs that watch a directory and turn each
Markdown file dropped there into a PDF:

- `md2pdf_workspace/main.py` uses xhtml2pdf and reacts to created and moved files.
- `md2pdf_workspace/convert.py` uses WeasyPrint and reacts to created and modified files.
- `pdf_converter.py` uses xhtml2pdf, reacts to created, modified and moved files,
  and writes into a sibling `output` directory of the watched `input` directory.

Each handler is modelled as a function from the file system and one watchdog event
to an outcome and a new file system. Each has a method that performs the same steps
one by one and is proved equal to that function. The file system is a value
(`Fs.FileSystem`): a map from paths to text, and a set of directory paths. The
Python path helpers the programs call are modelled in `PyPath` (`os.path`) and
`PurePath` (`pathlib.PurePosixPath`). The Markdown parser, xhtml2pdf and WeasyPrint
are parameters of function type (`Watch.Markdown`, `Watch.Pisa`, `Watch.WeasyPrint`).

The second part is the copy-trading engine of `polymarket-trader`
(`internal/core/copy_engine.go`), together with `CalculateTraderPerformance` from
`internal/core/analytics.go`. These are modelled in two places:

- `CopyEngine.Engine` is a class with the engine's three mutable fields. Each of its
  methods is proved equal to a step function on `CopyEngine.EngineState`.
- The properties of the engine are lemmas about those step functions. Among them:
  the invariant `Valid` is kept, prices never re-open a position, and copying a
  trade stores one fresh open position.

Integers are unbounded and Go's `float64` is modelled as `real`.

Where the code and its description disagree, the model follows the code:

- `main.py` and `pdf_converter.py` open the output file before rendering. A failed
  render therefore leaves an empty or partial PDF behind; it is not an atomic write.
- `pdf_converter.py` compares extensions case-sensitively (`endswith('.md')`).
  The two other watchers accept any case: `main.py` through `lower().endswith`,
  `convert.py` through `suffix.lower()`.
- `pdf_converter.py`'s `on_moved` converts the destination without the
  directory and size checks that `process` makes. The `MockEvent` class it
  declares is never used.
- `main.py` and `convert.py` do not skip empty files. Their directories are
  relative to the working directory, not to the watched file.
- `convert.py` ignores moves. `main.py` ignores modifications.
- `convert.py` names the output from `Path.stem`. A file named `.md` therefore has
  no suffix and is not converted. `main.py` uses `os.path.splitext`, which also
  treats `.md` as a name without extension, but tests with `endswith` and so converts it
  to `.md.pdf`.

## Model

| member | source | states |
|---|---|---|
| PyPath.RFind | pdf_converter.py:43 | the index found is -1 or a position holding the character |
| PyPath.RFindIsLast | pdf_converter.py:43 | no occurrence of the character lies after the index found, and none at all when it is -1 |
| PyPath.RFindAt | pdf_converter.py:43 | a position holding the character with none after it is the index found |
| PyPath.RFindPrefix | pdf_converter.py:43 | a search in a prefix that still holds the last occurrence gives the same index |
| PyPath.EndsWith | pdf_converter.py:13 | `s.endswith(suffix)`: the suffix is no longer than `s` and is its last characters |
| PyPath.LowerIdempotent | md2pdf_workspace/main.py:104 | lower-casing a path that is already lower-cased changes nothing |
| PyPath.LowerEndsWithMd | md2pdf_workspace/main.py:104 | a lower-cased name ends in ".md" exactly when the name ends in ".md" in any case |
| PyPath.RStripSlashes | pdf_converter.py:45-46 | only trailing slashes are removed, and no slash is left at the end |
| PyPath.Basename | pdf_converter.py:42 | the base name is no longer than the path |
| PyPath.BasenameSpec | pdf_converter.py:42 | the base name holds no '/', is a suffix of the path, and is preceded by a '/' when something precedes it |
| PyPath.Dirname | pdf_converter.py:45-46 | the directory name is a prefix of the path |
| PyPath.Join | pdf_converter.py:47 | `os.path.join(a, b)`: an absolute `b` replaces `a`; otherwise `b` follows `a`, with one '/' between them unless `a` is empty or ends in '/' |
| PyPath.JoinEndsWith | pdf_converter.py:52 | a join ends with its second part |
| PyPath.JoinFile | pdf_converter.py:52 | a file name joined to a directory is the base name of the result, and for a plain directory the directory is its dirname |
| PyPath.Splitext | md2pdf_workspace/main.py:27 | `os.path.splitext`: the split is at the last dot of the base name, unless only dots come before that dot in the base name; otherwise the extension is empty |
| PyPath.SplitextParts | md2pdf_workspace/main.py:27 | root and extension concatenate to the path; an extension starts with '.' and holds no further '.' or '/' |
| PyPath.SplitextRootNotAllDots | md2pdf_workspace/main.py:27 | the base name of the root is never made of dots alone when an extension was split off |
| PyPath.SplitextNoExtension | md2pdf_workspace/main.py:27 | when no extension is split off, every dot in the base name has only dots before it |
| PyPath.RFindInBasename | pdf_converter.py:42-43 | searching the base name for a character other than '/' gives its last index after the last '/', shifted, or -1 when it occurs only before |
| PyPath.ExtensionOfBasename | pdf_converter.py:42-43 | splitting a base name gives the same extension as splitting the whole path |
| PyPath.StemOfBasename | pdf_converter.py:42-43 | the root of a base name holds no '/' |
| PyPath.SplitextExamples | md2pdf_workspace/main.py:27 | "a.b.md" splits into "a.b" and ".md"; ".md" has no extension |
| PyPath.DotMdRoot | md2pdf_workspace/main.py:26-27 | a file named ".md", in any directory, keeps its whole name as root and has no extension |
| PurePath.Split | md2pdf_workspace/convert.py:98 | splitting on '/' gives at least one part |
| PurePath.SplitNoSlash | md2pdf_workspace/convert.py:98 | no part holds a '/' |
| PurePath.KeepParts | md2pdf_workspace/convert.py:98 | the kept parts are non-empty, not ".", and taken from the input |
| PurePath.Parts | md2pdf_workspace/convert.py:98 | the path split on '/', with the empty and "." components dropped |
| PurePath.PartsSpec | md2pdf_workspace/convert.py:98 | a path's parts are non-empty, hold no '/' and are never "." |
| PurePath.Str | md2pdf_workspace/convert.py:145 | `str(path)`: the anchor, then the parts joined by '/'; "." when both are empty |
| PurePath.Name | md2pdf_workspace/convert.py:99 | `path.name`: the last part, or "" when there is none |
| PurePath.Suffix | md2pdf_workspace/convert.py:99 | `path.suffix`: the name from its last dot, when that dot is neither the first nor the last character of the name; "" otherwise |
| PurePath.Stem | md2pdf_workspace/convert.py:127 | `path.stem`: the name without its suffix |
| PurePath.Parent | md2pdf_workspace/convert.py:145 | `path.parent`: the path without its last part, or the path itself when it has none |
| PurePath.Div | md2pdf_workspace/convert.py:128 | `path / name`: an anchored `name` replaces the path; otherwise the parts are concatenated under the path's anchor |
| PurePath.StemSuffix | md2pdf_workspace/convert.py:99 | stem and suffix concatenate to the name; neither holds '/'; a suffix starts with '.', has a non-empty stem and no further '.' |
| PurePath.PartsOfName | md2pdf_workspace/convert.py:128 | a plain file name is a one-part path |
| PurePath.DivPlain | md2pdf_workspace/convert.py:128 | a plain file name below a plain directory is joined with one '/' |
| PurePath.NameOfChild | md2pdf_workspace/convert.py:128 | the child path has the directory and the name as its parts, and the name as its name |
| PurePath.SuffixOfPlainName | md2pdf_workspace/convert.py:99 | in a plain name, a dot that is neither first nor last and has no dot after it starts the suffix, and the stem is what precedes it |
| PurePath.SuffixOfDotName | md2pdf_workspace/convert.py:99 | ".md" has no suffix and is its own stem |
| PurePath.SuffixKeepsCase | md2pdf_workspace/convert.py:99 | the suffix keeps its case ("notes.MD" has suffix ".MD") |
| Fs.WriteFileTwice | md2pdf_workspace/main.py:88-92 | writing a file twice leaves what the second write wrote |
| Fs.ReadText | md2pdf_workspace/main.py:33-34 | `open(p, 'r').read()` gives the content of a regular file and raises for anything else |
| Fs.CanOpenForWrite | md2pdf_workspace/main.py:88 | `open(p, 'wb')` succeeds when `p` is not a directory and its parent is one |
| Fs.WriteFile | md2pdf_workspace/main.py:88-92 | the file `p` holds the data written; every other file and every directory is unchanged |
| Fs.MkdirOnce | md2pdf_workspace/convert.py:16-17 | a directory that `os.mkdir` has created cannot be created a second time, and creating it added that directory and touched no file |
| Fs.MakeDirs | pdf_converter.py:49-50 | `os.makedirs`: missing ancestors are created first, then the directory itself; an existing directory raises unless `exist_ok` |
| Fs.PathMkdir | md2pdf_workspace/convert.py:16-17 | `Path.mkdir` without `parents`: an existing directory raises unless `exist_ok`; otherwise only the directory itself is created, and only when its parent exists |
| Fs.MakeDirsGrows | pdf_converter.py:49-50 | on success the target is a directory, no file changes and no directory disappears |
| Fs.MakeDirsExistOk | md2pdf_workspace/main.py:16-17 | with exist_ok, an existing directory changes nothing, a missing one whose parent exists is added, and a second call changes nothing |
| Fs.MakeDirsExisting | pdf_converter.py:90-91 | without exist_ok, an existing directory is an error |
| Fs.PathMkdirExistOk | md2pdf_workspace/convert.py:16-17 | Path.mkdir with exist_ok accepts an existing directory, creates a missing one whose parent exists, touches no file, and a second call changes nothing |
| Watch.Unwrap | md2pdf_workspace/main.py:43-85 | a fragment found in a document wraps back into that document |
| Watch.UnwrapWrap | md2pdf_workspace/main.py:43-85 | the fragment is recovered from the wrapped document |
| Watch.WrapInjective | md2pdf_workspace/main.py:43-85 | different fragments give different documents |
| WatchMain.LayoutAt | md2pdf_workspace/main.py:12-13 | INPUT_DIR and OUTPUT_DIR are "input" and "output" joined to the working directory |
| WatchMain.Startup | md2pdf_workspace/main.py:16-17 | `os.makedirs(..., exist_ok=True)` on INPUT_DIR, then on OUTPUT_DIR; a failure of either raises |
| WatchMain.StartupIdempotent | md2pdf_workspace/main.py:16-17 | start-up creates both directories, changes no file and a second start-up changes nothing |
| WatchMain.StartupExisting | md2pdf_workspace/main.py:16-17 | existing directories are accepted unchanged |
| WatchMain.RouteOf | md2pdf_workspace/main.py:102-122 | a created path, or the destination of a move, that is no directory and ends in ".md" once lower-cased is converted; every other event is ignored |
| WatchMain.CreatedRoute | md2pdf_workspace/main.py:103-108 | a created path is converted exactly when it is no directory and ends in ".md" in any case |
| WatchMain.MovedRoute | md2pdf_workspace/main.py:119-122 | a move is routed like a creation of its destination and converts the destination |
| WatchMain.OtherEventsIgnored | md2pdf_workspace/main.py:102-122 | modified, deleted and closed events do nothing |
| WatchMain.RouteExamples | md2pdf_workspace/main.py:103-122 | upper-case ".MD" is converted, other extensions and directories are not, a move converts its destination |
| WatchMain.OutputPath | md2pdf_workspace/main.py:26-28 | OUTPUT_DIR joined with the splitext root of the input's base name plus ".pdf" |
| WatchMain.OutputPathShape | md2pdf_workspace/main.py:26-28 | the output's base name is the input's with its last extension replaced by ".pdf", inside OUTPUT_DIR |
| WatchMain.OutputPathIgnoresDirectory | md2pdf_workspace/main.py:26-28 | only the input's base name decides the output path |
| WatchMain.OutputPathIsNotMarkdown | md2pdf_workspace/main.py:26-28 | the output path is never the Markdown source itself |
| WatchMain.OutputPathOfDotName | md2pdf_workspace/main.py:26-28 | a source named ".md" is written to ".md.pdf" |
| WatchMain.Conversion | md2pdf_workspace/main.py:23-100 | read the source, parse it with the tables and fenced_code extensions, wrap it, open the output for writing, render into it; an exception ends the conversion at its step, keeping what was written |
| WatchMain.ConvertMdToPdf | md2pdf_workspace/main.py:23-100 | the step sequence ends in the outcome and file system the conversion function gives |
| WatchMain.HandleEvent | md2pdf_workspace/main.py:102-122 | the conversion of the routed path, or nothing for an ignored event |
| WatchMain.OnEvent | md2pdf_workspace/main.py:102-122 | handling an event performs the routed conversion |
| WatchMain.ConversionEffect | md2pdf_workspace/main.py:23-100 | no directory changes, at most the output file is written, and success happens exactly when the read, the parse, the open and the render all succeed, with the rendered bytes in the output |
| WatchMain.FailedRenderReplacesOutput | md2pdf_workspace/main.py:88-97 | a render error or exception after the open still replaces the output with what the renderer wrote |
| WatchMain.ReadFailureCallsNothing | md2pdf_workspace/main.py:33-34 | a missing source is reported as a read failure and neither parser nor renderer affects the result |
| WatchMain.ConversionIdempotent | md2pdf_workspace/main.py:23-100 | converting again on the result gives the same outcome and file system, the output being rewritten with what the renderer returns for the same document |
| WatchMain.RepeatedEventIdempotent | md2pdf_workspace/main.py:102-122 | handling the same event twice is like handling it once, the output being rewritten with what the renderer returns for the same document |
| WatchConvert.StyleSheetNotInShell | md2pdf_workspace/convert.py:131-147 | the style sheet is passed separately and is not embedded in the document |
| WatchConvert.Startup | md2pdf_workspace/convert.py:16-17 | `Path.mkdir(exist_ok=True)` on "input", then on "output", without `parents`; a failure of either raises |
| WatchConvert.StartupEffect | md2pdf_workspace/convert.py:16-17 | start-up succeeds exactly when each name is a directory or not a file, then adds both directories, changes no file, and is idempotent |
| WatchConvert.SuffixIsMd | md2pdf_workspace/convert.py:99 | the lower-cased suffix is ".md" exactly when the name is longer than ".md" and ends in ".md" in any case |
| WatchConvert.RouteOf | md2pdf_workspace/convert.py:93-109 | a created or modified path that is no directory and whose suffix, lower-cased, is ".md" is converted; every other event is ignored |
| WatchConvert.RouteSpec | md2pdf_workspace/convert.py:94-109 | created and modified files are converted exactly when they are no directory and their name qualifies |
| WatchConvert.ModifiedAsCreated | md2pdf_workspace/convert.py:102-109 | a modification is handled like a creation, and moves are ignored |
| WatchConvert.DotMdIgnored | md2pdf_workspace/convert.py:99 | a file named ".md" is not converted |
| WatchConvert.OutputPath | md2pdf_workspace/convert.py:127-128 | OUTPUT_DIR / (the source's stem + ".pdf") |
| WatchConvert.OutputPathShape | md2pdf_workspace/convert.py:127-128 | the output is OUTPUT_DIR, '/', the stem and ".pdf", whose suffix is ".pdf" |
| WatchConvert.PdfSuffix | md2pdf_workspace/convert.py:127-128 | a plain name made of a non-empty stem and ".pdf" has suffix ".pdf" and that stem |
| WatchConvert.OutputPathOfStem | md2pdf_workspace/convert.py:127-128 | sources with the same stem share an output path |
| WatchConvert.Conversion | md2pdf_workspace/convert.py:111-151 | read the source, parse it with four extensions, wrap it, render it with the source's directory as base URL and PDF_CSS as style sheet, then write the PDF; an exception before the write leaves the file system as it was |
| WatchConvert.ProcessFile | md2pdf_workspace/convert.py:111-151 | the step sequence ends in the outcome and file system the conversion function gives |
| WatchConvert.HandleEvent | md2pdf_workspace/convert.py:93-109 | the conversion of the routed path, or nothing for an ignored event |
| WatchConvert.OnEvent | md2pdf_workspace/convert.py:94-109 | handling an event performs the routed conversion |
| WatchConvert.ConversionEffect | md2pdf_workspace/convert.py:111-151 | the file system is unchanged unless the conversion succeeds, and then only the output holds the rendered bytes |
| WatchConvert.ReadFailureCallsNothing | md2pdf_workspace/convert.py:117-118 | a missing source is reported as a read failure and neither parser nor renderer affects the result |
| WatchConvert.StrEndsWithName | md2pdf_workspace/convert.py:98-99 | a path's string form ends with its name |
| WatchConvert.SourceIsNotOutput | md2pdf_workspace/convert.py:127-128 | the written output is never the Markdown source |
| WatchConvert.SourceEndsInD | md2pdf_workspace/convert.py:99 | a converted source's string form ends in 'd' or 'D' |
| WatchConvert.OutputEndsInF | md2pdf_workspace/convert.py:127-128 | the output path ends in 'f' |
| WatchConvert.RepeatedEventIdempotent | md2pdf_workspace/convert.py:94-151 | handling the same event twice is like handling it once, the output being rewritten with what the renderer returns for the same document |
| PdfConverter.Startup | pdf_converter.py:87-91 | cwd/pdf_workspace/input is created, with its parents, unless an entry of that name exists |
| PdfConverter.StartupEffect | pdf_converter.py:87-91 | after a successful start-up the watched path exists, no file has changed and a second start-up changes nothing |
| PdfConverter.Size | pdf_converter.py:15 | `os.path.getsize` of an existing entry: a file's length, and a fixed positive size for a directory |
| PdfConverter.Process | pdf_converter.py:10-17 | `process`: a path that is no directory and ends in ".md" is converted when it exists with a positive size, skipped when it is missing or empty, and ignored otherwise |
| PdfConverter.RouteOf | pdf_converter.py:10-32 | created and modified events go through `process`; a move converts its destination when that ends in ".md"; other events are ignored |
| PdfConverter.ProcessSpec | pdf_converter.py:10-23 | a created or modified path is converted exactly when the event is not for a directory, the path ends in ".md" and it names a non-empty file or a directory; a missing or empty file is skipped |
| PdfConverter.MovedRoute | pdf_converter.py:25-32 | a move converts its destination when that ends in ".md", whatever the file system holds |
| PdfConverter.UpperCaseIgnored | pdf_converter.py:13 | an upper-case ".MD" file is not converted |
| PdfConverter.OutputDirOf | pdf_converter.py:45-47 | "output" joined to the directory above the one the source is in |
| PdfConverter.OutputDirIsSibling | pdf_converter.py:45-47 | for a file in workspace/input the output directory is workspace/output |
| PdfConverter.OutputPath | pdf_converter.py:42-52 | the output directory joined with the source's base name, without its last extension, plus ".pdf" |
| PdfConverter.OutputPathShape | pdf_converter.py:42-52 | the output lies in the output directory (its dirname is that directory), its base name is the input's root plus ".pdf", and it ends in ".pdf" |
| PdfConverter.PdfEnding | pdf_converter.py:52 | a path ending in a root plus ".pdf" ends in ".pdf" |
| PdfConverter.OutputIsNotSource | pdf_converter.py:42-52 | the output path is never the Markdown source |
| PdfConverter.Prepare | pdf_converter.py:49-50 | `os.makedirs(output_dir)` when no entry of that name exists, before the source is read |
| PdfConverter.Render | pdf_converter.py:58-81 | read the source, parse it, wrap it, open the output for writing, render into it; an exception ends at its step, keeping what was written |
| PdfConverter.Conversion | pdf_converter.py:34-84 | preparation, then rendering; a failed `makedirs` ends the conversion with nothing changed |
| PdfConverter.ConvertToPdf | pdf_converter.py:34-84 | the step sequence ends in the outcome and file system the conversion function gives |
| PdfConverter.HandleEvent | pdf_converter.py:10-32 | the conversion of the routed path, a skip, or nothing for an ignored event |
| PdfConverter.OnEvent | pdf_converter.py:10-32 | handling an event performs the routed conversion or skip |
| PdfConverter.PrepareEffect | pdf_converter.py:49-50 | after a successful preparation the output directory exists, no file has changed and preparing again changes nothing |
| PdfConverter.ReadFailureAfterMakingDir | pdf_converter.py:49-59 | a missing source still leaves the output directory created |
| PdfConverter.ConversionEffect | pdf_converter.py:34-84 | directories are only added, no file but the output changes or appears, and success happens exactly when the directory, the read, the parse, the open and the render all succeed |
| PdfConverter.ConversionOutput | pdf_converter.py:58-81 | a successful conversion read and parsed the source, reports the output path, and leaves in the output file what xhtml2pdf wrote for the composed document |
| PdfConverter.RenderIdempotent | pdf_converter.py:58-81 | rendering again on its own result keeps the directories and gives the same outcome and file system, the output being rewritten with what the renderer returns for the same document |
| PdfConverter.ConversionIdempotent | pdf_converter.py:34-84 | converting again on the result gives the same outcome and file system, the output being rewritten with what the renderer returns for the same document |
| PdfConverter.ProcessKept | pdf_converter.py:10-17 | a file system that keeps the source and every directory routes a converted path the same way |
| PdfConverter.RepeatedEventIdempotent | pdf_converter.py:10-84 | handling the same event twice is like handling it once, the output being rewritten with what the renderer returns for the same document |
| CopyEngine.Valid | polymarket-trader/backend/internal/core/copy_engine.go:148-162 | the invariant the engine keeps: the counter is positive, and every position is stored under its own ID, which is below the counter |
| CopyEngine.Initial | polymarket-trader/backend/internal/core/copy_engine.go:22-31 | a new engine is valid, monitors nobody, has no positions and counts from 1 |
| CopyEngine.AddTraderStep | polymarket-trader/backend/internal/core/copy_engine.go:48-53 | the config is stored under its trader address |
| CopyEngine.AddTraderSpec | polymarket-trader/backend/internal/core/copy_engine.go:48-53 | the config replaces any earlier one for its address; all else is unchanged and validity is kept |
| CopyEngine.ClosedIsFinal | polymarket-trader/backend/internal/core/copy_engine.go:72-99 | a position that `closePosition` has closed is left as it is by every later price update, in any market, and closing it again changes nothing |
| CopyEngine.PriceUpdated | polymarket-trader/backend/internal/core/copy_engine.go:72-89 | one pass of the loop on one position: an open position in the market takes the new price and value, then is closed on a stop-loss hit and on a take-profit hit |
| CopyEngine.PriceUpdatedSpec | polymarket-trader/backend/internal/core/copy_engine.go:72-89 | an open position in the market takes the new price and value and closes exactly when a threshold is hit; others are left alone |
| CopyEngine.PriceUpdatedMonotone | polymarket-trader/backend/internal/core/copy_engine.go:72-89 | a price update never reopens a position and keeps its ID |
| CopyEngine.PriceUpdatedIdempotent | polymarket-trader/backend/internal/core/copy_engine.go:72-89 | the same price reported twice acts as once |
| CopyEngine.UpdateMarketPriceStep | polymarket-trader/backend/internal/core/copy_engine.go:68-90 | every stored position is updated on its own by that pass |
| CopyEngine.UpdateMarketPriceSpec | polymarket-trader/backend/internal/core/copy_engine.go:68-90 | a price update keeps validity and the keys, and only closes positions |
| CopyEngine.StopLossPrice | polymarket-trader/backend/internal/core/copy_engine.go:125-129 | `entry * (1 - StopLossPct)` for a positive percentage, 0 otherwise |
| CopyEngine.TakeProfitPrice | polymarket-trader/backend/internal/core/copy_engine.go:126-132 | `entry * (1 + TakeProfitPct)` for a positive percentage, 0 otherwise |
| CopyEngine.RiskPricesBracketEntry | polymarket-trader/backend/internal/core/copy_engine.go:124-132 | the stop loss lies below the entry, the take profit above, and a non-positive percentage disables them |
| CopyEngine.CopyGate | polymarket-trader/backend/internal/core/copy_engine.go:111-122 | an order is placed only for a monitored, enabled trader with a positive fixed size |
| CopyEngine.CopyOrder | polymarket-trader/backend/internal/core/copy_engine.go:134-139 | the order is a buy of the fixed size in the signal's market at its entry price |
| CopyEngine.CopiedPosition | polymarket-trader/backend/internal/core/copy_engine.go:148-160 | the stored position: the counter as ID, the signal's trader, market and entry price, which is also its current price, the fixed size, the risk prices, open |
| CopyEngine.ExecuteCopyStep | polymarket-trader/backend/internal/core/copy_engine.go:107-166 | nothing changes when the gate is closed or the order fails; otherwise the copied position is stored under the counter, which grows by one |
| CopyEngine.ExecuteCopyRejected | polymarket-trader/backend/internal/core/copy_engine.go:111-146 | an unknown, disabled or zero-size trader changes nothing and never reaches the exchange; a failed order changes nothing |
| CopyEngine.ExecuteCopyStores | polymarket-trader/backend/internal/core/copy_engine.go:148-163 | an accepted order stores one new open position under the fresh counter, with the signal's trader address and market, the entry price as entry and current price, the config's size and risk prices, outcome index and value 0; the counter grows by one and the position joins the open IDs |
| CopyEngine.ExecuteCopyValid | polymarket-trader/backend/internal/core/copy_engine.go:107-166 | copying keeps the engine valid |
| CopyEngine.Engine.constructor | polymarket-trader/backend/internal/core/copy_engine.go:22-31 | the new engine's state is the initial state |
| CopyEngine.Engine.AddTrader | polymarket-trader/backend/internal/core/copy_engine.go:48-53 | the new state is the add-trader step of the old |
| CopyEngine.Engine.GetActivePositions | polymarket-trader/backend/internal/core/copy_engine.go:55-65 | every returned position is open and stored, every open position is returned, and, through the keys read, each exactly once; in a valid engine the IDs are distinct |
| CopyEngine.Engine.UpdateMarketPrice | polymarket-trader/backend/internal/core/copy_engine.go:68-90 | visiting the positions in any order gives the price-update step of the old state |
| CopyEngine.Engine.CheckPosition | polymarket-trader/backend/internal/core/copy_engine.go:72-89 | the loop body's effect on one position is the model's price update of that position |
| CopyEngine.Engine.ClosePosition | polymarket-trader/backend/internal/core/copy_engine.go:92-99 | the result is the closed position |
| CopyEngine.Engine.ExecuteCopy | polymarket-trader/backend/internal/core/copy_engine.go:107-166 | the new state is the copy step of the old |
| Analytics.CalculateTraderPerformance | polymarket-trader/backend/internal/core/analytics.go:8-38 | count, total PnL and win rate are those of the realised trades, with a win rate in [0, 1] and a count at most the number of trades |
| Analytics.Count | polymarket-trader/backend/internal/core/analytics.go:21-30 | the number of trades with a non-zero PnL |
| Analytics.Wins | polymarket-trader/backend/internal/core/analytics.go:25-27 | the number of trades with a positive PnL |
| Analytics.RealisedPnl | polymarket-trader/backend/internal/core/analytics.go:23-24 | the sum of the non-zero PnLs |
| Analytics.TotalPnl | polymarket-trader/backend/internal/core/analytics.go:13-24 | the sum of all PnLs, folded from the front: the reference the realised sum is compared with |
| Analytics.WinRate | polymarket-trader/backend/internal/core/analytics.go:32-35 | wins divided by count, 0 when the count is 0 |
| Analytics.WinsAtMostCount | polymarket-trader/backend/internal/core/analytics.go:21-30 | every win is a realised trade |
| Analytics.CountAtMostLength | polymarket-trader/backend/internal/core/analytics.go:21-30 | at most every trade is realised |
| Analytics.WinRateBounds | polymarket-trader/backend/internal/core/analytics.go:32-35 | the win rate lies in [0, 1] |
| Analytics.RealisedIsTotal | polymarket-trader/backend/internal/core/analytics.go:21-30 | skipping zero PnLs does not change the sum: the realised PnL is the total PnL |
| Analytics.TotalPnlSnoc | polymarket-trader/backend/internal/core/analytics.go:24 | a trade added at the end adds its PnL |
| Analytics.OnlyZeroPnlIsLikeEmpty | polymarket-trader/backend/internal/core/analytics.go:9-11 | a history of zero-PnL trades gives the same result as the empty history |
| Analytics.CountAppend | polymarket-trader/backend/internal/core/analytics.go:21-30 | counts and wins add up over concatenated histories |

## Left out

- The watch loops (`Observer`, `schedule`, `start`, `join`, `KeyboardInterrupt`) and the `time.sleep` calls. Time is not part of the model, and each event is handled on its own.
- Logging and `print`. The model's `Outcome` stands for what is reported.
- The exact HTML the Markdown parser produces, and the PDF that xhtml2pdf or WeasyPrint renders. They are function-typed parameters.
- The renderers are deterministic in the model: `Watch.Pisa` and `Watch.WeasyPrint` are functions, so the same document always gives the same bytes. Real xhtml2pdf (through reportlab) stamps a creation date and a document ID into each PDF, so a second run writes different bytes. The idempotence lemmas (`WatchMain.ConversionIdempotent`, `WatchMain.RepeatedEventIdempotent`, `WatchConvert.RepeatedEventIdempotent`, `PdfConverter.RenderIdempotent`, `PdfConverter.ConversionIdempotent`, `PdfConverter.RepeatedEventIdempotent`) hold only under that assumption: the output is rewritten with what the renderer returns for the same document.
- WeasyPrint's `base_url`. It is passed to the renderer parameter and has no effect on the file system in the model.
- UTF-8 decoding, file permissions and encodings. Files hold text, a read fails only when the path is not a regular file, and a write fails only when the path is a directory or its parent is not.
- `os.path.getsize`: a directory has a fixed size of 4096 bytes, and a file's size is its length in characters, not in bytes.
- The time between `os.path.exists` and `os.path.getsize`. Both read the same file-system value, so the race between them is not modelled.
- `os.makedirs` creating some ancestors and then failing. A failed `makedirs` leaves the file system untouched in the model.
- `os.path.abspath` normalisation. `WatchMain.LayoutAt` joins the working directory and the name, and the model's paths are not normalised.
- `PyPath.Lower` and `WatchConvert.RouteOf` lower-case ASCII letters only, where Python lower-cases all of Unicode.
- The Go engine's mutex, goroutines and channels (`Start`, `processSignals`, `processPriceUpdates`, `SignalChan`). Each method runs as one atomic step.
- The `CreatedAt`/`UpdatedAt` timestamps and the log messages of the engine, including the close reason passed to `closePosition`.
- `float64` rounding. Prices, sizes and PnLs are reals.
- CopyEngine.ExecuteCopyStep: the counter is unbounded, so the wrap-around of Go's `uint` after 2^64 copies is not modelled.
- `Client.PlaceOrder` is a parameter that accepts or rejects an order. Signing and HTTP are not part of this model.
- CopyEngine.Engine.GetActivePositions: Go's random map order is modelled by an arbitrary pick, so the contract states which positions come back, not in what order.
- `debug_conversion.py`, the websocket client, the HTTP handlers and router, trader discovery, configuration and the frontend are not part of this model.
