# Nightly package builds and the test drivers' log splitter

This project models, in Dafny, the logic inside the CI scripts of the Mys package
website:

- **Build and test** (`tests/update_standard_library_build_results.py`). A package is
  unpacked with a tar-slip check. It is built with `mys build` under a 600 s timeout and
  tested with `mys test -c` under a 900 s timeout. The verdict (`yes`/`no`), the build
  log and an optional coverage bundle are then posted to the registry.
- **Build only** (`scripts/update_standard_library_build_results.py`). This older variant
  unpacks with no check and builds once, with stderr merged into stdout. It posts only
  the verdict and the log.
- **Shared pieces.**
  - The log header: date, `uname` fields, `mys --version`, and `package.toml`.
  - The carriage-return collapse that prepares a log for the ANSI-to-HTML converter.
- **The `Logger` stream splitter** of the three system-test drivers (`tests/test.py`,
  `test/test.py`, `test.py`). It cuts the website's output into lines, strips each line,
  removes escape characters, and logs it.

Modules:

| module | models |
|---|---|
| `Seqs` | Python's `split`, `join`, `strip(chars)` and `replace(x, '')` on strings and bytes |
| `Utf8` | `str.encode('utf-8')` |
| `PosixPath` | `os.path.join`, `normpath`, `abspath`, `commonprefix` |
| `SafeExtract` | `is_within_directory` and `safe_extract` |
| `HtmlLog` | the collapse loop of `create_html_log` |
| `LogHeader` | `create_log_header` |
| `Upload` | a run of `requests.post` calls, each followed by `raise_for_status()` |
| `BuildAndTest` | the build-and-test variant |
| `BuildOnly` | the build-only variant |
| `AppLogger` | `Logger` |

The world outside the scripts enters as parameters:

- `run`: the outcome of a command;
- `respond`: the HTTP status the server answers a post with;
- `toHtml`: the UTF-8 decoding plus the ANSI-to-HTML conversion; the UTF-8 encoding of the
  page for its post is modelled (`Utf8.Encode`);
- `readFile`: the bytes of the coverage archive;
- `Environment`: the values the header reads from the machine.

## Behaviour worth knowing

- **Tar-slip check.** `is_within_directory` is a character-level prefix test on the two
  absolute paths, not a descendant test. A member that leaves `package` for a sibling
  whose name starts with `package` (`../package-evil/x`) passes the check.
  `SafeExtract.SiblingWithSharedPrefixAdmitted` proves this.
- **Uploads.** `raise_for_status()` after each post raises on an error status, so no
  later post is made. `Upload.SentUntilError` models this.
- **Build output.** The build-and-test variant captures stdout and stderr separately and
  logs stdout followed by stderr; the build-only variant merges stderr into stdout.
- **Unchecked extraction.** The build-only variant extracts with no traversal check at
  all (`BuildOnly.UncheckedExtractionAdmitsTraversal`).

## Model

| member | source | states |
|---|---|---|
| Seqs.SplitCount | tests/update_standard_library_build_results.py:155 | `split(sep)` gives one more piece than there are separators |
| Seqs.JoinSplit | tests/update_standard_library_build_results.py:155-158 | joining the pieces of a split with the same separator gives the original back |
| Seqs.SplitJoin | scripts/update_standard_library_build_results.py:65 | splitting a join of separator-free pieces gives the pieces back |
| Seqs.SplitAppend | test/test.py:26 | the pieces of `a + b` are those of `a` and of `b`, with the last of `a` glued to the first of `b` |
| Seqs.SplitPiecesHaveNoSeparator | tests/update_standard_library_build_results.py:155 | no piece of a split holds the separator |
| Seqs.Strip | scripts/update_standard_library_build_results.py:52-54 | `strip(chars)` removes only elements of `chars`, and the result neither starts nor ends with one |
| Seqs.RemoveAll | tests/test.py:48 | `replace(x, '')` leaves no `x` and keeps every other element with its multiplicity |
| Utf8.EncodeChar | tests/update_standard_library_build_results.py:143 | a character encodes to 1 to 4 bytes; exactly ASCII encodes to one byte, its own code; multi-byte encodings hold no ASCII byte |
| Utf8.EncodeAppend | tests/update_standard_library_build_results.py:143-146 | encoding a concatenation concatenates the encodings |
| Utf8.EncodeAsciiIn | scripts/update_standard_library_build_results.py:96 | an ASCII byte occurs in the encoding exactly when its character occurs in the text |
| PosixPath.Root | tests/update_standard_library_build_results.py:78-79 | `normpath` keeps no, one or two leading slashes, and some exactly for absolute paths |
| PosixPath.NormPath | tests/update_standard_library_build_results.py:78-79 | `normpath` never gives the empty string and keeps absolute paths absolute |
| PosixPath.AbsPath | tests/update_standard_library_build_results.py:78-79 | `abspath` with an absolute working directory gives an absolute path |
| PosixPath.AbsPathOfAbsolute | tests/update_standard_library_build_results.py:79 | the `abspath` of an absolute path ignores the working directory |
| PosixPath.CommonPrefix | tests/update_standard_library_build_results.py:81 | `commonprefix` is a prefix of both paths and cannot be extended by one more shared character |
| PosixPath.CommonPrefixIsFirst | tests/update_standard_library_build_results.py:81-83 | the common prefix equals the first path exactly when the first path is a character prefix of the second |
| PosixPath.RootedResolveIsClean | tests/update_standard_library_build_results.py:78-79 | resolving components at the root never keeps `..`, `.` or empty components |
| PosixPath.ResolveAppend | tests/update_standard_library_build_results.py:78-79 | `normpath`'s component loop over `a + b` is the loop over `a`, then over `b` |
| PosixPath.ResolveWithoutParentExtends | tests/update_standard_library_build_results.py:78-79 | components without `..` never remove what is already resolved |
| PosixPath.JoinComponents | tests/update_standard_library_build_results.py:88 | the components of `join(a, b)` are those of `a` (less a trailing empty one) and then those of `b` |
| PosixPath.RootOfJoin | tests/update_standard_library_build_results.py:88 | joining a relative name onto an absolute path keeps its leading slashes |
| PosixPath.NormPathExtends | tests/update_standard_library_build_results.py:78-79 | a relative name without `..` joined onto an absolute path extends its normal form |
| PosixPath.PlainNameStaysBelow | tests/update_standard_library_build_results.py:76-83 | the absolute path of `dir` is a prefix of that of `join(dir, name)` for a relative name without `..` |
| PosixPath.JoinAssociates | tests/update_standard_library_build_results.py:88 | `join(cwd, join(dir, name)) == join(join(cwd, dir), name)` for relative `dir` and `name` |
| PosixPath.JoinPrefix | tests/update_standard_library_build_results.py:78-79 | joining a longer component list extends the joined path |
| SafeExtract.IsWithinDirectory | tests/update_standard_library_build_results.py:76-83 | within exactly when `abspath(directory)` is a character-level prefix of `abspath(target)` |
| SafeExtract.AllEach | tests/update_standard_library_build_results.py:87-90 | the backward check holds exactly when every member passes |
| SafeExtract.AllAdmittedEach | tests/update_standard_library_build_results.py:87-90 | all members pass exactly when each passes on its own |
| SafeExtract.Extract | tests/update_standard_library_build_results.py:85-92 | `extractall` runs, on the given path and all members, exactly when every member passes; otherwise it raises the traversal message and extracts nothing |
| SafeExtract.RefusedMemberBlocks | tests/update_standard_library_build_results.py:89-90 | one refused member refuses the whole archive |
| SafeExtract.PlainMemberAdmitted | tests/update_standard_library_build_results.py:88-89 | a relative member name without `..` is always admitted |
| SafeExtract.ParentTraversalRefused | tests/update_standard_library_build_results.py:88-90 | `../../e/f` normalises to `/e/f` and is refused whenever `/top/dir` is not a character prefix of `/e/f` |
| SafeExtract.AbsoluteMemberRefused | tests/update_standard_library_build_results.py:88-90 | an absolute member `/e/f` replaces the directory in `join` and is refused whenever `/top/dir` is not a character prefix of `/e/f` |
| SafeExtract.SiblingWithSharedPrefixAdmitted | tests/update_standard_library_build_results.py:81-83 | `../<dir><suffix>/x` lands outside `dir` in a sibling that shares its name as a prefix, and is admitted |
| HtmlLog.RFind | tests/update_standard_library_build_results.py:156 | `rfind` gives -1 exactly when the byte is absent, and otherwise the index of its last occurrence |
| HtmlLog.AfterLastCR | tests/update_standard_library_build_results.py:156 | the kept part of a line holds no CR, is the whole line when there is none, and holds only the line's bytes |
| HtmlLog.AfterLastCRIsLastSegment | scripts/update_standard_library_build_results.py:109 | the kept part is the end of the line, and it follows a CR unless the line holds none |
| HtmlLog.CollapseCarriageReturns | tests/update_standard_library_build_results.py:153-158 | the loop gives the collapsed log: each line replaced by its part after the last CR, joined with LF |
| HtmlLog.CreateHtmlLog | tests/update_standard_library_build_results.py:152-161 | the HTML page is the converter applied to the collapsed log |
| HtmlLog.CollapsePrefixStep | scripts/update_standard_library_build_results.py:108-109 | one more loop turn appends the collapsed next line |
| HtmlLog.CollapsedLines | tests/update_standard_library_build_results.py:155-158 | the collapse keeps the number of lines, and line `k` becomes the part of input line `k` after its last CR |
| HtmlLog.CollapsedHasNoCR | scripts/update_standard_library_build_results.py:108-111 | no CR survives the collapse |
| HtmlLog.CollapseIdempotent | scripts/update_standard_library_build_results.py:108-111 | collapsing twice is collapsing once |
| HtmlLog.CollapseLinesWithoutCR | tests/update_standard_library_build_results.py:156 | lines without CR are left as they are |
| HtmlLog.CollapseKeepsCleanLines | tests/update_standard_library_build_results.py:155-158 | CR-free text that ends a line passes through unchanged, and the rest is collapsed on its own |
| HtmlLog.CollapseLinesAppend | scripts/update_standard_library_build_results.py:108-110 | collapsing two lists of lines one after the other |
| LogHeader.CreateLogHeader | tests/update_standard_library_build_results.py:65 | the header ends with two line feeds |
| LogHeader.HeaderStartsWithDate | scripts/update_standard_library_build_results.py:40-42 | the header opens with `Date:       <ctime>` |
| LogHeader.HeaderLineStructure | scripts/update_standard_library_build_results.py:39-65 | when no field holds a line feed, the header read back by lines is the nine labelled lines, the lines of the stripped `package.toml`, and two empty lines |
| LogHeader.SplitOfTerminatedJoin | scripts/update_standard_library_build_results.py:65 | `'\n'.join(lines) + '\n\n'` splits back into the lines and two empty ones |
| Upload.SentUntilError | tests/update_standard_library_build_results.py:164-180 | the posts made are the planned ones up to and including the first that the server answers with an error, so never more than planned |
| Upload.PostInOrder | scripts/update_standard_library_build_results.py:117-126 | posting one after the other with `raise_for_status()` makes exactly those posts, and raises exactly when the last one failed |
| Upload.SentOrder | tests/update_standard_library_build_results.py:165-173 | the first post is always made, and the second only after the first was accepted |
| Upload.SentIsPrefix | tests/update_standard_library_build_results.py:164-180 | the posts made are a prefix of the plan |
| Upload.SentUntilErrorStopsAtFailure | tests/update_standard_library_build_results.py:168-180 | every post made but the last was accepted, and the run stops short of the plan only after a failure |
| Upload.RaisedIffSomeRefused | tests/update_standard_library_build_results.py:168-180 | the uploads raise exactly when some planned post would be refused |
| Upload.AllSentUnlessRaised | tests/update_standard_library_build_results.py:164-180 | without an exception every planned post is made |
| BuildAndTest.RunStep | tests/update_standard_library_build_results.py:104-112 | the ok flag holds exactly when the process exited with code 0 within the timeout, so a step that timed out is never ok; the output is stdout then stderr, also after a timeout in which both streams produced output |
| BuildAndTest.BuildAndTestPackage | tests/update_standard_library_build_results.py:99-147 | the verdict is `yes` exactly when both steps are ok; coverage exists exactly when the tests are ok; the log is header, build invocation and output, test invocation and output |
| BuildAndTest.TestCommandMirrorsBuild | tests/update_standard_library_build_results.py:99-117 | the test command is the build command with `build` replaced by `test -c` |
| BuildAndTest.JobsOnlyWhenGiven | tests/update_standard_library_build_results.py:101-102 | `-j <jobs>` ends each command exactly when jobs are given |
| BuildAndTest.HeaderSurvivesCollapse | tests/update_standard_library_build_results.py:142-143 | a header without CR passes the collapse unchanged, and the rest of the log is collapsed on its own |
| BuildAndTest.UploadBuildAndTestResult | tests/update_standard_library_build_results.py:164-180 | posts the verdict, the HTML log and the coverage archive, in that order, stopping at the first error |
| BuildAndTest.UploadOrder | tests/update_standard_library_build_results.py:165-180 | the verdict goes first; the log goes only after the verdict was accepted, and its body is the HTML of the collapsed log; a third post only when there is coverage |
| BuildOnly.CommandIsBuildWithoutJobs | scripts/update_standard_library_build_results.py:85 | the command is `mys -C <root> build --url <url>`, the build-and-test build command without `-j` |
| BuildOnly.UncheckedExtractionAdmitsTraversal | scripts/update_standard_library_build_results.py:80-81 | a `../../e/f` member is extracted here, where the checked extraction refuses the archive |
| BuildOnly.BuildPackage | scripts/update_standard_library_build_results.py:85-98 | the verdict is `yes` exactly when the build returns 0; the log is header, invocation line, merged output |
| BuildOnly.UploadBuildResultAndLog | scripts/update_standard_library_build_results.py:117-126 | posts the verdict, then the HTML log, stopping at the first error |
| BuildOnly.UploadOrder | scripts/update_standard_library_build_results.py:117-126 | at most two posts: the verdict first, the log only after the verdict was accepted; no coverage |
| AppLogger.CleanLine | tests/test.py:47-48 | a logged line holds no escape, holds only characters of the raw line, and is the raw line when that has no escape and no line-end character at its ends |
| AppLogger.CleanLines | test/test.py:28-29 | every logged line is free of escapes |
| AppLogger.Logger.constructor | tests/test.py:39-40 | a new logger carries nothing over and has logged nothing |
| AppLogger.Logger.Write | tests/test.py:42-54 | carries over what follows the last line feed, which holds no line feed, and logs the cleaned lines before it, in order |
| AppLogger.Logger.Flush | tests/test.py:56-57 | changes nothing |
| AppLogger.CompletedCount | test/test.py:26-31 | one line is logged per line feed written |
| AppLogger.PendingHasNoLineFeed | test.py:21-30 | the carried-over text holds no line feed |
| AppLogger.PendingIsLastLine | test/test.py:26-35 | the carried-over text is the end of the text, right after its last line feed |
| AppLogger.NoNewlineOnlyBuffers | test.py:21-30 | a chunk without a line feed logs nothing and is appended to the carried-over text |
| AppLogger.ChunkingInvariance | test/test.py:26-35 | the lines logged for `x + y` are those for `x`, then those for the carried-over text plus `y`; the text carried over is the same |
| AppLogger.WritesCompose | test.py:18-30 | `write(a); write(b)` logs the same lines and carries over the same text as `write(a + b)` |
| AppLogger.CarriageReturnBeforeEscapeSurvives | test.py:23-24 | a CR that an escape kept from the line's end stays in the logged line |
| AppLogger.StepNewline | tests/test.py:46-51 | a line feed logs the cleaned pending line and empties it |
| AppLogger.StepChar | tests/test.py:52-53 | any other character extends the pending line |

## Left out

- HTTP: `requests.get` of the package archive and of the package list, and the posts
  themselves. The server is the `respond` parameter, and `raise_for_status()` is an error
  status (400 to 599).
- Running processes: `subprocess.run`, timeouts, and `mys --version`. The outcome of a
  command is the `run` parameter, and the version output is a field of `Environment`.
- `BuildAndTest.RunStep`: after a timeout, `subprocess.run` gives `None` for each stream
  that produced no output, and `error.stdout + error.stderr`
  (tests/update_standard_library_build_results.py:112 and :127) then raises `TypeError`.
  That happens whenever either stream was silent, for instance a build that writes only to
  stdout and then hangs. Nothing for the package is posted then, and the exception ends the
  loop over all packages. The model's `TimedOut` always carries two byte strings, so it
  covers only timeouts in which both streams produced output.
- Files: `tarfile` opening, `extractall` and `tar.add`, `glob`, `tempfile`, `os.chdir`,
  and reading `package.toml` or the coverage archive. Only the path-string check and the
  decision to extract are modelled.
- Symbolic links inside an archive are not looked at, in the code or in the model.
- `Ansi2HTMLConverter().convert` and the UTF-8 decode before it are the `toHtml`
  parameter.
- `time.ctime()` and `platform.uname()` are fields of `Environment`.
- `list_all_packages` (html5lib), `clear_cache`, `add_all_packages_to_dependencies`,
  the drivers' argument parsing and main loops, the `pexpect` website process, and
  `WebsiteReaderThread` (a daemon thread) are not modelled.
- The `systest` test cases are not modelled.
- `Upload.SentUntilError`: the coverage post is made inside `with open(...)`, and a failure
  to open the file is not modelled.
- `BuildAndTest.UploadBuildAndTestResult`, `BuildOnly.UploadBuildResultAndLog`: these
  convert the log to HTML before the first post rather than after it. The conversion is a
  total function here, so the order makes no difference in the model. In the source, a
  failing conversion comes after the verdict was posted (see the next line).
- `BuildAndTest.UploadBuildAndTestResult`, `BuildOnly.UploadBuildResultAndLog`: the model
  assumes the collapsed log decodes as UTF-8, since `toHtml` is total. The strict
  `log.decode('utf-8')` (tests/update_standard_library_build_results.py:159,
  scripts/update_standard_library_build_results.py:112) raises `UnicodeDecodeError` on
  build or test output that is not valid UTF-8. The verdict has been posted by then, but
  the log and the coverage never are, and the exception ends the loop over all packages.
- `BuildAndTest.UploadBuildAndTestResult`: `requests` may encode a `str` body differently
  from UTF-8. The model sends the verdict as UTF-8; `yes` and `no` are ASCII, so the
  bytes are the same.
- `AppLogger.Logger.Write`: `LOGGER.info('app: %s', line)` is the ghost list `emitted`,
  without the `app: ` prefix or log formatting. The lines are collected during the loop
  and appended after it, which gives the same list.
- `AppLogger.Logger.Write`: Python strings are sequences of code points. Dafny's `char`
  is used the same way.
