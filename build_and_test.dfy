/**
 * `build_and_test_package` and `upload_build_and_test_result` of the nightly
 * standard-library job: build a package with `mys build`, test it with `mys test -c`,
 * each under a timeout, derive the verdict and whether a coverage bundle exists,
 * assemble the build log, then upload the verdict, the log as HTML and the coverage.
 *
 * Running a command is the parameter `run`: the outcome of a command under a timeout.
 * The server is the parameter `respond`, the status it answers a post with.
 */
module BuildAndTest {

  import opened Options
  import opened Utf8
  import Seqs
  import LogHeader
  import HtmlLog
  import Upload

  /** Seconds `mys build` may run. */
  const BuildTimeout: nat := 600
  /** Seconds `mys test` may run. */
  const TestTimeout: nat := 900
  /** The file the coverage report is packed into. */
  const CoverageArchive := "coverage.tar.gz"

  /** What `subprocess.run(..., capture_output=True, timeout=...)` gives back: the
      process exited with a return code, or it was killed at the timeout and
      `TimeoutExpired` carries what it had written so far. */
  datatype Outcome =
    | Exited(returnCode: int, stdout: Bytes, stderr: Bytes)
    | TimedOut(stdout: Bytes, stderr: Bytes)

  /** A step is ok when its process exited within the timeout with return code 0. */
  predicate Succeeded(outcome: Outcome)
  {
    outcome.Exited? && outcome.returnCode == 0
  }

  /** What a step contributes to the log: its standard output, then its standard
      error, whether it exited or timed out. */
  function Output(outcome: Outcome): Bytes
  {
    outcome.stdout + outcome.stderr
  }

  /** The `-j` option: present only when a number of jobs was given. */
  function JobsOption(jobs: Option<string>): seq<string>
  {
    match jobs
    case None => []
    case Some(count) => ["-j", count]
  }

  /** `mys -C <root> build --url <url> [-j <jobs>]`. */
  function BuildCommand(root: string, url: string, jobs: Option<string>): seq<string>
  {
    ["mys", "-C", root, "build", "--url", url] + JobsOption(jobs)
  }

  /** `mys -C <root> test -c --url <url> [-j <jobs>]`. */
  function TestCommand(root: string, url: string, jobs: Option<string>): seq<string>
  {
    ["mys", "-C", root, "test", "-c", "--url", url] + JobsOption(jobs)
  }

  /** The line `$ <command>` that precedes a step's output in the log. */
  function Invocation(command: seq<string>): Bytes
  {
    Encode("$ " + Seqs.Join(command, ' ') + "\n")
  }

  /** One `try: subprocess.run(...) except subprocess.TimeoutExpired` block: the ok flag
      and the output of running `command` under `timeout`. */
  method RunStep(command: seq<string>, timeout: nat, run: (seq<string>, nat) -> Outcome)
    returns (ok: bool, output: Bytes)
    ensures ok <==> Succeeded(run(command, timeout))
    ensures run(command, timeout).TimedOut? ==> !ok
    ensures output == Output(run(command, timeout))
  {
    match run(command, timeout) {
      case Exited(code, out, err) =>
        ok := code == 0;
        output := out + err;
      case TimedOut(out, err) =>
        ok := false;
        output := out + err;
    }
  }

  /** `build_and_test_package`, from the moment the package is unpacked at `root`.
      The verdict is "yes" exactly when both steps are ok; the coverage bundle exists
      exactly when the tests are ok, whatever the build did; the log is the header,
      then each step's invocation line and output, the build before the test. */
  method BuildAndTestPackage(root: string, url: string, jobs: Option<string>, env: LogHeader.Environment,
                             run: (seq<string>, nat) -> Outcome)
    returns (result: string, log: Bytes, coverage: Option<string>)
    ensures var build := run(BuildCommand(root, url, jobs), BuildTimeout);
            var test := run(TestCommand(root, url, jobs), TestTimeout);
            (result == "yes" <==> Succeeded(build) && Succeeded(test)) &&
            (result == "yes" || result == "no") &&
            (coverage.Some? <==> Succeeded(test)) &&
            (coverage.Some? ==> coverage.value == CoverageArchive) &&
            log == Encode(LogHeader.CreateLogHeader(env)) +
                   Invocation(BuildCommand(root, url, jobs)) + Output(build) +
                   Invocation(TestCommand(root, url, jobs)) + Output(test)
  {
    var buildCommand := BuildCommand(root, url, jobs);
    var buildOk, buildOutput := RunStep(buildCommand, BuildTimeout, run);

    var testCommand := TestCommand(root, url, jobs);
    var testOk, testOutput := RunStep(testCommand, TestTimeout, run);

    if buildOk && testOk {
      result := "yes";
    } else {
      result := "no";
    }

    if testOk {
      coverage := Some(CoverageArchive);
    } else {
      coverage := None;
    }

    log := Encode(LogHeader.CreateLogHeader(env));
    log := log + Invocation(buildCommand);
    log := log + buildOutput;
    log := log + Invocation(testCommand);
    log := log + testOutput;
  }

  /** The two commands differ only in the step: `build` against `test -c`. */
  lemma TestCommandMirrorsBuild(root: string, url: string, jobs: Option<string>)
    ensures var build := BuildCommand(root, url, jobs);
            TestCommand(root, url, jobs) == build[..3] + ["test", "-c"] + build[4..]
  {
    var build := BuildCommand(root, url, jobs);
    assert build[4..] == ["--url", url] + JobsOption(jobs);
  }

  /** The jobs option is passed on exactly when it is given, and then as the last two
      words of each command. */
  lemma JobsOnlyWhenGiven(root: string, url: string, jobs: Option<string>)
    ensures |BuildCommand(root, url, jobs)| == if jobs.Some? then 8 else 6
    ensures |TestCommand(root, url, jobs)| == if jobs.Some? then 9 else 7
    ensures jobs.Some? ==> BuildCommand(root, url, jobs)[6..] == ["-j", jobs.value]
    ensures jobs.Some? ==> TestCommand(root, url, jobs)[7..] == ["-j", jobs.value]
  {
  }

  /** Once the log is collapsed for the HTML page, the header stays as it was, provided
      none of its fields holds a carriage return, and the rest of the log is collapsed
      as if it stood alone. */
  lemma HeaderSurvivesCollapse(env: LogHeader.Environment, rest: Bytes)
    requires '\r' !in LogHeader.CreateLogHeader(env)
    ensures var header := Encode(LogHeader.CreateLogHeader(env));
            HtmlLog.CollapsedLog(header + rest) == header + HtmlLog.CollapsedLog(rest)
  {
    var text := LogHeader.CreateLogHeader(env);
    var header := Encode(text);
    assert CR !in header by {
      EncodeAsciiIn(text, '\r');
    }
    assert header[|header| - 1] == LF by {
      var init := text[..|text| - 1];
      assert text == init + ['\n'];
      EncodeAppend(init, ['\n']);
      EncodeAscii('\n');
    }
    HtmlLog.CollapseKeepsCleanLines(header, rest);
  }

  /** Where a file of a package's nightly results is posted. */
  function Endpoint(url: string, package: string, file: string): string
  {
    url + "/standard-library/" + package + "/" + file
  }

  /** The post of the verdict, as text. */
  function ResultPost(url: string, package: string, result: string): Upload.Post
  {
    Upload.Post(Endpoint(url, package, "build-result.txt"), Encode(result))
  }

  /** The post of the HTML page of the log. */
  function LogPost(url: string, package: string, html: string): Upload.Post
  {
    Upload.Post(Endpoint(url, package, "build-log.html"), Encode(html))
  }

  /** What `upload_build_and_test_result` posts, in order, before any answer is seen:
      the verdict as text, then the HTML log, then the coverage archive when there is
      one. `toHtml` converts the collapsed log to HTML and `readFile` gives the bytes
      of the coverage archive. */
  function PlannedPosts(package: string, result: string, log: Bytes, coverage: Option<string>, url: string,
                        toHtml: Bytes -> string, readFile: string -> Bytes): seq<Upload.Post>
  {
    [ResultPost(url, package, result)] +
    ([LogPost(url, package, toHtml(HtmlLog.CollapsedLog(log)))] + CoveragePosts(package, coverage, url, readFile))
  }

  /** The coverage post, when there is a bundle. */
  function CoveragePosts(package: string, coverage: Option<string>, url: string, readFile: string -> Bytes): seq<Upload.Post>
  {
    match coverage
    case None => []
    case Some(archive) => [Upload.Post(Endpoint(url, package, "coverage.tar.gz"), readFile(archive))]
  }

  /** `upload_build_and_test_result`. Returns the posts made, in order, and whether
      one of them raised. */
  method UploadBuildAndTestResult(package: string, result: string, log: Bytes, coverage: Option<string>, url: string,
                                  toHtml: Bytes -> string, readFile: string -> Bytes, respond: Upload.Post -> int)
    returns (sent: seq<Upload.Post>, raised: bool)
    ensures sent == Upload.SentUntilError(PlannedPosts(package, result, log, coverage, url, toHtml, readFile), respond)
    ensures raised <==> Upload.Raised(sent, respond)
  {
    var resultPost := ResultPost(url, package, result);
    var html := HtmlLog.CreateHtmlLog(log, toHtml);
    var logPost := LogPost(url, package, html);
    var coveragePosts := CoveragePosts(package, coverage, url, readFile);
    var posts := [resultPost] + ([logPost] + coveragePosts);
    sent, raised := Upload.PostInOrder(posts, respond);
  }

  /** The verdict is always posted first, the log is posted only once the verdict was
      accepted, and coverage is posted only when there is a bundle. */
  lemma UploadOrder(package: string, result: string, log: Bytes, coverage: Option<string>, url: string,
                    toHtml: Bytes -> string, readFile: string -> Bytes, respond: Upload.Post -> int)
    ensures var planned := PlannedPosts(package, result, log, coverage, url, toHtml, readFile);
            var sent := Upload.SentUntilError(planned, respond);
            |sent| >= 1 && sent[0].url == Endpoint(url, package, "build-result.txt") &&
            (|sent| >= 2 ==> !Upload.HttpError(respond(sent[0])) && sent[1].body == Encode(toHtml(HtmlLog.CollapsedLog(log)))) &&
            (|sent| == 3 ==> coverage.Some?)
  {
    var resultPost := ResultPost(url, package, result);
    var logPost := LogPost(url, package, toHtml(HtmlLog.CollapsedLog(log)));
    var coveragePosts := CoveragePosts(package, coverage, url, readFile);
    assert |coveragePosts| == if coverage.Some? then 1 else 0;
    Upload.SentOrder(resultPost, logPost, coveragePosts, respond);
  }
}
