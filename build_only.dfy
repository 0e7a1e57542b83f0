/**
 * The older variant of the nightly job, `scripts/update_standard_library_build_results.py`:
 * each package is unpacked with an unchecked `extractall`, built once with `mys build`
 * (no tests, no timeout, no `-j`), and only the verdict and the HTML log are uploaded.
 *
 * Running the build is the parameter `run`: the return code of the command and what it
 * wrote, its standard error merged into its standard output.
 */
module BuildOnly {

  import opened Options
  import opened Utf8
  import Seqs
  import LogHeader
  import HtmlLog
  import Upload
  import PosixPath
  import SafeExtract
  import BuildAndTest

  /** What `subprocess.run(command, stdout=PIPE, stderr=STDOUT)` gives back: the return
      code and the one stream both outputs were written to. */
  datatype Completion = Completion(returnCode: int, output: Bytes)

  /** `mys -C <root> build --url <url>`. */
  function Command(root: string, url: string): seq<string>
  {
    ["mys", "-C", root, "build", "--url", url]
  }

  /** The build command is the one of the build-and-test variant run without `-j`. */
  lemma CommandIsBuildWithoutJobs(root: string, url: string)
    ensures Command(root, url) == BuildAndTest.BuildCommand(root, url, None)
    ensures |Command(root, url)| == 6 && Command(root, url)[2] == root && Command(root, url)[5] == url
  {
    assert BuildAndTest.JobsOption(None) == [];
  }

  /** `tarfile.open(...).extractall('package')`: every member is written out, wherever
      its name points. */
  function ExtractUnchecked(path: string, members: seq<string>): (r: SafeExtract.Extraction)
    ensures r.Extracted? && r.path == path && r.members == members
  {
    SafeExtract.Extracted(path, members)
  }

  /** A member named `../../<e>/<f>` is written outside `package` by the unchecked
      extraction, where the checked one of the build-and-test variant raises. */
  lemma UncheckedExtractionAdmitsTraversal(top: string, dir: string, e: string, f: string)
    requires SafeExtract.Name(top) && SafeExtract.Name(dir) && SafeExtract.Name(e) && SafeExtract.Name(f)
    requires !([PosixPath.Slash] + top + [PosixPath.Slash] + dir <= [PosixPath.Slash] + e + [PosixPath.Slash] + f)
    ensures var member := Seqs.Join(["..", "..", e, f], PosixPath.Slash);
            ExtractUnchecked(dir, [member]).Extracted? &&
            !SafeExtract.AllAdmitted([PosixPath.Slash] + top, dir, [member])
  {
    var member := Seqs.Join(["..", "..", e, f], PosixPath.Slash);
    SafeExtract.ParentTraversalRefused(top, dir, e, f);
    SafeExtract.RefusedMemberBlocks([PosixPath.Slash] + top, dir, [member], 0);
  }

  /** `build_package`, from the moment the package is unpacked at `root`: the verdict is
      "yes" exactly when `mys build` returns 0, and the log is the header, the invocation
      line and the merged output. */
  method BuildPackage(root: string, url: string, env: LogHeader.Environment, run: seq<string> -> Completion)
    returns (result: string, log: Bytes)
    ensures result == "yes" <==> run(Command(root, url)).returnCode == 0
    ensures result == "yes" || result == "no"
    ensures log == Encode(LogHeader.CreateLogHeader(env)) +
                   BuildAndTest.Invocation(Command(root, url)) + run(Command(root, url)).output
  {
    var command := Command(root, url);
    var proc := run(command);

    if proc.returnCode == 0 {
      result := "yes";
    } else {
      result := "no";
    }

    log := Encode(LogHeader.CreateLogHeader(env));
    log := log + BuildAndTest.Invocation(command);
    log := log + proc.output;
  }

  /** What `upload_build_result_and_log` posts, in order: the verdict, then the HTML log. */
  function PlannedPosts(package: string, result: string, log: Bytes, url: string,
                        toHtml: Bytes -> string): seq<Upload.Post>
  {
    [BuildAndTest.ResultPost(url, package, result)] +
    [BuildAndTest.LogPost(url, package, toHtml(HtmlLog.CollapsedLog(log)))]
  }

  /** `upload_build_result_and_log`. Returns the posts made, in order, and whether one of
      them raised. */
  method UploadBuildResultAndLog(package: string, result: string, log: Bytes, url: string,
                                 toHtml: Bytes -> string, respond: Upload.Post -> int)
    returns (sent: seq<Upload.Post>, raised: bool)
    ensures sent == Upload.SentUntilError(PlannedPosts(package, result, log, url, toHtml), respond)
    ensures raised <==> Upload.Raised(sent, respond)
  {
    var resultPost := BuildAndTest.ResultPost(url, package, result);
    var html := HtmlLog.CreateHtmlLog(log, toHtml);
    var logPost := BuildAndTest.LogPost(url, package, html);
    var posts := [resultPost] + [logPost];
    sent, raised := Upload.PostInOrder(posts, respond);
  }

  /** The verdict is always posted first, the log only once the verdict was accepted,
      and nothing else is posted: there is no coverage upload in this variant. */
  lemma UploadOrder(package: string, result: string, log: Bytes, url: string,
                    toHtml: Bytes -> string, respond: Upload.Post -> int)
    ensures var sent := Upload.SentUntilError(PlannedPosts(package, result, log, url, toHtml), respond);
            1 <= |sent| <= 2 &&
            sent[0].url == BuildAndTest.Endpoint(url, package, "build-result.txt") &&
            (|sent| == 2 ==> !Upload.HttpError(respond(sent[0])) &&
                             sent[1].url == BuildAndTest.Endpoint(url, package, "build-log.html") &&
                             sent[1].body == Encode(toHtml(HtmlLog.CollapsedLog(log))))
  {
    var resultPost := BuildAndTest.ResultPost(url, package, result);
    var logPost := BuildAndTest.LogPost(url, package, toHtml(HtmlLog.CollapsedLog(log)));
    assert PlannedPosts(package, result, log, url, toHtml) == [resultPost] + ([logPost] + []);
    Upload.SentOrder(resultPost, logPost, [], respond);
  }
}
