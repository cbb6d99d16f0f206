/** util.go: the retry condition of the shared HTTP client, home-directory
    expansion of the output path, and the Markdown failure report. */
module Util {
  import opened Results
  import opened Seqs
  import opened Text
  import opened Model

  // ------------------------------------------------------------ retry condition

  /** HTTP 429, "Too Many Requests" (section 4 of RFC 6585). */
  const TooManyRequests := 429

  /** The client's retry condition: retry on a transport error (no usable
      response) or when the server rate-limits with 429; never otherwise. */
  function ShouldRetry(transportError: Option<string>, statusCode: int): (retry: bool)
    ensures transportError.Some? ==> retry
    ensures statusCode == TooManyRequests ==> retry
    ensures transportError.None? && statusCode != TooManyRequests ==> !retry
  {
    transportError.Some? || statusCode == TooManyRequests
  }

  // ------------------------------------------------------------ ExpandPath

  /** `ExpandPath`: a leading `~` becomes the home directory. `home` is what
      the user lookup returns; it is consulted only for a path starting with `~`. */
  function ExpandPath(path: string, home: Result<string>): (r: Result<string>)
    ensures (path == [] || path[0] != '~') ==> r == Ok(path)
    ensures path != [] && path[0] == '~' && home.Ok? ==> r == Ok(home.value + path[1..])
    ensures path != [] && path[0] == '~' && home.Err? ==> r == Err(home.error)
  {
    if |path| > 0 && path[0] == '~' then
      match home
      case Err(e) => Err(e)
      case Ok(dir) => Ok(ReplaceFirst(path, '~', dir))
    else
      Ok(path)
  }

  /** Expanding an already expanded path changes nothing, provided the home
      directory does not itself start with `~`. */
  lemma ExpandPathIdempotent(path: string, dir: string)
    requires dir != [] && dir[0] != '~'
    ensures ExpandPath(path, Ok(dir)).Ok?
    ensures ExpandPath(ExpandPath(path, Ok(dir)).value, Ok(dir)) == ExpandPath(path, Ok(dir))
  {
  }

  // ------------------------------------------------------------ report content

  /** One line of the report file. */
  function Line(s: string): string { s + "\n" }

  const Title := "# Coomer - Download Report"
  const Subtitle := "## Failed Downloads"
  const ErrorHeading := "### \U{1F4DD} Error:"
  const Fence := "```"
  const Rule := "---"

  /** The `- Total: N` line's text. */
  function TotalText(failures: nat): string
  {
    "- Total: " + NatToString(failures)
  }

  /** The three lines every report starts with. */
  function Header(failures: nat): string
  {
    Line(Title) + Line(Subtitle) + Line(TotalText(failures))
  }

  function LinkText(d: Download): string
  {
    "### \U{1F517} Link: " + d.url + " - \U{274C} **Failure**"
  }

  /** `%s` of the error field; Go renders a nil error as `%!s(<nil>)`. */
  function ErrorText(d: Download): string
  {
    match d.error
    case Some(e) => e
    case None => "%!s(<nil>)"
  }

  /** The six-line section of one failed download. */
  function Block(d: Download): string
  {
    Line(LinkText(d)) + Line(ErrorHeading) + Line(Fence) + Line(ErrorText(d)) + Line(Fence) + Line(Rule)
  }

  /** The sections of `failed`, in order. */
  function Blocks(failed: seq<Download>): string
  {
    if failed == [] then "" else Blocks(failed[..|failed| - 1]) + Block(failed[|failed| - 1])
  }

  /** The whole text written to `_report.md`. */
  function Report(downloads: seq<Download>): (r: string)
    ensures |Header(CountFailed(downloads))| <= |r|
    ensures r[..|Header(CountFailed(downloads))|] == Header(CountFailed(downloads))
  {
    FailuresCount(downloads);
    var failed := Failures(downloads);
    Header(|failed|) + Blocks(failed)
  }

  /** The file `CreateReport` writes. */
  datatype ReportFile = ReportFile(path: string, content: string)

  const ReportName := "_report.md"

  /** The content building of `CreateReport`: collect the failures, then
      append the header and one section per failure. */
  method BuildReport(downloads: seq<Download>) returns (content: string)
    ensures content == Report(downloads)
  {
    var failed: seq<Download> := [];
    for i := 0 to |downloads|
      invariant failed == Failures(downloads[..i])
    {
      FailuresStep(downloads, i);
      if !downloads[i].isSuccess {
        failed := failed + [downloads[i]];
      }
    }
    assert downloads[..|downloads|] == downloads;

    content := Line(Title);
    content := content + Line(Subtitle);
    content := content + Line(TotalText(|failed|));

    for j := 0 to |failed|
      invariant content == Header(|failed|) + Blocks(failed[..j])
    {
      var d := failed[j];
      ghost var before := content;
      BlocksStep(failed, j);
      content := content + Line(LinkText(d));
      content := content + Line(ErrorHeading);
      content := content + Line(Fence);
      content := content + Line(ErrorText(d));
      content := content + Line(Fence);
      content := content + Line(Rule);
      SectionAppend(before, d);
      AppendAssoc(Header(|failed|), Blocks(failed[..j]), Block(d));
    }
    assert failed[..|failed|] == failed;
  }

  /** Appending a section's six lines one by one appends the section. */
  lemma SectionAppend(c: string, d: Download)
    ensures c + Line(LinkText(d)) + Line(ErrorHeading) + Line(Fence) + Line(ErrorText(d))
      + Line(Fence) + Line(Rule) == c + Block(d)
  {
    var l1, l2, l3, l4, l6 := Line(LinkText(d)), Line(ErrorHeading), Line(Fence), Line(ErrorText(d)), Line(Rule);
    AppendAssoc(c, l1, l2);
    AppendAssoc(c, l1 + l2, l3);
    AppendAssoc(c, l1 + l2 + l3, l4);
    AppendAssoc(c, l1 + l2 + l3 + l4, l3);
    AppendAssoc(c, l1 + l2 + l3 + l4 + l3, l6);
  }

  lemma FailuresStep(downloads: seq<Download>, i: nat)
    requires i < |downloads|
    ensures Failures(downloads[..i + 1]) ==
      Failures(downloads[..i]) + if downloads[i].isSuccess then [] else [downloads[i]]
  {
    assert downloads[..i + 1][..i] == downloads[..i];
  }

  lemma BlocksStep(failed: seq<Download>, j: nat)
    requires j < |failed|
    ensures Blocks(failed[..j + 1]) == Blocks(failed[..j]) + Block(failed[j])
  {
    assert failed[..j + 1][..j] == failed[..j];
  }

  /** `CreateReport`: when the file can be created (`created`), it holds the
      report of every download; otherwise nothing is written and no error is
      returned. */
  method CreateReport(directory: string, downloads: seq<Download>, created: bool)
    returns (written: Option<ReportFile>)
    ensures !created ==> written == None
    ensures created ==> written == Some(ReportFile(PathJoin(directory, ReportName), Report(downloads)))
  {
    if !created {
      return None;
    }
    var content := BuildReport(downloads);
    written := Some(ReportFile(PathJoin(directory, ReportName), content));
  }

  // ------------------------------------------------------------ report properties

  /** Number of failed downloads, counted independently of `Filter`. */
  function CountFailed(downloads: seq<Download>): nat
  {
    if downloads == [] then 0
    else (if downloads[0].isSuccess then 0 else 1) + CountFailed(downloads[1..])
  }

  lemma {:induction false} FailuresCount(downloads: seq<Download>)
    ensures |Failures(downloads)| == CountFailed(downloads)
  {
    if downloads != [] {
      FailuresCount(downloads[1..]);
      FilterAppend([downloads[0]], downloads[1..], Failed);
      assert [downloads[0]] + downloads[1..] == downloads;
      assert Filter([downloads[0]], Failed) == if Failed(downloads[0]) then [downloads[0]] else [];
    }
  }

  /** The Total line holds the number of failed downloads, written so that it
      reads back as that number. */
  lemma ReportTotal(downloads: seq<Download>)
    ensures Report(downloads) == Header(CountFailed(downloads)) + Blocks(Failures(downloads))
    ensures ParseNat(NatToString(CountFailed(downloads))) == CountFailed(downloads)
  {
    FailuresCount(downloads);
    ParseNatToString(CountFailed(downloads));
  }

  /** With no failure the report is exactly the three header lines with
      `Total: 0`. */
  lemma ReportWithoutFailures(downloads: seq<Download>)
    requires forall i :: 0 <= i < |downloads| ==> downloads[i].isSuccess
    ensures Report(downloads) == Line(Title) + Line(Subtitle) + Line("- Total: 0")
  {
    FilterNone(downloads, Failed);
    assert Report(downloads) == Header(0) + "";
    assert NatToString(0) == "0";
    assert TotalText(0) == "- Total: 0";
  }

  /** Only failures matter: the report of the failures alone is the same. */
  lemma ReportOfFailuresOnly(downloads: seq<Download>)
    ensures Report(Failures(downloads)) == Report(downloads)
  {
    FilterIdempotent(downloads, Failed);
  }

  /** Taking a successful download out of the list (as the duplicate pass
      does) leaves the report unchanged. */
  lemma ReportIgnoresSuccess(downloads: seq<Download>, i: nat)
    requires i < |downloads| && downloads[i].isSuccess
    ensures Report(downloads[..i] + downloads[i + 1..]) == Report(downloads)
  {
    var a, x, b := downloads[..i], downloads[i], downloads[i + 1..];
    assert downloads == (a + [x]) + b;
    assert Filter([x], Failed) == [];
    FilterAppend(a + [x], b, Failed);
    FilterAppend(a, [x], Failed);
    assert Failures(a + [x]) == Failures(a);
    FilterAppend(a, b, Failed);
  }

  lemma {:induction false} BlocksAppend(f: seq<Download>, g: seq<Download>)
    ensures Blocks(f + g) == Blocks(f) + Blocks(g)
  {
    if g == [] {
      assert f + g == f;
    } else {
      var init, last := g[..|g| - 1], g[|g| - 1];
      assert (f + g)[..|f + g| - 1] == f + init;
      assert (f + g)[|f + g| - 1] == last;
      BlocksAppend(f, init);
      AppendAssoc(Blocks(f), Blocks(init), Block(last));
    }
  }

  /** The report's sections are the failures' sections in input order: the
      failures of a concatenation are reported one list after the other. */
  lemma ReportConcat(a: seq<Download>, b: seq<Download>)
    ensures Blocks(Failures(a + b)) == Blocks(Failures(a)) + Blocks(Failures(b))
    ensures |Failures(a + b)| == |Failures(a)| + |Failures(b)|
  {
    FilterAppend(a, b, Failed);
    BlocksAppend(Failures(a), Failures(b));
  }

  /** Newlines in a line with none inside. */
  lemma LineCount(s: string)
    requires '\n' !in s
    ensures CountChar(Line(s), '\n') == 1
  {
    CountCharAbsent(s, '\n');
    CountCharAppend(s, "\n", '\n');
  }

  predicate OneLine(d: Download)
  {
    '\n' !in d.url && '\n' !in ErrorText(d)
  }

  lemma BlockLines(d: Download)
    requires OneLine(d)
    ensures CountChar(Block(d), '\n') == 6
  {
    LineCount(LinkText(d));
    LineCount(ErrorHeading);
    LineCount(Fence);
    LineCount(ErrorText(d));
    LineCount(Rule);
    var l1, l2, l3, l4 := Line(LinkText(d)), Line(ErrorHeading), Line(Fence), Line(ErrorText(d));
    CountCharAppend(l1, l2, '\n');
    CountCharAppend(l1 + l2, l3, '\n');
    CountCharAppend(l1 + l2 + l3, l4, '\n');
    CountCharAppend(l1 + l2 + l3 + l4, l3, '\n');
    CountCharAppend(l1 + l2 + l3 + l4 + l3, Line(Rule), '\n');
  }

  lemma {:induction false} BlocksLines(failed: seq<Download>)
    requires forall d :: d in failed ==> OneLine(d)
    ensures CountChar(Blocks(failed), '\n') == 6 * |failed|
  {
    if failed != [] {
      var init := failed[..|failed| - 1];
      BlocksLines(init);
      BlockLines(failed[|failed| - 1]);
      CountCharAppend(Blocks(init), Block(failed[|failed| - 1]), '\n');
    }
  }

  lemma HeaderLines(n: nat)
    ensures CountChar(Header(n), '\n') == 3
  {
    var digits := NatToString(n);
    assert forall k :: 0 <= k < |digits| ==> digits[k] != '\n';
    assert '\n' !in TotalText(n);
    LineCount(Title);
    LineCount(Subtitle);
    LineCount(TotalText(n));
    CountCharAppend(Line(Title), Line(Subtitle), '\n');
    CountCharAppend(Line(Title) + Line(Subtitle), Line(TotalText(n)), '\n');
  }

  /** When URLs and error texts are single lines, the report has exactly
      3 + 6·(number of failures) lines. */
  lemma ReportLineCount(downloads: seq<Download>)
    requires forall d :: d in downloads ==> OneLine(d)
    ensures CountChar(Report(downloads), '\n') == 3 + 6 * CountFailed(downloads)
  {
    var failed := Failures(downloads);
    FailuresCount(downloads);
    BlocksLines(failed);
    HeaderLines(|failed|);
    CountCharAppend(Header(|failed|), Blocks(failed), '\n');
  }
}
