# coomer-downloader in Dafny

This project models the deterministic core of coomer-downloader. The tool is a
command-line program that collects every file a user published on coomer.su,
page by page. It downloads the files in parallel and writes a Markdown report
of the downloads that failed. The model covers the logic around that pipeline:

- `Results`: `Option` and `Result`. These stand in for Go's nil-able values and
  `(value, error)` returns.
- `Seqs`: the order-preserving list operations the program uses. `Filter` and
  `Map` model `funk.Filter`, `funk.Map` and the append loops. `Take` models the
  `s[:n]` cut.
- `Text`: the parts of Go's standard library the core relies on:
  - `%d` formatting;
  - `strings.Split`, `Join`, `TrimSpace`, `ToLower` and `Replace(…, 1)`;
  - `filepath.Ext` and `filepath.Join`;
  - the byte-wise `<` on strings.
- `Model` (model.go): the `Media` and `Download` records. It also holds the
  `MediaType` classification and the `ByFilePath` comparator and swap, which
  the duplicate pass sorts with.
- `Util` (util.go): the HTTP client's retry condition, `ExpandPath`, and the
  text of the failure report `CreateReport` writes (`_report.md`).
- `Posts` (posts.go):
  - the page count from the paginator;
  - the pagination loop of `GetMedias`, with its `limit` cut;
  - the file naming of `getMedias`;
  - `FilterExtensions`.
- `Cli` (main.go):
  - the `--extensions` action, which collects into a captured slice, modelled
    as the class `ExtensionsFlag`;
  - the `--service`, `--parallel` and `--limit` checks, and the required-flag
    checks of the main action;
  - the extension filter step of `startJob` and its success/failure split.

Fetching and HTML parsing are parameters of the model:

- `CountPages` takes the paginator's "of N" total, absent when the page has
  no paginator.
- `GetMedias` takes `listPosts`, a function from page offset to post URLs.
  It also takes `readPost`, a function from a post URL to the post's id and
  its image and attachment links.
- `ExpandPath` takes the outcome of the home-directory lookup.
- `CreateReport` takes whether the report file could be created.

The retry condition takes the transport error and the status code.

## Model

| member | source | states |
|---|---|---|
| `Seqs.Filter` | main.go:223-224 | the kept elements are elements of the input that satisfy the predicate, never more than the input |
| `Seqs.Map` | main.go:102-104 | same length as the input, and position i holds f of input position i |
| `Seqs.Take` | posts.go:56-58 | a prefix of the input, at most n long, exactly n long unless it is the whole input |
| `Seqs.FilterKeepsOrder` | main.go:223-224 | the filtered list is the input at the ascending positions whose element satisfies the predicate, and those are all such positions |
| `Seqs.FilterMembership` | posts.go:70-72 | an element is in the filtered list iff it is in the input and satisfies the predicate |
| `Seqs.FilterIdempotent` | posts.go:70-72 | filtering twice with one predicate equals filtering once |
| `Seqs.FilterAppend` | util.go:66-71 | filtering a concatenation is concatenating the filtered parts |
| `Seqs.FilterAll` | main.go:105-107 | when every element satisfies the predicate nothing is dropped |
| `Seqs.FilterNone` | util.go:66-71 | when no element satisfies the predicate the result is empty |
| `Seqs.FilterPartitionLength` | main.go:223-224 | the two complementary filters' lengths add up to the input length |
| `Seqs.FilterPartition` | main.go:223-224 | as multisets the two complementary filters add up to the input, so every element lands on exactly one side |
| `Seqs.MapFilterCommute` | main.go:101-107 | filtering mapped elements equals mapping the elements whose pre-image passes the matching predicate |
| `Text.NatToString` | util.go:75 | `%d` of a natural number is a non-empty run of decimal digits with no leading zero; it is `0` exactly for zero |
| `Text.ParseNatToString` | util.go:75 | the printed count reads back as the same number |
| `Text.NatToStringInjective` | posts.go:149 | different numbers print differently |
| `Text.Lower` | main.go:103 | same length, every character lower-cased one for one |
| `Text.LowerIsLower` | main.go:103 | the result has no upper-case letter, and lower-case input is unchanged |
| `Text.TrimLeft` | main.go:103 | the result is a suffix of the input, everything removed is white space, and it does not start with white space |
| `Text.TrimRight` | main.go:103 | the result is a prefix of the input, everything removed is white space, and it does not end with white space |
| `Text.TrimSpace` | main.go:103 | the result starts and ends with non-space, is empty iff the input is all space, and leaves trimmed input unchanged |
| `Text.TrimSpaceKeepsMiddle` | main.go:103 | the result is one contiguous slice of the input, and only white space lies before and after it |
| `Text.Split` | main.go:101 | at least one piece, and no piece contains the separator |
| `Text.JoinSplit` | main.go:101 | joining the pieces with the separator gives back the input |
| `Text.SplitJoin` | main.go:101 | splitting joined separator-free pieces gives back the pieces |
| `Text.ReplaceFirst` | util.go:42 | a string without the character is unchanged |
| `Text.ReplaceFirstSplits` | util.go:42 | only the first occurrence is replaced |
| `Text.Ext` | model.go:25 | the extension is a suffix of the path, and it is empty or a dot followed by neither dot nor separator |
| `Text.ExtShape` | posts.go:149 | the extension is empty only when no dot follows the last separator |
| `Text.ExtOfSuffix` | posts.go:149 | a path ending in a well-formed extension has that extension, whatever precedes it |
| `Text.PathJoin` | posts.go:150 | under an empty directory the path is the name itself; otherwise it is the directory, one `/`, then the name |
| `Text.PathJoinInjective` | posts.go:150 | different names under one directory give different paths |
| `Text.StrLess` | model.go:40 | the lexicographic order on paths; its contract is stated by `StrLessFirstDifference` and the four order lemmas |
| `Text.StrLessFirstDifference` | model.go:40 | one path sorts before another iff there is a position where they first differ and the first has ended there or has the smaller character, while the second has not ended |
| `Text.StrLessIrreflexive` | model.go:40 | no path sorts before itself |
| `Text.StrLessAsymmetric` | model.go:40 | two paths never sort before each other |
| `Text.StrLessTransitive` | model.go:40 | sorting before is transitive |
| `Text.StrLessTotal` | model.go:40 | of two different paths one sorts before the other |
| `Model.MediaTypeOf` | model.go:24-34 | Image iff the extension is `.jpg`, `.jpeg` or `.png`, Video iff it is `.gif`, `.mp4` or `.m4v`, Unknown iff it is neither |
| `Model.ClassifiedBySuffix` | model.go:24-34 | a path ending in a known extension is classified by that extension alone |
| `Model.UpperCaseIsUnknown` | model.go:27 | `.JPG` is Unknown: the match is case-sensitive |
| `Model.NoDotIsUnknown` | model.go:25 | a path without a dot is Unknown |
| `Model.Successes` | main.go:223 | a download is kept iff it is in the list and succeeded; never more than the list |
| `Model.Failures` | main.go:224 | a download is kept iff it is in the list and failed; never more than the list |
| `Model.Less` | model.go:40 | entry i sorts before entry j iff their paths have a first difference in i's favour |
| `Model.Swap` | model.go:39 | positions i and j are exchanged, every other position and the length are unchanged, and the contents are a permutation of the old ones |
| `Model.LessIsStrictOrder` | model.go:38-40 | `Less` over the valid indices is irreflexive, asymmetric and transitive, and ties only equal paths |
| `Util.ShouldRetry` | util.go:19-21 | retry iff there is a transport error or the status is 429 |
| `Util.ExpandPath` | util.go:36-45 | a path without a leading `~` comes back unchanged; otherwise `~` becomes the home directory, or the lookup error is returned |
| `Util.ExpandPathIdempotent` | util.go:36-45 | expanding an expanded path changes nothing when the home directory does not start with `~` |
| `Util.Report` | util.go:73-84 | the report starts with the header whose Total is an independent count of the failed downloads |
| `Util.BuildReport` | util.go:65-84 | the appended text equals `Report`: the header with the failure count, then one section per failed download in input order |
| `Util.CreateReport` | util.go:56-87 | when the file can be created, `_report.md` under the directory receives the report; otherwise nothing is written |
| `Util.FailuresCount` | util.go:66-71 | the number of collected failures equals an independent count of the downloads with `IsSuccess` false |
| `Util.ReportTotal` | util.go:73-75 | the report starts with the header whose Total is that count, and the count as printed reads back as itself |
| `Util.ReportWithoutFailures` | util.go:73-75 | with no failure the report is exactly the title line, the subtitle line and `- Total: 0` |
| `Util.ReportOfFailuresOnly` | util.go:66-71 | the report of the failures alone equals the report of all downloads |
| `Util.ReportIgnoresSuccess` | util.go:66-71 | removing a successful download leaves the report unchanged |
| `Util.BlocksAppend` | util.go:77-84 | the sections of a concatenation are the sections of one list after the other's |
| `Util.ReportConcat` | util.go:66-84 | the failures of a concatenation are reported in order, and their counts add up |
| `Util.BlockLines` | util.go:78-83 | a failure's section is exactly six lines when its URL and error are single lines |
| `Util.ReportLineCount` | util.go:73-84 | the report has 3 + 6 × (number of failures) lines when URLs and errors are single lines |
| `Posts.FilterExtensions` | posts.go:66-76 | the result is never longer than the input |
| `Posts.FilterExtensionsKeeps` | posts.go:70-72 | the result is the input at the ascending positions whose extension is listed, and a media is kept iff its extension is in the list |
| `Posts.FilterExtensionsIdempotent` | posts.go:70-72 | filtering the result again with the same list changes nothing |
| `Posts.FilterExtensionsEmptyList` | posts.go:70-72 | with an empty list nothing is kept |
| `Posts.CountPages` | posts.go:89-98 | one page without a paginator; otherwise the least page count whose pages of 50 hold the total |
| `Posts.PostMedias` | posts.go:145-158 | the loop's result is one media per link, numbered from 1 |
| `Posts.MediaAt` | posts.go:148-150 | the media fetches link i and is saved under a path ending in `<postId>-<i+1><ext>` |
| `Posts.MediasOf` | posts.go:145-156 | one media per link, image links first then attachments, each with the link as its URL |
| `Posts.FileNamesDistinct` | posts.go:149 | two different numbers give two different file names, whatever the extensions |
| `Posts.MediasOfDistinctPaths` | posts.go:148-150 | no two media of one post share a file path |
| `Posts.MediaKeepsLinkExtension` | posts.go:149-150 | a saved file has its link's extension whenever the link has one |
| `Posts.CollectedPrefix` | posts.go:44-51 | reading more pages only appends to the collected media |
| `Posts.PageOffsets` | posts.go:45 | page i is requested at offset i × 50 |
| `Posts.GetMedias` | posts.go:34-64 | the result is the page-then-post concatenation of all pages' media cut at `limit`, never longer than `limit`; pages are requested in order at offsets i × 50; reading stops right after the first page that reaches `limit`; the posts returned are those of the pages read |
| `Cli.Dot` | main.go:102-104 | a piece becomes a dot followed by the piece trimmed and lower-cased |
| `Cli.NormalizeExtensions` | main.go:101-107 | every entry starts with a dot, is longer than one character and has no upper-case letter, and there are no more entries than pieces |
| `Cli.DottedPieces` | main.go:102-104 | every dotted piece is non-empty, starts with a dot and is lower case |
| `Cli.KeptAreDotted` | main.go:105-107 | the filter keeps only dotted lower-case entries longer than the dot |
| `Cli.NormalizeDropsBlank` | main.go:101-107 | the entries are exactly the pieces that are not blank after trimming, in input order, each dotted |
| `Cli.NormalizeJoined` | main.go:101-107 | comma-joined trimmed lower-case words come back one for one, each with a dot in front |
| `Cli.LeadingDotDoubled` | main.go:103 | a value written with its dot (`.jpg`) becomes `..jpg`, which equals no file's extension |
| `Cli.ExtensionsFlag.constructor` | main.go:24 | the collected list starts empty |
| `Cli.ExtensionsFlag.Action` | main.go:100-111 | the value's entries are appended after those already collected, every entry stays well-formed, and no error is returned |
| `Cli.ValidateService` | main.go:40-45 | accepted iff the service is `onlyfans` or `fansly`, otherwise an error naming it |
| `Cli.ValidateParallel` | main.go:72-77 | accepted iff 1 ≤ n ≤ 5 |
| `Cli.ValidateLimit` | main.go:87-92 | accepted iff n ≥ 1 |
| `Cli.DefaultsValid` | main.go:66-81 | the defaults 3 and 1 000 000 pass their own checks |
| `Cli.CheckArguments` | main.go:141-153 | a missing service is reported first, then a missing user, then an invalid directory; otherwise the expanded directory |
| `Cli.SelectMedias` | main.go:218-220 | without extensions the media pass unchanged; with extensions a media is kept iff its extension is listed |
| `Cli.Partition` | main.go:223-224 | successes and failures are order-preserving filters, their lengths add up to the total, together they form the whole list, and a download is on a side iff its `IsSuccess` says so |

## Left out

- Network access is left out: `FetchUrl`, `IsOutdated`, `CheckUser`, telemetry, and the resty client's configuration (util.go:14-17). `SetRetryCount(6)` allows up to seven attempts; this count and the wait times are not modelled, only the retry condition.
- HTML scraping with goquery is left out. Its results are the parameters `total`, `listPosts` and `readPost`.
- In `countPages`, the regular expression and the `strconv.Atoi` call are left out. The float `math.Ceil` is modelled as exact integer ceiling division.
  - The pattern `of (\d+)` only captures digits, so `Atoi` fails only when the number is too large for `int`. It then returns the largest `int`, and the ignored range error leaves a page count of about that value divided by 50. The model's total is an unbounded natural, so it gives the exact ceiling instead.
  - Above 2^53 the float division is no longer exact either; the model does not follow that rounding.
  - A paginator text without "of N" makes `matches[1]` panic. This is not modelled.
- Posts.GetMedias: requires `limit >= 0`. With a negative `limit` the Go loop would take the cut on the first page and `medias[:limit]` would panic (posts.go:56-58). That cannot happen from the command line: the `--limit` action rejects values below 1 (main.go:87-92) and the default is 1 000 000 (main.go:81).
- `GetMedias` also prints a count. It is console output and is left out.
- Filesystem effects are left out: `os.Create`, the write and the close. `CreateReport` takes the outcome of the create as a flag. When the create fails, the function returns without an error, and the model does the same.
- Go renders a nil error as `%!s(<nil>)`, and the report models this text.
- Several functions are defined in files that are not part of this model: `DownloadMedias` (a concurrent worker pool), `RemoveDuplicates`, `ConvertMedia`, `CheckDeps`, `PrintError` and `Media.Ext`.
- `Posts.MediaExt`: `Media.Ext` is not part of this model. It is taken to be the extension of the file path, the same function `Download.MediaType` uses.
- `Text.PathJoin` does not model the `Clean` step of `filepath.Join`. It joins the directory and the name with one `/`, or returns the name alone when the directory is empty.
- `Text.TrimSpace` and `Text.Lower` cover ASCII white space and ASCII letters only. Go's Unicode tables are not modelled.
- `Text.StrLess` compares characters, while Go compares UTF-8 bytes. The two orders agree on ASCII paths.
- `Model.Len` returns the array length. The definition states it, so it has no contract of its own.
- Integers are unbounded. Apart from the `Atoi` case above, Go's `int` overflow does not arise for these counts. An out-of-range `--parallel` or `--limit` value is a parse error of the CLI framework before the checks run.
- The CLI framework wiring, environment variables, `os.Getwd`, `user.Current` and pterm console output are left out.
- The flag's destination variable is a stand-in in the model. The `--service` message quotes the destination variable, which holds the parsed value when flag actions run, so the model quotes the value itself.
