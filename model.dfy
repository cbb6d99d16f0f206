/** The records passed between the catalog, the downloader and the report
    (model.go): a Media to fetch, the Download outcome of fetching it, the
    media class of a file and the by-path ordering the duplicate pass sorts with. */
module Model {
  import opened Results
  import opened Seqs
  import opened Text

  /** A resource to fetch and where to save it. */
  datatype Media = Media(url: string, filePath: string)

  /** The outcome of one fetch. `error` is Go's nil-able `error` field. */
  datatype Download = Download(
    url: string,
    filePath: string,
    error: Option<string>,
    isSuccess: bool,
    hash: string)

  datatype MediaType = Image | Video | Unknown

  const ImageExtensions: set<string> := {".jpg", ".jpeg", ".png"}
  const VideoExtensions: set<string> := {".gif", ".mp4", ".m4v"}

  /** `Download.MediaType`: classification by the exact (case-sensitive)
      extension of the file path. */
  function MediaTypeOf(d: Download): (t: MediaType)
    ensures t == Image <==> Ext(d.filePath) in ImageExtensions
    ensures t == Video <==> Ext(d.filePath) in VideoExtensions
    ensures t == Unknown <==> Ext(d.filePath) !in ImageExtensions + VideoExtensions
  {
    var extension := Ext(d.filePath);
    if extension == ".jpg" || extension == ".jpeg" || extension == ".png" then Image
    else if extension == ".gif" || extension == ".mp4" || extension == ".m4v" then Video
    else Unknown
  }

  /** A file named `stem + e` is classified by `e` alone, whatever the stem. */
  lemma ClassifiedBySuffix(d: Download, stem: string, e: string)
    requires e in ImageExtensions + VideoExtensions
    requires d.filePath == stem + e
    ensures MediaTypeOf(d) == (if e in ImageExtensions then Image else Video)
  {
    ExtOfSuffix(stem, e);
  }

  /** Classification is case-sensitive: an upper-case `.JPG` is not an image. */
  lemma UpperCaseIsUnknown(d: Download, stem: string)
    requires d.filePath == stem + ".JPG"
    ensures MediaTypeOf(d) == Unknown
  {
    ExtOfSuffix(stem, ".JPG");
  }

  /** A path whose final element has no dot has no extension, so is Unknown. */
  lemma NoDotIsUnknown(d: Download)
    requires forall k :: 0 <= k < |d.filePath| ==> d.filePath[k] != '.'
    ensures MediaTypeOf(d) == Unknown
  {
    ExtShape(d.filePath);
  }

  predicate Succeeded(d: Download) { d.isSuccess }

  predicate Failed(d: Download) { !d.isSuccess }

  /** The downloads that went through, in input order. */
  function Successes(downloads: seq<Download>): (r: seq<Download>)
    ensures |r| <= |downloads|
    ensures forall d :: d in r <==> d in downloads && d.isSuccess
  {
    FilterMembers(downloads, Succeeded);
    Filter(downloads, Succeeded)
  }

  /** The downloads that did not, in input order. */
  function Failures(downloads: seq<Download>): (r: seq<Download>)
    ensures |r| <= |downloads|
    ensures forall d :: d in r <==> d in downloads && !d.isSuccess
  {
    FilterMembers(downloads, Failed);
    Filter(downloads, Failed)
  }

  // ------------------------------------------------------------ ByFilePath

  /** `ByFilePath.Len`. */
  function Len(a: array<Download>): nat
  {
    a.Length
  }

  /** `ByFilePath.Less`: the i-th file path sorts before the j-th. */
  predicate Less(a: array<Download>, i: int, j: int)
    requires 0 <= i < Len(a) && 0 <= j < Len(a)
    reads a
    ensures Less(a, i, j) <==> exists k :: FirstDifference(a[i].filePath, a[j].filePath, k)
  {
    StrLessFirstDifference(a[i].filePath, a[j].filePath);
    StrLess(a[i].filePath, a[j].filePath)
  }

  /** `ByFilePath.Swap`: exchanges two entries in place. */
  method Swap(a: array<Download>, i: int, j: int)
    requires 0 <= i < Len(a) && 0 <= j < Len(a)
    modifies a
    ensures a[..] == old(a[..])[i := old(a[j])][j := old(a[i])]
    ensures multiset(a[..]) == old(multiset(a[..]))
  {
    a[i], a[j] := a[j], a[i];
  }

  /** `Less` on the positions below `Len` is a strict weak order that only
      ties equal paths, as `sort.Sort` requires of it. */
  lemma LessIsStrictOrder(a: array<Download>, i: int, j: int, k: int)
    requires 0 <= i < Len(a) && 0 <= j < Len(a) && 0 <= k < Len(a)
    ensures !Less(a, i, i)
    ensures Less(a, i, j) ==> !Less(a, j, i)
    ensures Less(a, i, j) && Less(a, j, k) ==> Less(a, i, k)
    ensures Less(a, i, j) || Less(a, j, i) || a[i].filePath == a[j].filePath
  {
    StrLessIrreflexive(a[i].filePath);
    StrLessAsymmetric(a[i].filePath, a[j].filePath);
    StrLessTransitive(a[i].filePath, a[j].filePath, a[k].filePath);
    StrLessTotal(a[i].filePath, a[j].filePath);
  }
}
