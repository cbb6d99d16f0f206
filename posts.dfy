/** posts.go: collecting the media of a user page by page, naming the files of
    each post, and filtering the result by extension. Fetching and HTML parsing
    are parameters: `total` is the paginator's "of N" count (absent when the
    page has no paginator), `listPosts` gives the post URLs at a page offset and
    `readPost` the parsed content of a post page. */
module Posts {
  import opened Results
  import opened Seqs
  import opened Text
  import opened Model

  /** Posts per catalog page, the step of the `?o=` offset. */
  const PageSize := 50

  /** What a post page yields: its id, its image links (`a.fileThumb`) and its
      attachment links (`a.post__attachment-link`), in page order. */
  datatype PostPage = PostPage(postId: string, images: seq<string>, attachments: seq<string>)

  // ------------------------------------------------------------ FilterExtensions

  /** `Media.Ext`: the extension of the file path. */
  function MediaExt(m: Media): string
  {
    Ext(m.filePath)
  }

  function HasExtensionIn(extensions: seq<string>): Media -> bool
  {
    m => MediaExt(m) in extensions
  }

  /** `FilterExtensions`: the media whose extension is one of `extensions`
      (exact, case-sensitive match). */
  function FilterExtensions(medias: seq<Media>, extensions: seq<string>): (r: seq<Media>)
    ensures |r| <= |medias|
  {
    Filter(medias, HasExtensionIn(extensions))
  }

  /** The kept media are exactly those with a listed extension, and they keep
      their relative order. */
  lemma FilterExtensionsKeeps(medias: seq<Media>, extensions: seq<string>)
    ensures SubsequenceAt(FilterExtensions(medias, extensions), medias,
                          KeptIndices(medias, HasExtensionIn(extensions)))
    ensures forall i :: 0 <= i < |medias| ==>
      (i in KeptIndices(medias, HasExtensionIn(extensions)) <==> MediaExt(medias[i]) in extensions)
    ensures forall m :: m in FilterExtensions(medias, extensions) <==>
      m in medias && MediaExt(m) in extensions
  {
    FilterKeepsOrder(medias, HasExtensionIn(extensions));
    forall m
      ensures m in FilterExtensions(medias, extensions) <==> m in medias && MediaExt(m) in extensions
    {
      FilterMembership(medias, HasExtensionIn(extensions), m);
    }
  }

  /** Filtering again with the same list changes nothing. */
  lemma FilterExtensionsIdempotent(medias: seq<Media>, extensions: seq<string>)
    ensures FilterExtensions(FilterExtensions(medias, extensions), extensions)
         == FilterExtensions(medias, extensions)
  {
    FilterIdempotent(medias, HasExtensionIn(extensions));
  }

  /** With an empty list nothing passes, which is why the caller only filters
      when extensions were given. */
  lemma FilterExtensionsEmptyList(medias: seq<Media>)
    ensures FilterExtensions(medias, []) == []
  {
    FilterNone(medias, HasExtensionIn([]));
  }

  // ------------------------------------------------------------ countPages

  /** `countPages`: ceil(N / 50) pages for a paginator reading "of N", one page
      when there is no paginator. */
  function CountPages(total: Option<nat>): (pages: nat)
    ensures total.None? ==> pages == 1
    ensures total.Some? ==> pages * PageSize >= total.value
    ensures total.Some? && pages > 0 ==> (pages - 1) * PageSize < total.value
  {
    match total
    case None => 1
    case Some(n) => (n + PageSize - 1) / PageSize
  }

  // ------------------------------------------------------------ getMedias

  function Links(page: PostPage): seq<string>
  {
    page.images + page.attachments
  }

  /** `<postId>-<k><ext>`. */
  function FileName(postId: string, k: nat, ext: string): string
  {
    postId + "-" + NatToString(k) + ext
  }

  /** The media for the link at index `i` (numbered `i + 1`). */
  function MediaAt(page: PostPage, directory: string, i: nat): (m: Media)
    requires i < |Links(page)|
    ensures m.url == Links(page)[i]
    ensures var name := FileName(page.postId, i + 1, Ext(Links(page)[i]));
      |name| <= |m.filePath| && m.filePath[|m.filePath| - |name|..] == name
  {
    var link := Links(page)[i];
    Media(link, PathJoin(directory, FileName(page.postId, i + 1, Ext(link))))
  }

  /** Everything `getMedias` returns for a post page. */
  function MediasOf(page: PostPage, directory: string): (r: seq<Media>)
    ensures |r| == |page.images| + |page.attachments|
    ensures forall k :: 0 <= k < |page.images| ==> r[k].url == page.images[k]
    ensures forall k :: 0 <= k < |page.attachments| ==> r[|page.images| + k].url == page.attachments[k]
  {
    seq(|Links(page)|, i requires 0 <= i < |Links(page)| => MediaAt(page, directory, i))
  }

  /** `getMedias`, after the page has been read: one Media per link. */
  method PostMedias(page: PostPage, directory: string) returns (medias: seq<Media>)
    ensures medias == MediasOf(page, directory)
  {
    var links := page.images + page.attachments;
    medias := [];
    for i := 0 to |links|
      invariant |medias| == i
      invariant forall k :: 0 <= k < i ==> medias[k] == MediaAt(page, directory, k)
    {
      var link := links[i];
      var fileName := page.postId + "-" + NatToString(i + 1) + Ext(link);
      var filePath := PathJoin(directory, fileName);
      medias := medias + [Media(link, filePath)];
    }
  }

  /** A run of digits followed by an extension splits back into the two. */
  lemma DigitsThenExt(d1: string, e1: string, d2: string, e2: string)
    requires AllDigits(d1) && AllDigits(d2) && IsExt(e1) && IsExt(e2)
    requires d1 + e1 == d2 + e2
    ensures d1 == d2
  {
    assert d1 == (d1 + e1)[..|d1|];
    assert d2 == (d2 + e2)[..|d2|];
  }

  /** Different numbers give different file names, whatever the extensions. */
  lemma FileNamesDistinct(postId: string, k1: nat, e1: string, k2: nat, e2: string)
    requires IsExt(e1) && IsExt(e2) && k1 != k2
    ensures FileName(postId, k1, e1) != FileName(postId, k2, e2)
  {
    if FileName(postId, k1, e1) == FileName(postId, k2, e2) {
      var p := postId + "-";
      AppendAssoc(p, NatToString(k1), e1);
      AppendAssoc(p, NatToString(k2), e2);
      assert NatToString(k1) + e1 == FileName(postId, k1, e1)[|p|..];
      assert NatToString(k2) + e2 == FileName(postId, k2, e2)[|p|..];
      DigitsThenExt(NatToString(k1), e1, NatToString(k2), e2);
      NatToStringInjective(k1, k2);
    }
  }

  /** No two media of one post share a file path. */
  lemma MediasOfDistinctPaths(page: PostPage, directory: string)
    ensures forall i, j :: 0 <= i < j < |MediasOf(page, directory)| ==>
      MediasOf(page, directory)[i].filePath != MediasOf(page, directory)[j].filePath
  {
    var links := Links(page);
    forall i, j | 0 <= i < j < |links|
      ensures MediaAt(page, directory, i).filePath != MediaAt(page, directory, j).filePath
    {
      ExtShape(links[i]);
      ExtShape(links[j]);
      FileNamesDistinct(page.postId, i + 1, Ext(links[i]), j + 1, Ext(links[j]));
      if MediaAt(page, directory, i).filePath == MediaAt(page, directory, j).filePath {
        PathJoinInjective(directory,
          FileName(page.postId, i + 1, Ext(links[i])), FileName(page.postId, j + 1, Ext(links[j])));
      }
    }
  }

  /** A saved file has the extension of its link whenever the link has one, so
      filtering on the file path is filtering on the link. */
  lemma MediaKeepsLinkExtension(page: PostPage, directory: string, i: nat)
    requires i < |Links(page)| && Ext(Links(page)[i]) != []
    ensures MediaExt(MediasOf(page, directory)[i]) == Ext(Links(page)[i])
  {
    var e := Ext(Links(page)[i]);
    var name := FileName(page.postId, i + 1, e);
    var stem := page.postId + "-" + NatToString(i + 1);
    ExtShape(Links(page)[i]);
    if directory == [] {
      ExtOfSuffix(stem, e);
    } else {
      AppendAssoc(directory + "/", stem, e);
      ExtOfSuffix(directory + "/" + stem, e);
    }
  }

  // ------------------------------------------------------------ GetMedias

  /** The media of the posts `urls`, post after post. */
  function PostsMedias(urls: seq<string>, readPost: string -> PostPage, directory: string): seq<Media>
  {
    if urls == [] then []
    else PostsMedias(urls[..|urls| - 1], readPost, directory) + MediasOf(readPost(urls[|urls| - 1]), directory)
  }

  /** The media of the first `k` catalog pages, page after page. */
  function Collected(listPosts: nat -> seq<string>, readPost: string -> PostPage, directory: string, k: nat)
    : seq<Media>
  {
    if k == 0 then []
    else Collected(listPosts, readPost, directory, k - 1)
         + PostsMedias(listPosts((k - 1) * PageSize), readPost, directory)
  }

  /** The post URLs of the first `k` catalog pages. */
  function CollectedPosts(listPosts: nat -> seq<string>, k: nat): seq<string>
  {
    if k == 0 then [] else CollectedPosts(listPosts, k - 1) + listPosts((k - 1) * PageSize)
  }

  /** Reading more pages only appends. */
  lemma {:induction false} CollectedPrefix(
    listPosts: nat -> seq<string>, readPost: string -> PostPage, directory: string, k: nat, n: nat)
    requires k <= n
    ensures |Collected(listPosts, readPost, directory, k)| <= |Collected(listPosts, readPost, directory, n)|
    ensures Collected(listPosts, readPost, directory, n)[..|Collected(listPosts, readPost, directory, k)|]
         == Collected(listPosts, readPost, directory, k)
  {
    if k < n {
      CollectedPrefix(listPosts, readPost, directory, k, n - 1);
      var c := Collected(listPosts, readPost, directory, n - 1);
      assert Collected(listPosts, readPost, directory, n)[..|c|] == c;
    }
  }

  /** Appending the next post's media extends the media of the posts so far. */
  lemma PostsMediasStep(
    before: seq<Media>, urls: seq<string>, j: nat, readPost: string -> PostPage, directory: string)
    requires j < |urls|
    ensures before + PostsMedias(urls[..j], readPost, directory) + MediasOf(readPost(urls[j]), directory)
         == before + PostsMedias(urls[..j + 1], readPost, directory)
  {
    assert urls[..j + 1][..j] == urls[..j];
    AppendAssoc(before, PostsMedias(urls[..j], readPost, directory), MediasOf(readPost(urls[j]), directory));
  }

  /** Media counts only grow page by page, so staying below `limit` after
      page `m` means staying below it after every earlier page. */
  lemma BelowLimit(
    listPosts: nat -> seq<string>, readPost: string -> PostPage, directory: string, m: nat, limit: int)
    requires m == 0 || |Collected(listPosts, readPost, directory, m)| < limit
    ensures forall k :: 1 <= k <= m ==> |Collected(listPosts, readPost, directory, k)| < limit
  {
    forall k | 1 <= k <= m
      ensures |Collected(listPosts, readPost, directory, k)| < limit
    {
      CollectedPrefix(listPosts, readPost, directory, k, m);
    }
  }

  /** The `?o=` offsets of the first `n` catalog pages. */
  function PageOffsets(n: nat): (r: seq<nat>)
    ensures |r| == n
    ensures forall j :: 0 <= j < n ==> r[j] == j * PageSize
  {
    if n == 0 then [] else PageOffsets(n - 1) + [(n - 1) * PageSize]
  }

  /** `GetMedias`: reads pages 0, 1, ... at offsets 0, 50, ... and appends the
      media of every post, stopping after the first page that brings the count
      to `limit` and cutting the list there. Returns the media, the post URLs
      seen and the offsets requested. */
  method GetMedias(
    total: Option<nat>, listPosts: nat -> seq<string>, readPost: string -> PostPage,
    directory: string, limit: int)
    returns (medias: seq<Media>, posts: seq<string>, offsets: seq<nat>)
    requires limit >= 0
    ensures medias == Take(Collected(listPosts, readPost, directory, CountPages(total)), limit)
    ensures |medias| <= limit
    ensures |offsets| <= CountPages(total)
    ensures offsets == PageOffsets(|offsets|)
    ensures posts == CollectedPosts(listPosts, |offsets|)
    ensures forall k :: 1 <= k < |offsets| ==> |Collected(listPosts, readPost, directory, k)| < limit
    ensures |offsets| < CountPages(total) ==>
      |offsets| >= 1 && |Collected(listPosts, readPost, directory, |offsets|)| >= limit
  {
    var numPages := CountPages(total);
    posts, medias, offsets := [], [], [];
    var i := 0;
    ghost var cut := false;
    while i < numPages
      invariant 0 <= i <= numPages
      invariant |offsets| == i
      invariant offsets == PageOffsets(i)
      invariant posts == CollectedPosts(listPosts, i)
      invariant medias == Collected(listPosts, readPost, directory, i)
      invariant i == 0 || |medias| < limit
      invariant !cut
    {
      var offset := i * PageSize;
      offsets := offsets + [offset];
      var postsPerPage := listPosts(offset);
      posts := posts + postsPerPage;

      ghost var before := medias;
      for j := 0 to |postsPerPage|
        invariant medias == before + PostsMedias(postsPerPage[..j], readPost, directory)
      {
        var mediasPerPost := PostMedias(readPost(postsPerPage[j]), directory);
        PostsMediasStep(before, postsPerPage, j, readPost, directory);
        medias := medias + mediasPerPost;
      }
      assert postsPerPage[..|postsPerPage|] == postsPerPage;

      if |medias| >= limit {
        BelowLimit(listPosts, readPost, directory, i, limit);
        CutIsTake(listPosts, readPost, directory, i + 1, numPages, limit);
        medias := medias[..limit];
        cut := true;
        break;
      }
      i := i + 1;
    }
    if !cut {
      assert i == numPages;
      BelowLimit(listPosts, readPost, directory, numPages, limit);
    }
  }

  /** Cutting the first `k` pages' media at `limit` is cutting all pages' media
      there, once the first `k` pages hold at least `limit`. */
  lemma CutIsTake(
    listPosts: nat -> seq<string>, readPost: string -> PostPage, directory: string, k: nat, n: nat, limit: nat)
    requires k <= n && |Collected(listPosts, readPost, directory, k)| >= limit
    ensures Collected(listPosts, readPost, directory, k)[..limit]
         == Take(Collected(listPosts, readPost, directory, n), limit)
  {
    CollectedPrefix(listPosts, readPost, directory, k, n);
  }
}
