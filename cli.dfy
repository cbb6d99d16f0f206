/** main.go: the flag actions that check and normalise the command line, the
    argument checks of the main action, and the list logic of `startJob`
    around the download pipeline (the extension filter and the split of the
    downloads into successes and failures). */
module Cli {
  import opened Results
  import opened Seqs
  import opened Text
  import opened Model
  import opened Util
  import opened Posts

  // ------------------------------------------------------------ --extensions

  /** One comma-separated piece as the `--extensions` action rewrites it:
      trimmed, lower-cased and prefixed with a dot. */
  function Dot(piece: string): (e: string)
    ensures |e| == |TrimSpace(piece)| + 1
    ensures e[0] == '.' && e[1..] == Lower(TrimSpace(piece))
    ensures IsLower(e)
  {
    LowerIsLower(TrimSpace(piece));
    "." + Lower(TrimSpace(piece))
  }

  /** The action's filter: more than the dot alone. */
  predicate LongerThanOne(e: string) { |e| > 1 }

  /** A piece with something left after trimming. */
  predicate NotBlank(piece: string) { TrimSpace(piece) != [] }

  /** The extensions one `--extensions` value contributes: split at commas,
      each piece dotted, the pieces that were only a dot dropped. */
  function NormalizeExtensions(s: string): (r: seq<string>)
    ensures |r| <= |Split(s, ',')|
    ensures forall e :: e in r ==> |e| > 1 && e[0] == '.' && IsLower(e)
  {
    DottedPieces(Split(s, ','));
    KeptAreDotted(Map(Split(s, ','), Dot));
    Filter(Map(Split(s, ','), Dot), LongerThanOne)
  }

  /** Every dotted piece starts with its dot and is lower case. */
  lemma DottedPieces(pieces: seq<string>)
    ensures forall k :: 0 <= k < |pieces| ==> Map(pieces, Dot)[k] != [] && Map(pieces, Dot)[k][0] == '.' && IsLower(Map(pieces, Dot)[k])
  {
    forall k | 0 <= k < |pieces|
      ensures Map(pieces, Dot)[k] != [] && Map(pieces, Dot)[k][0] == '.' && IsLower(Map(pieces, Dot)[k])
    {
      var e := Dot(pieces[k]);
      assert Map(pieces, Dot)[k] == e;
    }
  }

  /** What survives the filter out of dotted pieces is a dotted, lower-case
      extension longer than the dot. */
  lemma KeptAreDotted(dotted: seq<string>)
    requires forall k :: 0 <= k < |dotted| ==> dotted[k] != [] && dotted[k][0] == '.' && IsLower(dotted[k])
    ensures forall e :: e in Filter(dotted, LongerThanOne) ==> |e| > 1 && e[0] == '.' && IsLower(e)
  {
    forall e | e in Filter(dotted, LongerThanOne)
      ensures |e| > 1 && e[0] == '.' && IsLower(e)
    {
      var k :| 0 <= k < |dotted| && dotted[k] == e;
    }
  }

  /** The kept extensions are exactly the non-blank pieces, in input order,
      each trimmed, lower-cased and dotted. */
  lemma NormalizeDropsBlank(s: string)
    ensures NormalizeExtensions(s) == Map(Filter(Split(s, ','), NotBlank), Dot)
  {
    MapFilterCommute(Split(s, ','), Dot, LongerThanOne, NotBlank);
  }

  /** Round trip: extensions written without dot, spaces or upper case and
      joined by commas come back one for one, each with its dot. */
  lemma {:induction false} NormalizeJoined(xs: seq<string>)
    requires |xs| >= 1
    requires forall k :: 0 <= k < |xs| ==> xs[k] != [] && IsTrimmed(xs[k]) && IsLower(xs[k]) && ',' !in xs[k]
    ensures |NormalizeExtensions(Join(xs, ','))| == |xs|
    ensures forall k :: 0 <= k < |xs| ==> NormalizeExtensions(Join(xs, ','))[k] == "." + xs[k]
  {
    SplitJoin(xs, ',');
    var dotted := Map(xs, Dot);
    forall k | 0 <= k < |dotted|
      ensures LongerThanOne(dotted[k]) && dotted[k] == "." + xs[k]
    {
      LowerIsLower(xs[k]);
    }
    FilterAll(dotted, LongerThanOne);
  }

  /** A value given with its dot gets a second one (`.jpg` becomes `..jpg`),
      and no file's extension is ever equal to such an entry. */
  lemma LeadingDotDoubled(e: string)
    requires e != [] && e[0] == '.' && IsTrimmed(e) && IsLower(e) && ',' !in e
    ensures NormalizeExtensions(e) == ["." + e]
    ensures forall m :: MediaExt(m) != "." + e
  {
    NormalizeJoined([e]);
    forall m
      ensures MediaExt(m) != "." + e
    {
      ExtShape(m.filePath);
      assert ("." + e)[1] == '.';
    }
  }

  /** The `extensions` slice the `--extensions` action appends to. */
  class ExtensionsFlag {
    var extensions: seq<string>

    /** Every collected entry is a dotted, lower-case extension. */
    ghost predicate Valid()
      reads this
    {
      forall e :: e in extensions ==> |e| > 1 && e[0] == '.' && IsLower(e)
    }

    /** `make([]string, 0)`. */
    constructor ()
      ensures extensions == [] && Valid()
    {
      extensions := [];
    }

    /** The `--extensions` action: appends the value's extensions after the
        ones already collected; it never fails. */
    method Action(s: string) returns (err: Option<string>)
      requires Valid()
      modifies this
      ensures extensions == old(extensions) + NormalizeExtensions(s)
      ensures Valid()
      ensures err == None
    {
      var split := NormalizeExtensions(s);
      extensions := extensions + split;
      err := None;
    }
  }

  // ------------------------------------------------------------ validators

  /** The `--service` action. The message quotes the flag's destination,
      which already holds `s` when actions run. */
  function ValidateService(s: string): (err: Option<string>)
    ensures err == None <==> s == "onlyfans" || s == "fansly"
    ensures err.Some? ==> err.value == "Invalid service '" + s + "'"
  {
    if s != "onlyfans" && s != "fansly" then Some("Invalid service '" + s + "'") else None
  }

  /** The `--parallel` action. */
  function ValidateParallel(i: int): (err: Option<string>)
    ensures err == None <==> 1 <= i <= 5
    ensures err.Some? ==> err.value == "The number of parallel downloads should be between 1-5"
  {
    if i < 1 || i > 5 then Some("The number of parallel downloads should be between 1-5") else None
  }

  /** The `--limit` action. */
  function ValidateLimit(i: int): (err: Option<string>)
    ensures err == None <==> i >= 1
    ensures err.Some? ==> err.value == "The number of max downloads should be at least 1"
  {
    if i < 1 then Some("The number of max downloads should be at least 1") else None
  }

  /** The flags' defaults pass their own checks. */
  lemma DefaultsValid()
    ensures ValidateParallel(3) == None
    ensures ValidateLimit(1_000_000) == None
  {
  }

  /** The main action's argument checks: both required flags present, then
      the output directory expanded; the result is the expanded directory. */
  function CheckArguments(service: string, user: string, directory: string, home: Result<string>)
    : (r: Result<string>)
    ensures service == [] ==> r == Err("Required flag '--service', '-s' is missing")
    ensures service != [] && user == [] ==> r == Err("Required flag '--user', '-u' is missing")
    ensures service != [] && user != [] && ExpandPath(directory, home).Ok? ==> r == ExpandPath(directory, home)
    ensures service != [] && user != [] && ExpandPath(directory, home).Err? ==>
      r == Err("Directory path " + directory + " is invalid")
  {
    if service == [] then Err("Required flag '--service', '-s' is missing")
    else if user == [] then Err("Required flag '--user', '-u' is missing")
    else match ExpandPath(directory, home)
      case Err(_) => Err("Directory path " + directory + " is invalid")
      case Ok(expanded) => Ok(expanded)
  }

  // ------------------------------------------------------------ startJob

  /** The extension filter of `startJob`: applied only when extensions were
      given, since an empty list would drop every file. */
  function SelectMedias(medias: seq<Media>, extensions: seq<string>): (r: seq<Media>)
    ensures extensions == [] ==> r == medias
    ensures extensions != [] ==> forall m :: m in r <==> m in medias && MediaExt(m) in extensions
    ensures |r| <= |medias|
  {
    if |extensions| > 0 then
      FilterExtensionsKeeps(medias, extensions);
      FilterExtensions(medias, extensions)
    else
      medias
  }

  /** `successes` and `failures`: each download lands in exactly one of the
      two, both keep the download order, and together they are the whole list. */
  lemma Partition(downloads: seq<Download>)
    ensures |Successes(downloads)| + |Failures(downloads)| == |downloads|
    ensures multiset(Successes(downloads)) + multiset(Failures(downloads)) == multiset(downloads)
    ensures SubsequenceAt(Successes(downloads), downloads, KeptIndices(downloads, Succeeded))
    ensures SubsequenceAt(Failures(downloads), downloads, KeptIndices(downloads, Failed))
    ensures forall d :: d in Successes(downloads) <==> d in downloads && d.isSuccess
    ensures forall d :: d in Failures(downloads) <==> d in downloads && !d.isSuccess
  {
    FilterPartitionLength(downloads, Succeeded, Failed);
    FilterPartition(downloads, Succeeded, Failed);
    FilterKeepsOrder(downloads, Succeeded);
    FilterKeepsOrder(downloads, Failed);
    forall d
      ensures d in Successes(downloads) <==> d in downloads && d.isSuccess
      ensures d in Failures(downloads) <==> d in downloads && !d.isSuccess
    {
      FilterMembership(downloads, Succeeded, d);
      FilterMembership(downloads, Failed, d);
    }
  }
}
