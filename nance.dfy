/**
 * The helpers of the Nance governance dashboard that turn a space name, a
 * governance cycle or a proposal hash into REST endpoint URLs, and that pull
 * the identifier out of an external voting URL.
 *
 * The configured API origin is the parameter `base` of every builder.
 */
module Nance {
  import opened Wrappers
  import opened JsString
  import opened Decimal

  /** JavaScript truthiness of an optional cycle number: absent and `0` are falsy. */
  predicate Truthy(cycle: Option<int>) {
    cycle.Some? && cycle.value != 0
  }

  /** The cycle an endpoint actually carries: a falsy cycle carries none. */
  function CycleParam(cycle: Option<int>): Option<int> {
    if Truthy(cycle) then cycle else None
  }

  /** The text every endpoint of a space starts with. */
  function SpacePrefix(base: string, space: string): string {
    base + "/" + space + "/"
  }

  // ---------------------------------------------------------------------
  // Path extractor
  // ---------------------------------------------------------------------

  /**
   * `getLastSlash(url)`: the empty string is passed through; otherwise the
   * last `/`-separated piece of `url`, trimmed.
   */
  function GetLastSlash(url: string): string {
    if url == "" then url
    else
      var split := Split(url, '/');
      Trim(split[|split| - 1])
  }

  /** The extractor is the trimmed text after the last `/`, except on the empty string. */
  lemma GetLastSlashIsTrimmedLastSegment(url: string)
    ensures url == "" ==> GetLastSlash(url) == url
    ensures url != "" ==> GetLastSlash(url) == Trim(LastSegment(url, '/'))
  {
    LastPieceIsLastSegment(url, '/');
  }

  /** A URL without `/` is trimmed as a whole. */
  lemma GetLastSlashNoSlash(url: string)
    requires Free(url, '/')
    ensures GetLastSlash(url) == Trim(url)
  {
    SplitFree(url, '/');
  }

  /** The result is the trimmed text after the final `/`, whatever comes before it. */
  lemma GetLastSlashAfterLastSlash(front: string, tail: string)
    requires Free(tail, '/')
    ensures GetLastSlash(front + "/" + tail) == Trim(tail)
  {
    var url := front + "/" + tail;
    GetLastSlashIsTrimmedLastSegment(url);
    assert url[|url| - |tail|..] == tail;
    LastSegmentUnique(url, '/', tail);
  }

  /** A URL ending in `/` yields the empty identifier. */
  lemma GetLastSlashTrailingSlash(url: string)
    requires url != [] && url[|url| - 1] == '/'
    ensures GetLastSlash(url) == ""
  {
    GetLastSlashIsTrimmedLastSegment(url);
    assert LastSegment(url, '/') == "";
    assert Trim("") == "";
  }

  /**
   * The result has no `/` and no whitespace at either end, and it is a
   * contiguous slice of the final segment of `url` with only whitespace
   * cut off on either side.
   */
  lemma GetLastSlashShape(url: string)
    ensures Free(GetLastSlash(url), '/') && Trimmed(GetLastSlash(url))
    ensures url != "" ==>
            var seg := LastSegment(url, '/');
            LeadingWs(seg) + |Trim(seg)| <= |seg|
    ensures url != "" ==>
            var seg := LastSegment(url, '/');
            var i := LeadingWs(seg);
            GetLastSlash(url) == seg[i..i + |Trim(seg)|]
    ensures url != "" ==>
            var seg := LastSegment(url, '/');
            var i := LeadingWs(seg);
            (forall k :: 0 <= k < i ==> IsWs(seg[k]))
            && (forall k :: i + |Trim(seg)| <= k < |seg| ==> IsWs(seg[k]))
  {
    GetLastSlashIsTrimmedLastSegment(url);
    if url != "" {
      var seg := LastSegment(url, '/');
      TrimSlice(seg);
      TrimKeepsFree(seg, '/');
    }
  }

  /** Extracting twice gives what extracting once gives. */
  lemma GetLastSlashIdempotent(url: string)
    ensures GetLastSlash(GetLastSlash(url)) == GetLastSlash(url)
  {
    var r := GetLastSlash(url);
    GetLastSlashShape(url);
    if r != "" {
      GetLastSlashNoSlash(r);
      TrimOfTrimmed(r);
    }
  }

  /** The identifier of a Snapshot proposal URL with trailing blanks. */
  lemma GetLastSlashSnapshotExample()
    ensures GetLastSlash("https://snapshot.org/#/jbdao.eth/proposal" + "/" + "0xABC  ") == "0xABC"
  {
    var tail := "0xABC  ";
    assert Free(tail, '/');
    GetLastSlashAfterLastSlash("https://snapshot.org/#/jbdao.eth/proposal", tail);
    TrimTwoTrailingBlanks("0xABC");
    assert "0xABC" + "  " == tail;
  }

  /** Trimming an identifier followed by two blanks gives the identifier. */
  lemma TrimTwoTrailingBlanks(id: string)
    requires Trimmed(id) && id != ""
    ensures Trim(id + "  ") == id
  {
    var s := id + "  ";
    assert LeadingWs(s) == 0;
    assert s[..|s| - 1] == id + " " && (id + " ")[..|id|] == id;
    assert TrailingWs(id) == 0;
    assert TrailingWs(id + " ") == 1;
    assert TrailingWs(s) == 2;
  }

  // ---------------------------------------------------------------------
  // URL builders
  // ---------------------------------------------------------------------

  /** `urlOfUpload(space)`. */
  function UrlOfUpload(base: string, space: string): string {
    base + "/" + space + "/upload/"
  }

  /** `urlOfQuery(space, cycle)`: the `?cycle=` parameter only for a truthy cycle. */
  function UrlOfQuery(base: string, space: string, cycle: Option<int>): string {
    base + "/" + space + "/query/" + (if Truthy(cycle) then "?cycle=" + IntToString(cycle.value) else "")
  }

  /** `urlOfContent(space, hash)`. */
  function UrlOfContent(base: string, space: string, hash: string): string {
    base + "/" + space + "/markdown?hash=" + hash
  }

  /**
   * The three builders share the prefix `base/space/`, in which `base` and
   * `space` stand verbatim (nothing is escaped), and differ only after it.
   */
  lemma BuildersSharePrefix(base: string, space: string, cycle: Option<int>, hash: string)
    ensures var p := SpacePrefix(base, space);
            UrlOfUpload(base, space) == p + "upload/"
            && UrlOfContent(base, space, hash) == p + "markdown?hash=" + hash
            && |UrlOfQuery(base, space, cycle)| >= |p| + 6
            && UrlOfQuery(base, space, cycle)[..|p| + 6] == p + "query/"
    ensures var p := SpacePrefix(base, space);
            |p| == |base| + |space| + 2 && p[..|base|] == base && p[|base|] == '/'
            && p[|base| + 1..|base| + 1 + |space|] == space && p[|p| - 1] == '/'
  {
  }

  /** The space can be read back from an upload URL by position, so distinct spaces give distinct upload URLs. */
  lemma UploadSpaceRecoverable(base: string, space: string)
    ensures var u := UrlOfUpload(base, space);
            |u| == |base| + |space| + 9 && u[|base| + 1..|u| - 8] == space
  {
  }

  /** One base, two spaces, one upload URL: the spaces are equal. */
  lemma UploadInjective(base: string, s1: string, s2: string)
    requires UrlOfUpload(base, s1) == UrlOfUpload(base, s2)
    ensures s1 == s2
  {
    UploadSpaceRecoverable(base, s1);
    UploadSpaceRecoverable(base, s2);
  }

  /** The hash is everything after `markdown?hash=`, copied without escaping. */
  lemma ContentHashRecoverable(base: string, space: string, hash: string)
    ensures var u := UrlOfContent(base, space, hash);
            |u| == |SpacePrefix(base, space)| + 14 + |hash|
            && u[|SpacePrefix(base, space)| + 14..] == hash
  {
  }

  /**
   * Without escaping, a space that itself contains `/markdown?hash=` makes
   * two different (space, hash) pairs produce the same content URL.
   */
  lemma ContentCollision(base: string)
    ensures UrlOfContent(base, "a/markdown?hash=b", "c") == UrlOfContent(base, "a", "b/markdown?hash=c")
  {
  }

  /**
   * The two shapes of a query URL: with a falsy cycle (absent or `0`) the
   * bare `query/` endpoint, otherwise `query/?cycle=` followed by text
   * that parses back as the cycle.
   */
  lemma QueryShape(base: string, space: string, cycle: Option<int>)
    ensures !Truthy(cycle) ==> UrlOfQuery(base, space, cycle) == base + "/" + space + "/query/"
    ensures Truthy(cycle) ==>
            var u := UrlOfQuery(base, space, cycle);
            var p := base + "/" + space + "/query/?cycle=";
            |u| > |p| && u[..|p|] == p && ParseInt(u[|p|..]) == cycle
  {
    if Truthy(cycle) {
      var u := UrlOfQuery(base, space, cycle);
      var p := base + "/" + space + "/query/?cycle=";
      assert u == p + IntToString(cycle.value);
      assert u[|p|..] == IntToString(cycle.value);
      IntToStringShape(cycle.value);
      ParseIntToString(cycle.value);
    }
  }

  /** The quirk of the source: cycle `0` gives the same URL as no cycle. */
  lemma QueryZeroIsAbsent(base: string, space: string)
    ensures UrlOfQuery(base, space, Some(0)) == UrlOfQuery(base, space, None) == base + "/" + space + "/query/"
  {
  }

  /**
   * A reference decoder for the `cycle` parameter of a query URL of a known
   * space: the text after `?cycle=` parsed as an integer, or none. It
   * accepts leading zeros and `-0`, which `IntToString` never produces.
   */
  function QueryCycle(base: string, space: string, url: string): Option<int> {
    var p := base + "/" + space + "/query/";
    if |url| >= |p| + 7 && url[..|p|] == p && url[|p|..|p| + 7] == "?cycle=" then ParseInt(url[|p| + 7..])
    else None
  }

  /** Reading the cycle back from a query URL gives the cycle it carries. */
  lemma QueryCycleRoundTrip(base: string, space: string, cycle: Option<int>)
    ensures QueryCycle(base, space, UrlOfQuery(base, space, cycle)) == CycleParam(cycle)
  {
    var u := UrlOfQuery(base, space, cycle);
    var p := base + "/" + space + "/query/";
    assert u[..|p|] == p;
    if Truthy(cycle) {
      var t := IntToString(cycle.value);
      assert u == p + "?cycle=" + t;
      assert u[|p|..|p| + 7] == "?cycle=";
      assert u[|p| + 7..] == t;
      ParseIntToString(cycle.value);
    } else {
      assert |u| == |p|;
    }
  }

  /** For one base and space, two cycles give the same query URL exactly when they carry the same cycle. */
  lemma QueryInjective(base: string, space: string, c1: Option<int>, c2: Option<int>)
    ensures UrlOfQuery(base, space, c1) == UrlOfQuery(base, space, c2) <==> CycleParam(c1) == CycleParam(c2)
  {
    QueryCycleRoundTrip(base, space, c1);
    QueryCycleRoundTrip(base, space, c2);
  }

  /** `urlOfQuery(space, 12)` ends in `?cycle=12`. */
  lemma QueryExample(base: string)
    ensures UrlOfQuery(base, "myspace", Some(12)) == base + "/myspace/query/?cycle=12"
  {
  }
}
