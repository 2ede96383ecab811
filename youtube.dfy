/**
 * The YouTube helpers of the gallery: `isYouTube`, `getYouTubeId`, `isShort`,
 * `convertToEmbed` and `getThumbnail`. They are pure and fail soft: every
 * failure ends in `None` (JavaScript `null`), never in an exception.
 *
 * `getYouTubeId` calls the WHATWG URL parser (section 4.4 of the URL Standard),
 * whose `searchParams` are the application/x-www-form-urlencoded pairs of the
 * query (section 5.1). The parser is not re-implemented: it is a parameter
 * `parse` that maps a URL string to `None` (the constructor throws) or to its
 * hostname, pathname and decoded query pairs in order.
 */
module YouTube {
  import opened Wrappers
  import opened Text

  datatype ParsedUrl = ParsedUrl(hostname: string, pathname: string, query: seq<(string, string)>)

  /** `new URL(url)`: `None` when the constructor throws. */
  type UrlParser = string -> Option<ParsedUrl>

  const ShortLinkHost: string := "youtu.be"
  const ShortsPrefix: string := "/shorts/"
  const EmbedPrefix: string := "https://www.youtube.com/embed/"
  const EmbedSuffix: string := "?autoplay=1&playsinline=1&rel=0"
  const ThumbnailPrefix: string := "https://img.youtube.com/vi/"
  const ThumbnailSuffix: string := "/hqdefault.jpg"

  /** `searchParams.get(name)`: the value of the first pair called `name`, if any. */
  function QueryGet(query: seq<(string, string)>, name: string): (r: Option<string>)
    ensures r.None? <==> forall k | 0 <= k < |query| :: query[k].0 != name
    ensures r.Some? ==> exists k | 0 <= k < |query| ::
      query[k] == (name, r.value) && forall j | 0 <= j < k :: query[j].0 != name
  {
    if |query| == 0 then None
    else if query[0].0 == name then Some(query[0].1)
    else
      var rest := QueryGet(query[1..], name);
      assert rest.Some? ==> exists k | 1 <= k < |query| ::
        query[k] == (name, rest.value) && forall j | 0 <= j < k :: query[j].0 != name by {
        if rest.Some? {
          var k :| 0 <= k < |query| - 1 && query[1..][k] == (name, rest.value) &&
            forall j | 0 <= j < k :: query[1..][j].0 != name;
          assert forall j | 1 <= j < k + 1 :: query[j].0 == query[1..][j - 1].0;
        }
      }
      rest
  }

  /** `isYouTube(url)`: the URL text mentions `youtube.com` or `youtu.be` anywhere. */
  predicate IsYouTube(url: string)
    ensures IsYouTube(url) <==>
      (exists i: nat :: OccursAt(url, "youtube.com", i)) || (exists i: nat :: OccursAt(url, "youtu.be", i))
  {
    Includes(url, "youtube.com") || Includes(url, "youtu.be")
  }

  /** The id `getYouTubeId` reads from a URL that parsed. */
  function IdOf(u: ParsedUrl): Option<string>
  {
    if u.hostname == ShortLinkHost then Some(SliceFrom(u.pathname, 1))
    else if StartsWith(u.pathname, ShortsPrefix) then Some(ReplaceFirst(u.pathname, ShortsPrefix, []))
    else QueryGet(u.query, "v")
  }

  /**
   * `getYouTubeId(url)`: `None` when the URL does not parse; on host `youtu.be`
   * the pathname after its leading character; on a `/shorts/` path the rest of
   * the path; otherwise the first `v` query value, if any.
   */
  function GetYouTubeId(url: string, parse: UrlParser): (r: Option<string>)
    ensures parse(url).None? ==> r.None?
    ensures parse(url).Some? && parse(url).value.hostname == ShortLinkHost ==>
      r == Some(SliceFrom(parse(url).value.pathname, 1))
    ensures parse(url).Some? && parse(url).value.hostname != ShortLinkHost &&
            StartsWith(parse(url).value.pathname, ShortsPrefix) ==>
      r == Some(parse(url).value.pathname[|ShortsPrefix|..])
    ensures parse(url).Some? && parse(url).value.hostname != ShortLinkHost &&
            !StartsWith(parse(url).value.pathname, ShortsPrefix) ==>
      r == QueryGet(parse(url).value.query, "v")
  {
    match parse(url)
    case None => None
    case Some(u) =>
      assert StartsWith(u.pathname, ShortsPrefix) ==>
        [] + u.pathname[|ShortsPrefix|..] == u.pathname[|ShortsPrefix|..];
      IdOf(u)
  }

  /** `isShort(url)`: the URL text contains `/shorts/` anywhere (query and fragment included). */
  function IsShort(url: string): (b: bool)
    ensures b <==> exists i: nat :: OccursAt(url, ShortsPrefix, i)
  {
    Includes(url, ShortsPrefix)
  }

  /** The id between a fixed prefix and suffix, if `s` has that shape. */
  function Between(s: string, prefix: string, suffix: string): (r: Option<string>)
    ensures r.Some? ==> s == prefix + r.value + suffix
  {
    if |prefix| + |suffix| <= |s| && s[..|prefix|] == prefix && s[|s| - |suffix|..] == suffix
    then
      var id := s[|prefix|..|s| - |suffix|];
      assert s == s[..|prefix|] + id + s[|s| - |suffix|..];
      Some(id)
    else None
  }

  /** The embed template; the id reads back from between its fixed parts. */
  function EmbedUrl(id: string): (r: string)
    ensures StartsWith(r, EmbedPrefix)
    ensures Between(r, EmbedPrefix, EmbedSuffix) == Some(id)
  {
    var r := EmbedPrefix + id + EmbedSuffix;
    assert r[..|EmbedPrefix|] == EmbedPrefix;
    assert r[|r| - |EmbedSuffix|..] == EmbedSuffix;
    assert r[|EmbedPrefix|..|r| - |EmbedSuffix|] == id;
    r
  }

  /** The thumbnail template; the id reads back from between its fixed parts. */
  function ThumbnailUrl(id: string): (r: string)
    ensures StartsWith(r, ThumbnailPrefix)
    ensures Between(r, ThumbnailPrefix, ThumbnailSuffix) == Some(id)
  {
    var r := ThumbnailPrefix + id + ThumbnailSuffix;
    assert r[..|ThumbnailPrefix|] == ThumbnailPrefix;
    assert r[|r| - |ThumbnailSuffix|..] == ThumbnailSuffix;
    assert r[|ThumbnailPrefix|..|r| - |ThumbnailSuffix|] == id;
    r
  }

  /** The id is usable exactly when it is present and not empty (JavaScript truthiness). */
  predicate UsableId(id: Option<string>)
  {
    id.Some? && id.value != []
  }

  /** `convertToEmbed(url)`: an embed link for a YouTube URL with a usable id, else `None`. */
  function ConvertToEmbed(url: string, parse: UrlParser): (r: Option<string>)
    ensures r.Some? <==> IsYouTube(url) && UsableId(GetYouTubeId(url, parse))
    ensures r.Some? ==> Between(r.value, EmbedPrefix, EmbedSuffix) == GetYouTubeId(url, parse)
  {
    if !IsYouTube(url) then None
    else
      var id := GetYouTubeId(url, parse);
      if UsableId(id) then Some(EmbedUrl(id.value)) else None
  }

  /** `getThumbnail(url)`: a thumbnail link for a YouTube URL with a usable id, else `None`. */
  function GetThumbnail(url: string, parse: UrlParser): (r: Option<string>)
    ensures r.Some? <==> IsYouTube(url) && UsableId(GetYouTubeId(url, parse))
    ensures r.Some? ==> Between(r.value, ThumbnailPrefix, ThumbnailSuffix) == GetYouTubeId(url, parse)
  {
    if !IsYouTube(url) then None
    else
      var id := GetYouTubeId(url, parse);
      if UsableId(id) then Some(ThumbnailUrl(id.value)) else None
  }

  /** A `watch` link gives back the first `v` parameter. */
  lemma WatchUrlId(url: string, parse: UrlParser, host: string, id: string, rest: seq<(string, string)>)
    requires host != ShortLinkHost
    requires parse(url) == Some(ParsedUrl(host, "/watch", [("v", id)] + rest))
    ensures GetYouTubeId(url, parse) == Some(id)
  {
  }

  /** A `youtu.be/<id>` short link gives back `<id>`. */
  lemma ShortLinkId(url: string, parse: UrlParser, id: string, query: seq<(string, string)>)
    requires parse(url) == Some(ParsedUrl(ShortLinkHost, "/" + id, query))
    ensures GetYouTubeId(url, parse) == Some(id)
  {
  }

  /** A `/shorts/<id>` path on any other host gives back `<id>`. */
  lemma ShortsPathId(url: string, parse: UrlParser, host: string, id: string, query: seq<(string, string)>)
    requires host != ShortLinkHost
    requires parse(url) == Some(ParsedUrl(host, ShortsPrefix + id, query))
    ensures GetYouTubeId(url, parse) == Some(id)
  {
  }

  /** A URL text with `/shorts/` in it is a short. */
  lemma ShortsUrlIsShort(before: string, id: string)
    ensures IsShort(before + ShortsPrefix + id)
  {
    var s := before + ShortsPrefix + id;
    assert s[|before|..|before| + |ShortsPrefix|] == ShortsPrefix;
    assert OccursAt(s, ShortsPrefix, |before|);
  }

  /** A URL that parses to a host other than `youtu.be`, no `/shorts/` path and no `v` has no id. */
  lemma NoIdWithoutV(url: string, parse: UrlParser)
    requires parse(url).Some?
    requires parse(url).value.hostname != ShortLinkHost
    requires !StartsWith(parse(url).value.pathname, ShortsPrefix)
    requires forall k | 0 <= k < |parse(url).value.query| :: parse(url).value.query[k].0 != "v"
    ensures GetYouTubeId(url, parse).None?
    ensures ConvertToEmbed(url, parse).None? && GetThumbnail(url, parse).None?
  {
  }

  /** The embed link and the thumbnail exist together and carry the same id. */
  lemma EmbedAndThumbnailAgree(url: string, parse: UrlParser)
    ensures ConvertToEmbed(url, parse).Some? <==> GetThumbnail(url, parse).Some?
    ensures ConvertToEmbed(url, parse).Some? ==>
      Between(ConvertToEmbed(url, parse).value, EmbedPrefix, EmbedSuffix) ==
      Between(GetThumbnail(url, parse).value, ThumbnailPrefix, ThumbnailSuffix)
  {
  }
}
