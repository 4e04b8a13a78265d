/** `episode_to_item` and `comic_to_channel`: the mapping from a comic's
    catalogue record to its feed, with the image probes given as inputs.
    `host` stands for `MANGACROSS_HOST`. */
module Transform {
  import opened Wrappers
  import opened Errors
  import opened Http
  import opened Feed
  import opened MangaCross
  import opened Combinators
  import opened Strings

  /** The enclosure's mime type: the header text, "" without the header,
      and an error when the header is not visible ASCII. */
  function MimeType(contentType: Option<seq<byte>>): (r: Result<string, Error>)
    ensures contentType.None? ==> r == Success("")
    ensures r.Success? ==> IsVisibleText(r.value)
    ensures r.Failure? ==> contentType.Some? && r.error == HeaderNotStr
  {
    match contentType
    case None => Success("")
    case Some(v) => HeaderToStr(v)
  }

  /** The enclosure's length: the decimal content length, "" without one. */
  function LengthText(contentLength: Option<u64>): (s: string)
    ensures contentLength.None? <==> s == ""
    ensures contentLength.Some? ==> IsCanonicalDecimal(s) && DigitsValue(s) == contentLength.value
  {
    match contentLength
    case None => ""
    case Some(n) => DecimalRoundTrip(n); Decimal(n)
  }

  /** `episode_to_item`, given the outcome of the GET of the episode's image. */
  function EpisodeToItem(host: string, episode: Episode, comic: Comic, probe: Probe): (r: Result<Item, Error>)
    ensures r.Success? <==> probe.Probed? && MimeType(probe.contentType).Success?
    ensures r.Failure? ==> r.error == (if probe.ProbeFailed? then Network else HeaderNotStr)
    ensures r.Success? ==>
      && r.value.guid == Guid(r.value.link, true)
      && r.value.enclosure.url == episode.listImageDoubleUrl
      && r.value.author == comic.author
  {
    var guid := Guid(host + episode.pageUrl, true);
    match probe
    case ProbeFailed => Failure(Network)
    case Probed(contentType, contentLength) =>
      match MimeType(contentType)
      case Failure(e) => Failure(e)
      case Success(mime) =>
        var enclosure := Enclosure(episode.listImageDoubleUrl, LengthText(contentLength), mime);
        Success(Item(
          title := episode.volume + " | " + episode.title,
          link := host + episode.pageUrl,
          author := comic.author,
          guid := guid,
          pubDate := episode.publishStart,
          enclosure := enclosure))
  }

  /** When an item is built and what it holds. */
  lemma EpisodeToItemSpec(host: string, episode: Episode, comic: Comic, probe: Probe)
    ensures var r := EpisodeToItem(host, episode, comic, probe);
      && (r.Success? <==>
            probe.Probed? &&
            (probe.contentType.Some? ==>
               forall i :: 0 <= i < |probe.contentType.value| ==> IsVisibleAscii(probe.contentType.value[i])))
      && (probe.ProbeFailed? ==> r == Failure(Network))
      && (probe.Probed? && r.Failure? ==> r.error == HeaderNotStr)
    ensures var r := EpisodeToItem(host, episode, comic, probe);
      r.Success? ==>
        var item := r.value;
        && item.title == episode.volume + " | " + episode.title
        && StripAffixes(item.link, host, "") == Some(episode.pageUrl)
        && item.guid == Guid(item.link, true)
        && item.author == comic.author
        && item.pubDate == episode.publishStart
        && item.enclosure.url == episode.listImageDoubleUrl
        && (probe.contentType.None? ==> item.enclosure.mimeType == "")
        && (probe.contentType.Some? ==>
              IsVisibleText(item.enclosure.mimeType) &&
              HeaderBytes(item.enclosure.mimeType) == probe.contentType.value)
        && (probe.contentLength.None? ==> item.enclosure.length == "")
        && (probe.contentLength.Some? ==>
              IsCanonicalDecimal(item.enclosure.length) &&
              DigitsValue(item.enclosure.length) == probe.contentLength.value)
  {
    StripComposed(host, episode.pageUrl, "");
    assert host + episode.pageUrl + "" == host + episode.pageUrl;
    if probe.Probed? && probe.contentType.Some? && HeaderToStr(probe.contentType.value).Success? {
      HeaderBytesOfText(probe.contentType.value);
    }
  }

  /** The positions of the public episodes, in source order. */
  function PublicIndices(eps: seq<Episode>): (r: seq<nat>)
    ensures |r| <= |eps|
    ensures forall k :: 0 <= k < |r| ==> r[k] < |eps| && IsPublic(eps[r[k]])
    ensures forall k, l :: 0 <= k < l < |r| ==> r[k] < r[l]
    ensures forall i :: 0 <= i < |eps| && IsPublic(eps[i]) ==> i in r
    decreases |eps|
  {
    if eps == [] then
      []
    else
      var init := PublicIndices(eps[..|eps| - 1]);
      if IsPublic(eps[|eps| - 1]) then init + [|eps| - 1] else init
  }

  /** The positions of the public episodes, as a set. */
  function PublicPositions(eps: seq<Episode>): set<nat> {
    set i: nat | i < |eps| && IsPublic(eps[i])
  }

  /** Appending an episode adds its position exactly when it is public. */
  lemma PublicPositionsSnoc(eps: seq<Episode>)
    requires eps != []
    ensures var n := |eps| - 1;
      PublicPositions(eps) == PublicPositions(eps[..n]) + (if IsPublic(eps[n]) then {n} else {})
  {
    var n := |eps| - 1;
    var init := eps[..n];
    forall x: nat
      ensures x in PublicPositions(eps) <==> x in PublicPositions(init) || (x == n && IsPublic(eps[n]))
    {
      if x < n {
        assert init[x] == eps[x];
      }
    }
  }

  /** There is one index per public episode. */
  lemma {:induction false} PublicIndicesCount(eps: seq<Episode>)
    ensures |PublicIndices(eps)| == |PublicPositions(eps)|
    decreases |eps|
  {
    if eps != [] {
      var n := |eps| - 1;
      var init := eps[..n];
      PublicIndicesCount(init);
      PublicPositionsSnoc(eps);
      assert n !in PublicPositions(init);
    }
  }

  /** `comic_to_channel`: the channel fields from the comic, then one item
      per public episode, failing as a whole if any of them fails.
      `probe(i)` is the outcome of the image GET of episode `i`. */
  function ComicToChannel(host: string, comic: Comic, probe: nat -> Probe): (r: Result<Channel, Error>)
    ensures r.Success? ==> |r.value.items| == |PublicIndices(comic.episodes)| <= |comic.episodes|
    ensures r.Success? ==> r.value.title == comic.title && r.value.description == comic.captionForSearch
    ensures r.Failure? ==> r.error == Network || r.error == HeaderNotStr
  {
    var eps := comic.episodes;
    var items := TryJoinAll(PublicIndices(eps),
      (i: nat) requires i < |eps| => EpisodeToItem(host, eps[i], comic, probe(i)));
    match items
    case Failure(e) => Failure(e)
    case Success(items) =>
      Success(Channel(
        title := comic.title,
        link := host + "/comics/" + comic.dirName + "/",
        description := comic.captionForSearch,
        image := Image(url := comic.imageUrl, title := comic.title + " " + comic.author, link := comic.imageUrl),
        pubDate := comic.latestEpisodePublishStart,
        lastBuildDate := comic.latestEpisodePublishStart,
        items := items))
  }

  /** The item built for public episode `i`. */
  function ItemOutcome(host: string, comic: Comic, probe: nat -> Probe, i: nat): Result<Item, Error>
    requires i < |comic.episodes|
  {
    EpisodeToItem(host, comic.episodes[i], comic, probe(i))
  }

  /** A channel is built exactly when every public episode's item is; the
      items of other episodes are never built. */
  lemma ChannelSucceedsIffPublicItemsSucceed(host: string, comic: Comic, probe: nat -> Probe)
    ensures ComicToChannel(host, comic, probe).Success? <==>
      forall i :: 0 <= i < |comic.episodes| && IsPublic(comic.episodes[i]) ==>
        ItemOutcome(host, comic, probe, i).Success?
  {
    var eps := comic.episodes;
    var idx := PublicIndices(eps);
    if ComicToChannel(host, comic, probe).Success? {
      forall i | 0 <= i < |eps| && IsPublic(eps[i])
        ensures ItemOutcome(host, comic, probe, i).Success?
      {
        var k :| 0 <= k < |idx| && idx[k] == i;
      }
    }
  }

  /** A failed channel reports the error of the first public episode whose
      item fails. */
  lemma ChannelFailureIsFirstFailingItem(host: string, comic: Comic, probe: nat -> Probe)
    requires ComicToChannel(host, comic, probe).Failure?
    ensures var e := ComicToChannel(host, comic, probe).error;
      exists i :: 0 <= i < |comic.episodes| && IsPublic(comic.episodes[i]) &&
        ItemOutcome(host, comic, probe, i) == Failure(e) &&
        forall j :: 0 <= j < i && IsPublic(comic.episodes[j]) ==> ItemOutcome(host, comic, probe, j).Success?
  {
    var eps := comic.episodes;
    var idx := PublicIndices(eps);
    var f := (i: nat) requires i < |eps| => EpisodeToItem(host, eps[i], comic, probe(i));
    var r := TryJoinAll(idx, f);
    assert r.Failure?;
    var k :| 0 <= k < |idx| && f(idx[k]) == Failure(r.error) && forall l :: 0 <= l < k ==> f(idx[l]).Success?;
    var i := idx[k];
    assert ItemOutcome(host, comic, probe, i) == Failure(r.error);
    forall j | 0 <= j < i && IsPublic(eps[j])
      ensures ItemOutcome(host, comic, probe, j).Success?
    {
      var l := EarlierPublicIndex(eps, k, j);
      assert f(idx[l]).Success?;
    }
  }

  /** A public episode before the k-th public one is an earlier public one. */
  lemma EarlierPublicIndex(eps: seq<Episode>, k: nat, j: nat) returns (l: nat)
    requires k < |PublicIndices(eps)| && j < PublicIndices(eps)[k] && IsPublic(eps[j])
    ensures l < k && PublicIndices(eps)[l] == j
  {
    var idx := PublicIndices(eps);
    assert j in idx;
    l :| 0 <= l < |idx| && idx[l] == j;
  }

  /** Item k of the channel is the item of the k-th public episode: the items
      are the public episodes, all of them, in source order. */
  lemma ChannelItemsFollowPublicEpisodes(host: string, comic: Comic, probe: nat -> Probe)
    requires ComicToChannel(host, comic, probe).Success?
    ensures var items := ComicToChannel(host, comic, probe).value.items;
      var idx := PublicIndices(comic.episodes);
      && |items| == |idx| == |PublicPositions(comic.episodes)|
      && (forall k :: 0 <= k < |items| ==>
            idx[k] < |comic.episodes| && IsPublic(comic.episodes[idx[k]]) &&
            Success(items[k]) == ItemOutcome(host, comic, probe, idx[k]))
      && (forall k, l :: 0 <= k < l < |items| ==> idx[k] < idx[l])
  {
    PublicIndicesCount(comic.episodes);
  }

  /** The channel-level fields, and the fields every item inherits. */
  lemma ChannelFields(host: string, comic: Comic, probe: nat -> Probe)
    requires ComicToChannel(host, comic, probe).Success?
    ensures var ch := ComicToChannel(host, comic, probe).value;
      && ch.title == comic.title
      && StripAffixes(ch.link, host + "/comics/", "/") == Some(comic.dirName)
      && ch.description == comic.captionForSearch
      && ch.image.url == comic.imageUrl && ch.image.link == comic.imageUrl
      && ch.image.title == comic.title + " " + comic.author
      && ch.pubDate == comic.latestEpisodePublishStart
      && ch.lastBuildDate == comic.latestEpisodePublishStart
      && forall k :: 0 <= k < |ch.items| ==> ch.items[k].author == comic.author
  {
    StripComposed(host + "/comics/", comic.dirName, "/");
    var eps := comic.episodes;
    var idx := PublicIndices(eps);
    var ch := ComicToChannel(host, comic, probe).value;
    forall k | 0 <= k < |ch.items|
      ensures ch.items[k].author == comic.author
    {
      EpisodeToItemSpec(host, eps[idx[k]], comic, probe(idx[k]));
    }
  }

  /** Image probes of non-public episodes cannot change the outcome. */
  lemma NonPublicProbesIrrelevant(host: string, comic: Comic, probe1: nat -> Probe, probe2: nat -> Probe)
    requires forall i :: 0 <= i < |comic.episodes| && IsPublic(comic.episodes[i]) ==> probe1(i) == probe2(i)
    ensures ComicToChannel(host, comic, probe1) == ComicToChannel(host, comic, probe2)
  {
    var eps := comic.episodes;
    TryJoinAllCongruent(PublicIndices(eps),
      (i: nat) requires i < |eps| => EpisodeToItem(host, eps[i], comic, probe1(i)),
      (i: nat) requires i < |eps| => EpisodeToItem(host, eps[i], comic, probe2(i)));
  }

  /** A comic without public episodes gives a channel without items, whatever
      its other episodes' probes would do. */
  lemma NoPublicEpisodesNoItems(host: string, comic: Comic, probe: nat -> Probe)
    requires forall i :: 0 <= i < |comic.episodes| ==> !IsPublic(comic.episodes[i])
    ensures ComicToChannel(host, comic, probe).Success?
    ensures ComicToChannel(host, comic, probe).value.items == []
  {
  }
}
