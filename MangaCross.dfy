/** The decoded catalogue record of one comic, with the fields the feed
    mapping reads. */
module MangaCross {

  datatype Episode = Episode(
    status: string,
    sortVolume: string,
    volume: string,
    title: string,
    pageUrl: string,
    listImageDoubleUrl: string,
    publishStart: string)

  datatype Comic = Comic(
    title: string,
    author: string,
    dirName: string,
    imageUrl: string,
    captionForSearch: string,
    latestEpisodePublishStart: string,
    episodes: seq<Episode>)

  const PublicStatus: string := "public"

  /** Only episodes whose status is exactly "public" go into the feed. */
  predicate IsPublic(ep: Episode) {
    ep.status == PublicStatus
  }
}
