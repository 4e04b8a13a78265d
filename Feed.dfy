/** The document the `rss` crate serialises: a channel with its image and its
    items, each item with a guid and an enclosure. Only the fields the
    pipeline sets are modelled; the builders become plain constructors. */
module Feed {

  datatype Guid = Guid(value: string, permalink: bool)

  datatype Enclosure = Enclosure(url: string, length: string, mimeType: string)

  datatype Image = Image(url: string, title: string, link: string)

  datatype Item = Item(
    title: string,
    link: string,
    author: string,
    guid: Guid,
    pubDate: string,
    enclosure: Enclosure)

  datatype Channel = Channel(
    title: string,
    link: string,
    description: string,
    image: Image,
    pubDate: string,
    lastBuildDate: string,
    items: seq<Item>)
}
