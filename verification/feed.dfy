/** The data the reader works on: the parsed feed document (what the
    markup parsers return, taken as given) and the normalised news record
    that every later stage passes along. */
module Feed {
  import opened Wrappers

  /** The sentinel every optional field holds when absent. */
  const EMPTY: string := "Empty"

  /** The markup escaped inside a description's CDATA section, re-parsed
      with the lenient HTML parser: whether it holds an `<a>`, the text of
      its first `<p>`, and its first `<img>` with that element's `src`
      attribute (`Some(None)` for an `<img>` without one). */
  datatype Payload = Payload(hasAnchor: bool, firstParagraph: Option<string>, firstImage: Option<Option<string>>)

  /** A `<description>` element: its text, and the CDATA payload if it has one. */
  datatype Description = Description(text: string, cdata: Option<Payload>)

  /** One `<item>` with its child elements, `None` where a child is absent.
      `link` is the text of `<link>` as the XML parser sees it; `linkTail`
      is the text node right after `<link>`, which is where the HTML parser
      (treating `<link>` as a void element) leaves the address; it is `None`
      when there is no `<link>` or no text after it. `media` is the first
      `<media:content>` element with its `url` attribute (`Some(None)` for
      an element without one). */
  datatype Item = Item(
    title: Option<string>,
    description: Option<Description>,
    pubDate: Option<string>,
    link: Option<string>,
    linkTail: Option<string>,
    media: Option<Option<string>>)

  /** A fetched document: whether it has an `<rss>` element anywhere, the
      text of `<channel><title>` if both exist, and its items in document
      order. */
  datatype Document = Document(hasRssRoot: bool, channelTitle: Option<string>, items: seq<Item>)

  /** A fetch of a URL: the parsed page, or a request that raised. */
  type Page = Option<Document>

  /** The two copies of the reader. The command-line reader's records carry
      a `url` key; the web application's do not. */
  datatype Edition = Cli | Web

  /** A normalised article. Field names follow the command-line reader; the
      web application spells `link`, `imgLink`, `imgLocation` as
      `news_link`, `news_img_link`, `news_img_location`. `url` is `None`
      for a record that has no `url` key. `imgLink` is `None` where the
      parser stored Python's `None`: an image element without the
      attribute that holds its address. */
  datatype News = News(
    url: Option<string>,
    rssHeader: string,
    title: string,
    description: string,
    pubdate: string,
    pubdateFormat: string,
    link: string,
    imgLink: Option<string>,
    imgLocation: string)

  /** The `url` key an edition's parser writes. */
  function UrlKey(edition: Edition, url: string): Option<string> {
    if edition == Cli then Some(url) else None
  }

  /** The exception a parser raises on a missing element: an
      `AttributeError` for a missing child, a `TypeError` for a description
      without the CDATA payload the non-XML parser reads. */
  datatype ParseError = MissingElement(name: string)
}
