/** Feed classification and normalisation, for both editions of the reader.
    Markup parsing is not modelled: each function receives the parsed
    `Document` and makes the decisions the reader's own code makes on it. */
module NewsParser {
  import opened Wrappers
  import opened Text
  import opened Seqs
  import opened Feed

  // ---------------------------------------------------------------- validation

  datatype UrlCheck = IsRssFeed | NotRssFeedUrlError | RequestFailed

  /** `validate_url_is_rss_feed`: a page without any `<rss>` element is
      rejected; a request that raises propagates. */
  function ValidateUrlIsRssFeed(page: Page): (r: UrlCheck)
    ensures r == RequestFailed <==> page.None?
    ensures r == NotRssFeedUrlError <==> page.Some? && !page.value.hasRssRoot
    ensures r == IsRssFeed <==> page.Some? && page.value.hasRssRoot
  {
    match page
    case None => RequestFailed
    case Some(doc) => if doc.hasRssRoot then IsRssFeed else NotRssFeedUrlError
  }

  // ---------------------------------------------------------------- classifier

  /** Python truthiness of the classifier's return value (`True`, `False`
      or `None`). */
  predicate Truthy(v: Option<bool>) {
    v == Some(true)
  }

  /** The shape the classifier looks for: the first item has a description
      whose CDATA payload contains an anchor. */
  ghost predicate WrappedMarkup(doc: Document) {
    exists d: Description, p: Payload ::
      |doc.items| > 0 && doc.items[0].description == Some(d) && d.cdata == Some(p) && p.hasAnchor
  }

  /** `rss_feed_type_checker`. A missing item, description or CDATA payload
      raises inside the `try`, and so does a failed request: all give
      `False`. A payload without an anchor leaves the `if` and the function
      falls off its end, returning `None`. */
  function RssFeedTypeChecker(page: Page): (r: Option<bool>)
    ensures Truthy(r) <==> page.Some? && WrappedMarkup(page.value)
    ensures r.None? <==>
              page.Some? && |page.value.items| > 0 && page.value.items[0].description.Some?
              && page.value.items[0].description.value.cdata.Some?
              && !page.value.items[0].description.value.cdata.value.hasAnchor
    ensures r != Some(true) && r != None ==> r == Some(false)
  {
    match page
    case None => Some(false)
    case Some(doc) =>
      if |doc.items| == 0 then Some(false)
      else
        match doc.items[0].description
        case None => Some(false)
        case Some(d) =>
          match d.cdata
          case None => Some(false)
          case Some(p) => if p.hasAnchor then Some(true) else None
  }

  // ---------------------------------------------------------------- limit

  /** `soup.find_all('item', limit=limit_arg)`: a falsy limit (`None` or 0)
      selects every item, otherwise the first `limit` in document order. */
  function SelectItems(items: seq<Item>, limit: Option<nat>): (r: seq<Item>)
    ensures r <= items
    ensures limit.None? || limit.value == 0 ==> r == items
    ensures limit.Some? && limit.value > 0 ==> |r| <= limit.value
    ensures limit.Some? && limit.value > 0 && limit.value <= |items| ==> |r| == limit.value
  {
    if limit.None? || limit.value == 0 then items else Take(items, limit.value)
  }

  // ---------------------------------------------------------------- per-item records

  /** The fields every record of both parsers starts with. */
  predicate FreshRecord(n: News, edition: Edition, url: string, header: string) {
    n.url == UrlKey(edition, url) && n.rssHeader == header
    && n.pubdateFormat == EMPTY && n.imgLocation == EMPTY
  }

  /** One item under the XML parser: title and link are required (their
      absence raises); description, publication date and image link fall
      back to the sentinel when the element is absent. A `<media:content>`
      without a `url` gives `None`. */
  function RegularRecord(edition: Edition, url: string, header: string, item: Item): (r: Result<News, ParseError>)
    ensures r.Success? <==> item.title.Some? && item.link.Some?
    ensures r.Success? ==>
              && FreshRecord(r.value, edition, url, header)
              && r.value.title == item.title.value
              && r.value.link == item.link.value
              && (item.description.Some? ==> r.value.description == item.description.value.text)
              && (item.description.None? ==> r.value.description == EMPTY)
              && r.value.pubdate == item.pubDate.GetOr(EMPTY)
              && (item.media.None? ==> r.value.imgLink == Some(EMPTY))
              && (item.media.Some? ==> r.value.imgLink == item.media.value)
  {
    if item.title.None? then Failure(MissingElement("title"))
    else if item.link.None? then Failure(MissingElement("link"))
    else
      var description := if item.description.Some? then item.description.value.text else EMPTY;
      Success(News(UrlKey(edition, url), header, item.title.value, description,
                   item.pubDate.GetOr(EMPTY), EMPTY, item.link.value,
                   if item.media.Some? then item.media.value else Some(EMPTY), EMPTY))
  }

  /** The CDATA payload of an item's description, if it has one. */
  function PayloadOf(item: Item): Option<Payload> {
    if item.description.Some? then item.description.value.cdata else None
  }

  /** One item under the HTML parser: the description is the first `<p>`
      of the CDATA payload, the link is the stripped text after `<link>`,
      the image link the `src` of the payload's first `<img>` (`None` when
      that `<img>` has no `src`) or the sentinel when there is none. A
      missing title, description, payload, `<p>` or link text raises. */
  function NonXmlRecord(edition: Edition, url: string, header: string, item: Item): (r: Result<News, ParseError>)
    ensures r.Success? <==>
              item.title.Some? && PayloadOf(item).Some? && PayloadOf(item).value.firstParagraph.Some?
              && item.linkTail.Some?
    ensures r.Success? ==>
              && FreshRecord(r.value, edition, url, header)
              && r.value.title == item.title.value
              && r.value.description == PayloadOf(item).value.firstParagraph.value
              && r.value.link == Strip(item.linkTail.value)
              && r.value.pubdate == item.pubDate.GetOr(EMPTY)
              && (PayloadOf(item).value.firstImage.None? ==> r.value.imgLink == Some(EMPTY))
              && (PayloadOf(item).value.firstImage.Some? ==> r.value.imgLink == PayloadOf(item).value.firstImage.value)
  {
    if item.description.None? then Failure(MissingElement("description"))
    else if item.description.value.cdata.None? then Failure(MissingElement("CDATA"))
    else
      var payload := item.description.value.cdata.value;
      if item.title.None? then Failure(MissingElement("title"))
      else if payload.firstParagraph.None? then Failure(MissingElement("p"))
      else if item.linkTail.None? then Failure(MissingElement("link"))
      else
        Success(News(UrlKey(edition, url), header, item.title.value, payload.firstParagraph.value,
                     item.pubDate.GetOr(EMPTY), EMPTY, Strip(item.linkTail.value),
                     if payload.firstImage.Some? then payload.firstImage.value else Some(EMPTY), EMPTY))
  }

  // ---------------------------------------------------------------- the loop

  /** The `for item in ...: news_list.append(...)` loop: records in item
      order; the first item that raises aborts the whole parse. */
  function MapItems(items: seq<Item>, record: Item -> Result<News, ParseError>): (r: Result<seq<News>, ParseError>)
    ensures r.Success? <==> forall i :: 0 <= i < |items| ==> record(items[i]).Success?
    ensures r.Success? ==> |r.value| == |items|
    ensures r.Success? ==> forall i :: 0 <= i < |items| ==> r.value[i] == record(items[i]).value
    ensures r.Failure? ==>
              exists i :: 0 <= i < |items| && record(items[i]) == Failure(r.error)
                          && forall j :: 0 <= j < i ==> record(items[j]).Success?
  {
    if items == [] then Success([])
    else
      match record(items[0])
      case Failure(e) => Failure(e)
      case Success(n) =>
        match MapItems(items[1..], record)
        case Failure(e) =>
          assert forall j :: 0 < j < |items| ==> items[j] == items[1..][j - 1];
          Failure(e)
        case Success(rest) =>
          assert forall j :: 0 < j < |items| ==> items[j] == items[1..][j - 1];
          Success([n] + rest)
  }

  /** Mapping a prefix of the items gives a prefix of the records. */
  lemma {:induction false} MapItemsPrefix(items: seq<Item>, k: nat, record: Item -> Result<News, ParseError>)
    requires k <= |items|
    requires MapItems(items, record).Success?
    ensures MapItems(items[..k], record).Success?
    ensures MapItems(items[..k], record).value == MapItems(items, record).value[..k]
  {
    var whole := MapItems(items, record).value;
    var part := MapItems(items[..k], record);
    assert forall i :: 0 <= i < k ==> items[..k][i] == items[i];
    assert part.Success?;
    assert |part.value| == k;
    assert forall i :: 0 <= i < k ==> part.value[i] == whole[i];
  }

  // ---------------------------------------------------------------- parsers

  /** `parse_rss_feed_regularly`. */
  function ParseRssFeedRegularly(edition: Edition, url: string, doc: Document, limit: Option<nat>)
    : (r: Result<seq<News>, ParseError>)
    ensures doc.channelTitle.None? ==> r == Failure(MissingElement("channel"))
    ensures r.Success? <==>
              && doc.channelTitle.Some?
              && var items := SelectItems(doc.items, limit);
                 forall i :: 0 <= i < |items| ==> RegularRecord(edition, url, doc.channelTitle.value, items[i]).Success?
    ensures r.Failure? && doc.channelTitle.Some? ==>
              var items := SelectItems(doc.items, limit);
              exists i :: && 0 <= i < |items|
                          && RegularRecord(edition, url, doc.channelTitle.value, items[i]) == Failure(r.error)
                          && forall j :: 0 <= j < i ==> RegularRecord(edition, url, doc.channelTitle.value, items[j]).Success?
    ensures r.Success? ==>
              var items := SelectItems(doc.items, limit);
              && |r.value| == |items|
              && forall i :: 0 <= i < |items| ==>
                   && RegularRecord(edition, url, doc.channelTitle.value, items[i]) == Success(r.value[i])
                   && FreshRecord(r.value[i], edition, url, doc.channelTitle.value)
  {
    match doc.channelTitle
    case None => Failure(MissingElement("channel"))
    case Some(header) =>
      MapItems(SelectItems(doc.items, limit), item => RegularRecord(edition, url, header, item))
  }

  /** `parse_rss_feed_with_non_xml`. */
  function ParseRssFeedWithNonXml(edition: Edition, url: string, doc: Document, limit: Option<nat>)
    : (r: Result<seq<News>, ParseError>)
    ensures doc.channelTitle.None? ==> r == Failure(MissingElement("channel"))
    ensures r.Success? <==>
              && doc.channelTitle.Some?
              && var items := SelectItems(doc.items, limit);
                 forall i :: 0 <= i < |items| ==> NonXmlRecord(edition, url, doc.channelTitle.value, items[i]).Success?
    ensures r.Failure? && doc.channelTitle.Some? ==>
              var items := SelectItems(doc.items, limit);
              exists i :: && 0 <= i < |items|
                          && NonXmlRecord(edition, url, doc.channelTitle.value, items[i]) == Failure(r.error)
                          && forall j :: 0 <= j < i ==> NonXmlRecord(edition, url, doc.channelTitle.value, items[j]).Success?
    ensures r.Success? ==>
              var items := SelectItems(doc.items, limit);
              && |r.value| == |items|
              && forall i :: 0 <= i < |items| ==>
                   && NonXmlRecord(edition, url, doc.channelTitle.value, items[i]) == Success(r.value[i])
                   && FreshRecord(r.value[i], edition, url, doc.channelTitle.value)
  {
    match doc.channelTitle
    case None => Failure(MissingElement("channel"))
    case Some(header) =>
      MapItems(SelectItems(doc.items, limit), item => NonXmlRecord(edition, url, header, item))
  }

  /** The parser `read_rss_source` and the command-line reader pick: the
      HTML parser when the classifier's answer is truthy, else the XML one. */
  function ParseFeed(edition: Edition, url: string, page: Page, doc: Document, limit: Option<nat>)
    : (r: Result<seq<News>, ParseError>)
    ensures Truthy(RssFeedTypeChecker(page)) ==> r == ParseRssFeedWithNonXml(edition, url, doc, limit)
    ensures !Truthy(RssFeedTypeChecker(page)) ==> r == ParseRssFeedRegularly(edition, url, doc, limit)
  {
    if Truthy(RssFeedTypeChecker(page)) then ParseRssFeedWithNonXml(edition, url, doc, limit)
    else ParseRssFeedRegularly(edition, url, doc, limit)
  }

  /** A limit only cuts the unlimited parse short: when the full parse
      succeeds, the limited parse succeeds and is its prefix. */
  lemma RegularLimitIsPrefix(edition: Edition, url: string, doc: Document, k: nat)
    requires ParseRssFeedRegularly(edition, url, doc, None).Success?
    ensures ParseRssFeedRegularly(edition, url, doc, Some(k)).Success?
    ensures ParseRssFeedRegularly(edition, url, doc, Some(k)).value
            <= ParseRssFeedRegularly(edition, url, doc, None).value
  {
    var header := doc.channelTitle.value;
    var record := item => RegularRecord(edition, url, header, item);
    assert ParseRssFeedRegularly(edition, url, doc, None) == MapItems(doc.items, record);
    if 0 < k < |doc.items| {
      assert ParseRssFeedRegularly(edition, url, doc, Some(k)) == MapItems(doc.items[..k], record);
      MapItemsPrefix(doc.items, k, record);
    } else {
      assert SelectItems(doc.items, Some(k)) == doc.items;
      assert ParseRssFeedRegularly(edition, url, doc, Some(k)) == MapItems(doc.items, record);
    }
  }

  /** The same for the HTML parser. */
  lemma NonXmlLimitIsPrefix(edition: Edition, url: string, doc: Document, k: nat)
    requires ParseRssFeedWithNonXml(edition, url, doc, None).Success?
    ensures ParseRssFeedWithNonXml(edition, url, doc, Some(k)).Success?
    ensures ParseRssFeedWithNonXml(edition, url, doc, Some(k)).value
            <= ParseRssFeedWithNonXml(edition, url, doc, None).value
  {
    var record := item => NonXmlRecord(edition, url, doc.channelTitle.value, item);
    NonXmlParseIsMap(edition, url, doc, None);
    NonXmlParseIsMap(edition, url, doc, Some(k));
    if 0 < k < |doc.items| {
      MapItemsPrefix(doc.items, k, record);
    } else {
      assert SelectItems(doc.items, Some(k)) == doc.items;
    }
  }

  /** With a channel title, the HTML parser is the item loop over the
      selected items. */
  lemma NonXmlParseIsMap(edition: Edition, url: string, doc: Document, limit: Option<nat>)
    requires doc.channelTitle.Some?
    ensures ParseRssFeedWithNonXml(edition, url, doc, limit)
         == MapItems(SelectItems(doc.items, limit), item => NonXmlRecord(edition, url, doc.channelTitle.value, item))
  {
  }

  /** A feed the classifier calls wrapped markup has, in its first item,
      the CDATA payload the HTML parser needs. */
  lemma ClassifierGuardsFirstPayload(page: Page)
    requires Truthy(RssFeedTypeChecker(page))
    ensures page.Some? && |page.value.items| > 0 && PayloadOf(page.value.items[0]).Some?
  {
  }

  /** `get_rss_header`: the channel title, raising when it is missing. */
  function GetRssHeader(doc: Document): (r: Result<string, ParseError>)
    ensures r.Success? <==> doc.channelTitle.Some?
    ensures r.Success? ==> r.value == doc.channelTitle.value
  {
    match doc.channelTitle
    case None => Failure(MissingElement("channel"))
    case Some(t) => Success(t)
  }
}
