/** The web application's store: the `rss_book` and `news` tables behind
    the `crud` functions, as sequences of rows in insertion order (the order
    the unordered queries are taken to return). Primary keys come from
    per-table sequences that are never reused. */
module Crud {
  import opened Wrappers
  import opened Seqs
  import opened Feed

  /** A row of `rss_book`. */
  datatype RssSource = RssSource(id: nat, rssUrl: string, rssHeader: string)

  /** A row of `news`; `rssSource` is the foreign key to `rss_book.id`. A
      `None` image link is stored as NULL. */
  datatype NewsRow = NewsRow(
    id: nat,
    rssSource: nat,
    rssHeader: string,
    title: string,
    description: string,
    pubdate: string,
    pubdateFormat: string,
    newsLink: string,
    newsImgLink: Option<string>,
    newsImgLocation: string)

  datatype Db = Db(sources: seq<RssSource>, news: seq<NewsRow>, nextSourceId: nat, nextNewsId: nat)

  predicate SourceIdExists(db: Db, id: nat) {
    exists i :: 0 <= i < |db.sources| && db.sources[i].id == id
  }

  predicate SourceIdsUnique(sources: seq<RssSource>) {
    forall i, j :: 0 <= i < j < |sources| ==> sources[i].id != sources[j].id
  }

  predicate NewsIdsUnique(news: seq<NewsRow>) {
    forall i, j :: 0 <= i < j < |news| ==> news[i].id != news[j].id
  }

  /** Every news row points at an existing source. */
  predicate ForeignKeysHold(db: Db) {
    forall i :: 0 <= i < |db.news| ==> SourceIdExists(db, db.news[i].rssSource)
  }

  /** Primary keys are unique and below their sequence's next value, and
      the foreign key holds. */
  predicate Valid(db: Db) {
    && SourceIdsUnique(db.sources)
    && NewsIdsUnique(db.news)
    && (forall i :: 0 <= i < |db.sources| ==> db.sources[i].id < db.nextSourceId)
    && (forall i :: 0 <= i < |db.news| ==> db.news[i].id < db.nextNewsId)
    && ForeignKeysHold(db)
  }

  /** No two news rows share a title. */
  predicate NewsTitlesUnique(db: Db) {
    forall i, j :: 0 <= i < j < |db.news| ==> db.news[i].title != db.news[j].title
  }

  /** `.limit(limit_arg)`: `None` is no limit. */
  function Limit<T>(rows: seq<T>, limit: Option<nat>): (r: seq<T>)
    ensures r <= rows
    ensures limit.None? ==> r == rows
    ensures limit.Some? ==> |r| == if limit.value < |rows| then limit.value else |rows|
    ensures forall x :: x in r ==> x in rows
  {
    var r := if limit.None? then rows else Take(rows, limit.value);
    PrefixMembers(r, rows);
    r
  }

  // ---------------------------------------------------------------- sources

  /** `create_rss_entry`: adds a source with the next key. There is no
      duplicate check: a second source with the same url is added too. */
  function CreateRssEntry(db: Db, rssUrl: string, rssHeader: string): (r: (Db, RssSource))
    ensures r.0.sources == db.sources + [r.1] && r.0.news == db.news
    ensures r.1.rssUrl == rssUrl && r.1.rssHeader == rssHeader
    ensures Valid(db) ==> Valid(r.0) && !SourceIdExists(db, r.1.id)
  {
    var source := RssSource(db.nextSourceId, rssUrl, rssHeader);
    var db' := db.(sources := db.sources + [source], nextSourceId := db.nextSourceId + 1);
    assert forall i :: 0 <= i < |db.sources| ==> db'.sources[i] == db.sources[i];
    (db', source)
  }

  /** The index of the first source whose url is `rssUrl`. */
  function FirstSourceWithUrl(sources: seq<RssSource>, rssUrl: string): (r: Option<nat>)
    ensures r.None? <==> forall i :: 0 <= i < |sources| ==> sources[i].rssUrl != rssUrl
    ensures r.Some? ==> r.value < |sources| && sources[r.value].rssUrl == rssUrl
                        && forall i :: 0 <= i < r.value ==> sources[i].rssUrl != rssUrl
  {
    FirstIndex(sources, (s: RssSource) => s.rssUrl == rssUrl)
  }

  /** `get_rss_source_by_url`: `.first()` of the sources with that url. */
  function GetRssSourceByUrl(db: Db, rssUrl: string): (r: Option<RssSource>)
    ensures r.None? <==> forall i :: 0 <= i < |db.sources| ==> db.sources[i].rssUrl != rssUrl
    ensures r.Some? ==> r.value in db.sources && r.value.rssUrl == rssUrl
  {
    match FirstSourceWithUrl(db.sources, rssUrl)
    case None => None
    case Some(k) => Some(db.sources[k])
  }

  /** The index of the first source whose key is `id`. */
  function FirstSourceWithId(sources: seq<RssSource>, id: nat): (r: Option<nat>)
    ensures r.None? <==> forall i :: 0 <= i < |sources| ==> sources[i].id != id
    ensures r.Some? ==> r.value < |sources| && sources[r.value].id == id
  {
    FirstIndex(sources, (s: RssSource) => s.id == id)
  }

  /** `get_rss_source_by_id`. */
  function GetRssSourceById(db: Db, id: nat): (r: Option<RssSource>)
    ensures r.None? <==> !SourceIdExists(db, id)
    ensures r.Some? ==> r.value in db.sources && r.value.id == id
  {
    match FirstSourceWithId(db.sources, id)
    case None => None
    case Some(k) => Some(db.sources[k])
  }

  datatype DeleteError = UnmappedInstance

  /** `delete_rss_source`: deleting the `.first()` result; with no such
      source the session is asked to delete `None` and raises. The
      relationship's `delete-orphan` cascade removes every news row of the
      source. */
  function DeleteRssSource(db: Db, id: nat): (r: Result<Db, DeleteError>)
    ensures r.Failure? <==> !SourceIdExists(db, id)
    ensures r.Success? ==>
              && (forall s :: s in r.value.sources ==> s in db.sources)
              && (forall s :: s in db.sources && s.id != id ==> s in r.value.sources)
              && (forall x :: multiset(r.value.news)[x] == if x.rssSource == id then 0 else multiset(db.news)[x])
    ensures r.Success? && Valid(db) ==> Valid(r.value) && !SourceIdExists(r.value, id)
  {
    match FirstSourceWithId(db.sources, id)
    case None => Failure(UnmappedInstance)
    case Some(k) =>
      var db' := db.(sources := RemoveAt(db.sources, k),
                     news := Filter(db.news, (n: NewsRow) => n.rssSource != id));
      assert forall x :: multiset(db'.news)[x] == if x.rssSource == id then 0 else multiset(db.news)[x] by {
        forall x { FilterMultiset(db.news, (n: NewsRow) => n.rssSource != id, x); }
      }
      assert Valid(db) ==> Valid(db') && !SourceIdExists(db', id) by {
        if Valid(db) { DeleteKeepsValid(db, id, k); }
      }
      Success(db')
  }

  /** The sequence without its `k`-th element. */
  function RemoveAt<T>(s: seq<T>, k: nat): (r: seq<T>)
    requires k < |s|
    ensures |r| == |s| - 1
    ensures forall i :: 0 <= i < |r| ==> r[i] == if i < k then s[i] else s[i + 1]
    ensures forall x :: x in r ==> x in s
    ensures forall x :: x in s && x != s[k] ==> x in r
  {
    var r := s[..k] + s[k + 1..];
    assert forall x :: x in s && x != s[k] ==> x in r by {
      forall x | x in s && x != s[k] ensures x in r {
        var i :| 0 <= i < |s| && s[i] == x;
        if i < k { assert r[i] == x; } else { assert r[i - 1] == x; }
      }
    }
    r
  }

  lemma DeleteKeepsValid(db: Db, id: nat, k: nat)
    requires Valid(db) && k < |db.sources| && db.sources[k].id == id
    ensures var db' := db.(sources := RemoveAt(db.sources, k),
                           news := Filter(db.news, (n: NewsRow) => n.rssSource != id));
            Valid(db') && !SourceIdExists(db', id)
  {
    RemoveSourceKeepsKeys(db.sources, k, db.nextSourceId);
    FilterNewsKeepsKeys(db.news, id, db.nextNewsId);
    DeleteKeepsForeignKeys(db, id, k);
  }

  /** Removing the `k`-th source keeps the keys unique and bounded, and
      its key is gone. */
  lemma RemoveSourceKeepsKeys(sources: seq<RssSource>, k: nat, next: nat)
    requires SourceIdsUnique(sources) && k < |sources|
    requires forall i :: 0 <= i < |sources| ==> sources[i].id < next
    ensures var r := RemoveAt(sources, k);
            && SourceIdsUnique(r)
            && (forall i :: 0 <= i < |r| ==> r[i].id < next && r[i].id != sources[k].id)
  {
    var r := RemoveAt(sources, k);
    forall i, j | 0 <= i < j < |r| ensures r[i].id != r[j].id {
      var i' := if i < k then i else i + 1;
      var j' := if j < k then j else j + 1;
      assert r[i] == sources[i'] && r[j] == sources[j'];
    }
    forall i | 0 <= i < |r| ensures r[i].id < next && r[i].id != sources[k].id {
      var i' := if i < k then i else i + 1;
      assert r[i] == sources[i'];
    }
  }

  /** Dropping a source's news keeps the news keys unique and bounded. */
  lemma FilterNewsKeepsKeys(news: seq<NewsRow>, id: nat, next: nat)
    requires NewsIdsUnique(news)
    requires forall i :: 0 <= i < |news| ==> news[i].id < next
    ensures var r := Filter(news, (n: NewsRow) => n.rssSource != id);
            && NewsIdsUnique(r)
            && (forall i :: 0 <= i < |r| ==> r[i].id < next && r[i].rssSource != id)
  {
    var r := Filter(news, (n: NewsRow) => n.rssSource != id);
    FilterKeepsPairwise(news, (n: NewsRow) => n.rssSource != id, (a: NewsRow, b: NewsRow) => a.id != b.id);
    forall i | 0 <= i < |r| ensures r[i].id < next {
      assert r[i] in news;
    }
  }

  /** After the deletion every remaining news row still points at a
      remaining source. */
  lemma DeleteKeepsForeignKeys(db: Db, id: nat, k: nat)
    requires Valid(db) && k < |db.sources| && db.sources[k].id == id
    ensures ForeignKeysHold(db.(sources := RemoveAt(db.sources, k),
                                news := Filter(db.news, (n: NewsRow) => n.rssSource != id)))
  {
    var sources := RemoveAt(db.sources, k);
    var news := Filter(db.news, (n: NewsRow) => n.rssSource != id);
    var db' := db.(sources := sources, news := news);
    forall i | 0 <= i < |news| ensures SourceIdExists(db', news[i].rssSource) {
      var m :| 0 <= m < |db.news| && db.news[m] == news[i];
      var x :| 0 <= x < |db.sources| && db.sources[x].id == news[i].rssSource;
      assert x != k;
      assert db.sources[x] in sources;
    }
  }

  // ---------------------------------------------------------------- news

  datatype CreateError = UnknownColumn | ForeignKeyViolation

  /** `create_news_entry`: a row built from the record's keys plus
      `rss_source`. A record with a `url` key names a column the model does
      not have; a key that is not a source violates the foreign key. */
  function CreateNewsEntry(db: Db, news: News, rssId: nat): (r: Result<(Db, NewsRow), CreateError>)
    ensures r.Success? <==> news.url.None? && SourceIdExists(db, rssId)
    ensures r.Success? ==>
              && r.value.0.news == db.news + [r.value.1]
              && r.value.0.sources == db.sources
              && r.value.1.rssSource == rssId && r.value.1.rssHeader == news.rssHeader
              && r.value.1.title == news.title && r.value.1.description == news.description
              && r.value.1.pubdate == news.pubdate && r.value.1.pubdateFormat == news.pubdateFormat
              && r.value.1.newsLink == news.link && r.value.1.newsImgLink == news.imgLink
              && r.value.1.newsImgLocation == news.imgLocation
    ensures r.Success? && Valid(db) ==> Valid(r.value.0)
    ensures r.Success? && Valid(db) ==> forall i :: 0 <= i < |db.news| ==> db.news[i].id != r.value.1.id
  {
    if news.url.Some? then Failure(UnknownColumn)
    else if !SourceIdExists(db, rssId) then Failure(ForeignKeyViolation)
    else
      var row := NewsRow(db.nextNewsId, rssId, news.rssHeader, news.title, news.description,
                         news.pubdate, news.pubdateFormat, news.link, news.imgLink, news.imgLocation);
      var db' := db.(news := db.news + [row], nextNewsId := db.nextNewsId + 1);
      assert forall i :: 0 <= i < |db.news| ==> db'.news[i] == db.news[i];
      Success((db', row))
  }

  /** The index of the first news row titled `title`. */
  function FirstNewsWithTitle(rows: seq<NewsRow>, title: string): (r: Option<nat>)
    ensures r.None? <==> forall i :: 0 <= i < |rows| ==> rows[i].title != title
    ensures r.Some? ==> r.value < |rows| && rows[r.value].title == title
  {
    FirstIndex(rows, (n: NewsRow) => n.title == title)
  }

  /** `get_news_by_title`: `.first()` of the rows with that title, from any
      source. */
  function GetNewsByTitle(db: Db, title: string): (r: Option<NewsRow>)
    ensures r.None? <==> forall i :: 0 <= i < |db.news| ==> db.news[i].title != title
    ensures r.Some? ==> r.value in db.news && r.value.title == title
  {
    match FirstNewsWithTitle(db.news, title)
    case None => None
    case Some(k) => Some(db.news[k])
  }

  /** The test of `filter(pubdate_format == pubdate)`. */
  function DatedOn(pubdate: string): NewsRow -> bool {
    (n: NewsRow) => n.pubdateFormat == pubdate
  }

  /** The test of `filter(rss_source == id)`. */
  function FromSource(id: nat): NewsRow -> bool {
    (n: NewsRow) => n.rssSource == id
  }

  /** The length `.limit(limit)` leaves of `n` rows. */
  function Capped(n: nat, limit: Option<nat>): nat {
    if limit.None? || n <= limit.value then n else limit.value
  }

  /** `get_all_news`. */
  function GetAllNews(db: Db, limit: Option<nat>): (r: seq<NewsRow>)
    ensures r <= db.news
    ensures limit.None? ==> r == db.news
    ensures limit.Some? ==> |r| <= limit.value
    ensures |r| == Capped(|db.news|, limit)
  {
    Limit(db.news, limit)
  }

  /** `get_news_by_date`: `None` means every row; otherwise the rows whose
      date key equals `pubdate`, in table order, cut to the limit. */
  function GetNewsByDate(db: Db, pubdate: Option<string>, limit: Option<nat>): (r: seq<NewsRow>)
    ensures pubdate.None? ==> r == GetAllNews(db, limit)
    ensures forall x :: x in r ==> x in db.news && (pubdate.Some? ==> x.pubdateFormat == pubdate.value)
    ensures limit.None? ==>
              forall x :: x in db.news && (pubdate.Some? ==> x.pubdateFormat == pubdate.value) ==> x in r
    ensures limit.Some? ==> |r| <= limit.value
    ensures pubdate.Some? ==>
              var matching := Filter(db.news, DatedOn(pubdate.value));
              r <= matching && |r| == Capped(|matching|, limit)
  {
    if pubdate.None? then GetAllNews(db, limit)
    else
      FilterMembers(db.news, DatedOn(pubdate.value));
      Limit(Filter(db.news, DatedOn(pubdate.value)), limit)
  }

  /** `get_news_by_source_id`: that source's rows in table order, cut to
      the limit. */
  function GetNewsBySourceId(db: Db, rssSourceId: nat, limit: Option<nat>): (r: seq<NewsRow>)
    ensures forall x :: x in r ==> x in db.news && x.rssSource == rssSourceId
    ensures limit.None? ==> forall x :: x in db.news && x.rssSource == rssSourceId ==> x in r
    ensures limit.Some? ==> |r| <= limit.value
    ensures var matching := Filter(db.news, FromSource(rssSourceId));
            r <= matching && |r| == Capped(|matching|, limit)
  {
    FilterMembers(db.news, FromSource(rssSourceId));
    Limit(Filter(db.news, FromSource(rssSourceId)), limit)
  }

  /** The rows of source `id`, narrowed to date key `pubdate` when one is
      given, in table order. */
  function SourceRows(db: Db, id: nat, pubdate: Option<string>): seq<NewsRow> {
    var bySource := Filter(db.news, FromSource(id));
    if pubdate.None? then bySource else Filter(bySource, DatedOn(pubdate.value))
  }

  datatype QueryError = NewsNotFound

  /** `get_news_by_date_source`. Without a source it is `get_news_by_date`.
      An unknown source url raises before any news is looked at; a known
      source whose news match nothing gives an empty list, not an error. */
  function GetNewsByDateSource(db: Db, pubdate: Option<string>, source: Option<string>, limit: Option<nat>)
    : (r: Result<seq<NewsRow>, QueryError>)
    ensures source.None? ==> r == Success(GetNewsByDate(db, pubdate, limit))
    ensures r.Failure? <==> source.Some? && GetRssSourceByUrl(db, source.value).None?
    ensures r.Success? && source.Some? ==>
              var id := GetRssSourceByUrl(db, source.value).value.id;
              && (forall x :: x in r.value ==>
                    x in db.news && x.rssSource == id && (pubdate.Some? ==> x.pubdateFormat == pubdate.value))
              && (limit.None? ==>
                    forall x :: x in db.news && x.rssSource == id && (pubdate.Some? ==> x.pubdateFormat == pubdate.value)
                      ==> x in r.value)
              && r.value <= SourceRows(db, id, pubdate)
              && |r.value| == Capped(|SourceRows(db, id, pubdate)|, limit)
    ensures r.Success? && limit.Some? ==> |r.value| <= limit.value
  {
    if source.None? then Success(GetNewsByDate(db, pubdate, limit))
    else
      match GetRssSourceByUrl(db, source.value)
      case None => Failure(NewsNotFound)
      case Some(s) =>
        var bySource := Filter(db.news, FromSource(s.id));
        FilterMembers(db.news, FromSource(s.id));
        if pubdate.None? then Success(Limit(bySource, limit))
        else
          FilterMembers(bySource, DatedOn(pubdate.value));
          Success(Limit(Filter(bySource, DatedOn(pubdate.value)), limit))
  }

  /** `delete_news_by_id`: removes exactly the rows with that key. */
  function DeleteNewsById(db: Db, id: nat): (r: Db)
    ensures r.sources == db.sources
    ensures forall x :: multiset(r.news)[x] == if x.id == id then 0 else multiset(db.news)[x]
    ensures Valid(db) ==> Valid(r)
  {
    var r := db.(news := Filter(db.news, (n: NewsRow) => n.id != id));
    DropNewsRow(db.news, id);
    r
  }

  /** Dropping the rows with one key: every other row keeps its count,
      and unique keys stay unique. */
  lemma DropNewsRow(news: seq<NewsRow>, id: nat)
    ensures var r := Filter(news, (n: NewsRow) => n.id != id);
            && (forall x :: multiset(r)[x] == if x.id == id then 0 else multiset(news)[x])
            && (NewsIdsUnique(news) ==> NewsIdsUnique(r))
  {
    var p := (n: NewsRow) => n.id != id;
    forall x { FilterMultiset(news, p, x); }
    if NewsIdsUnique(news) {
      FilterKeepsPairwise(news, p, (a: NewsRow, b: NewsRow) => a.id != b.id);
    }
  }
}
