/** The web application's request handlers: which checks run, in which
    order, what each failure answers, and how the store changes. A handler
    is a function from the store and the image folder to their new contents
    and the reply; the HTTP framework, the templates and the session are
    not modelled. Every request for the form's url gets the same `feed`
    response (the feed is taken not to change while one request is served). */
module WebApp {
  import opened Wrappers
  import opened Feed
  import opened Files
  import opened Crud
  import Dates
  import NewsParser
  import ImageCache
  import Services
  import Validators

  // ---------------------------------------------------------------- store invariants

  /** Some news row carries `title`. */
  predicate HasTitle(db: Db, title: string) {
    exists j :: 0 <= j < |db.news| && db.news[j].title == title
  }

  /** No two sources share a url. */
  predicate SourceUrlsUnique(db: Db) {
    forall i, j :: 0 <= i < j < |db.sources| ==> db.sources[i].rssUrl != db.sources[j].rssUrl
  }

  /** Every stored row has a non-empty date key: `format_pubdate` gives the
      sentinel or eight digits. */
  predicate DateKeysSet(db: Db) {
    forall j :: 0 <= j < |db.news| ==> db.news[j].pubdateFormat != []
  }

  /** The invariants the handlers keep. */
  predicate Healthy(db: Db) {
    Valid(db) && NewsTitlesUnique(db) && SourceUrlsUnique(db) && DateKeysSet(db)
  }

  lemma HasTitleGrows(db: Db, db': Db, title: string)
    requires db.news <= db'.news && HasTitle(db, title)
    ensures HasTitle(db', title)
  {
    var j :| 0 <= j < |db.news| && db.news[j].title == title;
    assert db'.news[j] == db.news[j];
  }

  // ---------------------------------------------------------------- replies

  /** The three export formats of the form. */
  datatype Format = Pdf | Html | Epub

  function Extension(f: Format): string {
    match f
    case Pdf => "pdf"
    case Html => "html"
    case Epub => "epub"
  }

  /** An exception no handler catches; the framework answers 500. */
  datatype Crash =
    | ParseFailed(parse: ParseError)
    | HeaderFailed(header: ParseError)
    | DateFailed(date: Dates.DateError)
    | InsertFailed(insert: CreateError)
    | ExportFailed(format: Format)

  /** Why a request was refused with a 4xx status. */
  datatype Reason =
    | InvalidLimit
    | NoConnection
    | NotRssFeed
    | InvalidUrl
    | NoNews
    | EmptyFilename(format: Format)
    | UnknownSource

  /** The news a page shows: freshly parsed records, or stored rows. */
  datatype Listing = Parsed(news: seq<News>) | Rows(rows: seq<NewsRow>)

  datatype Reply = Rendered(listing: Listing) | Refused(status: nat, reason: Reason) | Crashed(crash: Crash)

  /** The data a handler changes: the database and the image folder. */
  datatype State = State(db: Db, fs: FileSystem)

  // ---------------------------------------------------------------- limit

  /** The limit field: absent means no limit; otherwise the web validator
      decides, and a rejection is answered with 418. The POST form of
      `/read-cache` catches every exception instead of only the
      validator's, which on these values is the same. */
  function FormLimit(v: Option<Validators.PyValue>): (r: Result<Option<nat>, Reason>)
    ensures r.Failure? <==> v.Some? && Validators.ValidateLimitArgWeb(v.value).Failure?
    ensures r.Failure? ==> r.error == InvalidLimit
    ensures r.Success? ==> (r.value.None? <==> v.None?)
    ensures r.Success? && v.Some? ==> r.value.value > 0 && r.value.value == Validators.ToInt(v.value).value
  {
    match v
    case None => Success(None)
    case Some(value) =>
      match Validators.ValidateLimitArgWeb(value)
      case Failure(_) => Failure(InvalidLimit)
      case Success(n) => Success(Some(n))
  }

  // ---------------------------------------------------------------- ingest

  /** The insert loop's end: the store as committed, the records as the
      page shows them (an inserted record carries its new date key), and
      the exception that stopped the loop, if any. */
  datatype Ingest = Ingest(db: Db, shown: seq<News>, crash: Option<Crash>)

  /** `row` is what `create_news_entry` stores for `news` under `rssId`
      once its date key is set. */
  predicate StoredAs(row: NewsRow, news: News, rssId: nat, parse: Dates.DateParser) {
    && Services.FormatPubdate(news.pubdate, parse) == Success(row.pubdateFormat)
    && row.rssSource == rssId && row.rssHeader == news.rssHeader && row.title == news.title
    && row.description == news.description && row.pubdate == news.pubdate
    && row.newsLink == news.link && row.newsImgLink == news.imgLink
    && row.newsImgLocation == news.imgLocation
  }

  /** `batch[i]` is the first record of the batch with its title, and no
      stored row has that title: the loop tries to insert it. */
  predicate FirstUnseen(db: Db, batch: seq<News>, i: nat)
    requires i < |batch|
  {
    !HasTitle(db, batch[i].title) && forall k :: 0 <= k < i ==> batch[k].title != batch[i].title
  }

  /** Inserting `news` raises nothing: its date parses, it names no `url`
      column and its source exists. */
  predicate Storable(db: Db, news: News, rssId: nat, parse: Dates.DateParser) {
    Services.FormatPubdate(news.pubdate, parse).Success? && news.url.None? && SourceIdExists(db, rssId)
  }

  /** The rows `after` holds beyond `db` are records of the batch stored
      under `rssId` with their date keys, with titles no row of `db` has
      and no two of them share. */
  predicate AppendsFrom(db: Db, after: Db, batch: seq<News>, rssId: nat, parse: Dates.DateParser) {
    && (forall i :: |db.news| <= i < |after.news| ==>
          exists j :: 0 <= j < |batch| && StoredAs(after.news[i], batch[j], rssId, parse))
    && (forall i :: |db.news| <= i < |after.news| ==> !HasTitle(db, after.news[i].title))
    && (forall i, k :: |db.news| <= i < k < |after.news| ==> after.news[i].title != after.news[k].title)
  }

  /** Every record the loop tries to insert raises nothing. */
  predicate Completes(db: Db, batch: seq<News>, rssId: nat, parse: Dates.DateParser) {
    forall i :: 0 <= i < |batch| && FirstUnseen(db, batch, i) ==> Storable(db, batch[i], rssId, parse)
  }

  /** Every record the loop tries to insert has a row in `after` beyond `db`. */
  predicate StoresUnseen(db: Db, after: Db, batch: seq<News>, rssId: nat, parse: Dates.DateParser) {
    forall i :: 0 <= i < |batch| && FirstUnseen(db, batch, i) ==>
      exists k :: |db.news| <= k < |after.news| && StoredAs(after.news[k], batch[i], rssId, parse)
  }

  /** The page's records: an inserted record carries its new date key, a
      skipped one the key it came with. */
  predicate ShowsKeys(db: Db, batch: seq<News>, shown: seq<News>, parse: Dates.DateParser) {
    && |shown| == |batch|
    && forall i :: 0 <= i < |batch| ==>
         && shown[i] == batch[i].(pubdateFormat := shown[i].pubdateFormat)
         && if FirstUnseen(db, batch, i)
            then Services.FormatPubdate(batch[i].pubdate, parse) == Success(shown[i].pubdateFormat)
            else shown[i].pubdateFormat == batch[i].pubdateFormat
  }

  /** The loop over the parsed records: a record whose title is stored
      already, under any source, is skipped; otherwise its date key is set
      and the row is inserted and committed. An exception stops the loop
      with the earlier rows committed. */
  function InsertAll(db: Db, batch: seq<News>, rssId: nat, parse: Dates.DateParser): (r: Ingest)
    ensures r.db.sources == db.sources
    ensures db.news <= r.db.news
    ensures |r.shown| == |batch|
    ensures forall i :: 0 <= i < |batch| ==> r.shown[i] == batch[i].(pubdateFormat := r.shown[i].pubdateFormat)
    decreases |batch|
  {
    if batch == [] then Ingest(db, [], None)
    else
      var news := batch[0];
      if GetNewsByTitle(db, news.title).Some? then
        var rest := InsertAll(db, batch[1..], rssId, parse);
        assert forall i :: 0 < i < |batch| ==> batch[i] == batch[1..][i - 1];
        Ingest(rest.db, [news] + rest.shown, rest.crash)
      else
        match Services.FormatPubdate(news.pubdate, parse)
        case Failure(e) => Ingest(db, batch, Some(DateFailed(e)))
        case Success(key) =>
          var stamped := news.(pubdateFormat := key);
          match CreateNewsEntry(db, stamped, rssId)
          case Failure(e) => Ingest(db, [stamped] + batch[1..], Some(InsertFailed(e)))
          case Success(created) =>
            var rest := InsertAll(created.0, batch[1..], rssId, parse);
            assert forall i :: 0 < i < |batch| ==> batch[i] == batch[1..][i - 1];
            Ingest(rest.db, [stamped] + rest.shown, rest.crash)
  }

  /** What the loop does with the batch. Every row it adds is a parsed
      record stored under the source with the key `format_pubdate` gives,
      under a title no earlier row has, and no two added rows share a
      title. It runs to its end exactly when every record it tries (one
      whose title is neither stored nor earlier in the batch) can be
      inserted; then every such record has a row, and the page shows it
      with its new key and every other record as parsed. */
  lemma {:induction false} InsertAllOutcome(db: Db, batch: seq<News>, rssId: nat, parse: Dates.DateParser)
    ensures var r := InsertAll(db, batch, rssId, parse);
            && AppendsFrom(db, r.db, batch, rssId, parse)
            && (r.crash.None? <==> Completes(db, batch, rssId, parse))
            && (r.crash.None? ==> StoresUnseen(db, r.db, batch, rssId, parse) && ShowsKeys(db, batch, r.shown, parse))
    decreases |batch|
  {
    if batch != [] {
      var news := batch[0];
      StoredTitle(db, news.title);
      if GetNewsByTitle(db, news.title).Some? {
        InsertAllOutcome(db, batch[1..], rssId, parse);
        TurnKeeps(db, db, batch, rssId, parse, news, InsertAll(db, batch[1..], rssId, parse));
      } else if !Storable(db, news, rssId, parse) {
        StopsAtFirst(db, batch, rssId, parse);
      } else {
        var key := Services.FormatPubdate(news.pubdate, parse).value;
        var stamped := news.(pubdateFormat := key);
        var created := CreateNewsEntry(db, stamped, rssId).value;
        var db' := created.0;
        assert db'.news[|db.news|] == created.1;
        InsertAllOutcome(db', batch[1..], rssId, parse);
        TurnKeeps(db, db', batch, rssId, parse, stamped, InsertAll(db', batch[1..], rssId, parse));
      }
    }
  }

  /** A first record the loop tries and cannot insert stops it with
      nothing added. */
  lemma StopsAtFirst(db: Db, batch: seq<News>, rssId: nat, parse: Dates.DateParser)
    requires batch != [] && !HasTitle(db, batch[0].title) && !Storable(db, batch[0], rssId, parse)
    ensures AppendsFrom(db, db, batch, rssId, parse)
    ensures !Completes(db, batch, rssId, parse)
  {
    assert FirstUnseen(db, batch, 0);
  }

  /** `get_news_by_title` finds a row exactly when some row has the title. */
  lemma StoredTitle(db: Db, title: string)
    ensures GetNewsByTitle(db, title).Some? <==> HasTitle(db, title)
  {
    if GetNewsByTitle(db, title).Some? {
      var k := FirstNewsWithTitle(db.news, title).value;
      assert db.news[k].title == title;
    }
  }

  /** One turn of the loop, from `db` to `db'`: the first record is
      skipped because its title is stored, or it is stored as the one row
      `db'` adds; `first` is the record as the page then shows it. */
  predicate Turn(db: Db, db': Db, batch: seq<News>, rssId: nat, parse: Dates.DateParser, first: News)
    requires batch != []
  {
    && db'.sources == db.sources
    && db.news <= db'.news
    && if HasTitle(db, batch[0].title) then db' == db && first == batch[0]
       else
         && Storable(db, batch[0], rssId, parse)
         && |db'.news| == |db.news| + 1
         && StoredAs(db'.news[|db.news|], batch[0], rssId, parse)
         && first == batch[0].(pubdateFormat := db'.news[|db.news|].pubdateFormat)
  }

  /** A turn followed by the rest of the loop keeps every promise of
      `InsertAll` that the rest keeps. */
  lemma TurnKeeps(db: Db, db': Db, batch: seq<News>, rssId: nat, parse: Dates.DateParser, first: News, rest: Ingest)
    requires batch != [] && Turn(db, db', batch, rssId, parse, first)
    requires db'.news <= rest.db.news
    requires AppendsFrom(db', rest.db, batch[1..], rssId, parse)
    requires rest.crash.None? <==> Completes(db', batch[1..], rssId, parse)
    requires rest.crash.None? ==>
               StoresUnseen(db', rest.db, batch[1..], rssId, parse) && ShowsKeys(db', batch[1..], rest.shown, parse)
    ensures AppendsFrom(db, rest.db, batch, rssId, parse)
    ensures rest.crash.None? <==> Completes(db, batch, rssId, parse)
    ensures rest.crash.None? ==>
              StoresUnseen(db, rest.db, batch, rssId, parse) && ShowsKeys(db, batch, [first] + rest.shown, parse)
  {
    TurnAppends(db, db', batch, rssId, parse, first, rest.db);
    TurnCompletes(db, db', batch, rssId, parse, first);
    TurnStores(db, db', batch, rssId, parse, first, rest.db, rest.crash.None?);
    TurnShows(db, db', batch, rssId, parse, first, rest.shown, rest.crash.None?);
  }

  /** After a turn the stored titles are the earlier ones and the first
      record's. */
  lemma TurnTitles(db: Db, db': Db, batch: seq<News>, rssId: nat, parse: Dates.DateParser, first: News, title: string)
    requires batch != [] && Turn(db, db', batch, rssId, parse, first)
    ensures HasTitle(db', title) <==> HasTitle(db, title) || title == batch[0].title
  {
    if HasTitle(db', title) {
      var j :| 0 <= j < |db'.news| && db'.news[j].title == title;
      if j < |db.news| {
        assert db.news[j] == db'.news[j];
      }
    }
    if HasTitle(db, title) {
      HasTitleGrows(db, db', title);
    }
    if title == batch[0].title && !HasTitle(db, title) {
      assert db'.news[|db.news|].title == title;
    }
  }

  /** After a turn, the loop tries the same later records as before it. */
  lemma TurnFirstUnseen(db: Db, db': Db, batch: seq<News>, rssId: nat, parse: Dates.DateParser, first: News, i: nat)
    requires batch != [] && Turn(db, db', batch, rssId, parse, first)
    requires 0 < i < |batch|
    ensures FirstUnseen(db', batch[1..], i - 1) <==> FirstUnseen(db, batch, i)
  {
    var t := batch[i].title;
    TurnTitles(db, db', batch, rssId, parse, first, t);
    assert batch[1..][i - 1] == batch[i];
    if FirstUnseen(db', batch[1..], i - 1) {
      forall k | 0 <= k < i ensures batch[k].title != t {
        if k > 0 {
          assert batch[k] == batch[1..][k - 1];
        }
      }
    }
    if FirstUnseen(db, batch, i) {
      forall k | 0 <= k < i - 1 ensures batch[1..][k].title != t {
        assert batch[1..][k] == batch[k + 1];
      }
    }
  }

  /** A turn keeps the rows it adds in the shape `AppendsFrom` promises. */
  lemma TurnAppends(db: Db, db': Db, batch: seq<News>, rssId: nat, parse: Dates.DateParser, first: News, after: Db)
    requires batch != [] && Turn(db, db', batch, rssId, parse, first)
    requires db'.news <= after.news && AppendsFrom(db', after, batch[1..], rssId, parse)
    ensures AppendsFrom(db, after, batch, rssId, parse)
  {
    forall i | |db.news| <= i < |after.news|
      ensures exists j :: 0 <= j < |batch| && StoredAs(after.news[i], batch[j], rssId, parse)
      ensures !HasTitle(db, after.news[i].title)
    {
      if i < |db'.news| {
        assert after.news[i] == db'.news[i];
        assert StoredAs(after.news[i], batch[0], rssId, parse);
      } else {
        var j :| 0 <= j < |batch[1..]| && StoredAs(after.news[i], batch[1..][j], rssId, parse);
        assert batch[1..][j] == batch[j + 1];
        if HasTitle(db, after.news[i].title) {
          HasTitleGrows(db, db', after.news[i].title);
        }
      }
    }
    forall i, k | |db.news| <= i < k < |after.news|
      ensures after.news[i].title != after.news[k].title
    {
      if i < |db'.news| {
        assert after.news[i] == db'.news[i];
        assert HasTitle(db', after.news[i].title);
      }
    }
  }

  /** A turn leaves the loop's success condition unchanged. */
  lemma TurnCompletes(db: Db, db': Db, batch: seq<News>, rssId: nat, parse: Dates.DateParser, first: News)
    requires batch != [] && Turn(db, db', batch, rssId, parse, first)
    ensures Completes(db', batch[1..], rssId, parse) <==> Completes(db, batch, rssId, parse)
  {
    if Completes(db', batch[1..], rssId, parse) {
      forall i | 0 <= i < |batch| && FirstUnseen(db, batch, i)
        ensures Storable(db, batch[i], rssId, parse)
      {
        if i > 0 {
          TurnFirstUnseen(db, db', batch, rssId, parse, first, i);
          assert batch[1..][i - 1] == batch[i];
        }
      }
    }
    if Completes(db, batch, rssId, parse) {
      forall i | 0 <= i < |batch[1..]| && FirstUnseen(db', batch[1..], i)
        ensures Storable(db', batch[1..][i], rssId, parse)
      {
        TurnFirstUnseen(db, db', batch, rssId, parse, first, i + 1);
        assert batch[1..][i] == batch[i + 1];
      }
    }
  }

  /** A turn keeps every record the loop tries stored, when the loop ran
      to its end (`done`). */
  lemma TurnStores(db: Db, db': Db, batch: seq<News>, rssId: nat, parse: Dates.DateParser, first: News, after: Db,
                   done: bool)
    requires batch != [] && Turn(db, db', batch, rssId, parse, first)
    requires db'.news <= after.news
    requires done ==> StoresUnseen(db', after, batch[1..], rssId, parse)
    ensures done ==> StoresUnseen(db, after, batch, rssId, parse)
  {
    if !done { return; }
    forall i | 0 <= i < |batch| && FirstUnseen(db, batch, i)
      ensures exists k :: |db.news| <= k < |after.news| && StoredAs(after.news[k], batch[i], rssId, parse)
    {
      if i == 0 {
        assert after.news[|db.news|] == db'.news[|db.news|];
      } else {
        TurnFirstUnseen(db, db', batch, rssId, parse, first, i);
        assert batch[1..][i - 1] == batch[i];
      }
    }
  }

  /** A turn shows its first record with the key it was stored under,
      when the loop ran to its end (`done`). */
  lemma TurnShows(db: Db, db': Db, batch: seq<News>, rssId: nat, parse: Dates.DateParser, first: News,
                  shown: seq<News>, done: bool)
    requires batch != [] && Turn(db, db', batch, rssId, parse, first)
    requires done ==> ShowsKeys(db', batch[1..], shown, parse)
    ensures done ==> ShowsKeys(db, batch, [first] + shown, parse)
  {
    if !done { return; }
    var all := [first] + shown;
    forall i | 0 <= i < |batch|
      ensures && all[i] == batch[i].(pubdateFormat := all[i].pubdateFormat)
              && if FirstUnseen(db, batch, i)
                 then Services.FormatPubdate(batch[i].pubdate, parse) == Success(all[i].pubdateFormat)
                 else all[i].pubdateFormat == batch[i].pubdateFormat
    {
      if i > 0 {
        TurnFirstUnseen(db, db', batch, rssId, parse, first, i);
        assert all[i] == shown[i - 1] && batch[1..][i - 1] == batch[i];
      }
    }
  }

  /** When the loop runs to the end, every record's title is stored. */
  lemma {:induction false} InsertAllCovers(db: Db, batch: seq<News>, rssId: nat, parse: Dates.DateParser)
    ensures var r := InsertAll(db, batch, rssId, parse);
            r.crash.None? ==> forall i :: 0 <= i < |batch| ==> HasTitle(r.db, batch[i].title)
    decreases |batch|
  {
    if batch != [] {
      var r := InsertAll(db, batch, rssId, parse);
      var news := batch[0];
      if GetNewsByTitle(db, news.title).Some? {
        InsertAllCovers(db, batch[1..], rssId, parse);
        if r.crash.None? {
          var row := GetNewsByTitle(db, news.title).value;
          var j :| 0 <= j < |db.news| && db.news[j] == row;
          HasTitleGrows(db, r.db, news.title);
          forall i | 1 <= i < |batch| ensures HasTitle(r.db, batch[i].title) {
            assert batch[i] == batch[1..][i - 1];
          }
        }
      } else if Services.FormatPubdate(news.pubdate, parse).Success? {
        var key := Services.FormatPubdate(news.pubdate, parse).value;
        var created := CreateNewsEntry(db, news.(pubdateFormat := key), rssId);
        if created.Success? {
          var db' := created.value.0;
          InsertAllCovers(db', batch[1..], rssId, parse);
          if r.crash.None? {
            assert db'.news[|db.news|].title == news.title;
            HasTitleGrows(db', r.db, news.title);
            forall i | 1 <= i < |batch| ensures HasTitle(r.db, batch[i].title) {
              assert batch[i] == batch[1..][i - 1];
            }
          }
        }
      }
    }
  }

  /** The loop keeps the store's invariants, provided it inserts under an
      existing source. */
  lemma {:induction false} InsertAllKeepsHealthy(db: Db, batch: seq<News>, rssId: nat, parse: Dates.DateParser)
    requires Healthy(db) && SourceIdExists(db, rssId)
    ensures Healthy(InsertAll(db, batch, rssId, parse).db)
    decreases |batch|
  {
    if batch != [] {
      var news := batch[0];
      if GetNewsByTitle(db, news.title).Some? {
        InsertAllKeepsHealthy(db, batch[1..], rssId, parse);
      } else if Services.FormatPubdate(news.pubdate, parse).Success? {
        var key := Services.FormatPubdate(news.pubdate, parse).value;
        assert key != [] by {
          if news.pubdate == EMPTY { assert key == EMPTY; }
        }
        var created := CreateNewsEntry(db, news.(pubdateFormat := key), rssId);
        if created.Success? {
          var db' := created.value.0;
          var row := created.value.1;
          assert db'.news == db.news + [row];
          assert NewsTitlesUnique(db') by {
            forall i, j | 0 <= i < j < |db'.news| ensures db'.news[i].title != db'.news[j].title {
              if j == |db.news| {
                assert db'.news[i] == db.news[i];
              } else {
                assert db'.news[i] == db.news[i] && db'.news[j] == db.news[j];
              }
            }
          }
          assert DateKeysSet(db') by {
            forall j | 0 <= j < |db'.news| ensures db'.news[j].pubdateFormat != [] {
              if j < |db.news| { assert db'.news[j] == db.news[j]; }
            }
          }
          assert SourceIdExists(db', rssId) by {
            var k :| 0 <= k < |db.sources| && db.sources[k].id == rssId;
            assert db'.sources[k].id == rssId;
          }
          InsertAllKeepsHealthy(db', batch[1..], rssId, parse);
        }
      }
    }
  }

  /** A batch whose every title is stored already inserts nothing: the
      loop is then the identity on the store. */
  lemma {:induction false} InsertAllOfStored(db: Db, batch: seq<News>, rssId: nat, parse: Dates.DateParser)
    requires forall i :: 0 <= i < |batch| ==> HasTitle(db, batch[i].title)
    ensures InsertAll(db, batch, rssId, parse) == Ingest(db, batch, None)
    decreases |batch|
  {
    if batch != [] {
      assert GetNewsByTitle(db, batch[0].title).Some?;
      assert forall i :: 0 <= i < |batch[1..]| ==> HasTitle(db, batch[1..][i].title) by {
        forall i | 0 <= i < |batch[1..]| ensures HasTitle(db, batch[1..][i].title) {
          assert batch[1..][i] == batch[i + 1];
        }
      }
      InsertAllOfStored(db, batch[1..], rssId, parse);
      assert [batch[0]] + batch[1..] == batch;
    }
  }

  /** The loop run to its end, run again on its own result, changes
      nothing. */
  lemma InsertAllIdempotent(db: Db, batch: seq<News>, rssId: nat, parse: Dates.DateParser)
    requires InsertAll(db, batch, rssId, parse).crash.None?
    ensures var db' := InsertAll(db, batch, rssId, parse).db;
            InsertAll(db', batch, rssId, parse) == Ingest(db', batch, None)
  {
    InsertAllCovers(db, batch, rssId, parse);
    InsertAllOfStored(InsertAll(db, batch, rssId, parse).db, batch, rssId, parse);
  }

  // ---------------------------------------------------------------- source registration

  /** The source row for `url`: the existing first one, or a new one
      carrying the channel title, whose absence raises. */
  function RegisterSource(db: Db, url: string, doc: Document): (r: Result<Db, ParseError>)
    ensures r.Failure? <==> GetRssSourceByUrl(db, url).None? && doc.channelTitle.None?
    ensures r.Success? ==> GetRssSourceByUrl(r.value, url).Some? && r.value.news == db.news
    ensures r.Success? && GetRssSourceByUrl(db, url).Some? ==> r.value == db
    ensures r.Success? && GetRssSourceByUrl(db, url).None? ==>
              |r.value.sources| == |db.sources| + 1 && db.sources <= r.value.sources
              && r.value.sources[|db.sources|].rssUrl == url
              && r.value.sources[|db.sources|].rssHeader == doc.channelTitle.value
    ensures r.Success? && Valid(db) ==> Valid(r.value)
    ensures r.Success? && SourceUrlsUnique(db) ==> SourceUrlsUnique(r.value)
  {
    if GetRssSourceByUrl(db, url).Some? then Success(db)
    else
      match NewsParser.GetRssHeader(doc)
      case Failure(e) => Failure(e)
      case Success(header) =>
        var (db', source) := CreateRssEntry(db, url, header);
        assert db'.sources[|db.sources|] == source;
        assert SourceUrlsUnique(db) ==> SourceUrlsUnique(db') by {
          forall i, j | 0 <= i < j < |db'.sources| && SourceUrlsUnique(db)
            ensures db'.sources[i].rssUrl != db'.sources[j].rssUrl
          {
            assert db'.sources[i] == db.sources[i];
            if j < |db.sources| { assert db'.sources[j] == db.sources[j]; }
          }
        }
        Success(db')
  }

  /** Registration keeps the store's invariants. */
  lemma RegisterSourceKeepsHealthy(db: Db, url: string, doc: Document)
    requires Healthy(db) && RegisterSource(db, url, doc).Success?
    ensures Healthy(RegisterSource(db, url, doc).value)
  {
    var db' := RegisterSource(db, url, doc).value;
    assert db'.news == db.news;
  }

  /** The key of the first source with `url`, which registration made sure
      exists. */
  function SourceIdOf(db: Db, url: string): (r: nat)
    requires GetRssSourceByUrl(db, url).Some?
    ensures SourceIdExists(db, r)
  {
    var source := GetRssSourceByUrl(db, url).value;
    var k :| 0 <= k < |db.sources| && db.sources[k] == source;
    source.id
  }

  // ---------------------------------------------------------------- read-rss

  /** What a request for the form's url does: it answers with a page, it
      raises `requests.exceptions.ConnectionError`, or it raises some other
      exception (an invalid or schemeless url, say). */
  datatype FeedResponse = Answered(doc: Document) | ConnectionFailed | RequestRaised

  /** The page the parsers see: the answer, or `None` when the request
      raised. */
  function PageOf(response: FeedResponse): (r: Page)
    ensures r.Some? <==> response.Answered?
    ensures r.Some? ==> r.value == response.doc
  {
    if response.Answered? then Some(response.doc) else None
  }

  /** What the handler needs besides the form and the store: whether the
      connectivity probe gets through, the response to a request for the
      form's url, the image cache's folder and oracles, the date parser,
      the export folder, and whether the converter raises on a target. */
  datatype Env = Env(
    online: bool,
    feed: FeedResponse,
    imageDir: string,
    fetch: ImageCache.Fetcher,
    opens: ImageCache.Opener,
    decode: ImageCache.Decoder,
    resample: ImageCache.Resampler,
    parse: Dates.DateParser,
    exportFolder: string,
    exportRaises: (Format, string) -> bool)

  /** A save checkbox and its filename field. */
  datatype ExportField = ExportField(save: Option<bool>, filename: Option<string>)

  /** The `/read-rss` form. */
  datatype ReadRssForm = ReadRssForm(
    rssUrl: Option<string>,
    limitArg: Option<Validators.PyValue>,
    dateArg: Option<string>,
    pdf: ExportField,
    html: ExportField,
    epub: ExportField)

  /** `not date_arg`: no date, or an empty one. */
  predicate NoDate(date: Option<string>) {
    date.None? || date.value == []
  }

  /** The fetch branch of `/read-rss`: connectivity probe, feed check,
      parse, image cache, source registration, insert loop. A connection
      error from the probe or from the feed request is answered "No
      internet connection", any other exception of the feed request
      (including the request a missing url makes) "not valid". A refusal
      leaves everything as it was; an exception keeps what was committed
      and written before it. On success the result is the records the page
      shows. */
  function IngestFeed(s: State, url: Option<string>, limit: Option<nat>, env: Env): (r: (State, Result<seq<News>, Reply>))
    ensures r.1.Failure? && r.1.error.Refused? ==> r.0 == s && r.1.error.status == 418
    ensures !env.online ==> r == (s, Failure(Refused(418, NoConnection)))
    ensures env.online && url.Some? && env.feed.Answered? && !env.feed.doc.hasRssRoot ==>
              r == (s, Failure(Refused(418, NotRssFeed)))
    ensures env.online && url.Some? && env.feed.ConnectionFailed? ==> r == (s, Failure(Refused(418, NoConnection)))
    ensures env.online && (url.None? || env.feed.RequestRaised?) ==> r == (s, Failure(Refused(418, InvalidUrl)))
    ensures s.db.news <= r.0.db.news && s.db.sources <= r.0.db.sources
    ensures |r.0.db.sources| <= |s.db.sources| + 1
    ensures r.1.Success? ==> url.Some? && GetRssSourceByUrl(r.0.db, url.value).Some?
  {
    if !env.online then (s, Failure(Refused(418, NoConnection)))
    else
      var page := if url.None? then None else PageOf(env.feed);
      var check := NewsParser.ValidateUrlIsRssFeed(page);
      if check.RequestFailed? then
        var reason := if url.Some? && env.feed.ConnectionFailed? then NoConnection else InvalidUrl;
        (s, Failure(Refused(418, reason)))
      else if check.NotRssFeedUrlError? then (s, Failure(Refused(418, NotRssFeed)))
      else
        var u := url.value;
        var doc := page.value;
        match NewsParser.ParseFeed(Web, u, page, doc, limit)
        case Failure(e) => (s, Failure(Crashed(ParseFailed(e))))
        case Success(parsed) => StoreFeed(s, u, doc, parsed, env)
  }

  /** The parsed records of the fetch branch: cache their images, register
      the source, insert the records. Failures here are exceptions; the
      images already written stay. */
  function StoreFeed(s: State, u: string, doc: Document, parsed: seq<News>, env: Env)
    : (r: (State, Result<seq<News>, Reply>))
    ensures r.1.Failure? ==> r.1.error.Crashed?
    ensures s.db.news <= r.0.db.news && s.db.sources <= r.0.db.sources
    ensures |r.0.db.sources| <= |s.db.sources| + 1
    ensures r.1.Success? ==> GetRssSourceByUrl(r.0.db, u).Some? && |r.1.value| == |parsed|
  {
    var cached := ImageCache.CacheImages(s.fs, env.imageDir, parsed, env.fetch, env.opens, env.decode, env.resample);
    match RegisterSource(s.db, u, doc)
    case Failure(e) => (State(s.db, cached.0), Failure(Crashed(HeaderFailed(e))))
    case Success(db1) =>
      var ingest := InsertAll(db1, cached.1, SourceIdOf(db1, u), env.parse);
      assert GetRssSourceByUrl(ingest.db, u) == GetRssSourceByUrl(db1, u);
      var s' := State(ingest.db, cached.0);
      if ingest.crash.Some? then (s', Failure(Crashed(ingest.crash.value)))
      else (s', Success(ingest.shown))
  }

  /** The query branch shared by `/read-rss` and both `/read-cache`
      handlers: an unknown source and an empty result are both 404. */
  function QueryNews(db: Db, pubdate: Option<string>, source: Option<string>, limit: Option<nat>)
    : (r: Result<seq<NewsRow>, Reply>)
    ensures r.Failure? <==> (GetNewsByDateSource(db, pubdate, source, limit).Failure?
                             || GetNewsByDateSource(db, pubdate, source, limit).value == [])
    ensures r.Failure? ==> r.error == Refused(404, NoNews)
    ensures r.Success? ==> r.value != [] && forall x :: x in r.value ==>
              x in db.news && (pubdate.Some? ==> x.pubdateFormat == pubdate.value)
    ensures r.Success? ==> r.value == GetNewsByDateSource(db, pubdate, source, limit).value
  {
    var q := GetNewsByDateSource(db, pubdate, source, limit);
    if q.Failure? || q.value == [] then Failure(Refused(404, NoNews))
    else
      assert source.Some? ==> forall x :: x in q.value ==> x in db.news;
      Success(q.value)
  }

  /** The three export steps, in the form's order pdf, html, epub. A ticked
      box with no filename is answered with 418, after the earlier exports
      have been written; the result is the targets written and the reply
      that stopped the sequence, if any. */
  function Exports(requests: seq<(Format, ExportField)>, env: Env): (r: (seq<string>, Option<Reply>))
    ensures |r.0| <= |requests|
    ensures r.1.None? ==> forall i :: 0 <= i < |requests| && requests[i].1.save == Some(true) ==>
              requests[i].1.filename.Some?
    ensures r.1.Some? ==> r.1.value.Crashed? || r.1.value.Refused?
    ensures r.1.Some? && r.1.value.Refused? ==>
              r.1.value.status == 418 && r.1.value.reason.EmptyFilename?
              && exists i :: 0 <= i < |requests| && requests[i].0 == r.1.value.reason.format
                             && requests[i].1.save == Some(true) && requests[i].1.filename.None?
    ensures forall t :: t in r.0 ==>
              exists i :: (&& 0 <= i < |requests|
                           && requests[i].1.save == Some(true)
                           && requests[i].1.filename.Some?
                           && t == Services.CreateTargetPath(env.exportFolder, requests[i].1.filename.value,
                                                             Extension(requests[i].0)))
    decreases |requests|
  {
    if requests == [] then ([], None)
    else
      var (format, field) := requests[0];
      assert forall i :: 0 < i < |requests| ==> requests[i] == requests[1..][i - 1];
      if field.save != Some(true) then Exports(requests[1..], env)
      else
        match Validators.ValidateFilename(field.filename)
        case Failure(_) => ([], Some(Refused(418, EmptyFilename(format))))
        case Success(name) =>
          var target := Services.CreateTargetPath(env.exportFolder, name, Extension(format));
          if env.exportRaises(format, target) then ([], Some(Crashed(ExportFailed(format))))
          else
            var rest := Exports(requests[1..], env);
            ([target] + rest.0, rest.1)
  }

  /** The result of a `/read-rss` request. */
  datatype Response = Response(state: State, exports: seq<string>, reply: Reply)

  /** The form's save boxes in the order the handler runs them. */
  function ExportRequests(form: ReadRssForm): seq<(Format, ExportField)> {
    [(Pdf, form.pdf), (Html, form.html), (Epub, form.epub)]
  }

  /** `read_rss_source`: the limit check; the fetch branch when the date is
      missing or empty; the query branch when a date is given (so an empty
      date runs both); the exports; the page. */
  function ReadRssSource(s: State, form: ReadRssForm, env: Env): (r: Response)
    ensures form.limitArg.Some? && Validators.ValidateLimitArgWeb(form.limitArg.value).Failure? ==>
              r == Response(s, [], Refused(418, InvalidLimit))
    ensures !NoDate(form.dateArg) ==> r.state == s
    ensures r.reply.Rendered? && form.dateArg.None? ==> r.reply.listing.Parsed?
    ensures r.reply.Rendered? && form.dateArg.Some? ==>
              && r.reply.listing.Rows?
              && r.reply.listing.rows != []
              && forall x :: x in r.reply.listing.rows ==>
                   x in r.state.db.news && x.pubdateFormat == form.dateArg.value
    ensures FormLimit(form.limitArg).Success? && NoDate(form.dateArg) ==>
              var fetched := IngestFeed(s, form.rssUrl, FormLimit(form.limitArg).value, env);
              && r.state == fetched.0
              && (fetched.1.Failure? ==> r == Response(fetched.0, [], fetched.1.error))
              && (fetched.1.Success? && form.dateArg.None? ==>
                    r.exports == Exports(ExportRequests(form), env).0
                    && (r.reply.Rendered? <==> Exports(ExportRequests(form), env).1.None?)
                    && (r.reply.Rendered? ==> r.reply.listing == Parsed(fetched.1.value)))
    ensures FormLimit(form.limitArg).Success? && form.dateArg.Some?
            && (NoDate(form.dateArg) ==> IngestFeed(s, form.rssUrl, FormLimit(form.limitArg).value, env).1.Success?) ==>
              var q := QueryNews(r.state.db, form.dateArg, form.rssUrl, FormLimit(form.limitArg).value);
              && (q.Failure? ==> r.exports == [] && r.reply == q.error)
              && (q.Success? ==>
                    r.exports == Exports(ExportRequests(form), env).0
                    && (r.reply.Rendered? <==> Exports(ExportRequests(form), env).1.None?)
                    && (r.reply.Rendered? ==> r.reply.listing == Rows(q.value)))
  {
    match FormLimit(form.limitArg)
    case Failure(reason) => Response(s, [], Refused(418, reason))
    case Success(limit) =>
      var fetched := if NoDate(form.dateArg) then IngestFeed(s, form.rssUrl, limit, env) else (s, Success([]));
      var s1 := fetched.0;
      if fetched.1.Failure? then Response(s1, [], fetched.1.error)
      else
        var listing :=
          if form.dateArg.Some? then
            match QueryNews(s1.db, form.dateArg, form.rssUrl, limit)
            case Failure(reply) => Failure(reply)
            case Success(rows) => Success(Rows(rows))
          else Success(Parsed(fetched.1.value));
        if listing.Failure? then Response(s1, [], listing.error)
        else
          var exported := Exports(ExportRequests(form), env);
          Response(s1, exported.0, if exported.1.Some? then exported.1.value else Rendered(listing.value))
  }

  // ---------------------------------------------------------------- read-rss properties

  /** Storing parsed records keeps the store's invariants. */
  lemma StoreFeedKeepsHealthy(s: State, u: string, doc: Document, parsed: seq<News>, env: Env)
    requires Healthy(s.db)
    ensures Healthy(StoreFeed(s, u, doc, parsed, env).0.db)
  {
    if RegisterSource(s.db, u, doc).Success? {
      var cached := ImageCache.CacheImages(s.fs, env.imageDir, parsed, env.fetch, env.opens, env.decode, env.resample);
      var db1 := RegisterSource(s.db, u, doc).value;
      RegisterSourceKeepsHealthy(s.db, u, doc);
      InsertAllKeepsHealthy(db1, cached.1, SourceIdOf(db1, u), env.parse);
    }
  }

  /** The fetch branch keeps the store's invariants. */
  lemma IngestFeedKeepsHealthy(s: State, url: Option<string>, limit: Option<nat>, env: Env)
    requires Healthy(s.db)
    ensures Healthy(IngestFeed(s, url, limit, env).0.db)
  {
    if env.online && url.Some? && env.feed.Answered? && env.feed.doc.hasRssRoot {
      var parsed := NewsParser.ParseFeed(Web, url.value, PageOf(env.feed), env.feed.doc, limit);
      if parsed.Success? {
        StoreFeedKeepsHealthy(s, url.value, env.feed.doc, parsed.value, env);
      }
    }
  }

  /** After storing, every record the page shows has its title stored. */
  lemma StoreFeedStoresShown(s: State, u: string, doc: Document, parsed: seq<News>, env: Env)
    ensures var r := StoreFeed(s, u, doc, parsed, env);
            r.1.Success? ==> forall i :: 0 <= i < |r.1.value| ==> HasTitle(r.0.db, r.1.value[i].title)
  {
    if RegisterSource(s.db, u, doc).Success? {
      var cached := ImageCache.CacheImages(s.fs, env.imageDir, parsed, env.fetch, env.opens, env.decode, env.resample);
      var db1 := RegisterSource(s.db, u, doc).value;
      InsertAllCovers(db1, cached.1, SourceIdOf(db1, u), env.parse);
    }
  }

  /** After the fetch branch, every record the page shows has its title
      stored. */
  lemma IngestFeedStoresShown(s: State, url: Option<string>, limit: Option<nat>, env: Env)
    ensures var r := IngestFeed(s, url, limit, env);
            r.1.Success? ==> forall i :: 0 <= i < |r.1.value| ==> HasTitle(r.0.db, r.1.value[i].title)
  {
    if env.online && url.Some? && env.feed.Answered? && env.feed.doc.hasRssRoot {
      var parsed := NewsParser.ParseFeed(Web, url.value, PageOf(env.feed), env.feed.doc, limit);
      if parsed.Success? {
        StoreFeedStoresShown(s, url.value, env.feed.doc, parsed.value, env);
      }
    }
  }

  /** Storing the same records again stores nothing new: the second run
      finds the source registered and every title stored. */
  lemma StoreFeedTwice(s: State, u: string, doc: Document, parsed: seq<News>, env: Env)
    requires StoreFeed(s, u, doc, parsed, env).1.Success?
    ensures var first := StoreFeed(s, u, doc, parsed, env);
            var second := StoreFeed(first.0, u, doc, parsed, env);
            second.1.Success? && second.0.db == first.0.db
  {
    var first := StoreFeed(s, u, doc, parsed, env);
    var cached := ImageCache.CacheImages(s.fs, env.imageDir, parsed, env.fetch, env.opens, env.decode, env.resample);
    var db1 := RegisterSource(s.db, u, doc).value;
    var ingest := InsertAll(db1, cached.1, SourceIdOf(db1, u), env.parse);
    assert first.0 == State(ingest.db, cached.0);
    InsertAllCovers(db1, cached.1, SourceIdOf(db1, u), env.parse);
    var cached2 := ImageCache.CacheImages(cached.0, env.imageDir, parsed, env.fetch, env.opens, env.decode, env.resample);
    assert RegisterSource(ingest.db, u, doc) == Success(ingest.db);
    forall i | 0 <= i < |cached2.1| ensures HasTitle(ingest.db, cached2.1[i].title) {
      assert cached2.1[i].title == parsed[i].title == cached.1[i].title;
    }
    InsertAllOfStored(ingest.db, cached2.1, SourceIdOf(ingest.db, u), env.parse);
  }

  /** Fetching the same feed again stores nothing new. */
  lemma IngestFeedTwice(s: State, url: Option<string>, limit: Option<nat>, env: Env)
    requires IngestFeed(s, url, limit, env).1.Success?
    ensures var first := IngestFeed(s, url, limit, env);
            var second := IngestFeed(first.0, url, limit, env);
            second.1.Success? && second.0.db == first.0.db
  {
    var parsed := NewsParser.ParseFeed(Web, url.value, PageOf(env.feed), env.feed.doc, limit).value;
    StoreFeedTwice(s, url.value, env.feed.doc, parsed, env);
  }

  /** Whatever the form asks, the handler keeps the store's invariants. */
  lemma ReadRssSourceKeepsHealthy(s: State, form: ReadRssForm, env: Env)
    requires Healthy(s.db)
    ensures Healthy(ReadRssSource(s, form, env).state.db)
  {
    var limit := FormLimit(form.limitArg);
    if limit.Success? && NoDate(form.dateArg) {
      IngestFeedKeepsHealthy(s, form.rssUrl, limit.value, env);
    }
  }

  /** A page of freshly fetched news shows only news that are now stored. */
  lemma ReadRssSourceStoresShown(s: State, form: ReadRssForm, env: Env)
    requires form.dateArg.None?
    ensures var r := ReadRssSource(s, form, env);
            r.reply.Rendered? ==>
              forall i :: 0 <= i < |r.reply.listing.news| ==> HasTitle(r.state.db, r.reply.listing.news[i].title)
  {
    var limit := FormLimit(form.limitArg);
    if limit.Success? {
      IngestFeedStoresShown(s, form.rssUrl, limit.value, env);
    }
  }

  /** Submitting the same fetch form twice stores what the first submission
      stored and nothing more. */
  lemma ReadRssSourceTwice(s: State, form: ReadRssForm, env: Env)
    requires form.dateArg.None? && ReadRssSource(s, form, env).reply.Rendered?
    ensures var first := ReadRssSource(s, form, env);
            ReadRssSource(first.state, form, env).state.db == first.state.db
  {
    var limit := FormLimit(form.limitArg).value;
    IngestFeedTwice(s, form.rssUrl, limit, env);
  }

  /** An empty date runs the fetch branch and then asks for the rows whose
      date key is empty, which a store of keyed rows never has: the answer
      is never a page. */
  lemma EmptyDateNeverRenders(s: State, form: ReadRssForm, env: Env)
    requires Healthy(s.db) && form.dateArg == Some([])
    ensures !ReadRssSource(s, form, env).reply.Rendered?
  {
    var limit := FormLimit(form.limitArg);
    if limit.Success? {
      var fetched := IngestFeed(s, form.rssUrl, limit.value, env);
      IngestFeedKeepsHealthy(s, form.rssUrl, limit.value, env);
      QueryWithAbsentKey(fetched.0.db, [], form.rssUrl, limit.value);
    }
  }

  /** A query for a date key no stored row has is answered with 404,
      whatever the source and the limit. */
  lemma QueryWithAbsentKey(db: Db, key: string, source: Option<string>, limit: Option<nat>)
    requires forall j :: 0 <= j < |db.news| ==> db.news[j].pubdateFormat != key
    ensures QueryNews(db, Some(key), source, limit) == Failure(Refused(404, NoNews))
  {
    var p := (n: NewsRow) => n.pubdateFormat == key;
    Seqs.FilterNone(db.news, p);
    if source.Some? && GetRssSourceByUrl(db, source.value).Some? {
      var id := GetRssSourceByUrl(db, source.value).value.id;
      var bySource := Seqs.Filter(db.news, (n: NewsRow) => n.rssSource == id);
      forall i | 0 <= i < |bySource| ensures !p(bySource[i]) {
        assert bySource[i] in db.news;
      }
      Seqs.FilterNone(bySource, p);
    }
  }

  // ---------------------------------------------------------------- read-cache

  /** The source menu of the `/read-cache` form: "all" means every source. */
  function SourceChoice(choice: Option<string>): (r: Option<string>)
    ensures choice == Some("all") ==> r.None?
    ensures choice != Some("all") ==> r == choice
  {
    if choice == Some("all") then None else choice
  }

  /** The JSON `GET /read-cache`: limit check, then the query. */
  function ReadCacheApi(db: Db, source: Option<string>, limitArg: Option<Validators.PyValue>, dateArg: Option<string>)
    : (r: Result<seq<NewsRow>, Reply>)
    ensures FormLimit(limitArg).Failure? ==> r == Failure(Refused(418, InvalidLimit))
    ensures r.Failure? ==> r.error == Refused(418, InvalidLimit) || r.error == Refused(404, NoNews)
    ensures r.Success? ==> r.value != [] && forall x :: x in r.value ==>
              && x in db.news
              && (dateArg.Some? ==> x.pubdateFormat == dateArg.value)
              && (source.Some? ==> GetRssSourceByUrl(db, source.value).Some?
                                   && x.rssSource == GetRssSourceByUrl(db, source.value).value.id)
    ensures r.Success? && limitArg.Some? ==> |r.value| <= Validators.ToInt(limitArg.value).value
    ensures FormLimit(limitArg).Success? ==> r == QueryNews(db, dateArg, source, FormLimit(limitArg).value)
  {
    match FormLimit(limitArg)
    case Failure(reason) => Failure(Refused(418, reason))
    case Success(limit) => QueryNews(db, dateArg, source, limit)
  }

  /** The HTML `POST /read-cache`: the same with the source menu. */
  function ReadCacheForm(db: Db, choice: Option<string>, limitArg: Option<Validators.PyValue>, dateArg: Option<string>)
    : (r: Result<seq<NewsRow>, Reply>)
    ensures choice == Some("all") ==> r == ReadCacheApi(db, None, limitArg, dateArg)
    ensures choice != Some("all") ==> r == ReadCacheApi(db, choice, limitArg, dateArg)
  {
    match FormLimit(limitArg)
    case Failure(reason) => Failure(Refused(418, reason))
    case Success(limit) => QueryNews(db, dateArg, SourceChoice(choice), limit)
  }

  /** Asking every source for a date lists every stored row with that date
      key, when no limit is given. */
  lemma ReadCacheEverySource(db: Db, date: string)
    ensures var r := ReadCacheForm(db, Some("all"), None, Some(date));
            && (r.Failure? <==> forall x :: x in db.news ==> x.pubdateFormat != date)
            && (r.Success? ==> forall x :: x in db.news && x.pubdateFormat == date ==> x in r.value)
  {
    var rows := GetNewsByDate(db, Some(date), None);
    assert GetNewsByDateSource(db, Some(date), None, None) == Success(rows);
    if rows != [] {
      assert rows[0] in rows;
    }
  }

  // ---------------------------------------------------------------- news pages

  /** `GET /news`: every row, 404 when there is none. */
  function AllNews(db: Db): (r: Result<seq<NewsRow>, Reply>)
    ensures r.Failure? <==> db.news == []
    ensures r.Failure? ==> r.error == Refused(404, NoNews)
    ensures r.Success? ==> r.value == db.news
  {
    var rows := GetAllNews(db, None);
    if rows == [] then Failure(Refused(404, NoNews)) else Success(rows)
  }

  /** `GET /news/{pubdate}`: the rows with that date key, 404 when there is
      none. */
  function NewsOn(db: Db, pubdate: string): (r: Result<seq<NewsRow>, Reply>)
    ensures r.Failure? <==> forall x :: x in db.news ==> x.pubdateFormat != pubdate
    ensures r.Failure? ==> r.error == Refused(404, NoNews)
    ensures r.Success? ==> forall x :: x in r.value <==> x in db.news && x.pubdateFormat == pubdate
  {
    var rows := GetNewsByDate(db, Some(pubdate), None);
    if rows == [] then
      assert forall x :: x in db.news ==> x.pubdateFormat != pubdate;
      Failure(Refused(404, NoNews))
    else
      assert rows[0] in rows;
      Success(rows)
  }

  /** `POST /news/delete/{news_id}`: the row goes, the page lists the rest.
      An unknown key deletes nothing and is not an error. */
  function DeleteNews(db: Db, id: nat): (r: (Db, seq<NewsRow>))
    ensures r.1 == r.0.news && r.0.sources == db.sources
    ensures forall x :: x in r.1 <==> x in db.news && x.id != id
    ensures (forall x :: x in db.news ==> x.id != id) ==> r.0.news == db.news
  {
    var db' := DeleteNewsById(db, id);
    assert forall x :: x in db'.news <==> x in db.news && x.id != id by {
      forall x ensures x in db'.news <==> x in db.news && x.id != id {
        assert multiset(db'.news)[x] == if x.id == id then 0 else multiset(db.news)[x];
      }
    }
    assert (forall x :: x in db.news ==> x.id != id) ==> db'.news == db.news by {
      if forall x :: x in db.news ==> x.id != id {
        FilterAll(db.news, (n: NewsRow) => n.id != id);
      }
    }
    (db', GetAllNews(db', None))
  }

  /** Filtering by a predicate every element satisfies keeps the sequence. */
  lemma {:induction false} FilterAll<T>(s: seq<T>, p: T -> bool)
    requires forall x :: x in s ==> p(x)
    ensures Seqs.Filter(s, p) == s
  {
    if s != [] {
      assert forall x :: x in s[1..] ==> x in s;
      FilterAll(s[1..], p);
      assert [s[0]] + s[1..] == s;
    }
  }

  /** Deleting a news row keeps the store's invariants. */
  lemma DeleteNewsKeepsHealthy(db: Db, id: nat)
    requires Healthy(db)
    ensures Healthy(DeleteNews(db, id).0)
  {
    var p := (n: NewsRow) => n.id != id;
    var news := Seqs.Filter(db.news, p);
    assert DeleteNews(db, id).0 == db.(news := news);
    Seqs.FilterKeepsPairwise(db.news, p, (a: NewsRow, b: NewsRow) => a.title != b.title);
  }

  // ---------------------------------------------------------------- sources

  /** `GET /rss`: every source, 404 when there is none. */
  function AllSources(db: Db): (r: Result<seq<RssSource>, Reply>)
    ensures r.Failure? <==> db.sources == []
    ensures r.Failure? ==> r.error == Refused(404, UnknownSource)
    ensures r.Success? ==> r.value == db.sources
  {
    if db.sources == [] then Failure(Refused(404, UnknownSource)) else Success(db.sources)
  }

  /** `POST /rss/create/`: a url already stored is reported and left alone;
      otherwise the source is added. The second component tells which. */
  function CreateRssSource(db: Db, url: string, header: string): (r: (Db, bool))
    ensures r.1 <==> GetRssSourceByUrl(db, url).None?
    ensures !r.1 ==> r.0 == db
    ensures r.1 ==> && r.0.news == db.news
                    && |r.0.sources| == |db.sources| + 1 && db.sources <= r.0.sources
                    && r.0.sources[|db.sources|].rssUrl == url && r.0.sources[|db.sources|].rssHeader == header
    ensures GetRssSourceByUrl(r.0, url).Some?
    ensures Healthy(db) ==> Healthy(r.0)
  {
    if GetRssSourceByUrl(db, url).Some? then (db, false)
    else
      var (db', source) := CreateRssEntry(db, url, header);
      assert db'.sources[|db.sources|] == source;
      assert SourceUrlsUnique(db) ==> SourceUrlsUnique(db') by {
        forall i, j | 0 <= i < j < |db'.sources| && SourceUrlsUnique(db)
          ensures db'.sources[i].rssUrl != db'.sources[j].rssUrl
        {
          assert db'.sources[i] == db.sources[i];
          if j < |db.sources| { assert db'.sources[j] == db.sources[j]; }
        }
      }
      (db', true)
  }

  /** Creating the same source twice is creating it once, whatever header
      the second request carries. */
  lemma CreateRssSourceIdempotent(db: Db, url: string, header: string, header2: string)
    ensures var first := CreateRssSource(db, url, header).0;
            CreateRssSource(first, url, header2) == (first, false)
  {
  }

  /** `DELETE /rss/delete`: 404 for an unknown key; otherwise the source
      goes with all its news. */
  function DeleteRssSourceById(db: Db, id: nat): (r: Result<Db, Reply>)
    ensures r.Failure? <==> !SourceIdExists(db, id)
    ensures r.Failure? ==> r.error == Refused(404, UnknownSource)
    ensures r.Success? ==> && (forall x :: x in r.value.news <==> x in db.news && x.rssSource != id)
                           && (forall src :: src in r.value.sources ==> src in db.sources)
                           && (forall src :: src in db.sources && src.id != id ==> src in r.value.sources)
    ensures r.Success? && Valid(db) ==> !SourceIdExists(r.value, id)
  {
    if GetRssSourceById(db, id).None? then Failure(Refused(404, UnknownSource))
    else
      var deleted := DeleteRssSource(db, id);
      var db' := deleted.value;
      assert forall x :: x in db'.news <==> x in db.news && x.rssSource != id by {
        forall x ensures x in db'.news <==> x in db.news && x.rssSource != id {
          assert multiset(db'.news)[x] == if x.rssSource == id then 0 else multiset(db.news)[x];
        }
      }
      Success(db')
  }

  /** Deleting a source keeps the store's invariants. */
  lemma DeleteRssSourceKeepsHealthy(db: Db, id: nat)
    requires Healthy(db) && SourceIdExists(db, id)
    ensures Healthy(DeleteRssSourceById(db, id).value)
  {
    var k := FirstSourceWithId(db.sources, id).value;
    var p := (n: NewsRow) => n.rssSource != id;
    var db' := DeleteRssSourceById(db, id).value;
    assert db' == db.(sources := RemoveAt(db.sources, k), news := Seqs.Filter(db.news, p));
    assert NewsTitlesUnique(db') by {
      Seqs.FilterKeepsPairwise(db.news, p, (a: NewsRow, b: NewsRow) => a.title != b.title);
    }
    assert SourceUrlsUnique(db') by {
      RemoveAtKeepsUrlsUnique(db.sources, k);
    }
    assert DateKeysSet(db') by {
      forall j | 0 <= j < |db'.news| ensures db'.news[j].pubdateFormat != [] {
        assert db'.news[j] in db.news;
      }
    }
  }

  /** Removing one source keeps the urls pairwise distinct. */
  lemma RemoveAtKeepsUrlsUnique(sources: seq<RssSource>, k: nat)
    requires k < |sources|
    requires forall i, j :: 0 <= i < j < |sources| ==> sources[i].rssUrl != sources[j].rssUrl
    ensures var r := RemoveAt(sources, k);
            forall i, j :: 0 <= i < j < |r| ==> r[i].rssUrl != r[j].rssUrl
  {
    var r := RemoveAt(sources, k);
    forall i, j | 0 <= i < j < |r| ensures r[i].rssUrl != r[j].rssUrl {
      var i' := if i < k then i else i + 1;
      var j' := if j < k then j else j + 1;
      assert r[i] == sources[i'] && r[j] == sources[j'];
    }
  }
}
