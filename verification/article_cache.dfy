/** The command-line reader's article cache: the `cached_news` table of the
    sqlite `DataBaseHandler`. The table is a sequence of rows in insertion
    order (the order sqlite returns them in for these queries); the date
    parser is an oracle. */
module ArticleCache {
  import opened Wrappers
  import opened Text
  import opened Seqs
  import opened Feed
  import opened Dates
  import Services

  /** A row of `cached_news`: the nine columns in declared order. A
      `None` image link is stored as NULL. */
  datatype Row = Row(
    url: string,
    rssHeader: string,
    title: string,
    description: string,
    pubdate: string,
    pubdateFormat: string,
    link: string,
    imgLink: Option<string>,
    imgLocation: string)

  type Table = seq<Row>

  /** No two rows share a title. */
  predicate TitlesUnique(table: Table) {
    forall i, j :: 0 <= i < j < |table| ==> table[i].title != table[j].title
  }

  // ---------------------------------------------------------------- membership

  /** `check_news_in_table`: `SELECT EXISTS (... WHERE title = :title)`.
      The test is on the title alone, whatever the row's source. */
  function CheckNewsInTable(table: Table, title: string): (r: bool)
    ensures r <==> exists i :: 0 <= i < |table| && table[i].title == title
  {
    if table == [] then false
    else table[|table| - 1].title == title || CheckNewsInTable(table[..|table| - 1], title)
  }

  // ---------------------------------------------------------------- insert

  /** The named-parameter binding of a record: a record without a `url` key
      cannot be bound. */
  function RowOf(news: News, pubdateFormat: string): Option<Row> {
    match news.url
    case None => None
    case Some(u) =>
      Some(Row(u, news.rssHeader, news.title, news.description, news.pubdate,
               pubdateFormat, news.link, news.imgLink, news.imgLocation))
  }

  /** Exceptions that leave `insert_into_table_cached_news`: a date the
      parser rejects with anything but `TypeError`, or a record the
      statement cannot bind. */
  datatype InsertError = DateNotParsed | MissingBinding

  /** `Completed` is a normal return, including the one after a caught
      `TypeError`; `Raised` is an exception leaving the method, with the
      rows the open transaction holds at that moment. */
  datatype InsertOutcome = Completed(table: Table) | Raised(table: Table, error: InsertError)

  /** `insert_into_table_cached_news`. For each record in order: compute the
      date key (the sentinel stays the sentinel), then insert the row unless
      some row, including one inserted earlier in this batch, already has
      that title. A `TypeError` from the date parser ends the loop and the
      method returns normally with the rows inserted so far. */
  function InsertIntoTableCachedNews(table: Table, batch: seq<News>, parse: DateParser): (r: InsertOutcome)
    ensures table <= r.table
    ensures TitlesUnique(table) ==> TitlesUnique(r.table)
    ensures forall i :: |table| <= i < |r.table| ==>
              exists j :: 0 <= j < |batch| && Services.FormatPubdate(batch[j].pubdate, parse).Success?
                          && RowOf(batch[j], Services.FormatPubdate(batch[j].pubdate, parse).value)
                             == Some(r.table[i])
    decreases |batch|
  {
    if batch == [] then Completed(table)
    else
      var news := batch[0];
      match Services.FormatPubdate(news.pubdate, parse)
      case Failure(DateTypeError) => Completed(table)
      case Failure(DateValueError) => Raised(table, DateNotParsed)
      case Success(key) =>
        assert forall j :: 0 <= j < |batch[1..]| ==> batch[1..][j] == batch[j + 1];
        if CheckNewsInTable(table, news.title) then
          InsertIntoTableCachedNews(table, batch[1..], parse)
        else
          match RowOf(news, key)
          case None => Raised(table, MissingBinding)
          case Some(row) =>
            InsertIntoTableCachedNews(table + [row], batch[1..], parse)
  }

  /** The batch is fully processed: every date key computes and every record
      binds. */
  predicate Insertable(batch: seq<News>, parse: DateParser) {
    forall j :: 0 <= j < |batch| ==>
      Services.FormatPubdate(batch[j].pubdate, parse).Success? && batch[j].url.Some?
  }

  /** After a fully processed batch every one of its titles is in the table. */
  lemma {:induction false} InsertCoversBatch(table: Table, batch: seq<News>, parse: DateParser)
    requires Insertable(batch, parse)
    ensures InsertIntoTableCachedNews(table, batch, parse).Completed?
    ensures forall j :: 0 <= j < |batch| ==>
              CheckNewsInTable(InsertIntoTableCachedNews(table, batch, parse).table, batch[j].title)
    decreases |batch|
  {
    if batch != [] {
      var news := batch[0];
      assert Services.FormatPubdate(news.pubdate, parse).Success? && news.url.Some?;
      var key := Services.FormatPubdate(news.pubdate, parse).value;
      var next := if CheckNewsInTable(table, news.title) then table else table + [RowOf(news, key).value];
      assert InsertIntoTableCachedNews(table, batch, parse) == InsertIntoTableCachedNews(next, batch[1..], parse);
      assert CheckNewsInTable(next, news.title) by {
        if !CheckNewsInTable(table, news.title) {
          assert next[|table|].title == news.title;
        }
      }
      assert Insertable(batch[1..], parse) by {
        forall j | 0 <= j < |batch[1..]|
          ensures Services.FormatPubdate(batch[1..][j].pubdate, parse).Success? && batch[1..][j].url.Some?
        {
          assert batch[1..][j] == batch[j + 1];
        }
      }
      InsertCoversBatch(next, batch[1..], parse);
      var final := InsertIntoTableCachedNews(table, batch, parse).table;
      forall j | 0 <= j < |batch|
        ensures CheckNewsInTable(final, batch[j].title)
      {
        if j == 0 {
          var i :| 0 <= i < |next| && next[i].title == news.title;
          assert final[i] == next[i];
        } else {
          assert batch[j] == batch[1..][j - 1];
        }
      }
    }
  }

  /** Inserting a batch into the table a first insert of it produced changes
      nothing and ends the same way: insertion is idempotent. */
  lemma {:induction false} InsertIdempotent(table: Table, batch: seq<News>, parse: DateParser)
    ensures InsertIntoTableCachedNews(InsertIntoTableCachedNews(table, batch, parse).table, batch, parse)
         == InsertIntoTableCachedNews(table, batch, parse)
    decreases |batch|
  {
    var first := InsertIntoTableCachedNews(table, batch, parse);
    if batch != [] {
      var news := batch[0];
      match Services.FormatPubdate(news.pubdate, parse)
      case Failure(_) =>
      case Success(key) =>
        if CheckNewsInTable(table, news.title) {
          InsertIdempotent(table, batch[1..], parse);
          assert CheckNewsInTable(first.table, news.title) by {
            var i :| 0 <= i < |table| && table[i].title == news.title;
            assert first.table[i] == table[i];
          }
        } else if RowOf(news, key).Some? {
          var next := table + [RowOf(news, key).value];
          InsertIdempotent(next, batch[1..], parse);
          assert CheckNewsInTable(first.table, news.title) by {
            assert first.table[|table|] == next[|table|];
          }
        }
    }
  }

  /** A `TypeError` at position `k` stops the batch there: the outcome is
      that of inserting the records before it, whose rows stay. */
  lemma {:induction false} InsertStopsAtTypeError(table: Table, batch: seq<News>, k: nat, parse: DateParser)
    requires k < |batch|
    requires Services.FormatPubdate(batch[k].pubdate, parse) == Failure(DateTypeError)
    ensures InsertIntoTableCachedNews(table, batch, parse)
         == InsertIntoTableCachedNews(table, batch[..k], parse)
    decreases k
  {
    if k > 0 {
      var news := batch[0];
      assert batch[..k][0] == news;
      assert batch[..k][1..] == batch[1..][..k - 1];
      match Services.FormatPubdate(news.pubdate, parse)
      case Failure(_) =>
      case Success(key) =>
        if CheckNewsInTable(table, news.title) {
          InsertStopsAtTypeError(table, batch[1..], k - 1, parse);
        } else if RowOf(news, key).Some? {
          InsertStopsAtTypeError(table + [RowOf(news, key).value], batch[1..], k - 1, parse);
        }
    }
  }

  // ---------------------------------------------------------------- queries

  /** `retrieved_news[0:limit]` behind `if not limit`: a falsy limit (`None`,
      `False` or 0) keeps everything; otherwise Python's slice, where a
      negative bound counts from the end. */
  function LimitSlice(rows: Table, limit: Option<int>): (r: Table)
    ensures r <= rows
    ensures limit.None? || limit.value == 0 ==> r == rows
    ensures limit.Some? && limit.value > 0 ==> |r| == if limit.value < |rows| then limit.value else |rows|
  {
    if limit.None? || limit.value == 0 then rows
    else if limit.value > 0 then Take(rows, limit.value)
    else if |rows| + limit.value <= 0 then []
    else rows[..|rows| + limit.value]
  }

  datatype ReadError = NewsNotFoundError

  /** The common tail of both queries: an empty result raises, a non-empty
      one is cut to the limit. */
  function Retrieve(matches: Table, limit: Option<int>): (r: Result<Table, ReadError>)
    ensures r.Failure? <==> matches == []
    ensures r.Success? ==> r.value == LimitSlice(matches, limit)
  {
    if matches == [] then Failure(NewsNotFoundError) else Success(LimitSlice(matches, limit))
  }

  /** The `where` clause of the date query. */
  function OnDate(pubdate: string): Row -> bool {
    (row: Row) => row.pubdateFormat == pubdate
  }

  /** The `where` clause of the date-and-source query. */
  function OnDateFrom(pubdate: string, source: string): Row -> bool {
    (row: Row) => row.pubdateFormat == pubdate && row.url == source
  }

  /** `read_table_by_pubdate`: rows whose date key equals `pubdate`, in
      table order, cut to the limit. */
  function ReadTableByPubdate(table: Table, pubdate: string, limit: Option<int>): (r: Result<Table, ReadError>)
    ensures r.Failure? <==> forall i :: 0 <= i < |table| ==> table[i].pubdateFormat != pubdate
    ensures r.Success? ==> forall x :: x in r.value ==> x in table && x.pubdateFormat == pubdate
    ensures r.Success? && (limit.None? || limit.value == 0) ==>
              forall i :: 0 <= i < |table| && table[i].pubdateFormat == pubdate ==> table[i] in r.value
    ensures r.Success? && limit.Some? && limit.value > 0 ==> |r.value| <= limit.value
    ensures r.Success? ==> r.value <= Filter(table, OnDate(pubdate))
    ensures r.Success? && (limit.None? || limit.value == 0) ==> r.value == Filter(table, OnDate(pubdate))
    ensures r.Success? && limit.Some? && limit.value > 0 ==>
              var n := |Filter(table, OnDate(pubdate))|;
              |r.value| == if limit.value < n then limit.value else n
  {
    var matches := Filter(table, OnDate(pubdate));
    FilterMembers(table, OnDate(pubdate));
    assert forall i :: 0 <= i < |table| ==> table[i] in table;
    assert matches != [] ==> exists i :: 0 <= i < |table| && table[i] == matches[0];
    Retrieve(matches, limit)
  }

  /** `read_table_by_pubdate_source`: rows with that date key and `url`
      equal to `source`, in table order, cut to the limit. */
  function ReadTableByPubdateSource(table: Table, pubdate: string, source: string, limit: Option<int>)
    : (r: Result<Table, ReadError>)
    ensures r.Failure? <==>
              forall i :: 0 <= i < |table| ==> !(table[i].pubdateFormat == pubdate && table[i].url == source)
    ensures r.Success? ==>
              forall x :: x in r.value ==> x in table && x.pubdateFormat == pubdate && x.url == source
    ensures r.Success? && (limit.None? || limit.value == 0) ==>
              forall i :: 0 <= i < |table| && table[i].pubdateFormat == pubdate && table[i].url == source
                ==> table[i] in r.value
    ensures r.Success? && limit.Some? && limit.value > 0 ==> |r.value| <= limit.value
    ensures r.Success? ==> r.value <= Filter(table, OnDateFrom(pubdate, source))
    ensures r.Success? && (limit.None? || limit.value == 0) ==> r.value == Filter(table, OnDateFrom(pubdate, source))
    ensures r.Success? && limit.Some? && limit.value > 0 ==>
              var n := |Filter(table, OnDateFrom(pubdate, source))|;
              |r.value| == if limit.value < n then limit.value else n
  {
    var matches := Filter(table, OnDateFrom(pubdate, source));
    FilterMembers(table, OnDateFrom(pubdate, source));
    assert forall i :: 0 <= i < |table| ==> table[i] in table;
    assert matches != [] ==> exists i :: 0 <= i < |table| && table[i] == matches[0];
    Retrieve(matches, limit)
  }

  /** Every row the source-restricted query returns (without a limit) is
      returned by the date query too. */
  lemma SourceQueryRefinesDateQuery(table: Table, pubdate: string, source: string)
    requires ReadTableByPubdateSource(table, pubdate, source, None).Success?
    ensures ReadTableByPubdate(table, pubdate, None).Success?
    ensures forall x :: x in ReadTableByPubdateSource(table, pubdate, source, None).value
                        ==> x in ReadTableByPubdate(table, pubdate, None).value
  {
    var bySource := ReadTableByPubdateSource(table, pubdate, source, None).value;
    forall x | x in bySource
      ensures x in ReadTableByPubdate(table, pubdate, None).value
    {
      var i :| 0 <= i < |table| && table[i] == x;
    }
  }

  /** A limit only cuts the unlimited answer: both queries fail together,
      and the limited rows are a prefix of the unlimited ones. */
  lemma LimitedDateQueryIsPrefix(table: Table, pubdate: string, limit: Option<int>)
    ensures ReadTableByPubdate(table, pubdate, limit).Failure?
            <==> ReadTableByPubdate(table, pubdate, None).Failure?
    ensures ReadTableByPubdate(table, pubdate, limit).Success? ==>
              ReadTableByPubdate(table, pubdate, limit).value <= ReadTableByPubdate(table, pubdate, None).value
  {
  }

  /** The same for the date-and-source query. */
  lemma LimitedSourceQueryIsPrefix(table: Table, pubdate: string, source: string, limit: Option<int>)
    ensures ReadTableByPubdateSource(table, pubdate, source, limit).Failure?
            <==> ReadTableByPubdateSource(table, pubdate, source, None).Failure?
    ensures ReadTableByPubdateSource(table, pubdate, source, limit).Success? ==>
              ReadTableByPubdateSource(table, pubdate, source, limit).value
                <= ReadTableByPubdateSource(table, pubdate, source, None).value
  {
  }
}
