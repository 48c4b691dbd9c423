/** The converters of both readers: where an output file goes, the JSON
    projection of the records, the structure of the EPUB book, and which
    library exceptions each format swallows. Template rendering, PDF
    layout, the EPUB zip and the JSON text are left to their libraries;
    their outcome is an input. */
module Converter {
  import opened Wrappers
  import opened Text
  import opened Paths
  import opened Feed
  import opened Files
  import Services

  // ---------------------------------------------------------------- target path

  /** The generated file name `rss_feed_<id>.<extension>`, where `id` is
      the first six characters of a fresh UUID. */
  function GeneratedName(id: string, extension: string): (r: string)
    ensures EndsWith(r, "." + extension)
    ensures r != [] && r[0] != SEP
  {
    EndsWithConcat("rss_feed_" + id, "." + extension);
    assert "rss_feed_" + id + "." + extension == ("rss_feed_" + id) + ("." + extension);
    "rss_feed_" + id + "." + extension
  }

  /** The path a converter writes to: the target itself when it already
      ends in `.<extension>` (the test here has the dot), otherwise the
      target taken as a folder with a generated file name in it. */
  function ResolveTarget(target: string, extension: string, id: string): (r: string)
    ensures EndsWith(r, "." + extension)
    ensures r == target <==> EndsWith(target, "." + extension)
    ensures r != target ==> StartsWith(r, target) && EndsWith(r, GeneratedName(id, extension))
  {
    if EndsWith(target, "." + extension) then target
    else
      var r := Join(target, GeneratedName(id, extension));
      EndsWithTransitive(r, GeneratedName(id, extension), "." + extension);
      r
  }

  /** Resolving a resolved path changes nothing. */
  lemma ResolveTargetIdempotent(target: string, extension: string, id: string, id2: string)
    ensures ResolveTarget(ResolveTarget(target, extension, id), extension, id2) == ResolveTarget(target, extension, id)
  {
  }

  // ---------------------------------------------------------------- json

  /** The `"Article"` object of a JSON element. */
  datatype Article = Article(title: string, pubdate: string, description: string, link: string, imgLink: Option<string>)

  /** One element of the JSON array: `{"Feed", "URL", "Article"}`. */
  datatype JsonEntry = JsonEntry(feed: string, url: string, article: Article)

  /** A dictionary lookup of a missing key. */
  datatype KeyError = KeyError(key: string)

  /** The element of one record, given the value its `"URL"` takes. The
      web application reads `news_link` and `news_img_link`, which are the
      record's `link` and `imgLink`. */
  function JsonEntryOf(news: News, url: string): (r: JsonEntry)
    ensures r.feed == news.rssHeader && r.url == url
    ensures r.article == Article(news.title, news.pubdate, news.description, news.link, news.imgLink)
  {
    JsonEntry(news.rssHeader, url, Article(news.title, news.pubdate, news.description, news.link, news.imgLink))
  }

  /** The record an element describes, with the fields the projection
      drops at the sentinel. */
  function RecordOfEntry(e: JsonEntry): (r: News)
    ensures JsonEntryOf(r, e.url) == e
  {
    News(Some(e.url), e.feed, e.article.title, e.article.description, e.article.pubdate,
         EMPTY, e.article.link, e.article.imgLink, EMPTY)
  }

  /** The projection forgets exactly the date key and the image location:
      reading a record back from its element restores every other field. */
  lemma JsonProjectionRoundTrip(news: News, url: string)
    ensures RecordOfEntry(JsonEntryOf(news, url)) == news.(url := Some(url), pubdateFormat := EMPTY, imgLocation := EMPTY)
  {
  }

  /** `convert_to_json` as written: each element reads `news['url']`, so
      the first record without that key raises `KeyError`. */
  function ConvertToJson(batch: seq<News>): (r: Result<seq<JsonEntry>, KeyError>)
    ensures r.Failure? <==> exists i :: 0 <= i < |batch| && batch[i].url.None?
    ensures r.Failure? ==> r.error == KeyError("url")
    ensures r.Success? ==> |r.value| == |batch|
    ensures r.Success? ==> forall i :: 0 <= i < |batch| ==> r.value[i] == JsonEntryOf(batch[i], batch[i].url.value)
  {
    if batch == [] then Success([])
    else if batch[0].url.None? then Failure(KeyError("url"))
    else
      var rest := ConvertToJson(batch[1..]);
      assert forall i :: 1 <= i < |batch| ==> batch[1..][i - 1] == batch[i];
      if rest.Failure? then
        assert exists i :: 0 <= i < |batch[1..]| && batch[1..][i].url.None?;
        rest
      else Success([JsonEntryOf(batch[0], batch[0].url.value)] + rest.value)
  }

  /** The web application's records have no `url` key, so its
      `convert_to_json` raises on every non-empty list. */
  lemma WebJsonAlwaysRaises(batch: seq<News>)
    requires batch != []
    requires forall i :: 0 <= i < |batch| ==> batch[i].url == UrlKey(Web, "")
    ensures ConvertToJson(batch) == Failure(KeyError("url"))
  {
    assert batch[0].url.None?;
  }

  /** The projection with `"URL"` taken from the feed the records came
      from, which every record of either reader has. */
  function ConvertToJsonFromFeed(feedUrl: string, batch: seq<News>): (r: seq<JsonEntry>)
    ensures |r| == |batch|
    ensures forall i :: 0 <= i < |batch| ==> r[i].url == feedUrl && RecordOfEntry(r[i]).title == batch[i].title
    ensures forall i :: 0 <= i < |batch| ==>
              RecordOfEntry(r[i]) == batch[i].(url := Some(feedUrl), pubdateFormat := EMPTY, imgLocation := EMPTY)
  {
    var r := seq(|batch|, i requires 0 <= i < |batch| => JsonEntryOf(batch[i], feedUrl));
    assert forall i :: 0 <= i < |batch| ==> RecordOfEntry(r[i]) == RecordOfEntry(JsonEntryOf(batch[i], feedUrl));
    r
  }

  /** On the command-line reader's records, whose `url` is the feed, the
      corrected projection is what `convert_to_json` returns. */
  lemma FromFeedAgreesOnCliRecords(feedUrl: string, batch: seq<News>)
    requires forall i :: 0 <= i < |batch| ==> batch[i].url == UrlKey(Cli, feedUrl)
    ensures ConvertToJson(batch) == Success(ConvertToJsonFromFeed(feedUrl, batch))
  {
    var r := ConvertToJson(batch);
    var g := ConvertToJsonFromFeed(feedUrl, batch);
    assert r.Success? by {
      forall i | 0 <= i < |batch| ensures batch[i].url.Some? {
        assert batch[i].url == Some(feedUrl);
      }
    }
    assert r.value == g;
  }

  // ---------------------------------------------------------------- epub

  /** The file name of the cover image and of the stand-in for a missing
      article image, both in the templates folder. */
  const COVER_FILE: string := "epub_book_cover.jpg"
  const PLACEHOLDER_FILE: string := "epub_empty_image.jpg"

  /** An HTML page of the book with its image item. */
  datatype BookPage = BookPage(title: string, fileName: string, imageUid: string, imageFile: string, image: Bytes)

  /** An entry of the table of contents: a section heading or a page. */
  datatype TocEntry = Section(title: string) | PageLink(fileName: string)

  /** The book handed to the EPUB writer. The spine lists item names;
      `cover` and `nav` are the two the writer generates. */
  datatype Book = Book(cover: Bytes, spine: seq<string>, toc: seq<TocEntry>, pages: seq<BookPage>)

  const PAGE_PREFIX: string := "book_page_"
  const PAGE_SUFFIX: string := ".xhtml"

  /** `book_page_<i>.xhtml`. */
  function PageName(i: nat): (r: string)
    ensures StartsWith(r, PAGE_PREFIX) && EndsWith(r, PAGE_SUFFIX)
  {
    var r := PAGE_PREFIX + NatToString(i) + PAGE_SUFFIX;
    assert r[..|PAGE_PREFIX|] == PAGE_PREFIX;
    EndsWithConcat(PAGE_PREFIX + NatToString(i), PAGE_SUFFIX);
    r
  }

  /** The page number a page file name carries, if it has the page form. */
  function PageNumber(name: string): (r: Option<nat>)
    ensures r.Some? ==> StartsWith(name, PAGE_PREFIX) && EndsWith(name, PAGE_SUFFIX)
  {
    if |name| > |PAGE_PREFIX| + |PAGE_SUFFIX| && StartsWith(name, PAGE_PREFIX) && EndsWith(name, PAGE_SUFFIX)
       && AllDigits(name[|PAGE_PREFIX|..|name| - |PAGE_SUFFIX|])
    then Some(DigitsValue(name[|PAGE_PREFIX|..|name| - |PAGE_SUFFIX|]))
    else None
  }

  /** A page's number is read back from its file name, so distinct pages
      have distinct names. */
  lemma PageNameRoundTrip(i: nat)
    ensures PageNumber(PageName(i)) == Some(i)
  {
    var name := PageName(i);
    assert name[|PAGE_PREFIX|..|name| - |PAGE_SUFFIX|] == NatToString(i);
    NatToStringRoundTrip(i);
  }

  /** `image<i>`, the uid and the file name of page `i`'s image. */
  function ImageName(i: nat): string {
    "image" + NatToString(i)
  }

  /** The bytes shown on a page: the record's cached image, or the
      placeholder when the record has none. A file that is not there is
      reported by its path. */
  function PageImage(fs: FileSystem, templates: string, news: News): (r: Result<Bytes, string>)
    ensures news.imgLocation != EMPTY ==>
              r == if news.imgLocation in fs then Success(fs[news.imgLocation]) else Failure(news.imgLocation)
    ensures news.imgLocation == EMPTY ==>
              var placeholder := Join(templates, PLACEHOLDER_FILE);
              r == if placeholder in fs then Success(fs[placeholder]) else Failure(placeholder)
  {
    var path := if news.imgLocation != EMPTY then news.imgLocation else Join(templates, PLACEHOLDER_FILE);
    if path in fs then Success(fs[path]) else Failure(path)
  }

  /** `page` is page `n` of the book, made for `news`. */
  predicate PageFor(fs: FileSystem, templates: string, news: News, n: nat, page: BookPage) {
    && page.title == news.title
    && page.fileName == PageName(n)
    && page.imageUid == ImageName(n)
    && page.imageFile == ImageName(n)
    && Success(page.image) == PageImage(fs, templates, news)
  }

  /** Page `n` of the book for a record whose image can be read. */
  function MakePage(fs: FileSystem, templates: string, news: News, n: nat): (page: BookPage)
    requires PageImage(fs, templates, news).Success?
    ensures PageFor(fs, templates, news, n, page)
  {
    BookPage(news.title, PageName(n), ImageName(n), ImageName(n), PageImage(fs, templates, news).value)
  }

  /** What stops page `n` of the book, if anything: the template step
      (`setup_jinja` and `render`) comes first and raises `rendered`, if
      that is `Some`; then an image that cannot be read raises
      `FileNotFoundError`. */
  function PageError(fs: FileSystem, templates: string, news: News, rendered: Option<LibraryError>)
    : (r: Option<LibraryError>)
    ensures rendered.Some? ==> r == rendered
    ensures rendered.None? ==> (r.Some? <==> PageImage(fs, templates, news).Failure?)
    ensures rendered.None? && r.Some? ==> r.value == FileNotFoundError
  {
    if rendered.Some? then rendered
    else if PageImage(fs, templates, news).Failure? then Some(FileNotFoundError)
    else None
  }

  /** `r` is the assembly of the pages of `batch`, numbered from `first`:
      it fails exactly when some page fails, with the exception of the
      first failing page; otherwise it holds one page per record, page `i`
      made for record `i` as page `first + i`. */
  predicate PagesOf(fs: FileSystem, templates: string, batch: seq<News>, first: nat,
                    render: nat -> Option<LibraryError>, r: Result<seq<BookPage>, LibraryError>)
  {
    && (r.Failure? <==>
          exists i :: 0 <= i < |batch| && PageError(fs, templates, batch[i], render(first + i)).Some?)
    && (r.Failure? ==>
          exists i :: && 0 <= i < |batch|
                      && PageError(fs, templates, batch[i], render(first + i)) == Some(r.error)
                      && forall j :: 0 <= j < i ==> PageError(fs, templates, batch[j], render(first + j)).None?)
    && (r.Success? ==>
          && |r.value| == |batch|
          && forall i :: 0 <= i < |batch| ==> PageFor(fs, templates, batch[i], first + i, r.value[i]))
  }

  /** The pages of `batch`, numbered from `first`, in input order; `render`
      gives the exception the template step raises for a page number, if
      any. The first page that raises stops the assembly with its
      exception. */
  function BuildPages(fs: FileSystem, templates: string, batch: seq<News>, first: nat,
                      render: nat -> Option<LibraryError>)
    : (r: Result<seq<BookPage>, LibraryError>)
    ensures PagesOf(fs, templates, batch, first, render, r)
    decreases |batch|
  {
    if batch == [] then Success([])
    else
      var news := batch[0];
      match PageError(fs, templates, news, render(first))
      case Some(e) =>
        FirstPageFails(fs, templates, batch, first, render, e);
        Failure(e)
      case None =>
        var page := MakePage(fs, templates, news, first);
        var rest := BuildPages(fs, templates, batch[1..], first + 1, render);
        var r := if rest.Failure? then Failure(rest.error) else Success([page] + rest.value);
        PagesStep(fs, templates, batch, first, render, page, rest, r);
        r
  }

  /** The pages of a batch whose first page goes through, from its first
      page and the pages of the rest. */
  lemma PagesStep(fs: FileSystem, templates: string, batch: seq<News>, first: nat,
                  render: nat -> Option<LibraryError>, page: BookPage,
                  rest: Result<seq<BookPage>, LibraryError>, r: Result<seq<BookPage>, LibraryError>)
    requires batch != [] && PageError(fs, templates, batch[0], render(first)).None?
    requires PageFor(fs, templates, batch[0], first, page)
    requires PagesOf(fs, templates, batch[1..], first + 1, render, rest)
    requires r == if rest.Failure? then Failure(rest.error) else Success([page] + rest.value)
    ensures PagesOf(fs, templates, batch, first, render, r)
  {
    if rest.Failure? {
      PagesFailureCons(fs, templates, batch, first, render, rest.error);
    } else {
      PagesCons(fs, templates, batch, first, page, rest.value, r.value);
      NoPageFails(fs, templates, batch, first, render);
    }
  }

  /** A first page that fails stops the whole batch with its exception. */
  lemma FirstPageFails(fs: FileSystem, templates: string, batch: seq<News>, first: nat,
                       render: nat -> Option<LibraryError>, e: LibraryError)
    requires batch != [] && PageError(fs, templates, batch[0], render(first)) == Some(e)
    ensures exists i :: 0 <= i < |batch| && PageError(fs, templates, batch[i], render(first + i)).Some?
    ensures exists i :: && 0 <= i < |batch|
                        && PageError(fs, templates, batch[i], render(first + i)) == Some(e)
                        && forall j :: 0 <= j < i ==> PageError(fs, templates, batch[j], render(first + j)).None?
  {
    assert first + 0 == first;
  }

  /** A first page that goes through in front of a rest that stops at its
      first failing page: the whole batch stops there too. */
  lemma PagesFailureCons(fs: FileSystem, templates: string, batch: seq<News>, first: nat,
                         render: nat -> Option<LibraryError>, e: LibraryError)
    requires batch != [] && PageError(fs, templates, batch[0], render(first)).None?
    requires exists k :: && 0 <= k < |batch[1..]|
                         && PageError(fs, templates, batch[1..][k], render(first + 1 + k)) == Some(e)
                         && forall j :: 0 <= j < k ==> PageError(fs, templates, batch[1..][j], render(first + 1 + j)).None?
    ensures exists i :: 0 <= i < |batch| && PageError(fs, templates, batch[i], render(first + i)).Some?
    ensures exists i :: && 0 <= i < |batch|
                        && PageError(fs, templates, batch[i], render(first + i)) == Some(e)
                        && forall j :: 0 <= j < i ==> PageError(fs, templates, batch[j], render(first + j)).None?
  {
    var k :| && 0 <= k < |batch[1..]|
             && PageError(fs, templates, batch[1..][k], render(first + 1 + k)) == Some(e)
             && forall j :: 0 <= j < k ==> PageError(fs, templates, batch[1..][j], render(first + 1 + j)).None?;
    assert batch[k + 1] == batch[1..][k];
    forall j | 0 <= j < k + 1 ensures PageError(fs, templates, batch[j], render(first + j)).None? {
      if j > 0 { assert batch[j] == batch[1..][j - 1]; }
    }
  }

  /** A first page that goes through in front of a rest where no page
      fails: no page of the whole batch fails. */
  lemma NoPageFails(fs: FileSystem, templates: string, batch: seq<News>, first: nat,
                    render: nat -> Option<LibraryError>)
    requires batch != [] && PageError(fs, templates, batch[0], render(first)).None?
    requires forall k :: 0 <= k < |batch[1..]| ==> PageError(fs, templates, batch[1..][k], render(first + 1 + k)).None?
    ensures !exists i :: 0 <= i < |batch| && PageError(fs, templates, batch[i], render(first + i)).Some?
  {
    forall i | 0 <= i < |batch| ensures PageError(fs, templates, batch[i], render(first + i)).None? {
      if i > 0 { assert batch[i] == batch[1..][i - 1]; }
    }
  }

  /** The first page in front of the pages of the rest, numbered from the
      next number, are the pages of the whole batch. */
  lemma PagesCons(fs: FileSystem, templates: string, batch: seq<News>, first: nat, page: BookPage, rest: seq<BookPage>,
                  pages: seq<BookPage>)
    requires batch != [] && |rest| == |batch| - 1 && pages == [page] + rest
    requires PageFor(fs, templates, batch[0], first, page)
    requires forall i :: 0 <= i < |rest| ==> PageFor(fs, templates, batch[1..][i], first + 1 + i, rest[i])
    ensures forall i :: 0 <= i < |batch| ==> PageFor(fs, templates, batch[i], first + i, pages[i])
  {
    forall i | 0 <= i < |batch| ensures PageFor(fs, templates, batch[i], first + i, pages[i]) {
      if i > 0 {
        var k := i - 1;
        assert pages[i] == rest[k] && batch[1..][k] == batch[i] && first + 1 + k == first + i;
      }
    }
  }

  /** The table of contents: for each page, a section with its title, then
      the page. */
  function Toc(pages: seq<BookPage>): (r: seq<TocEntry>)
    ensures |r| == 2 * |pages|
    ensures forall i :: 0 <= i < |pages| ==>
              r[2 * i] == Section(pages[i].title) && r[2 * i + 1] == PageLink(pages[i].fileName)
  {
    if pages == [] then []
    else
      var rest := Toc(pages[1..]);
      var r := [Section(pages[0].title), PageLink(pages[0].fileName)] + rest;
      assert forall i :: 1 <= i < |pages| ==>
               r[2 * i] == Section(pages[i].title) && r[2 * i + 1] == PageLink(pages[i].fileName) by {
        forall i | 1 <= i < |pages|
          ensures r[2 * i] == Section(pages[i].title) && r[2 * i + 1] == PageLink(pages[i].fileName)
        {
          var k := i - 1;
          assert pages[i] == pages[1..][k];
          assert 2 * i == 2 * k + 2;
          assert r[2 * k + 2] == rest[2 * k] && r[2 * k + 3] == rest[2 * k + 1];
        }
      }
      r
  }

  /** The sections of the table of contents, read back in order, are the
      page titles. */
  lemma {:induction false} TocSectionsAreTitles(pages: seq<BookPage>)
    ensures SectionTitles(Toc(pages)) == seq(|pages|, i requires 0 <= i < |pages| => pages[i].title)
  {
    if pages != [] {
      var tail := pages[1..];
      TocSectionsAreTitles(tail);
      assert Toc(pages) == [Section(pages[0].title), PageLink(pages[0].fileName)] + Toc(tail);
      SectionTitlesCons(pages[0].title, pages[0].fileName, Toc(tail));
      var titles := seq(|pages|, i requires 0 <= i < |pages| => pages[i].title);
      var rest := seq(|tail|, i requires 0 <= i < |tail| => tail[i].title);
      assert titles == [pages[0].title] + rest;
    }
  }

  /** A section and its page in front of a table add the section's title
      in front of its titles. */
  lemma SectionTitlesCons(title: string, fileName: string, toc: seq<TocEntry>)
    ensures SectionTitles([Section(title), PageLink(fileName)] + toc) == [title] + SectionTitles(toc)
  {
    var s := [Section(title), PageLink(fileName)] + toc;
    assert s[1..] == [PageLink(fileName)] + toc;
    assert s[1..][1..] == toc;
  }

  /** The titles of a table's sections, in order. */
  function SectionTitles(toc: seq<TocEntry>): seq<string> {
    if toc == [] then []
    else (if toc[0].Section? then [toc[0].title] else []) + SectionTitles(toc[1..])
  }

  /** The spine: the cover and the navigation, then every page in order. */
  function Spine(pages: seq<BookPage>): (r: seq<string>)
    ensures |r| == 2 + |pages|
    ensures r[..2] == ["cover", "nav"]
    ensures forall i :: 0 <= i < |pages| ==> r[2 + i] == pages[i].fileName
  {
    ["cover", "nav"] + seq(|pages|, i requires 0 <= i < |pages| => pages[i].fileName)
  }

  /** Pages numbered from zero have pairwise distinct file names. */
  lemma PageNamesDistinct(pages: seq<BookPage>)
    requires forall i :: 0 <= i < |pages| ==> pages[i].fileName == PageName(i)
    ensures forall i, j :: 0 <= i < j < |pages| ==> pages[i].fileName != pages[j].fileName
  {
    forall i, j | 0 <= i < j < |pages| ensures pages[i].fileName != pages[j].fileName {
      PageNameRoundTrip(i);
      PageNameRoundTrip(j);
    }
  }

  // ---------------------------------------------------------------- exceptions

  /** The exceptions the converters tell apart. */
  datatype LibraryError = FileNotFoundError | TypeError | AttributeError | TemplateNotFound | OtherError

  /** A conversion: a file written at `path`, an exception printed and
      swallowed, or an exception leaving the converter. `left` is the file
      an exception leaves behind: `open` in write mode had already created
      the target, or truncated an existing one, when the exception came. */
  datatype Outcome<T> =
    | Saved(path: string, content: T)
    | Reported(error: LibraryError, left: Option<string>)
    | Raised(error: LibraryError, left: Option<string>)

  /** The HTML converter catches the three rendering errors by name. */
  predicate HtmlSwallows(e: LibraryError) {
    e == TypeError || e == AttributeError || e == TemplateNotFound
  }

  /** The PDF and EPUB converters re-raise `FileNotFoundError` and catch
      every other `Exception`. */
  predicate PdfEpubSwallows(e: LibraryError) {
    e != FileNotFoundError
  }

  /** A missing file always leaves every converter; an unexpected library
      exception leaves the HTML converter but not the other two. */
  lemma ErrorPolicies()
    ensures !HtmlSwallows(FileNotFoundError) && !PdfEpubSwallows(FileNotFoundError)
    ensures !HtmlSwallows(OtherError) && PdfEpubSwallows(OtherError)
    ensures forall e :: HtmlSwallows(e) ==> PdfEpubSwallows(e)
  {
  }

  /** An exception of a converter, printed and swallowed or leaving it by
      its policy, with the file it leaves behind. */
  function Stop<T>(e: LibraryError, left: Option<string>, swallows: LibraryError -> bool): (r: Outcome<T>)
    ensures !r.Saved? && r.error == e && r.left == left
    ensures r.Reported? <==> swallows(e)
  {
    if swallows(e) then Reported(e, left) else Raised(e, left)
  }

  /** The three steps of the HTML and PDF converters once the path is
      resolved: `before` is the exception, if any, of the work done before
      the target is opened; `open` the exception of opening it for
      writing, which otherwise creates the file or empties an existing one;
      `write` what the step with the file open produces. */
  datatype Steps<T> = Steps(before: Option<LibraryError>, open: Option<LibraryError>, write: Result<T, LibraryError>)

  /** The outcome of one converter at `path`: the first step that raises
      decides, and an exception after `open` leaves the file behind. */
  function Finish<T>(path: string, steps: Steps<T>, swallows: LibraryError -> bool): (r: Outcome<T>)
    ensures r.Saved? <==> steps.before.None? && steps.open.None? && steps.write.Success?
    ensures r.Saved? ==> r.path == path && r.content == steps.write.value
    ensures steps.before.Some? ==> !r.Saved? && r.error == steps.before.value
    ensures steps.before.None? && steps.open.Some? ==> !r.Saved? && r.error == steps.open.value
    ensures steps.before.None? && steps.open.None? && steps.write.Failure? ==> !r.Saved? && r.error == steps.write.error
    ensures !r.Saved? ==> (r.Reported? <==> swallows(r.error))
    ensures !r.Saved? ==> (r.left.Some? <==> steps.before.None? && steps.open.None?)
    ensures !r.Saved? && r.left.Some? ==> r.left.value == path
  {
    if steps.before.Some? then Stop(steps.before.value, None, swallows)
    else if steps.open.Some? then Stop(steps.open.value, None, swallows)
    else match steps.write
      case Success(content) => Saved(path, content)
      case Failure(e) => Stop(e, Some(path), swallows)
  }

  /** `convert_to_html`: `template` is the exception, if any, of looking
      the template up, which happens before the target is opened; `open`
      that of opening a path for writing; `render` the text rendering
      gives, or its exception. The text is rendered with the file already
      open, so a rendering exception leaves an empty file at the path,
      even though a `TypeError` or `AttributeError` there is only
      printed. */
  function ConvertToHtml(target: string, id: string, template: Option<LibraryError>,
                         open: string -> Option<LibraryError>, render: Result<string, LibraryError>)
    : (r: Outcome<string>)
    ensures r.Saved? <==> template.None? && open(ResolveTarget(target, "html", id)).None? && render.Success?
    ensures r.Saved? ==> r.path == ResolveTarget(target, "html", id) && EndsWith(r.path, ".html")
    ensures r.Saved? ==> r.content == render.value
    ensures !r.Saved? ==> (r.Raised? <==> !HtmlSwallows(r.error))
    ensures template.Some? ==> !r.Saved? && r.error == template.value && r.left.None?
    ensures template.None? && open(ResolveTarget(target, "html", id)).Some? ==>
              !r.Saved? && r.error == open(ResolveTarget(target, "html", id)).value && r.left.None?
    ensures template.None? && open(ResolveTarget(target, "html", id)).None? && render.Failure? ==>
              !r.Saved? && r.error == render.error && r.left == Some(ResolveTarget(target, "html", id))
  {
    var path := ResolveTarget(target, "html", id);
    assert "." + "html" == ".html";
    Finish(path, Steps(template, open(path), render), HtmlSwallows)
  }

  /** A rendering `TypeError` or `AttributeError` is printed and
      swallowed, and still leaves the opened target, empty, behind. */
  lemma SwallowedRenderLeavesEmptyFile(target: string, id: string, open: string -> Option<LibraryError>, e: LibraryError)
    requires open(ResolveTarget(target, "html", id)).None?
    requires e == TypeError || e == AttributeError
    ensures ConvertToHtml(target, id, None, open, Failure(e)) == Reported(e, Some(ResolveTarget(target, "html", id)))
  {
  }

  /** `convert_to_pdf`: `html` is the text the template renders, or the
      exception of looking it up or rendering it, all before the target is
      opened; `open` the exception of opening a path for writing; `create`
      what `pisa.CreatePDF` makes of the text with the file open. An
      exception of `pisa.CreatePDF` leaves the opened file behind. */
  function ConvertToPdf(target: string, id: string, html: Result<string, LibraryError>,
                        open: string -> Option<LibraryError>, create: string -> Result<Bytes, LibraryError>)
    : (r: Outcome<Bytes>)
    ensures r.Saved? <==> html.Success? && open(ResolveTarget(target, "pdf", id)).None? && create(html.value).Success?
    ensures r.Saved? ==> r.path == ResolveTarget(target, "pdf", id) && EndsWith(r.path, ".pdf")
    ensures r.Saved? ==> r.content == create(html.value).value
    ensures r.Raised? <==> !r.Saved? && r.error == FileNotFoundError
    ensures html.Failure? ==> !r.Saved? && r.error == html.error && r.left.None?
    ensures html.Success? && open(ResolveTarget(target, "pdf", id)).Some? ==>
              !r.Saved? && r.error == open(ResolveTarget(target, "pdf", id)).value && r.left.None?
    ensures html.Success? && open(ResolveTarget(target, "pdf", id)).None? && create(html.value).Failure? ==>
              !r.Saved? && r.error == create(html.value).error && r.left == Some(ResolveTarget(target, "pdf", id))
  {
    var path := ResolveTarget(target, "pdf", id);
    assert "." + "pdf" == ".pdf";
    match html
    case Failure(e) => Finish(path, Steps(Some(e), None, Failure(e)), PdfEpubSwallows)
    case Success(text) => Finish(path, Steps(None, open(path), create(text)), PdfEpubSwallows)
  }

  /** `convert_to_epub`. The cover is read first, then each page in turn:
      its template step, whose exception `render` gives by page number,
      then its image. `write` is the exception, if any, of the calls that
      finish and zip the book. A missing file raises `FileNotFoundError`,
      which leaves the converter; every other exception is printed and
      swallowed. */
  function ConvertToEpub(target: string, id: string, batch: seq<News>, fs: FileSystem, templates: string,
                         render: nat -> Option<LibraryError>, write: Option<LibraryError>): (r: Outcome<Book>)
    ensures r.Saved? ==>
              && r.path == ResolveTarget(target, "epub", id)
              && |r.content.pages| == |batch|
              && r.content.spine == Spine(r.content.pages)
              && r.content.toc == Toc(r.content.pages)
              && (forall i :: 0 <= i < |batch| ==>
                    r.content.pages[i].title == batch[i].title && r.content.pages[i].fileName == PageName(i))
              && write.None?
    ensures r.Raised? ==> r.error == FileNotFoundError
    ensures Join(templates, COVER_FILE) !in fs ==> r == Raised(FileNotFoundError, None)
    ensures Join(templates, COVER_FILE) in fs ==>
              forall i :: && 0 <= i < |batch|
                          && (forall j :: 0 <= j < i ==> PageError(fs, templates, batch[j], render(j)).None?)
                          && PageError(fs, templates, batch[i], render(i)).Some? ==>
                            && !r.Saved? && r.error == PageError(fs, templates, batch[i], render(i)).value
                            && (r.Reported? <==> PdfEpubSwallows(r.error))
    ensures (forall i :: 0 <= i < |batch| ==> render(i).None?)
            && (exists i :: 0 <= i < |batch| && PageImage(fs, templates, batch[i]).Failure?) ==>
              r == Raised(FileNotFoundError, None)
    ensures Join(templates, COVER_FILE) in fs
            && (forall i :: 0 <= i < |batch| ==> PageError(fs, templates, batch[i], render(i)).None?) ==>
              && (r.Saved? <==> write.None?)
              && (write.Some? ==> r.error == write.value && (r.Reported? <==> PdfEpubSwallows(write.value)))
  {
    var cover := Join(templates, COVER_FILE);
    var path := ResolveTarget(target, "epub", id);
    if cover !in fs then Raised(FileNotFoundError, None)
    else
      match BuildPages(fs, templates, batch, 0, render)
      case Failure(e) =>
        FirstFailureUnique(fs, templates, batch, render, e);
        Stop(e, None, PdfEpubSwallows)
      case Success(pages) =>
        var book := Book(fs[cover], Spine(pages), Toc(pages), pages);
        if write.Some? then Stop(write.value, None, PdfEpubSwallows) else Saved(path, book)
  }

  /** Only one page can be the first that raises: it is the one whose
      exception the assembly stops with. */
  lemma FirstFailureUnique(fs: FileSystem, templates: string, batch: seq<News>,
                           render: nat -> Option<LibraryError>, e: LibraryError)
    requires BuildPages(fs, templates, batch, 0, render) == Failure(e)
    ensures forall i :: && 0 <= i < |batch|
                        && (forall j :: 0 <= j < i ==> PageError(fs, templates, batch[j], render(j)).None?)
                        && PageError(fs, templates, batch[i], render(i)).Some? ==>
                          PageError(fs, templates, batch[i], render(i)) == Some(e)
  {
    var k :| && 0 <= k < |batch|
             && PageError(fs, templates, batch[k], render(0 + k)) == Some(e)
             && forall j :: 0 <= j < k ==> PageError(fs, templates, batch[j], render(0 + j)).None?;
    forall i | && 0 <= i < |batch|
               && (forall j :: 0 <= j < i ==> PageError(fs, templates, batch[j], render(j)).None?)
               && PageError(fs, templates, batch[i], render(i)).Some?
      ensures PageError(fs, templates, batch[i], render(i)) == Some(e)
    {
      if i < k {
        assert false;
      } else if k < i {
        assert false;
      }
    }
  }

  // ---------------------------------------------------------------- extension rules

  /** The output path the web application builds for a name that ends in
      the extension's letters without the dot, such as "reportpdf": the
      name is kept as it is, and the converter then takes it for a folder
      and puts a generated file inside it. */
  lemma DotlessNameBecomesFolder(folder: string, id: string)
    ensures var path := Services.CreateTargetPath(folder, "reportpdf", "pdf");
            ResolveTarget(path, "pdf", id) != path
  {
    var path := Services.CreateTargetPath(folder, "reportpdf", "pdf");
    Services.UpdateFileExtensionNoDotQuirk();
    assert EndsWith(path, "reportpdf");
    assert !EndsWith("reportpdf", ".pdf");
    assert path[|path| - 4..] == "reportpdf"[5..];
  }

  /** The extension rule with the dot the converters test for: a name
      already ending in `.<extension>` is kept, any other gets the
      extension appended. */
  function UpdateFileExtensionDotted(extension: string, filename: string): (r: string)
    ensures EndsWith(r, "." + extension)
    ensures r == filename <==> EndsWith(filename, "." + extension)
    ensures r != filename ==> r == filename + "." + extension
  {
    EndsWithConcat(filename, "." + extension);
    assert filename + "." + extension == filename + ("." + extension);
    if EndsWith(filename, "." + extension) then filename else filename + "." + extension
  }

  /** With the dotted rule every target path the web application builds is
      one the converter keeps as it is. */
  lemma DottedTargetIsKept(folder: string, filename: string, extension: string, id: string)
    ensures var path := Join(folder, UpdateFileExtensionDotted(extension, filename));
            ResolveTarget(path, extension, id) == path
  {
    var name := UpdateFileExtensionDotted(extension, filename);
    EndsWithTransitive(Join(folder, name), name, "." + extension);
  }

  /** The dotted rule applied twice is applied once. */
  lemma UpdateFileExtensionDottedIdempotent(extension: string, filename: string)
    ensures UpdateFileExtensionDotted(extension, UpdateFileExtensionDotted(extension, filename))
         == UpdateFileExtensionDotted(extension, filename)
  {
  }
}
