# RSS reader: the decision logic, in Dafny

The reader comes in two copies. One is a command-line tool that caches articles in an sqlite table. The other is a FastAPI web application that stores sources and news in two SQLAlchemy tables. Both copies:

- fetch a feed;
- classify it as plain XML or as XML with HTML wrapped in CDATA;
- normalise its items into news records that use the `"Empty"` sentinel;
- cache each article's image under a file name derived from its title;
- store the records, deduplicated by title;
- answer date and source queries;
- export to JSON, HTML, PDF and EPUB.

Nearly every step goes through a library. This project models what the repository itself decides on top of those calls. Each library call becomes an input or an oracle: a parsed `Document`, a `Fetcher`, a `DateParser`, a `Decoder`, a `Resampler`, or a render outcome.

Modules:

- `Feed` — the parsed document (`Document`, `Item`, `Description`, `Payload`) and the normalised `News` record shared by both copies. The web copy spells `link`, `img_link` and `img_location` as `news_link`, `news_img_link` and `news_img_location`, and its records carry no `url` key.
- `NewsParser` — the feed check, the classifier, the `limit` cut and the two parsers, for both copies.
- `ArticleCache` — the command-line `DataBaseHandler`: deduplicating insert and the two date queries.
- `Crud` — the web application's store: sources, news, foreign key, cascade delete, queries.
- `ImageCache` — cache file names, the download phase and the resize phase, with the filesystem as a map from path to bytes.
- `Converter` — target paths, the JSON projection, EPUB book assembly and each format's exception policy.
- `Services`, `Validators` — the web application's helpers, and the limit, filename and source checks of both copies.
- `WebApp` — the request handlers of the web application: which checks run, in which order, the status of each refusal, and how the store changes.
- `Text`, `Seqs`, `Dates`, `Paths`, `Files`, `Wrappers` — Python's string built-ins, `WHERE`, `LIMIT` and `.first()` on sequences, the `%Y%m%d` key, `os.path.join`, the filesystem type, and `Option`/`Result`.

## Model

| member | source | states |
|---|---|---|
| Text.Lower | rss_parser/caching/caching_images.py:43 | `lower()` keeps the length and folds each character independently: capitals to small letters, everything else kept |
| Text.RemoveSpaces | rss_parser/caching/caching_images.py:43 | `replace(' ', '')` leaves no space and never lengthens the string |
| Text.RemoveSpacesIsFilter | rss_parser/caching/caching_images.py:43 | `replace(' ', '')` is the in-order filter of the non-space characters: every other character is kept, in its place in the order |
| Text.RemoveSpacesKeepsOthers | rss_parser/caching/caching_images.py:43 | every character other than a space keeps its number of occurrences |
| Text.RemoveSpacesBetween | rss_parser/caching/caching_images.py:43 | two space-free words joined by one space lose exactly that space |
| Text.Strip | rss_parser/news_parser/news_parser.py:104 | `strip()` is a contiguous slice of the input with only whitespace before and after it, and with no whitespace at either of its own ends |
| Text.StripOfTrimmed | rss_parser/news_parser/news_parser.py:104 | a string with no whitespace at its ends is its own strip, so stripping twice is stripping once |
| Text.NatToString | rss_parser/converters/converter.py:154 | `str(i)` is a non-empty run of digits with no leading zero unless `i` is 0 |
| Text.NatToStringRoundTrip | rss_parser/converters/converter.py:154 | the decimal rendering of a number reads back as that number |
| Text.NatToStringInjective | rss_parser/converters/converter.py:154 | distinct numbers render as distinct strings |
| Dates.FormatYmd | app/services/services.py:56-57 | the `%Y%m%d` key of a date is exactly eight digits |
| Dates.ParseYmd | app/services/services.py:56-57 | a string reads as a key exactly when it is eight digits |
| Dates.FormatYmdRoundTrip | app/services/services.py:56-57 | a key reads back as the calendar date it was made from |
| Dates.FormatYmdInjective | app/crud/crud.py:143 | distinct dates get distinct keys, so an equality filter on the key selects exactly one day |
| Paths.Join | app/services/services.py:46 | `os.path.join(a, b)` ends with `b`, and begins with `a` when `b` is relative |
| Services.UpdateFileExtension | app/services/services.py:24-33 | the result ends with the extension and begins with the name; it is the name itself exactly when the name already ends with the extension's letters (no dot), and otherwise the name plus `"." + extension` |
| Services.UpdateFileExtensionIdempotent | app/services/services.py:31-33 | applying the rule twice is applying it once |
| Services.UpdateFileExtensionNoDotQuirk | app/services/services.py:31 | `"reportpdf"` with extension `"pdf"` is returned unchanged |
| Services.CreateTargetPath | app/services/services.py:36-46 | the path ends with the extension-updated name, hence with the extension, and starts with the folder when the name is relative |
| Services.FormatPubdate | app/services/services.py:49-60 | the key is the sentinel exactly when the date is the sentinel; any other date gives eight digits that read back as the parsed date, or the parser's exception with its kind |
| NewsParser.ValidateUrlIsRssFeed | rss_parser/news_parser/news_parser.py:31-43 | a fetched page is rejected exactly when it has no `<rss>` element, and a failed request propagates; app/services/validator.py:26-39 decides the same |
| NewsParser.RssFeedTypeChecker | rss_parser/news_parser/news_parser.py:47-75 | truthy exactly when the first item's description has a CDATA payload containing an anchor; `None` exactly when that payload exists without an anchor; otherwise `False` (a missing item, description or payload, or a failed request) |
| NewsParser.ClassifierGuardsFirstPayload | app/rss_parser/news_parser/news_parser.py:31-40 | a truthy classification guarantees that the first item has the CDATA payload the HTML parser reads |
| NewsParser.SelectItems | rss_parser/news_parser/news_parser.py:91 | `find_all(limit=...)` returns a prefix of the items in document order: all of them for a falsy limit, at most `limit` otherwise, and exactly `limit` when there are enough |
| NewsParser.RegularRecord | rss_parser/news_parser/news_parser.py:129-139 | an item becomes a record exactly when it has a title and a link; the description and date fall back to the sentinel; the image link is the sentinel without a `<media:content>` and Python's `None` for one without a `url`; the date key and image location start at the sentinel; the `url` key exists only in the command-line copy (app/rss_parser/news_parser/news_parser.py:96-106 has none) |
| NewsParser.NonXmlRecord | rss_parser/news_parser/news_parser.py:95-107 | an item becomes a record exactly when it has a title, a CDATA payload with a `<p>`, and text after `<link>`; the description is that paragraph, the link is the stripped text, and the image link is the first `<img>`'s `src` (`None` when that `<img>` has none) or the sentinel when there is no `<img>` |
| NewsParser.MapItems | rss_parser/news_parser/news_parser.py:93-108 | the loop succeeds exactly when every item converts; it then keeps item order, one record per item; otherwise it fails with the error of the first item that raises |
| NewsParser.MapItemsPrefix | rss_parser/news_parser/news_parser.py:91-93 | converting a prefix of the items gives the same prefix of the records |
| NewsParser.ParseRssFeedRegularly | rss_parser/news_parser/news_parser.py:114-142 | a missing channel title raises; otherwise the parse succeeds exactly when every selected item converts, fails with the exception of the first item that does not, and on success record `i` is the XML conversion of the `i`-th selected item, with the feed url and channel title |
| NewsParser.ParseRssFeedWithNonXml | rss_parser/news_parser/news_parser.py:79-110 | a missing channel title raises; otherwise the parse succeeds exactly when every selected item converts, fails with the exception of the first item that does not, and on success record `i` is the HTML conversion of the `i`-th selected item, with the feed url and channel title |
| NewsParser.ParseFeed | app/main.py:76-81 | a truthy classification selects the HTML parser, and anything else selects the XML parser |
| NewsParser.RegularLimitIsPrefix | rss_parser/news_parser/news_parser.py:126-128 | when the unlimited XML parse succeeds, any limited parse succeeds too and returns a prefix of it |
| NewsParser.NonXmlLimitIsPrefix | rss_parser/news_parser/news_parser.py:91-93 | the same for the HTML parser |
| NewsParser.GetRssHeader | app/rss_parser/news_parser/news_parser.py:111-114 | the channel title, raising exactly when it is missing |
| ArticleCache.CheckNewsInTable | rss_parser/caching/caching.py:146-159 | true exactly when some row, from any source, has the title |
| ArticleCache.InsertIntoTableCachedNews | rss_parser/caching/caching.py:161-195 | existing rows are never changed or removed; title uniqueness is preserved, including between duplicates within one batch; every added row is the nine-column binding of a batch record with its date key |
| ArticleCache.InsertCoversBatch | rss_parser/caching/caching.py:169-191 | after a batch whose dates all parse and whose records all bind, every title of the batch is in the table |
| ArticleCache.InsertIdempotent | rss_parser/caching/caching.py:178-191 | inserting a batch into the table its first insertion produced changes nothing, and ends the same way |
| ArticleCache.InsertStopsAtTypeError | rss_parser/caching/caching.py:168-195 | a `TypeError` at record `k` gives the outcome of inserting only the records before `k`, whose rows stay |
| ArticleCache.LimitSlice | rss_parser/caching/caching.py:93-96 | the result is a prefix of the matches: all of them for a falsy limit, and the first `limit` of them for a positive limit |
| ArticleCache.Retrieve | rss_parser/caching/caching.py:91-99 | an empty match raises `NewsNotFoundError`; otherwise the matches are cut to the limit |
| ArticleCache.ReadTableByPubdate | rss_parser/caching/caching.py:76-99 | raises exactly when no row has the date key; otherwise returns a prefix, in table order, of the rows with that key: all of them when the limit is falsy, and exactly the first `min(limit, n)` of the `n` matches for a positive limit |
| ArticleCache.ReadTableByPubdateSource | rss_parser/caching/caching.py:101-125 | the same, with the row's url also required to equal the source |
| ArticleCache.LimitedDateQueryIsPrefix | rss_parser/caching/caching.py:93-99 | any limit fails exactly when the unlimited date query fails, and returns a prefix of its rows |
| ArticleCache.LimitedSourceQueryIsPrefix | rss_parser/caching/caching.py:119-125 | the same for the date-and-source query |
| ArticleCache.SourceQueryRefinesDateQuery | rss_parser/caching/caching.py:112-115 | every row the date-and-source query returns, the date query returns too |
| Crud.Limit | app/crud/crud.py:166 | `.limit(None)` keeps every row; otherwise the result is the prefix of length `min(limit, n)` |
| Crud.CreateRssEntry | app/crud/crud.py:11-24 | the source is appended under a fresh key with no duplicate-url check; news are untouched; validity is preserved |
| Seqs.FirstIndex | app/crud/crud.py:61 | `.first()`: the position of the first element passing the test, none exactly when no element passes, and no earlier element passes |
| Crud.FirstSourceWithUrl | app/crud/crud.py:61 | the index of the first source with the url, or none when no source has it |
| Crud.GetRssSourceByUrl | app/crud/crud.py:54-61 | `.first()`: none exactly when no source has the url, otherwise a stored source with that url |
| Crud.FirstSourceWithId | app/crud/crud.py:71 | an index holding the key, or none exactly when no source has it |
| Crud.GetRssSourceById | app/crud/crud.py:64-71 | none exactly when the key is unknown, otherwise the stored source with that key |
| Crud.DeleteRssSource | app/crud/crud.py:42-51 | fails exactly on an unknown key; otherwise removes that source, keeps every other source, and removes exactly the news rows of that source (each other row keeps its count); validity is preserved |
| Crud.DeleteKeepsValid | app/models/models.py:17 | after the cascade the keys stay unique and bounded, the foreign key holds, and the deleted key is gone |
| Crud.RemoveSourceKeepsKeys | app/crud/crud.py:49-51 | removing one source keeps the source keys unique and bounded, and removes its key |
| Crud.FilterNewsKeepsKeys | app/models/models.py:17 | dropping a source's news keeps the news keys unique and bounded, and no remaining row points at that source |
| Crud.DeleteKeepsForeignKeys | app/models/models.py:17 | every remaining news row points at a remaining source |
| Crud.CreateNewsEntry | app/crud/crud.py:83-95 | succeeds exactly for a record without a `url` column whose source exists; the appended row carries the source key and the record's header, title, description, date, date key, link, image link and image location; its id is new and validity is preserved |
| Crud.FirstNewsWithTitle | app/crud/crud.py:105 | an index holding the title, or none exactly when no row has it |
| Crud.GetNewsByTitle | app/crud/crud.py:98-105 | none exactly when no row, from any source, has the title |
| Crud.GetAllNews | app/crud/crud.py:159-166 | a prefix of the rows: all of them without a limit, exactly `min(limit, n)` of them with one |
| Crud.GetNewsByDate | app/crud/crud.py:131-143 | no date means `get_all_news`; otherwise a prefix, in table order, of the rows with that key, of length `min(limit, n)`, all of them without a limit |
| Crud.GetNewsBySourceId | app/crud/crud.py:146-156 | a prefix, in table order, of that source's rows, of length `min(limit, n)`, all of them without a limit |
| Crud.GetNewsByDateSource | app/crud/crud.py:108-128 | no source means `get_news_by_date`; an unknown source url raises `NewsNotFound` and nothing else does; with a known source the result is a prefix, in table order, of that source's rows (narrowed to the date when one is given) of length `min(limit, n)`; an empty result is returned, not raised |
| Crud.DeleteNewsById | app/crud/crud.py:169-177 | exactly the rows with the key disappear; every other row keeps its count; sources are untouched; validity is preserved |
| Crud.DropNewsRow | app/crud/crud.py:176-177 | dropping the rows with one key keeps every other row's count and keeps keys unique |
| ImageCache.CacheFilename | rss_parser/caching/caching_images.py:43 | the file name is between 8 and 23 characters long |
| ImageCache.CacheFilenameShape | rss_parser/caching/caching_images.py:43 | the name is `img_<stem>.png` and has no space; the stem holds exactly the lower-cased non-space characters of the title's first fifteen, each as often as it occurs there |
| ImageCache.CachePath | rss_parser/caching/caching_images.py:44 | a cache path is never the sentinel |
| ImageCache.CacheFilenameExample | rss_parser/caching/caching_images.py:43 | "Breaking: Markets Rally Today" gives `img_breaking:marke.png`, because the cut comes before the spaces are removed |
| ImageCache.TitlePrefixAliases | rss_parser/caching/caching_images.py:42-44 | titles that agree on their first fifteen characters share one cache path |
| ImageCache.DistinctTitlesShareFile | rss_parser/caching/caching_images.py:42-44 | two different headlines that share one cache path |
| ImageCache.SeparatorInTitleNamesSubfolder | rss_parser/caching/caching_images.py:43-44 | a `/` among a title's first fifteen characters ends up in the cache file name, so the path names a file in a sub-folder of the cache directory |
| ImageCache.DownloadImage | rss_parser/caching/caching_images.py:34-58 | the branches: cached (location is the path, nothing written); sentinel link (location is the sentinel, nothing written); `None` link, a failed fetch, or a path whose folder is missing (nothing changes); otherwise the body is written at the path and the location becomes the path; no other field changes |
| ImageCache.DownloadFetchesOnlyWhenMissing | rss_parser/caching/caching_images.py:46-48 | when the file exists or there is no usable link, the outcome depends neither on the fetcher nor on which paths can be opened |
| ImageCache.DownloadKeepsFiles | rss_parser/caching/caching_images.py:46-51 | existing files keep their bytes, and the only new file can be the record's cache path |
| ImageCache.DownloadAll | rss_parser/caching/caching_images.py:83-91 | the download phase keeps every record except its image location, and keeps every existing file |
| ImageCache.DownloadAllOutcomes | rss_parser/caching/caching_images.py:46-57 | each record ends untouched, at the sentinel, or at its cache path whose file then exists |
| ImageCache.DownloadAllRequestsLinks | rss_parser/caching/caching_images.py:46-48 | every URL requested is the link of a record whose cache file was missing when the phase started, and never the sentinel |
| ImageCache.DownloadAllSettles | rss_parser/caching/caching_images.py:46-57 | with a fetcher that always answers and every cache path writable, each record with a link ends at its cache path, whose file exists; any other ends there when the file exists, else at the sentinel (sentinel link) or untouched (`None` link) |
| ImageCache.DownloadAllWithoutFetches | rss_parser/caching/caching_images.py:46-57 | a pass in which no record needs a fetch writes nothing and requests nothing; each record ends at its path if the file exists, else at the sentinel for a sentinel link, else untouched |
| ImageCache.SecondPassRefetchesOnlyMissing | rss_parser/caching/caching_images.py:46-57 | for any fetchers and openers, a second pass over the first pass's output keeps every file, leaves each record whose cache file exists at that file with nothing else changed, and requests only links of records whose cache file is still missing |
| ImageCache.SecondPassFetchesNothing | rss_parser/caching/caching_images.py:46-57 | when the first pass's fetcher always answers and every cache path can be opened, the first pass puts each record with a link at its cache path, and a second pass over its output requests nothing, writes nothing, and keeps every record at its cache file |
| ImageCache.CachedStaysCached | rss_parser/caching/caching_images.py:56-57 | a record whose file exists when the phase starts ends at that file |
| ImageCache.DownloadWithLinkCaches | rss_parser/caching/caching_images.py:47-51 | a record with a link that the fetcher answers and a cache path that can be opened ends at that path, whose file then exists |
| ImageCache.SharedPathSharesImage | rss_parser/caching/caching_images.py:46-57 | two records placed at one path, the earlier one with a link that is answered and a path that can be opened: both end at that path |
| ImageCache.AliasedRecordsShareImage | rss_parser/caching/caching_images.py:43-57 | two articles whose titles share a fifteen-character prefix, the earlier with a link and a writable cache path, end pointing at one file, so the later one shows the earlier one's image |
| ImageCache.ResizeDecision | rss_parser/caching/caching_images.py:70-79 | a new size only for width above 250: width 250, height the floor of `h*250/w`, never above `h`, and 0 exactly when `h*250 < w` |
| ImageCache.ResizeImage | rss_parser/caching/caching_images.py:62-81 | the sentinel, a missing file, an undecodable file, a narrow image and an image whose new height is 0 (which `resize` rejects) are left alone; any other wide image is rewritten at the same path; no other file changes and none appears |
| ImageCache.ResizeSettles | rss_parser/caching/caching_images.py:70-80 | a settled location (at most 250 wide, or new height 0) is left as it is; with a resampler faithful for every positive height, every location is settled after its resize |
| ImageCache.ResizeKeepsOthersSettled | rss_parser/caching/caching_images.py:79-80 | resizing one location keeps every other location settled |
| ImageCache.ResizeAll | rss_parser/caching/caching_images.py:93-101 | the resize phase adds and removes no file, and leaves files outside its locations alone |
| ImageCache.ResizeAllSettles | rss_parser/caching/caching_images.py:93-101 | after the phase every visited location is settled |
| ImageCache.ResizeAllOfSettled | rss_parser/caching/caching_images.py:70-74 | over settled locations the phase changes nothing |
| ImageCache.ResizeAllIdempotent | rss_parser/caching/caching_images.py:93-101 | with a faithful resampler, resizing twice is resizing once |
| ImageCache.Locations | rss_parser/caching/caching_images.py:101 | the resize phase reads every record's image location, in order |
| ImageCache.CacheImages | app/main.py:84-86 | resizing runs after the whole download phase: the records are those the download left, the set of files is the one the download left, and a file no record points at keeps its downloaded bytes |
| Converter.GeneratedName | rss_parser/converters/converter.py:82 | the generated name ends with `.<extension>` and is relative |
| Converter.ResolveTarget | rss_parser/converters/converter.py:81-83 | the written path always ends with `.<extension>`; it is the target itself exactly when the target already ends that way, and otherwise the target joined with the generated name |
| Converter.ResolveTargetIdempotent | rss_parser/converters/converter.py:81-83 | resolving a resolved path changes nothing, whatever the new id |
| Converter.JsonEntryOf | rss_parser/converters/converter.py:40-50 | an element is `{Feed, URL, Article{title, pubdate, description, link, img_link}}`, each field taken from the record |
| Converter.RecordOfEntry | rss_parser/converters/converter.py:40-50 | projecting the record read from an element gives the element back |
| Converter.JsonProjectionRoundTrip | rss_parser/converters/converter.py:40-50 | the projection forgets only the date key and the image location |
| Converter.ConvertToJson | rss_parser/converters/converter.py:31-56 | one element per record, in order; it raises `KeyError('url')` exactly when some record has no `url` key |
| Converter.WebJsonAlwaysRaises | app/rss_parser/converters/converter.py:29-33 | on the web application's records, the projection raises for every non-empty list |
| Converter.ConvertToJsonFromFeed | app/rss_parser/converters/converter.py:29-43 | one element per record, in order, each with the feed's url; reading an element back gives its record with the feed's url, and only the date key and image location dropped |
| Converter.FromFeedAgreesOnCliRecords | rss_parser/converters/converter.py:38-51 | on the command-line reader's records, the corrected projection equals `convert_to_json` |
| Converter.PageName | rss_parser/converters/converter.py:154 | a page file name has the form `book_page_<i>.xhtml` |
| Converter.PageNumber | rss_parser/converters/converter.py:154 | a number is read only from a name with the page form |
| Converter.PageNameRoundTrip | rss_parser/converters/converter.py:154 | a page's number reads back from its file name |
| Converter.PageImage | rss_parser/converters/converter.py:159-165 | the page shows the file at the record's image location, or the placeholder when the location is the sentinel; a missing file is reported by its path |
| Converter.BuildPages | rss_parser/converters/converter.py:148-171 | fails exactly when some page fails, with the exception of the first failing page, where a page fails on its template step first and on a missing image second; otherwise page `i` carries record `i`'s title, the name `book_page_<i>.xhtml`, and the uid and file `image<i>` holding its image |
| Converter.Toc | rss_parser/converters/converter.py:174-178 | the table has `2n` entries: `Section(title)` and then the page, for each page in order |
| Converter.TocSectionsAreTitles | rss_parser/converters/converter.py:174-178 | the table's sections, read in order, are the page titles |
| Converter.Spine | rss_parser/converters/converter.py:145-173 | the spine is `cover`, `nav`, then each page in order: `2 + n` entries |
| Converter.PageNamesDistinct | rss_parser/converters/converter.py:148-154 | pages numbered from zero have pairwise distinct file names |
| Converter.ErrorPolicies | rss_parser/converters/converter.py:84-124 | a missing file leaves every converter; an unexpected exception leaves HTML but is swallowed by PDF and EPUB; whatever HTML swallows, the others swallow too |
| Converter.Finish | rss_parser/converters/converter.py:84-124 | the first step that raises decides: a file is saved exactly when the steps before `open`, `open` itself and the write all succeed; a failure is reported exactly when the policy swallows it, and otherwise raised; a failure leaves the file at the path behind exactly when `open` had already succeeded |
| Converter.ConvertToHtml | rss_parser/converters/converter.py:74-100 | a file is saved at the resolved `.html` path, holding the rendered text, exactly when the template lookup, `open` and rendering all succeed; the converter raises exactly on an exception outside `TypeError`, `AttributeError` and `TemplateNotFound`; a failing template lookup or `open` leaves no file, while a rendering exception, swallowed or not, leaves the opened file at the resolved path behind |
| Converter.SwallowedRenderLeavesEmptyFile | rss_parser/converters/converter.py:84-94 | a rendering `TypeError` or `AttributeError` is only printed, yet the target opened with `w+` is left behind, created or emptied |
| Converter.ConvertToPdf | rss_parser/converters/converter.py:104-124 | a file is saved at the resolved `.pdf` path, holding what `pisa.CreatePDF` makes of the rendered text, exactly when rendering, `open` and `CreatePDF` all succeed; the converter raises exactly on `FileNotFoundError`; a failure before or at `open` leaves no file, while an exception of `CreatePDF` leaves the opened file behind |
| Converter.ConvertToEpub | rss_parser/converters/converter.py:128-189 | a missing cover raises `FileNotFoundError`; otherwise the first failing page decides: its template exception is printed and swallowed unless it is `FileNotFoundError`, and its missing image raises; with every template rendered, any missing image raises; with every page fine the book is saved exactly when writing raises nothing, and then has one page per record with its title and page name, the spine and the table of contents; only `FileNotFoundError` ever leaves the converter |
| Converter.DotlessNameBecomesFolder | app/main.py:119-122 | the web application's path for "reportpdf" is taken by the PDF converter for a folder, not a file |
| Converter.UpdateFileExtensionDotted | app/services/services.py:44-45 | with the dot: the name is kept exactly when it ends with `.<extension>`, and otherwise gets it appended |
| Converter.DottedTargetIsKept | app/rss_parser/converters/converter.py:90-92 | every path built with the dotted rule is written as it is |
| Converter.UpdateFileExtensionDottedIdempotent | app/services/services.py:44-45 | applying the dotted rule twice is applying it once |
| Validators.ReadBody | rss_parser/argument_parser/argument_parser.py:64 | `int()` reads a literal body exactly when it is digits with single underscores between digits |
| Validators.ParseInt | rss_parser/argument_parser/argument_parser.py:64 | `int()` accepts no blank string |
| Validators.ParseIntOfNatToString | rss_parser/argument_parser/argument_parser.py:64 | the decimal rendering of `n` is read as `n` |
| Validators.ParseIntOfNegative | rss_parser/argument_parser/argument_parser.py:64 | a minus sign before a rendering is read as the negative |
| Validators.ParseIntRejectsLetter | rss_parser/argument_parser/argument_parser.py:63-67 | `int('a')` raises `ValueError` |
| Validators.ValidateLimitArgWeb | app/services/validator.py:10-23 | accepts exactly the values `int()` reads as positive, returning that number; a conversion failure and a non-positive value raise the same `NotValidLimitArg` |
| Validators.ValidateLimitArgCli | rss_parser/argument_parser/argument_parser.py:55-73 | `ValueError` exactly when `int()` fails; `NegativeOrZeroLimitArgError` exactly for a value at most 0; otherwise the positive number |
| Validators.LimitValidatorsAgree | app/services/validator.py:16-23 | both validators accept the same values and return the same number |
| Validators.CliLimitTestCases | tests/unit/argument_parser/test_argument_parser.py:7-13 | `'a'` gives `ValueError`; -1 and 0 give `NegativeOrZeroLimitArgError` |
| Validators.PositiveLimitAccepted | rss_parser/argument_parser/argument_parser.py:71-73 | every positive number typed in decimal is accepted as itself by both validators |
| Validators.NegativeLimitRejected | rss_parser/argument_parser/argument_parser.py:68-70 | a typed negative number is rejected as not positive, not as unreadable |
| Validators.ValidateFilename | app/services/validator.py:42-45 | only a missing field is rejected; an empty name passes unchanged |
| Validators.ValidateSource | rss_parser/argument_parser/argument_parser.py:77-97 | 404 gives `PageNotFoundError`, 403 `BlockedRequestError`, a failed request propagates, and any other status passes |
| WebApp.FormLimit | app/main.py:53-59 | no field means no limit; a value the validator rejects gives 418; otherwise the positive number `int()` reads |
| WebApp.InsertAll | app/main.py:96-100 | sources are untouched; existing news rows stay as a prefix; the records shown differ from the parsed ones only in their date key |
| WebApp.InsertAllOutcome | app/main.py:96-100 | every row the loop adds is a parsed record stored under the source with the key `format_pubdate` gives, under a title no earlier row has, no two added rows sharing a title; the loop finishes exactly when every record whose title is neither stored nor earlier in the batch has a parsable date, no `url` column and an existing source; then every such record has a row, and the page shows it with its new key and every other record as parsed |
| WebApp.InsertAllCovers | app/main.py:97-100 | when the loop finishes, every parsed title is stored |
| WebApp.InsertAllKeepsHealthy | app/main.py:97-100 | under an existing source the loop keeps keys, foreign key, title uniqueness and date keys |
| WebApp.InsertAllOfStored | app/main.py:98 | a batch whose titles are all stored inserts nothing |
| WebApp.InsertAllIdempotent | app/main.py:96-100 | running the finished loop again changes nothing |
| WebApp.RegisterSource | app/main.py:88-94 | a source is created only when no source has the url, carrying the channel title, whose absence raises; afterwards the url is known; news are untouched; validity and url uniqueness are preserved |
| WebApp.RegisterSourceKeepsHealthy | app/main.py:89-91 | registration keeps the store's invariants |
| WebApp.SourceIdOf | app/main.py:94 | the key looked up after registration belongs to an existing source |
| WebApp.IngestFeed | app/main.py:61-100 | offline, or a feed request that fails to connect, gives 418 "no connection"; a missing url or any other failed request gives 418 "not valid"; a page without `<rss>` gives 418; each of these changes nothing; otherwise news and sources only grow, by at most one source, and success leaves the url registered |
| WebApp.StoreFeed | app/main.py:83-100 | every failure is an uncaught exception; news and sources only grow, by at most one source; success registers the url and shows one record per parsed one |
| WebApp.QueryNews | app/main.py:102-113 | 404 exactly when the query raises or is empty; otherwise the query's rows, which are stored and match the date |
| WebApp.Exports | app/main.py:115-150 | at most one file per requested export; a refusal is 418 naming a format whose box is ticked and whose filename is missing, and without any reply every ticked box had a filename; every target written is the target path of a ticked box's filename and format |
| WebApp.ReadRssSource | app/main.py:40-154 | an invalid limit gives 418 before anything else; without a date the outcome is the fetch branch's: its refusal or exception as the reply, else the exports and a page listing exactly the records the fetch returned; with a date the query runs on the store after any fetch, its 404 is the reply, else the exports and a page listing exactly its rows; a non-empty date never changes the store |
| WebApp.StoreFeedKeepsHealthy | app/main.py:83-100 | storing parsed records keeps the store's invariants |
| WebApp.IngestFeedKeepsHealthy | app/main.py:61-100 | the fetch branch keeps the store's invariants |
| WebApp.StoreFeedStoresShown | app/main.py:88-100 | after storing, every record the page shows has its title stored |
| WebApp.IngestFeedStoresShown | app/main.py:76-100 | after the fetch branch, every record the page shows has its title stored |
| WebApp.StoreFeedTwice | app/main.py:88-100 | storing the same parsed records again succeeds and stores nothing new |
| WebApp.IngestFeedTwice | app/main.py:62-100 | fetching the same feed again succeeds and stores nothing new |
| WebApp.ReadRssSourceKeepsHealthy | app/main.py:40-154 | whatever the form holds, the handler keeps the store's invariants |
| WebApp.ReadRssSourceStoresShown | app/main.py:76-100 | a page of freshly fetched news shows only news that are now stored |
| WebApp.ReadRssSourceTwice | app/main.py:40-100 | submitting the same fetch form twice stores nothing beyond the first submission |
| WebApp.EmptyDateNeverRenders | app/main.py:62-113 | an empty date runs the fetch branch and then queries for the empty key, which no stored row has, so no page is shown |
| WebApp.QueryWithAbsentKey | app/main.py:103-113 | a date key no row has is answered with 404, whatever the source and the limit |
| WebApp.SourceChoice | app/main.py:172-173 | the menu value `"all"` means no source, and any other value is kept |
| WebApp.ReadCacheApi | app/main.py:190-213 | an invalid limit gives 418; otherwise the reply is the shared query's for that date, source and limit: a non-empty list of stored rows matching the date and the source's key, at most `limit` long, or 404 |
| WebApp.ReadCacheForm | app/main.py:157-187 | the same as the JSON handler, with `"all"` read as no source |
| WebApp.ReadCacheEverySource | app/main.py:171-184 | asking every source for a date without a limit lists every stored row with that key, and is 404 exactly when there is none |
| WebApp.AllNews | app/main.py:216-223 | every row, or 404 exactly when there is none |
| WebApp.NewsOn | app/main.py:226-235 | exactly the rows with the date key, or 404 exactly when there is none |
| WebApp.DeleteNews | app/main.py:238-248 | the page lists exactly the rows without the key; an unknown key deletes nothing and is not an error |
| WebApp.DeleteNewsKeepsHealthy | app/main.py:238-243 | deleting a news row keeps the store's invariants |
| WebApp.AllSources | app/main.py:251-258 | every source, or 404 exactly when there is none |
| WebApp.CreateRssSource | app/main.py:261-269 | a known url leaves the store unchanged; otherwise the source is appended with the given header; either way the url is then known and the invariants hold |
| WebApp.CreateRssSourceIdempotent | app/main.py:265-267 | creating the same source twice is creating it once, whatever header the second request carries |
| WebApp.DeleteRssSourceById | app/main.py:272-280 | 404 exactly for an unknown key; otherwise exactly the news of other sources remain, every other source remains, and the key is gone |
| WebApp.DeleteRssSourceKeepsHealthy | app/main.py:275-277 | deleting a source keeps the store's invariants |

## Left out

- HTTP is modelled by its outcome:
  - `request_url` is not modelled;
  - the `requests.get` calls are an `Option` result (a page, bytes, or a status); the web handler's feed request is a `FeedResponse`, which also says whether a failed request could not connect;
  - `check_internet_connection` is the `online` flag of the web handler's environment;
  - `validate_source` receives the status, or `None` when the request raised.
- BeautifulSoup parsing is not modelled: every parser starts from a `Document` whose fields say which child elements exist.
- One response per request: the web handler's environment holds one `feed` response for every request of the form's url. The source fetches that url separately for the feed check, the classifier, the parser and `get_rss_header`; the model takes the feed not to change between those requests.
- dateutil's `parser.parse` is an oracle that returns a calendar date or raises. `strftime("%Y%m%d")` is modelled with a four-digit year.
- PIL decoding and LANCZOS resampling are oracles (`Decoder`, `Resampler`). Whether `open(path, 'wb')` finds the folder is an oracle too (`Opener`): the filesystem map holds files only, not folders.
- ImageCache.ResizeDecision: the height is the exact floor of `h*250/w`. The source computes it in floating point (caching_images.py:76-77), which can differ by one for some sizes.
- Thread pools: both image phases run in list order, as sequential folds. An exception inside a pool task, which nobody reads, leaves that task's record and file as they were. With concurrent tasks, two records that share a cache file could both fetch; the fold has the earlier one fetch and the later one find the file.
- Rendering libraries are outcomes:
  - Jinja templates, xhtml2pdf and ebooklib's zip writing are inputs (`template`, `render`, `html`, `create`, `write`), and so is whether `open` can open the target for writing (`open`);
  - the JSON text layout of `json.dumps` is not modelled;
  - uuid4 is the `id` parameter.
- Converter.ConvertToJson: the `colorize` flag is not modelled. It only re-highlights the same dump with pygments.
- Converter.ConvertToEpub: `epub.write_epub` opens and zips the target inside the library, so whether a failure there leaves a partial file behind is not modelled; its outcome carries no left-behind file.
- Converter.ConvertToPdf: what `pisa.CreatePDF` had already written into the opened file before an exception is not modelled; the model says only that the file is left behind.
- Text.Lower: only 'A'..'Z' are folded; Python's `lower()` folds every cased Unicode letter.
- Text.Strip: whitespace is the set `str.isspace()` recognises in the first 256 code points; wider Unicode spaces are kept.
- Validators.ParseInt: its own contract says only that a blank string is rejected. What `int()` accepts is stated by `ReadBody` and by the lemmas on decimal renderings. Non-ASCII digits are not accepted. Python values other than strings and integers (floats, booleans) are not modelled.
- Database plumbing:
  - the sqlite connection and its singleton are not modelled;
  - `create_table_cached_news`, `drop_table_cached_news` and `read_all_table_cached_news` are setup and test helpers;
  - SQLAlchemy sessions, `get_db`, `create_database` and the pydantic schemas are not modelled.
  - Rows are returned in insertion order.
- `create_rss` (app/crud/crud.py:27-39) is not modelled: no handler calls it.
- `get_all_rss_sources` is read directly as the source sequence in WebApp.AllSources.
- `object_as_dict` (app/services/services.py:63-69) is not modelled. It only converts stored rows before the EPUB export, and the handler model takes export outcomes as an input.
- WebApp.Exports: each converter's own outcome is reduced to whether it raises at the target (`exportRaises`). What it writes is modelled by the `Converter` members.
- Form fields are taken as they reach the handler. FastAPI's own conversions are not modelled: the integer typing of `limit_arg_cache` and of `limit_arg` in the JSON handler, and its treatment of empty fields.
- News and source keys are natural numbers. A negative key in a URL matches no row, which the model expresses as an unknown key.
- The start page (app/main.py:33-37) is not modelled. Neither are `create_arg_parser`, the command-line orchestration in rss_parser/rss_reader.py, `pretty_print_out` and logging.

## Findings

| source | as written | input that shows it | evidently intended | confidence | as-written member | corrected member |
|---|---|---|---|---|---|---|
| app/rss_parser/converters/converter.py:33 | every element reads `news['url']`, a key the web application's records never have | any non-empty list of records from the web application's parsers | take `"URL"` from the feed the records came from | not executed | Converter.ConvertToJson, Converter.WebJsonAlwaysRaises | Converter.ConvertToJsonFromFeed, Converter.FromFeedAgreesOnCliRecords |
| app/services/services.py:44 | the extension test is `endswith(extension)`, with no dot | filename "reportpdf" with extension "pdf": the name is kept, so `convert_to_pdf` takes `<folder>/reportpdf` for a folder and targets `<folder>/reportpdf/rss_feed_<id>.pdf`, whose `open` raises `FileNotFoundError` (a 500) unless that folder exists | append unless the name ends with `"." + extension` | not executed | Services.CreateTargetPath, Converter.DotlessNameBecomesFolder | Converter.UpdateFileExtensionDotted, Converter.DottedTargetIsKept |

No handler calls the web application's `convert_to_json`, so the first finding changes no handler. `WebApp.Exports` keeps the extension test as written, because that is the path the handler hands to the converters. The corrected rule, with `DottedTargetIsKept`, shows that every target the handler builds would then be written as it is.
