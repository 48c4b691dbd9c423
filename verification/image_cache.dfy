/** The image cache of both readers: a download phase that gives every
    article a local image file named after its title, then a resize phase
    over the resulting locations. The filesystem is a map from path to
    bytes; the HTTP fetch, the image decoder and the resampler are oracles.
    The thread pools of the source are modelled as sequential maps, in list
    order, and an exception inside a pool task (which nobody reads) leaves
    that task's record and file untouched. */
module ImageCache {
  import opened Wrappers
  import opened Text
  import opened Seqs
  import opened Paths
  import opened Feed
  import opened Files

  /** A GET of a URL: the response body, or `None` when the request raised. */
  type Fetcher = string -> Option<Bytes>

  /** `Image.open(...).size` of a file's bytes, `None` when it cannot be
      decoded. */
  type Decoder = Bytes -> Option<(nat, nat)>

  /** `image.resize((width, height))` followed by `save`: the new bytes. */
  type Resampler = (Bytes, nat, nat) -> Bytes

  /** Characters of the title the file name keeps. */
  const TITLE_PREFIX: nat := 15

  /** The widest image the HTML template takes. */
  const MAX_WIDTH: nat := 250

  // ---------------------------------------------------------------- file names

  /** The cache file name of a title: `"img_"`, then the first fifteen
      characters lower-cased with their spaces removed, then `".png"`. The
      cut comes before the spaces are removed. */
  function CacheFilename(title: string): (r: string)
    ensures 8 <= |r| <= 4 + TITLE_PREFIX + 4
  {
    "img_" + RemoveSpaces(Lower(Take(title, TITLE_PREFIX))) + ".png"
  }

  /** The name is `img_<stem>.png`, has no spaces, and its stem holds the
      lower-cased non-space characters of the title's first fifteen. */
  lemma CacheFilenameShape(title: string)
    ensures var r := CacheFilename(title);
            && StartsWith(r, "img_") && EndsWith(r, ".png")
            && ' ' !in r
            && forall c :: c != ' ' ==> multiset(r[4..|r| - 4])[c] == multiset(Lower(Take(title, TITLE_PREFIX)))[c]
  {
    var stem := RemoveSpaces(Lower(Take(title, TITLE_PREFIX)));
    var r := CacheFilename(title);
    assert r[4..|r| - 4] == stem;
    assert r[..4] == "img_";
    EndsWithConcat("img_" + stem, ".png");
    RemoveSpacesKeepsOthers(Lower(Take(title, TITLE_PREFIX)));
    forall i | 0 <= i < |r| ensures r[i] != ' ' {
      if 4 <= i < 4 + |stem| { assert r[i] == stem[i - 4]; }
    }
  }

  /** The cache path of a title under the cache directory. It is never the
      sentinel, since it ends in `.png`. */
  function CachePath(dir: string, title: string): (r: string)
    ensures r != EMPTY
  {
    var r := Join(dir, CacheFilename(title));
    CacheFilenameShape(title);
    EndsWithTransitive(r, CacheFilename(title), ".png");
    assert !EndsWith(EMPTY, ".png") by { assert EMPTY[|EMPTY| - 4..] != ".png"; }
    r
  }

  /** The worked example: the cut falls inside "Markets", before the
      spaces go, so the name keeps only "marke". */
  lemma CacheFilenameExample()
    ensures CacheFilename("Breaking: Markets Rally Today") == "img_breaking:marke.png"
  {
    assert Take("Breaking: Markets Rally Today", TITLE_PREFIX) == "Breaking: Marke";
    assert Lower("Breaking: Marke") == "breaking:" + " " + "marke";
    RemoveSpacesBetween("breaking:", "marke");
  }

  /** Titles that agree on their first fifteen characters share one cache
      file, whatever follows. */
  lemma TitlePrefixAliases(a: string, b: string, dir: string)
    requires Take(a, TITLE_PREFIX) == Take(b, TITLE_PREFIX)
    ensures CachePath(dir, a) == CachePath(dir, b)
  {
  }

  /** Two distinct titles that share a cache file. */
  lemma DistinctTitlesShareFile(dir: string)
    ensures CachePath(dir, "Breaking: Markets Rally Today") == CachePath(dir, "Breaking: Markets Fall Again")
  {
    assert Take("Breaking: Markets Rally Today", TITLE_PREFIX) == "Breaking: Marke";
    assert Take("Breaking: Markets Fall Again", TITLE_PREFIX) == "Breaking: Marke";
  }

  // ---------------------------------------------------------------- download

  /** A title whose first fifteen characters hold a `/` gives a cache file
      name with a `/` in it, so the path names a file inside a sub-folder of
      the cache directory, which the reader never creates. */
  lemma SeparatorInTitleNamesSubfolder(title: string)
    requires SEP in Take(title, TITLE_PREFIX)
    ensures SEP in CacheFilename(title)
  {
    var cut := Take(title, TITLE_PREFIX);
    var k :| 0 <= k < |cut| && cut[k] == SEP;
    assert Lower(cut)[k] == SEP;
    assert multiset(Lower(cut))[SEP] > 0;
    RemoveSpacesKeepsOthers(Lower(cut));
    var stem := RemoveSpaces(Lower(cut));
    assert SEP in multiset(stem);
    assert CacheFilename(title) == "img_" + stem + ".png";
  }

  /** Where the download phase stores a record's image. The phase is stated
      for any placement; the readers use `Layout`. */
  type Placement = News -> string

  /** The readers' placement: the cache path of the record's title. */
  function Layout(dir: string): Placement {
    (n: News) => CachePath(dir, n.title)
  }

  /** Whether `open(path, 'wb')` succeeds. It fails with
      `FileNotFoundError` when the folder the path names does not exist,
      as for the paths `SeparatorInTitleNamesSubfolder` describes. */
  type Opener = string -> bool

  /** The record has an image address to request: a link that is neither
      Python's `None` nor the sentinel. */
  predicate HasLink(news: News) {
    news.imgLink.Some? && news.imgLink.value != EMPTY
  }

  /** `download_image` with the record's image stored at `at(news)`. The
      cached branch and the sentinel branch set the location without
      touching the filesystem; otherwise the fetched body is written there.
      A `None` link makes `requests.get` raise before any request is sent;
      that, a fetch that raises, and a file that cannot be opened each end
      the task with nothing changed. */
  function DownloadImage(fs: FileSystem, at: Placement, news: News, fetch: Fetcher, opens: Opener)
    : (r: (FileSystem, News))
    ensures r.1 == news.(imgLocation := r.1.imgLocation)
    ensures at(news) in fs ==>
              r.0 == fs && r.1.imgLocation == at(news)
    ensures at(news) !in fs && news.imgLink == Some(EMPTY) ==>
              r.0 == fs && r.1.imgLocation == EMPTY
    ensures at(news) !in fs && news.imgLink.None? ==> r == (fs, news)
    ensures at(news) !in fs && HasLink(news) ==>
              match fetch(news.imgLink.value)
              case None => r == (fs, news)
              case Some(body) =>
                if opens(at(news)) then r.0 == fs[at(news) := body] && r.1.imgLocation == at(news)
                else r == (fs, news)
  {
    var path := at(news);
    if path !in fs then
      match news.imgLink
      case None => (fs, news)
      case Some(link) =>
        if link != EMPTY then
          match fetch(link)
          case None => (fs, news)
          case Some(body) => if opens(path) then (fs[path := body], news.(imgLocation := path)) else (fs, news)
        else (fs, news.(imgLocation := EMPTY))
    else (fs, news.(imgLocation := path))
  }

  /** Whether `download_image` would call the fetcher for this record. */
  predicate Fetches(fs: FileSystem, at: Placement, news: News) {
    at(news) !in fs && HasLink(news)
  }

  /** The fetcher and the opener are consulted only when the record
      `Fetches`: otherwise any two of each give the same outcome. */
  lemma DownloadFetchesOnlyWhenMissing(fs: FileSystem, at: Placement, news: News,
                                       f: Fetcher, g: Fetcher, o: Opener, o': Opener)
    requires !Fetches(fs, at, news)
    ensures DownloadImage(fs, at, news, f, o) == DownloadImage(fs, at, news, g, o')
  {
  }

  /** The files already present keep their bytes, and a new file can only
      appear at this record's cache path. */
  lemma DownloadKeepsFiles(fs: FileSystem, at: Placement, news: News, fetch: Fetcher, opens: Opener)
    ensures forall p :: p in fs ==> p in DownloadImage(fs, at, news, fetch, opens).0
                                    && DownloadImage(fs, at, news, fetch, opens).0[p] == fs[p]
    ensures DownloadImage(fs, at, news, fetch, opens).0.Keys <= fs.Keys + {at(news)}
  {
  }

  /** The download phase: `download_image` on each record in list order,
      threading the filesystem. The third component is the sequence of
      URLs requested, in order. */
  function DownloadAll(fs: FileSystem, at: Placement, batch: seq<News>, fetch: Fetcher, opens: Opener)
    : (r: (FileSystem, seq<News>, seq<string>))
    ensures |r.1| == |batch|
    ensures forall i {:trigger r.1[i]} :: 0 <= i < |batch| ==> r.1[i] == batch[i].(imgLocation := r.1[i].imgLocation)
    ensures forall p :: p in fs ==> p in r.0 && r.0[p] == fs[p]
    decreases |batch|
  {
    if batch == [] then (fs, [], [])
    else
      var news := batch[0];
      var step := DownloadImage(fs, at, news, fetch, opens);
      var asked := if Fetches(fs, at, news) then [news.imgLink.value] else [];
      var rest := DownloadAll(step.0, at, batch[1..], fetch, opens);
      var out := [step.1] + rest.1;
      assert forall i :: 1 <= i < |batch| ==> out[i] == rest.1[i - 1] && batch[i] == batch[1..][i - 1];
      (rest.0, out, asked + rest.2)
  }

  /** Each record ends in one of the three places `download_image` can
      leave it: untouched (its task raised), the sentinel, or its cache
      path, whose file then exists. */
  lemma {:induction false} DownloadAllOutcomes(fs: FileSystem, at: Placement, batch: seq<News>,
                                               fetch: Fetcher, opens: Opener)
    ensures var r := DownloadAll(fs, at, batch, fetch, opens);
            forall i :: 0 <= i < |batch| ==>
              || r.1[i] == batch[i]
              || r.1[i].imgLocation == EMPTY
              || (r.1[i].imgLocation == at(batch[i]) && r.1[i].imgLocation in r.0)
    decreases |batch|
  {
    if batch != [] {
      var step := DownloadImage(fs, at, batch[0], fetch, opens);
      var r := DownloadAll(fs, at, batch, fetch, opens);
      var rest := DownloadAll(step.0, at, batch[1..], fetch, opens);
      DownloadAllOutcomes(step.0, at, batch[1..], fetch, opens);
      assert r.0 == rest.0 && r.1 == [step.1] + rest.1;
      forall i | 0 <= i < |batch|
        ensures || r.1[i] == batch[i]
                || r.1[i].imgLocation == EMPTY
                || (r.1[i].imgLocation == at(batch[i]) && r.1[i].imgLocation in r.0)
      {
        if i > 0 {
          assert r.1[i] == rest.1[i - 1] && batch[i] == batch[1..][i - 1];
        }
      }
    }
  }

  /** Every URL the phase requests is the link of one of its records whose
      cache file was missing when the phase started; never the sentinel. */
  lemma {:induction false} DownloadAllRequestsLinks(fs: FileSystem, at: Placement, batch: seq<News>,
                                                    fetch: Fetcher, opens: Opener)
    ensures forall u :: u in DownloadAll(fs, at, batch, fetch, opens).2 ==>
              u != EMPTY && exists i :: 0 <= i < |batch| && Fetches(fs, at, batch[i]) && batch[i].imgLink == Some(u)
    decreases |batch|
  {
    if batch != [] {
      var step := DownloadImage(fs, at, batch[0], fetch, opens);
      DownloadAllRequestsLinks(step.0, at, batch[1..], fetch, opens);
      DownloadKeepsFiles(fs, at, batch[0], fetch, opens);
      var log := DownloadAll(step.0, at, batch[1..], fetch, opens).2;
      assert DownloadAll(fs, at, batch, fetch, opens).2
          == (if Fetches(fs, at, batch[0]) then [batch[0].imgLink.value] else []) + log;
      forall u | u in log
        ensures exists i :: 0 <= i < |batch| && Fetches(fs, at, batch[i]) && batch[i].imgLink == Some(u)
      {
        var i :| 0 <= i < |batch[1..]| && Fetches(step.0, at, batch[1..][i]) && batch[1..][i].imgLink == Some(u);
        assert batch[i + 1] == batch[1..][i];
      }
    }
  }

  /** A fetcher that answers every request. */
  ghost predicate AlwaysAnswers(fetch: Fetcher) {
    forall u :: fetch(u).Some?
  }

  /** With a fetcher that always answers and every cache path writable, the
      phase leaves every record with a link at its cache path, whose file
      then exists. A record without one ends there too when the file exists,
      else at the sentinel (sentinel link) or untouched (`None` link). */
  lemma {:induction false} DownloadAllSettles(fs: FileSystem, at: Placement, batch: seq<News>,
                                              fetch: Fetcher, opens: Opener)
    requires AlwaysAnswers(fetch)
    requires forall i :: 0 <= i < |batch| ==> opens(at(batch[i]))
    ensures var (fs', out, _) := DownloadAll(fs, at, batch, fetch, opens);
            forall i :: 0 <= i < |batch| ==>
              && (HasLink(batch[i]) ==> out[i].imgLocation == at(batch[i]) && at(batch[i]) in fs')
              && (|| (out[i].imgLocation == at(batch[i]) && at(batch[i]) in fs')
                  || (out[i].imgLocation == EMPTY && batch[i].imgLink == Some(EMPTY))
                  || (out[i] == batch[i] && batch[i].imgLink.None?))
    decreases |batch|
  {
    if batch != [] {
      var news := batch[0];
      var (fs1, news1) := DownloadImage(fs, at, news, fetch, opens);
      assert HasLink(news) ==> fetch(news.imgLink.value).Some?;
      assert opens(at(news));
      assert forall i :: 1 <= i < |batch| ==> batch[1..][i - 1] == batch[i];
      DownloadAllSettles(fs1, at, batch[1..], fetch, opens);
      var (fs', out, _) := DownloadAll(fs, at, batch, fetch, opens);
      assert out[1..] == DownloadAll(fs1, at, batch[1..], fetch, opens).1;
      assert out[0] == news1;
      forall i | 0 <= i < |batch|
        ensures && (HasLink(batch[i]) ==> out[i].imgLocation == at(batch[i]) && at(batch[i]) in fs')
                && (|| (out[i].imgLocation == at(batch[i]) && at(batch[i]) in fs')
                    || (out[i].imgLocation == EMPTY && batch[i].imgLink == Some(EMPTY))
                    || (out[i] == batch[i] && batch[i].imgLink.None?))
      {
        if i > 0 {
          assert out[i] == out[1..][i - 1];
        }
      }
    }
  }

  /** A pass in which no record `Fetches` changes no file and requests
      nothing. Each record ends at its cache path when that file exists,
      else at the sentinel when its link is the sentinel, else untouched. */
  lemma {:induction false} DownloadAllWithoutFetches(fs: FileSystem, at: Placement, batch: seq<News>,
                                                     fetch: Fetcher, opens: Opener)
    requires forall i :: 0 <= i < |batch| ==> !Fetches(fs, at, batch[i])
    ensures DownloadAll(fs, at, batch, fetch, opens).0 == fs
    ensures DownloadAll(fs, at, batch, fetch, opens).2 == []
    ensures forall i :: 0 <= i < |batch| ==>
              DownloadAll(fs, at, batch, fetch, opens).1[i].imgLocation
                == if at(batch[i]) in fs then at(batch[i])
                   else if batch[i].imgLink == Some(EMPTY) then EMPTY
                   else batch[i].imgLocation
    decreases |batch|
  {
    if batch != [] {
      assert !Fetches(fs, at, batch[0]);
      assert forall i :: 1 <= i < |batch| ==> batch[1..][i - 1] == batch[i];
      DownloadAllWithoutFetches(fs, at, batch[1..], fetch, opens);
      var out := DownloadAll(fs, at, batch, fetch, opens).1;
      assert out[1..] == DownloadAll(fs, at, batch[1..], fetch, opens).1;
      forall i | 1 <= i < |batch|
        ensures out[i].imgLocation
                == if at(batch[i]) in fs then at(batch[i])
                   else if batch[i].imgLink == Some(EMPTY) then EMPTY
                   else batch[i].imgLocation
      {
        assert out[i] == out[1..][i - 1];
      }
    }
  }

  /** Running the download phase again over its own output, whatever either
      pass's fetcher and opener do: every file the first pass left keeps its
      bytes, every record whose cache file the first pass left ends at that
      file with nothing else changed, and the only URLs requested are the
      links of records whose cache file is still missing. */
  lemma SecondPassRefetchesOnlyMissing(fs: FileSystem, dir: string, batch: seq<News>,
                                       f: Fetcher, g: Fetcher, o: Opener, o': Opener)
    ensures var at := Layout(dir);
            var first := DownloadAll(fs, at, batch, f, o);
            var second := DownloadAll(first.0, at, first.1, g, o');
            && (forall p :: p in first.0 ==> p in second.0 && second.0[p] == first.0[p])
            && (forall i :: 0 <= i < |batch| && at(batch[i]) in first.0 ==>
                  second.1[i] == first.1[i].(imgLocation := at(batch[i])))
            && (forall u :: u in second.2 ==>
                  exists i :: 0 <= i < |batch| && at(batch[i]) !in first.0 && HasLink(batch[i])
                              && batch[i].imgLink == Some(u))
  {
    var at := Layout(dir);
    var first := DownloadAll(fs, at, batch, f, o);
    var second := DownloadAll(first.0, at, first.1, g, o');
    forall i | 0 <= i < |batch| && at(batch[i]) in first.0
      ensures second.1[i] == first.1[i].(imgLocation := at(batch[i]))
    {
      assert first.1[i].title == batch[i].title;
      CachedStaysCached(first.0, at, first.1, g, o', i);
    }
    DownloadAllRequestsLinks(first.0, at, first.1, g, o');
    forall u | u in second.2
      ensures exists i :: 0 <= i < |batch| && at(batch[i]) !in first.0 && HasLink(batch[i])
                          && batch[i].imgLink == Some(u)
    {
      var i :| 0 <= i < |first.1| && Fetches(first.0, at, first.1[i]) && first.1[i].imgLink == Some(u);
      assert first.1[i].title == batch[i].title && first.1[i].imgLink == batch[i].imgLink;
    }
  }

  /** After a first pass whose fetches all answered and whose files could
      all be opened, a second pass over its output requests nothing and
      writes nothing, and every record the first pass put at its cache file
      stays there. A record the first pass left at the sentinel can still
      pick up a file that a later record with the same title prefix wrote,
      so the records as a whole need not repeat. */
  lemma SecondPassFetchesNothing(fs: FileSystem, dir: string, batch: seq<News>,
                                 f: Fetcher, g: Fetcher, o: Opener, o': Opener)
    requires AlwaysAnswers(f)
    requires forall i :: 0 <= i < |batch| ==> o(CachePath(dir, batch[i].title))
    ensures var at := Layout(dir);
            var first := DownloadAll(fs, at, batch, f, o);
            var second := DownloadAll(first.0, at, first.1, g, o');
            && second.0 == first.0
            && second.2 == []
            && (forall i :: 0 <= i < |batch| && HasLink(batch[i]) ==> first.1[i].imgLocation == at(batch[i]))
            && forall i :: 0 <= i < |batch| && first.1[i].imgLocation == at(batch[i]) ==> second.1[i] == first.1[i]
  {
    var at := Layout(dir);
    var first := DownloadAll(fs, at, batch, f, o);
    FirstPassLeavesNothingToFetch(fs, dir, batch, f, o);
    DownloadAllWithoutFetches(first.0, at, first.1, g, o');
    var second := DownloadAll(first.0, at, first.1, g, o');
    forall i | 0 <= i < |batch| && first.1[i].imgLocation == at(batch[i]) ensures second.1[i] == first.1[i] {
      var x := first.1[i];
      assert x.title == batch[i].title && x.imgLink == batch[i].imgLink;
      assert second.1[i] == x.(imgLocation := second.1[i].imgLocation);
    }
  }

  /** After a first pass whose fetches all answered and whose files could
      all be opened, no record of its output `Fetches`, and every record
      with a link is at its cache path. */
  lemma FirstPassLeavesNothingToFetch(fs: FileSystem, dir: string, batch: seq<News>, f: Fetcher, o: Opener)
    requires AlwaysAnswers(f)
    requires forall i :: 0 <= i < |batch| ==> o(CachePath(dir, batch[i].title))
    ensures var at := Layout(dir);
            var first := DownloadAll(fs, at, batch, f, o);
            && (forall i :: 0 <= i < |first.1| ==> !Fetches(first.0, at, first.1[i]))
            && (forall i :: 0 <= i < |batch| && HasLink(batch[i]) ==> first.1[i].imgLocation == at(batch[i]))
            && (forall i :: 0 <= i < |batch| && first.1[i].imgLocation == at(batch[i]) ==>
                  at(batch[i]) in first.0 || batch[i].imgLink.None?)
  {
    var at := Layout(dir);
    var first := DownloadAll(fs, at, batch, f, o);
    DownloadAllSettles(fs, at, batch, f, o);
    forall i | 0 <= i < |first.1| ensures !Fetches(first.0, at, first.1[i]) {
      assert first.1[i].title == batch[i].title && first.1[i].imgLink == batch[i].imgLink;
    }
  }

  /** One step of the download phase: the first record, then the rest from
      the filesystem it left. */
  lemma DownloadAllStep(fs: FileSystem, at: Placement, batch: seq<News>, fetch: Fetcher, opens: Opener)
    requires batch != []
    ensures var step := DownloadImage(fs, at, batch[0], fetch, opens);
            var rest := DownloadAll(step.0, at, batch[1..], fetch, opens);
            DownloadAll(fs, at, batch, fetch, opens).0 == rest.0
            && DownloadAll(fs, at, batch, fetch, opens).1 == [step.1] + rest.1
  {
  }

  /** A record whose cache file exists when the phase starts ends at that
      file. */
  lemma {:induction false} CachedStaysCached(fs: FileSystem, at: Placement, batch: seq<News>,
                                             fetch: Fetcher, opens: Opener, k: nat)
    requires k < |batch| && at(batch[k]) in fs
    ensures DownloadAll(fs, at, batch, fetch, opens).1[k].imgLocation == at(batch[k])
    decreases k
  {
    var step := DownloadImage(fs, at, batch[0], fetch, opens);
    var tail := batch[1..];
    var out := DownloadAll(fs, at, batch, fetch, opens).1;
    var rest := DownloadAll(step.0, at, tail, fetch, opens).1;
    DownloadAllStep(fs, at, batch, fetch, opens);
    assert out == [step.1] + rest;
    if k > 0 {
      assert tail[k - 1] == batch[k];
      assert out[k] == rest[k - 1];
      DownloadKeepsFiles(fs, at, batch[0], fetch, opens);
      CachedStaysCached(step.0, at, tail, fetch, opens, k - 1);
    } else {
      assert out[0] == step.1;
    }
  }

  /** A record with a link that the fetcher answers and a cache path that
      can be opened ends at that path, whose file then exists. */
  lemma DownloadWithLinkCaches(fs: FileSystem, at: Placement, news: News, fetch: Fetcher, opens: Opener)
    requires HasLink(news) && fetch(news.imgLink.value).Some? && opens(at(news))
    ensures at(news) in DownloadImage(fs, at, news, fetch, opens).0
    ensures DownloadImage(fs, at, news, fetch, opens).1.imgLocation == at(news)
  {
  }

  /** Two records whose titles share a fifteen-character prefix, the earlier
      one with an image link and a writable cache path: after the phase both
      point at one file, so the later article shows the earlier one's image. */
  lemma AliasedRecordsShareImage(fs: FileSystem, dir: string, batch: seq<News>, fetch: Fetcher, opens: Opener,
                                 i: nat, j: nat)
    requires AlwaysAnswers(fetch)
    requires i < j < |batch|
    requires Take(batch[i].title, TITLE_PREFIX) == Take(batch[j].title, TITLE_PREFIX)
    requires HasLink(batch[i]) && opens(CachePath(dir, batch[i].title))
    ensures DownloadAll(fs, Layout(dir), batch, fetch, opens).1[i].imgLocation == CachePath(dir, batch[i].title)
    ensures DownloadAll(fs, Layout(dir), batch, fetch, opens).1[j].imgLocation == CachePath(dir, batch[i].title)
  {
    TitlePrefixAliases(batch[i].title, batch[j].title, dir);
    assert fetch(batch[i].imgLink.value).Some?;
    SharedPathSharesImage(fs, Layout(dir), batch, fetch, opens, i, j);
  }

  /** The record at a later position ends as the rest of the phase, run
      from the filesystem the first record left, leaves it. */
  lemma DownloadAllAt(fs: FileSystem, at: Placement, batch: seq<News>, fetch: Fetcher, opens: Opener, k: nat)
    requires 0 < k < |batch|
    ensures batch[1..][k - 1] == batch[k]
    ensures DownloadAll(fs, at, batch, fetch, opens).1[k]
         == DownloadAll(DownloadImage(fs, at, batch[0], fetch, opens).0, at, batch[1..], fetch, opens).1[k - 1]
  {
    DownloadAllStep(fs, at, batch, fetch, opens);
  }

  /** The first record of the phase ends as `download_image` leaves it. */
  lemma DownloadAllFirst(fs: FileSystem, at: Placement, batch: seq<News>, fetch: Fetcher, opens: Opener)
    requires batch != []
    ensures DownloadAll(fs, at, batch, fetch, opens).1[0] == DownloadImage(fs, at, batch[0], fetch, opens).1
  {
    DownloadAllStep(fs, at, batch, fetch, opens);
  }

  /** The first record has a link the fetcher answers and a writable cache
      path, and a later one shares that path: the first caches the file and
      the later one finds it. */
  lemma SharedPathWithFirst(fs: FileSystem, at: Placement, batch: seq<News>, fetch: Fetcher, opens: Opener, j: nat)
    requires 0 < j < |batch|
    requires at(batch[0]) == at(batch[j])
    requires HasLink(batch[0]) && fetch(batch[0].imgLink.value).Some? && opens(at(batch[0]))
    ensures DownloadAll(fs, at, batch, fetch, opens).1[0].imgLocation == at(batch[0])
    ensures DownloadAll(fs, at, batch, fetch, opens).1[j].imgLocation == at(batch[0])
  {
    var step := DownloadImage(fs, at, batch[0], fetch, opens);
    DownloadAllFirst(fs, at, batch, fetch, opens);
    DownloadAllAt(fs, at, batch, fetch, opens, j);
    assert at(batch[0]) in step.0;
    CachedStaysCached(step.0, at, batch[1..], fetch, opens, j - 1);
  }

  /** The same for any two records placed at one path, the earlier one
      with a link the fetcher answers and a writable cache path. */
  lemma {:induction false} SharedPathSharesImage(fs: FileSystem, at: Placement, batch: seq<News>, fetch: Fetcher,
                                                 opens: Opener, i: nat, j: nat)
    requires i < j < |batch|
    requires at(batch[i]) == at(batch[j])
    requires HasLink(batch[i]) && fetch(batch[i].imgLink.value).Some? && opens(at(batch[i]))
    ensures DownloadAll(fs, at, batch, fetch, opens).1[i].imgLocation == at(batch[i])
    ensures DownloadAll(fs, at, batch, fetch, opens).1[j].imgLocation == at(batch[i])
    decreases i
  {
    if i == 0 {
      SharedPathWithFirst(fs, at, batch, fetch, opens, j);
    } else {
      var tail := batch[1..];
      assert && at(tail[i - 1]) == at(tail[j - 1])
             && HasLink(tail[i - 1]) && fetch(tail[i - 1].imgLink.value).Some? && opens(at(tail[i - 1])) by {
        assert tail[i - 1] == batch[i] && tail[j - 1] == batch[j];
      }
      SharedPathSharesImage(DownloadImage(fs, at, batch[0], fetch, opens).0, at, tail, fetch, opens, i - 1, j - 1);
      SharedPathShift(fs, at, batch, fetch, opens, i, j);
    }
  }

  /** The step of the induction above: what the rest of the phase leaves at
      the two later positions, the whole phase leaves there. */
  lemma SharedPathShift(fs: FileSystem, at: Placement, batch: seq<News>, fetch: Fetcher, opens: Opener, i: nat, j: nat)
    requires 0 < i < j < |batch|
    requires var rest := DownloadAll(DownloadImage(fs, at, batch[0], fetch, opens).0, at, batch[1..], fetch, opens).1;
             && rest[i - 1].imgLocation == at(batch[1..][i - 1])
             && rest[j - 1].imgLocation == at(batch[1..][i - 1])
    ensures DownloadAll(fs, at, batch, fetch, opens).1[i].imgLocation == at(batch[i])
    ensures DownloadAll(fs, at, batch, fetch, opens).1[j].imgLocation == at(batch[i])
  {
    DownloadAllAt(fs, at, batch, fetch, opens, i);
    DownloadAllAt(fs, at, batch, fetch, opens, j);
  }

  // ---------------------------------------------------------------- resize

  /** The size `resize_image` asks for, or `None` when the image is left as
      it is. The new height is the old one scaled by 250/width, rounded
      down; it is 0 for an image more than 250 times wider than high. */
  function ResizeDecision(width: nat, height: nat): (r: Option<(nat, nat)>)
    ensures r.Some? <==> width > MAX_WIDTH
    ensures r.Some? ==> r.value.0 == MAX_WIDTH < width
    ensures r.Some? ==> r.value.1 <= height
    ensures r.Some? ==> r.value.1 * width <= height * MAX_WIDTH < (r.value.1 + 1) * width
    ensures r.Some? ==> (r.value.1 == 0 <==> height * MAX_WIDTH < width)
  {
    if width > MAX_WIDTH then
      var h := height * MAX_WIDTH / width;
      assert h * width <= height * MAX_WIDTH;
      Some((MAX_WIDTH, h))
    else None
  }

  /** `resize_image` on one location. The sentinel is skipped; a missing or
      undecodable file raises inside the task and changes nothing, and so
      does a new height of 0, which `resize` rejects with `ValueError`; any
      other wide image is rewritten at the same path. */
  function ResizeImage(fs: FileSystem, location: string, decode: Decoder, resample: Resampler): (r: FileSystem)
    ensures r.Keys == fs.Keys
    ensures forall p :: p in fs && p != location ==> r[p] == fs[p]
    ensures location == EMPTY || location !in fs ==> r == fs
    ensures location in fs && location != EMPTY ==>
              match decode(fs[location])
              case None => r == fs
              case Some((w, h)) =>
                match ResizeDecision(w, h)
                case None => r == fs
                case Some((w', h')) =>
                  if h' == 0 then r == fs else r[location] == resample(fs[location], w', h')
  {
    if location == EMPTY || location !in fs then fs
    else
      match decode(fs[location])
      case None => fs
      case Some((w, h)) =>
        match ResizeDecision(w, h)
        case None => fs
        case Some((w', h')) => if h' == 0 then fs else fs[location := resample(fs[location], w', h')]
  }

  /** A location that the resize rule leaves alone: an image at most 250
      wide, or one whose new height would be 0. */
  predicate Settled(fs: FileSystem, location: string, decode: Decoder) {
    location == EMPTY || location !in fs
    || match decode(fs[location])
       case None => true
       case Some((w, h)) => w <= MAX_WIDTH || h * MAX_WIDTH < w
  }

  /** A resampler whose output decodes to the size it was asked for, for
      every size `resize` accepts. */
  ghost predicate Faithful(decode: Decoder, resample: Resampler) {
    forall b: Bytes, w: nat, h: nat :: h > 0 ==> decode(resample(b, w, h)) == Some((w, h))
  }

  /** A settled location is left as it is, and with a faithful resampler
      every location is settled after its resize. */
  lemma ResizeSettles(fs: FileSystem, location: string, decode: Decoder, resample: Resampler)
    ensures Settled(fs, location, decode) ==> ResizeImage(fs, location, decode, resample) == fs
    ensures Faithful(decode, resample) ==> Settled(ResizeImage(fs, location, decode, resample), location, decode)
  {
  }

  /** The resize phase: `resize_image` on each location in order. */
  function ResizeAll(fs: FileSystem, locations: seq<string>, decode: Decoder, resample: Resampler): (r: FileSystem)
    ensures r.Keys == fs.Keys
    ensures forall p :: p in fs && p !in locations ==> r[p] == fs[p]
    decreases |locations|
  {
    if locations == [] then fs
    else ResizeAll(ResizeImage(fs, locations[0], decode, resample), locations[1..], decode, resample)
  }

  /** Resizing one location keeps another location settled. */
  lemma ResizeKeepsOthersSettled(fs: FileSystem, location: string, other: string, decode: Decoder, resample: Resampler)
    requires Faithful(decode, resample)
    requires Settled(fs, other, decode)
    ensures Settled(ResizeImage(fs, location, decode, resample), other, decode)
  {
  }

  /** After the phase every location it visited is settled. */
  lemma {:induction false} ResizeAllSettles(fs: FileSystem, locations: seq<string>, decode: Decoder, resample: Resampler)
    requires Faithful(decode, resample)
    ensures forall i :: 0 <= i < |locations| ==> Settled(ResizeAll(fs, locations, decode, resample), locations[i], decode)
    decreases |locations|
  {
    if locations != [] {
      var fs1 := ResizeImage(fs, locations[0], decode, resample);
      ResizeSettles(fs, locations[0], decode, resample);
      ResizeAllSettles(fs1, locations[1..], decode, resample);
      ResizeAllKeepsSettled(fs1, locations[1..], locations[0], decode, resample);
      forall i | 1 <= i < |locations|
        ensures Settled(ResizeAll(fs, locations, decode, resample), locations[i], decode)
      {
        assert locations[i] == locations[1..][i - 1];
      }
    }
  }

  lemma {:induction false} ResizeAllKeepsSettled(fs: FileSystem, locations: seq<string>, other: string,
                                                 decode: Decoder, resample: Resampler)
    requires Faithful(decode, resample)
    requires Settled(fs, other, decode)
    ensures Settled(ResizeAll(fs, locations, decode, resample), other, decode)
    decreases |locations|
  {
    if locations != [] {
      ResizeKeepsOthersSettled(fs, locations[0], other, decode, resample);
      ResizeAllKeepsSettled(ResizeImage(fs, locations[0], decode, resample), locations[1..], other, decode, resample);
    }
  }

  /** Over settled locations the phase changes nothing. */
  lemma {:induction false} ResizeAllOfSettled(fs: FileSystem, locations: seq<string>, decode: Decoder, resample: Resampler)
    requires forall i :: 0 <= i < |locations| ==> Settled(fs, locations[i], decode)
    ensures ResizeAll(fs, locations, decode, resample) == fs
    decreases |locations|
  {
    if locations != [] {
      ResizeSettles(fs, locations[0], decode, resample);
      assert forall i :: 1 <= i < |locations| ==> locations[1..][i - 1] == locations[i];
      ResizeAllOfSettled(fs, locations[1..], decode, resample);
    }
  }

  /** With a faithful resampler the resize phase is idempotent. */
  lemma ResizeAllIdempotent(fs: FileSystem, locations: seq<string>, decode: Decoder, resample: Resampler)
    requires Faithful(decode, resample)
    ensures ResizeAll(ResizeAll(fs, locations, decode, resample), locations, decode, resample)
         == ResizeAll(fs, locations, decode, resample)
  {
    ResizeAllSettles(fs, locations, decode, resample);
    ResizeAllOfSettled(ResizeAll(fs, locations, decode, resample), locations, decode, resample);
  }

  // ---------------------------------------------------------------- both phases

  /** The locations the resize phase reads: every record's, in order. */
  function Locations(batch: seq<News>): (r: seq<string>)
    ensures |r| == |batch|
    ensures forall i :: 0 <= i < |batch| ==> r[i] == batch[i].imgLocation
  {
    seq(|batch|, i requires 0 <= i < |batch| => batch[i].imgLocation)
  }

  /** Download every image, then resize at the locations the download phase
      left. The resize phase never adds or removes files, so the files are
      those the download phase left, and a file that no record points at
      keeps its downloaded bytes. */
  function CacheImages(fs: FileSystem, dir: string, batch: seq<News>,
                       fetch: Fetcher, opens: Opener, decode: Decoder, resample: Resampler): (r: (FileSystem, seq<News>))
    ensures r.1 == DownloadAll(fs, Layout(dir), batch, fetch, opens).1
    ensures r.0.Keys == DownloadAll(fs, Layout(dir), batch, fetch, opens).0.Keys
    ensures forall p :: p in r.0 && (forall i :: 0 <= i < |r.1| ==> r.1[i].imgLocation != p) ==>
              r.0[p] == DownloadAll(fs, Layout(dir), batch, fetch, opens).0[p]
  {
    var (fs1, out, _) := DownloadAll(fs, Layout(dir), batch, fetch, opens);
    var locations := Locations(out);
    (ResizeAll(fs1, locations, decode, resample), out)
  }
}
