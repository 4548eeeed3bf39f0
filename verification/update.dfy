/**
 * `update_index` and `_update_index_of_comic`: for every comic listed on the frontpage,
 * upsert its `sources` row, then crawl its pages back from the latest one and insert an
 * `images` row for each page newer than the newest date already stored for the comic.
 *
 * The site is given as data: the frontpage listing, the latest-comic URL each comic
 * homepage points at, and the comic pages themselves. The current year, which the date
 * reading needs, is a parameter.
 */
module Update {
  import opened Wrappers
  import opened Strings
  import Dates
  import Index
  import Crawl

  /**
   * `download_comic` in `year`: the date strptime reads from the page, rendered by
   * strftime("%Y-%m-%d"), and the page's image file; `None` when strptime raises.
   */
  function DownloadPage(year: int, p: Crawl.Page): (r: Option<Crawl.Found>)
    ensures r.None? <==> Dates.Normalise(p.dateText, year).None?
    ensures r.Some? ==> r.value.filepath == p.filepath && |r.value.date| == 10
  {
    match Dates.Normalise(p.dateText, year)
    case None => None
    case Some(d) => Some(Crawl.Found(Dates.Format(d), p.filepath))
  }

  /** `download_comic` with the intended year-less parse. */
  function DownloadPageCorrected(year: int, p: Crawl.Page): (r: Option<Crawl.Found>)
    ensures r.None? <==> Dates.NormaliseCorrected(p.dateText, year).None?
    ensures r.Some? ==> r.value.filepath == p.filepath && |r.value.date| == 10
  {
    match Dates.NormaliseCorrected(p.dateText, year)
    case None => None
    case Some(d) => Some(Crawl.Found(Dates.Format(d), p.filepath))
  }

  function Download(year: int): Crawl.Reader {
    p => DownloadPage(year, p)
  }

  function DownloadCorrected(year: int): Crawl.Reader {
    p => DownloadPageCorrected(year, p)
  }

  /** A page is stored under the string of date `d` exactly when its text reads as `d`. */
  lemma DownloadPageDate(year: int, p: Crawl.Page, d: Dates.Date)
    requires Dates.ValidDate(d)
    ensures DownloadPage(year, p) == Some(Crawl.Found(Dates.Format(d), p.filepath)) <==>
              Dates.Normalise(p.dateText, year) == Some(d)
  {
    var n := Dates.Normalise(p.dateText, year);
    if n.Some? {
      Dates.FormatInjective(n.value, d);
    }
  }

  /** What the bot fetches from the web. */
  datatype Site = Site(
    frontpage: seq<Index.Source>,       // `fetch_comics_available()`
    latest: map<string, Crawl.Url>,     // `fetch_comic_url_latest(homepage)`, by homepage
    pages: Crawl.Web)                   // the comic pages the crawl fetches

  /** The exception that ends an update early. */
  datatype Failure =
    | NoHomepage            // no `sources` row for the comic: `requests.get(None)` raises
    | HomepageUnavailable   // the homepage cannot be fetched or has no latest comic
    | PageUnavailable       // a comic page cannot be fetched or parsed
    | BadDate               // strptime rejects a page's date text

  /** How an update ended: normally, with an exception, or never (a cycle of links). */
  datatype Status = Completed | Aborted(failure: Failure) | Diverged

  /** The database after the update, including every row inserted before it ended. */
  datatype Updated = Updated(db: Index.Db, status: Status)

  function StatusOf(h: Crawl.Halt): Status {
    match h
    case CaughtUp => Completed
    case HistoryEnd => Completed
    case PageUnavailable => Aborted(PageUnavailable)
    case BadDate => Aborted(BadDate)
    case Endless => Diverged
  }

  /** The `INSERT INTO images (name, date, filepath)` rows for the crawled pages; file_id stays NULL. */
  function Inserted(name: string, rows: seq<Crawl.Found>): (r: seq<Index.Image>)
    ensures |r| == |rows|
    ensures forall i :: 0 <= i < |rows| ==> r[i] == Index.Image(name, rows[i].date, rows[i].filepath, None)
  {
    seq(|rows|, i requires 0 <= i < |rows| => Index.Image(name, rows[i].date, rows[i].filepath, None))
  }

  /** `_update_index_of_comic(comic)` for the comic called `name`. */
  function UpdateIndexOfComic(db: Index.Db, site: Site, name: string, download: Crawl.Reader): (r: Updated)
    ensures r.db.sources == db.sources && r.db.dailyPosts == db.dailyPosts
    ensures db.images <= r.db.images
    ensures forall i :: |db.images| <= i < |r.db.images| ==>
              r.db.images[i].name == name && r.db.images[i].fileId.None?
    ensures Index.SourceUrl(db.sources, name).None? ==> r == Updated(db, Aborted(NoHomepage))
  {
    var stored := Index.LatestStored(db.images, name);
    match Index.SourceUrl(db.sources, name)
    case None => Updated(db, Aborted(NoHomepage))
    case Some(home) =>
      if home !in site.latest then Updated(db, Aborted(HomepageUnavailable))
      else
        var crawl := Crawl.CrawlComic(site.pages, download, site.latest[home], stored);
        Updated(db.(images := db.images + Inserted(name, crawl.rows)), StatusOf(crawl.halt))
  }

  /** The url of the last entry named `name` in the listing, `None` when there is none. */
  function LastListed(comics: seq<Index.Source>, name: string): (r: Option<string>)
    ensures r.None? <==> forall i :: 0 <= i < |comics| ==> comics[i].name != name
    ensures r.Some? ==> exists i :: (0 <= i < |comics| && comics[i] == Index.Source(name, r.value) &&
              forall j :: i < j < |comics| ==> comics[j].name != name)
    decreases |comics|
  {
    if comics == [] then None
    else
      var later := LastListed(comics[1..], name);
      if later.Some? then later
      else if comics[0].name == name then Some(comics[0].url)
      else None
  }

  /**
   * The loop of `update_index` over the listing: upsert each comic's source, then update
   * its images; the first exception ends the whole update.
   */
  function UpdateComics(db: Index.Db, site: Site, comics: seq<Index.Source>, download: Crawl.Reader): (r: Updated)
    ensures r.db.dailyPosts == db.dailyPosts
    ensures db.images <= r.db.images
    ensures forall i :: |db.images| <= i < |r.db.images| ==> r.db.images[i].fileId.None?
    ensures Index.UniqueNames(db.sources) ==> Index.UniqueNames(r.db.sources)
    ensures r.status != Aborted(NoHomepage)
    ensures r.status == Completed ==> forall n ::
              Index.SourceUrl(r.db.sources, n) ==
                if LastListed(comics, n).Some? then LastListed(comics, n) else Index.SourceUrl(db.sources, n)
    decreases |comics|
  {
    if comics == [] then Updated(db, Completed)
    else
      var c := comics[0];
      var upserted := db.(sources := Index.UpsertSource(db.sources, c.name, c.url));
      var one := UpdateIndexOfComic(upserted, site, c.name, download);
      if one.status != Completed then one
      else
        var r := UpdateComics(one.db, site, comics[1..], download);
        assert forall i :: |db.images| <= i < |r.db.images| ==> r.db.images[i].fileId.None? by {
          forall i | |db.images| <= i < |r.db.images|
            ensures r.db.images[i].fileId.None?
          {
            if i < |one.db.images| {
              assert r.db.images[i] == one.db.images[i];
            }
          }
        }
        r
  }

  /** `update_index()`; creating the tables is a no-op on an existing database. */
  function UpdateIndex(db: Index.Db, site: Site, year: int): (r: Updated)
    ensures r.db.dailyPosts == db.dailyPosts
    ensures db.images <= r.db.images
    ensures Index.UniqueNames(db.sources) ==> Index.UniqueNames(r.db.sources)
    ensures r.status != Aborted(NoHomepage)
  {
    UpdateComics(db, site, site.frontpage, Download(year))
  }

  /** `update_index()` with the intended year-less date parse. */
  function UpdateIndexCorrected(db: Index.Db, site: Site, year: int): (r: Updated)
    ensures r.db.dailyPosts == db.dailyPosts
    ensures db.images <= r.db.images
    ensures Index.UniqueNames(db.sources) ==> Index.UniqueNames(r.db.sources)
    ensures r.status != Aborted(NoHomepage)
  {
    UpdateComics(db, site, site.frontpage, DownloadCorrected(year))
  }

  /**
   * In a leap year, a page dated "29.2." is not read by `download_comic` as written, and is
   * read as 29 February by the intended parse.
   */
  lemma LeapDayPage(year: int, page: Crawl.Page, prefix: string)
    requires 1 <= year <= 9999 && Dates.IsLeap(year)
    requires page.dateText == prefix + " " + "29.2."
    ensures DownloadPage(year, page) == None
    ensures DownloadPageCorrected(year, page) == Some(Crawl.Found(Dates.Format(Dates.Date(year, 2, 29)), page.filepath))
  {
    Dates.LeapDayRejectedAsWritten(prefix, year);
  }

  /**
   * In a leap year, a latest comic dated "29.2." ends the comic's update as written with
   * the ValueError, before anything is inserted.
   */
  lemma LeapDayAbortsUpdate(db: Index.Db, site: Site, name: string, home: string, prefix: string, year: int)
    requires Index.SourceUrl(db.sources, name) == Some(home) && home in site.latest
    requires 1 <= year <= 9999 && Dates.IsLeap(year)
    requires var u := Crawl.Unsplit(Crawl.FirstHref(site.latest[home]));
      u in site.pages && site.pages[u].dateText == prefix + " " + "29.2."
    ensures UpdateIndexOfComic(db, site, name, Download(year)) == Updated(db, Aborted(BadDate))
  {
    var page := site.pages[Crawl.Unsplit(Crawl.FirstHref(site.latest[home]))];
    LeapDayPage(year, page, prefix);
    UnreadHeadAborts(db, site, name, home, Download(year));
  }

  /** A latest comic whose page does not read ends the comic's update with nothing inserted. */
  lemma UnreadHeadAborts(db: Index.Db, site: Site, name: string, home: string, download: Crawl.Reader)
    requires Index.SourceUrl(db.sources, name) == Some(home) && home in site.latest
    requires var u := Crawl.Unsplit(Crawl.FirstHref(site.latest[home]));
      u in site.pages && download(site.pages[u]).None?
    ensures UpdateIndexOfComic(db, site, name, download) == Updated(db, Aborted(BadDate))
  {
    Crawl.CrawlComicUnreadHead(site.pages, download, site.latest[home], Index.LatestStored(db.images, name));
    assert db.images + Inserted(name, []) == db.images;
  }

  // ---------------------------------------------------------------------------------
  // Properties of one comic's update
  // ---------------------------------------------------------------------------------

  /**
   * strftime's strings follow the calendar: when the pages' dates strictly decrease
   * along the links, so do the stored date strings.
   */
  lemma ChronologicalIsLexical(pages: Crawl.Web, c: seq<Crawl.Url>, year: int)
    requires Crawl.AllRead(pages, Download(year), c)
    requires forall i, j :: 0 <= i < j < |c| ==>
               Dates.Before(Dates.Normalise(pages[c[j]].dateText, year).value,
                            Dates.Normalise(pages[c[i]].dateText, year).value)
    ensures Crawl.Decreasing(Crawl.ChainFound(pages, Download(year), c))
  {
    var found := Crawl.ChainFound(pages, Download(year), c);
    forall i, j | 0 <= i < j < |c|
      ensures LexLess(found[j].date, found[i].date)
    {
      assert Crawl.Read(pages, Download(year), c[i]) == Some(found[i]);
      assert Crawl.Read(pages, Download(year), c[j]) == Some(found[j]);
      Dates.FormatOrder(Dates.Normalise(pages[c[j]].dateText, year).value,
                        Dates.Normalise(pages[c[i]].dateText, year).value);
    }
  }

  /**
   * Along a finite history of readable pages, the comic's update inserts exactly the
   * pages before the first one carrying the newest stored date, in crawl order, and
   * changes nothing else.
   */
  lemma UpdateIndexOfComicIsTakeWhile(db: Index.Db, site: Site, name: string, home: string, download: Crawl.Reader, c: seq<Crawl.Url>)
    requires Index.SourceUrl(db.sources, name) == Some(home) && home in site.latest
    requires Crawl.IsChain(site.pages, c) && c[0] == Crawl.Unsplit(Crawl.FirstHref(site.latest[home]))
    requires Crawl.AllRead(site.pages, download, c)
    ensures var found := Crawl.ChainFound(site.pages, download, c);
      var k := Crawl.StopAt(found, Index.LatestStored(db.images, name));
      UpdateIndexOfComic(db, site, name, download)
        == Updated(db.(images := db.images + Inserted(name, found[..k])), Completed)
  {
    Crawl.CrawlComicIsTakeWhile(site.pages, download, site.latest[home], c, Index.LatestStored(db.images, name));
  }

  /**
   * After the inserted pages, whose dates strictly decrease, the newest stored date is
   * that of the first of them, provided no older row of the comic is newer.
   */
  lemma {:induction false} NewestAfterInsert(images: seq<Index.Image>, name: string, found: seq<Crawl.Found>, k: nat)
    requires 0 < k <= |found| && Crawl.Decreasing(found)
    requires forall img :: img in images && img.name == name ==> LexLe(img.date, found[0].date)
    ensures Index.LatestStored(images + Inserted(name, found[..k]), name) == Some(found[0].date)
  {
    var added := Inserted(name, found[..k]);
    var all := images + added;
    assert added[0] in all;
    forall img | img in all && img.name == name
      ensures LexLe(img.date, found[0].date)
    {
      if img !in images {
        var i :| 0 <= i < |added| && added[i] == img;
        assert img.date == found[i].date;
      }
    }
    Index.LatestStoredIs(all, name, found[0].date);
  }

  /**
   * The first run of the comic's update leaves the head page's date as the newest stored
   * one. This needs the pages' date strings to strictly decrease along the links, and the
   * newest stored date, if any, to be one of theirs.
   */
  lemma FirstRunStoresHead(db: Index.Db, site: Site, name: string, home: string, download: Crawl.Reader, c: seq<Crawl.Url>, m: nat)
    requires Index.SourceUrl(db.sources, name) == Some(home) && home in site.latest
    requires Crawl.IsChain(site.pages, c) && c[0] == Crawl.Unsplit(Crawl.FirstHref(site.latest[home]))
    requires Crawl.AllRead(site.pages, download, c)
    requires Crawl.Decreasing(Crawl.ChainFound(site.pages, download, c))
    requires m < |c|
    requires Index.LatestStored(db.images, name) in {None, Some(Crawl.ChainFound(site.pages, download, c)[m].date)}
    ensures var first := UpdateIndexOfComic(db, site, name, download);
      && first.status == Completed
      && Index.LatestStored(first.db.images, name) == Some(Crawl.ChainFound(site.pages, download, c)[0].date)
  {
    var found := Crawl.ChainFound(site.pages, download, c);
    UpdateIndexOfComicIsTakeWhile(db, site, name, home, download, c);
    HeadNewestAfterRun(db.images, name, found, m);
  }

  /**
   * Inserting the pages before the first one dated as the newest stored row (all of
   * them when nothing is stored) leaves the head page's date as the newest stored one.
   */
  lemma HeadNewestAfterRun(images: seq<Index.Image>, name: string, found: seq<Crawl.Found>, m: nat)
    requires Crawl.Decreasing(found) && m < |found|
    requires Index.LatestStored(images, name) in {None, Some(found[m].date)}
    ensures var k := Crawl.StopAt(found, Index.LatestStored(images, name));
      Index.LatestStored(images + Inserted(name, found[..k]), name) == Some(found[0].date)
  {
    var stored := Index.LatestStored(images, name);
    if stored == None {
      assert Crawl.StopAt(found, stored) == |found|;
      assert found[..|found|] == found;
      NewestAfterInsert(images, name, found, |found|);
    } else {
      Crawl.StopAtOwnDate(found, m);
      if m == 0 {
        assert images + Inserted(name, found[..0]) == images;
      } else {
        forall img | img in images && img.name == name
          ensures LexLe(img.date, found[0].date)
        {
          if img.date != found[m].date {
            LexTransitive(img.date, found[m].date, found[0].date);
          }
        }
        NewestAfterInsert(images, name, found, m);
      }
    }
  }

  /**
   * When the newest stored date is the head page's, the comic's update downloads the
   * head page again, stops there and changes nothing; older pages play no part.
   */
  lemma CaughtUpAddsNothing(db: Index.Db, site: Site, name: string, home: string, download: Crawl.Reader)
    requires Index.SourceUrl(db.sources, name) == Some(home) && home in site.latest
    requires var u := Crawl.Unsplit(Crawl.FirstHref(site.latest[home]));
      && Crawl.Read(site.pages, download, u).Some?
      && Index.LatestStored(db.images, name) == Some(Crawl.Read(site.pages, download, u).value.date)
    ensures UpdateIndexOfComic(db, site, name, download) == Updated(db, Completed)
    ensures Crawl.CrawlComic(site.pages, download, site.latest[home], Index.LatestStored(db.images, name))
              == Crawl.Crawled([], [Crawl.Unsplit(Crawl.FirstHref(site.latest[home]))], Crawl.CaughtUp)
  {
    assert db.images + Inserted(name, []) == db.images;
  }

  /**
   * When the dates strictly decrease along linked readable pages from the latest comic
   * and the newest stored date is the last one's, the update inserts exactly the pages
   * before it, completes, and leaves the head page's date as the newest stored.
   */
  lemma StoredOnHistoryRun(db: Index.Db, site: Site, name: string, home: string, download: Crawl.Reader, p: seq<Crawl.Url>)
    requires Index.SourceUrl(db.sources, name) == Some(home) && home in site.latest
    requires 0 < |p| && Crawl.Linked(site.pages, p) && p[0] == Crawl.Unsplit(Crawl.FirstHref(site.latest[home]))
    requires Crawl.AllRead(site.pages, download, p) && Crawl.Decreasing(Crawl.ChainFound(site.pages, download, p))
    requires Index.LatestStored(db.images, name) == Some(Crawl.ChainFound(site.pages, download, p)[|p| - 1].date)
    ensures var found := Crawl.ChainFound(site.pages, download, p);
      var first := UpdateIndexOfComic(db, site, name, download);
      && first == Updated(db.(images := db.images + Inserted(name, found[..|p| - 1])), Completed)
      && Index.LatestStored(first.db.images, name) == Some(found[0].date)
  {
    var found := Crawl.ChainFound(site.pages, download, p);
    var k := |p| - 1;
    Crawl.CrawlComicCatchesUp(site.pages, download, site.latest[home], p);
    CrawlCompletes(db, site, name, home, download, Crawl.Crawled(found[..k], p, Crawl.CaughtUp));
    Crawl.StopAtOwnDate(found, k);
    HeadNewestAfterRun(db.images, name, found, k);
  }

  /** The comic's update inserts what its crawl inserts, and ends as the crawl ends. */
  lemma CrawlCompletes(db: Index.Db, site: Site, name: string, home: string, download: Crawl.Reader, crawl: Crawl.Crawled)
    requires Index.SourceUrl(db.sources, name) == Some(home) && home in site.latest
    requires Crawl.CrawlComic(site.pages, download, site.latest[home], Index.LatestStored(db.images, name)) == crawl
    ensures UpdateIndexOfComic(db, site, name, download)
              == Updated(db.(images := db.images + Inserted(name, crawl.rows)), StatusOf(crawl.halt))
  {
  }

  /**
   * Running the comic's update twice in a row adds nothing the second time, when the
   * dates strictly decrease along linked readable pages from the latest comic and the
   * newest stored date is the last one's; the second run only downloads the head page.
   */
  lemma UpdateTwiceAddsNothing(db: Index.Db, site: Site, name: string, home: string, download: Crawl.Reader, p: seq<Crawl.Url>)
    requires Index.SourceUrl(db.sources, name) == Some(home) && home in site.latest
    requires 0 < |p| && Crawl.Linked(site.pages, p) && p[0] == Crawl.Unsplit(Crawl.FirstHref(site.latest[home]))
    requires Crawl.AllRead(site.pages, download, p) && Crawl.Decreasing(Crawl.ChainFound(site.pages, download, p))
    requires Index.LatestStored(db.images, name) == Some(Crawl.ChainFound(site.pages, download, p)[|p| - 1].date)
    ensures var first := UpdateIndexOfComic(db, site, name, download);
      && first.status == Completed
      && UpdateIndexOfComic(first.db, site, name, download) == first
  {
    StoredOnHistoryRun(db, site, name, home, download, p);
    assert Crawl.Read(site.pages, download, p[0]) == Some(Crawl.ChainFound(site.pages, download, p)[0]);
    CaughtUpAddsNothing(UpdateIndexOfComic(db, site, name, download).db, site, name, home, download);
  }

  /**
   * With nothing stored, the first run indexes the whole readable history with strictly
   * decreasing dates, and a second run adds nothing.
   */
  lemma UpdateTwiceFromEmptyAddsNothing(db: Index.Db, site: Site, name: string, home: string, download: Crawl.Reader, c: seq<Crawl.Url>)
    requires Index.SourceUrl(db.sources, name) == Some(home) && home in site.latest
    requires Crawl.IsChain(site.pages, c) && c[0] == Crawl.Unsplit(Crawl.FirstHref(site.latest[home]))
    requires Crawl.AllRead(site.pages, download, c) && Crawl.Decreasing(Crawl.ChainFound(site.pages, download, c))
    requires Index.LatestStored(db.images, name) == None
    ensures var first := UpdateIndexOfComic(db, site, name, download);
      && first.status == Completed
      && UpdateIndexOfComic(first.db, site, name, download) == first
  {
    FirstRunStoresHead(db, site, name, home, download, c, 0);
    assert Crawl.Read(site.pages, download, c[0]) == Some(Crawl.ChainFound(site.pages, download, c)[0]);
    CaughtUpAddsNothing(UpdateIndexOfComic(db, site, name, download).db, site, name, home, download);
  }
}
