/**
 * The backward crawl over a comic's pages. `_fetch_comic_url_all` is a generator that
 * yields the latest page's URL and then, page after page, the URL behind the page's
 * "previous" link. `_update_index_of_comic` consumes it: it downloads each yielded page,
 * reads its date, stops at the first page carrying the newest date already stored, and
 * otherwise inserts the page as a row.
 *
 * The network is a map from URL to page; a URL outside the map is one whose fetch or
 * HTML parsing raises. Both loops carry a fuel bound equal to the number of pages, which
 * is never too small for a finite history and runs out only on a cycle of links.
 */
module Crawl {
  import opened Wrappers
  import opened Strings
  import opened Seqs

  type Url = string

  /** `f"{URL_SCHEME}://{URL_HOST}"`. */
  const UrlBase: string := "https://hs.fi"

  /**
   * `urlunsplit(("https", "hs.fi", href, "", ""))`: the base followed by `href`, with a
   * '/' put in front of a non-empty `href` that lacks one.
   */
  function Unsplit(href: string): Url {
    UrlBase + (if href != [] && href[0] != '/' then "/" + href else href)
  }

  /** `url_current[len(URL_BASE):]`, the href the generator starts from. */
  function FirstHref(start: Url): string {
    if |start| <= |UrlBase| then [] else start[|UrlBase|..]
  }

  /**
   * Every URL built is on the site, with an empty or absolute path that is `href`, a '/'
   * put in front when it lacks one.
   */
  lemma UnsplitOnSite(href: string)
    ensures var r := Unsplit(href);
      && |UrlBase| <= |r| && r[..|UrlBase|] == UrlBase
      && (r[|UrlBase|..] == href || r[|UrlBase|..] == "/" + href)
      && (|r| == |UrlBase| || r[|UrlBase|] == '/')
  {
  }

  /** The href the generator starts from is what follows the first `len(URL_BASE)` characters. */
  lemma FirstHrefSuffix(start: Url)
    ensures var r := FirstHref(start);
      && |r| == (if |start| <= |UrlBase| then 0 else |start| - |UrlBase|)
      && r == start[|start| - |r|..]
  {
  }

  /**
   * A URL on the site with an empty or absolute path comes back unchanged from the
   * generator's first step, so the first URL yielded is the one it is given.
   */
  lemma StartYieldedUnchanged(path: string)
    requires path == [] || path[0] == '/'
    ensures Unsplit(FirstHref(UrlBase + path)) == UrlBase + path
  {
    assert (UrlBase + path)[|UrlBase|..] == path;
  }

  /**
   * What the crawl reads from one comic page: the text of its date element, the local
   * file its image is saved to, and the href of its "previous" link, if it has one.
   */
  datatype Page = Page(dateText: string, filepath: string, prev: Option<string>)

  /** The pages that can be fetched and parsed, by URL. */
  type Web = map<Url, Page>

  /** Page `u` can be fetched, has a "previous" link, and that link leads to `v`. */
  predicate Links(web: Web, u: Url, v: Url) {
    u in web && web[u].prev.Some? && Unsplit(web[u].prev.value) == v
  }

  /** Each URL of `us` links to the next one. */
  predicate Linked(web: Web, us: seq<Url>) {
    forall i :: 0 <= i < |us| - 1 ==> Links(web, us[i], us[i + 1])
  }

  /** A finite history: linked pages, the last of which can be fetched and has no "previous" link. */
  predicate IsChain(web: Web, c: seq<Url>) {
    && |c| > 0
    && Linked(web, c)
    && c[|c| - 1] in web
    && web[c[|c| - 1]].prev.None?
  }

  // ---------------------------------------------------------------------------------
  // The generator `_fetch_comic_url_all`
  // ---------------------------------------------------------------------------------

  /**
   * How the generator ends: after a page without a "previous" link, with the exception
   * raised by a page it cannot fetch, or not at all (the links run in a cycle).
   */
  datatype End = Exhausted | Unreachable | Looping

  /** The URLs yielded, in order, and how the generator ended. */
  datatype Walked = Walked(urls: seq<Url>, end: End)

  /**
   * The generator from the page behind `href`: yield its URL, fetch it, and continue
   * with its "previous" link. After `fuel` links it reports `Looping`.
   */
  function Walk(web: Web, href: string, fuel: nat): (r: Walked)
    ensures 0 < |r.urls| <= fuel + 1 && r.urls[0] == Unsplit(href)
    ensures Linked(web, r.urls)
    ensures r.end == Exhausted <==> IsChain(web, r.urls)
    ensures r.end == Unreachable <==> r.urls[|r.urls| - 1] !in web
    ensures r.end == Looping <==> r.urls[|r.urls| - 1] in web && web[r.urls[|r.urls| - 1]].prev.Some?
    ensures r.end == Looping ==> |r.urls| == fuel + 1
    decreases fuel
  {
    var u := Unsplit(href);
    if u !in web then Walked([u], Unreachable)
    else match web[u].prev
      case None => Walked([u], Exhausted)
      case Some(h) =>
        if fuel == 0 then Walked([u], Looping)
        else
          var w := Walk(web, h, fuel - 1);
          Walked([u] + w.urls, w.end)
  }

  /** `_fetch_comic_url_all(start)`. */
  function FetchComicUrlAll(web: Web, start: Url): (r: Walked)
    ensures 0 < |r.urls| && r.urls[0] == Unsplit(FirstHref(start))
    ensures Linked(web, r.urls)
    ensures r.end == Exhausted <==> IsChain(web, r.urls)
  {
    Walk(web, FirstHref(start), |web|)
  }

  /**
   * Links are deterministic: two positions of a linked sequence that differ `k` steps
   * further on differ already.
   */
  lemma {:induction false} LinkedShift(web: Web, c: seq<Url>, i: nat, j: nat, k: nat)
    requires Linked(web, c)
    requires i < j && j + k < |c| && c[i + k] != c[j + k]
    ensures c[i] != c[j]
    decreases k
  {
    if k > 0 {
      assert Links(web, c[i + k - 1], c[i + k]);
      assert Links(web, c[j + k - 1], c[j + k]);
      LinkedShift(web, c, i, j, k - 1);
    }
  }

  /** A chain never visits a page twice: a repeat would continue past the last page. */
  lemma ChainDistinct(web: Web, c: seq<Url>)
    requires IsChain(web, c)
    ensures Distinct(c)
  {
    forall i, j | 0 <= i < j < |c|
      ensures c[i] != c[j]
    {
      var k := |c| - 1 - j;
      assert Links(web, c[i + k], c[i + k + 1]);
      LinkedShift(web, c, i, j, k);
    }
  }

  /** Every URL of a linked sequence but the last can be fetched. */
  lemma LinkedWithin(web: Web, us: seq<Url>)
    requires Linked(web, us) && |us| > 0 && us[|us| - 1] in web
    ensures forall i :: 0 <= i < |us| ==> us[i] in web.Keys
  {
    forall i | 0 <= i < |us| - 1
      ensures us[i] in web.Keys
    {
      assert Links(web, us[i], us[i + 1]);
    }
  }

  /** A chain has at most one URL per page of the site. */
  lemma ChainFits(web: Web, c: seq<Url>)
    requires IsChain(web, c)
    ensures |c| <= |web|
  {
    ChainDistinct(web, c);
    LinkedWithin(web, c);
    DistinctWithin(c, web.Keys);
  }

  /** From the head of a chain, with enough fuel, the generator yields exactly the chain. */
  lemma {:induction false} ChainIsWalked(web: Web, c: seq<Url>, href: string, fuel: nat)
    requires IsChain(web, c) && c[0] == Unsplit(href) && |c| <= fuel + 1
    ensures Walk(web, href, fuel) == Walked(c, Exhausted)
    decreases |c|
  {
    if |c| > 1 {
      assert Links(web, c[0], c[1]);
      var h := web[c[0]].prev.value;
      assert forall i :: 0 <= i < |c| - 1 ==> c[1..][i] == c[i + 1];
      ChainIsWalked(web, c[1..], h, fuel - 1);
      assert c == [c[0]] + c[1..];
    }
  }

  /**
   * The generator yields the start page and then each page reached by "previous" links,
   * one URL per page, and ends after the page without a link, exactly when such a
   * history exists.
   */
  lemma FetchComicUrlAllIsChain(web: Web, start: Url, c: seq<Url>)
    requires IsChain(web, c) && c[0] == Unsplit(FirstHref(start))
    ensures FetchComicUrlAll(web, start) == Walked(c, Exhausted)
  {
    ChainFits(web, c);
    ChainIsWalked(web, c, FirstHref(start), |web|);
  }

  /** When the generator is cut off, the URLs it yielded already repeat: the links cycle. */
  lemma LoopingMeansCycle(web: Web, start: Url)
    requires FetchComicUrlAll(web, start).end == Looping
    ensures var us := FetchComicUrlAll(web, start).urls;
      exists i, j :: 0 <= i < j < |us| && us[i] == us[j]
  {
    var us := FetchComicUrlAll(web, start).urls;
    LinkedWithin(web, us);
    if Distinct(us) {
      DistinctWithin(us, web.Keys);
      assert false;
    }
    assert !Distinct(us);
  }

  // ---------------------------------------------------------------------------------
  // The loop of `_update_index_of_comic`
  // ---------------------------------------------------------------------------------

  /** A downloaded page as it would be stored: the canonical date string and the image file. */
  datatype Found = Found(date: string, filepath: string)

  /**
   * How `download_comic` and the strftime of its date read one fetched page; `None` when
   * that raises. The crawl works for any reader; the update supplies the real one.
   */
  type Reader = Page -> Option<Found>

  /** Reading the page at `u`; `None` also when it cannot be fetched. */
  function Read(web: Web, download: Reader, u: Url): Option<Found> {
    if u in web then download(web[u]) else None
  }

  /** Why the loop over the generator stopped. */
  datatype Halt =
    | CaughtUp          // a page carried the newest stored date: `break`
    | HistoryEnd        // the page without a "previous" link was indexed: the generator returned
    | PageUnavailable   // a page could not be fetched or parsed: the exception ends the update
    | BadDate           // strptime rejected a page's date text: ValueError ends the update
    | Endless           // the links run in a cycle: the loop never returns

  /**
   * The rows the loop inserts, in order, every URL whose page it downloads (the stop page
   * included), and why it stopped.
   */
  datatype Crawled = Crawled(rows: seq<Found>, visited: seq<Url>, halt: Halt)

  /** The loop from the page behind `href`, given the newest stored date string `latest`. */
  function CrawlFrom(web: Web, download: Reader, href: string, fuel: nat, latest: Option<string>): (r: Crawled)
    ensures 0 < |r.visited| && r.visited[0] == Unsplit(href)
    ensures r.halt in {HistoryEnd, Endless} ==> |r.rows| == |r.visited|
    ensures r.halt !in {HistoryEnd, Endless} ==> |r.rows| == |r.visited| - 1
    decreases fuel
  {
    var u := Unsplit(href);
    if u !in web then Crawled([], [u], PageUnavailable)
    else match download(web[u])
      case None => Crawled([], [u], BadDate)
      case Some(found) =>
        if latest == Some(found.date) then Crawled([], [u], CaughtUp)
        else match web[u].prev
          case None => Crawled([found], [u], HistoryEnd)
          case Some(h) =>
            if fuel == 0 then Crawled([found], [u], Endless)
            else
              var rest := CrawlFrom(web, download, h, fuel - 1, latest);
              Crawled([found] + rest.rows, [u] + rest.visited, rest.halt)
  }

  /** The loop of `_update_index_of_comic` over `_fetch_comic_url_all(start)`. */
  function CrawlComic(web: Web, download: Reader, start: Url, latest: Option<string>): (r: Crawled)
    ensures 0 < |r.visited| && r.visited[0] == Unsplit(FirstHref(start))
    ensures forall i :: 0 <= i < |r.rows| ==> latest != Some(r.rows[i].date)
  {
    CrawlRowsRead(web, download, FirstHref(start), |web|, latest, CrawlFrom(web, download, FirstHref(start), |web|, latest));
    CrawlFrom(web, download, FirstHref(start), |web|, latest)
  }

  /** Each inserted row is what reading the page visited at its position yields, never the stored date. */
  lemma {:induction false} CrawlRowsRead(web: Web, download: Reader, href: string, fuel: nat, latest: Option<string>, r: Crawled)
    requires r == CrawlFrom(web, download, href, fuel, latest)
    ensures forall i :: 0 <= i < |r.rows| ==> Read(web, download, r.visited[i]) == Some(r.rows[i])
    ensures forall i :: 0 <= i < |r.rows| ==> latest != Some(r.rows[i].date)
    decreases fuel
  {
    var u := Unsplit(href);
    if u in web && download(web[u]).Some? && latest != Some(download(web[u]).value.date) && web[u].prev.Some? && fuel > 0 {
      var h := web[u].prev.value;
      var rest := CrawlFrom(web, download, h, fuel - 1, latest);
      CrawlRowsRead(web, download, h, fuel - 1, latest, rest);
      assert r.rows == [download(web[u]).value] + rest.rows && r.visited == [u] + rest.visited;
      forall i | 0 < i < |r.rows|
        ensures Read(web, download, r.visited[i]) == Some(r.rows[i]) && latest != Some(r.rows[i].date)
      {
        assert r.rows[i] == rest.rows[i - 1] && r.visited[i] == rest.visited[i - 1];
      }
    }
  }

  /** Prepending a URL that links to the head keeps a sequence linked. */
  lemma LinkedCons(web: Web, u: Url, us: seq<Url>)
    requires 0 < |us| && Links(web, u, us[0]) && Linked(web, us)
    ensures Linked(web, [u] + us)
  {
    forall i | 0 <= i < |us|
      ensures Links(web, ([u] + us)[i], ([u] + us)[i + 1])
    {
      if i > 0 { assert Links(web, us[i - 1], us[i]); }
    }
  }

  /** Links are deterministic: two linked sequences from the same URL agree position by position. */
  lemma {:induction false} LinkedAgree(web: Web, a: seq<Url>, b: seq<Url>, i: nat)
    requires 0 < |a| && 0 < |b| && a[0] == b[0]
    requires Linked(web, a) && Linked(web, b)
    requires i < |a| && i < |b|
    ensures a[i] == b[i]
    decreases i
  {
    if i > 0 {
      LinkedAgree(web, a, b, i - 1);
      assert Links(web, a[i - 1], a[i]) && Links(web, b[i - 1], b[i]);
    }
  }

  /** A linked sequence from the same URL cannot run past a last page that links nowhere. */
  lemma {:induction false} LinkedNoFurther(web: Web, a: seq<Url>, b: seq<Url>, i: nat)
    requires 0 < |a| && 0 < |b| && a[0] == b[0]
    requires Linked(web, a) && Linked(web, b)
    requires !(b[|b| - 1] in web && web[b[|b| - 1]].prev.Some?)
    requires i < |a|
    ensures i < |b|
    decreases i
  {
    if i > 0 {
      LinkedNoFurther(web, a, b, i - 1);
      LinkedAgree(web, a, b, i - 1);
      assert Links(web, a[i - 1], a[i]);
    }
  }

  /** The loop follows the "previous" links and downloads at most `fuel + 1` pages. */
  lemma {:induction false} CrawlLinked(web: Web, download: Reader, href: string, fuel: nat, latest: Option<string>)
    ensures var r := CrawlFrom(web, download, href, fuel, latest);
      |r.visited| <= fuel + 1 && Linked(web, r.visited)
    decreases fuel
  {
    var u := Unsplit(href);
    if u in web && download(web[u]).Some? && latest != Some(download(web[u]).value.date) && web[u].prev.Some? && fuel > 0 {
      var h := web[u].prev.value;
      CrawlLinked(web, download, h, fuel - 1, latest);
      var rest := CrawlFrom(web, download, h, fuel - 1, latest);
      assert CrawlFrom(web, download, href, fuel, latest).visited == [u] + rest.visited;
      LinkedCons(web, u, rest.visited);
    }
  }

  /** The loop stops at a page it cannot fetch, and only there. */
  lemma {:induction false} CrawlUnavailableLast(web: Web, download: Reader, href: string, fuel: nat, latest: Option<string>)
    ensures var r := CrawlFrom(web, download, href, fuel, latest);
      r.halt == PageUnavailable <==> r.visited[|r.visited| - 1] !in web
    decreases fuel
  {
    var u := Unsplit(href);
    if u in web && download(web[u]).Some? && latest != Some(download(web[u]).value.date) && web[u].prev.Some? && fuel > 0 {
      var h := web[u].prev.value;
      CrawlUnavailableLast(web, download, h, fuel - 1, latest);
      var rest, r := CrawlFrom(web, download, h, fuel - 1, latest), CrawlFrom(web, download, href, fuel, latest);
      assert r.visited == [u] + rest.visited && r.halt == rest.halt;
      assert r.visited[|r.visited| - 1] == rest.visited[|rest.visited| - 1];
    }
  }

  /** The history ends at a fetched page without a "previous" link. */
  lemma {:induction false} CrawlHistoryEndLast(web: Web, download: Reader, href: string, fuel: nat, latest: Option<string>)
    ensures var r := CrawlFrom(web, download, href, fuel, latest);
      var last := r.visited[|r.visited| - 1];
      r.halt == HistoryEnd ==> last in web && web[last].prev.None?
    decreases fuel
  {
    var u := Unsplit(href);
    if u in web && download(web[u]).Some? && latest != Some(download(web[u]).value.date) && web[u].prev.Some? && fuel > 0 {
      var h := web[u].prev.value;
      CrawlHistoryEndLast(web, download, h, fuel - 1, latest);
      var rest, r := CrawlFrom(web, download, h, fuel - 1, latest), CrawlFrom(web, download, href, fuel, latest);
      assert r.visited == [u] + rest.visited && r.halt == rest.halt;
      assert r.visited[|r.visited| - 1] == rest.visited[|rest.visited| - 1];
    }
  }

  /** The loop runs out of fuel only after `fuel + 1` pages, the last of which links on. */
  lemma {:induction false} CrawlEndlessLast(web: Web, download: Reader, href: string, fuel: nat, latest: Option<string>)
    ensures var r := CrawlFrom(web, download, href, fuel, latest);
      var last := r.visited[|r.visited| - 1];
      r.halt == Endless ==> last in web && web[last].prev.Some? && |r.visited| == fuel + 1
    decreases fuel
  {
    var u := Unsplit(href);
    if u in web && download(web[u]).Some? && latest != Some(download(web[u]).value.date) && web[u].prev.Some? && fuel > 0 {
      var h := web[u].prev.value;
      CrawlEndlessLast(web, download, h, fuel - 1, latest);
      var rest, r := CrawlFrom(web, download, h, fuel - 1, latest), CrawlFrom(web, download, href, fuel, latest);
      assert r.visited == [u] + rest.visited && r.halt == rest.halt;
      assert r.visited[|r.visited| - 1] == rest.visited[|rest.visited| - 1];
    }
  }

  /**
   * The loop downloads the URLs the generator yields, in order, until it stops; when the
   * history ends, a page is unavailable or the links cycle, it has taken all of them and
   * the generator ends for the matching reason.
   */
  lemma CrawlFollowsWalk(web: Web, download: Reader, href: string, fuel: nat, latest: Option<string>)
    ensures var c, w := CrawlFrom(web, download, href, fuel, latest), Walk(web, href, fuel);
      && c.visited <= w.urls
      && (c.halt == HistoryEnd ==> c.visited == w.urls && w.end == Exhausted)
      && (c.halt == PageUnavailable ==> c.visited == w.urls && w.end == Unreachable)
      && (c.halt == Endless ==> c.visited == w.urls && w.end == Looping)
  {
    var c, w := CrawlFrom(web, download, href, fuel, latest), Walk(web, href, fuel);
    var cv, wu := c.visited, w.urls;
    CrawlLinked(web, download, href, fuel, latest);
    CrawlUnavailableLast(web, download, href, fuel, latest);
    CrawlHistoryEndLast(web, download, href, fuel, latest);
    CrawlEndlessLast(web, download, href, fuel, latest);
    forall i | 0 <= i < |cv| && i < |wu|
      ensures cv[i] == wu[i]
    {
      LinkedAgree(web, cv, wu, i);
    }
    if w.end != Looping {
      LinkedNoFurther(web, cv, wu, |cv| - 1);
    }
    assert cv == wu[..|cv|];
    if |cv| < |wu| {
      assert Links(web, wu[|cv| - 1], wu[|cv|]);
      assert c.halt != HistoryEnd && c.halt != PageUnavailable && c.halt != Endless;
    }
  }

  // ---------------------------------------------------------------------------------
  // The crawl as a takeWhile over the chain
  // ---------------------------------------------------------------------------------

  /** Every page of `c` can be fetched and read. */
  predicate AllRead(web: Web, download: Reader, c: seq<Url>) {
    forall i :: 0 <= i < |c| ==> Read(web, download, c[i]).Some?
  }

  /** What downloading each page of `c` yields, in order. */
  function ChainFound(web: Web, download: Reader, c: seq<Url>): (r: seq<Found>)
    requires AllRead(web, download, c)
    ensures |r| == |c|
    ensures forall i :: 0 <= i < |c| ==> Read(web, download, c[i]) == Some(r[i])
    decreases |c|
  {
    if c == [] then []
    else
      assert forall i :: 0 <= i < |c| - 1 ==> c[1..][i] == c[i + 1];
      var rest := ChainFound(web, download, c[1..]);
      var head := Read(web, download, c[0]).value;
      assert forall i :: 0 < i < |c| ==> ([head] + rest)[i] == rest[i - 1];
      [head] + rest
  }

  /** The position of the first found page dated `latest`, or `|found|` when there is none. */
  function StopAt(found: seq<Found>, latest: Option<string>): (k: nat)
    ensures k <= |found|
    ensures forall i :: 0 <= i < k ==> latest != Some(found[i].date)
    ensures k < |found| ==> latest == Some(found[k].date)
    decreases |found|
  {
    if found == [] || latest == Some(found[0].date) then 0
    else 1 + StopAt(found[1..], latest)
  }

  lemma PrefixCons<T>(s: seq<T>, k: nat)
    requires k < |s|
    ensures s[..k + 1] == [s[0]] + s[1..][..k]
  {
  }

  /**
   * The loop's outcome along a finite history, given what each of its pages reads as:
   * stop at a page dated `latest`, insert any other, end after the last.
   */
  function ChainCrawl(found: seq<Found>, c: seq<Url>, latest: Option<string>): Crawled
    requires 0 < |found| == |c|
    decreases |c|
  {
    if latest == Some(found[0].date) then Crawled([], [c[0]], CaughtUp)
    else if |c| == 1 then Crawled([found[0]], [c[0]], HistoryEnd)
    else
      var rest := ChainCrawl(found[1..], c[1..], latest);
      Crawled([found[0]] + rest.rows, [c[0]] + rest.visited, rest.halt)
  }

  /** That outcome is a takeWhile: the pages before the first one dated `latest`. */
  lemma {:induction false} ChainCrawlIsTakeWhile(found: seq<Found>, c: seq<Url>, latest: Option<string>)
    requires 0 < |found| == |c|
    ensures var r, k := ChainCrawl(found, c, latest), StopAt(found, latest);
      && r.rows == found[..k]
      && r.visited == (if k < |c| then c[..k + 1] else c)
      && r.halt == (if k < |c| then CaughtUp else HistoryEnd)
    decreases |c|
  {
    if latest != Some(found[0].date) && |c| > 1 {
      ChainCrawlIsTakeWhile(found[1..], c[1..], latest);
      var k' := StopAt(found[1..], latest);
      assert StopAt(found, latest) == 1 + k';
      PrefixCons(found, k');
      if k' < |c| - 1 {
        PrefixCons(c, k' + 1);
      } else {
        assert c == [c[0]] + c[1..];
      }
    } else if latest != Some(found[0].date) {
      assert found[..1] == found;
    } else {
      assert c[..1] == [c[0]];
    }
  }

  /** The rest of a chain after its first page is a chain of readable pages, read the same way. */
  lemma ChainTail(web: Web, download: Reader, c: seq<Url>)
    requires IsChain(web, c) && AllRead(web, download, c) && |c| > 1
    ensures IsChain(web, c[1..]) && AllRead(web, download, c[1..])
    ensures ChainFound(web, download, c[1..]) == ChainFound(web, download, c)[1..]
  {
    assert forall i :: 0 <= i < |c| - 1 ==> c[1..][i] == c[i + 1];
  }

  /** With enough fuel, the loop along a finite history of readable pages has that outcome. */
  lemma {:induction false} CrawlIsChainCrawl(web: Web, download: Reader, c: seq<Url>, href: string, fuel: nat, latest: Option<string>)
    requires IsChain(web, c) && c[0] == Unsplit(href) && |c| <= fuel + 1
    requires AllRead(web, download, c)
    ensures CrawlFrom(web, download, href, fuel, latest) == ChainCrawl(ChainFound(web, download, c), c, latest)
    decreases |c|
  {
    var found := ChainFound(web, download, c);
    assert Read(web, download, c[0]) == Some(found[0]);
    if latest != Some(found[0].date) && |c| > 1 {
      assert Links(web, c[0], c[1]);
      ChainTail(web, download, c);
      CrawlIsChainCrawl(web, download, c[1..], web[c[0]].prev.value, fuel - 1, latest);
    }
  }

  /**
   * Along a finite history of readable pages, the rows inserted are exactly the pages
   * before the first one dated `latest`, in crawl order; that page is downloaded but not
   * inserted, and it and every older page are left alone.
   */
  lemma {:induction false} CrawlIsTakeWhile(web: Web, download: Reader, c: seq<Url>, href: string, fuel: nat, latest: Option<string>)
    requires IsChain(web, c) && c[0] == Unsplit(href) && |c| <= fuel + 1
    requires AllRead(web, download, c)
    ensures var r, found := CrawlFrom(web, download, href, fuel, latest), ChainFound(web, download, c);
      var k := StopAt(found, latest);
      && r.rows == found[..k]
      && r.visited == (if k < |c| then c[..k + 1] else c)
      && r.halt == (if k < |c| then CaughtUp else HistoryEnd)
  {
    CrawlIsChainCrawl(web, download, c, href, fuel, latest);
    ChainCrawlIsTakeWhile(ChainFound(web, download, c), c, latest);
  }

  /** `CrawlIsTakeWhile` for the whole loop of `_update_index_of_comic`. */
  lemma {:induction false} CrawlComicIsTakeWhile(web: Web, download: Reader, start: Url, c: seq<Url>, latest: Option<string>)
    requires IsChain(web, c) && c[0] == Unsplit(FirstHref(start))
    requires AllRead(web, download, c)
    ensures var r, found := CrawlComic(web, download, start, latest), ChainFound(web, download, c);
      var k := StopAt(found, latest);
      && r.rows == found[..k]
      && r.visited == (if k < |c| then c[..k + 1] else c)
      && r.halt == (if k < |c| then CaughtUp else HistoryEnd)
  {
    ChainFits(web, c);
    CrawlIsTakeWhile(web, download, c, FirstHref(start), |web|, latest);
  }

  /** A comic with no stored date has its whole history inserted. */
  lemma NoStoredDateIndexesAll(web: Web, download: Reader, start: Url, c: seq<Url>)
    requires IsChain(web, c) && c[0] == Unsplit(FirstHref(start))
    requires AllRead(web, download, c)
    ensures CrawlComic(web, download, start, None) == Crawled(ChainFound(web, download, c), c, HistoryEnd)
  {
    CrawlComicIsTakeWhile(web, download, start, c, None);
    assert ChainFound(web, download, c)[..|c|] == ChainFound(web, download, c);
  }

  /** The found date strings get strictly smaller along the "previous" links. */
  predicate Decreasing(found: seq<Found>) {
    forall i, j :: 0 <= i < j < |found| ==> LexLess(found[j].date, found[i].date)
  }

  /**
   * When the history's date strings strictly decrease and the newest stored date is that
   * of its page `m`, the crawl inserts exactly the `m` newer pages, and every inserted
   * date sorts after the stored one: nothing already seen is inserted again.
   */
  lemma OnlyNewerIndexed(web: Web, download: Reader, start: Url, c: seq<Url>, m: nat)
    requires IsChain(web, c) && c[0] == Unsplit(FirstHref(start))
    requires AllRead(web, download, c) && Decreasing(ChainFound(web, download, c))
    requires m < |c|
    ensures var found := ChainFound(web, download, c);
      var r := CrawlComic(web, download, start, Some(found[m].date));
      && r.rows == found[..m]
      && r.visited == c[..m + 1]
      && r.halt == CaughtUp
      && forall i :: 0 <= i < |r.rows| ==> LexLess(found[m].date, r.rows[i].date)
  {
    var found := ChainFound(web, download, c);
    StopAtOwnDate(found, m);
    CrawlComicIsTakeWhile(web, download, start, c, Some(found[m].date));
  }

  /** With strictly decreasing dates, the crawl stops exactly at the page carrying the date. */
  lemma StopAtOwnDate(found: seq<Found>, m: nat)
    requires Decreasing(found) && m < |found|
    ensures StopAt(found, Some(found[m].date)) == m
  {
    forall i | 0 <= i < m
      ensures Some(found[m].date) != Some(found[i].date)
    {
      LexIrreflexive(found[m].date);
    }
  }

  /**
   * Along linked pages that read as `found`, when only the last of them carries the
   * stored date, the loop inserts all the others and stops at it.
   */
  lemma {:induction false} CrawlCatchesUp(web: Web, download: Reader, p: seq<Url>, found: seq<Found>, href: string, fuel: nat)
    requires 0 < |p| == |found| && Linked(web, p) && p[0] == Unsplit(href) && |p| <= fuel + 1
    requires forall i :: 0 <= i < |p| ==> Read(web, download, p[i]) == Some(found[i])
    requires forall i :: 0 <= i < |p| - 1 ==> found[i].date != found[|p| - 1].date
    ensures CrawlFrom(web, download, href, fuel, Some(found[|p| - 1].date)) == Crawled(found[..|p| - 1], p, CaughtUp)
    decreases |p|
  {
    assert Read(web, download, p[0]) == Some(found[0]);
    if |p| == 1 {
      CrawlStopsAt(web, download, href, fuel, found[0]);
    } else {
      var latest := Some(found[|p| - 1].date);
      assert Links(web, p[0], p[1]);
      var h := web[p[0]].prev.value;
      LinkedRest(web, p);
      ReadRest(web, download, p, found);
      OthersRest(found);
      CrawlCatchesUp(web, download, p[1..], found[1..], h, fuel - 1);
      CrawlStep(web, download, href, fuel, latest, found[0]);
      ConsPrefix(p, found);
    }
  }

  /** A readable page carrying the stored date stops the loop at once. */
  lemma CrawlStopsAt(web: Web, download: Reader, href: string, fuel: nat, found: Found)
    requires Read(web, download, Unsplit(href)) == Some(found)
    ensures CrawlFrom(web, download, href, fuel, Some(found.date)) == Crawled([], [Unsplit(href)], CaughtUp)
  {
  }

  /** The head followed by the shortened tail is the shortened whole. */
  lemma ConsPrefix(p: seq<Url>, found: seq<Found>)
    requires 1 < |p| == |found|
    ensures [found[0]] + found[1..][..|p| - 2] == found[..|p| - 1]
    ensures [p[0]] + p[1..] == p
  {
  }

  /** Dropping the first URL keeps a sequence linked. */
  lemma LinkedRest(web: Web, p: seq<Url>)
    requires 0 < |p| && Linked(web, p)
    ensures Linked(web, p[1..])
  {
    forall i | 0 <= i < |p| - 2
      ensures Links(web, p[1..][i], p[1..][i + 1])
    {
      assert Links(web, p[i + 1], p[i + 2]);
    }
  }

  /** Dropping the first page keeps each page reading as its found row. */
  lemma ReadRest(web: Web, download: Reader, p: seq<Url>, found: seq<Found>)
    requires 0 < |p| == |found|
    requires forall i :: 0 <= i < |p| ==> Read(web, download, p[i]) == Some(found[i])
    ensures forall i :: 0 <= i < |p| - 1 ==> Read(web, download, p[1..][i]) == Some(found[1..][i])
  {
    forall i | 0 <= i < |p| - 1
      ensures Read(web, download, p[1..][i]) == Some(found[1..][i])
    {
      assert p[1..][i] == p[i + 1] && found[1..][i] == found[i + 1];
    }
  }

  /** Dropping the first row keeps the last row's date off every other row. */
  lemma OthersRest(found: seq<Found>)
    requires 1 < |found|
    requires forall i :: 0 <= i < |found| - 1 ==> found[i].date != found[|found| - 1].date
    ensures forall i :: 0 <= i < |found| - 2 ==> found[1..][i].date != found[1..][|found| - 2].date
  {
    forall i | 0 <= i < |found| - 2
      ensures found[1..][i].date != found[1..][|found| - 2].date
    {
      assert found[1..][i] == found[i + 1] && found[1..][|found| - 2] == found[|found| - 1];
    }
  }

  /** A readable page that is not the stop page and links on is inserted, and the loop goes on. */
  lemma CrawlStep(web: Web, download: Reader, href: string, fuel: nat, latest: Option<string>, found: Found)
    requires Read(web, download, Unsplit(href)) == Some(found) && latest != Some(found.date)
    requires web[Unsplit(href)].prev.Some? && fuel > 0
    ensures var rest := CrawlFrom(web, download, web[Unsplit(href)].prev.value, fuel - 1, latest);
      CrawlFrom(web, download, href, fuel, latest) == Crawled([found] + rest.rows, [Unsplit(href)] + rest.visited, rest.halt)
  {
  }

  /**
   * From the latest comic, when the dates strictly decrease along linked readable pages
   * and the stored date is the last one's, the loop inserts exactly the pages before it
   * and stops there, whatever lies further back.
   */
  lemma CrawlComicCatchesUp(web: Web, download: Reader, start: Url, p: seq<Url>)
    requires 0 < |p| && Linked(web, p) && p[0] == Unsplit(FirstHref(start))
    requires AllRead(web, download, p) && Decreasing(ChainFound(web, download, p))
    ensures var found := ChainFound(web, download, p);
      CrawlComic(web, download, start, Some(found[|p| - 1].date)) == Crawled(found[..|p| - 1], p, CaughtUp)
  {
    var found := ChainFound(web, download, p);
    forall i | 0 <= i < |p| - 1
      ensures found[i].date != found[|p| - 1].date
    {
      LexIrreflexive(found[i].date);
    }
    forall i, j | 0 <= i < j < |p|
      ensures p[i] != p[j]
    {
      LexIrreflexive(found[i].date);
      assert Read(web, download, p[i]) != Read(web, download, p[j]);
    }
    assert forall i :: 0 <= i < |p| ==> p[i] in web.Keys;
    DistinctWithin(p, web.Keys);
    CrawlCatchesUp(web, download, p, found, FirstHref(start), |web|);
  }

  /** A latest comic whose page does not read ends the loop at once, with nothing inserted. */
  lemma CrawlComicUnreadHead(web: Web, download: Reader, start: Url, latest: Option<string>)
    requires Unsplit(FirstHref(start)) in web && download(web[Unsplit(FirstHref(start))]).None?
    ensures CrawlComic(web, download, start, latest) == Crawled([], [Unsplit(FirstHref(start))], BadDate)
  {
  }
}
