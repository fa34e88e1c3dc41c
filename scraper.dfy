/**
 * The crawler: `WebScraper` with its robots check, same-site URL filter,
 * link extraction, per-URL step and breadth-first crawl loop.
 * The network, robots.txt parsing, `urlparse`/`urljoin` and md5 are oracles
 * gathered in a `Web` value; each URL is fetched at most once, so a fixed
 * function per URL is enough to describe what a run sees.
 */
module Scraper {
  import opened Common
  import opened PyStr
  import opened TextCleaner
  import opened PageExtractor

  /** What asking for the robots.txt of a URL's origin gives. */
  datatype RobotsReply =
    | RobotsUnreachable                          // the request, or anything around it, raised
    | RobotsResponse(status: int, allows: bool)  // `allows`: can_fetch("*", url) over the body

  /** What fetching a page gives. */
  datatype PageReply =
    | PageUnreachable                            // the request, the parsing or the text extraction raised
    | PageResponse(status: int, page: Page)

  /** The oracles the scraper consults. `netloc(u)` is `urlparse(u).netloc`,
      None when `urlparse` raises; `urljoin(base, href)` is None when it
      raises (an href such as `http://[oops` is not a valid IPv6 URL). */
  datatype Web = Web(
    netloc: string -> Option<string>,
    urljoin: (string, string) -> Option<string>,
    robots: string -> RobotsReply,
    fetch: string -> PageReply,
    md5Hex: string -> string)

  const HttpOk := 200

  /** `check_robots_txt(url)`: fails open, so a URL is refused only when
      robots.txt was fetched with status 200 and disallows it. */
  function CheckRobotsTxt(reply: RobotsReply): (allowed: bool)
    ensures !allowed <==> reply.RobotsResponse? && reply.status == HttpOk && !reply.allows
  {
    match reply
    case RobotsUnreachable => true
    case RobotsResponse(status, allows) => if status == HttpOk then allows else true
  }

  /** `is_valid_url(url)`: a relative URL, the base host itself, or a host
      ending in '.' followed by the base host. */
  function IsValidUrl(netloc: string -> Option<string>, baseUrl: string, url: string): bool
  {
    match (netloc(url), netloc(baseUrl))
    case (Some(host), Some(base)) => host == "" || host == base || EndsWith(host, "." + base)
    case _ => false
  }

  /** A host accepted by is_valid_url is the base host, or has the base host
      as its last labels: the character before the base host is a '.'. */
  lemma ValidHostIsBaseOrSubdomain(netloc: string -> Option<string>, baseUrl: string, url: string)
    requires IsValidUrl(netloc, baseUrl, url) && netloc(url).Some? && netloc(url).value != ""
    ensures netloc(baseUrl).Some?
    ensures var host, base := netloc(url).value, netloc(baseUrl).value;
      host == base || (|host| > |base| && host[|host| - |base| - 1] == '.' && host[|host| - |base|..] == base)
  {
    var host, base := netloc(url).value, netloc(baseUrl).value;
    if host != base {
      var suffix := "." + base;
      assert host[|host| - |suffix|..] == suffix;
      assert host[|host| - |base| - 1] == suffix[0];
      assert host[|host| - |base|..] == suffix[1..];
    }
  }

  /** Conversely, the base host itself, and any host that has the base host
      as its last labels, is accepted. */
  lemma SubdomainHostAccepted(netloc: string -> Option<string>, baseUrl: string, url: string)
    requires netloc(url).Some? && netloc(baseUrl).Some?
    requires var host, base := netloc(url).value, netloc(baseUrl).value;
      host == base || (|host| > |base| && host[|host| - |base| - 1] == '.' && host[|host| - |base|..] == base)
    ensures IsValidUrl(netloc, baseUrl, url)
  {
    var host, base := netloc(url).value, netloc(baseUrl).value;
    if host != base {
      assert host[|host| - |base| - 1..] == "." + base;
    }
  }

  /** A host that merely ends in the same letters is not the same site. */
  lemma LookalikeHostRejected(netloc: string -> Option<string>, baseUrl: string, url: string)
    requires netloc(baseUrl) == Some("example.com")
    requires netloc(url) == Some("badexample.com")
    ensures !IsValidUrl(netloc, baseUrl, url)
  {
    var host := "badexample.com";
    assert host[|host| - |".example.com"|..][0] == 'd';
  }

  // ---------------------------------------------------------------- links

  /** The anchor is one extract_links joins: kept, with an `href` that does
      not start with '#'. */
  predicate Joined(a: Anchor)
  {
    !a.removed && a.href.Some? && !StartsWith(a.href.value, "#")
  }

  /** Every anchor extract_links joins joins without raising. */
  predicate AllJoin(web: Web, current: string, anchors: seq<Anchor>)
  {
    forall i :: 0 <= i < |anchors| && Joined(anchors[i]) ==> web.urljoin(current, anchors[i].href.value).Some?
  }

  /** The URL an anchor contributes to extract_links, if any: anchors removed
      with their enclosing tag, without `href`, or whose `href` starts with
      '#' contribute nothing; otherwise the joined URL if it is valid. */
  function LinkTarget(web: Web, baseUrl: string, current: string, a: Anchor): Option<string>
  {
    if !Joined(a) then None
    else
      match web.urljoin(current, a.href.value)
      case None => None
      case Some(absolute) => if IsValidUrl(web.netloc, baseUrl, absolute) then Some(absolute) else None
  }

  /** The set extract_links returns for a list of anchors. */
  function LinksOf(web: Web, baseUrl: string, current: string, anchors: seq<Anchor>): set<string>
    decreases |anchors|
  {
    if anchors == [] then {}
    else
      var last := LinkTarget(web, baseUrl, current, anchors[|anchors| - 1]);
      LinksOf(web, baseUrl, current, anchors[..|anchors| - 1]) + (if last.Some? then {last.value} else {})
  }

  /** `extract_links(soup, current_url)`: None when `urljoin` raises, which
      ends the loop. */
  method ExtractLinks(web: Web, baseUrl: string, anchors: seq<Anchor>, current: string) returns (links: Option<set<string>>)
    ensures links.Some? <==> AllJoin(web, current, anchors)
    ensures links.Some? ==> links.value == LinksOf(web, baseUrl, current, anchors)
  {
    var found := {};
    for i := 0 to |anchors|
      invariant found == LinksOf(web, baseUrl, current, anchors[..i])
      invariant AllJoin(web, current, anchors[..i])
    {
      assert anchors[..i + 1][..i] == anchors[..i];
      var a := anchors[i];
      if a.removed || a.href.None? {
        continue;
      }
      var href := a.href.value;
      if StartsWith(href, "#") {
        continue;
      }
      var joined := web.urljoin(current, href);
      if joined.None? {
        return None;
      }
      var absolute := joined.value;
      if IsValidUrl(web.netloc, baseUrl, absolute) {
        found := found + {absolute};
      }
    }
    assert anchors[..|anchors|] == anchors;
    return Some(found);
  }

  /** A URL is among the links exactly when some anchor contributes it. */
  lemma {:induction false} LinksOfCharacterised(web: Web, baseUrl: string, current: string, anchors: seq<Anchor>, url: string)
    ensures url in LinksOf(web, baseUrl, current, anchors) <==>
      exists i :: 0 <= i < |anchors| && LinkTarget(web, baseUrl, current, anchors[i]) == Some(url)
    decreases |anchors|
  {
    if anchors != [] {
      var init := anchors[..|anchors| - 1];
      LinksOfCharacterised(web, baseUrl, current, init, url);
      if exists i :: 0 <= i < |init| && LinkTarget(web, baseUrl, current, init[i]) == Some(url) {
        var i :| 0 <= i < |init| && LinkTarget(web, baseUrl, current, init[i]) == Some(url);
        assert anchors[i] == init[i];
      }
      if exists i :: 0 <= i < |anchors| && LinkTarget(web, baseUrl, current, anchors[i]) == Some(url) {
        var i :| 0 <= i < |anchors| && LinkTarget(web, baseUrl, current, anchors[i]) == Some(url);
        if i < |init| {
          assert init[i] == anchors[i];
        }
      }
    }
  }

  /** Every link extract_links returns passes is_valid_url. */
  lemma {:induction false} LinksAreValid(web: Web, baseUrl: string, current: string, anchors: seq<Anchor>)
    ensures forall u :: u in LinksOf(web, baseUrl, current, anchors) ==> IsValidUrl(web.netloc, baseUrl, u)
    decreases |anchors|
  {
    if anchors != [] {
      LinksAreValid(web, baseUrl, current, anchors[..|anchors| - 1]);
    }
  }

  /** An anchor whose href starts with '#', or that was removed with its
      enclosing tag, adds no link. */
  lemma IgnoredAnchorAddsNothing(web: Web, baseUrl: string, current: string, anchors: seq<Anchor>, a: Anchor)
    requires a.removed || (a.href.Some? && StartsWith(a.href.value, "#"))
    ensures LinksOf(web, baseUrl, current, anchors + [a]) == LinksOf(web, baseUrl, current, anchors)
  {
    assert (anchors + [a])[..|anchors|] == anchors;
  }

  // ---------------------------------------------------------------- records

  /** One entry of `scraped_data`: the extracted text plus `url` and `url_hash`. */
  datatype PageRecord = PageRecord(content: TextContent, url: string, urlHash: string)

  /** What scrape_page returns on success. */
  datatype ScrapeResult = ScrapeResult(record: PageRecord, links: set<string>)

  /** What get_summary returns. */
  datatype Summary = Summary(pagesScraped: nat, totalWords: nat, baseUrl: string)

  /** No two records share a URL. */
  predicate DistinctUrls(records: seq<PageRecord>)
  {
    forall i, j :: 0 <= i < j < |records| ==> records[i].url != records[j].url
  }

  /** The sum of `word_count` over the records. */
  function TotalWords(records: seq<PageRecord>): nat
  {
    if records == [] then 0 else TotalWords(records[..|records| - 1]) + records[|records| - 1].content.wordCount
  }

  /** The total is additive over concatenation. */
  lemma {:induction false} TotalWordsAppend(a: seq<PageRecord>, b: seq<PageRecord>)
    ensures TotalWords(a + b) == TotalWords(a) + TotalWords(b)
    decreases |b|
  {
    if b == [] {
      assert a + b == a;
    } else {
      var init := b[..|b| - 1];
      TotalWordsAppend(a, init);
      assert (a + b)[..|a + b| - 1] == a + init;
    }
  }

  /** The total is zero exactly when no record has a word. */
  lemma {:induction false} TotalWordsZeroIff(records: seq<PageRecord>)
    ensures TotalWords(records) == 0 <==> forall k :: 0 <= k < |records| ==> records[k].content.wordCount == 0
    decreases |records|
  {
    if records != [] {
      var init := records[..|records| - 1];
      TotalWordsZeroIff(init);
      assert forall k :: 0 <= k < |init| ==> init[k] == records[k];
    }
  }

  /** Records with distinct URLs, all inside a set, are no more than the set. */
  lemma {:induction false} DistinctWithinSet(records: seq<PageRecord>, within: set<string>)
    requires DistinctUrls(records)
    requires forall i :: 0 <= i < |records| ==> records[i].url in within
    ensures |records| <= |within|
    decreases |records|
  {
    if records != [] {
      var rest := records[1..];
      assert forall i :: 0 <= i < |rest| ==> rest[i] == records[i + 1] && rest[i].url != records[0].url;
      DistinctWithinSet(rest, within - {records[0].url});
    }
  }

  /** scrape_page succeeds for the URL: robots.txt allows it, the fetch
      answered 200, and every link of the page joined without raising. */
  predicate Accepts(web: Web, url: string)
  {
    && CheckRobotsTxt(web.robots(url)) && web.fetch(url).PageResponse? && web.fetch(url).status == HttpOk
    && AllJoin(web, url, web.fetch(url).page.anchors)
  }

  /** A page with a link that `urljoin` cannot join is never scraped: the
      exception ends scrape_page before its record is appended. */
  lemma UnjoinableLinkNotScraped(web: Web, url: string, i: nat)
    requires web.fetch(url).PageResponse? && i < |web.fetch(url).page.anchors|
    requires Joined(web.fetch(url).page.anchors[i])
    requires web.urljoin(url, web.fetch(url).page.anchors[i].href.value).None?
    ensures !Accepts(web, url)
  {
    assert !AllJoin(web, url, web.fetch(url).page.anchors);
  }

  /** The record scrape_page appends for an accepted URL. */
  function RecordFor(isWord: char -> bool, web: Web, url: string): PageRecord
    requires Accepts(web, url)
  {
    PageRecord(TextContentOf(isWord, web.fetch(url).page), url, web.md5Hex(url))
  }

  /** The links scrape_page reports for an accepted URL. */
  function OutLinks(web: Web, baseUrl: string, url: string): set<string>
    requires Accepts(web, url)
  {
    LinksOf(web, baseUrl, url, web.fetch(url).page.anchors)
  }

  /** Every record was scraped from a claimed, accepted URL, and no URL was
      scraped twice. */
  predicate RecordsClaimed(web: Web, records: seq<PageRecord>, visited: set<string>)
  {
    && (forall k :: 0 <= k < |records| ==> records[k].url in visited && Accepts(web, records[k].url))
    && DistinctUrls(records)
  }

  /** Every record is the record scrape_page builds for its own URL. */
  predicate Extracted(isWord: char -> bool, web: Web, records: seq<PageRecord>)
    decreases |records|
  {
    records == [] ||
      var last := records[|records| - 1];
      && Extracted(isWord, web, records[..|records| - 1])
      && Accepts(web, last.url)
      && last == RecordFor(isWord, web, last.url)
  }

  /** Each record of an extracted sequence is the record of its URL. */
  lemma {:induction false} ExtractedAt(isWord: char -> bool, web: Web, records: seq<PageRecord>, k: nat)
    requires Extracted(isWord, web, records) && k < |records|
    ensures Accepts(web, records[k].url) && records[k] == RecordFor(isWord, web, records[k].url)
    decreases |records|
  {
    if k < |records| - 1 {
      var init := records[..|records| - 1];
      ExtractedAt(isWord, web, init, k);
      assert init[k] == records[k];
    }
  }

  /** Claiming a URL keeps the records claimed. */
  lemma ClaimKeepsRecordsClaimed(web: Web, records: seq<PageRecord>, visited: set<string>, url: string)
    requires RecordsClaimed(web, records, visited)
    ensures RecordsClaimed(web, records, visited + {url})
  {
  }

  /** Appending a record keeps the earlier ones and adds one with its URL. */
  lemma AppendRecord(records: seq<PageRecord>, r: PageRecord)
    ensures (records + [r])[..|records|] == records
    ensures forall k :: |records| <= k < |records + [r]| ==> (records + [r])[k].url == r.url
  {
  }

  /** Appending the record of a newly claimed, accepted URL keeps the records
      claimed. */
  lemma AppendKeepsRecordsClaimed(web: Web, records: seq<PageRecord>, visited: set<string>, r: PageRecord)
    requires RecordsClaimed(web, records, visited)
    requires r.url !in visited && Accepts(web, r.url)
    ensures RecordsClaimed(web, records + [r], visited + {r.url})
  {
    var after := records + [r];
    forall k | 0 <= k < |after|
      ensures after[k].url in visited + {r.url} && Accepts(web, after[k].url)
    {
      if k < |records| {
        assert after[k] == records[k];
      }
    }
    forall i, j | 0 <= i < j < |after| ensures after[i].url != after[j].url {
      assert after[i] == records[i];
    }
  }

  /** Appending the record of an accepted URL keeps the records extracted. */
  lemma AppendKeepsExtracted(isWord: char -> bool, web: Web, records: seq<PageRecord>, url: string)
    requires Extracted(isWord, web, records) && Accepts(web, url)
    ensures Extracted(isWord, web, records + [RecordFor(isWord, web, url)])
  {
    assert (records + [RecordFor(isWord, web, url)])[..|records|] == records;
  }

  /** Appending the record of a newly claimed, accepted URL keeps the records
      claimed and extracted, and keeps the earlier records in front of it. */
  lemma ScrapedRecordAppended(isWord: char -> bool, web: Web, records: seq<PageRecord>, visited: set<string>, url: string)
    requires RecordsClaimed(web, records, visited) && Extracted(isWord, web, records)
    requires url !in visited && Accepts(web, url)
    ensures var after := records + [RecordFor(isWord, web, url)];
      && RecordsClaimed(web, after, visited + {url}) && Extracted(isWord, web, after)
      && after[..|records|] == records
      && forall k :: |records| <= k < |after| ==> after[k].url == url
  {
    var r := RecordFor(isWord, web, url);
    AppendRecord(records, r);
    AppendKeepsRecordsClaimed(web, records, visited, r);
    AppendKeepsExtracted(isWord, web, records, url);
  }

  /** Every link of every accepted record is claimed or waiting in the queue:
      the crawl has not lost a link it was shown. */
  predicate Covered(web: Web, baseUrl: string, records: seq<PageRecord>, visited: set<string>, queue: seq<string>)
  {
    forall k :: 0 <= k < |records| && Accepts(web, records[k].url) ==>
      forall l :: l in OutLinks(web, baseUrl, records[k].url) ==> l in visited || l in queue
  }

  /** One turn of the crawl loop keeps every link covered: the head of the
      queue is claimed, the rest stays queued, and a newly scraped page's links
      are claimed or queued. */
  lemma CoverageStep(web: Web, baseUrl: string, before: seq<PageRecord>, after: seq<PageRecord>,
                     visited: set<string>, queue: seq<string>, visited': set<string>, queue': seq<string>)
    requires Covered(web, baseUrl, before, visited, queue)
    requires queue != [] && visited' == visited + {queue[0]}
    requires forall u :: u in queue[1..] ==> u in queue'
    requires |before| <= |after| && after[..|before|] == before
    requires forall k :: |before| <= k < |after| ==> after[k].url == queue[0]
    requires |before| < |after| && Accepts(web, queue[0]) ==>
      forall l :: l in OutLinks(web, baseUrl, queue[0]) ==> l in visited' || l in queue'
    ensures Covered(web, baseUrl, after, visited', queue')
  {
    assert forall u :: u in queue ==> u == queue[0] || u in queue[1..];
    forall k | 0 <= k < |after| && Accepts(web, after[k].url)
      ensures forall l :: l in OutLinks(web, baseUrl, after[k].url) ==> l in visited' || l in queue'
    {
      if k < |before| {
        assert after[k] == before[k];
      }
    }
  }

  /** The crawl's frontier: the queue holds each URL once, none of them
      claimed yet, and every queued or claimed URL is the base URL or passes
      is_valid_url. */
  predicate Frontier(web: Web, baseUrl: string, queue: seq<string>, visited: set<string>)
  {
    && NoDuplicates(queue)
    && (forall u :: u in queue ==> u !in visited)
    && (forall u :: u in queue ==> u == baseUrl || IsValidUrl(web.netloc, baseUrl, u))
    && (forall u :: u in visited ==> u == baseUrl || IsValidUrl(web.netloc, baseUrl, u))
  }

  /** One turn of the crawl loop: the head of the queue is claimed, and the
      links of the page scraped from it (none when it was not scraped) that
      are not claimed are queued behind the rest. The frontier stays a
      frontier and every link shown so far stays covered. */
  lemma CrawlStep(web: Web, baseUrl: string, before: seq<PageRecord>, after: seq<PageRecord>,
                  visited: set<string>, queue: seq<string>, links: set<string>,
                  visited': set<string>, queue': seq<string>)
    requires Frontier(web, baseUrl, queue, visited) && Covered(web, baseUrl, before, visited, queue)
    requires queue != [] && visited' == visited + {queue[0]}
    requires forall u :: u in links ==> IsValidUrl(web.netloc, baseUrl, u)
    requires NoDuplicates(queue[1..]) ==> NoDuplicates(queue')
    requires forall u :: u in queue' <==> u in queue[1..] || (u in links && u !in visited')
    requires |before| <= |after| && after[..|before|] == before
    requires forall k :: |before| <= k < |after| ==> after[k].url == queue[0]
    requires |before| < |after| ==> Accepts(web, queue[0]) && links == OutLinks(web, baseUrl, queue[0])
    ensures Frontier(web, baseUrl, queue', visited') && Covered(web, baseUrl, after, visited', queue')
  {
    QueueTail(queue);
    CoverageStep(web, baseUrl, before, after, visited, queue, visited', queue');
  }

  /** The links one turn of the crawl has to queue: those of the page when
      it is accepted, none otherwise. */
  function TurnLinks(web: Web, baseUrl: string, url: string): (links: set<string>)
    ensures forall u :: u in links ==> IsValidUrl(web.netloc, baseUrl, u)
  {
    if Accepts(web, url) then
      LinksAreValid(web, baseUrl, url, web.fetch(url).page.anchors);
      OutLinks(web, baseUrl, url)
    else {}
  }

  /** Every claimed URL that robots.txt and the fetch accept has its record:
      the crawl loses no page it was able to scrape. */
  predicate AcceptedRecorded(web: Web, records: seq<PageRecord>, visited: set<string>)
  {
    forall u :: u in visited && Accepts(web, u) ==> exists k :: 0 <= k < |records| && records[k].url == u
  }

  /** Claiming a URL and appending its record when it is accepted keeps every
      accepted claimed URL recorded. */
  lemma {:induction false} RecordedStep(isWord: char -> bool, web: Web, records: seq<PageRecord>, visited: set<string>,
                                        url: string, records': seq<PageRecord>)
    requires AcceptedRecorded(web, records, visited)
    requires records' == records + (if Accepts(web, url) then [RecordFor(isWord, web, url)] else [])
    ensures AcceptedRecorded(web, records', visited + {url})
  {
    forall u | u in visited + {url} && Accepts(web, u)
      ensures exists k :: 0 <= k < |records'| && records'[k].url == u
    {
      if u == url {
        assert records'[|records|].url == url;
      } else {
        var k :| 0 <= k < |records| && records[k].url == u;
        assert records'[k] == records[k];
      }
    }
  }

  /** Where the crawl stands with respect to its start: before the first
      turn nothing is claimed and only the base URL is queued; afterwards the
      base URL is claimed and, when accepted, its record comes first. */
  predicate Started(web: Web, baseUrl: string, visited: set<string>, records: seq<PageRecord>, queue: seq<string>)
  {
    if baseUrl in visited then Accepts(web, baseUrl) ==> records != [] && records[0].url == baseUrl
    else visited == {} && queue == [baseUrl] && records == []
  }

  /** After a turn the base URL is claimed, and the record of the first page,
      once there, stays first. */
  lemma {:induction false} StartedStep(isWord: char -> bool, web: Web, baseUrl: string,
                                       visited: set<string>, records: seq<PageRecord>, queue: seq<string>,
                                       records': seq<PageRecord>, queue': seq<string>)
    requires Started(web, baseUrl, visited, records, queue) && queue != []
    requires records' == records + (if Accepts(web, queue[0]) then [RecordFor(isWord, web, queue[0])] else [])
    ensures baseUrl in visited + {queue[0]} && Started(web, baseUrl, visited + {queue[0]}, records', queue')
  {
    if baseUrl in visited && Accepts(web, baseUrl) {
      assert records'[0] == records[0];
    }
  }

  /** The URL is the base URL or a link of a scraped page: the crawl reaches
      it from the base URL by following links. */
  predicate Linked(web: Web, baseUrl: string, records: seq<PageRecord>, u: string)
  {
    u == baseUrl || exists k :: 0 <= k < |records| && Accepts(web, records[k].url) && u in OutLinks(web, baseUrl, records[k].url)
  }

  /** Every claimed and every queued URL is linked. */
  predicate Reached(web: Web, baseUrl: string, records: seq<PageRecord>, visited: set<string>, queue: seq<string>)
  {
    && (forall u :: u in visited ==> Linked(web, baseUrl, records, u))
    && (forall u :: u in queue ==> Linked(web, baseUrl, records, u))
  }

  /** A URL linked from some records stays linked when records are appended. */
  lemma {:induction false} LinkedGrows(web: Web, baseUrl: string, records: seq<PageRecord>, records': seq<PageRecord>, u: string)
    requires Linked(web, baseUrl, records, u)
    requires |records| <= |records'| && records'[..|records|] == records
    ensures Linked(web, baseUrl, records', u)
  {
    if u != baseUrl {
      var k :| 0 <= k < |records| && Accepts(web, records[k].url) && u in OutLinks(web, baseUrl, records[k].url);
      assert records'[k] == records[k];
    }
  }

  /** One turn keeps every claimed and queued URL linked: the head was
      queued, and the links queued behind it belong to its new record. */
  lemma {:induction false} ReachedStep(isWord: char -> bool, web: Web, baseUrl: string,
                                       records: seq<PageRecord>, visited: set<string>, queue: seq<string>,
                                       records': seq<PageRecord>, queue': seq<string>)
    requires Reached(web, baseUrl, records, visited, queue) && queue != []
    requires records' == records + (if Accepts(web, queue[0]) then [RecordFor(isWord, web, queue[0])] else [])
    requires forall u :: u in queue' ==> u in queue[1..] || u in TurnLinks(web, baseUrl, queue[0])
    ensures Reached(web, baseUrl, records', visited + {queue[0]}, queue')
  {
    assert records'[..|records|] == records;
    forall u | u in visited + {queue[0]} ensures Linked(web, baseUrl, records', u) {
      LinkedGrows(web, baseUrl, records, records', u);
    }
    forall u | u in queue' ensures Linked(web, baseUrl, records', u) {
      if u in queue[1..] {
        assert u in queue;
        LinkedGrows(web, baseUrl, records, records', u);
      } else {
        assert records'[|records|].url == queue[0];
      }
    }
  }

  // ---------------------------------------------------------------- queue

  /** The inner loop of crawl_website: append each link, in the set's own
      order, unless it was visited or is already queued. */
  method AppendUnseen(queue: seq<string>, links: set<string>, visited: set<string>) returns (extended: seq<string>)
    ensures |queue| <= |extended| && extended[..|queue|] == queue
    ensures NoDuplicates(queue) ==> NoDuplicates(extended)
    ensures forall u :: u in extended <==> u in queue || (u in links && u !in visited)
  {
    extended := queue;
    var pending := links;
    while pending != {}
      invariant pending <= links
      invariant |queue| <= |extended| && extended[..|queue|] == queue
      invariant NoDuplicates(queue) ==> NoDuplicates(extended)
      invariant forall u :: u in extended <==> u in queue || (u in links - pending && u !in visited)
      decreases |pending|
    {
      var link :| link in pending;
      if link !in visited && link !in extended {
        extended := extended + [link];
      }
      pending := pending - {link};
    }
  }

  /** Taking the head off a duplicate-free queue. */
  lemma QueueTail(queue: seq<string>)
    requires queue != [] && NoDuplicates(queue)
    ensures NoDuplicates(queue[1..]) && queue[0] !in queue[1..]
    ensures forall u :: u in queue <==> u == queue[0] || u in queue[1..]
  {
    assert queue == [queue[0]] + queue[1..];
    forall i, j | 0 <= i < j < |queue[1..]| ensures queue[1..][i] != queue[1..][j] {
      assert queue[1..][i] == queue[i + 1] && queue[1..][j] == queue[j + 1];
    }
  }

  // ---------------------------------------------------------------- the scraper

  class WebScraper {
    const baseUrl: string
    const maxPages: int
    const isWord: char -> bool
    const web: Web
    var visitedUrls: set<string>
    var scrapedData: seq<PageRecord>

    /** `WebScraper(base_url, delay, max_pages)`; the delay only paces requests. */
    constructor(baseUrl: string, maxPages: int, isWord: char -> bool, web: Web)
      ensures this.baseUrl == baseUrl && this.maxPages == maxPages
      ensures this.isWord == isWord && this.web == web
      ensures visitedUrls == {} && scrapedData == []
      ensures Valid()
    {
      this.baseUrl := baseUrl;
      this.maxPages := maxPages;
      this.isWord := isWord;
      this.web := web;
      visitedUrls := {};
      scrapedData := [];
    }

    /** Every record was scraped from a claimed, accepted URL, once, and is
        the record of that URL. */
    predicate Valid()
      reads this
    {
      RecordsClaimed(web, scrapedData, visitedUrls) && Extracted(isWord, web, scrapedData)
    }

    /** `get_summary()`. */
    function GetSummary(): (summary: Summary)
      reads this
      ensures summary.pagesScraped == |scrapedData| && summary.baseUrl == baseUrl
      ensures summary.totalWords == 0 <==> forall k :: 0 <= k < |scrapedData| ==> scrapedData[k].content.wordCount == 0
    {
      TotalWordsZeroIff(scrapedData);
      Summary(|scrapedData|, TotalWords(scrapedData), baseUrl)
    }

    /** `scrape_page(url)`: the URL is claimed before robots.txt is asked and
        before it is fetched, so a refused or failing URL is never retried. */
    method ScrapePage(url: string) returns (result: Option<ScrapeResult>)
      requires Valid()
      modifies this
      ensures Valid()
      ensures visitedUrls == old(visitedUrls) + {url}
      ensures result.Some? <==> url !in old(visitedUrls) && Accepts(web, url)
      ensures result.Some? ==> scrapedData == old(scrapedData) + [RecordFor(isWord, web, url)]
      ensures result.Some? ==> result.value == ScrapeResult(RecordFor(isWord, web, url), OutLinks(web, baseUrl, url))
      ensures result.None? ==> scrapedData == old(scrapedData)
      ensures |old(scrapedData)| <= |scrapedData| && scrapedData[..|old(scrapedData)|] == old(scrapedData)
      ensures forall k :: |old(scrapedData)| <= k < |scrapedData| ==> result.Some? && scrapedData[k].url == url
    {
      if url in visitedUrls {
        return None;
      }
      visitedUrls := visitedUrls + {url};
      ClaimKeepsRecordsClaimed(web, scrapedData, old(visitedUrls), url);
      result := FetchPage(url);
      if result.Some? {
        ScrapedRecordAppended(isWord, web, scrapedData, old(visitedUrls), url);
        scrapedData := scrapedData + [result.value.record];
      }
    }

    /** The part of `scrape_page` after the URL is claimed: ask robots.txt,
        fetch, and extract the text and the links of an accepted page. */
    method FetchPage(url: string) returns (result: Option<ScrapeResult>)
      ensures result.Some? <==> Accepts(web, url)
      ensures result.Some? ==> result.value == ScrapeResult(RecordFor(isWord, web, url), OutLinks(web, baseUrl, url))
    {
      if !CheckRobotsTxt(web.robots(url)) {
        return None;
      }
      var reply := web.fetch(url);
      if reply.PageUnreachable? || reply.status != HttpOk {
        return None;
      }
      var content := ExtractTextContent(isWord, reply.page);
      var links := ExtractLinks(web, baseUrl, reply.page.anchors, url);
      if links.None? {
        return None;
      }
      return Some(ScrapeResult(PageRecord(content, url, web.md5Hex(url)), links.value));
    }

    /** The page budget: `max_pages`, or nothing when it is not positive. */
    function Budget(): nat
    {
      if maxPages < 0 then 0 else maxPages
    }

    /** One turn of the crawl loop: pop the head of the queue, scrape it,
        and queue the links of the scraped page that are neither visited nor
        queued. The head is claimed; the frontier stays a frontier and every
        link shown so far stays covered. */
    method CrawlTurn(queue: seq<string>) returns (queue': seq<string>)
      requires Valid() && queue != []
      requires Frontier(web, baseUrl, queue, visitedUrls) && Covered(web, baseUrl, scrapedData, visitedUrls, queue)
      requires AcceptedRecorded(web, scrapedData, visitedUrls) && Started(web, baseUrl, visitedUrls, scrapedData, queue)
      requires Reached(web, baseUrl, scrapedData, visitedUrls, queue)
      modifies this
      ensures Valid() && AcceptedRecorded(web, scrapedData, visitedUrls)
      ensures visitedUrls == old(visitedUrls) + {queue[0]} && queue[0] !in old(visitedUrls)
      ensures baseUrl in visitedUrls && Started(web, baseUrl, visitedUrls, scrapedData, queue')
      ensures Reached(web, baseUrl, scrapedData, visitedUrls, queue')
      ensures scrapedData == old(scrapedData) + (if Accepts(web, queue[0]) then [RecordFor(isWord, web, queue[0])] else [])
      ensures |queue| - 1 <= |queue'| && queue'[..|queue| - 1] == queue[1..]
      ensures forall u :: u in queue' <==> u in queue[1..] || (u in TurnLinks(web, baseUrl, queue[0]) && u !in visitedUrls)
      ensures Frontier(web, baseUrl, queue', visitedUrls) && Covered(web, baseUrl, scrapedData, visitedUrls, queue')
    {
      ghost var before := scrapedData;
      ghost var oldVisited := visitedUrls;
      var url := queue[0];
      var result := ScrapePage(url);
      queue' := EnqueueLinks(queue, result);
      CrawlStep(web, baseUrl, before, scrapedData, oldVisited, queue, TurnLinks(web, baseUrl, url), visitedUrls, queue');
      RecordedStep(isWord, web, before, oldVisited, url, scrapedData);
      StartedStep(isWord, web, baseUrl, oldVisited, before, queue, scrapedData, queue');
      ReachedStep(isWord, web, baseUrl, before, oldVisited, queue, scrapedData, queue');
    }

    /** The rest of a crawl turn: the head is popped and the links of the
        scraped page that are neither claimed nor queued are appended. */
    method EnqueueLinks(queue: seq<string>, result: Option<ScrapeResult>) returns (queue': seq<string>)
      requires queue != []
      requires result.Some? <==> Accepts(web, queue[0])
      requires result.Some? ==> result.value.links == OutLinks(web, baseUrl, queue[0])
      ensures |queue| - 1 <= |queue'| && queue'[..|queue| - 1] == queue[1..]
      ensures NoDuplicates(queue[1..]) ==> NoDuplicates(queue')
      ensures forall u :: u in queue' <==> u in queue[1..] || (u in TurnLinks(web, baseUrl, queue[0]) && u !in visitedUrls)
    {
      queue' := queue[1..];
      if result.Some? {
        queue' := AppendUnseen(queue', result.value.links, visitedUrls);
      }
    }

    /** `crawl_website()`: breadth-first from the base URL until the queue is
        empty or `max_pages` URLs have been claimed. */
    method CrawlWebsite()
      modifies this
      ensures Valid() && AcceptedRecorded(web, scrapedData, visitedUrls)
      ensures |scrapedData| <= |visitedUrls| <= Budget()
      ensures maxPages > 0 ==> baseUrl in visitedUrls
      ensures maxPages > 0 && Accepts(web, baseUrl) ==> scrapedData != [] && scrapedData[0].url == baseUrl
      ensures forall u :: u in visitedUrls ==> u == baseUrl || IsValidUrl(web.netloc, baseUrl, u)
      ensures forall u :: u in visitedUrls ==> Linked(web, baseUrl, scrapedData, u)
      ensures |visitedUrls| < maxPages ==>
        forall k :: 0 <= k < |scrapedData| ==> OutLinks(web, baseUrl, scrapedData[k].url) <= visitedUrls
    {
      var queue := [baseUrl];
      visitedUrls := {};
      scrapedData := [];
      while queue != [] && |visitedUrls| < maxPages
        invariant Valid() && AcceptedRecorded(web, scrapedData, visitedUrls)
        invariant |visitedUrls| <= Budget()
        invariant Frontier(web, baseUrl, queue, visitedUrls) && Started(web, baseUrl, visitedUrls, scrapedData, queue)
        invariant Reached(web, baseUrl, scrapedData, visitedUrls, queue)
        invariant Covered(web, baseUrl, scrapedData, visitedUrls, queue)
        decreases Budget() - |visitedUrls|
      {
        queue := CrawlTurn(queue);
      }
      DistinctWithinSet(scrapedData, visitedUrls);
    }
  }
}
