/**
 * The bookkeeping of the page scraper in fetch_faculties.py: the page
 * URLs, the page count read off the pager of page 1, the per-page fetch
 * that turns any failure into an empty list, and the main script that
 * submits every page and gathers the results in the order the workers
 * finish. HTTP requests and the thread pool are not part of this model:
 * what a request returns is an input, and so is the completion order.
 */
module Faculties {

  import opened Wrappers
  import opened Strings
  import opened DigitSearch
  import opened FacultyFields
  import opened Gathering

  // ---------------------------------------------------------------------
  // Page URLs

  /** The query parameter that selects a result page. */
  const PageKey: string := "&page="

  /** `ThreadPoolExecutor(max_workers=MAX_WORKERS)`. */
  const MaxWorkers: nat := 32

  /**
   * `url.split("&page=")[0] if "&page=" in url else url`: the text before
   * the first `&page=`, or the whole URL when there is none. The result
   * never contains `&page=` itself.
   */
  function BaseWithoutPage(url: string): (b: string)
    ensures b <= url
    ensures b == url <==> forall j: nat :: !OccursAt(url, PageKey, j)
    ensures b != url ==> OccursAt(url, PageKey, |b|)
    ensures forall j: nat :: !OccursAt(b, PageKey, j)
  {
    match FindFrom(url, PageKey, 0)
    case None => url
    case Some(i) =>
      var b := url[..i];
      forall j: nat ensures !OccursAt(b, PageKey, j) {
        if j + |PageKey| <= |b| {
          assert b[j..j + |PageKey|] == url[j..j + |PageKey|];
          assert j < i;
          assert !OccursAt(url, PageKey, j);
        }
      }
      b
  }

  /** `&` opens the page key and stands nowhere else in it. */
  lemma AmpersandOnlyFirst(k: nat)
    requires 0 < k < |PageKey|
    ensures PageKey[k] != '&' && "page="[k - 1] != '&'
  {
  }

  /**
   * `f"{base_url}&page={page_num}"`: the base, the six characters of the
   * key, then the decimal page number.
   */
  function PageUrl(base: string, page: nat): (u: string)
    ensures |u| == |base| + AnchorLength + |Decimal(page)|
    ensures u[..|base|] == base && u[|base|..|base| + AnchorLength] == PageKey
    ensures u[|base| + AnchorLength..] == Decimal(page)
  {
    var a := base + PageKey;
    assert |a| == |base| + AnchorLength;
    a + Decimal(page)
  }

  /**
   * The page parameter of a pager link: the number that
   * `re.search(r"[?&]page=(\d+)", href)` captures, or None without a match.
   */
  function PageParam(href: string): (n: Option<nat>)
    ensures n.None? <==> forall j :: !MatchAt(PageAnchor, href, j)
  {
    match SearchDigits(PageAnchor, href)
    case None => None
    case Some(d) => Some(DigitsValue(d))
  }

  /** A page URL built from a base without `&page=` gives that base back. */
  lemma BaseOfPageUrl(base: string, page: nat)
    requires forall j: nat :: !OccursAt(base, PageKey, j)
    ensures BaseWithoutPage(PageUrl(base, page)) == base
  {
    var u := PageUrl(base, page);
    assert u[|base|..|base| + |PageKey|] == PageKey;
    assert OccursAt(u, PageKey, |base|);
    forall j | 0 <= j < |base| ensures !OccursAt(u, PageKey, j) {
      if j + |PageKey| <= |base| {
        assert u[j..j + |PageKey|] == base[j..j + |PageKey|];
        assert !OccursAt(base, PageKey, j);
      } else {
        var k := |base| - j;
        AmpersandOnlyFirst(k);
        assert u[j..j + |PageKey|][k] == u[|base|] == '&' != PageKey[k];
      }
    }
    var i := FindFrom(u, PageKey, 0).value;
    assert i == |base|;
    assert u[..|base|] == base;
  }

  /**
   * A page URL, read back as a pager link, reports the page it was built
   * for, provided the base itself carries no page parameter.
   */
  lemma PageUrlParam(base: string, page: nat)
    requires forall j: nat :: !MatchAt(PageAnchor, base, j)
    ensures PageParam(PageUrl(base, page)) == Some(page)
  {
    var u := PageUrl(base, page);
    var d := Decimal(page);
    var at := |base| + AnchorLength;
    PageUrlMatch(base, page);
    SearchDigitsAt(PageAnchor, u, |base|);
    DigitRunIsMaximal(u, at, d);
    DecimalRoundTrip(page);
  }

  /** The leftmost match in a page URL is the appended `&page=`. */
  lemma PageUrlMatch(base: string, page: nat)
    requires forall j: nat :: !MatchAt(PageAnchor, base, j)
    ensures MatchAt(PageAnchor, PageUrl(base, page), |base|)
    ensures forall j :: 0 <= j < |base| ==> !MatchAt(PageAnchor, PageUrl(base, page), j)
  {
    var u := PageUrl(base, page);
    var at := |base| + AnchorLength;
    assert u[|base|] == '&' && u[|base| + 1..at] == "page=";
    assert u[at] == Decimal(page)[0];
    forall j | 0 <= j < |base| ensures !MatchAt(PageAnchor, u, j) {
      NoMatchInBase(base, page, j);
    }
  }

  /** Before the appended `&page=`, a page URL holds no match: the base has none, and none straddles the join. */
  lemma NoMatchInBase(base: string, page: nat, j: nat)
    requires forall j: nat :: !MatchAt(PageAnchor, base, j)
    requires j < |base|
    ensures !MatchAt(PageAnchor, PageUrl(base, page), j)
  {
    var u := PageUrl(base, page);
    assert u[|base|] == '&';
    if j + AnchorLength < |base| {
      assert u[j] == base[j] && u[j + AnchorLength] == base[j + AnchorLength];
      assert u[j + 1..j + AnchorLength] == base[j + 1..j + AnchorLength];
      assert !MatchAt(PageAnchor, base, j);
    } else if j + AnchorLength > |base| {
      AmpersandOnlyFirst(|base| - j);
      assert u[j + 1..j + AnchorLength][|base| - j - 1] == u[|base|];
    }
  }

  // ---------------------------------------------------------------------
  // The page count

  /**
   * What fetching page 1 yields: a failure (request or parse error), a
   * page without `ul.pager`, or the `href` of each `li a` in the pager
   * (None for a link without one).
   */
  datatype Probe = ProbeFailed | NoPager | Pager(hrefs: seq<Option<string>>)

  /** The page number one pager link contributes, if any. */
  function LinkPage(href: Option<string>): (n: Option<nat>)
    ensures n.None? <==> href.None? || forall j :: !MatchAt(PageAnchor, href.value, j)
  {
    match href
    case None => None
    case Some(h) => PageParam(h)
  }

  /** The page number of each pager link, link by link. */
  function LinkPages(hrefs: seq<Option<string>>): (ns: seq<Option<nat>>)
    ensures |ns| == |hrefs| && forall i :: 0 <= i < |hrefs| ==> ns[i] == LinkPage(hrefs[i])
  {
    if hrefs == [] then [] else LinkPages(hrefs[..|hrefs| - 1]) + [LinkPage(hrefs[|hrefs| - 1])]
  }

  /** The page numbers found in the pager links: `page_numbers`. */
  function PageNumbers(ns: seq<Option<nat>>): (pages: set<nat>)
    ensures forall n :: n in pages ==> Some(n) in ns
  {
    if ns == [] then {}
    else
      PageNumbers(ns[..|ns| - 1])
      + match ns[|ns| - 1] case None => {} case Some(n) => {n}
  }

  /** A number is a page number exactly when some link carries it. */
  lemma {:induction false} PageNumbersOfLinks(ns: seq<Option<nat>>, n: nat)
    ensures n in PageNumbers(ns) <==> Some(n) in ns
    decreases |ns|
  {
    if ns != [] {
      var init := ns[..|ns| - 1];
      PageNumbersOfLinks(init, n);
      assert ns == init + [ns[|ns| - 1]];
    }
  }

  /** The largest page number among the links, or None when there is none. */
  function Largest(ns: seq<Option<nat>>): (m: Option<nat>)
    ensures m.None? <==> PageNumbers(ns) == {}
    ensures m.Some? ==> m.value in PageNumbers(ns) && forall p :: p in PageNumbers(ns) ==> p <= m.value
  {
    if ns == [] then None
    else
      var rest := Largest(ns[..|ns| - 1]);
      var here := ns[|ns| - 1];
      if here.None? then rest
      else if rest.None? || rest.value < here.value then here
      else rest
  }

  /**
   * `get_total_pages`: 0 when page 1 cannot be fetched or parsed, 1 when
   * it has no pager or no pager link with a page number, and otherwise the
   * largest page number linked.
   */
  function TotalPages(probe: Probe): (total: int)
    ensures total >= 0
    ensures probe.NoPager? ==> total == 1
    ensures total == 0 <==> probe.ProbeFailed? || (probe.Pager? && Largest(LinkPages(probe.hrefs)) == Some(0))
  {
    match probe
    case ProbeFailed => 0
    case NoPager => 1
    case Pager(hrefs) =>
      var ns := LinkPages(hrefs);
      if PageNumbers(ns) == {} then 1 else Largest(ns).value
  }

  /** The count, stated against the set of linked page numbers. */
  lemma TotalPagesOfPager(hrefs: seq<Option<string>>)
    ensures PageNumbers(LinkPages(hrefs)) == {} ==> TotalPages(Pager(hrefs)) == 1
    ensures PageNumbers(LinkPages(hrefs)) != {} ==>
              && TotalPages(Pager(hrefs)) in PageNumbers(LinkPages(hrefs))
              && forall p :: p in PageNumbers(LinkPages(hrefs)) ==> p <= TotalPages(Pager(hrefs))
  {
  }

  /**
   * `get_total_pages`: the page-1 URL it requests, and the count, from
   * the set of page numbers it collects link by link and then its maximum.
   */
  method GetTotalPages(base: string, probe: Probe) returns (url: string, total: int)
    ensures url == PageUrl(base, 1)
    ensures total == TotalPages(probe)
  {
    url := PageUrl(base, 1);
    match probe {
      case ProbeFailed =>
        return url, 0;
      case NoPager =>
        return url, 1;
      case Pager(hrefs) =>
        ghost var ns := LinkPages(hrefs);
        var pageNumbers: set<nat> := {};
        for i := 0 to |hrefs|
          invariant pageNumbers == PageNumbers(ns[..i])
        {
          assert ns[..i + 1][..i] == ns[..i];
          var href := hrefs[i];
          if href.Some? {
            var n := PageParam(href.value);
            if n.Some? {
              pageNumbers := pageNumbers + {n.value};
            }
          }
        }
        assert ns[..|hrefs|] == ns;
        if pageNumbers == {} {
          return url, 1;
        }
        total := MaxOf(pageNumbers);
        ghost var m := Largest(ns).value;
        assert total <= m && m <= total;
    }
  }

  /** `max(s)` for a non-empty set of page numbers. */
  method MaxOf(s: set<nat>) returns (m: nat)
    requires s != {}
    ensures m in s && forall p :: p in s ==> p <= m
  {
    m :| m in s;
    var rest := s - {m};
    while rest != {}
      invariant rest <= s && m in s
      invariant forall p :: p in s && p !in rest ==> p <= m
      decreases |rest|
    {
      var p :| p in rest;
      if m < p {
        m := p;
      }
      rest := rest - {p};
    }
  }

  // ---------------------------------------------------------------------
  // One page

  /** The publications of one page: its rows', or none when the fetch or the parse failed. */
  function PageData(fetched: Option<seq<ResultRow>>): (ps: seq<Publication>)
    ensures fetched.None? ==> ps == []
    ensures fetched.Some? ==> |ps| == |fetched.value|
  {
    match fetched
    case None => []
    case Some(rows) => PublicationsOf(rows)
  }

  /**
   * `fetch_and_parse_page`: the URL of the page, and the publications of
   * its rows; a timeout, a request error or any other error gives `[]`.
   */
  method FetchAndParsePage(page: nat, base: string, fetched: Option<seq<ResultRow>>)
    returns (url: string, data: seq<Publication>)
    ensures url == PageUrl(base, page)
    ensures data == PageData(fetched)
  {
    url := PageUrl(base, page);
    match fetched {
      case None =>
        data := [];
      case Some(rows) =>
        data := ExtractPublicationData(rows);
    }
  }

  // ---------------------------------------------------------------------
  // The main script

  /** The publications of each page, as `fetch_and_parse_page` returns them, by page number less one. */
  function PagesData(results: seq<Option<seq<ResultRow>>>): (pages: seq<seq<Publication>>)
    ensures |pages| == |results|
  {
    if results == [] then [] else PagesData(results[..|results| - 1]) + [PageData(results[|results| - 1])]
  }

  /** Entry `i` of `PagesData` is the data of result `i`. */
  lemma {:induction false} PagesDataIndex(results: seq<Option<seq<ResultRow>>>, i: nat)
    requires i < |results|
    ensures PagesData(results)[i] == PageData(results[i])
    decreases |results|
  {
    if i < |results| - 1 {
      var init := results[..|results| - 1];
      PagesDataIndex(init, i);
      assert PagesData(results)[i] == PagesData(init)[i];
    }
  }

  /**
   * `min(MAX_WORKERS, pages_remaining if pages_remaining > 0 else 1)`, the
   * divisor of the ETA estimate: never zero, never above the worker count.
   */
  function EtaDivisor(remaining: int): (d: nat)
    ensures 1 <= d <= MaxWorkers
    ensures remaining <= 0 ==> d == 1
    ensures 0 < remaining <= MaxWorkers ==> d == remaining
    ensures MaxWorkers <= remaining ==> d == MaxWorkers
  {
    var r := if remaining > 0 then remaining else 1;
    if MaxWorkers < r then MaxWorkers else r
  }

  /** The ETA divisors after the first, second, ..., `n`-th completion of `total` pages. */
  function EtaDivisors(total: int, n: nat): (ds: seq<nat>)
    ensures |ds| == n
  {
    if n == 0 then [] else EtaDivisors(total, n - 1) + [EtaDivisor(total - n)]
  }

  /** After the `i + 1`-th completion the divisor is taken for the `total - (i + 1)` pages remaining. */
  lemma {:induction false} EtaDivisorsAt(total: int, n: nat, i: nat)
    requires i < n
    ensures EtaDivisors(total, n)[i] == EtaDivisor(total - (i + 1))
  {
    if i < n - 1 {
      EtaDivisorsAt(total, n - 1, i);
      assert EtaDivisors(total, n)[i] == EtaDivisors(total, n - 1)[i];
    }
  }

  /** No ETA estimate ever divides by zero, nor by more than the worker count. */
  lemma EtaDivisorsBounded(total: int, n: nat)
    ensures forall i :: 0 <= i < n ==> 1 <= EtaDivisors(total, n)[i] <= MaxWorkers
  {
    forall i | 0 <= i < n ensures 1 <= EtaDivisors(total, n)[i] <= MaxWorkers {
      EtaDivisorsAt(total, n, i);
    }
  }

  /** The dictionary comprehension that submits one task per page, in page order. */
  method SubmitPages(total: int) returns (submitted: seq<nat>)
    ensures total <= 0 ==> submitted == []
    ensures total > 0 ==> submitted == PagesUpTo(total)
  {
    submitted := [];
    var page := 1;
    while page <= total
      invariant 1 <= page && (total > 0 ==> page <= total + 1) && (total <= 0 ==> page == 1)
      invariant submitted == PagesUpTo(page - 1)
      decreases total - page
    {
      submitted := submitted + [page];
      page := page + 1;
    }
  }

  /** The response the fetch of `page` gives: none for a page outside `1..|results|`. */
  function FetchedOf(results: seq<Option<seq<ResultRow>>>, page: nat): (r: Option<seq<ResultRow>>)
    ensures !(1 <= page <= |results|) ==> r.None?
  {
    if 1 <= page <= |results| then results[page - 1] else None
  }

  /** Adding the publications of the page that finished `i`-th extends the gathered list by one step. */
  lemma GatherNext(order: seq<nat>, results: seq<Option<seq<ResultRow>>>, i: nat)
    requires i < |order|
    ensures Gathered(order[..i], PagesData(results)) + PageData(FetchedOf(results, order[i]))
            == Gathered(order[..i + 1], PagesData(results))
  {
    PageOfFetched(results, order[i]);
    GatheredNext(order, PagesData(results), i, PageData(FetchedOf(results, order[i])));
  }

  /**
   * What `fetch_and_parse_page` gives for a page is that page of
   * `PagesData`; a page outside `1..|results|` gives nothing.
   */
  lemma PageOfFetched(results: seq<Option<seq<ResultRow>>>, page: nat)
    ensures PageOf(PagesData(results), page) == PageData(FetchedOf(results, page))
  {
    var pages := PagesData(results);
    if 1 <= page <= |results| {
      assert FetchedOf(results, page) == results[page - 1];
      assert PageOf(pages, page) == pages[page - 1];
      PagesDataIndex(results, page - 1);
    } else {
      assert PageOf(pages, page) == [];
    }
  }

  /**
   * One iteration of the `as_completed` loop: the `i`-th page to finish is
   * fetched and parsed, its publications are appended, and the ETA divisor
   * for the pages still remaining is taken.
   */
  method CompleteNext(base: string, total: int, order: seq<nat>, results: seq<Option<seq<ResultRow>>>,
                      i: nat, all: seq<Publication>, divisors: seq<nat>)
    returns (all': seq<Publication>, divisors': seq<nat>)
    requires i < |order|
    requires all == Gathered(order[..i], PagesData(results))
    requires divisors == EtaDivisors(total, i)
    ensures all' == Gathered(order[..i + 1], PagesData(results))
    ensures divisors' == EtaDivisors(total, i + 1)
  {
    var page := order[i];
    var _, pageData := FetchAndParsePage(page, base, FetchedOf(results, page));
    all' := all + pageData;
    assert all' == Gathered(order[..i + 1], PagesData(results)) by {
      GatherNext(order, results, i);
    }
    var pagesRemaining := total - (i + 1);
    divisors' := divisors + [EtaDivisor(pagesRemaining)];
  }

  /**
   * The `as_completed` loop over the pages in the order they finish: each
   * page's publications extend the accumulator, the counter rises by one,
   * and the divisor of the ETA estimate is taken for the pages remaining.
   */
  method CompletePages(base: string, total: int, order: seq<nat>, results: seq<Option<seq<ResultRow>>>)
    returns (all: seq<Publication>, completed: nat, divisors: seq<nat>)
    ensures all == Gathered(order, PagesData(results))
    ensures completed == |order|
    ensures divisors == EtaDivisors(total, |order|)
  {
    all, completed, divisors := [], 0, [];
    for i := 0 to |order|
      invariant completed == i
      invariant all == Gathered(order[..i], PagesData(results))
      invariant divisors == EtaDivisors(total, i)
    {
      all, divisors := CompleteNext(base, total, order, results, i, all, divisors);
      completed := completed + 1;
    }
    assert order[..|order|] == order;
  }

  /**
   * The main script: the page-free base URL, the page count from page 1,
   * and, when there is at least one page, every page submitted once and
   * its publications gathered in the order the pages finish. With no
   * pages nothing is scraped.
   */
  method ScrapeFaculty(baseUrl: string, probe: Probe, results: seq<Option<seq<ResultRow>>>, order: seq<nat>)
    returns (probeUrl: string, total: int, submitted: seq<nat>, all: seq<Publication>, completed: nat, divisors: seq<nat>)
    requires TotalPages(probe) > 0 ==> |results| == TotalPages(probe) && IsPageOrder(order, TotalPages(probe))
    ensures probeUrl == PageUrl(BaseWithoutPage(baseUrl), 1)
    ensures total == TotalPages(probe)
    ensures total <= 0 ==> submitted == [] && all == [] && completed == 0 && divisors == []
    ensures total > 0 ==>
              && submitted == PagesUpTo(total)
              && completed == total
              && all == Gathered(order, PagesData(results))
              && divisors == EtaDivisors(total, total)
  {
    var base := BaseWithoutPage(baseUrl);
    probeUrl, total := GetTotalPages(base, probe);
    if total <= 0 {
      return probeUrl, total, [], [], 0, [];
    }
    submitted := SubmitPages(total);
    PageOrderOnce(order, total, 0);
    all, completed, divisors := CompletePages(base, total, order, results);
  }
}
