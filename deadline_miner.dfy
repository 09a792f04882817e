/** The deadline miner: picking a deadline page out of search results,
    cutting a context window around every date match in the page text,
    cleaning and de-duplicating the snippets, and writing one row per
    university. The browser is a parameter; the date regex is represented by
    the spans it matched. */
module DeadlineMiner {
  import opened Wrappers
  import opened Text
  import Sorting

  const CouldNotFind := "Could not find "
  const NoPageMessage := CouldNotFind + "deadline page."
  const NoDatesMessage := CouldNotFind + "specific deadline dates. Check URL manually."
  const ErrorMessagePrefix := "An error occurred: "
  const NoUrl := "N/A"
  const Ellipsis := "..."
  const SnippetSeparator := "; "
  const LookBehind := 50
  const LookAhead := 100
  const ValidDomains := [".edu", ".ca", ".ac.uk", ".de", ".ch", ".org"]
  const SearchEngineDomain := "google.com"

  /** A row of the deadline run output: University, Found Deadline Info,
      Deadline Page URL. */
  datatype DeadlineRow = DeadlineRow(university: string, info: string, url: string)

  /** One match of the date pattern: characters [start, end) of the text. */
  datatype Span = Span(start: nat, end: nat)

  /** What `finditer` yields: non-empty matches inside the text, ascending and
      non-overlapping. */
  predicate ValidSpans(spans: seq<Span>, n: nat) {
    && (forall i | 0 <= i < |spans| :: spans[i].start < spans[i].end <= n)
    && (forall i, j | 0 <= i < j < |spans| :: spans[i].end <= spans[j].start)
  }

  /** A page load: the body text with its date matches, or the exception the
      load raised. */
  datatype PageFetch = Loaded(text: string, matches: seq<Span>) | FetchFailed(reason: string)

  predicate WellFormedFetch(page: PageFetch) {
    page.Loaded? ==> ValidSpans(page.matches, |page.text|)
  }

  datatype Window = Window(lo: nat, hi: nat)

  /** The context window of a match: up to 50 characters before it and 100
      after it, clipped to the text. It is cut short only at the text's ends. */
  function ContextWindow(n: nat, m: Span): (w: Window)
    requires m.start <= m.end <= n
    ensures w.lo <= m.start && m.end <= w.hi <= n
    ensures w.hi - w.lo <= (m.end - m.start) + LookBehind + LookAhead
    ensures w.lo > 0 ==> m.start - w.lo == LookBehind
    ensures w.hi < n ==> w.hi - m.end == LookAhead
    ensures w.lo == 0 ==> m.start <= LookBehind
    ensures w.hi == n ==> n - m.end <= LookAhead
  {
    Window(if m.start >= LookBehind then m.start - LookBehind else 0,
           if m.end + LookAhead <= n then m.end + LookAhead else n)
  }

  /** The recorded snippet of one match: the window with its whitespace
      collapsed, between two ellipses. */
  function Snippet(text: string, m: Span): (s: string)
    requires m.start <= m.end <= |text|
    ensures StartsWith(s, Ellipsis) && EndsWith(s, Ellipsis) && |s| >= 6
  {
    var w := ContextWindow(|text|, m);
    Ellipsis + CollapseWhitespace(text[w.lo..w.hi]) + Ellipsis
  }

  /** Between its ellipses a snippet holds the words of the window, in
      order, one space apart, with no newline and nothing at either end. */
  lemma SnippetShape(text: string, m: Span)
    requires m.start <= m.end <= |text|
    ensures var s := Snippet(text, m); var w := ContextWindow(|text|, m);
      && Collapsed(s[3..|s| - 3])
      && Words(s[3..|s| - 3]) == Words(text[w.lo..w.hi])
  {
    var w := ContextWindow(|text|, m);
    var s := Snippet(text, m);
    CollapseWhitespaceSpec(text[w.lo..w.hi]);
    assert s[3..|s| - 3] == CollapseWhitespace(text[w.lo..w.hi]);
  }

  /** The set `found_deadlines` after all matches have been seen. */
  function SnippetSet(text: string, ms: seq<Span>): set<string>
    requires ValidSpans(ms, |text|)
  {
    set k | 0 <= k < |ms| :: Snippet(text, ms[k])
  }

  /** `xs` lists the set `s`, each element once, in some order. */
  ghost predicate Listing(xs: seq<string>, s: set<string>) {
    Sorting.Distinct(xs) && forall x :: x in xs <==> x in s
  }

  /** The possible results of scraping one page. The order in which the
      distinct snippets are joined is the set's iteration order, left open. */
  ghost predicate ScrapeOutcome(page: PageFetch, info: string)
    requires WellFormedFetch(page)
  {
    match page
    case FetchFailed(reason) => info == ErrorMessagePrefix + reason
    case Loaded(text, ms) =>
      if ms == [] then info == NoDatesMessage
      else exists xs :: Listing(xs, SnippetSet(text, ms)) && info == Join(xs, SnippetSeparator)
  }

  lemma JoinStartsWithFirst(xs: seq<string>, sep: string, prefix: string)
    requires |xs| > 0 && StartsWith(xs[0], prefix)
    ensures StartsWith(Join(xs, sep), prefix)
  {
    if |xs| > 1 {
      assert Join(xs, sep) == xs[0] + (sep + Join(xs[1..], sep));
    }
  }

  lemma EllipsisIsNotSentinel(info: string)
    requires StartsWith(info, Ellipsis)
    ensures info != NoDatesMessage && info != NoPageMessage
  {
    assert info[0] == '.';
    assert NoDatesMessage[0] == 'C' && NoPageMessage[0] == 'C';
  }

  /** `scrape_deadlines_from_url` once the page is loaded or has failed. */
  method ScrapeDeadlines(page: PageFetch) returns (info: string)
    requires WellFormedFetch(page)
    ensures ScrapeOutcome(page, info)
    ensures page.Loaded? ==> (info == NoDatesMessage <==> page.matches == [])
    ensures page.Loaded? && page.matches != [] ==> StartsWith(info, Ellipsis)
  {
    match page
    case FetchFailed(reason) =>
      info := ErrorMessagePrefix + reason;
    case Loaded(text, ms) =>
      var found := CollectSnippets(text, ms);
      if found != {} {
        var xs := Sorting.Enumerate(found);
        info := Join(xs, SnippetSeparator);
        assert xs[0] in found;
        JoinStartsWithFirst(xs, SnippetSeparator, Ellipsis);
        EllipsisIsNotSentinel(info);
      } else {
        info := NoDatesMessage;
      }
  }

  /** The loop over `DATE_PATTERN.finditer`, adding each snippet to the set. */
  method CollectSnippets(text: string, ms: seq<Span>) returns (found: set<string>)
    requires ValidSpans(ms, |text|)
    ensures found == SnippetSet(text, ms)
    ensures found == {} <==> ms == []
  {
    found := {};
    for i := 0 to |ms|
      invariant found == set k | 0 <= k < i :: Snippet(text, ms[k])
    {
      found := found + {Snippet(text, ms[i])};
    }
    if ms != [] {
      assert Snippet(text, ms[0]) in found;
    }
  }

  /** A search-result anchor: its href, if any, and whether it has an h3. */
  datatype SearchLink = SearchLink(href: Option<string>, hasTitle: bool)

  /** The filter inside `get_deadline_page_url`: a non-empty href, a title,
      one of the six domain strings somewhere in the href, and no
      "google.com" anywhere in it. */
  predicate Eligible(link: SearchLink) {
    && link.href.Some? && link.href.value != "" && link.hasTitle
    && (exists d | d in ValidDomains :: Contains(link.href.value, d))
    && !Contains(link.href.value, SearchEngineDomain)
  }

  /** The query typed into the search engine. */
  function SearchQuery(university: string): (q: string)
    ensures StartsWith(q, university)
    ensures EndsWith(q, " undergraduate application deadlines")
  {
    university + " undergraduate application deadlines"
  }

  /** The href of the first eligible link. */
  function FirstEligibleHref(links: seq<SearchLink>): Option<string> {
    if links == [] then None
    else if Eligible(links[0]) then links[0].href
    else FirstEligibleHref(links[1..])
  }

  predicate FirstEligibleAt(links: seq<SearchLink>, i: int) {
    0 <= i < |links| && Eligible(links[i]) && forall j | 0 <= j < i :: !Eligible(links[j])
  }

  /** First match wins: the chosen href belongs to the first eligible link,
      and nothing is chosen exactly when no link is eligible. */
  lemma {:induction false} FirstEligibleHrefSpec(links: seq<SearchLink>)
    ensures var r := FirstEligibleHref(links);
      && (r.Some? ==> r.value != "" && exists i :: FirstEligibleAt(links, i) && links[i].href == r)
      && (r.None? <==> forall j | 0 <= j < |links| :: !Eligible(links[j]))
  {
    if links != [] && !Eligible(links[0]) {
      FirstEligibleHrefSpec(links[1..]);
      var r := FirstEligibleHref(links);
      if r.Some? {
        var i :| FirstEligibleAt(links[1..], i) && links[1..][i].href == r;
        assert FirstEligibleAt(links, i + 1);
      }
      if r.None? {
        forall j | 0 <= j < |links| ensures !Eligible(links[j]) {
          if j > 0 { assert links[j] == links[1..][j - 1]; }
        }
      }
    } else if links != [] {
      assert FirstEligibleAt(links, 0);
    }
  }

  /** The href test is a substring test: a commercial host that merely has
      ".edu" somewhere in its name is accepted. */
  lemma SubstringNotHost()
    ensures Eligible(SearchLink(Some("https://www.ucla.edu.example.com/"), true))
  {
    var href := "https://www.ucla.edu.example.com/";
    assert OccursAt(href, ".edu", 16);
    assert ".edu" in ValidDomains && Contains(href, ".edu");
    NotContainsWithoutFirstChar(href, SearchEngineDomain);
  }

  /** `get_deadline_page_url` after the search page has loaded; `None` for
      the results stands for a search that raised (timeout, CAPTCHA). */
  method GetDeadlinePageUrl(results: Option<seq<SearchLink>>) returns (url: Option<string>)
    ensures url == (if results.None? then None else FirstEligibleHref(results.value))
  {
    if results.None? {
      return None;
    }
    var links := results.value;
    for i := 0 to |links|
      invariant FirstEligibleHref(links) == FirstEligibleHref(links[i..])
    {
      var link := links[i];
      if link.href.Some? && link.href.value != "" && link.hasTitle {
        var hasDomain := exists d | d in ValidDomains :: Contains(link.href.value, d);
        if hasDomain && !Contains(link.href.value, SearchEngineDomain) {
          return link.href;
        }
      }
      assert links[i..][1..] == links[i + 1..];
    }
    return None;
  }

  /** Which page, if any, the search for a university leads to. */
  function FoundPage(university: string, search: string -> Option<seq<SearchLink>>): Option<string> {
    var results := search(SearchQuery(university));
    if results.None? then None else FirstEligibleHref(results.value)
  }

  /** The row that `main` writes for one university. */
  ghost predicate RowOutcome(university: string, search: string -> Option<seq<SearchLink>>,
                             fetch: string -> PageFetch, row: DeadlineRow)
    requires forall url :: WellFormedFetch(fetch(url))
  {
    && row.university == university
    && match FoundPage(university, search)
       case None => row.info == NoPageMessage && row.url == NoUrl
       case Some(u) => row.url == u && ScrapeOutcome(fetch(u), row.info)
  }

  /** `main`: one row per input university, in input order. */
  method MineUniversities(universities: seq<string>, search: string -> Option<seq<SearchLink>>,
                          fetch: string -> PageFetch) returns (rows: seq<DeadlineRow>)
    requires forall url :: WellFormedFetch(fetch(url))
    ensures |rows| == |universities|
    ensures forall i | 0 <= i < |rows| :: RowOutcome(universities[i], search, fetch, rows[i])
  {
    rows := [];
    for i := 0 to |universities|
      invariant |rows| == i
      invariant forall k | 0 <= k < i :: RowOutcome(universities[k], search, fetch, rows[k])
    {
      var row := MineUniversity(universities[i], search, fetch);
      rows := rows + [row];
    }
  }

  /** The body of `main`'s loop for one university. */
  method MineUniversity(uni: string, search: string -> Option<seq<SearchLink>>,
                        fetch: string -> PageFetch) returns (row: DeadlineRow)
    requires forall url :: WellFormedFetch(fetch(url))
    ensures RowOutcome(uni, search, fetch, row)
  {
    var deadlineUrl := GetDeadlinePageUrl(search(SearchQuery(uni)));
    ghost var links := search(SearchQuery(uni));
    if links.Some? { FirstEligibleHrefSpec(links.value); }
    var deadlineInfo := NoPageMessage;
    if deadlineUrl.Some? && deadlineUrl.value != "" {
      deadlineInfo := ScrapeDeadlines(fetch(deadlineUrl.value));
    }
    var url := if deadlineUrl.Some? && deadlineUrl.value != "" then deadlineUrl.value else NoUrl;
    row := DeadlineRow(uni, deadlineInfo, url);
  }
}
