/** The scraping helpers of `download.py`: reading the title list, fetching
    a page with a bounded wait on HTTP 429, the two fixed regular
    expressions, looking up an EPUB link for a title, and the file-name
    helpers used to decide whether a download is written. */
module Download {
  import opened Wrappers
  import opened Text
  import Percent
  import opened Library

  /** Seconds to wait when the server answers 429 ("Too Many Requests",
      section 4 of RFC 6585). */
  const WAIT_TIME := 300
  /** How many times `get_page` waits before giving up on a page. */
  const NUM_WAITS := 2

  /** `SEARCH_URL` around its `{title}` placeholder. */
  const SEARCH_URL_HEAD := "https://archiveofourown.org/works/search?commit=Search&work_search%5Bquery%5D=&work_search%5Btitle%5D="
  const SEARCH_URL_TAIL := "&work_search%5Bcreators%5D=&work_search%5Brevised_at%5D=&work_search%5Bcomplete%5D=&work_search%5Bcrossover%5D=&work_search%5Bsingle_chapter%5D=0&work_search%5Bword_count%5D=&work_search%5Blanguage_id%5D=&work_search%5Bfandom_names%5D=&work_search%5Brating_ids%5D=&work_search%5Bcharacter_names%5D=&work_search%5Brelationship_names%5D=&work_search%5Bfreeform_names%5D=&work_search%5Bhits%5D=&work_search%5Bkudos_count%5D=&work_search%5Bcomments_count%5D=&work_search%5Bbookmarks_count%5D=&work_search%5Bsort_column%5D=_score&work_search%5Bsort_direction%5D=desc"
  /** `WORK_URL` around its `{work}` placeholder. */
  const WORK_URL_HEAD := "https://archiveofourown.org/works/"
  const WORK_URL_TAIL := "?view_adult=true&view_full_work=true"

  /** `SEARCH_URL.format(title=title)`. */
  function SearchUrl(title: string): string
  {
    SEARCH_URL_HEAD + title + SEARCH_URL_TAIL
  }

  /** `WORK_URL.format(work=work)`. */
  function WorkUrl(work: string): string
  {
    WORK_URL_HEAD + work + WORK_URL_TAIL
  }

  // ---------------------------------------------------------------------
  // get_titles
  // ---------------------------------------------------------------------

  /** The titles a list of lines yields: each line stripped, blank lines
      dropped, order kept. */
  function CleanTitles(lines: seq<string>): (titles: seq<string>)
    ensures |titles| <= |lines|
  {
    if lines == [] then []
    else
      var t := Strip(lines[0]);
      (if t != "" then [t] else []) + CleanTitles(lines[1..])
  }

  /** Every title is non-empty and already stripped. */
  lemma {:induction false} CleanTitlesStripped(lines: seq<string>)
    ensures forall t :: t in CleanTitles(lines) ==> t != "" && Strip(t) == t
  {
    if lines != [] {
      StripIdempotent(lines[0]);
      CleanTitlesStripped(lines[1..]);
    }
  }

  /** Cleaning works line by line, so it keeps the order of the file. */
  lemma {:induction false} CleanTitlesAppend(a: seq<string>, b: seq<string>)
    ensures CleanTitles(a + b) == CleanTitles(a) + CleanTitles(b)
  {
    if a == [] {
      assert a + b == b;
    } else {
      assert (a + b)[0] == a[0] && (a + b)[1..] == a[1..] + b;
      CleanTitlesAppend(a[1..], b);
      var h := if Strip(a[0]) != "" then [Strip(a[0])] else [];
      calc {
        CleanTitles(a + b);
        h + CleanTitles(a[1..] + b);
        h + (CleanTitles(a[1..]) + CleanTitles(b));
        (h + CleanTitles(a[1..])) + CleanTitles(b);
      }
    }
  }

  /** One more line adds its stripped text unless it is blank. */
  lemma CleanTitlesSnoc(lines: seq<string>, line: string)
    ensures CleanTitles(lines + [line])
      == CleanTitles(lines) + (if Strip(line) != "" then [Strip(line)] else [])
  {
    assert CleanTitles([line]) == (if Strip(line) != "" then [Strip(line)] else []) by {
      assert [line][1..] == [];
    }
    CleanTitlesAppend(lines, [line]);
  }

  /** Every line that is not blank contributes its stripped text. */
  lemma {:induction false} CleanTitlesKeepsText(lines: seq<string>, k: nat)
    requires k < |lines| && Strip(lines[k]) != ""
    ensures Strip(lines[k]) in CleanTitles(lines)
  {
    if k > 0 {
      CleanTitlesKeepsText(lines[1..], k - 1);
    }
  }

  /** `get_titles` after the file has been read: `lines` are the file's lines. */
  method GetTitles(lines: seq<string>) returns (titles: seq<string>)
    ensures titles == CleanTitles(lines)
  {
    titles := [];
    var i := 0;
    while i < |lines|
      invariant 0 <= i <= |lines|
      invariant titles == CleanTitles(lines[..i])
    {
      var title := Strip(lines[i]);
      if title != "" {
        titles := titles + [title];
      }
      assert lines[..i + 1] == lines[..i] + [lines[i]];
      CleanTitlesSnoc(lines[..i], lines[i]);
      i := i + 1;
    }
    assert lines[..i] == lines;
  }

  // ---------------------------------------------------------------------
  // get_page
  // ---------------------------------------------------------------------

  /** What the server does with one request: a body, an HTTP error status, or
      a failure that is not an `HTTPError` (which `get_page` does not catch). */
  datatype Response = Body(text: string) | HttpError(code: int) | Unreachable

  /** What `get_page` produces: the page, `None`, or an exception escaping. */
  datatype PageResult = Got(page: string) | NoPage | Raised

  /** A call of `get_page` with the number of requests it made and the number
      of times it slept for `WAIT_TIME`. */
  datatype Fetch = Fetch(result: PageResult, attempts: nat, sleeps: nat)

  /** `get_page(url, _waits=waits)`; `net(w)` is the server's answer to the
      request made with `_waits == w`. */
  function GetPage(net: nat -> Response, waits: nat): (f: Fetch)
    ensures f.attempts == f.sleeps + 1
    ensures waits <= NUM_WAITS ==> f.attempts <= NUM_WAITS - waits + 1
    ensures forall k :: waits <= k < waits + f.sleeps ==> net(k) == HttpError(429)
    ensures waits + f.sleeps <= NUM_WAITS || f.sleeps == 0
    ensures match net(waits + f.sleeps)
      case Body(t) => f.result == Got(t)
      case Unreachable => f.result == Raised
      case HttpError(c) => f.result == NoPage && (c == 429 ==> waits + f.sleeps >= NUM_WAITS)
    decreases NUM_WAITS - waits
  {
    match net(waits)
    case Body(t) => Fetch(Got(t), 1, 0)
    case Unreachable => Fetch(Raised, 1, 0)
    case HttpError(c) =>
      if c == 429 && waits < NUM_WAITS then
        var f := GetPage(net, waits + 1);
        Fetch(f.result, f.attempts + 1, f.sleeps + 1)
      else
        Fetch(NoPage, 1, 0)
  }

  /** A server that keeps answering 429 is asked exactly `NUM_WAITS + 1`
      times, with `NUM_WAITS` waits in between, and the page is `None`. */
  lemma PersistentTooManyRequests(net: nat -> Response)
    requires forall k :: net(k) == HttpError(429)
    ensures GetPage(net, 0) == Fetch(NoPage, NUM_WAITS + 1, NUM_WAITS)
  {
  }

  /** Any other HTTP error gives `None` after the one request. */
  lemma OtherHttpErrorGivesUp(net: nat -> Response, waits: nat)
    requires net(waits).HttpError? && net(waits).code != 429
    ensures GetPage(net, waits) == Fetch(NoPage, 1, 0)
  {
  }

  // ---------------------------------------------------------------------
  // parse_page and the two fixed patterns
  // ---------------------------------------------------------------------

  /** `WORKNUM_RE` and `DOWNLOAD_RE`. */
  datatype Pattern = WorkNumPattern | DownloadPattern

  /** `WORKNUM_RE` is `<a href="/works/([0-9]+)">`. */
  const WORKNUM_OPEN := "<a href=\"/works/"
  const WORKNUM_CLOSE := "\">"
  /** `DOWNLOAD_RE` is `<a href="(/downloads/[^"]+)">EPUB</a>`. */
  const DOWNLOAD_OPEN := "<a href=\""
  const DOWNLOAD_DIR := "/downloads/"
  const DOWNLOAD_CLOSE := "\">EPUB</a>"

  predicate IsDigit(c: char)
  {
    '0' <= c <= '9'
  }

  predicate AllDigits(s: string)
  {
    forall k :: 0 <= k < |s| ==> IsDigit(s[k])
  }

  predicate NoQuote(s: string)
  {
    forall k :: 0 <= k < |s| ==> s[k] != '"'
  }

  /** `lit` occurs in `s` at position `i`. */
  predicate HasAt(s: string, i: nat, lit: string)
  {
    i + |lit| <= |s| && s[i..i + |lit|] == lit
  }

  /** Length of the longest run of digits in `s` from `i`. */
  function DigitRun(s: string, i: nat): (n: nat)
    requires i <= |s|
    ensures i + n <= |s| && AllDigits(s[i..i + n])
    ensures i + n < |s| ==> !IsDigit(s[i + n])
    decreases |s| - i
  {
    if i < |s| && IsDigit(s[i]) then
      var n := DigitRun(s, i + 1);
      assert s[i..i + 1 + n] == [s[i]] + s[i + 1..i + 1 + n];
      1 + n
    else 0
  }

  /** Length of the longest run of characters other than `"` in `s` from `i`. */
  function NonQuoteRun(s: string, i: nat): (n: nat)
    requires i <= |s|
    ensures i + n <= |s| && NoQuote(s[i..i + n])
    ensures i + n < |s| ==> s[i + n] == '"'
    decreases |s| - i
  {
    if i < |s| && s[i] != '"' then
      var n := NonQuoteRun(s, i + 1);
      assert s[i..i + 1 + n] == [s[i]] + s[i + 1..i + 1 + n];
      1 + n
    else 0
  }

  /** Capture group 1 of the pattern when it matches at position `i`. The
      greedy repetition must stop where the closing `"` starts, which is the
      end of the longest run, so no backtracking is needed. */
  function MatchAt(page: string, i: nat, pattern: Pattern): Option<string>
    requires i <= |page|
  {
    match pattern
    case WorkNumPattern =>
      if HasAt(page, i, WORKNUM_OPEN) then
        var j := i + |WORKNUM_OPEN|;
        var n := DigitRun(page, j);
        if n > 0 && HasAt(page, j + n, WORKNUM_CLOSE) then Some(page[j..j + n]) else None
      else None
    case DownloadPattern =>
      var j := i + |DOWNLOAD_OPEN|;
      if HasAt(page, i, DOWNLOAD_OPEN) && HasAt(page, j, DOWNLOAD_DIR) then
        var n := NonQuoteRun(page, j + |DOWNLOAD_DIR|);
        var e := j + |DOWNLOAD_DIR| + n;
        if n > 0 && HasAt(page, e, DOWNLOAD_CLOSE) then Some(page[j..e]) else None
      else None
  }

  /** The text a match of the pattern with group `g` spans. */
  function MatchText(pattern: Pattern, g: string): string
  {
    match pattern
    case WorkNumPattern => WORKNUM_OPEN + g + WORKNUM_CLOSE
    case DownloadPattern => DOWNLOAD_OPEN + g + DOWNLOAD_CLOSE
  }

  /** The groups each pattern can capture. */
  predicate IsGroup(pattern: Pattern, g: string)
  {
    match pattern
    case WorkNumPattern => g != "" && AllDigits(g)
    case DownloadPattern =>
      |g| > |DOWNLOAD_DIR| && g[..|DOWNLOAD_DIR|] == DOWNLOAD_DIR && NoQuote(g[|DOWNLOAD_DIR|..])
  }

  /** The hand-written matcher agrees with the regular expression: it
      captures `g` at `i` exactly when the page holds a match with group `g`
      there. */
  lemma MatchAtIff(page: string, i: nat, pattern: Pattern, g: string)
    requires i <= |page|
    ensures MatchAt(page, i, pattern) == Some(g) <==> IsGroup(pattern, g) && HasAt(page, i, MatchText(pattern, g))
  {
    if MatchAt(page, i, pattern) == Some(g) {
      if pattern.WorkNumPattern? { WorkNumSound(page, i, g); } else { DownloadSound(page, i, g); }
    }
    if IsGroup(pattern, g) && HasAt(page, i, MatchText(pattern, g)) {
      if pattern.WorkNumPattern? { WorkNumComplete(page, i, g); } else { DownloadComplete(page, i, g); }
    }
  }

  lemma WorkNumSound(page: string, i: nat, g: string)
    requires i <= |page| && MatchAt(page, i, WorkNumPattern) == Some(g)
    ensures IsGroup(WorkNumPattern, g) && HasAt(page, i, MatchText(WorkNumPattern, g))
  {
    var j := i + |WORKNUM_OPEN|;
    var n := DigitRun(page, j);
    assert g == page[j..j + n];
    JoinPieces(page, i, WORKNUM_OPEN, g, WORKNUM_CLOSE);
  }

  lemma WorkNumComplete(page: string, i: nat, g: string)
    requires i <= |page| && IsGroup(WorkNumPattern, g) && HasAt(page, i, MatchText(WorkNumPattern, g))
    ensures MatchAt(page, i, WorkNumPattern) == Some(g)
  {
    var j := i + |WORKNUM_OPEN|;
    SplitPieces(page, i, WORKNUM_OPEN, g, WORKNUM_CLOSE);
    assert page[j + |g|] == page[j + |g|..j + |g| + |WORKNUM_CLOSE|][0];
    DigitRunIs(page, j, |g|);
  }

  /** Three pieces side by side at `i` are their concatenation at `i`. */
  lemma JoinPieces(s: string, i: nat, a: string, b: string, c: string)
    requires HasAt(s, i, a) && HasAt(s, i + |a|, b) && HasAt(s, i + |a| + |b|, c)
    ensures HasAt(s, i, a + b + c)
  {
    assert s[i..i + |a| + |b| + |c|] == s[i..i + |a|] + s[i + |a|..i + |a| + |b|] + s[i + |a| + |b|..i + |a| + |b| + |c|];
  }

  /** A concatenation at `i` is its three pieces side by side. */
  lemma SplitPieces(s: string, i: nat, a: string, b: string, c: string)
    requires HasAt(s, i, a + b + c)
    ensures HasAt(s, i, a) && HasAt(s, i + |a|, b) && HasAt(s, i + |a| + |b|, c)
  {
    var t := a + b + c;
    SliceOfSlice(s, i, i + |t|, 0, |a|);
    SliceOfSlice(s, i, i + |t|, |a|, |a| + |b|);
    SliceOfSlice(s, i, i + |t|, |a| + |b|, |t|);
    assert t[..|a|] == a && t[|a|..|a| + |b|] == b && t[|a| + |b|..|t|] == c;
  }

  /** A slice of a slice is a slice of the whole. */
  lemma SliceOfSlice(s: string, a: nat, b: nat, c: nat, d: nat)
    requires a <= b <= |s| && c <= d <= b - a
    ensures s[a..b][c..d] == s[a + c..a + d]
  {
    var x, y := s[a..b][c..d], s[a + c..a + d];
    assert |x| == |y|;
    forall k | 0 <= k < |x|
      ensures x[k] == y[k]
    {
      assert x[k] == s[a..b][c + k] == s[a + c + k];
    }
  }

  lemma DownloadSound(page: string, i: nat, g: string)
    requires i <= |page| && MatchAt(page, i, DownloadPattern) == Some(g)
    ensures IsGroup(DownloadPattern, g) && HasAt(page, i, MatchText(DownloadPattern, g))
  {
    var o, d := DOWNLOAD_OPEN, DOWNLOAD_DIR;
    var j := i + |o|;
    var n := NonQuoteRun(page, j + |d|);
    var e := j + |d| + n;
    assert g == page[j..e];
    assert g[..|d|] == page[j..j + |d|];
    assert g[|d|..] == page[j + |d|..e];
    JoinPieces(page, i, o, g, DOWNLOAD_CLOSE);
  }

  lemma DownloadComplete(page: string, i: nat, g: string)
    requires i <= |page| && IsGroup(DownloadPattern, g) && HasAt(page, i, MatchText(DownloadPattern, g))
    ensures MatchAt(page, i, DownloadPattern) == Some(g)
  {
    var o, d, c := DOWNLOAD_OPEN, DOWNLOAD_DIR, DOWNLOAD_CLOSE;
    var j := i + |o|;
    var e := j + |g|;
    SplitPieces(page, i, o, g, c);
    assert page[e] == '"' by {
      assert page[e] == page[e..e + |c|][0];
    }
    assert HasAt(page, j, d) by {
      SliceOfSlice(page, j, e, 0, |d|);
    }
    assert NoQuote(page[j + |d|..e]) by {
      SliceOfSlice(page, j, e, |d|, |g|);
    }
    NonQuoteRunIs(page, j + |d|, |g| - |d|);
    DownloadMatchAt(page, i, g);
  }

  /** The pieces of a `DOWNLOAD_RE` match at `i`, each in place, make
      `MatchAt` capture `g`. */
  lemma DownloadMatchAt(page: string, i: nat, g: string)
    requires i + |DOWNLOAD_OPEN| + |g| <= |page| && |g| > |DOWNLOAD_DIR|
    requires HasAt(page, i, DOWNLOAD_OPEN) && HasAt(page, i + |DOWNLOAD_OPEN|, DOWNLOAD_DIR)
    requires page[i + |DOWNLOAD_OPEN|..i + |DOWNLOAD_OPEN| + |g|] == g
    requires NonQuoteRun(page, i + |DOWNLOAD_OPEN| + |DOWNLOAD_DIR|) == |g| - |DOWNLOAD_DIR|
    requires HasAt(page, i + |DOWNLOAD_OPEN| + |g|, DOWNLOAD_CLOSE)
    ensures MatchAt(page, i, DownloadPattern) == Some(g)
  {
  }

  /** A run of `n` digits followed by a non-digit is the longest run. */
  lemma DigitRunIs(s: string, i: nat, n: nat)
    requires i + n < |s| && AllDigits(s[i..i + n]) && !IsDigit(s[i + n])
    ensures DigitRun(s, i) == n
    decreases n
  {
    if n > 0 {
      assert IsDigit(s[i..i + n][0]);
      assert s[i + 1..i + n] == s[i..i + n][1..];
      DigitRunIs(s, i + 1, n - 1);
    }
  }

  /** A run of `n` characters other than `"` followed by `"` is the longest. */
  lemma NonQuoteRunIs(s: string, i: nat, n: nat)
    requires i + n < |s| && NoQuote(s[i..i + n]) && s[i + n] == '"'
    ensures NonQuoteRun(s, i) == n
    decreases n
  {
    if n > 0 {
      assert s[i..i + n][0] != '"';
      assert s[i + 1..i + n] == s[i..i + n][1..];
      NonQuoteRunIs(s, i + 1, n - 1);
    }
  }

  /** The leftmost position at or after `from` where the pattern matches. */
  function Search(page: string, pattern: Pattern, from: nat): (r: Option<nat>)
    requires from <= |page| + 1
    ensures r.Some? ==> from <= r.value <= |page| && MatchAt(page, r.value, pattern).Some?
    ensures forall k :: from <= k <= |page| && (r.None? || k < r.value) ==> MatchAt(page, k, pattern).None?
    decreases |page| + 1 - from
  {
    if from > |page| then None
    else if MatchAt(page, from, pattern).Some? then Some(from)
    else Search(page, pattern, from + 1)
  }

  /** `parse_page(page, pattern)`: capture group 1 of the leftmost match, or
      `None` when the pattern matches nowhere. */
  function ParsePage(page: string, pattern: Pattern): (r: Option<string>)
    ensures r.None? <==> forall k :: 0 <= k <= |page| ==> MatchAt(page, k, pattern).None?
    ensures r.Some? ==> exists k :: (0 <= k <= |page| && MatchAt(page, k, pattern) == r
      && forall j :: 0 <= j < k ==> MatchAt(page, j, pattern).None?)
  {
    match Search(page, pattern, 0)
    case None => None
    case Some(k) => MatchAt(page, k, pattern)
  }

  /** A work number `parse_page` finds with `WORKNUM_RE` is a non-empty
      string of ASCII digits standing in a work link of the page; a download
      path it finds with `DOWNLOAD_RE` starts with `/downloads/`. */
  lemma ParsePageGroup(page: string, pattern: Pattern)
    requires ParsePage(page, pattern).Some?
    ensures IsGroup(pattern, ParsePage(page, pattern).value)
    ensures exists k :: HasAt(page, k, MatchText(pattern, ParsePage(page, pattern).value))
  {
    var g := ParsePage(page, pattern).value;
    var k :| 0 <= k <= |page| && MatchAt(page, k, pattern) == Some(g);
    MatchAtIff(page, k, pattern, g);
  }

  // ---------------------------------------------------------------------
  // find_on_page and get_download_url
  // ---------------------------------------------------------------------

  /** The outcome of a lookup: found, `None`, or an exception escaping. */
  datatype Find = Found(value: string) | Missing | Crashed

  /** The network: `net(url)(w)` answers the request for `url` made with
      `_waits == w`. */
  type Net = string -> (nat -> Response)

  /** `find_on_page`: fetch the page and return group 1 of the leftmost
      match of the pattern. */
  function FindOnPage(net: Net, url: string, pattern: Pattern): (r: Find)
    ensures r.Found? ==> (GetPage(net(url), 0).result.Got?
                          && ParsePage(GetPage(net(url), 0).result.page, pattern) == Some(r.value))
    ensures r.Crashed? <==> GetPage(net(url), 0).result == Raised
    ensures r.Missing? <==> (GetPage(net(url), 0).result.NoPage?
                            || (GetPage(net(url), 0).result.Got? && ParsePage(GetPage(net(url), 0).result.page, pattern).None?))
  {
    match GetPage(net(url), 0).result
    case Got(page) =>
      (match ParsePage(page, pattern)
       case Some(m) => Found(m)
       case None => Missing)
    case NoPage => Missing
    case Raised => Crashed
  }

  /** A lookup of a pattern on the page at a URL: `find_on_page` itself is
      `NetFinder(net)`; `get_download_url` is stated for any such lookup. */
  type Finder = (string, Pattern) -> Find

  function NetFinder(net: Net): Finder
  {
    (url, pattern) => FindOnPage(net, url, pattern)
  }

  /** The result of `get_download_url` and the pages it requested, in order. */
  datatype UrlLookup = UrlLookup(result: Find, requested: seq<string>)

  /** The strict search URL (title in double quotes) and the loose one. */
  function QuotedSearch(lib: Lib, title: string): string
  {
    SearchUrl(lib.quotePlus("\"" + title + "\""))
  }

  function UnquotedSearch(lib: Lib, title: string): string
  {
    SearchUrl(lib.quotePlus(title))
  }

  /** `get_download_url(title)`, looking pages up with `find`: the quoted
      title is searched first, and the bare title only when that search
      finds no work number. */
  function GetDownloadUrl(lib: Lib, find: Finder, title: string): (r: UrlLookup)
    ensures |r.requested| >= 1 && r.requested[0] == QuotedSearch(lib, title)
  {
    LookupDownloadUrl(lib, find, QuotedSearch(lib, title), UnquotedSearch(lib, title))
  }

  /** The body of `get_download_url` once the title is encoded into the
      strict and the loose search URL: the EPUB link is looked up on the
      work page whose number the searches yield. */
  function LookupDownloadUrl(lib: Lib, find: Finder, strict: string, loose: string): (r: UrlLookup)
    ensures |r.requested| >= 1 && r.requested[0] == strict
    ensures r.result.Found? ==> (var w := r.requested[|r.requested| - 1];
      find(w, DownloadPattern).Found?
      && r.result.value == lib.urlJoin(w, find(w, DownloadPattern).value))
  {
    var first := find(strict, WorkNumPattern);
    var (workNum, searched) :=
      if first.Missing? then (find(loose, WorkNumPattern), [strict, loose])
      else (first, [strict]);
    match workNum
    case Crashed => UrlLookup(Crashed, searched)
    case Missing => UrlLookup(Missing, searched)
    case Found(n) =>
      var workUrl := WorkUrl(n);
      match find(workUrl, DownloadPattern)
      case Crashed => UrlLookup(Crashed, searched + [workUrl])
      case Missing => UrlLookup(Missing, searched + [workUrl])
      case Found(rel) => UrlLookup(Found(lib.urlJoin(workUrl, rel)), searched + [workUrl])
  }

  /** The loose search is made only when the strict one found no work
      number; a work number from either search leads straight to the work
      page; an exception, or no number, from the last search made ends the
      lookup. */
  lemma DownloadUrlSearchOrder(lib: Lib, find: Finder, strict: string, loose: string)
    ensures var r := LookupDownloadUrl(lib, find, strict, loose);
      var first := find(strict, WorkNumPattern);
      && (first.Missing? ==> |r.requested| >= 2 && r.requested[..2] == [strict, loose])
      && (first.Found? ==> r.requested == [strict, WorkUrl(first.value)])
      && (first.Crashed? ==> r == UrlLookup(Crashed, [strict]))
      && (var second := find(loose, WorkNumPattern);
          && (first.Missing? && second.Found? ==> r.requested == [strict, loose, WorkUrl(second.value)])
          && (first.Missing? && !second.Found? ==> r == UrlLookup(second, [strict, loose])))
  {
  }

  /** `get_download_url` returns `None` when neither search yields a work
      number, and when the work page that either search led to has no EPUB
      link. */
  lemma DownloadUrlMissing(lib: Lib, find: Finder, strict: string, loose: string)
    ensures var r := LookupDownloadUrl(lib, find, strict, loose).result;
      && (find(strict, WorkNumPattern).Missing? && find(loose, WorkNumPattern).Missing? ==> r == Missing)
      && (var first := find(strict, WorkNumPattern);
          first.Found? && find(WorkUrl(first.value), DownloadPattern).Missing? ==> r == Missing)
      && (var second := find(loose, WorkNumPattern);
          (find(strict, WorkNumPattern).Missing? && second.Found?
           && find(WorkUrl(second.value), DownloadPattern).Missing?) ==> r == Missing)
  {
  }

  // ---------------------------------------------------------------------
  // get_filename and matching_filenames
  // ---------------------------------------------------------------------

  /** The exception `get_filename` raises when the path has no segment. */
  datatype FilenameError = IndexError

  /** The non-empty `/`-separated segments of a URL path. */
  function Segments(path: string): (segs: seq<string>)
    ensures forall s :: s in segs ==> s != "" && '/' !in s
  {
    NonEmpty(Split(path, '/'))
  }

  /** `get_filename(url)`: the last non-empty segment of the URL's path,
      percent-decoded, or `IndexError` when there is none. */
  function GetFilename(lib: Lib, url: string): (r: Result<string, FilenameError>)
    ensures r.Err? <==> forall k :: 0 <= k < |lib.urlPath(url)| ==> lib.urlPath(url)[k] == '/'
  {
    NoSegmentsIff(lib.urlPath(url));
    var segs := Segments(lib.urlPath(url));
    if segs == [] then Err(IndexError) else Ok(Percent.Unquote(segs[|segs| - 1]))
  }

  /** The name `get_filename` gives is the decoding of the last non-empty
      segment of the path: every segment after it is empty. */
  lemma GetFilenameLastSegment(lib: Lib, url: string)
    requires GetFilename(lib, url).Ok?
    ensures exists j :: LastNonEmptyAt(Split(lib.urlPath(url), '/'), j)
                        && GetFilename(lib, url).value == Percent.Unquote(Split(lib.urlPath(url), '/')[j])
  {
    var pieces := Split(lib.urlPath(url), '/');
    var segs := Segments(lib.urlPath(url));
    assert segs == NonEmpty(pieces);
    NonEmptyLast(pieces);
    assert GetFilename(lib, url).value == Percent.Unquote(segs[|segs| - 1]);
    var j :| LastNonEmptyAt(pieces, j) && pieces[j] == segs[|segs| - 1];
    assert LastNonEmptyAt(pieces, j) && GetFilename(lib, url).value == Percent.Unquote(pieces[j]);
  }

  /** A path has no non-empty segment exactly when it is made only of `/`,
      so `get_filename` raises `IndexError` exactly for such paths. */
  lemma {:induction false} NoSegmentsIff(path: string)
    ensures Segments(path) == [] <==> forall k :: 0 <= k < |path| ==> path[k] == '/'
  {
    if path != [] {
      NoSegmentsIff(path[1..]);
      var rest := Split(path[1..], '/');
      if path[0] == '/' {
        assert Split(path, '/') == [""] + rest;
        assert NonEmpty(Split(path, '/')) == NonEmpty(rest);
      } else {
        assert Split(path, '/')[0] != "";
      }
    }
  }

  /** A leading `/` adds only an empty segment, which is dropped. */
  lemma LeadingSlashIgnored(path: string)
    ensures Segments("/" + path) == Segments(path)
  {
    assert ("/" + path)[1..] == path;
    assert Split("/" + path, '/') == [""] + Split(path, '/');
  }

  /** `get_filename` gives back a non-empty file name percent-encoded as
      the last segment of the URL's path. */
  lemma GetFilenameOfEncoded(lib: Lib, url: string, dir: string, name: string)
    requires name != "" && lib.urlPath(url) == dir + "/" + Percent.Quote(name)
    ensures GetFilename(lib, url) == Ok(name)
  {
    var q := Percent.Quote(name);
    Percent.QuoteAvoids(name, '/');
    SplitAppendPiece(dir, '/', q);
    NonEmptyAppend(Split(dir, '/'), q);
    Percent.UnquoteQuote(name);
  }

  /** Position of the last `c` in `s`, or -1 (Python's `str.rfind`). */
  function RFind(s: string, c: char): (i: int)
    ensures -1 <= i < |s|
    ensures i >= 0 ==> s[i] == c
    ensures forall k :: i < k < |s| ==> s[k] != c
  {
    if s == [] then -1
    else if s[|s| - 1] == c then |s| - 1
    else RFind(s[..|s| - 1], c)
  }

  /** `os.path.splitext(p)[0]` on POSIX: `p` without the part from its last
      `.` when that `.` follows the last `/` and is not one of the leading
      dots of the last segment. */
  function SplitExtRoot(p: string): (root: string)
    ensures |root| <= |p| && root == p[..|root|]
    ensures root != p ==> p[|root|] == '.' && '.' !in p[|root| + 1..] && '/' !in p[|root| + 1..]
  {
    var sep := RFind(p, '/');
    var dot := RFind(p, '.');
    if dot > sep && exists k :: sep + 1 <= k < dot && p[k] != '.' then p[..dot] else p
  }

  /** `matching_filenames(f1, f2)`. */
  function MatchingFilenames(f1: string, f2: string): (r: bool)
    ensures Strip(f1) == Strip(f2) ==> r
  {
    SplitExtRoot(Strip(f1)) == SplitExtRoot(Strip(f2))
  }

  lemma MatchingReflexiveSymmetric(f1: string, f2: string)
    ensures MatchingFilenames(f1, f1)
    ensures MatchingFilenames(f1, f2) == MatchingFilenames(f2, f1)
  {
  }

  /** Surrounding whitespace does not change whether two names match. */
  lemma MatchingIgnoresWhitespace(a: string, f1: string, b: string, f2: string)
    requires AllSpaces(a) && AllSpaces(b)
    ensures MatchingFilenames(a + f1 + b, f2) == MatchingFilenames(f1, f2)
  {
    StripPadded(a, f1, b);
  }

  /** The last segment of `r` has a character other than `.`, so a `.`
      after it starts an extension. */
  predicate HasStem(r: string)
  {
    exists k :: RFind(r, '/') < k < |r| && r[k] != '.'
  }

  /** Only the final extension is removed: `r.e` has root `r` whenever `e`
      holds no `.` or `/` and the last segment of `r` is not all dots. */
  lemma SplitExtOfExtension(r: string, e: string)
    requires HasStem(r) && '.' !in e && '/' !in e
    ensures SplitExtRoot(r + "." + e) == r
  {
    var p := r + "." + e;
    assert p[|r|] == '.';
    assert forall k :: |r| < k < |p| ==> p[k] == e[k - |r| - 1];
    assert RFind(p, '.') == |r| by { RFindIs(p, '.', |r|); }
    var sr := RFind(r, '/');
    assert r == p[..|r|];
    RFindPrefix(p, |r|, '/');
    var k :| sr < k < |r| && r[k] != '.';
    assert p[k] != '.';
  }

  /** The `rfind` of `p` is `i` when `p[i] == c` and no later character is `c`. */
  lemma RFindIs(p: string, c: char, i: nat)
    requires i < |p| && p[i] == c && forall k :: i < k < |p| ==> p[k] != c
    ensures RFind(p, c) == i
  {
    assert p[i] == c;
  }

  /** `rfind` of `c` ignores a tail without `c`. */
  lemma RFindPrefix(p: string, n: nat, c: char)
    requires n <= |p| && forall k :: n < k < |p| ==> p[k] != c
    requires n < |p| ==> p[n] != c
    ensures RFind(p, c) == RFind(p[..n], c)
    decreases |p| - n
  {
    if |p| > n {
      assert p[..|p| - 1][..n] == p[..n];
      RFindPrefix(p[..|p| - 1], n, c);
    }
  }

  /** Two names that differ only in their final extension match. */
  lemma MatchingIgnoresExtension(r: string, e1: string, e2: string)
    requires HasStem(r) && '.' !in e1 && '/' !in e1 && '.' !in e2 && '/' !in e2
    requires Strip(r + "." + e1) == r + "." + e1 && Strip(r + "." + e2) == r + "." + e2
    ensures MatchingFilenames(r + "." + e1, r + "." + e2)
  {
    SplitExtOfExtension(r, e1);
    SplitExtOfExtension(r, e2);
  }

  // ---------------------------------------------------------------------
  // download_EPUB
  // ---------------------------------------------------------------------

  /** What `download_EPUB` ends with: nothing fetched, a file name that does
      not match, the page written to `path`, a file that could not be
      written, or an exception escaping. */
  datatype DownloadOutcome =
    | NotFetched
    | NameMismatch(filename: string)
    | Written(path: string, data: string)
    | WriteFailed(path: string)
    | Failed

  /** `download_EPUB(source, destination, require_filename)`; `net` answers
      the requests for `source`, and `canWrite` says whether the file at the
      destination can be opened and written. */
  method DownloadEpub(lib: Lib, net: nat -> Response, source: string, destination: string,
                      requireFilename: Option<string>, canWrite: bool)
    returns (out: DownloadOutcome)
    ensures out.Written? <==>
      && GetPage(net, 0).result.Got?
      && GetFilename(lib, source).Ok?
      && (requireFilename.Some? ==> MatchingFilenames(GetFilename(lib, source).value, requireFilename.value))
      && canWrite
    ensures out.Written? ==> (out.data == GetPage(net, 0).result.page
      && out.path == lib.pathJoin(destination, GetFilename(lib, source).value))
    ensures out == NotFetched <==> GetPage(net, 0).result == NoPage
    ensures out.NameMismatch? <==> (GetPage(net, 0).result.Got? && GetFilename(lib, source).Ok?
      && requireFilename.Some? && !MatchingFilenames(GetFilename(lib, source).value, requireFilename.value))
    ensures out.Failed? <==> (GetPage(net, 0).result == Raised
      || (GetPage(net, 0).result.Got? && GetFilename(lib, source).Err?))
  {
    var fetched := GetPage(net, 0);
    var page;
    match fetched.result {
      case Raised => return Failed;
      case NoPage => return NotFetched;
      case Got(p) => page := p;
    }
    var name := GetFilename(lib, source);
    if name.Err? {
      return Failed;
    }
    var filename := name.value;
    if requireFilename.Some? && !MatchingFilenames(filename, requireFilename.value) {
      return NameMismatch(filename);
    }
    var path := lib.pathJoin(destination, filename);
    if !canWrite {
      return WriteFailed(path);
    }
    return Written(path, page);
  }
}
