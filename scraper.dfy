/** Model of scraper.py: URL acceptance (`is_valid`), link extraction with
    fragment stripping (`get_links`), the longest-page record
    (`check_page_length`), the status gate of `extract_next_links`, and the
    final filter of `scraper`.

    HTML parsing, `urljoin` and `urlparse` are outside the model: a fetched
    page arrives as its whitespace-split text and the list of its anchors,
    each already resolved against the page URL and parsed into its six
    components. */
module Scraper {
  import opened Text

  /** The six components of a parsed URL (`urlparse`'s result). */
  datatype Url = Url(scheme: string, netloc: string, path: string,
                     params: string, query: string, fragment: string)

  /** The `longest_page` record: the URL of the longest page seen and its
      length in words; -1 before any page. */
  datatype LongestPage = LongestPage(url: string, length: int)

  /** A fetched page as the crawler consumes it: `page_text.split()` and the
      resolved, parsed `href` of each `<a href=...>` tag in document order. */
  datatype Page = Page(words: seq<string>, anchors: seq<Url>)

  /** The fetch result: the final URL, the status code, and the page. */
  datatype Response = Response(url: string, status: int, page: Page)

  // ---------------------------------------------------------------------------
  // is_valid
  // ---------------------------------------------------------------------------

  /** The alternation of non-HTML extensions in the `is_valid` pattern; `jpe?g`
      and `tiff?` each stand for two spellings. */
  predicate IsBlockedExtension(e: string): (r: bool)
    ensures e in {"jpg", "jpeg", "tif", "tiff"} ==> r
  {
    e in {
      "css", "js", "bmp", "gif", "jpg", "jpeg", "ico",
      "png", "tif", "tiff", "mid", "mp2", "mp3", "mp4",
      "wav", "avi", "mov", "mpeg", "ram", "m4v", "mkv", "ogg", "ogv", "pdf",
      "ps", "eps", "tex", "ppt", "pptx", "doc", "docx", "xls", "xlsx", "names",
      "data", "dat", "exe", "bz2", "tar", "msi", "bin", "7z", "psd", "dmg", "iso",
      "epub", "dll", "cnf", "tgz", "sha1",
      "thmx", "mso", "arff", "rtf", "jar", "csv",
      "rm", "smil", "wmv", "swf", "wma", "zip", "rar", "gz"
    }
  }

  /** The lower-cased path ends in `.` followed by a blocked extension. */
  ghost predicate EndsInBlockedExtension(path: string) {
    exists e :: IsBlockedExtension(e) && EndsWith(Lower(path), "." + e)
  }

  /** A string ending in `.` plus a blocked extension has that `.` just before
      the extension. */
  lemma DotBeforeSuffix(lp: string, e: string)
    requires IsBlockedExtension(e) && EndsWith(lp, "." + e)
    ensures 0 <= |lp| - |e| - 1 < |lp|
    ensures lp[|lp| - |e| - 1] == '.' && lp[|lp| - |e|..] == e
  {
    assert lp[|lp| - |e| - 1..] == "." + e;
  }

  /** A `.` at position `k` makes `lp` end in `.` plus what follows it. */
  lemma DotGivesSuffix(lp: string, k: int)
    requires 0 <= k < |lp| && lp[k] == '.'
    ensures EndsWith(lp, "." + lp[k + 1..])
  {
    assert lp[k..] == "." + lp[k + 1..];
  }

  /** Some `.` of `lp` is followed, up to the end, by a blocked extension,
      exactly when `lp` ends in `.` plus a blocked extension. */
  lemma DotMatchIffSuffix(lp: string)
    ensures (exists k :: 0 <= k < |lp| && lp[k] == '.' && IsBlockedExtension(lp[k + 1..]))
            <==> exists e :: IsBlockedExtension(e) && EndsWith(lp, "." + e)
  {
    if exists k :: 0 <= k < |lp| && lp[k] == '.' && IsBlockedExtension(lp[k + 1..]) {
      var k :| 0 <= k < |lp| && lp[k] == '.' && IsBlockedExtension(lp[k + 1..]);
      DotGivesSuffix(lp, k);
    } else {
      forall e | IsBlockedExtension(e)
        ensures !EndsWith(lp, "." + e)
      {
        if EndsWith(lp, "." + e) {
          DotBeforeSuffix(lp, e);
        }
      }
    }
  }

  /** `re.match(r".*\.(...)$", path.lower())`: some `.` of the lower-cased
      path is followed, up to the end, by a blocked extension, which is the
      case exactly when the lower-cased path ends in `.` plus a blocked
      extension. */
  predicate HasBlockedExtension(path: string): (r: bool)
    ensures r <==> EndsInBlockedExtension(path)
  {
    var lp := Lower(path);
    DotMatchIffSuffix(lp);
    exists k :: 0 <= k < |lp| && lp[k] == '.' && IsBlockedExtension(lp[k + 1..])
  }

  /** `is_valid(url)`: only http and https, and no blocked extension. */
  predicate IsValid(u: Url): (r: bool)
    ensures r <==> (u.scheme == "http" || u.scheme == "https")
                   && !EndsInBlockedExtension(u.path)
  {
    (u.scheme == "http" || u.scheme == "https") && !HasBlockedExtension(u.path)
  }

  /** Any scheme other than exactly "http" or "https" is refused. */
  lemma RejectsOtherSchemes(u: Url)
    requires u.scheme != "http" && u.scheme != "https"
    ensures !IsValid(u)
  {
  }

  /** A path ending, in any letter case, in `.` plus a blocked extension is
      refused. */
  lemma RejectsBlockedExtension(u: Url, e: string)
    requires IsBlockedExtension(e)
    requires EndsWith(Lower(u.path), "." + e)
    ensures !IsValid(u)
  {
  }

  /** Acceptance depends on the path only through its lower-cased form. */
  lemma IgnoresPathCase(u: Url)
    ensures IsValid(u) <==> IsValid(u.(path := Lower(u.path)))
  {
    LowerIdempotent(u.path);
  }

  /** Ordinary pages are accepted: `/a.html`, and `/pdf` that has no dot. */
  lemma AcceptsExamples()
    ensures IsValid(Url("http", "x.edu", "/a.html", "", "", ""))
    ensures IsValid(Url("https", "x.edu", "/pdf", "", "", ""))
  {
    var a := Lower("/a.html");
    assert a == "/a.html";
    forall k | 0 <= k < |a| && a[k] == '.'
      ensures !IsBlockedExtension(a[k + 1..])
    {
      assert k == 2;
      assert a[3..] == "html";
    }
    var b := Lower("/pdf");
    assert b == "/pdf";
    assert forall k :: 0 <= k < |b| ==> b[k] != '.';
  }

  /** A path ending in a suffix that lower-cases to `.` plus a blocked
      extension is refused, whatever precedes the suffix. */
  lemma RejectsSuffix(u: Url, stem: string, suffix: string, e: string)
    requires IsBlockedExtension(e)
    requires Lower(suffix) == "." + e
    ensures !IsValid(u.(path := stem + suffix))
  {
    assert Lower(stem + suffix)[|stem|..] == Lower(suffix);
    RejectsBlockedExtension(u.(path := stem + suffix), e);
  }

  /** Both spellings of JPEG (`jpe?g`) and of TIFF (`tiff?`) are refused, in
      either letter case, whatever precedes them. */
  lemma RejectsJpegAndTiffSpellings(u: Url, stem: string)
    ensures !IsValid(u.(path := stem + ".JPG"))
    ensures !IsValid(u.(path := stem + ".jpeg"))
    ensures !IsValid(u.(path := stem + ".tif"))
    ensures !IsValid(u.(path := stem + ".TIFF"))
  {
    assert Lower(".JPG") == ".jpg";
    RejectsSuffix(u, stem, ".JPG", "jpg");
    assert Lower(".jpeg") == ".jpeg";
    RejectsSuffix(u, stem, ".jpeg", "jpeg");
    assert Lower(".tif") == ".tif";
    RejectsSuffix(u, stem, ".tif", "tif");
    assert Lower(".TIFF") == ".tiff";
    RejectsSuffix(u, stem, ".TIFF", "tiff");
  }

  // ---------------------------------------------------------------------------
  // Links: defragmenting and filtering
  // ---------------------------------------------------------------------------

  /** `urlunparse(parsed._replace(fragment=""))`: drops the fragment and keeps
      every other component. */
  function Defragment(u: Url): (r: Url)
    ensures r.fragment == ""
    ensures r.(fragment := u.fragment) == u
  {
    u.(fragment := "")
  }

  /** The fragment plays no part in acceptance. */
  lemma DefragmentKeepsValidity(u: Url)
    ensures IsValid(Defragment(u)) <==> IsValid(u)
  {
  }

  /** `[link for link in links if is_valid(link)]` */
  function FilterValid(links: seq<Url>): (r: seq<Url>)
    ensures |r| <= |links|
    ensures forall x :: x in r ==> x in links && IsValid(x)
  {
    if links == [] then []
    else FilterValid(links[..|links| - 1])
         + (if IsValid(links[|links| - 1]) then [links[|links| - 1]] else [])
  }

  /** The links `get_links` returns for a page's anchors: each anchor
      defragmented, kept when valid, in document order. */
  function ValidLinks(anchors: seq<Url>): (r: seq<Url>)
    ensures |r| <= |anchors|
    ensures forall x :: x in r ==> x.fragment == "" && IsValid(x)
  {
    if anchors == [] then []
    else
      var link := Defragment(anchors[|anchors| - 1]);
      ValidLinks(anchors[..|anchors| - 1]) + (if IsValid(link) then [link] else [])
  }

  /** `Defragment` applied to each anchor. */
  function DefragmentAll(anchors: seq<Url>): (r: seq<Url>)
    ensures |r| == |anchors|
    ensures forall i :: 0 <= i < |anchors| ==> r[i] == Defragment(anchors[i])
  {
    seq(|anchors|, i requires 0 <= i < |anchors| => Defragment(anchors[i]))
  }

  /** The filter keeps exactly the valid links. */
  lemma {:induction false} FilterValidMembers(links: seq<Url>)
    ensures forall x :: x in FilterValid(links) <==> x in links && IsValid(x)
  {
    if links != [] {
      var init := links[..|links| - 1];
      FilterValidMembers(init);
      assert links == init + [links[|links| - 1]];
    }
  }

  /** The filter keeps order: filtering a concatenation concatenates the
      filtered parts. */
  lemma {:induction false} FilterValidAppend(a: seq<Url>, b: seq<Url>)
    ensures FilterValid(a + b) == FilterValid(a) + FilterValid(b)
    decreases |b|
  {
    if b == [] {
      assert a + b == a;
    } else {
      var b' := b[..|b| - 1];
      assert (a + b)[..|a + b| - 1] == a + b';
      FilterValidAppend(a, b');
    }
  }

  /** A list of valid links passes the filter unchanged. */
  lemma {:induction false} FilterValidKeepsValid(links: seq<Url>)
    requires forall x :: x in links ==> IsValid(x)
    ensures FilterValid(links) == links
  {
    if links != [] {
      var init := links[..|links| - 1];
      var last := links[|links| - 1];
      assert links == init + [last];
      forall x | x in init
        ensures IsValid(x)
      {
        assert x in links;
      }
      FilterValidKeepsValid(init);
      assert last in links;
    }
  }

  /** `get_links` is the validity filter applied to the defragmented anchors. */
  lemma {:induction false} ValidLinksIsFilter(anchors: seq<Url>)
    ensures ValidLinks(anchors) == FilterValid(DefragmentAll(anchors))
  {
    if anchors != [] {
      var init := anchors[..|anchors| - 1];
      ValidLinksIsFilter(init);
      assert DefragmentAll(anchors)[..|anchors| - 1] == DefragmentAll(init);
    }
  }

  /** Every returned link has an empty fragment and is valid; a link is
      returned exactly when it is the defragmented form of some anchor and is
      valid. */
  lemma ValidLinksMembers(anchors: seq<Url>)
    ensures forall x :: x in ValidLinks(anchors) ==> x.fragment == "" && IsValid(x)
    ensures forall x :: x in ValidLinks(anchors) <==>
              IsValid(x) && exists i :: 0 <= i < |anchors| && x == Defragment(anchors[i])
  {
    ValidLinksIsFilter(anchors);
    FilterValidMembers(DefragmentAll(anchors));
  }

  /** Links come out in the order of the anchors they came from. */
  lemma {:induction false} ValidLinksAppend(a: seq<Url>, b: seq<Url>)
    ensures ValidLinks(a + b) == ValidLinks(a) + ValidLinks(b)
    decreases |b|
  {
    if b == [] {
      assert a + b == a;
    } else {
      var b' := b[..|b| - 1];
      assert (a + b)[..|a + b| - 1] == a + b';
      assert (a + b)[|a + b| - 1] == b[|b| - 1];
      ValidLinksAppend(a, b');
    }
  }

  /** The filter in `scraper` never drops a link that `get_links` returned. */
  lemma FilterAfterValidLinks(anchors: seq<Url>)
    ensures FilterValid(ValidLinks(anchors)) == ValidLinks(anchors)
  {
    ValidLinksMembers(anchors);
    FilterValidKeepsValid(ValidLinks(anchors));
  }

  // ---------------------------------------------------------------------------
  // Longest page
  // ---------------------------------------------------------------------------

  /** The `longest_page` record after a page of `length` words at `url`. */
  function RecordPage(lp: LongestPage, url: string, length: nat): (r: LongestPage)
    ensures r.length == if length > lp.length then length else lp.length
    ensures r.length == lp.length ==> r == lp
    ensures r != lp ==> r == LongestPage(url, length)
  {
    if length > lp.length then LongestPage(url, length) else lp
  }

  /** A page as seen by `check_page_length`: its URL and word count. */
  datatype PageSize = PageSize(url: string, length: nat)

  /** The record after a sequence of pages, starting from the initial one. */
  function LongestOf(pages: seq<PageSize>): (r: LongestPage)
    ensures forall i :: 0 <= i < |pages| ==> pages[i].length <= r.length
    ensures r.length == -1 <==> pages == []
  {
    if pages == [] then LongestPage("", -1)
    else
      var last := pages[|pages| - 1];
      RecordPage(LongestOf(pages[..|pages| - 1]), last.url, last.length)
  }

  /** Page `i` has the largest length, and no earlier page reached it. */
  ghost predicate IsFirstMaximum(pages: seq<PageSize>, i: int) {
    && 0 <= i < |pages|
    && (forall j :: 0 <= j < |pages| ==> pages[j].length <= pages[i].length)
    && (forall j :: 0 <= j < i ==> pages[j].length < pages[i].length)
  }

  /** After any non-empty sequence of pages, the record is the first page of
      largest length: ties keep the earlier page. */
  lemma {:induction false} LongestOfIsFirstMaximum(pages: seq<PageSize>)
    requires pages != []
    ensures exists i :: IsFirstMaximum(pages, i)
              && LongestOf(pages) == LongestPage(pages[i].url, pages[i].length)
  {
    var n := |pages|;
    var init := pages[..n - 1];
    var last := pages[n - 1];
    assert LongestOf(pages) == RecordPage(LongestOf(init), last.url, last.length);
    if init == [] {
      assert LongestOf(init) == LongestPage("", -1);
      assert IsFirstMaximum(pages, 0);
    } else {
      LongestOfIsFirstMaximum(init);
      var i :| IsFirstMaximum(init, i)
              && LongestOf(init) == LongestPage(init[i].url, init[i].length);
      assert forall j :: 0 <= j < n - 1 ==> pages[j] == init[j];
      if last.length > LongestOf(init).length {
        assert IsFirstMaximum(pages, n - 1);
      } else {
        assert IsFirstMaximum(pages, i);
      }
    }
  }

  // ---------------------------------------------------------------------------
  // Crawl state: the module globals
  // ---------------------------------------------------------------------------

  /** `unique_urls` and `longest_page`. */
  class CrawlState {
    var uniqueUrls: set<Url>
    var longestPage: LongestPage

    constructor ()
      ensures uniqueUrls == {} && longestPage == LongestPage("", -1)
    {
      uniqueUrls := {};
      longestPage := LongestPage("", -1);
    }

    /** `check_page_length(content, url)` */
    method CheckPageLength(content: seq<string>, url: string)
      modifies this`longestPage
      ensures longestPage == RecordPage(old(longestPage), url, |content|)
    {
      var pageLength := |content|;
      if pageLength > longestPage.length {
        longestPage := LongestPage(url, pageLength);
      }
    }

    /** `get_links(soup, url)`: defragments each anchor, keeps the valid ones
        in order and adds them to `unique_urls`. */
    method GetLinks(anchors: seq<Url>) returns (found: seq<Url>)
      modifies this`uniqueUrls
      ensures found == ValidLinks(anchors)
      ensures uniqueUrls == old(uniqueUrls) + (set x | x in found)
      ensures forall x :: x in found ==> x in uniqueUrls
    {
      found := [];
      for i := 0 to |anchors|
        invariant found == ValidLinks(anchors[..i])
        invariant uniqueUrls == old(uniqueUrls) + (set x | x in found)
      {
        assert anchors[..i + 1][..i] == anchors[..i];
        var defragmented := Defragment(anchors[i]);
        if IsValid(defragmented) {
          found := found + [defragmented];
          uniqueUrls := uniqueUrls + {defragmented};
        }
      }
      assert anchors[..|anchors|] == anchors;
    }

    /** `extract_next_links(url, resp)`: a non-200 response yields no links
        and changes nothing; otherwise the page's length is recorded and its
        links extracted. `url` is not consulted. */
    method ExtractNextLinks(url: string, resp: Response) returns (links: seq<Url>)
      modifies this
      ensures resp.status != 200 ==>
                links == [] && uniqueUrls == old(uniqueUrls) && longestPage == old(longestPage)
      ensures resp.status == 200 ==>
                && links == ValidLinks(resp.page.anchors)
                && uniqueUrls == old(uniqueUrls) + (set x | x in links)
                && longestPage == RecordPage(old(longestPage), resp.url, |resp.page.words|)
      ensures forall x :: x in links ==> x in uniqueUrls
    {
      if resp.status != 200 {
        return [];
      }
      CheckPageLength(resp.page.words, resp.url);
      links := GetLinks(resp.page.anchors);
    }

    /** `scraper(url, resp)`: the extracted links that pass `is_valid`; as
        `get_links` only returns valid links, the filter removes nothing. */
    method Scrape(url: string, resp: Response) returns (links: seq<Url>)
      modifies this
      ensures links == FilterValid(if resp.status == 200 then ValidLinks(resp.page.anchors) else [])
      ensures links == if resp.status == 200 then ValidLinks(resp.page.anchors) else []
      ensures resp.status != 200 ==>
                uniqueUrls == old(uniqueUrls) && longestPage == old(longestPage)
      ensures resp.status == 200 ==>
                && uniqueUrls == old(uniqueUrls) + (set x | x in links)
                && longestPage == RecordPage(old(longestPage), resp.url, |resp.page.words|)
      ensures forall x :: x in links ==> x in uniqueUrls
    {
      var extracted := ExtractNextLinks(url, resp);
      links := FilterValid(extracted);
      FilterAfterValidLinks(resp.page.anchors);
    }
  }

  /** The first `scraper` call of a crawl, starting from the initial globals:
      a status-200 page becomes the longest page and its links are exactly
      the unique URLs; any other status leaves the globals at their initial
      values. */
  method ScrapeFirstPage(url: string, resp: Response) returns (state: CrawlState, links: seq<Url>)
    ensures resp.status == 200 ==>
              && links == ValidLinks(resp.page.anchors)
              && state.longestPage == LongestPage(resp.url, |resp.page.words|)
              && state.uniqueUrls == (set x | x in links)
    ensures resp.status != 200 ==>
              links == [] && state.longestPage == LongestPage("", -1) && state.uniqueUrls == {}
  {
    state := new CrawlState();
    links := state.Scrape(url, resp);
  }
}
