/**
 * The shared helpers of the title fetcher servers (utils.js): address
 * normalisation, request options, title extraction, the result page and the
 * reading of the `address` query parameter.
 */
module Utils {
  import opened Wrappers
  import opened JsStrings
  import opened TitlePattern
  import opened Records

  // ---------------------------------------------------------------------------
  // normalizeURL

  /** The address already names its scheme. */
  predicate HasScheme(address: string) {
    StartsWith(address, "http://") || StartsWith(address, "https://")
  }

  /** `address.replace(/^\/+/, '')`. */
  function StripLeadingSlashes(address: string): (rest: string)
    ensures rest == [] || rest[0] != '/'
    ensures |rest| <= |address| && rest == address[|address| - |rest|..]
    ensures forall i :: 0 <= i < |address| - |rest| ==> address[i] == '/'
  {
    if address != [] && address[0] == '/' then StripLeadingSlashes(address[1..]) else address
  }

  /** Sites known to need the `www.` prefix. */
  const RequiresWww: seq<string> := ["linkedin.com", "facebook.com", "instagram.com"]

  /** `sites.some(site => address === site || address.startsWith(site + '/'))`. */
  predicate SomeSite(address: string, sites: seq<string>)
    decreases |sites|
  {
    sites != [] && (address == sites[0] || StartsWith(address, sites[0] + "/") || SomeSite(address, sites[1..]))
  }

  predicate NeedsWww(address: string) {
    SomeSite(address, RequiresWww)
  }

  /** The site an address matched. */
  lemma {:induction false} SomeSiteWitness(address: string, sites: seq<string>) returns (i: nat)
    requires SomeSite(address, sites)
    ensures i < |sites| && (address == sites[i] || StartsWith(address, sites[i] + "/"))
    decreases |sites|
  {
    if address == sites[0] || StartsWith(address, sites[0] + "/") {
      i := 0;
    } else {
      var j := SomeSiteWitness(address, sites[1..]);
      i := j + 1;
    }
  }

  /** `address.split('/')[0]`: the host part of a scheme-less address. */
  function FirstSegment(address: string): string {
    Split(address, '/')[0]
  }

  /** The condition under which the normaliser adds `www.`: the address does not
      already start with it and its host part has exactly one dot. */
  predicate AddsWww(rest: string) {
    !StartsWith(rest, "www.") && Count(FirstSegment(rest), '.') == 1
  }

  function NormalizeUrl(address: string): (url: string)
    ensures HasScheme(url)
    ensures HasScheme(address) ==> url == address
  {
    if HasScheme(address) then address
    else
      var rest := StripLeadingSlashes(address);
      SchemePrefixed(rest);
      if NeedsWww(rest) && !StartsWith(rest, "www.") then "https://www." + rest
      else if |Split(FirstSegment(rest), '.')| == 2 && !StartsWith(rest, "www.") then "https://www." + rest
      else "https://" + rest
  }

  /** Both prefixes the normaliser adds name the https scheme. */
  lemma SchemePrefixed(rest: string)
    ensures HasScheme("https://" + rest) && HasScheme("https://www." + rest)
  {
    assert ("https://" + rest)[..8] == "https://";
    assert ("https://www." + rest)[..8] == "https://";
  }

  /** A listed site that the address equals, or prefixes followed by '/', makes `some`
      hold. */
  lemma {:induction false} SomeSiteOfWitness(address: string, sites: seq<string>, i: nat)
    requires i < |sites| && (address == sites[i] || StartsWith(address, sites[i] + "/"))
    ensures SomeSite(address, sites)
    decreases i
  {
    if i > 0 {
      SomeSiteOfWitness(address, sites[1..], i - 1);
    }
  }

  /** An address `normalizeURL` leaves alone starts with "http", so a redirect to it is
      taken as absolute. */
  lemma SchemeIsAbsolute(address: string)
    requires HasScheme(address)
    ensures StartsWith(address, "http")
  {
    assert address[..4] == address[..7][..4];
  }

  /** Every listed site has a one-dot host part, so the site list never adds `www.`
      where the one-dot rule would not. */

  lemma SiteListIsSubsumed(rest: string)
    requires NeedsWww(rest)
    ensures Count(FirstSegment(rest), '.') == 1
  {
    var i := SomeSiteWitness(rest, RequiresWww);
    SiteShape(i);
    SiteIsHostPart(rest, RequiresWww[i]);
  }

  /** An address that is a slash-free site, or that site followed by a path, has that
      site as its host part. */
  lemma SiteIsHostPart(rest: string, site: string)
    requires rest == site || StartsWith(rest, site + "/")
    requires forall k :: 0 <= k < |site| ==> site[k] != '/'
    ensures FirstSegment(rest) == site
  {
    if rest == site {
      SplitFirst(site, '/', []);
    } else {
      var tail := rest[|site| + 1..];
      assert rest[..|site| + 1] == site + "/";
      assert rest == site + ['/'] + tail by {
        assert rest == rest[..|site| + 1] + rest[|site| + 1..];
      }
      SplitFirst(site, '/', tail);
    }
  }

  /** Each listed site is one dot between two dot-free, slash-free labels. */
  lemma SiteShape(i: nat)
    requires i < |RequiresWww|
    ensures forall k :: 0 <= k < |RequiresWww[i]| ==> RequiresWww[i][k] != '/'
    ensures Count(RequiresWww[i], '.') == 1
  {
    assert forall k :: 0 <= k < |RequiresWww[i]| ==> RequiresWww[i][k] != '/' by {
      assert i == 0 || i == 1 || i == 2;
    }
    if i == 0 {
      OneDot("linkedin", "com");
      assert RequiresWww[0] == "linkedin" + ['.'] + "com";
    } else if i == 1 {
      OneDot("facebook", "com");
      assert RequiresWww[1] == "facebook" + ['.'] + "com";
    } else {
      OneDot("instagram", "com");
      assert RequiresWww[2] == "instagram" + ['.'] + "com";
    }
  }

  lemma OneDot(x: string, y: string)
    requires forall k :: 0 <= k < |x| ==> x[k] != '.'
    requires forall k :: 0 <= k < |y| ==> y[k] != '.'
    ensures Count(x + ['.'] + y, '.') == 1
  {
    var dy := ['.'] + y;
    assert dy[1..] == y;
    assert Count(dy, '.') == 1 + Count(y, '.');
    assert x + ['.'] + y == x + dy;
    CountAppend(x, dy, '.');
    NoneCounted(x, '.');
    NoneCounted(y, '.');
  }

  lemma {:induction false} CountAppend(x: string, y: string, c: char)
    ensures Count(x + y, c) == Count(x, c) + Count(y, c)
  {
    if x == [] {
      assert x + y == y;
    } else {
      assert (x + y)[1..] == x[1..] + y;
      CountAppend(x[1..], y, c);
    }
  }

  lemma {:induction false} NoneCounted(x: string, c: char)
    requires forall k :: 0 <= k < |x| ==> x[k] != c
    ensures Count(x, c) == 0
  {
    if x != [] {
      NoneCounted(x[1..], c);
    }
  }

  /** The whole of normalizeURL: an address with a scheme is returned as it is; any
      other address loses its leading slashes and gains `https://www.` when its host
      part has exactly one dot and it does not start with `www.`, `https://` otherwise. */
  lemma NormalizeUrlShape(address: string)
    requires !HasScheme(address)
    ensures var rest := StripLeadingSlashes(address);
      NormalizeUrl(address) == (if AddsWww(rest) then "https://www." else "https://") + rest
  {
    var rest := StripLeadingSlashes(address);
    if NeedsWww(rest) {
      SiteListIsSubsumed(rest);
    }
  }

  /** The part after the prefix is the address without its leading slashes, so it never
      starts with '/', and the address is some slashes followed by it. */
  lemma NormalizedRemainder(address: string)
    requires !HasScheme(address)
    ensures var rest := StripLeadingSlashes(address);
      (NormalizeUrl(address) == "https://" + rest || NormalizeUrl(address) == "https://www." + rest)
      && (rest == [] || rest[0] != '/')
  {
    NormalizeUrlShape(address);
  }

  /** Normalising twice is normalising once. */
  lemma NormalizeUrlIdempotent(address: string)
    ensures NormalizeUrl(NormalizeUrl(address)) == NormalizeUrl(address)
  {
  }

  // ---------------------------------------------------------------------------
  // getRequestOptions

  /** The fields of Node's `url.parse` result that the servers read (`null` as None). */
  datatype ParsedUrl = ParsedUrl(
    protocol: string,
    host: string,
    hostname: string,
    port: Option<string>,
    path: Option<string>)

  /** A port given in the URL (a string), or the default chosen from the protocol (a number). */
  datatype Port = Given(text: string) | Default(number: nat)

  /** The request options record (`verb` is its `method` field); `redirectCount` stands for the `_redirectCount`
      property that asyncLibServer.js attaches later (None while absent). */
  datatype RequestOptions = RequestOptions(
    hostname: string,
    port: Port,
    path: string,
    verb: string,
    timeout: nat,
    headers: seq<(string, string)>,
    redirectCount: Option<nat>)

  const BrowserHeaders: seq<(string, string)> := [
    ("User-Agent", "Mozilla/5.0 (Windows NT 10.0; Win64; x64) AppleWebKit/537.36 (KHTML, like Gecko) Chrome/91.0.4472.124 Safari/537.36"),
    ("Accept", "text/html,application/xhtml+xml,application/xml;q=0.9,image/webp,*/*;q=0.8"),
    ("Accept-Language", "en-US,en;q=0.5"),
    ("Accept-Encoding", "identity"),
    ("Connection", "close")
  ]

  /** JavaScript truthiness of an optional string: present and non-empty. */
  predicate Truthy(v: Option<string>) {
    v.Some? && v.value != ""
  }

  function GetRequestOptions(parsed: ParsedUrl): (options: RequestOptions)
    ensures options.hostname == parsed.hostname
    ensures Truthy(parsed.port) <==> options.port.Given?
    ensures Truthy(parsed.port) ==> options.port == Given(parsed.port.value)
    ensures !Truthy(parsed.port) ==> options.port.number == (if parsed.protocol == "https:" then 443 else 80)
    ensures options.path == (if Truthy(parsed.path) then parsed.path.value else "/")
    ensures options.path != ""
    ensures options.verb == "GET" && options.timeout == 10000
    ensures options.headers == BrowserHeaders && options.redirectCount.None?
  {
    RequestOptions(
      parsed.hostname,
      if Truthy(parsed.port) then Given(parsed.port.value)
      else Default(if parsed.protocol == "https:" then 443 else 80),
      if Truthy(parsed.path) then parsed.path.value else "/",
      "GET",
      10000,
      BrowserHeaders,
      None)
  }

  // ---------------------------------------------------------------------------
  // extractTitle

  /** No leading or trailing white space, and every white-space run is one ' '. */
  predicate Canonical(t: string) {
    SingleSpaced(t) && (t != [] ==> !IsSpace(t[0]) && !IsSpace(t[|t| - 1]))
  }

  /** `group.trim().replace(/\s+/g, ' ')`. */
  function CleanTitle(group: string): (t: string)
    ensures Canonical(t)
    ensures NonSpace(t) == NonSpace(group)
  {
    var trimmed := Trim(group);
    TrimKeepsText(group);
    CollapseKeepsText(trimmed);
    CollapseKeepsEnds(trimmed);
    Collapse(trimmed)
  }

  /** A title that is already clean is left as it is, so cleaning is idempotent. */
  lemma CleanTitleFixesCanonical(t: string)
    requires Canonical(t)
    ensures CleanTitle(t) == t
  {
    assert TrimStart(t) == t;
    assert TrimEnd(t) == t;
    CollapseFixesSingleSpaced(t);
  }

  /** `htmlContent.match(/<title[^>]*>(.*?)<\/title>/is)`, then the captured group
      trimmed and white-space collapsed, or the sentinel when nothing matches. */
  function ExtractTitle(html: string): (title: string)
    ensures match FirstMatch(html, true)
      case None => title == NoResponse
      case Some(group) => title == CleanTitle(group) && Canonical(title) && NonSpace(title) == NonSpace(group)
  {
    match FirstMatch(html, true)
    case None => NoResponse
    case Some(group) => CleanTitle(group)
  }

  /** Cleaning a group of two words: the white space around them goes, and the run
      between them, of any length and kind, becomes one ' '. */
  lemma CleanTwoWords(a: string, x: string, b: string, y: string, c: string)
    requires forall k :: 0 <= k < |a| ==> IsSpace(a[k])
    requires b != [] && forall k :: 0 <= k < |b| ==> IsSpace(b[k])
    requires forall k :: 0 <= k < |c| ==> IsSpace(c[k])
    requires x != [] && forall k :: 0 <= k < |x| ==> !IsSpace(x[k])
    requires y != [] && forall k :: 0 <= k < |y| ==> !IsSpace(y[k])
    ensures CleanTitle(a + x + b + y + c) == x + [' '] + y
  {
    var m := x + b + y;
    assert a + x + b + y + c == a + (m + c);
    assert (m + c)[0] == x[0];
    TrimStartSkips(a, m + c);
    assert m[|m| - 1] == y[|y| - 1];
    TrimEndSkips(m, c);
    CollapseRun(x, b, y);
    CollapseKeepsWord(x);
    CollapseKeepsWord(y);
  }

  /** A page whose first element is a bare `<title>` with no '<' in its text: the
      title is that text, cleaned. */
  lemma ExtractTitleOfElement(g: string)
    requires forall k :: 0 <= k < |g| ==> g[k] != '<'
    ensures ExtractTitle("<title>" + g + CloseTag) == CleanTitle(g)
  {
    var html := "<title>" + g + CloseTag;
    var e := 7 + |g|;
    assert LiteralAt(html, 0, OpenTag) by {
      forall k | 0 <= k < 6 ensures LowerAscii(html[k]) == OpenTag[k] {
        assert html[k] == "<title>"[k];
      }
    }
    assert html[6] == '>';
    assert FirstGt(html, 6) == Some(6);
    forall k | 7 <= k < e ensures !LiteralAt(html, k, CloseTag) {
      assert html[k] == g[k - 7];
      MismatchAt(html, k, CloseTag);
    }
    assert LiteralAt(html, e, CloseTag) by {
      forall k | 0 <= k < 8 ensures LowerAscii(html[e + k]) == CloseTag[k] {
        assert html[e + k] == CloseTag[k];
      }
    }
    CloseFromFinds(html, 7, e);
    assert html[7..e] == g;
    assert MatchAt(html, 0, true) == Some(g);
    SearchFinds(html, 0, 0, true);
  }

  /** The letters of "Hello World" are not white space. */
  lemma HelloWorldLetters(x: string)
    requires x == "Hello" || x == "World"
    ensures forall k :: 0 <= k < |x| ==> !IsSpace(x[k])
  {
    forall k | 0 <= k < |x| ensures !IsSpace(x[k]) {
      VisibleIsNotSpace(x[k]);
    }
  }

  /** A run of plain spaces is white space. */
  lemma BlankRun(w: string)
    requires forall k :: 0 <= k < |w| ==> w[k] == ' '
    ensures forall k :: 0 <= k < |w| ==> IsSpace(w[k])
  {
    assert IsSpace(' ');
  }

  /** Cleaning "  Hello   World " gives "Hello World". The pieces are parameters fixed
      by the precondition rather than literals in the statement: the verifier unfolds
      `CleanTitle` and the white-space test eagerly on a literal argument, which makes
      the parameterless form far too costly to check. */
  lemma HelloWorldText(a: string, x: string, b: string, y: string, c: string)
    requires a == "  " && x == "Hello" && b == "   " && y == "World" && c == " "
    ensures CleanTitle(a + x + b + y + c) == "Hello World"
  {
    HelloWorldLetters(x);
    HelloWorldLetters(y);
    BlankRun(a);
    BlankRun(b);
    BlankRun(c);
    CleanTwoWords(a, x, b, y, c);
  }

  /** `<title>  Hello   World </title>` gives "Hello World". The page is a parameter
      fixed by the precondition, for the same reason as in HelloWorldText. */
  lemma HelloWorldTitle(html: string)
    requires html == "<title>  Hello   World </title>"
    ensures ExtractTitle(html) == "Hello World"
  {
    var a, x, b, y, c := "  ", "Hello", "   ", "World", " ";
    var g := a + x + b + y + c;
    assert html == "<title>" + g + CloseTag;
    ExtractTitleOfElement(g);
    HelloWorldText(a, x, b, y, c);
  }

  /** A title element holding only white space yields the empty title, not the sentinel. */
  lemma BlankTitleIsEmpty(html: string)
    requires FirstMatch(html, true).Some? && NonSpace(FirstMatch(html, true).value) == []
    ensures ExtractTitle(html) == ""
  {
  }

  /** Extracting a title from an extracted title's text changes nothing about its
      cleanliness: the cleaned title is a fixed point of cleaning. */
  lemma ExtractTitleCanonical(html: string)
    requires FirstMatch(html, true).Some?
    ensures CleanTitle(ExtractTitle(html)) == ExtractTitle(html)
  {
    CleanTitleFixesCanonical(ExtractTitle(html));
  }

  // ---------------------------------------------------------------------------
  // generateHTML

  const Header: string := "<html>\n  <head></head>\n  <body>\n  <ul>\n  <h1> Following are the titles of given websites: </h1>\n  "
  const Footer: string := "</ul>\n  </body>\n  </html>"

  /** One list entry, values inserted unescaped. */
  function ListItem(r: FetchResult): (item: string)
    ensures |item| == |r.address| + |r.title| + 16
    ensures item[..5] == "<li> " && item[5..5 + |r.address|] == r.address
    ensures item[5 + |r.address|..9 + |r.address|] == " - \""
    ensures item[9 + |r.address|..9 + |r.address| + |r.title|] == r.title
    ensures item[|item| - 7..] == "\" </li>"
  {
    "<li> " + r.address + " - \"" + r.title + "\" </li>"
  }

  function ListItems(results: seq<FetchResult>): (items: seq<string>)
    ensures |items| == |results|
    ensures forall i :: 0 <= i < |results| ==> items[i] == ListItem(results[i])
  {
    seq(|results|, i requires 0 <= i < |results| => ListItem(results[i]))
  }

  /** A page: a fixed header, the entries joined by newlines, a fixed footer. */
  function Page(h: string, items: seq<string>, f: string): (page: string)
    ensures StartsWith(page, h) && EndsWith(page, f)
    ensures items == [] ==> page == h + f
  {
    var page := h + Join(items, "\n") + f;
    assert page[..|h|] == h;
    assert page[|page| - |f|..] == f;
    page
  }

  function GenerateHtml(results: seq<FetchResult>): (html: string)
    ensures StartsWith(html, Header) && EndsWith(html, Footer)
    ensures results == [] ==> html == Header + Footer
  {
    Page(Header, ListItems(results), Footer)
  }

  /** The page is the fixed header, then the entry of result i at its own offset,
      in input order, each followed by a newline except the last, which is
      followed by `</ul>` and the fixed footer. */
  lemma GenerateHtmlLayout(results: seq<FetchResult>, i: nat)
    requires i < |results|
    ensures var html := GenerateHtml(results);
      var o := |Header| + JoinOffset(ListItems(results), "\n", i);
      var n := |ListItem(results[i])|;
      html[..|Header|] == Header
      && o + n <= |html| && html[o..o + n] == ListItem(results[i])
      && (i + 1 < |results| ==> o + n < |html| && html[o + n] == '\n')
      && (i + 1 == |results| ==> html[o + n..] == Footer)
  {
    PageLayout(Header, ListItems(results), Footer, i);
  }

  /** The layout of `h + items.join('\n') + f`, for any fixed header `h` and footer `f`. */
  lemma PageLayout(h: string, items: seq<string>, f: string, i: nat)
    requires i < |items|
    ensures var html := Page(h, items, f);
      var o := |h| + JoinOffset(items, "\n", i);
      var n := |items[i]|;
      html[..|h|] == h
      && o + n <= |html| && html[o..o + n] == items[i]
      && (i + 1 < |items| ==> o + n < |html| && html[o + n] == '\n')
      && (i + 1 == |items| ==> html[o + n..] == f)
  {
    var body := Join(items, "\n");
    var o := JoinOffset(items, "\n", i);
    var n := |items[i]|;
    JoinPartAt(items, "\n", i);
    if i + 1 < |items| {
      JoinSepAt(items, "\n", i);
      assert body[o + n] == body[o + n..o + n + 1][0];
    }
    PageSlices(h, body, f, o, n);
  }

  /** Between its header and its footer a page holds exactly the joined entries. */
  lemma PageMiddle(h: string, items: seq<string>, f: string)
    ensures var page := Page(h, items, f);
      |h| + |f| <= |page| && page[|h|..|page| - |f|] == Join(items, "\n")
  {
    var body := Join(items, "\n");
    assert (h + body + f)[|h|..|h| + |body|] == body;
  }

  /** Positions inside the middle part of `h + body + f` shift by `|h|`. */
  lemma PageSlices(h: string, body: string, f: string, o: nat, n: nat)
    requires o + n <= |body|
    ensures (h + body + f)[..|h|] == h
    ensures (h + body + f)[|h| + o..|h| + o + n] == body[o..o + n]
    ensures o + n < |body| ==> (h + body + f)[|h| + o + n] == body[o + n]
    ensures o + n == |body| ==> (h + body + f)[|h| + o + n..] == f
  {
  }

  /** With no results the list is empty: header, then `</ul>` and the footer. */
  lemma GenerateHtmlEmpty()
    ensures GenerateHtml([]) == Header + Footer
  {
  }

  // ---------------------------------------------------------------------------
  // parseAddresses

  /** The value of `query.address` as Node's query-string parser leaves it: absent,
      one string, or an array when the parameter is repeated. */
  datatype QueryValue = Absent | Single(text: string) | Many(items: seq<string>)

  function ParseAddresses(address: QueryValue): (addresses: seq<string>)
    ensures address.Many? ==> addresses == address.items
    ensures address.Single? && address.text != "" ==> addresses == [address.text]
    ensures address.Absent? || address == Single("") ==> addresses == []
  {
    match address
    case Many(items) => items
    case Single(text) => if text != "" then [text] else []
    case Absent => []
  }

  /** How a list of `address=` parameters reaches the server: none is absent, one is a
      string, two or more are an array. */
  function QueryValueOf(params: seq<string>): QueryValue {
    if params == [] then Absent else if |params| == 1 then Single(params[0]) else Many(params)
  }

  /** Reading the parameters back gives exactly the list that was sent, in order and
      with duplicates, except that a lone empty `address=` reads as no address at all. */
  lemma ParseAddressesRoundTrip(params: seq<string>)
    ensures params != [""] ==> ParseAddresses(QueryValueOf(params)) == params
    ensures params == [""] ==> ParseAddresses(QueryValueOf(params)) == []
  {
    if |params| == 1 && params != [""] {
      assert params == [params[0]];
    }
  }
}
