# Title fetcher: a Dafny model of its core

The title fetcher is a small Node.js HTTP service. `GET /I/want/title?address=a&address=b…`
fetches each address, pulls the `<title>` out of each page and answers with an HTML list
of `address - "title"` lines in input order. A request error, the timeout or a page without
a title element shows up as the title `NO RESPONSE`. In the async.js server only, so does a
body longer than 1 MiB; the callback server reads a body of any length. Failures that reach
no handler leave the batch unanswered; they are listed under "Left out". The repository
holds several servers that do the same job. This model covers three files:

- `utils.js`, the shared helpers:
  - `normalizeURL`, which turns a raw address into an `https://` URL, with the `www.` heuristic;
  - `getRequestOptions`;
  - `extractTitle`, which runs the regular expression `/<title[^>]*>(.*?)<\/title>/is`, then `trim`s the group and collapses white space;
  - `generateHTML`;
  - `parseAddresses`.
- `callbackServer.js`:
  - its inline normalisation;
  - its own title rule, which has no `s` flag and no white-space collapse;
  - the record its `fetchTitle` delivers;
  - the order-preserving fan-in of `fetchAllTitles`, a `Collector` class whose `results` slots, `completed` counter and `total` are updated by each completion;
  - its unindented result page.
- `asyncLibServer.js`, the per-response decisions of its `fetchTitle`:
  - redirect classification and target resolution;
  - the `_redirectCount` gate;
  - reading the body under the 1 MiB cap, with the loop kept as a method;
  - the sentinel paths;
  - which address ends up in the delivered record.

The modules follow the source:

- `JsStrings` is the slice of the JavaScript string library the code relies on. It holds the one white-space class shared by `\s` and `trim`, plus `trim`, `replace(/\s+/g, ' ')`, `split` and `join`.
- `TitlePattern` is the title regular expression, written out as a search over start positions, with and without the `s` flag.
- `Records` holds the `{ address, title }` record and the sentinel.
- `Utils`, `CallbackServer` and `AsyncLibServer` model one source file each.

The network appears only as data:

- In the callback server, what happened to a request is one event: a response with its body chunks, an error, or the timeout.
- In the async.js server, the network is a sequence of such events, one per request made, in order.
- `url.parse` is a function parameter.

Where the design intent and the code differ, the model follows the code and shows the difference under "Findings". The two differences are the redirect bound and the address kept in the record. Each finding is also modelled in its corrected form.

## Model

| member | source | states |
|---|---|---|
| JsStrings.VisibleIsNotSpace | utils.js:60 | no visible ASCII character belongs to the white-space class of `\s` and `trim` |
| JsStrings.SpaceFromListed | utils.js:60 | the walk over the list of white-space code points, from any position, finds exactly the characters listed from that position on |
| JsStrings.SpaceIsListed | utils.js:60 | a character is white space for `\s` and `trim` exactly when it is one of the listed WhiteSpace and LineTerminator code points |
| JsStrings.LineTerminatorIsSpace | utils.js:60 | every line terminator is white space, so a `\s+` run can span lines |
| JsStrings.TrimStart | utils.js:60 | the result is a suffix of the input that is empty or starts with a non-space; it is shorter whenever the input starts with white space |
| JsStrings.TrimStartDropsSpace | utils.js:60 | every character `trimStart` removes is white space |
| JsStrings.TrimEnd | utils.js:60 | the result is a prefix of the input that is empty or ends with a non-space |
| JsStrings.TrimEndDropsSpace | utils.js:60 | every character `trimEnd` removes is white space |
| JsStrings.Trim | utils.js:60 | a trimmed string neither starts nor ends with white space |
| JsStrings.TrimKeepsTrimmed | utils.js:60 | a string with non-space ends is its own trim |
| JsStrings.TrimIsSlice | callbackServer.js:37 | the trimmed string is one contiguous slice of the input, starting where the leading white space ends |
| JsStrings.TrimStartKeepsText | utils.js:60 | `trimStart` keeps every non-space character, in order |
| JsStrings.TrimEndKeepsText | utils.js:60 | `trimEnd` keeps every non-space character, in order |
| JsStrings.TrimKeepsText | utils.js:60 | `trim` keeps every non-space character, in order |
| JsStrings.NoSpaceIsSingleSpaced | utils.js:60 | a string without white space is already single-spaced |
| JsStrings.Collapse | utils.js:60 | `replace(/\s+/g, ' ')` leaves only single ' ' characters between non-space ones; it is empty only for the empty input, never longer, and starts with white space exactly when the input does |
| JsStrings.CollapseKeepsLast | utils.js:60 | the collapsed string ends with white space exactly when the input does |
| JsStrings.CollapseKeepsEnds | utils.js:60 | collapsing a string with non-space ends keeps both ends non-space |
| JsStrings.CollapseFixesSingleSpaced | utils.js:60 | a single-spaced string is left unchanged by the collapse |
| JsStrings.CollapseKeepsText | utils.js:60 | the collapse keeps every non-space character, in order |
| JsStrings.BlankCollapse | utils.js:60 | a non-empty string of white space only collapses to one ' ' |
| JsStrings.TrimStartSkips | utils.js:60 | `trimStart` of a white-space run followed by text that starts with a non-space is exactly that text |
| JsStrings.TrimEndSkips | utils.js:60 | `trimEnd` of text that ends with a non-space followed by a white-space run is exactly that text |
| JsStrings.TrimStartAppend | utils.js:60 | `trimStart` of text that ends with a non-space character stops inside it and keeps everything after it |
| JsStrings.CollapseAppend | utils.js:60 | the collapse works run by run: text that ends with a non-space character collapses the same whatever follows it |
| JsStrings.CollapseSpaceRun | utils.js:60 | a maximal white-space run, of any length and of any kinds of white space, becomes exactly one ' ' |
| JsStrings.CollapseRun | utils.js:60 | a white-space run between a non-space end and a non-space start becomes one ' ', and the text on each side is collapsed on its own |
| JsStrings.CollapseKeepsWord | utils.js:60 | text without white space is left unchanged by the collapse |
| JsStrings.ConcatAppend | asyncLibServer.js:54 | appending chunks with `+=`: the text of two runs of chunks is the text of the first followed by that of the second |
| JsStrings.JoinPartAt | utils.js:67-69 | in `parts.join(sep)`, part i occurs at its offset, and the last part ends the string |
| JsStrings.JoinSepAt | utils.js:67-69 | in `parts.join(sep)`, every part except the last is followed by the separator |
| JsStrings.Split | utils.js:24 | `split(c)` yields one more piece than there are occurrences of `c` |
| JsStrings.SplitPartsFree | utils.js:24 | no piece of `split(c)` contains `c` |
| JsStrings.JoinSplit | utils.js:24 | `s.split(c).join(c) == s` |
| JsStrings.SplitFirst | utils.js:24 | the first piece of `split(c)` is everything before the first `c` |
| TitlePattern.FirstGt | utils.js:59 | `[^>]*>` stops at the first `>` at or after the start, and at no earlier position |
| TitlePattern.CloseFrom | utils.js:59 | the lazy group ends at the first `</title>`; without the `s` flag it contains no line terminator, and it fails only when every `</title>` after its start has a line terminator before it; with the flag it fails only when no `</title>` follows |
| TitlePattern.MatchAt | utils.js:59 | a match at p needs `<title` at p and a `>` after it; its group runs from just after the first such `>` to the first `</title>`, with no `</title>` inside; when no group is found there, either no `</title>` follows, or the `s` flag is off and every later `</title>` has a line terminator before it |
| TitlePattern.CloseFromGroup | utils.js:59 | the end the lazy group search finds is the first `</title>` from the group's start; when it finds none, no group can end there |
| TitlePattern.GroupFrom | utils.js:59 | the lazy group from a start position is the text up to the first `</title>`, with none inside; when there is none, either no `</title>` follows, or the `s` flag is off and every later `</title>` has a line terminator before it |
| TitlePattern.Search | utils.js:59 | `match` returns the leftmost start position where the pattern matches; no earlier position matches |
| TitlePattern.FirstMatch | utils.js:59 | `match` succeeds exactly when some start position matches, and then captures the group of the leftmost matching position |
| TitlePattern.FirstOpen | utils.js:59 | the leftmost ASCII-case-insensitive `<title`, with none before it |
| TitlePattern.SearchFinds | utils.js:59 | the search returns the first matching position when every earlier one fails |
| TitlePattern.CloseFromFinds | utils.js:59 | with the `s` flag the group ends at the first `</title>` after its start |
| TitlePattern.LaterOpenFails | utils.js:59 | with the `s` flag, when the match fails at a `<title` it fails at every later one |
| TitlePattern.LeftmostOpenDecides | utils.js:59 | with the `s` flag, the leftmost `<title` alone decides whether there is a match and what it captures |
| TitlePattern.GroupIsOneLine | callbackServer.js:36 | without the `s` flag the captured group holds no line terminator |
| Utils.StripLeadingSlashes | utils.js:11 | `replace(/^\/+/, '')` removes exactly the leading run of '/': the result is a suffix that does not start with '/', and everything removed is '/' |
| Utils.SomeSiteWitness | utils.js:15-17 | when `some` holds, a listed site equals the address or prefixes it followed by '/' |
| Utils.SomeSiteOfWitness | utils.js:15-17 | conversely, a listed site that equals the address or prefixes it followed by '/' makes `some` hold |
| Utils.NormalizeUrl | utils.js:4-31 | the result always starts with "http://" or "https://", and an address that already does is returned unchanged |
| Utils.SchemePrefixed | utils.js:20 | both prefixes the normaliser adds start with "https://" |
| Utils.SchemeIsAbsolute | utils.js:6 | an address with a scheme starts with "http" |
| Utils.SiteListIsSubsumed | utils.js:14-27 | every address the site list matches also has a host part with exactly one dot, so the list adds no case of its own |
| Utils.SiteIsHostPart | utils.js:24 | a site, alone or followed by '/' and a path, is the address's `split('/')[0]` |
| Utils.SiteShape | utils.js:14 | each listed site is slash-free and holds exactly one dot |
| Utils.NormalizeUrlShape | utils.js:4-31 | an address without a scheme becomes its slash-stripped remainder, prefixed with "https://www." when it does not start with "www." and its host part has exactly one dot, and with "https://" otherwise |
| Utils.NormalizedRemainder | utils.js:11-30 | after the prefix comes the address without its leading slashes, which never starts with '/' |
| Utils.NormalizeUrlIdempotent | utils.js:4-31 | normalising twice gives the same URL as normalising once |
| Utils.GetRequestOptions | utils.js:36-53 | the hostname is copied; the port is the parsed one when it is present and non-empty, else 443 for "https:" and 80 otherwise; the path defaults to "/" and is never empty; the method is GET, the timeout 10000, the browser headers are set and no redirect count is present |
| Utils.CleanTitle | utils.js:60 | the cleaned group has no white space at either end, only single ' ' inside, and the group's non-space characters in order |
| Utils.CleanTitleFixesCanonical | utils.js:60 | a title that is already clean is unchanged by cleaning, so cleaning is idempotent |
| Utils.ExtractTitle | utils.js:58-61 | with no match the title is "NO RESPONSE"; with a match it is the leftmost group trimmed with each white-space run made one ' ' (`CleanTitle` of the group): clean, and holding the group's non-space characters in order |
| Utils.CleanTwoWords | utils.js:60 | cleaning two words with white space around and between them, of any length and kind, gives the two words separated by one ' ' |
| Utils.ExtractTitleOfElement | utils.js:58-60 | a page that is exactly one bare `<title>` element, whose text holds no '<', gives that text cleaned |
| Utils.HelloWorldText | utils.js:60 | cleaning "  Hello   World " gives "Hello World" |
| Utils.HelloWorldTitle | utils.js:58-60 | `<title>  Hello   World </title>` gives the title "Hello World" |
| Utils.BlankTitleIsEmpty | utils.js:60 | a title element holding only white space gives "", not the sentinel |
| Utils.ExtractTitleCanonical | utils.js:60 | an extracted title is a fixed point of the cleaning |
| Utils.ListItem | utils.js:68 | an entry is `<li> `, the address, ` - "`, the title and `" </li>`, each at its offset, with the values unescaped |
| Utils.ListItems | utils.js:67-68 | one `<li> ADDRESS - "TITLE" </li>` per result, in input order, values unescaped |
| Utils.Page | utils.js:67-78 | a page starts with its header and ends with its footer; with no entries it is the header followed by the footer |
| Utils.PageMiddle | utils.js:69-78 | between its header and its footer a page holds exactly the entries joined by "\n" |
| Utils.GenerateHtml | utils.js:66-79 | the page starts with the fixed indented header and ends with `</ul>` and the fixed footer; with no results it is the header followed by the footer |
| Utils.GenerateHtmlLayout | utils.js:66-79 | the page is the fixed indented header, then each entry at its own offset in input order, then "\n" between entries, then `</ul>` and the fixed footer after the last |
| Utils.PageLayout | utils.js:71-78 | the layout of a header, the entries joined by "\n", and a footer |
| Utils.GenerateHtmlEmpty | utils.js:66-79 | with no results the page is the header followed directly by `</ul>` and the footer |
| Utils.ParseAddresses | utils.js:84-90 | an array value is returned as it is, a non-empty string becomes a one-element list, and an absent or empty value gives [] |
| Utils.ParseAddressesRoundTrip | utils.js:84-90 | the `address=` parameters are read back as exactly the list sent, in order and with duplicates; a lone empty parameter reads as no address |
| CallbackServer.InlineNormalize | callbackServer.js:9-12 | "https://" is prefixed unless the address already starts with "http://" or "https://" |
| CallbackServer.InlineAgreesWithShared | callbackServer.js:9-12 | the inline rule and the shared normaliser agree exactly when the address has a scheme, or has no leading '/' and does not get `www.` |
| CallbackServer.WwwNeverMatchesInline | callbackServer.js:9-12 | when the shared normaliser adds `www.`, the inline rule's URL always differs from it |
| CallbackServer.LegacyTitle | callbackServer.js:36-37 | with no match the title is "NO RESPONSE"; otherwise it is `trim` of the group, not collapsed: non-space ends, no line terminator, the group's non-space characters in order |
| CallbackServer.TrimStaysOnOneLine | callbackServer.js:37 | trimming a one-line string leaves it on one line |
| CallbackServer.TwoTitlesFirstFails | callbackServer.js:36 | without the `s` flag the first `<title` of the sample page does not match, because its group would cross a line break |
| CallbackServer.TwoTitlesSecondMatches | callbackServer.js:36 | the second `<title` of the sample page matches, capturing "x" |
| CallbackServer.LegacyFindsLaterTitle | callbackServer.js:36 | without the `s` flag the search moves past the broken first element and captures the later one |
| CallbackServer.SharedTakesFirstTitle | utils.js:59 | with the `s` flag the first element of the same page matches; its group runs from the line break through the second element's `<title>x` |
| CallbackServer.TitleRulesDiffer | callbackServer.js:36-37 | on the same page this server reports "x" and the shared `extractTitle` reports "<title>x" |
| CallbackServer.SharedTitleText | utils.js:60 | cleaning that group drops its leading line break and keeps the rest, `<title>x`, unchanged |
| CallbackServer.FetchTitle | callbackServer.js:7-53 | the record always carries the caller's address; an error or the timeout gives "NO RESPONSE"; a response gives the title rule applied to the whole body |
| CallbackServer.Holes | callbackServer.js:56 | the results array starts with every slot empty |
| CallbackServer.Values | callbackServer.js:70 | a fully filled results array is delivered slot by slot |
| CallbackServer.FilledBound | callbackServer.js:67-69 | the count of filled slots reaches the total exactly when every slot is filled |
| CallbackServer.FilledUpdate | callbackServer.js:66-67 | filling an empty slot raises the count of filled slots by one |
| CallbackServer.Collector.constructor | callbackServer.js:56-58 | the collector starts with `total` empty slots and `completed` at 0 |
| CallbackServer.Collector.Complete | callbackServer.js:65-71 | the completion writes slot `index`, bumps `completed` by one, and fires exactly when `completed == total`, which is exactly when every slot is filled; it then delivers the results in slot order |
| CallbackServer.FetchAllTitles | callbackServer.js:55-74 | for any arrival order the batch callback fires exactly once, after the last completion, or at once with [] for no addresses; entry i is the record for `addresses[i]` and carries that address |
| CallbackServer.ListItem | callbackServer.js:77-78 | an entry is `<li> `, the address, ` - "`, the title and `" </li>`, each at its offset, with the values unescaped |
| CallbackServer.GenerateHtml | callbackServer.js:76-89 | the page starts with the unindented header and ends with `</ul>` and the unindented footer; with no results it is the header followed by the footer |
| CallbackServer.SameListAsShared | callbackServer.js:76-89 | this page has the same list between header and footer as the shared page; only the fixed text around it differs |
| AsyncLibServer.ResolveRedirect | asyncLibServer.js:39-42 | a Location starting with "http" is used verbatim; otherwise the target is protocol + "//" + host followed by the Location |
| AsyncLibServer.AbsoluteTargetUnchanged | asyncLibServer.js:14 | an absolute redirect target passes through the next call's normalisation unchanged |
| AsyncLibServer.RedirectGate | asyncLibServer.js:44-46 | an absent counter counts as 0; below 3 the redirect is followed and the counter is raised by one; otherwise the counter stays |
| AsyncLibServer.FirstOverflow | asyncLibServer.js:53-59 | finds the first chunk after which the accumulated text is longer than 1024 * 1024; no earlier prefix is |
| AsyncLibServer.PrefixGrows | asyncLibServer.js:54 | the accumulated text never shrinks as chunks arrive |
| AsyncLibServer.BodyOf | asyncLibServer.js:53-60 | a complete body is the concatenation of all chunks; an overflow names a chunk after which the running text is longer than 1024 * 1024, and no earlier prefix is |
| AsyncLibServer.BodyOfCap | asyncLibServer.js:53-60 | the body is read completely exactly when its total length is at most 1024 * 1024; an overflow happens at the first chunk that takes the running length past the cap |
| AsyncLibServer.ReadBody | asyncLibServer.js:51-65 | the `data += chunk` loop with its running check gives the capped body: the whole text exactly when it fits |
| AsyncLibServer.BodyTitle | asyncLibServer.js:53-64 | after an overflow the title is "NO RESPONSE"; otherwise it is `extractTitle` of the whole text |
| AsyncLibServer.Record | asyncLibServer.js:62-74 | the record names the address of the call that settled; with no response the title is "NO RESPONSE", and with a body it is that body's title (the sentinel after an overflow, otherwise `extractTitle` of the whole text) |
| AsyncLibServer.Decide | asyncLibServer.js:36-75 | a redirect (3xx with a Location) that the gate allows is followed to the resolved target with the raised counter; any other response settles with its body; an error or the timeout settles with no body; a settled call keeps its own address |
| AsyncLibServer.FetchHop | asyncLibServer.js:13-48 | one call decides with no counter present, because the options it builds (asyncLibServer.js:19-34) are fresh |
| AsyncLibServer.Locate | asyncLibServer.js:14-16 | for an address that already has a scheme, the URL requested is `url.parse` of the address itself |
| AsyncLibServer.FetchHopFollowsEveryRedirect | asyncLibServer.js:19-48 | the options are built afresh by every call, so the counter is absent at the check and every redirect response is followed, with the counter then 1 |
| AsyncLibServer.FetchChain | asyncLibServer.js:13-79 | the first call is made for the caller's address, and a settled chain made no more requests than there were answers |
| AsyncLibServer.FetchTitle | asyncLibServer.js:13-79 | a record is delivered exactly when the chain of calls settles; the delivered request list and address are the chain's own, so the first request is for the caller's address, no more requests are made than answered, and the record carries the address of the last call; its title is the sentinel when the last call settled without a response and that response's body title otherwise |
| AsyncLibServer.ChainCons | asyncLibServer.js:47 | a chain either settles at its first call or continues with the chain of the redirect target |
| AsyncLibServer.DeliverChain | asyncLibServer.js:57-74 | a record is delivered exactly when the chain settled, and it is the record the settling call hands to the callback: the chain's requests, the address it settled for, and the sentinel title when it settled without a response or the title of the body it settled with |
| AsyncLibServer.ChainRecordsLastHop | asyncLibServer.js:47 | the chain settles for the address of its last call, which is the last redirect target when any redirect was followed |
| AsyncLibServer.NoRedirectKeepsAddress | asyncLibServer.js:51-75 | when the first answer is not a redirect, one call settles, for the caller's address, with that body or, after an error or the timeout, with none |
| AsyncLibServer.AbsoluteRedirectRequestedVerbatim | asyncLibServer.js:14 | after a redirect to an absolute URL, the second call receives that URL and requests it unchanged |
| AsyncLibServer.RedirectsAreNeverCapped | asyncLibServer.js:44-48 | after any number n of redirects the next answer is still requested: n + 1 calls, settling for the redirect target with the final body |
| AsyncLibServer.FiveRedirectsFollowed | asyncLibServer.js:44-48 | five redirects in a row are all followed; the record carries the redirect target and the sixth response's title |
| AsyncLibServer.BoundedChain | asyncLibServer.js:44-48 | with one counter carried through the chain, the first call is for the address given, and no more requests are made than answered |
| AsyncLibServer.BoundedChainLimits | asyncLibServer.js:44-48 | with the counter carried along, at most 3 redirects are followed (at most 4 requests), and the chain settles for the caller's address |
| AsyncLibServer.IntendedFetch | asyncLibServer.js:13-79 | the corrected fetch delivers a record exactly when the counter-carrying chain settles; the delivered request list and address are that chain's own, so the first request is for the caller's address and no more requests are made than answered; the title is the sentinel when the last call settled without a response and that response's body title otherwise |
| AsyncLibServer.IntendedFetchLimits | asyncLibServer.js:47 | the corrected fetch delivers the caller's address after at most 4 requests |
| AsyncLibServer.BoundedRedirectStep | asyncLibServer.js:44-48 | below the bound a redirect is followed with the counter raised; at the bound the redirect response's own body settles the call |
| AsyncLibServer.BoundedChainFirstRedirect | asyncLibServer.js:44-47 | the corrected chain's first redirect is followed with the counter at 1 |
| AsyncLibServer.RedirectRunCut | asyncLibServer.js:44-48 | with the counter at c, a run of redirects is followed 3 - c more times, then settles on the redirect response reached |
| AsyncLibServer.FourRedirectsTruncated | asyncLibServer.js:44-48 | in the corrected fetch, a chain of four redirects is cut after three followed; the fourth redirect's own body is read, and the record names the caller |

## Left out

- HTTP plumbing is not modelled. This covers server creation, routing and status codes, `client.request`, `req.end`, `res.destroy` and `setTimeout`. An error or a timeout is only an event that yields the sentinel; the 5000 and 10000 ms durations are not modelled.
- `url.parse` is a function parameter (`parse`, or `locate` for the chain), not a model.
- `async.map` is not modelled (asyncLibServer.js:96). It is library code. The fan-in it performs is modelled once, on the callback server's `fetchAllTitles`.
- The other server variants are not part of this model. They repeat the logic covered here.
- The HTTP handlers are not modelled: the 400 answer for no addresses and the 500 branch. Every modelled fetch callback passes a null error, so the 500 branch is never reached from a fetch.
- CallbackServer.Collector.Complete: exactly-once completion per index is a precondition (the slot must still be empty), not a proved property. The code has no guard against a second callback for the same request, for example a timeout followed by an error.
- The cap on `data.length` is modelled on the length of a character sequence. JavaScript counts UTF-16 code units, so a character outside the Basic Multilingual Plane counts twice there and once here.
- The callback server's inline request options (callbackServer.js:17-26) differ from `getRequestOptions` only in constants: a 5000 ms timeout and one User-Agent header. They are not modelled separately.
- `getRequestOptions` keeps its header values as constants. Nothing is proved about them beyond the record carrying them.
- A JavaScript array filled by index is modelled as a sequence of optional slots of the final length.
- The `_redirectCount` property is modelled as a value passed from one call to the next: the `count` argument of `Decide`, and the counter in the `Follow` step.
- AsyncLibServer.FetchChain: the chain yields None when the network runs out of answers before a call settles. A real fetch would wait instead.
- After an overflow the callback is still called with the sentinel, while `res.destroy()` may later trigger other handlers; only the first record is modelled.
- Resource discipline is not modelled. A redirect response is never consumed or released, and the first request's timer stays armed after a redirect re-enters `fetchTitle`. Either could deliver a second callback; the model delivers one record per fetch.
- JsStrings.Trim: its own contract states only that both ends are non-space. That the result is the slice between the removed white space is split over TrimStart, TrimEnd, their `DropsSpace` lemmas and TrimIsSlice.
- An out-of-range port, such as `a.example:70000`, makes `client.request` throw (callbackServer.js:28, asyncLibServer.js:36). Nothing catches it, so no record is delivered and the request handler fails; the model assumes every request can be made.
- A response stream cut off in the middle of the body has no `error` or `aborted` handler (callbackServer.js:31-39, asyncLibServer.js:53-65). No callback fires, so neither `fetchAllTitles` nor `async.map` completes. In the model every response delivers its whole body.
- `data += chunk` decodes each Buffer chunk on its own, because no encoding is set on the response, so a multi-byte character split across chunks is garbled. The model's chunks are already-decoded text.
- The JavaScript white-space class is written out as a constant list of code points; no Unicode database is consulted.

## Findings

| source | as written | input that shows it | evidently intended | confidence | as-written member | corrected member |
|---|---|---|---|---|---|---|
| asyncLibServer.js:44-48 | `_redirectCount` is kept on the `options` object that every call of `fetchTitle` builds afresh, so it is absent at every check and every redirect is followed; there is no bound on the chain | five `301` responses with `Location: https://b.example/` followed by a `200` response: six requests are made and the sixth body's title is delivered | at most three redirects are followed, with one counter carried through the chain; a fourth redirect response is read as the final body | not executed | AsyncLibServer.FiveRedirectsFollowed | AsyncLibServer.FourRedirectsTruncated |
| asyncLibServer.js:47 | a followed redirect re-enters `fetchTitle` with the target as its `address`, and the record delivered to the original callback carries that target | address `a.example`, one `301` to `https://b.example/`, then a `200`: the record's address is `https://b.example/` | every record carries the address the caller asked for, so that the result list matches the input list entry by entry | not executed | AsyncLibServer.ChainRecordsLastHop | AsyncLibServer.IntendedFetchLimits |
