/**
 * The per-response decisions of `fetchTitle` in the async.js server
 * (asyncLibServer.js): whether a response is a redirect and where it points,
 * the redirect counter kept on the request options, reading the body under a
 * 1 MiB cap, and which address ends up in the delivered record. The network
 * is a sequence of events, one per request made; `url.parse` is a parameter.
 */
module AsyncLibServer {
  import opened Wrappers
  import opened JsStrings
  import opened Records
  import Utils

  const MaxBody: nat := 1024 * 1024
  const MaxRedirects: nat := 3

  /** What the network did with one request: a response (status, Location header,
      body chunks in arrival order), a request error, or the timeout. */
  datatype HopEvent = Response(status: int, location: Option<string>, chunks: seq<string>)
                    | RequestError
                    | TimedOut

  // ---------------------------------------------------------------------------
  // Redirects

  /** A 3xx status with a non-empty Location header. */
  predicate IsRedirect(status: int, location: Option<string>) {
    300 <= status < 400 && Utils.Truthy(location)
  }

  /** A Location that starts with "http" is taken as it is; any other is appended to the
      current request's protocol and host. Either way the target ends with the Location. */
  function ResolveRedirect(location: string, parsed: Utils.ParsedUrl): (target: string)
    ensures |location| <= |target| && target[|target| - |location|..] == location
    ensures StartsWith(location, "http") ==> target == location
    ensures !StartsWith(location, "http") ==> target[..|target| - |location|] == parsed.protocol + "//" + parsed.host
  {
    if StartsWith(location, "http") then location
    else parsed.protocol + "//" + parsed.host + location
  }

  /** An absolute redirect target is requested exactly as it was given: the next call
      normalises it, and normalisation leaves a URL with a scheme alone. */
  lemma AbsoluteTargetUnchanged(location: string, parsed: Utils.ParsedUrl)
    requires Utils.HasScheme(location)
    ensures Utils.NormalizeUrl(ResolveRedirect(location, parsed)) == location
  {
    Utils.SchemeIsAbsolute(location);
  }

  /** `if (!options._redirectCount) options._redirectCount = 0;
      if (options._redirectCount < 3) options._redirectCount++`: whether to follow,
      and the counter afterwards. */
  function RedirectGate(count: Option<nat>): (gate: (bool, nat))
    ensures var current := if count.None? then 0 else count.value;
      (gate.0 <==> current < MaxRedirects)
      && gate.1 == (if gate.0 then current + 1 else current)
  {
    var current := if count.None? then 0 else count.value;
    if current < MaxRedirects then (true, current + 1) else (false, current)
  }

  // ---------------------------------------------------------------------------
  // Reading the body

  /** The body as read: all of it, or abandoned at the chunk that took it past the cap. */
  datatype Body = Complete(text: string) | Overflow(at: nat)

  /** The text accumulated once the first `j` chunks have arrived. */
  function Prefix(chunks: seq<string>, j: nat): string
    requires j <= |chunks|
  {
    Concat(chunks[..j])
  }

  /** The first chunk, at or after `k`, after whose arrival the accumulated text is
      longer than the cap. */
  function FirstOverflow(chunks: seq<string>, k: nat): (r: Option<nat>)
    ensures r.Some? ==> k <= r.value < |chunks| && |Prefix(chunks, r.value + 1)| > MaxBody
    ensures forall j :: k < j <= |chunks| && (r.None? || j <= r.value) ==> |Prefix(chunks, j)| <= MaxBody
    decreases |chunks| - k
  {
    if k >= |chunks| then None
    else if |Prefix(chunks, k + 1)| > MaxBody then Some(k)
    else FirstOverflow(chunks, k + 1)
  }

  /** The outcome of appending the chunks in order and giving up at the first overflow. */
  function BodyOf(chunks: seq<string>): (body: Body)
    ensures body.Complete? ==> body.text == Concat(chunks)
    ensures body.Overflow? ==> body.at < |chunks| && |Prefix(chunks, body.at + 1)| > MaxBody
    ensures body.Overflow? ==> forall j :: 0 < j <= body.at ==> |Prefix(chunks, j)| <= MaxBody
  {
    match FirstOverflow(chunks, 0)
    case None => Complete(Concat(chunks))
    case Some(k) => Overflow(k)
  }

  /** The accumulated text never shrinks as chunks arrive. */
  lemma {:induction false} PrefixGrows(chunks: seq<string>, i: nat, j: nat)
    requires i <= j <= |chunks|
    ensures |Prefix(chunks, i)| <= |Prefix(chunks, j)|
    decreases j - i
  {
    if i < j {
      PrefixGrows(chunks, i, j - 1);
      assert chunks[..j][..j - 1] == chunks[..j - 1];
    }
  }

  /** The cap is on the whole body: it is read completely exactly when its total length is
      at most 1024 * 1024 (a body of exactly that length is accepted), and an overflow
      happens at the first chunk that takes the running length past the cap. */
  lemma BodyOfCap(chunks: seq<string>)
    ensures BodyOf(chunks).Complete? <==> |Concat(chunks)| <= MaxBody
    ensures BodyOf(chunks).Complete? ==> BodyOf(chunks).text == Concat(chunks)
    ensures BodyOf(chunks).Overflow? ==>
      var k := BodyOf(chunks).at;
      k < |chunks| && |Prefix(chunks, k)| <= MaxBody < |Prefix(chunks, k + 1)|
  {
    assert Prefix(chunks, |chunks|) == Concat(chunks) by {
      assert chunks[..|chunks|] == chunks;
    }
    match FirstOverflow(chunks, 0)
    case None =>
      if chunks == [] {
        assert Concat(chunks) == [];
      }
    case Some(k) =>
      PrefixGrows(chunks, k + 1, |chunks|);
      if k == 0 {
        assert Prefix(chunks, 0) == [];
      }
  }

  /** `data += chunk` for each chunk, giving up as soon as `data.length` exceeds the cap. */
  method ReadBody(chunks: seq<string>) returns (body: Body)
    ensures body == BodyOf(chunks)
    ensures body.Complete? <==> |Concat(chunks)| <= MaxBody
    ensures body.Complete? ==> body.text == Concat(chunks)
  {
    BodyOfCap(chunks);
    var data := "";
    var i := 0;
    while i < |chunks|
      invariant 0 <= i <= |chunks|
      invariant data == Prefix(chunks, i)
      invariant FirstOverflow(chunks, 0) == FirstOverflow(chunks, i)
    {
      assert chunks[..i + 1][..i] == chunks[..i];
      data := data + chunks[i];
      if |data| > MaxBody {
        return Overflow(i);
      }
      i := i + 1;
    }
    assert chunks[..i] == chunks;
    return Complete(data);
  }

  /** The title delivered for a response whose body is read: the sentinel after an
      overflow, otherwise the title extracted from the whole text. */
  function BodyTitle(chunks: seq<string>): (title: string)
    ensures BodyOf(chunks).Overflow? ==> title == NoResponse
    ensures BodyOf(chunks).Complete? ==> title == Utils.ExtractTitle(Concat(chunks))
  {
    BodyOfCap(chunks);
    match BodyOf(chunks)
    case Overflow(_) => NoResponse
    case Complete(text) => Utils.ExtractTitle(text)
  }

  // ---------------------------------------------------------------------------
  // One request

  /** What one request leads to: another request, or the callback for `address` with
      either the body of the response that settled it or, after an error or the
      timeout, nothing. */
  datatype Step = Follow(url: string, redirectCount: nat)
                | Settle(address: string, body: Option<seq<string>>)

  /** The record handed to the callback when a call for `address` settles. */
  function Record(address: string, body: Option<seq<string>>): (r: FetchResult)
    ensures r.address == address
    ensures body.None? ==> r.title == NoResponse
    ensures body.Some? ==> r.title == BodyTitle(body.value)
  {
    FetchResult(address, if body.None? then NoResponse else BodyTitle(body.value))
  }

  /** The response handler and the error and timeout handlers of one request made for
      `address`, with `count` the `_redirectCount` found on its options. No path yields
      an error: failures become the sentinel title. */
  function Decide(address: string, parsed: Utils.ParsedUrl, count: Option<nat>, event: HopEvent): (step: Step)
    ensures step.Follow? <==> event.Response? && IsRedirect(event.status, event.location)
                              && RedirectGate(count).0
    ensures step.Follow? ==> step.url == ResolveRedirect(event.location.value, parsed)
                             && step.redirectCount == RedirectGate(count).1
    ensures step.Settle? ==> step.address == address
    ensures !event.Response? ==> step == Settle(address, None)
    ensures event.Response? && step.Settle? ==> step == Settle(address, Some(event.chunks))
  {
    match event
    case RequestError => Settle(address, None)
    case TimedOut => Settle(address, None)
    case Response(status, location, chunks) =>
      var gate := RedirectGate(count);
      if IsRedirect(status, location) && gate.0 then
        Follow(ResolveRedirect(location.value, parsed), gate.1)
      else
        Settle(address, Some(chunks))
  }

  /** One call of `fetchTitle(address)` once its URL is parsed: build fresh options (the
      object literal of asyncLibServer.js:19-34, which has the fields of
      `getRequestOptions` one for one, so the model builds it with that function), then
      decide. The fresh options carry no counter. */
  function FetchHop(address: string, parsed: Utils.ParsedUrl, event: HopEvent): (step: Step)
    ensures step == Decide(address, parsed, None, event)
  {
    Decide(address, parsed, Utils.GetRequestOptions(parsed).redirectCount, event)
  }

  /** The counter lives on options built afresh by every call, so it is absent at every
      check: a call follows every redirect response, whatever came before. */
  lemma FetchHopFollowsEveryRedirect(address: string, parsed: Utils.ParsedUrl, event: HopEvent)
    ensures FetchHop(address, parsed, event).Follow?
        <==> event.Response? && IsRedirect(event.status, event.location)
    ensures FetchHop(address, parsed, event).Follow? ==> FetchHop(address, parsed, event).redirectCount == 1
  {
  }

  // ---------------------------------------------------------------------------
  // A whole fetch, as written: every redirect re-enters fetchTitle with the target

  /** How a chain of calls settled, and the address each call received, in order. */
  datatype Settled = Settled(address: string, body: Option<seq<string>>, hops: seq<string>)

  /** What the callback of the first call finally receives, and the addresses requested. */
  datatype Delivered = Delivered(record: FetchResult, hops: seq<string>)

  /** The last address of a non-empty list of requests. */
  function Last(hops: seq<string>): string
    requires hops != []
  {
    hops[|hops| - 1]
  }

  /** `url.parse(normalizeURL(a))`: the parsed URL a call for address `a` requests. */
  function Locate(parse: string -> Utils.ParsedUrl): (locate: string -> Utils.ParsedUrl)
    ensures forall a :: Utils.HasScheme(a) ==> locate(a) == parse(a)
  {
    var locate := a => parse(Utils.NormalizeUrl(a));
    assert forall a :: locate(a) == parse(Utils.NormalizeUrl(a));
    locate
  }

  /** Repeated calls of `fetchTitle` against a network that answers the i-th request with
      `net[i]`; `locate(a)` is the parsed URL a call for address `a` requests. None when
      the network runs out of answers before a call settles. */
  function FetchChain(address: string, locate: string -> Utils.ParsedUrl, net: seq<HopEvent>): (o: Option<Settled>)
    ensures o.Some? ==> 1 <= |o.value.hops| <= |net| && o.value.hops[0] == address
    decreases |net|
  {
    if net == [] then None
    else match FetchHop(address, locate(address), net[0])
      case Settle(a, body) => Some(Settled(a, body, [address]))
      case Follow(target, _) =>
        match FetchChain(target, locate, net[1..])
        case None => None
        case Some(rest) => Some(Settled(rest.address, rest.body, [address] + rest.hops))
  }

  /** `fetchTitle(address, callback)` as written. */
  function FetchTitle(address: string, parse: string -> Utils.ParsedUrl, net: seq<HopEvent>): (d: Option<Delivered>)
    ensures d.Some? <==> FetchChain(address, Locate(parse), net).Some?
    ensures d.Some? ==> Delivers(d.value, FetchChain(address, Locate(parse), net).value)
    ensures d.Some? ==> 1 <= |d.value.hops| <= |net| && d.value.hops[0] == address
    ensures d.Some? ==> d.value.record.address == Last(d.value.hops)
  {
    var o := FetchChain(address, Locate(parse), net);
    if o.None? then None
    else
      ChainRecordsLastHop(address, Locate(parse), net);
      DeliverChain(o)
  }

  /** `d` is what the first call's callback receives from the settled chain `s`: the
      requests `s` made, and the record for the address `s` settled for, titled from the
      body it settled with. */
  predicate Delivers(d: Delivered, s: Settled) {
    && d.hops == s.hops && d.record.address == s.address
    && (s.body.None? ==> d.record.title == NoResponse)
    && (s.body.Some? ==> d.record.title == BodyTitle(s.body.value))
  }

  /** The delivery of a chain's outcome, if the chain settled. */
  function DeliverChain(o: Option<Settled>): (d: Option<Delivered>)
    ensures d.Some? <==> o.Some?
    ensures d.Some? ==> Delivers(d.value, o.value)
  {
    if o.None? then None else Some(Delivered(Record(o.value.address, o.value.body), o.value.hops))
  }

  /** One unfolding of FetchChain: the first call settles for its own address, or its
      redirect target's chain supplies the outcome. */
  lemma ChainCons(address: string, locate: string -> Utils.ParsedUrl, net: seq<HopEvent>)
    requires FetchChain(address, locate, net).Some?
    ensures var s := FetchChain(address, locate, net).value;
      var step := FetchHop(address, locate(address), net[0]);
      (step.Settle? ==> s == Settled(address, step.body, [address]))
      && (step.Follow? ==>
            FetchChain(step.url, locate, net[1..]).Some?
            && (var rest := FetchChain(step.url, locate, net[1..]).value;
                s == Settled(rest.address, rest.body, [address] + rest.hops)))
  {
  }

  /** The chain settles on the address of the last call: the record names the last hop. */
  lemma {:induction false} ChainRecordsLastHop(address: string, locate: string -> Utils.ParsedUrl, net: seq<HopEvent>)
    requires FetchChain(address, locate, net).Some?
    ensures var s := FetchChain(address, locate, net).value;
      s.address == Last(s.hops)
    decreases |net|
  {
    ChainCons(address, locate, net);
    var step := FetchHop(address, locate(address), net[0]);
    if step.Follow? {
      var rest := FetchChain(step.url, locate, net[1..]).value;
      ChainRecordsLastHop(step.url, locate, net[1..]);
      LastOfCons(address, rest.hops);
    }
  }

  lemma LastOfCons(x: string, xs: seq<string>)
    requires xs != []
    ensures ([x] + xs)[|[x] + xs| - 1] == xs[|xs| - 1]
  {
  }

  /** When the first answer is not a redirect, that one call settles, for the caller's
      address, with this response's body (or nothing after an error or the timeout). */
  lemma NoRedirectKeepsAddress(address: string, locate: string -> Utils.ParsedUrl, net: seq<HopEvent>)
    requires net != [] && !(net[0].Response? && IsRedirect(net[0].status, net[0].location))
    ensures FetchChain(address, locate, net)
         == Some(Settled(address, if net[0].Response? then Some(net[0].chunks) else None, [address]))
  {
    FetchHopFollowsEveryRedirect(address, locate(address), net[0]);
  }

  /** The second call of a fetch whose first response redirects to an absolute URL
      receives that URL and, normalising it, requests it unchanged. */
  lemma AbsoluteRedirectRequestedVerbatim(address: string, locate: string -> Utils.ParsedUrl, net: seq<HopEvent>)
    requires FetchChain(address, locate, net).Some?
    requires net[0].Response? && IsRedirect(net[0].status, net[0].location)
    requires Utils.HasScheme(net[0].location.value)
    ensures |FetchChain(address, locate, net).value.hops| >= 2
    ensures FetchChain(address, locate, net).value.hops[1] == net[0].location.value
    ensures Utils.NormalizeUrl(FetchChain(address, locate, net).value.hops[1]) == net[0].location.value
  {
    FetchHopFollowsEveryRedirect(address, locate(address), net[0]);
    AbsoluteTargetUnchanged(net[0].location.value, locate(address));
  }

  /** The network answers the next `k` requests with redirects to `location`. */
  predicate RedirectRun(net: seq<HopEvent>, k: nat, location: string)
    decreases k
  {
    k == 0 || (net != [] && net[0] == Response(301, Some(location), []) && RedirectRun(net[1..], k - 1, location))
  }

  /** No bound on redirects, as written: after any number `n` of redirects to a URL
      starting with "http", the next answer is still requested, and the chain settles
      for the redirect target rather than the caller's address. */
  lemma {:induction false} RedirectsAreNeverCapped(address: string, locate: string -> Utils.ParsedUrl,
                                                     n: nat, location: string, net: seq<HopEvent>,
                                                     chunks: seq<string>)
    requires StartsWith(location, "http")
    requires RedirectRun(net, n, location) && n < |net| && net[n..] == [Response(200, None, chunks)]
    ensures var o := FetchChain(address, locate, net);
      o.Some? && |o.value.hops| == n + 1
      && o.value.address == (if n == 0 then address else location) && o.value.body == Some(chunks)
    decreases n
  {
    FetchHopFollowsEveryRedirect(address, locate(address), net[0]);
    if n == 0 {
      assert net[0] == net[n..][0];
    } else {
      assert location != [];
      assert net[1..][n - 1..] == net[n..];
      RedirectsAreNeverCapped(location, locate, n - 1, location, net[1..], chunks);
    }
  }

  /** As written, five redirects are followed and the callback receives the title of the
      sixth response, recorded under the redirect target. */
  lemma FiveRedirectsFollowed(address: string, parse: string -> Utils.ParsedUrl, location: string,
                              chunks: seq<string>)
    requires StartsWith(location, "http")
    ensures var hop := Response(301, Some(location), []);
      var o := FetchTitle(address, parse, [hop, hop, hop, hop, hop, Response(200, None, chunks)]);
      o.Some? && |o.value.hops| == 6 && o.value.record == FetchResult(location, BodyTitle(chunks))
  {
    var hop := Response(301, Some(location), []);
    var last := Response(200, None, chunks);
    var net := [hop, hop, hop, hop, hop, last];
    assert net[1..] == [hop, hop, hop, hop, last];
    assert net[1..][1..] == [hop, hop, hop, last];
    assert net[1..][1..][1..] == [hop, hop, last];
    assert net[1..][1..][1..][1..] == [hop, last];
    assert net[1..][1..][1..][1..][1..] == [last];
    assert RedirectRun(net, 5, location);
    assert net[5..] == [last];
    RedirectsAreNeverCapped(address, Locate(parse), 5, location, net, chunks);
  }

  // ---------------------------------------------------------------------------
  // A whole fetch, as intended: one counter for the chain, the caller's address kept

  /** Like FetchChain, but the redirect counter is carried from call to call and every
      call settles for `original`, the caller's address. */
  function BoundedChain(original: string, address: string, count: Option<nat>,
                        locate: string -> Utils.ParsedUrl, net: seq<HopEvent>): (o: Option<Settled>)
    ensures o.Some? ==> 1 <= |o.value.hops| <= |net| && o.value.hops[0] == address
    decreases |net|
  {
    if net == [] then None
    else
      match Decide(original, locate(address), count, net[0])
      case Settle(a, body) => Some(Settled(a, body, [address]))
      case Follow(target, c) =>
        match BoundedChain(original, target, Some(c), locate, net[1..])
        case None => None
        case Some(rest) => Some(Settled(rest.address, rest.body, [address] + rest.hops))
  }

  /** The intended fetch of one address. */
  function IntendedFetch(address: string, parse: string -> Utils.ParsedUrl, net: seq<HopEvent>): (d: Option<Delivered>)
    ensures d.Some? <==> BoundedChain(address, address, None, Locate(parse), net).Some?
    ensures d.Some? ==> 1 <= |d.value.hops| <= |net| && d.value.hops[0] == address
    ensures d.Some? ==> Delivers(d.value, BoundedChain(address, address, None, Locate(parse), net).value)
  {
    DeliverChain(BoundedChain(address, address, None, Locate(parse), net))
  }

  /** With the counter carried along, at most three redirects are followed (at most four
      requests), and the chain settles for the caller's address. */
  lemma {:induction false} BoundedChainLimits(original: string, address: string, count: Option<nat>,
                                              locate: string -> Utils.ParsedUrl, net: seq<HopEvent>)
    requires count.None? || count.value <= MaxRedirects
    requires BoundedChain(original, address, count, locate, net).Some?
    ensures var s := BoundedChain(original, address, count, locate, net).value;
      s.address == original
      && |s.hops| <= MaxRedirects + 1 - (if count.None? then 0 else count.value)
    decreases |net|
  {
    match Decide(original, locate(address), count, net[0])
    case Settle(_, _) =>
    case Follow(target, c) =>
      BoundedChainLimits(original, target, Some(c), locate, net[1..]);
  }

  lemma IntendedFetchLimits(address: string, parse: string -> Utils.ParsedUrl, net: seq<HopEvent>)
    requires IntendedFetch(address, parse, net).Some?
    ensures IntendedFetch(address, parse, net).value.record.address == address
    ensures |IntendedFetch(address, parse, net).value.hops| <= MaxRedirects + 1
  {
    BoundedChainLimits(address, address, None, Locate(parse), net);
  }

  /** One call of the bounded chain on a redirect to an absolute URL: below the bound it
      follows with the counter raised by one, at the bound it settles on the body. */
  lemma BoundedRedirectStep(original: string, address: string, c: nat, locate: string -> Utils.ParsedUrl,
                            location: string, net: seq<HopEvent>)
    requires net != [] && net[0] == Response(301, Some(location), []) && StartsWith(location, "http")
    ensures c < MaxRedirects ==>
      BoundedChain(original, address, Some(c), locate, net)
        == match BoundedChain(original, location, Some(c + 1), locate, net[1..])
           case None => None
           case Some(rest) => Some(Settled(rest.address, rest.body, [address] + rest.hops))
    ensures c >= MaxRedirects ==>
      BoundedChain(original, address, Some(c), locate, net) == Some(Settled(original, Some([]), [address]))
  {
    assert location != [] && IsRedirect(301, Some(location));
    var step := Decide(original, locate(address), Some(c), net[0]);
    if c < MaxRedirects {
      assert RedirectGate(Some(c)) == (true, c + 1);
      assert ResolveRedirect(location, locate(address)) == location;
      assert step == Follow(location, c + 1);
    } else {
      assert !RedirectGate(Some(c)).0;
      assert step == Settle(original, Some([]));
    }
  }

  /** The first call of the bounded chain follows a redirect to an absolute URL with
      the counter at one. */
  lemma BoundedChainFirstRedirect(original: string, locate: string -> Utils.ParsedUrl,
                                  location: string, net: seq<HopEvent>)
    requires net != [] && net[0] == Response(301, Some(location), []) && StartsWith(location, "http")
    ensures BoundedChain(original, original, None, locate, net)
        == match BoundedChain(original, location, Some(1), locate, net[1..])
           case None => None
           case Some(rest) => Some(Settled(rest.address, rest.body, [original] + rest.hops))
  {
    assert location != [];
    assert Decide(original, locate(original), None, net[0]) == Follow(location, 1);
  }

  /** With the counter at `c`, a run of redirects is followed `3 - c` more times, and
      then the chain settles on the body of the redirect response reached. */
  lemma {:induction false} RedirectRunCut(original: string, address: string, c: nat,
                                          locate: string -> Utils.ParsedUrl, location: string,
                                          net: seq<HopEvent>)
    requires 1 <= c <= MaxRedirects && StartsWith(location, "http")
    requires RedirectRun(net, MaxRedirects - c + 1, location)
    ensures var o := BoundedChain(original, address, Some(c), locate, net);
      o.Some? && |o.value.hops| == MaxRedirects - c + 1
      && o.value.address == original && o.value.body == Some([])
    decreases MaxRedirects - c
  {
    BoundedRedirectStep(original, address, c, locate, location, net);
    if c < MaxRedirects {
      RedirectRunCut(original, location, c + 1, locate, location, net[1..]);
    }
  }

  /** As intended, a chain of four redirects is cut after the third is followed: the fourth
      redirect response's own (empty) body is read, and the record names the caller. */
  lemma FourRedirectsTruncated(address: string, parse: string -> Utils.ParsedUrl, location: string,
                               chunks: seq<string>)
    requires StartsWith(location, "http")
    ensures var hop := Response(301, Some(location), []);
      var o := IntendedFetch(address, parse, [hop, hop, hop, hop, Response(200, None, chunks)]);
      o.Some? && |o.value.hops| == 4 && o.value.record == FetchResult(address, BodyTitle([]))
  {
    var hop := Response(301, Some(location), []);
    var net := [hop, hop, hop, hop, Response(200, None, chunks)];
    assert net[1..] == [hop, hop, hop, Response(200, None, chunks)];
    assert net[1..][1..] == [hop, hop, Response(200, None, chunks)];
    assert net[1..][1..][1..] == [hop, Response(200, None, chunks)];
    assert RedirectRun(net[1..], 3, location);
    BoundedChainFirstRedirect(address, Locate(parse), location, net);
    RedirectRunCut(address, location, 1, Locate(parse), location, net[1..]);
  }
}
