/**
 * The callback-style server (callbackServer.js): its own inline address
 * normalisation and title rule, the fetch outcome record, the order-preserving
 * fan-in of `fetchAllTitles` and its unindented result page.
 */
module CallbackServer {
  import opened Wrappers
  import opened JsStrings
  import opened TitlePattern
  import opened Records
  import Utils

  // ---------------------------------------------------------------------------
  // Inline normalisation

  /** Prefixes `https://` unless the address already names `http://` or `https://`. */
  function InlineNormalize(address: string): (url: string)
    ensures Utils.HasScheme(url)
    ensures Utils.HasScheme(address) ==> url == address
    ensures !Utils.HasScheme(address) ==> url == "https://" + address
  {
    if !StartsWith(address, "http://") && !StartsWith(address, "https://") then "https://" + address
    else address
  }

  /** The inline rule and the shared normaliser agree exactly when the address has a
      scheme, or has no leading '/' and is not one the shared normaliser gives `www.`. */
  lemma InlineAgreesWithShared(address: string)
    ensures InlineNormalize(address) == Utils.NormalizeUrl(address)
        <==> Utils.HasScheme(address)
             || (Utils.StripLeadingSlashes(address) == address && !Utils.AddsWww(address))
  {
    if !Utils.HasScheme(address) {
      var rest := Utils.StripLeadingSlashes(address);
      Utils.NormalizeUrlShape(address);
      var inline := "https://" + address;
      if Utils.AddsWww(rest) {
        WwwNeverMatchesInline(address);
      } else {
        var shared := "https://" + rest;
        assert inline[8..] == address && shared[8..] == rest;
      }
    }
  }

  /** Prefixing `https://www.` to the slash-stripped address never gives what
      prefixing `https://` to the address gives. */
  lemma WwwNeverMatchesInline(address: string)
    ensures "https://" + address != "https://www." + Utils.StripLeadingSlashes(address)
  {
    var rest := Utils.StripLeadingSlashes(address);
    var inline := "https://" + address;
    var shared := "https://www." + rest;
    if |inline| == |shared| {
      assert |address| - |rest| == 4;
      assert inline[8] == address[0] == '/';
      assert shared[8] == 'w';
    }
  }

  // ---------------------------------------------------------------------------
  // Inline title rule

  /** `data.match(/<title[^>]*>(.*?)<\/title>/i)`, the group trimmed but not collapsed,
      or the sentinel. Without the `s` flag the title stays on one line. */
  function LegacyTitle(data: string): (title: string)
    ensures match FirstMatch(data, false)
      case None => title == NoResponse
      case Some(group) =>
        && title == Trim(group)
        && (title != [] ==> !IsSpace(title[0]) && !IsSpace(title[|title| - 1]))
        && (forall k :: 0 <= k < |title| ==> !IsLineTerminator(title[k]))
        && NonSpace(title) == NonSpace(group)
  {
    match FirstMatch(data, false)
    case None => NoResponse
    case Some(group) =>
      GroupIsOneLine(data, Search(data, 0, false).value);
      TrimStaysOnOneLine(group);
      TrimKeepsText(group);
      Trim(group)
  }

  /** Trimming a one-line string leaves it on one line. */
  lemma TrimStaysOnOneLine(s: string)
    requires forall k :: 0 <= k < |s| ==> !IsLineTerminator(s[k])
    ensures forall k :: 0 <= k < |Trim(s)| ==> !IsLineTerminator(Trim(s)[k])
  {
    var u := TrimStart(s);
    forall k | 0 <= k < |u|
      ensures !IsLineTerminator(u[k])
    {
      assert u[k] == s[|s| - |u| + k];
    }
    var t := TrimEnd(u);
    forall k | 0 <= k < |t|
      ensures !IsLineTerminator(t[k])
    {
      assert t[k] == u[k];
    }
  }

  /** A page whose first title element is broken by a line break, followed by a
      one-line title element. */
  const TwoTitles: string := "<title>\n<title>x</title>"

  lemma TwoTitlesFirstOpen()
    ensures LiteralAt(TwoTitles, 0, OpenTag) && FirstGt(TwoTitles, 6) == Some(6)
  {
  }

  /** Without the `s` flag the first `<title` cannot match: its group would have to
      cross the line break. */
  lemma TwoTitlesFirstFails()
    ensures MatchAt(TwoTitles, 0, false) == None
  {
    TwoTitlesFirstOpen();
    MismatchAt(TwoTitles, 7, CloseTag);
    assert IsLineTerminator(TwoTitles[7]);
    assert CloseFrom(TwoTitles, 7, false) == None;
  }

  lemma TwoTitlesNoOpenBetween(p: nat)
    requires 1 <= p < 8
    ensures MatchAt(TwoTitles, p, false).None?
  {
    assert TwoTitles[p] != '<' by {
      if p == 1 {} else if p == 2 {} else if p == 3 {} else if p == 4 {}
      else if p == 5 {} else if p == 6 {} else {}
    }
    MismatchAt(TwoTitles, p, OpenTag);
  }

  lemma TwoTitlesSecondOpen()
    ensures LiteralAt(TwoTitles, 8, OpenTag) && FirstGt(TwoTitles, 14) == Some(14)
  {
  }

  lemma TwoTitlesClose()
    ensures LiteralAt(TwoTitles, 16, CloseTag) && !LiteralAt(TwoTitles, 15, CloseTag)
  {
    MismatchAt(TwoTitles, 15, CloseTag);
  }

  lemma TwoTitlesSecondMatches()
    ensures MatchAt(TwoTitles, 8, false) == Some("x")
  {
    TwoTitlesSecondOpen();
    TwoTitlesClose();
    assert !IsLineTerminator(TwoTitles[15]);
    assert CloseFrom(TwoTitles, 15, false) == Some(16);
    assert TwoTitles[15] == 'x';
    assert TwoTitles[15..16] == "x";
  }

  /** Without the `s` flag the search moves past the broken first element and
      captures the second one. */
  lemma LegacyFindsLaterTitle()
    ensures FirstMatch(TwoTitles, false) == Some("x")
  {
    forall p | 0 <= p < 8
      ensures MatchAt(TwoTitles, p, false).None?
    {
      if p == 0 {
        TwoTitlesFirstFails();
      } else {
        TwoTitlesNoOpenBetween(p);
      }
    }
    TwoTitlesSecondMatches();
    SearchFinds(TwoTitles, 0, 8, false);
  }

  lemma TwoTitlesNoCloseBefore(k: nat)
    requires 7 <= k < 16
    ensures !LiteralAt(TwoTitles, k, CloseTag)
  {
    if k == 8 {
      assert LowerAscii(TwoTitles[9]) != CloseTag[1];
    } else {
      assert TwoTitles[k] != '<' by {
        if k == 7 {} else if k == 9 {} else if k == 10 {} else if k == 11 {}
        else if k == 12 {} else if k == 13 {} else if k == 14 {} else {}
      }
      MismatchAt(TwoTitles, k, CloseTag);
    }
  }

  /** The first group starts with the line break, then holds the second element's
      opening tag and its text, none of which is white space. */
  lemma TwoTitlesFirstGroup()
    ensures TwoTitles[7] == '\n'
    ensures forall k :: 8 <= k < 16 ==> !IsSpace(TwoTitles[k])
  {
    forall k | 8 <= k < 16
      ensures !IsSpace(TwoTitles[k])
    {
      assert ' ' < TwoTitles[k] < '\U{00A0}' by {
        if k == 8 {} else if k == 9 {} else if k == 10 {} else if k == 11 {}
        else if k == 12 {} else if k == 13 {} else if k == 14 {} else {}
      }
      VisibleIsNotSpace(TwoTitles[k]);
    }
  }

  /** The second element's opening tag and text read "<title>x". */
  lemma TwoTitlesSecondTag()
    ensures TwoTitles[8..16] == "<title>x"
  {
    var t := TwoTitles[8..16];
    assert t[0] == '<' && t[1] == 't' && t[2] == 'i' && t[3] == 't';
    assert t[4] == 'l' && t[5] == 'e' && t[6] == '>' && t[7] == 'x';
  }

  /** With the `s` flag the first element matches, its group running across the line
      break and over the second opening tag. */
  lemma SharedTakesFirstTitle()
    ensures FirstMatch(TwoTitles, true) == Some(TwoTitles[7..16])
  {
    TwoTitlesFirstOpen();
    TwoTitlesClose();
    forall k | 7 <= k < 16
      ensures !LiteralAt(TwoTitles, k, CloseTag)
    {
      TwoTitlesNoCloseBefore(k);
    }
    CloseFromFinds(TwoTitles, 7, 16);
    assert MatchAt(TwoTitles, 0, true) == Some(TwoTitles[7..16]);
    SearchFinds(TwoTitles, 0, 0, true);
  }

  /** On the same page the two title rules disagree: this server reports the second
      element's title, the shared `extractTitle` the trimmed text of the first. */
  lemma TitleRulesDiffer()
    ensures LegacyTitle(TwoTitles) == "x"
    ensures Utils.ExtractTitle(TwoTitles) == "<title>x"
  {
    LegacyTitleOfTwoTitles();
    SharedTitleOfTwoTitles();
    TwoTitlesSecondTag();
  }

  lemma LegacyTitleOfTwoTitles()
    ensures LegacyTitle(TwoTitles) == "x"
  {
    LegacyFindsLaterTitle();
    VisibleIsNotSpace('x');
    TrimKeepsTrimmed("x");
  }

  lemma SharedTitleOfTwoTitles()
    ensures Utils.ExtractTitle(TwoTitles) == TwoTitles[8..16]
  {
    SharedTakesFirstTitle();
    SharedTitleText();
  }

  /** Cleaning the first group drops its leading line break and keeps the rest. */
  lemma SharedTitleText()
    ensures Utils.CleanTitle(TwoTitles[7..16]) == TwoTitles[8..16]
  {
    var g, t := TwoTitles[7..16], TwoTitles[8..16];
    TwoTitlesFirstGroup();
    assert g == [TwoTitles[7]] + t;
    assert IsSpace(TwoTitles[7]);
    TrimStartSkips([TwoTitles[7]], t);
    assert TrimEnd(t) == t;
    CollapseKeepsWord(t);
  }

  // ---------------------------------------------------------------------------
  // fetchTitle

  /** What the network did with one request: a response whose body arrived in these
      chunks, a request error, or the timeout. */
  datatype FetchEvent = Replied(chunks: seq<string>) | RequestError | TimedOut

  /** The record `fetchTitle` hands to its callback. The body is read whatever the
      status; there is no redirect handling and no size cap in this server. */
  function FetchTitle(address: string, event: FetchEvent): (r: FetchResult)
    ensures r.address == address
    ensures !event.Replied? ==> r.title == NoResponse
    ensures event.Replied? ==> r.title == LegacyTitle(Concat(event.chunks))
  {
    match event
    case Replied(chunks) => FetchResult(address, LegacyTitle(Concat(chunks)))
    case RequestError => FetchResult(address, NoResponse)
    case TimedOut => FetchResult(address, NoResponse)
  }

  // ---------------------------------------------------------------------------
  // fetchAllTitles

  /** Number of filled slots. */
  function Filled(slots: seq<Option<FetchResult>>): nat {
    if slots == [] then 0 else (if slots[0].Some? then 1 else 0) + Filled(slots[1..])
  }

  lemma {:induction false} FilledBound(slots: seq<Option<FetchResult>>)
    ensures Filled(slots) <= |slots|
    ensures Filled(slots) == |slots| <==> forall i :: 0 <= i < |slots| ==> slots[i].Some?
  {
    if slots != [] {
      FilledBound(slots[1..]);
      assert forall i :: 1 <= i < |slots| ==> slots[i] == slots[1..][i - 1];
    }
  }

  lemma {:induction false} FilledUpdate(slots: seq<Option<FetchResult>>, index: nat, r: FetchResult)
    requires index < |slots| && slots[index].None?
    ensures Filled(slots[index := Some(r)]) == Filled(slots) + 1
  {
    if index == 0 {
      assert slots[index := Some(r)][1..] == slots[1..];
    } else {
      FilledUpdate(slots[1..], index - 1, r);
      assert slots[index := Some(r)][1..] == slots[1..][index - 1 := Some(r)];
    }
  }

  /** Holes only. */
  function Holes(n: nat): (slots: seq<Option<FetchResult>>)
    ensures |slots| == n && Filled(slots) == 0
    ensures forall i :: 0 <= i < n ==> slots[i].None?
  {
    if n == 0 then [] else [None] + Holes(n - 1)
  }

  /** The values of a fully filled slot array, in slot order. */
  function Values(slots: seq<Option<FetchResult>>): (results: seq<FetchResult>)
    requires forall i :: 0 <= i < |slots| ==> slots[i].Some?
    ensures |results| == |slots|
    ensures forall i :: 0 <= i < |slots| ==> Some(results[i]) == slots[i]
  {
    seq(|slots|, i requires 0 <= i < |slots| => slots[i].value)
  }

  /** The state `fetchAllTitles` keeps for one batch: the `results` array filled by
      index (a hole is None), the `completed` counter and the constant `total`. */
  class Collector {
    const total: nat
    var results: seq<Option<FetchResult>>
    var completed: nat

    ghost predicate Valid()
      reads this
    {
      |results| == total && completed == Filled(results)
    }

    constructor (total: nat)
      ensures Valid() && this.total == total
      ensures completed == 0 && |results| == total
      ensures forall i :: 0 <= i < total ==> results[i].None?
    {
      this.total := total;
      results := Holes(total);
      completed := 0;
    }

    /** The callback given to the fetch of address `index`: store the record in its
        slot, count it, and fire the batch callback once every slot is filled. Each
        index completes at most once (the slot is still a hole). */
    method Complete(index: nat, r: FetchResult) returns (fired: bool, delivered: seq<FetchResult>)
      requires Valid() && index < total && results[index].None?
      modifies this
      ensures Valid()
      ensures results == old(results)[index := Some(r)]
      ensures completed == old(completed) + 1
      ensures fired <==> completed == total
      ensures fired <==> forall i :: 0 <= i < total ==> results[i].Some?
      ensures fired ==> |delivered| == total && forall i :: 0 <= i < total ==> Some(delivered[i]) == results[i]
    {
      FilledUpdate(results, index, r);
      results := results[index := Some(r)];
      completed := completed + 1;
      FilledBound(results);
      fired := completed == total;
      if fired {
        delivered := Values(results);
      } else {
        delivered := [];
      }
    }
  }

  /** One firing of the batch callback: how many fetches had completed, and the list. */
  datatype Call = Call(afterCompletions: nat, results: seq<FetchResult>)

  /** Each index in 0..n-1 completes exactly once, in the order given. */
  predicate IsArrivalOrder(order: seq<nat>, n: nat) {
    |order| == n
    && (forall k :: 0 <= k < n ==> order[k] < n)
    && (forall k, l :: 0 <= k < l < n ==> order[k] != order[l])
  }

  /** `fetchAllTitles` driven by one arrival order of the fetch callbacks: `events[i]`
      is what the network did for `addresses[i]`. The batch callback fires exactly once,
      after the last completion (at once, with [], for no addresses), and receives the
      record for `addresses[i]` at position i whatever the order of arrival. */
  method FetchAllTitles(addresses: seq<string>, events: seq<FetchEvent>, order: seq<nat>)
    returns (calls: seq<Call>)
    requires |events| == |addresses| && IsArrivalOrder(order, |addresses|)
    ensures |calls| == 1 && calls[0].afterCompletions == |addresses|
    ensures |calls[0].results| == |addresses|
    ensures forall i :: 0 <= i < |addresses| ==> calls[0].results[i] == FetchTitle(addresses[i], events[i])
    ensures forall i :: 0 <= i < |addresses| ==> calls[0].results[i].address == addresses[i]
  {
    var total := |addresses|;
    if total == 0 {
      return [Call(0, [])];
    }
    var collector := new Collector(total);
    calls := [];
    var k := 0;
    while k < total
      invariant 0 <= k <= total
      invariant collector.Valid() && collector.total == total
      invariant collector.completed == k
      invariant forall i :: 0 <= i < total ==> (collector.results[i].Some? <==> i in order[..k])
      invariant forall i :: 0 <= i < total && collector.results[i].Some? ==>
                  collector.results[i].value == FetchTitle(addresses[i], events[i])
      invariant k < total ==> calls == []
      invariant k == total ==> |calls| == 1 && calls[0].afterCompletions == total
                               && |calls[0].results| == total
                               && forall i :: 0 <= i < total ==> Some(calls[0].results[i]) == collector.results[i]
    {
      var index := order[k];
      assert index !in order[..k];
      var fired, delivered := collector.Complete(index, FetchTitle(addresses[index], events[index]));
      assert order[..k + 1] == order[..k] + [index];
      if fired {
        calls := calls + [Call(collector.completed, delivered)];
      }
      k := k + 1;
    }
  }

  // ---------------------------------------------------------------------------
  // generateHTML (unindented)

  const Header: string := "<html>\n<head></head>\n<body>\n<ul>\n<h1> Following are the titles of given websites: </h1>\n"
  const Footer: string := "</ul>\n</body>\n</html>"

  function ListItem(r: FetchResult): (item: string)
    ensures |item| == |r.address| + |r.title| + 16
    ensures item[..5] == "<li> " && item[5..5 + |r.address|] == r.address
    ensures item[5 + |r.address|..9 + |r.address|] == " - \""
    ensures item[9 + |r.address|..9 + |r.address| + |r.title|] == r.title
    ensures item[|item| - 7..] == "\" </li>"
  {
    "<li> " + r.address + " - \"" + r.title + "\" </li>"
  }

  function GenerateHtml(results: seq<FetchResult>): (html: string)
    ensures StartsWith(html, Header) && EndsWith(html, Footer)
    ensures results == [] ==> html == Header + Footer
  {
    Utils.Page(Header, seq(|results|, i requires 0 <= i < |results| => ListItem(results[i])), Footer)
  }

  /** This page and the shared one carry the same list between their headers and
      footers; only the fixed text around it differs (it lacks the indentation). */
  lemma SameListAsShared(results: seq<FetchResult>)
    ensures var html := GenerateHtml(results);
      var shared := Utils.GenerateHtml(results);
      |Header| + |Footer| <= |html| && |Utils.Header| + |Utils.Footer| <= |shared|
      && html[|Header|..|html| - |Footer|] == shared[|Utils.Header|..|shared| - |Utils.Footer|]
      && html[..|Header|] == Header && html[|html| - |Footer|..] == Footer
  {
    var items := seq(|results|, i requires 0 <= i < |results| => ListItem(results[i]));
    assert items == Utils.ListItems(results);
    Utils.PageMiddle(Header, items, Footer);
    Utils.PageMiddle(Utils.Header, items, Utils.Footer);
  }
}
