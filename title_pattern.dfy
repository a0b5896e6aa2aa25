/**
 * The regular expression `/<title[^>]*>(.*?)<\/title>/i`, with and without the
 * `s` (dotAll) flag, written out as a search over start positions.
 *
 * At a start position p the engine needs `<title` (ASCII case ignored); the
 * greedy `[^>]*` then runs to the first `>` after it, and backtracking into it
 * cannot help because no shorter run ends before a `>`. The lazy group then
 * grows one character at a time until `</title>` follows; without the `s`
 * flag it cannot grow across a line terminator. When that fails the engine
 * moves on to p + 1.
 */
module TitlePattern {
  import opened Wrappers
  import opened JsStrings

  const OpenTag: string := "<title"
  const CloseTag: string := "</title>"

  /** `s` holds the lower-case literal `lit` at position `p`, ignoring ASCII case. */
  predicate LiteralAt(s: string, p: nat, lit: string) {
    p + |lit| <= |s| && forall k :: 0 <= k < |lit| ==> LowerAscii(s[p + k]) == lit[k]
  }

  /** The first `>` at or after `i`. */
  function FirstGt(s: string, i: nat): (r: Option<nat>)
    ensures r.Some? ==> i <= r.value < |s| && s[r.value] == '>'
    ensures forall k :: i <= k < |s| && (r.None? || k < r.value) ==> s[k] != '>'
    decreases |s| - i
  {
    if i >= |s| then None else if s[i] == '>' then Some(i) else FirstGt(s, i + 1)
  }

  /** Where the lazy group that starts at `e` ends: the first `</title>` at or after
      `e`, provided the group may cover every character before it. */
  function CloseFrom(s: string, e: nat, dotAll: bool): (r: Option<nat>)
    ensures r.Some? ==> e <= r.value && LiteralAt(s, r.value, CloseTag)
    ensures r.Some? ==> forall k :: e <= k < r.value ==> !LiteralAt(s, k, CloseTag)
    ensures r.Some? && !dotAll ==> forall k :: e <= k < r.value ==> !IsLineTerminator(s[k])
    ensures r.None? && dotAll ==> forall k :: e <= k ==> !LiteralAt(s, k, CloseTag)
    ensures r.None? && !dotAll ==> forall k :: e <= k && LiteralAt(s, k, CloseTag) ==>
      exists j :: e <= j < k && IsLineTerminator(s[j])
    decreases |s| - e
  {
    if LiteralAt(s, e, CloseTag) then Some(e)
    else if e < |s| && (dotAll || !IsLineTerminator(s[e])) then CloseFrom(s, e + 1, dotAll)
    else None
  }

  /** `g` is the text of `s` from `b` up to the first `</title>` after `b`. */
  predicate GroupAt(s: string, b: nat, g: string) {
    && b + |g| <= |s| && g == s[b..b + |g|]
    && LiteralAt(s, b + |g|, CloseTag)
    && forall k :: b <= k < b + |g| ==> !LiteralAt(s, k, CloseTag)
  }

  /** Every `</title>` at or after `b` has a line terminator before it, and the `s` flag
      is off. */
  ghost predicate NoGroupFrom(s: string, b: nat, dotAll: bool) {
    forall k :: b <= k && LiteralAt(s, k, CloseTag) ==> !dotAll && exists j :: b <= j < k && IsLineTerminator(s[j])
  }

  /** The captured group of a match that starts at `p`, if there is one. */
  function MatchAt(s: string, p: nat, dotAll: bool): (r: Option<string>)
    ensures r.Some? ==> LiteralAt(s, p, OpenTag) && FirstGt(s, p + |OpenTag|).Some?
    ensures r.Some? ==> GroupAt(s, FirstGt(s, p + |OpenTag|).value + 1, r.value)
    ensures LiteralAt(s, p, OpenTag) && FirstGt(s, p + |OpenTag|).Some? && r.None? ==>
      NoGroupFrom(s, FirstGt(s, p + |OpenTag|).value + 1, dotAll)
  {
    if !LiteralAt(s, p, OpenTag) then None
    else match FirstGt(s, p + |OpenTag|)
      case None => None
      case Some(q) => GroupFrom(s, q + 1, dotAll)
  }

  /** The lazy group `(.*?)<\/title>` that starts at `b`, if it can end. */
  function GroupFrom(s: string, b: nat, dotAll: bool): (r: Option<string>)
    ensures r.Some? ==> GroupAt(s, b, r.value)
    ensures r.None? ==> NoGroupFrom(s, b, dotAll)
  {
    CloseFromGroup(s, b, dotAll);
    match CloseFrom(s, b, dotAll)
    case None => None
    case Some(e) => Some(s[b..e])
  }

  /** What CloseFrom finds is a lazy group; when it finds nothing, no group can end. */
  lemma CloseFromGroup(s: string, b: nat, dotAll: bool)
    ensures CloseFrom(s, b, dotAll).Some? ==> GroupAt(s, b, s[b..CloseFrom(s, b, dotAll).value])
    ensures CloseFrom(s, b, dotAll).None? ==> NoGroupFrom(s, b, dotAll)
  {
    match CloseFrom(s, b, dotAll)
    case None =>
    case Some(e) =>
      var g := s[b..e];
      assert b + |g| == e;
  }

  /** `String.prototype.match`: the leftmost start position at or after `from`
      where the pattern matches. */
  function Search(s: string, from: nat, dotAll: bool): (r: Option<nat>)
    ensures r.Some? ==> from <= r.value < |s| && MatchAt(s, r.value, dotAll).Some?
    ensures forall p :: from <= p && (r.None? || p < r.value) ==> MatchAt(s, p, dotAll).None?
    decreases |s| - from
  {
    if from >= |s| then None
    else if MatchAt(s, from, dotAll).Some? then Some(from)
    else Search(s, from + 1, dotAll)
  }

  /** The group captured by the leftmost match, if any. */
  function FirstMatch(s: string, dotAll: bool): (r: Option<string>)
    ensures r.Some? <==> exists p :: MatchAt(s, p, dotAll).Some?
    ensures r.Some? ==> exists p :: MatchAt(s, p, dotAll) == r && forall p' :: p' < p ==> MatchAt(s, p', dotAll).None?
  {
    match Search(s, 0, dotAll)
    case None => None
    case Some(p) => MatchAt(s, p, dotAll)
  }

  /** A literal is not at `p` when its first character is not there. */
  lemma MismatchAt(s: string, p: nat, lit: string)
    requires p < |s| && lit != [] && LowerAscii(s[p]) != lit[0]
    ensures !LiteralAt(s, p, lit)
  {
  }

  /** The search stops at the first start position where the pattern matches. */
  lemma SearchFinds(s: string, from: nat, q: nat, dotAll: bool)
    requires from <= q && MatchAt(s, q, dotAll).Some?
    requires forall p :: from <= p < q ==> MatchAt(s, p, dotAll).None?
    ensures Search(s, from, dotAll) == Some(q)
  {
  }

  /** With the `s` flag the lazy group stops at the first `</title>`. */
  lemma CloseFromFinds(s: string, e: nat, c: nat)
    requires e <= c && LiteralAt(s, c, CloseTag)
    requires forall k :: e <= k < c ==> !LiteralAt(s, k, CloseTag)
    ensures CloseFrom(s, e, true) == Some(c)
  {
  }

  /** The leftmost `<title` at or after `from`. */
  function FirstOpen(s: string, from: nat): (r: Option<nat>)
    ensures r.Some? ==> from <= r.value && LiteralAt(s, r.value, OpenTag)
    ensures forall p :: from <= p && (r.None? || p < r.value) ==> !LiteralAt(s, p, OpenTag)
    decreases |s| - from
  {
    if from >= |s| then None
    else if LiteralAt(s, from, OpenTag) then Some(from)
    else FirstOpen(s, from + 1)
  }

  /** With the `s` flag, if the match fails at a `<title`, it fails at every later one:
      the later tag's `>` is no earlier, so no `</title>` can follow it either. */
  lemma LaterOpenFails(s: string, p: nat, p': nat)
    requires LiteralAt(s, p, OpenTag) && MatchAt(s, p, true).None? && p < p'
    ensures MatchAt(s, p', true).None?
  {
    if LiteralAt(s, p', OpenTag) {
      match FirstGt(s, p' + |OpenTag|)
      case None =>
      case Some(q') =>
        match FirstGt(s, p + |OpenTag|)
        case None =>
          assert false;
        case Some(q) =>
          assert q <= q';
          assert CloseFrom(s, q + 1, true).None?;
    }
  }

  /** With the `s` flag the search needs no backtracking over start positions: the
      leftmost `<title` alone decides whether there is a match and what it captures. */
  lemma {:induction false} LeftmostOpenDecides(s: string)
    ensures FirstMatch(s, true) == match FirstOpen(s, 0)
                                   case None => None
                                   case Some(p) => MatchAt(s, p, true)
  {
    match FirstOpen(s, 0)
    case None =>
      assert forall p :: 0 <= p ==> MatchAt(s, p, true).None?;
    case Some(p0) =>
      if MatchAt(s, p0, true).None? {
        forall p | p0 < p ensures MatchAt(s, p, true).None? {
          LaterOpenFails(s, p0, p);
        }
        assert forall p :: 0 <= p ==> MatchAt(s, p, true).None?;
      } else {
        assert Search(s, 0, true) == Some(p0);
      }
  }

  /** Without the `s` flag a captured group never holds a line terminator. */
  lemma GroupIsOneLine(s: string, p: nat)
    requires MatchAt(s, p, false).Some?
    ensures forall k :: 0 <= k < |MatchAt(s, p, false).value| ==> !IsLineTerminator(MatchAt(s, p, false).value[k])
  {
    var q := FirstGt(s, p + |OpenTag|).value;
    var e := CloseFrom(s, q + 1, false).value;
    var g := s[q + 1..e];
    assert forall k :: 0 <= k < |g| ==> g[k] == s[q + 1 + k];
  }
}
