/**
 * The pieces of JavaScript's string library that the title fetcher relies on,
 * written out over `seq<char>`: the white-space class shared by `\s` and
 * `String.prototype.trim`, `startsWith`, `split` and `join` on a one-character
 * separator, `trim`, and `replace(/\s+/g, ' ')`.
 */
module JsStrings {

  /** The ECMAScript WhiteSpace and LineTerminator code points. Both `\s` in a
      regular expression and `trim` use exactly this set. */
  predicate IsSpace(c: char) {
    SpaceFrom(c, 0)
  }

  const Spaces: seq<char> := [
    '\t', '\n', '\U{000B}', '\U{000C}', '\r', ' ', '\U{00A0}', '\U{1680}',
    '\U{2000}', '\U{2001}', '\U{2002}', '\U{2003}', '\U{2004}', '\U{2005}',
    '\U{2006}', '\U{2007}', '\U{2008}', '\U{2009}', '\U{200A}',
    '\U{2028}', '\U{2029}', '\U{202F}', '\U{205F}', '\U{3000}', '\U{FEFF}'
  ]

  /** `c` occurs in `Spaces` at or after position `i`. */
  predicate SpaceFrom(c: char, i: nat)
    decreases |Spaces| - i
  {
    i < |Spaces| && (c == Spaces[i] || SpaceFrom(c, i + 1))
  }

  /** The walk over `Spaces` from `i` finds exactly the characters listed from `i` on. */
  lemma {:induction false} SpaceFromListed(c: char, i: nat)
    ensures SpaceFrom(c, i) <==> exists k :: i <= k < |Spaces| && Spaces[k] == c
    decreases |Spaces| - i
  {
    if i < |Spaces| {
      SpaceFromListed(c, i + 1);
    }
  }

  /** White space is exactly the listed code points. */
  lemma SpaceIsListed(c: char)
    ensures IsSpace(c) <==> c in Spaces
  {
    SpaceFromListed(c, 0);
  }

  /** Every line terminator is white space, so `\s+` runs can span lines. */
  lemma LineTerminatorIsSpace(c: char)
    requires IsLineTerminator(c)
    ensures IsSpace(c)
  {
    SpaceFromListed(c, 0);
    assert Spaces[1] == '\n' && Spaces[4] == '\r' && Spaces[19] == '\U{2028}' && Spaces[20] == '\U{2029}';
  }

  /** The characters `.` does not match unless a regular expression has the `s` flag. */
  predicate IsLineTerminator(c: char) {
    c in {'\n', '\r', '\U{2028}', '\U{2029}'}
  }

  predicate StartsWith(s: string, prefix: string) {
    |prefix| <= |s| && s[..|prefix|] == prefix
  }

  predicate EndsWith(s: string, suffix: string) {
    |suffix| <= |s| && s[|s| - |suffix|..] == suffix
  }

  /** ASCII lower-casing, which is all a case-insensitive match against an
      ASCII literal can see (no non-ASCII letter folds onto an ASCII one). */
  function LowerAscii(c: char): (d: char)
    ensures 'A' <= c <= 'Z' ==> d as int == c as int + 32
    ensures !('A' <= c <= 'Z') ==> d == c
  {
    if 'A' <= c <= 'Z' then (c as int + 32) as char else c
  }

  /** Every white-space character lies at or below ' ' or at or above U+00A0. */
  lemma SpacesOutsideVisibleAscii()
    ensures forall k :: 0 <= k < |Spaces| ==> Spaces[k] <= ' ' || '\U{00A0}' <= Spaces[k]
  {
  }

  lemma {:induction false} NotSpaceFrom(c: char, i: nat)
    requires ' ' < c < '\U{00A0}'
    ensures !SpaceFrom(c, i)
    decreases |Spaces| - i
  {
    if i < |Spaces| {
      SpacesOutsideVisibleAscii();
      NotSpaceFrom(c, i + 1);
    }
  }

  /** Visible ASCII characters (and the C1 controls after them) are not white space. */
  lemma VisibleIsNotSpace(c: char)
    requires ' ' < c < '\U{00A0}'
    ensures !IsSpace(c)
  {
    NotSpaceFrom(c, 0);
  }

  /** The characters of `s` that are not white space, in order. */
  function NonSpace(s: string): string {
    if s == [] then [] else (if IsSpace(s[0]) then [] else [s[0]]) + NonSpace(s[1..])
  }

  /** Number of occurrences of `c` in `s`. */
  function Count(s: string, c: char): nat {
    if s == [] then 0 else (if s[0] == c then 1 else 0) + Count(s[1..], c)
  }

  /** Every character of `s` is white space. */
  predicate AllSpace(s: string) {
    s == [] || (IsSpace(s[0]) && AllSpace(s[1..]))
  }

  /** Each character of an all-white-space string is white space. */
  lemma {:induction false} AllSpaceAt(s: string, k: nat)
    requires AllSpace(s) && k < |s|
    ensures IsSpace(s[k])
  {
    if k > 0 {
      AllSpaceAt(s[1..], k - 1);
    }
  }

  /** `s.trimStart()`: drops the leading white space and nothing else. */
  function TrimStart(s: string): (r: string)
    ensures |r| <= |s| && r == s[|s| - |r|..]
    ensures r != [] ==> !IsSpace(r[0])
    ensures s != [] && IsSpace(s[0]) ==> |r| < |s|
  {
    if s != [] && IsSpace(s[0]) then TrimStart(s[1..]) else s
  }

  /** What `trimStart` cuts away is white space. */
  lemma {:induction false} TrimStartDropsSpace(s: string)
    ensures AllSpace(s[..|s| - |TrimStart(s)|])
  {
    if s != [] && IsSpace(s[0]) {
      var r := TrimStart(s[1..]);
      TrimStartDropsSpace(s[1..]);
      assert s[..|s| - |r|][1..] == s[1..][..|s| - 1 - |r|];
    }
  }

  /** `s.trimEnd()`: drops the trailing white space and nothing else. */
  function TrimEnd(s: string): (r: string)
    ensures |r| <= |s| && r == s[..|r|]
    ensures r != [] ==> !IsSpace(r[|r| - 1])
  {
    if s != [] && IsSpace(s[|s| - 1]) then TrimEnd(s[..|s| - 1]) else s
  }

  /** What `trimEnd` cuts away is white space. */
  lemma {:induction false} TrimEndDropsSpace(s: string)
    ensures AllSpace(s[|TrimEnd(s)|..])
  {
    if s != [] && IsSpace(s[|s| - 1]) {
      var r := TrimEnd(s[..|s| - 1]);
      TrimEndDropsSpace(s[..|s| - 1]);
      AllSpaceSnoc(s[|r|..|s| - 1], s[|s| - 1]);
      assert s[|r|..] == s[|r|..|s| - 1] + [s[|s| - 1]];
      assert s[..|s| - 1][|r|..] == s[|r|..|s| - 1];
    }
  }

  /** Appending white space to an all-white-space string keeps it so. */
  lemma {:induction false} AllSpaceSnoc(s: string, c: char)
    requires AllSpace(s) && IsSpace(c)
    ensures AllSpace(s + [c])
  {
    if s != [] {
      AllSpaceSnoc(s[1..], c);
      assert (s + [c])[1..] == s[1..] + [c];
    }
  }

  /** `s.trim()`: white space cut from both ends. */
  function Trim(s: string): (r: string)
    ensures r != [] ==> !IsSpace(r[0]) && !IsSpace(r[|r| - 1])
  {
    TrimEnd(TrimStart(s))
  }

  /** A string that neither starts nor ends with white space is its own trim. */
  lemma TrimKeepsTrimmed(s: string)
    requires s != [] ==> !IsSpace(s[0]) && !IsSpace(s[|s| - 1])
    ensures Trim(s) == s
  {
    assert TrimStart(s) == s;
  }

  /** The trimmed string is a contiguous slice of `s`: it starts where the leading white
      space ends. */
  lemma {:induction false} TrimIsSlice(s: string)
    ensures var r := Trim(s); var i := |s| - |TrimStart(s)|;
      i + |r| <= |s| && r == s[i..i + |r|]
  {
    var t := TrimStart(s);
    PrefixOfSuffix(s, t, TrimEnd(t));
  }

  /** A prefix of a suffix is a slice. */
  lemma PrefixOfSuffix(s: string, t: string, r: string)
    requires |t| <= |s| && t == s[|s| - |t|..]
    requires |r| <= |t| && r == t[..|r|]
    ensures |s| - |t| + |r| <= |s| && r == s[|s| - |t|..|s| - |t| + |r|]
  {
  }

  /** Dropping leading white space keeps every other character. */
  lemma {:induction false} TrimStartKeepsText(s: string)
    ensures NonSpace(TrimStart(s)) == NonSpace(s)
  {
    if s != [] && IsSpace(s[0]) {
      TrimStartKeepsText(s[1..]);
    }
  }

  /** Dropping trailing white space keeps every other character. */
  lemma {:induction false} TrimEndKeepsText(s: string)
    ensures NonSpace(TrimEnd(s)) == NonSpace(s)
  {
    if s != [] && IsSpace(s[|s| - 1]) {
      var init := s[..|s| - 1];
      TrimEndKeepsText(init);
      assert s == init + [s[|s| - 1]];
      NonSpaceAppend(init, [s[|s| - 1]]);
      assert NonSpace([s[|s| - 1]]) == [];
    }
  }

  /** Trimming keeps every non-space character, in order. */
  lemma TrimKeepsText(s: string)
    ensures NonSpace(Trim(s)) == NonSpace(s)
  {
    TrimStartKeepsText(s);
    TrimEndKeepsText(TrimStart(s));
  }

  /** NonSpace distributes over concatenation. */
  lemma {:induction false} NonSpaceAppend(x: string, y: string)
    ensures NonSpace(x + y) == NonSpace(x) + NonSpace(y)
  {
    if x == [] {
      assert x + y == y;
    } else {
      assert (x + y)[1..] == x[1..] + y;
      NonSpaceAppend(x[1..], y);
    }
  }

  /** Every white-space character is a plain ' ' and is followed by a non-space. */
  predicate SingleSpaced(s: string) {
    s == [] ||
    ((IsSpace(s[0]) ==> s[0] == ' ' && (|s| > 1 ==> !IsSpace(s[1]))) && SingleSpaced(s[1..]))
  }

  /** A string without white space is single-spaced. */
  lemma {:induction false} NoSpaceIsSingleSpaced(s: string)
    requires forall k :: 0 <= k < |s| ==> !IsSpace(s[k])
    ensures SingleSpaced(s)
  {
    if s != [] {
      assert forall k :: 0 <= k < |s[1..]| ==> s[1..][k] == s[k + 1];
      NoSpaceIsSingleSpaced(s[1..]);
    }
  }

  /** `s.replace(/\s+/g, ' ')`: every maximal run of white space becomes one ' '. */
  function Collapse(s: string): (r: string)
    ensures |r| <= |s|
    ensures SingleSpaced(r)
    ensures r == [] <==> s == []
    ensures r != [] ==> (IsSpace(r[0]) <==> IsSpace(s[0]))
    decreases |s|
  {
    if s == [] then []
    else if IsSpace(s[0]) then
      var rest := Collapse(TrimStart(s));
      SingleSpacedCons(' ', rest);
      [' '] + rest
    else
      var rest := Collapse(s[1..]);
      SingleSpacedCons(s[0], rest);
      [s[0]] + rest
  }

  /** A character in front of a single-spaced string keeps it single-spaced, unless it
      is white space other than ' ' or comes before more white space. */
  lemma SingleSpacedCons(c: char, t: string)
    requires SingleSpaced(t)
    requires IsSpace(c) ==> c == ' ' && (t != [] ==> !IsSpace(t[0]))
    ensures SingleSpaced([c] + t)
  {
    assert ([c] + t)[1..] == t;
  }

  /** The last character of a collapsed string is white space exactly when the last
      character of the original is. */
  lemma {:induction false} CollapseKeepsLast(s: string)
    ensures s != [] ==> var r := Collapse(s); IsSpace(r[|r| - 1]) <==> IsSpace(s[|s| - 1])
    decreases |s|, 1
  {
    if s != [] {
      if IsSpace(s[0]) {
        if TrimStart(s) == [] {
          BlankCollapse(s);
        } else {
          CollapseLastAfterRun(s);
        }
      } else if |s| > 1 {
        CollapseKeepsLast(s[1..]);
        LastOfAppend([s[0]], Collapse(s[1..]));
      }
    }
  }

  /** CollapseKeepsLast when the string starts with a run of white space and has more
      after it. */
  lemma {:induction false} CollapseLastAfterRun(s: string)
    requires s != [] && IsSpace(s[0]) && TrimStart(s) != []
    ensures var r := Collapse(s); IsSpace(r[|r| - 1]) <==> IsSpace(s[|s| - 1])
    decreases |s|, 0
  {
    var rest := TrimStart(s);
    CollapseKeepsLast(rest);
    assert Collapse(s) == [' '] + Collapse(rest);
    LastOfAppend([' '], Collapse(rest));
    assert rest[|rest| - 1] == s[|s| - 1];
  }

  /** A string that is all white space collapses to one ' ', and ends with white space. */
  lemma BlankCollapse(s: string)
    requires s != [] && IsSpace(s[0]) && TrimStart(s) == []
    ensures Collapse(s) == [' '] && IsSpace(s[|s| - 1])
  {
    BlankEndsInSpace(s);
  }

  /** A string that `trimStart` empties ends with white space. */
  lemma {:induction false} BlankEndsInSpace(s: string)
    requires s != [] && TrimStart(s) == []
    ensures IsSpace(s[|s| - 1])
    decreases |s|
  {
    assert IsSpace(s[0]);
    if |s| > 1 {
      BlankEndsInSpace(s[1..]);
      assert s[1..][|s| - 2] == s[|s| - 1];
    }
  }

  /** Collapsing a string that starts and ends with a non-space character keeps both
      ends non-space. */
  lemma CollapseKeepsEnds(s: string)
    requires s != [] ==> !IsSpace(s[0]) && !IsSpace(s[|s| - 1])
    ensures var r := Collapse(s); r != [] ==> !IsSpace(r[0]) && !IsSpace(r[|r| - 1])
  {
    CollapseKeepsLast(s);
  }

  /** The last character of `a + b` is that of `b` when `b` is not empty. */
  lemma LastOfAppend(a: string, b: string)
    requires b != []
    ensures (a + b)[|a + b| - 1] == b[|b| - 1]
  {
  }

  /** A single-spaced string is left alone by `replace(/\s+/g, ' ')`. */
  lemma {:induction false} CollapseFixesSingleSpaced(s: string)
    requires SingleSpaced(s)
    ensures Collapse(s) == s
    decreases |s|
  {
    if s == [] {
    } else if IsSpace(s[0]) {
      assert TrimStart(s) == s[1..] by {
        assert TrimStart(s) == TrimStart(s[1..]);
        if s[1..] != [] {
          assert !IsSpace(s[1..][0]);
        }
      }
      CollapseFixesSingleSpaced(s[1..]);
    } else {
      CollapseFixesSingleSpaced(s[1..]);
    }
  }

  /** Collapsing white space keeps every other character, in order. */
  lemma {:induction false} CollapseKeepsText(s: string)
    ensures NonSpace(Collapse(s)) == NonSpace(s)
    decreases |s|
  {
    if s == [] {
    } else if IsSpace(s[0]) {
      var rest := TrimStart(s);
      TrimStartKeepsText(s);
      CollapseKeepsText(rest);
      assert ([' '] + Collapse(rest))[1..] == Collapse(rest);
    } else {
      CollapseKeepsText(s[1..]);
      assert ([s[0]] + Collapse(s[1..]))[1..] == Collapse(s[1..]);
    }
  }

  /** `trimStart` drops a leading run of white space up to the first non-space. */
  lemma {:induction false} TrimStartSkips(w: string, y: string)
    requires forall k :: 0 <= k < |w| ==> IsSpace(w[k])
    requires y != [] ==> !IsSpace(y[0])
    ensures TrimStart(w + y) == y
    decreases |w|
  {
    if w == [] {
      assert w + y == y;
    } else {
      assert (w + y)[0] == w[0];
      assert (w + y)[1..] == w[1..] + y;
      TrimStartSkips(w[1..], y);
    }
  }

  /** `trimEnd` drops a trailing run of white space back to the last non-space. */
  lemma {:induction false} TrimEndSkips(x: string, w: string)
    requires forall k :: 0 <= k < |w| ==> IsSpace(w[k])
    requires x != [] ==> !IsSpace(x[|x| - 1])
    ensures TrimEnd(x + w) == x
    decreases |w|
  {
    if w == [] {
      assert x + w == x;
    } else {
      var init := w[..|w| - 1];
      assert (x + w)[|x + w| - 1] == w[|w| - 1];
      assert (x + w)[..|x + w| - 1] == x + init;
      TrimEndSkips(x, init);
    }
  }

  /** In front of text that holds a non-space character, `trimStart` does not reach
      what follows. */
  lemma {:induction false} TrimStartAppend(x: string, z: string)
    requires x != [] && !IsSpace(x[|x| - 1])
    ensures TrimStart(x) != []
    ensures TrimStart(x + z) == TrimStart(x) + z
    decreases |x|
  {
    if IsSpace(x[0]) {
      assert (x + z)[0] == x[0];
      assert (x + z)[1..] == x[1..] + z;
      TrimStartAppend(x[1..], z);
    }
  }

  /** The collapse works run by run: text that ends with a non-space character is
      collapsed on its own, whatever follows it. */
  lemma {:induction false} CollapseAppend(x: string, z: string)
    requires x != [] ==> !IsSpace(x[|x| - 1])
    ensures Collapse(x + z) == Collapse(x) + Collapse(z)
    decreases |x|
  {
    if x == [] {
      assert x + z == z;
    } else if IsSpace(x[0]) {
      var t := TrimStart(x);
      TrimStartAppend(x, z);
      assert t[|t| - 1] == x[|x| - 1];
      CollapseAppend(t, z);
      assert (x + z)[0] == x[0];
      assert Collapse(x + z) == [' '] + Collapse(t + z);
      assert Collapse(x) == [' '] + Collapse(t);
      AppendAssoc([' '], Collapse(t), Collapse(z));
    } else {
      var u := x[1..];
      assert (x + z)[0] == x[0];
      assert (x + z)[1..] == u + z;
      CollapseAppend(u, z);
      assert Collapse(x + z) == [x[0]] + Collapse(u + z);
      assert Collapse(x) == [x[0]] + Collapse(u);
      AppendAssoc([x[0]], Collapse(u), Collapse(z));
    }
  }

  lemma AppendAssoc(a: string, b: string, c: string)
    ensures a + (b + c) == (a + b) + c
  {
  }

  /** A maximal run of white space, however long and of whatever kind, becomes one ' '. */
  lemma CollapseSpaceRun(w: string, y: string)
    requires w != [] && forall k :: 0 <= k < |w| ==> IsSpace(w[k])
    requires y != [] ==> !IsSpace(y[0])
    ensures Collapse(w + y) == [' '] + Collapse(y)
  {
    assert (w + y)[0] == w[0];
    TrimStartSkips(w, y);
  }

  /** `replace(/\s+/g, ' ')` on text with one white-space run between a non-space end
      and a non-space start: the run becomes a single ' ' and each side is collapsed
      on its own. */
  lemma CollapseRun(x: string, w: string, y: string)
    requires x != [] ==> !IsSpace(x[|x| - 1])
    requires w != [] && forall k :: 0 <= k < |w| ==> IsSpace(w[k])
    requires y != [] ==> !IsSpace(y[0])
    ensures Collapse(x + w + y) == Collapse(x) + [' '] + Collapse(y)
  {
    AppendAssoc(x, w, y);
    CollapseAppend(x, w + y);
    CollapseSpaceRun(w, y);
    AppendAssoc(Collapse(x), [' '], Collapse(y));
  }

  /** Text without white space is left alone by the collapse. */
  lemma CollapseKeepsWord(x: string)
    requires forall k :: 0 <= k < |x| ==> !IsSpace(x[k])
    ensures Collapse(x) == x
  {
    NoSpaceIsSingleSpaced(x);
    CollapseFixesSingleSpaced(x);
  }

  /** Concatenation of a list of strings, in order (`data += chunk` repeated). */
  function Concat(parts: seq<string>): string {
    if parts == [] then [] else Concat(parts[..|parts| - 1]) + parts[|parts| - 1]
  }

  /** Concatenation is a homomorphism: the text of two runs of chunks is the text of
      the first followed by that of the second. */
  lemma {:induction false} ConcatAppend(a: seq<string>, b: seq<string>)
    ensures Concat(a + b) == Concat(a) + Concat(b)
    decreases |b|
  {
    if b == [] {
      assert a + b == a;
    } else {
      var init := b[..|b| - 1];
      ConcatAppend(a, init);
      assert (a + b)[..|a + b| - 1] == a + init;
      AppendAssoc(Concat(a), Concat(init), b[|b| - 1]);
    }
  }

  /** `parts.join(sep)`. */
  function Join(parts: seq<string>, sep: string): string {
    if parts == [] then []
    else if |parts| == 1 then parts[0]
    else parts[0] + sep + Join(parts[1..], sep)
  }

  /** Where `parts[i]` begins inside `Join(parts, sep)`. */
  function JoinOffset(parts: seq<string>, sep: string, i: nat): nat
    requires i <= |parts|
  {
    if i == 0 then 0 else |parts[0]| + |sep| + JoinOffset(parts[1..], sep, i - 1)
  }

  /** `parts.join(sep)` lays the parts out in order: part i sits at `JoinOffset(parts, sep, i)`,
      and the last part ends the string. */
  lemma {:induction false} JoinPartAt(parts: seq<string>, sep: string, i: nat)
    requires i < |parts|
    ensures var o := JoinOffset(parts, sep, i);
      o + |parts[i]| <= |Join(parts, sep)| && Join(parts, sep)[o..o + |parts[i]|] == parts[i]
      && (i + 1 == |parts| ==> o + |parts[i]| == |Join(parts, sep)|)
  {
    if |parts| == 1 {
    } else if i == 0 {
      assert Join(parts, sep) == parts[0] + sep + Join(parts[1..], sep);
    } else {
      JoinPartAt(parts[1..], sep, i - 1);
      assert Join(parts, sep) == parts[0] + sep + Join(parts[1..], sep);
      assert parts[1..][i - 1] == parts[i];
    }
  }

  /** Every part but the last is followed by the separator. */
  lemma {:induction false} JoinSepAt(parts: seq<string>, sep: string, i: nat)
    requires i + 1 < |parts|
    ensures var e := JoinOffset(parts, sep, i) + |parts[i]|;
      e + |sep| <= |Join(parts, sep)| && Join(parts, sep)[e..e + |sep|] == sep
  {
    var rest := Join(parts[1..], sep);
    assert Join(parts, sep) == parts[0] + sep + rest;
    if i == 0 {
      assert (parts[0] + sep + rest)[|parts[0]|..|parts[0]| + |sep|] == sep;
    } else {
      JoinSepAt(parts[1..], sep, i - 1);
      assert parts[1..][i - 1] == parts[i];
      var k := JoinOffset(parts[1..], sep, i - 1) + |parts[i]|;
      SliceAfter(parts[0] + sep, rest, k, |sep|);
    }
  }

  /** A slice of `a + b` that lies inside `b`. */
  lemma SliceAfter(a: string, b: string, k: nat, n: nat)
    requires k + n <= |b|
    ensures (a + b)[|a| + k..|a| + k + n] == b[k..k + n]
  {
  }

  /** `s.split(c)` for a one-character separator: the pieces between the occurrences of `c`. */
  function Split(s: string, c: char): (parts: seq<string>)
    ensures |parts| == Count(s, c) + 1
  {
    if s == [] then [[]]
    else if s[0] == c then [[]] + Split(s[1..], c)
    else
      var rest := Split(s[1..], c);
      [[s[0]] + rest[0]] + rest[1..]
  }

  /** No piece of a split contains the separator. */
  lemma {:induction false} SplitPartsFree(s: string, c: char)
    ensures forall i, k :: 0 <= i < |Split(s, c)| && 0 <= k < |Split(s, c)[i]| ==> Split(s, c)[i][k] != c
  {
    if s != [] {
      SplitPartsFree(s[1..], c);
      if s[0] != c {
        var rest := Split(s[1..], c);
        assert forall k :: 0 <= k < |rest[0]| ==> ([s[0]] + rest[0])[k + 1] == rest[0][k];
      }
    }
  }

  /** `split` and `join` on the same separator are inverse: `s.split(c).join(c) == s`. */
  lemma {:induction false} JoinSplit(s: string, c: char)
    ensures Join(Split(s, c), [c]) == s
  {
    if s != [] {
      var rest := Split(s[1..], c);
      JoinSplit(s[1..], c);
      if s[0] == c {
        assert Split(s, c) == [[]] + rest;
        JoinPrepend([], rest, [c]);
        assert s == [c] + s[1..];
      } else {
        assert Split(s, c) == [[s[0]] + rest[0]] + rest[1..];
        JoinExtendFirst([s[0]], rest, [c]);
        assert s == [s[0]] + s[1..];
      }
    }
  }

  /** Putting a part in front adds it and one separator. */
  lemma JoinPrepend(p: string, parts: seq<string>, sep: string)
    requires parts != []
    ensures Join([p] + parts, sep) == p + sep + Join(parts, sep)
  {
    assert ([p] + parts)[1..] == parts;
  }

  /** Extending the first part extends the joined string at the front. */
  lemma JoinExtendFirst(p: string, parts: seq<string>, sep: string)
    requires parts != []
    ensures Join([p + parts[0]] + parts[1..], sep) == p + Join(parts, sep)
  {
    if |parts| > 1 {
      JoinPrepend(p + parts[0], parts[1..], sep);
      JoinPrepend(parts[0], parts[1..], sep);
      assert [parts[0]] + parts[1..] == parts;
    }
  }

  /** The first piece of a split is everything before the first separator. */
  lemma {:induction false} SplitFirst(x: string, c: char, y: string)
    requires forall k :: 0 <= k < |x| ==> x[k] != c
    ensures Split(x + [c] + y, c)[0] == x
    ensures Split(x, c) == [x]
  {
    if x == [] {
      assert x + [c] + y == [c] + y;
    } else {
      assert (x + [c] + y)[1..] == x[1..] + [c] + y;
      SplitFirst(x[1..], c, y);
      assert [x[0]] + x[1..] == x;
    }
  }
}
