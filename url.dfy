/**
  The URL pattern `https?://[\w\.:\/%~_\-\+]+` and Go's `Regexp.FindAll` over it,
  on the bytes of a file.

  RE2 matches leftmost-first: at the earliest position where some match starts,
  the optional `s` is tried present before absent, and the `+` run is greedy.
  `\w` is ASCII-only, so the bytes allowed after `://` are `[A-Za-z0-9_]` and
  `.` `:` `/` `%` `~` `-` `+`; every other byte, including every non-ASCII one,
  ends a URL.
*/
module UrlPattern {
  import opened Base

  /** "http://" */
  const HttpScheme: seq<byte> := [104, 116, 116, 112, 58, 47, 47]
  /** "https://" */
  const HttpsScheme: seq<byte> := [104, 116, 116, 112, 115, 58, 47, 47]
  /** "http", the four bytes every URL starts with */
  const Http: seq<byte> := [104, 116, 116, 112]

  /** RE2's ASCII `\w`. */
  predicate IsWordByte(b: byte) {
    || ('A' as int <= b <= 'Z' as int)
    || ('a' as int <= b <= 'z' as int)
    || ('0' as int <= b <= '9' as int)
    || b == '_' as int
  }

  /** The character class `[\w\.:\/%~_\-\+]`. */
  predicate Allowed(b: byte): (r: bool)
    ensures r ==> ' ' as int < b < 127
    ensures b == '-' as int ==> r
  {
    || IsWordByte(b)
    || b == '.' as int || b == ':' as int || b == '/' as int || b == '%' as int
    || b == '~' as int || b == '_' as int || b == '-' as int || b == '+' as int
  }

  /** `p` occurs in `s` at `i`. */
  predicate HasPrefixAt(s: seq<byte>, i: nat, p: seq<byte>) {
    i + |p| <= |s| && forall k :: 0 <= k < |p| ==> s[i + k] == p[k]
  }

  lemma HasPrefixAtSlice(s: seq<byte>, i: nat, p: seq<byte>)
    ensures HasPrefixAt(s, i, p) <==> i + |p| <= |s| && s[i..i + |p|] == p
  {
    if i + |p| <= |s| && s[i..i + |p|] == p {
      forall k | 0 <= k < |p| ensures s[i + k] == p[k] {
        assert s[i + k] == s[i..i + |p|][k];
      }
    }
  }

  /** End of the greedy run of allowed bytes that starts at `j`. */
  function RunEnd(s: seq<byte>, j: nat): (e: nat)
    requires j <= |s|
    ensures j <= e <= |s|
    ensures forall k :: j <= k < e ==> Allowed(s[k])
    ensures e == |s| || !Allowed(s[e])
    decreases |s| - j
  {
    if j < |s| && Allowed(s[j]) then RunEnd(s, j + 1) else j
  }

  /** One branch of `s?`: the scheme literally at `i`, then one or more allowed bytes, greedily. */
  function SchemeMatch(s: seq<byte>, i: nat, scheme: seq<byte>): Option<nat> {
    if HasPrefixAt(s, i, scheme) && RunEnd(s, i + |scheme|) > i + |scheme|
    then Some(RunEnd(s, i + |scheme|))
    else None
  }

  /** The end of the match RE2 reports when the match starts at `i`, if one does. */
  function MatchAt(s: seq<byte>, i: nat): (m: Option<nat>)
    ensures m.Some? ==> i + |HttpScheme| < m.value <= |s|
  {
    var https := SchemeMatch(s, i, HttpsScheme);
    if https.Some? then https else SchemeMatch(s, i, HttpScheme)
  }

  // ---------------------------------------------------------------------------
  // The language of the pattern, stated without reference to the matcher.

  ghost predicate AllAllowed(t: seq<byte>) {
    forall k :: 0 <= k < |t| ==> Allowed(t[k])
  }

  /** `u` is `scheme` followed by at least one byte, all of them allowed. */
  ghost predicate SchemeUrl(u: seq<byte>, scheme: seq<byte>) {
    |scheme| < |u| && u[..|scheme|] == scheme && AllAllowed(u[|scheme|..])
  }

  /** `u` is in the language of `https?://[\w\.:\/%~_\-\+]+`. */
  ghost predicate IsUrl(u: seq<byte>) {
    SchemeUrl(u, HttpsScheme) || SchemeUrl(u, HttpScheme)
  }

  /** A reported match is a URL, starts with "http", and cannot be extended by one more byte. */
  lemma MatchAtSound(s: seq<byte>, i: nat)
    requires MatchAt(s, i).Some?
    ensures var e := MatchAt(s, i).value;
      && IsUrl(s[i..e])
      && HasPrefixAt(s, i, Http)
      && (e == |s| || !Allowed(s[e]))
  {
    var e := MatchAt(s, i).value;
    var scheme := if SchemeMatch(s, i, HttpsScheme).Some? then HttpsScheme else HttpScheme;
    assert HasPrefixAt(s, i, scheme) && e == RunEnd(s, i + |scheme|);
    HasPrefixAtSlice(s, i, scheme);
    HasPrefixAtSlice(s, i, Http);
    var u := s[i..e];
    assert u[..|scheme|] == s[i..i + |scheme|] == scheme;
    forall k | 0 <= k < |u[|scheme|..]| ensures Allowed(u[|scheme|..][k]) {
      assert u[|scheme|..][k] == s[i + |scheme| + k];
    }
    assert SchemeUrl(u, scheme);
    assert s[i..i + 4] == s[i..i + |scheme|][..4] == Http;
  }

  /** A run of allowed bytes from `j` to `e` does not stop the greedy run early. */
  lemma {:induction false} RunReaches(s: seq<byte>, j: nat, e: nat)
    requires j <= e <= |s|
    requires forall k :: j <= k < e ==> Allowed(s[k])
    ensures e <= RunEnd(s, j)
    decreases e - j
  {
    if j < e {
      RunReaches(s, j + 1, e);
    }
  }

  lemma FifthByte(s: seq<byte>, i: nat)
    ensures HasPrefixAt(s, i, HttpsScheme) ==> s[i + 4] == 's' as int
  {
    HasPrefixAtSlice(s, i, HttpsScheme);
    if HasPrefixAt(s, i, HttpsScheme) {
      assert s[i + 4] == s[i..i + 8][4];
    }
  }

  /** Every URL that starts at `i` is covered by the match RE2 reports at `i`. */
  lemma MatchAtComplete(s: seq<byte>, i: nat, e: nat)
    requires i <= e <= |s| && IsUrl(s[i..e])
    ensures MatchAt(s, i).Some? && e <= MatchAt(s, i).value
  {
    var u := s[i..e];
    var scheme := if SchemeUrl(u, HttpsScheme) then HttpsScheme else HttpScheme;
    assert s[i..i + |scheme|] == u[..|scheme|] == scheme;
    HasPrefixAtSlice(s, i, scheme);
    var j := i + |scheme|;
    forall k | j <= k < e ensures Allowed(s[k]) {
      assert s[k] == u[|scheme|..][k - j];
    }
    RunReaches(s, j, e);
    // In "http://" the fifth byte is ':', in "https://" it is 's': at most one branch applies.
    assert scheme == HttpScheme ==> s[i + 4] == u[..|scheme|][4] == ':' as int;
    FifthByte(s, i);
  }

  // ---------------------------------------------------------------------------
  // FindAll: the matches RE2 reports from left to right.

  /** A match `s[start..end]`. */
  datatype Span = Span(start: nat, end: nat)

  /** The matches found by searching from `from`: the search resumes at the end of each match. */
  function FindFrom(s: seq<byte>, from: nat): (r: seq<Span>)
    requires from <= |s|
    ensures forall k :: 0 <= k < |r| ==> from <= r[k].start && r[k].start + |HttpsScheme| <= r[k].end <= |s|
    decreases |s| - from
  {
    if from == |s| then []
    else match MatchAt(s, from)
      case Some(e) => [Span(from, e)] + FindFrom(s, e)
      case None => FindFrom(s, from + 1)
  }

  function Slices(s: seq<byte>, spans: seq<Span>): (r: seq<seq<byte>>)
    requires forall k :: 0 <= k < |spans| ==> spans[k].start <= spans[k].end <= |s|
    ensures |r| == |spans|
  {
    if spans == [] then [] else [s[spans[0].start..spans[0].end]] + Slices(s, spans[1..])
  }

  /** `isURL.FindAll(s, -1)`: every match, in order. */
  function AllUrls(s: seq<byte>): (r: seq<seq<byte>>)
    ensures |r| == |FindFrom(s, 0)|
    ensures forall k :: 0 <= k < |r| ==> |HttpsScheme| <= |r[k]|
  {
    var spans := FindFrom(s, 0);
    assert forall k :: 0 <= k < |spans| ==> Slices(s, spans)[k] == s[spans[k].start..spans[k].end] by {
      forall k | 0 <= k < |spans| {
        SlicesAt(s, spans, k);
      }
    }
    Slices(s, spans)
  }

  /** The effect of FindAll's limit `n`: at most the first `n` matches. */
  function Take<T>(xs: seq<T>, n: nat): (r: seq<T>)
    ensures |r| == if n < |xs| then n else |xs|
    ensures r == xs[..|r|]
  {
    if n < |xs| then xs[..n] else xs
  }

  /** Gap `k` of a scan from `from` starts at `from` or at the end of match `k - 1` ... */
  function GapStart(from: nat, spans: seq<Span>, k: nat): nat
    requires k <= |spans|
  {
    if k == 0 then from else spans[k - 1].end
  }

  /** ... and stops at the start of match `k`, or at the end of the content. */
  function GapEnd(s: seq<byte>, spans: seq<Span>, k: nat): nat
    requires k <= |spans|
  {
    if k < |spans| then spans[k].start else |s|
  }

  ghost predicate NoMatchIn(s: seq<byte>, lo: nat, hi: nat) {
    forall j :: lo <= j < hi ==> MatchAt(s, j).None?
  }

  /**
    `spans` is a correct leftmost-first, non-overlapping scan of `s` from `from`:
    each span is a match, the spans are pairwise ordered and disjoint, and no match
    starts before the first, between two consecutive ones, or after the last.
  */
  ghost predicate IsScan(s: seq<byte>, from: nat, spans: seq<Span>) {
    && (forall k :: 0 <= k < |spans| ==> from <= spans[k].start && MatchAt(s, spans[k].start) == Some(spans[k].end))
    && (forall k, l :: 0 <= k < l < |spans| ==> spans[k].end <= spans[l].start)
    && (forall k :: 0 <= k <= |spans| ==> NoMatchIn(s, GapStart(from, spans, k), GapEnd(s, spans, k)))
  }

  /** A position where no match starts can be added in front of a scan. */
  lemma ScanSkip(s: seq<byte>, from: nat, spans: seq<Span>)
    requires MatchAt(s, from).None? && IsScan(s, from + 1, spans)
    ensures IsScan(s, from, spans)
  {
    forall k | 0 <= k <= |spans| ensures NoMatchIn(s, GapStart(from, spans, k), GapEnd(s, spans, k)) {
      assert NoMatchIn(s, GapStart(from + 1, spans, k), GapEnd(s, spans, k));
      if k == 0 {
        forall j | from <= j < GapEnd(s, spans, 0) ensures MatchAt(s, j).None? {
          if j > from {
            assert from + 1 <= j;
          }
        }
      }
    }
  }

  /** A match in front of a scan that resumes at its end is a scan. */
  lemma ScanCons(s: seq<byte>, from: nat, e: nat, rest: seq<Span>)
    requires MatchAt(s, from) == Some(e) && IsScan(s, e, rest)
    ensures IsScan(s, from, [Span(from, e)] + rest)
  {
    var r := [Span(from, e)] + rest;
    forall k | 0 < k < |r| ensures r[k] == rest[k - 1] { }
    forall k | 0 < k <= |r|
      ensures GapStart(from, r, k) == GapStart(e, rest, k - 1) && GapEnd(s, r, k) == GapEnd(s, rest, k - 1)
    { }
    assert NoMatchIn(s, GapStart(from, r, 0), GapEnd(s, r, 0));
  }

  /** The search of FindFrom is a correct scan. */
  lemma {:induction false} FindFromIsScan(s: seq<byte>, from: nat)
    requires from <= |s|
    ensures IsScan(s, from, FindFrom(s, from))
    decreases |s| - from
  {
    if from == |s| {
      assert GapStart(from, [], 0) == from;
    } else {
      match MatchAt(s, from)
      case None =>
        FindFromIsScan(s, from + 1);
        ScanSkip(s, from, FindFrom(s, from + 1));
      case Some(e) =>
        FindFromIsScan(s, e);
        ScanCons(s, from, e, FindFrom(s, e));
    }
  }

  /** A scan from a position where no match starts is also a scan from the next position. */
  lemma ScanUnskip(s: seq<byte>, from: nat, spans: seq<Span>)
    requires MatchAt(s, from).None? && IsScan(s, from, spans)
    ensures IsScan(s, from + 1, spans)
  {
    forall k | 0 <= k < |spans| ensures from + 1 <= spans[k].start {
      assert MatchAt(s, spans[k].start).Some?;
    }
    forall k | 0 <= k <= |spans| ensures NoMatchIn(s, GapStart(from + 1, spans, k), GapEnd(s, spans, k)) {
      assert NoMatchIn(s, GapStart(from, spans, k), GapEnd(s, spans, k));
    }
  }

  /** A scan from a position where a match starts begins with that match and continues at its end. */
  lemma ScanUncons(s: seq<byte>, from: nat, e: nat, spans: seq<Span>)
    requires from < |s| && MatchAt(s, from) == Some(e) && IsScan(s, from, spans)
    ensures spans != [] && spans[0] == Span(from, e) && IsScan(s, e, spans[1..])
  {
    assert NoMatchIn(s, GapStart(from, spans, 0), GapEnd(s, spans, 0));
    assert spans != [];
    assert spans[0].start == from;
    var rest := spans[1..];
    forall k | 0 <= k < |rest| ensures rest[k] == spans[k + 1] { }
    forall k | 0 <= k <= |rest|
      ensures GapStart(e, rest, k) == GapStart(from, spans, k + 1) && GapEnd(s, rest, k) == GapEnd(s, spans, k + 1)
    { }
    forall k | 0 <= k <= |rest| ensures NoMatchIn(s, GapStart(e, rest, k), GapEnd(s, rest, k)) {
      assert NoMatchIn(s, GapStart(from, spans, k + 1), GapEnd(s, spans, k + 1));
    }
  }

  /** A correct scan is unique: it is exactly what FindFrom computes. */
  lemma {:induction false} ScanIsFindFrom(s: seq<byte>, from: nat, spans: seq<Span>)
    requires from <= |s| && IsScan(s, from, spans)
    ensures spans == FindFrom(s, from)
    decreases |s| - from
  {
    if from < |s| {
      match MatchAt(s, from)
      case None =>
        ScanUnskip(s, from, spans);
        ScanIsFindFrom(s, from + 1, spans);
      case Some(e) =>
        ScanUncons(s, from, e, spans);
        ScanIsFindFrom(s, e, spans[1..]);
        assert spans == [Span(from, e)] + spans[1..];
    }
  }

  /** Every match is at least eight bytes long, so there are at most `(|s| - from) / 8` of them. */
  lemma {:induction false} MatchCountBound(s: seq<byte>, from: nat)
    requires from <= |s|
    ensures 8 * |FindFrom(s, from)| <= |s| - from
    decreases |s| - from
  {
    if from < |s| {
      match MatchAt(s, from)
      case Some(e) => MatchCountBound(s, e);
      case None => MatchCountBound(s, from + 1);
    }
  }

  /** The limit `len(buf)` passed to FindAll never drops a match. */
  lemma LimitNeverTruncates(s: seq<byte>)
    ensures Take(AllUrls(s), |s|) == AllUrls(s)
  {
    MatchCountBound(s, 0);
  }

  /** Content in which "http" does not occur has no URL in it. */
  lemma NoHttpNoUrls(s: seq<byte>)
    requires forall i :: 0 <= i <= |s| ==> !HasPrefixAt(s, i, Http)
    ensures AllUrls(s) == []
  {
    var r := FindFrom(s, 0);
    if r != [] {
      FindFromIsScan(s, 0);
      MatchAtSound(s, r[0].start);
    }
  }

  lemma {:induction false} SlicesAt(s: seq<byte>, spans: seq<Span>, k: nat)
    requires forall j :: 0 <= j < |spans| ==> spans[j].start <= spans[j].end <= |s|
    requires k < |spans|
    ensures Slices(s, spans)[k] == s[spans[k].start..spans[k].end]
  {
    if k > 0 {
      SlicesAt(s, spans[1..], k - 1);
    }
  }

  /**
    The `k`-th URL FindAll reports is the content between its span's bounds, is in the
    pattern's language, and is maximal: the byte after it, if any, is not allowed.
  */
  lemma UrlsAreMaximalMatches(s: seq<byte>, k: nat)
    requires k < |FindFrom(s, 0)|
    ensures var sp := FindFrom(s, 0)[k];
      && AllUrls(s)[k] == s[sp.start..sp.end]
      && IsUrl(AllUrls(s)[k])
      && (sp.end == |s| || !Allowed(s[sp.end]))
  {
    var sp := FindFrom(s, 0)[k];
    SlicesAt(s, FindFrom(s, 0), k);
    FindFromIsScan(s, 0);
    MatchAtSound(s, sp.start);
  }

  /**
    No URL at all starts in a gap of FindAll's result: before the first match,
    between two consecutive ones, or after the last.
  */
  lemma NoUrlInGaps(s: seq<byte>, k: nat, j: nat, e: nat)
    requires k <= |FindFrom(s, 0)|
    requires GapStart(0, FindFrom(s, 0), k) <= j < GapEnd(s, FindFrom(s, 0), k)
    requires j <= e <= |s|
    ensures !IsUrl(s[j..e])
  {
    FindFromIsScan(s, 0);
    assert MatchAt(s, j).None?;
    if IsUrl(s[j..e]) {
      MatchAtComplete(s, j, e);
    }
  }

  /** No URL contains a space byte. */
  lemma UrlHasNoSpace(u: seq<byte>)
    requires IsUrl(u)
    ensures forall k :: 0 <= k < |u| ==> u[k] != ' ' as int
  {
    var scheme := if SchemeUrl(u, HttpsScheme) then HttpsScheme else HttpScheme;
    forall k | 0 <= k < |u| ensures u[k] != ' ' as int {
      if k < |scheme| {
        assert u[k] == u[..|scheme|][k] == scheme[k];
      } else {
        assert u[k] == u[|scheme|..][k - |scheme|];
      }
    }
  }

  // ---------------------------------------------------------------------------
  // The scanner.

  /** One branch of the pattern at `i`, with the greedy run done by a loop. */
  method SchemeEnd(buf: seq<byte>, i: nat, scheme: seq<byte>) returns (m: Option<nat>)
    ensures m == SchemeMatch(buf, i, scheme)
  {
    if !HasPrefixAt(buf, i, scheme) {
      return None;
    }
    var e := i + |scheme|;
    while e < |buf| && Allowed(buf[e])
      invariant i + |scheme| <= e <= |buf|
      invariant RunEnd(buf, e) == RunEnd(buf, i + |scheme|)
      decreases |buf| - e
    {
      e := e + 1;
    }
    m := if e > i + |scheme| then Some(e) else None;
  }

  /** The match that starts at `i`, trying "https://" before "http://". */
  method MatchEnd(buf: seq<byte>, i: nat) returns (m: Option<nat>)
    ensures m == MatchAt(buf, i)
  {
    m := SchemeEnd(buf, i, HttpsScheme);
    if m.None? {
      m := SchemeEnd(buf, i, HttpScheme);
    }
  }

  /** One step of the search from `pos`, in terms of the URLs it yields. */
  lemma SlicesStep(s: seq<byte>, pos: nat)
    requires pos < |s|
    ensures MatchAt(s, pos).Some? ==>
      Slices(s, FindFrom(s, pos)) == [s[pos..MatchAt(s, pos).value]] + Slices(s, FindFrom(s, MatchAt(s, pos).value))
    ensures MatchAt(s, pos).None? ==> Slices(s, FindFrom(s, pos)) == Slices(s, FindFrom(s, pos + 1))
  {
  }

  lemma ConcatAssoc<T>(a: seq<T>, b: seq<T>, c: seq<T>)
    ensures (a + b) + c == a + (b + c)
  {
  }

  /** When the search stops, the URLs collected so far are the first `n` ones. */
  lemma SearchStops(s: seq<byte>, found: seq<seq<byte>>, pos: nat, n: nat)
    requires pos <= |s| && |found| <= n
    requires found + Slices(s, FindFrom(s, pos)) == AllUrls(s)
    requires pos == |s| || |found| == n
    ensures found == Take(AllUrls(s), n)
  {
    if pos == |s| {
      assert found + [] == found;
    } else {
      assert AllUrls(s)[..|found|] == found;
    }
  }

  /** `isURL.FindAll(buf, n)`: the first `n` matches, left to right, each search resuming at the previous match's end. */
  method FindAll(buf: seq<byte>, n: nat) returns (found: seq<seq<byte>>)
    ensures found == Take(AllUrls(buf), n)
  {
    found := [];
    var pos := 0;
    while pos < |buf| && |found| < n
      invariant pos <= |buf| && |found| <= n
      invariant found + Slices(buf, FindFrom(buf, pos)) == AllUrls(buf)
      decreases |buf| - pos
    {
      var m := MatchEnd(buf, pos);
      SlicesStep(buf, pos);
      match m {
        case Some(e) =>
          ConcatAssoc(found, [buf[pos..e]], Slices(buf, FindFrom(buf, e)));
          found := found + [buf[pos..e]];
          pos := e;
        case None =>
          pos := pos + 1;
      }
    }
    SearchStops(buf, found, pos, n);
  }
}
