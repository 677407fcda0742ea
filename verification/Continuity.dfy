/** When two captures continue one story: anchors, overlap scores and the merge threshold. Weights and
    thresholds are exact rationals. */
module Continuity {
  import opened Wrappers
  import opened Text

  datatype ContinuityRecord = ContinuityRecord(
    appName: string, url: Option<string>, windowTitle: string, text: string, snippet: string,
    lexicalShadow: string, capturedAtMs: int)

  datatype ContinuityScore = ContinuityScore(score: real, lexical: real, vector: real, anchorMatch: bool)

  const MERGE_WINDOW_MS: int := 45 * 60 * 1000
  const ANCHOR_SEGMENTS: nat := 3

  // ----- URLs -------------------------------------------------------------------------

  function FindText(s: string, needle: string): (i: nat)
    ensures i <= |s|
    decreases |s|
  {
    if s == [] || StartsWithText(s, needle) then 0 else 1 + FindText(s[1..], needle)
  }

  predicate StartsWithText(s: string, needle: string) {
    |needle| <= |s| && s[..|needle|] == needle
  }

  /** What follows "://", or the whole text. */
  function AfterScheme(url: string): string {
    var i := FindText(url, "://");
    if StartsWithText(url[i..], "://") then url[i + 3..] else url
  }

  function AfterLast(s: string, c: char): (r: string)
    ensures forall x | x in r :: x in s
  {
    if s == [] || s[|s| - 1] == c then "" else AfterLast(s[..|s| - 1], c) + [s[|s| - 1]]
  }

  /** The host in the text after the scheme: up to the path, without credentials and port. */
  function HostOf(after: string): string {
    Trim(Until(AfterLast(Trim(Until(after, OneOf({'/', '?', '#'}))), '@'), Is(':')))
  }

  /** The lower-case host of a URL. */
  function Domain(url: Option<string>): (domain: Option<string>)
    ensures domain.Some? ==> url.Some?
  {
    if url.None? then None
    else
      var host := HostOf(AfterScheme(Trim(url.value)));
      if host == "" then None else Some(LowerAscii(host))
  }

  function NonBlank(): string -> bool {
    s => Trim(s) != ""
  }

  function Segment(): string -> string {
    s => LowerAscii(Trim(s))
  }

  function AfterSlash(s: string): string {
    var i := Find(s, Is('/'));
    if i < |s| then s[i + 1..] else ""
  }

  function SegmentsOf(path: string): seq<string> {
    Map(Filter(Split(path, Is('/')), NonBlank()), Segment())
  }

  function PathSegments(url: string, count: nat): seq<string> {
    Take(SegmentsOf(Until(AfterSlash(AfterScheme(url)), OneOf({'?', '#'}))), count)
  }

  // ----- tokens --------------------------------------------------------------------------

  function StopWords(): set<string> {
    {"the", "and", "for", "with", "this", "that", "from", "your", "you", "are", "was", "were", "have", "has",
     "into", "about", "after", "before", "then", "just", "there", "here", "user", "app", "window", "tab",
     "page", "open", "opened", "search", "searched", "www", "http", "https", "com"}
  }

  function NotAlphanumeric(u: Unicode): char -> bool {
    c => !u.alphanumeric(c)
  }

  function Meaningful(): string -> bool {
    t => Utf8Len(t) > 2 && t !in StopWords()
  }

  function Tokens(u: Unicode, text: string): seq<string> {
    Filter(Split(u.lower(text), NotAlphanumeric(u)), Meaningful())
  }

  function TokenSet(u: Unicode, text: string): set<string> {
    set t | t in Tokens(u, text)
  }

  /** `t` is a whole run of letters and digits of the lower-cased text, of more than two bytes and not a word
      that says nothing. */
  ghost predicate IsToken(u: Unicode, text: string, t: string) {
    && Utf8Len(t) > 2
    && t !in {"the", "and", "for", "with", "this", "that", "from", "your", "you", "are", "was", "were", "have", "has",
              "into", "about", "after", "before", "then", "just", "there", "here", "user", "app", "window", "tab",
              "page", "open", "opened", "search", "searched", "www", "http", "https", "com"}
    && exists i: nat, j: nat | IsRun(u, u.lower(text), i, j) :: u.lower(text)[i..j] == t
  }

  ghost predicate IsRun(u: Unicode, s: string, i: nat, j: nat) {
    && i <= j <= |s| && (forall k | i <= k < j :: u.alphanumeric(s[k]))
    && (i == 0 || !u.alphanumeric(s[i - 1])) && (j == |s| || !u.alphanumeric(s[j]))
  }

  lemma RunIsPiece(u: Unicode, s: string, i: nat, j: nat)
    ensures IsRun(u, s, i, j) <==> IsPiece(s, NotAlphanumeric(u), i, j)
  {
  }

  lemma RunIsToken(u: Unicode, text: string, i: nat, j: nat)
    requires IsRun(u, u.lower(text), i, j)
    ensures IsToken(u, text, u.lower(text)[i..j]) ==> u.lower(text)[i..j] in TokenSet(u, text)
  {
    hide Utf8Len, Split, IsRun;
    var lower := u.lower(text);
    RunIsPiece(u, lower, i, j);
    PieceStands(lower, NotAlphanumeric(u), i, j);
    FilterKeeps(Split(lower, NotAlphanumeric(u)), Meaningful(), lower[i..j]);
  }

  lemma ListedIsToken(u: Unicode, text: string, t: string)
    requires t in TokenSet(u, text)
    ensures IsToken(u, text, t)
  {
    hide Utf8Len, Split, IsRun;
    var lower := u.lower(text);
    var pieces := Split(lower, NotAlphanumeric(u));
    FilterKeeps(pieces, Meaningful(), t);
    var n :| 0 <= n < |pieces| && pieces[n] == t;
    var i, j := ListedIsPiece(lower, NotAlphanumeric(u), n);
    RunIsPiece(u, lower, i, j);
  }

  lemma TokensAre(u: Unicode, text: string)
    ensures forall t :: t in TokenSet(u, text) <==> IsToken(u, text, t)
  {
    hide TokenSet, Utf8Len;
    forall t | t in TokenSet(u, text) ensures IsToken(u, text, t) {
      ListedIsToken(u, text, t);
    }
    forall i: nat, j: nat | IsRun(u, u.lower(text), i, j)
      ensures IsToken(u, text, u.lower(text)[i..j]) ==> u.lower(text)[i..j] in TokenSet(u, text)
    {
      RunIsToken(u, text, i, j);
    }
  }

  function OrUnderscore(u: Unicode): char -> char {
    c => if u.alphanumeric(c) then c else '_'
  }

  function MapChars(s: string, f: char -> char): (r: string)
    ensures |r| == |s| && forall i | 0 <= i < |s| :: r[i] == f(s[i])
  {
    seq(|s|, i requires 0 <= i < |s| => f(s[i]))
  }

  function NormalizeAppKey(u: Unicode, appName: string): string {
    var key := Join(Filter(Split(MapChars(u.lower(appName), OrUnderscore(u)), Is('_')), NotEmpty()), ['_']);
    if key == "" then "unknown" else key
  }

  function AnchorTokens(u: Unicode, text: string): seq<string> {
    Take(Tokens(u, text), 8)
  }

  // ----- anchors ---------------------------------------------------------------------------

  function UrlAnchor(domain: string, path: string): string {
    if path != "" then "url:" + domain + ":" + path else "url:" + domain
  }

  function AppAnchor(app: string, title: string, snippet: string): Option<string> {
    if Utf8Len(title) >= 8 then Some("app:" + app + ":title:" + title)
    else if Utf8Len(snippet) >= 10 then Some("app:" + app + ":snippet:" + snippet)
    else None
  }

  function ContinuityAnchor(u: Unicode, r: ContinuityRecord): Option<string> {
    var domain := Domain(r.url);
    if domain.Some? then Some(UrlAnchor(domain.value, Join(PathSegments(r.url.value, ANCHOR_SEGMENTS), ['/'])))
    else
      AppAnchor(NormalizeAppKey(u, r.appName), Join(AnchorTokens(u, r.windowTitle), ['_']),
                Join(AnchorTokens(u, r.snippet), ['_']))
  }

  /** What an anchor says. */
  datatype AnchorKey =
    | UrlKey(domain: string, segments: seq<string>)
    | TitleKey(app: string, tokens: seq<string>)
    | SnippetKey(app: string, tokens: seq<string>)

  function AppKey(app: string, title: seq<string>, snippet: seq<string>): Option<AnchorKey> {
    if Utf8Len(Join(title, ['_'])) >= 8 then Some(TitleKey(app, title))
    else if Utf8Len(Join(snippet, ['_'])) >= 10 then Some(SnippetKey(app, snippet))
    else None
  }

  function KeyOf(u: Unicode, r: ContinuityRecord): Option<AnchorKey> {
    var domain := Domain(r.url);
    if domain.Some? then Some(UrlKey(domain.value, PathSegments(r.url.value, ANCHOR_SEGMENTS)))
    else AppKey(NormalizeAppKey(u, r.appName), AnchorTokens(u, r.windowTitle), AnchorTokens(u, r.snippet))
  }

  function Render(key: AnchorKey): string {
    match key
    case UrlKey(domain, segments) =>
      if segments == [] then "url:" + domain else "url:" + domain + ":" + Join(segments, ['/'])
    case TitleKey(app, tokens) => "app:" + app + ":title:" + Join(tokens, ['_'])
    case SnippetKey(app, tokens) => "app:" + app + ":snippet:" + Join(tokens, ['_'])
  }

  /** The shape of every key: a colon-free first part and parts without their separator. */
  ghost predicate WellFormed(key: AnchorKey) {
    match key
    case UrlKey(domain, segments) =>
      ':' !in domain && forall s | s in segments :: '/' !in s && s != ""
    case TitleKey(app, tokens) =>
      ':' !in app && tokens != [] && forall t | t in tokens :: '_' !in t
    case SnippetKey(app, tokens) =>
      ':' !in app && tokens != [] && forall t | t in tokens :: '_' !in t
  }

  lemma UntilKeepsOut(s: string, c: char)
    ensures c !in Until(s, Is(c))
  {
  }

  lemma LowerAsciiKeepsOut(s: string, c: char)
    requires c !in s && !('a' <= c <= 'z')
    ensures c !in LowerAscii(s)
  {
    forall i | 0 <= i < |s| ensures LowerAscii(s)[i] != c {
      assert s[i] in s;
    }
  }

  lemma HostHasNoColon(after: string)
    ensures ':' !in HostOf(after)
  {
    hide AfterLast, Trim;
    var part := Until(AfterLast(Trim(Until(after, OneOf({'/', '?', '#'}))), '@'), Is(':'));
    UntilKeepsOut(AfterLast(Trim(Until(after, OneOf({'/', '?', '#'}))), '@'), ':');
    TrimKeepsOut(part, ':');
  }

  lemma DomainHasNoColon(url: Option<string>)
    requires Domain(url).Some?
    ensures ':' !in Domain(url).value
  {
    hide HostOf, AfterScheme, Trim;
    HostHasNoColon(AfterScheme(Trim(url.value)));
    LowerAsciiKeepsOut(HostOf(AfterScheme(Trim(url.value))), ':');
  }

  lemma SegmentIsClean(piece: string)
    requires '/' !in piece && Trim(piece) != ""
    ensures '/' !in Segment()(piece) && Segment()(piece) != ""
  {
    TrimKeepsOut(piece, '/');
    LowerAsciiKeepsOut(Trim(piece), '/');
  }

  lemma SegmentsAreClean(path: string)
    ensures forall s | s in SegmentsOf(path) :: '/' !in s && s != ""
  {
    hide Trim, Split, Filter, LowerAscii;
    var raw := Filter(Split(path, Is('/')), NonBlank());
    forall i | 0 <= i < |raw| ensures '/' !in SegmentsOf(path)[i] && SegmentsOf(path)[i] != "" {
      assert raw[i] in raw;
      SegmentIsClean(raw[i]);
    }
  }

  lemma PathSegmentsAreClean(url: string, count: nat)
    ensures forall s | s in PathSegments(url, count) :: '/' !in s && s != ""
  {
    hide SegmentsOf, Until, AfterSlash, AfterScheme;
    SegmentsAreClean(Until(AfterSlash(AfterScheme(url)), OneOf({'?', '#'})));
  }

  lemma AppKeyHasNoColon(u: Unicode, appName: string)
    ensures ':' !in NormalizeAppKey(u, appName)
  {
    var mapped := MapChars(u.lower(appName), OrUnderscore(u));
    assert ':' !in mapped;
    SplitContained(mapped, Is('_'));
    var parts := Filter(Split(mapped, Is('_')), NotEmpty());
    forall p | p in parts ensures ':' !in p {
      PartKeepsOut(mapped, p, ':');
    }
    JoinKeepsOut(parts, ['_'], ':');
  }

  lemma PartKeepsOut(whole: string, part: string, c: char)
    requires Contains(whole, part) && c !in whole
    ensures c !in part
  {
    var i: nat :| i <= |whole| && OccursAt(whole, part, i);
    forall k | 0 <= k < |part| ensures part[k] != c {
      assert whole[i..i + |part|][k] == whole[i + k];
    }
  }

  lemma TokensHaveNoUnderscore(u: Unicode, text: string)
    ensures forall t | t in AnchorTokens(u, text) :: '_' !in t
  {
  }

  lemma AppKeyRenders(app: string, title: seq<string>, snippet: seq<string>)
    requires ':' !in app
    requires forall t | t in title :: '_' !in t
    requires forall t | t in snippet :: '_' !in t
    ensures var key := AppKey(app, title, snippet);
            && (key.Some? ==> WellFormed(key.value))
            && AppAnchor(app, Join(title, ['_']), Join(snippet, ['_']))
               == (if key.Some? then Some(Render(key.value)) else None)
  {
  }

  lemma UrlKeyRenders(domain: string, segments: seq<string>)
    requires ':' !in domain && forall s | s in segments :: '/' !in s && s != ""
    ensures WellFormed(UrlKey(domain, segments))
    ensures UrlAnchor(domain, Join(segments, ['/'])) == Render(UrlKey(domain, segments))
  {
    JoinNonEmpty(segments, '/');
  }

  /** The anchor of a record writes down its key. */
  ghost predicate AnchorIsRendered(u: Unicode, r: ContinuityRecord) {
    var key := KeyOf(u, r);
    && (key.Some? ==> WellFormed(key.value))
    && ContinuityAnchor(u, r) == (if key.Some? then Some(Render(key.value)) else None)
  }

  lemma UrlAnchorIsRendered(u: Unicode, r: ContinuityRecord)
    requires Domain(r.url).Some?
    ensures AnchorIsRendered(u, r)
  {
    hide Domain, PathSegments, Join, UrlAnchor, Render, WellFormed, AppKey, AppAnchor, NormalizeAppKey, AnchorTokens;
    DomainHasNoColon(r.url);
    PathSegmentsAreClean(r.url.value, 3);
    UrlKeyRenders(Domain(r.url).value, PathSegments(r.url.value, ANCHOR_SEGMENTS));
  }

  lemma AppAnchorIsRendered(u: Unicode, r: ContinuityRecord)
    requires Domain(r.url).None?
    ensures AnchorIsRendered(u, r)
  {
    hide Domain, PathSegments, Join, UrlAnchor, Render, WellFormed, AppKey, AppAnchor, NormalizeAppKey, AnchorTokens;
    AppKeyHasNoColon(u, r.appName);
    TokensHaveNoUnderscore(u, r.windowTitle);
    TokensHaveNoUnderscore(u, r.snippet);
    AppKeyRenders(NormalizeAppKey(u, r.appName), AnchorTokens(u, r.windowTitle), AnchorTokens(u, r.snippet));
  }

  lemma AnchorRendersKey(u: Unicode, r: ContinuityRecord)
    ensures AnchorIsRendered(u, r)
  {
    hide Domain, AnchorIsRendered;
    if Domain(r.url).Some? {
      UrlAnchorIsRendered(u, r);
    } else {
      AppAnchorIsRendered(u, r);
    }
  }

  lemma JoinNonEmpty(parts: seq<string>, c: char)
    requires forall p | p in parts :: p != ""
    ensures Join(parts, [c]) == "" <==> parts == []
  {
    if parts != [] {
      assert parts[0] in parts;
    }
  }

  lemma JoinDetermines(a: seq<string>, b: seq<string>, c: char)
    requires a != [] && b != []
    requires forall p | p in a :: c !in p
    requires forall p | p in b :: c !in p
    requires Join(a, [c]) == Join(b, [c])
    ensures a == b
  {
    SplitOfJoin(a, c);
    SplitOfJoin(b, c);
  }

  /** A colon-free part ends at the first colon. */
  lemma FirstPartDetermines(a: string, x: string, b: string, y: string)
    requires ':' !in a && ':' !in b
    requires x == "" || x[0] == ':'
    requires y == "" || y[0] == ':'
    requires a + x == b + y
    ensures a == b && x == y
  {
    var s := a + x;
    assert forall k | 0 <= k < |a| :: s[k] == a[k];
    assert forall k | 0 <= k < |b| :: s[k] == b[k];
    FindUnique(s, Is(':'), |a|);
    FindUnique(s, Is(':'), |b|);
    assert a == s[..|a|] && b == s[..|b|];
    assert x == s[|a|..] && y == s[|b|..];
  }

  /** Everything after the four-letter tag. */
  function Body(key: AnchorKey): (string, string) {
    match key
    case UrlKey(domain, segments) => (domain, if segments == [] then "" else [':'] + Join(segments, ['/']))
    case TitleKey(app, tokens) => (app, ":title:" + Join(tokens, ['_']))
    case SnippetKey(app, tokens) => (app, ":snippet:" + Join(tokens, ['_']))
  }

  lemma RenderIsTagAndBody(key: AnchorKey)
    ensures Render(key) == (if key.UrlKey? then "url:" else "app:") + (Body(key).0 + Body(key).1)
  {
  }

  lemma BodyDetermines(a: AnchorKey, b: AnchorKey)
    requires WellFormed(a) && WellFormed(b) && a.UrlKey? == b.UrlKey?
    requires Body(a) == Body(b)
    ensures a == b
  {
    if a.UrlKey? {
      if a.segments != [] && b.segments != [] {
        assert Join(a.segments, ['/']) == Body(a).1[1..] && Join(b.segments, ['/']) == Body(b).1[1..];
        JoinDetermines(a.segments, b.segments, '/');
      }
    } else {
      assert a.TitleKey? ==> Body(a).1[1] == 't';
      assert a.SnippetKey? ==> Body(a).1[1] == 's';
      assert b.TitleKey? ==> Body(b).1[1] == 't';
      assert b.SnippetKey? ==> Body(b).1[1] == 's';
      var skip := if a.TitleKey? then 7 else 9;
      assert Join(a.tokens, ['_']) == Body(a).1[skip..] && Join(b.tokens, ['_']) == Body(b).1[skip..];
      JoinDetermines(a.tokens, b.tokens, '_');
    }
  }

  /** Anchor strings decode uniquely. */
  lemma RenderIsInjective(a: AnchorKey, b: AnchorKey)
    requires WellFormed(a) && WellFormed(b) && Render(a) == Render(b)
    ensures a == b
  {
    RenderIsTagAndBody(a);
    RenderIsTagAndBody(b);
    assert Render(a)[0] == (if a.UrlKey? then 'u' else 'a');
    assert Render(b)[0] == (if b.UrlKey? then 'u' else 'a');
    assert Body(a).0 + Body(a).1 == Render(a)[4..] == Render(b)[4..] == Body(b).0 + Body(b).1;
    FirstPartDetermines(Body(a).0, Body(a).1, Body(b).0, Body(b).1);
    BodyDetermines(a, b);
  }

  /** Two records share an anchor exactly when they have the same host and leading path segments, or
      the same app key and the same leading title (or snippet) tokens. */
  lemma SameAnchorIff(u: Unicode, a: ContinuityRecord, b: ContinuityRecord)
    ensures ContinuityAnchor(u, a).Some? <==> KeyOf(u, a).Some?
    ensures ContinuityAnchor(u, a) == ContinuityAnchor(u, b) <==> KeyOf(u, a) == KeyOf(u, b)
  {
    hide KeyOf, ContinuityAnchor, WellFormed, Render;
    AnchorRendersKey(u, a);
    AnchorRendersKey(u, b);
    if KeyOf(u, a).Some? && KeyOf(u, b).Some? && ContinuityAnchor(u, a) == ContinuityAnchor(u, b) {
      RenderIsInjective(KeyOf(u, a).value, KeyOf(u, b).value);
    }
  }

  // ----- scores ------------------------------------------------------------------------------

  function TokenOverlap(u: Unicode, left: string, right: string): real {
    var l, r := TokenSet(u, left), TokenSet(u, right);
    Overlap(l, r)
  }

  function Overlap(l: set<string>, r: set<string>): real {
    if l == {} || r == {} then 0.0
    else
      assert l <= l + r && |l + r| > 0 by {
        var x :| x in l;
        assert x in l + r;
      }
      |l * r| as real / |l + r| as real
  }

  /** The first 1000 characters. */
  function Head(text: string): (head: string)
    ensures head == if |text| > 1000 then text[..1000] else text
  {
    Cut(text, 1000)
  }

  function Lexical(u: Unicode, a: ContinuityRecord, b: ContinuityRecord): real {
    TokenOverlap(u, a.snippet, b.snippet) * 0.42
    + TokenOverlap(u, a.windowTitle, b.windowTitle) * 0.26
    + TokenOverlap(u, Head(a.text), Head(b.text)) * 0.20
    + TokenOverlap(u, a.lexicalShadow, b.lexicalShadow) * 0.12
  }

  predicate SameDomain(a: ContinuityRecord, b: ContinuityRecord) {
    Domain(a.url).Some? && Domain(a.url) == Domain(b.url)
  }

  function Clamp(x: real): real {
    if x < 0.0 then 0.0 else if x > 1.0 then 1.0 else x
  }

  function ScoreCandidate(u: Unicode, incoming: ContinuityRecord, candidate: ContinuityRecord, similarity: real)
    : ContinuityScore
  {
    var lexical := Lexical(u, incoming, candidate);
    var vector := Clamp(similarity);
    var anchor := ContinuityAnchor(u, incoming);
    var anchorMatch := anchor.Some? && anchor == ContinuityAnchor(u, candidate);
    ContinuityScore(
      vector * 0.5 + lexical * 0.42 + (if SameDomain(incoming, candidate) then 0.08 else 0.0)
      + (if anchorMatch then 0.32 else 0.0),
      lexical, vector, anchorMatch)
  }

  predicate EligibleForStoryMerge(r: ContinuityRecord) {
    Utf8Len(Trim(r.text)) >= 36 || Utf8Len(Trim(r.snippet)) >= 18
  }

  predicate PassesMergeThreshold(s: ContinuityScore) {
    if s.anchorMatch then s.score >= 0.58 && s.lexical >= 0.18
    else
      || (s.lexical >= 0.72 && s.score >= 0.80)
      || (s.score >= 0.86 && s.vector >= 0.82 && s.lexical >= 0.28)
  }

  function TrimSlashes(s: string): string {
    if s != [] && s[|s| - 1] == '/' then TrimSlashes(s[..|s| - 1]) else s
  }

  function EffectiveUrl(u: Unicode, url: string): string {
    var lower := u.lower(Trim(url));
    var rest := if StartsWithText(lower, "https://") then lower[8..]
                else if StartsWithText(lower, "http://") then lower[7..] else lower;
    TrimSlashes(Until(rest, OneOf({'?', '#'})))
  }

  predicate MatchingEffectiveUrl(u: Unicode, left: Option<string>, right: Option<string>) {
    left.Some? && right.Some? && EffectiveUrl(u, left.value) == EffectiveUrl(u, right.value)
  }

  function Distance(a: int, b: int): nat {
    if a < b then b - a else a - b
  }

  predicate AllowsCrossAppMerge(u: Unicode, a: ContinuityRecord, b: ContinuityRecord, s: ContinuityScore) {
    && Distance(a.capturedAtMs, b.capturedAtMs) <= MERGE_WINDOW_MS
    && (MatchingEffectiveUrl(u, a.url, b.url)
        || (SameDomain(a, b)
            && ((s.anchorMatch && s.lexical >= 0.52) || (s.vector >= 0.93 && s.lexical >= 0.70))))
  }

  function ShouldMerge(u: Unicode, incoming: ContinuityRecord, candidate: ContinuityRecord, similarity: real)
    : Option<ContinuityScore>
  {
    if !EligibleForStoryMerge(incoming) || !EligibleForStoryMerge(candidate) then None
    else
      var score := ScoreCandidate(u, incoming, candidate, similarity);
      if incoming.appName != candidate.appName && !AllowsCrossAppMerge(u, incoming, candidate, score) then None
      else if PassesMergeThreshold(score) then Some(score) else None
  }

  // ----- URLs and names as they are compared ----------------------------------------------------

  lemma {:induction false} SlashesAreTrimmed(s: string, slashes: string)
    requires (forall c | c in slashes :: c == '/') && (s != "" ==> s[|s| - 1] != '/')
    ensures TrimSlashes(s + slashes) == s
  {
    if slashes == "" {
      assert s + slashes == s;
    } else {
      var n := |slashes| - 1;
      assert slashes[n] in slashes && forall c | c in slashes[..n] :: c in slashes;
      assert (s + slashes)[..|s| + n] == s + slashes[..n];
      SlashesAreTrimmed(s, slashes[..n]);
    }
  }

  /** URLs are compared without their scheme, closing slashes, query and fragment. */
  lemma EffectiveUrlIs(u: Unicode, scheme: string, rest: string, slashes: string, more: string)
    requires scheme == "https://" || scheme == "http://" || (scheme == "" && ':' !in rest)
    requires u.lower(Trim(scheme + rest + slashes + more)) == scheme + rest + slashes + more
    requires '?' !in rest && '#' !in rest && (rest != "" ==> rest[|rest| - 1] != '/')
    requires (forall c | c in slashes :: c == '/') && (more != "" ==> more[0] in {'?', '#'})
    ensures EffectiveUrl(u, scheme + rest + slashes + more) == rest
  {
    hide Trim, TrimSlashes, Until;
    var url, path := scheme + rest + slashes + more, rest + slashes;
    assert url == scheme + (path + more) && url[|scheme|..] == path + more;
    assert url[..|scheme|] == scheme;
    if scheme == "" {
      NoScheme(path, more, "https://");
      NoScheme(path, more, "http://");
    } else if scheme == "http://" {
      assert url[4] == scheme[4] == ':';
      assert |url| >= 8 ==> url[..8][4] == url[4];
    }
    UntilQuery(path, more);
    SlashesAreTrimmed(rest, slashes);
  }

  lemma NoScheme(path: string, more: string, scheme: string)
    requires ':' !in path && ':' in scheme && '?' !in scheme && '#' !in scheme && (more != "" ==> more[0] in {'?', '#'})
    ensures !StartsWithText(path + more, scheme)
  {
    var i :| 0 <= i < |scheme| && scheme[i] == ':';
    assert forall k | 0 <= k < |path| :: (path + more)[k] in path;
    assert forall k | 0 <= k < |scheme| :: scheme[k] in scheme;
    assert |path| < |path + more| ==> (path + more)[|path|] == more[0];
  }

  /** Segments before a slash and after it; with `OneSegment` this is all of what they are. */
  lemma SegmentsAtSlash(x: string, y: string)
    ensures SegmentsOf(x + "/" + y) == SegmentsOf(x) + SegmentsOf(y)
  {
    hide Split, Filter, Map, NonBlank, Segment;
    var a, b := Split(x, Is('/')), Split(y, Is('/'));
    assert x + "/" + y == x + ['/'] + y;
    SplitAtBreak(x, '/', y, Is('/'));
    FilterConcat(a, b, NonBlank());
    MapConcat(Filter(a, NonBlank()), Filter(b, NonBlank()), Segment());
  }

  /** An anchor has the first three segments. */
  lemma AnchorHasThree(url: string)
    ensures var all := SegmentsOf(Until(AfterSlash(AfterScheme(url)), OneOf({'?', '#'})));
            PathSegments(url, ANCHOR_SEGMENTS) == if |all| > 3 then all[..3] else all
  {
  }

  /** Without a host, a title of 8 bytes in its first eight tokens is the anchor, then a snippet of 10. */
  lemma TitleKeyIs(u: Unicode, r: ContinuityRecord)
    requires Domain(r.url).None?
    ensures var title, snippet := FirstEight(Tokens(u, r.windowTitle)), FirstEight(Tokens(u, r.snippet));
            KeyOf(u, r) == if Utf8Len(Join(title, "_")) >= 8 then Some(TitleKey(NormalizeAppKey(u, r.appName), title))
                           else if Utf8Len(Join(snippet, "_")) >= 10
                           then Some(SnippetKey(NormalizeAppKey(u, r.appName), snippet))
                           else None
  {
    hide Tokens, Utf8Len, Join, NormalizeAppKey, Domain;
  }

  function FirstEight(tokens: seq<string>): seq<string> {
    if |tokens| > 8 then tokens[..8] else tokens
  }

  /** Tokens before a character that is no letter or digit and after it, where lower-casing keeps them apart. */
  lemma TokensAtBreak(u: Unicode, x: string, c: char, y: string)
    requires !u.alphanumeric(c) && u.lower(x + [c] + y) == u.lower(x) + [c] + u.lower(y)
    ensures Tokens(u, x + [c] + y) == Tokens(u, x) + Tokens(u, y)
  {
    SplitAtBreak(u.lower(x), c, u.lower(y), NotAlphanumeric(u));
    FilterConcat(Split(u.lower(x), NotAlphanumeric(u)), Split(u.lower(y), NotAlphanumeric(u)), Meaningful());
  }

  lemma {:induction false} UnderscoresAreBreaks(u: Unicode, s: string)
    ensures Split(MapChars(s, OrUnderscore(u)), Is('_')) == Split(s, NotAlphanumeric(u))
    decreases |s|
  {
    hide Split, Find;
    var i := Find(s, NotAlphanumeric(u));
    var mapped := MapChars(s, OrUnderscore(u));
    assert forall k | 0 <= k < i :: mapped[k] == s[k] && u.alphanumeric(s[k]);
    if i == |s| {
      NoBreak(s, NotAlphanumeric(u));
      NoBreak(mapped, Is('_'));
      assert mapped == s;
    } else {
      FirstBreak(s, NotAlphanumeric(u), i);
      FirstBreak(mapped, Is('_'), i);
      UnderscoresAreBreaks(u, s[i + 1..]);
      assert mapped[i + 1..] == MapChars(s[i + 1..], OrUnderscore(u));
      assert mapped[..i] == s[..i];
    }
  }

  /** An app's key is the runs of letters and digits of its name, lower-cased, or "unknown" if it has none. */
  lemma AppKeyIs(u: Unicode, name: string)
    ensures var runs := Filter(Split(u.lower(name), NotAlphanumeric(u)), NotEmpty());
            NormalizeAppKey(u, name) == if runs == [] then "unknown" else Join(runs, "_")
  {
    hide Split, Filter;
    UnderscoresAreBreaks(u, u.lower(name));
    var runs := Filter(Split(u.lower(name), NotAlphanumeric(u)), NotEmpty());
    if runs != [] {
      assert runs[0] in runs && NotEmpty()(runs[0]);
    }
  }

  // ----- which merges can happen ------------------------------------------------------------------

  lemma RatioInUnit(n: nat, d: nat)
    requires n <= d && d > 0
    ensures 0.0 <= n as real / d as real <= 1.0
  {
  }

  lemma OverlapInUnit(l: set<string>, r: set<string>)
    ensures 0.0 <= Overlap(l, r) <= 1.0
    ensures Overlap(l, r) == Overlap(r, l)
  {
    assert l * r == r * l && l + r == r + l;
    var rest := (l + r) - l * r;
    assert l + r == l * r + rest;
    if l != {} && r != {} {
      RatioInUnit(|l * r|, |l + r|);
    }
  }

  /** The share of the common tokens in all of them; nothing in common with no tokens. */
  ghost predicate IsShare(l: set<string>, r: set<string>, share: real) {
    if l == {} || r == {} then share == 0.0 else share * |l + r| as real == |l * r| as real
  }

  lemma OverlapIsShare(l: set<string>, r: set<string>, share: real)
    ensures IsShare(l, r, share) <==> share == Overlap(l, r)
  {
    if l != {} && r != {} {
      var x :| x in l;
      assert x in l + r && |l + r| > 0;
      var n, m := |l + r| as real, |l * r| as real;
      assert Overlap(l, r) * n == m;
      if share * n == m {
        assert (share - Overlap(l, r)) * n == 0.0;
      }
    }
  }

  /** The lexical score weighs the shares of the snippets, the titles, the first 1000 characters of the texts
      and the shadows. */
  lemma LexicalIs(u: Unicode, a: ContinuityRecord, b: ContinuityRecord, snippet: real, title: real, text: real,
                  shadow: real)
    requires IsShare(TokenSet(u, a.snippet), TokenSet(u, b.snippet), snippet)
    requires IsShare(TokenSet(u, a.windowTitle), TokenSet(u, b.windowTitle), title)
    requires IsShare(TokenSet(u, Head(a.text)), TokenSet(u, Head(b.text)), text)
    requires IsShare(TokenSet(u, a.lexicalShadow), TokenSet(u, b.lexicalShadow), shadow)
    ensures Lexical(u, a, b) == 0.42 * snippet + 0.26 * title + 0.20 * text + 0.12 * shadow
  {
    hide TokenSet, Overlap, IsShare;
    OverlapIsShare(TokenSet(u, a.snippet), TokenSet(u, b.snippet), snippet);
    OverlapIsShare(TokenSet(u, a.windowTitle), TokenSet(u, b.windowTitle), title);
    OverlapIsShare(TokenSet(u, Head(a.text)), TokenSet(u, Head(b.text)), text);
    OverlapIsShare(TokenSet(u, a.lexicalShadow), TokenSet(u, b.lexicalShadow), shadow);
  }

  /** The lexical score is a weighted mean of four overlaps. */
  lemma LexicalInUnit(u: Unicode, a: ContinuityRecord, b: ContinuityRecord)
    ensures 0.0 <= Lexical(u, a, b) <= 1.0
    ensures Lexical(u, a, b) == Lexical(u, b, a)
  {
    hide TokenSet, Overlap;
    OverlapInUnit(TokenSet(u, a.snippet), TokenSet(u, b.snippet));
    OverlapInUnit(TokenSet(u, a.windowTitle), TokenSet(u, b.windowTitle));
    OverlapInUnit(TokenSet(u, Head(a.text)), TokenSet(u, Head(b.text)));
    OverlapInUnit(TokenSet(u, a.lexicalShadow), TokenSet(u, b.lexicalShadow));
  }

  /** The decision does not depend on which record came first. */
  lemma ShouldMergeIsSymmetric(u: Unicode, a: ContinuityRecord, b: ContinuityRecord, similarity: real)
    ensures ShouldMerge(u, a, b, similarity) == ShouldMerge(u, b, a, similarity)
  {
    hide Lexical, ContinuityAnchor, Domain, EligibleForStoryMerge, EffectiveUrl, PassesMergeThreshold;
    LexicalInUnit(u, a, b);
    assert ScoreCandidate(u, a, b, similarity) == ScoreCandidate(u, b, a, similarity);
  }

  /** Without a vector similarity, as on the write path, a pair merges exactly when it is eligible,
      shares its anchor, may cross applications if it does, and overlaps enough: at least 3/7 with a
      URL anchor and at least 13/21 with an app anchor. */
  lemma MergesWithoutVectorIff(u: Unicode, a: ContinuityRecord, b: ContinuityRecord)
    ensures ShouldMerge(u, a, b, 0.0).Some? <==> TellOneStory(u, a, b, Lexical(u, a, b))
  {
    hide *;
    StoryIff(u, a, b, Lexical(u, a, b));
    ShouldMergeIff(u, a, b, 0.0);
    ZeroVectorScore(u, a, b);
    ZeroVectorThreshold(ScoreCandidate(u, a, b, 0.0), SameDomain(a, b));
    ZeroVectorAllows(u, a, b, ScoreCandidate(u, a, b, 0.0));
    SharedKeyDomain(u, a, b);
    SubstanceIff(a);
    SubstanceIff(b);
  }

  lemma StoryIff(u: Unicode, a: ContinuityRecord, b: ContinuityRecord, lexical: real)
    ensures TellOneStory(u, a, b, lexical) <==>
              && HasSubstance(a) && HasSubstance(b)
              && KeyOf(u, a).Some? && KeyOf(u, a) == KeyOf(u, b)
              && (a.appName == b.appName
                  || (-2_700_000 <= a.capturedAtMs - b.capturedAtMs <= 2_700_000
                      && (MatchingEffectiveUrl(u, a.url, b.url) || (KeyOf(u, a).value.UrlKey? && lexical >= 0.52))))
              && (if KeyOf(u, a).value.UrlKey? then 7.0 * lexical >= 3.0 else 21.0 * lexical >= 13.0)
  {
    hide KeyOf, HasSubstance, MatchingEffectiveUrl;
  }

  /** Both have substance and one anchor, are of one app or taken within 45 minutes at one place, and share
      enough words. */
  ghost predicate TellOneStory(u: Unicode, a: ContinuityRecord, b: ContinuityRecord, lexical: real) {
    && HasSubstance(a) && HasSubstance(b)
    && var key := KeyOf(u, a);
       && key.Some? && key == KeyOf(u, b)
       && (a.appName == b.appName
           || (-2_700_000 <= a.capturedAtMs - b.capturedAtMs <= 2_700_000
               && (MatchingEffectiveUrl(u, a.url, b.url) || (key.value.UrlKey? && lexical >= 0.52))))
       && (if key.value.UrlKey? then 7.0 * lexical >= 3.0 else 21.0 * lexical >= 13.0)
  }

  /** At least 36 bytes of text, or 18 of snippet, without outer whitespace. */
  ghost predicate HasSubstance(r: ContinuityRecord) {
    Utf8Len(Trim(r.text)) >= 36 || Utf8Len(Trim(r.snippet)) >= 18
  }

  lemma SubstanceIff(r: ContinuityRecord)
    ensures EligibleForStoryMerge(r) <==> HasSubstance(r)
  {
    hide Utf8Len, Trim;
  }

  lemma ZeroVectorAllows(u: Unicode, a: ContinuityRecord, b: ContinuityRecord, s: ContinuityScore)
    requires s.vector == 0.0
    ensures s.anchorMatch ==>
              (AllowsCrossAppMerge(u, a, b, s) <==>
              && -2_700_000 <= a.capturedAtMs - b.capturedAtMs <= 2_700_000
              && (MatchingEffectiveUrl(u, a.url, b.url) || (SameDomain(a, b) && s.lexical >= 0.52)))
  {
    hide MatchingEffectiveUrl, SameDomain;
  }

  lemma ShouldMergeIff(u: Unicode, a: ContinuityRecord, b: ContinuityRecord, similarity: real)
    ensures var s := ScoreCandidate(u, a, b, similarity);
            ShouldMerge(u, a, b, similarity).Some? <==>
              && EligibleForStoryMerge(a) && EligibleForStoryMerge(b)
              && (a.appName == b.appName || AllowsCrossAppMerge(u, a, b, s)) && PassesMergeThreshold(s)
  {
    hide ScoreCandidate, EligibleForStoryMerge, AllowsCrossAppMerge, PassesMergeThreshold;
  }

  /** With any similarity, its part of the score within [0, 1]: what a merge takes, with and without an anchor.
      The bound of 0.82 on the similarity never decides: where the tokens do not weigh enough by themselves, the
      score asks for more. */
  lemma MergesWithVectorIff(u: Unicode, a: ContinuityRecord, b: ContinuityRecord, similarity: real, vector: real)
    requires vector == if similarity < 0.0 then 0.0 else if similarity > 1.0 then 1.0 else similarity
    ensures var anchored, lexical := KeyOf(u, a).Some? && KeyOf(u, a) == KeyOf(u, b), Lexical(u, a, b);
            var score := 0.5 * vector + 0.42 * lexical + if SameDomain(a, b) then 0.08 else 0.0;
            ShouldMerge(u, a, b, similarity).Some? <==>
              && HasSubstance(a) && HasSubstance(b)
              && (a.appName == b.appName
                  || (-2_700_000 <= a.capturedAtMs - b.capturedAtMs <= 2_700_000
                      && (MatchingEffectiveUrl(u, a.url, b.url)
                          || (SameDomain(a, b)
                              && ((anchored && lexical >= 0.52) || (vector >= 0.93 && lexical >= 0.70))))))
              && if anchored then score + 0.32 >= 0.58 && lexical >= 0.18
                 else (lexical >= 0.72 && score >= 0.80) || (score >= 0.86 && lexical >= 0.28)
  {
    hide KeyOf, Lexical, ContinuityAnchor, Domain, HasSubstance, EligibleForStoryMerge, MatchingEffectiveUrl;
    SameAnchorIff(u, a, b);
    SubstanceIff(a);
    SubstanceIff(b);
    LexicalInUnit(u, a, b);
  }

  lemma ZeroVectorScore(u: Unicode, a: ContinuityRecord, b: ContinuityRecord)
    ensures var s := ScoreCandidate(u, a, b, 0.0);
            && s.lexical == Lexical(u, a, b) && 0.0 <= s.lexical <= 1.0 && s.vector == 0.0
            && (s.anchorMatch <==> KeyOf(u, a).Some? && KeyOf(u, a) == KeyOf(u, b))
            && s.score == s.lexical * 0.42 + (if SameDomain(a, b) then 0.08 else 0.0)
                          + (if s.anchorMatch then 0.32 else 0.0)
  {
    hide KeyOf, Lexical, ContinuityAnchor, Domain;
    LexicalInUnit(u, a, b);
    SameAnchorIff(u, a, b);
  }

  lemma ZeroVectorThreshold(s: ContinuityScore, sameDomain: bool)
    requires 0.0 <= s.lexical <= 1.0 && s.vector == 0.0
    requires s.score == s.lexical * 0.42 + (if sameDomain then 0.08 else 0.0) + (if s.anchorMatch then 0.32 else 0.0)
    ensures PassesMergeThreshold(s) <==>
              s.anchorMatch && (if sameDomain then 7.0 * s.lexical >= 3.0 else 21.0 * s.lexical >= 13.0)
  {
  }

  /** The key reads the app name, the URL, the title and the snippet. */
  lemma KeyReads(u: Unicode, a: ContinuityRecord, b: ContinuityRecord)
    requires a.appName == b.appName && a.url == b.url && a.windowTitle == b.windowTitle && a.snippet == b.snippet
    ensures KeyOf(u, a) == KeyOf(u, b)
  {
    hide Domain, PathSegments, NormalizeAppKey, AnchorTokens, AppKey;
  }

  lemma SharedKeyDomain(u: Unicode, a: ContinuityRecord, b: ContinuityRecord)
    ensures KeyOf(u, a).Some? && KeyOf(u, a) == KeyOf(u, b) ==> (SameDomain(a, b) <==> KeyOf(u, a).value.UrlKey?)
  {
    hide Domain, PathSegments, NormalizeAppKey, AnchorTokens, Utf8Len, Join;
  }

  /** On the write path the snippet is the title, and a title too short for a title anchor is too
      short for a snippet anchor. */
  lemma NoSnippetAnchors(u: Unicode, r: ContinuityRecord)
    requires r.snippet == r.windowTitle
    ensures KeyOf(u, r).Some? ==> !KeyOf(u, r).value.SnippetKey?
  {
    hide Domain, PathSegments, NormalizeAppKey, AnchorTokens, Utf8Len, Join;
  }

  lemma {:induction false} AfterSchemeSkips(scheme: string, rest: string)
    requires ':' !in scheme
    ensures FindText(scheme + "://" + rest, "://") == |scheme|
    ensures AfterScheme(scheme + "://" + rest) == rest
  {
    var url := scheme + "://" + rest;
    if scheme == "" {
      assert url[..3] == "://";
    } else {
      assert url[..3][0] == scheme[0] && scheme[0] in scheme;
      AfterSchemeSkips(scheme[1..], rest);
      assert url[1..] == scheme[1..] + "://" + rest;
    }
    assert url[|scheme|..][..3] == "://";
  }

  // ----- what the anchor takes for the host -------------------------------------------------

  /** A URL by its parts: where present, `userinfo` ends with an at sign, and `port`, `path`, `query` and
      `fragment` begin with a colon, a slash, a question mark and a number sign. */
  datatype WebUrl = WebUrl(scheme: string, userinfo: string, host: string, port: string,
                           path: string, query: string, fragment: string)

  function Authority(w: WebUrl): string {
    w.userinfo + w.host + w.port
  }

  function Tail(w: WebUrl): string {
    w.path + (w.query + w.fragment)
  }

  function Written(w: WebUrl): string {
    w.scheme + "://" + (Authority(w) + Tail(w))
  }

  predicate IsTailMark(c: char) {
    c == '/' || c == '?' || c == '#'
  }

  predicate Solid(s: string) {
    forall c | c in s :: !IsTailMark(c) && !IsWhitespace(c)
  }

  predicate IsWritten(w: WebUrl) {
    && w.scheme != "" && ':' !in w.scheme && !IsWhitespace(w.scheme[0])
    && Solid(w.userinfo) && (w.userinfo != "" ==> w.userinfo[|w.userinfo| - 1] == '@')
    && Solid(w.host) && '@' !in w.host && w.host != "" && w.host[0] != ':'
    && Solid(w.port) && '@' !in w.port && (w.port != "" ==> w.port[0] == ':')
    && IsTail(w) && (Tail(w) != "" ==> !IsWhitespace(Tail(w)[|Tail(w)| - 1]))
  }

  predicate IsTail(w: WebUrl) {
    && (w.path != "" ==> w.path[0] == '/') && '?' !in w.path && '#' !in w.path
    && (w.query != "" ==> w.query[0] == '?') && '#' !in w.query
    && (w.fragment != "" ==> w.fragment[0] == '#')
  }

  /** The part of a host that an anchor keeps. */
  function CutHost(host: string): string {
    Until(host, Is(':'))
  }

  lemma {:induction false} AfterLastOf(front: string, rest: string, c: char)
    requires c !in rest && (front != "" ==> front[|front| - 1] == c)
    ensures AfterLast(front + rest, c) == rest
  {
    if rest == "" {
      assert front + rest == front;
    } else {
      var n := |rest| - 1;
      AfterLastOf(front, rest[..n], c);
      assert (front + rest)[..|front + rest| - 1] == front + rest[..n];
      assert rest[n] in rest;
    }
  }

  lemma TrimKeeps(s: string)
    requires s != "" && !IsWhitespace(s[0]) && !IsWhitespace(s[|s| - 1])
    ensures Trim(s) == s
  {
  }

  lemma SolidIsTrimmed(s: string)
    requires Solid(s)
    ensures Trim(s) == s
  {
    if s != "" {
      assert s[0] in s && s[|s| - 1] in s;
      TrimKeeps(s);
    }
  }

  lemma UntilTail(authority: string, tail: string)
    requires Solid(authority) && (tail != "" ==> IsTailMark(tail[0]))
    ensures Until(authority + tail, OneOf({'/', '?', '#'})) == authority
  {
    var s := authority + tail;
    forall k | 0 <= k < |authority| ensures !OneOf({'/', '?', '#'})(s[k]) {
      assert s[k] == authority[k] && authority[k] in authority;
    }
    FindUnique(s, OneOf({'/', '?', '#'}), |authority|);
  }

  lemma UntilPort(host: string, port: string)
    requires port != "" ==> port[0] == ':'
    ensures Until(host + port, Is(':')) == CutHost(host)
  {
    var i := Find(host, Is(':'));
    var s := host + port;
    assert forall k | 0 <= k < i :: s[k] == host[k];
    FindUnique(s, Is(':'), i);
  }

  lemma CutHostIsSolid(host: string)
    requires Solid(host) && host != "" && host[0] != ':'
    ensures Solid(CutHost(host)) && CutHost(host) != ""
    ensures CutHost(host) == host <==> ':' !in host
  {
    var i := Find(host, Is(':'));
    assert forall c | c in CutHost(host) :: c in host;
    if ':' in host {
      var k :| 0 <= k < |host| && host[k] == ':';
      assert i <= k;
    }
  }

  lemma HostOfAuthority(w: WebUrl)
    requires IsWritten(w)
    ensures HostOf(Authority(w) + Tail(w)) == CutHost(w.host)
  {
    hide Trim, Until, AfterLast;
    assert Solid(Authority(w)) && '@' !in w.host + w.port;
    UntilTail(Authority(w), Tail(w));
    SolidIsTrimmed(Authority(w));
    assert Authority(w) == w.userinfo + (w.host + w.port);
    AfterLastOf(w.userinfo, w.host + w.port, '@');
    UntilPort(w.host, w.port);
    CutHostIsSolid(w.host);
    SolidIsTrimmed(CutHost(w.host));
  }

  lemma WrittenIsTrimmed(w: WebUrl)
    requires IsWritten(w)
    ensures Trim(Written(w)) == Written(w)
  {
    var s := Written(w);
    assert s[0] == w.scheme[0];
    var last := s[|s| - 1];
    if Tail(w) != "" {
      assert last == Tail(w)[|Tail(w)| - 1];
    } else {
      assert last == Authority(w)[|Authority(w)| - 1];
      assert last in w.port || last in w.host;
    }
    TrimKeeps(s);
  }

  /** Whatever the scheme, credentials, port and path: the anchor host is the host up to its first colon.
      It is the host, ignoring ASCII case, exactly when the host has no colon, that is, unless it is a
      bracketed IPv6 address. */
  lemma AnchorHostIsCut(w: WebUrl)
    requires IsWritten(w)
    ensures Domain(Some(Written(w))) == Some(LowerAscii(CutHost(w.host)))
    ensures Domain(Some(Written(w))) == Some(LowerAscii(w.host)) <==> ':' !in w.host
  {
    hide HostOf, AfterScheme, Trim, LowerAscii, IsWhitespace;
    WrittenIsTrimmed(w);
    AfterSchemeSkips(w.scheme, Authority(w) + Tail(w));
    HostOfAuthority(w);
    CutHostIsSolid(w.host);
    CutIsShorter(w.host);
  }

  lemma CutIsShorter(host: string)
    ensures LowerAscii(CutHost(host)) == LowerAscii(host) ==> CutHost(host) == host
    ensures CutHost(host) != "" ==> LowerAscii(CutHost(host)) != ""
  {
  }

  function KeyOfWritten(w: WebUrl): AnchorKey {
    UrlKey(LowerAscii(CutHost(w.host)), PathSegments(Written(w), ANCHOR_SEGMENTS))
  }

  // ----- what it takes for the path ------------------------------------------------------------

  lemma AfterSlashSkips(front: string, rest: string)
    requires '/' !in front
    ensures AfterSlash(front + rest) == AfterSlash(rest)
  {
    hide Find;
    var s, i := front + rest, Find(rest, Is('/'));
    assert forall k | 0 <= k < |front| :: s[k] == front[k] && front[k] in front;
    FindUnique(s, Is('/'), |front| + i);
    if i < |rest| {
      assert s[|front| + i + 1..] == rest[i + 1..];
    }
  }

  lemma UntilQuery(path: string, more: string)
    requires '?' !in path && '#' !in path && (more != "" ==> more[0] in {'?', '#'})
    ensures Until(path + more, OneOf({'?', '#'})) == path
  {
    var s := path + more;
    assert forall k | 0 <= k < |path| :: s[k] == path[k] && path[k] in path;
    FindUnique(s, OneOf({'?', '#'}), |path|);
  }

  /** What stands after the first slash, as far as the next query or fragment. */
  function Slashed(s: string): string {
    Until(AfterSlash(s), OneOf({'?', '#'}))
  }

  lemma SegmentsOfTail(w: WebUrl)
    requires w.scheme != "" && ':' !in w.scheme && Solid(Authority(w))
    ensures PathSegments(Written(w), ANCHOR_SEGMENTS) == Take(SegmentsOf(Slashed(Tail(w))), ANCHOR_SEGMENTS)
  {
    hide AfterScheme, AfterSlash, Until, SegmentsOf;
    AfterSchemeSkips(w.scheme, Authority(w) + Tail(w));
    AfterSlashSkips(Authority(w), Tail(w));
  }

  lemma SlashedTail(w: WebUrl)
    requires IsTail(w)
    ensures Slashed(Tail(w)) == if w.path != "" then w.path[1..] else Slashed(w.query + w.fragment)
  {
    hide Until;
    var more := w.query + w.fragment;
    if w.path != "" {
      assert Tail(w)[1..] == w.path[1..] + more;
      UntilQuery(w.path[1..], more);
    } else {
      assert Tail(w) == more;
    }
  }

  /** An anchor keeps the leading segments of the path, and leaves the query and the fragment out exactly
      when there is a path or no segment stands after their first slash. */
  lemma AnchorLeavesQueryOutIff(w: WebUrl)
    requires IsWritten(w)
    ensures w.path != "" ==>
              var named := w.path[1..];
              PathSegments(Written(w), ANCHOR_SEGMENTS) == Take(SegmentsOf(named), ANCHOR_SEGMENTS)
    ensures KeyOfWritten(w) == KeyOfWritten(w.(query := "", fragment := ""))
            <==> w.path != "" || SegmentsOf(Slashed(w.query + w.fragment)) == []
  {
    hide PathSegments, SegmentsOf, Slashed, Written, LowerAscii, CutHost;
    var bare := w.(query := "", fragment := "");
    assert Solid(Authority(w)) && Authority(w) == Authority(bare);
    SegmentsOfTail(w);
    SegmentsOfTail(bare);
    SlashedTail(w);
    SlashedTail(bare);
    NothingSlashed();
  }

  lemma OneSegment(s: string)
    requires '/' !in s
    ensures SegmentsOf(s) == if Trim(s) == "" then [] else [LowerAscii(Trim(s))]
  {
    hide Trim, LowerAscii;
    var i := Find(s, Is('/'));
    assert i == |s|;
    assert Split(s, Is('/')) == [s];
    assert [s][1..] == [];
    var kept := Filter([s], NonBlank());
    assert NonBlank()(s) <==> Trim(s) != "";
    assert Filter([], NonBlank()) == [];
    assert kept == if Trim(s) == "" then [] else [s];
    var segments := Map(kept, Segment());
    assert kept != [] ==> segments == [Segment()(s)];
  }

  lemma NothingSlashed()
    ensures SegmentsOf(Slashed("" + "")) == []
  {
    hide SegmentsOf;
    assert Slashed("" + "") == "" && Trim("") == "";
    OneSegment("");
  }

  lemma SlashFirst(rest: string)
    ensures AfterSlash("/" + rest) == rest
  {
    assert ("/" + rest)[1..] == rest;
  }

  lemma SegmentAfterSlash(name: string, word: string)
    requires '/' !in name && '/' !in word && '?' !in word && '#' !in word && Trim(word) != ""
    ensures Take(SegmentsOf(Slashed(name + "/" + word)), ANCHOR_SEGMENTS) == [LowerAscii(Trim(word))]
  {
    hide SegmentsOf, LowerAscii, AfterSlash, Find, Trim;
    assert name + "/" + word == name + ("/" + word);
    AfterSlashSkips(name, "/" + word);
    SlashFirst(word);
    UntilQuery(word, "");
    assert word + "" == word;
    OneSegment(word);
  }

  /** A word that the query holds after a slash becomes a segment of the anchor. */
  lemma AnchorRepeatsQuery(w: WebUrl, name: string, word: string)
    requires IsWritten(w) && w.path == "" && w.query == name + "/" + word && w.fragment == ""
    requires '/' !in name && '/' !in word && '?' !in word && Trim(word) != ""
    ensures KeyOfWritten(w) == UrlKey(LowerAscii(CutHost(w.host)), [LowerAscii(Trim(word))])
  {
    hide PathSegments, SegmentsOf, Written, LowerAscii, CutHost, Slashed, Trim;
    SegmentsOfTail(w);
    assert Tail(w) == name + "/" + word;
    assert forall c | c in word :: c in w.query;
    SegmentAfterSlash(name, word);
  }

  function SecretUrl(): WebUrl {
    WebUrl("https", "", "a.com", "", "", "?x=/secret", "")
  }

  lemma SecretUrlIsWritten()
    ensures IsWritten(SecretUrl()) && Written(SecretUrl()) == "https://a.com?x=/secret"
  {
    hide *;
    SecretUrlIs();
    SecretUrlParts();
  }

  lemma SecretUrlIs()
    ensures Written(SecretUrl()) == "https://a.com?x=/secret"
  {
  }

  lemma SecretUrlParts()
    ensures IsWritten(SecretUrl())
  {
    assert Tail(SecretUrl()) == "?x=/secret" && Solid("a.com") && Solid("");
  }

  /** For one: the anchor of https://a.com?x=/secret names the query. */
  lemma SecretInAnchor()
    ensures Written(SecretUrl()) == "https://a.com?x=/secret" && KeyOfWritten(SecretUrl()).segments == ["secret"]
  {
    hide KeyOfWritten, Trim, IsWritten, Written, CutHost;
    SecretUrlIsWritten();
    assert "?x=" + "/" + "secret" == "?x=/secret";
    TrimKeeps("secret");
    AnchorRepeatsQuery(SecretUrl(), "?x=", "secret");
    assert LowerAscii("secret") == "secret";
  }

  /** The hosts agree up to the first colon, ignoring ASCII case, and the leading path segments agree. */
  predicate SameCutUrl(x: WebUrl, y: WebUrl) {
    SameCutHost(x, y) && PathSegments(Written(x), ANCHOR_SEGMENTS) == PathSegments(Written(y), ANCHOR_SEGMENTS)
  }

  predicate SameCutHost(x: WebUrl, y: WebUrl) {
    LowerAscii(CutHost(x.host)) == LowerAscii(CutHost(y.host))
  }

  lemma SameKeyIff(x: WebUrl, y: WebUrl)
    ensures KeyOfWritten(x) == KeyOfWritten(y) <==> SameCutUrl(x, y)
  {
    hide LowerAscii, CutHost, PathSegments, Written;
  }

  lemma KeyOfUrl(u: Unicode, r: ContinuityRecord, w: WebUrl)
    requires r.url == Some(Written(w)) && IsWritten(w)
    ensures KeyOf(u, r) == Some(KeyOfWritten(w))
  {
    hide Domain, PathSegments, LowerAscii, CutHost, IsWritten, Written, AppKey, NormalizeAppKey, AnchorTokens;
    AnchorHostIsCut(w);
  }

  /** Two records with URLs share their anchor exactly when the hosts agree up to the first colon,
      ignoring ASCII case, and the leading path segments agree. */
  lemma UrlsShareAnchorIff(u: Unicode, a: ContinuityRecord, b: ContinuityRecord, x: WebUrl, y: WebUrl)
    requires a.url == Some(Written(x)) && b.url == Some(Written(y)) && IsWritten(x) && IsWritten(y)
    ensures ContinuityAnchor(u, a) == ContinuityAnchor(u, b) <==> SameCutUrl(x, y)
    ensures ContinuityAnchor(u, a).Some?
  {
    hide *;
    KeyOfUrl(u, a, x);
    KeyOfUrl(u, b, y);
    SameKeyIff(x, y);
    SameAnchorIff(u, a, b);
  }

  /** Two bracketed addresses with one first group are cut alike: [2001:db8::1] and [2001:4860::8888] are
      both "[2001". */
  lemma IPv6HostsCollide(group: string, r: string, t: string)
    requires ':' !in group
    ensures CutHost("[" + group + ":" + r) == "[" + group == CutHost("[" + group + ":" + t)
  {
    UntilPort("[" + group, ":" + r);
    UntilPort("[" + group, ":" + t);
    assert ("[" + group) + (":" + r) == "[" + group + ":" + r;
    assert ("[" + group) + (":" + t) == "[" + group + ":" + t;
    FindUnique("[" + group, Is(':'), |"[" + group|);
  }

  lemma OverlapSelf(l: set<string>)
    requires l != {}
    ensures Overlap(l, l) == 1.0
  {
    assert l * l == l && l + l == l;
    var n := |l|;
    assert n > 0;
    assert n as real / n as real == 1.0;
  }

  /** Every score is at its best: the record has words wherever overlap is measured. */
  predicate HasWords(u: Unicode, r: ContinuityRecord) {
    && TokenSet(u, r.snippet) != {} && TokenSet(u, r.windowTitle) != {}
    && TokenSet(u, Head(r.text)) != {} && TokenSet(u, r.lexicalShadow) != {}
  }

  lemma LexicalSelf(u: Unicode, a: ContinuityRecord, b: ContinuityRecord)
    requires a.(url := b.url) == b && HasWords(u, a)
    ensures Lexical(u, a, b) == 1.0
  {
    hide TokenSet, Overlap;
    OverlapSelf(TokenSet(u, a.snippet));
    OverlapSelf(TokenSet(u, a.windowTitle));
    OverlapSelf(TokenSet(u, Head(a.text)));
    OverlapSelf(TokenSet(u, a.lexicalShadow));
  }

  lemma FullOverlapMergesIff(u: Unicode, a: ContinuityRecord, b: ContinuityRecord)
    requires Lexical(u, a, b) == 1.0 && a.appName == b.appName
    requires EligibleForStoryMerge(a) && EligibleForStoryMerge(b)
    ensures ShouldMerge(u, a, b, 0.0).Some? <==>
              ContinuityAnchor(u, a).Some? && ContinuityAnchor(u, a) == ContinuityAnchor(u, b)
  {
    hide *;
    MergesWithoutVectorIff(u, a, b);
    StoryIff(u, a, b, 1.0);
    SameAnchorIff(u, a, b);
    SubstanceIff(a);
    SubstanceIff(b);
  }

  lemma EligibilityIgnoresUrl(a: ContinuityRecord, b: ContinuityRecord)
    requires a.(url := b.url) == b
    ensures EligibleForStoryMerge(a) <==> EligibleForStoryMerge(b)
  {
  }

  /** Two captures that differ in their URLs only merge exactly when the cut hosts and the leading path
      segments agree: "the same host" of a merge is the same cut host, so captures of different IPv6 hosts
      do merge. */
  lemma DifferentHostsMergeIff(u: Unicode, a: ContinuityRecord, b: ContinuityRecord, x: WebUrl, y: WebUrl)
    requires a.(url := b.url) == b && HasWords(u, a) && EligibleForStoryMerge(a)
    requires a.url == Some(Written(x)) && b.url == Some(Written(y)) && IsWritten(x) && IsWritten(y)
    ensures ShouldMerge(u, a, b, 0.0).Some? <==> SameCutUrl(x, y)
  {
    hide *;
    EligibilityIgnoresUrl(a, b);
    LexicalSelf(u, a, b);
    FullOverlapMergesIff(u, a, b);
    UrlsShareAnchorIff(u, a, b, x, y);
  }
}
