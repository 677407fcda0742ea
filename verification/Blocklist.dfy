/**
 Owner exclusions: suffix-domain matching on the parsed host, shared by URL blocking and by domain
 deletion, and whole-token app matching.
 */
module Blocklist {
  import opened Wrappers
  import opened Text

  /** URL parsing belongs to a library: `host` is the host it finds, `sanitize` the retained form of a
      web URL with credentials, query and fragment removed. */
  datatype Web = Web(unicode: Unicode, host: string -> Option<string>, sanitize: string -> Option<string>)

  // ----- hosts ---------------------------------------------------------------

  /** `host` equals `suffix` or ends with it right after a dot. */
  predicate HostMatchesSuffix(host: string, suffix: string) {
    || host == suffix
    || (|host| > |suffix|
        && host[|host| - |suffix|..] == suffix
        && host[|host| - |suffix| - 1] == '.')
  }

  function Labels(host: string): seq<string> {
    Split(host, Is('.'))
  }

  predicate EndsWith<T(==)>(whole: seq<T>, tail: seq<T>) {
    |tail| <= |whole| && whole[|whole| - |tail|..] == tail
  }

  lemma OneLabel(s: string)
    requires '.' !in s
    ensures Labels(s) == [s]
  {
    NoBreak(s, Is('.'));
  }

  /** With `OneLabel` this is all of what labels are. */
  lemma LabelsAfterDot(pre: string, post: string)
    ensures Labels(pre + "." + post) == Labels(pre) + Labels(post)
  {
    SplitAtBreak(pre, '.', post, Is('.'));
  }

  /** Reading the labels back: the host is its labels joined by dots. */
  lemma LabelsDetermineHost(a: string, b: string)
    requires Labels(a) == Labels(b)
    ensures a == b
  {
    JoinOfSplit(a, '.');
    JoinOfSplit(b, '.');
  }

  lemma {:induction false} LabelSuffixIsText(host: string, suffix: string)
    requires EndsWith(Labels(host), Labels(suffix))
    ensures HostMatchesSuffix(host, suffix)
    decreases |host|
  {
    var i := Find(host, Is('.'));
    if |Labels(host)| == |Labels(suffix)| {
      LabelsDetermineHost(host, suffix);
    } else {
      assert Labels(host) == [host[..i]] + Labels(host[i + 1..]);
      var rest := host[i + 1..];
      assert Labels(rest) == Labels(host)[1..];
      assert EndsWith(Labels(rest), Labels(suffix));
      LabelSuffixIsText(rest, suffix);
      assert host[|host| - |rest|..] == rest && host[i] == '.';
      assert host[|host| - |suffix|..] == rest[|rest| - |suffix|..];
    }
  }

  /** The byte-level suffix test is label matching: "bank.com" covers "online.bank.com" and never
      "burbank.com". */
  lemma MatchesIffLabelSuffix(host: string, suffix: string)
    ensures HostMatchesSuffix(host, suffix) <==> EndsWith(Labels(host), Labels(suffix))
  {
    if HostMatchesSuffix(host, suffix) && host != suffix {
      var pre := host[..|host| - |suffix| - 1];
      assert host == pre + "." + suffix;
      LabelsAfterDot(pre, suffix);
    }
    if EndsWith(Labels(host), Labels(suffix)) {
      LabelSuffixIsText(host, suffix);
    }
  }

  /** Matching is a partial order on hosts: it never escalates to a parent domain. */
  lemma MatchingIsPartialOrder(a: string, b: string, c: string)
    ensures HostMatchesSuffix(a, a)
    ensures HostMatchesSuffix(a, b) && HostMatchesSuffix(b, a) ==> a == b
    ensures HostMatchesSuffix(a, b) && HostMatchesSuffix(b, c) ==> HostMatchesSuffix(a, c)
  {
    if HostMatchesSuffix(a, b) && HostMatchesSuffix(b, c) {
      MatchesIffLabelSuffix(a, b);
      MatchesIffLabelSuffix(b, c);
      MatchesIffLabelSuffix(a, c);
      var la, lb, lc := Labels(a), Labels(b), Labels(c);
      assert la[|la| - |lc|..] == la[|la| - |lb|..][|lb| - |lc|..];
    }
  }

  function TrimDots(s: string): string {
    if s != [] && s[0] == '.' then TrimDots(s[1..]) else s
  }

  function NormalizeDomain(web: Web, entry: string): Option<string> {
    var trimmed := web.unicode.lower(TrimDots(Trim(entry)));
    var host := if Contains(trimmed, "://") then web.host(trimmed) else Some(Until(trimmed, OneOf({'/', ':'})));
    if host.Some? && host.value != "" then host else None
  }

  function HostFromUrl(web: Web, url: string): Option<string> {
    match web.host(Trim(url))
    case Some(host) => Some(web.unicode.lower(host))
    case None => NormalizeDomain(web, url)
  }

  /** A domain as it is stored: nothing in it is trimmed, lower-cased or cut. */
  ghost predicate PlainDomain(web: Web, d: string) {
    && d != "" && Trim(d) == d && d[0] != '.' && '/' !in d && ':' !in d && web.unicode.lower(d) == d
  }

  lemma {:induction false} DotsAreTrimmed(dots: string, s: string)
    requires (forall c | c in dots :: c == '.') && s != "" && s[0] != '.'
    ensures TrimDots(dots + s) == s
  {
    if dots == "" {
      assert dots + s == s;
    } else {
      assert dots[0] in dots && (dots + s)[1..] == dots[1..] + s;
      assert forall c | c in dots[1..] :: c in dots;
      DotsAreTrimmed(dots[1..], s);
    }
  }

  /** Leading dots go, and a path or a port behind the domain. */
  lemma DomainOfEntry(web: Web, dots: string, d: string, rest: string)
    requires PlainDomain(web, d) && forall c | c in dots :: c == '.'
    requires rest == "" || rest[0] == '/' || rest[0] == ':'
    requires Trim(dots + d + rest) == dots + d + rest && web.unicode.lower(d + rest) == d + rest
    requires !Contains(d + rest, "://")
    ensures NormalizeDomain(web, dots + d + rest) == Some(d)
  {
    hide Trim, Contains;
    assert dots + d + rest == dots + (d + rest) && (d + rest)[0] == d[0];
    DotsAreTrimmed(dots, d + rest);
    UntilPathOrPort(d, rest);
  }

  lemma UntilPathOrPort(d: string, rest: string)
    requires '/' !in d && ':' !in d && (rest == "" || rest[0] == '/' || rest[0] == ':')
    ensures Until(d + rest, OneOf({'/', ':'})) == d
  {
    var s := d + rest;
    assert forall k | 0 <= k < |d| :: s[k] == d[k] && d[k] in d;
    FindUnique(s, OneOf({'/', ':'}), |d|);
  }

  lemma PlainDomainStays(web: Web, d: string)
    requires PlainDomain(web, d)
    ensures NormalizeDomain(web, d) == Some(d)
  {
    hide Trim, NormalizeDomain;
    assert "" + d + "" == d && d + "" == d;
    if Contains(d, "://") {
      MissingLetter(d, "://", ':');
    }
    DomainOfEntry(web, "", d, "");
  }

  /** A pasted URL stands for its host. */
  lemma DomainOfUrl(web: Web, entry: string, h: string)
    requires Trim(entry) == entry && entry != "" && entry[0] != '.' && Contains(entry, "://")
    requires web.unicode.lower(entry) == entry && web.host(entry) == Some(h) && h != ""
    ensures NormalizeDomain(web, entry) == Some(h)
  {
    hide Trim, Contains;
    assert TrimDots(entry) == entry;
  }

  /** The host of a URL that parses, lower-cased; otherwise the text is read as a domain. */
  lemma HostOfUrl(web: Web, url: string)
    ensures forall h :: web.host(Trim(url)) == Some(h) ==> HostFromUrl(web, url) == Some(web.unicode.lower(h))
    ensures web.host(Trim(url)) == None ==> HostFromUrl(web, url) == NormalizeDomain(web, url)
  {
  }

  predicate UrlMatchesDomainSuffix(web: Web, url: string, domain: string) {
    var suffix := NormalizeDomain(web, domain);
    var host := HostFromUrl(web, url);
    suffix.Some? && host.Some? && HostMatchesSuffix(host.value, suffix.value)
  }

  // ----- the blocklist ---------------------------------------------------------

  datatype Blocklist = Blocklist(apps: seq<string>, domains: seq<string>)

  function NormalizeApp(u: Unicode, entry: string): string {
    u.lower(Join(Words(entry), " "))
  }

  function Collect(answers: seq<Option<string>>): seq<string> {
    if answers == [] then []
    else (if answers[0].Some? then [answers[0].value] else []) + Collect(answers[1..])
  }

  lemma {:induction false} CollectMember(answers: seq<Option<string>>, x: string)
    ensures x in Collect(answers) <==> Some(x) in answers
  {
    if answers == [] {
    } else {
      CollectMember(answers[1..], x);
      assert Some(x) in answers <==> answers[0] == Some(x) || Some(x) in answers[1..];
    }
  }

  function NormalizedEntries(web: Web, entries: seq<string>): (answers: seq<Option<string>>)
    ensures |answers| == |entries|
    ensures forall i | 0 <= i < |entries| :: answers[i] == NormalizeDomain(web, entries[i])
  {
    seq(|entries|, i requires 0 <= i < |entries| => NormalizeDomain(web, entries[i]))
  }

  function NormalizeDomains(web: Web, entries: seq<string>): seq<string> {
    Collect(NormalizedEntries(web, entries))
  }

  function NewBlocklist(web: Web, apps: seq<string>, domains: seq<string>): Blocklist {
    Blocklist(Filter(Map(apps, a => NormalizeApp(web.unicode, a)), a => a != ""), NormalizeDomains(web, domains))
  }

  predicate HasRun(tokens: seq<string>, run: seq<string>) {
    exists i: nat | i <= |tokens| :: RunAt(tokens, run, i)
  }

  predicate RunAt(tokens: seq<string>, run: seq<string>, i: nat) {
    i + |run| <= |tokens| && tokens[i..i + |run|] == run
  }

  predicate BlocksApp(b: Blocklist, u: Unicode, appName: string) {
    var name := NormalizeApp(u, appName);
    name != "" && exists entry | entry in b.apps ::
      entry == name || HasRun(Split(name, Is(' ')), Split(entry, Is(' ')))
  }

  predicate BlocksUrl(b: Blocklist, web: Web, url: string) {
    match HostFromUrl(web, url)
    case None => false
    case Some(host) => CoversHost(b.domains, host)
  }

  predicate CoversHost(domains: seq<string>, host: string) {
    exists suffix | suffix in domains :: HostMatchesSuffix(host, suffix)
  }

  ghost predicate HostCovered(web: Web, host: string, domain: string) {
    var suffix := NormalizeDomain(web, domain);
    suffix.Some? && EndsWith(Labels(host), Labels(suffix.value))
  }

  lemma NormalizedMember(web: Web, domains: seq<string>, suffix: string)
    ensures suffix in NormalizeDomains(web, domains)
       <==> exists i | 0 <= i < |domains| :: NormalizeDomain(web, domains[i]) == Some(suffix)
  {
    CollectMember(NormalizedEntries(web, domains), suffix);
  }

  ghost predicate AnyCovers(web: Web, host: string, domains: seq<string>) {
    exists d | d in domains :: HostCovered(web, host, d)
  }

  lemma CoveredByList(web: Web, domains: seq<string>, host: string)
    ensures CoversHost(NormalizeDomains(web, domains), host) <==> AnyCovers(web, host, domains)
  {
    if suffix :| suffix in NormalizeDomains(web, domains) && HostMatchesSuffix(host, suffix) {
      NormalizedMember(web, domains, suffix);
      MatchesIffLabelSuffix(host, suffix);
      var i :| 0 <= i < |domains| && NormalizeDomain(web, domains[i]) == Some(suffix);
      assert HostCovered(web, host, domains[i]);
    }
    if d :| d in domains && HostCovered(web, host, d) {
      var suffix := NormalizeDomain(web, d).value;
      var i :| 0 <= i < |domains| && domains[i] == d;
      NormalizedMember(web, domains, suffix);
      MatchesIffLabelSuffix(host, suffix);
    }
  }

  /** A block list covers exactly the hosts that end with the labels of one of its entries. */
  lemma BlocksUrlIff(web: Web, apps: seq<string>, domains: seq<string>, url: string)
    ensures BlocksUrl(NewBlocklist(web, apps, domains), web, url)
       <==> HostFromUrl(web, url).Some?
            && AnyCovers(web, HostFromUrl(web, url).value, domains)
  {
    if HostFromUrl(web, url).Some? {
      CoveredByList(web, domains, HostFromUrl(web, url).value);
    }
  }

  /** A URL that parses is blocked by a list of plain domains exactly when one of them ends its labels. */
  lemma BlocksParsedUrlIff(web: Web, apps: seq<string>, domains: seq<string>, url: string, h: string)
    requires web.host(Trim(url)) == Some(h) && forall d | d in domains :: PlainDomain(web, d)
    ensures BlocksUrl(NewBlocklist(web, apps, domains), web, url)
       <==> exists d | d in domains :: EndsWith(Labels(web.unicode.lower(h)), Labels(d))
  {
    hide NormalizeDomain, PlainDomain, BlocksUrl, HostFromUrl, Labels, Trim;
    HostOfUrl(web, url);
    BlocksUrlIff(web, apps, domains, url);
    forall d | d in domains
      ensures HostCovered(web, web.unicode.lower(h), d) <==> EndsWith(Labels(web.unicode.lower(h)), Labels(d))
    {
      PlainDomainStays(web, d);
    }
  }

  /** A URL that does not parse is read as a domain itself. */
  lemma BlocksUnparsedUrlIff(web: Web, apps: seq<string>, domains: seq<string>, url: string, d: string)
    requires web.host(Trim(url)) == None && PlainDomain(web, url) && PlainDomain(web, d)
    ensures BlocksUrl(NewBlocklist(web, apps, [d]), web, url) <==> EndsWith(Labels(url), Labels(d))
  {
    hide NormalizeDomain, PlainDomain, BlocksUrl, HostFromUrl, Labels, Trim;
    HostOfUrl(web, url);
    PlainDomainStays(web, url);
    PlainDomainStays(web, d);
    BlocksUrlIff(web, apps, [d], url);
    assert d in [d];
  }

  // ----- apps -----------------------------------------------------------------------------

  function AppTokens(u: Unicode, name: string): seq<string> {
    Split(NormalizeApp(u, name), Is(' '))
  }

  /** The entry's tokens are a run of the name's. */
  ghost predicate NamesApp(u: Unicode, entry: string, name: string) {
    && NormalizeApp(u, entry) != "" && NormalizeApp(u, name) != ""
    && exists i: nat, j: nat | i <= j <= |AppTokens(u, name)| :: AppTokens(u, name)[i..j] == AppTokens(u, entry)
  }

  lemma BlocksAppIff(web: Web, apps: seq<string>, domains: seq<string>, name: string)
    ensures BlocksApp(NewBlocklist(web, apps, domains), web.unicode, name)
       <==> exists entry | entry in apps :: NamesApp(web.unicode, entry, name)
  {
    hide NormalizeApp, Split, NormalizeDomains;
    var u, b := web.unicode, NewBlocklist(web, apps, domains);
    var normalized := Map(apps, a => NormalizeApp(web.unicode, a));
    if entry :| entry in apps && NamesApp(u, entry, name) {
      var k :| 0 <= k < |apps| && apps[k] == entry;
      assert normalized[k] == NormalizeApp(u, entry);
      FilterKeeps(normalized, a => a != "", NormalizeApp(u, entry));
      var i: nat, j: nat :| i <= j <= |AppTokens(u, name)| && AppTokens(u, name)[i..j] == AppTokens(u, entry);
      assert RunAt(AppTokens(u, name), AppTokens(u, entry), i);
      assert NormalizeApp(u, entry) in b.apps;
    }
    if BlocksApp(b, u, name) {
      var found :| found in b.apps
                   && (found == NormalizeApp(u, name) || HasRun(AppTokens(u, name), Split(found, Is(' '))));
      assert found in normalized;
      var k :| 0 <= k < |apps| && normalized[k] == found;
      RunWithin(AppTokens(u, name), AppTokens(u, apps[k]));
      assert NamesApp(u, apps[k], name);
    }
  }

  lemma RunWithin(tokens: seq<string>, run: seq<string>)
    ensures tokens == run || HasRun(tokens, run) ==> exists i: nat, j: nat | i <= j <= |tokens| :: tokens[i..j] == run
  {
    if tokens == run {
      assert tokens[0..|tokens|] == run;
    } else if HasRun(tokens, run) {
      var i: nat :| i <= |tokens| && RunAt(tokens, run, i);
      assert tokens[i..i + |run|] == run;
    }
  }

  /** Of a name that lower-casing leaves alone, the tokens are its words. */
  lemma TokensAreWords(u: Unicode, name: string)
    requires u.lower(Join(Words(name), " ")) == Join(Words(name), " ") && Words(name) != []
    ensures AppTokens(u, name) == Words(name) && NormalizeApp(u, name) != ""
  {
    hide Words;
    WordsAreSolid(name);
    assert Words(name)[0] in Words(name);
    SplitOfJoin(Words(name), ' ');
  }

  /** Deleting by a domain covers exactly the hosts that end with its labels. */
  lemma DeletionSelectsCovered(web: Web, domain: string, url: string)
    ensures UrlMatchesDomainSuffix(web, url, domain)
       <==> HostFromUrl(web, url).Some? && HostCovered(web, HostFromUrl(web, url).value, domain)
  {
    var host, suffix := HostFromUrl(web, url), NormalizeDomain(web, domain);
    if host.Some? && suffix.Some? {
      MatchesIffLabelSuffix(host.value, suffix.value);
    }
  }

  /** Deleting by a domain selects exactly the URLs that blocking the same domain refuses. */
  lemma DeletionSelectsBlocked(web: Web, apps: seq<string>, domain: string, url: string)
    ensures UrlMatchesDomainSuffix(web, url, domain)
       <==> BlocksUrl(NewBlocklist(web, apps, [domain]), web, url)
  {
    BlocksUrlIff(web, apps, [domain], url);
    DeletionSelectsCovered(web, domain, url);
    assert forall d :: d in [domain] <==> d == domain;
  }
}
