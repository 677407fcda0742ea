/** The privacy gate: what is skipped, what is redacted, and what redaction guarantees. */
module SafetyGate {
  import opened Wrappers
  import opened Text
  import opened Blocklist

  datatype Reason =
    | UserBlocklist | FndrSelfCapture | PasswordManager | PrivateBrowsing
    | FinancialSite | MedicalSite | Authentication | SecretPattern

  datatype Decision = Allow | Redact(reason: Reason) | SkipStorage(reason: Reason)

  datatype Context = Context(
    appName: Option<string>, bundleId: Option<string>, url: Option<string>,
    windowTitle: Option<string>, ocrText: Option<string>)

  const PASSWORD_MANAGER_NAMES: seq<string> :=
    ["1password", "bitwarden", "keychain", "lastpass", "dashlane", "keepass"]

  const FINANCIAL_DOMAINS: seq<string> :=
    ["chase.com", "bankofamerica.com", "wellsfargo.com", "citibank.com", "capitalone.com", "usbank.com",
     "fidelity.com", "vanguard.com", "schwab.com", "americanexpress.com", "discover.com", "paypal.com",
     "venmo.com", "robinhood.com"]

  const MEDICAL_DOMAIN_MARKERS: seq<string> := ["mychart", "healthportal", "patientportal"]

  const AUTH_INDICATORS: seq<string> :=
    ["sign in", "log in", "login", "authenticate", "authorization", "oauth", "saml", "two-factor", "2fa"]

  const SECRET_PATTERNS: seq<string> :=
    ["api_key", "apikey", "secret_key", "private_key", "access_token", "password:", "passwd:", "token:",
     "-----begin rsa", "-----begin ec", "ghp_", "sk-", "xoxb-"]

  const MARKER: string := "[REDACTED: secret pattern]"

  predicate ContainsAny(hay: string, needles: seq<string>) {
    exists n | n in needles :: Contains(hay, n)
  }

  function Or(s: Option<string>): string {
    if s.Some? then s.value else ""
  }

  predicate StartsWith(s: string, p: string) {
    |p| <= |s| && s[..|p|] == p
  }

  predicate ContainsSecret(text: string, patterns: seq<string>) {
    ContainsAny(LowerAscii(text), patterns)
  }

  predicate MatchesDomainSuffix(web: Web, url: string, domains: seq<string>) {
    var host := HostFromUrl(web, url);
    host.Some? && CoversHost(domains, host.value)
  }

  predicate MatchesDomainLabel(web: Web, url: string, markers: seq<string>) {
    var host := HostFromUrl(web, url);
    host.Some? && exists l | l in Labels(host.value) :: l in markers
  }

  /** Everything the gate decides from metadata alone. */
  function MetadataVerdict(appName: Option<string>, bundleId: Option<string>, maybeUrl: Option<string>,
                           windowTitle: Option<string>, b: Blocklist, web: Web): Option<Reason> {
    var app := LowerAscii(Or(appName));
    var title := LowerAscii(Or(windowTitle));
    var url := Or(maybeUrl);
    var bundle := LowerAscii(Or(bundleId));
    if BlocksApp(b, web.unicode, app) || BlocksUrl(b, web, url) then Some(UserBlocklist)
    else if bundleId.Some? && (StartsWith(bundle, "com.fndr") || Contains(bundle, ".fndr."))
            && !Contains(app, "fndr meeting") then Some(FndrSelfCapture)
    else if ContainsAny(app, PASSWORD_MANAGER_NAMES) then Some(PasswordManager)
    else if Contains(title, "incognito")
            || (Contains(title, "private") && (Contains(title, "browsing") || Contains(title, "window")))
    then Some(PrivateBrowsing)
    else if MatchesDomainSuffix(web, url, FINANCIAL_DOMAINS) then Some(FinancialSite)
    else if MatchesDomainLabel(web, url, MEDICAL_DOMAIN_MARKERS) then Some(MedicalSite)
    else if ContainsAny(title, AUTH_INDICATORS) || ContainsAny(LowerAscii(url), AUTH_INDICATORS)
    then Some(Authentication)
    else None
  }

  function Evaluate(c: Context, b: Blocklist, web: Web): Decision {
    match MetadataVerdict(c.appName, c.bundleId, c.url, c.windowTitle, b, web)
    case Some(reason) => SkipStorage(reason)
    case None =>
      if c.ocrText.Some? && ContainsSecret(c.ocrText.value, SECRET_PATTERNS) then Redact(SecretPattern) else Allow
  }

  /** Adding the text to a context the gate allowed can only turn the answer into a redaction, so the
      second evaluation of the write path never skips. */
  lemma TextNeverSkips(c: Context, b: Blocklist, web: Web, text: string)
    requires c.ocrText.None?
    ensures var withText := Evaluate(c.(ocrText := Some(text)), b, web);
            match Evaluate(c, b, web)
            case SkipStorage(reason) => withText == SkipStorage(reason)
            case Redact(_) => false
            case Allow => withText == (if ContainsSecret(text, SECRET_PATTERNS) then Redact(SecretPattern) else Allow)
  {
  }

  // ----- what the gate refuses ------------------------------------------------

  /** One of the words occurs, ignoring ASCII case. */
  ghost predicate Mentions(text: string, words: set<string>) {
    exists w | w in words :: Contains(LowerAscii(text), w)
  }

  ghost predicate Begins(text: string, start: string) {
    exists rest :: LowerAscii(text) == start + rest
  }

  ghost predicate OwnerExcludes(c: Context, b: Blocklist, web: Web) {
    BlocksApp(b, web.unicode, LowerAscii(Or(c.appName))) || BlocksUrl(b, web, Or(c.url))
  }

  ghost predicate IsFndrItself(c: Context) {
    && c.bundleId.Some? && !Mentions(Or(c.appName), {"fndr meeting"})
    && (Begins(c.bundleId.value, "com.fndr") || Mentions(c.bundleId.value, {".fndr."}))
  }

  ghost predicate IsPasswordManager(c: Context) {
    Mentions(Or(c.appName), {"1password", "bitwarden", "keychain", "lastpass", "dashlane", "keepass"})
  }

  ghost predicate IsPrivateWindow(c: Context) {
    || Mentions(Or(c.windowTitle), {"incognito"})
    || (Mentions(Or(c.windowTitle), {"private"}) && Mentions(Or(c.windowTitle), {"browsing", "window"}))
  }

  ghost predicate IsFinancialSite(c: Context, web: Web) {
    exists h, d | HostFromUrl(web, Or(c.url)) == Some(h) &&
      d in {"chase.com", "bankofamerica.com", "wellsfargo.com", "citibank.com", "capitalone.com", "usbank.com",
            "fidelity.com", "vanguard.com", "schwab.com", "americanexpress.com", "discover.com", "paypal.com",
            "venmo.com", "robinhood.com"} :: EndsWith(Labels(h), Labels(d))
  }

  ghost predicate IsMedicalSite(c: Context, web: Web) {
    exists h, l | HostFromUrl(web, Or(c.url)) == Some(h) && l in Labels(h) ::
      l in {"mychart", "healthportal", "patientportal"}
  }

  ghost predicate AsksForLogin(c: Context) {
    exists text | text in {Or(c.windowTitle), Or(c.url)} ::
      Mentions(text, {"sign in", "log in", "login", "authenticate", "authorization", "oauth", "saml", "two-factor",
                      "2fa"})
  }

  ghost predicate Refuses(reason: Reason, c: Context, b: Blocklist, web: Web) {
    match reason
    case UserBlocklist => OwnerExcludes(c, b, web)
    case FndrSelfCapture => IsFndrItself(c)
    case PasswordManager => IsPasswordManager(c)
    case PrivateBrowsing => IsPrivateWindow(c)
    case FinancialSite => IsFinancialSite(c, web)
    case MedicalSite => IsMedicalSite(c, web)
    case Authentication => AsksForLogin(c)
    case SecretPattern => false
  }

  /** The reasons from the first asked to the last. */
  function AskedAt(reason: Reason): nat {
    match reason
    case UserBlocklist => 0
    case FndrSelfCapture => 1
    case PasswordManager => 2
    case PrivateBrowsing => 3
    case FinancialSite => 4
    case MedicalSite => 5
    case Authentication => 6
    case SecretPattern => 7
  }

  ghost predicate FirstRefusal(reason: Reason, c: Context, b: Blocklist, web: Web) {
    Refuses(reason, c, b, web) && forall earlier | AskedAt(earlier) < AskedAt(reason) :: !Refuses(earlier, c, b, web)
  }

  lemma ListedWords(text: string, listed: seq<string>, words: set<string>)
    requires forall w :: w in listed <==> w in words
    ensures ContainsAny(LowerAscii(text), listed) <==> Mentions(text, words)
  {
  }

  lemma OneOfTwo(text: string, v: string, w: string)
    ensures Mentions(text, {w}) <==> Contains(LowerAscii(text), w)
    ensures Mentions(text, {v, w}) <==> Contains(LowerAscii(text), v) || Contains(LowerAscii(text), w)
  {
  }

  lemma StartsIff(text: string, start: string)
    ensures StartsWith(LowerAscii(text), start) <==> Begins(text, start)
  {
    if StartsWith(LowerAscii(text), start) {
      assert LowerAscii(text) == start + LowerAscii(text)[|start|..];
    }
  }

  lemma FndrIff(c: Context)
    ensures IsFndrItself(c) <==>
              c.bundleId.Some?
              && (StartsWith(LowerAscii(c.bundleId.value), "com.fndr")
                  || Contains(LowerAscii(c.bundleId.value), ".fndr."))
              && !Contains(LowerAscii(Or(c.appName)), "fndr meeting")
  {
    hide Mentions, Begins, StartsWith, Contains;
    OneOfTwo(Or(c.appName), "", "fndr meeting");
    OneOfTwo(Or(c.bundleId), "", ".fndr.");
    StartsIff(Or(c.bundleId), "com.fndr");
  }

  lemma PrivateIff(c: Context)
    ensures var title := LowerAscii(Or(c.windowTitle));
            IsPrivateWindow(c) <==>
              || Contains(title, "incognito")
              || (Contains(title, "private") && (Contains(title, "browsing") || Contains(title, "window")))
  {
    hide Mentions, Contains;
    OneOfTwo(Or(c.windowTitle), "", "incognito");
    OneOfTwo(Or(c.windowTitle), "", "private");
    OneOfTwo(Or(c.windowTitle), "browsing", "window");
  }

  lemma PasswordManagerIff(c: Context)
    ensures IsPasswordManager(c) <==> ContainsAny(LowerAscii(Or(c.appName)), PASSWORD_MANAGER_NAMES)
  {
    hide Mentions, ContainsAny;
    ListedWords(Or(c.appName), PASSWORD_MANAGER_NAMES,
                {"1password", "bitwarden", "keychain", "lastpass", "dashlane", "keepass"});
  }

  lemma LoginIff(c: Context)
    ensures AsksForLogin(c) <==> ContainsAny(LowerAscii(Or(c.windowTitle)), AUTH_INDICATORS)
                                 || ContainsAny(LowerAscii(Or(c.url)), AUTH_INDICATORS)
  {
    hide Mentions, ContainsAny;
    var words := {"sign in", "log in", "login", "authenticate", "authorization", "oauth", "saml", "two-factor", "2fa"};
    ListedWords(Or(c.windowTitle), AUTH_INDICATORS, words);
    ListedWords(Or(c.url), AUTH_INDICATORS, words);
  }

  lemma CoversIff(domains: seq<string>, host: string)
    ensures CoversHost(domains, host) <==> exists d | d in domains :: EndsWith(Labels(host), Labels(d))
  {
    forall d ensures HostMatchesSuffix(host, d) <==> EndsWith(Labels(host), Labels(d)) {
      MatchesIffLabelSuffix(host, d);
    }
  }

  lemma FinancialIff(c: Context, web: Web)
    ensures IsFinancialSite(c, web) <==> MatchesDomainSuffix(web, Or(c.url), FINANCIAL_DOMAINS)
  {
    hide HostFromUrl, EndsWith, Labels, CoversHost;
    var host := HostFromUrl(web, Or(c.url));
    if host.Some? {
      CoversIff(FINANCIAL_DOMAINS, host.value);
    }
  }

  lemma MedicalIff(c: Context, web: Web)
    ensures IsMedicalSite(c, web) <==> MatchesDomainLabel(web, Or(c.url), MEDICAL_DOMAIN_MARKERS)
  {
    hide HostFromUrl, Labels;
  }

  lemma FirstIs(r: Reason, c: Context, b: Blocklist, web: Web)
    ensures FirstRefusal(r, c, b, web) <==>
              && Refuses(r, c, b, web)
              && (r.UserBlocklist? || !OwnerExcludes(c, b, web))
              && (AskedAt(r) > 1 ==> !IsFndrItself(c)) && (AskedAt(r) > 2 ==> !IsPasswordManager(c))
              && (AskedAt(r) > 3 ==> !IsPrivateWindow(c)) && (AskedAt(r) > 4 ==> !IsFinancialSite(c, web))
              && (AskedAt(r) > 5 ==> !IsMedicalSite(c, web)) && (AskedAt(r) > 6 ==> !AsksForLogin(c))
  {
    hide OwnerExcludes, IsFndrItself, IsPasswordManager, IsPrivateWindow, IsFinancialSite, IsMedicalSite, AsksForLogin;
    assert Refuses(UserBlocklist, c, b, web) == OwnerExcludes(c, b, web);
    assert Refuses(FndrSelfCapture, c, b, web) == IsFndrItself(c);
    assert Refuses(PasswordManager, c, b, web) == IsPasswordManager(c);
    assert Refuses(PrivateBrowsing, c, b, web) == IsPrivateWindow(c);
    assert Refuses(FinancialSite, c, b, web) == IsFinancialSite(c, web);
    assert Refuses(MedicalSite, c, b, web) == IsMedicalSite(c, web);
    assert Refuses(Authentication, c, b, web) == AsksForLogin(c);
  }

  /** The gate skips a context exactly when a reason applies, and names the first that does. */
  lemma GateSkipsIff(c: Context, b: Blocklist, web: Web)
    ensures forall reason :: Evaluate(c, b, web) == SkipStorage(reason) <==> FirstRefusal(reason, c, b, web)
    ensures Evaluate(c, b, web).SkipStorage? <==> exists reason :: Refuses(reason, c, b, web)
  {
    hide OwnerExcludes, IsFndrItself, IsPasswordManager, IsPrivateWindow, IsFinancialSite, IsMedicalSite, AsksForLogin;
    hide StartsWith, Contains, ContainsAny, MatchesDomainSuffix, MatchesDomainLabel, ContainsSecret, FirstRefusal;
    hide BlocksApp, BlocksUrl;
    FndrIff(c);
    PasswordManagerIff(c);
    PrivateIff(c);
    FinancialIff(c, web);
    MedicalIff(c, web);
    LoginIff(c);
    OwnerIff(c, b, web);
    forall reason ensures Evaluate(c, b, web) == SkipStorage(reason) <==> FirstRefusal(reason, c, b, web) {
      FirstIs(reason, c, b, web);
    }
    if Evaluate(c, b, web).SkipStorage? {
      FirstIs(Evaluate(c, b, web).reason, c, b, web);
    }
    if reason :| Refuses(reason, c, b, web) {
      assert AskedAt(reason) < 7;
    }
  }

  lemma OwnerIff(c: Context, b: Blocklist, web: Web)
    ensures OwnerExcludes(c, b, web) <==>
              BlocksApp(b, web.unicode, LowerAscii(Or(c.appName))) || BlocksUrl(b, web, Or(c.url))
  {
  }

  // ----- clean text -----------------------------------------------------------

  /** No pattern occurs, ignoring ASCII case. */
  ghost predicate Clean(text: string, patterns: seq<string>) {
    !ContainsSecret(text, patterns)
  }

  /** Patterns that line feeds, carriage returns, bullets and outer spaces cannot complete. */
  ghost predicate Robust(pattern: string) {
    && pattern != []
    && '\n' !in pattern && '•' !in pattern
    && pattern[0] != ' ' && pattern[|pattern| - 1] != ' ' && pattern[|pattern| - 1] != '\r'
  }

  ghost predicate AllRobust(patterns: seq<string>) {
    forall p | p in patterns :: Robust(p)
  }

  /** Patterns as line-wise redaction sees them: something to find, and nothing that `lines` strips. */
  ghost predicate LineSafe(patterns: seq<string>) {
    forall p | p in patterns :: p != [] && p[|p| - 1] != '\r'
  }

  /** No pattern contains a line feed. */
  ghost predicate OneLine(patterns: seq<string>) {
    forall p | p in patterns :: '\n' !in p
  }

  lemma NamePatternsAreRobust()
    ensures Robust("api_key") && Robust("apikey") && Robust("secret_key") && Robust("private_key")
    ensures Robust("access_token") && Robust("password:") && Robust("passwd:") && Robust("token:")
  {
  }

  lemma HeaderPatternsAreRobust()
    ensures Robust("-----begin rsa") && Robust("-----begin ec")
    ensures Robust("ghp_") && Robust("sk-") && Robust("xoxb-")
  {
  }

  lemma BuiltInPatternsAreRobust()
    ensures AllRobust(SECRET_PATTERNS)
  {
    NamePatternsAreRobust();
    HeaderPatternsAreRobust();
    forall i | 0 <= i < |SECRET_PATTERNS| ensures Robust(SECRET_PATTERNS[i]) {
    }
  }

  lemma MarkerLacks(c: char)
    requires c == '_' || c == 'k' || c == 'w' || c == '-'
    ensures c !in LowerAscii(MARKER)
  {
    assert LowerAscii(MARKER) == "[redacted: secret pattern]";
  }

  lemma MarkerLacksPattern(pattern: string, c: char)
    requires c == '_' || c == 'k' || c == 'w' || c == '-'
    requires c in pattern
    ensures !Contains(LowerAscii(MARKER), pattern)
  {
    MarkerLacks(c);
    MissingLetter(LowerAscii(MARKER), pattern, c);
  }

  /** Every built-in pattern has a letter that the marker lacks. */
  lemma MarkerIsClean()
    ensures Clean(MARKER, SECRET_PATTERNS)
  {
    forall p | p in SECRET_PATTERNS ensures !Contains(LowerAscii(MARKER), p) {
      assert '_' in p || 'k' in p || 'w' in p || '-' in p;
      MarkerLacksPattern(p, if '_' in p then '_' else if 'k' in p then 'k' else if 'w' in p then 'w' else '-');
    }
  }

  lemma PartOfClean(text: string, part: string, patterns: seq<string>)
    requires Clean(text, patterns) && Contains(text, part)
    ensures Clean(part, patterns)
  {
    LowerAsciiContains(text, part);
    forall p | p in patterns && Contains(LowerAscii(part), p) ensures Contains(LowerAscii(text), p) {
      ContainsTransitive(LowerAscii(text), LowerAscii(part), p);
    }
  }

  /** A bullet between two texts completes no robust pattern. */
  lemma BulletOccurrence(a: string, b: string, pattern: string)
    requires Robust(pattern) && Contains(a + " • " + b, pattern)
    ensures Contains(a, pattern) || Contains(b, pattern)
  {
    assert a + " • " + b == (a + [' ']) + ['•'] + ([' '] + b);
    BarrierSplits(a + [' '], '•', [' '] + b, pattern);
    if Contains(a + [' '], pattern) {
      TrailingSplits(a, ' ', pattern);
    } else {
      LeadingSplits(' ', b, pattern);
    }
  }

  lemma BulletJoinIsClean(a: string, b: string, patterns: seq<string>)
    requires AllRobust(patterns) && Clean(a, patterns) && Clean(b, patterns)
    ensures Clean(a + " • " + b, patterns)
  {
    var la, lb := LowerAscii(a), LowerAscii(b);
    assert LowerAscii(a + " • " + b) == la + " • " + lb;
    forall p | p in patterns ensures !Contains(la + " • " + lb, p) {
      if Contains(la + " • " + lb, p) {
        BulletOccurrence(la, lb, p);
      }
    }
  }

  // ----- redaction --------------------------------------------------------------

  function StripReturn(line: string): (r: string)
    ensures r == line || line == r + ['\r']
  {
    if line != [] && line[|line| - 1] == '\r' then line[..|line| - 1] else line
  }

  /** `str::lines`: pieces end at line feeds, a return before a feed goes with it, and an empty last
      piece is no line. */
  function LinesOf(pieces: seq<string>): seq<string>
    requires pieces != []
  {
    if |pieces| == 1 then (if pieces[0] == "" then [] else pieces)
    else [StripReturn(pieces[0])] + LinesOf(pieces[1..])
  }

  function Lines(text: string): seq<string> {
    LinesOf(Split(text, Is('\n')))
  }

  /** The lines, each followed by its ending. */
  function Spelled(lines: seq<string>, ends: seq<string>): string
    requires |lines| == |ends|
  {
    if lines == [] then "" else lines[0] + ends[0] + Spelled(lines[1..], ends[1..])
  }

  /** Every line but the last ends with a feed, or a return and a feed, which takes a return before the feed;
      the last one may also end with the text, if it is not empty. */
  ghost predicate EndsLine(line: string, end: string, isLast: bool) {
    || end == "\r\n"
    || (end == "\n" && (line == "" || line[|line| - 1] != '\r'))
    || (end == "" && isLast && line != "")
  }

  ghost predicate EndsLines(lines: seq<string>, ends: seq<string>)
    requires |lines| == |ends|
  {
    forall i | 0 <= i < |lines| :: '\n' !in lines[i] && EndsLine(lines[i], ends[i], i == |lines| - 1)
  }

  lemma {:induction false} PiecesAreSpelled(pieces: seq<string>) returns (ends: seq<string>)
    requires pieces != [] && forall p | p in pieces :: '\n' !in p
    ensures |ends| == |LinesOf(pieces)| && EndsLines(LinesOf(pieces), ends)
    ensures Spelled(LinesOf(pieces), ends) == Join(pieces, ['\n'])
  {
    assert pieces[0] in pieces;
    if |pieces| == 1 {
      ends := if pieces[0] == "" then [] else [""];
    } else {
      var rest, line := pieces[1..], StripReturn(pieces[0]);
      var later := PiecesAreSpelled(rest);
      var end := if line == pieces[0] then "\n" else "\r\n";
      ends := [end] + later;
      SpelledFirst(line, end, LinesOf(rest), later);
      assert pieces[0] + "\n" == line + end;
      EndsFirst(line, end, LinesOf(rest), later, pieces[0]);
    }
  }

  lemma SpelledFirst(line: string, end: string, lines: seq<string>, ends: seq<string>)
    requires |lines| == |ends|
    ensures Spelled([line] + lines, [end] + ends) == line + end + Spelled(lines, ends)
  {
    assert ([line] + lines)[1..] == lines && ([end] + ends)[1..] == ends;
  }

  lemma EndsFirst(line: string, end: string, lines: seq<string>, ends: seq<string>, piece: string)
    requires |lines| == |ends| && EndsLines(lines, ends) && '\n' !in piece
    requires line == StripReturn(piece) && end == if line == piece then "\n" else "\r\n"
    ensures EndsLines([line] + lines, [end] + ends)
  {
    assert '\n' !in line by {
      assert forall c | c in line :: c in piece;
    }
    var all, last := [line] + lines, |lines|;
    assert forall i | 0 < i <= last :: all[i] == lines[i - 1] && ([end] + ends)[i] == ends[i - 1];
  }

  /** The lines of a text, with their endings, are the text: nothing else is a list of its lines. */
  lemma LinesSpellText(text: string) returns (ends: seq<string>)
    ensures |ends| == |Lines(text)| && EndsLines(Lines(text), ends) && Spelled(Lines(text), ends) == text
  {
    PiecesHaveNoFeed(text);
    JoinOfSplit(text, '\n');
    ends := PiecesAreSpelled(Split(text, Is('\n')));
  }

  function RedactLine(line: string, patterns: seq<string>): string {
    if ContainsSecret(line, patterns) then MARKER else line
  }

  function RedactAll(lines: seq<string>, patterns: seq<string>): (r: seq<string>)
    ensures |r| == |lines| && forall i | 0 <= i < |lines| :: r[i] == RedactLine(lines[i], patterns)
  {
    seq(|lines|, i requires 0 <= i < |lines| => RedactLine(lines[i], patterns))
  }

  /** How many of the first `n` lines hold a secret. */
  function CountSecret(lines: seq<string>, n: nat, patterns: seq<string>): nat
    requires n <= |lines|
  {
    if n == 0 then 0
    else CountSecret(lines, n - 1, patterns) + (if ContainsSecret(lines[n - 1], patterns) then 1 else 0)
  }

  function Redacted(text: string, patterns: seq<string>): string {
    Join(RedactAll(Lines(text), patterns), ['\n'])
  }

  /** Each clean line as it is, and the marker for each other. */
  ghost predicate Linewise(lines: seq<string>, kept: seq<string>, patterns: seq<string>) {
    && |kept| == |lines|
    && forall i | 0 <= i < |lines| ::
         kept[i] == if Clean(lines[i], patterns) then lines[i] else "[REDACTED: secret pattern]"
  }

  ghost predicate IsRedaction(text: string, redacted: string, patterns: seq<string>) {
    exists kept :: Linewise(Lines(text), kept, patterns) && redacted == Join(kept, "\n")
  }

  ghost function DirtyLines(text: string, patterns: seq<string>): set<nat> {
    set i: nat | i < |Lines(text)| && !Clean(Lines(text)[i], patterns)
  }

  lemma RedactedIs(text: string, patterns: seq<string>)
    ensures IsRedaction(text, Redacted(text, patterns), patterns)
    ensures CountSecret(Lines(text), |Lines(text)|, patterns) == |DirtyLines(text, patterns)|
  {
    hide Lines, ContainsSecret;
    assert Linewise(Lines(text), RedactAll(Lines(text), patterns), patterns);
    CountIsSize(Lines(text), |Lines(text)|, patterns);
    assert DirtyLines(text, patterns)
        == set i: nat | i < |Lines(text)| && !Clean(Lines(text)[i], patterns);
  }

  lemma {:induction false} CountIsSize(lines: seq<string>, n: nat, patterns: seq<string>)
    requires n <= |lines|
    ensures CountSecret(lines, n, patterns) == |set i: nat | i < n && !Clean(lines[i], patterns)|
  {
    hide ContainsSecret;
    var dirty := set i: nat | i < n && !Clean(lines[i], patterns);
    if n == 0 {
      assert dirty == {};
    } else {
      CountIsSize(lines, n - 1, patterns);
      var before := set i: nat | i < n - 1 && !Clean(lines[i], patterns);
      assert dirty == before + (if Clean(lines[n - 1], patterns) then {} else {n - 1});
    }
  }

  /** The built-in patterns. */
  lemma SecretsAreThese(text: string)
    ensures Clean(text, SECRET_PATTERNS) <==>
              !Mentions(text, {"api_key", "apikey", "secret_key", "private_key", "access_token", "password:", "passwd:",
                               "token:", "-----begin rsa", "-----begin ec", "ghp_", "sk-", "xoxb-"})
  {
    hide Mentions, ContainsAny;
    ListedWords(text, SECRET_PATTERNS,
                {"api_key", "apikey", "secret_key", "private_key", "access_token", "password:", "passwd:", "token:",
                 "-----begin rsa", "-----begin ec", "ghp_", "sk-", "xoxb-"});
  }

  method RedactSecretLinesMatching(text: string, patterns: seq<string>)
    returns (redacted: string, redactionCount: nat)
    ensures IsRedaction(text, redacted, patterns) && redactionCount == |DirtyLines(text, patterns)|
    ensures redacted == Redacted(text, patterns)
    ensures redactionCount == CountSecret(Lines(text), |Lines(text)|, patterns)
  {
    hide ContainsSecret, IsRedaction, DirtyLines, Lines, Join;
    var lines := Lines(text);
    var kept: seq<string> := [];
    redactionCount := 0;
    var n := 0;
    while n < |lines|
      invariant 0 <= n <= |lines|
      invariant |kept| == n && forall i | 0 <= i < n :: kept[i] == RedactLine(lines[i], patterns)
      invariant redactionCount == CountSecret(lines, n, patterns)
    {
      if ContainsSecret(lines[n], patterns) {
        redactionCount := redactionCount + 1;
      }
      kept := kept + [RedactLine(lines[n], patterns)];
      n := n + 1;
    }
    assert kept == RedactAll(lines, patterns);
    redacted := Join(kept, ['\n']);
    RedactedIs(text, patterns);
  }

  lemma {:induction false} LowerAsciiJoin(parts: seq<string>)
    ensures LowerAscii(Join(parts, ['\n'])) == Join(Map(parts, LowerAscii), ['\n'])
  {
    var lower := Map(parts, LowerAscii);
    if |parts| > 1 {
      LowerAsciiJoin(parts[1..]);
      assert lower[1..] == Map(parts[1..], LowerAscii);
      assert LowerAscii(['\n']) == ['\n'];
      LowerAsciiConcat(parts[0] + ['\n'], Join(parts[1..], ['\n']));
      LowerAsciiConcat(parts[0], ['\n']);
    } else if |parts| == 1 {
      assert lower == [LowerAscii(parts[0])];
    }
  }

  /** A line feed of the text completes no pattern without one. */
  lemma OccursInLine(parts: seq<string>, pattern: string)
    requires pattern != [] && '\n' !in pattern && Contains(LowerAscii(Join(parts, ['\n'])), pattern)
    ensures exists part | part in parts :: Contains(LowerAscii(part), pattern)
  {
    LowerAsciiJoin(parts);
    var lower := Map(parts, LowerAscii);
    JoinOccurrence(lower, '\n', pattern);
    var line :| line in lower && Contains(line, pattern);
    var i :| 0 <= i < |parts| && lower[i] == line;
    assert parts[i] in parts;
  }

  lemma LinesOfCleanAreClean(parts: seq<string>, patterns: seq<string>)
    requires Clean(Join(parts, ['\n']), patterns)
    ensures forall part | part in parts :: Clean(part, patterns)
  {
    forall part | part in parts ensures Clean(part, patterns) {
      PartOfJoin(parts, part);
      PartOfClean(Join(parts, ['\n']), part, patterns);
    }
  }

  /** Where no pattern contains a line feed, a joined text is clean exactly when its lines are. */
  lemma JoinIsCleanIff(parts: seq<string>, patterns: seq<string>)
    requires LineSafe(patterns) && OneLine(patterns)
    ensures Clean(Join(parts, ['\n']), patterns) <==> forall part | part in parts :: Clean(part, patterns)
  {
    var joined := LowerAscii(Join(parts, ['\n']));
    forall p | p in patterns && Contains(joined, p) ensures exists part | part in parts :: !Clean(part, patterns) {
      OccursInLine(parts, p);
      var part :| part in parts && Contains(LowerAscii(part), p);
      assert !Clean(part, patterns);
    }
    if Clean(Join(parts, ['\n']), patterns) {
      LinesOfCleanAreClean(parts, patterns);
    }
  }

  lemma {:induction false} PartOfJoin(parts: seq<string>, part: string)
    requires part in parts
    ensures Contains(Join(parts, ['\n']), part)
  {
    var all := Join(parts, ['\n']);
    if part == parts[0] {
      SliceContained(all, 0, |part|);
      assert all[0..|part|] == part;
    } else {
      var rest := Join(parts[1..], ['\n']);
      PartOfJoin(parts[1..], part);
      ContainsExtends(parts[0] + ['\n'], rest, [], part);
      assert parts[0] + ['\n'] + rest + [] == all;
    }
  }

  /** Where no pattern contains a line feed, redaction leaves a clean text exactly when no line had to go
      or the marker itself is clean. */
  lemma RedactionIsCleanIff(text: string, patterns: seq<string>)
    requires LineSafe(patterns) && OneLine(patterns)
    ensures Clean(Redacted(text, patterns), patterns)
       <==> (forall l | l in Lines(text) :: Clean(l, patterns)) || Clean(MARKER, patterns)
  {
    var lines := Lines(text);
    var kept := RedactAll(lines, patterns);
    JoinIsCleanIff(kept, patterns);
    if i :| 0 <= i < |lines| && !Clean(lines[i], patterns) {
      assert kept[i] == MARKER && kept[i] in kept;
    }
  }

  lemma RobustIsLineSafe(patterns: seq<string>)
    requires AllRobust(patterns)
    ensures LineSafe(patterns) && OneLine(patterns)
  {
    forall p | p in patterns ensures p != [] && p[|p| - 1] != '\r' && '\n' !in p {
      assert Robust(p);
    }
  }

  /** With the built-in patterns every redaction is clean. */
  lemma RedactionIsClean(text: string)
    ensures Clean(Redacted(text, SECRET_PATTERNS), SECRET_PATTERNS)
  {
    BuiltInPatternsAreRobust();
    RobustIsLineSafe(SECRET_PATTERNS);
    MarkerIsClean();
    RedactionIsCleanIff(text, SECRET_PATTERNS);
  }

  lemma {:induction false} LinesOfCleanIff(pieces: seq<string>, patterns: seq<string>)
    requires pieces != [] && LineSafe(patterns)
    ensures (forall l | l in LinesOf(pieces) :: Clean(l, patterns)) <==> (forall p | p in pieces :: Clean(p, patterns))
  {
    if |pieces| == 1 {
      EmptyIsClean(patterns);
    } else {
      LinesOfCleanIff(pieces[1..], patterns);
      StripReturnCleanIff(pieces[0], patterns);
      assert forall p :: p in pieces <==> p == pieces[0] || p in pieces[1..];
      assert forall l :: l in LinesOf(pieces) <==> l == StripReturn(pieces[0]) || l in LinesOf(pieces[1..]);
    }
  }

  lemma EmptyIsClean(patterns: seq<string>)
    requires LineSafe(patterns)
    ensures Clean("", patterns)
  {
  }

  lemma StripReturnCleanIff(line: string, patterns: seq<string>)
    requires LineSafe(patterns)
    ensures Clean(StripReturn(line), patterns) <==> Clean(line, patterns)
  {
    var r := StripReturn(line);
    if line != r {
      SliceContained(line, 0, |r|);
      assert line[0..|r|] == r;
      if Clean(line, patterns) {
        PartOfClean(line, r, patterns);
      }
      assert LowerAscii(line) == LowerAscii(r) + ['\r'];
      forall p | p in patterns && Contains(LowerAscii(line), p) ensures Contains(LowerAscii(r), p) {
        TrailingSplits(LowerAscii(r), '\r', p);
      }
    }
  }

  /** Where no pattern contains a line feed, a text has a secret exactly when one of its lines has: deciding
      on the whole text and redacting line by line agree. */
  lemma TextIsCleanIffLines(text: string, patterns: seq<string>)
    requires LineSafe(patterns) && OneLine(patterns)
    ensures Clean(text, patterns) <==> forall l | l in Lines(text) :: Clean(l, patterns)
    ensures Clean(text, patterns) <==> CountSecret(Lines(text), |Lines(text)|, patterns) == 0
  {
    JoinOfSplit(text, '\n');
    JoinIsCleanIff(Split(text, Is('\n')), patterns);
    LinesOfCleanIff(Split(text, Is('\n')), patterns);
    CountIsZeroIff(Lines(text), |Lines(text)|, patterns);
    assert forall i | 0 <= i < |Lines(text)| :: Lines(text)[i] in Lines(text);
  }

  lemma {:induction false} CountIsZeroIff(lines: seq<string>, n: nat, patterns: seq<string>)
    requires n <= |lines|
    ensures CountSecret(lines, n, patterns) == 0 <==> forall i | 0 <= i < n :: Clean(lines[i], patterns)
  {
    if n == 0 {
    } else {
      CountIsZeroIff(lines, n - 1, patterns);
    }
  }

  // ----- an owner's patterns ------------------------------------------------------------------

  /** How a policy stores its patterns: trimmed, lower-cased, empty ones dropped. */
  function NormalizeWords(entries: seq<string>): seq<string> {
    Filter(Map(entries, NormalizeWord()), IsWord())
  }

  function NormalizeWord(): string -> string {
    e => LowerAscii(Trim(e))
  }

  function IsWord(): string -> bool {
    p => p != ""
  }

  ghost predicate NormalWord(p: string) {
    p != "" && LowerAscii(p) == p && p[|p| - 1] != '\r' && p[|p| - 1] != '\n'
  }

  lemma NormalizedWordsAreNormal(entries: seq<string>)
    ensures forall p | p in NormalizeWords(entries) :: NormalWord(p)
    ensures LineSafe(NormalizeWords(entries))
  {
    hide LowerAscii, Trim;
    var words := Map(entries, NormalizeWord());
    forall p | p in NormalizeWords(entries) ensures NormalWord(p) {
      assert p in words && IsWord()(p);
      var i :| 0 <= i < |words| && words[i] == p;
      LoweredTrimIsNormal(entries[i]);
    }
  }

  lemma LoweredTrimIsNormal(e: string)
    requires Trim(e) != ""
    ensures NormalWord(LowerAscii(Trim(e)))
  {
    hide TrimStart, TrimEnd, LowerAscii;
    LowerTwice(Trim(e));
  }

  lemma LowerTwice(t: string)
    ensures LowerAscii(LowerAscii(t)) == LowerAscii(t)
  {
  }

  /** Some line of the pattern holds a pattern itself. For a pattern without a line feed this is always so. */
  ghost predicate HasDirtyLine(p: string, patterns: seq<string>) {
    exists l | l in Split(p, Is('\n')) :: !Clean(l, patterns)
  }

  lemma OneLinePatternsAreDirty(p: string, patterns: seq<string>)
    requires p in patterns && NormalWord(p) && '\n' !in p
    ensures HasDirtyLine(p, patterns)
  {
    assert Find(p, Is('\n')) == |p|;
    assert Split(p, Is('\n')) == [p];
    PatternIsDirty(p, patterns);
  }

  lemma PatternIsDirty(p: string, patterns: seq<string>)
    requires p in patterns && LowerAscii(p) == p
    ensures !Clean(p, patterns)
  {
    assert p[0..|p|] == p;
    assert OccursAt(LowerAscii(p), p, 0);
  }

  /** Each line but the last gets the return that `lines` takes off again. */
  function WithReturns(pieces: seq<string>): seq<string>
    requires pieces != []
  {
    if |pieces| == 1 then pieces else [pieces[0] + ['\r']] + WithReturns(pieces[1..])
  }

  lemma {:induction false} LinesOfWithReturns(pieces: seq<string>)
    requires pieces != [] && pieces[|pieces| - 1] != ""
    requires forall x | x in pieces :: '\n' !in x
    ensures WithReturns(pieces) != [] && LinesOf(WithReturns(pieces)) == pieces
    ensures forall x | x in WithReturns(pieces) :: '\n' !in x
  {
    if |pieces| == 1 {
    } else {
      LinesOfWithReturns(pieces[1..]);
      assert WithReturns(pieces)[1..] == WithReturns(pieces[1..]);
      assert StripReturn(pieces[0] + ['\r']) == pieces[0];
      assert pieces == [pieces[0]] + pieces[1..];
      assert pieces[0] in pieces;
    }
  }

  lemma {:induction false} LastPiece(s: string)
    requires s != "" && s[|s| - 1] != '\n'
    ensures Split(s, Is('\n'))[|Split(s, Is('\n'))| - 1] != ""
    decreases |s|
  {
    var i := Find(s, Is('\n'));
    if i < |s| {
      var rest := s[i + 1..];
      assert rest[|rest| - 1] == s[|s| - 1];
      LastPiece(rest);
      assert Split(s, Is('\n')) == [s[..i]] + Split(rest, Is('\n'));
    }
  }

  /** A text whose lines are exactly the lines of the pattern. */
  function Respelled(p: string): string {
    Join(WithReturns(Split(p, Is('\n'))), ['\n'])
  }

  /** A pattern none of whose lines holds a pattern can come out of line-wise redaction whole. */
  lemma CleanLinesDefeatRedaction(p: string, patterns: seq<string>)
    requires p in patterns && NormalWord(p) && !HasDirtyLine(p, patterns)
    ensures Redacted(Respelled(p), patterns) == p && !Clean(p, patterns)
    ensures forall l | l in Lines(Respelled(p)) :: Clean(l, patterns)
  {
    hide Clean, LowerAscii;
    var pieces := Split(p, Is('\n'));
    PiecesHaveNoFeed(p);
    LastPiece(p);
    LinesOfWithReturns(pieces);
    SplitOfJoin(WithReturns(pieces), '\n');
    assert Lines(Respelled(p)) == pieces;
    assert forall i | 0 <= i < |pieces| :: pieces[i] in pieces && Clean(pieces[i], patterns);
    RedactsNothing(pieces, patterns);
    JoinOfSplit(p, '\n');
    PatternIsDirty(p, patterns);
  }

  lemma PiecesHaveNoFeed(p: string)
    ensures forall x | x in Split(p, Is('\n')) :: '\n' !in x
  {
    forall x | x in Split(p, Is('\n')) ensures '\n' !in x {
      assert forall c | c in x :: !Is('\n')(c);
    }
  }

  lemma RedactsNothing(lines: seq<string>, patterns: seq<string>)
    requires forall i | 0 <= i < |lines| :: Clean(lines[i], patterns)
    ensures RedactAll(lines, patterns) == lines
  {
  }

  /** Redaction under these patterns always leaves a clean text. */
  ghost predicate AlwaysRedacts(patterns: seq<string>) {
    forall text :: Clean(Redacted(text, patterns), patterns)
  }

  lemma LinesStayClean(text: string, patterns: seq<string>)
    requires Clean(MARKER, patterns) && LineSafe(patterns)
    requires forall p | p in patterns :: HasDirtyLine(p, patterns) && LowerAscii(p) == p
    ensures Clean(Redacted(text, patterns), patterns)
  {
    hide Clean, LowerAscii, HasDirtyLine, Lines, RedactAll;
    var kept := RedactAll(Lines(text), patterns);
    KeptLinesAreClean(Lines(text), patterns);
    if !Clean(Redacted(text, patterns), patterns) {
      var q := FirstDirtyLine(Redacted(text, patterns), patterns);
      OccursInLine(kept, q);
      var part :| part in kept && Contains(LowerAscii(part), q);
      NotClean(part, q, patterns);
      assert false;
    }
  }

  lemma KeptLinesAreClean(lines: seq<string>, patterns: seq<string>)
    requires Clean(MARKER, patterns)
    ensures forall part | part in RedactAll(lines, patterns) :: Clean(part, patterns)
  {
    hide ContainsSecret;
    forall part | part in RedactAll(lines, patterns) ensures Clean(part, patterns) {
      var i :| 0 <= i < |lines| && RedactAll(lines, patterns)[i] == part;
      assert part == RedactLine(lines[i], patterns);
    }
  }

  lemma NotClean(part: string, q: string, patterns: seq<string>)
    requires q in patterns && Contains(LowerAscii(part), q)
    ensures !Clean(part, patterns)
  {
  }

  /** Below every pattern in a text lies one without a line feed. */
  lemma FirstDirtyLine(text: string, patterns: seq<string>) returns (q: string)
    requires !Clean(text, patterns) && LineSafe(patterns)
    requires forall p | p in patterns :: HasDirtyLine(p, patterns) && LowerAscii(p) == p
    ensures q in patterns && q != [] && '\n' !in q && Contains(LowerAscii(text), q)
  {
    var p :| p in patterns && Contains(LowerAscii(text), p);
    var l :| l in Split(p, Is('\n')) && !Clean(l, patterns);
    q :| q in patterns && Contains(LowerAscii(l), q);
    SplitContained(p, Is('\n'));
    PiecesHaveNoFeed(p);
    LowerAsciiContains(p, l);
    ContainsTransitive(LowerAscii(p), LowerAscii(l), q);
    ContainsTransitive(LowerAscii(text), p, q);
    NoFeedWithin(l, q);
  }

  lemma NoFeedInLower(l: string)
    requires '\n' !in l
    ensures '\n' !in LowerAscii(l)
  {
    forall i | 0 <= i < |l| ensures LowerAscii(l)[i] != '\n' {
      assert l[i] in l;
    }
  }

  lemma NoFeedWithin(l: string, q: string)
    requires '\n' !in l && Contains(LowerAscii(l), q)
    ensures '\n' !in q
  {
    NoFeedInLower(l);
    if '\n' in q {
      MissingLetter(LowerAscii(l), q, '\n');
    }
  }

  /** The owner's patterns are safe exactly when none matches the marker and each has a line that holds a
      pattern; a pattern without a line feed always has one, so only the others need a look. */
  lemma PolicyRedactsIff(entries: seq<string>)
    ensures var patterns := NormalizeWords(entries);
            AlwaysRedacts(patterns) <==>
              Clean(MARKER, patterns) && forall p | p in patterns && '\n' in p :: HasDirtyLine(p, patterns)
  {
    hide Clean, Redacted, NormalizeWords, HasDirtyLine, Respelled;
    var patterns := NormalizeWords(entries);
    NormalizedWordsAreNormal(entries);
    if Clean(MARKER, patterns) && forall p | p in patterns && '\n' in p :: HasDirtyLine(p, patterns) {
      forall p | p in patterns ensures HasDirtyLine(p, patterns) {
        if '\n' !in p {
          OneLinePatternsAreDirty(p, patterns);
        }
      }
      forall text ensures Clean(Redacted(text, patterns), patterns) {
        LinesStayClean(text, patterns);
      }
    }
    if AlwaysRedacts(patterns) {
      assert Clean(Redacted(MARKER, patterns), patterns);
      MarkerStays(patterns);
      forall p | p in patterns ensures HasDirtyLine(p, patterns) {
        assert Clean(Redacted(Respelled(p), patterns), patterns);
        if !HasDirtyLine(p, patterns) {
          CleanLinesDefeatRedaction(p, patterns);
        }
      }
    }
  }

  lemma OneLineOf(text: string)
    requires text != "" && '\n' !in text
    ensures Lines(text) == [text]
  {
    assert forall k | 0 <= k < |text| :: text[k] in text;
    FindUnique(text, Is('\n'), |text|);
    assert Split(text, Is('\n')) == [text];
  }

  lemma RedactedLine(text: string, patterns: seq<string>)
    requires text != "" && '\n' !in text
    ensures Redacted(text, patterns) == RedactLine(text, patterns)
  {
    hide RedactLine, Lines;
    OneLineOf(text);
    assert RedactAll([text], patterns) == [RedactLine(text, patterns)];
  }

  lemma MarkerStays(patterns: seq<string>)
    ensures Redacted(MARKER, patterns) == MARKER
  {
    hide ContainsSecret, Redacted;
    MarkerIsOneLine();
    RedactedLine(MARKER, patterns);
  }

  lemma MarkerIsOneLine()
    ensures '\n' !in MARKER && MARKER != ""
  {
  }

  /** A policy that lists a word of the marker cannot redact, whatever matched it. */
  lemma MarkerDefeatsRedaction(before: string, after: string)
    requires '\n' !in before && '\n' !in after
    ensures var text := before + "secret" + after;
            Redacted(text, ["secret"]) == MARKER && !Clean(MARKER, ["secret"])
  {
    hide Redacted, LowerAscii, Contains;
    var text := before + "secret" + after;
    SecretOccurs(before, after);
    SecretOccurs("[REDACTED: ", " pattern]");
    assert MARKER == "[REDACTED: " + "secret" + " pattern]";
    NoFeedIn(before, "secret", after);
    RedactedLine(text, ["secret"]);
  }

  lemma NoFeedIn(a: string, b: string, c: string)
    requires '\n' !in a && '\n' !in b && '\n' !in c
    ensures '\n' !in a + b + c
  {
  }

  lemma SecretOccurs(before: string, after: string)
    ensures Contains(LowerAscii(before + "secret" + after), "secret")
  {
    hide LowerAscii, Contains;
    MiddleOccurs(before, "secret", after);
    LowerAsciiContains(before + "secret" + after, "secret");
    LowerSecret();
  }

  lemma LowerSecret()
    ensures LowerAscii("secret") == "secret"
  {
  }

  lemma MiddleOccurs(before: string, middle: string, after: string)
    ensures Contains(before + middle + after, middle)
  {
    var text := before + middle + after;
    assert text[|before|..|before| + |middle|] == middle;
    SliceContained(text, |before|, |before| + |middle|);
  }

  /** A policy whose only pattern is two lines cannot redact either: no line of the text matches it. */
  lemma LineFeedDefeatsRedaction(a: string, b: string)
    requires a != "" && b != "" && LowerAscii(a) == a && LowerAscii(b) == b
    requires '\n' !in a && '\n' !in b && a[|a| - 1] != '\r'
    ensures var p := a + "\n" + b;
            Redacted(p, [p]) == p && !Clean(p, [p]) && Clean(MARKER, [p])
  {
    hide Clean, LowerAscii, Lines, Join;
    var p := a + "\n" + b;
    TwoLines(a, b);
    LowerTwoLines(a, b);
    MarkerIsOneLine();
    MissingFeed(a, p);
    MissingFeed(b, p);
    MissingFeed(MARKER, p);
    RedactsNothing([a, b], [p]);
    PatternIsDirty(p, [p]);
  }

  lemma LowerTwoLines(a: string, b: string)
    requires LowerAscii(a) == a && LowerAscii(b) == b
    ensures LowerAscii(a + "\n" + b) == a + "\n" + b
  {
    LowerAsciiConcat(a, "\n");
    LowerAsciiConcat(a + "\n", b);
    assert LowerAscii("\n") == "\n";
  }

  lemma TwoLines(a: string, b: string)
    requires b != "" && '\n' !in a && '\n' !in b && (a != "" ==> a[|a| - 1] != '\r')
    ensures Lines(a + "\n" + b) == [a, b] && Join([a, b], ['\n']) == a + "\n" + b
  {
    assert Join([b], ['\n']) == b && [a, b][1..] == [b];
    assert Join([a, b], ['\n']) == a + "\n" + b;
    SplitOfJoin([a, b], '\n');
    assert StripReturn(a) == a && LinesOf([b]) == [b];
    assert LinesOf([a, b]) == [a] + [b];
  }

  lemma MissingFeed(x: string, p: string)
    requires '\n' !in x && '\n' in p
    ensures Clean(x, [p])
  {
    NoFeedInLower(x);
    MissingLetter(LowerAscii(x), p, '\n');
  }
}
