/** Splitting cleaned text into sentences, ranking them, and packing the best into a budget. */
module Sentences {
  import opened Text
  import opened Arithmetic

  const MIN_SENTENCE_CHARS: nat := 12
  const MAX_RANKED_SPANS: nat := 64
  const SEPARATOR := " \U{2022} "

  // ----- sentences ----------------------------------------------------------------------

  predicate IsBreak(s: string, i: nat)
    requires i < |s|
  {
    || (s[i] in {'.', '!', '?'} && (i + 1 == |s| || s[i + 1] in {' ', '\n'}))
    || s[i] == '\n'
  }

  /** The first `b` characters close a sentence: they end at a break and are long enough. */
  predicate Closes(s: string, b: nat)
    requires 0 < b <= |s|
  {
    IsBreak(s, b - 1) && |Trim(s[..b])| >= MIN_SENTENCE_CHARS
  }

  /** The first place from `i` on where a sentence closes, or past the end if none does. */
  function FirstClose(s: string, i: nat): (b: nat)
    requires 0 < i <= |s| + 1
    ensures i <= b <= |s| + 1
    ensures b <= |s| ==> Closes(s, b)
    ensures forall j | i <= j < b && j <= |s| :: !Closes(s, j)
    decreases |s| + 1 - i
  {
    if i > |s| || Closes(s, i) then i else FirstClose(s, i + 1)
  }

  /** Cut at the first close, over and over; what is left is a sentence of any length. */
  function SentencesOf(s: string): seq<string>
    decreases |s|
  {
    var b := FirstClose(s, 1);
    if b <= |s| then [Trim(s[..b])] + SentencesOf(s[b..])
    else if Trim(s) == "" then []
    else [Trim(s)]
  }

  lemma SentenceClosed(s: string, b: nat)
    requires 0 < b <= |s| && Closes(s, b) && forall j | 0 < j < b :: !Closes(s, j)
    ensures SentencesOf(s) == [Trim(s[..b])] + SentencesOf(s[b..])
  {
    assert FirstClose(s, 1) == b;
  }

  lemma NothingCloses(s: string)
    requires forall j | 0 < j <= |s| :: !Closes(s, j)
    ensures SentencesOf(s) == if Trim(s) == "" then [] else [Trim(s)]
  {
    assert FirstClose(s, 1) == |s| + 1;
  }

  /** At `b` a line ends, or a sentence before a space, a line end or the end; and 12 characters are there. */
  ghost predicate EndsSentence(s: string, b: nat) {
    && 0 < b <= |s| && |Trim(s[..b])| >= 12
    && (s[b - 1] == '\n' || (s[b - 1] in {'.', '!', '?'} && (b == |s| || s[b] == ' ' || s[b] == '\n')))
  }

  /** The first sentence is what ends first, trimmed, and the rest is cut in the same way; where nothing ends,
      the text is one sentence, unless it is blank. */
  lemma SentencesAre(s: string, b: nat)
    ensures EndsSentence(s, b) && (forall j: nat | j < b :: !EndsSentence(s, j)) ==>
              SentencesOf(s) == [Trim(s[..b])] + SentencesOf(s[b..])
    ensures (forall j: nat :: !EndsSentence(s, j)) ==> SentencesOf(s) == if Trim(s) == "" then [] else [Trim(s)]
  {
    hide Trim, SentencesOf;
    forall j | 0 < j <= |s| ensures Closes(s, j) <==> EndsSentence(s, j) {
    }
    if EndsSentence(s, b) && forall j: nat | j < b :: !EndsSentence(s, j) {
      SentenceClosed(s, b);
    }
    if forall j: nat :: !EndsSentence(s, j) {
      NothingCloses(s);
    }
  }

  /** A close of a suffix, in the coordinates of the whole. */
  lemma ClosesInSuffix(s: string, from: nat, to: nat)
    requires from < to <= |s|
    ensures s[from..][..to - from] == s[from..to]
    ensures Closes(s[from..], to - from) <==> IsBreak(s, to - 1) && |Trim(s[from..to])| >= MIN_SENTENCE_CHARS
  {
    assert s[from..][..to - from] == s[from..to];
  }

  ghost predicate NotClosedYet(s: string, from: nat, i: nat)
    requires from <= i <= |s|
  {
    forall j | 0 < j <= i - from :: !Closes(s[from..], j)
  }

  method SplitBlockIntoSentences(block: string) returns (out: seq<string>)
    ensures out == SentencesOf(Trim(block))
  {
    hide SentencesOf, Closes, IsBreak, Trim;
    var trimmed := Trim(block);
    if trimmed == "" {
      NothingCloses("");
      TrimEmpty();
      return [];
    }
    out := [];
    var buffer := "";
    var i := 0;
    ghost var from := 0;
    assert trimmed[0..] == trimmed;
    while i < |trimmed|
      invariant from <= i <= |trimmed| && buffer == trimmed[from..i]
      invariant NotClosedYet(trimmed, from, i)
      invariant out + SentencesOf(trimmed[from..]) == SentencesOf(trimmed)
    {
      var rest := trimmed[from..];
      buffer := buffer + [trimmed[i]];
      i := i + 1;
      ClosesInSuffix(trimmed, from, i);
      assert buffer == trimmed[from..i];
      if IsBreak(trimmed, i - 1) {
        var candidate := Trim(buffer);
        if |candidate| >= MIN_SENTENCE_CHARS {
          SentenceClosed(rest, i - from);
          assert rest[i - from..] == trimmed[i..];
          assert out + ([candidate] + SentencesOf(trimmed[i..])) == (out + [candidate]) + SentencesOf(trimmed[i..]);
          out := out + [candidate];
          buffer := "";
          from := i;
        }
      }
    }
    NothingCloses(trimmed[from..]);
    assert trimmed[from..] == trimmed[from..i];
    var tail := Trim(buffer);
    if tail != "" {
      out := out + [tail];
    }
    SentenceOfNonBlank(block);
    if out == [] {
      out := [trimmed];
    }
  }

  lemma TrimEmpty()
    ensures Trim("") == ""
  {
  }

  // ----- nothing is lost -------------------------------------------------------------------

  /** The non-whitespace characters, in order. */
  function Ink(s: string): string {
    if s == "" then "" else (if IsWhitespace(s[0]) then "" else [s[0]]) + Ink(s[1..])
  }

  function Concat(parts: seq<string>): string {
    if parts == [] then "" else parts[0] + Concat(parts[1..])
  }

  lemma {:induction false} InkConcat(a: string, b: string)
    ensures Ink(a + b) == Ink(a) + Ink(b)
  {
    if a == "" {
      assert a + b == b;
    } else {
      assert (a + b)[1..] == a[1..] + b;
      InkConcat(a[1..], b);
    }
  }

  lemma {:induction false} BlankHasNoInk(s: string)
    requires forall i | 0 <= i < |s| :: IsWhitespace(s[i])
    ensures Ink(s) == ""
  {
    if s == "" {
    } else {
      BlankHasNoInk(s[1..]);
    }
  }

  lemma BlankEndsHaveNoInk(before: string, s: string, after: string)
    requires forall c | c in before :: IsWhitespace(c)
    requires forall c | c in after :: IsWhitespace(c)
    ensures Ink(before + s + after) == Ink(s)
  {
    hide Ink, IsWhitespace;
    InkConcat(before + s, after);
    InkConcat(before, s);
    BlankHasNoInk(before);
    BlankHasNoInk(after);
  }

  lemma TrimKeepsInk(s: string)
    ensures Ink(Trim(s)) == Ink(s)
  {
    hide Ink, IsWhitespace, TrimStart, TrimEnd;
    var t := TrimStart(s);
    var r := TrimEnd(t);
    assert s == s[..|s| - |t|] + r + t[|r|..];
    BlankEndsHaveNoInk(s[..|s| - |t|], r, t[|r|..]);
  }

  lemma {:induction false} InkOfConcat(a: seq<string>, b: seq<string>)
    ensures Ink(Concat(a + b)) == Ink(Concat(a)) + Ink(Concat(b))
  {
    hide Ink;
    if a == [] {
      assert a + b == b;
      NoInk();
    } else {
      assert (a + b)[1..] == a[1..] + b;
      InkOfConcat(a[1..], b);
      InkConcat(a[0], Concat(a[1..] + b));
      InkConcat(a[0], Concat(a[1..]));
    }
  }

  lemma InkOfOne(s: string)
    ensures Ink(Concat([s])) == Ink(s)
  {
    assert Concat([s]) == s + "" == s;
  }

  /** Splitting loses no non-whitespace character and keeps their order. */
  lemma {:induction false} SplittingKeepsInk(s: string)
    ensures Ink(Concat(SentencesOf(s))) == Ink(s)
    decreases |s|
  {
    hide Trim, Closes, Ink;
    var b := FirstClose(s, 1);
    TrimKeepsInk(s);
    if b <= |s| {
      SplittingKeepsInk(s[b..]);
      InkOfConcat([Trim(s[..b])], SentencesOf(s[b..]));
      InkOfOne(Trim(s[..b]));
      TrimKeepsInk(s[..b]);
      InkConcat(s[..b], s[b..]);
      assert s == s[..b] + s[b..];
    } else if Trim(s) != "" {
      InkOfOne(Trim(s));
    } else {
      assert Concat([]) == "";
    }
  }

  lemma InkOfNonBlank(s: string)
    ensures Ink(s) != "" <==> Trim(s) != ""
  {
    TrimKeepsInk(s);
  }

  /** A block with any non-whitespace character has a sentence, so the fallback to the whole block never runs. */
  lemma SentenceOfNonBlank(block: string)
    requires Trim(block) != ""
    ensures SentencesOf(Trim(block)) != []
  {
    hide Trim, Ink;
    SplittingKeepsInk(Trim(block));
    TrimKeepsInk(block);
    InkOfNonBlank(block);
    NoInk();
  }

  lemma NoInk()
    ensures Ink(Concat([])) == ""
  {
  }

  predicate IsTrimmed(s: string) {
    s != "" && !IsWhitespace(s[0]) && !IsWhitespace(s[|s| - 1])
  }

  /** Every sentence is trimmed, and every sentence but the last has at least 12 characters. */
  lemma {:induction false} SentencesAreLong(s: string)
    ensures forall k | 0 <= k < |SentencesOf(s)| ::
              IsTrimmed(SentencesOf(s)[k]) && (k < |SentencesOf(s)| - 1 ==> |SentencesOf(s)[k]| >= MIN_SENTENCE_CHARS)
    decreases |s|
  {
    hide Trim, IsBreak;
    var b := FirstClose(s, 1);
    if b <= |s| {
      SentencesAreLong(s[b..]);
    }
  }

  // ----- ranking ---------------------------------------------------------------------------

  datatype Span = Span(text: string, score: real)

  /** The next blank line from `i` on. */
  function NextGap(s: string, i: nat): (g: nat)
    requires i <= |s|
    ensures i <= g <= |s| && (g < |s| ==> g + 2 <= |s| && s[g] == s[g + 1] == '\n')
    decreases |s| - i
  {
    if i + 2 > |s| then |s| else if s[i] == s[i + 1] == '\n' then i else NextGap(s, i + 1)
  }

  /** `split("\n\n")`. */
  function Blocks(s: string): seq<string>
    decreases |s|
  {
    var g := NextGap(s, 0);
    if g < |s| then [s[..g]] + Blocks(s[g + 2..]) else [s]
  }

  function SentencesIn(blocks: seq<string>): seq<string> {
    if blocks == [] then [] else SentencesOf(Trim(blocks[0])) + SentencesIn(blocks[1..])
  }

  predicate FeedsAt(x: string, k: nat)
    requires k + 1 < |x|
  {
    x[k] == '\n' && x[k + 1] == '\n'
  }

  ghost predicate NoBlankLine(x: string) {
    forall k | 0 <= k < |x| - 1 :: !FeedsAt(x, k)
  }

  /** A blank line separates blocks. With the next lemma this is all of `split`. */
  lemma BlocksAtGap(x: string, y: string)
    requires NoBlankLine(x) && (x != "" ==> x[|x| - 1] != '\n')
    ensures Blocks(x + "\n\n" + y) == [x] + Blocks(y)
  {
    var s, t := x + "\n\n" + y, x + "\n";
    forall k | 0 <= k < |t| - 1 ensures !FeedsAt(t, k) {
      assert k < |x| - 1 ==> FeedsAt(x, k) == FeedsAt(t, k);
    }
    NoGapFrom(t, 0);
    GapIsFirst(x, y, 0);
    assert s[..|x|] == x && s[|x| + 2..] == y;
  }

  lemma {:induction false} GapIsFirst(x: string, y: string, i: nat)
    requires i <= |x| && NextGap(x + "\n", i) == |x + "\n"|
    ensures NextGap(x + "\n\n" + y, i) == |x|
    decreases |x| - i
  {
    var s, t := x + "\n\n" + y, x + "\n";
    assert s[i] == t[i];
    if i < |x| {
      assert s[i + 1] == t[i + 1];
      GapIsFirst(x, y, i + 1);
    }
  }

  lemma OneBlockOnly(x: string)
    requires NoBlankLine(x)
    ensures Blocks(x) == [x]
  {
    NoGapFrom(x, 0);
  }

  lemma {:induction false} NoGapFrom(x: string, i: nat)
    requires i <= |x| && NoBlankLine(x)
    ensures NextGap(x, i) == |x|
    decreases |x| - i
  {
    if i + 2 <= |x| {
      assert !FeedsAt(x, i);
      NoGapFrom(x, i + 1);
    }
  }

  lemma BlockKeepsInk(block: string)
    ensures Ink(Concat(SentencesOf(Trim(block)))) == Ink(block)
  {
    hide Ink, Concat, SentencesOf, Trim;
    SplittingKeepsInk(Trim(block));
    TrimKeepsInk(block);
  }

  lemma GapHasNoInk(block: string, gap: string, rest: string)
    requires forall c | c in gap :: c == '\n'
    ensures Ink(block + gap + rest) == Ink(block) + Ink(rest)
  {
    hide Ink;
    InkConcat(block + gap, rest);
    InkConcat(block, gap);
    assert forall i | 0 <= i < |gap| :: gap[i] in gap;
    BlankHasNoInk(gap);
  }

  lemma SentencesOfFirst(block: string, rest: seq<string>)
    ensures SentencesIn([block] + rest) == SentencesOf(Trim(block)) + SentencesIn(rest)
  {
    hide Trim, SentencesOf;
    assert ([block] + rest)[1..] == rest;
  }

  /** Over the whole text too, nothing but whitespace is lost between the sentences. */
  lemma {:induction false} TextKeepsInk(cleaned: string)
    ensures Ink(Concat(SentencesIn(Blocks(cleaned)))) == Ink(cleaned)
    decreases |cleaned|
  {
    hide Ink, Concat, SentencesOf, SentencesIn, Trim;
    var g := NextGap(cleaned, 0);
    var block := cleaned[..g];
    BlockKeepsInk(block);
    if g < |cleaned| {
      var rest := cleaned[g + 2..];
      TextKeepsInk(rest);
      SentencesOfFirst(block, Blocks(rest));
      InkOfConcat(SentencesOf(Trim(block)), SentencesIn(Blocks(rest)));
      assert cleaned == block + cleaned[g..g + 2] + rest;
      GapHasNoInk(block, cleaned[g..g + 2], rest);
    } else {
      assert cleaned == block;
      SentencesOfFirst(block, []);
      NoMoreBlocks([], []);
      assert [block] + [] == [block] && SentencesOf(Trim(block)) + [] == SentencesOf(Trim(block));
    }
  }

  function Scored(sentences: seq<string>, score: string -> real): seq<Span> {
    if sentences == [] then []
    else Scored(sentences[..|sentences| - 1], score) + ScoredOne(sentences[|sentences| - 1], score)
  }

  function ScoredOne(sentence: string, score: string -> real): seq<Span> {
    if score(sentence) <= 0.0 then [] else [Span(sentence, score(sentence))]
  }

  function First(spans: seq<Span>): seq<Span> {
    if |spans| > MAX_RANKED_SPANS then spans[..MAX_RANKED_SPANS] else spans
  }

  /** The spans considered: the first 64 sentences of the text with a positive score. */
  function Considered(cleaned: string, score: string -> real): seq<Span> {
    First(Scored(SentencesIn(Blocks(cleaned)), score))
  }

  /** The first 64 of the sentences whose score is positive. */
  lemma ConsideredAre(cleaned: string, score: string -> real)
    ensures var all := Scored(SentencesIn(Blocks(cleaned)), score);
            Considered(cleaned, score) == if |all| > 64 then all[..64] else all
  {
    hide Scored, SentencesIn, Blocks;
  }

  /** With `ScoredOneIs` this is all of what scoring is. */
  lemma {:induction false} ScoredConcat(a: seq<string>, b: seq<string>, score: string -> real)
    ensures Scored(a + b, score) == Scored(a, score) + Scored(b, score)
  {
    hide Scored;
    if b == [] {
      assert a + b == a;
      NoneScored(score);
    } else {
      var front, last := b[..|b| - 1], b[|b| - 1];
      ScoredConcat(a, front, score);
      ScoredLast(front, last, score);
      ScoredLast(a + front, last, score);
      assert b == front + [last] && a + b == (a + front) + [last];
    }
  }

  lemma ScoredLast(sentences: seq<string>, last: string, score: string -> real)
    ensures Scored(sentences + [last], score) == Scored(sentences, score) + ScoredOne(last, score)
  {
    assert (sentences + [last])[..|sentences|] == sentences;
  }

  lemma NoneScored(score: string -> real)
    ensures Scored([], score) == []
  {
  }

  lemma ScoredGrows(done: seq<string>, more: seq<string>, score: string -> real)
    ensures Scored(done, score) <= Scored(done + more, score)
  {
    ScoredConcat(done, more, score);
  }

  lemma FirstIsFull(done: seq<string>, more: seq<string>, score: string -> real)
    requires |First(Scored(done, score))| >= MAX_RANKED_SPANS
    ensures First(Scored(done, score)) == First(Scored(done + more, score))
  {
    ScoredGrows(done, more, score);
  }

  lemma FirstAppend(done: seq<string>, sentence: string, score: string -> real)
    requires |First(Scored(done, score))| < MAX_RANKED_SPANS
    ensures First(Scored(done + [sentence], score)) == First(Scored(done, score)) + ScoredOne(sentence, score)
  {
    assert (done + [sentence])[..|done|] == done;
  }

  lemma TrimmedIsUntouched(s: string)
    requires IsTrimmed(s)
    ensures Trim(s) == s && s != ""
  {
    assert TrimStart(s) == s;
  }

  lemma BlankTextHasNoSentences(cleaned: string)
    requires Trim(cleaned) == ""
    ensures SentencesIn(Blocks(cleaned)) == []
  {
    hide Ink, Trim, SentencesOf, Concat;
    var all := SentencesIn(Blocks(cleaned));
    TextKeepsInk(cleaned);
    InkOfNonBlank(cleaned);
    if all != [] {
      SentencesInAreTrimmed(Blocks(cleaned));
      InkOfConcat([all[0]], all[1..]);
      assert all == [all[0]] + all[1..];
      InkOfOne(all[0]);
      TrimmedIsUntouched(all[0]);
      InkOfNonBlank(all[0]);
    }
  }

  lemma {:induction false} SentencesInAreTrimmed(blocks: seq<string>)
    ensures forall x | x in SentencesIn(blocks) :: IsTrimmed(x)
  {
    hide SentencesOf, Trim, IsTrimmed;
    if blocks == [] {
    } else {
      SentencesAreLong(Trim(blocks[0]));
      SentencesInAreTrimmed(blocks[1..]);
    }
  }

  /** Before every span that does not score higher: the library sort is stable and `x` came first. */
  function Insert(x: Span, ranked: seq<Span>): seq<Span> {
    if ranked == [] || ranked[0].score <= x.score then [x] + ranked else [ranked[0]] + Insert(x, ranked[1..])
  }

  function Ranked(spans: seq<Span>): seq<Span> {
    if spans == [] then [] else Insert(spans[0], Ranked(spans[1..]))
  }

  ghost predicate Descending(spans: seq<Span>) {
    forall i, j | 0 <= i < j < |spans| :: spans[i].score >= spans[j].score
  }

  function WithScore(spans: seq<Span>, score: real): seq<Span> {
    if spans == [] then [] else (if spans[0].score == score then [spans[0]] else []) + WithScore(spans[1..], score)
  }

  lemma {:induction false} InsertDescends(x: Span, ranked: seq<Span>)
    requires Descending(ranked)
    ensures Descending(Insert(x, ranked))
  {
    if ranked != [] && ranked[0].score > x.score {
      InsertDescends(x, ranked[1..]);
      InsertStaysBelow(x, ranked[1..], ranked[0].score);
    }
  }

  lemma InsertStaysBelow(x: Span, ranked: seq<Span>, bound: real)
    requires x.score <= bound && forall y | y in ranked :: y.score <= bound
    ensures forall y | y in Insert(x, ranked) :: y.score <= bound
  {
  }

  lemma {:induction false} InsertKeeps(x: Span, ranked: seq<Span>)
    ensures multiset(Insert(x, ranked)) == multiset{x} + multiset(ranked)
  {
    if ranked == [] {
    } else {
      assert ranked == [ranked[0]] + ranked[1..];
      InsertKeeps(x, ranked[1..]);
    }
  }

  lemma {:induction false} InsertIsStable(x: Span, ranked: seq<Span>, v: real)
    ensures WithScore(Insert(x, ranked), v) == (if x.score == v then [x] else []) + WithScore(ranked, v)
  {
    hide WithScore;
    if ranked == [] || ranked[0].score <= x.score {
      WithScoreCons(x, ranked, v);
    } else {
      assert ranked == [ranked[0]] + ranked[1..];
      InsertIsStable(x, ranked[1..], v);
      WithScoreCons(ranked[0], ranked[1..], v);
      WithScoreCons(ranked[0], Insert(x, ranked[1..]), v);
    }
  }

  lemma WithScoreCons(x: Span, spans: seq<Span>, v: real)
    ensures WithScore([x] + spans, v) == (if x.score == v then [x] else []) + WithScore(spans, v)
  {
    assert ([x] + spans)[1..] == spans;
  }

  /** Ranking orders by score and keeps every span. */
  lemma {:induction false} RankingSorts(spans: seq<Span>)
    ensures Descending(Ranked(spans)) && multiset(Ranked(spans)) == multiset(spans)
  {
    if spans == [] {
    } else {
      RankingSorts(spans[1..]);
      InsertDescends(spans[0], Ranked(spans[1..]));
      InsertKeeps(spans[0], Ranked(spans[1..]));
      assert spans == [spans[0]] + spans[1..];
    }
  }

  /** Ranking keeps the reading order of spans that score the same. */
  lemma {:induction false} RankingIsStable(spans: seq<Span>, v: real)
    ensures WithScore(Ranked(spans), v) == WithScore(spans, v)
  {
    if spans == [] {
    } else {
      RankingIsStable(spans[1..], v);
      InsertIsStable(spans[0], Ranked(spans[1..]), v);
    }
  }

  /** The inner loop: the sentences of one block, until there are enough spans. */
  method AddSentences(before: seq<Span>, sentences: seq<string>, score: string -> real, ghost done: seq<string>)
    returns (spans: seq<Span>, ghost used: nat)
    requires before == First(Scored(done, score)) && forall x | x in sentences :: IsTrimmed(x)
    ensures used <= |sentences| && spans == First(Scored(done + sentences[..used], score))
    ensures |spans| < MAX_RANKED_SPANS ==> used == |sentences|
  {
    hide Trim, Scored, ScoredOne, First, IsTrimmed;
    spans, used := before, 0;
    var i := 0;
    assert done + sentences[..0] == done;
    while i < |sentences|
      invariant i <= |sentences| && used == i
      invariant spans == First(Scored(done + sentences[..i], score))
    {
      if |spans| >= MAX_RANKED_SPANS {
        break;
      }
      var trimmed := Trim(sentences[i]);
      TrimmedIsUntouched(sentences[i]);
      FirstAppend(done + sentences[..i], sentences[i], score);
      ScoredOneIs(sentences[i], score);
      assert done + sentences[..i + 1] == done + sentences[..i] + [sentences[i]];
      i, used := i + 1, i + 1;
      if trimmed != "" && score(trimmed) > 0.0 {
        spans := spans + [Span(trimmed, score(trimmed))];
      }
    }
  }

  method RankSalientSpans(cleaned: string, score: string -> real) returns (spans: seq<Span>)
    ensures spans == Ranked(Considered(cleaned, score))
  {
    hide Trim, SentencesOf, Blocks, Scored, ScoredOne, First, Ranked, IsTrimmed, SentencesIn;
    NothingScored(score);
    if Trim(cleaned) == "" {
      BlankTextHasNoSentences(cleaned);
      return [];
    }
    spans := [];
    var blocks := Blocks(cleaned);
    var b := 0;
    ghost var done: seq<string>, all := [], SentencesIn(blocks);
    assert blocks[0..] == blocks;
    while b < |blocks|
      invariant b <= |blocks|
      invariant spans == First(Scored(done, score)) && done + SentencesIn(blocks[b..]) == all
    {
      var sentences := SplitBlockIntoSentences(blocks[b]);
      SentencesAreLong(Trim(blocks[b]));
      ghost var later, used := SentencesIn(blocks[b + 1..]), 0;
      NextBlock(blocks, b);
      spans, used := AddSentences(spans, sentences, score, done);
      Regroup(done, sentences, used, later);
      b := b + 1;
      if |spans| >= MAX_RANKED_SPANS {
        FirstIsFull(done + sentences[..used], sentences[used..] + later, score);
        spans := Ranked(spans);
        return;
      }
      done := done + sentences[..used];
    }
    NoMoreBlocks(done, blocks[b..]);
    spans := Ranked(spans);
  }

  lemma NextBlock(blocks: seq<string>, b: nat)
    requires b < |blocks|
    ensures SentencesIn(blocks[b..]) == SentencesOf(Trim(blocks[b])) + SentencesIn(blocks[b + 1..])
  {
    assert blocks[b..][1..] == blocks[b + 1..];
  }

  lemma NoMoreBlocks(done: seq<string>, blocks: seq<string>)
    requires blocks == []
    ensures done + SentencesIn(blocks) == done
  {
  }

  lemma Regroup(done: seq<string>, sentences: seq<string>, used: nat, later: seq<string>)
    requires used <= |sentences|
    ensures done + (sentences + later) == (done + sentences[..used]) + (sentences[used..] + later)
    ensures used == |sentences| ==> sentences[used..] + later == later
  {
  }

  lemma NothingScored(score: string -> real)
    ensures First(Scored([], score)) == [] && Ranked([]) == []
  {
  }

  lemma ScoredOneIs(sentence: string, score: string -> real)
    ensures ScoredOne(sentence, score) == if score(sentence) > 0.0 then [Span(sentence, score(sentence))] else []
  {
  }

  // ----- packing -----------------------------------------------------------------------------

  /** The first `k` texts, joined. */
  function Packed(texts: seq<string>, k: nat): string
    requires k <= |texts|
  {
    if k == 0 then "" else if k == 1 then texts[0] else Packed(texts, k - 1) + SEPARATOR + texts[k - 1]
  }

  /** How many of the texts fit whole, from the `k` that do. */
  function Fitting(texts: seq<string>, max: nat, k: nat): (n: nat)
    requires k <= |texts| && |Packed(texts, k)| <= max
    ensures k <= n <= |texts| && |Packed(texts, n)| <= max
    ensures n < |texts| ==> |Packed(texts, n + 1)| > max
    decreases |texts| - k
  {
    if k < |texts| && |Packed(texts, k + 1)| <= max then Fitting(texts, max, k + 1) else k
  }

  /** Joined with bullets. */
  lemma {:induction false} PackedIs(texts: seq<string>, k: nat)
    requires k <= |texts|
    ensures Packed(texts, k) == Join(texts[..k], " \U{2022} ")
  {
    if k > 1 {
      PackedIs(texts, k - 1);
      JoinLast(texts[..k - 1], texts[k - 1], SEPARATOR);
      assert texts[..k] == texts[..k - 1] + [texts[k - 1]];
    }
  }

  lemma {:induction false} JoinLast(parts: seq<string>, last: string, sep: string)
    requires parts != []
    ensures Join(parts + [last], sep) == Join(parts, sep) + sep + last
  {
    if |parts| > 1 {
      JoinLast(parts[1..], last, sep);
      assert (parts + [last])[1..] == parts[1..] + [last];
    }
  }

  lemma {:induction false} PackedGrows(texts: seq<string>, k: nat, n: nat)
    requires k <= n <= |texts|
    ensures Packed(texts, k) <= Packed(texts, n)
  {
    if k < n {
      PackedGrows(texts, k, n - 1);
    }
  }

  /** Every text that fits whole, and of the next one as much as fits behind its separator. */
  function Evidence(texts: seq<string>, max: nat): string {
    var n := Fitting(texts, max, 0);
    var packed := Packed(texts, n);
    if n == |texts| || |packed| >= max then packed
    else
      var out := if n == 0 then packed else packed + SEPARATOR;
      out + texts[n][..Budget(max, |out|, |texts[n]|)]
  }

  /** `take(max_chars.saturating_sub(len))`. */
  function Budget(max: nat, length: nat, available: nat): (n: nat)
    ensures n <= available
  {
    Min(SaturatingSub(max, length), available)
  }

  ghost predicate AllNonEmpty(texts: seq<string>) {
    forall t | t in texts :: t != ""
  }

  method Pack(texts: seq<string>, max: nat) returns (out: string)
    requires max > 0 && AllNonEmpty(texts)
    ensures out == Evidence(texts, max)
  {
    out := "";
    var k := 0;
    while k < |texts|
      invariant k <= |texts| && out == Packed(texts, k) && |out| <= max
      invariant (out == "" <==> k == 0) && Fitting(texts, max, 0) == Fitting(texts, max, k)
    {
      assert texts[k] in texts;
      if |out| >= max {
        break;
      }
      var longer := if out != "" then out + SEPARATOR else out;
      if |longer| + |texts[k]| > max {
        out := longer + texts[k][..Budget(max, |longer|, |texts[k]|)];
        return;
      }
      out := longer + texts[k];
      k := k + 1;
    }
  }

  function Texts(spans: seq<Span>): (r: seq<string>)
    ensures |r| == |spans| && forall i | 0 <= i < |r| :: r[i] == spans[i].text
  {
    seq(|spans|, i requires 0 <= i < |spans| => spans[i].text)
  }

  /** The evidence overruns the budget by at most two characters, and exactly when the texts that fit whole
      leave one or two characters, too few for the three of the separator that is pushed regardless. */
  lemma EvidenceOverrunsIff(texts: seq<string>, max: nat)
    requires max > 0 && AllNonEmpty(texts)
    ensures |Evidence(texts, max)| <= max + 2
    ensures var n := Fitting(texts, max, 0);
            |Evidence(texts, max)| > max <==> 0 < n < |texts| && max - 2 <= |Packed(texts, n)| < max
  {
  }

  /** What fits whole, and not all of what fits no longer. */
  lemma EvidenceWithin(texts: seq<string>, max: nat) returns (n: nat)
    requires max > 0 && AllNonEmpty(texts)
    ensures n <= |texts| && Evidence(texts, max) <= Packed(texts, n)
    ensures |Evidence(texts, max)| >= max || (n == |texts| && Evidence(texts, max) == Packed(texts, n))
  {
    n := Fitting(texts, max, 0);
    if n < |texts| {
      EvidenceCuts(texts, max, n);
      n := n + 1;
    }
  }

  lemma EvidenceCuts(texts: seq<string>, max: nat, n: nat)
    requires max > 0 && AllNonEmpty(texts) && n == Fitting(texts, max, 0) && n < |texts|
    ensures Evidence(texts, max) <= Packed(texts, n + 1) && |Evidence(texts, max)| >= max
  {
    hide Fitting;
    assert texts[n] in texts;
  }

  /** The evidence is the beginning of all the texts joined, as much of it as the budget has room for. */
  lemma EvidenceIsPrefix(texts: seq<string>, max: nat)
    requires max > 0 && AllNonEmpty(texts)
    ensures var joined := Join(texts, " \U{2022} ");
            Evidence(texts, max) <= joined && |Evidence(texts, max)| >= (if |joined| < max then |joined| else max)
  {
    hide Packed, Evidence, Join, AllNonEmpty;
    var n := EvidenceWithin(texts, max);
    PackedIs(texts, |texts|);
    assert texts[..|texts|] == texts;
    PackedGrows(texts, n, |texts|);
  }

  lemma {:induction false} ScoredTextsAreSentences(sentences: seq<string>, score: string -> real)
    ensures forall x | x in Scored(sentences, score) :: x.text in sentences && x.score > 0.0
  {
    if sentences == [] {
    } else {
      ScoredTextsAreSentences(sentences[..|sentences| - 1], score);
    }
  }

  lemma RankedTextsAreNonEmpty(cleaned: string, score: string -> real)
    ensures AllNonEmpty(Texts(Ranked(Considered(cleaned, score))))
  {
    hide Trim, SentencesOf, Blocks, Scored, Ranked, SentencesIn;
    var sentences, considered := SentencesIn(Blocks(cleaned)), Considered(cleaned, score);
    SentencesInAreTrimmed(Blocks(cleaned));
    ScoredTextsAreSentences(sentences, score);
    RankingSorts(considered);
    forall x | x in Ranked(considered) ensures x.text != "" {
      assert x in multiset(Ranked(considered)) && x in considered && x in Scored(sentences, score);
      assert IsTrimmed(x.text);
    }
  }

  lemma RankedIsEmptyIff(spans: seq<Span>)
    ensures Ranked(spans) == [] <==> spans == []
  {
  }

  /** Nothing of a blank text, the head of one without spans, else the evidence of its ranked spans. */
  function Compressed(cleaned: string, score: string -> real, max: nat): string {
    var considered := Considered(cleaned, score);
    if max == 0 || Trim(cleaned) == "" then ""
    else if considered == [] then Cut(cleaned, max)
    else Evidence(Texts(Ranked(considered)), max)
  }

  method CompressToSalientEvidence(cleaned: string, score: string -> real, max: nat) returns (out: string)
    ensures out == Compressed(cleaned, score, max) && |out| <= max + 2
  {
    hide Trim, Considered, Evidence, Ranked;
    if max == 0 || Trim(cleaned) == "" {
      return "";
    }
    var spans := RankSalientSpans(cleaned, score);
    RankedIsEmptyIff(Considered(cleaned, score));
    if spans == [] {
      return Cut(cleaned, max);
    }
    RankedTextsAreNonEmpty(cleaned, score);
    EvidenceOverrunsIff(Texts(spans), max);
    out := Pack(Texts(spans), max);
  }

  // ----- a budget overrun ----------------------------------------------------------------------

  /** Words and one full stop, long enough to be a sentence. */
  predicate IsPlainSentence(s: string) {
    && |s| >= MIN_SENTENCE_CHARS && s[|s| - 1] == '.' && !IsWhitespace(s[0])
    && forall i | 0 <= i < |s| - 1 :: s[i] !in {'.', '!', '?', '\n'}
  }

  lemma PlainSentenceIsTrimmed(s: string)
    requires IsPlainSentence(s)
    ensures Trim(s) == s && Trim(" " + s) == s
  {
    TrimmedIsItself(s);
    assert (" " + s)[1..] == s;
  }

  lemma TwoSentences(a: string, b: string)
    requires IsPlainSentence(a) && IsPlainSentence(b)
    ensures SentencesOf(a + " " + b) == [a, b]
  {
    hide Trim;
    var s, rest := a + " " + b, " " + b;
    PlainSentenceIsTrimmed(a);
    PlainSentenceIsTrimmed(b);
    assert s[..|a|] == a && s[|a|..] == rest && rest[..|rest|] == rest && rest[|rest|..] == "";
    assert forall i | 0 <= i < |a| - 1 :: s[i] == a[i];
    assert forall i | 0 < i < |rest| - 1 :: rest[i] == b[i - 1];
    SentenceClosed(s, |a|);
    SentenceClosed(rest, |rest|);
    NothingCloses("");
    TrimEmpty();
  }

  lemma TrimmedIsItself(s: string)
    requires IsTrimmed(s)
    ensures Trim(s) == s
  {
  }

  lemma OneBlock(a: string, b: string)
    requires IsPlainSentence(a) && IsPlainSentence(b)
    ensures SentencesIn(Blocks(a + " " + b)) == SentencesOf(a + " " + b) && Trim(a + " " + b) != ""
  {
    hide Trim, Blocks, SentencesOf;
    var s := a + " " + b;
    assert '\n' !in s by {
      assert forall i | 0 <= i < |a| :: a[i] != '\n';
      assert forall i | 0 <= i < |b| :: b[i] != '\n';
    }
    OneBlockOnly(s);
    assert IsTrimmed(s) by {
      assert s[0] == a[0] && s[|s| - 1] == '.';
    }
    TrimmedIsItself(s);
    assert [s][1..] == [];
  }

  /** Whatever the scores, two sentences one character shorter than the budget overrun it by two characters:
      the first fits, the separator no longer does. */
  lemma TwoSentencesOverrun(a: string, b: string, score: string -> real, max: nat)
    requires IsPlainSentence(a) && IsPlainSentence(b) && |a| == |b| == max - 1
    requires score(a) > 0.0 && score(b) > 0.0
    ensures |Compressed(a + " " + b, score, max)| == max + 2
  {
    hide Trim, Blocks, SentencesOf, SentencesIn, IsPlainSentence;
    OneBlock(a, b);
    TwoSentences(a, b);
    var s := a + " " + b;
    var texts := Texts(Ranked(Considered(s, score)));
    BothConsidered(a, b, score);
    RankedPair(Span(a, score(a)), Span(b, score(b)));
    assert |texts| == 2 && |texts[0]| == |texts[1]| == max - 1;
    assert Packed(texts, 1) == texts[0] && |Packed(texts, 2)| > max;
    assert Fitting(texts, max, 1) == 1;
    assert Fitting(texts, max, 0) == 1;
  }

  lemma BothConsidered(a: string, b: string, score: string -> real)
    requires score(a) > 0.0 && score(b) > 0.0
    ensures First(Scored([a, b], score)) == [Span(a, score(a)), Span(b, score(b))]
  {
    assert [a, b][..1] == [a] && [a][..0] == [];
    assert Scored([a], score) == [Span(a, score(a))];
  }

  lemma RankedPair(x: Span, y: Span)
    ensures Ranked([x, y]) == [x, y] || Ranked([x, y]) == [y, x]
  {
    assert [x, y][1..] == [y] && [y][1..] == [] && Ranked([y]) == [y];
    assert Ranked([x, y]) == Insert(x, [y]);
    assert Insert(x, []) == [x];
    assert [x] + [y] == [x, y] && [y] + [x] == [y, x];
  }

  /** For one: 15 characters of evidence where at most 13 were asked for. */
  lemma CompressionOverruns(score: string -> real)
    requires score("Reviewed it.") > 0.0 && score("Decided too.") > 0.0
    ensures |Compressed("Reviewed it. Decided too.", score, 13)| == 15
  {
    hide Compressed;
    assert "Reviewed it." + " " + "Decided too." == "Reviewed it. Decided too.";
    TwoSentencesOverrun("Reviewed it.", "Decided too.", score, 13);
  }
}
