/** Merging the text of two captures: deterministic, bounded, and free of new secrets. */
module Story {
  import opened Wrappers
  import opened Text
  import opened SafetyGate

  const MAX_STORY_CHARS: nat := 6400

  /** `normalize_overlap`: lower case with single spaces. */
  function NormalizeOverlap(u: Unicode, text: string): string {
    Join(Words(u.lower(text)), " ")
  }

  function LongEnough(): string -> bool {
    s => Utf8Len(s) >= 12
  }

  /** The sentence-sized pieces of an incoming text. */
  function Segments(incoming: string): seq<string> {
    Filter(Map(Split(incoming, OneOf({'\n', '.', '!', '?', ';'})), Trim), LongEnough())
  }

  /** The loop over segments: each one whose normal form is new is appended after a bullet, until the
      text is full. */
  function Appended(u: Unicode, merged: string, seen: string, segments: seq<string>, max: nat): string
    decreases segments
  {
    if segments == [] then merged
    else
      var normalized := NormalizeOverlap(u, segments[0]);
      if normalized == "" || Contains(seen, normalized) then Appended(u, merged, seen, segments[1..], max)
      else
        var grown := merged + " • " + segments[0];
        if |grown| >= max then grown
        else Appended(u, grown, seen + " " + normalized, segments[1..], max)
  }

  /** Two trimmed texts: the one that says it all, or the first with what the second adds. */
  function Combined(u: Unicode, a: string, b: string, max: nat): string {
    if a == "" then b
    else if b == "" then a
    else if Contains(NormalizeOverlap(u, a), NormalizeOverlap(u, b)) then a
    else if Contains(NormalizeOverlap(u, b), NormalizeOverlap(u, a)) then b
    else Appended(u, a, NormalizeOverlap(u, a), Segments(b), max)
  }

  function MergedStory(u: Unicode, existing: string, incoming: string, max: nat): (story: string)
    ensures |story| <= max
  {
    Cut(Combined(u, Trim(existing), Trim(incoming), max), max)
  }

  method MergeStoryText(u: Unicode, existing: string, incoming: string, max: nat) returns (story: string)
    ensures story == MergedStory(u, existing, incoming, max)
  {
    var a, b := Trim(existing), Trim(incoming);
    if a == "" {
      return Cut(b, max);
    }
    if b == "" {
      return Cut(a, max);
    }
    var seen, offered := NormalizeOverlap(u, a), NormalizeOverlap(u, b);
    if Contains(seen, offered) {
      return Cut(a, max);
    }
    if Contains(offered, seen) {
      return Cut(b, max);
    }
    var merged := a;
    var segments := Segments(b);
    ghost var whole := Appended(u, a, seen, segments, max);
    var n := 0;
    while n < |segments|
      invariant 0 <= n <= |segments|
      invariant Appended(u, merged, seen, segments[n..], max) == whole
    {
      var normalized := NormalizeOverlap(u, segments[n]);
      assert segments[n..][0] == segments[n] && segments[n..][1..] == segments[n + 1..];
      if normalized != "" && !Contains(seen, normalized) {
        merged := merged + " • " + segments[n];
        seen := seen + " " + normalized;
        if |merged| >= max {
          return Cut(merged, max);
        }
      }
      n := n + 1;
    }
    return Cut(merged, max);
  }

  // ----- what a segment is --------------------------------------------------------

  /** `b[i..j]` holds no line feed and no end of a sentence, and one or an end of `b` stands on each side. */
  ghost predicate IsStretch(b: string, i: nat, j: nat) {
    && i <= j <= |b| && (forall k | i <= k < j :: b[k] !in {'\n', '.', '!', '?', ';'})
    && (i == 0 || b[i - 1] in {'\n', '.', '!', '?', ';'}) && (j == |b| || b[j] in {'\n', '.', '!', '?', ';'})
  }

  /** A stretch, trimmed, of at least 12 bytes. */
  ghost predicate IsSegment(b: string, s: string) {
    Utf8Len(s) >= 12 && exists i: nat, j: nat | IsStretch(b, i, j) :: Trim(b[i..j]) == s
  }

  function Breaks(): char -> bool {
    OneOf({'\n', '.', '!', '?', ';'})
  }

  lemma StretchIsListed(b: string, i: nat, j: nat)
    requires IsStretch(b, i, j)
    ensures Utf8Len(Trim(b[i..j])) >= 12 ==> Trim(b[i..j]) in Segments(b)
  {
    hide Trim, Utf8Len, Split, IsStretch;
    var pieces := Split(b, Breaks());
    StretchIsPiece(b, i, j);
    PieceStands(b, Breaks(), i, j);
    var n :| 0 <= n < |pieces| && pieces[n] == b[i..j];
    assert Map(pieces, Trim)[n] == Trim(b[i..j]);
    FilterKeeps(Map(pieces, Trim), LongEnough(), Trim(b[i..j]));
  }

  lemma ListedIsSegment(b: string, s: string)
    requires s in Segments(b)
    ensures IsSegment(b, s)
  {
    hide Trim, Utf8Len, Split, IsStretch;
    var pieces := Split(b, Breaks());
    FilterKeeps(Map(pieces, Trim), LongEnough(), s);
    var n :| 0 <= n < |pieces| && Map(pieces, Trim)[n] == s;
    var i, j := ListedIsPiece(b, Breaks(), n);
    StretchIsPiece(b, i, j);
    assert Trim(b[i..j]) == s;
  }

  lemma SegmentsAre(b: string)
    ensures forall s :: s in Segments(b) <==> IsSegment(b, s)
  {
    hide Trim, Utf8Len, Segments;
    forall s | s in Segments(b) ensures IsSegment(b, s) {
      ListedIsSegment(b, s);
    }
    forall i: nat, j: nat | IsStretch(b, i, j) ensures Utf8Len(Trim(b[i..j])) >= 12 ==> Trim(b[i..j]) in Segments(b) {
      StretchIsListed(b, i, j);
    }
  }

  lemma StretchIsPiece(b: string, i: nat, j: nat)
    ensures IsStretch(b, i, j) <==> IsPiece(b, Breaks(), i, j)
  {
  }

  /** In order: before a break and after it. With the next lemma this is all of what segments are. */
  lemma SegmentsAtBreak(x: string, c: char, y: string)
    requires c in {'\n', '.', '!', '?', ';'}
    ensures Segments(x + [c] + y) == Segments(x) + Segments(y)
  {
    hide Split, Trim, Filter;
    var a, b := Split(x, Breaks()), Split(y, Breaks());
    SplitAtBreak(x, c, y, Breaks());
    MapConcat(a, b, Trim);
    FilterConcat(Map(a, Trim), Map(b, Trim), LongEnough());
  }

  lemma SegmentsOfStretch(x: string)
    requires IsStretch(x, 0, |x|)
    ensures Segments(x) == if Utf8Len(Trim(x)) >= 12 then [Trim(x)] else []
  {
    hide Split, Trim, Filter, Utf8Len;
    NoBreak(x, Breaks());
    assert Map([x], Trim) == [Trim(x)];
    FilterFirst(Trim(x), [], LongEnough());
    FilterNothing(LongEnough());
    assert [Trim(x)] + [] == [Trim(x)];
  }

  /** The normal form is the words of the lower-cased text, in order and with single spaces between them; it
      is empty only for a text without words. */
  lemma NormalFormIs(u: Unicode, text: string)
    ensures Words(NormalizeOverlap(u, text)) == Words(u.lower(text))
    ensures NormalizeOverlap(u, text) == Join(Words(NormalizeOverlap(u, text)), " ")
    ensures NormalizeOverlap(u, text) != "" <==> exists k | 0 <= k < |u.lower(text)| :: !IsWhitespace(u.lower(text)[k])
  {
    hide Words, IsWhitespace;
    var lower := u.lower(text);
    WordsAreSolid(lower);
    WordsOfJoin(Words(lower));
    HasWordsIff(lower);
    if Words(lower) != [] {
      assert Words(lower)[0] in Words(lower);
    }
  }

  // ----- no new secrets ------------------------------------------------------------

  lemma SegmentsContained(incoming: string)
    ensures forall s | s in Segments(incoming) :: Contains(incoming, s)
  {
    var breaks := OneOf({'\n', '.', '!', '?', ';'});
    var pieces := Split(incoming, breaks);
    SplitContained(incoming, breaks);
    forall s | s in Segments(incoming) ensures Contains(incoming, s) {
      var i :| 0 <= i < |pieces| && Map(pieces, Trim)[i] == s;
      assert pieces[i] in pieces;
      TrimContained(pieces[i]);
      ContainsTransitive(incoming, pieces[i], s);
    }
  }

  lemma {:induction false} AppendedIsClean(u: Unicode, merged: string, seen: string, segments: seq<string>,
                                           max: nat, patterns: seq<string>)
    requires AllRobust(patterns) && Clean(merged, patterns)
    requires forall s | s in segments :: Clean(s, patterns)
    ensures Clean(Appended(u, merged, seen, segments, max), patterns)
    decreases segments
  {
    if segments == [] {
    } else {
      var normalized := NormalizeOverlap(u, segments[0]);
      var grown := merged + " • " + segments[0];
      assert segments[0] in segments;
      BulletJoinIsClean(merged, segments[0], patterns);
      AppendedIsClean(u, merged, seen, segments[1..], max, patterns);
      AppendedIsClean(u, grown, seen + " " + normalized, segments[1..], max, patterns);
    }
  }

  /** Merging two clean texts never creates an occurrence of a pattern: not by trimming, cutting, or
      joining with bullets. */
  lemma StoryIsClean(u: Unicode, existing: string, incoming: string, max: nat, patterns: seq<string>)
    requires AllRobust(patterns) && Clean(existing, patterns) && Clean(incoming, patterns)
    ensures Clean(MergedStory(u, existing, incoming, max), patterns)
  {
    var a, b := Trim(existing), Trim(incoming);
    TrimContained(existing);
    TrimContained(incoming);
    PartOfClean(existing, a, patterns);
    PartOfClean(incoming, b, patterns);
    SegmentsContained(b);
    forall s | s in Segments(b) ensures Clean(s, patterns) {
      PartOfClean(b, s, patterns);
    }
    AppendedIsClean(u, a, NormalizeOverlap(u, a), Segments(b), max, patterns);
    var whole := Combined(u, a, b, max);
    assert Clean(whole, patterns);
    PartOfClean(whole, Cut(whole, max), patterns);
  }

  // ----- bounded, and nothing forgotten ------------------------------------------------

  lemma {:induction false} AppendedExtends(u: Unicode, merged: string, seen: string, segments: seq<string>, max: nat)
    ensures StartsWith(Appended(u, merged, seen, segments, max), merged)
    decreases segments
  {
    if segments == [] {
    } else {
      var normalized := NormalizeOverlap(u, segments[0]);
      var grown := merged + " • " + segments[0];
      AppendedExtends(u, merged, seen, segments[1..], max);
      AppendedExtends(u, grown, seen + " " + normalized, segments[1..], max);
      assert grown[..|merged|] == merged;
      assert forall s: string | StartsWith(s, grown) :: s[..|merged|] == s[..|grown|][..|merged|];
    }
  }

  lemma CombinedKeepsFirst(u: Unicode, a: string, b: string, max: nat)
    requires a != ""
    ensures StartsWith(Combined(u, a, b, max), a) || Contains(NormalizeOverlap(u, b), NormalizeOverlap(u, a))
  {
    AppendedExtends(u, a, NormalizeOverlap(u, a), Segments(b), max);
  }

  /** The stored text survives a merge: it stays the beginning of the story, unless the incoming text
      already says all of it. */
  lemma StoryKeepsExisting(u: Unicode, existing: string, incoming: string, max: nat)
    requires Trim(existing) != "" && |Trim(existing)| <= max
    ensures StartsWith(MergedStory(u, existing, incoming, max), Trim(existing))
         || Contains(NormalizeOverlap(u, Trim(incoming)), NormalizeOverlap(u, Trim(existing)))
  {
    var a, b := Trim(existing), Trim(incoming);
    CombinedKeepsFirst(u, a, b, max);
    var whole := Combined(u, a, b, max);
    if StartsWith(whole, a) {
      CutKeepsStart(whole, a, max);
    }
  }

  lemma CutKeepsStart(whole: string, start: string, max: nat)
    requires StartsWith(whole, start) && |start| <= max
    ensures StartsWith(Cut(whole, max), start)
  {
    assert Cut(whole, max) == whole || Cut(whole, max) == whole[..max];
  }

  /** Merging a text with itself gives the text. */
  lemma SelfMergeIsIdentity(u: Unicode, text: string, max: nat)
    ensures MergedStory(u, text, text, max) == Cut(Trim(text), max)
  {
    var a := Trim(text);
    var n := NormalizeOverlap(u, a);
    SliceContained(n, 0, |n|);
    assert n[0..|n|] == n;
    assert Combined(u, a, a, max) == a;
  }

  /** The segments that the loop appends. */
  function Taken(u: Unicode, merged: string, seen: string, segments: seq<string>, max: nat): seq<string>
    decreases segments
  {
    if segments == [] then []
    else
      var normalized := NormalizeOverlap(u, segments[0]);
      if normalized == "" || Contains(seen, normalized) then Taken(u, merged, seen, segments[1..], max)
      else
        var grown := merged + " • " + segments[0];
        if |grown| >= max then [segments[0]]
        else [segments[0]] + Taken(u, grown, seen + " " + normalized, segments[1..], max)
  }

  /** A text followed by segments, each after a bullet. */
  function Bulleted(text: string, segments: seq<string>): string
    decreases segments
  {
    if segments == [] then text else Bulleted(text + " • " + segments[0], segments[1..])
  }

  /** What a text and the segments after it say, in normal form. */
  function Said(u: Unicode, seen: string, segments: seq<string>): string
    decreases segments
  {
    if segments == [] then seen else Said(u, seen + " " + NormalizeOverlap(u, segments[0]), segments[1..])
  }

  /** The story is the existing text and the segments taken, in their order. */
  lemma {:induction false} StoryIsBulleted(u: Unicode, merged: string, seen: string, segments: seq<string>, max: nat)
    ensures Appended(u, merged, seen, segments, max) == Bulleted(merged, Taken(u, merged, seen, segments, max))
    ensures forall s | s in Taken(u, merged, seen, segments, max) :: s in segments
    decreases segments
  {
    if segments == [] {
    } else {
      var grown, more := merged + " • " + segments[0], seen + " " + NormalizeOverlap(u, segments[0]);
      StoryIsBulleted(u, merged, seen, segments[1..], max);
      StoryIsBulleted(u, grown, more, segments[1..], max);
      var later := Taken(u, grown, more, segments[1..], max);
      assert ([segments[0]] + later)[1..] == later;
      assert Bulleted(grown, []) == grown && [segments[0]][1..] == [];
    }
  }

  lemma {:induction false} BulletedExtends(text: string, segments: seq<string>)
    ensures StartsWith(Bulleted(text, segments), text)
    decreases segments
  {
    if segments == [] {
    } else {
      var grown := text + " • " + segments[0];
      BulletedExtends(grown, segments[1..]);
      assert grown[..|text|] == text;
      var whole := Bulleted(text, segments);
      assert whole[..|text|] == whole[..|grown|][..|text|];
    }
  }

  /** Every bulleted segment stands in the story word for word. */
  lemma {:induction false} BulletedHolds(text: string, segments: seq<string>)
    ensures forall s | s in segments :: Contains(Bulleted(text, segments), s)
    decreases segments
  {
    if segments == [] {
    } else {
      var first := segments[0];
      var grown := text + " • " + first;
      BulletedHolds(grown, segments[1..]);
      BulletedExtends(grown, segments[1..]);
      SliceContained(grown, |text| + 3, |grown|);
      assert grown[|text| + 3..|grown|] == first;
      ContainedInExtension(Bulleted(grown, segments[1..]), grown, first);
      assert forall s :: s in segments <==> s == first || s in segments[1..];
    }
  }

  lemma {:induction false} SaidExtends(u: Unicode, seen: string, segments: seq<string>)
    ensures StartsWith(Said(u, seen, segments), seen)
    decreases segments
  {
    if segments == [] {
    } else {
      var more := seen + " " + NormalizeOverlap(u, segments[0]);
      SaidExtends(u, more, segments[1..]);
      assert more[..|seen|] == seen;
      var whole := Said(u, seen, segments);
      assert whole[..|seen|] == whole[..|more|][..|seen|];
    }
  }

  lemma ContainedInExtension(whole: string, start: string, needle: string)
    requires StartsWith(whole, start) && Contains(start, needle)
    ensures Contains(whole, needle)
  {
    SliceContained(whole, 0, |start|);
    assert whole[0..|start|] == start;
    ContainsTransitive(whole, start, needle);
  }

  lemma EmptyIsContained(s: string)
    ensures Contains(s, "")
  {
    assert OccursAt(s, "", 0);
  }

  /** The segment is among those taken, or the existing text and those taken say it already. */
  ghost predicate Told(u: Unicode, seen: string, taken: seq<string>, segment: string) {
    segment in taken || Contains(Said(u, seen, taken), NormalizeOverlap(u, segment))
  }

  lemma {:induction false} EverySegmentTold(u: Unicode, merged: string, seen: string, segments: seq<string>, max: nat)
    requires |Appended(u, merged, seen, segments, max)| < max
    ensures forall s | s in segments :: Told(u, seen, Taken(u, merged, seen, segments, max), s)
    decreases segments
  {
    if segments == [] {
    } else {
      var first, rest := segments[0], segments[1..];
      var normalized := NormalizeOverlap(u, first);
      var taken := Taken(u, merged, seen, segments, max);
      if normalized == "" || Contains(seen, normalized) {
        EverySegmentTold(u, merged, seen, rest, max);
        SaidExtends(u, seen, taken);
        EmptyIsContained(seen);
        ContainedInExtension(Said(u, seen, taken), seen, normalized);
      } else {
        var grown, more := merged + " • " + first, seen + " " + normalized;
        EverySegmentTold(u, grown, more, rest, max);
        var later := Taken(u, grown, more, rest, max);
        assert taken == [first] + later && taken[1..] == later;
        assert forall s | s in rest && Told(u, more, later, s) :: Told(u, seen, taken, s);
      }
      assert forall s :: s in segments <==> s == first || s in rest;
    }
  }

  /** The story is `a` and the segments taken from `b`, bulleted; each of those stands in it word for word, and
      the normal form of any other lies in that of `a` followed by those of the segments taken. */
  ghost predicate TellsEachSegment(u: Unicode, a: string, b: string, taken: seq<string>, story: string) {
    && story == Bulleted(a, taken)
    && (forall s | s in taken :: IsSegment(b, s) && Contains(story, s))
    && (forall s | IsSegment(b, s) ::
          Contains(story, s) || Contains(Said(u, NormalizeOverlap(u, a), taken), NormalizeOverlap(u, s)))
  }

  lemma AppendedTellsEachSegment(u: Unicode, a: string, b: string, max: nat)
    requires |Appended(u, a, NormalizeOverlap(u, a), Segments(b), max)| < max
    ensures var seen := NormalizeOverlap(u, a);
            TellsEachSegment(u, a, b, Taken(u, a, seen, Segments(b), max), Appended(u, a, seen, Segments(b), max))
  {
    hide Appended, Taken, Bulleted, Said, NormalizeOverlap, Segments, Contains, IsSegment;
    var seen, segments := NormalizeOverlap(u, a), Segments(b);
    SegmentsAre(b);
    StoryIsBulleted(u, a, seen, segments, max);
    BulletedHolds(a, Taken(u, a, seen, segments, max));
    EverySegmentTold(u, a, seen, segments, max);
    assert forall s | s in segments :: Told(u, seen, Taken(u, a, seen, segments, max), s);
  }

  lemma NothingHasNoSegments()
    ensures Segments("") == []
  {
    SegmentsOfStretch("");
    assert Trim("") == "" && Utf8Len("") == 0;
  }

  /** Nothing incoming is forgotten, unless the story filled up. The incoming text is the story; or the
      existing one is, and already said all of it; or the story tells each segment after the existing text. */
  lemma StoryTellsEverySegment(u: Unicode, existing: string, incoming: string, max: nat)
    requires |MergedStory(u, existing, incoming, max)| < max
    ensures var a, b, story := Trim(existing), Trim(incoming), MergedStory(u, existing, incoming, max);
            || (story == b && forall s | IsSegment(b, s) :: Contains(story, s))
            || (story == a && Contains(NormalizeOverlap(u, a), NormalizeOverlap(u, b)))
            || exists taken :: TellsEachSegment(u, a, b, taken, story)
  {
    hide Appended, Taken, Bulleted, Said, NormalizeOverlap, Segments, Contains, Trim, IsSegment;
    var a, b := Trim(existing), Trim(incoming);
    SegmentsAre(b);
    if a != "" && b == "" {
      NothingHasNoSegments();
      assert Bulleted(a, []) == a by {
        NothingBulleted(a);
      }
      assert TellsEachSegment(u, a, b, [], a);
    } else if Combined(u, a, b, max) == b {
      SegmentsContained(b);
    } else if !Contains(NormalizeOverlap(u, a), NormalizeOverlap(u, b)) {
      AppendedTellsEachSegment(u, a, b, max);
    }
  }

  lemma NothingBulleted(text: string)
    ensures Bulleted(text, []) == text
  {
  }
}
