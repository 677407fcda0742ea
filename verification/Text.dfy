/**
 Text primitives. A text is a sequence of Unicode scalar values, so `|s|` counts what the source
 counts with `chars().count()`; `Utf8Len` is what it counts with `len()`.
 */
module Text {
  import opened Wrappers

  /** What the standard library's Unicode tables decide. They are arguments of the model; the only
      facts used are that the underscore and the colon are not alphanumeric. */
  datatype Tables = Tables(lower: string -> string, alphanumeric: char -> bool)

  type Unicode = u: Tables | !u.alphanumeric('_') && !u.alphanumeric(':')
    witness Tables((s: string) => s, (c: char) => false)

  /** The White_Space property, which `trim` and `split_whitespace` use. */
  predicate IsWhitespace(c: char) {
    || '\t' <= c <= '\r' || c == ' ' || c == '\U{85}' || c == '\U{A0}' || c == '\U{1680}'
    || '\U{2000}' <= c <= '\U{200A}' || c == '\U{2028}' || c == '\U{2029}' || c == '\U{202F}'
    || c == '\U{205F}' || c == '\U{3000}'
  }

  /** The White_Space property, listed. */
  lemma WhitespaceIs(c: char)
    ensures IsWhitespace(c) <==>
              c in {'\t', '\n', '\U{B}', '\U{C}', '\r', ' ', '\U{85}', '\U{A0}', '\U{1680}', '\U{2000}', '\U{2001}',
                    '\U{2002}', '\U{2003}', '\U{2004}', '\U{2005}', '\U{2006}', '\U{2007}', '\U{2008}', '\U{2009}',
                    '\U{200A}', '\U{2028}', '\U{2029}', '\U{202F}', '\U{205F}', '\U{3000}'}
  {
  }

  function Utf8Len(s: string): (n: nat)
    ensures |s| <= n
  {
    if s == [] then 0
    else
      (if s[0] < '\U{80}' then 1 else if s[0] < '\U{800}' then 2 else if s[0] < '\U{10000}' then 3 else 4)
      + Utf8Len(s[1..])
  }

  // ----- occurrence ------------------------------------------------------

  predicate OccursAt(hay: string, needle: string, i: nat) {
    i + |needle| <= |hay| && hay[i..i + |needle|] == needle
  }

  /** `hay.contains(needle)`: the needle is a contiguous part of the hay. */
  predicate Contains(hay: string, needle: string) {
    exists i: nat | i <= |hay| :: OccursAt(hay, needle, i)
  }

  lemma SliceContained(hay: string, a: nat, b: nat)
    requires a <= b <= |hay|
    ensures Contains(hay, hay[a..b])
  {
    assert OccursAt(hay, hay[a..b], a);
  }

  lemma ContainsTransitive(a: string, b: string, c: string)
    requires Contains(a, b) && Contains(b, c)
    ensures Contains(a, c)
  {
    var i: nat :| i <= |a| && OccursAt(a, b, i);
    var j: nat :| j <= |b| && OccursAt(b, c, j);
    forall k | 0 <= k < |c| ensures a[i + j + k] == c[k] {
      assert a[i..i + |b|][j + k] == a[i + j + k] && b[j..j + |c|][k] == b[j + k];
    }
    assert a[i + j..i + j + |c|] == c;
    assert OccursAt(a, c, i + j);
  }

  lemma ContainsExtends(pre: string, mid: string, post: string, needle: string)
    requires Contains(mid, needle)
    ensures Contains(pre + mid + post, needle)
  {
    var all := pre + mid + post;
    assert all[|pre|..|pre| + |mid|] == mid;
    SliceContained(all, |pre|, |pre| + |mid|);
    ContainsTransitive(all, mid, needle);
  }

  /** A needle with a letter the hay lacks does not occur in it. */
  lemma MissingLetter(hay: string, needle: string, c: char)
    requires c in needle && c !in hay
    ensures !Contains(hay, needle)
  {
    var k :| 0 <= k < |needle| && needle[k] == c;
    forall i: nat | i <= |hay| ensures !OccursAt(hay, needle, i) {
      assert i + |needle| <= |hay| ==> hay[i..i + |needle|][k] == hay[i + k] != c;
    }
  }

  /** Putting a letter the needle lacks between two texts creates no occurrence. */
  lemma BarrierSplits(a: string, c: char, b: string, needle: string)
    requires c !in needle && needle != []
    requires Contains(a + [c] + b, needle)
    ensures Contains(a, needle) || Contains(b, needle)
  {
    var hay := a + [c] + b;
    var i: nat :| i <= |hay| && OccursAt(hay, needle, i);
    assert hay[|a|] == c;
    forall x | i <= x < i + |needle| ensures hay[x] != c {
      assert hay[x] == hay[i..i + |needle|][x - i] == needle[x - i];
    }
    if i + |needle| <= |a| {
      assert a[i..i + |needle|] == hay[i..i + |needle|];
      assert OccursAt(a, needle, i);
    } else {
      assert b[i - |a| - 1..i - |a| - 1 + |needle|] == hay[i..i + |needle|];
      assert OccursAt(b, needle, i - |a| - 1);
    }
  }

  /** A letter appended after a text makes no occurrence of a needle that does not end with it. */
  lemma TrailingSplits(a: string, c: char, needle: string)
    requires needle != [] && needle[|needle| - 1] != c
    requires Contains(a + [c], needle)
    ensures Contains(a, needle)
  {
    var hay := a + [c];
    var i: nat :| i <= |hay| && OccursAt(hay, needle, i);
    assert hay[i..i + |needle|][|needle| - 1] == hay[i + |needle| - 1];
    assert a[i..i + |needle|] == hay[i..i + |needle|];
    assert OccursAt(a, needle, i);
  }

  lemma LeadingSplits(c: char, b: string, needle: string)
    requires needle != [] && needle[0] != c
    requires Contains([c] + b, needle)
    ensures Contains(b, needle)
  {
    var hay := [c] + b;
    var i: nat :| i <= |hay| && OccursAt(hay, needle, i);
    assert hay[i..i + |needle|][0] == hay[i];
    assert b[i - 1..i - 1 + |needle|] == hay[i..i + |needle|];
    assert OccursAt(b, needle, i - 1);
  }

  // ----- ASCII lower case -------------------------------------------------

  function LowerAsciiChar(c: char): char {
    if 'A' <= c <= 'Z' then c - 'A' + 'a' else c
  }

  function LowerAscii(s: string): (r: string)
    ensures |r| == |s|
    ensures forall i | 0 <= i < |s| :: r[i] == LowerAsciiChar(s[i])
  {
    seq(|s|, i requires 0 <= i < |s| => LowerAsciiChar(s[i]))
  }

  lemma LowerAsciiContains(hay: string, part: string)
    requires Contains(hay, part)
    ensures Contains(LowerAscii(hay), LowerAscii(part))
  {
    var i: nat :| i <= |hay| && OccursAt(hay, part, i);
    assert LowerAscii(hay)[i..i + |part|] == LowerAscii(part) by {
      forall k | 0 <= k < |part| ensures LowerAscii(hay)[i + k] == LowerAscii(part)[k] {
        assert hay[i..i + |part|][k] == hay[i + k];
      }
    }
    assert OccursAt(LowerAscii(hay), LowerAscii(part), i);
  }

  lemma LowerAsciiLetters()
    ensures LowerAscii("ABCDEFGHIJKLMNOPQRSTUVWXYZ") == "abcdefghijklmnopqrstuvwxyz"
    ensures forall c: char | !('A' <= c <= 'Z') :: LowerAscii([c]) == [c]
  {
  }

  lemma LowerAsciiConcat(a: string, b: string)
    ensures LowerAscii(a + b) == LowerAscii(a) + LowerAscii(b)
  {
  }

  // ----- trimming and cutting ----------------------------------------------

  function TrimStart(s: string): (r: string)
    ensures |r| <= |s| && r == s[|s| - |r|..]
    ensures r != [] ==> !IsWhitespace(r[0])
    ensures forall i | 0 <= i < |s| - |r| :: IsWhitespace(s[i])
  {
    if s != [] && IsWhitespace(s[0]) then TrimStart(s[1..]) else s
  }

  function TrimEnd(s: string): (r: string)
    ensures |r| <= |s| && r == s[..|r|]
    ensures r != [] ==> !IsWhitespace(r[|r| - 1])
    ensures forall i | |r| <= i < |s| :: IsWhitespace(s[i])
  {
    if s != [] && IsWhitespace(s[|s| - 1]) then TrimEnd(s[..|s| - 1]) else s
  }

  function Trim(s: string): (r: string)
    ensures |r| <= |s|
    ensures r != [] ==> !IsWhitespace(r[0]) && !IsWhitespace(r[|r| - 1])
  {
    TrimEnd(TrimStart(s))
  }

  /** Only whitespace goes, and only from the ends. */
  lemma TrimTakesSpace(s: string) returns (i: nat, j: nat)
    ensures i <= j <= |s| && Trim(s) == s[i..j]
    ensures forall k | 0 <= k < i || j <= k < |s| :: IsWhitespace(s[k])
  {
    hide IsWhitespace, TrimStart, TrimEnd;
    var t := TrimStart(s);
    i := |s| - |t|;
    j := i + |Trim(s)|;
    assert Trim(s) == t[..j - i];
    assert forall k | i <= k < |s| :: s[k] == t[k - i];
  }

  lemma TrimContained(s: string)
    ensures Contains(s, Trim(s))
  {
    var t := TrimStart(s);
    var k := |s| - |t|;
    assert Trim(s) == s[k..k + |Trim(s)|];
    SliceContained(s, k, k + |Trim(s)|);
  }

  lemma TrimKeepsOut(s: string, c: char)
    requires c !in s
    ensures c !in Trim(s)
  {
  }

  /** `trim_chars`: the first `max` scalar values. */
  function Cut(s: string, max: nat): (r: string)
    ensures |r| <= max && |r| <= |s|
    ensures r == if |s| > max then s[..max] else s
    ensures Contains(s, r)
  {
    var r := if |s| > max then s[..max] else s;
    SliceContained(s, 0, |r|);
    assert s[0..|r|] == r;
    r
  }

  // ----- splitting and joining ----------------------------------------------

  /** The position of the first letter with property `f`, or the length. */
  function Find(s: string, f: char -> bool): (i: nat)
    ensures i <= |s|
    ensures forall k | 0 <= k < i :: !f(s[k])
    ensures i < |s| ==> f(s[i])
  {
    if s == [] || f(s[0]) then 0 else 1 + Find(s[1..], f)
  }

  /** `Find` is the only position with those two properties. */
  lemma FindUnique(s: string, f: char -> bool, i: nat)
    requires i <= |s|
    requires forall k | 0 <= k < i :: !f(s[k])
    requires i < |s| ==> f(s[i])
    ensures Find(s, f) == i
  {
  }

  function Until(s: string, f: char -> bool): string {
    s[..Find(s, f)]
  }

  /** `split`: the pieces between the letters with property `f`; always at least one. */
  function Split(s: string, f: char -> bool): (pieces: seq<string>)
    ensures pieces != []
    ensures forall p | p in pieces :: forall c | c in p :: !f(c)
    decreases |s|
  {
    var i := Find(s, f);
    if i == |s| then [s] else [s[..i]] + Split(s[i + 1..], f)
  }

  lemma {:induction false} SplitContained(s: string, f: char -> bool)
    ensures forall p | p in Split(s, f) :: Contains(s, p)
    decreases |s|
  {
    var i := Find(s, f);
    if i == |s| {
      SliceContained(s, 0, |s|);
      assert s[0..|s|] == s;
    } else {
      SliceContained(s, 0, i);
      assert s[0..i] == s[..i];
      SliceContained(s, i + 1, |s|);
      assert s[i + 1..|s|] == s[i + 1..];
      SplitContained(s[i + 1..], f);
      forall p | p in Split(s[i + 1..], f) ensures Contains(s, p) {
        ContainsTransitive(s, s[i + 1..], p);
      }
    }
  }

  lemma NoBreak(s: string, f: char -> bool)
    requires forall k | 0 <= k < |s| :: !f(s[k])
    ensures Split(s, f) == [s]
  {
    FindUnique(s, f, |s|);
  }

  lemma FirstBreak(s: string, f: char -> bool, i: nat)
    requires i < |s| && f(s[i]) && forall k | 0 <= k < i :: !f(s[k])
    ensures Split(s, f) == [s[..i]] + Split(s[i + 1..], f)
  {
    FindUnique(s, f, i);
  }

  /** A break separates what stands before it from what stands after it. With `NoBreak` this is all of `split`. */
  lemma {:induction false} SplitAtBreak(x: string, c: char, y: string, f: char -> bool)
    requires f(c)
    ensures Split(x + [c] + y, f) == Split(x, f) + Split(y, f)
    decreases |x|
  {
    hide Split, Find;
    var s, i := x + [c] + y, Find(x, f);
    assert forall k | 0 <= k < i :: s[k] == x[k];
    FirstBreak(s, f, i);
    assert s[..i] == x[..i];
    if i == |x| {
      NoBreak(x, f);
      assert s[i + 1..] == y && x[..i] == x;
    } else {
      FirstBreak(x, f, i);
      SplitAtBreak(x[i + 1..], c, y, f);
      assert s[i + 1..] == x[i + 1..] + [c] + y;
    }
  }

  /** `s[i..j]` has no break in it, and a break or an end of `s` on each side. */
  ghost predicate IsPiece(s: string, f: char -> bool, i: nat, j: nat) {
    && i <= j <= |s| && (forall k | i <= k < j :: !f(s[k]))
    && (i == 0 || f(s[i - 1])) && (j == |s| || f(s[j]))
  }

  lemma PieceStands(s: string, f: char -> bool, i: nat, j: nat)
    requires IsPiece(s, f, i, j)
    ensures s[i..j] in Split(s, f)
  {
    hide Split;
    var last := s[i..];
    PieceStarts(s, f, i, j);
    assert s == s[..i] + last;
    if i > 0 {
      assert s == s[..i - 1] + [s[i - 1]] + last;
      SplitAtBreak(s[..i - 1], s[i - 1], last, f);
    }
  }

  lemma PieceStarts(s: string, f: char -> bool, i: nat, j: nat)
    requires IsPiece(s, f, i, j)
    ensures s[i..j] in Split(s[i..], f)
  {
    hide Split;
    var last, piece := s[i..], s[i..j];
    assert last[..j - i] == piece && forall k | 0 <= k < j - i :: last[k] == s[i + k];
    if j == |s| {
      NoBreak(last, f);
      assert last == piece;
    } else {
      FirstBreak(last, f, j - i);
    }
  }

  lemma {:induction false} ListedIsPiece(s: string, f: char -> bool, n: nat) returns (i: nat, j: nat)
    requires n < |Split(s, f)|
    ensures IsPiece(s, f, i, j) && Split(s, f)[n] == s[i..j]
    decreases |s|
  {
    hide Split, Find;
    var m := Find(s, f);
    if m == |s| {
      NoBreak(s, f);
      i, j := 0, m;
      assert s[0..m] == s;
    } else {
      FirstBreak(s, f, m);
      if n == 0 {
        i, j := 0, m;
      } else {
        var a, b := ListedIsPiece(s[m + 1..], f, n - 1);
        i, j := PieceOfRest(s, f, m + 1, a, b);
      }
    }
  }

  lemma PieceOfRest(s: string, f: char -> bool, from: nat, a: nat, b: nat) returns (i: nat, j: nat)
    requires 0 < from <= |s| && f(s[from - 1]) && IsPiece(s[from..], f, a, b)
    ensures IsPiece(s, f, i, j) && s[i..j] == s[from..][a..b]
  {
    i, j := from + a, from + b;
    var rest := s[from..];
    assert forall k | 0 <= k < |rest| :: rest[k] == s[from + k];
    assert forall k | i <= k < j :: s[k] == rest[k - from];
  }

  function Is(c: char): char -> bool { x => x == c }

  function OneOf(cs: set<char>): char -> bool { x => x in cs }

  function Join(parts: seq<string>, sep: string): string {
    if parts == [] then ""
    else if |parts| == 1 then parts[0]
    else parts[0] + sep + Join(parts[1..], sep)
  }

  /** Joining with a separator that no part contains loses nothing. */
  lemma {:induction false} SplitOfJoin(parts: seq<string>, c: char)
    requires parts != []
    requires forall p | p in parts :: c !in p
    ensures Split(Join(parts, [c]), Is(c)) == parts
  {
    var s := Join(parts, [c]);
    if |parts| == 1 {
      assert parts == [s] && s in parts;
      assert forall k | 0 <= k < |s| :: s[k] in s;
      NoBreak(s, Is(c));
    } else {
      var rest := Join(parts[1..], [c]);
      assert s == parts[0] + [c] + rest;
      assert s[|parts[0]|] == c;
      var i := |parts[0]|;
      assert forall k | 0 <= k < i :: s[k] == parts[0][k] && parts[0][k] in parts[0];
      FindUnique(s, Is(c), i);
      assert s[..i] == parts[0] && s[i + 1..] == rest;
      SplitOfJoin(parts[1..], c);
    }
  }

  lemma {:induction false} JoinOfSplit(s: string, c: char)
    ensures Join(Split(s, Is(c)), [c]) == s
    decreases |s|
  {
    var i := Find(s, Is(c));
    if i < |s| {
      JoinOfSplit(s[i + 1..], c);
      assert Split(s, Is(c))[1..] == Split(s[i + 1..], Is(c));
      assert s == s[..i] + [c] + s[i + 1..];
    }
  }

  lemma {:induction false} JoinKeepsOut(parts: seq<string>, sep: string, c: char)
    requires c !in sep
    requires forall p | p in parts :: c !in p
    ensures c !in Join(parts, sep)
  {
    if |parts| > 1 {
      JoinKeepsOut(parts[1..], sep, c);
    }
  }

  /** Joining with a one-letter separator the needle lacks creates no occurrence. */
  lemma {:induction false} JoinOccurrence(parts: seq<string>, c: char, needle: string)
    requires needle != [] && c !in needle
    requires Contains(Join(parts, [c]), needle)
    ensures exists p | p in parts :: Contains(p, needle)
  {
    if parts == [] {
      assert false;
    } else if |parts| == 1 {
      assert Contains(parts[0], needle);
    } else {
      BarrierSplits(parts[0], c, Join(parts[1..], [c]), needle);
      if Contains(parts[0], needle) {
        assert parts[0] in parts;
      } else {
        JoinOccurrence(parts[1..], c, needle);
        var p :| p in parts[1..] && Contains(p, needle);
        assert p in parts;
      }
    }
  }

  function Filter(parts: seq<string>, keep: string -> bool): (r: seq<string>)
    ensures forall p | p in r :: p in parts && keep(p)
  {
    if parts == [] then []
    else (if keep(parts[0]) then [parts[0]] else []) + Filter(parts[1..], keep)
  }

  lemma {:induction false} FilterKeeps(parts: seq<string>, keep: string -> bool, p: string)
    ensures p in Filter(parts, keep) <==> p in parts && keep(p)
  {
    if parts == [] {
    } else {
      FilterKeeps(parts[1..], keep, p);
      assert p in parts <==> p == parts[0] || p in parts[1..];
    }
  }

  lemma FilterFirst(x: string, rest: seq<string>, keep: string -> bool)
    ensures Filter([x] + rest, keep) == (if keep(x) then [x] else []) + Filter(rest, keep)
  {
    assert ([x] + rest)[1..] == rest;
  }

  lemma {:induction false} FilterConcat(a: seq<string>, b: seq<string>, keep: string -> bool)
    ensures Filter(a + b, keep) == Filter(a, keep) + Filter(b, keep)
  {
    hide Filter;
    if a == [] {
      assert a + b == b;
      FilterNothing(keep);
    } else {
      var x, rest := a[0], a[1..];
      FilterConcat(rest, b, keep);
      assert a == [x] + rest && a + b == [x] + (rest + b);
      FilterFirst(x, rest, keep);
      FilterFirst(x, rest + b, keep);
    }
  }

  lemma FilterNothing(keep: string -> bool)
    ensures Filter([], keep) == []
  {
  }

  function NotEmpty(): string -> bool {
    s => s != ""
  }

  /** `split_whitespace`. */
  function Words(s: string): seq<string> {
    Filter(Split(s, IsWhitespace), NotEmpty())
  }

  lemma OneWord(s: string)
    requires forall k | 0 <= k < |s| :: !IsWhitespace(s[k])
    ensures Words(s) == if s == "" then [] else [s]
  {
    NoBreak(s, IsWhitespace);
    assert [s][1..] == [] && (NotEmpty()(s) <==> s != "");
    assert Filter([], NotEmpty()) == [];
  }

  /** With `OneWord` this is all of `split_whitespace`. */
  lemma WordsAtSpace(x: string, c: char, y: string)
    requires IsWhitespace(c)
    ensures Words(x + [c] + y) == Words(x) + Words(y)
  {
    SplitAtBreak(x, c, y, IsWhitespace);
    FilterConcat(Split(x, IsWhitespace), Split(y, IsWhitespace), NotEmpty());
  }

  /** The words have letters, and none of them is whitespace. */
  lemma WordsAreSolid(s: string)
    ensures forall w | w in Words(s) :: w != "" && forall c | c in w :: !IsWhitespace(c)
  {
    forall w | w in Words(s) ensures w != "" && forall c | c in w :: !IsWhitespace(c) {
      assert NotEmpty()(w);
    }
  }

  /** A text has words exactly when something in it is not whitespace. */
  lemma {:induction false} HasWordsIff(s: string)
    ensures Words(s) != [] <==> exists k | 0 <= k < |s| :: !IsWhitespace(s[k])
    decreases |s|
  {
    hide Words, IsWhitespace;
    var i := Find(s, IsWhitespace);
    if i == |s| {
      OneWord(s);
    } else {
      assert s == s[..i] + [s[i]] + s[i + 1..];
      WordsAtSpace(s[..i], s[i], s[i + 1..]);
      OneWord(s[..i]);
      HasWordsIff(s[i + 1..]);
      if i > 0 {
        assert !IsWhitespace(s[0]);
      }
      if k :| 0 <= k < |s| && !IsWhitespace(s[k]) {
        assert k > i ==> s[i + 1..][k - i - 1] == s[k];
      }
    }
  }

  /** Joining words with single spaces keeps them. */
  lemma {:induction false} WordsOfJoin(words: seq<string>)
    requires forall w | w in words :: w != "" && forall c | c in w :: !IsWhitespace(c)
    ensures Words(Join(words, " ")) == words
  {
    hide Words;
    if words == [] {
      OneWord("");
    } else {
      assert words[0] in words && forall k | 0 <= k < |words[0]| :: words[0][k] in words[0];
      OneWord(words[0]);
      if |words| == 1 {
        assert words == [words[0]];
      } else {
        assert forall w | w in words[1..] :: w in words;
        WordsOfJoin(words[1..]);
        assert IsWhitespace(' ');
        WordsAtSpace(words[0], ' ', Join(words[1..], " "));
        assert words == [words[0]] + words[1..];
      }
    }
  }

  function Map(parts: seq<string>, f: string -> string): (r: seq<string>)
    ensures |r| == |parts|
    ensures forall i | 0 <= i < |parts| :: r[i] == f(parts[i])
  {
    seq(|parts|, i requires 0 <= i < |parts| => f(parts[i]))
  }

  lemma MapConcat(a: seq<string>, b: seq<string>, f: string -> string)
    ensures Map(a + b, f) == Map(a, f) + Map(b, f)
  {
  }

  function Take(parts: seq<string>, n: nat): (r: seq<string>)
    ensures |r| <= n && forall p | p in r :: p in parts
  {
    if |parts| > n then parts[..n] else parts
  }
}
