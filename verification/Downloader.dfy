/** A resumable download: bytes go to a part file, and only verified bytes reach the destination. */
module Downloader {
  import opened Wrappers
  import opened Arithmetic
  import Text

  type Bytes = seq<bv8>

  /** The registry's promise about a file. */
  datatype Pin = Pin(sha256: string, size: nat)

  datatype Reply = Reply(status: nat, bytes: Bytes)

  /** One attempt's surroundings: what the server answers to a request for the whole file or for the bytes
      from an offset on, and after how many received bytes the attempt is interrupted, if it is. */
  datatype World = World(reply: Option<nat> -> Option<Reply>, cut: Option<nat>)

  datatype Files = Files(part: Option<Bytes>, dest: Option<Bytes>)

  datatype Outcome = Landed | HttpError | ResumeNotSupported | SizeMismatch | ChecksumMismatch | Interrupted

  const PARTIAL_CONTENT: nat := 206
  const BUFFER_SIZE: nat := 64 * 1024

  function PartLength(f: Files): nat {
    if f.part.Some? then |f.part.value| else 0
  }

  /** The offset to resume from. */
  function Resume(pin: Pin, f: Files): Option<nat> {
    if 0 < PartLength(f) < pin.size then Some(PartLength(f)) else None
  }

  predicate Matches(sha: Bytes -> string, pin: Pin, bytes: Bytes) {
    |bytes| == pin.size && Text.LowerAscii(sha(bytes)) == Text.LowerAscii(pin.sha256)
  }

  /** The files and the outcome of one attempt. */
  function Attempt(sha: Bytes -> string, pin: Pin, f: Files, w: World): (Files, Outcome) {
    var reply := w.reply(Resume(pin, f));
    if reply.None? then (f, HttpError)
    else if Resume(pin, f).Some? && reply.value.status != PARTIAL_CONTENT then (f.(part := None), ResumeNotSupported)
    else
      var base := if Resume(pin, f).Some? && f.part.Some? then f.part.value else [];
      var got := reply.value.bytes;
      if w.cut.Some? then (f.(part := Some(base + got[..Min(w.cut.value, |got|)])), Interrupted)
      else if |base + got| != pin.size then (f.(part := None), SizeMismatch)
      else if !Matches(sha, pin, base + got) then (f.(part := None), ChecksumMismatch)
      else (Files(None, Some(base + got)), Landed)
  }

  lemma AppendSlice(base: Bytes, body: Bytes, from: nat, to: nat)
    requires from <= to <= |body|
    ensures (base + body[..from]) + body[from..to] == base + body[..to]
  {
  }

  class Disk {
    var part: Option<Bytes>
    var dest: Option<Bytes>

    function Contents(): Files
      reads this
    {
      Files(part, dest)
    }

    method DownloadVerified(sha: Bytes -> string, pin: Pin, w: World) returns (outcome: Outcome)
      modifies this
      ensures (Contents(), outcome) == Attempt(sha, pin, old(Contents()), w)
    {
      var already := if part.Some? then |part.value| else 0;
      var body: Bytes;
      if 0 < already < pin.size {
        var reply := w.reply(Some(already));
        if reply.None? {
          return HttpError;
        }
        if reply.value.status != PARTIAL_CONTENT {
          part := None;
          return ResumeNotSupported;
        }
        body := reply.value.bytes;
      } else {
        var reply := w.reply(None);
        if reply.None? {
          return HttpError;
        }
        part := Some([]);
        body := reply.value.bytes;
      }
      ghost var base := part.value;
      var read := 0;
      assert base + body[..0] == base;
      while read < |body|
        invariant read <= |body| && part == Some(base + body[..read]) && dest == old(dest)
        invariant w.cut.Some? ==> read <= w.cut.value
      {
        var n :| 0 < n <= BUFFER_SIZE && n <= |body| - read;
        if w.cut.Some? && w.cut.value < read + n {
          part := Some(part.value + body[read..w.cut.value]);
          AppendSlice(base, body, read, w.cut.value);
          return Interrupted;
        }
        part := Some(part.value + body[read..read + n]);
        AppendSlice(base, body, read, read + n);
        read := read + n;
      }
      assert body[..read] == body;
      if w.cut.Some? {
        return Interrupted;
      }
      if |part.value| != pin.size {
        part := None;
        return SizeMismatch;
      }
      if Text.LowerAscii(sha(part.value)) != Text.LowerAscii(pin.sha256) {
        part := None;
        return ChecksumMismatch;
      }
      part, dest := None, part;
      return Landed;
    }
  }

  // ----- any number of attempts --------------------------------------------------------

  /** The files after the first `n` attempts. */
  function FilesAfter(sha: Bytes -> string, pin: Pin, f: Files, ws: seq<World>, n: nat): Files
    requires n <= |ws|
  {
    if n == 0 then f else Attempt(sha, pin, FilesAfter(sha, pin, f, ws, n - 1), ws[n - 1]).0
  }

  /** Whatever the servers send and wherever the attempts stop, the destination is the one there was or
      holds bytes of the pinned size and hash. */
  lemma {:induction false} DestinationIsVerified(sha: Bytes -> string, pin: Pin, f: Files, ws: seq<World>, n: nat)
    requires n <= |ws|
    ensures var dest := FilesAfter(sha, pin, f, ws, n).dest;
            dest == f.dest || (dest.Some? && |dest.value| == pin.size
                               && Text.LowerAscii(sha(dest.value)) == Text.LowerAscii(pin.sha256))
  {
    if n == 0 {
    } else {
      DestinationIsVerified(sha, pin, f, ws, n - 1);
    }
  }

  /** The server sends bytes of `body` only, from the offset asked for when it says so with a 206. A
      connection that ends early is a shorter reply. */
  ghost predicate Honest(w: World, body: Bytes) {
    && (w.reply(None).Some? ==> w.reply(None).value.bytes <= body)
    && forall from: nat :: HonestRange(w, body, from)
  }

  ghost predicate HonestRange(w: World, body: Bytes, from: nat) {
    var reply := w.reply(Some(from));
    reply.Some? && reply.value.status == 206 ==> from <= |body| && reply.value.bytes <= body[from..]
  }

  ghost predicate PartIsPrefix(f: Files, body: Bytes) {
    f.part.Some? ==> f.part.value <= body
  }

  lemma AttemptKeepsPrefix(sha: Bytes -> string, pin: Pin, f: Files, w: World, body: Bytes)
    requires Honest(w, body) && PartIsPrefix(f, body)
    ensures PartIsPrefix(Attempt(sha, pin, f, w).0, body)
    ensures Attempt(sha, pin, f, w).1.Landed? && |body| == pin.size ==>
              Attempt(sha, pin, f, w).0 == Files(None, Some(body))
  {
    var reply := w.reply(Resume(pin, f));
    if reply.Some? && (Resume(pin, f).None? || reply.value.status == PARTIAL_CONTENT) {
      assert HonestRange(w, body, PartLength(f));
      var base, got := if Resume(pin, f).Some? then f.part.value else [], reply.value.bytes;
      assert base + got <= body;
      assert forall k: nat | k <= |got| :: base + got[..k] <= body;
      assert |base + got| == |body| ==> base + got == body;
    }
  }

  /** With honest servers the part file is always a prefix of the body, over any interruptions. */
  lemma {:induction false} PartStaysAPrefix(sha: Bytes -> string, pin: Pin, f: Files, ws: seq<World>, n: nat,
                                            body: Bytes)
    requires n <= |ws| && PartIsPrefix(f, body) && forall w | w in ws :: Honest(w, body)
    ensures PartIsPrefix(FilesAfter(sha, pin, f, ws, n), body)
  {
    if n == 0 {
    } else {
      PartStaysAPrefix(sha, pin, f, ws, n - 1, body);
      AttemptKeepsPrefix(sha, pin, FilesAfter(sha, pin, f, ws, n - 1), ws[n - 1], body);
    }
  }

  /** An attempt that completes lands exactly the body, after any interrupted ones. */
  lemma CompletedAttemptLandsTheBody(sha: Bytes -> string, pin: Pin, f: Files, ws: seq<World>, body: Bytes)
    requires ws != [] && PartIsPrefix(f, body) && forall w | w in ws :: Honest(w, body)
    requires |body| == pin.size
    requires var n := |ws| - 1; Attempt(sha, pin, FilesAfter(sha, pin, f, ws, n), ws[n]).1 == Landed
    ensures FilesAfter(sha, pin, f, ws, |ws|) == Files(None, Some(body))
  {
    var n := |ws| - 1;
    PartStaysAPrefix(sha, pin, f, ws, n, body);
    AttemptKeepsPrefix(sha, pin, FilesAfter(sha, pin, f, ws, n), ws[n], body);
  }

  /** The server answers, in full, and nothing interrupts the attempt. */
  ghost predicate Undisturbed(w: World, body: Bytes) {
    && w.cut.None?
    && w.reply(None).Some? && w.reply(None).value.bytes == body
    && forall from: nat | from <= |body| :: FullRange(w, body, from)
  }

  ghost predicate FullRange(w: World, body: Bytes, from: nat)
    requires from <= |body|
  {
    var reply := w.reply(Some(from));
    reply.Some? && (reply.value.status == 206 ==> reply.value.bytes == body[from..])
  }

  /** There is nothing to resume: no part file, an empty one, or one that is already too long. */
  ghost predicate StartsOver(pin: Pin, f: Files) {
    f.part.None? || |f.part.value| == 0 || |f.part.value| >= pin.size
  }

  lemma ResumesIff(pin: Pin, f: Files)
    ensures Resume(pin, f) == if StartsOver(pin, f) then None else Some(|f.part.value|)
  {
  }

  /** An interrupted attempt keeps what was there, if it resumed, and everything received before the cut. */
  lemma NothingReceivedIsLost(sha: Bytes -> string, pin: Pin, f: Files, w: World, got: Bytes, cut: nat)
    requires w.cut == Some(cut) && w.reply(Resume(pin, f)).Some? && w.reply(Resume(pin, f)).value.bytes == got
    requires StartsOver(pin, f) || w.reply(Resume(pin, f)).value.status == 206
    ensures Attempt(sha, pin, f, w)
         == (Files(Some((if StartsOver(pin, f) then [] else f.part.value) + if cut < |got| then got[..cut] else got),
                   f.dest), Interrupted)
  {
    assert got[..|got|] == got;
  }

  /** A failed attempt leaves the destination, and no part file unless the server did not answer at all. */
  lemma FailuresLeave(sha: Bytes -> string, pin: Pin, f: Files, w: World)
    ensures var (after, outcome) := Attempt(sha, pin, f, w);
            && (outcome != Landed ==> after.dest == f.dest)
            && (outcome.HttpError? ==> after == f && w.reply(Resume(pin, f)).None?)
            && (outcome in {ResumeNotSupported, SizeMismatch, ChecksumMismatch, Landed} ==> after.part.None?)
            && (outcome.ResumeNotSupported? <==>
                  !StartsOver(pin, f) && w.reply(Resume(pin, f)).Some? && w.reply(Resume(pin, f)).value.status != 206)
  {
  }

  ghost predicate ResumedFromPrefix(pin: Pin, f: Files, w: World, body: Bytes) {
    var reply := w.reply(Resume(pin, f));
    f.part.Some? && f.part.value <= body && reply.Some? && reply.value.status == 206
  }

  lemma FromScratch(sha: Bytes -> string, pin: Pin, f: Files, w: World, body: Bytes)
    requires Matches(sha, pin, body) && Undisturbed(w, body) && Resume(pin, f).None?
    ensures Attempt(sha, pin, f, w) == (Files(None, Some(body)), Landed)
  {
    assert [] + body == body;
  }

  lemma Resumed(sha: Bytes -> string, pin: Pin, f: Files, w: World, body: Bytes)
    requires Matches(sha, pin, body) && Undisturbed(w, body) && Resume(pin, f).Some?
    ensures var attempt := Attempt(sha, pin, f, w);
            && (attempt.1 == Landed || attempt.0.part.None?)
            && (attempt == (Files(None, Some(body)), Landed) <==> ResumedFromPrefix(pin, f, w, body))
  {
    var base := f.part.value;
    assert Resume(pin, f) == Some(|base|) && FullRange(w, body, |base|);
    var all := base + body[|base|..];
    assert all[..|base|] == base;
    if base <= body {
      assert all == body;
    }
  }

  /** From any files at all, even a part file of foreign bytes, two undisturbed attempts land the body; one
      is enough exactly when the part file is not resumed, or is resumed by the server and is a prefix. */
  lemma TwoAttemptsSuffice(sha: Bytes -> string, pin: Pin, f: Files, first: World, second: World, body: Bytes)
    requires Matches(sha, pin, body) && Undisturbed(first, body) && Undisturbed(second, body)
    ensures var once := Attempt(sha, pin, f, first);
            && (once.1 == Landed || Attempt(sha, pin, once.0, second) == (Files(None, Some(body)), Landed))
            && (once == (Files(None, Some(body)), Landed) <==>
                  StartsOver(pin, f) || ResumedFromPrefix(pin, f, first, body))
  {
    ResumesIff(pin, f);
    if Resume(pin, f).None? {
      FromScratch(sha, pin, f, first, body);
    } else {
      Resumed(sha, pin, f, first, body);
      var once := Attempt(sha, pin, f, first);
      if once.1 != Landed {
        FromScratch(sha, pin, once.0, second, body);
      }
    }
  }
}
