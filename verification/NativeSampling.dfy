/** The 9 by 8 raster taken from a native frame before hashing: index arithmetic without overflow. */
module NativeSampling {
  import opened Wrappers
  import opened Arithmetic

  const SAMPLE_WIDTH: nat := 9
  const SAMPLE_HEIGHT: nat := 8
  const SAMPLE_PIXEL_BYTES: nat := 4
  const SAMPLE_BYTES: nat := SAMPLE_WIDTH * SAMPLE_HEIGHT * SAMPLE_PIXEL_BYTES

  /** The source coordinate of sample `k` of `samples` along an axis of `length` pixels. */
  function Scale(k: nat, length: nat, samples: nat): nat
    requires length > 0 && samples > 1
  {
    k * (length - 1) / (samples - 1)
  }

  function SourceOffset(width: nat, height: nat, x: nat, y: nat): nat
    requires width > 0 && height > 0
  {
    (Scale(y, height, SAMPLE_HEIGHT) * width + Scale(x, width, SAMPLE_WIDTH)) * SAMPLE_PIXEL_BYTES
  }

  /** The product in the size guard, if every step of it fits in a machine word. */
  function CheckedLength(word: nat, width: nat, height: nat): Option<nat> {
    if width * height >= word || width * height * SAMPLE_PIXEL_BYTES >= word then None
    else Some(width * height * SAMPLE_PIXEL_BYTES)
  }

  predicate Accepts(word: nat, width: nat, height: nat, available: nat) {
    && CheckedLength(word, width, height).Some?
    && width >= SAMPLE_WIDTH && height >= SAMPLE_HEIGHT && available >= CheckedLength(word, width, height).value
  }

  predicate IsAxis(samples: nat) {
    samples == SAMPLE_WIDTH || samples == SAMPLE_HEIGHT
  }

  lemma ScaleBounds(k: nat, length: nat, samples: nat)
    requires length > 0 && IsAxis(samples) && k < samples
    ensures Scale(k, length, samples) <= length - 1
    ensures Scale(0, length, samples) == 0 && Scale(samples - 1, length, samples) == length - 1
  {
    var m := length - 1;
    Times(k, samples - 1, m);
    if samples == SAMPLE_WIDTH {
      assert k * m <= 8 * m && Scale(k, length, samples) == k * m / 8;
    } else {
      assert k * m <= 7 * m && Scale(k, length, samples) == k * m / 7;
    }
  }

  lemma ScaleStep(k: nat, length: nat, samples: nat)
    requires IsAxis(samples) && length >= samples
    ensures Scale(k + 1, length, samples) >= Scale(k, length, samples) + 1
  {
    var m := length - 1;
    var p, q := k * m, (k + 1) * m;
    assert q == p + m;
    if samples == SAMPLE_WIDTH {
      assert Scale(k, length, samples) == p / 8 && Scale(k + 1, length, samples) == q / 8;
    } else {
      assert Scale(k, length, samples) == p / 7 && Scale(k + 1, length, samples) == q / 7;
    }
  }

  /** Along an axis at least as long as the sample, distinct samples read distinct coordinates, in order. */
  lemma {:induction false} ScaleIsStrict(j: nat, k: nat, length: nat, samples: nat)
    requires j < k && IsAxis(samples) && length >= samples
    ensures Scale(j, length, samples) < Scale(k, length, samples)
  {
    ScaleStep(k - 1, length, samples);
    if j < k - 1 {
      ScaleIsStrict(j, k - 1, length, samples);
    }
  }

  /** Whenever the guards pass, no unchecked product of the loops leaves the machine word the checked product
      fitted in, and all four bytes read are there. */
  lemma ProductsFit(word: nat, width: nat, height: nat, available: nat, x: nat, y: nat)
    requires Accepts(word, width, height, available) && x < SAMPLE_WIDTH && y < SAMPLE_HEIGHT
    ensures y * (height - 1) < word && x * (width - 1) < word
    ensures Scale(y, height, SAMPLE_HEIGHT) * width + Scale(x, width, SAMPLE_WIDTH) < word
    ensures SourceOffset(width, height, x, y) + SAMPLE_PIXEL_BYTES <= width * height * SAMPLE_PIXEL_BYTES < word
    ensures SourceOffset(width, height, x, y) + SAMPLE_PIXEL_BYTES <= available
  {
    var sx, sy := Scale(x, width, SAMPLE_WIDTH), Scale(y, height, SAMPLE_HEIGHT);
    ScaleBounds(x, width, SAMPLE_WIDTH);
    ScaleBounds(y, height, SAMPLE_HEIGHT);
    Times(y, width, height - 1);
    Times(height - 1, height, width);
    Times(x, height, width - 1);
    Times(width - 1, width, height);
    Times(sy, height - 1, width);
    assert sy * width + sx + 1 <= (height - 1) * width + width == height * width;
  }

  /** Two different samples read two different pixels. */
  lemma SamplesAreDistinct(width: nat, height: nat, x0: nat, y0: nat, x1: nat, y1: nat)
    requires width >= SAMPLE_WIDTH && height >= SAMPLE_HEIGHT
    requires x0 < SAMPLE_WIDTH && y0 < SAMPLE_HEIGHT && x1 < SAMPLE_WIDTH && y1 < SAMPLE_HEIGHT
    requires (x0, y0) != (x1, y1)
    ensures SourceOffset(width, height, x0, y0) != SourceOffset(width, height, x1, y1)
  {
    if y0 > y1 || (y0 == y1 && x0 > x1) {
      SamplesRise(width, height, x1, y1, x0, y0);
    } else {
      SamplesRise(width, height, x0, y0, x1, y1);
    }
  }

  /** Later samples read later pixels. */
  lemma SamplesRise(width: nat, height: nat, x0: nat, y0: nat, x1: nat, y1: nat)
    requires width >= SAMPLE_WIDTH && height >= SAMPLE_HEIGHT
    requires x0 < SAMPLE_WIDTH && x1 < SAMPLE_WIDTH && (y0 < y1 || (y0 == y1 && x0 < x1))
    ensures SourceOffset(width, height, x0, y0) < SourceOffset(width, height, x1, y1)
  {
    ScaleBounds(x0, width, SAMPLE_WIDTH);
    ScaleBounds(x1, width, SAMPLE_WIDTH);
    if y0 < y1 {
      ScaleIsStrict(y0, y1, height, SAMPLE_HEIGHT);
      Times(Scale(y0, height, SAMPLE_HEIGHT) + 1, Scale(y1, height, SAMPLE_HEIGHT), width);
      assert (Scale(y0, height, SAMPLE_HEIGHT) + 1) * width == Scale(y0, height, SAMPLE_HEIGHT) * width + width;
    } else {
      ScaleIsStrict(x0, x1, width, SAMPLE_WIDTH);
    }
  }

  /** The corners of the sample are the corners of the frame. */
  lemma SamplesReachTheCorners(width: nat, height: nat)
    requires width >= SAMPLE_WIDTH && height >= SAMPLE_HEIGHT
    ensures SourceOffset(width, height, 0, 0) == 0
    ensures SourceOffset(width, height, SAMPLE_WIDTH - 1, 0) == (width - 1) * SAMPLE_PIXEL_BYTES
    ensures SourceOffset(width, height, 0, SAMPLE_HEIGHT - 1) == (height - 1) * width * SAMPLE_PIXEL_BYTES
    ensures SourceOffset(width, height, SAMPLE_WIDTH - 1, SAMPLE_HEIGHT - 1)
         == (width * height - 1) * SAMPLE_PIXEL_BYTES
  {
    ScaleBounds(0, width, SAMPLE_WIDTH);
    ScaleBounds(0, height, SAMPLE_HEIGHT);
    assert (height - 1) * width + (width - 1) == width * height - 1;
  }

  /** Where byte `i` of the sample comes from. */
  function SourceByte(width: nat, height: nat, i: nat): nat
    requires width > 0 && height > 0
  {
    var pixel := i / SAMPLE_PIXEL_BYTES;
    SourceOffset(width, height, pixel % SAMPLE_WIDTH, pixel / SAMPLE_WIDTH) + i % SAMPLE_PIXEL_BYTES
  }

  lemma PixelIsSampled(width: nat, height: nat, x: nat, y: nat)
    requires width > 0 && height > 0 && x < SAMPLE_WIDTH
    ensures var base := (y * SAMPLE_WIDTH + x) * SAMPLE_PIXEL_BYTES;
            forall i | base <= i < base + SAMPLE_PIXEL_BYTES ::
              SourceByte(width, height, i) == SourceOffset(width, height, x, y) + (i - base)
  {
    hide SourceOffset;
    var base := (y * SAMPLE_WIDTH + x) * SAMPLE_PIXEL_BYTES;
    forall i | base <= i < base + SAMPLE_PIXEL_BYTES
      ensures SourceByte(width, height, i) == SourceOffset(width, height, x, y) + (i - base)
    {
      assert i / SAMPLE_PIXEL_BYTES == y * SAMPLE_WIDTH + x && i % SAMPLE_PIXEL_BYTES == i - base;
    }
  }

  method CopyPixel(rgba: seq<bv8>, from: nat, sample: array<bv8>, to: nat)
    requires from + SAMPLE_PIXEL_BYTES <= |rgba| && to + SAMPLE_PIXEL_BYTES <= sample.Length
    modifies sample
    ensures forall i | to <= i < to + SAMPLE_PIXEL_BYTES :: sample[i] == rgba[from + (i - to)]
    ensures forall i | 0 <= i < to :: sample[i] == old(sample[i])
  {
    var c := 0;
    while c < SAMPLE_PIXEL_BYTES
      invariant c <= SAMPLE_PIXEL_BYTES
      invariant forall i | to <= i < to + c :: sample[i] == rgba[from + (i - to)]
      invariant forall i | 0 <= i < to :: sample[i] == old(sample[i])
    {
      sample[to + c] := rgba[from + c];
      c := c + 1;
    }
  }

  /** Sample (x, y) is the pixel as far into the frame along both axes. */
  ghost predicate SamplesPixel(width: nat, height: nat, rgba: seq<bv8>, sample: array<bv8>, x: nat, y: nat, c: nat)
    requires x < 9 && y < 8 && c < 4 && width > 0 && height > 0 && sample.Length == 288
    reads sample
  {
    var from := ((y * (height - 1) / 7) * width + x * (width - 1) / 8) * 4 + c;
    from < |rgba| && sample[(y * 9 + x) * 4 + c] == rgba[from]
  }

  lemma SampleIsPixel(width: nat, height: nat, rgba: seq<bv8>, sample: array<bv8>, x: nat, y: nat, c: nat)
    requires x < 9 && y < 8 && c < 4 && width > 0 && height > 0 && sample.Length == 288
    requires Sampled(width, height, rgba, sample, 288)
    ensures SamplesPixel(width, height, rgba, sample, x, y, c)
  {
    PixelIsSampled(width, height, x, y);
    var i := (y * 9 + x) * 4 + c;
    assert SourceByte(width, height, i) < |rgba| && sample[i] == rgba[SourceByte(width, height, i)];
  }

  lemma FitsIff(word: nat, width: nat, height: nat, available: nat)
    ensures Accepts(word, width, height, available)
       <==> width >= 9 && height >= 8 && width * height * 4 < word && available >= width * height * 4
  {
  }

  method FromNativeRgba(word: nat, width: nat, height: nat, rgba: seq<bv8>) returns (r: Option<array<bv8>>)
    ensures r.Some? <==> Accepts(word, width, height, |rgba|)
    ensures r.Some? <==> width >= 9 && height >= 8 && width * height * 4 < word && |rgba| >= width * height * 4
    ensures r.Some? ==> fresh(r.value) && r.value.Length == 288
    ensures r.Some? ==> forall x, y, c | 0 <= x < 9 && 0 <= y < 8 && 0 <= c < 4 ::
              SamplesPixel(width, height, rgba, r.value, x, y, c)
    ensures r.Some? ==> r.value.Length == SAMPLE_BYTES
    ensures r.Some? ==> forall i | 0 <= i < SAMPLE_BYTES ::
              SourceByte(width, height, i) < |rgba| && r.value[i] == rgba[SourceByte(width, height, i)]
  {
    hide SourceOffset, SourceByte, SamplesPixel;
    FitsIff(word, width, height, |rgba|);
    var length := CheckedLength(word, width, height);
    if length.None? {
      return None;
    }
    if width < SAMPLE_WIDTH || height < SAMPLE_HEIGHT || |rgba| < length.value {
      return None;
    }
    var sample := new bv8[SAMPLE_BYTES];
    var y := 0;
    while y < SAMPLE_HEIGHT
      invariant y <= SAMPLE_HEIGHT && Sampled(width, height, rgba, sample, y * SAMPLE_WIDTH * SAMPLE_PIXEL_BYTES)
    {
      var x := 0;
      while x < SAMPLE_WIDTH
        invariant x <= SAMPLE_WIDTH
        invariant Sampled(width, height, rgba, sample, (y * SAMPLE_WIDTH + x) * SAMPLE_PIXEL_BYTES)
      {
        ProductsFit(word, width, height, |rgba|, x, y);
        var sourceOffset := SourceOffset(width, height, x, y);
        var sampleOffset := (y * SAMPLE_WIDTH + x) * SAMPLE_PIXEL_BYTES;
        CopyPixel(rgba, sourceOffset, sample, sampleOffset);
        PixelIsSampled(width, height, x, y);
        x := x + 1;
      }
      y := y + 1;
    }
    forall x, y, c | 0 <= x < 9 && 0 <= y < 8 && 0 <= c < 4 ensures SamplesPixel(width, height, rgba, sample, x, y, c) {
      SampleIsPixel(width, height, rgba, sample, x, y, c);
    }
    r := Some(sample);
  }

  ghost predicate Sampled(width: nat, height: nat, rgba: seq<bv8>, sample: array<bv8>, n: nat)
    requires width > 0 && height > 0
    reads sample
  {
    && n <= sample.Length
    && forall i | 0 <= i < n ::
         SourceByte(width, height, i) < |rgba| && sample[i] == rgba[SourceByte(width, height, i)]
  }
}
