/**
 Where the codec's bits live in the pixel buffer. The image is a flat byte
 buffer of `width * height * channels` values; the byte of pixel `p` (row-major,
 `p = i * width + j`) and channel `k` is at `p * channels + k`. Embedding
 position `n` (the n-th message bit) goes into channel `n % 3` of pixel `n / 3`.

 `Offset`, `Carrier` and `Position` are defined by stepping one pixel at a
 time; `OffsetOfPixel`, `CarrierOfPixel` and `OffsetFormula` give their closed
 forms.
 */
module Layout {

  /** Payload capacity in bits: three embeddable channels per pixel, whatever the channel count. */
  function Capacity(width: nat, height: nat): nat
  {
    width * height * 3
  }

  /** The feasibility check of `embedmessage`: at least 3 channels, and the message bits fit. */
  predicate CanEmbed(width: nat, height: nat, channels: nat, messageLength: nat)
  {
    channels >= 3 && messageLength * 8 <= Capacity(width, height)
  }

  function Min(a: nat, b: nat): nat
  {
    if a < b then a else b
  }

  /** The buffer offset of embedding position `n`: each pixel holds three positions. */
  function Offset(n: nat, channels: nat): nat
  {
    if n < 3 then n else Offset(n - 3, channels) + channels
  }

  /** Whether buffer offset `q` holds one of the first three channels of its pixel. */
  predicate Carrier(q: nat, channels: nat)
    requires channels > 0
  {
    if q < channels then q < 3 else Carrier(q - channels, channels)
  }

  /** The embedding position of carrier offset `q`. */
  function Position(q: nat, channels: nat): nat
    requires channels > 0
  {
    if q < channels then q else Position(q - channels, channels) + 3
  }

  /** Channel `k < 3` of pixel `p` holds embedding position `p * 3 + k`. */
  lemma {:induction false} OffsetOfPixel(p: nat, k: nat, channels: nat)
    requires k < 3
    ensures Offset(p * 3 + k, channels) == p * channels + k
  {
    if p > 0 {
      OffsetOfPixel(p - 1, k, channels);
      assert (p - 1) * 3 + k == p * 3 + k - 3;
      assert (p - 1) * channels + channels == p * channels;
    }
  }

  /** `Offset(n)` is channel `n % 3` of pixel `n / 3`. */
  lemma OffsetFormula(n: nat, channels: nat)
    ensures Offset(n, channels) == (n / 3) * channels + n % 3
  {
    OffsetOfPixel(n / 3, n % 3, channels);
  }

  /** Byte `k` of pixel `p` is a carrier exactly when `k < 3`, and then holds position `p * 3 + k`. */
  lemma {:induction false} CarrierOfPixel(p: nat, k: nat, channels: nat)
    requires k < channels
    ensures Carrier(p * channels + k, channels) <==> k < 3
    ensures k < 3 ==> Position(p * channels + k, channels) == p * 3 + k
  {
    if p > 0 {
      CarrierOfPixel(p - 1, k, channels);
      assert (p - 1) * channels + k == p * channels + k - channels;
    }
  }

  /** Every embedding position lands on a carrier byte, which maps back to it. */
  lemma {:induction false} OffsetIsCarrier(n: nat, channels: nat)
    requires channels >= 3
    ensures Carrier(Offset(n, channels), channels)
    ensures Position(Offset(n, channels), channels) == n
  {
    if n >= 3 {
      OffsetIsCarrier(n - 3, channels);
    }
  }

  /** Every carrier byte is the offset of its own position. */
  lemma {:induction false} CarrierHasOffset(q: nat, channels: nat)
    requires channels >= 3 && Carrier(q, channels)
    ensures Offset(Position(q, channels), channels) == q
  {
    if q >= channels {
      CarrierHasOffset(q - channels, channels);
    }
  }

  /** Embedding position `p * 3` is channel 0 of pixel `p`. */
  lemma PixelStart(p: nat, channels: nat)
    ensures (p * 3) % 3 == 0 && Offset(p * 3, channels) == p * channels
  {
    OffsetOfPixel(p, 0, channels);
  }

  /** The three positions from a multiple of 3 on are consecutive channels of one pixel. */
  lemma {:induction false} OffsetWithinPixel(n: nat, k: nat, channels: nat)
    requires n % 3 == 0 && k < 3
    ensures Offset(n + k, channels) == Offset(n, channels) + k
  {
    if n >= 3 {
      OffsetWithinPixel(n - 3, k, channels);
    }
  }

  /** The first three channels of pixel `i * width + j` lie inside the buffer. */
  lemma PixelInBuffer(i: nat, j: nat, width: nat, height: nat, channels: nat)
    requires i < height && j < width && channels >= 3
    ensures i * width + j < width * height
    ensures (i * width + j) * channels + 3 <= width * height * channels
  {
    MulLe(i + 1, height, width);
    assert (i + 1) * width == i * width + width;
    assert height * width == width * height;
    var p := i * width + j;
    MulLe(p + 1, width * height, channels);
    assert (p + 1) * channels == p * channels + channels;
  }

  /**
   Pixel `j` of row `i`, which starts at pixel `rowStart`: its bytes start at
   the offset of embedding position `(rowStart + j) * 3`, its first three
   channels lie inside the buffer, and its three positions are below the capacity.
   */
  lemma PixelOfRow(i: nat, j: nat, rowStart: nat, width: nat, height: nat, channels: nat)
    requires i < height && j < width && channels >= 3 && rowStart == i * width
    ensures 0 <= (i * width + j) * channels
    ensures ((rowStart + j) * 3) % 3 == 0
    ensures (i * width + j) * channels == Offset((rowStart + j) * 3, channels)
    ensures (i * width + j) * channels + 3 <= width * height * channels
    ensures (rowStart + j) * 3 + 3 <= Capacity(width, height)
  {
    PixelInBuffer(i, j, width, height, channels);
    PixelStart(rowStart + j, channels);
    PixelPositions(rowStart + j, width, height);
  }

  /** Positions `0` to `upto - 1` all lie in a buffer of `length` bytes. */
  predicate Fits(upto: nat, channels: nat, length: nat)
  {
    upto == 0 || Offset(upto - 1, channels) < length
  }

  /** Later positions lie further into the buffer. */
  lemma {:induction false} OffsetIncreasing(n: nat, channels: nat)
    requires channels >= 3
    ensures Offset(n, channels) < Offset(n + 1, channels)
  {
    if n >= 3 {
      OffsetIncreasing(n - 3, channels);
    }
  }

  /** If the first `upto` positions fit, so do fewer. */
  lemma FitsFewer(upto: nat, channels: nat, length: nat)
    requires channels >= 3 && Fits(upto + 1, channels, length)
    ensures Fits(upto, channels, length)
  {
    if upto > 0 {
      OffsetIncreasing(upto - 1, channels);
    }
  }

  /** The positions below the capacity fit in the buffer of a `width` by `height` image. */
  lemma CapacityFits(upto: nat, width: nat, height: nat, channels: nat)
    requires channels >= 3 && upto <= Capacity(width, height)
    ensures Fits(upto, channels, width * height * channels)
  {
    if upto > 0 {
      OffsetInBuffer(upto - 1, width, height, channels);
    }
  }

  /** Every embedding position below the capacity lies inside the buffer. */
  lemma OffsetInBuffer(n: nat, width: nat, height: nat, channels: nat)
    requires channels >= 3 && n < Capacity(width, height)
    ensures Offset(n, channels) < width * height * channels
  {
    OffsetFormula(n, channels);
    var p := n / 3;
    assert p < width * height;
    MulLe(p + 1, width * height, channels);
    assert (p + 1) * channels == p * channels + channels;
  }

  /** The next row starts `width` pixels later. */
  lemma RowStep(i: nat, width: nat)
    ensures i * width + width == (i + 1) * width
  {
  }

  /** After `height` rows every pixel is visited. */
  lemma RowsDone(height: nat, width: nat)
    ensures height * width == width * height
  {
  }

  /** The three positions of pixel `p` are below the capacity. */
  lemma PixelPositions(p: nat, width: nat, height: nat)
    requires p < width * height
    ensures p * 3 + 3 <= Capacity(width, height)
  {
  }

  lemma MulLe(a: nat, b: nat, c: nat)
    requires a <= b
    ensures a * c <= b * c
  {
    assert b * c == a * c + (b - a) * c;
  }

}
