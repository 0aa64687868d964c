/**
 The embedder of `embedmessage`: after the feasibility check, the message bits,
 least-significant bit of each byte first, are written into the least-significant
 bit of the first three channels of each pixel, in row-major order.
 */
module Embedder {
  import opened Bytes
  import opened Layout

  /** Bit `n` of the message's bit stream: bit `n % 8` of byte `n / 8`. */
  function MessageBit(message: seq<byte>, n: nat): (r: byte)
    requires n < |message| * 8
    ensures r == 0 || r == 1
  {
    BitOf(message[n / 8], n % 8)
  }

  /**
   The buffer `img` once the first `upto` message bits are embedded, one
   position after the other as the loops of `embedmessage` do it: position `n`
   replaces the least-significant bit of the byte at `Offset(n)` by message bit `n`.
   */
  function EmbedPrefix(img: seq<byte>, channels: nat, message: seq<byte>, upto: nat): (r: seq<byte>)
    requires channels >= 3 && upto <= |message| * 8 && Fits(upto, channels, |img|)
    ensures |r| == |img|
    decreases upto
  {
    if upto == 0 then img
    else
      FitsFewer(upto - 1, channels, |img|);
      var prev := EmbedPrefix(img, channels, message, upto - 1);
      var q := Offset(upto - 1, channels);
      prev[q := SetLsb(prev[q], MessageBit(message, upto - 1))]
  }

  /** The buffer of a `width` by `height` image once the whole message is embedded. */
  function Embedded(img: seq<byte>, width: nat, height: nat, channels: nat, message: seq<byte>): (r: seq<byte>)
    requires CanEmbed(width, height, channels, |message|) && |img| == width * height * channels
    ensures |r| == |img|
  {
    CapacityFits(|message| * 8, width, height, channels);
    EmbedPrefix(img, channels, message, |message| * 8)
  }

  /** Embedding one more position changes only the byte at its offset. */
  lemma EmbedPrefixStep(img: seq<byte>, channels: nat, message: seq<byte>, upto: nat)
    requires channels >= 3 && upto < |message| * 8 && Fits(upto, channels, |img|) && Offset(upto, channels) < |img|
    ensures Fits(upto + 1, channels, |img|)
    ensures EmbedPrefix(img, channels, message, upto + 1)
         == EmbedPrefix(img, channels, message, upto)[Offset(upto, channels) :=
              SetLsb(EmbedPrefix(img, channels, message, upto)[Offset(upto, channels)], MessageBit(message, upto))]
  {
  }

  /** Channel `k` of the pixel at `pixel` is the next byte `EmbedPixel` writes. */
  lemma EmbedPixelStep(img: seq<byte>, channels: nat, message: seq<byte>, index: nat, pixel: nat, k: nat,
                       current: seq<byte>)
    requires channels >= 3 && index % 3 == 0 && k < 3 && pixel == Offset(index, channels) && pixel + 3 <= |img|
    requires index + k < |message| * 8 && Fits(index + k, channels, |img|)
    requires current == EmbedPrefix(img, channels, message, index + k)
    ensures pixel + k < |current| && Fits(index + k + 1, channels, |img|)
    ensures current[pixel + k := SetLsb(current[pixel + k], BitOf(message[(index + k) / 8], (index + k) % 8))]
         == EmbedPrefix(img, channels, message, index + k + 1)
  {
    OffsetWithinPixel(index, k, channels);
    EmbedPrefixStep(img, channels, message, index + k);
  }

  /**
   Byte `q` after the first `upto` positions are embedded: when it is one of
   the first three channels of its pixel and its position is below `upto`, its
   least-significant bit is the message bit of that position and its other bits
   are kept; any other byte is unchanged.
   */
  lemma {:induction false} EmbedPrefixAt(img: seq<byte>, channels: nat, message: seq<byte>, upto: nat, q: nat)
    requires channels >= 3 && upto <= |message| * 8 && Fits(upto, channels, |img|) && q < |img|
    ensures EmbedPrefix(img, channels, message, upto)[q]
         == if Carrier(q, channels) && Position(q, channels) < upto
            then SetLsb(img[q], MessageBit(message, Position(q, channels)))
            else img[q]
  {
    if upto > 0 {
      FitsFewer(upto - 1, channels, |img|);
      EmbedPrefixAt(img, channels, message, upto - 1, q);
      OffsetIsCarrier(upto - 1, channels);
      if q != Offset(upto - 1, channels) && Carrier(q, channels) && Position(q, channels) == upto - 1 {
        CarrierHasOffset(q, channels);
        assert false;
      }
    }
  }

  /**
   `embedmessage` on an already loaded image: rejected, with the buffer
   untouched, when the image has fewer than 3 channels or the message does not
   fit; otherwise the buffer becomes `Embedded` of its old contents.
   */
  method Embed(image: array<byte>, width: nat, height: nat, channels: nat, message: seq<byte>)
    returns (ok: bool)
    requires image.Length == width * height * channels
    modifies image
    ensures ok == CanEmbed(width, height, channels, |message|)
    ensures ok ==> image[..] == Embedded(old(image[..]), width, height, channels, message)
    ensures !ok ==> image[..] == old(image[..])
  {
    if channels < 3 {
      return false;
    }
    var messageLength := |message|;
    if messageLength * 8 > width * height * 3 {
      return false;
    }
    ghost var original := image[..];
    ghost var rowStart := 0;
    var index := 0;
    for i := 0 to height
      invariant rowStart == i * width
      invariant index == Min(rowStart * 3, messageLength * 8)
      invariant Fits(index, channels, |original|)
      invariant image[..] == EmbedPrefix(original, channels, message, index)
    {
      index := EmbedRow(image, i, rowStart, width, height, channels, message, index, original);
      RowStep(i, width);
      rowStart := rowStart + width;
    }
    RowsDone(height, width);
    CapacityFits(|message| * 8, width, height, channels);
    ok := true;
  }

  /** The pixel loop of `embedmessage` for row `i`, whose first pixel is `rowStart`. */
  method EmbedRow(image: array<byte>, i: nat, ghost rowStart: nat, width: nat, height: nat, channels: nat,
                  message: seq<byte>, index: nat, ghost original: seq<byte>)
    returns (next: nat)
    requires CanEmbed(width, height, channels, |message|) && image.Length == width * height * channels
    requires |original| == image.Length && i < height && rowStart == i * width
    requires index == Min(rowStart * 3, |message| * 8)
    requires Fits(index, channels, |original|)
    requires image[..] == EmbedPrefix(original, channels, message, index)
    modifies image
    ensures next == Min((rowStart + width) * 3, |message| * 8)
    ensures Fits(next, channels, |original|)
    ensures image[..] == EmbedPrefix(original, channels, message, next)
  {
    next := index;
    for j := 0 to width
      invariant next == Min((rowStart + j) * 3, |message| * 8)
      invariant Fits(next, channels, |original|)
      invariant image[..] == EmbedPrefix(original, channels, message, next)
    {
      if next >= |message| * 8 {
        break;
      }
      var pixel := (i * width + j) * channels;
      PixelOfRow(i, j, rowStart, width, height, channels);
      next := EmbedPixel(image, pixel, channels, message, next, original);
    }
  }

  /**
   The channel loop of `embedmessage` for the pixel whose bytes start at
   `pixel`: while message bits remain, bit `index` goes into the
   least-significant bit of each of the pixel's first three channels.
   */
  method EmbedPixel(image: array<byte>, pixel: nat, channels: nat, message: seq<byte>,
                    index: nat, ghost original: seq<byte>)
    returns (next: nat)
    requires channels >= 3 && |original| == image.Length
    requires index % 3 == 0 && pixel == Offset(index, channels) && pixel + 3 <= image.Length
    requires index < |message| * 8 && Fits(index, channels, |original|)
    requires image[..] == EmbedPrefix(original, channels, message, index)
    modifies image
    ensures next == Min(index + 3, |message| * 8)
    ensures Fits(next, channels, |original|)
    ensures image[..] == EmbedPrefix(original, channels, message, next)
  {
    next := index;
    for k := 0 to 3
      invariant next == Min(index + k, |message| * 8)
      invariant Fits(next, channels, |original|)
      invariant image[..] == EmbedPrefix(original, channels, message, next)
    {
      if next >= |message| * 8 {
        break;
      }
      var bit := BitOf(message[next / 8], next % 8);
      EmbedPixelStep(original, channels, message, index, pixel, k, image[..]);
      image[pixel + k] := SetLsb(image[pixel + k], bit);
      next := next + 1;
    }
  }

  /** After embedding, the LSB of the byte of position `n` is bit `n % 8` of message byte `n / 8`. */
  lemma EmbeddedBitPlacement(img: seq<byte>, width: nat, height: nat, channels: nat, message: seq<byte>, n: nat)
    requires CanEmbed(width, height, channels, |message|) && |img| == width * height * channels
    requires n < |message| * 8
    ensures Offset(n, channels) < |img|
    ensures BitOf(Embedded(img, width, height, channels, message)[Offset(n, channels)], 0)
         == BitOf(message[n / 8], n % 8)
  {
    OffsetInBuffer(n, width, height, channels);
    OffsetIsCarrier(n, channels);
    CapacityFits(|message| * 8, width, height, channels);
    EmbedPrefixAt(img, channels, message, |message| * 8, Offset(n, channels));
  }

  /** Embedding changes at most the least-significant bit of each byte. */
  lemma EmbeddedKeepsUpperBits(img: seq<byte>, width: nat, height: nat, channels: nat, message: seq<byte>, q: nat)
    requires CanEmbed(width, height, channels, |message|) && |img| == width * height * channels
    requires q < |img|
    ensures Embedded(img, width, height, channels, message)[q] & 0xFE == img[q] & 0xFE
  {
    CapacityFits(|message| * 8, width, height, channels);
    EmbedPrefixAt(img, channels, message, |message| * 8, q);
  }

  /** Channels with index 3 or more are never written. */
  lemma EmbeddedKeepsOtherChannels(img: seq<byte>, width: nat, height: nat, channels: nat, message: seq<byte>,
                                   p: nat, k: nat)
    requires CanEmbed(width, height, channels, |message|) && |img| == width * height * channels
    requires 3 <= k < channels && p * channels + k < |img|
    ensures Embedded(img, width, height, channels, message)[p * channels + k] == img[p * channels + k]
  {
    CarrierOfPixel(p, k, channels);
    CapacityFits(|message| * 8, width, height, channels);
    EmbedPrefixAt(img, channels, message, |message| * 8, p * channels + k);
  }

  /** The carrier bytes of positions at or after the message end are left as they were. */
  lemma EmbeddedKeepsTail(img: seq<byte>, width: nat, height: nat, channels: nat, message: seq<byte>, n: nat)
    requires CanEmbed(width, height, channels, |message|) && |img| == width * height * channels
    requires |message| * 8 <= n && Offset(n, channels) < |img|
    ensures Embedded(img, width, height, channels, message)[Offset(n, channels)] == img[Offset(n, channels)]
  {
    OffsetIsCarrier(n, channels);
    CapacityFits(|message| * 8, width, height, channels);
    EmbedPrefixAt(img, channels, message, |message| * 8, Offset(n, channels));
  }
}
