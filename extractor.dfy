/**
 The extractor of `extractmessage`: the least-significant bits of the first
 three channels of each pixel, read in the embedder's order, are ORed into a
 zeroed 1024-byte window until 8192 bits are read or the image ends; the
 window is returned as a C string.
 */
module Extractor {
  import opened Wrappers
  import opened Bytes
  import opened Layout

  /** Size of the extraction window, `char message[1024]`. */
  const WindowBytes: nat := 1024

  /** Number of bits the extractor reads: 8192, or fewer when the image is smaller. */
  function WindowLimit(width: nat, height: nat): (limit: nat)
    ensures limit <= WindowBytes * 8 && limit <= Capacity(width, height)
    ensures limit == WindowBytes * 8 || limit == Capacity(width, height)
  {
    Min(WindowBytes * 8, Capacity(width, height))
  }

  /** Bit `n` of the window: the LSB at embedding position `n` when it is read, else 0. */
  function WindowBit(img: seq<byte>, width: nat, height: nat, channels: nat, n: nat): (r: byte)
    requires channels >= 3 && |img| == width * height * channels
    ensures r == 0 || r == 1
  {
    if n < WindowLimit(width, height) then
      OffsetInBuffer(n, width, height, channels);
      img[Offset(n, channels)] & 1
    else
      0
  }

  /** The eight window bits that make up window byte `j`, least-significant first. */
  function ByteBits(img: seq<byte>, width: nat, height: nat, channels: nat, j: nat): (bits: seq<byte>)
    requires channels >= 3 && |img| == width * height * channels
    ensures |bits| == 8
  {
    seq(8, t requires 0 <= t < 8 => WindowBit(img, width, height, channels, 8 * j + t))
  }

  /** How many bits of window byte `j` are set once the first `upto` bits are read. */
  function Filled(j: nat, upto: nat): (k: nat)
    ensures k <= 8
  {
    if upto <= 8 * j then 0 else if upto - 8 * j >= 8 then 8 else upto - 8 * j
  }

  /** Window byte `j` once the first `upto` window bits are ORed into the zeroed buffer. */
  function PartialByte(img: seq<byte>, width: nat, height: nat, channels: nat, j: nat, upto: nat): byte
    requires channels >= 3 && |img| == width * height * channels
  {
    OrBits(ByteBits(img, width, height, channels, j), Filled(j, upto))
  }

  /** The buffer `buf` holds every window byte as it is once the first `upto` window bits are read. */
  predicate Filling(img: seq<byte>, width: nat, height: nat, channels: nat, buf: seq<byte>, upto: nat)
    requires channels >= 3 && |img| == width * height * channels
  {
    |buf| == WindowBytes && forall q :: 0 <= q < WindowBytes ==> buf[q] == PartialByte(img, width, height, channels, q, upto)
  }

  /** The window the extractor fills: byte `j` is assembled from window bits `8 * j` to `8 * j + 7`. */
  function Window(img: seq<byte>, width: nat, height: nat, channels: nat): (w: seq<byte>)
    requires channels >= 3 && |img| == width * height * channels
    ensures |w| == WindowBytes
  {
    seq(WindowBytes, j requires 0 <= j < WindowBytes => OrBits(ByteBits(img, width, height, channels, j), 8))
  }

  /**
   Bit `n % 8` of window byte `n / 8` is the least-significant bit of the byte
   at embedding position `n` while `n` is below the limit, and 0 from the limit on.
   */
  lemma WindowBitAt(img: seq<byte>, width: nat, height: nat, channels: nat, n: nat)
    requires channels >= 3 && |img| == width * height * channels && n < WindowBytes * 8
    ensures n < WindowLimit(width, height) ==>
      Offset(n, channels) < |img| &&
      BitOf(Window(img, width, height, channels)[n / 8], n % 8) == img[Offset(n, channels)] & 1
    ensures n >= WindowLimit(width, height) ==> BitOf(Window(img, width, height, channels)[n / 8], n % 8) == 0
  {
    var j, t := n / 8, n % 8;
    var bits := ByteBits(img, width, height, channels, j);
    forall u | 0 <= u < 8
      ensures bits[u] == 0 || bits[u] == 1
    {
      assert bits[u] == WindowBit(img, width, height, channels, 8 * j + u);
    }
    OrBitsBit(bits, t);
    assert bits[t] == WindowBit(img, width, height, channels, n);
    if n < WindowLimit(width, height) {
      OffsetInBuffer(n, width, height, channels);
    }
  }

  /** An image whose carrier bytes all have a zero least-significant bit yields an all-zero window. */
  lemma ZeroLsbWindow(img: seq<byte>, width: nat, height: nat, channels: nat)
    requires channels >= 3 && |img| == width * height * channels
    requires forall q :: 0 <= q < |img| && Carrier(q, channels) ==> img[q] & 1 == 0
    ensures forall j :: 0 <= j < WindowBytes ==> Window(img, width, height, channels)[j] == 0
  {
    forall j | 0 <= j < WindowBytes
      ensures Window(img, width, height, channels)[j] == 0
    {
      var bits := ByteBits(img, width, height, channels, j);
      forall t | 0 <= t < 8
        ensures bits[t] == 0
      {
        assert bits[t] == WindowBit(img, width, height, channels, 8 * j + t);
        if 8 * j + t < WindowLimit(width, height) {
          OffsetInBuffer(8 * j + t, width, height, channels);
          OffsetIsCarrier(8 * j + t, channels);
        }
      }
      OrBitsZeroTail(bits, 0, 8);
    }
  }

  /** Reading window bit `n` ORs it into bit `n % 8` of window byte `n / 8` and changes no other byte. */
  lemma WindowStep(img: seq<byte>, width: nat, height: nat, channels: nat, n: nat)
    requires channels >= 3 && |img| == width * height * channels
    ensures forall j :: 0 <= j < WindowBytes ==>
      PartialByte(img, width, height, channels, j, n + 1)
      == if j == n / 8
         then OrAt(PartialByte(img, width, height, channels, j, n), WindowBit(img, width, height, channels, n), n % 8)
         else PartialByte(img, width, height, channels, j, n)
  {
    forall j | 0 <= j < WindowBytes
      ensures PartialByte(img, width, height, channels, j, n + 1)
      == if j == n / 8
         then OrAt(PartialByte(img, width, height, channels, j, n), WindowBit(img, width, height, channels, n), n % 8)
         else PartialByte(img, width, height, channels, j, n)
    {
      if j == n / 8 {
        WindowStepByte(img, width, height, channels, n / 8, n % 8);
      } else {
        assert Filled(j, n + 1) == Filled(j, n);
      }
    }
  }

  /** The byte that `WindowStep` changes: bit `s` of window byte `q` is read. */
  lemma WindowStepByte(img: seq<byte>, width: nat, height: nat, channels: nat, q: nat, s: nat)
    requires channels >= 3 && |img| == width * height * channels && s < 8
    ensures PartialByte(img, width, height, channels, q, 8 * q + s + 1)
         == OrAt(PartialByte(img, width, height, channels, q, 8 * q + s), WindowBit(img, width, height, channels, 8 * q + s), s)
  {
    assert Filled(q, 8 * q + s) == s && Filled(q, 8 * q + s + 1) == s + 1;
    assert ByteBits(img, width, height, channels, q)[s] == WindowBit(img, width, height, channels, 8 * q + s);
  }

  /** The window bits from the limit on are zero, so every byte is complete once the limit is reached. */
  lemma WindowComplete(img: seq<byte>, width: nat, height: nat, channels: nat, j: nat)
    requires channels >= 3 && |img| == width * height * channels && j < WindowBytes
    ensures PartialByte(img, width, height, channels, j, WindowLimit(width, height))
         == Window(img, width, height, channels)[j]
  {
    var bits := ByteBits(img, width, height, channels, j);
    var k := Filled(j, WindowLimit(width, height));
    forall t | k <= t < 8
      ensures bits[t] == 0
    {
      assert bits[t] == WindowBit(img, width, height, channels, 8 * j + t);
      assert 8 * j + t >= WindowLimit(width, height);
    }
    OrBitsZeroTail(bits, k, 8);
  }

  /** A buffer holding every byte as it is once the limit is reached is the window. */
  lemma WindowDone(img: seq<byte>, width: nat, height: nat, channels: nat, w: seq<byte>)
    requires channels >= 3 && |img| == width * height * channels && |w| == WindowBytes
    requires Filling(img, width, height, channels, w, WindowLimit(width, height))
    ensures w == Window(img, width, height, channels)
  {
    forall q | 0 <= q < WindowBytes
      ensures w[q] == Window(img, width, height, channels)[q]
    {
      WindowComplete(img, width, height, channels, q);
    }
  }

  /**
   `extractmessage` on an already loaded image: no result (the source's `NULL`)
   when the image has fewer than 3 channels, else the window as a C string.
   The image is only read.
   */
  method Extract(image: array<byte>, width: nat, height: nat, channels: nat)
    returns (result: Option<seq<byte>>)
    requires image.Length == width * height * channels
    ensures result.None? <==> channels < 3
    ensures result.Some? ==> result.value == CString(Window(image[..], width, height, channels))
  {
    if channels < 3 {
      return None;
    }
    var message := new byte[WindowBytes](_ => 0);
    ghost var img := image[..];
    ghost var rowStart := 0;
    var index := 0;
    for i := 0 to height
      invariant rowStart == i * width
      invariant index == Min(rowStart * 3, WindowBytes * 8)
      invariant Filling(img, width, height, channels, message[..], index)
    {
      index := ExtractRow(image, message, i, rowStart, width, height, channels, index, img);
      RowStep(i, width);
      rowStart := rowStart + width;
    }
    RowsDone(height, width);
    WindowDone(img, width, height, channels, message[..]);
    return Some(CString(message[..]));
  }

  /** The pixel loop of `extractmessage` for row `i`, whose first pixel is `rowStart`. */
  method ExtractRow(image: array<byte>, message: array<byte>, i: nat, ghost rowStart: nat,
                    width: nat, height: nat, channels: nat, index: nat, ghost img: seq<byte>)
    returns (next: nat)
    requires message != image && message.Length == WindowBytes
    requires channels >= 3 && img == image[..] && |img| == width * height * channels
    requires i < height && rowStart == i * width
    requires index == Min(rowStart * 3, WindowBytes * 8)
    requires Filling(img, width, height, channels, message[..], index)
    modifies message
    ensures next == Min((rowStart + width) * 3, WindowBytes * 8)
    ensures Filling(img, width, height, channels, message[..], next)
  {
    next := index;
    for j := 0 to width
      invariant next == Min((rowStart + j) * 3, WindowBytes * 8)
      invariant Filling(img, width, height, channels, message[..], next)
    {
      if next >= WindowBytes * 8 {
        break;
      }
      var pixel := (i * width + j) * channels;
      PixelOfRow(i, j, rowStart, width, height, channels);
      next := ExtractPixel(image, message, pixel, width, height, channels, next, img);
    }
  }

  /** The least-significant bit of channel `k` of the pixel at `pixel` is window bit `n`. */
  lemma ExtractPixelStep(img: seq<byte>, width: nat, height: nat, channels: nat, index: nat, pixel: nat, k: nat,
                         n: nat)
    requires channels >= 3 && |img| == width * height * channels
    requires index % 3 == 0 && k < 3 && pixel == Offset(index, channels) && pixel + 3 <= |img|
    requires n == index + k && n < WindowBytes * 8 && index + 3 <= Capacity(width, height)
    ensures img[pixel + k] & 1 == WindowBit(img, width, height, channels, n)
  {
    OffsetWithinPixel(index, k, channels);
  }

  /** ORing window bit `n` into a buffer that holds the first `n` bits makes it hold the first `n + 1`. */
  lemma FillingStep(img: seq<byte>, width: nat, height: nat, channels: nat, current: seq<byte>, n: nat, bit: byte)
    requires channels >= 3 && |img| == width * height * channels
    requires n < WindowBytes * 8 && bit == WindowBit(img, width, height, channels, n)
    requires Filling(img, width, height, channels, current, n)
    ensures Filling(img, width, height, channels, current[n / 8 := OrAt(current[n / 8], bit, n % 8)], n + 1)
  {
    var updated := current[n / 8 := OrAt(current[n / 8], bit, n % 8)];
    WindowStep(img, width, height, channels, n);
    forall q | 0 <= q < WindowBytes
      ensures updated[q] == PartialByte(img, width, height, channels, q, n + 1)
    {
    }
  }

  /**
   The channel loop of `extractmessage` for the pixel whose bytes start at
   `pixel`: while fewer than 8192 bits are read, the LSB of each of the first
   three channels is ORed into bit `index % 8` of window byte `index / 8`.
   */
  method ExtractPixel(image: array<byte>, message: array<byte>, pixel: nat,
                      width: nat, height: nat, channels: nat, index: nat, ghost img: seq<byte>)
    returns (next: nat)
    requires message != image && message.Length == WindowBytes
    requires channels >= 3 && img == image[..] && |img| == width * height * channels
    requires index % 3 == 0 && pixel == Offset(index, channels) && pixel + 3 <= image.Length
    requires index < WindowBytes * 8 && index + 3 <= Capacity(width, height)
    requires Filling(img, width, height, channels, message[..], index)
    modifies message
    ensures next == Min(index + 3, WindowBytes * 8)
    ensures Filling(img, width, height, channels, message[..], next)
  {
    next := index;
    for k := 0 to 3
      invariant next == Min(index + k, WindowBytes * 8)
      invariant Filling(img, width, height, channels, message[..], next)
    {
      if next >= WindowBytes * 8 {
        break;
      }
      var bit := image[pixel + k] & 1;
      ExtractPixelStep(img, width, height, channels, index, pixel, k, next);
      FillingStep(img, width, height, channels, message[..], next, bit);
      ghost var after := message[..][next / 8 := OrAt(message[next / 8], bit, next % 8)];
      message[next / 8] := OrAt(message[next / 8], bit, next % 8);
      assert message[..] == after;
      next := next + 1;
    }
  }
}
