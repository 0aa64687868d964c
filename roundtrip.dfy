/**
 How `extractmessage` reads back what `embedmessage` wrote, and what
 `verifywm` then reports for an image that `createwm` produced.
 */
module RoundTrip {
  import opened Bytes
  import opened Layout
  import opened Embedder
  import opened Extractor
  import opened Detection

  /**
   Window bit `n` of an embedded image: the message bit while the message
   lasts, and afterwards the window bit the original image had.
   */
  lemma WindowBitAfterEmbed(img: seq<byte>, width: nat, height: nat, channels: nat, message: seq<byte>, n: nat)
    requires CanEmbed(width, height, channels, |message|) && |img| == width * height * channels
    requires n < WindowBytes * 8
    ensures WindowBit(Embedded(img, width, height, channels, message), width, height, channels, n)
         == if n < |message| * 8 then MessageBit(message, n) else WindowBit(img, width, height, channels, n)
  {
    var e := Embedded(img, width, height, channels, message);
    if n < |message| * 8 {
      EmbeddedBitPlacement(img, width, height, channels, message, n);
      LowBit(e[Offset(n, channels)]);
    } else if n < WindowLimit(width, height) {
      OffsetInBuffer(n, width, height, channels);
      EmbeddedKeepsTail(img, width, height, channels, message, n);
    }
  }

  /**
   Window byte `j` of an embedded image: the message byte `j` while the message
   lasts, and afterwards the window byte the original image had.
   */
  lemma WindowByteAfterEmbed(img: seq<byte>, width: nat, height: nat, channels: nat, message: seq<byte>, j: nat)
    requires CanEmbed(width, height, channels, |message|) && |img| == width * height * channels
    requires j < WindowBytes
    ensures Window(Embedded(img, width, height, channels, message), width, height, channels)[j]
         == if j < |message| then message[j] else Window(img, width, height, channels)[j]
  {
    if j < |message| {
      MessageByteAfterEmbed(img, width, height, channels, message, j);
      OrBitsOfByte(message[j]);
    } else {
      TailByteAfterEmbed(img, width, height, channels, message, j);
    }
  }

  /** The bits of a window byte inside the message are the bits of the message byte. */
  lemma MessageByteAfterEmbed(img: seq<byte>, width: nat, height: nat, channels: nat, message: seq<byte>, j: nat)
    requires CanEmbed(width, height, channels, |message|) && |img| == width * height * channels
    requires j < WindowBytes && j < |message|
    ensures ByteBits(Embedded(img, width, height, channels, message), width, height, channels, j) == BitsOfByte(message[j])
  {
    var e := Embedded(img, width, height, channels, message);
    var bits := ByteBits(e, width, height, channels, j);
    forall t | 0 <= t < 8
      ensures bits[t] == BitsOfByte(message[j])[t]
    {
      var n := 8 * j + t;
      assert bits[t] == WindowBit(e, width, height, channels, n);
      WindowBitAfterEmbed(img, width, height, channels, message, n);
      assert n / 8 == j && n % 8 == t;
    }
  }

  /** The bits of a window byte past the message are those of the original image. */
  lemma TailByteAfterEmbed(img: seq<byte>, width: nat, height: nat, channels: nat, message: seq<byte>, j: nat)
    requires CanEmbed(width, height, channels, |message|) && |img| == width * height * channels
    requires j < WindowBytes && |message| <= j
    ensures ByteBits(Embedded(img, width, height, channels, message), width, height, channels, j)
         == ByteBits(img, width, height, channels, j)
  {
    var e := Embedded(img, width, height, channels, message);
    var bits := ByteBits(e, width, height, channels, j);
    var original := ByteBits(img, width, height, channels, j);
    forall t | 0 <= t < 8
      ensures bits[t] == original[t]
    {
      var n := 8 * j + t;
      assert bits[t] == WindowBit(e, width, height, channels, n);
      assert original[t] == WindowBit(img, width, height, channels, n);
      WindowBitAfterEmbed(img, width, height, channels, message, n);
    }
  }

  /**
   For a message of at most 1024 bytes the window of the embedded image is the
   message followed by the rest of the original image's window; in particular
   its first `|message|` bytes are the message.
   */
  lemma WindowAfterEmbed(img: seq<byte>, width: nat, height: nat, channels: nat, message: seq<byte>)
    requires CanEmbed(width, height, channels, |message|) && |img| == width * height * channels
    requires |message| <= WindowBytes
    ensures Window(Embedded(img, width, height, channels, message), width, height, channels)[..|message|] == message
    ensures Window(Embedded(img, width, height, channels, message), width, height, channels)
         == message + Window(img, width, height, channels)[|message|..]
  {
    var w := Window(Embedded(img, width, height, channels, message), width, height, channels);
    var expected := message + Window(img, width, height, channels)[|message|..];
    forall j | 0 <= j < WindowBytes
      ensures w[j] == expected[j]
    {
      WindowByteAfterEmbed(img, width, height, channels, message, j);
    }
    assert w == expected;
  }

  /**
   What `verifywm` finds in an image made by `createwm`, which embeds the
   identity line with no terminator: the line, followed by whatever the
   original image's own window carries after it.
   */
  lemma DetectAfterEmbed(img: seq<byte>, width: nat, height: nat, channels: nat, message: seq<byte>)
    requires CanEmbed(width, height, channels, |message|) && |img| == width * height * channels
    requires |message| <= WindowBytes
    requires forall i :: 0 <= i < |message| ==> Kept(message[i])
    ensures PrintablePrefix(Window(Embedded(img, width, height, channels, message), width, height, channels))
         == message + PrintablePrefix(Window(img, width, height, channels)[|message|..])
  {
    WindowAfterEmbed(img, width, height, channels, message);
    PrintablePrefixAppend(message, Window(img, width, height, channels)[|message|..]);
  }

  /**
   A line of kept bytes embedded together with a terminating NUL is detected
   exactly, whatever the original image held.
   */
  lemma DetectTerminated(img: seq<byte>, width: nat, height: nat, channels: nat, line: seq<byte>)
    requires CanEmbed(width, height, channels, |line| + 1) && |img| == width * height * channels
    requires |line| + 1 <= WindowBytes
    requires forall i :: 0 <= i < |line| ==> Kept(line[i])
    ensures PrintablePrefix(Window(Embedded(img, width, height, channels, line + [0]), width, height, channels)) == line
    ensures VerdictOf(PrintablePrefix(Window(Embedded(img, width, height, channels, line + [0]), width, height, channels)))
         == if line == [] then NoWatermark else Watermark(line)
  {
    var message := line + [0];
    WindowAfterEmbed(img, width, height, channels, message);
    var rest := Window(img, width, height, channels)[|message|..];
    assert message + rest == line + ([0] + rest);
    PrintablePrefixAppend(line, [0] + rest);
  }
}
