/**
 The watermark detector of the `verifywm` command: the extracted message is
 kept up to the first byte that is neither alphanumeric nor white space in the
 "C" locale, and an empty result means that no watermark was detected.
 */
module Detection {
  import opened Wrappers
  import opened Bytes
  import opened Layout
  import opened Extractor

  /** `isalnum` in the "C" locale: `0`-`9`, `A`-`Z`, `a`-`z`. */
  predicate IsAlnum(c: byte)
  {
    (0x30 <= c <= 0x39) || (0x41 <= c <= 0x5A) || (0x61 <= c <= 0x7A)
  }

  /** `isspace` in the "C" locale: space, tab, newline, vertical tab, form feed, carriage return. */
  predicate IsSpace(c: byte)
  {
    c == 0x20 || (0x09 <= c <= 0x0D)
  }

  /** The bytes the detector keeps. */
  predicate Kept(c: byte)
  {
    IsAlnum(c) || IsSpace(c)
  }

  /** The longest prefix of `s` made of kept bytes. */
  function PrintablePrefix(s: seq<byte>): (r: seq<byte>)
    ensures |r| <= |s| && r == s[..|r|]
    ensures forall i :: 0 <= i < |r| ==> Kept(r[i])
    ensures |r| < |s| ==> !Kept(s[|r|])
  {
    if s == [] || !Kept(s[0]) then [] else [s[0]] + PrintablePrefix(s[1..])
  }

  /** A prefix of kept bytes that is followed by a byte not kept, or by nothing, is the printable prefix. */
  lemma {:induction false} PrintablePrefixUnique(s: seq<byte>, p: seq<byte>)
    requires |p| <= |s| && p == s[..|p|]
    requires forall i :: 0 <= i < |p| ==> Kept(p[i])
    requires |p| < |s| ==> !Kept(s[|p|])
    ensures PrintablePrefix(s) == p
  {
    if p != [] {
      assert s[0] == p[0] && Kept(p[0]);
      assert s[1..][..|p| - 1] == p[1..];
      PrintablePrefixUnique(s[1..], p[1..]);
      assert p == [p[0]] + p[1..];
    }
  }

  /** NUL is not kept, so cutting a buffer at its first NUL does not change what is detected. */
  lemma {:induction false} PrintablePrefixOfCString(s: seq<byte>)
    ensures PrintablePrefix(CString(s)) == PrintablePrefix(s)
  {
    if s != [] && s[0] != 0 && Kept(s[0]) {
      PrintablePrefixOfCString(s[1..]);
      assert CString(s)[1..] == CString(s[1..]);
    }
  }

  /** Kept bytes at the front are all detected, and detection goes on into what follows. */
  lemma {:induction false} PrintablePrefixAppend(m: seq<byte>, rest: seq<byte>)
    requires forall i :: 0 <= i < |m| ==> Kept(m[i])
    ensures PrintablePrefix(m + rest) == m + PrintablePrefix(rest)
  {
    if m != [] {
      var s := m + rest;
      assert s[0] == m[0] && s[1..] == m[1..] + rest;
      PrintablePrefixAppend(m[1..], rest);
      assert Kept(s[0]) && PrintablePrefix(s) == [s[0]] + PrintablePrefix(s[1..]);
      assert [m[0]] + (m[1..] + PrintablePrefix(rest)) == m + PrintablePrefix(rest);
    } else {
      assert m + rest == rest;
    }
  }

  /**
   The filter loop of `verifywm`: bytes of `raw` are pushed onto the detected
   message until the first byte that is not kept.
   */
  method Detect(raw: seq<byte>) returns (message: seq<byte>)
    ensures message == PrintablePrefix(raw)
  {
    message := [];
    for i := 0 to |raw|
      invariant message == raw[..i]
      invariant forall k :: 0 <= k < i ==> Kept(raw[k])
    {
      if Kept(raw[i]) {
        message := message + [raw[i]];
      } else {
        PrintablePrefixUnique(raw, message);
        return;
      }
    }
    PrintablePrefixUnique(raw, message);
  }

  /** What `verifywm` reports for one image: the detected text, or that none was found. */
  datatype Verdict = Watermark(text: seq<byte>) | NoWatermark

  /** The verdict for a detected message: no watermark exactly when it is empty. */
  function VerdictOf(message: seq<byte>): (v: Verdict)
    ensures v.NoWatermark? <==> message == []
    ensures v.Watermark? ==> v.text == message
  {
    if |message| > 0 then Watermark(message) else NoWatermark
  }

  /**
   `verifywm` for one loaded image: extract the message and filter it. The
   source turns the extractor's result into a `std::string`, which is undefined
   when the extractor fails, so the image must have at least 3 channels.
   */
  method VerifyImage(image: array<byte>, width: nat, height: nat, channels: nat) returns (v: Verdict)
    requires image.Length == width * height * channels && channels >= 3
    ensures v == VerdictOf(PrintablePrefix(Window(image[..], width, height, channels)))
  {
    var extracted := Extract(image, width, height, channels);
    var message := Detect(extracted.value);
    PrintablePrefixOfCString(Window(image[..], width, height, channels));
    if |message| > 0 {
      v := Watermark(message);
    } else {
      v := NoWatermark;
    }
  }

  /** An image whose carrier bytes all have a zero least-significant bit carries no watermark. */
  lemma ZeroLsbNoWatermark(img: seq<byte>, width: nat, height: nat, channels: nat)
    requires channels >= 3 && |img| == width * height * channels
    requires forall q :: 0 <= q < |img| && Carrier(q, channels) ==> img[q] & 1 == 0
    ensures VerdictOf(PrintablePrefix(Window(img, width, height, channels))) == NoWatermark
  {
    ZeroLsbWindow(img, width, height, channels);
    assert Window(img, width, height, channels)[0] == 0;
  }
}
