# stegatool in Dafny

stegatool hides one line of a people list in a PNG or JPG. It writes the line into the
least-significant bits of the pixels (`createwm`). It later reads the line back as a
watermark (`verifywm`). This project models the tool's core, `stegatool.cpp`, and proves
properties of that model:

- **Bytes** (`bytes.dfy`): the bit operations on pixel and message bytes. `byte` is `bv8`.
  Also the conversion of a `char` buffer to a `std::string`, which stops at the first NUL.
- **Layout** (`layout.dfy`): where embedding position `n` sits in the flat pixel buffer. It
  is channel `n % 3` of pixel `n / 3`, which is byte `(n / 3) * channels + n % 3`. Also the
  capacity `width * height * 3` and the feasibility test of `embedmessage`.
- **Embedder** (`embedder.dfy`): `embedmessage` on a loaded image, as a method over an
  `array<byte>`. It keeps the three nested loops and their early exits. It is proved
  against the specification function `Embedded`.
- **Extractor** (`extractor.dfy`): `extractmessage` on a loaded image. It ORs bits into a
  zeroed 1024-byte `char` buffer and stops after 8192 bits or at the end of the image. The
  conversion to `std::string` cuts the buffer at its first NUL. A failure (`return NULL`) is
  `None`. The method is proved against the specification function `Window`.
- **Detection** (`detection.dfy`): the filter loop of `verifywm`. It keeps the longest
  prefix of bytes that are alphanumeric or white space in the "C" locale. It also gives
  the verdict for one image: a watermark, or "No Watermark Detected!" when the prefix is
  empty.
- **RoundTrip** (`roundtrip.dfy`): extraction after embedding. The window starts with the
  message, followed by the window of the original image.
- **Batch** (`batch.dfy`): the directory loop of `createwm`:
  - the extension filter shared with `verifywm`;
  - the output file names `to_string(idx) + to_string(index) + "_" + filename`;
  - the list of `embedmessage` calls (`Job`s) that the loop issues.

Behaviour of the code as written that a reader might not expect:

- **No terminator is embedded.** The `message.append("\0")` call at stegatool.cpp:241 was apparently meant to add one, but it passes a C string literal whose
  first character is NUL, so nothing is appended (`Batch.AppendNulIsNoOp`). Only the
  bytes of the line are embedded. The extracted window therefore goes on with whatever the
  original image's low bits hold (`RoundTrip.WindowAfterEmbed`). The detector reports the
  line followed by any printable bytes from the cover image (`RoundTrip.DetectAfterEmbed`).
- **What an explicit terminator would give.** Had a NUL byte actually been embedded after the
  line, the detector would report exactly the line (`RoundTrip.DetectTerminated`).
- **Extension of a name without a dot.** `find_last_of` returns `npos`, and `npos + 1` wraps
  to 0, so the extension is the whole name. A file called `png` is treated as an image
  (`Batch.IsImageFileIff`).

## Model

| member | source | states |
|---|---|---|
| `Bytes.BitOf` | stegatool.cpp:71 | bit `k` of a byte, `(b >> k) & 1`, is 0 or 1 |
| `Bytes.SetLsb` | stegatool.cpp:75 | `(b & ~1) \| bit` has least-significant bit `bit` and keeps bits 1 to 7 of `b` |
| `Bytes.LowBit` | stegatool.cpp:141 | `pixel[k] & 1` is bit 0 of the byte |
| `Bytes.OrBitsOfByte` | stegatool.cpp:143 | ORing the eight bits of a byte into a zero byte, each at its own position, rebuilds the byte |
| `Bytes.OrBitsBit` | stegatool.cpp:143 | each of eight bits ORed into a zero byte is read back at its position |
| `Bytes.OrBitsZeroTail` | stegatool.cpp:120-143 | ORing zero bits into the zeroed buffer leaves a byte unchanged |
| `Bytes.BitsOfByte` | stegatool.cpp:71 | a byte has eight bits, each 0 or 1 |
| `Bytes.OrAt` | stegatool.cpp:143 | one `message[index_ / 8] \|= (bit << (index_ % 8))`: the byte with `bit` ORed in at bit `s`; its effect is given by `OrBitsBit` and `WindowStep` |
| `Bytes.OrBits` | stegatool.cpp:120-143 | a zero byte (the `{0}` initialiser) with its first `k` bits ORed in one after another, as the extractor assembles a window byte; `OrBitsOfByte` and `OrBitsBit` give its value |
| `Bytes.CString` | stegatool.cpp:154 | the `std::string` made from the buffer is the prefix before the first NUL, holds no NUL, and stops only at a NUL or at the end |
| `Layout.Capacity` | stegatool.cpp:45 | the payload capacity in bits, `width * height * 3`: three embeddable channels per pixel whatever the channel count |
| `Layout.CanEmbed` | stegatool.cpp:35-49 | the two rejection tests of `embedmessage`: at least 3 channels, and `message_length * 8` not above the capacity; `Embed` is accepted exactly when it holds |
| `Layout.Offset` | stegatool.cpp:61-78 | the buffer byte written for message bit `index`, stepping one pixel (`channels` bytes) per three bits; `OffsetFormula` gives its closed form |
| `Layout.Carrier` | stegatool.cpp:61-64 | whether a buffer byte is one of the first three channels of its pixel, the bytes the loops touch; `CarrierOfPixel` characterises it |
| `Layout.Position` | stegatool.cpp:61-78 | the bit index a carrier byte holds, the inverse of `Offset` by `OffsetIsCarrier` and `CarrierHasOffset` |
| `Layout.OffsetFormula` | stegatool.cpp:61-78 | embedding position `n` is byte `(n / 3) * channels + n % 3`, that is channel `n % 3` of pixel `n / 3` |
| `Layout.OffsetOfPixel` | stegatool.cpp:61-75 | channel `k < 3` of pixel `p` holds position `p * 3 + k` |
| `Layout.CarrierOfPixel` | stegatool.cpp:61-64 | byte `k` of a pixel carries a bit exactly when `k < 3`, and then carries position `p * 3 + k` |
| `Layout.OffsetIsCarrier` | stegatool.cpp:52-79 | every position lands on a carrier byte, and that byte maps back to the position |
| `Layout.CarrierHasOffset` | stegatool.cpp:52-79 | every carrier byte is the byte of its own position, so positions and carrier bytes correspond one to one |
| `Layout.OffsetWithinPixel` | stegatool.cpp:61-64 | the three positions of one pixel are its consecutive channels 0, 1 and 2 |
| `Layout.PixelStart` | stegatool.cpp:61 | position `p * 3` is channel 0 of pixel `p` |
| `Layout.PixelInBuffer` | stegatool.cpp:53-61 | for `i < height` and `j < width`, channels 0 to 2 of pixel `i * width + j` lie inside the buffer |
| `Layout.PixelOfRow` | stegatool.cpp:53-61 | the pixel address `(i * width + j) * channels` is the byte of position `(i * width + j) * 3`, and the pixel's three positions are below the capacity |
| `Layout.OffsetIncreasing` | stegatool.cpp:78 | each later position lies further into the buffer |
| `Layout.FitsFewer` | stegatool.cpp:52-79 | if the first positions lie inside the buffer, then so do fewer of them |
| `Layout.CapacityFits` | stegatool.cpp:45 | every position below `width * height * 3` lies inside the `width * height * channels` buffer |
| `Layout.OffsetInBuffer` | stegatool.cpp:45-61 | one position below the capacity lies inside the buffer, so writes never go out of bounds |
| `Layout.PixelPositions` | stegatool.cpp:64 | the three positions of a pixel of the image are below the capacity |
| `Embedder.MessageBit` | stegatool.cpp:71 | message bit `n` is 0 or 1 |
| `Embedder.EmbedPrefix` | stegatool.cpp:52-79 | the buffer once the first `upto` positions are embedded, one after the other; it keeps the buffer length, and `EmbedPrefixAt` gives each byte |
| `Embedder.Embedded` | stegatool.cpp:52-81 | the buffer once the whole message is embedded; it has the length of the original, and `EmbeddedBitPlacement`, `EmbeddedKeepsUpperBits`, `EmbeddedKeepsOtherChannels` and `EmbeddedKeepsTail` give its bytes |
| `Embedder.EmbedPrefixStep` | stegatool.cpp:71-78 | embedding one more position changes only the byte of that position, replacing its least-significant bit with the next message bit |
| `Embedder.EmbedPixelStep` | stegatool.cpp:61-78 | the write `pixel[k] = (pixel[k] & ~1) \| bit` is the next step of the embedding, and stays inside the buffer |
| `Embedder.EmbedPrefixAt` | stegatool.cpp:52-79 | after the first `upto` positions, a carrier byte whose position is below `upto` has the message bit as its least-significant bit; every other byte is unchanged |
| `Embedder.Embed` | stegatool.cpp:35-81 | accepted exactly when `channels >= 3` and `message_length * 8 <= width * height * 3`; rejected leaves the buffer untouched; accepted turns it into `Embedded` of its old contents |
| `Embedder.EmbedRow` | stegatool.cpp:54-80 | the pixel loop of a row embeds the row's positions in order and stops at the message end |
| `Embedder.EmbedPixel` | stegatool.cpp:64-79 | the channel loop of a pixel embeds up to three positions and stops at the message end |
| `Embedder.EmbeddedBitPlacement` | stegatool.cpp:71-75 | after embedding, the least-significant bit at position `n` is bit `n % 8` of message byte `n / 8` |
| `Embedder.EmbeddedKeepsUpperBits` | stegatool.cpp:75 | bits 1 to 7 of every byte are kept |
| `Embedder.EmbeddedKeepsOtherChannels` | stegatool.cpp:64 | channels 3 and up (alpha) are never written |
| `Embedder.EmbeddedKeepsTail` | stegatool.cpp:56-68 | carrier bytes of positions at or after the message end keep their value |
| `Extractor.WindowLimit` | stegatool.cpp:120-137 | the number of bits the extractor reads: `1024 * 8` (`WindowBytes` is the 1024 of `char message[1024]`), or the capacity when the image is smaller; its contract states it is the smaller of the two |
| `Extractor.WindowBit` | stegatool.cpp:141 | each bit read from the image is 0 or 1 |
| `Extractor.ByteBits` | stegatool.cpp:143 | each window byte is assembled from eight bits |
| `Extractor.Filled` | stegatool.cpp:143 | at most eight bits of a window byte are set |
| `Extractor.Window` | stegatool.cpp:120 | the 1024-byte `char message[1024]` buffer once reading stops; `WindowBitAt` gives its bits |
| `Extractor.WindowBitAt` | stegatool.cpp:127-147 | below the limit, bit `n % 8` of window byte `n / 8` is the least-significant bit at the byte of position `n`, which lies in the image; from the limit on it is 0 |
| `Extractor.ZeroLsbWindow` | stegatool.cpp:120-147 | an image whose carrier bytes (channels 0 to 2 of each pixel) all have least-significant bit 0 gives an all-zero window, whatever the other channels hold |
| `Extractor.WindowStep` | stegatool.cpp:141-145 | reading bit `n` ORs it into bit `n % 8` of byte `n / 8` and leaves every other byte alone |
| `Extractor.WindowStepByte` | stegatool.cpp:143 | the byte that one read changes gains that bit |
| `Extractor.WindowComplete` | stegatool.cpp:129-137 | bits past the limit are zero, so every byte is complete when reading stops |
| `Extractor.WindowDone` | stegatool.cpp:127-148 | a buffer holding every byte as it is when reading stops equals `Window` |
| `Extractor.Extract` | stegatool.cpp:110-154 | `None` exactly when `channels < 3`; otherwise the cut-at-NUL window of the image; the image is only read |
| `Extractor.ExtractRow` | stegatool.cpp:128-147 | the pixel loop of a row reads the row's positions in order, up to 8192 bits |
| `Extractor.ExtractPixelStep` | stegatool.cpp:133-141 | `pixel[k] & 1` is window bit `index_` |
| `Extractor.FillingStep` | stegatool.cpp:141-145 | ORing bit `n` into a buffer holding the first `n` bits gives a buffer holding the first `n + 1` |
| `Extractor.ExtractPixel` | stegatool.cpp:134-146 | the channel loop of a pixel reads up to three bits into the window |
| `Detection.IsAlnum` | stegatool.cpp:290 | `isalnum` in the "C" locale: `0`-`9`, `A`-`Z`, `a`-`z` |
| `Detection.IsSpace` | stegatool.cpp:290 | `isspace` in the "C" locale: space, tab, newline, vertical tab, form feed, carriage return |
| `Detection.Kept` | stegatool.cpp:290-291 | the condition `isalnum(c) \|\| isspace(c)` under which a byte is pushed onto the detected message |
| `Detection.PrintablePrefix` | stegatool.cpp:288-293 | the result is a prefix of the input; all its bytes are alphanumeric or space; it stops only at a byte that is neither, or at the end |
| `Detection.PrintablePrefixUnique` | stegatool.cpp:288-293 | any prefix of kept bytes that ends where the input ends, or before a byte that is not kept, is the printable prefix |
| `Detection.PrintablePrefixOfCString` | stegatool.cpp:154 | cutting the window at its first NUL does not change what is detected |
| `Detection.PrintablePrefixAppend` | stegatool.cpp:288-293 | a run of kept bytes at the front is detected in full, and detection continues into what follows |
| `Detection.Detect` | stegatool.cpp:288-293 | the push-back loop produces exactly the printable prefix |
| `Detection.VerdictOf` | stegatool.cpp:295-299 | "No Watermark" exactly when the detected message is empty; otherwise the watermark is the message |
| `Detection.VerifyImage` | stegatool.cpp:287-299 | the verdict for one image is the verdict on the printable prefix of its extraction window |
| `Detection.ZeroLsbNoWatermark` | stegatool.cpp:287-299 | an image whose carrier bytes all have least-significant bit 0 gives "No Watermark" |
| `RoundTrip.WindowBitAfterEmbed` | stegatool.cpp:141 | the bits read from an embedded image are the message bits, followed by the original image's bits |
| `RoundTrip.MessageByteAfterEmbed` | stegatool.cpp:143 | a window byte inside the message is built from the bits of that message byte |
| `RoundTrip.TailByteAfterEmbed` | stegatool.cpp:143 | a window byte past the message is built from the original image's bits |
| `RoundTrip.WindowByteAfterEmbed` | stegatool.cpp:143 | window byte `j` of the embedded image is message byte `j` inside the message, and the original window's byte past it |
| `RoundTrip.WindowAfterEmbed` | stegatool.cpp:120-148 | extraction returns the embedded message followed by the rest of the original window |
| `RoundTrip.DetectAfterEmbed` | stegatool.cpp:289-293 | a printable line is detected in full, followed by whatever printable bytes the cover image gives, because no terminator is embedded |
| `RoundTrip.DetectTerminated` | stegatool.cpp:295-299 | a printable line followed by an embedded NUL is detected exactly, with "No Watermark" exactly when it is empty |
| `Batch.SizeAdd` | stegatool.cpp:228 | `size_t` addition, wrapping at 2^64; with `NPos`, the largest `size_t`, `SizeAdd(NPos, 1)` is 0, the `+ 1` applied to `find_last_of`'s `npos` |
| `Batch.FindLastOf` | stegatool.cpp:228 | `find_last_of('.')` gives the index of the last `.`, or nothing when there is no `.` |
| `Batch.ExtensionStart` | stegatool.cpp:228 | the extension starts one past the last `.`, or at 0 through the wrap of `npos + 1`; it is within the name |
| `Batch.Extension` | stegatool.cpp:228 | `filename.substr(filename.find_last_of(".") + 1)` |
| `Batch.ExtensionShape` | stegatool.cpp:228 | the extension is a suffix of the name with no `.` in it, preceded by a `.` unless it is the whole name |
| `Batch.IsImageFile` | stegatool.cpp:230-232 | the filter shared by `createwm` (:230-232) and `verifywm` (:283-285): the extension is exactly `jpg` or `png`; `IsImageFileIff` characterises it on the whole name |
| `Batch.ExtensionIs` | stegatool.cpp:228 | for a dot-free `ext`, the extension is `ext` exactly when the name is `ext` or ends in `.` followed by `ext` |
| `Batch.IsImageFileIff` | stegatool.cpp:228-232 | a name passes the filter exactly when it is `jpg` or `png`, or ends in `.jpg` or `.png` |
| `Batch.DigitChar` | stegatool.cpp:243 | a digit is a character `0` to `9` |
| `Batch.Decimal` | stegatool.cpp:243 | `to_string` gives at least one decimal digit and no leading zero |
| `Batch.DecimalRoundTrip` | stegatool.cpp:243 | the digits of `to_string(n)` denote `n` |
| `Batch.OutputName` | stegatool.cpp:242-243 | `to_string(idx) + to_string(index) + "_" + filename` |
| `Batch.OutputNameShape` | stegatool.cpp:242-243 | an output name is longer than the file name by at least three characters, starts with a digit, and ends with `_` followed by the image file name |
| `Batch.OutputNameParts` | stegatool.cpp:242-243 | equal output names have the same image file name and the same digits before the `_` |
| `Batch.DigitsHaveNoUnderscore` | stegatool.cpp:243 | the digits before the `_` hold no `_` |
| `Batch.IndexOfAfterHead` | stegatool.cpp:243 | in an output name, the first `_` is the one that follows the digits |
| `Batch.SplitAtFirst` | stegatool.cpp:243 | text made of digits, `_`, and a file name splits in only one way |
| `Batch.OutputNamesDistinct` | stegatool.cpp:239-247 | the different messages of one image get different output names |
| `Batch.AppendNulIsNoOp` | stegatool.cpp:241 | `message.append("\0")` leaves the message unchanged |
| `Batch.MakeJob` | stegatool.cpp:235-245 | the `embedmessage(inputPath, message, outputPath)` call for message `idx` on the `index`-th accepted file: input `input_dir + "/" + filename`, output `output_dir + "/" + OutputName(idx, index, filename)` |
| `Batch.FileJobs` | stegatool.cpp:239-248 | the calls the message loop makes for one accepted file, one per message in list order |
| `Batch.JobsFor` | stegatool.cpp:225-252 | the calls for a list of accepted files, the `k`-th getting image number `k`; `JobsForCount` and `JobsForAt` give its length and each element |
| `Batch.BatchJobs` | stegatool.cpp:224-252 | all calls `createwm` makes for the directory entries: `JobsFor` of the accepted files |
| `Batch.ImageFiles` | stegatool.cpp:225-232 | the accepted entries are no more than the entries, and all of them pass the filter |
| `Batch.ImageFilesMembers` | stegatool.cpp:228-232 | a name is accepted exactly when it is an entry and passes the filter |
| `Batch.ImageFilesDistinct` | stegatool.cpp:225-232 | distinct directory entries give distinct accepted files |
| `Batch.JobsForCount` | stegatool.cpp:239-252 | each accepted file gets one job per message |
| `Batch.JobsForAt` | stegatool.cpp:239-252 | job `k * messages + m` embeds message `m` into the `k`-th file, under image number `k` |
| `Batch.JobOfEarlierFile` | stegatool.cpp:225-252 | handling one more file keeps the jobs of the earlier files where they were |
| `Batch.JobOfLastFile` | stegatool.cpp:239-248 | the jobs of the newest file come after those of all earlier files, in message order |
| `Batch.BatchJobsShape` | stegatool.cpp:224-252 | `createwm` issues (accepted files) × (messages) jobs; job `k * messages + m` embeds message `m` into the `k`-th accepted file and writes `OutputName(m, k, file)` |
| `Batch.DistinctOutputPaths` | stegatool.cpp:242-244 | for distinct accepted files, different (file, message) pairs write different output paths, so no output overwrites another |
| `Batch.EntryStep` | stegatool.cpp:225-252 | one more directory entry: if accepted, it adds its file and that file's jobs; otherwise nothing |
| `Batch.FileJobsStep` | stegatool.cpp:240-247 | one pass of the message loop appends the next job of the file |
| `Batch.PlanBatch` | stegatool.cpp:224-253 | the directory loop issues exactly `BatchJobs` of the entries and messages |

## Left out

- Loading, writing and freeing images (`stbi_load`, `stbi_write_png`, `stbi_image_free`) are left out, because they are foreign library calls. Embedder and Extractor take an already loaded buffer with its dimensions, and a load failure is not modelled.
- The output image is left out: `Embed` changes the buffer in place, and writing it as a PNG at `outputpath` is not modelled. A write failure prints a message and nothing else.
- Directory, file and console I/O are left out: `opendir`/`readdir`, `mkdir`, reading the people list with `getline`, `seekg`, and all `cout` output. Directory entries and people-list lines are given sequences. `PlanBatch` returns the `embedmessage` calls it would make, as `Job`s, instead of making them.
- Argument parsing, the usage messages and the exit codes of `main` are left out, because they are command-line plumbing.
- The directory loop of `verifywm` is left out. It is the same filter (`IsImageFile`) followed by `VerifyImage` for each accepted entry, and the per-entry output is the `Verdict`.
- `Detection.VerifyImage` requires at least 3 channels. When extraction fails, the source builds a `std::string` from `NULL`, which is undefined behaviour, so the model leaves that case out.
- `Bytes.CString` takes a window without any NUL byte as a whole. The source then reads past the 1024-byte buffer, which is undefined behaviour.
- Integer widths are not modelled, because the arithmetic is on unbounded integers. So `int` overflow of `message_length * 8`, `width * height * 3`, the pixel address arithmetic and the counters `index`/`idx` is not modelled. `size_t` wrap-around is modelled only where it changes the result, in `npos + 1`, with `size_t` taken as 64 bits.
- `isalnum`/`isspace` are their "C"-locale definitions. Other locales, and the undefined behaviour of passing a negative `char` to them, are not modelled. Bytes 0x80 and above count as not kept.
- The nested loops of `embedmessage` and `extractmessage` are split into a method per loop level: image, row, pixel. Each inner loop keeps its `break` at the message end or the window end; once that end is reached the outer loops go on without further effect, as in the source.
- File names are Dafny `string`s, sequences of Unicode characters, while `d_name` is a byte string. This changes no result, because the code only compares them with ASCII characters (`.`, `_`, `jpg`, `png`) and concatenates them.
