/**
 The batch side of `main`: which directory entries `createwm` and `verifywm`
 treat as images, and the embedding jobs `createwm` issues, one per accepted
 image and identity line, with their output names.
 */
module Batch {
  import opened Wrappers
  import opened Bytes

  /** `std::string::npos`, the largest `size_t`, with `size_t` 64 bits wide. */
  const NPos: nat := 0xFFFF_FFFF_FFFF_FFFF

  /** Addition on `size_t`, which wraps around at 2^64. */
  function SizeAdd(a: nat, b: nat): (r: nat)
    ensures r < 0x1_0000_0000_0000_0000
    ensures a + b < 0x1_0000_0000_0000_0000 ==> r == a + b
    ensures a + b == 0x1_0000_0000_0000_0000 ==> r == 0
  {
    (a + b) % 0x1_0000_0000_0000_0000
  }

  /** `find_last_of` for one character: the index of its last occurrence, if any. */
  function FindLastOf(s: string, c: char): (r: Option<nat>)
    ensures r.Some? ==> r.value < |s| && s[r.value] == c && forall k :: r.value < k < |s| ==> s[k] != c
    ensures r.None? ==> forall k :: 0 <= k < |s| ==> s[k] != c
  {
    if s == [] then None
    else if s[|s| - 1] == c then Some(|s| - 1)
    else FindLastOf(s[..|s| - 1], c)
  }

  /**
   Where the extension starts: one past the last `.`. Without a `.`,
   `find_last_of` gives `npos`, and `npos + 1` wraps around to 0.
   */
  function ExtensionStart(filename: string): (start: nat)
    ensures start <= |filename|
  {
    match FindLastOf(filename, '.')
    case Some(i) => i + 1
    case None => SizeAdd(NPos, 1)
  }

  /** The text after the last `.` of a file name, or the whole name when it has no `.`. */
  function Extension(filename: string): string
  {
    filename[ExtensionStart(filename)..]
  }

  /** The extension is a dot-free suffix of the name, preceded by a `.` unless it is the whole name. */
  lemma ExtensionShape(filename: string)
    ensures var ext := Extension(filename);
      |ext| <= |filename| && ext == filename[|filename| - |ext|..] &&
      (forall k :: 0 <= k < |ext| ==> ext[k] != '.') &&
      (|ext| < |filename| ==> filename[|filename| - |ext| - 1] == '.')
  {
  }

  /** The filter of `createwm` and `verifywm`: the extension is exactly `jpg` or `png`. */
  predicate IsImageFile(filename: string)
  {
    Extension(filename) == "jpg" || Extension(filename) == "png"
  }

  /**
   For a dot-free `ext`, a name has extension `ext` exactly when it is `ext`
   itself or ends with `.` followed by `ext`.
   */
  lemma ExtensionIs(filename: string, ext: string)
    requires forall k :: 0 <= k < |ext| ==> ext[k] != '.'
    ensures Extension(filename) == ext <==>
      (filename == ext ||
       (|filename| > |ext| && filename[|filename| - |ext| - 1] == '.' && filename[|filename| - |ext|..] == ext))
  {
    var n := |filename|;
    match FindLastOf(filename, '.')
    case None =>
      if n > |ext| && filename[n - |ext| - 1] == '.' {
        assert false;
      }
    case Some(i) =>
      if filename == ext {
        assert false;
      }
      if n > |ext| && filename[n - |ext| - 1] == '.' && filename[n - |ext|..] == ext {
        if i > n - |ext| - 1 {
          assert false;
        }
      }
  }

  /** A name is accepted exactly when it is `jpg` or `png`, or ends with `.jpg` or `.png`. */
  lemma IsImageFileIff(filename: string)
    ensures IsImageFile(filename) <==>
      (filename == "jpg" || filename == "png" ||
       (|filename| >= 4 && (filename[|filename| - 4..] == ".jpg" || filename[|filename| - 4..] == ".png")))
  {
    ExtensionIs(filename, "jpg");
    ExtensionIs(filename, "png");
    var n := |filename|;
    if n >= 4 {
      assert filename[n - 4..] == [filename[n - 4]] + filename[n - 3..];
    }
  }

  /** The character of decimal digit `d`. */
  function DigitChar(d: nat): (c: char)
    requires d < 10
    ensures '0' <= c <= '9'
  {
    ('0' as int + d) as char
  }

  /** `std::to_string` of a non-negative `int`: its decimal digits, most significant first. */
  function Decimal(n: nat): (r: string)
    ensures |r| >= 1
    ensures forall k :: 0 <= k < |r| ==> '0' <= r[k] <= '9'
    ensures r[0] == '0' ==> n == 0
  {
    if n < 10 then [DigitChar(n)] else Decimal(n / 10) + [DigitChar(n % 10)]
  }

  /** The number a string of decimal digits denotes. */
  function DecimalValue(s: string): nat
    requires forall k :: 0 <= k < |s| ==> '0' <= s[k] <= '9'
  {
    if s == [] then 0 else DecimalValue(s[..|s| - 1]) * 10 + (s[|s| - 1] as int - '0' as int)
  }

  /** `Decimal` is read back by `DecimalValue`, so distinct numbers get distinct digits. */
  lemma {:induction false} DecimalRoundTrip(n: nat)
    ensures DecimalValue(Decimal(n)) == n
  {
    if n >= 10 {
      DecimalRoundTrip(n / 10);
      var r := Decimal(n);
      assert r[..|r| - 1] == Decimal(n / 10);
    }
  }

  /** The output file name for message `idx` of the list and accepted image number `index`. */
  function OutputName(idx: nat, index: nat, filename: string): string
  {
    Decimal(idx) + Decimal(index) + "_" + filename
  }

  /** An output name starts with a digit and ends with `_` followed by the image file name. */
  lemma OutputNameShape(idx: nat, index: nat, filename: string)
    ensures var name := OutputName(idx, index, filename);
      |name| > |filename| + 2 && '0' <= name[0] <= '9' &&
      name[|name| - |filename|..] == filename && name[|name| - |filename| - 1] == '_'
  {
    var digits := Decimal(idx) + Decimal(index);
    assert OutputName(idx, index, filename) == digits + ("_" + filename);
  }

  /**
   An output name determines its image file name and the digits before the
   `_`: the digits hold no `_`, so the first `_` ends them.
   */
  lemma OutputNameParts(idx: nat, index: nat, filename: string, idx': nat, index': nat, filename': string)
    requires OutputName(idx, index, filename) == OutputName(idx', index', filename')
    ensures filename == filename'
    ensures Decimal(idx) + Decimal(index) == Decimal(idx') + Decimal(index')
  {
    var d, d' := Decimal(idx) + Decimal(index), Decimal(idx') + Decimal(index');
    DigitsHaveNoUnderscore(Decimal(idx), Decimal(index));
    DigitsHaveNoUnderscore(Decimal(idx'), Decimal(index'));
    SplitAtFirst(d, filename, d', filename', '_');
  }

  /** Two runs of decimal digits together hold no `_`. */
  lemma DigitsHaveNoUnderscore(a: string, b: string)
    requires forall k :: 0 <= k < |a| ==> '0' <= a[k] <= '9'
    requires forall k :: 0 <= k < |b| ==> '0' <= b[k] <= '9'
    ensures forall k :: 0 <= k < |a + b| ==> (a + b)[k] != '_'
  {
    forall k | 0 <= k < |a + b|
      ensures (a + b)[k] != '_'
    {
      if k < |a| {
        assert (a + b)[k] == a[k];
      } else {
        assert (a + b)[k] == b[k - |a|];
      }
    }
  }

  /** The index of the first `c` in `s`, or `|s|` when there is none. */
  function IndexOf(s: string, c: char): nat
  {
    if s == [] || s[0] == c then 0 else 1 + IndexOf(s[1..], c)
  }

  /** In a `sep`-free head followed by `sep`, the first `sep` is right after the head. */
  lemma {:induction false} IndexOfAfterHead(head: string, sep: char, tail: string)
    requires forall k :: 0 <= k < |head| ==> head[k] != sep
    ensures IndexOf(head + [sep] + tail, sep) == |head|
  {
    var text := head + [sep] + tail;
    if head == [] {
      assert text[0] == sep;
    } else {
      assert text[0] == head[0] && text[1..] == head[1..] + [sep] + tail;
      IndexOfAfterHead(head[1..], sep, tail);
    }
  }

  /** A text that is a `sep`-free head, then `sep`, then a tail, splits in one way only. */
  lemma SplitAtFirst(head: string, tail: string, head': string, tail': string, sep: char)
    requires forall k :: 0 <= k < |head| ==> head[k] != sep
    requires forall k :: 0 <= k < |head'| ==> head'[k] != sep
    requires head + [sep] + tail == head' + [sep] + tail'
    ensures head == head' && tail == tail'
  {
    var text := head + [sep] + tail;
    IndexOfAfterHead(head, sep, tail);
    IndexOfAfterHead(head', sep, tail');
    assert head == text[..|head|] == head';
    assert tail == text[|head| + 1..] == tail';
  }

  /** For one image file, the output names of different messages differ. */
  lemma OutputNamesDistinct(idx: nat, idx': nat, index: nat, filename: string)
    requires idx != idx'
    ensures OutputName(idx, index, filename) != OutputName(idx', index, filename)
  {
    if OutputName(idx, index, filename) == OutputName(idx', index, filename) {
      OutputNameParts(idx, index, filename, idx', index, filename);
      var d, d' := Decimal(idx), Decimal(idx');
      var e := Decimal(index);
      assert |d| == |d'| && d == (d + e)[..|d|] && d' == (d' + e)[..|d'|];
      DecimalRoundTrip(idx);
      DecimalRoundTrip(idx');
    }
  }

  /** The characters of the C string literal `"\0"`: an explicit NUL and the terminating one. */
  const NulLiteral: seq<byte> := [0, 0]

  /** `message.append("\0")` appends the C string the literal denotes, which is empty. */
  lemma AppendNulIsNoOp(line: seq<byte>)
    ensures line + CString(NulLiteral) == line
  {
    assert CString(NulLiteral) == [];
  }

  /** One call of `embedmessage` issued by `createwm`. */
  datatype Job = Job(inputPath: string, message: seq<byte>, outputPath: string)

  /** The accepted directory entries, in directory order. */
  function ImageFiles(entries: seq<string>): (files: seq<string>)
    ensures |files| <= |entries|
    ensures forall k :: 0 <= k < |files| ==> IsImageFile(files[k])
  {
    if entries == [] then []
    else
      var init := ImageFiles(entries[..|entries| - 1]);
      if IsImageFile(entries[|entries| - 1]) then init + [entries[|entries| - 1]] else init
  }

  /** An entry is among the accepted files exactly when it passes the filter. */
  lemma {:induction false} ImageFilesMembers(entries: seq<string>, filename: string)
    ensures filename in ImageFiles(entries) <==> filename in entries && IsImageFile(filename)
  {
    if entries != [] {
      var init := entries[..|entries| - 1];
      ImageFilesMembers(init, filename);
      assert entries == init + [entries[|entries| - 1]];
    }
  }

  /** The job for message `idx` on image file `filename`, the `index`-th accepted one. */
  function MakeJob(inputDir: string, outputDir: string, filename: string, index: nat,
                   messages: seq<seq<byte>>, idx: nat): Job
    requires idx < |messages|
  {
    Job(inputDir + "/" + filename, messages[idx], outputDir + "/" + OutputName(idx, index, filename))
  }

  /** The jobs for one image file, one per message in list order. */
  function FileJobs(inputDir: string, outputDir: string, filename: string, index: nat,
                    messages: seq<seq<byte>>): seq<Job>
  {
    seq(|messages|, idx requires 0 <= idx < |messages| => MakeJob(inputDir, outputDir, filename, index, messages, idx))
  }

  /** The jobs for the accepted files `files`, the `k`-th of which has image number `k`. */
  function JobsFor(inputDir: string, outputDir: string, files: seq<string>, messages: seq<seq<byte>>): seq<Job>
  {
    if files == [] then []
    else
      JobsFor(inputDir, outputDir, files[..|files| - 1], messages)
      + FileJobs(inputDir, outputDir, files[|files| - 1], |files| - 1, messages)
  }

  /** The jobs `createwm` issues for the directory entries `entries`, in order. */
  function BatchJobs(inputDir: string, outputDir: string, entries: seq<string>, messages: seq<seq<byte>>): seq<Job>
  {
    JobsFor(inputDir, outputDir, ImageFiles(entries), messages)
  }

  /** Each accepted file gets `|messages|` jobs. */
  lemma {:induction false} JobsForCount(inputDir: string, outputDir: string, files: seq<string>,
                                        messages: seq<seq<byte>>)
    ensures |JobsFor(inputDir, outputDir, files, messages)| == |files| * |messages|
  {
    if files != [] {
      JobsForCount(inputDir, outputDir, files[..|files| - 1], messages);
      MulStep(|files| - 1, |messages|);
    }
  }

  lemma MulStep(a: nat, b: nat)
    ensures (a + 1) * b == a * b + b
  {
  }

  /** Job `k * |messages| + m` embeds message `m` into file `k`. */
  lemma {:induction false} JobsForAt(inputDir: string, outputDir: string, files: seq<string>,
                                     messages: seq<seq<byte>>, k: nat, m: nat)
    requires k < |files| && m < |messages|
    ensures k * |messages| + m < |JobsFor(inputDir, outputDir, files, messages)|
    ensures JobsFor(inputDir, outputDir, files, messages)[k * |messages| + m]
         == MakeJob(inputDir, outputDir, files[k], k, messages, m)
  {
    var init := files[..|files| - 1];
    if k < |init| {
      JobsForAt(inputDir, outputDir, init, messages, k, m);
      JobOfEarlierFile(inputDir, outputDir, files, messages, k, m);
    } else {
      JobsForCount(inputDir, outputDir, init, messages);
      JobOfLastFile(inputDir, outputDir, files, messages, m);
    }
  }

  /** Adding a file keeps the jobs of the earlier files in place. */
  lemma JobOfEarlierFile(inputDir: string, outputDir: string, files: seq<string>, messages: seq<seq<byte>>,
                         k: nat, m: nat)
    requires k < |files| - 1 && m < |messages|
    requires k * |messages| + m < |JobsFor(inputDir, outputDir, files[..|files| - 1], messages)|
    requires JobsFor(inputDir, outputDir, files[..|files| - 1], messages)[k * |messages| + m]
          == MakeJob(inputDir, outputDir, files[k], k, messages, m)
    ensures k * |messages| + m < |JobsFor(inputDir, outputDir, files, messages)|
    ensures JobsFor(inputDir, outputDir, files, messages)[k * |messages| + m]
         == MakeJob(inputDir, outputDir, files[k], k, messages, m)
  {
    var before := JobsFor(inputDir, outputDir, files[..|files| - 1], messages);
    var own := FileJobs(inputDir, outputDir, files[|files| - 1], |files| - 1, messages);
    AppendAt(before, own, k * |messages| + m);
  }

  /** The jobs of the last file follow those of all earlier files. */
  lemma JobOfLastFile(inputDir: string, outputDir: string, files: seq<string>, messages: seq<seq<byte>>, m: nat)
    requires files != [] && m < |messages|
    requires |JobsFor(inputDir, outputDir, files[..|files| - 1], messages)| == (|files| - 1) * |messages|
    ensures (|files| - 1) * |messages| + m < |JobsFor(inputDir, outputDir, files, messages)|
    ensures JobsFor(inputDir, outputDir, files, messages)[(|files| - 1) * |messages| + m]
         == MakeJob(inputDir, outputDir, files[|files| - 1], |files| - 1, messages, m)
  {
    var before := JobsFor(inputDir, outputDir, files[..|files| - 1], messages);
    var own := FileJobs(inputDir, outputDir, files[|files| - 1], |files| - 1, messages);
    AppendAt(before, own, |before| + m);
  }

  lemma AppendAt<T>(a: seq<T>, b: seq<T>, n: nat)
    requires n < |a| + |b|
    ensures (a + b)[n] == if n < |a| then a[n] else b[n - |a|]
  {
  }

  /**
   `createwm` has one job per accepted file and message: job `k * |messages| + m`
   embeds message `m` into the `k`-th accepted file and writes it under
   `OutputName(m, k, file)`, so each file's jobs follow the message list.
   */
  lemma BatchJobsShape(inputDir: string, outputDir: string, entries: seq<string>,
                       messages: seq<seq<byte>>, k: nat, m: nat)
    requires k < |ImageFiles(entries)| && m < |messages|
    ensures |BatchJobs(inputDir, outputDir, entries, messages)| == |ImageFiles(entries)| * |messages|
    ensures k * |messages| + m < |BatchJobs(inputDir, outputDir, entries, messages)|
    ensures BatchJobs(inputDir, outputDir, entries, messages)[k * |messages| + m]
         == MakeJob(inputDir, outputDir, ImageFiles(entries)[k], k, messages, m)
  {
    JobsForCount(inputDir, outputDir, ImageFiles(entries), messages);
    JobsForAt(inputDir, outputDir, ImageFiles(entries), messages, k, m);
  }

  /** No two positions of `s` hold the same value. */
  predicate Distinct<T(==)>(s: seq<T>)
  {
    forall i, j :: 0 <= i < j < |s| ==> s[i] != s[j]
  }

  /** Distinct directory entries give distinct accepted files. */
  lemma {:induction false} ImageFilesDistinct(entries: seq<string>)
    requires Distinct(entries)
    ensures Distinct(ImageFiles(entries))
  {
    if entries != [] {
      var init := entries[..|entries| - 1];
      var last := entries[|entries| - 1];
      assert Distinct(init);
      ImageFilesDistinct(init);
      if IsImageFile(last) {
        ImageFilesMembers(init, last);
        assert last !in init;
        var files := ImageFiles(init) + [last];
        forall i, j | 0 <= i < j < |files|
          ensures files[i] != files[j]
        {
          if j == |files| - 1 {
            assert files[i] in ImageFiles(init);
          }
        }
      }
    }
  }

  /**
   For distinct accepted files, the jobs of two different (file, message)
   pairs write to different output paths: no output overwrites another.
   */
  lemma DistinctOutputPaths(inputDir: string, outputDir: string, files: seq<string>, messages: seq<seq<byte>>,
                            k: nat, m: nat, k': nat, m': nat)
    requires Distinct(files)
    requires k < |files| && k' < |files| && m < |messages| && m' < |messages|
    requires k != k' || m != m'
    ensures MakeJob(inputDir, outputDir, files[k], k, messages, m).outputPath
         != MakeJob(inputDir, outputDir, files[k'], k', messages, m').outputPath
  {
    var name, name' := OutputName(m, k, files[k]), OutputName(m', k', files[k']);
    if outputDir + "/" + name == outputDir + "/" + name' {
      assert name == (outputDir + "/" + name)[|outputDir| + 1..];
      assert name' == (outputDir + "/" + name')[|outputDir| + 1..];
      OutputNameParts(m, k, files[k], m', k', files[k']);
      assert k == k';
      OutputNamesDistinct(m, m', k, files[k]);
    }
  }

  /** One more directory entry: accepted, it adds its file and that file's jobs. */
  lemma EntryStep(inputDir: string, outputDir: string, entries: seq<string>, e: nat, messages: seq<seq<byte>>)
    requires e < |entries|
    ensures ImageFiles(entries[..e + 1])
         == if IsImageFile(entries[e]) then ImageFiles(entries[..e]) + [entries[e]] else ImageFiles(entries[..e])
    ensures IsImageFile(entries[e]) ==>
      JobsFor(inputDir, outputDir, ImageFiles(entries[..e + 1]), messages)
      == JobsFor(inputDir, outputDir, ImageFiles(entries[..e]), messages)
       + FileJobs(inputDir, outputDir, entries[e], |ImageFiles(entries[..e])|, messages)
  {
    assert entries[..e + 1][..e] == entries[..e] && entries[..e + 1][e] == entries[e];
    var files := ImageFiles(entries[..e]);
    assert (files + [entries[e]])[..|files|] == files;
  }

  /** The job the message loop appends for message `idx` is the next one of the file. */
  lemma FileJobsStep(inputDir: string, outputDir: string, filename: string, index: nat,
                     messages: seq<seq<byte>>, idx: nat, current: seq<Job>)
    requires idx < |messages| && current == FileJobs(inputDir, outputDir, filename, index, messages)[..idx]
    ensures current + [Job(inputDir + "/" + filename, messages[idx] + CString(NulLiteral),
                           outputDir + "/" + (Decimal(idx) + Decimal(index) + "_" + filename))]
         == FileJobs(inputDir, outputDir, filename, index, messages)[..idx + 1]
  {
    AppendNulIsNoOp(messages[idx]);
    var all := FileJobs(inputDir, outputDir, filename, index, messages);
    assert all[..idx + 1] == all[..idx] + [all[idx]];
  }

  /**
   The directory loop of `createwm`: entries that are not images are skipped;
   for each accepted image every identity line, with the no-op `append("\0")`,
   becomes a job, and the accepted-image counter then goes up.
   */
  method PlanBatch(inputDir: string, outputDir: string, entries: seq<string>, messages: seq<seq<byte>>)
    returns (jobs: seq<Job>)
    ensures jobs == BatchJobs(inputDir, outputDir, entries, messages)
  {
    jobs := [];
    var index := 0;
    ghost var files: seq<string> := [];
    var e := 0;
    while e < |entries|
      invariant 0 <= e <= |entries|
      invariant files == ImageFiles(entries[..e]) && index == |files|
      invariant jobs == JobsFor(inputDir, outputDir, files, messages)
    {
      var filename := entries[e];
      EntryStep(inputDir, outputDir, entries, e, messages);
      e := e + 1;
      var extension := filename[ExtensionStart(filename)..];
      if extension != "jpg" && extension != "png" {
        continue;
      }
      var inputPath := inputDir + "/" + filename;
      var fileJobs := [];
      for idx := 0 to |messages|
        invariant fileJobs == FileJobs(inputDir, outputDir, filename, index, messages)[..idx]
      {
        var message := messages[idx] + CString(NulLiteral);
        FileJobsStep(inputDir, outputDir, filename, index, messages, idx, fileJobs);
        var outputFilename := Decimal(idx) + Decimal(index) + "_" + filename;
        var outputPath := outputDir + "/" + outputFilename;
        fileJobs := fileJobs + [Job(inputPath, message, outputPath)];
      }
      assert fileJobs == FileJobs(inputDir, outputDir, filename, index, messages);
      jobs := jobs + fileJobs;
      files := files + [filename];
      index := index + 1;
    }
    assert entries[..|entries|] == entries;
  }
}
