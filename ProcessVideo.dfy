/**
 * `convertToPdf`: read the frames ffmpeg extracted every ten seconds, keep
 * each frame that differs enough from the last kept one, and lay the kept
 * frames out as PDF pages.
 */
module ProcessVideo {
  import opened Wrappers
  import opened JsText
  import opened RmsDiffs
  import opened ImagePdf
  import Metadata

  /** `output_${i.toString().padStart(4, '0')}.png` */
  function FileName(i: nat): (name: string)
    ensures |name| >= 15
    ensures name[..7] == "output_" && name[|name| - 4..] == ".png"
  {
    "output_" + PadStart(Show(i), 4, '0') + ".png"
  }

  /** The digits between the prefix and the extension of a file name. */
  function NameDigits(name: string): string
    requires |name| >= 11
  {
    name[7..|name| - 4]
  }

  /**
   * The digits of `FileName(i)` are `i.toString()` behind enough zeros to
   * make at least four: never truncated, and read back they give i.
   */
  lemma FileNameDigits(i: nat)
    ensures var d := NameDigits(FileName(i));
      && |d| == (if |Show(i)| >= 4 then |Show(i)| else 4)
      && d[|d| - |Show(i)|..] == Show(i)
      && (forall k :: 0 <= k < |d| - |Show(i)| ==> d[k] == '0')
      && AllDigits(d)
      && Value(d) == i
  {
    var s := Show(i);
    var name := FileName(i);
    assert name == "output_" + PadStart(s, 4, '0') + ".png";
    assert NameDigits(name) == PadStart(s, 4, '0');
    ValueOfShow(i);
    PadZerosValue(s, 4);
  }

  /** Different ordinals read different files. */
  lemma FileNameInjective(i: nat, j: nat)
    ensures FileName(i) == FileName(j) ==> i == j
  {
    FileNameDigits(i);
    FileNameDigits(j);
  }

  /** Ordinal 7 reads "output_0007.png". */
  lemma FileNameOfSeven()
    ensures FileName(7) == "output_0007.png"
  {
  }

  /** From 1000 on the name is the plain decimal ordinal: no padding, no truncation. */
  lemma FileNameOfLargeOrdinal(n: nat)
    requires n >= 1000
    ensures FileName(n) == "output_" + Show(n) + ".png"
  {
    ShowAtLeast(n, 3);
  }

  /** The files ffmpeg wrote, by name. */
  type FileSystem = map<string, seq<byte>>

  /** What `imageToRGBA` resolves with: the RGBA bytes and the image element. */
  datatype Decoded = Decoded(pixels: seq<byte>, image: Image)

  /** A frame that was kept: its ordinal, its RGBA bytes and its image. */
  datatype KeptFrame = KeptFrame(ordinal: nat, pixels: seq<byte>, image: Image)

  /** What reading ordinal i gives: the decoded frame, or `None` when reading or decoding fails. */
  type Reader = nat -> Option<Decoded>

  /**
   * `readFile` and then `imageToRGBA` for each ordinal: `None` when the file
   * is missing or `decode` rejects its bytes.
   */
  function ReadFrame(fs: FileSystem, decode: seq<byte> -> Option<Decoded>): Reader {
    (i: nat) => if FileName(i) in fs then decode(fs[FileName(i)]) else None
  }

  /**
   * Whether a frame is kept against the baseline `uint8Store`: always when
   * there is none, always when the lengths differ, and otherwise unless the
   * RMS difference is below 5 (a NaN difference is never below 5).
   */
  predicate Keeps(baseline: Option<seq<byte>>, pixels: seq<byte>) {
    || baseline.None?
    || |baseline.value| != |pixels|
    || !Rms(Squares(baseline.value, pixels), |pixels|).LessThan(5)
  }

  /**
   * The frames kept from ordinal i to n with the given baseline; a frame
   * that is kept becomes the baseline, and the first failed read stops.
   */
  function Run(read: Reader, i: nat, n: nat, baseline: Option<seq<byte>>): seq<KeptFrame>
    decreases n + 1 - i
  {
    if i > n then []
    else match read(i)
      case None => []
      case Some(d) =>
        if Keeps(baseline, d.pixels) then [KeptFrame(i, d.pixels, d.image)] + Run(read, i + 1, n, Some(d.pixels))
        else Run(read, i + 1, n, baseline)
  }

  /** A failed read at ordinal i ends `Run` there. */
  lemma RunFails(read: Reader, i: nat, n: nat, baseline: Option<seq<byte>>)
    requires read(i).None?
    ensures Run(read, i, n, baseline) == []
  {
  }

  /** A frame that passes the keep test is kept and becomes the baseline. */
  lemma RunKeepsFrame(read: Reader, i: nat, n: nat, baseline: Option<seq<byte>>, d: Decoded)
    requires i <= n && read(i) == Some(d) && Keeps(baseline, d.pixels)
    ensures Run(read, i, n, baseline) == [KeptFrame(i, d.pixels, d.image)] + Run(read, i + 1, n, Some(d.pixels))
  {
  }

  /** A frame that fails the keep test is dropped and the baseline stays. */
  lemma RunDropsFrame(read: Reader, i: nat, n: nat, baseline: Option<seq<byte>>, d: Decoded)
    requires i <= n && read(i) == Some(d) && !Keeps(baseline, d.pixels)
    ensures Run(read, i, n, baseline) == Run(read, i + 1, n, baseline)
  {
  }

  /** The baseline the kept frames leave behind: none before the first, then the last kept frame's bytes. */
  function LastPixels(kept: seq<KeptFrame>): (baseline: Option<seq<byte>>)
    ensures baseline.None? <==> kept == []
    ensures kept != [] ==> baseline == Some(kept[|kept| - 1].pixels)
  {
    if kept == [] then None else Some(kept[|kept| - 1].pixels)
  }

  /**
   * The comparison against `uint8Store`: keep when there is no baseline,
   * when the lengths differ, or when `rmsDiff` is not below 5.
   */
  method KeepFrame(store: Option<seq<byte>>, pixels: seq<byte>) returns (keep: bool)
    ensures keep == Keeps(store, pixels)
  {
    if store.None? {
      return true;
    }
    if |store.value| != |pixels| {
      return true;
    }
    var diff := RmsDiff(store.value, pixels);
    keep := !diff.value.LessThan(5);
  }

  /**
   * The frame loop of `convertToPdf` over ordinals 1..count: the kept
   * frames, in order, as `Run` describes them.  A kept frame becomes the
   * baseline `store`; a dropped frame leaves it; a failed read ends the loop.
   * The store the loop ends with is null when nothing was kept, and otherwise
   * the last kept frame's bytes.
   */
  method CollectFrames(count: nat, fs: FileSystem, decode: seq<byte> -> Option<Decoded>)
    returns (kept: seq<KeptFrame>, store: Option<seq<byte>>)
    ensures kept == Run(ReadFrame(fs, decode), 1, count, None)
    ensures store == LastPixels(kept)
  {
    ghost var read := ReadFrame(fs, decode);
    kept := [];
    store := None;
    var i := 1;
    while i <= count
      invariant 1 <= i <= count + 1
      invariant kept + Run(read, i, count, store) == Run(read, 1, count, None)
      invariant store == LastPixels(kept)
      decreases count + 1 - i
    {
      var fileName := FileName(i);
      if fileName !in fs {
        RunFails(read, i, count, store);
        break;
      }
      var rgba := decode(fs[fileName]);
      assert read(i) == rgba;
      if rgba.None? {
        RunFails(read, i, count, store);
        break;
      }
      var frame := KeptFrame(i, rgba.value.pixels, rgba.value.image);
      var keep := KeepFrame(store, frame.pixels);
      if keep {
        RunKeepsFrame(read, i, count, store, rgba.value);
        assert (kept + [frame]) + Run(read, i + 1, count, Some(frame.pixels)) ==
          kept + ([frame] + Run(read, i + 1, count, Some(frame.pixels)));
        kept := kept + [frame];
        store := Some(frame.pixels);
      } else {
        RunDropsFrame(read, i, count, store, rgba.value);
      }
      i := i + 1;
    }
  }

  /** The images of the kept frames, the `allFiles` array. */
  function Images(frames: seq<KeptFrame>): (images: seq<Image>)
    ensures |images| == |frames|
    ensures forall k :: 0 <= k < |frames| ==> images[k] == frames[k].image
  {
    seq(|frames|, k requires 0 <= k < |frames| => frames[k].image)
  }

  /**
   * What `convertToPdf` downloads: nothing while the metadata log never
   * resolves, and otherwise the PDF of the frames kept over
   * `floor(duration / 10)` ordinals, with `read` giving each ordinal's frame.
   */
  function Pdf(messages: seq<string>, read: Reader, fault: Image -> Fault): Option<seq<Page>> {
    match Metadata.ResolvedLog(messages)
    case None => None
    case Some(log) =>
      var frames := Run(read, 1, Metadata.FrameCount(Metadata.Duration(log)), None);
      Some([InitialPage] + ImagePages(Images(frames), DefaultOptions, fault))
  }

  /**
   * `convertToPdf`: the metadata log, the duration, the frame loop and the
   * page layout, in that order.  `messages` are the log messages ffmpeg
   * emits while probing the input, `fs` the files it extracted, `decode`
   * stands for `imageToRGBA` and `fault` for jsPDF's failures.
   */
  method ConvertToPdf(messages: seq<string>, fs: FileSystem, decode: seq<byte> -> Option<Decoded>, fault: Image -> Fault)
    returns (blob: Option<seq<Page>>)
    ensures blob == Pdf(messages, ReadFrame(fs, decode), fault)
  {
    var metadata := Metadata.GetMetadata(messages);
    if metadata.None? {
      return None;
    }
    var duration := Metadata.Duration(metadata.value);
    var frames, _ := CollectFrames(Metadata.FrameCount(duration), fs, decode);
    var pages := ImagesToOriginalSizePdf(Images(frames), DefaultOptions, fault);
    blob := Some(pages);
  }

  /** The ordinals of `frames` lie in lo..hi and strictly increase. */
  predicate Ordinals(frames: seq<KeptFrame>, lo: int, hi: int) {
    && (forall k :: 0 <= k < |frames| ==> lo <= frames[k].ordinal <= hi)
    && (forall k :: 0 < k < |frames| ==> frames[k - 1].ordinal < frames[k].ordinal)
  }

  /** Every frame in `frames` is what a successful read at its ordinal produced. */
  predicate ReadAtOrdinals(read: Reader, frames: seq<KeptFrame>) {
    forall k :: 0 <= k < |frames| ==> read(frames[k].ordinal) == Some(Decoded(frames[k].pixels, frames[k].image))
  }

  lemma OrdinalsCons(f: KeptFrame, rest: seq<KeptFrame>, hi: int)
    requires Ordinals(rest, f.ordinal + 1, hi) && f.ordinal <= hi
    ensures Ordinals([f] + rest, f.ordinal, hi)
  {
    var r := [f] + rest;
    forall k | 0 < k < |r|
      ensures r[k - 1].ordinal < r[k].ordinal
    {
      assert r[k] == rest[k - 1];
      if k > 1 {
        assert r[k - 1] == rest[k - 2];
      }
    }
  }

  lemma ReadAtOrdinalsCons(read: Reader, f: KeptFrame, rest: seq<KeptFrame>)
    requires ReadAtOrdinals(read, rest)
    requires read(f.ordinal) == Some(Decoded(f.pixels, f.image))
    ensures ReadAtOrdinals(read, [f] + rest)
  {
    var r := [f] + rest;
    forall k | 0 < k < |r|
      ensures read(r[k].ordinal) == Some(Decoded(r[k].pixels, r[k].image))
    {
      assert r[k] == rest[k - 1];
    }
  }

  /** The kept ordinals lie in i..n and strictly increase. */
  lemma {:induction false} RunOrdinals(read: Reader, i: nat, n: nat, baseline: Option<seq<byte>>)
    ensures Ordinals(Run(read, i, n, baseline), i, n)
    decreases n + 1 - i
  {
    if i <= n && read(i).Some? {
      var d := read(i).value;
      if Keeps(baseline, d.pixels) {
        RunKeepsFrame(read, i, n, baseline, d);
        RunOrdinals(read, i + 1, n, Some(d.pixels));
        OrdinalsCons(KeptFrame(i, d.pixels, d.image), Run(read, i + 1, n, Some(d.pixels)), n);
      } else {
        RunDropsFrame(read, i, n, baseline, d);
        RunOrdinals(read, i + 1, n, baseline);
        assert Ordinals(Run(read, i + 1, n, baseline), i, n);
      }
    }
  }

  /** Every kept frame is what a successful read at its ordinal produced. */
  lemma {:induction false} RunReads(read: Reader, i: nat, n: nat, baseline: Option<seq<byte>>)
    ensures ReadAtOrdinals(read, Run(read, i, n, baseline))
    decreases n + 1 - i
  {
    if i <= n && read(i).Some? {
      var d := read(i).value;
      if Keeps(baseline, d.pixels) {
        RunKeepsFrame(read, i, n, baseline, d);
        RunReads(read, i + 1, n, Some(d.pixels));
        ReadAtOrdinalsCons(read, KeptFrame(i, d.pixels, d.image), Run(read, i + 1, n, Some(d.pixels)));
      } else {
        RunDropsFrame(read, i, n, baseline, d);
        RunReads(read, i + 1, n, baseline);
      }
    }
  }

  /**
   * Each kept frame passes the keep test against the frame kept before it
   * (the first one against the starting baseline): the baseline is always
   * the last kept frame.
   */
  lemma {:induction false} RunKeeps(read: Reader, i: nat, n: nat, baseline: Option<seq<byte>>)
    ensures var r := Run(read, i, n, baseline);
      && (|r| > 0 ==> Keeps(baseline, r[0].pixels))
      && (forall k :: 0 < k < |r| ==> Keeps(Some(r[k - 1].pixels), r[k].pixels))
    decreases n + 1 - i
  {
    if i <= n && read(i).Some? {
      var d := read(i).value;
      if Keeps(baseline, d.pixels) {
        RunKeepsFrame(read, i, n, baseline, d);
        RunKeeps(read, i + 1, n, Some(d.pixels));
        var rest := Run(read, i + 1, n, Some(d.pixels));
        var r := [KeptFrame(i, d.pixels, d.image)] + rest;
        forall k | 0 < k < |r|
          ensures Keeps(Some(r[k - 1].pixels), r[k].pixels)
        {
          assert r[k] == rest[k - 1];
          if k > 1 {
            assert r[k - 1] == rest[k - 2];
          }
        }
      } else {
        RunDropsFrame(read, i, n, baseline, d);
        RunKeeps(read, i + 1, n, baseline);
      }
    }
  }

  /** Every ordinal strictly between lo and hi was read and dropped against the baseline. */
  predicate SkippedBetween(read: Reader, lo: int, hi: int, baseline: Option<seq<byte>>) {
    forall j: nat :: lo < j < hi ==> read(j).Some? && !Keeps(baseline, read(j).value.pixels)
  }

  /**
   * Nothing is dropped that should have been kept: every ordinal between two
   * kept frames (or before the first) was read and failed the keep test
   * against the last kept frame.
   */
  lemma {:induction false} RunSkips(read: Reader, i: nat, n: nat, baseline: Option<seq<byte>>)
    ensures var r := Run(read, i, n, baseline);
      && (|r| > 0 ==> SkippedBetween(read, i - 1, r[0].ordinal, baseline))
      && (forall k :: 0 < k < |r| ==> SkippedBetween(read, r[k - 1].ordinal, r[k].ordinal, Some(r[k - 1].pixels)))
    decreases n + 1 - i
  {
    if i <= n && read(i).Some? {
      var d := read(i).value;
      if Keeps(baseline, d.pixels) {
        RunKeepsFrame(read, i, n, baseline, d);
        RunSkips(read, i + 1, n, Some(d.pixels));
        var rest := Run(read, i + 1, n, Some(d.pixels));
        var r := [KeptFrame(i, d.pixels, d.image)] + rest;
        forall k | 0 < k < |r|
          ensures SkippedBetween(read, r[k - 1].ordinal, r[k].ordinal, Some(r[k - 1].pixels))
        {
          assert r[k] == rest[k - 1];
          if k > 1 {
            assert r[k - 1] == rest[k - 2];
          }
        }
      } else {
        RunDropsFrame(read, i, n, baseline, d);
        RunSkips(read, i + 1, n, baseline);
        var r := Run(read, i + 1, n, baseline);
        if |r| > 0 {
          assert SkippedBetween(read, i, r[0].ordinal, baseline);
          SkipOneMore(read, i, r[0].ordinal, baseline, d);
        }
      }
    }
  }

  /** Extending a skipped range down by one ordinal that was read and dropped. */
  lemma SkipOneMore(read: Reader, i: nat, hi: int, baseline: Option<seq<byte>>, d: Decoded)
    requires SkippedBetween(read, i, hi, baseline)
    requires read(i) == Some(d) && !Keeps(baseline, d.pixels)
    ensures SkippedBetween(read, i - 1, hi, baseline)
  {
  }

  /** Two consecutive kept frames are never identical, except empty ones (their RMS is NaN). */
  lemma NoRepeatedFrame(read: Reader, n: nat)
    ensures var r := Run(read, 1, n, None);
      forall k :: 0 < k < |r| && r[k - 1].pixels == r[k].pixels ==> r[k].pixels == []
  {
    var r := Run(read, 1, n, None);
    RunKeeps(read, 1, n, None);
    forall k | 0 < k < |r| && r[k - 1].pixels == r[k].pixels
      ensures r[k].pixels == []
    {
      assert Keeps(Some(r[k - 1].pixels), r[k].pixels);
      SquaresZeroIffEqual(r[k].pixels, r[k].pixels);
    }
  }

  /** A failed read at ordinal k stops the loop: the result is what ordinals before k produced. */
  lemma {:induction false} RunStops(read: Reader, i: nat, n: nat, baseline: Option<seq<byte>>, k: nat)
    requires 1 <= i <= k <= n
    requires read(k) == None
    ensures Run(read, i, n, baseline) == Run(read, i, k - 1, baseline)
    decreases k - i
  {
    if i < k && read(i).Some? {
      var d := read(i).value;
      if Keeps(baseline, d.pixels) {
        RunKeepsFrame(read, i, n, baseline, d);
        RunKeepsFrame(read, i, k - 1, baseline, d);
        RunStops(read, i + 1, n, Some(d.pixels), k);
      } else {
        RunDropsFrame(read, i, n, baseline, d);
        RunDropsFrame(read, i, k - 1, baseline, d);
        RunStops(read, i + 1, n, baseline, k);
      }
    } else if i == k {
      RunFails(read, i, n, baseline);
    }
  }

  /** Something is kept exactly when there is at least one ordinal and frame 1 reads; that frame comes first. */
  lemma FirstFrameKept(read: Reader, n: nat)
    ensures |Run(read, 1, n, None)| > 0 <==> n >= 1 && read(1).Some?
    ensures n >= 1 && read(1).Some? ==>
      var d := read(1).value;
      Run(read, 1, n, None)[0] == KeptFrame(1, d.pixels, d.image)
  {
  }

  /** A frame whose length differs from the baseline's is kept and becomes the baseline. */
  lemma DifferentLengthKept(read: Reader, i: nat, n: nat, baseline: seq<byte>)
    requires i <= n
    requires read(i).Some? && |read(i).value.pixels| != |baseline|
    ensures var d := read(i).value;
      Run(read, i, n, Some(baseline)) == [KeptFrame(i, d.pixels, d.image)] + Run(read, i + 1, n, Some(d.pixels))
  {
  }

  /** A same-length frame within RMS 5 of the baseline is dropped and the baseline stays. */
  lemma CloseFrameSkipped(read: Reader, i: nat, n: nat, baseline: seq<byte>)
    requires i <= n
    requires read(i).Some?
    requires var p := read(i).value.pixels;
      |p| == |baseline| && Rms(Squares(baseline, p), |p|).LessThan(5)
    ensures Run(read, i, n, Some(baseline)) == Run(read, i + 1, n, Some(baseline))
  {
  }

  /** A frame identical to a non-empty baseline is dropped. */
  lemma IdenticalFrameSkipped(read: Reader, i: nat, n: nat, baseline: seq<byte>)
    requires i <= n && |baseline| > 0
    requires read(i).Some? && read(i).value.pixels == baseline
    ensures Run(read, i, n, Some(baseline)) == Run(read, i + 1, n, Some(baseline))
  {
    IdenticalIsBelowThreshold(baseline, 5);
  }

  /**
   * Frames 1 to 3 identical and frame 4 different enough (another length,
   * or an RMS difference of at least 5): frames 1 and 4 are kept.
   */
  lemma SlideChange(read: Reader, p: seq<byte>, q: seq<byte>)
    requires |p| > 0 && Keeps(Some(p), q)
    requires forall j :: 1 <= j <= 3 ==> read(j).Some? && read(j).value.pixels == p
    requires read(4).Some? && read(4).value.pixels == q
    ensures var r := Run(read, 1, 4, None);
      |r| == 2 && r[0].ordinal == 1 && r[1].ordinal == 4
  {
    IdenticalFrameSkipped(read, 2, 4, p);
    IdenticalFrameSkipped(read, 3, 4, p);
    RunKeepsFrame(read, 4, 4, Some(p), read(4).value);
  }

  /** A video shorter than ten seconds, or one whose duration did not parse, gives only the initial page. */
  lemma ShortVideo(messages: seq<string>, read: Reader, fault: Image -> Fault)
    requires Metadata.ResolvedLog(messages).Some?
    requires Metadata.Duration(Metadata.ResolvedLog(messages).value) < 10.0
    ensures Pdf(messages, read, fault) == Some([InitialPage])
  {
    var log := Metadata.ResolvedLog(messages).value;
    assert Metadata.FrameCount(Metadata.Duration(log)) == 0;
    assert Pdf(messages, read, fault) ==
      Some([InitialPage] + ImagePages(Images(Run(read, 1, 0, None)), DefaultOptions, fault));
    assert Run(read, 1, 0, None) == [];
    assert Images([]) == [];
    assert ImagePages([], DefaultOptions, fault) == [];
    assert [InitialPage] + [] == [InitialPage];
  }

  /** Without `Aborted()` in the log the metadata never resolves and nothing is produced. */
  lemma NoAbortNoPdf(messages: seq<string>, read: Reader, fault: Image -> Fault)
    requires forall k :: 0 <= k < |messages| ==> !Contains(messages[k], Metadata.AbortMarker)
    ensures Pdf(messages, read, fault) == None
  {
  }

  /**
   * Without jsPDF failures the PDF is the initial page and then one full-size
   * page per kept frame, in the order the frames were kept.
   */
  lemma PagesOfKeptFrames(messages: seq<string>, read: Reader, fault: Image -> Fault)
    requires Metadata.ResolvedLog(messages).Some?
    requires forall img :: fault(img) == NoFault
    ensures var frames := Run(read, 1, Metadata.FrameCount(Metadata.Duration(Metadata.ResolvedLog(messages).value)), None);
      && Pdf(messages, read, fault).Some?
      && |Pdf(messages, read, fault).value| == 1 + |frames|
      && forall k :: 0 <= k < |frames| ==> Pdf(messages, read, fault).value[k + 1] == FullPage(frames[k].image, DefaultOptions)
  {
    var log := Metadata.ResolvedLog(messages).value;
    var frames := Run(read, 1, Metadata.FrameCount(Metadata.Duration(log)), None);
    var images := Images(frames);
    assert Pdf(messages, read, fault) == Some([InitialPage] + ImagePages(images, DefaultOptions, fault));
    OnePagePerImage(images, DefaultOptions, fault);
  }
}
