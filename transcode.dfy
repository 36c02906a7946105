/** The transcode decision of upload.py: how many times a file exceeds the
    upload ceiling, the reduced resolution handed to the converter, and the
    name of the converted file. */
module Transcode {
  import opened Paths

  /** The largest file the service accepts, 100 MiB in bytes. */
  const SizeCeiling: nat := 104857600

  /** `file_size / 104857600` with Python 3 true division: the number of
      ceilings the file fills, fractions included. */
  function ExceedRatio(size: nat): (r: real)
    ensures r >= 0.0 && r * SizeCeiling as real == size as real
  {
    size as real / SizeCeiling as real
  }

  /** The test `exceed_factor >= 1` that sends a file to the converter; the
      ratio reaches 1 exactly at the ceiling. */
  function ExceedsCeiling(size: nat): (b: bool)
    ensures b <==> size >= SizeCeiling
  {
    var r := ExceedRatio(size);
    if size >= SizeCeiling then
      assert r * SizeCeiling as real >= 1.0 * SizeCeiling as real;
      r >= 1.0
    else
      assert r * SizeCeiling as real < 1.0 * SizeCeiling as real;
      r >= 1.0
  }

  /** `math.ceil(exceed_factor)`, in integer arithmetic: the least number of
      ceilings that hold the whole file. */
  function ExceedFactor(size: nat): (k: nat)
    ensures (k - 1) * SizeCeiling < size <= k * SizeCeiling
    ensures size >= SizeCeiling ==> k >= 1
  {
    (size + SizeCeiling - 1) / SizeCeiling
  }

  /** The integer factor is the ceiling of the real ratio, so it agrees
      with `math.ceil` applied to the true quotient. */
  lemma ExceedFactorIsCeiling(size: nat)
    ensures (ExceedFactor(size) - 1) as real < ExceedRatio(size) <= ExceedFactor(size) as real
  {
    var k := ExceedFactor(size);
    var c := SizeCeiling as real;
    assert ((k - 1) * SizeCeiling) as real < size as real <= (k * SizeCeiling) as real;
    assert (k - 1) as real * c < size as real <= k as real * c;
    DivideBelow((k - 1) as real, size as real, c);
    DivideAbove(k as real, size as real, c);
  }

  lemma DivideBelow(x: real, y: real, c: real)
    requires c > 0.0 && x * c < y
    ensures x < y / c
  {
    assert y / c * c == y;
  }

  lemma DivideAbove(x: real, y: real, c: real)
    requires c > 0.0 && y <= x * c
    ensures y / c <= x
  {
    assert y / c * c == y;
  }

  /** A file of exactly the ceiling is still converted, with factor 1. */
  lemma FactorOneOnlyAtCeiling(size: nat)
    requires size >= SizeCeiling
    ensures ExceedFactor(size) == 1 <==> size == SizeCeiling
  {
  }

  /** A 250 MiB file is 2.5 ceilings, rounded up to a factor of 3. */
  lemma FactorOfQuarterGigabyte(size: nat)
    requires size == 262144000
    ensures ExceedsCeiling(size) && ExceedFactor(size) == 3
  {
  }

  /** The `WIDTHxHEIGHT` passed to the converter: each side divided by the
      factor with true division. */
  function TargetDimensions(width: nat, height: nat, k: nat): (r: (real, real))
    requires k >= 1
    ensures r.0 <= width as real && r.1 <= height as real
    ensures r.0 * k as real == width as real && r.1 * k as real == height as real
    ensures r.0 * height as real == r.1 * width as real
    ensures k == 1 ==> r == (width as real, height as real)
  {
    var w := width as real / k as real;
    var h := height as real / k as real;
    assert w * k as real == width as real;
    assert h * k as real == height as real;
    ScaledRatio(width as real, height as real, k as real);
    (w, h)
  }

  /** 3840x2160 divided by a factor of 3 is 1280x720. */
  lemma UltraHdByThree(width: nat, height: nat, k: nat)
    requires width == 3840 && height == 2160 && k == 3
    ensures TargetDimensions(width, height, k) == (1280.0, 720.0)
  {
  }

  lemma ScaledRatio(w: real, h: real, k: real)
    requires k >= 1.0 && w >= 0.0 && h >= 0.0
    ensures w / k <= w && h / k <= h
    ensures (w / k) * h == (h / k) * w
  {
    assert (w / k) * k == w;
    assert (h / k) * k == h;
    assert (w / k) * h * k == w * h;
    assert (h / k) * w * k == w * h;
  }

  /** The converted file name exactly as the source builds it,
      `file_name + '_smaller.' + file_ext`. */
  function SmallerNameAsWritten(fileName: string, fileExt: string): (n: string)
    ensures |n| == |fileName| + 9 + |fileExt|
    ensures n[..|fileName|] == fileName && n[|fileName| + 9..] == fileExt
  {
    fileName + "_smaller." + fileExt
  }

  /** The sample path "big.mp4" splits into "big" and ".mp4". */
  lemma SplitExtBigMp4(p: string)
    requires p == "big.mp4"
    ensures SplitExt(p) == ("big", ".mp4")
  {
    assert Sep !in p;
    LastIndexOfUnique(p, ExtSep, 3);
    NonDotAt(p[0..3], 0);
    assert p[..3] == "big";
    assert p[3..] == ".mp4";
  }

  /** Because the extension from splitext already starts with a dot, the
      name as written doubles the dot: "big.mp4" becomes "big_smaller..mp4"
      where "big_smaller.mp4" was meant. */
  lemma SmallerNameAsWrittenDoublesDot(fileName: string, fileExt: string)
    requires fileName == "big" && fileExt == ".mp4"
    ensures SmallerNameAsWritten(fileName, fileExt) == "big_smaller..mp4"
    ensures SmallerName(fileName, fileExt) == "big_smaller.mp4"
  {
  }

  /** The name as written never splits into `<stem>_smaller<ext>`: with an
      extension, the stem keeps a trailing dot; without one, the lone dot
      becomes the extension. This holds for every path. */
  lemma {:induction false} SmallerNameAsWrittenSplits(p: string)
    ensures var (stem, ext) := SplitExt(p);
      SplitExt(SmallerNameAsWritten(stem, ext)) ==
        if ext == [] then (stem + "_smaller", ".") else (stem + "_smaller.", ext)
  {
    var (stem, ext) := SplitExt(p);
    if ext == [] {
      AsWrittenPlainSplits(stem);
    } else {
      AsWrittenExtSplits(stem, ext);
    }
  }

  lemma {:induction false} AsWrittenPlainSplits(stem: string)
    ensures SplitExt(SmallerNameAsWritten(stem, [])) == (stem + "_smaller", ".")
  {
    BasenameAppend(stem, "_smaller");
    NonDotAt(Basename(stem) + "_smaller", |Basename(stem)|);
    assert "."[1..] == [];
    SplitExtOfJoin(stem + "_smaller", ".");
    assert SmallerNameAsWritten(stem, []) == (stem + "_smaller") + ".";
  }

  lemma {:induction false} AsWrittenExtSplits(stem: string, ext: string)
    requires IsExtension(ext)
    ensures SplitExt(SmallerNameAsWritten(stem, ext)) == (stem + "_smaller.", ext)
  {
    BasenameAppend(stem, "_smaller.");
    NonDotAt(Basename(stem) + "_smaller.", |Basename(stem)|);
    SplitExtOfJoin(stem + "_smaller.", ext);
    assert SmallerNameAsWritten(stem, ext) == (stem + "_smaller.") + ext;
  }

  lemma NonDotAt(s: string, i: nat)
    requires i < |s| && s[i] != ExtSep
    ensures HasNonDot(s)
  {
  }

  /** The evidently intended converted name, `<stem>_smaller<ext>`: the
      original extension, dot included, after the suffix. */
  function SmallerName(fileName: string, fileExt: string): (n: string)
    ensures |n| == |fileName| + 8 + |fileExt|
    ensures n[..|fileName|] == fileName && n[|fileName| + 8..] == fileExt
  {
    fileName + "_smaller" + fileExt
  }

  /** The converted file keeps the original's extension and its stem is the
      original stem with the suffix; this holds for every path. */
  lemma {:induction false} SmallerNameSplits(p: string)
    ensures var (stem, ext) := SplitExt(p);
      SplitExt(SmallerName(stem, ext)) == (stem + "_smaller", ext)
  {
    var (stem, ext) := SplitExt(p);
    if ext == [] {
      assert stem == p;
      SplitExtAppendPlain(p, "_smaller");
      assert SmallerName(stem, ext) == p + "_smaller";
    } else {
      SuffixedStemSplits(stem, ext);
    }
  }

  lemma {:induction false} SuffixedStemSplits(stem: string, ext: string)
    requires IsExtension(ext)
    ensures SplitExt(SmallerName(stem, ext)) == (stem + "_smaller", ext)
  {
    BasenameAppend(stem, "_smaller");
    NonDotAt(Basename(stem) + "_smaller", |Basename(stem)|);
    SplitExtOfJoin(stem + "_smaller", ext);
    assert SmallerName(stem, ext) == (stem + "_smaller") + ext;
  }

  /** The converted name always differs from the path it was derived from. */
  lemma SmallerNameDiffers(p: string)
    ensures var (stem, ext) := SplitExt(p); SmallerName(stem, ext) != p
  {
    var (stem, ext) := SplitExt(p);
    assert |SmallerName(stem, ext)| == |p| + 8;
  }

  /** The converter invocation `avconv -i <input> -s <W>x<H> <output>`,
      its dimensions kept as numbers. */
  datatype ConvertJob = ConvertJob(input: string, width: real, height: real, output: string)

  /** too_big: the conversion of an oversized file, whose output path is
      the file that is sent from then on. */
  function TooBig(filePath: string, fileName: string, fileExt: string,
                  width: nat, height: nat, k: nat): (job: ConvertJob)
    requires k >= 1
    ensures job.input == filePath
    ensures job.output == SmallerName(fileName, fileExt)
    ensures job.width <= width as real && job.height <= height as real
    ensures job.width * height as real == job.height * width as real
  {
    var (w, h) := TargetDimensions(width, height, k);
    ConvertJob(filePath, w, h, SmallerName(fileName, fileExt))
  }
}
