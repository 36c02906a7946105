/** The per-file work of upload.py's main(): split the path, decide on a
    conversion, charge the file's length to the daily quota, pair the file
    with its caption, then remove the caption and move the (possibly
    converted) file into the `sent` directory. The effects on the outside
    world are returned, in order, as data. */
module Upload {
  import opened Paths
  import opened Transcode
  import opened Quota

  /** What the metadata extractor reports for a video: its length in
      microseconds and its frame size in pixels. */
  datatype Metadata = Metadata(duration: nat, width: nat, height: nat)

  /** The outside-world actions taken for one file, in the order main()
      takes them. */
  datatype Effect =
    | Convert(job: ConvertJob)
    | Sleep(seconds: nat)
    | ReadCaption(captionPath: string)
    | RemoveCaption(captionPath: string)
    | MoveToSent(source: string, sentDir: string, destination: string)

  /** read_caption: the caption of `<file_name>` lives in `<file_name>.txt`. */
  function CaptionPath(fileName: string): (c: string)
    ensures |c| == |fileName| + 4 && c[..|fileName|] == fileName
  {
    fileName + ".txt"
  }

  /** The caption file shares its stem with the video: splitting the
      caption path gives back the stem and ".txt". */
  lemma CaptionSplits(fileName: string)
    requires HasNonDot(Basename(fileName))
    ensures SplitExt(CaptionPath(fileName)) == (fileName, ".txt")
  {
    assert ".txt"[1..] == "txt";
    SplitExtOfJoin(fileName, ".txt");
  }

  /** Every file that has an extension is paired with a caption with the
      same stem. */
  lemma CaptionOfFileSharesStem(filePath: string)
    requires SplitExt(filePath).1 != []
    ensures SplitExt(CaptionPath(SplitExt(filePath).0)).0 == SplitExt(filePath).0
  {
    CaptionSplits(SplitExt(filePath).0);
  }

  /** move_video_to_sent_folder: the directory `<dirname>/sent/`, a
      `sent` directory placed under the file's own directory. */
  function SentDir(filePath: string): (d: string)
    ensures var dir := Dirname(filePath);
      |d| == |dir| + 6 && d[..|dir|] == dir && d[|dir|..] == "/sent/"
  {
    Dirname(filePath) + "/sent/"
  }

  /** move_video_to_sent_folder: the new path `<sent_dir>/<basename>`,
      the file's own name inside the sent directory. */
  function SentDestination(filePath: string): (t: string)
    ensures var dir := SentDir(filePath);
      |t| == |dir| + 1 + |Basename(filePath)| && t[..|dir|] == dir &&
      t[|dir|] == Sep && t[|dir| + 1..] == Basename(filePath)
  {
    SentDir(filePath) + "/" + Basename(filePath)
  }

  /** The moved file keeps its name. */
  lemma {:induction false} SentDestinationKeepsName(filePath: string)
    ensures Basename(SentDestination(filePath)) == Basename(filePath)
  {
    var dir := SentDir(filePath) + "/";
    var base := Basename(filePath);
    LastIndexOfAppendLeft(dir, base, Sep);
    assert dir[|dir| - 1] == Sep;
    LastIndexOfUnique(dir, Sep, |dir| - 1);
    assert (dir + base)[|dir|..] == base;
  }

  /** The moved file lands in the `sent` subdirectory of its directory:
      the doubled separator of `<sent_dir>/` is dropped by dirname. */
  lemma {:induction false} SentDestinationInSentDir(filePath: string)
    ensures Dirname(SentDestination(filePath)) == Dirname(filePath) + "/sent"
  {
    var inner := Dirname(filePath) + "/sent";
    var dir := inner + [Sep, Sep];
    assert SentDestination(filePath) == dir + Basename(filePath);
    DirnameOfEntry(dir, Basename(filePath));
    assert dir[|inner| - 1] == 't';
    RStripTwoSlashes(inner);
  }

  /** A path without any directory part has an empty dirname, so its file
      is moved under the root directory's `/sent/`. */
  lemma BareNameGoesToRootSent(filePath: string)
    requires Sep !in filePath
    ensures SentDestination(filePath) == "/sent//" + filePath
  {
  }

  /** The path that main() moves to `sent`: the converted file when the
      file was over the ceiling, the original otherwise. */
  function SentPath(filePath: string, fileSize: nat): (p: string)
    ensures p == filePath <==> fileSize < SizeCeiling
    ensures fileSize >= SizeCeiling ==>
      SplitExt(p) == (SplitExt(filePath).0 + "_smaller", SplitExt(filePath).1)
  {
    SmallerNameDiffers(filePath);
    SmallerNameSplits(filePath);
    if ExceedsCeiling(fileSize) then
      var (fileName, fileExt) := SplitExt(filePath);
      SmallerName(fileName, fileExt)
    else
      filePath
  }

  /** The effects for one file and the quota total afterwards. */
  datatype FileOutcome = FileOutcome(effects: seq<Effect>, uploaded: nat)

  /** Lines 125-148 of main(): the conversion of a file at or over the
      ceiling, with the rounded-up factor, or nothing. */
  function Conversion(filePath: string, fileSize: nat, meta: Metadata): (c: seq<Effect>)
    ensures |c| == if fileSize >= SizeCeiling then 1 else 0
    ensures forall i :: 0 <= i < |c| ==> c[i].Convert?
  {
    if ExceedsCeiling(fileSize) then
      var (fileName, fileExt) := SplitExt(filePath);
      [Convert(TooBig(filePath, fileName, fileExt, meta.width, meta.height, ExceedFactor(fileSize)))]
    else
      []
  }

  /** Lines 157-160 of main(): the day-long sleep, when the quota is reached. */
  function Pause(uploaded: nat, duration: nat): (s: seq<Effect>)
    ensures s == [] || s == [Sleep(DaySeconds)]
  {
    if QuotaStep(uploaded, duration).sleeps then [Sleep(DaySeconds)] else []
  }

  /** Lines 163-174 of main(): the caption, found under the original stem,
      is read and removed, then the file that was sent is moved. */
  function Reconciliation(caption: string, sent: string): (t: seq<Effect>)
    ensures |t| == 3
    ensures forall i :: 0 <= i < |t| ==> !t[i].Convert? && !t[i].Sleep?
    ensures t[0].ReadCaption? && t[1].RemoveCaption?
    ensures t[0].captionPath == caption && t[1].captionPath == caption
    ensures t[2].MoveToSent? && t[2].source == sent
    ensures t[2].destination == SentDestination(sent)
  {
    [ReadCaption(caption), RemoveCaption(caption),
     MoveToSent(sent, SentDir(sent), SentDestination(sent))]
  }

  /** Lines 125-174 of main() for one file of `fileSize` bytes, with
      `uploaded` microseconds already counted against today's quota. */
  function FileStep(filePath: string, fileSize: nat, meta: Metadata, uploaded: nat): (r: FileOutcome)
    ensures r.uploaded < FiveMinutes
    ensures 3 <= |r.effects| <= 5
  {
    var caption := CaptionPath(SplitExt(filePath).0);
    var sent := SentPath(filePath, fileSize);
    FileOutcome(
      Conversion(filePath, fileSize, meta) + Pause(uploaded, meta.duration) +
        Reconciliation(caption, sent),
      QuotaStep(uploaded, meta.duration).total)
  }

  /** A file at or over the ceiling is handed to the converter as it is,
      at the resolution divided by the rounded-up factor, and the
      converter's output is the path that is sent. */
  lemma ConversionOfBigFile(filePath: string, fileSize: nat, meta: Metadata)
    requires fileSize >= SizeCeiling
    ensures var k := ExceedFactor(fileSize);
      var (w, h) := TargetDimensions(meta.width, meta.height, k);
      Conversion(filePath, fileSize, meta) ==
        [Convert(ConvertJob(filePath, w, h, SentPath(filePath, fileSize)))]
  {
  }

  /** Nothing after the conversion step converts. */
  lemma AfterConversionNoConvert(uploaded: nat, duration: nat, caption: string, sent: string)
    ensures var rest := Pause(uploaded, duration) + Reconciliation(caption, sent);
      forall i :: 0 <= i < |rest| ==> !rest[i].Convert?
  {
    var p := Pause(uploaded, duration);
    var t := Reconciliation(caption, sent);
    assert !t[0].Convert? && !t[1].Convert? && !t[2].Convert?;
    if p == [] {
      assert p + t == t;
    } else {
      assert p + t == [Sleep(DaySeconds)] + t;
    }
  }

  /** A file is converted exactly when it is at or over the ceiling, and
      the conversion is the first effect. */
  lemma ConvertsIffTooBig(filePath: string, fileSize: nat, meta: Metadata, uploaded: nat)
    ensures var r := FileStep(filePath, fileSize, meta, uploaded);
      (r.effects[0].Convert? <==> fileSize >= SizeCeiling) &&
      (forall i :: 1 <= i < |r.effects| ==> !r.effects[i].Convert?)
  {
    var c := Conversion(filePath, fileSize, meta);
    var p := Pause(uploaded, meta.duration);
    var t := Reconciliation(CaptionPath(SplitExt(filePath).0), SentPath(filePath, fileSize));
    AfterConversionNoConvert(uploaded, meta.duration, CaptionPath(SplitExt(filePath).0), SentPath(filePath, fileSize));
    ConversionLeads(c, p + t);
    assert c + p + t == c + (p + t);
  }

  /** A conversion step of at most one conversion, followed by steps that
      convert nothing, puts the conversion first or nowhere. */
  lemma ConversionLeads(c: seq<Effect>, rest: seq<Effect>)
    requires |c| <= 1 && |rest| >= 1
    requires forall i :: 0 <= i < |c| ==> c[i].Convert?
    requires forall i :: 0 <= i < |rest| ==> !rest[i].Convert?
    ensures (c + rest)[0].Convert? <==> |c| == 1
    ensures forall i :: 1 <= i < |c + rest| ==> !(c + rest)[i].Convert?
  {
    if |c| == 1 {
      assert (c + rest)[1..] == rest;
    } else {
      assert c + rest == rest;
    }
  }

  /** The day-long sleep happens exactly when this file brings the total
      to five minutes, and then the total restarts from zero; otherwise the
      total grows by the file's length. */
  lemma SleepsIffQuotaReached(filePath: string, fileSize: nat, meta: Metadata, uploaded: nat)
    ensures var r := FileStep(filePath, fileSize, meta, uploaded);
      (Sleep(DaySeconds) in r.effects <==> uploaded + meta.duration >= FiveMinutes) &&
      r.uploaded == (if uploaded + meta.duration >= FiveMinutes then 0 else uploaded + meta.duration)
  {
    var r := FileStep(filePath, fileSize, meta, uploaded);
    var c := Conversion(filePath, fileSize, meta);
    var p := Pause(uploaded, meta.duration);
    var t := Reconciliation(CaptionPath(SplitExt(filePath).0), SentPath(filePath, fileSize));
    assert r.effects == c + p + t;
    assert Sleep(DaySeconds) !in c && Sleep(DaySeconds) !in t;
  }

  /** The caption is read and then removed, both under the stem of the
      ORIGINAL path, and the file moved last is the one that was converted,
      if any, into the `sent` directory of its own directory. */
  lemma CaptionThenMove(filePath: string, fileSize: nat, meta: Metadata, uploaded: nat)
    ensures var r := FileStep(filePath, fileSize, meta, uploaded);
      var n := |r.effects|;
      var caption := CaptionPath(SplitExt(filePath).0);
      var sent := SentPath(filePath, fileSize);
      r.effects[n - 3] == ReadCaption(caption) &&
      r.effects[n - 2] == RemoveCaption(caption) &&
      r.effects[n - 1] == MoveToSent(sent, SentDir(sent), SentDestination(sent))
  {
    var r := FileStep(filePath, fileSize, meta, uploaded);
    var front := Conversion(filePath, fileSize, meta) + Pause(uploaded, meta.duration);
    var t := Reconciliation(CaptionPath(SplitExt(filePath).0), SentPath(filePath, fileSize));
    assert r.effects == front + t;
    assert r.effects[|front|] == t[0];
    assert r.effects[|front| + 1] == t[1];
    assert r.effects[|front| + 2] == t[2];
  }

  /** A file under the ceiling is moved under its own name; an oversized
      one is moved under the converted name, while its caption still
      carries the original stem and not the converted one. */
  lemma {:induction false} ConvertedFileKeepsOriginalCaption(filePath: string, fileSize: nat)
    requires fileSize >= SizeCeiling
    ensures SentPath(filePath, fileSize) != filePath
    ensures CaptionPath(SplitExt(filePath).0) != CaptionPath(SplitExt(SentPath(filePath, fileSize)).0)
  {
    var stem := SplitExt(filePath).0;
    assert SplitExt(SentPath(filePath, fileSize)).0 == stem + "_smaller";
    assert |CaptionPath(stem + "_smaller")| == |CaptionPath(stem)| + 8;
  }

  /** main() for one file, step by step in the source's order: the
      conversion decision, the quota update, the caption and the move. The
      converted file carries the corrected name `<stem>_smaller<ext>`. */
  method ProcessFile(quota: DailyQuota, filePath: string, fileSize: nat, meta: Metadata)
    returns (effects: seq<Effect>)
    modifies quota
    ensures quota.Valid()
    ensures FileStep(filePath, fileSize, meta, old(quota.uploaded)) == FileOutcome(effects, quota.uploaded)
  {
    var (fileName, fileExt) := SplitExt(filePath);
    var sendPath := filePath;
    var convert: seq<Effect> := [];
    if ExceedsCeiling(fileSize) {
        var exceedFactor := ExceedFactor(fileSize);
      var job := TooBig(filePath, fileName, fileExt, meta.width, meta.height, exceedFactor);
      convert := [Convert(job)];
      sendPath := job.output;
    }
    var mustSleep := quota.Add(meta.duration);
    var sleep: seq<Effect> := if mustSleep then [Sleep(DaySeconds)] else [];
    assert sleep == Pause(old(quota.uploaded), meta.duration);
    assert convert == Conversion(filePath, fileSize, meta);
    assert sendPath == SentPath(filePath, fileSize);
    var caption := CaptionPath(fileName);
    effects := convert + sleep +
      [ReadCaption(caption), RemoveCaption(caption),
       MoveToSent(sendPath, SentDir(sendPath), SentDestination(sendPath))];
  }
}
