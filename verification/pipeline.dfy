/** The edit operations of edit.go as traces of collaborator calls. Every
    operation opens the photo's workspace first; the outcome of that
    (`openWorkspace`) is an input. Each step that changes a file or asks a
    tool for an artefact is a `Call`; whether it succeeds and what it
    returns is decided by the environment's `exec`. Read-only probes (the
    sidecar lookup, the white balance and "has edits" queries) read the
    environment without being recorded. */
module Pipeline {
  import opened Outcomes
  import opened Paths
  import Meta
  import Sidecar
  import opened Geometry

  /** The files of an opened workspace (`wk.orig()`, `wk.origXMP()`, ...)
      and what it already holds. */
  datatype Workspace = Workspace(
    orig: string,
    origXmp: string,
    edit: string,
    temp: string,
    jpeg: string,
    pixels: string,
    hasEdit: bool,
    hasPixels: bool)

  /** The workspace files are distinct. */
  predicate Distinct(wk: Workspace) {
    var files := [wk.orig, wk.origXmp, wk.edit, wk.temp, wk.jpeg, wk.pixels];
    forall i, j :: 0 <= i < j < |files| ==> files[i] != files[j]
  }

  /** The Camera Raw settings of an edit; only the white balance is
      inspected here. */
  datatype XmpSettings = XmpSettings(whiteBalance: string, adjustments: map<string, string>)

  /** The options given to the DNG converter: nil, or a settings value. */
  datatype ConvertOptions = NoOptions | Options(exp: ExportSettings)

  datatype Call =
    | EditXmp(target: string, xmp: XmpSettings)
    | Convert(src: string, dst: string, size: int, opts: ConvertOptions)
    | PreviewJpeg(path: string)
    | Move(src: string, dst: string)
    | Copy(src: string, dst: string)
    | Rename(src: string, dst: string)
    | ExifTool(args: seq<string>)
    | ReadFile(path: string)
    | WriteFile(path: string, data: Bytes)
    | ExportJpeg(path: string)
    | ResampleJpeg(data: Bytes, exp: ExportSettings)
    | RawPixels(src: string, dst: string)
    | ComputeWhiteBalance(edit: string, pixels: string, coords: seq<real>)
    | LoadXmp(path: string)

  /** The environment: what each call does, the photo's directory as a
      filesystem, the sidecar test and the converter's preview choice. */
  datatype Env = Env(
    exec: Call -> Result<Bytes>,
    files: Sidecar.Files,
    isSidecarForExt: (Bytes, string) -> bool,
    dngPreview: string -> string)

  /** The exiftool server, reached through the environment. */
  function Exif(env: Env): Meta.ExifTool {
    args => env.exec(ExifTool(args))
  }

  function Disk(env: Env): Sidecar.Disk {
    Sidecar.Disk(env.files, env.isSidecarForExt, Exif(env))
  }

  /** The calls made, in order, and what the operation returned. */
  datatype Run = Run(calls: seq<Call>, result: Result<Bytes>)

  /** Every operation stops at the first failing call and returns its
      error; a success is the answer of the last call, all calls having
      succeeded. */
  predicate FailFast(env: Env, r: Run) {
    && (forall i :: 0 <= i < |r.calls| - 1 ==> env.exec(r.calls[i]).Success?)
    && (|r.calls| > 0 && env.exec(r.calls[|r.calls| - 1]).Failure? ==>
          r.result == env.exec(r.calls[|r.calls| - 1]))
    && (r.result.Success? ==> |r.calls| > 0 && r.result == env.exec(r.calls[|r.calls| - 1]))
  }

  /** Run `c`; go on with `rest` only if it succeeded. */
  function Then(env: Env, c: Call, rest: Run): (r: Run)
    ensures |r.calls| >= 1 && r.calls[0] == c
    ensures FailFast(env, rest) ==> FailFast(env, r)
    ensures forall x :: x in r.calls ==> x == c || x in rest.calls
  {
    var o := env.exec(c);
    if o.Failure? then Run([c], o) else Run([c] + rest.calls, rest.result)
  }

  /** Run `c` as the last step. */
  function Last(env: Env, c: Call): (r: Run)
    ensures FailFast(env, r)
  {
    Run([c], env.exec(c))
  }

  /** Stop before any call, with the error of a probe. */
  function Stop(e: Error): (r: Run)
    ensures r.calls == [] && r.result.Failure?
  {
    Run([], Failure(e))
  }

  /** "Camera Matching…" is replaced by what the camera recorded before
      the settings reach any file. */
  function ResolveWhiteBalance(env: Env, wk: Workspace, xmp: XmpSettings): (x: XmpSettings)
    ensures x.whiteBalance != Meta.CameraMatching
    ensures x.adjustments == xmp.adjustments
    ensures xmp.whiteBalance != Meta.CameraMatching ==> x == xmp
  {
    if xmp.whiteBalance == Meta.CameraMatching
    then xmp.(whiteBalance := Meta.CameraMatchingWhiteBalance(Exif(env), wk.orig))
    else xmp
  }

  // ---------------------------------------------------------- operations

  /** `loadEdit`: the settings in the workspace's copy of the sidecar. */
  function LoadEdit(env: Env, ws: Result<Workspace>): (r: Run)
    ensures FailFast(env, r)
    ensures ws.Failure? <==> r.calls == []
  {
    match ws
    case Failure(e) => Stop(e)
    case Success(wk) => Last(env, LoadXmp(wk.origXmp))
  }

  /** The converter options `saveEdit` uses for an edited DNG. */
  function SaveOptions(preview: string): ExportSettings {
    NoSettings.(dng := true, embed := true, preview := preview)
  }

  /** `saveEdit`: write the settings to the workspace sidecar, produce
      DEST.bak (a converted DNG when the destination is the photo itself,
      else a copy of the sidecar) and rename it over DEST, the answer of
      the code's `destSidecar`. */
  function SaveEdit(env: Env, ws: Result<Workspace>, path: string, xmp: XmpSettings): (r: Run)
    ensures FailFast(env, r)
  {
    match ws
    case Failure(e) => Stop(e)
    case Success(wk) =>
      SaveWith(env, wk, path, ResolveWhiteBalance(env, wk, xmp), Sidecar.DestSidecar(Disk(env), path))
  }

  /** `saveEdit` publishing through the corrected `destSidecar`, which
      passes over a NAME.xmp left by another extension. */
  function SaveEditCorrected(env: Env, ws: Result<Workspace>, path: string, xmp: XmpSettings): (r: Run)
    ensures FailFast(env, r)
  {
    match ws
    case Failure(e) => Stop(e)
    case Success(wk) =>
      SaveWith(env, wk, path, ResolveWhiteBalance(env, wk, xmp), Sidecar.DestSidecarFallthrough(Disk(env), path))
  }

  /** `saveEdit` once the settings `x` are resolved and `destSidecar` has
      answered `found`. */
  function SaveWith(env: Env, wk: Workspace, path: string, x: XmpSettings, found: Result<string>): (r: Run)
    ensures FailFast(env, r)
  {
    Then(env, EditXmp(wk.origXmp, x), Publish(env, wk, path, found))
  }

  /** The part of `saveEdit` after the workspace sidecar is written, given
      what `destSidecar` answered. */
  function Publish(env: Env, wk: Workspace, path: string, found: Result<string>): (r: Run)
    ensures FailFast(env, r)
  {
    match found
    case Failure(e) => Stop(e)
    case Success(dest) =>
      var bak := dest + ".bak";
      if path == dest then
        Then(env, Convert(wk.orig, wk.temp, 0, Options(SaveOptions(env.dngPreview(wk.orig)))),
          Then(env, Move(wk.temp, bak), Last(env, Rename(bak, dest))))
      else Then(env, Copy(wk.origXmp, bak), Last(env, Rename(bak, dest)))
  }

  /** `previewEdit`: a full-size preview from the raw file (size 0), a
      preview from the cached edit.dng, or the cache built first. */
  function PreviewEdit(env: Env, ws: Result<Workspace>, size: int, xmp: XmpSettings): (r: Run)
    ensures FailFast(env, r)
  {
    match ws
    case Failure(e) => Stop(e)
    case Success(wk) => PreviewWith(env, wk, size, ResolveWhiteBalance(env, wk, xmp))
  }

  /** `previewEdit` once the settings `x` are resolved. */
  function PreviewWith(env: Env, wk: Workspace, size: int, x: XmpSettings): (r: Run)
    ensures FailFast(env, r)
  {
    if size == 0 then
      Then(env, EditXmp(wk.origXmp, x),
        Then(env, Convert(wk.orig, wk.temp, 0, Options(NoSettings)), Last(env, PreviewJpeg(wk.temp))))
    else if wk.hasEdit then
      Then(env, EditXmp(wk.edit, x),
        Then(env, Convert(wk.edit, wk.temp, size, NoOptions), Last(env, PreviewJpeg(wk.temp))))
    else
      Then(env, EditXmp(wk.origXmp, x),
        Then(env, Convert(wk.orig, wk.edit, 2560, NoOptions), Last(env, PreviewJpeg(wk.edit))))
  }

  /** `exportEdit`: convert the raw file with the export settings, then
      either fix the DNG's metadata and read it, or render a JPEG and
      resample it or give it the original's metadata. */
  function ExportEdit(env: Env, ws: Result<Workspace>, path: string, xmp: XmpSettings, exp: ExportSettings): (r: Run)
    ensures FailFast(env, r)
  {
    match ws
    case Failure(e) => Stop(e)
    case Success(wk) => ExportWith(env, wk, path, ResolveWhiteBalance(env, wk, xmp), exp)
  }

  /** `exportEdit` once the settings `x` are resolved. */
  function ExportWith(env: Env, wk: Workspace, path: string, x: XmpSettings, exp: ExportSettings): (r: Run)
    ensures FailFast(env, r)
  {
    Then(env, EditXmp(wk.origXmp, x), ExportConverted(env, wk, path, exp))
  }

  /** The part of `exportEdit` after the workspace sidecar is written: the
      converter, then the DNG or the JPEG steps. */
  function ExportConverted(env: Env, wk: Workspace, path: string, exp: ExportSettings): (r: Run)
    ensures FailFast(env, r)
  {
    Then(env, Convert(wk.orig, wk.temp, 0, Options(exp)),
      if exp.dng then ExportDngSteps(env, wk, path) else ExportJpegSteps(env, wk, exp))
  }

  /** The DNG half of `exportEdit`. */
  function ExportDngSteps(env: Env, wk: Workspace, path: string): (r: Run)
    ensures FailFast(env, r)
  {
    Then(env, ExifTool(Meta.FixMetaDngArgs(wk.orig, wk.temp, path)), Last(env, ReadFile(wk.temp)))
  }

  /** The JPEG half of `exportEdit`. */
  function ExportJpegSteps(env: Env, wk: Workspace, exp: ExportSettings): (r: Run)
    ensures FailFast(env, r)
  {
    var jpeg := env.exec(ExportJpeg(wk.temp));
    if jpeg.Failure? then Run([ExportJpeg(wk.temp)], jpeg)
    else if exp.resample then
      Then(env, ExportJpeg(wk.temp), Last(env, ResampleJpeg(jpeg.value, exp)))
    else
      Then(env, ExportJpeg(wk.temp),
        Then(env, WriteFile(wk.jpeg, jpeg.value),
          Then(env, ExifTool(Meta.InjectXmpArgs(wk.temp, wk.jpeg)),
            Then(env, ExifTool(Meta.FixMetaJpegArgs(wk.orig, wk.jpeg)), Last(env, ReadFile(wk.jpeg))))))
  }

  /** `loadWhiteBalance`: build the edit cache if missing, extract the raw
      pixels if missing and a point was given, then compute. */
  function LoadWhiteBalance(env: Env, ws: Result<Workspace>, coords: seq<real>): (r: Run)
    ensures FailFast(env, r)
  {
    match ws
    case Failure(e) => Stop(e)
    case Success(wk) =>
      var compute := WhiteBalanceSteps(env, wk, coords);
      if !wk.hasEdit then Then(env, Convert(wk.orig, wk.edit, 2560, NoOptions), compute) else compute
  }

  function WhiteBalanceSteps(env: Env, wk: Workspace, coords: seq<real>): (r: Run)
    ensures FailFast(env, r)
  {
    var last := Last(env, ComputeWhiteBalance(wk.edit, wk.pixels, coords));
    if !wk.hasPixels && |coords| == 2 then Then(env, RawPixels(wk.edit, wk.pixels), last) else last
  }


  // ------------------------------------------------------ run combinators

  /** A run that succeeded got past its first call. */
  lemma ThenSuccess(env: Env, c: Call, rest: Run)
    requires Then(env, c, rest).result.Success?
    ensures env.exec(c).Success?
  {
  }

  /** After a first call that succeeded, the run is the rest's. */
  lemma ThenPass(env: Env, c: Call, rest: Run)
    requires env.exec(c).Success?
    ensures Then(env, c, rest) == Run([c] + rest.calls, rest.result)
  {
  }

  /** Every settings file written receives `x`. */
  predicate WritesOnly(r: Run, x: XmpSettings) {
    forall c :: c in r.calls && c.EditXmp? ==> c.xmp == x
  }

  /** No call writes settings. */
  predicate NoEdit(r: Run) {
    forall c :: c in r.calls ==> !c.EditXmp?
  }

  lemma ThenWrites(env: Env, c: Call, rest: Run, x: XmpSettings)
    requires c.EditXmp? ==> c.xmp == x
    requires WritesOnly(rest, x)
    ensures WritesOnly(Then(env, c, rest), x)
  {
  }

  /** A call that writes no settings, before a run that writes none. */
  lemma ThenNoEdit(env: Env, c: Call, rest: Run)
    requires !c.EditXmp? && NoEdit(rest)
    ensures NoEdit(Then(env, c, rest))
  {
  }

  // ------------------------------------------------ the settings written

  /** No edit ever reaches a file with the "Camera Matching…" placeholder,
      and the rest of the settings go through untouched. */
  predicate EditsResolved(r: Run, xmp: XmpSettings) {
    forall c :: c in r.calls && c.EditXmp? ==>
      c.xmp.whiteBalance != Meta.CameraMatching && c.xmp.adjustments == xmp.adjustments
  }

  /** A run that writes only the resolved settings writes no placeholder. */
  lemma ResolvedWrites(env: Env, wk: Workspace, xmp: XmpSettings, r: Run)
    requires WritesOnly(r, ResolveWhiteBalance(env, wk, xmp))
    ensures EditsResolved(r, xmp)
  {
  }

  lemma SaveSentinelResolved(env: Env, ws: Result<Workspace>, path: string, xmp: XmpSettings)
    ensures EditsResolved(SaveEdit(env, ws, path, xmp), xmp)
  {
    if ws.Success? {
      var wk := ws.value;
      SaveWrites(env, wk, path, ResolveWhiteBalance(env, wk, xmp), Sidecar.DestSidecar(Disk(env), path));
      ResolvedWrites(env, wk, xmp, SaveEdit(env, ws, path, xmp));
    }
  }

  lemma PreviewSentinelResolved(env: Env, ws: Result<Workspace>, size: int, xmp: XmpSettings)
    ensures EditsResolved(PreviewEdit(env, ws, size, xmp), xmp)
  {
    if ws.Success? {
      var wk := ws.value;
      PreviewWrites(env, wk, size, ResolveWhiteBalance(env, wk, xmp));
      ResolvedWrites(env, wk, xmp, PreviewEdit(env, ws, size, xmp));
    }
  }

  lemma ExportSentinelResolved(env: Env, ws: Result<Workspace>, path: string, xmp: XmpSettings, exp: ExportSettings)
    ensures EditsResolved(ExportEdit(env, ws, path, xmp, exp), xmp)
  {
    if ws.Success? {
      var wk := ws.value;
      ExportWrites(env, wk, path, ResolveWhiteBalance(env, wk, xmp), exp);
      ResolvedWrites(env, wk, xmp, ExportEdit(env, ws, path, xmp, exp));
    }
  }

  /** `saveEdit` writes settings once, with `x`; publishing writes none. */
  lemma SaveWrites(env: Env, wk: Workspace, path: string, x: XmpSettings, found: Result<string>)
    ensures WritesOnly(SaveWith(env, wk, path, x, found), x)
  {
    PublishHasNoEdit(env, wk, path, found);
    ThenWrites(env, EditXmp(wk.origXmp, x), Publish(env, wk, path, found), x);
  }

  lemma PublishHasNoEdit(env: Env, wk: Workspace, path: string, found: Result<string>)
    ensures NoEdit(Publish(env, wk, path, found))
  {
  }

  lemma PreviewWrites(env: Env, wk: Workspace, size: int, x: XmpSettings)
    ensures WritesOnly(PreviewWith(env, wk, size, x), x)
  {
    var dst := if size != 0 && wk.hasEdit then wk.edit else wk.origXmp;
    var convert :=
      if size == 0 then Convert(wk.orig, wk.temp, 0, Options(NoSettings))
      else if wk.hasEdit then Convert(wk.edit, wk.temp, size, NoOptions)
      else Convert(wk.orig, wk.edit, 2560, NoOptions);
    var tail := Last(env, PreviewJpeg(if size != 0 && !wk.hasEdit then wk.edit else wk.temp));
    assert PreviewWith(env, wk, size, x) == Then(env, EditXmp(dst, x), Then(env, convert, tail));
    ThenNoEdit(env, convert, tail);
    ThenWrites(env, EditXmp(dst, x), Then(env, convert, tail), x);
  }

  lemma ExportWrites(env: Env, wk: Workspace, path: string, x: XmpSettings, exp: ExportSettings)
    ensures WritesOnly(ExportWith(env, wk, path, x, exp), x)
  {
    var convert := Convert(wk.orig, wk.temp, 0, Options(exp));
    if exp.dng {
      ThenNoEdit(env, ExifTool(Meta.FixMetaDngArgs(wk.orig, wk.temp, path)), Last(env, ReadFile(wk.temp)));
      ThenNoEdit(env, convert, ExportDngSteps(env, wk, path));
    } else {
      ExportTailHasNoEdit(env, wk, exp);
      ThenNoEdit(env, convert, ExportJpegSteps(env, wk, exp));
    }
    ThenWrites(env, EditXmp(wk.origXmp, x), ExportConverted(env, wk, path, exp), x);
  }

  lemma ExportTailHasNoEdit(env: Env, wk: Workspace, exp: ExportSettings)
    ensures NoEdit(ExportJpegSteps(env, wk, exp))
  {
    var jpeg := env.exec(ExportJpeg(wk.temp));
    if jpeg.Success? {
      if exp.resample {
        ThenNoEdit(env, ExportJpeg(wk.temp), Last(env, ResampleJpeg(jpeg.value, exp)));
      } else {
        var read := Last(env, ReadFile(wk.jpeg));
        var fix := Then(env, ExifTool(Meta.FixMetaJpegArgs(wk.orig, wk.jpeg)), read);
        var inject := Then(env, ExifTool(Meta.InjectXmpArgs(wk.temp, wk.jpeg)), fix);
        var write := Then(env, WriteFile(wk.jpeg, jpeg.value), inject);
        ThenNoEdit(env, ExifTool(Meta.FixMetaJpegArgs(wk.orig, wk.jpeg)), read);
        ThenNoEdit(env, ExifTool(Meta.InjectXmpArgs(wk.temp, wk.jpeg)), fix);
        ThenNoEdit(env, WriteFile(wk.jpeg, jpeg.value), inject);
        ThenNoEdit(env, ExportJpeg(wk.temp), write);
      }
    }
  }

  // ------------------------------------------------------------- preview

  /** The three branches of `previewEdit`: which file the settings go to,
      what is converted where, and which file is previewed. */
  lemma PreviewBranches(env: Env, wk: Workspace, size: int, x: XmpSettings)
    ensures var r := PreviewWith(env, wk, size, x);
      && r.calls[0] == EditXmp(if size != 0 && wk.hasEdit then wk.edit else wk.origXmp, x)
      && (size == 0 ==> forall c :: c in r.calls ==>
            (c.Convert? ==> c == Convert(wk.orig, wk.temp, 0, Options(NoSettings)))
            && (c.PreviewJpeg? ==> c.path == wk.temp))
      && (size != 0 && wk.hasEdit ==> forall c :: c in r.calls ==>
            (c.Convert? ==> c == Convert(wk.edit, wk.temp, size, NoOptions))
            && (c.PreviewJpeg? ==> c.path == wk.temp))
      && (size != 0 && !wk.hasEdit ==> forall c :: c in r.calls ==>
            (c.Convert? ==> c == Convert(wk.orig, wk.edit, 2560, NoOptions))
            && (c.PreviewJpeg? ==> c.path == wk.edit))
  {
  }

  /** A successful preview made exactly three calls and answers with the
      JPEG the last one rendered. */
  lemma PreviewSuccess(env: Env, wk: Workspace, size: int, x: XmpSettings)
    requires PreviewWith(env, wk, size, x).result.Success?
    ensures var r := PreviewWith(env, wk, size, x);
      |r.calls| == 3 && r.calls[2].PreviewJpeg? && r.result == env.exec(r.calls[2])
  {
  }

  /** Only the third branch writes the edit cache; a size-0 preview does
      not touch it at all. */
  lemma PreviewCacheWrites(env: Env, wk: Workspace, size: int, x: XmpSettings)
    requires Distinct(wk)
    ensures var r := PreviewWith(env, wk, size, x);
      (forall c :: c in r.calls && c.Convert? && c.dst == wk.edit ==> size != 0 && !wk.hasEdit)
      && (size == 0 ==> forall c :: c in r.calls && c.Convert? ==> c.src != wk.edit && c.dst != wk.edit)
  {
    assert [wk.orig, wk.origXmp, wk.edit, wk.temp, wk.jpeg, wk.pixels][2] == wk.edit;
    assert [wk.orig, wk.origXmp, wk.edit, wk.temp, wk.jpeg, wk.pixels][3] == wk.temp;
    assert [wk.orig, wk.origXmp, wk.edit, wk.temp, wk.jpeg, wk.pixels][0] == wk.orig;
  }

  // ---------------------------------------------------------------- save

  /** A successful publish renamed DEST.bak over DEST as its last call,
      right after producing DEST.bak. */
  lemma PublishThroughBackup(env: Env, wk: Workspace, path: string, found: Result<string>)
    requires Publish(env, wk, path, found).result.Success?
    ensures found.Success?
    ensures var r := Publish(env, wk, path, found);
      && |r.calls| >= 2
      && r.calls[|r.calls| - 1] == Rename(found.value + ".bak", found.value)
      && (r.calls[|r.calls| - 2] == Move(wk.temp, found.value + ".bak")
          || r.calls[|r.calls| - 2] == Copy(wk.origXmp, found.value + ".bak"))
  {
  }

  /** `saveEdit` reaches the destination only through the final rename of
      DEST.bak; a success means that rename happened, right after DEST.bak
      was produced. */
  lemma SavePublishesThroughBackup(env: Env, wk: Workspace, path: string, x: XmpSettings, found: Result<string>)
    requires SaveWith(env, wk, path, x, found).result.Success?
    ensures found.Success?
    ensures var r := SaveWith(env, wk, path, x, found);
      && |r.calls| >= 3
      && r.calls[|r.calls| - 1] == Rename(found.value + ".bak", found.value)
      && (r.calls[|r.calls| - 2] == Move(wk.temp, found.value + ".bak")
          || r.calls[|r.calls| - 2] == Copy(wk.origXmp, found.value + ".bak"))
  {
    var p := Publish(env, wk, path, found);
    ThenSuccess(env, EditXmp(wk.origXmp, x), p);
    ThenPass(env, EditXmp(wk.origXmp, x), p);
    PublishThroughBackup(env, wk, path, found);
  }

  /** No call but the last renames. */
  predicate RenameOnlyLast(calls: seq<Call>) {
    forall i :: 0 <= i < |calls| && calls[i].Rename? ==> i == |calls| - 1
  }

  /** Every copy or move writes DEST.bak, for the DEST that was found. */
  predicate WritesOnlyBackup(calls: seq<Call>, found: Result<string>) {
    forall c :: c in calls && (c.Move? || c.Copy?) ==> found.Success? && c.dst == found.value + ".bak"
  }

  /** Putting a call that neither renames, moves nor copies in front keeps
      both properties. */
  lemma PrefixKeeps(c: Call, rest: seq<Call>, found: Result<string>)
    requires !c.Rename? && !c.Move? && !c.Copy?
    requires RenameOnlyLast(rest) && WritesOnlyBackup(rest, found)
    ensures RenameOnlyLast([c]) && WritesOnlyBackup([c], found)
    ensures RenameOnlyLast([c] + rest) && WritesOnlyBackup([c] + rest, found)
  {
    var r := [c] + rest;
    forall i | 1 <= i < |r| && r[i].Rename?
      ensures i == |r| - 1
    {
      assert rest[i - 1] == r[i];
    }
  }

  /** Whatever happens, the only rename is the last call, and every copy or
      move writes DEST.bak. */
  /** The only rename a save makes is DEST.bak over the DEST that was
      found. */
  lemma SaveRenamesFound(env: Env, wk: Workspace, path: string, x: XmpSettings, found: Result<string>)
    ensures forall c :: c in SaveWith(env, wk, path, x, found).calls && c.Rename? ==>
      found.Success? && c == Rename(found.value + ".bak", found.value)
  {
    var p := Publish(env, wk, path, found);
    assert forall c :: c in p.calls && c.Rename? ==> found.Success? && c == Rename(found.value + ".bak", found.value) by {
      if found.Success? {
        var dest := found.value;
        var bak := dest + ".bak";
        var last := Last(env, Rename(bak, dest));
        if path == dest {
          var mv := Then(env, Move(wk.temp, bak), last);
          assert p == Then(env, Convert(wk.orig, wk.temp, 0, Options(SaveOptions(env.dngPreview(wk.orig)))), mv);
        } else {
          assert p == Then(env, Copy(wk.origXmp, bak), last);
        }
      }
    }
  }

  /** Through the corrected resolver a save never renames onto the empty
      path, whatever sits beside the photo. */
  lemma SaveCorrectedNeverEmpty(env: Env, wk: Workspace, path: string, xmp: XmpSettings)
    ensures forall c :: c in SaveEditCorrected(env, Success(wk), path, xmp).calls && c.Rename? ==> c.dst != ""
  {
    SaveRenamesFound(env, wk, path, ResolveWhiteBalance(env, wk, xmp), Sidecar.DestSidecarFallthrough(Disk(env), path));
  }

  lemma SaveRenameIsLast(env: Env, wk: Workspace, path: string, x: XmpSettings, found: Result<string>)
    ensures var r := SaveWith(env, wk, path, x, found);
      RenameOnlyLast(r.calls) && WritesOnlyBackup(r.calls, found)
  {
    var p := Publish(env, wk, path, found);
    PublishRenameIsLast(env, wk, path, found);
    PrefixKeeps(EditXmp(wk.origXmp, x), p.calls, found);
  }

  lemma PublishRenameIsLast(env: Env, wk: Workspace, path: string, found: Result<string>)
    ensures var r := Publish(env, wk, path, found);
      RenameOnlyLast(r.calls) && WritesOnlyBackup(r.calls, found)
  {
  }

  /** The converter runs in publishing exactly when the photo is its own
      destination, and then with the options of an embedded DNG. */
  lemma PublishConvertIff(env: Env, wk: Workspace, path: string, found: Result<string>)
    ensures var r := Publish(env, wk, path, found);
      && ((exists c :: c in r.calls && c.Convert?) <==> found == Success(path))
      && (forall c :: c in r.calls && c.Convert? ==>
            c == Convert(wk.orig, wk.temp, 0, Options(SaveOptions(env.dngPreview(wk.orig)))))
  {
    var r := Publish(env, wk, path, found);
    if found == Success(path) {
      assert r.calls[0].Convert?;
    }
  }

  /** The converter runs in `saveEdit` exactly when the settings were
      written and the photo is its own destination (an edited DNG). */
  lemma SaveConvertIff(env: Env, wk: Workspace, path: string, x: XmpSettings, found: Result<string>)
    ensures var r := SaveWith(env, wk, path, x, found);
      (exists c :: c in r.calls && c.Convert?) <==>
        env.exec(EditXmp(wk.origXmp, x)).Success? && found == Success(path)
    ensures forall c :: c in SaveWith(env, wk, path, x, found).calls && c.Convert? ==>
      c == Convert(wk.orig, wk.temp, 0, Options(SaveOptions(env.dngPreview(wk.orig))))
  {
    var r := SaveWith(env, wk, path, x, found);
    var p := Publish(env, wk, path, found);
    PublishConvertIff(env, wk, path, found);
    assert forall c :: c in r.calls && c != r.calls[0] ==> c in p.calls;
    assert !r.calls[0].Convert?;
  }

  /** The converter only ever overwrites a DNG (or a file that is its own
      sidecar): `destSidecar` names the photo itself only in that case. */
  lemma SaveConvertsOnlyDng(env: Env, wk: Workspace, path: string, xmp: XmpSettings)
    ensures (exists c :: c in SaveEdit(env, Success(wk), path, xmp).calls && c.Convert?) ==>
      EqualFoldAscii(Ext(path), ".dng") || Ext(path) == ".xmp"
  {
    var found := Sidecar.DestSidecar(Disk(env), path);
    SaveConvertIff(env, wk, path, ResolveWhiteBalance(env, wk, xmp), found);
    Sidecar.DestSidecarEmptyIff(Disk(env), path);
  }

  /** The same holds of the save through the corrected resolver. */
  lemma SaveConvertsOnlyDngCorrected(env: Env, wk: Workspace, path: string, xmp: XmpSettings)
    ensures (exists c :: c in SaveEditCorrected(env, Success(wk), path, xmp).calls && c.Convert?) ==>
      EqualFoldAscii(Ext(path), ".dng") || Ext(path) == ".xmp"
  {
    var found := Sidecar.DestSidecarFallthrough(Disk(env), path);
    SaveConvertIff(env, wk, path, ResolveWhiteBalance(env, wk, xmp), found);
  }

  /** With the code's own `destSidecar`, a NAME.xmp left by another
      extension sends the save to the empty path: the sidecar is copied to
      ".bak" and, if that copy succeeds, renamed to "". */
  lemma SaveForeignAsWritten(env: Env, wk: Workspace, path: string, x: XmpSettings)
    requires Sidecar.NameXmpForeign(Disk(env), path)
    requires env.exec(EditXmp(wk.origXmp, x)).Success?
    ensures var r := SaveWith(env, wk, path, x, Sidecar.DestSidecar(Disk(env), path));
      && r.calls[1] == Copy(wk.origXmp, ".bak")
      && (env.exec(Copy(wk.origXmp, ".bak")).Success? ==> r.calls == [EditXmp(wk.origXmp, x), Copy(wk.origXmp, ".bak"), Rename(".bak", "")])
  {
    Sidecar.DestSidecarEmptyIff(Disk(env), path);
    assert path != "" by {
      assert Ext(path) != "";
    }
    assert "" + ".bak" == ".bak";
    var p := Publish(env, wk, path, Success(""));
    ThenPass(env, EditXmp(wk.origXmp, x), p);
    assert p == Then(env, Copy(wk.origXmp, ".bak"), Last(env, Rename(".bak", "")));
    if env.exec(Copy(wk.origXmp, ".bak")).Success? {
      ThenPass(env, Copy(wk.origXmp, ".bak"), Last(env, Rename(".bak", "")));
    }
  }

  // -------------------------------------------------------------- export

  /** `exportEdit` always converts the raw file with the export settings,
      and in the DNG case fixes the metadata of the result, naming the
      photo as its original file, before reading it. */
  lemma ExportDng(env: Env, wk: Workspace, path: string, x: XmpSettings, exp: ExportSettings)
    requires exp.dng
    requires ExportWith(env, wk, path, x, exp).result.Success?
    ensures ExportWith(env, wk, path, x, exp).calls ==
      [EditXmp(wk.origXmp, x), Convert(wk.orig, wk.temp, 0, Options(exp)),
       ExifTool(Meta.FixMetaDngArgs(wk.orig, wk.temp, path)), ReadFile(wk.temp)]
    ensures ExportWith(env, wk, path, x, exp).result == env.exec(ReadFile(wk.temp))
  {
  }

  /** A resampled JPEG is returned straight away: nothing is written and
      exiftool is not run. */
  lemma ExportResampled(env: Env, wk: Workspace, path: string, x: XmpSettings, exp: ExportSettings)
    requires !exp.dng && exp.resample
    ensures forall c :: c in ExportWith(env, wk, path, x, exp).calls ==>
      !c.WriteFile? && !c.ExifTool?
    ensures ExportWith(env, wk, path, x, exp).result.Success? ==>
      ExportWith(env, wk, path, x, exp).result ==
        env.exec(ResampleJpeg(env.exec(ExportJpeg(wk.temp)).value, exp))
  {
  }

  /** A full-size JPEG export writes the rendered JPEG, gives it the XMP of
      the converted DNG, then the original's metadata, then reads it. */
  lemma ExportJpegMetadata(env: Env, wk: Workspace, path: string, x: XmpSettings, exp: ExportSettings)
    requires !exp.dng && !exp.resample
    requires ExportWith(env, wk, path, x, exp).result.Success?
    ensures env.exec(ExportJpeg(wk.temp)).Success?
    ensures ExportWith(env, wk, path, x, exp).calls[2..] ==
      [ExportJpeg(wk.temp), WriteFile(wk.jpeg, env.exec(ExportJpeg(wk.temp)).value),
       ExifTool(Meta.InjectXmpArgs(wk.temp, wk.jpeg)), ExifTool(Meta.FixMetaJpegArgs(wk.orig, wk.jpeg)),
       ReadFile(wk.jpeg)]
  {
    var edit := EditXmp(wk.origXmp, x);
    var convert := Convert(wk.orig, wk.temp, 0, Options(exp));
    var j := ExportJpegSteps(env, wk, exp);
    ExportJpegPasses(env, wk, path, x, exp);
    ExportJpegShape(env, wk, path, x, exp);
    assert ([edit, convert] + j.calls)[2..] == j.calls;
    JpegStepsFull(env, wk, exp);
  }

  /** A JPEG export that succeeded got past the settings write and the
      converter. */
  lemma ExportJpegPasses(env: Env, wk: Workspace, path: string, x: XmpSettings, exp: ExportSettings)
    requires !exp.dng
    requires ExportWith(env, wk, path, x, exp).result.Success?
    ensures env.exec(EditXmp(wk.origXmp, x)).Success?
    ensures env.exec(Convert(wk.orig, wk.temp, 0, Options(exp))).Success?
  {
    var edit := EditXmp(wk.origXmp, x);
    var ec := ExportConverted(env, wk, path, exp);
    ThenSuccess(env, edit, ec);
    ThenPass(env, edit, ec);
    ThenSuccess(env, Convert(wk.orig, wk.temp, 0, Options(exp)), ExportJpegSteps(env, wk, exp));
  }

  /** Past those two calls, a JPEG export is the JPEG steps. */
  lemma ExportJpegShape(env: Env, wk: Workspace, path: string, x: XmpSettings, exp: ExportSettings)
    requires !exp.dng
    requires env.exec(EditXmp(wk.origXmp, x)).Success?
    requires env.exec(Convert(wk.orig, wk.temp, 0, Options(exp))).Success?
    ensures var j := ExportJpegSteps(env, wk, exp);
      ExportWith(env, wk, path, x, exp) ==
        Run([EditXmp(wk.origXmp, x), Convert(wk.orig, wk.temp, 0, Options(exp))] + j.calls, j.result)
  {
    var edit := EditXmp(wk.origXmp, x);
    var convert := Convert(wk.orig, wk.temp, 0, Options(exp));
    var j := ExportJpegSteps(env, wk, exp);
    ThenPass(env, convert, j);
    ThenPass(env, edit, ExportConverted(env, wk, path, exp));
    assert [edit] + ([convert] + j.calls) == [edit, convert] + j.calls;
  }

  /** Without resampling, the successful JPEG steps are the five calls of a
      full-size export. */
  lemma JpegStepsFull(env: Env, wk: Workspace, exp: ExportSettings)
    requires !exp.resample && ExportJpegSteps(env, wk, exp).result.Success?
    ensures env.exec(ExportJpeg(wk.temp)).Success?
    ensures ExportJpegSteps(env, wk, exp).calls ==
      [ExportJpeg(wk.temp), WriteFile(wk.jpeg, env.exec(ExportJpeg(wk.temp)).value),
       ExifTool(Meta.InjectXmpArgs(wk.temp, wk.jpeg)), ExifTool(Meta.FixMetaJpegArgs(wk.orig, wk.jpeg)),
       ReadFile(wk.jpeg)]
  {
  }

  // ------------------------------------------------------- white balance

  /** The edit cache is built exactly when it is missing, and the raw
      pixels are extracted exactly when they are missing, a point was
      given, and the cache is there. */
  lemma WhiteBalanceCalls(env: Env, wk: Workspace, coords: seq<real>)
    ensures var r := LoadWhiteBalance(env, Success(wk), coords);
      && ((exists c :: c in r.calls && c.Convert?) <==> !wk.hasEdit)
      && (RawPixels(wk.edit, wk.pixels) in r.calls <==>
            !wk.hasPixels && |coords| == 2
            && (wk.hasEdit || env.exec(Convert(wk.orig, wk.edit, 2560, NoOptions)).Success?))
      && (r.result.Success? ==> r.calls[|r.calls| - 1] == ComputeWhiteBalance(wk.edit, wk.pixels, coords))
  {
    var r := LoadWhiteBalance(env, Success(wk), coords);
    if !wk.hasEdit {
      assert r.calls[0].Convert?;
    }
  }
}
