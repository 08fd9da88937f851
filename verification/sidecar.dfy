/** Sidecar resolution from edit.go: which XMP file an edit is loaded from
    (`loadSidecar`) and which file a saved edit is published to
    (`destSidecar`). The filesystem is a map from path to node; a path that
    is not in the map does not exist. Whether some XMP data is a sidecar for
    a given extension (`xmp.IsSidecarForExt`) and the exiftool server are
    inputs. */
module Sidecar {
  import opened Outcomes
  import opened Paths
  import Meta

  datatype FsNode = Regular(data: Bytes) | Directory | Faulty(error: Error)

  type Files = map<string, FsNode>

  datatype Disk = Disk(files: Files, isSidecarForExt: (Bytes, string) -> bool, exif: Meta.ExifTool)

  /** `os.Stat`: whether the path names anything, and the error if not. */
  function Stat(d: Disk, p: string): Outcome {
    if p !in d.files then Fail(NotExist)
    else match d.files[p]
      case Faulty(e) => Fail(e)
      case _ => Pass
  }

  /** `os.ReadFile`. */
  function ReadFile(d: Disk, p: string): (r: Result<Bytes>)
    ensures r.Success? ==> Stat(d, p).Pass?
    ensures r == Failure(NotExist) <==> Stat(d, p) == Fail(NotExist)
  {
    if p !in d.files then Failure(NotExist)
    else match d.files[p]
      case Regular(b) => Success(b)
      case Directory => Failure(Failed("is a directory"))
      case Faulty(e) => Failure(e)
  }

  /** NAME.xmp for NAME.EXT. */
  function NameXmp(src: string): string {
    Stem(src) + ".xmp"
  }

  /** NAME.EXT.xmp for NAME.EXT. */
  function ExtXmp(src: string): string {
    src + ".xmp"
  }

  lemma XmpNames(src: string)
    ensures Ext(NameXmp(src)) == ".xmp" && Ext(ExtXmp(src)) == ".xmp"
    ensures Ext(src) != "" ==> NameXmp(src) != ExtXmp(src)
  {
    ExtOfAppended(Stem(src), ".xmp");
    ExtOfAppended(src, ".xmp");
    XmpNamesDiffer(src);
  }

  /** With an extension, NAME.xmp and NAME.EXT.xmp are two files. */
  lemma XmpNamesDiffer(src: string)
    ensures Ext(src) != "" ==> NameXmp(src) != ExtXmp(src)
  {
    assert |Stem(src)| + |Ext(src)| == |src|;
  }

  // ----------------------------------------------------------- the rules

  /** NAME.xmp reads and is a sidecar for this extension. */
  predicate NameXmpMatches(d: Disk, src: string) {
    var r := ReadFile(d, NameXmp(src));
    Ext(src) != "" && r.Success? && d.isSidecarForExt(r.value, Ext(src))
  }

  /** NAME.xmp reads but belongs to another extension. */
  predicate NameXmpForeign(d: Disk, src: string) {
    var r := ReadFile(d, NameXmp(src));
    Ext(src) != "" && r.Success? && !d.isSidecarForExt(r.value, Ext(src))
  }

  /** NAME.xmp is not there, or is not even looked for. */
  predicate NameXmpAbsent(d: Disk, src: string) {
    Ext(src) == "" || ReadFile(d, NameXmp(src)) == Failure(NotExist)
  }

  /** The file is a DNG that already carries Camera Raw settings. */
  predicate DngEdited(d: Disk, src: string) {
    EqualFoldAscii(Ext(src), ".dng") && Meta.DngHasEdits(d.exif, src)
  }

  /** The steps of `destSidecar` after NAME.xmp has been ruled out:
      NAME.EXT.xmp if it exists, then the edited DNG itself, then NAME.xmp. */
  function AfterNameXmp(d: Disk, src: string): (r: Result<string>)
    ensures r.Failure? ==> r.error != NotExist
    ensures r.Success? ==> r.value != "" && (Ext(r.value) == ".xmp" || (r.value == src && EqualFoldAscii(Ext(src), ".dng")))
  {
    XmpNames(src);
    match Stat(d, ExtXmp(src))
    case Pass => Success(ExtXmp(src))
    case Fail(e) =>
      if e != NotExist then Failure(e)
      else if DngEdited(d, src) then Success(src)
      else Success(NameXmp(src))
  }

  /** `destSidecar` as written. When NAME.xmp reads but is a sidecar for
      another extension, the read succeeded, so the not-found test lets the
      nil error through and the result is "" with no error. */
  function DestSidecar(d: Disk, src: string): (r: Result<string>)
    ensures r.Failure? ==> r.error != NotExist
    ensures r.Success? && r.value != "" ==> Ext(r.value) == ".xmp" || (r.value == src && EqualFoldAscii(Ext(src), ".dng"))
  {
    XmpNames(src);
    var ext := Ext(src);
    if ext != "" && ReadFile(d, NameXmp(src)) != Failure(NotExist) then
      var data := ReadFile(d, NameXmp(src));
      if data.Success? && d.isSidecarForExt(data.value, ext) then Success(NameXmp(src))
      else if data.Failure? then Failure(data.error)
      else Success("")
    else AfterNameXmp(d, src)
  }

  /** The precedence of `destSidecar`: a matching NAME.xmp, then an existing
      NAME.EXT.xmp, then the DNG itself if it was edited, then NAME.xmp. */
  lemma DestSidecarPrecedence(d: Disk, src: string)
    ensures NameXmpMatches(d, src) ==> DestSidecar(d, src) == Success(NameXmp(src))
    ensures NameXmpAbsent(d, src) && Stat(d, ExtXmp(src)).Pass? ==>
      DestSidecar(d, src) == Success(ExtXmp(src))
    ensures NameXmpAbsent(d, src) && Stat(d, ExtXmp(src)) == Fail(NotExist) && DngEdited(d, src) ==>
      DestSidecar(d, src) == Success(src)
    ensures NameXmpAbsent(d, src) && Stat(d, ExtXmp(src)) == Fail(NotExist) && !DngEdited(d, src) ==>
      DestSidecar(d, src) == Success(NameXmp(src))
  {
  }

  /** `destSidecar` fails exactly when reading NAME.xmp, or (NAME.xmp being
      absent) statting NAME.EXT.xmp, fails for a reason other than not
      found; the error is passed on unchanged. */
  lemma DestSidecarErrors(d: Disk, src: string)
    ensures DestSidecar(d, src).Failure? <==>
      (Ext(src) != "" && ReadFile(d, NameXmp(src)).Failure? && ReadFile(d, NameXmp(src)).error != NotExist)
      || (NameXmpAbsent(d, src) && Stat(d, ExtXmp(src)).Fail? && Stat(d, ExtXmp(src)).error != NotExist)
    ensures Ext(src) != "" && ReadFile(d, NameXmp(src)).Failure? && ReadFile(d, NameXmp(src)).error != NotExist ==>
      DestSidecar(d, src) == Failure(ReadFile(d, NameXmp(src)).error)
    ensures NameXmpAbsent(d, src) && Stat(d, ExtXmp(src)).Fail? && Stat(d, ExtXmp(src)).error != NotExist ==>
      DestSidecar(d, src) == Failure(Stat(d, ExtXmp(src)).error)
  {
    var n := ReadFile(d, NameXmp(src));
    if Ext(src) != "" && n != Failure(NotExist) {
      assert !NameXmpAbsent(d, src);
      assert DestSidecar(d, src).Failure? <==> n.Failure?;
      assert n.Failure? ==> DestSidecar(d, src) == Failure(n.error);
    } else {
      assert NameXmpAbsent(d, src);
      assert DestSidecar(d, src) == AfterNameXmp(d, src);
      AfterNameXmpErrors(d, src);
    }
  }

  /** After NAME.xmp, the only failure is statting NAME.EXT.xmp. */
  lemma AfterNameXmpErrors(d: Disk, src: string)
    ensures AfterNameXmp(d, src).Failure? <==> Stat(d, ExtXmp(src)).Fail? && Stat(d, ExtXmp(src)).error != NotExist
    ensures AfterNameXmp(d, src).Failure? ==> AfterNameXmp(d, src) == Failure(Stat(d, ExtXmp(src)).error)
  {
  }

  /** The case the code does not intend: a NAME.xmp that belongs to another
      extension makes `destSidecar` answer "" without an error, and that is
      the only way it answers "". */
  lemma DestSidecarEmptyIff(d: Disk, src: string)
    ensures DestSidecar(d, src) == Success("") <==> NameXmpForeign(d, src)
  {
    assert |NameXmp(src)| >= 4;
    var n := ReadFile(d, NameXmp(src));
    if Ext(src) != "" && n != Failure(NotExist) {
      assert DestSidecar(d, src) == Success("") <==> n.Success? && !d.isSidecarForExt(n.value, Ext(src));
    } else {
      assert DestSidecar(d, src) == AfterNameXmp(d, src);
    }
  }

  /** A concrete instance: "a.CR2" beside an "a.xmp" written for "a.NEF". */
  lemma DestSidecarForeignExample(isSidecarForExt: (Bytes, string) -> bool, exif: Meta.ExifTool, data: Bytes)
    requires !isSidecarForExt(data, ".CR2")
    ensures DestSidecar(Disk(map["a.xmp" := Regular(data)], isSidecarForExt, exif), "a.CR2") == Success("")
  {
    var d := Disk(map["a.xmp" := Regular(data)], isSidecarForExt, exif);
    ExampleNames();
    assert ReadFile(d, NameXmp("a.CR2")) == Success(data);
    assert NameXmpForeign(d, "a.CR2");
    DestSidecarEmptyIff(d, "a.CR2");
  }

  lemma ExampleNames()
    ensures Ext("a.CR2") == ".CR2" && NameXmp("a.CR2") == "a.xmp"
  {
    ExtOfAppended("a", ".CR2");
    assert "a" + ".CR2" == "a.CR2";
    assert Stem("a.CR2") == "a";
  }

  /** `destSidecar` as evidently intended: a NAME.xmp for another extension
      is passed over like a missing one, as `loadSidecar` does. */
  function DestSidecarFallthrough(d: Disk, src: string): (r: Result<string>)
    ensures r.Failure? ==> r.error != NotExist
    ensures r.Success? ==> r.value != "" && (Ext(r.value) == ".xmp" || (r.value == src && EqualFoldAscii(Ext(src), ".dng")))
  {
    XmpNames(src);
    if NameXmpMatches(d, src) then Success(NameXmp(src))
    else if Ext(src) != "" && ReadFile(d, NameXmp(src)).Failure? && ReadFile(d, NameXmp(src)).error != NotExist then
      Failure(ReadFile(d, NameXmp(src)).error)
    else AfterNameXmp(d, src)
  }

  /** The corrected rule differs from the code only in the foreign case. */
  lemma FallthroughAgrees(d: Disk, src: string)
    ensures !NameXmpForeign(d, src) ==> DestSidecarFallthrough(d, src) == DestSidecar(d, src)
    ensures NameXmpForeign(d, src) ==> DestSidecarFallthrough(d, src) == AfterNameXmp(d, src)
  {
  }

  // ------------------------------------------------------------- loading

  datatype LoadCall = WriteXmp(path: string, data: Bytes) | ExtractXmp(src: string, dst: string)

  datatype LoadTrace = LoadTrace(calls: seq<LoadCall>, outcome: Outcome)

  /** A read as `loadSidecar` sees it: data that is not a sidecar for the
      extension counts as not found. */
  function ReadSidecar(d: Disk, p: string, ext: string): (r: Result<Bytes>)
    ensures r.Success? ==> ReadFile(d, p) == r && d.isSidecarForExt(r.value, ext)
    ensures r.Failure? && r.error != NotExist ==> ReadFile(d, p) == r
  {
    var r := ReadFile(d, p);
    if r.Success? && !d.isSidecarForExt(r.value, ext) then Failure(NotExist) else r
  }

  /** What `loadSidecar` settles on before writing: the sidecar's bytes, or
      the error that stopped the search. */
  function FindSidecar(d: Disk, src: string): (r: Result<Bytes>)
    ensures r.Success? ==>
      (NameXmpMatches(d, src) && r == ReadFile(d, NameXmp(src)))
      || (r == ReadFile(d, ExtXmp(src)) && d.isSidecarForExt(r.value, Ext(src)))
  {
    var ext := Ext(src);
    var first := if ext != "" then ReadSidecar(d, NameXmp(src), ext) else Failure(NotExist);
    if first == Failure(NotExist) then ReadSidecar(d, ExtXmp(src), ext) else first
  }

  /** `loadSidecar`: copy the sidecar found to `dst`, then extract the XMP
      embedded in the raw file whenever the only error was "not found". */
  function LoadSidecar(d: Disk, exec: LoadCall -> Outcome, src: string, dst: string): (t: LoadTrace)
    ensures |t.calls| <= 2
    ensures ExtractXmp(src, dst) in t.calls ==>
      (t.calls[|t.calls| - 1] == ExtractXmp(src, dst) && t.outcome == exec(ExtractXmp(src, dst)))
  {
    WriteAndExtract(FindSidecar(d, src), exec, src, dst)
  }

  /** The second half of `loadSidecar`, once the search has settled. */
  function WriteAndExtract(found: Result<Bytes>, exec: LoadCall -> Outcome, src: string, dst: string): (t: LoadTrace)
    ensures |t.calls| <= 2
    ensures ExtractXmp(src, dst) in t.calls ==>
      (t.calls[|t.calls| - 1] == ExtractXmp(src, dst) && t.outcome == exec(ExtractXmp(src, dst)))
  {
    var write := if found.Success? then [WriteXmp(dst, found.value)] else [];
    var err := if found.Success? then exec(WriteXmp(dst, found.value)) else Fail(found.error);
    if err.Pass? || err.error == NotExist then
      LoadTrace(write + [ExtractXmp(src, dst)], exec(ExtractXmp(src, dst)))
    else LoadTrace(write, err)
  }

  /** NAME.xmp wins over NAME.EXT.xmp when it matches; its bytes are what
      is written. */
  lemma LoadSidecarPrefersNameXmp(d: Disk, exec: LoadCall -> Outcome, src: string, dst: string)
    requires NameXmpMatches(d, src)
    ensures LoadSidecar(d, exec, src, dst).calls[0] == WriteXmp(dst, ReadFile(d, NameXmp(src)).value)
  {
  }

  /** A sidecar for another extension is treated exactly like a missing file. */
  lemma LoadSidecarForeignIsAbsent(d: Disk, exec: LoadCall -> Outcome, src: string, dst: string)
    requires NameXmpForeign(d, src)
    ensures LoadSidecar(d, exec, src, dst) ==
      LoadSidecar(d.(files := d.files - {NameXmp(src)}), exec, src, dst)
  {
    var d' := d.(files := d.files - {NameXmp(src)});
    FindSidecarForeign(d, src);
    LoadSidecarOfFound(d, d', exec, src, dst);
  }

  lemma FindSidecarForeign(d: Disk, src: string)
    requires NameXmpForeign(d, src)
    ensures FindSidecar(d.(files := d.files - {NameXmp(src)}), src) == FindSidecar(d, src)
  {
    XmpNamesDiffer(src);
    var ext := Ext(src);
    var d' := d.(files := d.files - {NameXmp(src)});
    assert ReadSidecar(d, NameXmp(src), ext) == Failure(NotExist);
    assert ReadFile(d', NameXmp(src)) == Failure(NotExist);
    assert ReadFile(d', ExtXmp(src)) == ReadFile(d, ExtXmp(src));
  }

  /** The search order of `loadSidecar`: a matching NAME.xmp, else
      NAME.EXT.xmp if it is a sidecar for the extension, else nothing. */
  lemma FindSidecarPrecedence(d: Disk, src: string)
    ensures NameXmpMatches(d, src) ==> FindSidecar(d, src) == ReadFile(d, NameXmp(src))
    ensures (NameXmpAbsent(d, src) || NameXmpForeign(d, src)) ==>
      var r := ReadFile(d, ExtXmp(src));
      && (r.Success? && d.isSidecarForExt(r.value, Ext(src)) ==> FindSidecar(d, src) == r)
      && (r.Success? && !d.isSidecarForExt(r.value, Ext(src)) ==> FindSidecar(d, src) == Failure(NotExist))
      && (r.Failure? ==> FindSidecar(d, src) == r)
  {
  }

  /** The search stops with an error other than "not found" exactly when
      reading NAME.xmp fails so, or NAME.xmp was passed over and reading
      NAME.EXT.xmp fails so; the error is the read's. */
  lemma FindSidecarErrors(d: Disk, src: string)
    ensures var r := FindSidecar(d, src);
      var n := ReadFile(d, NameXmp(src));
      var e := ReadFile(d, ExtXmp(src));
      && (r.Failure? && r.error != NotExist <==>
            (Ext(src) != "" && n.Failure? && n.error != NotExist)
            || ((NameXmpAbsent(d, src) || NameXmpForeign(d, src)) && e.Failure? && e.error != NotExist))
      && (Ext(src) != "" && n.Failure? && n.error != NotExist ==> r == n)
  {
    var n := ReadFile(d, NameXmp(src));
    if Ext(src) != "" && n.Failure? && n.error != NotExist {
      assert !NameXmpAbsent(d, src) && !NameXmpForeign(d, src);
    }
  }

  /** With NAME.xmp missing or foreign, a NAME.EXT.xmp for the extension is
      what gets copied. */
  lemma LoadSidecarCopiesExtXmp(d: Disk, exec: LoadCall -> Outcome, src: string, dst: string)
    requires NameXmpAbsent(d, src) || NameXmpForeign(d, src)
    requires ReadFile(d, ExtXmp(src)).Success?
    requires d.isSidecarForExt(ReadFile(d, ExtXmp(src)).value, Ext(src))
    ensures LoadSidecar(d, exec, src, dst).calls[0] == WriteXmp(dst, ReadFile(d, ExtXmp(src)).value)
  {
    FindSidecarPrecedence(d, src);
  }

  /** With no sidecar at all, only the embedded XMP is extracted. */
  lemma LoadSidecarEmbeddedOnly(d: Disk, exec: LoadCall -> Outcome, src: string, dst: string)
    requires NameXmpAbsent(d, src) || NameXmpForeign(d, src)
    requires ReadFile(d, ExtXmp(src)) == Failure(NotExist)
    ensures LoadSidecar(d, exec, src, dst) == LoadTrace([ExtractXmp(src, dst)], exec(ExtractXmp(src, dst)))
  {
    FindSidecarPrecedence(d, src);
  }

  /** `loadSidecar` looks at the disk only through the sidecar it finds. */
  lemma LoadSidecarOfFound(d1: Disk, d2: Disk, exec: LoadCall -> Outcome, src: string, dst: string)
    requires FindSidecar(d1, src) == FindSidecar(d2, src)
    ensures LoadSidecar(d1, exec, src, dst) == LoadSidecar(d2, exec, src, dst)
  {
  }

  /** The embedded XMP is extracted exactly when nothing but "not found"
      went wrong before it; any other error is returned unchanged. */
  lemma LoadSidecarExtractIff(d: Disk, exec: LoadCall -> Outcome, src: string, dst: string)
    ensures var t := LoadSidecar(d, exec, src, dst);
      var found := FindSidecar(d, src);
      && (ExtractXmp(src, dst) in t.calls <==>
            (found.Success? && exec(WriteXmp(dst, found.value)) in {Pass, Fail(NotExist)})
            || found == Failure(NotExist))
      && (ExtractXmp(src, dst) !in t.calls ==>
            t.outcome == (if found.Success? then exec(WriteXmp(dst, found.value)) else Fail(found.error)))
  {
    WriteAndExtractIff(FindSidecar(d, src), exec, src, dst);
  }

  lemma WriteAndExtractIff(found: Result<Bytes>, exec: LoadCall -> Outcome, src: string, dst: string)
    ensures var t := WriteAndExtract(found, exec, src, dst);
      && (ExtractXmp(src, dst) in t.calls <==>
            (found.Success? && exec(WriteXmp(dst, found.value)) in {Pass, Fail(NotExist)})
            || found == Failure(NotExist))
      && (ExtractXmp(src, dst) !in t.calls ==>
            t.outcome == (if found.Success? then exec(WriteXmp(dst, found.value)) else Fail(found.error)))
  {
    assert ExtractXmp(src, dst) !in (if found.Success? then [WriteXmp(dst, found.value)] else []);
  }

  /** A sidecar `loadSidecar` copies from is the file the corrected
      `destSidecar` writes back to. */
  lemma LoadAndDestAgree(d: Disk, src: string)
    requires FindSidecar(d, src).Success?
    ensures NameXmpMatches(d, src) ==> DestSidecarFallthrough(d, src) == Success(NameXmp(src))
    ensures !NameXmpMatches(d, src) ==> DestSidecarFallthrough(d, src) == Success(ExtXmp(src))
  {
    var ext := Ext(src);
    if !NameXmpMatches(d, src) {
      var first := if ext != "" then ReadSidecar(d, NameXmp(src), ext) else Failure(NotExist);
      assert first == Failure(NotExist);
      assert ReadFile(d, ExtXmp(src)).Success?;
    }
  }

  /** The same holds of the code as written, outside the foreign case. */
  lemma LoadAndDestAgreeAsWritten(d: Disk, src: string)
    requires FindSidecar(d, src).Success? && !NameXmpForeign(d, src)
    ensures NameXmpMatches(d, src) ==> DestSidecar(d, src) == Success(NameXmp(src))
    ensures !NameXmpMatches(d, src) ==> DestSidecar(d, src) == Success(ExtXmp(src))
  {
    LoadAndDestAgree(d, src);
    FallthroughAgrees(d, src);
  }
}
