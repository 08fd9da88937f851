# RethinkRAW edit core, modelled in Dafny

RethinkRAW edits raw photos. It hands the work to two collaborators: Adobe's
DNG converter and an exiftool server. Around them it keeps a small amount of
its own logic, and that logic is what this project models:

- **Edit operations** (`edit.go`). `loadEdit`, `saveEdit`, `previewEdit`,
  `exportEdit` and `loadWhiteBalance` are each modelled as the ordered trace
  of collaborator calls they make. Every operation stops at the first failing
  call. The "Camera Matching…" white balance is replaced by the camera's own
  setting before any settings file is written.
- **Sidecar resolution** (`edit.go`). `loadSidecar` decides which XMP file an
  edit is loaded from. `destSidecar` decides which file a saved edit is
  published to: NAME.xmp, NAME.EXT.xmp, the edited DNG itself, or a new
  NAME.xmp.
- **Export geometry and naming** (`edit.go`). `FitImage` computes the
  bounding box of an export. `exportPath` computes the file name it is saved
  under.
- **exiftool decisions** (`meta.go`). The argument lists given to exiftool,
  `dngHasEdits`, and the white-balance scan of `cameraMatchingWhiteBalance`.
- **Helpers** (`util.go`). `btoi`, `index`, `unique`, `toASCII` and
  `filename`; the renaming step of `makeFile`; and `copyFile`, `moveFile` and
  `lnkyFile` as sequences of filesystem calls.
- **Gallery listing** (`http_gallery.go`). Which directory entries are shown
  as folders and which as photos, and the page's title and parent link.

Modules:

- `Outcomes`: results and errors.
- `Paths` and `PathClean`: the parts of Go's `path/filepath` and `strings`
  the code relies on, with Unix semantics.
- `Util`, `Unique`, `FileNames`, `FileOps`, `Meta`, `Geometry`, `Sidecar`,
  `Gallery` and `Pipeline`: the rest, one concern each.

Collaborators are parameters, never code:

- the converter, exiftool, file writes and renames are a function from a
  call to its result (`Env.exec`);
- the directory is a map from path to node;
- `xmp.IsSidecarForExt`, `strconv.IsPrint` and the converter's preview choice
  are functions passed in.

Three behaviours of the code are easy to miss, and the model states them
as the code has them:

- **`destSidecar`** (edit.go:335-345). When NAME.xmp reads but belongs to
  another extension, the code returns "" with no error, where passing over
  that file, as `loadSidecar` does, is evidently intended.
  `Pipeline.SaveEdit` publishes through the code's resolver, and
  `Pipeline.SaveForeignAsWritten` shows the copy to ".bak" and the rename
  to "" that follow. `Pipeline.SaveEditCorrected` publishes through the
  corrected resolver, `Sidecar.DestSidecarFallthrough`. See Findings.
- **JPEG export with resampling** (edit.go:162-164). The resampled bytes are
  returned straight away, with no exiftool call, so the resampled JPEG is
  not re-tagged. `Pipeline.ExportResampled` states this.
- **`loadSidecar`** (edit.go:325-328). The embedded XMP is extracted not
  only when no sidecar is found but also after a sidecar was found and
  copied. `Sidecar.LoadSidecarExtractIff` states this.

## Model

| member | source | states |
|---|---|---|
| Util.Btoi | util.go:36-41 | The result is 0 or 1, and it is 1 exactly when the flag is true. |
| Util.Index | util.go:48-55 | A non-negative answer is the first position holding `x`. The answer is -1 exactly when `x` is absent. |
| Util.ToAscii | util.go:77-92 | Every rune of the result is printable ASCII, and the result is no longer than the input. |
| Util.ToAsciiAppend | util.go:77-92 | toASCII works rune by rune, so it distributes over concatenation. |
| Util.ToAsciiFixedIff | util.go:77-92 | A string is left unchanged exactly when all its runes are printable ASCII. |
| Util.ToAsciiIdempotent | util.go:77-92 | Cleaning a cleaned string changes nothing. |
| Util.FilenameChars | util.go:94-111 | The builder is no longer than the name and never holds a reserved rune or a double quote. |
| Util.FilenameCharsAppend | util.go:98-111 | The builder is filled rune by rune, so a name in two parts gives the two parts' output in order. |
| Util.FilenameCharsAround | util.go:98-111 | A rune in the middle of a name is filtered on its own and leaves its neighbours unaffected. |
| Util.FilenameQuoteAndDot | util.go:98-111 | A double quote anywhere becomes an apostrophe, and a dot anywhere is kept. |
| Util.DotsBound | util.go:104-106 | The dot count never exceeds the length, and equals it exactly when every rune is a dot. |
| Util.Filename | util.go:94-118 | The result holds no reserved rune or double quote. It is "" or the filtered name, and it is "" exactly when only dots were left. |
| Util.FilenameCharsFixed | util.go:98-111 | A name of printable, non-reserved, quote-free runes passes through unchanged. |
| Util.FilenameCharsPrintable | util.go:98-111 | Everything written is a dot or a printable rune. |
| Util.FilenameIdempotent | util.go:94-118 | Applying `filename` to its own result changes nothing. |
| Util.FilenameOfDots | util.go:114-117 | Names made only of dots (".", "..") are refused with "". |
| Unique.LessIrreflexive | util.go:63 | Go's string order puts no string before itself. |
| Unique.LessTransitive | util.go:63 | Go's string order is transitive. |
| Unique.LessTotal | util.go:63 | Any two different strings are ordered one way or the other. |
| Unique.LessAsymmetric | util.go:63 | No two strings are each before the other. |
| Unique.Insert | util.go:63 | Inserting into a sorted sequence keeps it sorted and adds exactly that one element. |
| Unique.InsertFront | util.go:63 | An element no greater than the head can go in front of a sorted sequence. |
| Unique.InsertBehind | util.go:63 | Keeping the head in front of a sorted insertion into the tail keeps the sequence sorted. |
| Unique.SortStrings | util.go:63 | `sort.Strings` yields a sorted permutation of its input. |
| Unique.DedupeKeep | util.go:65-71 | Keeping a new element after the last kept one keeps the kept prefix strictly ascending and equal to the elements seen. |
| Unique.DedupeSkip | util.go:65-71 | Skipping a repeat of the last kept element loses no element. |
| Unique.Unique | util.go:57-75 | The result is strictly ascending, holds exactly the input's elements, and is no longer than the input. An empty input comes back unchanged. |
| Unique.Squeeze | util.go:65-74 | Squeezing a sorted non-empty slice gives a strictly ascending sequence with the same elements. |
| Unique.SameElements | util.go:63 | Sequences that are permutations of each other contain the same elements. |
| Unique.StrictlyAscendingUnique | util.go:57-75 | Two strictly ascending sequences with the same elements are equal, so the result is the one canonical listing of its set. |
| FileNames.Decimal | util.go:132 | `strconv.Itoa` of a natural number gives a non-empty run of digits. |
| FileNames.ValueOfDecimal | util.go:130-132 | `Atoi` undoes `Itoa`. |
| FileNames.DigitRun | util.go:120 | The `\d` run is the longest prefix of digits. |
| FileNames.CounterPart | util.go:120 | A matched counter group is one to four digits. |
| FileNames.TryAt | util.go:120 | A match at a fixed group-1 length has a counter made of digits. |
| FileNames.Search | util.go:120 | A match found by the lazy group-1 search has a counter made of digits. |
| FileNames.MatchName | util.go:120-126 | A match of the whole expression has a counter made of digits. |
| FileNames.CounterPartShape | util.go:120 | A matched counter part is " (", the digits, ")" and an extension part, with no newline. |
| FileNames.TryAtShape | util.go:120 | A match at a position splits the name into stem, counter and extension part, with group 1 the prefix. |
| FileNames.SearchSound | util.go:120 | Every match reassembles to the name, with no newline in group 1 and a well-formed counter and extension. |
| FileNames.SearchSomeIff | util.go:120 | The search from a position succeeds exactly when the rest of the name has no newline. |
| FileNames.MatchNameSomeIff | util.go:120-127 | The expression matches exactly the names without a newline. |
| FileNames.NextNameDefinedIff | util.go:125-136 | `makeFile` gives up with the "file exists" error exactly on names with a newline. |
| FileNames.NextNameDiffers | util.go:126-133 | The next name tried always differs from the one that collided. |
| FileNames.RenamedDiffers | util.go:128-132 | Rebuilding a match with its counter incremented never gives back the same name. |
| FileNames.SearchSkip | util.go:120 | Positions where no match starts can be skipped without changing the search's answer. |
| FileNames.DigitRunOf | util.go:120 | A digit run followed by a non-digit is read back whole. |
| FileNames.NextNameIncrements | util.go:126-132 | A name `stem (n)ext` is retried as `stem (n+1)ext`. |
| FileNames.CounterNameMatch | util.go:120-126 | A name `stem (n)ext` is read as exactly that stem, counter and extension. |
| FileNames.MatchAtCounter | util.go:120 | With group 1 the stem, the counter and extension groups match. |
| FileNames.CounterPartOf | util.go:120 | The counter group reads back the digits and the extension. |
| FileNames.NoMatchBeforeCounter | util.go:120 | No shorter group 1 matches a name with a counter, so the lazy search stops at the stem. |
| FileNames.NotExtPartAt | util.go:120 | A text containing a space cannot be an extension part. |
| FileNames.NextNameFresh | util.go:128-132 | A name without a counter is retried as `stem (1)ext`, the counter going before the extension. The stem may hold dots when an extension follows. |
| FileOps.CopyFile | util.go:140-160 | copyFile opens the source first. It succeeds exactly when open, create, copy and close all succeed, in that order. |
| FileOps.EffectAppend | util.go:140-175 | The effect of two call sequences run one after the other is their composed effect. |
| FileOps.MoveFileRenameFirst | util.go:162-166 | moveFile starts with a rename. A rename error other than crossing devices is returned as it is, and nothing else is tried. |
| FileOps.MoveFileRemoveOnlyAfterCopy | util.go:162-175 | The source is removed only after a cross-device rename followed by a successful copy. A source already gone counts as removed. |
| FileOps.MoveFileCrossDeviceEffect | util.go:162-175 | A successful cross-device move leaves the source's bytes at the destination and no source. |
| FileOps.EffectSnoc | util.go:140-175 | One more call changes the files only when it succeeds. |
| FileOps.MoveFileRenameEffect | util.go:162-175 | A successful same-device move has renamed the file. |
| FileOps.LnkyFileShape | util.go:177-193 | lnkyFile does nothing when both paths name the same file. Otherwise it links first and copies only across devices. A failing stat of the source is returned with nothing done. |
| Meta.FixMetaDngArgs | meta.go:24-35 | The argument list copies the original's tags, fixes the maker notes, records the original file name, and ends by overwriting the destination. |
| Meta.FixMetaDngArgsInjective | meta.go:24-35 | Different originals or destinations never share one command line; a name argument is compared only by its base name. |
| Meta.DngHasEdits | meta.go:76-80 | The file has edits exactly when the query succeeds with non-empty output. |
| Meta.NewlineAt | meta.go:89 | The position found is the first newline, or the end when there is none. |
| Meta.DropCR | meta.go:89 | A line loses exactly one trailing carriage return, if it has one. |
| Meta.ScanLines | meta.go:89 | No scanned line holds a newline. |
| Meta.ScanTerminated | meta.go:89 | Scanning newline-terminated lines gives those lines back. |
| Meta.Recognise | meta.go:90-99 | A line is recognised exactly when it is a known name or a synonym. A known name maps to itself, and every answer is a known name. |
| Meta.RecogniseIdempotent | meta.go:90-99 | Normalising a recognised name again changes nothing. |
| Meta.FirstRecognised | meta.go:89-101 | The answer is a known white balance or "As Shot". |
| Meta.TextLines | meta.go:89-90 | There is one text line per scanned line. |
| Meta.CameraMatchingWhiteBalance | meta.go:82-102 | The answer is "" exactly when the query fails. Otherwise it is "As Shot" or a known name, never the placeholder itself. |
| Meta.FirstRecognisedAt | meta.go:89-100 | The first recognised line decides the answer. |
| Meta.FirstRecognisedNone | meta.go:101 | "As Shot" is the answer exactly when no line is recognised. |
| Meta.WhiteBalanceFromFirstLine | meta.go:84-100 | The camera's white balance is the first output line naming one, with synonyms mapped. |
| Meta.WhiteBalanceAsShotIff | meta.go:84-101 | "As Shot" is answered exactly when the query succeeded and no line names a white balance. |
| Geometry.Trunc | edit.go:241-246 | Go's float-to-int conversion keeps the integer part, rounding toward zero. |
| Geometry.Round | edit.go:268-278 | A constrained side is at least 16 pixels, and 0 means unconstrained. |
| Geometry.RoundNearest | edit.go:272-277 | Above the floor, a size rounds to the nearest integer, with halves rounding up. |
| Geometry.RoundSmall | edit.go:272-275 | Any non-zero size below the floor, negative ones included, gives 16. |
| Geometry.RoundMonotone | edit.go:268-278 | A larger positive size never gives a smaller side. |
| Geometry.UnitMultiplier | edit.go:249-266 | Pixels need no conversion, and a positive density gives a positive multiplier. |
| Geometry.UnitMultiplierInchCm | edit.go:251-265 | An inch is 2.54 times a centimetre, whatever the density unit. |
| Geometry.Sides | edit.go:281-284 | The requested pair is kept, unless 0 < long < short, when it is swapped. Two positive sides come out with long not below short. |
| Geometry.FitImage | edit.go:238-299 | In megapixel mode the image's longer axis is unconstrained. In the other modes both sides are at least 16. |
| Geometry.FitDimsOrientation | edit.go:280-292 | In long/short mode, for any unit and density, the long side follows the image's longer axis. |
| Geometry.FitOfOrientation | edit.go:286-292 | A box built from a long side at least the short side follows the image's orientation. |
| Geometry.SidesSwap | edit.go:281-284 | Swapping the two requested sides gives the same pair. |
| Geometry.FitDimsSwap | edit.go:280-292 | Which of the two lengths is called "long" does not change the box. |
| Geometry.FitBoxIgnoresOrientation | edit.go:293-296 | A width/height box does not depend on the image's shape. |
| Geometry.FitUnitInvariance | edit.go:249-296 | The same lengths asked in inches or in centimetres (2.54 times the number) give the same box. |
| Geometry.PixelsScaled | edit.go:249-296 | Scaling the multiplier by 2.54 is scaling every length by 2.54. |
| Geometry.ExportPath | edit.go:182-190 | The export name has extension ".dng" or ".jpg" and keeps the path's stem. |
| Geometry.ExportPathIdempotent | edit.go:182-190 | Taking the export name of an export name changes nothing. |
| Geometry.ExportPathSameIff | edit.go:182-190 | Two paths export to the same name exactly when their stems agree. |
| Paths.Ext | edit.go:333 | The extension is the suffix from the last dot of the final element, and it is "" exactly when that element has no dot. |
| Paths.Stem | edit.go:189 | The stem followed by the extension is the path. |
| Paths.ExtOfAppended | edit.go:189 | Appending ".dng" or ".jpg" to a stem makes it the extension. |
| Paths.Base | meta.go:24-35 | The base is never empty: "." for an empty path, and no '/' unless it is "/". |
| Paths.ToUpper | http_gallery.go:107 | Upper-casing works rune by rune and keeps the length. |
| PathClean.CleanIdempotent | http_gallery.go:93 | The page title, a cleaned path, is already clean. |
| PathClean.CleanNonEmpty | http_gallery.go:83-93 | A cleaned path is never empty. |
| PathClean.JoinDot | http_gallery.go:83 | Joining "." onto a path cleans it. |
| PathClean.ParentIsSelfIffRoot | http_gallery.go:84-87 | The parent of a cleaned path equals it exactly at the root "/". |
| PathClean.SplitJoin | http_gallery.go:83-84 | Splitting on '/' undoes joining pieces that hold no '/'. |
| PathClean.ElemsOfRender | http_gallery.go:83-84 | A cleaned path reads back as the same elements and the same rootedness. |
| PathClean.NormIsNormal | http_gallery.go:83-84 | Cleaning yields names only, with ".." only as a leading run of a relative path. |
| PathClean.RenderInjective | http_gallery.go:83-84 | Different cleaned element lists render as different paths. |
| PathClean.ParentOfClean | http_gallery.go:84 | Joining ".." onto a cleaned path drops its last element, if any. |
| Sidecar.ReadFile | edit.go:338 | A read succeeds only on an existing path, and fails with "not found" exactly when the path is missing. |
| Sidecar.XmpNames | edit.go:308-316 | Both sidecar names end in ".xmp", and they differ whenever the photo has an extension. |
| Sidecar.AfterNameXmp | edit.go:347-360 | Past NAME.xmp, the answer is an .xmp file or the DNG itself, and "not found" is never returned as an error. |
| Sidecar.DestSidecar | edit.go:332-361 | A non-empty answer is an .xmp file or the photo itself when it is a DNG. "Not found" is never returned as an error. |
| Sidecar.DestSidecarPrecedence | edit.go:335-360 | The order is: a matching NAME.xmp, then an existing NAME.EXT.xmp, then the DNG itself if it was edited, then NAME.xmp. |
| Sidecar.DestSidecarErrors | edit.go:338-352 | Resolution fails exactly on an error other than "not found", and passes that error on unchanged. |
| Sidecar.AfterNameXmpErrors | edit.go:348-352 | Past NAME.xmp, only statting NAME.EXT.xmp can fail. |
| Sidecar.DestSidecarEmptyIff | edit.go:338-344 | The answer is "" with no error exactly when NAME.xmp reads but belongs to another extension. |
| Sidecar.DestSidecarForeignExample | edit.go:338-344 | "a.CR2" beside an "a.xmp" for another extension resolves to "" with no error. |
| Sidecar.DestSidecarFallthrough | edit.go:332-361 | The corrected resolver always answers a file: an .xmp or the edited DNG. |
| Sidecar.FallthroughAgrees | edit.go:338-344 | The corrected resolver differs from the code only when NAME.xmp belongs to another extension, and then it goes on to NAME.EXT.xmp. |
| Sidecar.ReadSidecar | edit.go:309-319 | A read counts only if it is a sidecar for the extension. Other errors come through unchanged. |
| Sidecar.LoadSidecar | edit.go:301-330 | At most the write and the extraction are done. When extraction happens it is last, and its result is returned. |
| Sidecar.WriteAndExtract | edit.go:321-329 | At most the write and the extraction are done. When extraction happens it is last, and its result is returned. |
| Sidecar.LoadSidecarPrefersNameXmp | edit.go:306-324 | A matching NAME.xmp is what gets copied. |
| Sidecar.LoadSidecarForeignIsAbsent | edit.go:310-312 | A NAME.xmp for another extension is treated exactly like a missing one. |
| Sidecar.FindSidecarForeign | edit.go:310-320 | Removing a foreign NAME.xmp does not change the sidecar found. |
| Sidecar.FindSidecar | edit.go:306-320 | A sidecar found is a matching NAME.xmp, or NAME.EXT.xmp when it is a sidecar for the extension. |
| Sidecar.FindSidecarPrecedence | edit.go:306-320 | A matching NAME.xmp wins. Otherwise, with NAME.xmp missing or foreign, NAME.EXT.xmp is taken if it is a sidecar for the extension, skipped if foreign, and its read error returned if it fails. |
| Sidecar.FindSidecarErrors | edit.go:306-320 | The search stops with an error other than "not found" exactly when reading NAME.xmp fails so, or NAME.xmp was passed over and reading NAME.EXT.xmp fails so. |
| Sidecar.LoadSidecarCopiesExtXmp | edit.go:314-324 | With NAME.xmp missing or foreign, a NAME.EXT.xmp for the extension is what gets written to the destination. |
| Sidecar.LoadSidecarEmbeddedOnly | edit.go:306-329 | With no sidecar under either name, the only call is the extraction of the embedded XMP, and its result is returned. |
| Sidecar.LoadSidecarOfFound | edit.go:321-329 | What loadSidecar does depends on the disk only through the sidecar found. |
| Sidecar.LoadSidecarExtractIff | edit.go:314-329 | The embedded XMP is extracted exactly when nothing but "not found" went wrong before. Any other error is returned unchanged. |
| Sidecar.WriteAndExtractIff | edit.go:321-329 | After the search, extraction happens exactly when the copy succeeded or nothing was found. Otherwise the error is returned. |
| Sidecar.LoadAndDestAgree | edit.go:301-361 | A sidecar that loadSidecar copies is the file the corrected destSidecar writes back to. |
| Sidecar.LoadAndDestAgreeAsWritten | edit.go:301-361 | The code's destSidecar agrees with loadSidecar too, outside the foreign case. |
| Gallery.Items | http_gallery.go:102-103 | There is one link per entry. |
| Gallery.FilterAppend | http_gallery.go:97-110 | Filtering a listing in two parts gives the two parts' results in order. |
| Gallery.FilterIff | http_gallery.go:97-110 | An entry is kept exactly when it is listed and accepted. |
| Gallery.ClassifyListing | http_gallery.go:97-110 | The loop lists exactly the visible folders and the visible supported photos, in listing order. |
| Gallery.DirsOfIff | http_gallery.go:98-106 | An entry is shown as a folder exactly when it is a visible directory. |
| Gallery.PhotosOfIff | http_gallery.go:98-109 | An entry is shown as a photo exactly when it is a visible file with a supported raw extension. |
| Gallery.ListingOrder | http_gallery.go:97-110 | Folders and photos keep the order of the listing. |
| Gallery.ExtensionShape | http_gallery.go:14-45 | Every supported extension is a dot and three characters. |
| Gallery.PhotoOfExtension | http_gallery.go:107 | Any file whose extension upper-cases into the table is a photo, whatever its case. |
| Gallery.DngBothCases | http_gallery.go:107 | "x.dng" and "x.DNG" are both photos. |
| Gallery.GalleryPage | http_gallery.go:80-110 | A listing error is returned as it is. A page lists the folders and photos of the listing. |
| Gallery.GalleryPageHeader | http_gallery.go:83-95 | The title is the cleaned path, and the parent link is missing exactly at the root. |
| Pipeline.Then | edit.go:39-42 | A step runs first, and the rest runs only after it succeeded. |
| Pipeline.Last | edit.go:69 | A last step's result is the operation's result. |
| Pipeline.ResolveWhiteBalance | edit.go:35-37 | The placeholder never survives, the other settings are untouched, and settings without it pass as they are. |
| Pipeline.LoadEdit | edit.go:18-26 | loadEdit stops on the first error, and makes no call when the workspace fails to open. |
| Pipeline.SaveEdit | edit.go:28-70 | saveEdit stops on the first failing call and returns its error. The destination is the answer of the code's `destSidecar`. |
| Pipeline.SaveEditCorrected | edit.go:28-70 | The same save, publishing through the corrected `destSidecar`; it too stops on the first failing call and returns its error. |
| Pipeline.SaveWith | edit.go:39-69 | With resolved settings and a resolved destination, saving stops on the first failing call. |
| Pipeline.Publish | edit.go:49-69 | Publishing stops on the first failing call. |
| Pipeline.PreviewEdit | edit.go:72-126 | previewEdit stops on the first failing call. |
| Pipeline.PreviewWith | edit.go:83-125 | Each preview branch stops on the first failing call. |
| Pipeline.ExportEdit | edit.go:128-180 | exportEdit stops on the first failing call. |
| Pipeline.ExportWith | edit.go:139-180 | With resolved settings, exporting stops on the first failing call. |
| Pipeline.ExportConverted | edit.go:146-180 | After the settings are written, export stops on the first failing call. |
| Pipeline.ExportDngSteps | edit.go:151-156 | The DNG steps stop on the first failing call. |
| Pipeline.ExportJpegSteps | edit.go:157-179 | The JPEG steps stop on the first failing call. |
| Pipeline.LoadWhiteBalance | edit.go:192-216 | loadWhiteBalance stops on the first failing call. |
| Pipeline.WhiteBalanceSteps | edit.go:199-215 | The white-balance steps stop on the first failing call. |
| Pipeline.ThenSuccess | edit.go:39-42 | A run that succeeded got past its first call. |
| Pipeline.ThenPass | edit.go:39-42 | After a first call that succeeded, the run continues with the rest. |
| Pipeline.ThenWrites | edit.go:39-42 | Prefixing a step that writes `x`, or writes nothing, keeps "only `x` is written". |
| Pipeline.ThenNoEdit | edit.go:49-69 | Prefixing a step that writes no settings keeps "no settings written". |
| Pipeline.ResolvedWrites | edit.go:35-37 | A run that writes only the resolved settings never writes the placeholder. |
| Pipeline.SaveSentinelResolved | edit.go:35-42 | saveEdit never writes "Camera Matching…", and keeps every other setting. |
| Pipeline.PreviewSentinelResolved | edit.go:79-125 | previewEdit never writes "Camera Matching…", and keeps every other setting. |
| Pipeline.ExportSentinelResolved | edit.go:135-139 | exportEdit never writes "Camera Matching…", and keeps every other setting. |
| Pipeline.SaveWrites | edit.go:39-69 | Saving writes only the given settings. |
| Pipeline.PublishHasNoEdit | edit.go:49-69 | Publishing writes no settings. |
| Pipeline.PreviewWrites | edit.go:83-125 | Previewing writes only the given settings. |
| Pipeline.ExportWrites | edit.go:139-180 | Exporting writes only the given settings. |
| Pipeline.ExportTailHasNoEdit | edit.go:157-179 | The JPEG steps write no settings. |
| Pipeline.PreviewBranches | edit.go:83-125 | Each branch writes to its own target and converts from and to its own files: size 0 goes from the raw file at native size; a cached edit is reused at the requested size; otherwise the cache is built at 2560. |
| Pipeline.PreviewSuccess | edit.go:83-125 | A successful preview makes three calls and answers with the JPEG of the last one. |
| Pipeline.PreviewCacheWrites | edit.go:97-125 | Only the third branch writes the edit cache, and a size-0 preview never touches it. |
| Pipeline.PublishThroughBackup | edit.go:49-69 | A successful publish renames DEST.bak over DEST as its last call, right after producing DEST.bak. |
| Pipeline.SavePublishesThroughBackup | edit.go:39-69 | A successful save reaches the destination only through that final rename. |
| Pipeline.PrefixKeeps | edit.go:39-69 | A step that neither renames, moves nor copies keeps both publishing properties. |
| Pipeline.SaveRenameIsLast | edit.go:39-69 | Whatever fails, saving renames only as its last call, and every copy or move writes DEST.bak. |
| Pipeline.PublishRenameIsLast | edit.go:49-69 | Publishing renames only as its last call, and every copy or move writes DEST.bak. |
| Pipeline.PublishConvertIff | edit.go:49-64 | Publishing converts exactly when the photo is its own destination, and then as an embedded-preview DNG at native size. |
| Pipeline.SaveConvertIff | edit.go:39-64 | Saving converts exactly when the settings were written and the photo is its own destination. |
| Pipeline.SaveConvertsOnlyDng | edit.go:44-56 | With the code's `destSidecar`, the converter only overwrites a photo with a ".dng" extension, in any case, or a file that is its own ".xmp". |
| Pipeline.SaveConvertsOnlyDngCorrected | edit.go:44-56 | The same holds for the save through the corrected `destSidecar`. |
| Pipeline.SaveRenamesFound | edit.go:44-69 | The only rename a save makes moves DEST.bak over DEST, the resolved destination. |
| Pipeline.SaveCorrectedNeverEmpty | edit.go:44-69 | Through the corrected `destSidecar`, a save never renames onto the empty name. |
| Pipeline.SaveForeignAsWritten | edit.go:44-69 | With the code's own resolver and a NAME.xmp for another extension, the sidecar is copied to ".bak" and, if that copy succeeds, renamed to the empty path. |
| Pipeline.ExportDng | edit.go:139-156 | A DNG export converts with the export settings, fixes the metadata naming the photo as original, and returns the converted file. |
| Pipeline.ExportResampled | edit.go:157-164 | A resampled JPEG is returned straight away, with nothing written and no exiftool call. |
| Pipeline.ExportJpegMetadata | edit.go:157-179 | A full-size JPEG export writes the JPEG, injects the converted DNG's XMP, copies the original's metadata, then reads it back. |
| Pipeline.ExportJpegPasses | edit.go:139-149 | A successful JPEG export got past the settings write and the converter. |
| Pipeline.ExportJpegShape | edit.go:139-179 | Once those two calls succeed, a JPEG export is the JPEG steps. |
| Pipeline.JpegStepsFull | edit.go:157-179 | Without resampling, successful JPEG steps are the five calls of a full-size export. |
| Pipeline.WhiteBalanceCalls | edit.go:199-215 | The cache is built exactly when missing. Pixels are extracted exactly when missing, given a point, and with the cache present. A success ends by computing the white balance. |

## Left out

- `hash`, `must`, `constError` and `init` (util.go:24-46): process set-up and a digest, with no decision logic.
- util_windows.go: Windows-only file handling. Paths are Unix paths here: '/' is the only separator, and there are no volume names.
- http_photo.go and http_serverBatch.go: HTTP handlers and the concurrent batch engine around the modelled operations. No decision of theirs is modelled.
- `galleryHandler` beyond the listing: the native folder picker, `cacheHeaders`, template rendering, and `toURLPath`. Links and the parent are the cleaned filesystem paths, not their URL form.
- `isHidden` (http_gallery.go:98): an OS query, modelled as a flag of each entry.
- `setupExifTool` and `getMetaHTML` (meta.go:14-22): server start-up and an HTML dump.
- `injectXMP` and `fixMetaJPEG` (meta.go:37-74): only their argument lists are modelled. What exiftool does to the bytes is opaque.
- workspace.go is not part of this model. `openWorkspace` is an input (`Result<Workspace>`), and `wk.close()` is not modelled.
- `osutil.Move` and `osutil.Copy` (edit.go:61,63) are single opaque calls of the environment. util.go's own `moveFile` and `copyFile` are modelled separately in `FileOps`.
- Read-only probes are not recorded as calls: the sidecar lookup, `dngHasEdits` and the camera white-balance query. The model reads them from the environment.
- The converter, `previewJPEG`, `exportJPEG`, `resampleJPEG`, `getRawPixels`, `computeWhiteBalance`, `editXMP`, `loadXMP` and `extractXMP` are calls whose result the environment decides. JPEG, DNG and XMP bytes are opaque.
- Geometry.FitImage: float64 arithmetic is modelled by exact reals. The megapixel scale `math.Sqrt(1e6*MPixels/(X*Y))` is an input, so only the choice of the unconstrained axis is stated for "mpix". The overflow of `int(x + 0.5)` for huge sizes is not modelled.
- makeFile: only one renaming step is modelled (`FileNames.NextName`). The retry loop over `os.OpenFile` needs a real filesystem.
- Unique.Unique: the in-place squeeze over a `*[]string` is modelled on an immutable sequence. `sort.Strings` is specified as a sorted permutation, not as Go's algorithm.
- Meta.ScanLines: `bufio.Scanner`'s 64 KiB token limit is not modelled. Lines are unbounded.
- Paths.ToUpper: exact for ASCII and for the two non-ASCII runes whose upper case is ASCII. Other runes are left unchanged, which is enough to decide membership in the extension table.
- Paths.EqualFoldAscii: `strings.EqualFold` with ASCII folding only. This is exact whenever one side is ".dng".
- Util.Filename: `strconv.IsPrint` is a parameter. The rune count stands in for the byte length of the builder; both exceed the dot count exactly when a non-dot rune was written.

## Findings

| source | as written | input that shows it | evidently intended | confidence | as-written member | corrected member |
|---|---|---|---|---|---|---|
| edit.go:338-344 | When NAME.xmp reads but is a sidecar for another extension, `err` is nil. The not-found test lets it through, so `destSidecar` returns "" with no error, and `saveEdit` goes on to copy to ".bak" and rename to "". | "a.CR2" with a readable "a.xmp" that is a sidecar for ".NEF" gives ("", nil). | Pass over a foreign NAME.xmp as if it were missing, as `loadSidecar` does (edit.go:310-312), and go on to NAME.EXT.xmp, the edited DNG, or NAME.xmp. | not executed | Sidecar.DestSidecarEmptyIff, Sidecar.DestSidecarForeignExample, Pipeline.SaveForeignAsWritten | Sidecar.DestSidecarFallthrough, Sidecar.FallthroughAgrees, Sidecar.LoadAndDestAgree, Pipeline.SaveEditCorrected, Pipeline.SaveCorrectedNeverEmpty |
