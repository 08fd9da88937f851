/** The exiftool side of meta.go: the argument lists handed to the exiftool
    server and the two decisions taken on its output. The server itself is
    a function from an argument list to the command's output or error. */
module Meta {
  import opened Outcomes
  import Paths

  type ExifTool = seq<string> -> Result<Bytes>

  /** The white balance the editor sends to ask for the camera's own setting. */
  const CameraMatching: string := "Camera Matching…"

  /** The white balance names the editor understands. */
  const Canonical: seq<string> := ["Auto", "Daylight", "Cloudy", "Shade", "Tungsten", "Fluorescent", "Flash"]

  /** The names exiftool may report for the same settings. */
  const Synonyms: seq<string> := ["Sunny", "Overcast", "Incandescent"]

  // ------------------------------------------------------- argument lists

  /** `fixMetaDNG`: copy the original's tags into the converted DNG, fix its
      maker notes, and record the original raw file name. */
  function FixMetaDngArgs(orig: string, dest: string, name: string): (args: seq<string>)
    ensures |args| == if name == "" then 7 else 8
    ensures args[..5] == ["-tagsFromFile", orig, "-fixBase", "-MakerNotes", "-OriginalRawFileName-=" + Paths.Base(orig)]
    ensures name != "" ==> args[5] == "-OriginalRawFileName=" + Paths.Base(name)
    ensures args[|args| - 2..] == ["-overwrite_original", dest]
  {
    var opts := ["-tagsFromFile", orig, "-fixBase", "-MakerNotes", "-OriginalRawFileName-=" + Paths.Base(orig)];
    var named := if name != "" then opts + ["-OriginalRawFileName=" + Paths.Base(name)] else opts;
    named + ["-overwrite_original", dest]
  }

  /** The argument list names its files: two different requests never share
      one command line. */
  lemma FixMetaDngArgsInjective(o1: string, d1: string, n1: string, o2: string, d2: string, n2: string)
    requires FixMetaDngArgs(o1, d1, n1) == FixMetaDngArgs(o2, d2, n2)
    ensures o1 == o2 && d1 == d2
    ensures n1 == "" <==> n2 == ""
    ensures n1 != "" ==> Paths.Base(n1) == Paths.Base(n2)
  {
    var a := FixMetaDngArgs(o1, d1, n1);
    assert a[1] == o1 && a[1] == o2;
    assert a[|a| - 1] == d1 && a[|a| - 1] == d2;
    if n1 != "" {
      var p := "-OriginalRawFileName=";
      assert a[5] == p + Paths.Base(n1) && a[5] == p + Paths.Base(n2);
      assert Paths.Base(n1) == a[5][|p|..] == Paths.Base(n2);
    }
  }

  /** `injectXMP`: copy the DNG's metadata, XMP included, into the JPEG. */
  function InjectXmpArgs(orig: string, dest: string): seq<string> {
    ["-tagsFromFile", orig, "-overwrite_original", dest]
  }

  /** `fixMetaJPEG`: copy the original's EXIF, GPS, IPTC and Dublin Core tags
      into the JPEG. */
  function FixMetaJpegArgs(orig: string, dest: string): seq<string> {
    ["-tagsFromFile", orig, "-fixBase", "-CommonIFD0", "-ExifIFD:all", "-GPS:all",
     "-IPTC:all", "-XMP-dc:all", "-XMP-dc:Format=", "-fast", "-overwrite_original", dest]
  }

  function HasEditsArgs(path: string): seq<string> {
    ["-XMP-photoshop:all", path]
  }

  function WhiteBalanceArgs(path: string): seq<string> {
    ["-duplicates", "-short3", "-fast", "-ExifIFD:WhiteBalance", "-MakerNotes:WhiteBalance", path]
  }

  // ------------------------------------------------------------ decisions

  /** `dngHasEdits`: the file carries Camera Raw settings exactly when the
      query for them succeeds and prints something. */
  function DngHasEdits(exif: ExifTool, path: string): (b: bool)
    ensures b ==> exif(HasEditsArgs(path)).Success?
    ensures exif(HasEditsArgs(path)).Failure? ==> !b
    ensures exif(HasEditsArgs(path)).Success? ==> (b <==> exif(HasEditsArgs(path)).value != [])
  {
    var out := exif(HasEditsArgs(path));
    out.Success? && |out.value| > 0
  }

  // ------------------------------------------------------- line scanning

  /** The position of the first '\n', or the length when there is none. */
  function NewlineAt(b: Bytes): (k: nat)
    ensures k <= |b|
    ensures k < |b| ==> b[k] == 10
    ensures forall i :: 0 <= i < k ==> b[i] != 10
  {
    if |b| == 0 || b[0] == 10 then 0 else 1 + NewlineAt(b[1..])
  }

  predicate EndsWithCR(l: Bytes) {
    |l| > 0 && l[|l| - 1] == 13
  }

  /** One trailing '\r' is dropped from every line. */
  function DropCR(l: Bytes): (r: Bytes)
    ensures !EndsWithCR(l) ==> r == l
    ensures EndsWithCR(l) ==> r + [13] == l
  {
    if EndsWithCR(l) then l[..|l| - 1] else l
  }

  /** `bufio.ScanLines`: the text between newlines, without the '\r' of a
      CRLF; a last line without a newline still counts, an empty tail does
      not. */
  function ScanLines(b: Bytes): (lines: seq<Bytes>)
    ensures forall i :: 0 <= i < |lines| ==> 10 !in lines[i]
    decreases |b|
  {
    if |b| == 0 then []
    else
      var k := NewlineAt(b);
      if k == |b| then [DropCR(b)] else [DropCR(b[..k])] + ScanLines(b[k + 1..])
  }

  /** The lines joined back, each followed by a newline. */
  function Terminate(lines: seq<Bytes>): Bytes {
    if |lines| == 0 then [] else lines[0] + [10] + Terminate(lines[1..])
  }

  lemma NewlineAtSplit(a: Bytes, rest: Bytes)
    requires 10 !in a
    ensures NewlineAt(a + [10] + rest) == |a|
  {
    var b := a + [10] + rest;
    var k := NewlineAt(b);
    assert b[|a|] == 10;
    assert forall i :: 0 <= i < |a| ==> b[i] == a[i];
  }

  /** Scanning newline-terminated lines gives the lines back, as long as
      none holds a newline or ends in a carriage return. */
  lemma {:induction false} ScanTerminated(lines: seq<Bytes>)
    requires forall i :: 0 <= i < |lines| ==> 10 !in lines[i] && !EndsWithCR(lines[i])
    ensures ScanLines(Terminate(lines)) == lines
    decreases |lines|
  {
    if |lines| > 0 {
      var a := lines[0];
      var rest := Terminate(lines[1..]);
      var b := a + [10] + rest;
      NewlineAtSplit(a, rest);
      assert b[..|a|] == a;
      assert b[|a| + 1..] == rest;
      ScanTerminated(lines[1..]);
      assert lines == [lines[0]] + lines[1..];
    }
  }

  // -------------------------------------------------- white balance names

  /** What one line of exiftool's output says, if it names a white balance. */
  function Recognise(line: string): (r: Option<string>)
    ensures r.Some? ==> r.value in Canonical
    ensures line in Canonical ==> r == Some(line)
    ensures r.None? <==> line !in Canonical && line !in Synonyms
  {
    if line in Canonical then Some(line)
    else if line == "Sunny" then Some("Daylight")
    else if line == "Overcast" then Some("Cloudy")
    else if line == "Incandescent" then Some("Tungsten")
    else None
  }

  /** Normalising a name twice is normalising it once. */
  lemma RecogniseIdempotent(line: string)
    requires Recognise(line).Some?
    ensures Recognise(Recognise(line).value) == Recognise(line)
  {
  }

  /** The first recognised line decides; "As Shot" when none does. */
  function FirstRecognised(lines: seq<string>): (wb: string)
    ensures wb in Canonical || wb == "As Shot"
  {
    if |lines| == 0 then "As Shot"
    else match Recognise(lines[0])
      case Some(w) => w
      case None => FirstRecognised(lines[1..])
  }

  /** The lines of an exiftool answer, as text. */
  function TextLines(out: Bytes): (lines: seq<string>)
    ensures |lines| == |ScanLines(out)|
  {
    var raw := ScanLines(out);
    seq(|raw|, i requires 0 <= i < |raw| => Latin1(raw[i]))
  }

  /** `cameraMatchingWhiteBalance`: "" when the query fails, otherwise the
      white balance of the first line that names one, or "As Shot". */
  function CameraMatchingWhiteBalance(exif: ExifTool, path: string): (wb: string)
    ensures wb == "" <==> exif(WhiteBalanceArgs(path)).Failure?
    ensures wb == "" || wb == "As Shot" || wb in Canonical
    ensures wb != CameraMatching
  {
    var out := exif(WhiteBalanceArgs(path));
    if out.Failure? then "" else FirstRecognised(TextLines(out.value))
  }

  lemma {:induction false} FirstRecognisedAt(lines: seq<string>, k: nat)
    requires k < |lines| && Recognise(lines[k]).Some?
    requires forall j :: 0 <= j < k ==> Recognise(lines[j]).None?
    ensures FirstRecognised(lines) == Recognise(lines[k]).value
  {
    if k > 0 {
      assert Recognise(lines[0]).None?;
      assert forall j :: 0 <= j < k - 1 ==> lines[1..][j] == lines[j + 1];
      FirstRecognisedAt(lines[1..], k - 1);
    }
  }

  lemma {:induction false} FirstRecognisedNone(lines: seq<string>)
    ensures FirstRecognised(lines) == "As Shot" <==> forall j :: 0 <= j < |lines| ==> Recognise(lines[j]).None?
  {
    if |lines| > 0 {
      FirstRecognisedNone(lines[1..]);
      assert forall j :: 1 <= j < |lines| ==> lines[j] == lines[1..][j - 1];
    }
  }

  /** The answer comes from the first output line that names a white
      balance, after mapping the synonyms. */
  lemma WhiteBalanceFromFirstLine(exif: ExifTool, path: string, k: nat)
    requires exif(WhiteBalanceArgs(path)).Success?
    requires k < |TextLines(exif(WhiteBalanceArgs(path)).value)|
    requires var lines := TextLines(exif(WhiteBalanceArgs(path)).value);
      Recognise(lines[k]).Some? && forall j :: 0 <= j < k ==> Recognise(lines[j]).None?
    ensures CameraMatchingWhiteBalance(exif, path) ==
      Recognise(TextLines(exif(WhiteBalanceArgs(path)).value)[k]).value
  {
    FirstRecognisedAt(TextLines(exif(WhiteBalanceArgs(path)).value), k);
  }

  /** "As Shot" is the answer exactly when the query succeeded and no line
      names a white balance. */
  lemma WhiteBalanceAsShotIff(exif: ExifTool, path: string)
    ensures CameraMatchingWhiteBalance(exif, path) == "As Shot" <==>
      exif(WhiteBalanceArgs(path)).Success? &&
      var lines := TextLines(exif(WhiteBalanceArgs(path)).value);
      forall j :: 0 <= j < |lines| ==> Recognise(lines[j]).None?
  {
    var out := exif(WhiteBalanceArgs(path));
    if out.Success? {
      FirstRecognisedNone(TextLines(out.value));
    }
  }
}
