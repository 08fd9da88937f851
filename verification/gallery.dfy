/** The directory listing of http_gallery.go: which entries of a folder are
    shown as folders, which as photos, and the page's title and parent. The
    listing (`ioutil.ReadDir`) is an input, and whether an entry is hidden
    (`isHidden`, an OS query) is a flag of the entry. */
module Gallery {
  import opened Outcomes
  import opened Paths
  import PathClean

  /** The raw formats the gallery shows, by upper-case extension. */
  const Extensions: set<string> := {
    ".CRW", ".NEF", ".RAF", ".ORF", ".MRW", ".DCR", ".MOS", ".RAW", ".PEF", ".SRF",
    ".DNG", ".X3F", ".CR2", ".ERF", ".SR2", ".KDC", ".MFW", ".MEF", ".ARW", ".NRW",
    ".RW2", ".RWL", ".IIQ", ".3FR", ".FFF", ".SRW", ".GPR", ".DXO", ".ARQ", ".CR3"
  }

  datatype Entry = Entry(name: string, isDir: bool, hidden: bool)

  /** A link on the page: the entry's name and its cleaned path. */
  datatype Item = Item(name: string, path: string)

  datatype Page = Page(title: string, parent: string, dirs: seq<Item>, photos: seq<Item>)

  /** A file is a photo when its upper-cased extension is in the table. */
  predicate IsPhoto(name: string) {
    ToUpper(Ext(name)) in Extensions
  }

  function ItemOf(dir: string, e: Entry): Item {
    Item(e.name, PathClean.Join(dir, e.name))
  }

  predicate ShownAsDir(e: Entry) {
    !e.hidden && e.isDir
  }

  predicate ShownAsPhoto(e: Entry) {
    !e.hidden && !e.isDir && IsPhoto(e.name)
  }

  /** The entries of a listing that `keep` accepts, in listing order. */
  function Filter(es: seq<Entry>, keep: Entry -> bool): seq<Entry> {
    if |es| == 0 then []
    else (if keep(es[0]) then [es[0]] else []) + Filter(es[1..], keep)
  }

  /** The entries listed as folders. */
  function DirsOf(es: seq<Entry>): seq<Entry> {
    Filter(es, ShownAsDir)
  }

  /** The entries listed as photos. */
  function PhotosOf(es: seq<Entry>): seq<Entry> {
    Filter(es, ShownAsPhoto)
  }

  /** The links for some entries of the folder `dir`. */
  function Items(dir: string, es: seq<Entry>): (r: seq<Item>)
    ensures |r| == |es|
  {
    seq(|es|, i requires 0 <= i < |es| => ItemOf(dir, es[i]))
  }

  lemma ItemsAppend(dir: string, a: seq<Entry>, b: seq<Entry>)
    ensures Items(dir, a + b) == Items(dir, a) + Items(dir, b)
  {
    var l, r := Items(dir, a + b), Items(dir, a) + Items(dir, b);
    forall i | 0 <= i < |l|
      ensures l[i] == r[i]
    {
      if i < |a| {
        assert (a + b)[i] == a[i];
      } else {
        assert (a + b)[i] == b[i - |a|];
      }
    }
  }

  /** Filtering a listing in two parts is filtering the whole: the page
      keeps the order of the listing. */
  lemma {:induction false} FilterAppend(a: seq<Entry>, b: seq<Entry>, keep: Entry -> bool)
    ensures Filter(a + b, keep) == Filter(a, keep) + Filter(b, keep)
    decreases |a|
  {
    if |a| == 0 {
      assert a + b == b;
    } else {
      var head := if keep(a[0]) then [a[0]] else [];
      assert (a + b)[0] == a[0];
      assert (a + b)[1..] == a[1..] + b;
      assert Filter(a + b, keep) == head + Filter(a[1..] + b, keep);
      FilterAppend(a[1..], b, keep);
      assert head + (Filter(a[1..], keep) + Filter(b, keep)) == (head + Filter(a[1..], keep)) + Filter(b, keep);
    }
  }

  /** An entry is kept exactly when it is in the listing and accepted. */
  lemma {:induction false} FilterIff(es: seq<Entry>, keep: Entry -> bool, e: Entry)
    ensures e in Filter(es, keep) <==> e in es && keep(e)
    decreases |es|
  {
    if |es| > 0 {
      FilterIff(es[1..], keep, e);
      assert es == [es[0]] + es[1..];
    }
  }

  /** One more entry adds at most its own link. */
  lemma FilterStep(dir: string, es: seq<Entry>, e: Entry, keep: Entry -> bool)
    ensures Items(dir, Filter(es + [e], keep)) == Items(dir, Filter(es, keep)) + (if keep(e) then [ItemOf(dir, e)] else [])
  {
    FilterAppend(es, [e], keep);
    assert Filter([e], keep) == if keep(e) then [e] else [];
    ItemsAppend(dir, Filter(es, keep), Filter([e], keep));
  }

  /** The loop of `galleryHandler`: skip hidden entries, list every folder,
      and list the files whose extension is a supported raw format. */
  method ClassifyListing(dir: string, es: seq<Entry>) returns (dirs: seq<Item>, photos: seq<Item>)
    ensures dirs == Items(dir, DirsOf(es))
    ensures photos == Items(dir, PhotosOf(es))
  {
    dirs, photos := [], [];
    var i := 0;
    while i < |es|
      invariant 0 <= i <= |es|
      invariant dirs == Items(dir, DirsOf(es[..i]))
      invariant photos == Items(dir, PhotosOf(es[..i]))
    {
      var e := es[i];
      FilterStep(dir, es[..i], e, ShownAsDir);
      FilterStep(dir, es[..i], e, ShownAsPhoto);
      assert es[..i + 1] == es[..i] + [e];
      if e.hidden {
        i := i + 1;
        continue;
      }
      var item := ItemOf(dir, e);
      if e.isDir {
        dirs := dirs + [item];
      } else if ToUpper(Ext(e.name)) in Extensions {
        photos := photos + [item];
      }
      i := i + 1;
    }
    assert es[..i] == es;
  }

  /** An entry is listed as a folder exactly when it is a visible folder of
      the listing: hidden ones never are, visible ones always. */
  lemma DirsOfIff(es: seq<Entry>, e: Entry)
    ensures e in DirsOf(es) <==> e in es && !e.hidden && e.isDir
  {
    FilterIff(es, ShownAsDir, e);
  }

  /** An entry is listed as a photo exactly when it is a visible file of the
      listing whose extension is a supported raw format. */
  lemma PhotosOfIff(es: seq<Entry>, e: Entry)
    ensures e in PhotosOf(es) <==> e in es && !e.hidden && !e.isDir && IsPhoto(e.name)
  {
    FilterIff(es, ShownAsPhoto, e);
  }

  /** The page lists folders and photos in the order of the listing. */
  lemma ListingOrder(a: seq<Entry>, b: seq<Entry>)
    ensures DirsOf(a + b) == DirsOf(a) + DirsOf(b)
    ensures PhotosOf(a + b) == PhotosOf(a) + PhotosOf(b)
  {
    FilterAppend(a, b, ShownAsDir);
    FilterAppend(a, b, ShownAsPhoto);
  }

  /** Every extension in the table is a dot and three upper-case letters or
      digits. */
  lemma ExtensionShape(e: string)
    requires e in Extensions
    ensures |e| == 4 && e[0] == '.' && '.' !in e[1..] && '/' !in e
  {
  }

  /** Any file whose extension upper-cases into the table is a photo, so
      "x.dng", "x.DNG" and "x.Dng" all are. */
  lemma PhotoOfExtension(stem: string, ext: string)
    requires ToUpper(ext) in Extensions
    ensures IsPhoto(stem + ext)
  {
    var u := ToUpper(ext);
    ExtensionShape(u);
    assert forall i :: 0 <= i < |ext| ==> (ext[i] == '.' <==> u[i] == '.') && (ext[i] == '/' <==> u[i] == '/');
    assert forall i :: 1 <= i < |ext| ==> ext[1..][i - 1] == ext[i] && u[1..][i - 1] == u[i];
    ExtOfAppended(stem, ext);
  }

  lemma DngBothCases(stem: string)
    ensures IsPhoto(stem + ".dng") && IsPhoto(stem + ".DNG")
  {
    DngUpper();
    PhotoOfExtension(stem, ".dng");
    PhotoOfExtension(stem, ".DNG");
  }

  lemma DngUpper()
    ensures ToUpper(".dng") == ".DNG" && ToUpper(".DNG") == ".DNG" && ".DNG" in Extensions
  {
  }

  /** The page for the folder at `path`: titled with the cleaned path, with
      a parent link unless the folder is a root. */
  function GalleryPage(path: string, listing: Result<seq<Entry>>): (r: Result<Page>)
    ensures listing.Failure? ==> r == Failure(listing.error)
    ensures r.Success? ==> (listing.Success?
      && r.value.dirs == Items(PathClean.Join(path, "."), DirsOf(listing.value))
      && r.value.photos == Items(PathClean.Join(path, "."), PhotosOf(listing.value)))
  {
    match listing
    case Failure(e) => Failure(e)
    case Success(es) =>
      var dir := PathClean.Join(path, ".");
      var parent := PathClean.Join(dir, "..");
      Success(Page(PathClean.Clean(dir), if dir == parent then "" else parent,
                   Items(dir, DirsOf(es)), Items(dir, PhotosOf(es))))
  }

  /** The title is the cleaned path, and the parent link is missing exactly
      at the root. */
  lemma GalleryPageHeader(path: string, es: seq<Entry>)
    ensures GalleryPage(path, Success(es)).value.title == PathClean.Clean(path)
    ensures GalleryPage(path, Success(es)).value.parent == "" <==> PathClean.Clean(path) == "/"
  {
    PathClean.JoinDot(path);
    PathClean.CleanIdempotent(path);
    PathClean.ParentIsSelfIffRoot(path);
    PathClean.CleanNonEmpty(path);
    PathClean.CleanNonEmpty(PathClean.Clean(path) + "/" + "..");
  }
}
