/**
 * The mobile file browser (`FileBrowserService`): which paths count as
 * protected system files, which files a selection expands to for wiping,
 * how much space a selection takes, how a directory listing is ordered,
 * and how a file name is classified by its extension.
 *
 * The file system is the `MobileFs` value the service reads through
 * react-native-fs; `isProtectedPath` compares lower-cased strings with
 * ASCII-only lower-casing.
 */
module FileBrowser {
  import opened Common
  import opened MobileFs
  import MobileWipe

  // ----- isProtectedPath -----

  /** The `protectedPaths` set a new service starts with. */
  const DEFAULT_PROTECTED: set<string> := {"/system", "/data/system", "/proc", "/sys", "/dev", "/vendor", "/boot"}

  /** The directory patterns `/\/system\//` ... `/\/dev\//`: each matches where the text occurs. */
  const PROTECTED_SEGMENTS: seq<string> := ["/system/", "/vendor/", "/boot/", "/proc/", "/sys/", "/dev/"]

  /** The patterns `/\.so$/` and `/\.apk$/`: each matches at the end. */
  const PROTECTED_SUFFIXES: seq<string> := [".so", ".apk"]

  /** The fixed patterns, matched against the lower-cased path. */
  predicate MatchesPattern(n: string) {
    (exists s :: s in PROTECTED_SEGMENTS && Contains(n, s))
    || (exists x :: x in PROTECTED_SUFFIXES && EndsWith(n, x))
  }

  /** Some entry of `paths`, lower-cased, is a string prefix of the lower-cased path. */
  predicate PrefixProtected(paths: set<string>, path: string) {
    exists p :: p in paths && StartsWith(Lower(path), Lower(p))
  }

  /** `isProtectedPath` with the service's `protectedPaths` set `paths`. */
  predicate Protected(paths: set<string>, path: string) {
    PrefixProtected(paths, path) || MatchesPattern(Lower(path))
  }

  /** The test ignores ASCII case: a path and its lower-cased form are alike. */
  lemma ProtectedIgnoresCase(paths: set<string>, path: string)
    ensures Protected(paths, Lower(path)) == Protected(paths, path)
  {
    assert Lower(Lower(path)) == Lower(path);
  }

  /** Every path added to the set is protected from then on. */
  lemma AddedPathProtected(paths: set<string>, p: string)
    ensures Protected(paths + {p}, p)
  {
    assert StartsWith(Lower(p), Lower(p));
  }

  /**
   * An entry protects by raw string prefix, not by directory: `/systemx`
   * is protected by `/system`, though it is not inside it.
   */
  lemma PrefixNotDirectory()
    ensures Protected(DEFAULT_PROTECTED, "/systemx")
  {
    assert Lower("/systemx")[..7] == "/system" == Lower("/system");
  }

  /**
   * Removing an entry does not unprotect what a fixed pattern matches:
   * with every entry removed, `/data/app/lib.so` is still protected.
   */
  lemma PatternOutlivesRemoval()
    ensures Protected({}, "/data/app/lib.so")
  {
    assert Lower("/data/app/lib.so")[13..] == ".so";
    assert PROTECTED_SUFFIXES[0] == ".so" && EndsWith(Lower("/data/app/lib.so"), PROTECTED_SUFFIXES[0]);
  }

  // ----- getFileExtension / getFileType -----

  /** `lastIndexOf('.')`: the index of the last dot, or -1. */
  function LastDot(s: string): (i: int)
    ensures -1 <= i < |s|
    ensures i >= 0 ==> s[i] == '.'
    ensures forall j :: i < j < |s| ==> s[j] != '.'
    decreases |s|
  {
    if |s| == 0 then -1
    else if s[|s| - 1] == '.' then |s| - 1
    else LastDot(s[..|s| - 1])
  }

  /**
   * `getFileExtension`: the lower-cased text after the last dot, when that
   * dot is not the first character.  The result holds no dot; it is empty
   * exactly when no dot follows the first character or the name ends in a
   * dot; otherwise the lower-cased name ends with a dot and the result.
   */
  function Extension(name: string): (r: string)
    ensures forall k :: 0 <= k < |r| ==> r[k] != '.' && !('A' <= r[k] <= 'Z')
    ensures r == [] <==> (forall k :: 0 < k < |name| ==> name[k] != '.') || (|name| > 0 && name[|name| - 1] == '.')
    ensures r != [] ==> EndsWith(Lower(name), "." + r)
  {
    var d := LastDot(name);
    if d > 0 then
      LowerAfterDot(name, d);
      Lower(name[d + 1..])
    else []
  }

  /** Lower-casing a name from a dot on gives the dot and the lower-cased rest. */
  lemma LowerAfterDot(name: string, d: nat)
    requires d < |name| && name[d] == '.'
    ensures Lower(name)[d..] == "." + Lower(name[d + 1..])
  {
    var a, b := Lower(name)[d..], "." + Lower(name[d + 1..]);
    assert |a| == |b|;
    forall k | 0 <= k < |a| ensures a[k] == b[k] {
      if k > 0 {
        assert name[d + 1..][k - 1] == name[d + k];
      }
    }
  }

  datatype FileType = Document | Image | Video | Audio | Archive | Other

  const DOCUMENT_EXTENSIONS: seq<string> := ["txt", "pdf", "doc", "docx", "xls", "xlsx", "ppt", "pptx"]
  const IMAGE_EXTENSIONS: seq<string> := ["jpg", "jpeg", "png", "gif", "bmp", "webp"]
  const VIDEO_EXTENSIONS: seq<string> := ["mp4", "avi", "mkv", "mov", "wmv", "flv"]
  const AUDIO_EXTENSIONS: seq<string> := ["mp3", "wav", "flac", "aac", "ogg"]
  const ARCHIVE_EXTENSIONS: seq<string> := ["zip", "rar", "7z", "tar", "gz"]

  /** No extension is in two of the five lists. */
  lemma ExtensionListsDisjoint(e: string)
    ensures e in IMAGE_EXTENSIONS ==> e !in DOCUMENT_EXTENSIONS
    ensures e in VIDEO_EXTENSIONS ==> e !in DOCUMENT_EXTENSIONS + IMAGE_EXTENSIONS
    ensures e in AUDIO_EXTENSIONS ==> e !in DOCUMENT_EXTENSIONS + IMAGE_EXTENSIONS + VIDEO_EXTENSIONS
    ensures e in ARCHIVE_EXTENSIONS ==> e !in DOCUMENT_EXTENSIONS + IMAGE_EXTENSIONS + VIDEO_EXTENSIONS + AUDIO_EXTENSIONS
  {
  }

  /**
   * `getFileType`: the first list, in the order document, image, video,
   * audio, archive, that holds the extension; `Other` when none does.
   */
  function TypeOf(name: string): (t: FileType)
    ensures t == Document <==> Extension(name) in DOCUMENT_EXTENSIONS
    ensures t == Image <==> Extension(name) in IMAGE_EXTENSIONS
    ensures t == Video <==> Extension(name) in VIDEO_EXTENSIONS
    ensures t == Audio <==> Extension(name) in AUDIO_EXTENSIONS
    ensures t == Archive <==> Extension(name) in ARCHIVE_EXTENSIONS
    ensures t == Other <==> Extension(name) !in DOCUMENT_EXTENSIONS + IMAGE_EXTENSIONS + VIDEO_EXTENSIONS
                                               + AUDIO_EXTENSIONS + ARCHIVE_EXTENSIONS
  {
    var e := Extension(name);
    ExtensionListsDisjoint(e);
    if e in DOCUMENT_EXTENSIONS then Document
    else if e in IMAGE_EXTENSIONS then Image
    else if e in VIDEO_EXTENSIONS then Video
    else if e in AUDIO_EXTENSIONS then Audio
    else if e in ARCHIVE_EXTENSIONS then Archive
    else Other
  }

  /** A name without an extension is never classified. */
  lemma NoExtensionIsOther(name: string)
    requires forall k :: 0 < k < |name| ==> name[k] != '.'
    ensures TypeOf(name) == Other
  {
    assert Extension(name) == [];
  }

  // ----- expandPathToFiles / getFilesToWipe -----

  /**
   * `expandPathToFiles`: a file is itself, a directory is the files below
   * its entries in `readDir` order, and a path `stat` cannot reach gives
   * nothing (the error is swallowed).
   */
  function Expand(fs: Fs, p: string): seq<string>
    decreases Height(fs, p), 1
  {
    if p in fs.files then [p]
    else if p in fs.dirs then ExpandEach(fs, p, fs.dirs[p])
    else []
  }

  function ExpandEach(fs: Fs, p: string, names: seq<string>): seq<string>
    requires p in fs.dirs
    decreases Height(fs, p), 0, |names|
  {
    if names == [] then []
    else
      ChildLower(fs, p, names[0]);
      Expand(fs, Child(p, names[0])) + ExpandEach(fs, p, names[1..])
  }

  /** One more child of `p` expanded. */
  lemma ExpandEachStep(fs: Fs, p: string, names: seq<string>, i: nat)
    requires p in fs.dirs && i < |names|
    ensures ExpandEach(fs, p, names[i..]) == Expand(fs, Child(p, names[i])) + ExpandEach(fs, p, names[i + 1..])
  {
    assert names[i..][1..] == names[i + 1..];
  }

  /** Every selected path expanded, in selection order. */
  function ExpandAll(fs: Fs, selected: seq<string>): seq<string>
  {
    if selected == [] then [] else Expand(fs, selected[0]) + ExpandAll(fs, selected[1..])
  }

  /** `Array.from(new Set(xs))`: each element once, at its first occurrence. */
  function Unique(xs: seq<string>): (r: seq<string>)
    ensures forall x :: x in r <==> x in xs
  {
    if xs == [] then []
    else
      var d := Unique(xs[..|xs| - 1]);
      assert xs == xs[..|xs| - 1] + [xs[|xs| - 1]];
      if xs[|xs| - 1] in d then d else d + [xs[|xs| - 1]]
  }

  /** The files of `xs` that are not protected, in order. */
  function Unprotected(paths: set<string>, xs: seq<string>): (r: seq<string>)
    ensures forall x :: x in r <==> x in xs && !Protected(paths, x)
  {
    if xs == [] then []
    else if Protected(paths, xs[0]) then Unprotected(paths, xs[1..])
    else [xs[0]] + Unprotected(paths, xs[1..])
  }

  /** `getFilesToWipe` with the service's `protectedPaths` set `paths`. */
  function WipeList(paths: set<string>, fs: Fs, selected: seq<string>): seq<string> {
    Unprotected(paths, Unique(ExpandAll(fs, selected)))
  }

  predicate Distinct(xs: seq<string>) {
    forall i, j :: 0 <= i < j < |xs| ==> xs[i] != xs[j]
  }

  /** The index of the first occurrence of `x` in `xs`. */
  function FirstIndex(xs: seq<string>, x: string): (i: nat)
    requires x in xs
    ensures i < |xs| && xs[i] == x && x !in xs[..i]
  {
    if xs[0] == x then 0
    else
      var i := 1 + FirstIndex(xs[1..], x);
      assert xs[..i] == [xs[0]] + xs[1..][..i - 1];
      i
  }

  lemma {:induction false} FirstIndexPrefix(xs: seq<string>, x: string, y: string)
    requires x in xs
    ensures FirstIndex(xs + [y], x) == FirstIndex(xs, x)
  {
    if xs[0] != x {
      assert (xs + [y])[1..] == xs[1..] + [y];
      FirstIndexPrefix(xs[1..], x, y);
    }
  }

  lemma {:induction false} FirstIndexLast(xs: seq<string>, y: string)
    requires y !in xs
    ensures FirstIndex(xs + [y], y) == |xs|
  {
    if xs != [] {
      assert (xs + [y])[1..] == xs[1..] + [y];
      FirstIndexLast(xs[1..], y);
    }
  }

  /**
   * `Unique` holds no duplicates and keeps the order of first occurrences:
   * an element listed earlier first occurs earlier in the input.
   */
  lemma {:induction false} UniqueOrdered(xs: seq<string>)
    ensures Distinct(Unique(xs))
    ensures forall i, j :: 0 <= i < j < |Unique(xs)| ==>
              FirstIndex(xs, Unique(xs)[i]) < FirstIndex(xs, Unique(xs)[j])
    decreases |xs|
  {
    if xs != [] {
      var init := xs[..|xs| - 1];
      var y := xs[|xs| - 1];
      var d := Unique(init);
      assert xs == init + [y];
      UniqueOrdered(init);
      forall x | x in d
        ensures FirstIndex(xs, x) == FirstIndex(init, x)
      {
        FirstIndexPrefix(init, x, y);
      }
      if y !in d {
        FirstIndexLast(init, y);
      }
    }
  }

  lemma {:induction false} UnprotectedDistinct(paths: set<string>, xs: seq<string>)
    requires Distinct(xs)
    ensures Distinct(Unprotected(paths, xs))
    decreases |xs|
  {
    if xs != [] {
      UnprotectedDistinct(paths, xs[1..]);
      assert forall k :: 0 <= k < |xs[1..]| ==> xs[1..][k] == xs[k + 1];
    }
  }

  /** `Unprotected` keeps the relative order of what it keeps. */
  lemma {:induction false} UnprotectedOrdered(paths: set<string>, xs: seq<string>)
    requires Distinct(xs)
    ensures forall i, j :: 0 <= i < j < |Unprotected(paths, xs)| ==>
              FirstIndex(xs, Unprotected(paths, xs)[i]) < FirstIndex(xs, Unprotected(paths, xs)[j])
    decreases |xs|
  {
    if xs != [] {
      var rest := Unprotected(paths, xs[1..]);
      assert Distinct(xs[1..]);
      UnprotectedOrdered(paths, xs[1..]);
      forall x | x in xs[1..]
        ensures FirstIndex(xs, x) == FirstIndex(xs[1..], x) + 1
      {
        assert x != xs[0];
      }
    }
  }

  /**
   * What `getFilesToWipe` returns: every unprotected file of the expanded
   * selection, each once, none protected, in the order of their first
   * occurrence.
   */
  lemma WipeListFacts(paths: set<string>, fs: Fs, selected: seq<string>)
    ensures var r := WipeList(paths, fs, selected);
      Distinct(r)
      && (forall x :: x in r <==> x in ExpandAll(fs, selected) && !Protected(paths, x))
      && (forall i, j :: 0 <= i < j < |r| ==>
            FirstIndex(ExpandAll(fs, selected), r[i]) < FirstIndex(ExpandAll(fs, selected), r[j]))
  {
    var all := ExpandAll(fs, selected);
    var u := Unique(all);
    var r := Unprotected(paths, u);
    UniqueOrdered(all);
    UnprotectedDistinct(paths, u);
    UnprotectedOrdered(paths, u);
    forall i, j | 0 <= i < j < |r|
      ensures FirstIndex(all, r[i]) < FirstIndex(all, r[j])
    {
      var a, b := FirstIndex(u, r[i]), FirstIndex(u, r[j]);
      assert u[a] == r[i] && u[b] == r[j];
    }
  }

  /** A path expands only to regular files: itself or files inside it. */
  lemma {:induction false} ExpandedFiles(fs: Fs, p: string)
    ensures forall x :: x in Expand(fs, p) ==> x in fs.files && (x == p || Under(x, p))
    decreases Height(fs, p), 1
  {
    if p !in fs.files && p in fs.dirs {
      ExpandedEach(fs, p, fs.dirs[p]);
    }
  }

  lemma {:induction false} ExpandedEach(fs: Fs, p: string, names: seq<string>)
    requires p in fs.dirs
    ensures forall x :: x in ExpandEach(fs, p, names) ==> x in fs.files && Under(x, p)
    decreases Height(fs, p), 0, |names|
  {
    if names != [] {
      ChildLower(fs, p, names[0]);
      var c := Child(p, names[0]);
      ExpandedFiles(fs, c);
      ExpandedEach(fs, p, names[1..]);
      forall x | x in Expand(fs, c)
        ensures Under(x, p)
      {
        UnderChild(x, p, names[0]);
      }
    }
  }

  /**
   * Where the wiping service lists a target without error, the browser
   * expands it to the same files in the same order.
   */
  lemma {:induction false} ExpandAgreesWithListing(fs: Fs, p: string, xs: seq<string>)
    requires MobileWipe.ListFiles(fs, p) == MobileWipe.Listed(xs)
    ensures Expand(fs, p) == xs
    decreases Height(fs, p), 1
  {
    if p !in fs.files && p in fs.dirs {
      ExpandEachAgrees(fs, p, fs.dirs[p], xs);
    }
  }

  lemma {:induction false} ExpandEachAgrees(fs: Fs, p: string, names: seq<string>, xs: seq<string>)
    requires p in fs.dirs && MobileWipe.ListEach(fs, p, names) == MobileWipe.Listed(xs)
    ensures ExpandEach(fs, p, names) == xs
    decreases Height(fs, p), 0, |names|
  {
    if names != [] {
      ChildLower(fs, p, names[0]);
      var c := Child(p, names[0]);
      var first := MobileWipe.ListFiles(fs, c);
      var rest := MobileWipe.ListEach(fs, p, names[1..]);
      ExpandAgreesWithListing(fs, c, first.paths);
      ExpandEachAgrees(fs, p, names[1..], rest.paths);
    }
  }

  // ----- calculatePathSize / calculateSelectedSize -----

  /**
   * `calculatePathSize`: a file's size, the sum over a directory's entries,
   * and 0 for a path `stat` cannot reach.
   */
  function PathSize(fs: Fs, p: string): nat
    decreases Height(fs, p), 1
  {
    if p in fs.files then |fs.files[p]|
    else if p in fs.dirs then SizeEach(fs, p, fs.dirs[p])
    else 0
  }

  function SizeEach(fs: Fs, p: string, names: seq<string>): nat
    requires p in fs.dirs
    decreases Height(fs, p), 0, |names|
  {
    if names == [] then 0
    else
      ChildLower(fs, p, names[0]);
      PathSize(fs, Child(p, names[0])) + SizeEach(fs, p, names[1..])
  }

  /** `calculateSelectedSize`: the sizes of the selected paths, added up. */
  function SelectedSize(fs: Fs, selected: seq<string>): nat {
    if selected == [] then 0 else PathSize(fs, selected[0]) + SelectedSize(fs, selected[1..])
  }

  /** The bytes of the files `xs`, one term per entry. */
  function Bytes(fs: Fs, xs: seq<string>): nat {
    if xs == [] then 0 else |Content(fs, xs[0])| + Bytes(fs, xs[1..])
  }

  lemma {:induction false} BytesAppend(fs: Fs, xs: seq<string>, ys: seq<string>)
    ensures Bytes(fs, xs + ys) == Bytes(fs, xs) + Bytes(fs, ys)
  {
    if xs != [] {
      assert (xs + ys)[1..] == xs[1..] + ys;
      BytesAppend(fs, xs[1..], ys);
    } else {
      assert xs + ys == ys;
    }
  }

  /** The size of a path is the size of the files it expands to. */
  lemma {:induction false} PathSizeIsExpandedBytes(fs: Fs, p: string)
    ensures PathSize(fs, p) == Bytes(fs, Expand(fs, p))
    decreases Height(fs, p), 1
  {
    if p !in fs.files && p in fs.dirs {
      SizeEachIsExpandedBytes(fs, p, fs.dirs[p]);
    }
  }

  lemma {:induction false} SizeEachIsExpandedBytes(fs: Fs, p: string, names: seq<string>)
    requires p in fs.dirs
    ensures SizeEach(fs, p, names) == Bytes(fs, ExpandEach(fs, p, names))
    decreases Height(fs, p), 0, |names|
  {
    if names != [] {
      ChildLower(fs, p, names[0]);
      var c := Child(p, names[0]);
      PathSizeIsExpandedBytes(fs, c);
      SizeEachIsExpandedBytes(fs, p, names[1..]);
      BytesAppend(fs, Expand(fs, c), ExpandEach(fs, p, names[1..]));
    }
  }

  /** The selected size is the size of the expanded selection, duplicates included. */
  lemma {:induction false} SelectedSizeIsExpandedBytes(fs: Fs, selected: seq<string>)
    ensures SelectedSize(fs, selected) == Bytes(fs, ExpandAll(fs, selected))
  {
    if selected != [] {
      PathSizeIsExpandedBytes(fs, selected[0]);
      SelectedSizeIsExpandedBytes(fs, selected[1..]);
      BytesAppend(fs, Expand(fs, selected[0]), ExpandAll(fs, selected[1..]));
    }
  }

  lemma {:induction false} ExpandAllAppend(fs: Fs, selected: seq<string>, q: string)
    ensures ExpandAll(fs, selected + [q]) == ExpandAll(fs, selected) + Expand(fs, q)
  {
    if selected != [] {
      assert (selected + [q])[1..] == selected[1..] + [q];
      ExpandAllAppend(fs, selected[1..], q);
    }
  }

  /**
   * The total is additive in the selection: a path selected next to a
   * directory that holds it adds its size a second time, although
   * `getFilesToWipe` wipes each file once.
   */
  lemma SelectedSizeAdds(fs: Fs, selected: seq<string>, q: string)
    ensures SelectedSize(fs, selected + [q]) == SelectedSize(fs, selected) + PathSize(fs, q)
  {
    SelectedSizeIsExpandedBytes(fs, selected + [q]);
    SelectedSizeIsExpandedBytes(fs, selected);
    PathSizeIsExpandedBytes(fs, q);
    ExpandAllAppend(fs, selected, q);
    BytesAppend(fs, ExpandAll(fs, selected), Expand(fs, q));
  }

  /** Selecting `/d` and the one-byte `/d/a` inside it reports 2 bytes for one byte of files. */
  lemma SelectedSizeCountsTwice()
    ensures var fs := Fs(map["/d/a" := [0]], map["/d" := ["a"]]);
      Unique(ExpandAll(fs, ["/d", "/d/a"])) == ["/d/a"]
      && Bytes(fs, ["/d/a"]) == 1
      && SelectedSize(fs, ["/d", "/d/a"]) == 2
  {
    var fs := Fs(map["/d/a" := [0]], map["/d" := ["a"]]);
    assert Child("/d", "a") == "/d/a";
    assert ExpandEach(fs, "/d", ["a"]) == ["/d/a"];
    assert ExpandAll(fs, ["/d", "/d/a"]) == ["/d/a", "/d/a"];
    assert SizeEach(fs, "/d", ["a"]) == 1;
  }

  lemma {:induction false} UniqueBytes(fs: Fs, xs: seq<string>)
    ensures Bytes(fs, Unique(xs)) <= Bytes(fs, xs)
    decreases |xs|
  {
    if xs != [] {
      var init := xs[..|xs| - 1];
      var y := xs[|xs| - 1];
      assert xs == init + [y];
      UniqueBytes(fs, init);
      BytesAppend(fs, init, [y]);
      BytesAppend(fs, Unique(init), [y]);
    }
  }

  /** Entries already present do not change `Unique`. */
  lemma {:induction false} UniqueAbsorbs(xs: seq<string>, ys: seq<string>)
    requires forall y :: y in ys ==> y in xs
    ensures Unique(xs + ys) == Unique(xs)
    decreases |ys|
  {
    if ys != [] {
      var init := ys[..|ys| - 1];
      assert xs + ys == (xs + init) + [ys[|ys| - 1]];
      assert (xs + ys)[..|xs + ys| - 1] == xs + init;
      UniqueAbsorbs(xs, init);
    } else {
      assert xs + ys == xs;
    }
  }

  /**
   * The selected size with each file counted once: the bytes of the files
   * `getFilesToWipe` collects before it drops the protected ones.
   */
  function DistinctSelectedSize(fs: Fs, selected: seq<string>): (n: nat)
    ensures n <= SelectedSize(fs, selected)
  {
    UniqueBytes(fs, ExpandAll(fs, selected));
    SelectedSizeIsExpandedBytes(fs, selected);
    Bytes(fs, Unique(ExpandAll(fs, selected)))
  }

  /** Selecting a path whose files are already selected leaves the corrected total unchanged. */
  lemma CoveredSelectionAddsNothing(fs: Fs, selected: seq<string>, q: string)
    requires forall x :: x in Expand(fs, q) ==> x in ExpandAll(fs, selected)
    ensures DistinctSelectedSize(fs, selected + [q]) == DistinctSelectedSize(fs, selected)
  {
    ExpandAllAppend(fs, selected, q);
    UniqueAbsorbs(ExpandAll(fs, selected), Expand(fs, q));
  }

  // ----- browseDirectory -----

  /**
   * One entry of a listing.  `modificationTime` is not modelled, and a
   * directory's `size` is 0 (what `stat` reports for it varies by platform).
   */
  datatype FileItem = FileItem(name: string, path: string, isDirectory: bool, size: nat,
                               isSelected: bool, isProtected: bool)

  datatype BrowseError = PathDoesNotExist(path: string) | PathIsNotADirectory(path: string)

  datatype Browsed = Items(items: seq<FileItem>) | Refused(error: BrowseError)

  /** The item for entry `name` of `dir`; an entry `stat` cannot reach is skipped. */
  function ItemOf(paths: set<string>, fs: Fs, dir: string, name: string): (r: Option<FileItem>)
    ensures r.Some? <==> Exists(fs, Child(dir, name))
    ensures r.Some? ==> r.value.name == name && r.value.path == Child(dir, name)
                        && r.value.isDirectory == (Child(dir, name) !in fs.files)
                        && r.value.size == |Content(fs, Child(dir, name))|
                        && !r.value.isSelected
                        && r.value.isProtected == Protected(paths, Child(dir, name))
  {
    var p := Child(dir, name);
    match StatOf(fs, p)
    case NoEntry => None
    case IsFile(n) => Some(FileItem(name, p, false, n, false, Protected(paths, p)))
    case IsDir => Some(FileItem(name, p, true, 0, false, Protected(paths, p)))
  }

  /** The items of the entries `names`, in `readDir` order, before sorting. */
  function Collected(paths: set<string>, fs: Fs, dir: string, names: seq<string>): (r: seq<FileItem>)
    ensures forall it :: it in r ==> it.name in names && Some(it) == ItemOf(paths, fs, dir, it.name)
    ensures forall n :: n in names && Exists(fs, Child(dir, n)) ==> ItemOf(paths, fs, dir, n).value in r
  {
    if names == [] then []
    else
      var init := names[..|names| - 1];
      var last := names[|names| - 1];
      assert names == init + [last];
      var r := Collected(paths, fs, dir, init);
      match ItemOf(paths, fs, dir, last)
      case None => r
      case Some(it) => r + [it]
  }

  /** Code-unit order on strings; `localeCompare` is taken to agree with it. */
  predicate LexLe(s: string, t: string) {
    if s == [] then true
    else if t == [] then false
    else if s[0] != t[0] then s[0] < t[0]
    else LexLe(s[1..], t[1..])
  }

  /** The comparator: directories before files, then names compared lower-cased. */
  predicate Before(a: FileItem, b: FileItem) {
    if a.isDirectory != b.isDirectory then a.isDirectory
    else LexLe(Lower(a.name), Lower(b.name))
  }

  lemma {:induction false} LexLeTotal(s: string, t: string)
    ensures LexLe(s, t) || LexLe(t, s)
  {
    if s != [] && t != [] && s[0] == t[0] {
      LexLeTotal(s[1..], t[1..]);
    }
  }

  lemma {:induction false} LexLeTransitive(s: string, t: string, u: string)
    requires LexLe(s, t) && LexLe(t, u)
    ensures LexLe(s, u)
  {
    if s != [] && t != [] && u != [] && s[0] == t[0] && t[0] == u[0] {
      LexLeTransitive(s[1..], t[1..], u[1..]);
    }
  }

  /** The comparator is a total preorder, so sorting by it is well defined. */
  lemma BeforeTotalPreorder(a: FileItem, b: FileItem, c: FileItem)
    ensures Before(a, b) || Before(b, a)
    ensures Before(a, b) && Before(b, c) ==> Before(a, c)
  {
    LexLeTotal(Lower(a.name), Lower(b.name));
    if Before(a, b) && Before(b, c) && a.isDirectory == c.isDirectory {
      LexLeTransitive(Lower(a.name), Lower(b.name), Lower(c.name));
    }
  }

  predicate Sorted(xs: seq<FileItem>) {
    forall i, j :: 0 <= i < j < |xs| ==> Before(xs[i], xs[j])
  }

  function Insert(x: FileItem, xs: seq<FileItem>): (r: seq<FileItem>)
    ensures multiset(r) == multiset(xs) + multiset{x}
  {
    if xs == [] then [x]
    else if Before(x, xs[0]) then [x] + xs
    else
      assert xs == [xs[0]] + xs[1..];
      [xs[0]] + Insert(x, xs[1..])
  }

  /** `sort` with the comparator; stability is not modelled. */
  function SortItems(xs: seq<FileItem>): (r: seq<FileItem>)
    ensures multiset(r) == multiset(xs)
  {
    if xs == [] then []
    else
      assert xs == [xs[0]] + xs[1..];
      Insert(xs[0], SortItems(xs[1..]))
  }

  /** Every element of a sorted listing after the first comes after the first. */
  lemma HeadBefore(xs: seq<FileItem>, y: FileItem)
    requires Sorted(xs) && xs != [] && y in xs[1..]
    ensures Before(xs[0], y)
  {
    var m :| 0 <= m < |xs[1..]| && xs[1..][m] == y;
    assert xs[m + 1] == y;
  }

  lemma {:induction false} InsertSorted(x: FileItem, xs: seq<FileItem>)
    requires Sorted(xs)
    ensures Sorted(Insert(x, xs))
  {
    if xs != [] && !Before(x, xs[0]) {
      InsertSorted(x, xs[1..]);
      InsertAfterHead(x, xs);
    } else if xs != [] {
      forall j | 0 < j < |xs| + 1
        ensures Before(x, ([x] + xs)[j])
      {
        BeforeTotalPreorder(x, xs[0], xs[j - 1]);
      }
    }
  }

  lemma InsertAfterHead(x: FileItem, xs: seq<FileItem>)
    requires Sorted(xs) && xs != [] && !Before(x, xs[0])
    ensures forall y :: y in Insert(x, xs[1..]) ==> Before(xs[0], y)
  {
    BeforeTotalPreorder(x, xs[0], x);
    forall y | y in Insert(x, xs[1..])
      ensures Before(xs[0], y)
    {
      assert y in multiset(Insert(x, xs[1..]));
      if y != x {
        assert y in multiset(xs[1..]);
        HeadBefore(xs, y);
      }
    }
  }

  /** The listing comes out sorted and holds exactly the items it was given. */
  lemma {:induction false} SortItemsSorted(xs: seq<FileItem>)
    ensures Sorted(SortItems(xs)) && multiset(SortItems(xs)) == multiset(xs)
  {
    if xs != [] {
      SortItemsSorted(xs[1..]);
      InsertSorted(xs[0], SortItems(xs[1..]));
    }
  }

  /** `browseDirectory`. */
  function Browse(paths: set<string>, fs: Fs, dir: string): Browsed {
    if !Exists(fs, dir) then Refused(PathDoesNotExist(dir))
    else if dir in fs.files then Refused(PathIsNotADirectory(dir))
    else Items(SortItems(Collected(paths, fs, dir, fs.dirs[dir])))
  }

  /**
   * A missing path and a file are refused; a directory lists one item per
   * reachable entry, directories first and names in order.
   */
  lemma BrowseFacts(paths: set<string>, fs: Fs, dir: string)
    ensures Browse(paths, fs, dir) == Refused(PathDoesNotExist(dir)) <==> !Exists(fs, dir)
    ensures Browse(paths, fs, dir) == Refused(PathIsNotADirectory(dir)) <==> dir in fs.files
    ensures Browse(paths, fs, dir).Items? ==>
              var r := Browse(paths, fs, dir).items;
              Sorted(r)
              && (forall i, j :: 0 <= i < j < |r| && r[j].isDirectory ==> r[i].isDirectory)
              && multiset(r) == multiset(Collected(paths, fs, dir, fs.dirs[dir]))
              && (forall n :: n in fs.dirs[dir] && Exists(fs, Child(dir, n)) ==> ItemOf(paths, fs, dir, n).value in r)
  {
    if Exists(fs, dir) && dir !in fs.files {
      var c := Collected(paths, fs, dir, fs.dirs[dir]);
      SortItemsSorted(c);
      forall n | n in fs.dirs[dir] && Exists(fs, Child(dir, n))
        ensures ItemOf(paths, fs, dir, n).value in SortItems(c)
      {
        assert ItemOf(paths, fs, dir, n).value in multiset(c);
      }
    }
  }

  // ----- the service -----

  /** The browser service; only its set of protected path prefixes changes. */
  class FileBrowserService {
    var protectedPaths: set<string>

    constructor ()
      ensures protectedPaths == DEFAULT_PROTECTED
    {
      protectedPaths := DEFAULT_PROTECTED;
    }

    /** `addProtectedPath`. */
    method AddProtectedPath(path: string)
      modifies this
      ensures protectedPaths == old(protectedPaths) + {path}
    {
      protectedPaths := protectedPaths + {path};
    }

    /** `removeProtectedPath`. */
    method RemoveProtectedPath(path: string)
      modifies this
      ensures protectedPaths == old(protectedPaths) - {path}
    {
      protectedPaths := protectedPaths - {path};
    }

    /** `getProtectedPaths`: each protected path once; insertion order is not modelled. */
    method GetProtectedPaths() returns (r: seq<string>)
      ensures Distinct(r) && forall x :: x in r <==> x in protectedPaths
    {
      r := [];
      var rest := protectedPaths;
      while rest != {}
        invariant rest <= protectedPaths && Distinct(r)
        invariant forall x :: x in r <==> x in protectedPaths && x !in rest
        decreases |rest|
      {
        var x :| x in rest;
        r := r + [x];
        rest := rest - {x};
      }
    }

    /** `isProtectedPath`: a listed prefix first, then the fixed patterns. */
    method IsProtectedPath(path: string) returns (b: bool)
      ensures b == Protected(protectedPaths, path)
    {
      var normalized := Lower(path);
      var rest := protectedPaths;
      while rest != {}
        invariant rest <= protectedPaths
        invariant forall q :: q in protectedPaths && q !in rest ==> !StartsWith(normalized, Lower(q))
        decreases |rest|
      {
        var q :| q in rest;
        if StartsWith(normalized, Lower(q)) {
          return true;
        }
        rest := rest - {q};
      }
      b := MatchesPattern(normalized);
    }

    /** `expandPathToFiles`. */
    static method ExpandPathToFiles(fs: Fs, p: string) returns (files: seq<string>)
      ensures files == Expand(fs, p)
      decreases Height(fs, p)
    {
      var st := StatOf(fs, p);
      if st.IsFile? {
        return [p];
      } else if st.NoEntry? {
        return [];
      }
      var names := fs.dirs[p];
      files := [];
      var i := 0;
      while i < |names|
        invariant i <= |names|
        invariant ExpandEach(fs, p, names) == files + ExpandEach(fs, p, names[i..])
      {
        ChildLower(fs, p, names[i]);
        ExpandEachStep(fs, p, names, i);
        var sub := ExpandPathToFiles(fs, Child(p, names[i]));
        AppendAssoc(files, sub, ExpandEach(fs, p, names[i + 1..]));
        files := files + sub;
        i := i + 1;
      }
      assert names[i..] == [];
    }

    /** `getFilesToWipe`. */
    method GetFilesToWipe(fs: Fs, selected: seq<string>) returns (r: seq<string>)
      ensures r == WipeList(protectedPaths, fs, selected)
    {
      var all: seq<string> := [];
      var i := 0;
      while i < |selected|
        invariant i <= |selected|
        invariant ExpandAll(fs, selected) == all + ExpandAll(fs, selected[i..])
      {
        assert selected[i..][1..] == selected[i + 1..];
        var files := ExpandPathToFiles(fs, selected[i]);
        all := all + files;
        i := i + 1;
      }
      assert selected[i..] == [] && all + [] == all;
      r := Unprotected(protectedPaths, Unique(all));
    }

    /** `calculatePathSize`. */
    static method CalculatePathSize(fs: Fs, p: string) returns (total: nat)
      ensures total == PathSize(fs, p)
      decreases Height(fs, p)
    {
      var st := StatOf(fs, p);
      if st.IsFile? {
        return st.size;
      } else if st.NoEntry? {
        return 0;
      }
      var names := fs.dirs[p];
      total := 0;
      var i := 0;
      while i < |names|
        invariant i <= |names|
        invariant SizeEach(fs, p, names) == total + SizeEach(fs, p, names[i..])
      {
        ChildLower(fs, p, names[i]);
        assert names[i..][1..] == names[i + 1..];
        var size := CalculatePathSize(fs, Child(p, names[i]));
        total := total + size;
        i := i + 1;
      }
      assert names[i..] == [];
    }

    /** `calculateSelectedSize`. */
    static method CalculateSelectedSize(fs: Fs, selected: seq<string>) returns (total: nat)
      ensures total == SelectedSize(fs, selected)
    {
      total := 0;
      var i := 0;
      while i < |selected|
        invariant i <= |selected|
        invariant SelectedSize(fs, selected) == total + SelectedSize(fs, selected[i..])
      {
        assert selected[i..][1..] == selected[i + 1..];
        var size := CalculatePathSize(fs, selected[i]);
        total := total + size;
        i := i + 1;
      }
      assert selected[i..] == [];
    }

    /** `browseDirectory`. */
    method BrowseDirectory(fs: Fs, dir: string) returns (r: Browsed)
      ensures r == Browse(protectedPaths, fs, dir)
    {
      if !Exists(fs, dir) {
        return Refused(PathDoesNotExist(dir));
      }
      var st := StatOf(fs, dir);
      if !st.IsDir? {
        return Refused(PathIsNotADirectory(dir));
      }
      var names := fs.dirs[dir];
      var items: seq<FileItem> := [];
      var i := 0;
      while i < |names|
        invariant i <= |names|
        invariant items == Collected(protectedPaths, fs, dir, names[..i])
      {
        assert names[..i + 1][..i] == names[..i];
        var p := Child(dir, names[i]);
        var itemStat := StatOf(fs, p);
        if !itemStat.NoEntry? {
          var isProtected := IsProtectedPath(p);
          items := items + [FileItem(names[i], p, itemStat.IsDir?, if itemStat.IsFile? then itemStat.size else 0,
                                     false, isProtected)];
        }
        i := i + 1;
      }
      assert names[..i] == names;
      r := Items(SortItems(items));
    }
  }
}
