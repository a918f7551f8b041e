/**
 * The scanner of src/main.rs: `Directory::new` and `Directory::scan_dir`.
 *
 * The filesystem it reads is an abstract, finite tree (`Listing`): every `?` of the Rust code
 * that can fail (`read_dir`, the iterator's `entry?`, `file_type()?`, `metadata()?`,
 * `created()?`, `modified()?`) is a variant of that tree, so a scan either succeeds or meets
 * the failure the tree holds. Timestamps are opaque values carried through unchanged.
 */
module Scanner {
  import opened Wrappers
  import opened Names

  /** An opaque point in time, as the OS reports it. */
  type Timestamp = int

  /** One scanned file (struct `File`). */
  datatype File = File(name: string, filetype: string, createdAt: Timestamp, modifiedAt: Timestamp)

  /** The `Option<Vec<Directory>>` of a node: `Absent` (Rust `None`) until a first subdirectory
      has been appended, then `Present` with the children in the order they were appended. */
  datatype Subdirectories = Absent | Present(dirs: seq<Directory>)

  /** One scanned directory (struct `Directory`). */
  datatype Directory = Directory(
    path: Path,
    files: seq<File>,
    directories: Subdirectories,
    shouldScanSubdirectories: bool)

  // --- the abstract filesystem that `read_dir` lists ---

  /** What `entry.metadata()` yields: each timestamp may be unavailable. */
  datatype Metadata = Metadata(created: Option<Timestamp>, modified: Option<Timestamp>)

  /** What `entry.file_type()` yields: a directory (with what listing it would give) or anything
      else, which the scanner treats as a file. */
  datatype EntryKind = DirKind(listing: Listing) | FileKind(metadata: Option<Metadata>)

  /** An item of the `read_dir` iterator: an error, or an entry whose type may be unreadable. */
  datatype Entry = BadEntry | Entry(name: string, kind: Option<EntryKind>)

  /** The result of `read_dir`: an error, or the entries in iteration order. */
  datatype Listing = ReadDirError | Entries(entries: seq<Entry>)

  /** Which filesystem call failed. */
  datatype ScanError =
    | ReadDirFailed
    | EntryFailed
    | FileTypeFailed
    | MetadataFailed
    | CreatedFailed
    | ModifiedFailed

  /** `Directory::new` (src/main.rs:28-35). */
  function New(path: Path): (d: Directory)
    ensures d.path == path && d.files == [] && d.directories.Absent?
    ensures d.shouldScanSubdirectories
  {
    Directory(path, [], Absent, true)
  }

  /** The subdirectories of a node, `Absent` read as none. */
  function Children(d: Directory): seq<Directory>
  {
    match d.directories
    case Absent => []
    case Present(cs) => cs
  }

  function Width(listing: Listing): nat
  {
    if listing.Entries? then |listing.entries| else 0
  }

  // --- the scan as functions: the specification of ScanDir ---

  /** `scan_dir(path)` called on a root whose `should_scan_subdirectories` is `flag`;
      `listing` is what `read_dir(path)` gives. */
  function Scan(flag: bool, path: Path, listing: Listing): Result<Directory, ScanError>
    decreases listing, Width(listing) + 1
  {
    match listing
    case ReadDirError => Failure(ReadDirFailed)
    case Entries(es) => ScanPrefix(flag, path, listing, |es|)
  }

  /** The state of the loop of `scan_dir` after its first `n` entries. */
  function ScanPrefix(flag: bool, path: Path, listing: Listing, n: nat): Result<Directory, ScanError>
    requires listing.Entries? && n <= |listing.entries|
    decreases listing, n
  {
    if n == 0 then Success(New(path))
    else
      match ScanPrefix(flag, path, listing, n - 1)
      case Failure(err) => Failure(err)
      case Success(d) => Visit(flag, path, d, listing.entries[n - 1])
  }

  /** One iteration of the loop of `scan_dir` (src/main.rs:42-95) on node `d`. */
  function Visit(flag: bool, path: Path, d: Directory, e: Entry): Result<Directory, ScanError>
    decreases e, 0
  {
    match e
    case BadEntry => Failure(EntryFailed)
    case Entry(name, kind) =>
      match kind
      case None => Failure(FileTypeFailed)
      case Some(DirKind(sub)) =>
        if IsHiddenDir(PathString(path + [name])) then Success(d)
        else if !flag then Success(d)
        else
          (match Scan(flag, path + [name], sub)
           case Failure(err) => Failure(err)
           case Success(child) =>
             match d.directories
             case Present(cs) => Success(d.(directories := Present(cs + [child])))
             case Absent => Success(d.(directories := Present([child]))))
      case Some(FileKind(metadata)) =>
        var fileType := FileType(name);
        match metadata
        case None => Failure(MetadataFailed)
        case Some(Metadata(created, modified)) =>
          if created.None? then Failure(CreatedFailed)
          else if modified.None? then Failure(ModifiedFailed)
          else Success(d.(files := d.files + [File(name, fileType, created.value, modified.value)]))
  }

  /** `scan_dir` (src/main.rs:37-99): the loop over the entries, with early return on the first
      error and a recursive scan (through the same root, hence the same flag) of every visible
      subdirectory. */
  method ScanDir(shouldScanSubdirectories: bool, path: Path, listing: Listing)
    returns (r: Result<Directory, ScanError>)
    ensures r == Scan(shouldScanSubdirectories, path, listing)
    decreases listing
  {
    var directory := New(path);
    if listing.ReadDirError? {
      return Failure(ReadDirFailed);
    }
    var entries := listing.entries;
    var i := 0;
    while i < |entries|
      invariant i <= |entries|
      invariant ScanPrefix(shouldScanSubdirectories, path, listing, i) == Success(directory)
    {
      var entry := entries[i];
      assert ScanPrefix(shouldScanSubdirectories, path, listing, i + 1)
          == Visit(shouldScanSubdirectories, path, directory, entry);
      if entry.BadEntry? {
        FailureSticks(shouldScanSubdirectories, path, listing, i + 1, |entries|);
        return Failure(EntryFailed);
      }
      if entry.kind.None? {
        FailureSticks(shouldScanSubdirectories, path, listing, i + 1, |entries|);
        return Failure(FileTypeFailed);
      }
      var entryPath := path + [entry.name];
      match entry.kind.value {
        case DirKind(sub) =>
          if !IsHiddenDir(PathString(entryPath)) && shouldScanSubdirectories {
            var subDirectory := ScanDir(shouldScanSubdirectories, entryPath, sub);
            if subDirectory.Failure? {
              FailureSticks(shouldScanSubdirectories, path, listing, i + 1, |entries|);
              return Failure(subDirectory.error);
            }
            directory := directory.(directories :=
              match directory.directories
              case Present(cs) => Present(cs + [subDirectory.value])
              case Absent => Present([subDirectory.value]));
          }
        case FileKind(metadata) =>
          var fileType := FileType(entry.name);
          if metadata.None? {
            FailureSticks(shouldScanSubdirectories, path, listing, i + 1, |entries|);
            return Failure(MetadataFailed);
          }
          if metadata.value.created.None? {
            FailureSticks(shouldScanSubdirectories, path, listing, i + 1, |entries|);
            return Failure(CreatedFailed);
          }
          if metadata.value.modified.None? {
            FailureSticks(shouldScanSubdirectories, path, listing, i + 1, |entries|);
            return Failure(ModifiedFailed);
          }
          directory := directory.(files := directory.files
            + [File(entry.name, fileType, metadata.value.created.value, metadata.value.modified.value)]);
      }
      i := i + 1;
    }
    return Success(directory);
  }

  /** Once the loop has failed, its result is that failure: no partial tree escapes. */
  lemma {:induction false} FailureSticks(flag: bool, path: Path, listing: Listing, n: nat, m: nat)
    requires listing.Entries? && n <= m <= |listing.entries|
    requires ScanPrefix(flag, path, listing, n).Failure?
    ensures ScanPrefix(flag, path, listing, m) == ScanPrefix(flag, path, listing, n)
    decreases m
  {
    if m > n {
      FailureSticks(flag, path, listing, n, m - 1);
    }
  }

  // --- reference definitions of what a scan finds ---

  /** A directory entry the scan descends into: not hidden, and the root's flag is set. */
  predicate Descends(flag: bool, path: Path, e: Entry)
  {
    && e.Entry? && e.kind.Some? && e.kind.value.DirKind?
    && !IsHiddenDir(PathString(path + [e.name]))
    && flag
  }

  /** A directory entry the scan passes over without listing it. */
  predicate Skipped(flag: bool, path: Path, e: Entry)
  {
    && e.Entry? && e.kind.Some? && e.kind.value.DirKind?
    && (IsHiddenDir(PathString(path + [e.name])) || !flag)
  }

  /** An entry the scanner records as a file. */
  predicate IsFileEntry(e: Entry)
  {
    e.Entry? && e.kind.Some? && e.kind.value.FileKind?
  }

  /** Some filesystem call the scan makes fails, somewhere in the part of the tree it visits. */
  predicate Fails(flag: bool, path: Path, listing: Listing)
    decreases listing, 1
  {
    match listing
    case ReadDirError => true
    case Entries(es) => exists i :: 0 <= i < |es| && EntryFails(flag, path, es[i])
  }

  /** Visiting this entry fails. */
  predicate EntryFails(flag: bool, path: Path, e: Entry)
    decreases e, 0
  {
    match e
    case BadEntry => true
    case Entry(name, kind) =>
      match kind
      case None => true
      case Some(FileKind(metadata)) =>
        metadata.None? || metadata.value.created.None? || metadata.value.modified.None?
      case Some(DirKind(sub)) =>
        Descends(flag, path, e) && Fails(flag, path + [name], sub)
  }

  /** The file a single entry contributes, if it is a file entry with readable metadata. */
  function FileOfEntry(e: Entry): seq<File>
  {
    if IsFileEntry(e) && e.kind.value.metadata.Some?
       && e.kind.value.metadata.value.created.Some? && e.kind.value.metadata.value.modified.Some?
    then [File(e.name, FileType(e.name),
               e.kind.value.metadata.value.created.value, e.kind.value.metadata.value.modified.value)]
    else []
  }

  /** The files the file entries of `es` describe, in listing order. */
  function FilesOf(es: seq<Entry>): seq<File>
  {
    if es == [] then [] else FilesOf(es[..|es| - 1]) + FileOfEntry(es[|es| - 1])
  }

  /** How many entries of `es` are file entries. */
  function CountFileEntries(es: seq<Entry>): nat
  {
    if es == [] then 0
    else CountFileEntries(es[..|es| - 1]) + if IsFileEntry(es[|es| - 1]) then 1 else 0
  }

  /** The node a single entry contributes, if the scan descends into it and succeeds there. */
  function ChildOfEntry(flag: bool, path: Path, e: Entry): seq<Directory>
  {
    if Descends(flag, path, e) && Scan(flag, path + [e.name], e.kind.value.listing).Success?
    then [Scan(flag, path + [e.name], e.kind.value.listing).value]
    else []
  }

  /** The nodes that scanning the subdirectories of `es` that the scan descends into yields,
      in listing order. */
  function ScannedChildren(flag: bool, path: Path, es: seq<Entry>): seq<Directory>
  {
    if es == [] then []
    else ScannedChildren(flag, path, es[..|es| - 1]) + ChildOfEntry(flag, path, es[|es| - 1])
  }

  /** The shape every node of a successful scan has, at every depth. */
  predicate WellFormed(d: Directory)
    decreases d
  {
    && d.shouldScanSubdirectories
    && (d.directories.Present? ==> d.directories.dirs != [])
    && (forall f :: f in d.files ==> f.filetype == FileType(f.name))
    && match d.directories
       case Absent => true
       case Present(cs) =>
         forall c :: c in cs ==>
           && |c.path| == |d.path| + 1 && c.path[..|d.path|] == d.path
           && !IsHiddenDir(PathString(c.path))
           && WellFormed(c)
  }

  // --- lemmas ---

  /** `Directory::new` is what scanning an empty directory yields, whatever the root's flag,
      and it already has the shape of every scanned node. */
  lemma NewIsEmptyScan(flag: bool, path: Path)
    ensures Scan(flag, path, Entries([])) == Success(New(path))
    ensures WellFormed(New(path))
  {
  }

  /** Visiting an entry fails exactly when the reference definition says so, whatever the
      node built so far. */
  lemma {:induction false} VisitFailsIff(flag: bool, path: Path, d: Directory, e: Entry)
    ensures Visit(flag, path, d, e).Failure? <==> EntryFails(flag, path, e)
    decreases e, 0
  {
    if Descends(flag, path, e) {
      ScanFailsIff(flag, path + [e.name], e.kind.value.listing);
    }
  }

  lemma {:induction false} ScanPrefixFailsIff(flag: bool, path: Path, listing: Listing, n: nat)
    requires listing.Entries? && n <= |listing.entries|
    ensures ScanPrefix(flag, path, listing, n).Failure?
        <==> exists i :: 0 <= i < n && EntryFails(flag, path, listing.entries[i])
    decreases listing, n
  {
    if n > 0 {
      ScanPrefixFailsIff(flag, path, listing, n - 1);
      var prev := ScanPrefix(flag, path, listing, n - 1);
      if prev.Success? {
        VisitFailsIff(flag, path, prev.value, listing.entries[n - 1]);
      }
    }
  }

  /** Fail-fast: the scan fails exactly when some call it makes (listing, entry, entry type,
      recursive scan, metadata, timestamps) fails anywhere in the part of the tree it visits. */
  lemma {:induction false} ScanFailsIff(flag: bool, path: Path, listing: Listing)
    ensures Scan(flag, path, listing).Failure? <==> Fails(flag, path, listing)
    decreases listing, Width(listing) + 1
  {
    if listing.Entries? {
      ScanPrefixFailsIff(flag, path, listing, |listing.entries|);
    }
  }

  /** What one successful visit adds to the node. */
  lemma VisitShape(flag: bool, path: Path, d: Directory, e: Entry)
    requires Visit(flag, path, d, e).Success?
    ensures var d' := Visit(flag, path, d, e).value;
      && d'.path == d.path && d'.shouldScanSubdirectories == d.shouldScanSubdirectories
      && d'.files == d.files + FileOfEntry(e)
      && |d'.files| == |d.files| + (if IsFileEntry(e) then 1 else 0)
      && Children(d') == Children(d) + ChildOfEntry(flag, path, e)
      && (d'.directories.Present? <==> d.directories.Present? || ChildOfEntry(flag, path, e) != [])
  {
    if IsFileEntry(e) {
      var m := e.kind.value.metadata.value;
      assert Visit(flag, path, d, e).value.files
          == d.files + [File(e.name, FileType(e.name), m.created.value, m.modified.value)];
    }
  }

  /** What a node built from the entries `es` looks like. */
  predicate ShapedBy(d: Directory, flag: bool, path: Path, es: seq<Entry>)
  {
    && d.path == path && d.shouldScanSubdirectories
    && d.files == FilesOf(es)
    && |d.files| == CountFileEntries(es)
    && Children(d) == ScannedChildren(flag, path, es)
    && (d.directories.Present? <==> Children(d) != [])
  }

  lemma ShapedByStep(flag: bool, path: Path, d: Directory, es: seq<Entry>, e: Entry)
    requires ShapedBy(d, flag, path, es) && Visit(flag, path, d, e).Success?
    ensures ShapedBy(Visit(flag, path, d, e).value, flag, path, es + [e])
  {
    var es' := es + [e];
    assert es'[..|es'| - 1] == es && es'[|es'| - 1] == e;
    VisitShape(flag, path, d, e);
  }

  lemma {:induction false} ScanPrefixShape(flag: bool, path: Path, listing: Listing, n: nat)
    requires listing.Entries? && n <= |listing.entries|
    requires ScanPrefix(flag, path, listing, n).Success?
    ensures ShapedBy(ScanPrefix(flag, path, listing, n).value, flag, path, listing.entries[..n])
    decreases n
  {
    if n > 0 {
      var es, e := listing.entries[..n - 1], listing.entries[n - 1];
      assert es + [e] == listing.entries[..n];
      var prev := ScanPrefix(flag, path, listing, n - 1);
      assert prev.Success?;
      assert ScanPrefix(flag, path, listing, n) == Visit(flag, path, prev.value, e);
      ScanPrefixShape(flag, path, listing, n - 1);
      ShapedByStep(flag, path, prev.value, es, e);
    }
  }

  /** A successful scan holds one file per file entry, in listing order, each typed by its
      name; and one child per visible subdirectory (only when the flag is set), in listing
      order, each the scan of that subdirectory; `directories` is present exactly when there
      is such a child. */
  lemma ScanResult(flag: bool, path: Path, listing: Listing)
    requires Scan(flag, path, listing).Success?
    ensures listing.Entries?
    ensures var d := Scan(flag, path, listing).value;
      && d.path == path && d.shouldScanSubdirectories
      && d.files == FilesOf(listing.entries)
      && |d.files| == CountFileEntries(listing.entries)
      && Children(d) == ScannedChildren(flag, path, listing.entries)
      && (d.directories.Present? <==> Children(d) != [])
  {
    assert listing.entries[..|listing.entries|] == listing.entries;
    ScanPrefixShape(flag, path, listing, |listing.entries|);
  }

  /** Without the root's flag no subdirectory is scanned: `directories` stays absent. */
  lemma {:induction false} ScanWithoutRecursion(path: Path, listing: Listing)
    requires Scan(false, path, listing).Success?
    ensures Scan(false, path, listing).value.directories.Absent?
  {
    ScanResult(false, path, listing);
    NoChildrenWithoutFlag(path, listing.entries);
  }

  lemma {:induction false} NoChildrenWithoutFlag(path: Path, es: seq<Entry>)
    ensures ScannedChildren(false, path, es) == []
  {
    if es != [] {
      NoChildrenWithoutFlag(path, es[..|es| - 1]);
    }
  }

  /** Every child in the list is the successful scan of a visible subdirectory of `path`. */
  lemma {:induction false} ScannedChildrenAreVisibleSubdirs(flag: bool, path: Path, es: seq<Entry>)
    ensures forall c :: c in ScannedChildren(flag, path, es) ==>
      exists i :: 0 <= i < |es| && Descends(flag, path, es[i])
        && c.path == path + [es[i].name]
        && Scan(flag, c.path, es[i].kind.value.listing) == Success(c)
  {
    if es != [] {
      var init := es[..|es| - 1];
      ScannedChildrenAreVisibleSubdirs(flag, path, init);
      forall c | c in ScannedChildren(flag, path, es)
        ensures exists i :: 0 <= i < |es| && Descends(flag, path, es[i])
                            && c.path == path + [es[i].name]
                            && Scan(flag, c.path, es[i].kind.value.listing) == Success(c)
      {
        if c in ScannedChildren(flag, path, init) {
          var i :| 0 <= i < |init| && Descends(flag, path, init[i])
            && c.path == path + [init[i].name]
            && Scan(flag, c.path, init[i].kind.value.listing) == Success(c);
          assert es[i] == init[i];
        } else {
          var e := es[|es| - 1];
          ScanKeepsPath(flag, path + [e.name], e.kind.value.listing);
        }
      }
    }
  }

  /** A scanned node carries the path it was scanned at. */
  lemma ScanKeepsPath(flag: bool, path: Path, listing: Listing)
    requires Scan(flag, path, listing).Success?
    ensures Scan(flag, path, listing).value.path == path
  {
    ScanResult(flag, path, listing);
  }

  /** Every file entry of a scanned listing is typed by its own name. */
  lemma {:induction false} FilesOfTyped(es: seq<Entry>)
    ensures forall f :: f in FilesOf(es) ==> f.filetype == FileType(f.name)
  {
    if es != [] {
      var init, e := es[..|es| - 1], es[|es| - 1];
      FilesOfTyped(init);
      var fs, last := FilesOf(init), FileOfEntry(e);
      assert FilesOf(es) == fs + last;
      forall f: File | f in fs + last
        ensures f.filetype == FileType(f.name)
      {
        if f !in fs {
          assert f in last;
        }
      }
    }
  }

  /** Every node of a successful scan is well formed: it carries `true` from `new` whatever
      the root's flag, never holds a present but empty child list, types each file by its name, and
      its children sit one level below it at paths that are not hidden. */
  lemma {:induction false} ScanTreeWellFormed(flag: bool, path: Path, listing: Listing)
    requires Scan(flag, path, listing).Success?
    ensures WellFormed(Scan(flag, path, listing).value)
    decreases listing
  {
    var d := Scan(flag, path, listing).value;
    ScanResult(flag, path, listing);
    FilesOfTyped(listing.entries);
    ScannedChildrenAreVisibleSubdirs(flag, path, listing.entries);
    forall c | c in Children(d)
      ensures |c.path| == |d.path| + 1 && c.path[..|d.path|] == d.path
      ensures !IsHiddenDir(PathString(c.path))
      ensures WellFormed(c)
    {
      var es := listing.entries;
      var i :| 0 <= i < |es| && Descends(flag, path, es[i])
        && c.path == path + [es[i].name]
        && Scan(flag, c.path, es[i].kind.value.listing) == Success(c);
      assert (path + [es[i].name])[..|path|] == path;
      ScanTreeWellFormed(flag, c.path, es[i].kind.value.listing);
    }
  }

  /** Two listings that differ only inside directories the scan skips. */
  predicate SameUpToSkipped(flag: bool, path: Path, es1: seq<Entry>, es2: seq<Entry>)
  {
    && |es1| == |es2|
    && forall i :: 0 <= i < |es1| ==>
         || es1[i] == es2[i]
         || (Skipped(flag, path, es1[i]) && Skipped(flag, path, es2[i]) && es1[i].name == es2[i].name)
  }

  /** A hidden directory is never listed, and without the flag no directory is: what they
      contain (even an unreadable listing) cannot change the outcome of the scan. */
  lemma SkippedDirsIrrelevant(flag: bool, path: Path, es1: seq<Entry>, es2: seq<Entry>)
    requires SameUpToSkipped(flag, path, es1, es2)
    ensures Scan(flag, path, Entries(es1)) == Scan(flag, path, Entries(es2))
  {
    SkippedPrefixesAgree(flag, path, es1, es2, |es1|);
  }

  lemma {:induction false} SkippedPrefixesAgree(flag: bool, path: Path, es1: seq<Entry>, es2: seq<Entry>, n: nat)
    requires SameUpToSkipped(flag, path, es1, es2) && n <= |es1|
    ensures ScanPrefix(flag, path, Entries(es1), n) == ScanPrefix(flag, path, Entries(es2), n)
  {
    if n > 0 {
      SkippedPrefixesAgree(flag, path, es1, es2, n - 1);
    }
  }
}
