/**
 * Concrete runs of the scan-then-reorganize pipeline of src/main.rs (`main` scans the root with
 * the user's flag, then calls `create_directories` on the result with the same root), on small
 * trees, with an OS that refuses nothing.
 */
module Scenarios {
  import opened Wrappers
  import opened Names
  import opened Scanner
  import opened Reorganizer

  /** A readable file entry. */
  function FileEntry(name: string): Entry
  {
    Entry(name, Some(FileKind(Some(Metadata(Some(0), Some(0))))))
  }

  /** A directory entry. */
  function DirEntry(name: string, entries: seq<Entry>): Entry
  {
    Entry(name, Some(DirKind(Entries(entries))))
  }

  /** One loop iteration on a readable file entry appends the file, typed by its name. */
  lemma VisitFile(flag: bool, path: Path, d: Directory, name: string)
    ensures Visit(flag, path, d, FileEntry(name))
            == Success(d.(files := d.files + [File(name, FileType(name), 0, 0)]))
  {
  }

  /** One loop iteration on a hidden directory entry leaves the node as it was. */
  lemma VisitHiddenDir(flag: bool, path: Path, d: Directory, name: string, entries: seq<Entry>)
    requires '/' !in name && StartsWithDot(name)
    ensures Visit(flag, path, d, DirEntry(name, entries)) == Success(d)
  {
    EntryHiddenIffNameHidden(path, name);
  }

  /** One loop iteration on a visible directory entry, with recursion on: the child's scan is
      appended to the subdirectories. */
  lemma VisitSubdir(path: Path, d: Directory, name: string, entries: seq<Entry>, child: Directory)
    requires '/' !in name && !StartsWithDot(name)
    requires Scan(true, path + [name], Entries(entries)) == Success(child)
    ensures Visit(true, path, d, DirEntry(name, entries))
            == Success(d.(directories := Present(Children(d) + [child])))
  {
    EntryHiddenIffNameHidden(path, name);
    assert [] + [child] == [child];
  }

  /** One loop iteration on a visible directory entry, with recursion off: nothing changes. */
  lemma VisitUnscannedDir(path: Path, d: Directory, name: string, entries: seq<Entry>)
    ensures Visit(false, path, d, DirEntry(name, entries)) == Success(d)
  {
  }

  lemma ScanPrefixStep(flag: bool, path: Path, listing: Listing, n: nat, d: Directory)
    requires listing.Entries? && n < |listing.entries|
    requires ScanPrefix(flag, path, listing, n) == Success(d)
    ensures ScanPrefix(flag, path, listing, n + 1) == Visit(flag, path, d, listing.entries[n])
  {
  }

  /** One file-loop iteration whose type directory was already handled: only the move. */
  lemma FilesStepHandled(node: Directory, root: Path, i: nat, handled: set<string>, w: World)
    requires i < |node.files| && node.files[i].filetype in handled
    ensures ReorganizeFiles(node, root, i, handled, w, {})
            == ReorganizeFiles(node, root, i + 1, handled, Apply(w, Move(root, node.path, node.files[i]), {}).0, {})
  {
    assert handled + {node.files[i].filetype} == handled;
  }

  /** One file-loop iteration whose type directory is new: the mkdir, then the move. */
  lemma FilesStepFresh(node: Directory, root: Path, i: nat, handled: set<string>, w: World)
    requires i < |node.files| && node.files[i].filetype !in handled
    requires TypeDir(root, node.files[i].filetype) !in w.present
    ensures var w1 := Apply(w, Mkdir(TypeDir(root, node.files[i].filetype)), {}).0;
            ReorganizeFiles(node, root, i, handled, w, {})
            == ReorganizeFiles(node, root, i + 1, handled + {node.files[i].filetype},
                               Apply(w1, Move(root, node.path, node.files[i]), {}).0, {})
  {
  }

  /** One file-loop iteration whose type is new to this call but whose directory exists:
      no mkdir, only the move. */
  lemma FilesStepExisting(node: Directory, root: Path, i: nat, handled: set<string>, w: World)
    requires i < |node.files| && node.files[i].filetype !in handled
    requires TypeDir(root, node.files[i].filetype) in w.present
    ensures ReorganizeFiles(node, root, i, handled, w, {})
            == ReorganizeFiles(node, root, i + 1, handled + {node.files[i].filetype},
                               Apply(w, Move(root, node.path, node.files[i]), {}).0, {})
  {
  }

  function FlatListing(): Listing
  {
    Entries([FileEntry("a.txt"), FileEntry("b.txt"), FileEntry("c.md"),
             DirEntry(".git", [FileEntry("config")])])
  }

  function FlatTree(root: Path): Directory
  {
    Directory(root, [File("a.txt", "txt", 0, 0), File("b.txt", "txt", 0, 0), File("c.md", "md", 0, 0)],
              Absent, true)
  }

  lemma FlatFileTypes()
    ensures FileType("a.txt") == "txt" && FileType("b.txt") == "txt" && FileType("c.md") == "md"
  {
    assert IsLastPiece("a.txt", '.', "txt");
    FileTypeIsTextAfterLastDot("a.txt", "txt");
    assert IsLastPiece("b.txt", '.', "txt");
    FileTypeIsTextAfterLastDot("b.txt", "txt");
    assert IsLastPiece("c.md", '.', "md");
    FileTypeIsTextAfterLastDot("c.md", "md");
  }

  /** A root holding a.txt, b.txt, c.md and a hidden .git directory scans to its three files,
      typed by extension, and no subdirectory: .git is skipped. */
  lemma FlatRootScan(root: Path)
    ensures Scan(true, root, FlatListing()) == Success(FlatTree(root))
  {
    var listing := FlatListing();
    FlatFileTypes();
    var a, b, c := File("a.txt", "txt", 0, 0), File("b.txt", "txt", 0, 0), File("c.md", "md", 0, 0);
    var d0 := New(root);
    var d1, d2, d3 := d0.(files := [a]), d0.(files := [a, b]), d0.(files := [a, b, c]);
    assert d0.files + [a] == [a] && [a] + [b] == [a, b] && [a, b] + [c] == [a, b, c];
    VisitFile(true, root, d0, "a.txt");
    ScanPrefixStep(true, root, listing, 0, d0);
    VisitFile(true, root, d1, "b.txt");
    ScanPrefixStep(true, root, listing, 1, d1);
    VisitFile(true, root, d2, "c.md");
    ScanPrefixStep(true, root, listing, 2, d2);
    VisitHiddenDir(true, root, d3, ".git", [FileEntry("config")]);
    ScanPrefixStep(true, root, listing, 3, d3);
    assert ScanPrefix(true, root, listing, 4) == Success(d3);
  }

  /** The moves of the flat tree's files and its type directories. */
  lemma FlatMoves(root: Path)
    ensures TypeDir(root, "txt") == root + ["txt"] && TypeDir(root, "md") == root + ["md"]
    ensures Move(root, root, FlatTree(root).files[0]) == Rename(root + ["a.txt"], root + ["txt", "a.txt"])
    ensures Move(root, root, FlatTree(root).files[1]) == Rename(root + ["b.txt"], root + ["txt", "b.txt"])
    ensures Move(root, root, FlatTree(root).files[2]) == Rename(root + ["c.md"], root + ["md", "c.md"])
  {
  }

  /** The flat root before the run: its three files and the hidden .git/config. */
  function FlatBefore(root: Path): set<Path>
  {
    {root, root + ["a.txt"], root + ["b.txt"], root + ["c.md"], root + [".git"], root + [".git", "config"]}
  }

  /** The flat root after the first two moves. */
  function FlatMiddle(root: Path): set<Path>
  {
    {root, root + ["c.md"], root + [".git"], root + [".git", "config"],
     root + ["txt"], root + ["txt", "a.txt"], root + ["txt", "b.txt"]}
  }

  /** The flat root after the run: .git/config where it was, the files in their type directories. */
  function FlatAfter(root: Path): set<Path>
  {
    {root, root + [".git"], root + [".git", "config"],
     root + ["txt"], root + ["txt", "a.txt"], root + ["txt", "b.txt"], root + ["md"], root + ["md", "c.md"]}
  }

  /** Reorganizing that tree makes root/txt once, for a.txt, moves a.txt and b.txt into it,
      then makes root/md and moves c.md: a type directory is made once per type, just before
      the first file of that type moves. Nothing under .git is touched. */
  lemma FlatRootReorganize(root: Path)
    ensures Reorganize(FlatTree(root), root, World(FlatBefore(root), []), {}).1
    ensures Reorganize(FlatTree(root), root, World(FlatBefore(root), []), {}).0
            == World(FlatAfter(root),
                     [Mkdir(root + ["txt"]),
                      Rename(root + ["a.txt"], root + ["txt", "a.txt"]),
                      Rename(root + ["b.txt"], root + ["txt", "b.txt"]),
                      Mkdir(root + ["md"]),
                      Rename(root + ["c.md"], root + ["md", "c.md"])])
  {
    var t := FlatTree(root);
    var w0 := World(FlatBefore(root), []);
    var w2 := FlatFirstType(root);
    FlatSecondType(root, w2);
    var r := ReorganizeFiles(t, root, 0, {}, w0, {});
    assert r == ReorganizeFiles(t, root, 2, {"txt"}, w2, {});
    assert Reorganize(t, root, w0, {}) == r;
  }

  /** The first two files of the flat tree: root/txt is made, then a.txt and b.txt move. */
  lemma FlatFirstType(root: Path) returns (w2: World)
    ensures w2.log == [Mkdir(root + ["txt"]), Rename(root + ["a.txt"], root + ["txt", "a.txt"]),
                       Rename(root + ["b.txt"], root + ["txt", "b.txt"])]
    ensures w2.present == FlatMiddle(root)
    ensures ReorganizeFiles(FlatTree(root), root, 0, {}, World(FlatBefore(root), []), {})
            == ReorganizeFiles(FlatTree(root), root, 2, {"txt"}, w2, {})
  {
    var t := FlatTree(root);
    FlatMoves(root);
    FlatPaths(root);
    var txt := root + ["txt"];
    var w0 := World(FlatBefore(root), []);
    assert txt !in w0.present;
    FilesStepFresh(t, root, 0, {}, w0);
    assert {} + {"txt"} == {"txt"};
    var w1 := Apply(Apply(w0, Mkdir(txt), {}).0, Move(root, root, t.files[0]), {}).0;
    assert w1.log == [Mkdir(txt), Move(root, root, t.files[0])];
    FilesStepHandled(t, root, 1, {"txt"}, w1);
    w2 := Apply(w1, Move(root, root, t.files[1]), {}).0;
    assert w2.log == [Mkdir(txt), Move(root, root, t.files[0]), Move(root, root, t.files[1])];
  }

  /** The paths of the flat scenario differ in their first component below the root, or in
      their length. */
  lemma FlatPaths(root: Path)
    ensures (root + ["a.txt"])[|root|] == "a.txt" && (root + ["b.txt"])[|root|] == "b.txt"
    ensures (root + ["c.md"])[|root|] == "c.md" && (root + [".git"])[|root|] == ".git"
    ensures (root + ["txt"])[|root|] == "txt" && (root + ["md"])[|root|] == "md"
    ensures (root + ["txt", "a.txt"])[|root|] == "txt" && (root + ["txt", "b.txt"])[|root|] == "txt"
    ensures (root + ["md", "c.md"])[|root|] == "md" && (root + [".git", "config"])[|root|] == ".git"
  {
  }

  /** The last file of the flat tree: root/md is new, so it is made, then c.md moves. */
  lemma FlatSecondType(root: Path, w2: World)
    requires w2.present == FlatMiddle(root)
    ensures ReorganizeFiles(FlatTree(root), root, 2, {"txt"}, w2, {}).1
    ensures ReorganizeFiles(FlatTree(root), root, 2, {"txt"}, w2, {}).0
            == World(FlatAfter(root), w2.log + [Mkdir(root + ["md"]), Rename(root + ["c.md"], root + ["md", "c.md"])])
  {
    var t := FlatTree(root);
    FlatMoves(root);
    FlatPaths(root);
    var md := root + ["md"];
    assert md !in w2.present;
    FilesStepFresh(t, root, 2, {"txt"}, w2);
    var w3 := Apply(Apply(w2, Mkdir(md), {}).0, Move(root, root, t.files[2]), {}).0;
    assert ReorganizeFiles(t, root, 3, {"txt", "md"}, w3, {}) == (w3, true);
    assert w3.log == w2.log + [Mkdir(md)] + [Move(root, root, t.files[2])];
  }

  function NestedListing(): Listing
  {
    Entries([DirEntry("sub", [FileEntry("d.txt")])])
  }

  function SubTree(root: Path): Directory
  {
    Directory(root + ["sub"], [File("d.txt", "txt", 0, 0)], Absent, true)
  }

  /** A root holding only sub/d.txt scans to a root with no files and the one child sub when
      recursion is on, and to an empty root when it is off. */
  lemma NestedScan(root: Path)
    ensures Scan(true, root, NestedListing()) == Success(Directory(root, [], Present([SubTree(root)]), true))
    ensures Scan(false, root, NestedListing()) == Success(New(root))
  {
    var sub := root + ["sub"];
    var inner := Entries([FileEntry("d.txt")]);
    assert IsLastPiece("d.txt", '.', "txt");
    FileTypeIsTextAfterLastDot("d.txt", "txt");
    var s0 := New(sub);
    assert s0.files + [File("d.txt", "txt", 0, 0)] == [File("d.txt", "txt", 0, 0)];
    VisitFile(true, sub, s0, "d.txt");
    ScanPrefixStep(true, sub, inner, 0, s0);
    assert Scan(true, sub, inner) == Success(SubTree(root));
    VisitSubdir(root, New(root), "sub", [FileEntry("d.txt")], SubTree(root));
    ScanPrefixStep(true, root, NestedListing(), 0, New(root));
    VisitUnscannedDir(root, New(root), "sub", [FileEntry("d.txt")]);
    ScanPrefixStep(false, root, NestedListing(), 0, New(root));
  }

  /** With recursion on, sub/d.txt is moved to root/txt/d.txt: the type directory sits under
      the root the run started from, not under sub, and sub is left in place, empty. With it
      off there is nothing to move. */
  lemma NestedReorganize(root: Path)
    ensures Reorganize(Directory(root, [], Present([SubTree(root)]), true), root,
                       World({root, root + ["sub"], root + ["sub", "d.txt"]}, []), {})
            == (World({root, root + ["sub"], root + ["txt"], root + ["txt", "d.txt"]},
                      [Mkdir(root + ["txt"]), Rename(root + ["sub", "d.txt"], root + ["txt", "d.txt"])]),
                true)
    ensures Reorganize(New(root), root, World({root}, []), {}) == (World({root}, []), true)
  {
    var t := SubTree(root);
    var txt := root + ["txt"];
    var w0 := World({root, root + ["sub"], root + ["sub", "d.txt"]}, []);
    assert TypeDir(root, "txt") == txt;
    var mv := Move(root, t.path, t.files[0]);
    assert mv == Rename(root + ["sub", "d.txt"], root + ["txt", "d.txt"]);
    assert txt[|root|] == "txt" && (root + ["sub"])[|root|] == "sub";
    assert (root + ["sub", "d.txt"])[|root|] == "sub" && (root + ["txt", "d.txt"])[|root|] == "txt";
    FilesStepFresh(t, root, 0, {}, w0);
    var w1 := Apply(Apply(w0, Mkdir(txt), {}).0, mv, {}).0;
    assert ReorganizeFiles(t, root, 1, {"txt"}, w1, {}) == (w1, true);
    assert Reorganize(t, root, w0, {}) == (w1, true);
    assert w1.present == {root, root + ["sub"], txt, root + ["txt", "d.txt"]};
    var top := Directory(root, [], Present([t]), true);
    assert ReorganizeFiles(top, root, 0, {}, w0, {}) == (w0, true);
    assert ReorganizeChildren(top, root, 1, w1, {}) == (w1, true);
    assert ReorganizeChildren(top, root, 0, w0, {}) == (w1, true);
    assert Reorganize(top, root, w0, {}) == (w1, true);
    assert w1.log == [Mkdir(txt), mv];
  }

  function SiblingListing(): Listing
  {
    Entries([DirEntry("a", [FileEntry("x.txt")]), DirEntry("b", [FileEntry("y.txt")])])
  }

  function SiblingTree(root: Path): Directory
  {
    Directory(root, [],
              Present([Directory(root + ["a"], [File("x.txt", "txt", 0, 0)], Absent, true),
                       Directory(root + ["b"], [File("y.txt", "txt", 0, 0)], Absent, true)]),
              true)
  }

  lemma SiblingFileTypes()
    ensures FileType("x.txt") == "txt" && FileType("y.txt") == "txt"
  {
    assert IsLastPiece("x.txt", '.', "txt");
    FileTypeIsTextAfterLastDot("x.txt", "txt");
    assert IsLastPiece("y.txt", '.', "txt");
    FileTypeIsTextAfterLastDot("y.txt", "txt");
  }

  /** A root holding a/x.txt and b/y.txt scans to two children, in listing order. */
  lemma SiblingScan(root: Path)
    ensures Scan(true, root, SiblingListing()) == Success(SiblingTree(root))
  {
    SiblingFileTypes();
    var pa, pb := root + ["a"], root + ["b"];
    var x, y := File("x.txt", "txt", 0, 0), File("y.txt", "txt", 0, 0);
    var ca, cb := Directory(pa, [x], Absent, true), Directory(pb, [y], Absent, true);
    assert New(pa).files + [x] == [x] && New(pb).files + [y] == [y];
    VisitFile(true, pa, New(pa), "x.txt");
    ScanPrefixStep(true, pa, Entries([FileEntry("x.txt")]), 0, New(pa));
    assert Scan(true, pa, Entries([FileEntry("x.txt")])) == Success(ca);
    VisitFile(true, pb, New(pb), "y.txt");
    ScanPrefixStep(true, pb, Entries([FileEntry("y.txt")]), 0, New(pb));
    assert Scan(true, pb, Entries([FileEntry("y.txt")])) == Success(cb);
    var d1 := New(root).(directories := Present([ca]));
    VisitSubdir(root, New(root), "a", [FileEntry("x.txt")], ca);
    ScanPrefixStep(true, root, SiblingListing(), 0, New(root));
    assert [ca] + [cb] == [ca, cb];
    VisitSubdir(root, d1, "b", [FileEntry("y.txt")], cb);
    ScanPrefixStep(true, root, SiblingListing(), 1, d1);
    assert ScanPrefix(true, root, SiblingListing(), 2) == Success(SiblingTree(root));
  }

  /** The map of handled types is local to each call: both siblings look root/txt up, the
      first makes it and the second finds it there, so it is made once. */
  lemma SiblingReorganize(root: Path)
    ensures Reorganize(SiblingTree(root), root, World(SiblingBefore(root), []), {})
            == (World(SiblingAfter(root),
                      [Mkdir(root + ["txt"]),
                       Rename(root + ["a", "x.txt"], root + ["txt", "x.txt"]),
                       Rename(root + ["b", "y.txt"], root + ["txt", "y.txt"])]),
                true)
  {
    var txt := root + ["txt"];
    var top := SiblingTree(root);
    var ca, cb := top.directories.dirs[0], top.directories.dirs[1];
    var w0 := World(SiblingBefore(root), []);
    assert TypeDir(root, "txt") == txt;
    var mvX, mvY := Move(root, ca.path, ca.files[0]), Move(root, cb.path, cb.files[0]);
    assert mvX == Rename(root + ["a", "x.txt"], root + ["txt", "x.txt"]);
    assert mvY == Rename(root + ["b", "y.txt"], root + ["txt", "y.txt"]);
    SiblingPaths(root);
    FilesStepFresh(ca, root, 0, {}, w0);
    var w1 := Apply(Apply(w0, Mkdir(txt), {}).0, mvX, {}).0;
    assert ReorganizeFiles(ca, root, 1, {"txt"}, w1, {}) == (w1, true);
    assert Reorganize(ca, root, w0, {}) == (w1, true);
    assert txt in w1.present;
    FilesStepExisting(cb, root, 0, {}, w1);
    var w2 := Apply(w1, mvY, {}).0;
    assert ReorganizeFiles(cb, root, 1, {"txt"}, w2, {}) == (w2, true);
    assert Reorganize(cb, root, w1, {}) == (w2, true);
    assert ReorganizeFiles(top, root, 0, {}, w0, {}) == (w0, true);
    assert ReorganizeChildren(top, root, 2, w2, {}) == (w2, true);
    assert ReorganizeChildren(top, root, 1, w1, {}) == (w2, true);
    assert ReorganizeChildren(top, root, 0, w0, {}) == (w2, true);
    assert w2.present == SiblingAfter(root);
    assert w2.log == [Mkdir(txt), mvX, mvY];
  }

  /** The sibling root before the run: a/x.txt and b/y.txt. */
  function SiblingBefore(root: Path): set<Path>
  {
    {root, root + ["a"], root + ["a", "x.txt"], root + ["b"], root + ["b", "y.txt"]}
  }

  /** The sibling root after the run: a and b left in place, empty, and both files in root/txt. */
  function SiblingAfter(root: Path): set<Path>
  {
    {root, root + ["a"], root + ["b"], root + ["txt"], root + ["txt", "x.txt"], root + ["txt", "y.txt"]}
  }

  /** The paths of the sibling scenario differ in their first component below the root, or in
      their length. */
  lemma SiblingPaths(root: Path)
    ensures (root + ["a"])[|root|] == "a" && (root + ["b"])[|root|] == "b" && (root + ["txt"])[|root|] == "txt"
    ensures (root + ["a", "x.txt"])[|root|] == "a" && (root + ["b", "y.txt"])[|root|] == "b"
    ensures (root + ["txt", "x.txt"])[|root|] == "txt" && (root + ["txt", "y.txt"])[|root|] == "txt"
  {
  }

  /** A dot-less file name is typed by the whole name: README gets type "README". */
  lemma DotlessRootFileScan(root: Path, name: string)
    requires '.' !in name
    ensures Scan(true, root, Entries([FileEntry(name)]))
            == Success(Directory(root, [File(name, name, 0, 0)], Absent, true))
  {
    DotlessNameIsOwnFileType(name);
    assert New(root).files + [File(name, name, 0, 0)] == [File(name, name, 0, 0)];
    VisitFile(true, root, New(root), name);
    ScanPrefixStep(true, root, Entries([FileEntry(name)]), 0, New(root));
  }

  /** For such a file directly in the root, its type directory root/name is the file itself:
      `exists` holds, no directory is made, and the move asked for is root/name to
      root/name/name, a path beneath the file. */
  lemma DotlessRootFileReorganize(root: Path, name: string)
    requires name != []
    ensures Reorganize(Directory(root, [File(name, name, 0, 0)], Absent, true), root,
                       World({root, root + [name]}, []), {}).0.log
            == [Rename(root + [name], root + [name, name])]
  {
    var t := Directory(root, [File(name, name, 0, 0)], Absent, true);
    var w0 := World({root, root + [name]}, []);
    assert TypeDir(root, name) == root + [name];
    var mv := Move(root, root, t.files[0]);
    assert mv == Rename(root + [name], root + [name, name]);
    FilesStepExisting(t, root, 0, {}, w0);
    var w1 := Apply(w0, mv, {}).0;
    assert ReorganizeFiles(t, root, 1, {name}, w1, {}) == (w1, true);
    assert w1.log == [mv];
  }

  /** A name ending in a dot has the empty type, whose directory is the root itself: such a
      file in the root is renamed onto its own path, and one in a subdirectory moves up into
      the root. */
  lemma EmptyTypeMovesIntoRoot(root: Path, sub: string, name: string)
    requires name != [] && name[|name| - 1] == '.' && sub != []
    ensures FileType(name) == []
    ensures Move(root, root, File(name, FileType(name), 0, 0)) == Rename(root + [name], root + [name])
    ensures Move(root, root + [sub], File(name, FileType(name), 0, 0)) == Rename(root + [sub, name], root + [name])
  {
    assert IsLastPiece(name, '.', []);
    FileTypeIsTextAfterLastDot(name, []);
  }
}
