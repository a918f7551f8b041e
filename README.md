# rust_file_organizer, modelled in Dafny

`rust_file_organizer` is a command-line program with two phases. It first scans a root directory
into a tree of `Directory` values, each holding the `File` records found there. It then moves every
scanned file into a directory named after its extension, created directly under the root. The
scan skips hidden directories. It descends into the other subdirectories only when the user
answers yes to the recursion prompt.

This project models that core, `src/main.rs`, in four modules:

- `Names` (names.dfy): Rust's `split(..).last()` and the file-type expression of `scan_dir`. It
  also holds the hidden-directory test on an entry's path string and a component model of
  paths, where `Path::join` of the empty string names the same directory.
- `Scanner` (scanner.dfy): the `File` and `Directory` records and `Directory::new`.
  `Directory::scan_dir` is the function `Scan`, and the method `ScanDir` loops over a listing
  and is proved equal to it. The filesystem being read is a finite tree value, `Listing`. Each
  call that the Rust code guards with `?` has an error variant in that tree:
  - `read_dir`;
  - the iterator item;
  - `file_type`;
  - `metadata`;
  - `created`;
  - `modified`.

  A scan therefore either succeeds or returns the first of those failures that it meets.
- `Reorganizer` (reorganizer.dfy): `Directory::create_directories`. The function `Reorganize` is
  the specification, and the method `FileSystem.CreateDirectories` is proved equal to it.
  `FileSystem` is a class with three fields:
  - the set of existing paths;
  - the log of attempted `create_dir` and `rename` calls;
  - the set of operations the OS refuses.

  A refused operation is logged and changes nothing. The run then stops with an error, as `?`
  does.
- `Scenarios` (scenarios.dfy): concrete runs of `main`'s pipeline on small trees, with an OS
  that refuses nothing. Each run scans a root with the user's flag, then reorganizes the result
  into that same root.

Where the prose description of the program and the code disagree, the model follows the code:

- **No dot means no `"unknown"`.** A file name without a dot does not get the type `"unknown"`.
  `split('.')` always yields at least one piece, so `.last()` is never `None` and the fallback
  cannot be reached. A dot-less name is its own type (`README` has type `README`), and `foo.`
  has the empty type.
- **Empty type.** With the empty type, `root.join("")` names the root itself, so such a file
  is moved to `root/name`. For a file directly in the root, that is its own path. For a file in
  a subdirectory, the file moves up into the root (`EmptyTypeMovesIntoRoot`).
- **Dot-less file in the root.** For a dot-less file directly in the root, `root/README` already
  exists: it is the file itself. So no directory is created, and the rename targets
  `root/README/README` (`DotlessRootFileReorganize`).
- **Recursion flag.** Only the root's `should_scan_subdirectories` matters. `scan_dir` recurses
  through `self`, the root, while every scanned node is built by `Directory::new` with the flag
  set to true. Files directly in the root are reorganized whatever the flag.

## Model

| member | source | states |
|---|---|---|
| Names.Split | src/main.rs:50 | `str::split` always yields at least one piece |
| Names.JoinSplit | src/main.rs:48-51 | joining the pieces of a split with the separator gives back the original string |
| Names.SplitJoin | src/main.rs:48-51 | splitting a join of separator-free pieces gives back exactly those pieces |
| Names.FileType | src/main.rs:75-79 | the recorded type is the part of the name after its last dot, or the whole name when there is no dot |
| Names.FileTypeIsTextAfterLastDot | src/main.rs:75-79 | a string is the file type of a name if and only if it is the text after the name's last dot |
| Names.FileTypeIsLastSplitPiece | src/main.rs:75-79 | `.last()` of the split is always present, so the `"unknown"` fallback is never taken and the type is the last piece |
| Names.DotlessNameIsOwnFileType | src/main.rs:75-79 | a file type never contains a dot; a name without a dot is its own type |
| Names.FileTypeExamples | src/main.rs:75-79 | `README` has type `README`, `foo.` has type empty, `.gitignore` has type `gitignore`, `archive.tar.gz` has type `gz` |
| Names.JoinPathString | src/main.rs:115-116 | the joined path renders as the directory's string, a `/`, then the component, and it splits back into the directory's components followed by the component; joining the empty string names the directory itself |
| Names.EntryHiddenIffNameHidden | src/main.rs:47-56 | a directory entry counts as hidden exactly when its own name starts with a dot, whatever the parent path |
| Scanner.NewIsEmptyScan | src/main.rs:28-35 | a new node is exactly what scanning an empty directory yields, for either value of the root's flag, and it already has the shape of every scanned node (recursion set to true, no subdirectory list) |
| Scanner.ScanDir | src/main.rs:37-99 | the loop over the entries returns exactly the result of the function `Scan` |
| Scanner.FailureSticks | src/main.rs:40-45 | once the loop has met an error, the result stays that error: no partial tree is returned |
| Scanner.ScanFailsIff | src/main.rs:40-45 | the scan fails if and only if some call it makes fails in the part of the tree it visits (`read_dir`, the entry, `file_type`, `metadata`, `created`, `modified`, or a visible subdirectory's scan when recursing) |
| Scanner.ScanResult | src/main.rs:64-94 | a successful scan keeps the path, records one file per file entry in listing order, and lists one child per visible subdirectory in order; its subdirectory list is `None` exactly when there are no children |
| Scanner.ScanWithoutRecursion | src/main.rs:58-60 | with the root's flag off, a successful scan lists no subdirectories |
| Scanner.ScannedChildrenAreVisibleSubdirs | src/main.rs:47-70 | every child in the tree is the successful scan of a non-hidden subdirectory, at that subdirectory's path |
| Scanner.FilesOfTyped | src/main.rs:75-94 | every recorded file is typed by its own name |
| Scanner.ScanTreeWellFormed | src/main.rs:37-99 | at every depth of a scanned tree: recursion is set, a subdirectory list is never empty, files are typed by their names, and each child sits one component below its parent at a path that is not hidden |
| Scanner.SkippedDirsIrrelevant | src/main.rs:47-60 | the contents of hidden directories, and of all directories when the flag is off, cannot change the scan's outcome, even when they are unreadable |
| Reorganizer.FileSystem.CreateDir | src/main.rs:110 | `create_dir` is logged; when the OS allows it, the path exists afterwards, and otherwise nothing else changes |
| Reorganizer.FileSystem.Rename | src/main.rs:118 | `rename` is logged; when the OS allows it, the source path is gone and the target exists, and otherwise nothing else changes |
| Reorganizer.FileSystem.CreateDirectories | src/main.rs:101-129 | the method's resulting filesystem and success flag are exactly those of the function `Reorganize` |
| Reorganizer.EveryFileMovedIntoRootTypeDir | src/main.rs:105-126 | a successful run renames every file of the tree, at any depth, from its directory to `root/type/name` under the one root; a node's files come before its children, and the children are taken in order. A failed run performs a prefix of those renames. The log only grows |
| Reorganizer.StopsAtFirstFailure | src/main.rs:110-124 | the run succeeds if and only if no attempted operation was refused; when it fails, the refused operation is the last one attempted |
| Reorganizer.MkdirOncePerType | src/main.rs:103-113 | within one node's call, every created directory is `root/type` for the type of one of that node's files, and no directory is attempted twice |
| Reorganizer.MkdirOnlyWhenAbsent | src/main.rs:108-111 | within one node's call, a type directory that already existed when the call began is never created again |
| Reorganizer.MkdirForEveryAbsentType | src/main.rs:105-118 | conversely, a successful call creates the type directory of each of the node's files that was absent when the call began, and creates it before that file's rename |
| Reorganizer.MkdirsExactlyAbsentTypeDirs | src/main.rs:103-118 | a successful call on a scanned node creates exactly the type directories of its files that were absent, each one once |
| Scenarios.FlatRootScan | src/main.rs:37-99 | a root holding `a.txt`, `b.txt`, `c.md` and a hidden `.git` directory scans to the three files, typed `txt`, `txt` and `md`, with no subdirectories |
| Scenarios.FlatMoves | src/main.rs:106-116 | in that root, the three files move to `root/txt/a.txt`, `root/txt/b.txt` and `root/md/c.md` |
| Scenarios.FlatRootReorganize | src/main.rs:101-129 | reorganizing that tree, starting from a root that holds the three files and `.git/config`, succeeds. It creates `txt` once and moves `a.txt` and `b.txt`, then creates `md` and moves `c.md`. The exact final set of paths shows `.git/config` still in place |
| Scenarios.NestedScan | src/main.rs:58-70 | a root with only a subdirectory `sub` holding `d.txt` scans to one child when recursing, and to an empty node when not |
| Scenarios.NestedReorganize | src/main.rs:101-129 | with recursion, `sub/d.txt` ends at `root/txt/d.txt`, and `root/txt` is created in the root, not under `sub`, which stays in place, empty; without recursion nothing happens |
| Scenarios.SiblingScan | src/main.rs:58-70 | two sibling subdirectories are scanned in listing order |
| Scenarios.SiblingReorganize | src/main.rs:108-124 | files of the same type in two siblings share one `root/txt`, which is created only once because the second call sees that it exists; the exact final set of paths is given |
| Scenarios.DotlessRootFileScan | src/main.rs:75-79 | a dot-less file name is scanned with itself as its type |
| Scenarios.DotlessRootFileReorganize | src/main.rs:106-118 | a dot-less file in the root makes no directory, because `root/name` is the file itself, and is renamed to `root/name/name` |
| Scenarios.EmptyTypeMovesIntoRoot | src/main.rs:75-79 | a name ending in a dot has the empty type; in the root such a file is renamed onto its own path, and in a subdirectory it moves up into the root |

## Left out

- Real I/O is not modelled. The directory listing is a parameter (`Listing`), and so is the set of operations the OS refuses (`failing`).
- What the OS does on a refused or odd rename is not modelled: moving onto an existing file, onto a directory, across devices, or onto itself. Only the refusal, through `failing`, is captured; an allowed rename simply makes the source path absent and the target present.
- Directory contents are not updated by a rename. The existing-paths set does not move the children of a renamed path, because the reorganizer only renames files.
- A race between `exists` and `create_dir` (another process creating the directory in between) is not modelled, because the model has a single actor.
- Timestamps are not converted. They are opaque integers carried through unchanged, and the `DateTime::<Utc>::from` conversion is not modelled.
- `to_string_lossy` is not modelled. Names and paths are taken to be valid Unicode, so no replacement characters appear.
- `Path` and `PathBuf` are modelled only as sequences of components. Joining one separator-free component appends it, and joining the empty string adds nothing. Absolute components, `..` and normalisation are not modelled, since file names and types hold no `/`.
- The `expect` on the `/` split at src/main.rs:52 is not modelled as a panic, because it cannot fire: `Names.Split` yields at least one piece for every string.
- `prompt`, the argument handling of `main` and the `expect` calls in `main` are not modelled, because they are terminal I/O. The pipeline they drive is shown by the `Scenarios` lemmas: scan the root with the user's flag, then reorganize into the same root.
- `#[derive(Debug)]` and the commented-out debug print are not modelled.
- `Reorganizer.MkdirOnlyWhenAbsent` is stated only for nodes whose path is at least as long as the root's and whose files have non-empty names typed by `FileType`. A scan types every file by `FileType` (`Scanner.FilesOfTyped`) and gives every node a path at least as long as the root's. Non-empty names, however, are something the OS guarantees and the model assumes: a `Listing` may hold an entry with an empty name, and the scan records it. For a node outside these assumptions, an earlier rename in the same call can create a path equal to a later type directory.
- `Reorganizer.MkdirsExactlyAbsentTypeDirs` needs the same assumptions, since it builds on `Reorganizer.MkdirOnlyWhenAbsent`.
