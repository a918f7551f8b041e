/**
 * The reorganizer of src/main.rs: `Directory::create_directories`.
 *
 * The filesystem it changes is a `FileSystem` object: the set of paths that exist (files and
 * directories alike, as `Path::exists` sees them), the log of the operations attempted, in
 * order, and the set of operations the OS refuses (permissions, a name collision, a
 * cross-device move: whatever makes `create_dir` or `rename` return an error). An attempted
 * operation is logged whether or not it succeeds; a successful one updates the set of paths.
 */
module Reorganizer {
  import opened Names
  import opened Scanner

  /** A filesystem operation the reorganizer performs. */
  datatype Op = Mkdir(path: Path) | Rename(from: Path, to: Path)

  /** The part of the filesystem the reorganizer sees, as a value. */
  datatype World = World(present: set<Path>, log: seq<Op>)

  /** Attempting `op` on `w`: it is logged; it fails exactly when it is in `failing`, and then
      changes nothing else. */
  function Apply(w: World, op: Op, failing: set<Op>): (World, bool)
  {
    var logged := w.(log := w.log + [op]);
    if op in failing then (logged, false)
    else
      match op
      case Mkdir(p) => (logged.(present := w.present + {p}), true)
      case Rename(from, to) => (logged.(present := w.present - {from} + {to}), true)
  }

  /** The directory a file of the given type is moved into: `root_dir.join(file_type)`. */
  function TypeDir(root: Path, fileType: string): Path
  {
    JoinPath(root, fileType)
  }

  /** The rename that moves `file` of directory `dir` into its type directory under `root`. */
  function Move(root: Path, dir: Path, file: File): Op
  {
    Rename(JoinPath(dir, file.name), JoinPath(TypeDir(root, file.filetype), file.name))
  }

  // --- create_directories as functions: the specification of CreateDirectories ---

  /** The loop over `self.files` (src/main.rs:105-119) from file `i` on, with `handled` the
      keys of the local map `file_type_dirs`. */
  function ReorganizeFiles(node: Directory, root: Path, i: nat, handled: set<string>, w: World, failing: set<Op>)
    : (World, bool)
    requires i <= |node.files|
    decreases |node.files| - i
  {
    if i == |node.files| then (w, true)
    else
      var file := node.files[i];
      var typeDirPath := TypeDir(root, file.filetype);
      var (w1, created) := EnsureTypeDir(w, handled, file.filetype, typeDirPath, failing);
      if !created then (w1, false)
      else
        var (w2, moved) := Apply(w1, Rename(JoinPath(node.path, file.name), JoinPath(typeDirPath, file.name)), failing);
        if !moved then (w2, false)
        else ReorganizeFiles(node, root, i + 1, handled + {file.filetype}, w2, failing)
  }

  /** The guarded creation of a type directory (src/main.rs:108-113): skipped when the type was
      handled before in this call or the directory exists, attempted otherwise. */
  function EnsureTypeDir(w: World, handled: set<string>, fileType: string, typeDirPath: Path, failing: set<Op>)
    : (World, bool)
  {
    if fileType in handled then (w, true)
    else if typeDirPath in w.present then (w, true)
    else Apply(w, Mkdir(typeDirPath), failing)
  }

  /** `create_directories(root_dir)` on `node` (src/main.rs:101-129): its own files with a
      fresh map, then its children in order, all with the same `root_dir`. */
  function Reorganize(node: Directory, root: Path, w: World, failing: set<Op>): (World, bool)
    decreases node, |Children(node)| + 1
  {
    var (w1, ok) := ReorganizeFiles(node, root, 0, {}, w, failing);
    if !ok then (w1, false)
    else
      match node.directories
      case Absent => (w1, true)
      case Present(cs) => ReorganizeChildren(node, root, 0, w1, failing)
  }

  /** The loop over `self.directories` (src/main.rs:122-126) from child `j` on. */
  function ReorganizeChildren(node: Directory, root: Path, j: nat, w: World, failing: set<Op>): (World, bool)
    requires node.directories.Present? && j <= |node.directories.dirs|
    decreases node, |node.directories.dirs| - j
  {
    if j == |node.directories.dirs| then (w, true)
    else
      var (w1, ok) := Reorganize(node.directories.dirs[j], root, w, failing);
      if !ok then (w1, false)
      else ReorganizeChildren(node, root, j + 1, w1, failing)
  }

  // --- reference definitions of what a run does ---

  /** The renames that move the files of `node` itself, in order. */
  function OwnMoves(node: Directory, root: Path): (ms: seq<Op>)
    ensures |ms| == |node.files|
    ensures forall k :: 0 <= k < |node.files| ==> ms[k] == Move(root, node.path, node.files[k])
  {
    seq(|node.files|, k requires 0 <= k < |node.files| => Move(root, node.path, node.files[k]))
  }

  /** Every file of the tree, moved into the type directory of the one `root`: a node's own
      files first, then each child's tree, in order. */
  function Moves(node: Directory, root: Path): seq<Op>
    decreases node, |Children(node)| + 1
  {
    OwnMoves(node, root) +
      match node.directories
      case Absent => []
      case Present(cs) => ChildMoves(node, root, 0)
  }

  function ChildMoves(node: Directory, root: Path, j: nat): seq<Op>
    requires node.directories.Present? && j <= |node.directories.dirs|
    decreases node, |node.directories.dirs| - j
  {
    if j == |node.directories.dirs| then []
    else Moves(node.directories.dirs[j], root) + ChildMoves(node, root, j + 1)
  }

  /** The renames among `ops`, in order. */
  function Renames(ops: seq<Op>): seq<Op>
  {
    if ops == [] then []
    else Renames(ops[..|ops| - 1]) + if ops[|ops| - 1].Rename? then [ops[|ops| - 1]] else []
  }

  /** The directories `ops` create, in order. */
  function Mkdirs(ops: seq<Op>): seq<Path>
  {
    if ops == [] then []
    else Mkdirs(ops[..|ops| - 1]) + if ops[|ops| - 1].Mkdir? then [ops[|ops| - 1].path] else []
  }

  /** The operations attempted going from `w` to `w2`. */
  function Added(w: World, w2: World): seq<Op>
    requires |w.log| <= |w2.log|
  {
    w2.log[|w.log|..]
  }

  /** The renames among `added` are `moves` when the run succeeded and a prefix of them when
      it failed. */
  predicate CoversMoves(added: seq<Op>, ok: bool, moves: seq<Op>)
  {
    && (ok ==> Renames(added) == moves)
    && (!ok ==> |Renames(added)| <= |moves| && Renames(added) == moves[..|Renames(added)|])
  }

  /** Every operation in `added` succeeded except, on failure, the last one, at which the run
      stopped. */
  predicate StopsAtFailure(added: seq<Op>, ok: bool, failing: set<Op>)
  {
    && (forall k :: 0 <= k < |added| - 1 ==> added[k] !in failing)
    && (added != [] ==> (added[|added| - 1] in failing <==> !ok))
    && (added == [] ==> ok)
  }

  /** Going from `w` to `w2` only appended to the log, and what it appended covers `moves` and
      stops at the first failure. */
  predicate Trace(w: World, w2: World, ok: bool, moves: seq<Op>, failing: set<Op>)
  {
    && |w.log| <= |w2.log| && w2.log[..|w.log|] == w.log
    && CoversMoves(Added(w, w2), ok, moves)
    && StopsAtFailure(Added(w, w2), ok, failing)
  }

  // --- lemmas ---

  lemma {:induction false} RenamesAppend(a: seq<Op>, b: seq<Op>)
    ensures Renames(a + b) == Renames(a) + Renames(b)
    decreases |b|
  {
    if b == [] {
      assert a + b == a;
    } else {
      var b' := b[..|b| - 1];
      assert (a + b)[..|a + b| - 1] == a + b';
      assert (a + b)[|a + b| - 1] == b[|b| - 1];
      RenamesAppend(a, b');
    }
  }

  lemma {:induction false} MkdirsAppend(a: seq<Op>, b: seq<Op>)
    ensures Mkdirs(a + b) == Mkdirs(a) + Mkdirs(b)
    decreases |b|
  {
    if b == [] {
      assert a + b == a;
    } else {
      var b' := b[..|b| - 1];
      assert (a + b)[..|a + b| - 1] == a + b';
      assert (a + b)[|a + b| - 1] == b[|b| - 1];
      MkdirsAppend(a, b');
    }
  }

  /** A successful stretch followed by any stretch is one stretch. */
  lemma TraceCompose(w0: World, w1: World, w2: World, ok: bool, m1: seq<Op>, m2: seq<Op>, failing: set<Op>)
    requires Trace(w0, w1, true, m1, failing) && Trace(w1, w2, ok, m2, failing)
    ensures Trace(w0, w2, ok, m1 + m2, failing)
  {
    var a1, a2 := Added(w0, w1), Added(w1, w2);
    assert w2.log == w0.log + a1 + a2;
    assert Added(w0, w2) == a1 + a2;
    CoversCompose(a1, a2, ok, m1, m2);
    StopsCompose(a1, a2, ok, failing);
  }

  lemma CoversCompose(a1: seq<Op>, a2: seq<Op>, ok: bool, m1: seq<Op>, m2: seq<Op>)
    requires CoversMoves(a1, true, m1) && CoversMoves(a2, ok, m2)
    ensures CoversMoves(a1 + a2, ok, m1 + m2)
  {
    RenamesAppend(a1, a2);
    if !ok {
      assert (m1 + m2)[..|Renames(a1 + a2)|] == m1 + m2[..|Renames(a2)|];
    }
  }

  lemma StopsCompose(a1: seq<Op>, a2: seq<Op>, ok: bool, failing: set<Op>)
    requires StopsAtFailure(a1, true, failing) && StopsAtFailure(a2, ok, failing)
    ensures StopsAtFailure(a1 + a2, ok, failing)
  {
    var a := a1 + a2;
    if a2 == [] {
      assert a == a1;
    } else {
      assert a[|a| - 1] == a2[|a2| - 1];
      forall k | 0 <= k < |a| - 1
        ensures a[k] !in failing
      {
        if k >= |a1| {
          assert a[k] == a2[k - |a1|];
        }
      }
    }
  }

  /** A stretch that failed covers a prefix of any longer list of moves. */
  lemma TraceExtend(w0: World, w1: World, m1: seq<Op>, m2: seq<Op>, failing: set<Op>)
    requires Trace(w0, w1, false, m1, failing)
    ensures Trace(w0, w1, false, m1 + m2, failing)
  {
    var r := Renames(Added(w0, w1));
    assert (m1 + m2)[..|r|] == m1[..|r|];
  }

  lemma ApplyTrace(w: World, op: Op, failing: set<Op>)
    ensures var (w2, ok) := Apply(w, op, failing);
      Trace(w, w2, ok, if op.Rename? then [op] else [], failing)
  {
    var (w2, ok) := Apply(w, op, failing);
    assert Added(w, w2) == [op];
    assert Renames([op]) == Renames([]) + if op.Rename? then [op] else [];
  }

  lemma EnsureTypeDirTrace(w: World, handled: set<string>, fileType: string, typeDirPath: Path, failing: set<Op>)
    ensures var (w1, ok) := EnsureTypeDir(w, handled, fileType, typeDirPath, failing);
      Trace(w, w1, ok, [], failing)
  {
    if fileType in handled || typeDirPath in w.present {
      assert Added(w, w) == [];
    } else {
      ApplyTrace(w, Mkdir(typeDirPath), failing);
    }
  }

  lemma {:induction false} FilesTrace(node: Directory, root: Path, i: nat, handled: set<string>, w: World, failing: set<Op>)
    requires i <= |node.files|
    ensures var (w2, ok) := ReorganizeFiles(node, root, i, handled, w, failing);
      Trace(w, w2, ok, OwnMoves(node, root)[i..], failing)
    decreases |node.files| - i
  {
    if i == |node.files| {
      assert Added(w, w) == [];
    } else {
      var file := node.files[i];
      var typeDirPath := TypeDir(root, file.filetype);
      var (w1, created) := EnsureTypeDir(w, handled, file.filetype, typeDirPath, failing);
      EnsureTypeDirTrace(w, handled, file.filetype, typeDirPath, failing);
      var rest := OwnMoves(node, root)[i..];
      var op := Rename(JoinPath(node.path, file.name), JoinPath(typeDirPath, file.name));
      assert rest == [op] + OwnMoves(node, root)[i + 1..];
      if !created {
        TraceExtend(w, w1, [], rest, failing);
      } else {
        var (w2, moved) := Apply(w1, op, failing);
        ApplyTrace(w1, op, failing);
        TraceCompose(w, w1, w2, moved, [], [op], failing);
        if !moved {
          TraceExtend(w, w2, [op], OwnMoves(node, root)[i + 1..], failing);
        } else {
          FilesTrace(node, root, i + 1, handled + {file.filetype}, w2, failing);
          var (w3, ok) := ReorganizeFiles(node, root, i + 1, handled + {file.filetype}, w2, failing);
          TraceCompose(w, w2, w3, ok, [op], OwnMoves(node, root)[i + 1..], failing);
        }
      }
    }
  }

  lemma {:induction false} ReorganizeTrace(node: Directory, root: Path, w: World, failing: set<Op>)
    ensures var (w2, ok) := Reorganize(node, root, w, failing);
      Trace(w, w2, ok, Moves(node, root), failing)
    decreases node, |Children(node)| + 1
  {
    FilesTrace(node, root, 0, {}, w, failing);
    var (w1, ok1) := ReorganizeFiles(node, root, 0, {}, w, failing);
    assert OwnMoves(node, root)[0..] == OwnMoves(node, root);
    var rest := match node.directories case Absent => [] case Present(_) => ChildMoves(node, root, 0);
    assert Moves(node, root) == OwnMoves(node, root) + rest;
    if !ok1 {
      TraceExtend(w, w1, OwnMoves(node, root), rest, failing);
    } else if node.directories.Absent? {
      assert OwnMoves(node, root) + rest == OwnMoves(node, root);
    } else {
      ChildrenTrace(node, root, 0, w1, failing);
      var (w2, ok) := ReorganizeChildren(node, root, 0, w1, failing);
      TraceCompose(w, w1, w2, ok, OwnMoves(node, root), rest, failing);
    }
  }

  lemma {:induction false} ChildrenTrace(node: Directory, root: Path, j: nat, w: World, failing: set<Op>)
    requires node.directories.Present? && j <= |node.directories.dirs|
    ensures var (w2, ok) := ReorganizeChildren(node, root, j, w, failing);
      Trace(w, w2, ok, ChildMoves(node, root, j), failing)
    decreases node, |node.directories.dirs| - j
  {
    if j == |node.directories.dirs| {
      assert Added(w, w) == [];
    } else {
      var child := node.directories.dirs[j];
      ReorganizeTrace(child, root, w, failing);
      var (w1, ok1) := Reorganize(child, root, w, failing);
      if !ok1 {
        TraceExtend(w, w1, Moves(child, root), ChildMoves(node, root, j + 1), failing);
      } else {
        ChildrenTrace(node, root, j + 1, w1, failing);
        var (w2, ok) := ReorganizeChildren(node, root, j + 1, w1, failing);
        TraceCompose(w, w1, w2, ok, Moves(child, root), ChildMoves(node, root, j + 1), failing);
      }
    }
  }

  /** A successful run moves every file of the tree, at any depth, from `node.path/name` to
      `root/type/name` with the same `root`: a node's own files before its children, the
      children in order. A failed run has performed a prefix of those moves. */
  lemma EveryFileMovedIntoRootTypeDir(node: Directory, root: Path, w: World, failing: set<Op>)
    ensures var (w2, ok) := Reorganize(node, root, w, failing);
      && |w.log| <= |w2.log| && w2.log[..|w.log|] == w.log
      && (ok ==> Renames(Added(w, w2)) == Moves(node, root))
      && (!ok ==> exists n :: 0 <= n <= |Moves(node, root)| && Renames(Added(w, w2)) == Moves(node, root)[..n])
  {
    ReorganizeTrace(node, root, w, failing);
  }

  /** Fail-fast: the run succeeds exactly when none of the operations it attempted failed;
      when it fails, the operation that failed is the last one it attempted. */
  lemma StopsAtFirstFailure(node: Directory, root: Path, w: World, failing: set<Op>)
    ensures var (w2, ok) := Reorganize(node, root, w, failing);
      && |w.log| <= |w2.log|
      && (ok <==> forall k :: 0 <= k < |Added(w, w2)| ==> Added(w, w2)[k] !in failing)
      && (!ok ==> Added(w, w2) != [] && Added(w, w2)[|Added(w, w2)| - 1] in failing)
  {
    ReorganizeTrace(node, root, w, failing);
  }

  lemma MkdirsOfStep(w: World, handled: set<string>, fileType: string, typeDirPath: Path, op: Op, failing: set<Op>)
    requires op.Rename?
    ensures var (w1, ok) := EnsureTypeDir(w, handled, fileType, typeDirPath, failing);
      && |w.log| <= |w1.log|
      && Mkdirs(Added(w, w1)) == (if fileType in handled || typeDirPath in w.present then [] else [typeDirPath])
      && Mkdirs(Added(w, w1) + [op]) == Mkdirs(Added(w, w1))
  {
    var (w1, ok) := EnsureTypeDir(w, handled, fileType, typeDirPath, failing);
    EnsureTypeDirTrace(w, handled, fileType, typeDirPath, failing);
    if fileType in handled || typeDirPath in w.present {
      assert Added(w, w1) == [];
    } else {
      assert Added(w, w1) == [Mkdir(typeDirPath)];
      assert Mkdirs([Mkdir(typeDirPath)]) == Mkdirs([]) + [typeDirPath];
    }
    MkdirsAppend(Added(w, w1), [op]);
    assert Mkdirs([op]) == Mkdirs([]) + [];
  }

  /** The log from `w` to `w3` is the log from `w` to `w1`, one op, then the log from `w2` on. */
  lemma AddedSplit(w: World, w1: World, w2: World, w3: World, op: Op)
    requires |w.log| <= |w1.log| && w1.log[..|w.log|] == w.log
    requires w2.log == w1.log + [op]
    requires |w2.log| <= |w3.log| && w3.log[..|w2.log|] == w2.log
    ensures |w.log| <= |w3.log|
    ensures Added(w, w3) == Added(w, w1) + [op] + Added(w2, w3)
  {
    assert w3.log == w2.log + Added(w2, w3);
  }

  /** The type directories `ms` come from the types of files `i..` that are not in `handled`. */
  predicate FromUnhandledTypes(ms: seq<Path>, node: Directory, root: Path, i: nat, handled: set<string>)
  {
    forall a :: 0 <= a < |ms| ==> IsUnhandledTypeDir(ms[a], node, root, i, handled)
  }

  /** `p` is the type directory of one of files `i..`, of a type not in `handled`. */
  predicate IsUnhandledTypeDir(p: Path, node: Directory, root: Path, i: nat, handled: set<string>)
  {
    exists k :: i <= k < |node.files| && node.files[k].filetype !in handled
                && p == TypeDir(root, node.files[k].filetype)
  }

  predicate Distinct(ms: seq<Path>)
  {
    forall a, b :: 0 <= a < b < |ms| ==> ms[a] != ms[b]
  }

  /** Distinct types give distinct type directories. */
  lemma TypeDirInjective(root: Path, t1: string, t2: string)
    requires TypeDir(root, t1) == TypeDir(root, t2)
    ensures t1 == t2
  {
    if t1 != [] && t2 != [] {
      assert t1 == TypeDir(root, t1)[|root|];
    }
  }

  lemma CombineMkdirs(first: seq<Path>, rest: seq<Path>, node: Directory, root: Path, i: nat, handled: set<string>)
    requires i < |node.files|
    requires first == [] || (first == [TypeDir(root, node.files[i].filetype)] && node.files[i].filetype !in handled)
    requires FromUnhandledTypes(rest, node, root, i + 1, handled + {node.files[i].filetype}) && Distinct(rest)
    ensures FromUnhandledTypes(first + rest, node, root, i, handled) && Distinct(first + rest)
  {
    var ms := first + rest;
    var handled' := handled + {node.files[i].filetype};
    forall a | 0 <= a < |ms| ensures IsUnhandledTypeDir(ms[a], node, root, i, handled) {
      if a < |first| {
        assert ms[a] == TypeDir(root, node.files[i].filetype);
      } else {
        assert ms[a] == rest[a - |first|];
        assert IsUnhandledTypeDir(rest[a - |first|], node, root, i + 1, handled');
      }
    }
    forall a, b | 0 <= a < b < |ms| ensures ms[a] != ms[b] {
      if a < |first| {
        assert ms[b] == rest[b - |first|];
        assert IsUnhandledTypeDir(rest[b - |first|], node, root, i + 1, handled');
        var k :| i + 1 <= k < |node.files| && node.files[k].filetype !in handled'
          && rest[b - |first|] == TypeDir(root, node.files[k].filetype);
        if ms[a] == ms[b] {
          TypeDirInjective(root, node.files[i].filetype, node.files[k].filetype);
        }
      } else {
        assert ms[a] == rest[a - |first|] && ms[b] == rest[b - |first|];
      }
    }
  }

  /** The file loop only appends to the log. */
  lemma FilesLogExtends(node: Directory, root: Path, i: nat, handled: set<string>, w: World, failing: set<Op>)
    requires i <= |node.files|
    ensures var w2 := ReorganizeFiles(node, root, i, handled, w, failing).0;
      |w.log| <= |w2.log| && w2.log[..|w.log|] == w.log
  {
    FilesTrace(node, root, i, handled, w, failing);
  }

  lemma {:induction false} FilesMkdirs(node: Directory, root: Path, i: nat, handled: set<string>, w: World, failing: set<Op>)
    requires i <= |node.files|
    ensures var (w2, ok) := ReorganizeFiles(node, root, i, handled, w, failing);
      && |w.log| <= |w2.log|
      && FromUnhandledTypes(Mkdirs(Added(w, w2)), node, root, i, handled)
      && Distinct(Mkdirs(Added(w, w2)))
    decreases |node.files| - i, 1
  {
    if i == |node.files| {
      assert Added(w, w) == [];
    } else {
      var file := node.files[i];
      var typeDirPath := TypeDir(root, file.filetype);
      var op := Rename(JoinPath(node.path, file.name), JoinPath(typeDirPath, file.name));
      var (w1, created) := EnsureTypeDir(w, handled, file.filetype, typeDirPath, failing);
      MkdirsOfStep(w, handled, file.filetype, typeDirPath, op, failing);
      var first := Mkdirs(Added(w, w1));
      if created {
        var (w2, moved) := Apply(w1, op, failing);
        if moved {
          MkdirsAfterMove(node, root, i, handled, w, w1, w2, failing);
        } else {
          assert ReorganizeFiles(node, root, i, handled, w, failing) == (w2, false);
          assert Added(w, w2) == Added(w, w1) + [op];
          CombineMkdirs(first, [], node, root, i, handled);
        }
      } else {
        assert ReorganizeFiles(node, root, i, handled, w, failing) == (w1, false);
        CombineMkdirs(first, [], node, root, i, handled);
      }
    }
  }

  /** FilesMkdirs for a step whose mkdir (if any) and move both succeeded. */
  lemma {:induction false} MkdirsAfterMove(node: Directory, root: Path, i: nat, handled: set<string>,
                                           w: World, w1: World, w2: World, failing: set<Op>)
    requires i < |node.files|
    requires var ft := node.files[i].filetype;
      && EnsureTypeDir(w, handled, ft, TypeDir(root, ft), failing) == (w1, true)
      && Apply(w1, Move(root, node.path, node.files[i]), failing) == (w2, true)
    requires |w.log| <= |w1.log| && w1.log[..|w.log|] == w.log
    requires var ft := node.files[i].filetype;
      Mkdirs(Added(w, w1)) == (if ft in handled || TypeDir(root, ft) in w.present then [] else [TypeDir(root, ft)])
    ensures var (w3, ok) := ReorganizeFiles(node, root, i, handled, w, failing);
      && |w.log| <= |w3.log|
      && FromUnhandledTypes(Mkdirs(Added(w, w3)), node, root, i, handled)
      && Distinct(Mkdirs(Added(w, w3)))
    decreases |node.files| - i, 0
  {
    var op := Move(root, node.path, node.files[i]);
    var handled' := handled + {node.files[i].filetype};
    FilesMkdirs(node, root, i + 1, handled', w2, failing);
    FilesLogExtends(node, root, i + 1, handled', w2, failing);
    var r := ReorganizeFiles(node, root, i + 1, handled', w2, failing);
    assert ReorganizeFiles(node, root, i, handled, w, failing) == r;
    AddedSplit(w, w1, w2, r.0, op);
    MkdirsAppend(Added(w, w1) + [op], Added(w2, r.0));
    MkdirsAppend(Added(w, w1), [op]);
    assert Mkdirs([op]) == Mkdirs([]) + [];
    var first, rest := Mkdirs(Added(w, w1)), Mkdirs(Added(w2, r.0));
    assert Mkdirs(Added(w, r.0)) == first + rest;
    CombineMkdirs(first, rest, node, root, i, handled);
  }

  /** Renaming a file of a directory at or below the root can remove a type directory path
      only when the file is a dot-less file in the root itself, named after its own type. */
  lemma RenamedFileIsNotOtherTypeDir(root: Path, dir: Path, name: string, e: string)
    requires |dir| >= |root| && name != [] && '.' !in e
    ensures JoinPath(dir, name) == TypeDir(root, e) ==> e == FileType(name)
  {
    if JoinPath(dir, name) == TypeDir(root, e) {
      assert e == TypeDir(root, e)[|root|] == JoinPath(dir, name)[|dir|] == name;
      DotlessNameIsOwnFileType(e);
    }
  }

  /** Every dot-less type whose directory existed in `w0` is handled or still has its
      directory in `w`. */
  ghost predicate TypeDirsAccounted(root: Path, w0: World, handled: set<string>, w: World)
  {
    forall e :: '.' !in e && TypeDir(root, e) in w0.present ==> e in handled || TypeDir(root, e) in w.present
  }

  /** One file step keeps TypeDirsAccounted: the only path the move can remove is the type
      directory of the file's own type, which the step marks handled. */
  lemma AccountedStep(root: Path, dir: Path, file: File, handled: set<string>, w0: World, w: World, w1: World, w2: World)
    requires |dir| >= |root| && file.name != [] && file.filetype == FileType(file.name)
    requires TypeDirsAccounted(root, w0, handled, w) && w.present <= w1.present
    requires w2.present == w1.present - {JoinPath(dir, file.name)} + {JoinPath(TypeDir(root, file.filetype), file.name)}
    ensures TypeDirsAccounted(root, w0, handled + {file.filetype}, w2)
  {
    forall e | '.' !in e && TypeDir(root, e) in w0.present
      ensures e in handled + {file.filetype} || TypeDir(root, e) in w2.present
    {
      RenamedFileIsNotOtherTypeDir(root, dir, file.name, e);
    }
  }

  /** The guarded mkdir removes nothing. */
  lemma EnsureTypeDirKeeps(w: World, handled: set<string>, fileType: string, typeDirPath: Path, failing: set<Op>)
    ensures w.present <= EnsureTypeDir(w, handled, fileType, typeDirPath, failing).0.present
  {
  }

  /** Directories absent from `w0` before and after a move are absent across the whole stretch. */
  lemma CombineAbsent(w: World, w1: World, w2: World, w3: World, op: Op, w0: World)
    requires op.Rename?
    requires |w.log| <= |w1.log| && w1.log[..|w.log|] == w.log
    requires w2.log == w1.log + [op]
    requires |w2.log| <= |w3.log| && w3.log[..|w2.log|] == w2.log
    requires forall p :: p in Mkdirs(Added(w, w1)) ==> p !in w0.present
    requires forall p :: p in Mkdirs(Added(w2, w3)) ==> p !in w0.present
    ensures |w.log| <= |w3.log|
    ensures forall p :: p in Mkdirs(Added(w, w3)) ==> p !in w0.present
  {
    AddedSplit(w, w1, w2, w3, op);
    MkdirsAppend(Added(w, w1) + [op], Added(w2, w3));
    MkdirsAppend(Added(w, w1), [op]);
    assert Mkdirs([op]) == Mkdirs([]) + [];
  }

  lemma {:induction false} FilesMkdirAbsent(node: Directory, root: Path, i: nat, handled: set<string>, w0: World, w: World, failing: set<Op>)
    requires i <= |node.files|
    requires |node.path| >= |root|
    requires forall f :: f in node.files ==> f.name != [] && f.filetype == FileType(f.name)
    requires TypeDirsAccounted(root, w0, handled, w)
    ensures var (w2, ok) := ReorganizeFiles(node, root, i, handled, w, failing);
      && |w.log| <= |w2.log|
      && forall p :: p in Mkdirs(Added(w, w2)) ==> p !in w0.present
    decreases |node.files| - i, 1
  {
    if i == |node.files| {
      assert Added(w, w) == [];
    } else {
      var file := node.files[i];
      assert file in node.files;
      var (w1, created) := EnsureTypeDir(w, handled, file.filetype, TypeDir(root, file.filetype), failing);
      var (w2, moved) := Apply(w1, Move(root, node.path, file), failing);
      if created && moved {
        AbsentAfterMove(node, root, i, handled, w0, w, w1, w2, failing);
      } else {
        AbsentWhenStopped(node, root, i, handled, w0, w, failing);
      }
    }
  }

  /** FilesMkdirAbsent for a step whose mkdir or move failed: the loop stops there. */
  lemma AbsentWhenStopped(node: Directory, root: Path, i: nat, handled: set<string>, w0: World, w: World, failing: set<Op>)
    requires i < |node.files|
    requires node.files[i].filetype == FileType(node.files[i].name)
    requires TypeDirsAccounted(root, w0, handled, w)
    requires var file := node.files[i];
      var (w1, created) := EnsureTypeDir(w, handled, file.filetype, TypeDir(root, file.filetype), failing);
      !created || !Apply(w1, Move(root, node.path, file), failing).1
    ensures var (w2, ok) := ReorganizeFiles(node, root, i, handled, w, failing);
      && |w.log| <= |w2.log|
      && forall p :: p in Mkdirs(Added(w, w2)) ==> p !in w0.present
  {
    var file := node.files[i];
    var op := Move(root, node.path, file);
    FirstMkdirAbsent(root, file, handled, w0, w, op, failing);
    var (w1, created) := EnsureTypeDir(w, handled, file.filetype, TypeDir(root, file.filetype), failing);
    if created {
      var w2 := Apply(w1, op, failing).0;
      assert ReorganizeFiles(node, root, i, handled, w, failing) == (w2, false);
      assert Added(w, w2) == Added(w, w1) + [op];
    } else {
      assert ReorganizeFiles(node, root, i, handled, w, failing) == (w1, false);
    }
  }

  /** The guarded mkdir of one file step never targets a directory present in `w0`. */
  lemma FirstMkdirAbsent(root: Path, file: File, handled: set<string>, w0: World, w: World, op: Op, failing: set<Op>)
    requires file.filetype == FileType(file.name)
    requires TypeDirsAccounted(root, w0, handled, w)
    requires op.Rename?
    ensures var w1 := EnsureTypeDir(w, handled, file.filetype, TypeDir(root, file.filetype), failing).0;
      && |w.log| <= |w1.log| && w1.log[..|w.log|] == w.log
      && Mkdirs(Added(w, w1) + [op]) == Mkdirs(Added(w, w1))
      && forall p :: p in Mkdirs(Added(w, w1)) ==> p !in w0.present
  {
    DotlessNameIsOwnFileType(file.name);
    EnsureTypeDirTrace(w, handled, file.filetype, TypeDir(root, file.filetype), failing);
    MkdirsOfStep(w, handled, file.filetype, TypeDir(root, file.filetype), op, failing);
  }

  /** TypeDirsAccounted holds after a step whose mkdir (if any) and move both succeeded. */
  lemma AccountedAfterMove(root: Path, dir: Path, file: File, handled: set<string>,
                           w0: World, w: World, w1: World, w2: World, failing: set<Op>)
    requires |dir| >= |root| && file.name != [] && file.filetype == FileType(file.name)
    requires TypeDirsAccounted(root, w0, handled, w)
    requires EnsureTypeDir(w, handled, file.filetype, TypeDir(root, file.filetype), failing) == (w1, true)
    requires Apply(w1, Move(root, dir, file), failing) == (w2, true)
    ensures TypeDirsAccounted(root, w0, handled + {file.filetype}, w2)
  {
    EnsureTypeDirKeeps(w, handled, file.filetype, TypeDir(root, file.filetype), failing);
    AccountedStep(root, dir, file, handled, w0, w, w1, w2);
  }

  /** FilesMkdirAbsent for a step whose mkdir (if any) and move both succeeded. */
  lemma {:induction false} AbsentAfterMove(node: Directory, root: Path, i: nat, handled: set<string>,
                                           w0: World, w: World, w1: World, w2: World, failing: set<Op>)
    requires i < |node.files|
    requires |node.path| >= |root|
    requires forall f :: f in node.files ==> f.name != [] && f.filetype == FileType(f.name)
    requires TypeDirsAccounted(root, w0, handled, w)
    requires var ft := node.files[i].filetype;
      && EnsureTypeDir(w, handled, ft, TypeDir(root, ft), failing) == (w1, true)
      && Apply(w1, Move(root, node.path, node.files[i]), failing) == (w2, true)
    ensures var (w3, ok) := ReorganizeFiles(node, root, i, handled, w, failing);
      && |w.log| <= |w3.log|
      && forall p :: p in Mkdirs(Added(w, w3)) ==> p !in w0.present
    decreases |node.files| - i, 0
  {
    var file := node.files[i];
    assert file in node.files;
    var op := Move(root, node.path, file);
    var handled' := handled + {file.filetype};
    FirstMkdirAbsent(root, file, handled, w0, w, op, failing);
    AccountedAfterMove(root, node.path, file, handled, w0, w, w1, w2, failing);
    FilesMkdirAbsent(node, root, i + 1, handled', w0, w2, failing);
    FilesLogExtends(node, root, i + 1, handled', w2, failing);
    var r := ReorganizeFiles(node, root, i + 1, handled', w2, failing);
    assert ReorganizeFiles(node, root, i, handled, w, failing) == r;
    CombineAbsent(w, w1, w2, r.0, op, w0);
  }

  /** In `a`, the directory `p` is created before the operation `mv` is attempted. */
  predicate MkdirBefore(a: seq<Op>, p: Path, mv: Op)
  {
    exists j :: 0 <= j < |a| && a[j] == Mkdir(p) && mv in a[j + 1..]
  }

  /** A rename the log reports among its renames is in the log. */
  lemma {:induction false} RenameInLog(a: seq<Op>, op: Op)
    requires op in Renames(a)
    ensures op in a
  {
    if a != [] {
      var init := a[..|a| - 1];
      if op in Renames(init) {
        RenameInLog(init, op);
        assert init[..] <= a;
      }
    }
  }

  /** A directory the log creates is among its mkdirs. */
  lemma {:induction false} MkdirInMkdirs(a: seq<Op>, p: Path)
    requires Mkdir(p) in a
    ensures p in Mkdirs(a)
  {
    var init := a[..|a| - 1];
    if a[|a| - 1] != Mkdir(p) {
      assert Mkdir(p) in init by {
        var j :| 0 <= j < |a| && a[j] == Mkdir(p);
        assert init[j] == a[j];
      }
      MkdirInMkdirs(init, p);
    }
  }

  /** A step whose mkdir (if any) and move of a file typed by its name both succeeded leaves the
      directory of any other dot-less type as absent as it was: the mkdir made the file's own
      type directory, and the move's target is a path inside it. */
  lemma OtherTypeDirStaysAbsent(root: Path, dir: Path, file: File, e: string, handled: set<string>,
                                w: World, w1: World, w2: World, failing: set<Op>)
    requires file.filetype == FileType(file.name) && '.' !in e && e != file.filetype
    requires TypeDir(root, e) !in w.present
    requires EnsureTypeDir(w, handled, file.filetype, TypeDir(root, file.filetype), failing) == (w1, true)
    requires Apply(w1, Move(root, dir, file), failing) == (w2, true)
    ensures TypeDir(root, e) !in w2.present
  {
    var t := file.filetype;
    if TypeDir(root, e) == TypeDir(root, t) {
      TypeDirInjective(root, e, t);
    }
    DotlessNameIsOwnFileType(e);
    var target := JoinPath(TypeDir(root, t), file.name);
    if t == [] {
      // the target is root/name, and the name, of empty type, is not the dot-less e
      assert e != [] && file.name != e;
      assert TypeDir(root, e) == root + [e];
      assert target == root || target == root + [file.name];
      assert (root + [file.name])[|root|] == file.name;
    } else {
      // the target is root/t/name, two components below the root
      assert file.name != [];
      assert |target| == |root| + 2;
    }
  }

  /** A log that starts with the mkdir of `p` has it before any later operation. */
  lemma MkdirBeforeFirst(a: seq<Op>, first: seq<Op>, op: Op, rest: seq<Op>, p: Path, mv: Op)
    requires first == [Mkdir(p)] && a == first + [op] + rest && (mv == op || mv in rest)
    ensures MkdirBefore(a, p, mv)
  {
    assert a[0] == Mkdir(p);
    assert a[1..] == [op] + rest;
    assert mv in a[0 + 1..];
  }

  /** A mkdir before a move in a later stretch of the log is still before it in the whole. */
  lemma MkdirBeforeShift(a: seq<Op>, first: seq<Op>, rest: seq<Op>, p: Path, mv: Op)
    requires a == first + rest && MkdirBefore(rest, p, mv)
    ensures MkdirBefore(a, p, mv)
  {
    var j :| 0 <= j < |rest| && rest[j] == Mkdir(p) && mv in rest[j + 1..];
    assert a[|first| + j] == rest[j];
    assert a[|first| + j + 1..] == rest[j + 1..];
  }

  /** The loop over the files from `i` on, when it succeeds, creates the directory of every type
      of files `i..` not in `handled` whose directory is absent from `w`, and does so before
      moving that file. */
  lemma {:induction false} FilesMkdirBeforeMove(node: Directory, root: Path, i: nat, handled: set<string>, w: World, failing: set<Op>)
    requires i <= |node.files|
    requires forall f :: f in node.files ==> f.filetype == FileType(f.name)
    requires ReorganizeFiles(node, root, i, handled, w, failing).1
    ensures var w2 := ReorganizeFiles(node, root, i, handled, w, failing).0;
      && |w.log| <= |w2.log|
      && forall k :: i <= k < |node.files| && node.files[k].filetype !in handled
                     && TypeDir(root, node.files[k].filetype) !in w.present
           ==> MkdirBefore(Added(w, w2), TypeDir(root, node.files[k].filetype), Move(root, node.path, node.files[k]))
    decreases |node.files| - i, 1
  {
    FilesLogExtends(node, root, i, handled, w, failing);
    if i < |node.files| {
      var file := node.files[i];
      var (w1, created) := EnsureTypeDir(w, handled, file.filetype, TypeDir(root, file.filetype), failing);
      var (w2, moved) := Apply(w1, Move(root, node.path, file), failing);
      MkdirBeforeMoveStep(node, root, i, handled, w, w1, w2, failing);
    }
  }

  /** The renames of a successful file loop from `i` on are the moves of files `i..`. */
  lemma FilesRenames(node: Directory, root: Path, i: nat, handled: set<string>, w: World, failing: set<Op>)
    requires i <= |node.files|
    requires ReorganizeFiles(node, root, i, handled, w, failing).1
    ensures var w2 := ReorganizeFiles(node, root, i, handled, w, failing).0;
      && |w.log| <= |w2.log| && w2.log[..|w.log|] == w.log
      && Renames(Added(w, w2)) == OwnMoves(node, root)[i..]
  {
    FilesTrace(node, root, i, handled, w, failing);
  }

  /** FilesMkdirBeforeMove for one step, whose mkdir (if any) and move both succeeded. */
  lemma {:induction false} MkdirBeforeMoveStep(node: Directory, root: Path, i: nat, handled: set<string>,
                                               w: World, w1: World, w2: World, failing: set<Op>)
    requires i < |node.files|
    requires forall f :: f in node.files ==> f.filetype == FileType(f.name)
    requires var ft := node.files[i].filetype;
      && EnsureTypeDir(w, handled, ft, TypeDir(root, ft), failing) == (w1, true)
      && Apply(w1, Move(root, node.path, node.files[i]), failing) == (w2, true)
    requires ReorganizeFiles(node, root, i, handled, w, failing).1
    ensures var w3 := ReorganizeFiles(node, root, i, handled, w, failing).0;
      && |w.log| <= |w3.log|
      && forall k :: i <= k < |node.files| && node.files[k].filetype !in handled
                     && TypeDir(root, node.files[k].filetype) !in w.present
           ==> MkdirBefore(Added(w, w3), TypeDir(root, node.files[k].filetype), Move(root, node.path, node.files[k]))
    decreases |node.files| - i, 0
  {
    var t := node.files[i].filetype;
    var op := Move(root, node.path, node.files[i]);
    var handled' := handled + {t};
    var r := ReorganizeFiles(node, root, i + 1, handled', w2, failing);
    assert ReorganizeFiles(node, root, i, handled, w, failing) == r;
    FilesMkdirBeforeMove(node, root, i + 1, handled', w2, failing);
    FilesRenames(node, root, i + 1, handled', w2, failing);
    EnsureTypeDirTrace(w, handled, t, TypeDir(root, t), failing);
    AddedSplit(w, w1, w2, r.0, op);
    forall k | i <= k < |node.files| && node.files[k].filetype !in handled
               && TypeDir(root, node.files[k].filetype) !in w.present
      ensures MkdirBefore(Added(w, r.0), TypeDir(root, node.files[k].filetype), Move(root, node.path, node.files[k]))
    {
      MkdirBeforeMoveOf(node, root, i, handled, w, w1, w2, r.0, k, failing);
    }
  }

  /** The case of one file `k` in MkdirBeforeMoveStep. */
  lemma MkdirBeforeMoveOf(node: Directory, root: Path, i: nat, handled: set<string>,
                          w: World, w1: World, w2: World, w3: World, k: nat, failing: set<Op>)
    requires i <= k < |node.files|
    requires forall f :: f in node.files ==> f.filetype == FileType(f.name)
    requires var ft := node.files[i].filetype;
      && EnsureTypeDir(w, handled, ft, TypeDir(root, ft), failing) == (w1, true)
      && Apply(w1, Move(root, node.path, node.files[i]), failing) == (w2, true)
    requires |w.log| <= |w1.log| && |w2.log| <= |w3.log| && |w.log| <= |w3.log|
    requires Added(w, w3) == Added(w, w1) + [Move(root, node.path, node.files[i])] + Added(w2, w3)
    requires Renames(Added(w2, w3)) == OwnMoves(node, root)[i + 1..]
    requires forall k' :: i + 1 <= k' < |node.files| && node.files[k'].filetype !in handled + {node.files[i].filetype}
                          && TypeDir(root, node.files[k'].filetype) !in w2.present
               ==> MkdirBefore(Added(w2, w3), TypeDir(root, node.files[k'].filetype), Move(root, node.path, node.files[k']))
    requires node.files[k].filetype !in handled && TypeDir(root, node.files[k].filetype) !in w.present
    ensures MkdirBefore(Added(w, w3), TypeDir(root, node.files[k].filetype), Move(root, node.path, node.files[k]))
  {
    var t, tk := node.files[i].filetype, node.files[k].filetype;
    var op, mv := Move(root, node.path, node.files[i]), Move(root, node.path, node.files[k]);
    if tk == t {
      EnsureTypeDirMade(w, handled, t, TypeDir(root, t), failing, w1);
      if k > i {
        MoveInRest(node, root, i, k, Added(w2, w3));
      }
      MkdirBeforeFirst(Added(w, w3), Added(w, w1), op, Added(w2, w3), TypeDir(root, t), mv);
    } else {
      assert node.files[k] in node.files;
      DotlessNameIsOwnFileType(node.files[k].name);
      OtherTypeDirStaysAbsent(root, node.path, node.files[i], tk, handled, w, w1, w2, failing);
      assert tk !in handled + {t};
      MkdirBeforeShift(Added(w, w3), Added(w, w1) + [op], Added(w2, w3), TypeDir(root, tk), mv);
    }
  }

  /** A guarded mkdir that was needed and succeeded logged exactly that mkdir. */
  lemma EnsureTypeDirMade(w: World, handled: set<string>, fileType: string, p: Path, failing: set<Op>, w1: World)
    requires fileType !in handled && p !in w.present
    requires EnsureTypeDir(w, handled, fileType, p, failing) == (w1, true)
    ensures |w.log| <= |w1.log| && Added(w, w1) == [Mkdir(p)]
  {
  }

  /** The move of a later file is in the log of the rest of a successful loop. */
  lemma MoveInRest(node: Directory, root: Path, i: nat, k: nat, rest: seq<Op>)
    requires i < k < |node.files|
    requires Renames(rest) == OwnMoves(node, root)[i + 1..]
    ensures Move(root, node.path, node.files[k]) in rest
  {
    assert Move(root, node.path, node.files[k]) == OwnMoves(node, root)[i + 1..][k - i - 1];
    RenameInLog(rest, Move(root, node.path, node.files[k]));
  }

  /** Within one node's call the handled-type map works as intended: each type directory the
      call creates is `root/type` for the type of one of the node's own files, and no type
      directory is attempted twice. */
  lemma MkdirOncePerType(node: Directory, root: Path, w: World, failing: set<Op>)
    ensures var (w2, ok) := ReorganizeFiles(node, root, 0, {}, w, failing);
      && |w.log| <= |w2.log|
      && FromUnhandledTypes(Mkdirs(Added(w, w2)), node, root, 0, {})
      && Distinct(Mkdirs(Added(w, w2)))
  {
    FilesMkdirs(node, root, 0, {}, w, failing);
  }

  /** Within one node's call, no type directory that existed when the call began is created,
      for a node at or below the root whose files are typed by their names, as the scanner
      produces them. */
  lemma MkdirOnlyWhenAbsent(node: Directory, root: Path, w: World, failing: set<Op>)
    requires |node.path| >= |root|
    requires forall f :: f in node.files ==> f.name != [] && f.filetype == FileType(f.name)
    ensures var (w2, ok) := ReorganizeFiles(node, root, 0, {}, w, failing);
      && |w.log| <= |w2.log|
      && forall p :: p in Mkdirs(Added(w, w2)) ==> p !in w.present
  {
    FilesMkdirAbsent(node, root, 0, {}, w, w, failing);
  }

  /** Conversely, a successful call creates the type directory of each of the node's files
      that was absent when the call began, and creates it before that file is moved into it. */
  lemma MkdirForEveryAbsentType(node: Directory, root: Path, w: World, failing: set<Op>)
    requires forall f :: f in node.files ==> f.filetype == FileType(f.name)
    ensures var (w2, ok) := ReorganizeFiles(node, root, 0, {}, w, failing);
      && |w.log| <= |w2.log|
      && (ok ==> forall k :: 0 <= k < |node.files| && TypeDir(root, node.files[k].filetype) !in w.present
                   ==> MkdirBefore(Added(w, w2), TypeDir(root, node.files[k].filetype), Move(root, node.path, node.files[k])))
  {
    FilesLogExtends(node, root, 0, {}, w, failing);
    if ReorganizeFiles(node, root, 0, {}, w, failing).1 {
      FilesMkdirBeforeMove(node, root, 0, {}, w, failing);
    }
  }

  /** Together: a successful call on a scanned node creates exactly the absent type directories
      of its files, each one once. */
  lemma MkdirsExactlyAbsentTypeDirs(node: Directory, root: Path, w: World, failing: set<Op>)
    requires |node.path| >= |root|
    requires forall f :: f in node.files ==> f.name != [] && f.filetype == FileType(f.name)
    ensures var (w2, ok) := ReorganizeFiles(node, root, 0, {}, w, failing);
      && |w.log| <= |w2.log|
      && Distinct(Mkdirs(Added(w, w2)))
      && (ok ==> forall p :: p in Mkdirs(Added(w, w2)) <==>
                   exists k :: 0 <= k < |node.files| && p == TypeDir(root, node.files[k].filetype) && p !in w.present)
  {
    var (w2, ok) := ReorganizeFiles(node, root, 0, {}, w, failing);
    MkdirOncePerType(node, root, w, failing);
    MkdirOnlyWhenAbsent(node, root, w, failing);
    MkdirForEveryAbsentType(node, root, w, failing);
    var ms := Mkdirs(Added(w, w2));
    if ok {
      forall p ensures p in ms <==> exists k :: 0 <= k < |node.files| && p == TypeDir(root, node.files[k].filetype) && p !in w.present
      {
        if p in ms {
          var a :| 0 <= a < |ms| && ms[a] == p;
          assert IsUnhandledTypeDir(ms[a], node, root, 0, {});
        }
        if exists k :: 0 <= k < |node.files| && p == TypeDir(root, node.files[k].filetype) && p !in w.present {
          var k :| 0 <= k < |node.files| && p == TypeDir(root, node.files[k].filetype) && p !in w.present;
          assert MkdirBefore(Added(w, w2), p, Move(root, node.path, node.files[k]));
          MkdirInMkdirs(Added(w, w2), p);
        }
      }
    }
  }

  // --- the object that stands for the filesystem ---

  class FileSystem {
    /** Paths that exist now. */
    var present: set<Path>
    /** Operations attempted so far, in order. */
    var log: seq<Op>
    /** Operations the OS refuses. */
    const failing: set<Op>

    constructor (existing: set<Path>, refused: set<Op>)
      ensures present == existing && log == [] && failing == refused
    {
      present := existing;
      log := [];
      failing := refused;
    }

    function State(): World
      reads this
    {
      World(present, log)
    }

    /** `Path::exists`. */
    predicate Exists(p: Path)
      reads this
    {
      p in present
    }

    /** `std::fs::create_dir`. */
    method CreateDir(p: Path) returns (ok: bool)
      modifies this
      ensures (State(), ok) == Apply(old(State()), Mkdir(p), failing)
    {
      log := log + [Mkdir(p)];
      if Mkdir(p) in failing {
        return false;
      }
      present := present + {p};
      return true;
    }

    /** `std::fs::rename`. */
    method Rename(from: Path, to: Path) returns (ok: bool)
      modifies this
      ensures (State(), ok) == Apply(old(State()), Op.Rename(from, to), failing)
    {
      log := log + [Op.Rename(from, to)];
      if Op.Rename(from, to) in failing {
        return false;
      }
      present := present - {from} + {to};
      return true;
    }

    /** `create_directories` (src/main.rs:101-129); `ok` is false when it returned an error. */
    method CreateDirectories(node: Directory, root: Path) returns (ok: bool)
      modifies this
      ensures (State(), ok) == Reorganize(node, root, old(State()), failing)
      decreases node
    {
      var fileTypeDirs: map<string, bool> := map[];
      assert fileTypeDirs.Keys == {};
      var i := 0;
      while i < |node.files|
        invariant i <= |node.files|
        invariant ReorganizeFiles(node, root, i, fileTypeDirs.Keys, State(), failing)
               == ReorganizeFiles(node, root, 0, {}, old(State()), failing)
      {
        var file := node.files[i];
        var typeDirPath := TypeDir(root, file.filetype);
        ghost var before := State();
        ghost var handled := fileTypeDirs.Keys;
        if file.filetype !in fileTypeDirs {
          if !Exists(typeDirPath) {
            var created := CreateDir(typeDirPath);
            if !created {
              return false;
            }
          }
          fileTypeDirs := fileTypeDirs[file.filetype := true];
        }
        var filePath := JoinPath(node.path, file.name);
        var newFilePath := JoinPath(typeDirPath, file.name);
        assert (State(), true) == EnsureTypeDir(before, handled, file.filetype, typeDirPath, failing);
        var moved := Rename(filePath, newFilePath);
        if !moved {
          return false;
        }
        assert fileTypeDirs.Keys == handled + {file.filetype};
        i := i + 1;
      }
      match node.directories {
        case Absent =>
        case Present(directories) =>
          var j := 0;
          while j < |directories|
            invariant j <= |directories|
            invariant ReorganizeChildren(node, root, j, State(), failing)
                   == Reorganize(node, root, old(State()), failing)
          {
            var done := CreateDirectories(directories[j], root);
            if !done {
              return false;
            }
            j := j + 1;
          }
      }
      return true;
    }
  }
}
