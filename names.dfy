/**
 * Pure string helpers of src/main.rs: Rust's `str::split` followed by `.last()`,
 * the file-type (extension) expression of `scan_dir`, the hidden-directory test,
 * and the component model of paths used in place of `Path`/`PathBuf`.
 */
module Names {
  import opened Wrappers

  /** The pieces of `s` between occurrences of `sep`, exactly as `str::split` yields them:
      "a.b" gives ["a", "b"], "a." gives ["a", ""], "" gives [""]. */
  function Split(s: string, sep: char): (parts: seq<string>)
    ensures |parts| >= 1
    decreases |s|
  {
    if s == [] then [[]]
    else
      var init := Split(s[..|s| - 1], sep);
      if s[|s| - 1] == sep then init + [[]]
      else init[..|init| - 1] + [init[|init| - 1] + [s[|s| - 1]]]
  }

  /** Joins pieces with `sep` in between (the inverse of Split). */
  function JoinWith(parts: seq<string>, sep: char): string
    decreases |parts|
  {
    if parts == [] then []
    else if |parts| == 1 then parts[0]
    else JoinWith(parts[..|parts| - 1], sep) + [sep] + parts[|parts| - 1]
  }

  /** Iterator `.last()`: the final element, if any. */
  function LastOf<T>(xs: seq<T>): Option<T>
  {
    if xs == [] then None else Some(xs[|xs| - 1])
  }

  /** Reference definition: `r` is the part of `s` after its last `sep`
      (all of `s` when `s` holds no `sep`). */
  predicate IsLastPiece(s: string, sep: char, r: string)
  {
    && |r| <= |s|
    && s[|s| - |r|..] == r
    && sep !in r
    && (|r| < |s| ==> s[|s| - |r| - 1] == sep)
  }

  /** The file type the scanner records for a file name (src/main.rs:75-79):
      `name.split('.').last()` with a fallback of "unknown" when there is no last piece. */
  function FileType(name: string): (ext: string)
    ensures IsLastPiece(name, '.', ext)
  {
    SplitLastIsLastPiece(name, '.');
    match LastOf(Split(name, '.'))
    case Some(piece) => piece
    case None => "unknown"
  }

  /** `starts_with(".")`. */
  predicate StartsWithDot(s: string)
  {
    |s| > 0 && s[0] == '.'
  }

  /** The hidden-directory test of src/main.rs:48-53: the last `/`-separated piece of the
      entry's path string starts with a dot. (The `expect` there cannot fire, since a split
      always has a last piece.) */
  predicate IsHiddenDir(entryPath: string)
  {
    var pieces := Split(entryPath, '/');
    StartsWithDot(pieces[|pieces| - 1])
  }

  /** A path is a sequence of components. */
  type Path = seq<string>

  /** The string of a path, as `to_string_lossy` renders it. */
  function PathString(p: Path): string
  {
    JoinWith(p, '/')
  }

  /** `Path::join` with a single relative component that holds no separator: joining the
      empty string only adds a trailing separator, which names the same directory. */
  function JoinPath(p: Path, c: string): (q: Path)
    ensures c != [] ==> q == p + [c]
    ensures c == [] ==> q == p
  {
    if c == [] then p else p + [c]
  }

  // ---------------------------------------------------------------------------------
  // Lemmas

  /** The string of a joined path is the string of the directory, a separator, and the
      component; and it splits back into the directory's components followed by the component.
      (Joining the empty string makes Rust add a trailing separator, which the component model
      drops: both name the same directory.) */
  lemma JoinPathString(p: Path, c: string)
    requires p != [] && '/' !in c
    requires forall i :: 0 <= i < |p| ==> '/' !in p[i]
    ensures c != [] ==> PathString(JoinPath(p, c)) == PathString(p) + ['/'] + c
    ensures c == [] ==> PathString(JoinPath(p, c)) == PathString(p)
    ensures Split(PathString(JoinPath(p, c)), '/') == p + (if c == [] then [] else [c])
  {
    var q := JoinPath(p, c);
    if c != [] {
      assert q[..|q| - 1] == p;
      assert p + (if c == [] then [] else [c]) == q;
    } else {
      assert p + [] == p;
    }
    SplitJoin(q, '/');
  }

  /** The last piece of Split is the part after the last separator. */
  lemma {:induction false} SplitLastIsLastPiece(s: string, sep: char)
    ensures IsLastPiece(s, sep, Split(s, sep)[|Split(s, sep)| - 1])
    decreases |s|
  {
    if s != [] {
      var t := s[..|s| - 1];
      SplitLastIsLastPiece(t, sep);
      var init := Split(t, sep);
      var l := init[|init| - 1];
      if s[|s| - 1] != sep {
        var r := l + [s[|s| - 1]];
        assert Split(s, sep)[|Split(s, sep)| - 1] == r;
        assert s[|s| - |r|..] == t[|t| - |l|..] + [s[|s| - 1]];
        if |r| < |s| {
          assert s[|s| - |r| - 1] == t[|t| - |l| - 1];
        }
      }
    }
  }

  /** There is only one last piece: the reference definition determines its result. */
  lemma LastPieceUnique(s: string, sep: char, r1: string, r2: string)
    requires IsLastPiece(s, sep, r1) && IsLastPiece(s, sep, r2)
    ensures r1 == r2
  {
  }

  /** The file type is the text after the last dot, and nothing else satisfies that. */
  lemma FileTypeIsTextAfterLastDot(name: string, ext: string)
    ensures ext == FileType(name) <==> IsLastPiece(name, '.', ext)
  {
    if IsLastPiece(name, '.', ext) {
      LastPieceUnique(name, '.', ext, FileType(name));
    }
  }

  /** The "unknown" fallback is never taken: a split always has a last piece, and the file type
      is that piece. */
  lemma {:induction false} FileTypeIsLastSplitPiece(name: string)
    ensures LastOf(Split(name, '.')).Some?
    ensures FileType(name) == Split(name, '.')[|Split(name, '.')| - 1]
  {
  }

  /** A name without a dot is its own file type; a file type never holds a dot. */
  lemma DotlessNameIsOwnFileType(name: string)
    ensures '.' !in FileType(name)
    ensures '.' !in name ==> FileType(name) == name
  {
    if '.' !in name {
      assert IsLastPiece(name, '.', name);
      LastPieceUnique(name, '.', name, FileType(name));
    }
  }

  /** Examples of the rule, including the edge cases the code produces. */
  lemma FileTypeExamples()
    ensures FileType("README") == "README"
    ensures FileType("foo.") == ""
    ensures FileType(".gitignore") == "gitignore"
    ensures FileType("archive.tar.gz") == "gz"
  {
    DotlessNameIsOwnFileType("README");
    assert IsLastPiece("foo.", '.', "");
    FileTypeIsTextAfterLastDot("foo.", "");
    assert IsLastPiece(".gitignore", '.', "gitignore");
    FileTypeIsTextAfterLastDot(".gitignore", "gitignore");
    assert IsLastPiece("archive.tar.gz", '.', "gz");
    FileTypeIsTextAfterLastDot("archive.tar.gz", "gz");
  }

  /** Appending a separator and a separator-free piece appends exactly that piece. */
  lemma {:induction false} SplitAppendPiece(x: string, sep: char, b: string)
    requires sep !in b
    ensures Split(x + [sep] + b, sep) == Split(x, sep) + [b]
    decreases |b|
  {
    if b == [] {
      assert x + [sep] + b == x + [sep];
      assert (x + [sep])[..|x + [sep]| - 1] == x;
    } else {
      var b' := b[..|b| - 1];
      var s := x + [sep] + b;
      assert s[..|s| - 1] == x + [sep] + b';
      SplitAppendPiece(x, sep, b');
      assert b' + [b[|b| - 1]] == b;
    }
  }

  /** Joining the pieces of a split gives back the string. */
  lemma {:induction false} JoinSplit(s: string, sep: char)
    ensures JoinWith(Split(s, sep), sep) == s
    decreases |s|
  {
    if s != [] {
      JoinSplit(s[..|s| - 1], sep);
      JoinSplitStep(s, sep);
    }
  }

  /** The inductive step of JoinSplit: the property for `s` minus its last character gives it
      for `s`. */
  lemma JoinSplitStep(s: string, sep: char)
    requires s != []
    requires JoinWith(Split(s[..|s| - 1], sep), sep) == s[..|s| - 1]
    ensures JoinWith(Split(s, sep), sep) == s
  {
    var t := s[..|s| - 1];
    var init := Split(t, sep);
    assert s == t + [s[|s| - 1]];
    if s[|s| - 1] == sep {
      var parts := init + [[]];
      assert parts[..|parts| - 1] == init;
      assert JoinWith(parts, sep) == JoinWith(init, sep) + [sep] + [];
    } else {
      JoinAppendToLast(init, sep, s[|s| - 1]);
    }
  }

  /** Extending the last piece extends the joined string. */
  lemma {:induction false} JoinAppendToLast(parts: seq<string>, sep: char, c: char)
    requires |parts| >= 1
    ensures JoinWith(parts[..|parts| - 1] + [parts[|parts| - 1] + [c]], sep) == JoinWith(parts, sep) + [c]
  {
    var q := parts[..|parts| - 1] + [parts[|parts| - 1] + [c]];
    if |parts| > 1 {
      assert q[..|q| - 1] == parts[..|parts| - 1];
    }
  }

  /** Splitting a join of separator-free pieces gives back the pieces. */
  lemma {:induction false} SplitJoin(parts: seq<string>, sep: char)
    requires |parts| >= 1
    requires forall i :: 0 <= i < |parts| ==> sep !in parts[i]
    ensures Split(JoinWith(parts, sep), sep) == parts
    decreases |parts|
  {
    if |parts| == 1 {
      SplitSepFree(parts[0], sep);
    } else {
      var init := parts[..|parts| - 1];
      SplitJoin(init, sep);
      SplitAppendPiece(JoinWith(init, sep), sep, parts[|parts| - 1]);
    }
  }

  /** A string without separators splits into itself alone. */
  lemma {:induction false} SplitSepFree(s: string, sep: char)
    requires sep !in s
    ensures Split(s, sep) == [s]
    decreases |s|
  {
    if s != [] {
      var t := s[..|s| - 1];
      SplitSepFree(t, sep);
      assert t + [s[|s| - 1]] == s;
    }
  }

  /** The hidden test on an entry's path string looks exactly at the entry's own name. */
  lemma EntryHiddenIffNameHidden(dir: Path, name: string)
    requires '/' !in name
    ensures IsHiddenDir(PathString(dir + [name])) <==> StartsWithDot(name)
  {
    var s := PathString(dir + [name]);
    if dir == [] {
      assert dir + [name] == [name];
    } else {
      assert (dir + [name])[..|dir|] == dir;
      assert s == PathString(dir) + ['/'] + name;
    }
    assert IsLastPiece(s, '/', name);
    SplitLastIsLastPiece(s, '/');
    LastPieceUnique(s, '/', name, Split(s, '/')[|Split(s, '/')| - 1]);
  }
}
