/** The structure creator: walks a structure and makes its folders and empty
    files under a base path, logging one line per entry; in a dry run it
    only logs.

    The operating system is a `FileSystem` object holding the set of
    existing directories and files. Which operations the system refuses
    for reasons of its own (permissions, a full disk, ...) is a set of
    paths fixed when the object is made. Every operation fails or succeeds
    as a whole. */
module Creator {
  import opened Tree
  import AsciiParser

  // ---------------------------------------------------------------------
  // Paths

  /** `os.path.join(a, b)`: an absolute `b` replaces `a`; otherwise a slash
      goes between them unless `a` is empty or already ends with one. */
  function Join(a: string, b: string): string
  {
    if |b| > 0 && b[0] == '/' then b
    else if a == [] || a[|a| - 1] == '/' then a + b
    else a + "/" + b
  }

  /** The join ends with `b`, and an absolute `b` is all of it. Otherwise
      `a` comes first and one slash is put between them, except after an
      empty `a` or one that already ends with a slash: no slash is doubled
      and none is lost. */
  lemma JoinParts(a: string, b: string)
    ensures |b| <= |Join(a, b)| && Join(a, b)[|Join(a, b)| - |b|..] == b
    ensures |b| > 0 && b[0] == '/' ==> Join(a, b) == b
    ensures (|b| == 0 || b[0] != '/') ==>
      |a| <= |Join(a, b)| && Join(a, b)[..|a|] == a
      && |Join(a, b)| == |a| + |b| + (if a == [] || a[|a| - 1] == '/' then 0 else 1)
    ensures (|b| == 0 || b[0] != '/') && a != [] ==> Join(a, b)[|Join(a, b)| - |b| - 1] == '/'
  {
  }

  /** Joining in steps is joining at once: the path of a nested entry does
      not depend on how its names are grouped. */
  lemma JoinAssoc(a: string, b: string, c: string)
    ensures Join(Join(a, b), c) == Join(a, Join(b, c))
  {
    if |c| > 0 && c[0] == '/' {
      assert Join(b, c) == c;
    } else if |b| > 0 && b[0] == '/' {
      assert Join(a, b) == b;
      assert Join(b, c)[0] == '/';
    } else if a == [] {
      assert Join(a, b) == b;
      assert Join(a, Join(b, c)) == Join(b, c);
    } else if b == [] {
      JoinEmptyMiddle(a, c);
    } else {
      JoinRelative(a, b, c);
    }
  }

  lemma JoinEmptyMiddle(a: string, c: string)
    requires a != [] && (|c| == 0 || c[0] != '/')
    ensures Join(Join(a, ""), c) == Join(a, Join("", c))
  {
    assert Join("", c) == c;
    var ab := Join(a, "");
    assert ab != [] && ab[|ab| - 1] == '/';
    if a[|a| - 1] == '/' {
      assert ab == a;
    } else {
      assert ab == a + "/";
    }
  }

  lemma JoinRelative(a: string, b: string, c: string)
    requires a != [] && b != [] && b[0] != '/' && (|c| == 0 || c[0] != '/')
    ensures Join(Join(a, b), c) == Join(a, Join(b, c))
  {
    var x := if a[|a| - 1] == '/' then a else a + "/";
    var bc := Join(b, c);
    assert Join(a, b) == x + b;
    assert bc[0] == b[0];
    assert Join(a, bc) == x + bc;
    JoinTail(x, b, c);
  }

  /** A relative, non-empty `b` decides alone how `c` is joined after it. */
  lemma JoinTail(x: string, b: string, c: string)
    requires b != [] && b[0] != '/' && (|c| == 0 || c[0] != '/')
    ensures Join(x + b, c) == x + Join(b, c)
  {
    assert (x + b)[|x + b| - 1] == b[|b| - 1];
    if b[|b| - 1] == '/' {
      assert Join(x + b, c) == x + b + c;
    } else {
      assert Join(x + b, c) == x + b + "/" + c;
    }
  }

  /** The length of `p` up to and including its last slash, 0 if it has none. */
  function HeadLength(p: string): (n: nat)
    ensures n <= |p|
    ensures n > 0 ==> p[n - 1] == '/'
    ensures forall m :: n <= m < |p| ==> p[m] != '/'
  {
    if p == [] then 0
    else if p[|p| - 1] == '/' then |p|
    else HeadLength(p[..|p| - 1])
  }

  predicate AllSlashes(s: string)
  {
    forall m :: 0 <= m < |s| ==> s[m] == '/'
  }

  /** `os.path.dirname(p)`: everything before the last slash, with trailing
      slashes dropped unless there is nothing but slashes. */
  function Dirname(p: string): (r: string)
    ensures |r| <= |p| && r == p[..|r|]
    ensures forall m :: |r| <= m < |p| && m < HeadLength(p) ==> p[m] == '/'
  {
    var head := p[..HeadLength(p)];
    if head != [] && !AllSlashes(head) then AsciiParser.TrimEnd(head, {'/'}) else head
  }

  /** The directories `os.makedirs(p)` ends up having made: every
      non-empty prefix of `p` that stops at a slash, and `p` itself. */
  function Chain(p: string): (c: set<string>)
    ensures p != [] ==> p in c
  {
    assert p != [] ==> p == p[..|p|];
    set i | 0 < i <= |p| && (i == |p| || p[i] == '/') :: p[..i]
  }

  // ---------------------------------------------------------------------
  // The file system

  datatype FsState = FsState(dirs: set<string>, files: set<string>)

  predicate Exists(fs: FsState, p: string)
  {
    p in fs.dirs || p in fs.files
  }

  /** `os.makedirs(p, exist_ok=True)`: fails on the empty path, on a refused
      path, or when a file stands where a directory of the chain should be. */
  function AfterMakeDirs(fs: FsState, p: string, refuses: set<string>): Option<FsState>
  {
    if p == [] || p in refuses || Chain(p) * fs.files != {} then None
    else Some(FsState(fs.dirs + Chain(p), fs.files))
  }

  /** `open(p, 'w')`: fails on the empty path or one ending in a slash, on a
      refused path, on a directory, and when the parent is not a directory. */
  function AfterOpen(fs: FsState, p: string, refuses: set<string>): Option<FsState>
  {
    if p == [] || p[|p| - 1] == '/' || p in refuses || p in fs.dirs
       || (Dirname(p) != [] && Dirname(p) !in fs.dirs)
    then None
    else Some(FsState(fs.dirs, fs.files + {p}))
  }

  /** Before a file is opened in a real run, its parent directory is made
      when it is named and does not exist yet. */
  function Prepared(fs: FsState, p: string, refuses: set<string>): Option<FsState>
  {
    var parent := Dirname(p);
    if parent != [] && !Exists(fs, parent) then AfterMakeDirs(fs, parent, refuses) else Some(fs)
  }

  // ---------------------------------------------------------------------
  // The log

  datatype Kind = FileKind | FolderKind

  /** One log line: an entry made (or, in a dry run, that would be made), or
      an error while making the entry at `path`. */
  datatype LogEntry = Created(kind: Kind, path: string, dryRun: bool) | Failed(path: string)

  /** The text of a log line. The exception's own message after the colon of
      an error line is not modelled. */
  function Render(e: LogEntry): string
  {
    match e
    case Created(kind, path, dryRun) =>
      (if kind == FileKind then "✅ " else "📁 ")
      + (if dryRun then "[DRY RUN] " else "")
      + (if kind == FileKind then "Created file: " else "Created folder: ")
      + path
    case Failed(path) => "❌ Error creating " + path + ": "
  }

  /** A line says whether it comes from a dry run: right after the icon,
      the marker `[DRY RUN] ` appears exactly on dry-run lines. */
  lemma RenderMarksDryRun(e: LogEntry)
    requires e.Created?
    ensures |Render(e)| >= 12
    ensures Render(e)[2..12] == "[DRY RUN] " <==> e.dryRun
  {
    var r := Render(e);
    var icon := if e.kind == FileKind then "✅ " else "📁 ";
    var words := if e.kind == FileKind then "Created file: " else "Created folder: ";
    if e.dryRun {
      assert r == icon + "[DRY RUN] " + words + e.path;
      assert r[2..12] == "[DRY RUN] ";
    } else {
      assert r == icon + words + e.path;
      assert r[2] == 'C';
    }
  }

  // ---------------------------------------------------------------------
  // What a run does

  /** A value the creator treats as a file. */
  predicate IsFile(v: Value)
  {
    v == Null || v == Str("")
  }

  /** The entries of mapping `d` from index `i` on, under `cur`. */
  function RunEntries(fs: FsState, d: Value, i: nat, cur: string, dry: bool, refuses: set<string>): (FsState, seq<LogEntry>)
    requires d.Dict? && i <= |d.entries|
    decreases d, 0, |d.entries| - i
  {
    if i == |d.entries| then (fs, [])
    else
      var (fs1, l1) := RunKey(fs, Join(cur, d.entries[i].0), d.entries[i].1, dry, refuses);
      var (fs2, l2) := RunEntries(fs1, d, i + 1, cur, dry, refuses);
      (fs2, l1 + l2)
  }

  /** One entry, at path `full`, holding `v`. A failure is caught here: it
      is logged once, and what the entry had done before it stays done. */
  function RunKey(fs: FsState, full: string, v: Value, dry: bool, refuses: set<string>): (FsState, seq<LogEntry>)
    decreases v, 1, 0
  {
    if IsFile(v) then
      if dry then (fs, [Created(FileKind, full, true)])
      else
        var ready := Prepared(fs, full, refuses);
        if ready.None? then (fs, [Failed(full)])
        else match AfterOpen(ready.value, full, refuses)
          case None => (ready.value, [Failed(full)])
          case Some(fs1) => (fs1, [Created(FileKind, full, false)])
    else if v.Dict? || v.List? then
      var made := if dry then Some(fs) else AfterMakeDirs(fs, full, refuses);
      if made.None? then (fs, [Failed(full)])
      else
        var here := [Created(FolderKind, full, dry)];
        if v.Dict? then
          var (fs2, l) := RunEntries(made.value, v, 0, full, dry, refuses);
          (fs2, here + l)
        else
          var (fs2, l, ok) := RunItems(made.value, v, 0, full, dry, refuses);
          (fs2, here + l + (if ok then [] else [Failed(full)]))
    else (fs, [])
  }

  /** The items of list `l` from index `j` on, inside folder `full`: a
      string is a file name, a mapping is walked under `full`, anything else
      is skipped. A file that cannot be opened stops the list; the flag says
      whether the list ran to its end. */
  function RunItems(fs: FsState, l: Value, j: nat, full: string, dry: bool, refuses: set<string>): (FsState, seq<LogEntry>, bool)
    requires l.List? && j <= |l.items|
    decreases l, 0, |l.items| - j
  {
    if j == |l.items| then (fs, [], true)
    else
      var item := l.items[j];
      if item.Str? then
        var path := Join(full, item.s);
        var done := if dry then Some(fs) else AfterOpen(fs, path, refuses);
        if done.None? then (fs, [], false)
        else
          var (fs2, l2, ok) := RunItems(done.value, l, j + 1, full, dry, refuses);
          (fs2, [Created(FileKind, path, dry)] + l2, ok)
      else if item.Dict? then
        var (fs1, l1) := RunEntries(fs, item, 0, full, dry, refuses);
        var (fs2, l2, ok) := RunItems(fs1, l, j + 1, full, dry, refuses);
        (fs2, l1 + l2, ok)
      else RunItems(fs, l, j + 1, full, dry, refuses)
  }

  lemma EntriesStep(fs: FsState, d: Value, i: nat, cur: string, dry: bool, refuses: set<string>)
    requires d.Dict? && i < |d.entries|
    ensures var (fs1, l1) := RunKey(fs, Join(cur, d.entries[i].0), d.entries[i].1, dry, refuses);
      var rest := RunEntries(fs1, d, i + 1, cur, dry, refuses);
      RunEntries(fs, d, i, cur, dry, refuses) == (rest.0, l1 + rest.1)
  {
  }

  /** `create_structure`: a structure that is not a mapping does nothing. */
  function Run(fs: FsState, structure: Value, base: string, dry: bool, refuses: set<string>): (FsState, seq<LogEntry>)
  {
    if structure.Dict? then RunEntries(fs, structure, 0, base, dry, refuses) else (fs, [])
  }

  // ---------------------------------------------------------------------
  // The run on a file system object

  class FileSystem {
    var dirs: set<string>
    var files: set<string>
    /** The paths whose operations the system refuses. */
    const refuses: set<string>

    constructor (dirs0: set<string>, files0: set<string>, refuses0: set<string>)
      ensures dirs == dirs0 && files == files0 && refuses == refuses0
    {
      dirs, files, refuses := dirs0, files0, refuses0;
    }

    function State(): FsState
      reads this
    {
      FsState(dirs, files)
    }

    method MakeDirs(p: string) returns (ok: bool)
      modifies this
      ensures ok == AfterMakeDirs(old(State()), p, refuses).Some?
      ensures State() == if ok then AfterMakeDirs(old(State()), p, refuses).value else old(State())
    {
      if p == [] || p in refuses || Chain(p) * files != {} {
        return false;
      }
      dirs := dirs + Chain(p);
      return true;
    }

    method OpenWrite(p: string) returns (ok: bool)
      modifies this
      ensures ok == AfterOpen(old(State()), p, refuses).Some?
      ensures State() == if ok then AfterOpen(old(State()), p, refuses).value else old(State())
    {
      var parent := Dirname(p);
      if p == [] || p[|p| - 1] == '/' || p in refuses || p in dirs || (parent != [] && parent !in dirs) {
        return false;
      }
      files := files + {p};
      return true;
    }
  }

  method CreateStructure(fs: FileSystem, structure: Value, base: string, dryRun: bool) returns (logs: seq<LogEntry>)
    modifies fs
    ensures (fs.State(), logs) == Run(old(fs.State()), structure, base, dryRun, fs.refuses)
    ensures !structure.Dict? ==> logs == [] && fs.State() == old(fs.State())
  {
    logs := [];
    if structure.Dict? {
      logs := CreateEntries(fs, structure, base, dryRun);
    }
  }

  /** The loop over a mapping's entries. */
  method CreateEntries(fs: FileSystem, d: Value, cur: string, dryRun: bool) returns (logs: seq<LogEntry>)
    requires d.Dict?
    modifies fs
    ensures (fs.State(), logs) == RunEntries(old(fs.State()), d, 0, cur, dryRun, fs.refuses)
    decreases d, 2
  {
    ghost var total := RunEntries(fs.State(), d, 0, cur, dryRun, fs.refuses);
    logs := [];
    ThenNil(total);
    var i := 0;
    while i < |d.entries|
      invariant i <= |d.entries|
      invariant total == Then(logs, RunEntries(fs.State(), d, i, cur, dryRun, fs.refuses))
      decreases |d.entries| - i
    {
      var l := CreateEntry(fs, d, i, cur, dryRun);
      ThenAssoc(logs, l, RunEntries(fs.State(), d, i + 1, cur, dryRun, fs.refuses));
      logs := logs + l;
      i := i + 1;
    }
    ThenDone(logs, fs.State());
  }

  /** A run whose log is preceded by `logs`. */
  function Then(logs: seq<LogEntry>, r: (FsState, seq<LogEntry>)): (FsState, seq<LogEntry>)
  {
    (r.0, logs + r.1)
  }

  lemma ThenNil(r: (FsState, seq<LogEntry>))
    ensures Then([], r) == r
  {
    assert [] + r.1 == r.1;
  }

  lemma ThenDone(logs: seq<LogEntry>, fs: FsState)
    ensures Then(logs, (fs, [])) == (fs, logs)
  {
    assert logs + [] == logs;
  }

  lemma ThenAssoc(a: seq<LogEntry>, b: seq<LogEntry>, r: (FsState, seq<LogEntry>))
    ensures Then(a, Then(b, r)) == Then(a + b, r)
  {
    assert a + (b + r.1) == (a + b) + r.1;
  }

  /** Entry `i` of mapping `d`, at its joined path. */
  method CreateEntry(fs: FileSystem, d: Value, i: nat, cur: string, dryRun: bool) returns (l: seq<LogEntry>)
    requires d.Dict? && i < |d.entries|
    modifies fs
    ensures RunEntries(old(fs.State()), d, i, cur, dryRun, fs.refuses) == Then(l, RunEntries(fs.State(), d, i + 1, cur, dryRun, fs.refuses))
    decreases d, 1
  {
    ghost var before := fs.State();
    l := CreateKey(fs, Join(cur, d.entries[i].0), d.entries[i].1, dryRun);
    EntriesStep(before, d, i, cur, dryRun, fs.refuses);
  }

  /** The body of the loop for one entry, with its `try`. */
  method CreateKey(fs: FileSystem, full: string, v: Value, dryRun: bool) returns (logs: seq<LogEntry>)
    modifies fs
    ensures (fs.State(), logs) == RunKey(old(fs.State()), full, v, dryRun, fs.refuses)
    decreases v, 3
  {
    if IsFile(v) {
      if !dryRun {
        var parent := Dirname(full);
        if parent != [] && !(parent in fs.dirs || parent in fs.files) {
          var ok := fs.MakeDirs(parent);
          if !ok {
            return [Failed(full)];
          }
        }
        var ok := fs.OpenWrite(full);
        if !ok {
          return [Failed(full)];
        }
      }
      logs := [Created(FileKind, full, dryRun)];
    } else if v.Dict? || v.List? {
      if !dryRun {
        var ok := fs.MakeDirs(full);
        if !ok {
          return [Failed(full)];
        }
      }
      ghost var made := fs.State();
      logs := [Created(FolderKind, full, dryRun)];
      if v.Dict? {
        var l := CreateEntries(fs, v, full, dryRun);
        assert (fs.State(), l) == RunEntries(made, v, 0, full, dryRun, fs.refuses);
        logs := logs + l;
      } else {
        var l, ok := CreateItems(fs, v, full, dryRun);
        assert (fs.State(), l, ok) == RunItems(made, v, 0, full, dryRun, fs.refuses);
        logs := logs + l;
        if !ok {
          logs := logs + [Failed(full)];
        } else {
          assert logs + [] == logs;
        }
      }
    } else {
      logs := [];
    }
  }

  /** The loop over a list's items; it stops at the first file that cannot
      be opened. */
  method CreateItems(fs: FileSystem, l: Value, full: string, dryRun: bool) returns (logs: seq<LogEntry>, ok: bool)
    requires l.List?
    modifies fs
    ensures (fs.State(), logs, ok) == RunItems(old(fs.State()), l, 0, full, dryRun, fs.refuses)
    decreases l, 2
  {
    ghost var s0 := fs.State();
    logs := [];
    assert logs + RunItems(s0, l, 0, full, dryRun, fs.refuses).1 == RunItems(s0, l, 0, full, dryRun, fs.refuses).1;
    var j := 0;
    while j < |l.items|
      invariant j <= |l.items|
      invariant var r := RunItems(fs.State(), l, j, full, dryRun, fs.refuses);
        RunItems(s0, l, 0, full, dryRun, fs.refuses) == (r.0, logs + r.1, r.2)
      decreases |l.items| - j
    {
      ghost var before := fs.State();
      var item := l.items[j];
      if item.Str? {
        var path := Join(full, item.s);
        if !dryRun {
          var done := fs.OpenWrite(path);
          if !done {
            assert logs + [] == logs;
            return logs, false;
          }
        }
        ghost var rest := RunItems(fs.State(), l, j + 1, full, dryRun, fs.refuses);
        assert RunItems(before, l, j, full, dryRun, fs.refuses) == (rest.0, [Created(FileKind, path, dryRun)] + rest.1, rest.2);
        assert logs + ([Created(FileKind, path, dryRun)] + rest.1) == (logs + [Created(FileKind, path, dryRun)]) + rest.1;
        logs := logs + [Created(FileKind, path, dryRun)];
      } else if item.Dict? {
        var l1 := CreateEntries(fs, item, full, dryRun);
        ghost var rest := RunItems(fs.State(), l, j + 1, full, dryRun, fs.refuses);
        assert RunItems(before, l, j, full, dryRun, fs.refuses) == (rest.0, l1 + rest.1, rest.2);
        assert logs + (l1 + rest.1) == (logs + l1) + rest.1;
        logs := logs + l1;
      }
      j := j + 1;
    }
    assert logs + [] == logs;
    ok := true;
  }
}
