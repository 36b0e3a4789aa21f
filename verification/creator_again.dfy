/** Running the creator again: `makedirs` with `exist_ok=True` accepts a
    directory that is already there and `open(p, 'w')` truncates a file
    that is already there, so a real run that logged no error, repeated on
    the state it left, succeeds again, changes nothing and logs the same
    lines. */
module CreatorAgain {
  import opened Tree
  import opened Creator
  import opened CreatorLaws

  /** The paths that are both a directory and a file. A real file system
      has none; the model's state allows them, and a run never adds one. */
  function Overlap(fs: FsState): set<string>
  {
    fs.dirs * fs.files
  }

  // ---------------------------------------------------------------------
  // One operation again

  /** `makedirs(p, exist_ok=True)` on a state that already holds what an
      earlier successful call made succeeds and changes nothing. */
  lemma MakeDirsAgain(fs: FsState, p: string, later: FsState, refuses: set<string>)
    requires AfterMakeDirs(fs, p, refuses).Some?
    requires Grows(AfterMakeDirs(fs, p, refuses).value, later) && Overlap(later) <= Overlap(fs)
    ensures AfterMakeDirs(later, p, refuses) == Some(later)
  {
    assert Chain(p) <= later.dirs;
    forall y | y in Chain(p)
      ensures y !in later.files
    {
      assert y !in fs.files by {
        assert y !in Chain(p) * fs.files;
      }
      assert y !in Overlap(later);
      assert y in later.dirs;
    }
    assert Chain(p) * later.files == {};
    assert later.dirs + Chain(p) == later.dirs;
  }

  /** `open(p, 'w')` on a state that already holds the file an earlier
      successful call made succeeds and changes nothing. */
  lemma OpenAgain(fs: FsState, p: string, later: FsState, refuses: set<string>)
    requires AfterOpen(fs, p, refuses).Some?
    requires Grows(AfterOpen(fs, p, refuses).value, later) && Overlap(later) <= Overlap(fs)
    ensures AfterOpen(later, p, refuses) == Some(later)
  {
    assert p in later.files;
    assert p !in Overlap(fs);
    assert later.files + {p} == later.files;
  }

  /** A file whose parent was prepared and which was then opened: on a
      state that holds the result, the parent is there already. */
  lemma PreparedAgain(fs: FsState, p: string, later: FsState, refuses: set<string>)
    requires Prepared(fs, p, refuses).Some?
    requires AfterOpen(Prepared(fs, p, refuses).value, p, refuses).Some?
    requires Grows(AfterOpen(Prepared(fs, p, refuses).value, p, refuses).value, later)
    ensures Prepared(later, p, refuses) == Some(later)
  {
  }

  // ---------------------------------------------------------------------
  // A real run makes no path both a directory and a file

  lemma MakeDirsApart(fs: FsState, p: string, refuses: set<string>)
    requires AfterMakeDirs(fs, p, refuses).Some?
    ensures Overlap(AfterMakeDirs(fs, p, refuses).value) <= Overlap(fs)
  {
    forall x | x in Overlap(AfterMakeDirs(fs, p, refuses).value)
      ensures x in Overlap(fs)
    {
      assert x !in Chain(p) * fs.files;
    }
  }

  lemma OpenApart(fs: FsState, p: string, refuses: set<string>)
    requires AfterOpen(fs, p, refuses).Some?
    ensures Overlap(AfterOpen(fs, p, refuses).value) <= Overlap(fs)
  {
  }

  lemma {:induction false} ApartEntries(fs: FsState, d: Value, i: nat, cur: string, refuses: set<string>)
    requires d.Dict? && i <= |d.entries|
    ensures Overlap(RunEntries(fs, d, i, cur, false, refuses).0) <= Overlap(fs)
    decreases d, 0, |d.entries| - i
  {
    if i < |d.entries| {
      var k := RunKey(fs, Join(cur, d.entries[i].0), d.entries[i].1, false, refuses);
      ApartKey(fs, Join(cur, d.entries[i].0), d.entries[i].1, refuses);
      ApartEntries(k.0, d, i + 1, cur, refuses);
    }
  }

  lemma {:induction false} ApartKey(fs: FsState, full: string, v: Value, refuses: set<string>)
    ensures Overlap(RunKey(fs, full, v, false, refuses).0) <= Overlap(fs)
    decreases v, 1, 0
  {
    if IsFile(v) {
      var ready := Prepared(fs, full, refuses);
      if ready.Some? {
        if ready.value != fs {
          MakeDirsApart(fs, Dirname(full), refuses);
        }
        if AfterOpen(ready.value, full, refuses).Some? {
          OpenApart(ready.value, full, refuses);
        }
      }
    } else if (v.Dict? || v.List?) && AfterMakeDirs(fs, full, refuses).Some? {
      var made := AfterMakeDirs(fs, full, refuses).value;
      MakeDirsApart(fs, full, refuses);
      if v.Dict? {
        ApartEntries(made, v, 0, full, refuses);
      } else {
        ApartItems(made, v, 0, full, refuses);
      }
    }
  }

  lemma {:induction false} ApartItems(fs: FsState, l: Value, j: nat, full: string, refuses: set<string>)
    requires l.List? && j <= |l.items|
    ensures Overlap(RunItems(fs, l, j, full, false, refuses).0) <= Overlap(fs)
    decreases l, 0, |l.items| - j
  {
    if j < |l.items| {
      var item := l.items[j];
      if item.Str? {
        var path := Join(full, item.s);
        if AfterOpen(fs, path, refuses).Some? {
          OpenApart(fs, path, refuses);
          ApartItems(AfterOpen(fs, path, refuses).value, l, j + 1, full, refuses);
        }
      } else if item.Dict? {
        ApartEntries(fs, item, 0, full, refuses);
        ApartItems(RunEntries(fs, item, 0, full, false, refuses).0, l, j + 1, full, refuses);
      } else {
        ApartItems(fs, l, j + 1, full, refuses);
      }
    }
  }

  // ---------------------------------------------------------------------
  // The whole run again

  /** The entries of a mapping, run without error, run again on any state
      that holds what they made: nothing changes and the log is the same. */
  lemma {:induction false} AgainEntries(fs: FsState, d: Value, i: nat, cur: string, later: FsState, refuses: set<string>)
    requires d.Dict? && i <= |d.entries|
    requires var r := RunEntries(fs, d, i, cur, false, refuses);
      NoFailure(r.1) && Grows(r.0, later) && Overlap(later) <= Overlap(fs)
    ensures RunEntries(later, d, i, cur, false, refuses) == (later, RunEntries(fs, d, i, cur, false, refuses).1)
    decreases d, 0, |d.entries| - i
  {
    if i < |d.entries| {
      var full := Join(cur, d.entries[i].0);
      var k := RunKey(fs, full, d.entries[i].1, false, refuses);
      var rest := RunEntries(k.0, d, i + 1, cur, false, refuses);
      EntriesStep(fs, d, i, cur, false, refuses);
      NoFailureSplit(k.1, rest.1);
      RealEntries(k.0, d, i + 1, cur, refuses);
      RealKey(fs, full, d.entries[i].1, refuses);
      assert Overlap(fs) <= Overlap(k.0);
      AgainKey(fs, full, d.entries[i].1, later, refuses);
      AgainEntries(k.0, d, i + 1, cur, later, refuses);
      EntriesStep(later, d, i, cur, false, refuses);
    }
  }

  lemma {:induction false} AgainKey(fs: FsState, full: string, v: Value, later: FsState, refuses: set<string>)
    requires var r := RunKey(fs, full, v, false, refuses);
      NoFailure(r.1) && Grows(r.0, later) && Overlap(later) <= Overlap(fs)
    ensures RunKey(later, full, v, false, refuses) == (later, RunKey(fs, full, v, false, refuses).1)
    decreases v, 1, 0
  {
    var r := RunKey(fs, full, v, false, refuses);
    if IsFile(v) {
      var ready := Prepared(fs, full, refuses);
      assert r.1[0].Created?;
      PreparedAgain(fs, full, later, refuses);
      OpenAgain(ready.value, full, later, refuses);
    } else if v.Dict? || v.List? {
      assert r.1[0].Created?;
      var made := AfterMakeDirs(fs, full, refuses).value;
      var here := [Created(FolderKind, full, false)];
      if v.Dict? {
        var e := RunEntries(made, v, 0, full, false, refuses);
        assert r == (e.0, here + e.1);
        NoFailureSplit(here, e.1);
        RealEntries(made, v, 0, full, refuses);
        MakeDirsAgain(fs, full, later, refuses);
        AgainEntries(made, v, 0, full, later, refuses);
      } else {
        var e := RunItems(made, v, 0, full, false, refuses);
        assert r.1 == here + e.1 + (if e.2 then [] else [Failed(full)]);
        assert r.1[|r.1| - 1].Created?;
        assert e.2;
        assert here + e.1 + [] == here + e.1;
        assert r == (e.0, here + e.1);
        NoFailureSplit(here, e.1);
        RealItems(made, v, 0, full, refuses);
        MakeDirsAgain(fs, full, later, refuses);
        AgainItems(made, v, 0, full, later, refuses);
      }
    }
  }

  lemma {:induction false} AgainItems(fs: FsState, l: Value, j: nat, full: string, later: FsState, refuses: set<string>)
    requires l.List? && j <= |l.items|
    requires var r := RunItems(fs, l, j, full, false, refuses);
      NoFailure(r.1) && r.2 && Grows(r.0, later) && Overlap(later) <= Overlap(fs)
    ensures RunItems(later, l, j, full, false, refuses) == (later, RunItems(fs, l, j, full, false, refuses).1, true)
    decreases l, 0, |l.items| - j
  {
    if j < |l.items| {
      var item := l.items[j];
      if item.Str? {
        var path := Join(full, item.s);
        var fs1 := AfterOpen(fs, path, refuses).value;
        var rest := RunItems(fs1, l, j + 1, full, false, refuses);
        NoFailureSplit([Created(FileKind, path, false)], rest.1);
        RealItems(fs1, l, j + 1, full, refuses);
        assert Overlap(fs) <= Overlap(fs1);
        OpenAgain(fs, path, later, refuses);
        AgainItems(fs1, l, j + 1, full, later, refuses);
      } else if item.Dict? {
        var e := RunEntries(fs, item, 0, full, false, refuses);
        var rest := RunItems(e.0, l, j + 1, full, false, refuses);
        NoFailureSplit(e.1, rest.1);
        RealItems(e.0, l, j + 1, full, refuses);
        RealEntries(fs, item, 0, full, refuses);
        assert Overlap(fs) <= Overlap(e.0);
        AgainEntries(fs, item, 0, full, later, refuses);
        AgainItems(e.0, l, j + 1, full, later, refuses);
      } else {
        AgainItems(fs, l, j + 1, full, later, refuses);
      }
    }
  }

  /** A real run that logged no error, repeated on the state it left,
      logs the same lines and leaves that state as it was: every folder is
      accepted as already there and every file is opened again. */
  lemma RunAgain(fs: FsState, structure: Value, base: string, refuses: set<string>)
    ensures var r := Run(fs, structure, base, false, refuses);
      NoFailure(r.1) ==> Run(r.0, structure, base, false, refuses) == r
  {
    var r := Run(fs, structure, base, false, refuses);
    if structure.Dict? && NoFailure(r.1) {
      ApartEntries(fs, structure, 0, base, refuses);
      AgainEntries(fs, structure, 0, base, r.0, refuses);
    }
  }
}
