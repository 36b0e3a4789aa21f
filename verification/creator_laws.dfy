/** What the creator promises about its runs: a dry run touches nothing and
    previews every visited entry in walk order, a real run logs only what it
    made, and when nothing fails the log is the preview without its marker. */
module CreatorLaws {
  import opened Tree
  import opened Creator
  import AsciiParser

  const Empty: FsState := FsState({}, {})

  /** The dry-run log of a structure. */
  function Preview(structure: Value, base: string): seq<LogEntry>
  {
    Run(Empty, structure, base, true, {}).1
  }

  predicate DryOnly(log: seq<LogEntry>)
  {
    forall m :: 0 <= m < |log| ==> log[m].Created? && log[m].dryRun
  }

  // ---------------------------------------------------------------------
  // A dry run

  lemma DryOnlyAppend(a: seq<LogEntry>, b: seq<LogEntry>)
    requires DryOnly(a) && DryOnly(b)
    ensures DryOnly(a + b)
  {
    assert forall m :: 0 <= m < |a + b| ==> (a + b)[m] == if m < |a| then a[m] else b[m - |a|];
  }

  lemma {:induction false} DryEntries(fs: FsState, d: Value, i: nat, cur: string, refuses: set<string>)
    requires d.Dict? && i <= |d.entries|
    ensures RunEntries(fs, d, i, cur, true, refuses) == (fs, RunEntries(Empty, d, i, cur, true, {}).1)
    ensures DryOnly(RunEntries(Empty, d, i, cur, true, {}).1)
    decreases d, 0, |d.entries| - i
  {
    if i < |d.entries| {
      var full := Join(cur, d.entries[i].0);
      EntriesStep(fs, d, i, cur, true, refuses);
      EntriesStep(Empty, d, i, cur, true, {});
      DryKey(fs, full, d.entries[i].1, refuses);
      DryKey(Empty, full, d.entries[i].1, {});
      DryEntries(fs, d, i + 1, cur, refuses);
      DryEntries(Empty, d, i + 1, cur, {});
      DryOnlyAppend(RunKey(Empty, full, d.entries[i].1, true, {}).1, RunEntries(Empty, d, i + 1, cur, true, {}).1);
    }
  }

  lemma {:induction false} DryKey(fs: FsState, full: string, v: Value, refuses: set<string>)
    ensures RunKey(fs, full, v, true, refuses) == (fs, RunKey(Empty, full, v, true, {}).1)
    ensures DryOnly(RunKey(Empty, full, v, true, {}).1)
    decreases v, 1, 0
  {
    var here := [Created(FolderKind, full, true)];
    if v.Dict? {
      DryEntries(fs, v, 0, full, refuses);
      DryEntries(Empty, v, 0, full, {});
      DryOnlyAppend(here, RunEntries(Empty, v, 0, full, true, {}).1);
    } else if v.List? {
      DryItems(fs, v, 0, full, refuses);
      DryItems(Empty, v, 0, full, {});
      DryOnlyAppend(here, RunItems(Empty, v, 0, full, true, {}).1);
      assert here + RunItems(Empty, v, 0, full, true, {}).1 + [] == here + RunItems(Empty, v, 0, full, true, {}).1;
    }
  }

  lemma {:induction false} DryItems(fs: FsState, l: Value, j: nat, full: string, refuses: set<string>)
    requires l.List? && j <= |l.items|
    ensures RunItems(fs, l, j, full, true, refuses) == (fs, RunItems(Empty, l, j, full, true, {}).1, true)
    ensures DryOnly(RunItems(Empty, l, j, full, true, {}).1)
    decreases l, 0, |l.items| - j
  {
    if j < |l.items| {
      var item := l.items[j];
      DryItems(fs, l, j + 1, full, refuses);
      DryItems(Empty, l, j + 1, full, {});
      var rest := RunItems(Empty, l, j + 1, full, true, {}).1;
      if item.Dict? {
        DryEntries(fs, item, 0, full, refuses);
        DryEntries(Empty, item, 0, full, {});
        DryOnlyAppend(RunEntries(Empty, item, 0, full, true, {}).1, rest);
      } else if item.Str? {
        DryOnlyAppend([Created(FileKind, Join(full, item.s), true)], rest);
      }
    }
  }

  /** A dry run changes nothing, whatever the file system holds and refuses,
      and logs only marked creations: the preview. */
  lemma DryRunTouchesNothing(fs: FsState, structure: Value, base: string, refuses: set<string>)
    ensures Run(fs, structure, base, true, refuses) == (fs, Preview(structure, base))
    ensures DryOnly(Preview(structure, base))
  {
    if structure.Dict? {
      DryEntries(fs, structure, 0, base, refuses);
    }
  }

  // ---------------------------------------------------------------------
  // The preview lists the structure in pre-order

  /** The path of the names `p` joined one by one onto `base`. */
  function JoinAll(base: string, p: seq<string>): string
  {
    if p == [] then base else Join(JoinAll(base, p[..|p| - 1]), p[|p| - 1])
  }

  /** The preview line of each listed (path, value). */
  function Marks(ps: seq<(seq<string>, Value)>, base: string): seq<LogEntry>
  {
    if ps == [] then []
    else [Created(if ps[0].1.Dict? then FolderKind else FileKind, JoinAll(base, ps[0].0), true)] + Marks(ps[1..], base)
  }

  lemma {:induction false} MarksAppend(a: seq<(seq<string>, Value)>, b: seq<(seq<string>, Value)>, base: string)
    ensures Marks(a + b, base) == Marks(a, base) + Marks(b, base)
  {
    if a == [] {
      assert a + b == b;
    } else {
      assert (a + b)[1..] == a[1..] + b;
      MarksAppend(a[1..], b, base);
    }
  }

  lemma {:induction false} PreviewFrom(d: Value, i: nat, base: string, prefix: seq<string>)
    requires d.Dict? && i <= |d.entries| && Plain(d)
    ensures RunEntries(Empty, d, i, JoinAll(base, prefix), true, {}).1 == Marks(PreorderFrom(d, i, prefix), base)
    decreases d, 0, |d.entries| - i
  {
    if i < |d.entries| {
      var k := d.entries[i].0;
      var v := d.entries[i].1;
      var cur := JoinAll(base, prefix);
      var here := prefix + [k];
      var below := if v.Dict? then PreorderFrom(v, 0, here) else [];
      var rest := PreorderFrom(d, i + 1, prefix);
      assert PreorderFrom(d, i, prefix) == [(here, v)] + below + rest;
      assert here[..|here| - 1] == prefix;
      assert JoinAll(base, here) == Join(cur, k);
      EntriesStep(Empty, d, i, cur, true, {});
      DryKey(Empty, Join(cur, k), v, {});
      PreviewKey(v, base, here);
      PreviewFrom(d, i + 1, base, prefix);
      MarksAppend([(here, v)] + below, rest, base);
    }
  }

  lemma {:induction false} PreviewKey(v: Value, base: string, here: seq<string>)
    requires Plain(v)
    ensures RunKey(Empty, JoinAll(base, here), v, true, {}).1
      == Marks([(here, v)] + (if v.Dict? then PreorderFrom(v, 0, here) else []), base)
    decreases v, 1, 0
  {
    var below := if v.Dict? then PreorderFrom(v, 0, here) else [];
    assert Marks([(here, v)], base) == [Created(if v.Dict? then FolderKind else FileKind, JoinAll(base, here), true)];
    if v.Dict? {
      DryEntries(Empty, v, 0, JoinAll(base, here), {});
      PreviewFrom(v, 0, base, here);
      MarksAppend([(here, v)], below, base);
    } else {
      assert [(here, v)] + below == [(here, v)];
    }
  }

  /** The entries the creator visits, in order, as paths of names below
      the base with the kind of each: a file (`Null` or the empty string),
      or a folder (a mapping or a list) followed by its contents. The
      string items of a list are files inside it, its mapping items are
      walked inside it, and anything else is passed over. */
  function Listing(d: Value, i: nat, prefix: seq<string>): seq<(seq<string>, Kind)>
    requires d.Dict? && i <= |d.entries|
    decreases d, 0, |d.entries| - i
  {
    if i == |d.entries| then []
    else KeyListing(d.entries[i].1, prefix + [d.entries[i].0]) + Listing(d, i + 1, prefix)
  }

  function KeyListing(v: Value, here: seq<string>): seq<(seq<string>, Kind)>
    decreases v, 1, 0
  {
    if IsFile(v) then [(here, FileKind)]
    else if v.Dict? then [(here, FolderKind)] + Listing(v, 0, here)
    else if v.List? then [(here, FolderKind)] + ItemsListing(v, 0, here)
    else []
  }

  function ItemsListing(l: Value, j: nat, here: seq<string>): seq<(seq<string>, Kind)>
    requires l.List? && j <= |l.items|
    decreases l, 0, |l.items| - j
  {
    if j == |l.items| then []
    else
      var item := l.items[j];
      (if item.Str? then [(here + [item.s], FileKind)]
       else if item.Dict? then Listing(item, 0, here)
       else [])
      + ItemsListing(l, j + 1, here)
  }

  /** The dry-run line of each listed path and kind. */
  function Announce(ps: seq<(seq<string>, Kind)>, base: string): seq<LogEntry>
  {
    if ps == [] then []
    else [Created(ps[0].1, JoinAll(base, ps[0].0), true)] + Announce(ps[1..], base)
  }

  lemma {:induction false} AnnounceAppend(a: seq<(seq<string>, Kind)>, b: seq<(seq<string>, Kind)>, base: string)
    ensures Announce(a + b, base) == Announce(a, base) + Announce(b, base)
  {
    if a == [] {
      assert a + b == b;
    } else {
      assert (a + b)[1..] == a[1..] + b;
      AnnounceAppend(a[1..], b, base);
    }
  }

  lemma {:induction false} ListingFrom(d: Value, i: nat, base: string, prefix: seq<string>)
    requires d.Dict? && i <= |d.entries|
    ensures RunEntries(Empty, d, i, JoinAll(base, prefix), true, {}).1 == Announce(Listing(d, i, prefix), base)
    decreases d, 0, |d.entries| - i
  {
    if i < |d.entries| {
      var k := d.entries[i].0;
      var v := d.entries[i].1;
      var cur := JoinAll(base, prefix);
      var here := prefix + [k];
      assert here[..|here| - 1] == prefix;
      assert JoinAll(base, here) == Join(cur, k);
      EntriesStep(Empty, d, i, cur, true, {});
      DryKey(Empty, Join(cur, k), v, {});
      ListingKey(v, base, here);
      ListingFrom(d, i + 1, base, prefix);
      AnnounceAppend(KeyListing(v, here), Listing(d, i + 1, prefix), base);
    }
  }

  lemma {:induction false} ListingKey(v: Value, base: string, here: seq<string>)
    ensures RunKey(Empty, JoinAll(base, here), v, true, {}).1 == Announce(KeyListing(v, here), base)
    decreases v, 1, 0
  {
    var full := JoinAll(base, here);
    var top := [(here, FolderKind)];
    assert Announce(top, base) == [Created(FolderKind, full, true)];
    if v.Dict? && !IsFile(v) {
      DryEntries(Empty, v, 0, full, {});
      ListingFrom(v, 0, base, here);
      AnnounceAppend(top, Listing(v, 0, here), base);
    } else if v.List? {
      DryItems(Empty, v, 0, full, {});
      ListingItems(v, 0, base, here);
      AnnounceAppend(top, ItemsListing(v, 0, here), base);
    }
  }

  lemma {:induction false} ListingItems(l: Value, j: nat, base: string, here: seq<string>)
    requires l.List? && j <= |l.items|
    ensures RunItems(Empty, l, j, JoinAll(base, here), true, {}).1 == Announce(ItemsListing(l, j, here), base)
    decreases l, 0, |l.items| - j
  {
    if j < |l.items| {
      var item := l.items[j];
      var full := JoinAll(base, here);
      var rest := ItemsListing(l, j + 1, here);
      ListingItems(l, j + 1, base, here);
      if item.Str? {
        var p := here + [item.s];
        assert p[..|p| - 1] == here;
        assert JoinAll(base, p) == Join(full, item.s);
        AnnounceAppend([(p, FileKind)], rest, base);
      } else if item.Dict? {
        DryEntries(Empty, item, 0, full, {});
        assert RunEntries(Empty, item, 0, full, true, {}).0 == Empty;
        assert RunItems(Empty, l, j, full, true, {}).1
          == RunEntries(Empty, item, 0, full, true, {}).1 + RunItems(Empty, l, j + 1, full, true, {}).1;
        ListingFrom(item, 0, base, here);
        assert ItemsListing(l, j, here) == Listing(item, 0, here) + rest;
        AnnounceAppend(Listing(item, 0, here), rest, base);
      } else {
        assert ItemsListing(l, j, here) == rest;
      }
    }
  }

  /** The preview is the listing of the structure: one marked line per
      visited entry, in walk order, with its kind and full path. */
  lemma PreviewIsListing(structure: Value, base: string)
    ensures Preview(structure, base) == Announce(if structure.Dict? then Listing(structure, 0, []) else [], base)
  {
    if structure.Dict? {
      ListingFrom(structure, 0, base, []);
    }
  }

  /** A value that is neither a file, a mapping nor a list is passed over:
      nothing is made and nothing is logged. */
  lemma Skipped(fs: FsState, full: string, v: Value, dry: bool, refuses: set<string>)
    requires !IsFile(v) && !v.Dict? && !v.List?
    ensures RunKey(fs, full, v, dry, refuses) == (fs, [])
  {
  }

  /** For a structure of folders and files only, the preview has one line
      per entry, in pre-order, saying whether it is a folder or a file and
      giving its full path. */
  lemma PreviewIsPreorder(structure: Value, base: string)
    requires Plain(structure)
    ensures Preview(structure, base) == Marks(Preorder(structure), base)
  {
    if structure.Dict? {
      PreviewFrom(structure, 0, base, []);
    }
  }

  /** The preview of a parsed tree lists every parsed entry in pre-order. */
  lemma ParsedPreview(text: string, base: string)
    ensures Preview(AsciiParser.ParseSpec(text), base) == Marks(Preorder(AsciiParser.ParseSpec(text)), base)
  {
    PreviewIsPreorder(AsciiParser.ParseSpec(text), base);
  }

  // ---------------------------------------------------------------------
  // A real run logs only what it made

  predicate Grows(a: FsState, b: FsState)
  {
    a.dirs <= b.dirs && a.files <= b.files
  }

  /** Every creation the log reports is real and present in `fs`. */
  predicate Truthful(log: seq<LogEntry>, fs: FsState)
  {
    forall m :: 0 <= m < |log| && log[m].Created? ==>
      !log[m].dryRun
      && (log[m].kind == FolderKind ==> log[m].path in fs.dirs)
      && (log[m].kind == FileKind ==> log[m].path in fs.files)
  }

  lemma TruthfulLater(a: seq<LogEntry>, b: seq<LogEntry>, fs: FsState, fs': FsState)
    requires Truthful(a, fs) && Truthful(b, fs') && Grows(fs, fs')
    ensures Truthful(a + b, fs')
  {
    forall m | 0 <= m < |a + b| && (a + b)[m].Created?
      ensures !(a + b)[m].dryRun
        && ((a + b)[m].kind == FolderKind ==> (a + b)[m].path in fs'.dirs)
        && ((a + b)[m].kind == FileKind ==> (a + b)[m].path in fs'.files)
    {
      if m < |a| {
        assert (a + b)[m] == a[m];
      } else {
        assert (a + b)[m] == b[m - |a|];
      }
    }
  }

  lemma {:induction false} RealEntries(fs: FsState, d: Value, i: nat, cur: string, refuses: set<string>)
    requires d.Dict? && i <= |d.entries|
    ensures var r := RunEntries(fs, d, i, cur, false, refuses);
      Grows(fs, r.0) && Truthful(r.1, r.0)
    decreases d, 0, |d.entries| - i
  {
    if i < |d.entries| {
      var (fs1, l1) := RunKey(fs, Join(cur, d.entries[i].0), d.entries[i].1, false, refuses);
      RealKey(fs, Join(cur, d.entries[i].0), d.entries[i].1, refuses);
      RealEntries(fs1, d, i + 1, cur, refuses);
      var rest := RunEntries(fs1, d, i + 1, cur, false, refuses);
      TruthfulLater(l1, rest.1, fs1, rest.0);
    }
  }

  lemma {:induction false} RealKey(fs: FsState, full: string, v: Value, refuses: set<string>)
    ensures var r := RunKey(fs, full, v, false, refuses);
      Grows(fs, r.0) && Truthful(r.1, r.0)
    decreases v, 1, 0
  {
    if (v.Dict? || v.List?) && AfterMakeDirs(fs, full, refuses).Some? {
      var made := AfterMakeDirs(fs, full, refuses).value;
      var here := [Created(FolderKind, full, false)];
      assert Truthful(here, made);
      if v.Dict? {
        RealEntries(made, v, 0, full, refuses);
        var r := RunEntries(made, v, 0, full, false, refuses);
        TruthfulLater(here, r.1, made, r.0);
      } else {
        RealItems(made, v, 0, full, refuses);
        var r := RunItems(made, v, 0, full, false, refuses);
        TruthfulLater(here, r.1, made, r.0);
        var tail: seq<LogEntry> := if r.2 then [] else [Failed(full)];
        TruthfulLater(here + r.1, tail, r.0, r.0);
      }
    }
  }

  lemma {:induction false} RealItems(fs: FsState, l: Value, j: nat, full: string, refuses: set<string>)
    requires l.List? && j <= |l.items|
    ensures var r := RunItems(fs, l, j, full, false, refuses);
      Grows(fs, r.0) && Truthful(r.1, r.0)
    decreases l, 0, |l.items| - j
  {
    if j < |l.items| {
      var item := l.items[j];
      if item.Str? {
        var path := Join(full, item.s);
        if AfterOpen(fs, path, refuses).Some? {
          var fs1 := AfterOpen(fs, path, refuses).value;
          RealItems(fs1, l, j + 1, full, refuses);
          var r := RunItems(fs1, l, j + 1, full, false, refuses);
          TruthfulLater([Created(FileKind, path, false)], r.1, fs1, r.0);
        }
      } else if item.Dict? {
        RealEntries(fs, item, 0, full, refuses);
        var r1 := RunEntries(fs, item, 0, full, false, refuses);
        RealItems(r1.0, l, j + 1, full, refuses);
        var r := RunItems(r1.0, l, j + 1, full, false, refuses);
        TruthfulLater(r1.1, r.1, r1.0, r.0);
      } else {
        RealItems(fs, l, j + 1, full, refuses);
      }
    }
  }

  /** A real run only adds to the file system, and every creation it logs
      exists afterwards, as a directory or a file as logged. */
  lemma RealRunIsTruthful(fs: FsState, structure: Value, base: string, refuses: set<string>)
    ensures var r := Run(fs, structure, base, false, refuses);
      Grows(fs, r.0) && Truthful(r.1, r.0)
  {
    if structure.Dict? {
      RealEntries(fs, structure, 0, base, refuses);
    }
  }

  // ---------------------------------------------------------------------
  // When nothing fails, the actual log is the preview

  predicate NoFailure(log: seq<LogEntry>)
  {
    forall m :: 0 <= m < |log| ==> log[m].Created?
  }

  /** The log lines without the dry-run marker. */
  function Unmark(log: seq<LogEntry>): seq<LogEntry>
  {
    if log == [] then []
    else [if log[0].Created? then log[0].(dryRun := false) else log[0]] + Unmark(log[1..])
  }

  lemma {:induction false} UnmarkAppend(a: seq<LogEntry>, b: seq<LogEntry>)
    ensures Unmark(a + b) == Unmark(a) + Unmark(b)
  {
    if a == [] {
      assert a + b == b;
    } else {
      assert (a + b)[1..] == a[1..] + b;
      UnmarkAppend(a[1..], b);
    }
  }

  lemma UnmarkJoin(actual: seq<LogEntry>, a: seq<LogEntry>, b: seq<LogEntry>,
                   dry: seq<LogEntry>, da: seq<LogEntry>, db: seq<LogEntry>)
    requires actual == a + b && dry == da + db
    requires a == Unmark(da) && b == Unmark(db)
    ensures actual == Unmark(dry)
  {
    UnmarkAppend(da, db);
  }

  lemma NoFailureSplit(a: seq<LogEntry>, b: seq<LogEntry>)
    requires NoFailure(a + b)
    ensures NoFailure(a) && NoFailure(b)
  {
    assert forall m :: 0 <= m < |a| ==> a[m] == (a + b)[m];
    assert forall m :: 0 <= m < |b| ==> b[m] == (a + b)[|a| + m];
  }

  lemma {:induction false} FaithfulEntries(fs: FsState, d: Value, i: nat, cur: string, refuses: set<string>)
    requires d.Dict? && i <= |d.entries|
    ensures var actual := RunEntries(fs, d, i, cur, false, refuses).1;
      NoFailure(actual) ==> actual == Unmark(RunEntries(Empty, d, i, cur, true, {}).1)
    decreases d, 0, |d.entries| - i
  {
    var actual := RunEntries(fs, d, i, cur, false, refuses).1;
    if i < |d.entries| && NoFailure(actual) {
      var full := Join(cur, d.entries[i].0);
      var v := d.entries[i].1;
      var kr := RunKey(fs, full, v, false, refuses);
      FaithfulKey(fs, full, v, refuses);
      FaithfulEntries(kr.0, d, i + 1, cur, refuses);
      FaithfulStep(fs, d, i, cur, refuses);
    }
  }

  /** One entry of a mapping: the entry and its siblings each log their
      preview when nothing fails, so the two together do. */
  lemma FaithfulStep(fs: FsState, d: Value, i: nat, cur: string, refuses: set<string>)
    requires d.Dict? && i < |d.entries|
    requires var kr := RunKey(fs, Join(cur, d.entries[i].0), d.entries[i].1, false, refuses);
      NoFailure(kr.1) ==> kr.1 == Unmark(RunKey(Empty, Join(cur, d.entries[i].0), d.entries[i].1, true, {}).1)
    requires var kr := RunKey(fs, Join(cur, d.entries[i].0), d.entries[i].1, false, refuses);
      var rr := RunEntries(kr.0, d, i + 1, cur, false, refuses).1;
      NoFailure(rr) ==> rr == Unmark(RunEntries(Empty, d, i + 1, cur, true, {}).1)
    ensures var actual := RunEntries(fs, d, i, cur, false, refuses).1;
      NoFailure(actual) ==> actual == Unmark(RunEntries(Empty, d, i, cur, true, {}).1)
  {
    var full := Join(cur, d.entries[i].0);
    var v := d.entries[i].1;
    var kr := RunKey(fs, full, v, false, refuses);
    var rr := RunEntries(kr.0, d, i + 1, cur, false, refuses);
    EntriesStep(fs, d, i, cur, false, refuses);
    var kd := RunKey(Empty, full, v, true, {});
    var rd := RunEntries(Empty, d, i + 1, cur, true, {});
    DryKey(Empty, full, v, {});
    EntriesStep(Empty, d, i, cur, true, {});
    var actual := RunEntries(fs, d, i, cur, false, refuses).1;
    if NoFailure(actual) {
      NoFailureSplit(kr.1, rr.1);
      UnmarkJoin(actual, kr.1, rr.1, RunEntries(Empty, d, i, cur, true, {}).1, kd.1, rd.1);
    }
  }

  lemma {:induction false} FaithfulKey(fs: FsState, full: string, v: Value, refuses: set<string>)
    ensures var actual := RunKey(fs, full, v, false, refuses).1;
      NoFailure(actual) ==> actual == Unmark(RunKey(Empty, full, v, true, {}).1)
    decreases v, 1, 0
  {
    var actual := RunKey(fs, full, v, false, refuses).1;
    var here := [Created(FolderKind, full, true)];
    assert Unmark(here) == [Created(FolderKind, full, false)];
    if (v.Dict? || v.List?) && AfterMakeDirs(fs, full, refuses).Some? {
      var made := AfterMakeDirs(fs, full, refuses).value;
      if v.Dict? && NoFailure(actual) {
        DryEntries(Empty, v, 0, full, {});
        var l := RunEntries(made, v, 0, full, false, refuses).1;
        NoFailureSplit([Created(FolderKind, full, false)], l);
        FaithfulEntries(made, v, 0, full, refuses);
        UnmarkAppend(here, RunEntries(Empty, v, 0, full, true, {}).1);
      } else if v.List? {
        DryItems(Empty, v, 0, full, {});
        var (_, l, ok) := RunItems(made, v, 0, full, false, refuses);
        if !ok {
          assert actual[|actual| - 1] == Failed(full);
        } else if NoFailure(actual) {
          assert actual == [Created(FolderKind, full, false)] + l;
          var dl := RunItems(Empty, v, 0, full, true, {}).1;
          assert RunKey(Empty, full, v, true, {}).1 == here + dl + [];
          assert here + dl + [] == here + dl;
          NoFailureSplit([Created(FolderKind, full, false)], l);
          FaithfulItems(made, v, 0, full, refuses);
          UnmarkAppend(here, RunItems(Empty, v, 0, full, true, {}).1);
        }
      }
    } else if IsFile(v) {
      assert RunKey(Empty, full, v, true, {}).1 == [Created(FileKind, full, true)];
      assert Unmark([Created(FileKind, full, true)]) == [Created(FileKind, full, false)];
      var ready := Prepared(fs, full, refuses);
      if ready.Some? && AfterOpen(ready.value, full, refuses).Some? {
        assert actual == [Created(FileKind, full, false)];
      } else {
        assert actual == [Failed(full)];
        assert !actual[0].Created?;
      }
    } else if v.Dict? || v.List? {
      if AfterMakeDirs(fs, full, refuses).None? {
        assert actual == [Failed(full)];
        assert !actual[0].Created?;
      }
    }
  }

  lemma {:induction false} FaithfulItems(fs: FsState, l: Value, j: nat, full: string, refuses: set<string>)
    requires l.List? && j <= |l.items|
    ensures var (_, actual, ok) := RunItems(fs, l, j, full, false, refuses);
      ok && NoFailure(actual) ==> actual == Unmark(RunItems(Empty, l, j, full, true, {}).1)
    decreases l, 0, |l.items| - j
  {
    var (_, actual, ok) := RunItems(fs, l, j, full, false, refuses);
    if j < |l.items| && ok && NoFailure(actual) {
      var item := l.items[j];
      DryItems(Empty, l, j + 1, full, {});
      var dryRest := RunItems(Empty, l, j + 1, full, true, {}).1;
      if item.Str? {
        var path := Join(full, item.s);
        var fs1 := AfterOpen(fs, path, refuses).value;
        var rest := RunItems(fs1, l, j + 1, full, false, refuses).1;
        NoFailureSplit([Created(FileKind, path, false)], rest);
        FaithfulItems(fs1, l, j + 1, full, refuses);
        UnmarkAppend([Created(FileKind, path, true)], dryRest);
        assert Unmark([Created(FileKind, path, true)]) == [Created(FileKind, path, false)];
      } else if item.Dict? {
        DryEntries(Empty, item, 0, full, {});
        var (fs1, l1) := RunEntries(fs, item, 0, full, false, refuses);
        var rest := RunItems(fs1, l, j + 1, full, false, refuses).1;
        NoFailureSplit(l1, rest);
        FaithfulEntries(fs, item, 0, full, refuses);
        FaithfulItems(fs1, l, j + 1, full, refuses);
        UnmarkAppend(RunEntries(Empty, item, 0, full, true, {}).1, dryRest);
      } else {
        FaithfulItems(fs, l, j + 1, full, refuses);
      }
    }
  }

  /** A real run in which nothing fails logs exactly the preview, without
      the dry-run marker. */
  lemma PreviewIsFaithful(fs: FsState, structure: Value, base: string, refuses: set<string>)
    ensures var actual := Run(fs, structure, base, false, refuses).1;
      NoFailure(actual) ==> actual == Unmark(Preview(structure, base))
  {
    if structure.Dict? {
      FaithfulEntries(fs, structure, 0, base, refuses);
    }
  }

  // ---------------------------------------------------------------------
  // A list of file names

  /** A list of file names is worked through in order: one line per file
      made, and the first file that cannot be opened ends the list, the
      files after it untouched. */
  lemma {:induction false} FileListStops(fs: FsState, l: Value, j: nat, full: string, dry: bool, refuses: set<string>)
    requires l.List? && j <= |l.items|
    requires forall m :: j <= m < |l.items| ==> l.items[m].Str?
    ensures StopsAtFirstFailure(RunItems(fs, l, j, full, dry, refuses), l, j, full, dry, refuses)
    decreases |l.items| - j
  {
    if j < |l.items| {
      var done := if dry then Some(fs) else AfterOpen(fs, Join(full, l.items[j].s), refuses);
      FileStep(fs, l, j, full, dry, refuses);
      if done.Some? {
        FileListStops(done.value, l, j + 1, full, dry, refuses);
        StopsStep(RunItems(fs, l, j, full, dry, refuses), RunItems(done.value, l, j + 1, full, dry, refuses),
                  fs, l, j, full, dry, refuses);
      } else {
        StopsStep(RunItems(fs, l, j, full, dry, refuses), (fs, [], false), fs, l, j, full, dry, refuses);
      }
    } else {
      assert RunItems(fs, l, j, full, dry, refuses) == (fs, [], true);
    }
  }

  /** What a run over file names from item `j` on returns: one line per
      file opened, in order; it ran to the end exactly when every file got
      its line; and when it stopped, this was a real run and the next file
      could not be opened in the state reached. */
  predicate StopsAtFirstFailure(r: (FsState, seq<LogEntry>, bool), l: Value, j: nat, full: string, dry: bool, refuses: set<string>)
    requires l.List? && j <= |l.items|
    requires forall m :: j <= m < |l.items| ==> l.items[m].Str?
  {
    j + |r.1| <= |l.items|
    && (r.2 <==> j + |r.1| == |l.items|)
    && FilesLogged(r.1, l, j, full, dry)
    && (!r.2 ==> !dry && AfterOpen(r.0, Join(full, l.items[j + |r.1|].s), refuses).None?)
  }

  /** The invariant carries over one opened file name; `r'` is what the
      rest of the list returns. */
  lemma StopsStep(r: (FsState, seq<LogEntry>, bool), r': (FsState, seq<LogEntry>, bool), fs: FsState,
                  l: Value, j: nat, full: string, dry: bool, refuses: set<string>)
    requires l.List? && j < |l.items|
    requires forall m :: j <= m < |l.items| ==> l.items[m].Str?
    requires var done := if dry then Some(fs) else AfterOpen(fs, Join(full, l.items[j].s), refuses);
      if done.None? then r == (fs, [], false)
      else (r == (r'.0, [Created(FileKind, Join(full, l.items[j].s), dry)] + r'.1, r'.2)
            && StopsAtFirstFailure(r', l, j + 1, full, dry, refuses))
    ensures StopsAtFirstFailure(r, l, j, full, dry, refuses)
  {
    var done := if dry then Some(fs) else AfterOpen(fs, Join(full, l.items[j].s), refuses);
    if done.Some? {
      assert j + |r.1| == (j + 1) + |r'.1|;
      FilesLoggedCons(r'.1, l, j, full, dry);
    }
  }

  /** Line `m` of `log` reports the file named by item `j + m`. */
  predicate FilesLogged(log: seq<LogEntry>, l: Value, j: nat, full: string, dry: bool)
    requires l.List?
  {
    forall m :: 0 <= m < |log| && j + m < |l.items| && l.items[j + m].Str? ==>
      log[m] == Created(FileKind, Join(full, l.items[j + m].s), dry)
  }

  lemma FilesLoggedCons(log: seq<LogEntry>, l: Value, j: nat, full: string, dry: bool)
    requires l.List? && j < |l.items| && l.items[j].Str?
    requires FilesLogged(log, l, j + 1, full, dry)
    ensures FilesLogged([Created(FileKind, Join(full, l.items[j].s), dry)] + log, l, j, full, dry)
  {
    var log' := [Created(FileKind, Join(full, l.items[j].s), dry)] + log;
    forall m | 0 <= m < |log'| && j + m < |l.items| && l.items[j + m].Str?
      ensures log'[m] == Created(FileKind, Join(full, l.items[j + m].s), dry)
    {
      if m > 0 {
        assert log'[m] == log[m - 1];
        assert j + 1 + (m - 1) == j + m;
      }
    }
  }

  /** One file name of a list: opened (or, in a dry run, listed), or the
      list stops there. */
  lemma FileStep(fs: FsState, l: Value, j: nat, full: string, dry: bool, refuses: set<string>)
    requires l.List? && j < |l.items| && l.items[j].Str?
    ensures var path := Join(full, l.items[j].s);
      var done := if dry then Some(fs) else AfterOpen(fs, path, refuses);
      var r := RunItems(fs, l, j, full, dry, refuses);
      if done.None? then r == (fs, [], false)
      else
        var r' := RunItems(done.value, l, j + 1, full, dry, refuses);
        r == (r'.0, [Created(FileKind, path, dry)] + r'.1, r'.2)
  {
  }
}
