/** How the creator fails: an entry whose own operation fails logs one error
    line and nothing below it, the entries after it still run, a list stops
    at the first file it cannot open, and every error line in a real run
    goes back to an operation of the file system that failed. */
module CreatorFailures {
  import opened Tree
  import opened Creator
  import opened CreatorLaws

  /** A value the creator acts on: a file, a mapping or a list. */
  predicate Handled(v: Value)
  {
    IsFile(v) || v.Dict? || v.List?
  }

  /** The kind of line a handled value is logged with. */
  function KindOf(v: Value): Kind
  {
    if IsFile(v) then FileKind else FolderKind
  }

  /** The entry's own operation fails in `fs`: for a file, making its
      parent or opening it; for a mapping or a list, `makedirs`. */
  predicate OwnFails(fs: FsState, full: string, v: Value, refuses: set<string>)
  {
    if IsFile(v) then
      var ready := Prepared(fs, full, refuses);
      ready.None? || AfterOpen(ready.value, full, refuses).None?
    else (v.Dict? || v.List?) && AfterMakeDirs(fs, full, refuses).None?
  }

  // ---------------------------------------------------------------------
  // One entry

  /** An entry's first line is about the entry itself: its creation, or,
      in a real run whose own operation fails, its error. In that case the
      error is the whole log and nothing below the entry is visited; only
      the parent folders made before a failed open stay. */
  lemma KeyOutcome(fs: FsState, full: string, v: Value, dry: bool, refuses: set<string>)
    requires Handled(v)
    ensures var log := RunKey(fs, full, v, dry, refuses).1;
      |log| > 0
      && log[0] == if !dry && OwnFails(fs, full, v, refuses) then Failed(full) else Created(KindOf(v), full, dry)
    ensures !dry && OwnFails(fs, full, v, refuses) ==>
      var ready := Prepared(fs, full, refuses);
      RunKey(fs, full, v, dry, refuses) == (if IsFile(v) && ready.Some? then ready.value else fs, [Failed(full)])
  {
    if !IsFile(v) && !(dry || OwnFails(fs, full, v, refuses)) {
      var made := AfterMakeDirs(fs, full, refuses).value;
      if v.List? {
        var r := RunItems(made, v, 0, full, dry, refuses);
        assert RunKey(fs, full, v, dry, refuses).1 == [Created(FolderKind, full, dry)] + r.1 + (if r.2 then [] else [Failed(full)]);
      }
    } else if !IsFile(v) && dry {
      if v.List? {
        var r := RunItems(fs, v, 0, full, dry, refuses);
        assert RunKey(fs, full, v, dry, refuses).1 == [Created(FolderKind, full, dry)] + r.1 + (if r.2 then [] else [Failed(full)]);
      }
    }
  }

  // ---------------------------------------------------------------------
  // Every entry is logged, whatever failed before it

  /** The run over a mapping's entries from `i` is the run over the entries
      before `j`, then the run from `j` in the state it left. */
  lemma {:induction false} EntriesSplit(fs: FsState, d: Value, i: nat, j: nat, cur: string, dry: bool, refuses: set<string>)
    requires d.Dict? && i <= j <= |d.entries|
    ensures var pre := RunEntries(fs, Dict(d.entries[..j]), i, cur, dry, refuses);
      var post := RunEntries(pre.0, d, j, cur, dry, refuses);
      RunEntries(fs, d, i, cur, dry, refuses) == (post.0, pre.1 + post.1)
    decreases j - i
  {
    var whole := RunEntries(fs, d, i, cur, dry, refuses);
    var front := RunEntries(fs, Dict(d.entries[..j]), i, cur, dry, refuses);
    if i < j {
      var k := RunKey(fs, Join(cur, d.entries[i].0), d.entries[i].1, dry, refuses);
      FrontStep(fs, d, i, j, cur, dry, refuses);
      EntriesStep(fs, d, i, cur, dry, refuses);
      EntriesSplit(k.0, d, i + 1, j, cur, dry, refuses);
      var rest := RunEntries(k.0, d, i + 1, cur, dry, refuses);
      var pre := RunEntries(k.0, Dict(d.entries[..j]), i + 1, cur, dry, refuses);
      var post := RunEntries(pre.0, d, j, cur, dry, refuses);
      assert front == (pre.0, k.1 + pre.1);
      assert whole == (rest.0, k.1 + rest.1);
      assert rest == (post.0, pre.1 + post.1);
      assert k.1 + (pre.1 + post.1) == (k.1 + pre.1) + post.1;
    } else {
      assert |Dict(d.entries[..j]).entries| == i;
      assert front == (fs, []);
      assert [] + whole.1 == whole.1;
    }
  }

  /** The entries before `j` start with entry `i` as the whole mapping does. */
  lemma FrontStep(fs: FsState, d: Value, i: nat, j: nat, cur: string, dry: bool, refuses: set<string>)
    requires d.Dict? && i < j <= |d.entries|
    ensures var k := RunKey(fs, Join(cur, d.entries[i].0), d.entries[i].1, dry, refuses);
      var pre := RunEntries(k.0, Dict(d.entries[..j]), i + 1, cur, dry, refuses);
      RunEntries(fs, Dict(d.entries[..j]), i, cur, dry, refuses) == (pre.0, k.1 + pre.1)
  {
    var front := Dict(d.entries[..j]);
    assert front.entries[i] == d.entries[i];
    EntriesStep(fs, front, i, cur, dry, refuses);
  }

  /** Every top-level entry the creator acts on is logged: the log starts
      with the log of the entries before it, and the next line is the
      entry's creation or, when its own operation fails in the state those
      entries left, its error. A failure is caught at its entry and the
      next entry still runs. */
  lemma EveryEntryLogged(fs: FsState, structure: Value, base: string, dry: bool, refuses: set<string>)
    requires structure.Dict?
    ensures var log := Run(fs, structure, base, dry, refuses).1;
      forall j :: 0 <= j < |structure.entries| && Handled(structure.entries[j].1) ==>
        var pre := RunEntries(fs, Dict(structure.entries[..j]), 0, base, dry, refuses);
        var full := Join(base, structure.entries[j].0);
        |pre.1| < |log| && log[..|pre.1|] == pre.1
        && log[|pre.1|] == if !dry && OwnFails(pre.0, full, structure.entries[j].1, refuses) then Failed(full)
                           else Created(KindOf(structure.entries[j].1), full, dry)
  {
    var log := Run(fs, structure, base, dry, refuses).1;
    forall j | 0 <= j < |structure.entries| && Handled(structure.entries[j].1)
      ensures var pre := RunEntries(fs, Dict(structure.entries[..j]), 0, base, dry, refuses);
        var full := Join(base, structure.entries[j].0);
        |pre.1| < |log| && log[..|pre.1|] == pre.1
        && log[|pre.1|] == if !dry && OwnFails(pre.0, full, structure.entries[j].1, refuses) then Failed(full)
                           else Created(KindOf(structure.entries[j].1), full, dry)
    {
      var pre := RunEntries(fs, Dict(structure.entries[..j]), 0, base, dry, refuses);
      var full := Join(base, structure.entries[j].0);
      EntriesSplit(fs, structure, 0, j, base, dry, refuses);
      EntriesStep(pre.0, structure, j, base, dry, refuses);
      KeyOutcome(pre.0, full, structure.entries[j].1, dry, refuses);
      var k := RunKey(pre.0, full, structure.entries[j].1, dry, refuses);
      var rest := RunEntries(k.0, structure, j + 1, base, dry, refuses);
      assert log == pre.1 + (k.1 + rest.1);
      assert log[|pre.1|] == k.1[0];
    }
  }

  // ---------------------------------------------------------------------
  // A list stops at its first file that cannot be opened

  /** A real run over the items of `l` from `j` stopped at item `f`: a file
      name whose open failed in the state the items before it left, and
      the run's state and log are those of the items before it alone. */
  predicate StopsAt(fs: FsState, l: Value, j: nat, f: nat, full: string, refuses: set<string>)
    requires l.List? && j <= |l.items|
  {
    j <= f < |l.items| && l.items[f].Str?
    && var pre := RunItems(fs, List(l.items[..f]), j, full, false, refuses);
       pre.2
       && RunItems(fs, l, j, full, false, refuses) == (pre.0, pre.1, false)
       && AfterOpen(pre.0, Join(full, l.items[f].s), refuses).None?
  }

  lemma {:induction false} ItemsStop(fs: FsState, l: Value, j: nat, full: string, refuses: set<string>)
    requires l.List? && j <= |l.items|
    ensures !RunItems(fs, l, j, full, false, refuses).2 ==> exists f: nat :: StopsAt(fs, l, j, f, full, refuses)
    decreases |l.items| - j
  {
    if j < |l.items| && !RunItems(fs, l, j, full, false, refuses).2 {
      var item := l.items[j];
      var front := List(l.items[..j + 1]);
      if item.Str? {
        var path := Join(full, item.s);
        if AfterOpen(fs, path, refuses).None? {
          assert RunItems(fs, List(l.items[..j]), j, full, false, refuses) == (fs, [], true);
          assert StopsAt(fs, l, j, j, full, refuses);
        } else {
          var fs1 := AfterOpen(fs, path, refuses).value;
          ItemsStop(fs1, l, j + 1, full, refuses);
          var f: nat :| StopsAt(fs1, l, j + 1, f, full, refuses);
          assert List(l.items[..f]).items[j] == item;
          assert StopsAt(fs, l, j, f, full, refuses);
        }
      } else if item.Dict? {
        var fs1 := RunEntries(fs, item, 0, full, false, refuses).0;
        ItemsStop(fs1, l, j + 1, full, refuses);
        var f: nat :| StopsAt(fs1, l, j + 1, f, full, refuses);
        assert List(l.items[..f]).items[j] == item;
        assert StopsAt(fs, l, j, f, full, refuses);
      } else {
        ItemsStop(fs, l, j + 1, full, refuses);
        var f: nat :| StopsAt(fs, l, j + 1, f, full, refuses);
        assert List(l.items[..f]).items[j] == item;
        assert StopsAt(fs, l, j, f, full, refuses);
      }
    }
  }

  /** A list whose folder was made but whose items did not all run: the
      entry logs its folder, the lines of the items before the first file
      that could not be opened, and one error naming the folder; no item
      after that file is logged or made. */
  lemma ListStops(fs: FsState, full: string, l: Value, refuses: set<string>)
    requires l.List?
    ensures var made := AfterMakeDirs(fs, full, refuses);
      made.Some? && !RunItems(made.value, l, 0, full, false, refuses).2 ==>
        var r := RunItems(made.value, l, 0, full, false, refuses);
        RunKey(fs, full, l, false, refuses) == (r.0, [Created(FolderKind, full, false)] + r.1 + [Failed(full)])
        && exists f: nat :: StopsAt(made.value, l, 0, f, full, refuses)
  {
    var made := AfterMakeDirs(fs, full, refuses);
    if made.Some? {
      ItemsStop(made.value, l, 0, full, refuses);
    }
  }

  // ---------------------------------------------------------------------
  // Every error line goes back to a failed operation

  /** A point of a real run at which an operation can fail: an entry at
      `path` holding `value` that starts in `state`, or the list at `path`
      reaching its file name number `item` in `state`. */
  datatype Event =
    | Start(path: string, value: Value, state: FsState)
    | Stop(path: string, value: Value, item: nat, state: FsState)

  /** The operation of the event fails: the entry's own `makedirs` or
      `open`, or opening the list's file name. */
  predicate Failing(e: Event, refuses: set<string>)
  {
    match e
    case Start(p, v, s) => OwnFails(s, p, v, refuses)
    case Stop(p, l, f, s) =>
      l.List? && f < |l.items| && l.items[f].Str? && AfterOpen(s, Join(p, l.items[f].s), refuses).None?
  }

  /** The events of the real run of the entry at `full` holding `v`, from
      `fs`: the entry itself and, once its folder is made, what is visited
      inside it. */
  function KeyTrace(fs: FsState, full: string, v: Value, refuses: set<string>): set<Event>
    decreases v, 1, 0
  {
    if IsFile(v) then {Start(full, v, fs)}
    else if v.Dict? || v.List? then
      {Start(full, v, fs)}
      + match AfterMakeDirs(fs, full, refuses)
        case None => {}
        case Some(made) =>
          if v.Dict? then EntriesTrace(made, v, 0, full, refuses) else ItemsTrace(made, v, 0, full, refuses)
    else {}
  }

  /** The events of the entries of `d` from `i` on, each in the state the
      entries before it left. */
  function EntriesTrace(fs: FsState, d: Value, i: nat, cur: string, refuses: set<string>): set<Event>
    requires d.Dict? && i <= |d.entries|
    decreases d, 0, |d.entries| - i
  {
    if i == |d.entries| then {}
    else
      var full := Join(cur, d.entries[i].0);
      KeyTrace(fs, full, d.entries[i].1, refuses)
      + EntriesTrace(RunKey(fs, full, d.entries[i].1, false, refuses).0, d, i + 1, cur, refuses)
  }

  /** The events of the items of list `l` from `j` on: the mappings it
      walks and, at a file name that cannot be opened, the list stopping. */
  function ItemsTrace(fs: FsState, l: Value, j: nat, full: string, refuses: set<string>): set<Event>
    requires l.List? && j <= |l.items|
    decreases l, 0, |l.items| - j
  {
    if j == |l.items| then {}
    else
      var item := l.items[j];
      if item.Str? then
        match AfterOpen(fs, Join(full, item.s), refuses)
        case None => {Stop(full, l, j, fs)}
        case Some(fs1) => ItemsTrace(fs1, l, j + 1, full, refuses)
      else if item.Dict? then
        EntriesTrace(fs, item, 0, full, refuses)
        + ItemsTrace(RunEntries(fs, item, 0, full, false, refuses).0, l, j + 1, full, refuses)
      else ItemsTrace(fs, l, j + 1, full, refuses)
  }

  /** The events of a real run of `create_structure`. */
  function Trace(fs: FsState, structure: Value, base: string, refuses: set<string>): set<Event>
  {
    if structure.Dict? then EntriesTrace(fs, structure, 0, base, refuses) else {}
  }

  /** Every error line of `log` names the path of an event of `events`
      whose operation fails. */
  predicate AllExplained(log: seq<LogEntry>, events: set<Event>, refuses: set<string>)
  {
    forall m :: 0 <= m < |log| && log[m].Failed? ==>
      exists e :: e in events && e.path == log[m].path && Failing(e, refuses)
  }

  lemma AllExplainedAppend(a: seq<LogEntry>, b: seq<LogEntry>, ea: set<Event>, eb: set<Event>, refuses: set<string>)
    requires AllExplained(a, ea, refuses) && AllExplained(b, eb, refuses)
    ensures AllExplained(a + b, ea + eb, refuses)
  {
    forall m | 0 <= m < |a + b| && (a + b)[m].Failed?
      ensures exists e :: e in ea + eb && e.path == (a + b)[m].path && Failing(e, refuses)
    {
      if m < |a| {
        assert (a + b)[m] == a[m];
      } else {
        assert (a + b)[m] == b[m - |a|];
      }
    }
  }

  /** A list that did not run to its end stopped at an event of its trace:
      its own path, at a file name whose open failed. */
  lemma {:induction false} StopInTrace(fs: FsState, l: Value, j: nat, full: string, refuses: set<string>)
    requires l.List? && j <= |l.items|
    ensures !RunItems(fs, l, j, full, false, refuses).2 ==>
      exists e :: e in ItemsTrace(fs, l, j, full, refuses) && e.path == full && Failing(e, refuses)
    decreases |l.items| - j
  {
    if j < |l.items| && !RunItems(fs, l, j, full, false, refuses).2 {
      var item := l.items[j];
      if item.Str? {
        var done := AfterOpen(fs, Join(full, item.s), refuses);
        if done.None? {
          assert Stop(full, l, j, fs) in ItemsTrace(fs, l, j, full, refuses);
        } else {
          StopInTrace(done.value, l, j + 1, full, refuses);
        }
      } else if item.Dict? {
        StopInTrace(RunEntries(fs, item, 0, full, false, refuses).0, l, j + 1, full, refuses);
      } else {
        StopInTrace(fs, l, j + 1, full, refuses);
      }
    }
  }

  lemma {:induction false} ExplainedEntries(fs: FsState, d: Value, i: nat, cur: string, refuses: set<string>)
    requires d.Dict? && i <= |d.entries|
    ensures AllExplained(RunEntries(fs, d, i, cur, false, refuses).1, EntriesTrace(fs, d, i, cur, refuses), refuses)
    decreases d, 0, |d.entries| - i
  {
    if i < |d.entries| {
      var v := d.entries[i].1;
      var full := Join(cur, d.entries[i].0);
      var k := RunKey(fs, full, v, false, refuses);
      var rest := RunEntries(k.0, d, i + 1, cur, false, refuses);
      EntriesStep(fs, d, i, cur, false, refuses);
      ExplainedKey(fs, full, v, refuses);
      ExplainedEntries(k.0, d, i + 1, cur, refuses);
      AllExplainedAppend(k.1, rest.1, KeyTrace(fs, full, v, refuses), EntriesTrace(k.0, d, i + 1, cur, refuses), refuses);
    }
  }

  lemma {:induction false} ExplainedKey(fs: FsState, full: string, v: Value, refuses: set<string>)
    ensures AllExplained(RunKey(fs, full, v, false, refuses).1, KeyTrace(fs, full, v, refuses), refuses)
    decreases v, 1, 0
  {
    var r := RunKey(fs, full, v, false, refuses);
    var t := KeyTrace(fs, full, v, refuses);
    if Handled(v) && OwnFails(fs, full, v, refuses) {
      KeyOutcome(fs, full, v, false, refuses);
      assert Start(full, v, fs) in t;
    } else if v.Dict? {
      var made := AfterMakeDirs(fs, full, refuses).value;
      var here := [Created(FolderKind, full, false)];
      var inner := EntriesTrace(made, v, 0, full, refuses);
      var e := RunEntries(made, v, 0, full, false, refuses);
      ExplainedEntries(made, v, 0, full, refuses);
      AllExplainedAppend(here, e.1, {}, inner, refuses);
      assert r.1 == here + e.1;
      assert {} + inner <= t;
    } else if v.List? {
      var made := AfterMakeDirs(fs, full, refuses).value;
      var here := [Created(FolderKind, full, false)];
      var inner := ItemsTrace(made, v, 0, full, refuses);
      var e := RunItems(made, v, 0, full, false, refuses);
      var tail: seq<LogEntry> := if e.2 then [] else [Failed(full)];
      ExplainedItems(made, v, 0, full, refuses);
      StopInTrace(made, v, 0, full, refuses);
      AllExplainedAppend(here, e.1, {}, inner, refuses);
      AllExplainedAppend(here + e.1, tail, {} + inner, inner, refuses);
      assert r.1 == here + e.1 + tail;
      assert {} + inner + inner <= t;
    }
  }

  lemma {:induction false} ExplainedItems(fs: FsState, l: Value, j: nat, full: string, refuses: set<string>)
    requires l.List? && j <= |l.items|
    ensures AllExplained(RunItems(fs, l, j, full, false, refuses).1, ItemsTrace(fs, l, j, full, refuses), refuses)
    decreases l, 0, |l.items| - j
  {
    if j < |l.items| {
      var item := l.items[j];
      if item.Str? {
        var path := Join(full, item.s);
        if AfterOpen(fs, path, refuses).Some? {
          var fs1 := AfterOpen(fs, path, refuses).value;
          var rest := RunItems(fs1, l, j + 1, full, false, refuses);
          var inner := ItemsTrace(fs1, l, j + 1, full, refuses);
          ExplainedItems(fs1, l, j + 1, full, refuses);
          AllExplainedAppend([Created(FileKind, path, false)], rest.1, {}, inner, refuses);
          assert {} + inner == inner;
        }
      } else if item.Dict? {
        var e := RunEntries(fs, item, 0, full, false, refuses);
        var rest := RunItems(e.0, l, j + 1, full, false, refuses);
        ExplainedEntries(fs, item, 0, full, refuses);
        ExplainedItems(e.0, l, j + 1, full, refuses);
        AllExplainedAppend(e.1, rest.1, EntriesTrace(fs, item, 0, full, refuses), ItemsTrace(e.0, l, j + 1, full, refuses), refuses);
      } else {
        ExplainedItems(fs, l, j + 1, full, refuses);
      }
    }
  }

  // ---------------------------------------------------------------------
  // Where the events are

  /** `w` is `v` or a value nested in it, through mappings and lists. */
  predicate Within(w: Value, v: Value)
    decreases v
  {
    w == v
    || (v.Dict? && exists i :: 0 <= i < |v.entries| && Within(w, v.entries[i].1))
    || (v.List? && exists j :: 0 <= j < |v.items| && Within(w, v.items[j]))
  }

  /** `c` is a value held directly by the mapping or list `v`. */
  predicate Child(c: Value, v: Value)
  {
    (v.Dict? && exists i :: 0 <= i < |v.entries| && v.entries[i].1 == c)
    || (v.List? && exists j :: 0 <= j < |v.items| && v.items[j] == c)
  }

  /** Every event is for a value nested in `root` and happens in a state
      between `fs0` and `fs1`. */
  predicate Bounded(events: set<Event>, fs0: FsState, fs1: FsState, root: Value)
  {
    forall e :: e in events ==> Grows(fs0, e.state) && Grows(e.state, fs1) && Within(e.value, root)
  }

  lemma Widen(events: set<Event>, fs0: FsState, fs1: FsState, root: Value,
              fs0': FsState, fs1': FsState, root': Value)
    requires Bounded(events, fs0, fs1, root)
    requires Grows(fs0', fs0) && Grows(fs1, fs1')
    requires root == root' || Child(root, root')
    ensures Bounded(events, fs0', fs1', root')
  {
    forall e | e in events
      ensures Grows(fs0', e.state) && Grows(e.state, fs1') && Within(e.value, root')
    {
      if root != root' {
        if root'.Dict? && exists i :: 0 <= i < |root'.entries| && root'.entries[i].1 == root {
          var i :| 0 <= i < |root'.entries| && root'.entries[i].1 == root;
          assert Within(e.value, root'.entries[i].1);
        } else {
          var j :| 0 <= j < |root'.items| && root'.items[j] == root;
          assert Within(e.value, root'.items[j]);
        }
      }
    }
  }

  lemma {:induction false} BoundsEntries(fs: FsState, d: Value, i: nat, cur: string, refuses: set<string>)
    requires d.Dict? && i <= |d.entries|
    ensures Bounded(EntriesTrace(fs, d, i, cur, refuses), fs, RunEntries(fs, d, i, cur, false, refuses).0, d)
    decreases d, 0, |d.entries| - i
  {
    if i < |d.entries| {
      var v := d.entries[i].1;
      var full := Join(cur, d.entries[i].0);
      var k := RunKey(fs, full, v, false, refuses);
      var rest := RunEntries(k.0, d, i + 1, cur, false, refuses);
      EntriesStep(fs, d, i, cur, false, refuses);
      BoundsKey(fs, full, v, refuses);
      BoundsEntries(k.0, d, i + 1, cur, refuses);
      RealKey(fs, full, v, refuses);
      RealEntries(k.0, d, i + 1, cur, refuses);
      assert Child(v, d);
      Widen(KeyTrace(fs, full, v, refuses), fs, k.0, v, fs, rest.0, d);
      Widen(EntriesTrace(k.0, d, i + 1, cur, refuses), k.0, rest.0, d, fs, rest.0, d);
    }
  }

  lemma {:induction false} BoundsKey(fs: FsState, full: string, v: Value, refuses: set<string>)
    ensures Bounded(KeyTrace(fs, full, v, refuses), fs, RunKey(fs, full, v, false, refuses).0, v)
    decreases v, 1, 0
  {
    var r := RunKey(fs, full, v, false, refuses);
    RealKey(fs, full, v, refuses);
    assert Within(v, v);
    if (v.Dict? || v.List?) && AfterMakeDirs(fs, full, refuses).Some? {
      var made := AfterMakeDirs(fs, full, refuses).value;
      if v.Dict? {
        BoundsEntries(made, v, 0, full, refuses);
        RealEntries(made, v, 0, full, refuses);
        Widen(EntriesTrace(made, v, 0, full, refuses), made, r.0, v, fs, r.0, v);
      } else {
        BoundsItems(made, v, 0, full, refuses);
        RealItems(made, v, 0, full, refuses);
        Widen(ItemsTrace(made, v, 0, full, refuses), made, r.0, v, fs, r.0, v);
      }
    }
  }

  lemma {:induction false} BoundsItems(fs: FsState, l: Value, j: nat, full: string, refuses: set<string>)
    requires l.List? && j <= |l.items|
    ensures Bounded(ItemsTrace(fs, l, j, full, refuses), fs, RunItems(fs, l, j, full, false, refuses).0, l)
    decreases l, 0, |l.items| - j
  {
    if j < |l.items| {
      var item := l.items[j];
      var r := RunItems(fs, l, j, full, false, refuses);
      if item.Str? {
        var path := Join(full, item.s);
        if AfterOpen(fs, path, refuses).Some? {
          var fs1 := AfterOpen(fs, path, refuses).value;
          BoundsItems(fs1, l, j + 1, full, refuses);
          Widen(ItemsTrace(fs1, l, j + 1, full, refuses), fs1, r.0, l, fs, r.0, l);
        } else {
          assert Within(l, l);
        }
      } else if item.Dict? {
        var e := RunEntries(fs, item, 0, full, false, refuses);
        BoundsEntries(fs, item, 0, full, refuses);
        BoundsItems(e.0, l, j + 1, full, refuses);
        RealEntries(fs, item, 0, full, refuses);
        RealItems(e.0, l, j + 1, full, refuses);
        assert Child(item, l);
        Widen(EntriesTrace(fs, item, 0, full, refuses), fs, e.0, item, fs, r.0, l);
        Widen(ItemsTrace(e.0, l, j + 1, full, refuses), e.0, r.0, l, fs, r.0, l);
      } else {
        BoundsItems(fs, l, j + 1, full, refuses);
      }
    }
  }

  /** Every error line of a real run names the path of an event the run
      reached whose operation failed: an entry whose own `makedirs` or
      `open` failed in the state it started in, or a list whose file name
      could not be opened in the state its earlier items left. Every event
      is for a value of the structure, in a state between the start and the
      end of the run. */
  lemma EveryFailureExplained(fs: FsState, structure: Value, base: string, refuses: set<string>)
    ensures var r := Run(fs, structure, base, false, refuses);
      AllExplained(r.1, Trace(fs, structure, base, refuses), refuses)
      && Bounded(Trace(fs, structure, base, refuses), fs, r.0, structure)
  {
    if structure.Dict? {
      ExplainedEntries(fs, structure, 0, base, refuses);
      BoundsEntries(fs, structure, 0, base, refuses);
    }
  }
}
