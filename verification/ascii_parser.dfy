/** The ASCII tree parser: an indented listing, optionally drawn with
    box-drawing connectors, becomes a nested mapping in which a folder is a
    mapping and a file is `Null`.

    The parser is a single pass over the lines with a stack of open folders.
    A stack frame records the folder by its path of names from the root (the
    nested mapping is an immutable value updated at that path) together with
    the indentation of the line that opened it. */
module AsciiParser {
  import opened Tree

  /** The whitespace that `str.strip()` and the regular expression class `\s`
      remove (fixed to the ASCII whitespace characters). */
  const Whitespace: set<char> := {' ', '\t', '\n', '\r', '\U{0B}', '\U{0C}'}

  /** Connectors that end the indentation: branches, corners and the dash. */
  const Branches: set<char> := {'├', '└', '┌', '┐', '┘', '┬', '┴', '┼', '─'}

  /** Every connector glyph, including the vertical bar. */
  const Glyphs: set<char> := Branches + {'│'}

  /** Characters that make up indentation before any connector. */
  const Indenters: set<char> := {' ', '\t', '│'}

  /** Characters skipped, and counted as indentation, after a connector. */
  const Trailers: set<char> := {' ', '─'}

  // ---------------------------------------------------------------------
  // Character scanning helpers

  /** The first index at or after `from` whose character is not in `cs`. */
  function SpanEnd(s: string, from: nat, cs: set<char>): (j: nat)
    requires from <= |s|
    ensures from <= j <= |s|
    ensures forall m :: from <= m < j ==> s[m] in cs
    ensures j == |s| || s[j] !in cs
    decreases |s| - from
  {
    if from == |s| || s[from] !in cs then from else SpanEnd(s, from + 1, cs)
  }

  lemma SpanEndUnique(s: string, from: nat, cs: set<char>, j: nat)
    requires from <= j <= |s|
    requires forall m :: from <= m < j ==> s[m] in cs
    requires j == |s| || s[j] !in cs
    ensures SpanEnd(s, from, cs) == j
  {
  }

  /** `s` without the characters in `cs`. */
  function Without(s: string, cs: set<char>): string
  {
    if s == [] then []
    else if s[|s| - 1] in cs then Without(s[..|s| - 1], cs)
    else Without(s[..|s| - 1], cs) + [s[|s| - 1]]
  }

  lemma {:induction false} WithoutAppend(a: string, b: string, cs: set<char>)
    ensures Without(a + b, cs) == Without(a, cs) + Without(b, cs)
    decreases |b|
  {
    if b == [] {
      assert a + b == a;
    } else {
      assert (a + b)[..|a + b| - 1] == a + b[..|b| - 1];
      WithoutAppend(a, b[..|b| - 1], cs);
    }
  }

  lemma {:induction false} WithoutAll(s: string, cs: set<char>)
    requires forall m :: 0 <= m < |s| ==> s[m] in cs
    ensures Without(s, cs) == []
    decreases |s|
  {
    if s != [] {
      WithoutAll(s[..|s| - 1], cs);
    }
  }

  /** Removing characters of `cs` and then of `more` removes those of both. */
  lemma {:induction false} WithoutTwice(s: string, cs: set<char>, more: set<char>)
    ensures Without(Without(s, cs), more) == Without(s, cs + more)
    decreases |s|
  {
    if s != [] {
      WithoutTwice(s[..|s| - 1], cs, more);
      var last := s[|s| - 1];
      if last !in cs {
        WithoutAppend(Without(s[..|s| - 1], cs), [last], more);
        assert Without([last], more) == (if last in more then [] else [last]) by {
          assert [last][..0] == [];
        }
      }
    }
  }

  /** Removing the whitespace-only margins of `s` removes no other characters. */
  lemma TrimKeeps(s: string, a: nat, b: nat, cs: set<char>, keep: set<char>)
    requires a <= b <= |s| && cs <= keep
    requires forall m :: 0 <= m < a ==> s[m] in cs
    requires forall m :: b <= m < |s| ==> s[m] in cs
    ensures Without(s[a..b], keep) == Without(s, keep)
  {
    var x, y, z := s[..a], s[a..b], s[b..];
    assert s == x + y + z;
    WithoutAppend(x + y, z, keep);
    WithoutAppend(x, y, keep);
    WithoutAll(x, keep);
    WithoutAll(z, keep);
  }

  /** Removes the leading characters of `s` that are in `cs`. */
  function TrimStart(s: string, cs: set<char>): (r: string)
    ensures |r| <= |s|
    ensures r == s[|s| - |r|..]
    ensures r == [] || r[0] !in cs
    ensures forall m :: 0 <= m < |s| - |r| ==> s[m] in cs
  {
    s[SpanEnd(s, 0, cs)..]
  }

  /** Removes the trailing characters of `s` that are in `cs`. */
  function TrimEnd(s: string, cs: set<char>): (r: string)
    ensures |r| <= |s|
    ensures r == s[..|r|]
    ensures r == [] || r[|r| - 1] !in cs
    ensures forall m :: |r| <= m < |s| ==> s[m] in cs
    decreases |s|
  {
    if s != [] && s[|s| - 1] in cs then TrimEnd(s[..|s| - 1], cs) else s
  }

  /** `str.strip()`: removes leading and trailing whitespace. */
  function Strip(s: string): (r: string)
    ensures r == [] || (r[0] !in Whitespace && r[|r| - 1] !in Whitespace)
    ensures Without(r, Whitespace) == Without(s, Whitespace)
    ensures forall m :: 0 <= m < |r| ==> r[m] in s
    ensures exists a, b ::
      (0 <= a <= b <= |s| && r == s[a..b]
       && (forall m :: 0 <= m < a ==> s[m] in Whitespace)
       && (forall m :: b <= m < |s| ==> s[m] in Whitespace))
  {
    var t := TrimStart(s, Whitespace);
    var r := TrimEnd(t, Whitespace);
    var a, b := |s| - |t|, |s| - |t| + |r|;
    TrimKeeps(s, a, b, Whitespace, Whitespace);
    assert s[a..b] == r;
    assert forall m :: b <= m < |s| ==> s[m] == t[m - a];
    r
  }

  /** A string with no whitespace at either end is already stripped. */
  lemma StripIdle(s: string)
    requires s == [] || (s[0] !in Whitespace && s[|s| - 1] !in Whitespace)
    ensures Strip(s) == s
  {
    TrimStartIdle(s, Whitespace);
  }

  lemma TrimStartIdle(s: string, cs: set<char>)
    requires s == [] || s[0] !in cs
    ensures TrimStart(s, cs) == s
  {
    SpanEndUnique(s, 0, cs, 0);
  }

  /** Only an all-whitespace string strips to nothing. */
  lemma StripEmpty(s: string)
    ensures Strip(s) == [] <==> forall m :: 0 <= m < |s| ==> s[m] in Whitespace
  {
    var t := TrimStart(s, Whitespace);
    assert Strip(s) == [] ==> t == [];
    if Strip(s) != [] {
      assert Strip(s)[0] !in Whitespace && Strip(s)[0] in s;
    }
  }

  /** The index of the first `sep` in `s`, or `|s|` when there is none. */
  function Find(s: string, sep: char): (i: nat)
    ensures i <= |s|
    ensures forall m :: 0 <= m < i ==> s[m] != sep
    ensures i == |s| || s[i] == sep
  {
    if s == [] then 0 else if s[0] == sep then 0 else 1 + Find(s[1..], sep)
  }

  /** `text.split(sep)`: the pieces between separators, at least one. */
  function Split(s: string, sep: char): (parts: seq<string>)
    ensures |parts| >= 1
    ensures forall i :: 0 <= i < |parts| ==> sep !in parts[i]
    decreases |s|
  {
    var i := Find(s, sep);
    if i == |s| then [s] else [s[..i]] + Split(s[i + 1..], sep)
  }

  /** `sep.join(parts)`. */
  function JoinWith(parts: seq<string>, sep: char): string
    requires |parts| >= 1
  {
    if |parts| == 1 then parts[0] else parts[0] + [sep] + JoinWith(parts[1..], sep)
  }

  /** Splitting loses nothing: joining the pieces gives the text back. */
  lemma {:induction false} SplitJoin(s: string, sep: char)
    ensures JoinWith(Split(s, sep), sep) == s
    decreases |s|
  {
    var i := Find(s, sep);
    if i < |s| {
      SplitJoin(s[i + 1..], sep);
      assert s == s[..i] + [sep] + s[i + 1..];
    }
  }

  /** Splitting the join of pieces free of the separator gives the pieces
      back. */
  lemma {:induction false} JoinSplit(parts: seq<string>, sep: char)
    requires |parts| >= 1
    requires forall i :: 0 <= i < |parts| ==> sep !in parts[i]
    ensures Split(JoinWith(parts, sep), sep) == parts
    decreases |parts|
  {
    var s := JoinWith(parts, sep);
    var p := parts[0];
    if |parts| == 1 {
      assert Find(s, sep) == |s|;
    } else {
      var rest := JoinWith(parts[1..], sep);
      assert s == p + [sep] + rest;
      assert s[|p|] == sep;
      assert Find(s, sep) == |p|;
      assert s[..|p|] == p && s[|p| + 1..] == rest;
      JoinSplit(parts[1..], sep);
    }
  }

  // ---------------------------------------------------------------------
  // Indentation

  /** Indentation units of one character: a tab counts 4, anything else 1. */
  function Width(c: char): nat
  {
    if c == '\t' then 4 else 1
  }

  /** Total indentation units of the characters of `s`. */
  function Weight(s: string): nat
  {
    if s == [] then 0 else Weight(s[..|s| - 1]) + Width(s[|s| - 1])
  }

  /** The indentation of a line and the offset where its content starts.

      Spaces, tabs and vertical bars before anything else are indentation.
      The first branch connector ends that prefix; it and every space or
      dash right after it are skipped, each of the latter adding one unit,
      and the content starts after them. Otherwise the content starts at
      the first character that is not indentation, or at 0 if there is
      none. */
  function IndentOf(line: string): (nat, nat)
  {
    IndentWith(line, Indenters, Branches, Trailers)
  }

  /** `IndentOf` over any sets of indentation, connector and trailing
      characters. */
  function IndentWith(line: string, ind: set<char>, br: set<char>, tr: set<char>): (nat, nat)
  {
    var p := SpanEnd(line, 0, ind);
    if p == |line| then (Weight(line), 0)
    else if line[p] in br then
      var j := SpanEnd(line, p + 1, tr);
      (Weight(line[..p]) + (j - (p + 1)), j)
    else (Weight(line[..p]), p)
  }

  lemma {:induction false} WeightAppend(a: string, b: string)
    ensures Weight(a + b) == Weight(a) + Weight(b)
    decreases |b|
  {
    if b == [] {
      assert a + b == a;
    } else {
      assert (a + b)[..|a + b| - 1] == a + b[..|b| - 1];
      WeightAppend(a, b[..|b| - 1]);
    }
  }

  /** One more indentation character in front of a line that has content
      raises its indentation by that character's width and moves its
      content one place on: deeper lines get larger indentation. */
  lemma IndentShift(c: char, line: string)
    requires c in Indenters
    requires SpanEnd(line, 0, Indenters) < |line|
    ensures IndentOf([c] + line).0 == IndentOf(line).0 + Width(c)
    ensures IndentOf([c] + line).1 == IndentOf(line).1 + 1
  {
    IndentShiftWith(c, line, Indenters, Branches, Trailers);
  }

  lemma IndentShiftWith(c: char, line: string, ind: set<char>, br: set<char>, tr: set<char>)
    requires c in ind
    requires SpanEnd(line, 0, ind) < |line|
    ensures IndentWith([c] + line, ind, br, tr).0 == IndentWith(line, ind, br, tr).0 + Width(c)
    ensures IndentWith([c] + line, ind, br, tr).1 == IndentWith(line, ind, br, tr).1 + 1
  {
    var s := [c] + line;
    var p := SpanEnd(line, 0, ind);
    SpanShift(c, line, 0, ind);
    assert SpanEnd(s, 0, ind) == p + 1 by { assert s[0] == c; }
    assert s[p + 1] == line[p];
    assert s[..p + 1] == [c] + line[..p];
    WeightCons(c, line[..p]);
    if line[p] in br {
      SpanShift(c, line, p + 1, tr);
    }
  }

  lemma WeightCons(c: char, t: string)
    ensures Weight([c] + t) == Width(c) + Weight(t)
  {
    WeightAppend([c], t);
    assert [c][..0] == [];
  }

  /** Scanning past a run of `cs` in a line with one more character in
      front ends one place later. */
  lemma {:induction false} SpanShift(c: char, line: string, from: nat, cs: set<char>)
    requires from <= |line|
    ensures SpanEnd([c] + line, from + 1, cs) == SpanEnd(line, from, cs) + 1
    decreases |line| - from
  {
    var s := [c] + line;
    if from < |line| {
      assert s[from + 1] == line[from];
      if line[from] in cs {
        SpanShift(c, line, from + 1, cs);
      }
    }
  }

  /** The character scan that computes a line's indentation. */
  method ScanIndent(line: string) returns (indent: nat, start: nat)
    ensures (indent, start) == IndentOf(line)
  {
    indent, start := 0, 0;
    var i := 0;
    while i < |line|
      invariant i <= |line|
      invariant forall m :: 0 <= m < i ==> line[m] in Indenters
      invariant indent == Weight(line[..i]) && start == 0
    {
      var c := line[i];
      if c in Indenters {
        assert line[..i + 1][..i] == line[..i];
        indent := indent + if c == '\t' then 4 else 1;
        i := i + 1;
      } else if c in Branches {
        SpanEndUnique(line, 0, Indenters, i);
        start := i + 1;
        while start < |line| && line[start] in Trailers
          invariant i + 1 <= start <= |line|
          invariant forall m :: i + 1 <= m < start ==> line[m] in Trailers
          invariant indent == Weight(line[..i]) + (start - (i + 1))
        {
          start := start + 1;
          indent := indent + 1;
        }
        SpanEndUnique(line, i + 1, Trailers, start);
        return;
      } else {
        SpanEndUnique(line, 0, Indenters, i);
        start := i;
        return;
      }
    }
    assert line[..i] == line;
    SpanEndUnique(line, 0, Indenters, i);
  }

  // ---------------------------------------------------------------------
  // Name cleaning

  /** `re.sub('[glyphs]+\s*', '', s)`: every run of characters of `glyphs`
      is deleted together with the characters of `space` that follow it.
      `after` says that the character before `s` was deleted as part of such
      a run. */
  function DropRuns(s: string, glyphs: set<char>, space: set<char>, after: bool): (r: string)
    ensures forall m :: 0 <= m < |r| ==> r[m] !in glyphs
    decreases |s|
  {
    if s == [] then []
    else
      var c := s[0];
      var rest := DropRuns(s[1..], glyphs, space, c in glyphs || (after && c in space));
      if c in glyphs || (after && c in space) then rest else [c] + rest
  }

  /** Whether `DropRuns` deletes character `m` of `s`: a glyph, or
      whitespace that continues a run a glyph opened (`after` says a run is
      open before `s`). */
  predicate Dropped(s: string, m: nat, glyphs: set<char>, space: set<char>, after: bool)
    requires m < |s|
    decreases m
  {
    s[m] in glyphs || (s[m] in space && if m == 0 then after else Dropped(s, m - 1, glyphs, space, after))
  }

  /** The characters of `s` from `i` on that are not dropped, in order. */
  function Survivors(s: string, i: nat, glyphs: set<char>, space: set<char>, after: bool): string
    requires i <= |s|
    decreases |s| - i
  {
    if i == |s| then []
    else (if Dropped(s, i, glyphs, space, after) then [] else [s[i]]) + Survivors(s, i + 1, glyphs, space, after)
  }

  /** Deleting the runs from position `i` on keeps exactly the characters
      that are not dropped. */
  lemma {:induction false} DropRunsExact(s: string, i: nat, glyphs: set<char>, space: set<char>, after: bool)
    requires i <= |s|
    ensures DropRuns(s[i..], glyphs, space, if i == 0 then after else Dropped(s, i - 1, glyphs, space, after))
      == Survivors(s, i, glyphs, space, after)
    decreases |s| - i
  {
    if i < |s| {
      var open := if i == 0 then after else Dropped(s, i - 1, glyphs, space, after);
      var gone := Dropped(s, i, glyphs, space, after);
      var t := s[i..];
      assert t[0] == s[i] && t[1..] == s[i + 1..];
      assert gone == (s[i] in glyphs || (open && s[i] in space));
      assert DropRuns(t, glyphs, space, open)
        == (if gone then [] else [s[i]]) + DropRuns(s[i + 1..], glyphs, space, gone);
      DropRunsExact(s, i + 1, glyphs, space, after);
    }
  }

  /** Every character of `s` from `lo` up to `hi` is in `cs`. */
  predicate AllIn(s: string, lo: nat, hi: nat, cs: set<char>)
    requires lo <= hi <= |s|
  {
    forall t :: lo <= t < hi ==> s[t] in cs
  }

  /** A character is dropped exactly when it is a glyph, or whitespace such
      that, going back over whitespace only, one reaches a glyph or the
      start of a string that began inside a run. */
  lemma {:induction false} DroppedExactly(s: string, m: nat, glyphs: set<char>, space: set<char>, after: bool)
    requires m < |s|
    ensures Dropped(s, m, glyphs, space, after) <==>
      s[m] in glyphs
      || (s[m] in space
          && ((exists k :: 0 <= k < m && s[k] in glyphs && AllIn(s, k + 1, m, space))
              || (after && AllIn(s, 0, m, space))))
    decreases m
  {
    if m > 0 {
      DroppedExactly(s, m - 1, glyphs, space, after);
      if s[m - 1] in glyphs {
        assert AllIn(s, m, m, space);
      } else if s[m - 1] in space {
        if exists k :: 0 <= k < m && s[k] in glyphs && AllIn(s, k + 1, m, space) {
          var k :| 0 <= k < m && s[k] in glyphs && AllIn(s, k + 1, m, space);
          assert k < m - 1 && AllIn(s, k + 1, m - 1, space);
        }
        if exists k :: 0 <= k < m - 1 && s[k] in glyphs && AllIn(s, k + 1, m - 1, space) {
          var k :| 0 <= k < m - 1 && s[k] in glyphs && AllIn(s, k + 1, m - 1, space);
          assert AllIn(s, k + 1, m, space);
        }
      } else {
        assert !AllIn(s, 0, m, space);
        forall k | 0 <= k < m && s[k] in glyphs
          ensures !AllIn(s, k + 1, m, space)
        {
          assert k < m - 1;
        }
      }
    }
  }

  /** Text without glyphs loses nothing when no run is open. */
  lemma {:induction false} DropRunsIdle(s: string, glyphs: set<char>, space: set<char>)
    requires forall m :: 0 <= m < |s| ==> s[m] !in glyphs
    ensures DropRuns(s, glyphs, space, false) == s
    decreases |s|
  {
    if s != [] {
      DropRunsIdle(s[1..], glyphs, space);
      assert [s[0]] + s[1..] == s;
    }
  }

  /** Deleting the runs removes only glyphs and whitespace: with the
      whitespace ignored, what is left is the input without both. */
  lemma {:induction false} DropRunsKeeps(s: string, glyphs: set<char>, space: set<char>, after: bool)
    ensures Without(DropRuns(s, glyphs, space, after), space) == Without(s, glyphs + space)
    decreases |s|
  {
    if s != [] {
      var c := s[0];
      var next := c in glyphs || (after && c in space);
      var rest := DropRuns(s[1..], glyphs, space, next);
      DropRunsKeeps(s[1..], glyphs, space, next);
      WithoutAppend([c], s[1..], glyphs + space);
      assert [c] + s[1..] == s;
      WithoutOne(c, glyphs + space);
      if !next {
        WithoutAppend([c], rest, space);
        WithoutOne(c, space);
      }
    }
  }

  lemma WithoutOne(c: char, cs: set<char>)
    ensures Without([c], cs) == if c in cs then [] else [c]
  {
    assert [c][..0] == [];
  }

  /** The content region of a line: from `start` on, or the whole line when
      `start` is past its end. */
  function Content(line: string, start: nat): string
  {
    if start < |line| then line[start..] else line
  }

  /** Leading glyphs (any set `g`) and whitespace, then whitespace at either
      end, are gone from the content without touching any other character. */
  lemma FirstPassKeeps(content: string, g: set<char>)
    ensures Without(TrimStart(Strip(content), g + Whitespace), g + Whitespace)
      == Without(content, g + Whitespace)
  {
    TrimStartKeeps(Strip(content), content, Whitespace, g + Whitespace);
  }

  /** Trimming characters of `k` from the front of `raw`, which agrees with
      `content` outside `w`, keeps what `content` has outside `k`. */
  lemma TrimStartKeeps(raw: string, content: string, w: set<char>, k: set<char>)
    requires w <= k && Without(raw, w) == Without(content, w)
    ensures Without(TrimStart(raw, k), k) == Without(content, k)
  {
    var s1 := TrimStart(raw, k);
    TrimKeeps(raw, |raw| - |s1|, |raw|, k, k);
    assert raw[|raw| - |s1|..|raw|] == s1;
    WithoutTwice(content, w, k);
    WithoutTwice(raw, w, k);
    assert w + k == k;
  }

  /** The last two passes (leading and trailing whitespace and dashes) find
      nothing to remove: by then the name holds no dash and is already
      stripped. */
  lemma LastPassesIdle(s: string)
    requires forall m :: 0 <= m < |s| ==> s[m] !in Glyphs
    requires s == [] || (s[0] !in Whitespace && s[|s| - 1] !in Whitespace)
    ensures TrimEnd(TrimStart(s, Whitespace + {'─'}), Whitespace + {'─'}) == s
  {
    SpanEndUnique(s, 0, Whitespace + {'─'}, 0);
  }

  /** Stripping whitespace adds no character of `g`. */
  lemma StripAvoids(s: string, g: set<char>)
    requires forall m :: 0 <= m < |s| ==> s[m] !in g
    ensures forall m :: 0 <= m < |Strip(s)| ==> Strip(s)[m] !in g
  {
    var r := Strip(s);
    forall m | 0 <= m < |r| ensures r[m] !in g {
      assert r[m] in s;
    }
  }

  /** The name written on a line, after the four glyph-stripping passes:
      leading glyphs and whitespace, every glyph run with its trailing
      whitespace, then leading and trailing whitespace and dashes.
      The result holds no glyph and has no whitespace at either end. */
  function Clean(line: string, start: nat): (r: string)
    ensures forall m :: 0 <= m < |r| ==> r[m] !in Glyphs
    ensures r == [] || (r[0] !in Whitespace && r[|r| - 1] !in Whitespace)
  {
    var raw := Strip(Content(line, start));
    var s1 := TrimStart(raw, Glyphs + Whitespace);
    var dropped := DropRuns(s1, Glyphs, Whitespace, false);
    var s2 := Strip(dropped);
    var s3 := TrimStart(s2, Whitespace + {'─'});
    var s4 := TrimEnd(s3, Whitespace + {'─'});
    StripAvoids(dropped, Glyphs);
    LastPassesIdle(s2);
    s4
  }

  /** Cleaning keeps, in order, every character of the content that is
      neither a glyph nor whitespace. */
  lemma CleanKeeps(line: string, start: nat)
    ensures Without(Clean(line, start), Whitespace) == Without(Content(line, start), Glyphs + Whitespace)
  {
    var raw := Strip(Content(line, start));
    var s1 := TrimStart(raw, Glyphs + Whitespace);
    var dropped := DropRuns(s1, Glyphs, Whitespace, false);
    var s2 := Strip(dropped);
    StripAvoids(dropped, Glyphs);
    LastPassesIdle(s2);
    assert Clean(line, start) == s2;
    FirstPassKeeps(Content(line, start), Glyphs);
    DropRunsKeeps(s1, Glyphs, Whitespace, false);
  }

  /** Content with no glyph and no whitespace at either end is its own
      name, whatever whitespace it holds inside. */
  lemma CleanIdle(line: string, start: nat)
    requires forall m :: 0 <= m < |Content(line, start)| ==> Content(line, start)[m] !in Glyphs
    requires var c := Content(line, start);
      c == [] || (c[0] !in Whitespace && c[|c| - 1] !in Whitespace)
    ensures Clean(line, start) == Content(line, start)
  {
    var c := Content(line, start);
    StripIdle(c);
    TrimStartIdle(c, Glyphs + Whitespace);
    DropRunsIdle(c, Glyphs, Whitespace);
    LastPassesIdle(c);
  }

  /** A name that may appear in the parsed tree. */
  predicate NameOk(k: string)
  {
    k != [] && forall m :: 0 <= m < |k| ==> k[m] !in Glyphs
  }

  // ---------------------------------------------------------------------
  // The parse stack

  datatype Frame = Frame(path: seq<string>, indent: int)

  datatype ParseState = ParseState(root: Value, stack: seq<Frame>)

  /** The state before the first line: an empty root mapping and the root
      frame at indentation -1. */
  const Init: ParseState := ParseState(Dict([]), [Frame([], -1)])

  /** The initial state already satisfies the stack invariant. */
  lemma InitOk()
    ensures StackOk(Init)
  {
    assert Init.stack[0].path == [];
  }

  /** What the parser keeps true between lines: the root frame at the bottom,
      indentation strictly increasing upwards, each frame one folder deeper
      than the one below it, every frame a folder of the tree, and the tree
      made of distinct, clean names. */
  predicate StackOk(st: ParseState)
  {
    FramesOk(st.stack) && FoldersOk(st.root, st.stack) && TreeOk(st.root)
  }

  /** The shape of the stack on its own. */
  predicate FramesOk(s: seq<Frame>)
  {
    |s| >= 1 && s[0] == Frame([], -1)
    && (forall i, j :: 0 <= i < j < |s| ==> s[i].indent < s[j].indent)
    && |s[|s| - 1].path| == |s| - 1
    && (forall i :: 0 <= i < |s| ==> s[i].path == s[|s| - 1].path[..i])
  }

  /** Every frame names a folder of the tree. */
  predicate FoldersOk(root: Value, s: seq<Frame>)
  {
    forall i :: 0 <= i < |s| ==> IsDirAt(root, s[i].path)
  }

  /** The tree is a mapping of distinct, clean names holding only mappings
      and files. */
  predicate TreeOk(root: Value)
  {
    WellFormed(root) && AllKeys(root, NameOk) && Plain(root)
  }

  /** Pops the frames whose indentation is at least `indent`, never the
      bottom one. What is left is a prefix of the stack whose top is the
      topmost frame indented strictly less than `indent`. */
  function PopFrames(stack: seq<Frame>, indent: int): (r: seq<Frame>)
    requires |stack| >= 1 && stack[0].indent < indent
    ensures 1 <= |r| <= |stack| && r == stack[..|r|]
    ensures r[|r| - 1].indent < indent
    ensures forall j :: |r| <= j < |stack| ==> stack[j].indent >= indent
    decreases |stack|
  {
    if |stack| > 1 && stack[|stack| - 1].indent >= indent then PopFrames(stack[..|stack| - 1], indent)
    else stack
  }

  /** Popping frames keeps the stack invariant. */
  lemma PopKeepsStack(st: ParseState, indent: nat)
    requires StackOk(st)
    ensures StackOk(ParseState(st.root, PopFrames(st.stack, indent)))
  {
    var stack := PopFrames(st.stack, indent);
    PrefixFrames(st.stack, |stack|);
    assert FoldersOk(st.root, stack) by {
      forall i | 0 <= i < |stack| ensures IsDirAt(st.root, stack[i].path) {
        assert stack[i] == st.stack[i];
      }
    }
  }

  /** A non-empty prefix of a well-shaped stack is well shaped. */
  lemma PrefixFrames(s: seq<Frame>, n: nat)
    requires FramesOk(s) && 1 <= n <= |s|
    ensures FramesOk(s[..n])
  {
    var top := s[|s| - 1].path;
    var p := s[..n];
    assert p[n - 1].path == top[..n - 1];
    forall i | 0 <= i < n ensures p[i].path == p[n - 1].path[..i] {
      assert top[..n - 1][..i] == top[..i];
    }
  }

  /** Opening a folder under the top frame and pushing its frame keeps the
      stack invariant. */
  lemma PushKeepsStack(st: ParseState, folder: string, indent: int)
    requires StackOk(st) && NameOk(folder)
    requires st.stack[|st.stack| - 1].indent < indent
    ensures var parent := st.stack[|st.stack| - 1].path;
      StackOk(ParseState(InsertAt(st.root, parent, folder, Dict([])),
                         st.stack + [Frame(parent + [folder], indent)]))
  {
    var parent := st.stack[|st.stack| - 1].path;
    InsertAtPreserves(st.root, parent, folder, Dict([]), NameOk);
    PushFrames(st.stack, folder, indent);
    PushFolders(st, folder, indent);
  }

  /** Pushing a frame one folder deeper and indented further keeps the
      shape of the stack. */
  lemma PushFrames(s: seq<Frame>, folder: string, indent: int)
    requires FramesOk(s) && s[|s| - 1].indent < indent
    ensures FramesOk(s + [Frame(s[|s| - 1].path + [folder], indent)])
  {
    var top' := s[|s| - 1].path + [folder];
    var s' := s + [Frame(top', indent)];
    forall i | 0 <= i < |s'| ensures s'[i].path == top'[..i] {
      if i < |s| {
        assert top'[..i] == s[|s| - 1].path[..i];
      } else {
        assert top'[..i] == top';
      }
    }
  }

  /** After the folder is inserted, every frame of the pushed stack names
      a folder. */
  lemma PushFolders(st: ParseState, folder: string, indent: int)
    requires StackOk(st) && NameOk(folder)
    ensures var parent := st.stack[|st.stack| - 1].path;
      FoldersOk(InsertAt(st.root, parent, folder, Dict([])),
                st.stack + [Frame(parent + [folder], indent)])
  {
    var parent := st.stack[|st.stack| - 1].path;
    var root := InsertAt(st.root, parent, folder, Dict([]));
    var s' := st.stack + [Frame(parent + [folder], indent)];
    InsertAtTarget(st.root, parent, folder, Dict([]));
    forall i | 0 <= i < |s'| ensures IsDirAt(root, s'[i].path) {
      if i < |st.stack| {
        InsertAtAncestors(st.root, parent, folder, Dict([]), i);
      }
    }
  }

  /** Adding a file under the top frame keeps the stack invariant. */
  lemma FileKeepsStack(st: ParseState, name: string)
    requires StackOk(st) && NameOk(name)
    ensures StackOk(ParseState(InsertAt(st.root, st.stack[|st.stack| - 1].path, name, Null), st.stack))
  {
    InsertAtPreserves(st.root, st.stack[|st.stack| - 1].path, name, Null, NameOk);
    FileFolders(st.root, st.stack, name);
  }

  /** After a file is inserted in the top frame's folder, every frame still
      names a folder. */
  lemma FileFolders(root: Value, stack: seq<Frame>, name: string)
    requires FramesOk(stack) && IsDirAt(root, stack[|stack| - 1].path)
    ensures FoldersOk(InsertAt(root, stack[|stack| - 1].path, name, Null), stack)
  {
    var parent := stack[|stack| - 1].path;
    forall i | 0 <= i < |stack| ensures IsDirAt(InsertAt(root, parent, name, Null), stack[i].path) {
      assert stack[i].path == parent[..i];
      InsertAtAncestors(root, parent, name, Null, i);
    }
  }

  /** A cleaned, non-empty name placed on the tree: frames at or deeper than
      `indent` are closed, then a name ending in `/` opens a folder (unless
      nothing is left once the `/` is dropped) and any other name is a file. */
  function Place(st: ParseState, indent: nat, name: string): ParseState
    requires StackOk(st) && name != []
  {
    var stack := PopFrames(st.stack, indent);
    PopKeepsStack(st, indent);
    var parent := stack[|stack| - 1].path;
    if name[|name| - 1] == '/' then
      var folder := name[..|name| - 1];
      if folder == [] then ParseState(st.root, stack)
      else ParseState(InsertAt(st.root, parent, folder, Dict([])), stack + [Frame(parent + [folder], indent)])
    else
      ParseState(InsertAt(st.root, parent, name, Null), stack)
  }

  /** Where a name lands. The new top frame's parent is the topmost frame
      indented strictly less than the line. A name ending in `/` sets its
      folder to an empty mapping, even when the folder already existed, and
      pushes the folder's frame; a bare `/` only pops. Any other name is set
      to a file. Either way every path that leaves the new name's path
      somewhere along the way reads as before. */
  lemma PlaceSpec(st: ParseState, indent: nat, name: string)
    requires StackOk(st) && name != []
    ensures var popped := PopFrames(st.stack, indent);
      var parent := popped[|popped| - 1].path;
      var r := Place(st, indent, name);
      var key := if name[|name| - 1] == '/' then name[..|name| - 1] else name;
      var value := if name[|name| - 1] == '/' then Dict([]) else Null;
      (key == [] ==> r == ParseState(st.root, popped))
      && (key != [] ==> At(r.root, parent + [key]) == Some(value))
      && (key != [] ==> r.stack == if value.Dict? then popped + [Frame(parent + [key], indent)] else popped)
      && (forall q :: Diverges(q, parent + [key]) ==> At(r.root, q) == At(st.root, q))
  {
    var popped := PopFrames(st.stack, indent);
    var parent := popped[|popped| - 1].path;
    var key := if name[|name| - 1] == '/' then name[..|name| - 1] else name;
    var value := if name[|name| - 1] == '/' then Dict([]) else Null;
    PopKeepsStack(st, indent);
    if key != [] {
      InsertAtTarget(st.root, parent, key, value);
      forall q | Diverges(q, parent + [key]) ensures At(Place(st, indent, name).root, q) == At(st.root, q) {
        InsertAtElsewhere(st.root, parent, key, value, q);
      }
    }
  }

  /** Placing a clean name keeps the stack invariant. */
  lemma PlaceKeepsStack(st: ParseState, indent: nat, name: string)
    requires StackOk(st) && name != []
    requires forall m :: 0 <= m < |name| ==> name[m] !in Glyphs
    ensures StackOk(Place(st, indent, name))
  {
    var popped := ParseState(st.root, PopFrames(st.stack, indent));
    PopKeepsStack(st, indent);
    if name[|name| - 1] == '/' {
      var folder := name[..|name| - 1];
      if folder != [] {
        PushKeepsStack(popped, folder, indent);
      }
    } else {
      FileKeepsStack(popped, name);
    }
  }

  /** One line of input: blank lines and lines whose name cleans to nothing
      leave the state as it was. */
  function Step(st: ParseState, line: string): ParseState
    requires StackOk(st)
  {
    if Strip(line) == [] then st
    else
      var (indent, start) := IndentOf(line);
      var name := Clean(line, start);
      if name == [] then st else Place(st, indent, name)
  }

  /** A line holding only whitespace changes nothing. */
  lemma BlankLine(st: ParseState, line: string)
    requires StackOk(st)
    requires forall m :: 0 <= m < |line| ==> line[m] in Whitespace
    ensures Step(st, line) == st
  {
    StripEmpty(line);
  }

  /** Every line keeps the stack invariant. */
  lemma StepKeepsStack(st: ParseState, line: string)
    requires StackOk(st)
    ensures StackOk(Step(st, line))
  {
    if Strip(line) != [] {
      var (indent, start) := IndentOf(line);
      var name := Clean(line, start);
      if name != [] {
        PlaceKeepsStack(st, indent, name);
      }
    }
  }

  /** The parser state after a sequence of lines. */
  function Run(st: ParseState, lines: seq<string>): (r: ParseState)
    requires StackOk(st)
    ensures StackOk(r)
    decreases |lines|
  {
    if lines == [] then st
    else
      StepKeepsStack(st, lines[0]);
      Run(Step(st, lines[0]), lines[1..])
  }

  lemma RunFirst(st: ParseState, lines: seq<string>)
    requires StackOk(st) && lines != []
    ensures StackOk(Step(st, lines[0]))
    ensures Run(st, lines) == Run(Step(st, lines[0]), lines[1..])
  {
    StepKeepsStack(st, lines[0]);
  }

  /** `k` spaces. */
  function Blanks(k: nat): string
  {
    seq(k, _ => ' ')
  }

  lemma {:induction false} WeightBlanks(k: nat)
    ensures Weight(Blanks(k)) == k
  {
    if k > 0 {
      assert Blanks(k)[..k - 1] == Blanks(k - 1);
      WeightBlanks(k - 1);
    }
  }

  /** A line of `k` spaces and a name that starts with no indentation
      character, holds no glyph and has no whitespace at either end: the
      name is placed, as written, at indentation `k`. */
  lemma StepIndented(st: ParseState, k: nat, name: string)
    requires StackOk(st) && name != []
    requires name[0] !in Indenters && name[0] !in Whitespace && name[|name| - 1] !in Whitespace
    requires forall m :: 0 <= m < |name| ==> name[m] !in Glyphs
    ensures Step(st, Blanks(k) + name) == Place(st, k, name)
  {
    assert (Blanks(k) + name)[k] == name[0];
    var line := Blanks(k) + name;
    NonBlank(line, k);
    IndentBlanks(k, name);
    CleanBlanks(k, name);
    StepNamed(st, line, k, k, name);
  }

  lemma NonBlank(line: string, k: nat)
    requires k < |line| && line[k] !in Whitespace
    ensures Strip(line) != []
  {
    StripEmpty(line);
  }

  lemma CleanBlanks(k: nat, name: string)
    requires name != [] && name[0] !in Whitespace && name[|name| - 1] !in Whitespace
    requires forall m :: 0 <= m < |name| ==> name[m] !in Glyphs
    ensures Clean(Blanks(k) + name, k) == name
  {
    assert Content(Blanks(k) + name, k) == name;
    CleanIdle(Blanks(k) + name, k);
  }

  /** A line with content, at indentation `indent`, whose content starts at
      `start` and cleans to `name`, places `name`. */
  lemma StepNamed(st: ParseState, line: string, indent: nat, start: nat, name: string)
    requires StackOk(st) && name != []
    requires Strip(line) != [] && IndentOf(line) == (indent, start) && Clean(line, start) == name
    ensures Step(st, line) == Place(st, indent, name)
  {
  }

  lemma IndentBlanks(k: nat, name: string)
    requires name != [] && name[0] !in Indenters && name[0] !in Branches
    ensures IndentOf(Blanks(k) + name) == (k, k)
  {
    var line := Blanks(k) + name;
    assert line[k] == name[0];
    SpanEndUnique(line, 0, Indenters, k);
    assert line[..k] == Blanks(k);
    WeightBlanks(k);
  }

  /** A line drawn with a connector: indentation characters up to `p`, a
      branch connector at `p`, three trailing characters (dashes or spaces),
      then a name. The connector and its trailer add three units to the
      indentation, the content starts right after them, and the name is
      placed as written. */
  lemma StepDrawn(st: ParseState, line: string, p: nat, name: string)
    requires StackOk(st) && name != []
    requires p + 4 <= |line| && line[p + 4..] == name
    requires forall m :: 0 <= m < p ==> line[m] in Indenters
    requires line[p] in Branches
    requires forall m :: p < m < p + 4 ==> line[m] in Trailers
    requires name[0] !in Trailers && name[0] !in Whitespace && name[|name| - 1] !in Whitespace
    requires forall m :: 0 <= m < |name| ==> name[m] !in Glyphs
    ensures IndentOf(line) == (Weight(line[..p]) + 3, p + 4)
    ensures Step(st, line) == Place(st, Weight(line[..p]) + 3, name)
  {
    assert line[p + 4] == name[0];
    IndentAt(line, p);
    assert Content(line, p + 4) == name;
    CleanIdle(line, p + 4);
    NonBlank(line, p + 4);
    StepNamed(st, line, Weight(line[..p]) + 3, p + 4, name);
  }

  /** A connector at `p` after indentation characters only, followed by
      exactly three trailing characters: the content starts at `p + 4`. */
  lemma IndentAt(line: string, p: nat)
    requires p + 4 < |line|
    requires forall m :: 0 <= m < p ==> line[m] in Indenters
    requires line[p] in Branches && line[p + 4] !in Trailers
    requires forall m :: p < m < p + 4 ==> line[m] in Trailers
    ensures IndentOf(line) == (Weight(line[..p]) + 3, p + 4)
  {
    SpanEndUnique(line, 0, Indenters, p);
    SpanEndUnique(line, p + 1, Trailers, p + 4);
  }

  /** The line `│   ├── raw.json`: the bar and three spaces count four units
      and the connector with its trailer three more, so `raw.json` is
      placed at indentation 7. */
  lemma DrawnExample(st: ParseState)
    requires StackOk(st)
    ensures IndentOf("│   ├── raw.json") == (7, 8)
    ensures Step(st, "│   ├── raw.json") == Place(st, 7, "raw.json")
  {
    var line := "│   ├── raw.json";
    assert line[..4] == ['│'] + Blanks(3);
    WeightBlanks(3);
    WeightCons('│', Blanks(3));
    assert line[8..] == "raw.json";
    StepDrawn(st, line, 4, "raw.json");
  }

  /** The text `a/`, `  b`, `  c/`, `    d` on four lines parses to
      `{a: {b: None, c: {d: None}}}`: `b` and `c` land in `a`, `d` in `c`. */
  lemma NestingText()
    ensures ParseSpec("a/\n  b\n  c/\n    d") == Dict([("a", Dict([("b", Null), ("c", Dict([("d", Null)]))]))])
  {
    ExampleLines("a/\n  b\n  c/\n    d", ["a/", "  b", "  c/", "    d"]);
    NestingRun(["a/", "  b", "  c/", "    d"]);
  }

  lemma ExampleLines(text: string, lines: seq<string>)
    requires text == "a/\n  b\n  c/\n    d" && lines == ["a/", "  b", "  c/", "    d"]
    ensures Lines(text) == lines
  {
    JoinFour(lines, '\n');
    ExampleText(text, lines);
    LinesOfJoin(text, lines);
  }

  /** Text with no whitespace at either end, made of lines joined by line
      breaks, reads as those lines. */
  lemma LinesOfJoin(text: string, lines: seq<string>)
    requires |lines| >= 1 && text == JoinWith(lines, '\n')
    requires forall i :: 0 <= i < |lines| ==> '\n' !in lines[i]
    requires text == [] || (text[0] !in Whitespace && text[|text| - 1] !in Whitespace)
    ensures Lines(text) == lines
  {
    StripIdle(text);
    JoinSplit(lines, '\n');
  }

  lemma ExampleText(text: string, lines: seq<string>)
    requires text == "a/\n  b\n  c/\n    d" && lines == ["a/", "  b", "  c/", "    d"]
    ensures text == lines[0] + ['\n'] + lines[1] + ['\n'] + lines[2] + ['\n'] + lines[3]
  {
  }

  lemma JoinFour(parts: seq<string>, sep: char)
    requires |parts| == 4
    ensures JoinWith(parts, sep) == parts[0] + [sep] + parts[1] + [sep] + parts[2] + [sep] + parts[3]
  {
    var p1, p2, p3 := parts[1..], parts[2..], parts[3..];
    assert p1[1..] == p2 && p2[1..] == p3;
    assert JoinWith(p3, sep) == parts[3];
    assert JoinWith(p2, sep) == parts[2] + [sep] + parts[3];
    assert JoinWith(p1, sep) == parts[1] + [sep] + (parts[2] + [sep] + parts[3]);
  }

  lemma NestingRun(lines: seq<string>)
    requires lines == ["a/", "  b", "  c/", "    d"]
    ensures StackOk(Init)
    ensures Run(Init, lines).root == Dict([("a", Dict([("b", Null), ("c", Dict([("d", Null)]))]))])
  {
    assert lines == [lines[0]] + lines[1..];
    assert lines[1..] == [lines[1]] + lines[2..];
    assert lines[2..] == [lines[2]] + lines[3..];
    LineA(Init, AfterA(), lines[0], lines[1..]);
    LineB(AfterA(), AfterB(), lines[1], lines[2..]);
    LineC(AfterB(), AfterC(), lines[2], lines[3..]);
    LineD(AfterC(), lines[3..]);
  }

  lemma LineA(st: ParseState, next: ParseState, line: string, rest: seq<string>)
    requires st == Init && next == AfterA() && line == "a/"
    ensures StackOk(st) && StackOk(next) && Run(st, [line] + rest) == Run(next, rest)
  {
    InitOk();
    NestA(st, next);
    StepLine(st, line, 0, "a/", next);
    RunCons(st, next, line, rest);
  }

  lemma LineB(st: ParseState, next: ParseState, line: string, rest: seq<string>)
    requires st == AfterA() && next == AfterB() && line == "  b" && StackOk(st)
    ensures StackOk(next) && Run(st, [line] + rest) == Run(next, rest)
  {
    NestB(st, next);
    StepLine(st, line, 2, "b", next);
    RunCons(st, next, line, rest);
  }

  lemma LineC(st: ParseState, next: ParseState, line: string, rest: seq<string>)
    requires st == AfterB() && next == AfterC() && line == "  c/" && StackOk(st)
    ensures StackOk(next) && Run(st, [line] + rest) == Run(next, rest)
  {
    NestC(st, next);
    StepLine(st, line, 2, "c/", next);
    RunCons(st, next, line, rest);
  }

  lemma LineD(st: ParseState, lines: seq<string>)
    requires st == AfterC() && lines == ["    d"] && StackOk(st)
    ensures Run(st, lines).root == Dict([("a", Dict([("b", Null), ("c", Dict([("d", Null)]))]))])
  {
    NestD(st);
    var next := Place(st, 4, "d");
    StepLine(st, lines[0], 4, "d", next);
    StepKeepsStack(st, lines[0]);
    RunOne(st, next, lines[0]);
  }

  lemma RunOne(st: ParseState, next: ParseState, line: string)
    requires StackOk(st) && StackOk(next) && Step(st, line) == next
    ensures Run(st, [line]) == next
  {
    RunFirst(st, [line]);
  }

  /** A run over lines passes through the state the first line leads to. */
  lemma RunCons(st: ParseState, next: ParseState, line: string, rest: seq<string>)
    requires StackOk(st) && StackOk(next) && Step(st, line) == next
    ensures Run(st, [line] + rest) == Run(next, rest)
  {
    RunFirst(st, [line] + rest);
    assert ([line] + rest)[1..] == rest;
  }

  /** One line of the example: its spaces, its name, and where `Place`
      puts that name. */
  lemma StepLine(st: ParseState, line: string, k: nat, name: string, next: ParseState)
    requires StackOk(st) && Place.requires(st, k, name) && Place(st, k, name) == next
    requires (k, name, line) in {(0, "a/", "a/"), (2, "b", "  b"), (2, "c/", "  c/"), (4, "d", "    d")}
    ensures Step(st, line) == next
  {
    BlankName(k, name, line);
    StepIndented(st, k, name);
  }

  lemma BlankName(k: nat, name: string, line: string)
    requires (k, name, line) in {(0, "a/", "a/"), (2, "b", "  b"), (2, "c/", "  c/"), (4, "d", "    d")}
    ensures line == Blanks(k) + name
    ensures name != [] && name[0] !in Indenters && name[0] !in Whitespace && name[|name| - 1] !in Whitespace
    ensures forall m :: 0 <= m < |name| ==> name[m] !in Glyphs
  {
  }

  /** The lines `a/`, `  b`, `  c/`, `    d`, once indented and cleaned:
      `b` and `c` land in `a`, and `d` in `c`. */
  lemma NestingExample()
    ensures StackOk(Init) && Place(Init, 0, "a/") == AfterA()
    ensures StackOk(AfterA()) && Place(AfterA(), 2, "b") == AfterB()
    ensures StackOk(AfterB()) && Place(AfterB(), 2, "c/") == AfterC()
    ensures StackOk(AfterC())
      && Place(AfterC(), 4, "d").root == Dict([("a", Dict([("b", Null), ("c", Dict([("d", Null)]))]))])
  {
    InitOk();
    NestA(Init, AfterA());
    NestB(AfterA(), AfterB());
    NestC(AfterB(), AfterC());
    NestD(AfterC());
  }

  /** The states after the first three lines of the example. */
  function AfterA(): ParseState
  {
    ParseState(Dict([("a", Dict([]))]), [Frame([], -1), Frame(["a"], 0)])
  }

  function AfterB(): ParseState
  {
    ParseState(Dict([("a", Dict([("b", Null)]))]), [Frame([], -1), Frame(["a"], 0)])
  }

  function AfterC(): ParseState
  {
    ParseState(Dict([("a", Dict([("b", Null), ("c", Dict([]))]))]),
               [Frame([], -1), Frame(["a"], 0), Frame(["a", "c"], 2)])
  }

  lemma NestA(prev: ParseState, st: ParseState)
    requires prev == Init && st == AfterA() && StackOk(prev)
    ensures Place(prev, 0, "a/") == st && StackOk(st)
  {
    assert PopFrames(prev.stack, 0) == prev.stack;
    assert "a/"[1] == '/' && "a/"[..1] == "a";
    assert Put([], "a", Dict([])) == [("a", Dict([]))];
    assert [] + ["a"] == ["a"];
    assert prev.stack + [Frame(["a"], 0)] == st.stack;
    PlaceKeepsStack(prev, 0, "a/");
  }

  lemma NestB(prev: ParseState, st: ParseState)
    requires prev == AfterA() && st == AfterB() && StackOk(prev)
    ensures Place(prev, 2, "b") == st && StackOk(st)
  {
    assert PopFrames(prev.stack, 2) == prev.stack;
    assert Get(prev.root.entries, "a") == Some(Dict([]));
    assert Put([], "b", Null) == [("b", Null)];
    assert Put(prev.root.entries, "a", Dict([("b", Null)])) == [("a", Dict([("b", Null)]))];
    PlaceKeepsStack(prev, 2, "b");
  }

  lemma NestC(prev: ParseState, st: ParseState)
    requires prev == AfterB() && st == AfterC() && StackOk(prev)
    ensures Place(prev, 2, "c/") == st && StackOk(st)
  {
    NestCPlace(prev, st);
    NestCStack(prev);
  }

  lemma NestCStack(prev: ParseState)
    requires prev == AfterB() && StackOk(prev)
    ensures StackOk(Place(prev, 2, "c/"))
  {
    PlaceKeepsStack(prev, 2, "c/");
  }

  lemma NestCPlace(prev: ParseState, st: ParseState)
    requires prev == AfterB() && st == AfterC() && StackOk(prev)
    ensures Place(prev, 2, "c/") == st
  {
    assert PopFrames(prev.stack, 2) == prev.stack;
    assert "c/"[1] == '/' && "c/"[..1] == "c";
    assert ["a"] + ["c"] == ["a", "c"];
    assert prev.stack + [Frame(["a", "c"], 2)] == st.stack;
    assert Get(prev.root.entries, "a") == Some(Dict([("b", Null)]));
    NestCPut();
  }

  lemma NestCPut()
    ensures Put([("a", Dict([("b", Null)]))], "a", Dict(Put([("b", Null)], "c", Dict([]))))
      == [("a", Dict([("b", Null), ("c", Dict([]))]))]
  {
    assert IndexOf([("b", Null)], "c") == 1;
    assert Put([("b", Null)], "c", Dict([])) == [("b", Null), ("c", Dict([]))];
  }

  lemma NestD(prev: ParseState)
    requires prev == AfterC() && StackOk(prev)
    ensures Place(prev, 4, "d").root == Dict([("a", Dict([("b", Null), ("c", Dict([("d", Null)]))]))])
  {
    assert PopFrames(prev.stack, 4) == prev.stack;
    var a := Dict([("b", Null), ("c", Dict([]))]);
    assert Get(prev.root.entries, "a") == Some(a);
    assert IndexOf(a.entries, "c") == 1;
    assert Get(a.entries, "c") == Some(Dict([]));
    assert Put([], "d", Null) == [("d", Null)];
    assert Put(a.entries, "c", Dict([("d", Null)])) == [("b", Null), ("c", Dict([("d", Null)]))];
    assert Put(prev.root.entries, "a", Dict([("b", Null), ("c", Dict([("d", Null)]))]))
      == [("a", Dict([("b", Null), ("c", Dict([("d", Null)]))]))];
  }

  /** The lines of the input: the text is stripped first, so the first line
      loses its leading indentation. */
  function Lines(text: string): seq<string>
  {
    Split(Strip(text), '\n')
  }

  /** The mapping the parser returns for `text`: a mapping with distinct
      keys at every level, holding only mappings and files, whose every
      name is non-empty and free of connector glyphs. */
  function ParseSpec(text: string): (r: Value)
    ensures r.Dict? && WellFormed(r) && Plain(r) && AllKeys(r, NameOk)
  {
    InitOk();
    Run(Init, Lines(text)).root
  }

  /** The parser proper: a single pass over the lines with an explicit stack. */
  method ParseAscii(text: string) returns (result: Value)
    ensures result == ParseSpec(text)
  {
    result := ParseLines(Lines(text));
  }

  /** The loop over the lines, with the stack held in two variables. */
  method ParseLines(lines: seq<string>) returns (result: Value)
    ensures result == Run(Init, lines).root
  {
    var root, stack := Init.root, Init.stack;
    InitOk();
    for i := 0 to |lines|
      invariant StackOk(ParseState(root, stack))
      invariant Run(ParseState(root, stack), lines[i..]) == Run(Init, lines)
    {
      assert lines[i..][0] == lines[i] && lines[i..][1..] == lines[i + 1..];
      RunFirst(ParseState(root, stack), lines[i..]);
      root, stack := ParseLine(root, stack, lines[i]);
    }
    assert lines[|lines|..] == [];
    result := root;
  }

  /** The body of the parser's loop for one line. */
  method ParseLine(root0: Value, stack0: seq<Frame>, line: string) returns (root: Value, stack: seq<Frame>)
    requires StackOk(ParseState(root0, stack0))
    ensures ParseState(root, stack) == Step(ParseState(root0, stack0), line)
  {
    root, stack := root0, stack0;
    if Strip(line) == [] {
      return;
    }
    var indent, start := ScanIndent(line);
    var cleaned := Clean(line, start);
    if cleaned == [] {
      return;
    }
    var st := PlaceName(ParseState(root0, stack0), indent, cleaned);
    root, stack := st.root, st.stack;
  }

  /** Closes the frames at or deeper than `indent`, one at a time. */
  method PopStack(stack0: seq<Frame>, indent: int) returns (stack: seq<Frame>)
    requires |stack0| >= 1 && stack0[0].indent < indent
    ensures stack == PopFrames(stack0, indent)
  {
    stack := stack0;
    while |stack| > 1 && stack[|stack| - 1].indent >= indent
      invariant 1 <= |stack| <= |stack0| && stack == stack0[..|stack|]
      invariant PopFrames(stack, indent) == PopFrames(stack0, indent)
    {
      stack := stack[..|stack| - 1];
    }
  }

  /** Places a cleaned, non-empty name: pops the stack, then opens a folder
      or adds a file under the new top frame. */
  method PlaceName(st: ParseState, indent: nat, name: string) returns (r: ParseState)
    requires StackOk(st) && name != []
    ensures r == Place(st, indent, name)
  {
    var stack := PopStack(st.stack, indent);
    PopKeepsStack(st, indent);
    var root := st.root;
    var parent := stack[|stack| - 1].path;
    if name[|name| - 1] == '/' {
      var folder := name[..|name| - 1];
      if folder != [] {
        root := InsertAt(root, parent, folder, Dict([]));
        stack := stack + [Frame(parent + [folder], indent)];
      }
    } else {
      root := InsertAt(root, parent, name, Null);
    }
    r := ParseState(root, stack);
  }
}
