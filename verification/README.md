# autostruct core in Dafny

autostruct turns a description of a project layout into folders and empty
files. This project models its three engine functions in `app.py`:

- `parse_ascii` (module `AsciiParser`) reads an indented tree listing that may
  be drawn with box-drawing connectors (`├── src/`, `│   └── main.py`). It
  builds a nested mapping in which a folder is a mapping and a file is
  `None`.
- `validate_structure` (module `Validator`) walks that mapping. It reports
  every name that holds one of `< > : " | ? *`, with the path leading to it.
- `create_structure` (modules `Creator`, `CreatorLaws`, `CreatorFailures`
  and `CreatorAgain`) walks a
  structure under a base path. It makes the folders and empty files and logs
  one line per entry. A dry run only logs.

Module `Tree` holds the shared structure value:
- a mapping is an insertion-ordered sequence of entries;
- lists, strings and other scalars stand for what decoded JSON or YAML can
  hold;
- `Put` is Python's `obj[k] = v`;
- `InsertAt` updates the mapping at a path;
- `Preorder` lists every reachable key in walk order.

The parser is a loop with an explicit stack (`ParseAscii`, `ParseLines`,
`ParseLine`, `PopStack`, `PlaceName`). It is proved equal to a fold of a
per-line function `Step`. The stack invariant `StackOk` is proved to hold
after every line. It covers five things:
- the bottom frame is the root frame, with the empty path and indentation -1;
- the frames' indentations strictly increase;
- each frame is one folder deeper than the one below it;
- every frame names a folder of the tree;
- the tree is a mapping whose keys are distinct at every level, whose names
  are non-empty and free of connector glyphs, and which holds only folders
  (mappings) and files (`None`).

The creator runs against a `FileSystem` object holding the sets of existing
directories and files. A fixed set of refused paths stands in for failures
the operating system has reasons of its own for. The methods are proved
equal to pure functions (`RunEntries`, `RunKey`, `RunItems`). The laws about
those functions are in `CreatorLaws`:
- a dry run changes nothing and logs every visited entry in walk order;
- a real run only logs what it made;
- a real run without errors logs what the dry run previewed.

The laws about failures are in `CreatorFailures`:
- an entry whose own operation fails logs one error and nothing below it;
- every top-level entry is logged, whatever failed before it;
- a list stops at its first file that cannot be opened;
- every error line goes back to an entry or a list that the run reached,
  whose `makedirs` or `open` failed in the state it was reached in.

The law about running twice is in `CreatorAgain`: a real run that logged
no error, repeated on the state it left, changes nothing and logs the same
lines, because `makedirs` is called with `exist_ok=True` and `open(p, 'w')`
accepts an existing file.

Paths are joined as POSIX `os.path.join` joins two parts (`Creator.Join`):
an absolute second part replaces the first, and otherwise one slash goes
between them unless the first is empty or already ends with a slash.

Some behaviour of `app.py` is easy to overlook. The model keeps it:
- Only `None` and the empty string are files to the creator. Any other
  scalar value is skipped without a log line (`app.py:150-189`).
- A file in a YAML list that cannot be opened ends the whole list. The
  error line names the list's folder, not the file, and later items are
  not made (`app.py:179-192`).
- A bad top-level name is reported as `/name`, with a leading slash, because
  the message always puts a slash before the key (`app.py:124`).
- A line reading just `/` pops the stack but opens no folder. Deeper lines
  that follow attach to the previous ancestor (`app.py:77-88`).

## Model

| member | source | states |
|---|---|---|
| Tree.Put | app.py:87-92 | after `obj[k] = v` the key maps to `v`, every other key keeps its value, every entry is the new one or the old one at its position, and distinct keys stay distinct |
| Tree.PutKeys | app.py:87-92 | assigning an existing key keeps the key order; a new key goes last |
| Tree.InsertAtTarget | app.py:80-92 | after inserting under the folder at `path`, the new name's path reads the inserted value |
| Tree.InsertAtAncestors | app.py:80-88 | every folder on the way to the insertion point is still a folder afterwards |
| Tree.InsertAtElsewhere | app.py:87-92 | any path that leaves the new name's path somewhere reads as before |
| Tree.InsertAtPreserves | app.py:87-92 | insertion keeps keys distinct, keeps every key satisfying a given name rule, and keeps the tree made of folders and files |
| Tree.PreorderExact | app.py:119-132 | the walk-order listing holds exactly the reachable non-empty paths, each with the value found there |
| AsciiParser.Split | app.py:26 | splitting yields at least one piece and no piece contains the separator |
| AsciiParser.SplitJoin | app.py:26 | joining the pieces of a split with the separator gives the text back |
| AsciiParser.JoinSplit | app.py:26 | splitting the join of pieces free of the separator gives the pieces back |
| AsciiParser.LinesOfJoin | app.py:26 | a text with no whitespace at either end, made of lines joined by line breaks, reads as exactly those lines |
| AsciiParser.Strip | app.py:60-62 | the result is a slice of the input with only whitespace cut off before and after it, and it has no whitespace at either end |
| AsciiParser.StripIdle | app.py:60-62 | a string with no whitespace at either end strips to itself |
| AsciiParser.StripEmpty | app.py:31-32 | a line strips to nothing exactly when all its characters are whitespace |
| AsciiParser.TrimStart | app.py:66 | removes exactly the longest leading run of the given characters |
| AsciiParser.TrimEnd | app.py:71 | removes exactly the longest trailing run of the given characters |
| AsciiParser.IndentShift | app.py:40-56 | one more space, tab or bar in front of a line with content adds its width (tab 4, else 1) to the indentation and moves the content start by one |
| AsciiParser.ScanIndent | app.py:34-56 | the character loop computes the indentation and the content start that `IndentOf` defines |
| AsciiParser.DropRuns | app.py:67 | after deleting every connector run with its trailing whitespace, no connector is left |
| AsciiParser.DropRunsKeeps | app.py:67 | the deletion removes only connectors and whitespace: every other character survives, in order |
| AsciiParser.DropRunsExact | app.py:67 | the deletion keeps exactly the characters that are not dropped, in order: whitespace between names survives unless a connector run precedes it |
| AsciiParser.DroppedExactly | app.py:67 | a character is dropped exactly when it is a connector, or whitespace reached from a connector over whitespace only |
| AsciiParser.DropRunsIdle | app.py:67 | text without connectors passes through unchanged |
| AsciiParser.FirstPassKeeps | app.py:59-66 | stripping the content and trimming leading connectors and whitespace removes nothing else |
| AsciiParser.LastPassesIdle | app.py:69-71 | the trims of leading and trailing whitespace and dashes change nothing once the name is stripped and free of connectors |
| AsciiParser.Clean | app.py:58-71 | a cleaned name holds no connector glyph and has no whitespace at either end |
| AsciiParser.CleanKeeps | app.py:58-71 | cleaning keeps, in order, every character of the content that is neither a connector nor whitespace |
| AsciiParser.CleanIdle | app.py:58-71 | content with no connector and no whitespace at either end is its own name, inner whitespace included |
| AsciiParser.InitOk | app.py:27-28 | the empty root with the root frame at indentation -1 satisfies the stack invariant |
| AsciiParser.PopFrames | app.py:76-78 | closing frames leaves a non-empty prefix of the stack whose top is indented less than the line, having closed only frames indented at least as much |
| AsciiParser.PopStack | app.py:76-78 | the popping loop leaves the stack that `PopFrames` defines |
| AsciiParser.PopKeepsStack | app.py:76-80 | popping keeps the stack invariant |
| AsciiParser.PushKeepsStack | app.py:83-88 | opening a clean folder under the top frame and pushing its frame keeps the stack invariant |
| AsciiParser.FileKeepsStack | app.py:89-92 | adding a clean file under the top frame keeps the stack invariant |
| AsciiParser.PlaceSpec | app.py:76-92 | a name lands under the topmost frame indented less than the line; a folder becomes an empty mapping and its frame is pushed; a lone `/` only pops; all other paths are untouched |
| AsciiParser.PlaceKeepsStack | app.py:76-92 | placing a non-empty, connector-free name keeps the stack invariant |
| AsciiParser.PlaceName | app.py:76-92 | the popping and insertion code computes the state that `Place` defines |
| AsciiParser.BlankLine | app.py:31-32 | a line of whitespace leaves the parser state unchanged |
| AsciiParser.StepKeepsStack | app.py:30-92 | every line, whatever it holds, keeps the stack invariant |
| AsciiParser.Run | app.py:30-92 | after any sequence of lines the stack invariant still holds |
| AsciiParser.IndentBlanks | app.py:34-56 | a line of `k` spaces before a name that starts with no indentation or connector character has indentation `k` and content starting at `k` |
| AsciiParser.StepIndented | app.py:30-92 | a line of `k` spaces and a clean name places that name at indentation `k` |
| AsciiParser.StepDrawn | app.py:30-92 | a line of indentation characters, a branch connector, three dashes or spaces and a name has indentation three units more than its prefix, content starting right after the connector's trailer, and places the name as written |
| AsciiParser.DrawnExample | app.py:34-92 | the line `│   ├── raw.json` has indentation 7 and content starting at 8, and places `raw.json` at indentation 7 |
| AsciiParser.NestingExample | app.py:76-92 | placing `a/` at 0, `b` at 2, `c/` at 2 and `d` at 4 builds `{a: {b: None, c: {d: None}}}`, passing through the stated stacks |
| AsciiParser.NestingText | app.py:24-94 | parsing the text `a/`, `  b`, `  c/`, `    d` on four lines gives `{a: {b: None, c: {d: None}}}` |
| AsciiParser.NestingRun | app.py:30-92 | the four lines of that text, read one by one from the empty root, build that mapping |
| AsciiParser.ParseSpec | app.py:24-94 | the parsed tree is a mapping with distinct keys at every level, made only of mappings and files, every name non-empty and free of connector glyphs |
| AsciiParser.ParseAscii | app.py:24-94 | the parser returns the tree that `ParseSpec` defines |
| AsciiParser.ParseLines | app.py:30-94 | the loop over the lines, with the stack in local variables, yields the fold of `Step` |
| AsciiParser.ParseLine | app.py:30-92 | the loop body for one line computes `Step` |
| Validator.TopLevelMessage | app.py:119-134 | a bad top-level name is reported with a leading slash, a bad nested name with its parent's path; names inside lists are not looked at |
| Validator.ValidateFromPreorder | app.py:119-132 | the recursive walk reports, in walk order, one message per listed path whose last name is bad |
| Validator.ValidatePreorder | app.py:115-135 | the issues of a structure are the messages for its walk-order listing |
| Validator.ValidateExact | app.py:115-135 | a message is reported if and only if it names a reachable key holding a reserved character, through that key's path |
| Validator.ValidateSound | app.py:119-132 | every reported message comes from a reachable key with a reserved character |
| Validator.ValidateComplete | app.py:119-132 | every reachable key with a reserved character is reported |
| Validator.ValidateClean | app.py:115-135 | no issue is reported if and only if no reachable key holds a reserved character |
| Creator.JoinParts | app.py:147 | the joined path ends with the second part; an absolute second part is the whole result; otherwise the first part comes first and one slash separates them unless the first part is empty or already ends with a slash |
| Creator.JoinAssoc | app.py:147 | joining in steps gives the same path whatever the grouping, so a nested entry's path is the base joined with all its names |
| Creator.Dirname | app.py:154 | the parent directory is a prefix of the path; the characters between it and the last slash are slashes |
| Creator.Chain | app.py:156 | the directories made by `makedirs` include the path itself |
| Creator.RenderMarksDryRun | app.py:161-186 | a creation line carries `[DRY RUN] ` right after its icon exactly when it comes from a dry run |
| Creator.FileSystem.MakeDirs | app.py:166 | `makedirs` succeeds exactly when the model allows it, and then adds the whole directory chain; on failure nothing changes |
| Creator.FileSystem.OpenWrite | app.py:159-160 | `open(p, 'w')` succeeds exactly when the model allows it, and then adds the file; on failure nothing changes |
| Creator.CreateStructure | app.py:138-197 | the walk makes the file system state and log of the `Run` function; a structure that is not a mapping logs nothing and changes nothing |
| Creator.CreateEntries | app.py:146-192 | the loop over a mapping's entries makes the state and log of `RunEntries` |
| Creator.CreateEntry | app.py:146-192 | one entry's log followed by the rest of the run is the run from that entry |
| Creator.CreateKey | app.py:149-192 | one entry with its `try` makes the state and log of `RunKey`, including the caught failure |
| Creator.CreateItems | app.py:179-189 | the loop over a list's items makes the state, log and completion flag of `RunItems` |
| CreatorLaws.DryRunTouchesNothing | app.py:150-189 | a dry run leaves the file system as it was, its log does not depend on the file system, and every line is a creation marked as a dry run |
| CreatorLaws.PreviewIsListing | app.py:138-197 | for any structure, the dry-run log is one line per visited entry in walk order, with its kind and joined path: a file for `None` or `""`, a folder for a mapping or list followed by its contents, a file for each string in a list, nothing for other values |
| CreatorLaws.Skipped | app.py:150-189 | a value that is neither a file, a mapping nor a list makes nothing and logs nothing, dry or real |
| CreatorLaws.PreviewIsPreorder | app.py:138-197 | for a tree of folders and files only, such as the parser builds, the dry-run log is one line per reachable key in walk order, with the joined path and the folder or file kind |
| CreatorLaws.ParsedPreview | app.py:194-195 | the dry-run log of any parsed ASCII tree is its walk-order listing |
| CreatorLaws.RealRunIsTruthful | app.py:149-192 | a real run only adds directories and files, and every creation it logs is unmarked and present afterwards |
| CreatorLaws.PreviewIsFaithful | app.py:149-192 | a real run that logs no error logs exactly the dry run's lines without the marker |
| CreatorLaws.FileListStops | app.py:179-192 | in a list made only of file names, the files are logged in order until the first one that cannot be opened; the list completes exactly when every item was handled, and otherwise that file's open failed |
| CreatorFailures.KeyOutcome | app.py:149-192 | an entry's first line is its creation, or, when its own `makedirs` or `open` fails in a real run, its error; then the error is the entry's whole log and nothing below it is made |
| CreatorFailures.EntriesSplit | app.py:146-192 | the run over a mapping is the run over the entries before any point followed by the run from that point in the state they left |
| CreatorFailures.EveryEntryLogged | app.py:146-192 | for every top-level entry holding a file, a mapping or a list, the log is the log of the entries before it, then the entry's creation or, exactly when its own operation fails in the state they left, its error |
| CreatorFailures.ListStops | app.py:172-192 | when a list's items do not all run, the entry logs its folder, the lines of the items before the first file that cannot be opened, and one error naming the folder; that file is a string item whose open failed, and nothing after it is logged or made |
| CreatorFailures.EveryFailureExplained | app.py:149-192 | every error line of a real run names the path of an event the run reached whose operation failed: an entry whose own `makedirs` or `open` failed in the state the entry started in, or a list whose file name could not be opened in the state its earlier items left; every event is for a value nested in the structure and in a state between the start and the end of the run |
| CreatorAgain.MakeDirsAgain | app.py:166 | `makedirs(p, exist_ok=True)` on a state holding what an earlier successful call made succeeds and changes nothing |
| CreatorAgain.OpenAgain | app.py:159-160 | `open(p, 'w')` on a state holding the file an earlier successful call made succeeds and changes nothing |
| CreatorAgain.RunAgain | app.py:149-192 | a real run that logged no error, repeated on the state it left, logs the same lines and leaves that state unchanged, for every structure and file system |

## Left out

- The Streamlit page, the input widgets, the upload and the archive download are not modelled. They are presentation around the engine.
- `parse_json` and `parse_yaml` are not modelled. They call library decoders, so the decoded structure is an input (`Value`), and their error display is not modelled either.
- Real operating-system calls are not modelled. The `FileSystem` object keeps sets of directories and files. Failures for reasons outside the model (permissions, a full disk, invalid names) come from a fixed set of refused paths.
- `os.path.join` with more than two parts is not used by the code and is not modelled. Path normalisation is not modelled: `.`, `..`, repeated slashes and symbolic links are taken literally. `makedirs` is taken to make every prefix of the path that ends before a slash.
- File contents are not modelled. Re-opening an existing file for writing only keeps it in the file set.
- Render: an error line ends at the colon. The exception's own message (`str(e)`) is not modelled because it comes from the operating system.
- Keys are strings in the model. A non-string key from YAML (a number, say) makes `os.path.join` raise. For a top-level key (`app.py:147` in the first call) that is outside any `try`. For a nested key, reached through `app.py:170` or `app.py:189`, it is inside the enclosing entry's `try` and is logged as that entry's error.
- `str.strip()` and the regular-expression class `\s` are fixed to six characters: space, tab, line feed, carriage return, vertical tab and form feed. Python also counts `\x1c`-`\x1f`, `\x85`, `\xa0`, U+1680, U+2000-U+200A, U+2028, U+2029, U+202F, U+205F and U+3000. A name holding those at either end keeps them in the model.
- A failed `os.makedirs` that made some parents before failing is not modelled: in the model `makedirs` and `open` each succeed in full or change nothing.
- The unused `path` parameter of `validate_structure` is not modelled.
- Aliasing of nested dictionaries is not modelled. A frame holds its folder's path from the root rather than a reference to it. Every popped frame is deeper than the place where a name is set, so no remaining frame refers to a replaced folder.
- Dirname: the contract states only that the result is a prefix of the path ending where the trailing slashes before the last name start. That it is exactly `os.path.dirname` rests on the definition.
- Chain: the contract states only that the path itself is made. The other directories follow from the definition.
