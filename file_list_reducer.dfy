/** The prompt compiler of src/core/fileListReducer.ts. It takes the chosen
    files as an insertion-ordered dictionary from path to content and lays them
    out as one Markdown document: a title naming the project, a directory
    outline, then one fenced section per non-blank file with its backticks
    escaped. */
module FileListReducer {
  import opened Results
  import opened Strings
  import opened OrderedDict

  // ---------------------------------------------------------------------------
  // escapeBackticks

  const Backtick: char := '`'
  const Backslash: char := '\\'

  /** The number of occurrences of `c` in `s`. */
  function CountOf(s: string, c: char): nat
  {
    if s == [] then 0 else (if s[0] == c then 1 else 0) + CountOf(s[1..], c)
  }

  /** `content.replace(/`/g, '\\`')`: a backslash goes in front of every
      backtick. Every backtick of the result has a backslash right before it,
      and the result is longer by the number of backticks. */
  function Escape(s: string): (r: string)
    ensures |r| == |s| + CountOf(s, Backtick)
    ensures forall i :: 0 <= i < |r| && r[i] == Backtick ==> 0 < i && r[i - 1] == Backslash
  {
    if s == [] then []
    else
      var rest := Escape(s[1..]);
      var head := if s[0] == Backtick then [Backslash, Backtick] else [s[0]];
      assert forall i :: |head| <= i < |head| + |rest| ==> (head + rest)[i] == rest[i - |head|];
      head + rest
  }

  /** Reading an escaped text back: a backslash followed by a backtick stands
      for the backtick alone. */
  function Unescape(r: string): string
  {
    if r == [] then []
    else if |r| >= 2 && r[0] == Backslash && r[1] == Backtick then [Backtick] + Unescape(r[2..])
    else [r[0]] + Unescape(r[1..])
  }

  /** Escaping loses nothing: every other character is left as it was. */
  lemma {:induction false} UnescapeEscape(s: string)
    ensures Unescape(Escape(s)) == s
  {
    if s != [] {
      UnescapeEscape(s[1..]);
      var rest := Escape(s[1..]);
      if s[0] == Backtick {
        assert Escape(s) == [Backslash, Backtick] + rest;
        assert Escape(s)[2..] == rest;
      } else {
        assert Escape(s) == [s[0]] + rest;
        assert Escape(s)[1..] == rest;
        if s[0] == Backslash && rest != [] {
          assert rest[0] != Backtick;
        }
      }
    }
  }

  /** No two backticks are adjacent in escaped text. */
  lemma NoAdjacentBackticks(s: string)
    ensures forall i :: 0 <= i < |Escape(s)| - 1 ==> !(Escape(s)[i] == Backtick && Escape(s)[i + 1] == Backtick)
  {
  }

  /** So escaped file content never holds the fence that would close its block. */
  lemma NoFenceInEscaped(s: string)
    ensures !Includes(Escape(s), "```")
  {
    var r := Escape(s);
    NoAdjacentBackticks(s);
    forall i | 0 <= i ensures !OccursAt(r, "```", i) {
      if i + 3 <= |r| {
        assert r[i..i + 3][0] == r[i] && r[i..i + 3][1] == r[i + 1];
      }
    }
  }

  // ---------------------------------------------------------------------------
  // The directory outline

  /** A value of the nested `structure` object: `null` for a file, a nested
      object for a folder. */
  datatype Shape = File | Folder(entries: seq<Entry>)

  /** One key of a nested object, with its value; the keys of one object are
      kept in insertion order. */
  datatype Entry = Entry(name: string, shape: Shape)

  function Names(entries: seq<Entry>): (names: seq<string>)
    ensures |names| == |entries|
    ensures forall i :: 0 <= i < |entries| ==> names[i] == entries[i].name
  {
    if entries == [] then [] else [entries[0].name] + Names(entries[1..])
  }

  /** `current[name]`: the value under a key, if present. */
  function Lookup(entries: seq<Entry>, name: string): (r: Option<Shape>)
    ensures r.None? <==> name !in Names(entries)
  {
    if entries == [] then None
    else if entries[0].name == name then Some(entries[0].shape)
    else Lookup(entries[1..], name)
  }

  /** `current[name] = shape`: an existing key keeps its place and takes the new
      value, a new key goes at the end. */
  function Assign(entries: seq<Entry>, name: string, shape: Shape): (r: seq<Entry>)
    ensures Names(r) == if name in Names(entries) then Names(entries) else Names(entries) + [name]
  {
    if entries == [] then [Entry(name, shape)]
    else if entries[0].name == name then
      var r := [Entry(name, shape)] + entries[1..];
      assert r[1..] == entries[1..];
      assert Names(r) == [name] + Names(entries[1..]) == Names(entries);
      r
    else
      var rest := Assign(entries[1..], name, shape);
      var r := [entries[0]] + rest;
      assert r[1..] == rest;
      assert Names(r) == [entries[0].name] + Names(rest);
      assert Names(entries) == [entries[0].name] + Names(entries[1..]);
      r
  }

  /** After the assignment the key holds the new value and every other key is unchanged. */
  lemma {:induction false} AssignLookup(entries: seq<Entry>, name: string, shape: Shape, n: string)
    ensures Lookup(Assign(entries, name, shape), n) == if n == name then Some(shape) else Lookup(entries, n)
  {
    if entries != [] && entries[0].name != name {
      AssignLookup(entries[1..], name, shape, n);
      var r := Assign(entries, name, shape);
      assert r[0] == entries[0] && r[1..] == Assign(entries[1..], name, shape);
    }
  }

  /** The shape an inserted path leaves under its first segment. */
  function InsertedShape(entries: seq<Entry>, parts: seq<string>): Shape
    requires parts != []
    decreases parts, 0
  {
    if |parts| == 1 then File
    else
      var below := match Lookup(entries, parts[0]) case Some(Folder(es)) => es case _ => [];
      Folder(InsertPath(below, parts[1..]))
  }

  /** `path.split('/').filter(Boolean)`: the path's segments without the empty ones. */
  function Segments(path: string): (parts: seq<string>)
    ensures parts == NonEmpty(Split(path, '/'))
    ensures forall i :: 0 <= i < |parts| ==> parts[i] != "" && '/' !in parts[i]
  {
    var split := Split(path, '/');
    var parts := NonEmpty(split);
    assert forall i :: 0 <= i < |parts| ==> parts[i] in split;
    parts
  }

  /** `filter(Boolean)` on strings: the non-empty ones, in order. */
  function NonEmpty(parts: seq<string>): (r: seq<string>)
    ensures |r| <= |parts|
    ensures forall x :: x in r <==> x in parts && x != ""
  {
    if parts == [] then []
    else (if parts[0] == "" then [] else [parts[0]]) + NonEmpty(parts[1..])
  }

  /** Filtering keeps the order: filtering a concatenation filters each part. */
  lemma {:induction false} NonEmptyAppend(a: seq<string>, b: seq<string>)
    ensures NonEmpty(a + b) == NonEmpty(a) + NonEmpty(b)
  {
    if a != [] {
      assert (a + b)[0] == a[0] && (a + b)[1..] == a[1..] + b;
      NonEmptyAppend(a[1..], b);
    } else {
      assert a + b == b;
    }
  }

  /** Nothing is dropped when no piece is empty. */
  lemma {:induction false} NonEmptyKeepsAll(parts: seq<string>)
    requires forall i :: 0 <= i < |parts| ==> parts[i] != ""
    ensures NonEmpty(parts) == parts
  {
    if parts != [] {
      NonEmptyKeepsAll(parts[1..]);
    }
  }

  /** Empty pieces, from leading, trailing or doubled slashes, are all dropped. */
  lemma NonEmptyDropsEmpty(a: seq<string>, b: seq<string>)
    ensures NonEmpty(a + [""] + b) == NonEmpty(a) + NonEmpty(b)
  {
    NonEmptyAppend(a + [""], b);
    NonEmptyAppend(a, [""]);
  }

  /** The segments of a path joined from non-empty, slash-free names are those names. */
  lemma SegmentsJoin(names: seq<string>)
    requires |names| >= 1
    requires forall i :: 0 <= i < |names| ==> names[i] != "" && '/' !in names[i]
    ensures Segments(Join(names, '/')) == names
  {
    SplitJoin(names, '/');
    NonEmptyKeepsAll(names);
  }

  /** One path walked into the structure: every segment but the last becomes a
      folder (a missing key or a file in the way is replaced by a fresh empty
      object, an existing folder is entered), and the last is set to a file. */
  function InsertPath(entries: seq<Entry>, parts: seq<string>): seq<Entry>
    decreases parts, 1
  {
    if parts == [] then entries
    else Assign(entries, parts[0], InsertedShape(entries, parts))
  }

  /** The shape reached by following `parts` from the top. */
  function Find(entries: seq<Entry>, parts: seq<string>): Option<Shape>
    requires parts != []
    decreases parts
  {
    match Lookup(entries, parts[0])
    case None => None
    case Some(shape) =>
      if |parts| == 1 then Some(shape)
      else if shape.File? then None
      else Find(shape.entries, parts[1..])
  }

  /** After inserting a path, the path leads to a file. */
  lemma {:induction false} InsertPathEndsInFile(entries: seq<Entry>, parts: seq<string>)
    requires parts != []
    ensures Find(InsertPath(entries, parts), parts) == Some(File)
    decreases parts
  {
    AssignLookup(entries, parts[0], InsertedShape(entries, parts), parts[0]);
    if |parts| > 1 {
      var below := match Lookup(entries, parts[0]) case Some(Folder(es)) => es case _ => [];
      InsertPathEndsInFile(below, parts[1..]);
    }
  }

  /** After inserting a path, each of its proper prefixes leads to a folder. */
  lemma {:induction false} InsertPathMakesFolders(entries: seq<Entry>, parts: seq<string>, k: nat)
    requires 0 < k < |parts|
    ensures Find(InsertPath(entries, parts), parts[..k]).Some?
    ensures Find(InsertPath(entries, parts), parts[..k]).value.Folder?
    decreases parts
  {
    var below := match Lookup(entries, parts[0]) case Some(Folder(es)) => es case _ => [];
    AssignLookup(entries, parts[0], InsertedShape(entries, parts), parts[0]);
    assert parts[..k][0] == parts[0];
    if k > 1 {
      InsertPathMakesFolders(below, parts[1..], k - 1);
      assert parts[..k][1..] == parts[1..][..k - 1];
    }
  }

  /** Inserting a path touches only the key of its first segment, which keeps
      its place when present and is appended otherwise. */
  lemma InsertPathTopLevel(entries: seq<Entry>, parts: seq<string>)
    requires parts != []
    ensures Names(InsertPath(entries, parts)) ==
              if parts[0] in Names(entries) then Names(entries) else Names(entries) + [parts[0]]
    ensures forall n :: n != parts[0] ==> Lookup(InsertPath(entries, parts), n) == Lookup(entries, n)
  {
    forall n | n != parts[0] ensures Lookup(InsertPath(entries, parts), n) == Lookup(entries, n) {
      AssignLookup(entries, parts[0], InsertedShape(entries, parts), n);
    }
  }

  /** A path that passes through a name currently marked as a file turns it
      back into a folder, which starts empty. */
  lemma PassingThroughFile(entries: seq<Entry>, parts: seq<string>)
    requires |parts| >= 2 && Lookup(entries, parts[0]) == Some(File)
    ensures Lookup(InsertPath(entries, parts), parts[0]) == Some(Folder(InsertPath([], parts[1..])))
  {
    AssignLookup(entries, parts[0], InsertedShape(entries, parts), parts[0]);
  }

  /** A path that ends at a name currently holding a folder resets it to a
      file, and the folder's contents are gone from the outline. */
  lemma EndingAtFolder(entries: seq<Entry>, name: string, es: seq<Entry>)
    requires Lookup(entries, name) == Some(Folder(es))
    ensures Lookup(InsertPath(entries, [name]), name) == Some(File)
  {
    AssignLookup(entries, name, File, name);
  }

  /** The structure built from the keys, one path after another (`Object.keys(files).forEach`). */
  function Outline(keys: seq<string>): seq<Entry>
  {
    if keys == [] then []
    else InsertPath(Outline(keys[..|keys| - 1]), Segments(keys[|keys| - 1]))
  }

  /** The outline of one more key inserts that key's path into the outline so far. */
  lemma OutlineSnoc(keys: seq<string>, i: nat)
    requires i < |keys|
    ensures Outline(keys[..i + 1]) == InsertPath(Outline(keys[..i]), Segments(keys[i]))
  {
    assert keys[..i + 1][..i] == keys[..i];
  }

  /** Every key with a segment shows up in the outline under its first segment,
      whatever comes after it. */
  lemma {:induction false} OutlineHasFirstSegments(keys: seq<string>, j: nat)
    requires j < |keys| && Segments(keys[j]) != []
    ensures Segments(keys[j])[0] in Names(Outline(keys))
  {
    var init := keys[..|keys| - 1];
    var parts := Segments(keys[|keys| - 1]);
    if j < |keys| - 1 {
      OutlineHasFirstSegments(init, j);
      assert keys[j] == init[j];
      if parts != [] {
        InsertPathTopLevel(Outline(init), parts);
      }
    } else {
      InsertPathTopLevel(Outline(init), parts);
    }
  }

  /** The last key's path always leads to a file. */
  lemma LastKeyIsFile(keys: seq<string>)
    requires keys != [] && Segments(keys[|keys| - 1]) != []
    ensures Find(Outline(keys), Segments(keys[|keys| - 1])) == Some(File)
  {
    InsertPathEndsInFile(Outline(keys[..|keys| - 1]), Segments(keys[|keys| - 1]));
  }

  /** `stringifyStructure(obj, indent)`: one line per key in order, the key
      after the indent with a `/` when it holds a folder, and a folder's
      contents right after it, two spaces further in. */
  function Render(entries: seq<Entry>, indent: string): string
    decreases entries
  {
    if entries == [] then ""
    else
      assert entries[0] in entries;
      Block(entries[0], indent) + Render(entries[1..], indent)
  }

  /** The line of one key, `${indent}${key}${obj[key] ? '/' : ''}\n`. */
  function Line(e: Entry, indent: string): string
  {
    indent + e.name + (if e.shape.Folder? then "/" else "") + "\n"
  }

  /** The line of one key followed, for a folder, by its contents. */
  function Block(e: Entry, indent: string): string
    decreases e
  {
    Line(e, indent) + (if e.shape.Folder? then Render(e.shape.entries, indent + "  ") else "")
  }

  /** Two spaces per level of depth. */
  function Indent(depth: nat): (r: string)
    ensures |r| == 2 * depth && forall i :: 0 <= i < |r| ==> r[i] == ' '
  {
    if depth == 0 then "" else Indent(depth - 1) + "  "
  }

  /** One outline row: its depth, its name, and whether it is a folder. */
  datatype Row = Row(depth: nat, name: string, folder: bool)

  /** The rows of an outline, top to bottom: each key followed by the rows of
      its folder one level deeper. */
  function Rows(entries: seq<Entry>, depth: nat): seq<Row>
    decreases entries
  {
    if entries == [] then []
    else
      var e := entries[0];
      assert e in entries;
      [Row(depth, e.name, e.shape.Folder?)]
      + (if e.shape.Folder? then Rows(e.shape.entries, depth + 1) else [])
      + Rows(entries[1..], depth)
  }

  /** The text of rows, one line each. */
  function RowsText(rows: seq<Row>): string
  {
    if rows == [] then ""
    else
      var r := rows[0];
      Indent(r.depth) + r.name + (if r.folder then "/" else "") + "\n" + RowsText(rows[1..])
  }

  lemma {:induction false} RowsTextAppend(a: seq<Row>, b: seq<Row>)
    ensures RowsText(a + b) == RowsText(a) + RowsText(b)
  {
    if a == [] {
      assert a + b == b;
    } else {
      assert (a + b)[0] == a[0] && (a + b)[1..] == a[1..] + b;
      RowsTextAppend(a[1..], b);
    }
  }

  /** The rendered outline is the rows' text: every key on its own line,
      indented by two spaces per level, with `/` after folders only. */
  lemma {:induction false} RenderIsRows(entries: seq<Entry>, depth: nat)
    ensures Render(entries, Indent(depth)) == RowsText(Rows(entries, depth))
    decreases entries
  {
    if entries != [] {
      var e := entries[0];
      assert e in entries;
      var head := [Row(depth, e.name, e.shape.Folder?)];
      var sub := if e.shape.Folder? then Rows(e.shape.entries, depth + 1) else [];
      var tail := Rows(entries[1..], depth);
      if e.shape.Folder? {
        RenderIsRows(e.shape.entries, depth + 1);
      }
      RenderIsRows(entries[1..], depth);
      RowsTextAppend(head + sub, tail);
      RowsTextAppend(head, sub);
    }
  }

  lemma RenderAt(entries: seq<Entry>, i: nat, indent: string)
    requires i < |entries|
    ensures Render(entries[i..], indent) == Block(entries[i], indent) + Render(entries[i + 1..], indent)
  {
    assert entries[i..][1..] == entries[i + 1..];
  }

  /** `stringifyStructure`: the loop over the object's keys appending to
      `result`, recursing into folders. */
  method Stringify(entries: seq<Entry>, indent: string) returns (result: string)
    ensures result == Render(entries, indent)
    decreases entries
  {
    result := "";
    for i := 0 to |entries|
      invariant result + Render(entries[i..], indent) == Render(entries, indent)
    {
      var e := entries[i];
      assert e in entries;
      RenderAt(entries, i, indent);
      var block := StringifyEntry(e, indent);
      result := result + block;
    }
    assert entries[|entries|..] == [];
  }

  /** One turn of `stringifyStructure`'s loop: the key's line, then a
      folder's contents one level deeper. */
  method StringifyEntry(e: Entry, indent: string) returns (block: string)
    ensures block == Block(e, indent)
    decreases e
  {
    block := Line(e, indent);
    if e.shape.Folder? {
      var inner := Stringify(e.shape.entries, indent + "  ");
      block := block + inner;
    }
  }

  /** What `generateFolderStructure(files)` returns for the keys of `files`. */
  function FolderStructure(keys: seq<string>): string
  {
    "```\n" + Render(Outline(keys), "") + "```"
  }

  /** `generateFolderStructure(files)`: each key's path inserted in key order,
      the structure rendered and wrapped in a fence. */
  method GenerateFolderStructure(files: Dict<string>) returns (text: string)
    ensures text == FolderStructure(Keys(files))
  {
    var keys := Keys(files);
    var structure: seq<Entry> := [];
    for i := 0 to |keys|
      invariant structure == Outline(keys[..i])
    {
      OutlineSnoc(keys, i);
      structure := InsertPath(structure, Segments(keys[i]));
    }
    assert keys[..|keys|] == keys;
    var body := Stringify(structure, "");
    text := "```\n" + body + "```";
  }

  // ---------------------------------------------------------------------------
  // fileListReducer

  /** What `fileListReducer` returns: the document and the project name. */
  datatype Prompt = Prompt(content: string, root: string)

  /** With no files, `Object.keys(files)[0]` is undefined and reading `split`
      of it throws. */
  datatype ReduceError = NoFiles

  const Title: string := "# Codebase: "

  /** `filePath.split('/')[0]`. */
  function ProjectName(path: string): string
  {
    Split(path, '/')[0]
  }

  /** `filePath.split('/').slice(1).join('/')`. */
  function Heading(path: string): string
  {
    Join(Split(path, '/')[1..], '/')
  }

  /** White space only: the contents for which `content.trim().length === 0`
      (see `TrimEmptyIff`). */
  predicate Blank(content: string)
  {
    AllWhiteSpace(content)
  }

  /** The project name is the path up to its first slash (all of it when it has none). */
  lemma ProjectNameIsFirstSegment(path: string)
    ensures ProjectName(path) <= path && '/' !in ProjectName(path)
    ensures |ProjectName(path)| == |path| || path[|ProjectName(path)|] == '/'
  {
    var parts := Split(path, '/');
    JoinSplit(path, '/');
    if |parts| >= 2 {
      JoinCons(parts, '/');
    }
  }

  /** The heading is the path after its first slash, or empty when it has none. */
  lemma {:induction false} HeadingDropsFirstSegment(path: string)
    ensures '/' in path ==> path == ProjectName(path) + "/" + Heading(path)
    ensures '/' !in path ==> Heading(path) == ""
  {
    var parts := Split(path, '/');
    JoinSplit(path, '/');
    if |parts| >= 2 {
      JoinCons(parts, '/');
    } else {
      assert path == parts[0];
      assert parts[1..] == [];
    }
  }

  /** The section of one non-blank file. */
  function Section(path: string, content: string): string
  {
    "### " + Heading(path) + "\n" + "```\n" + Escape(content) + "\n```\n\n"
  }

  /** What one file adds: its section, or nothing when its content is blank. */
  function Piece(path: string, content: string): string
  {
    if Blank(content) then "" else Section(path, content)
  }

  /** The pieces of the entries, concatenated in key order. */
  function ConcatPieces(files: Dict<string>, piece: (string, string) -> string): string
  {
    if files == [] then ""
    else
      var (path, content) := files[|files| - 1];
      ConcatPieces(files[..|files| - 1], piece) + piece(path, content)
  }

  lemma {:induction false} ConcatPiecesAppend(a: Dict<string>, b: Dict<string>, piece: (string, string) -> string)
    ensures ConcatPieces(a + b, piece) == ConcatPieces(a, piece) + ConcatPieces(b, piece)
    decreases |b|
  {
    if b == [] {
      assert a + b == a;
    } else {
      var init := b[..|b| - 1];
      assert (a + b)[..|a + b| - 1] == a + init;
      assert (a + b)[|a + b| - 1] == b[|b| - 1];
      ConcatPiecesAppend(a, init, piece);
    }
  }

  lemma ConcatPiecesSnoc(files: Dict<string>, i: nat, piece: (string, string) -> string)
    requires i < |files|
    ensures ConcatPieces(files[..i + 1], piece) == ConcatPieces(files[..i], piece) + piece(files[i].0, files[i].1)
  {
    assert files[..i + 1][..i] == files[..i];
  }

  /** The sections of the files in key order, blank files left out. */
  function Sections(files: Dict<string>): string
  {
    ConcatPieces(files, Piece)
  }

  /** A file contributes its own section at its place in key order, or nothing
      when its content is blank. */
  lemma SectionOfFile(before: Dict<string>, path: string, content: string, after: Dict<string>)
    ensures Blank(content) ==> Sections(before + [(path, content)] + after) == Sections(before) + Sections(after)
    ensures !Blank(content) ==>
              Sections(before + [(path, content)] + after) == Sections(before) + Section(path, content) + Sections(after)
  {
    assert Sections(before + [(path, content)] + after) == Sections(before) + Piece(path, content) + Sections(after) by {
      ConcatPiecesAround(before, path, content, after, Piece);
    }
  }

  lemma ConcatPiecesAround(before: Dict<string>, path: string, content: string, after: Dict<string>,
                           piece: (string, string) -> string)
    ensures ConcatPieces(before + [(path, content)] + after, piece)
            == ConcatPieces(before, piece) + piece(path, content) + ConcatPieces(after, piece)
  {
    ConcatPiecesAppend(before + [(path, content)], after, piece);
    ConcatPiecesAppend(before, [(path, content)], piece);
    assert [(path, content)][..0] == [];
  }

  /** The document before trimming. */
  function Layout(root: string, outline: string, sections: string): string
  {
    Title + root + "\n\n" + "## Directory Structure\n" + outline + "\n\n" + "## File Contents\n\n" + sections
  }

  /** `fileListReducer(files)`. */
  function Compiled(files: Dict<string>): (r: Result<Prompt, ReduceError>)
    ensures r.Failure? <==> files == []
    ensures r.Failure? ==> r.error == NoFiles
    ensures r.Success? ==> '/' !in r.value.root && r.value.root <= files[0].0
    ensures r.Success? ==> |r.value.root| == |files[0].0| || files[0].0[|r.value.root|] == '/'
  {
    if files == [] then Failure(NoFiles)
    else
      var root := ProjectName(files[0].0);
      ProjectNameIsFirstSegment(files[0].0);
      Success(Prompt(Trim(Layout(root, FolderStructure(Keys(files)), Sections(files))), root))
  }

  /** Only an empty dictionary fails. Otherwise the document starts with
      "# Codebase: " and the project name, goes on past it, and ends in a
      character that is not white space. */
  lemma CompiledDocument(files: Dict<string>)
    ensures Compiled(files).Failure? <==> files == []
    ensures Compiled(files).Success? ==>
              var p := Compiled(files).value;
              && Title + p.root < p.content
              && !IsWhiteSpace(p.content[|p.content| - 1])
  {
    if files != [] {
      TitleSurvivesTrim(ProjectName(files[0].0), FolderStructure(Keys(files)), Sections(files));
    }
  }

  lemma TitleSurvivesTrim(root: string, outline: string, sections: string)
    ensures Title + root < Trim(Layout(root, outline, sections))
    ensures !IsWhiteSpace(Trim(Layout(root, outline, sections))[|Trim(Layout(root, outline, sections))| - 1])
  {
    var head := Title + root;
    var rest := "\n\n" + "## Directory Structure\n" + outline + "\n\n" + "## File Contents\n\n" + sections;
    var x := Layout(root, outline, sections);
    assert x == head + rest;
    assert !AllWhiteSpace(rest) by {
      assert rest[2] == '#';
    }
    assert Trim(x) == head + TrimEnd(rest) by {
      assert x[0] == '#';
      TrimStartNonSpace(x);
      TrimEndAppend(head, rest);
    }
  }

  lemma AppendFive(s: string, a: string, b: string, c: string, d: string, e: string, f: string)
    ensures s + a + b + c + d + e + f == s + (a + b + c + d + e + f)
  {
  }

  /** One turn of the loop over `Object.entries(files)`: a blank file is
      skipped, any other gets its heading, its opening fence, its escaped
      content and the closing fence. */
  method AppendSection(content: string, filePath: string, fileContent: string) returns (content': string)
    ensures content' == content + Piece(filePath, fileContent)
  {
    content' := content;
    TrimEmptyIff(fileContent);
    if Trim(fileContent) == [] {
      return;
    }
    var fileName := Heading(filePath);
    content' := content' + "### " + fileName + "\n";
    content' := content' + "```\n";
    content' := content' + Escape(fileContent);
    content' := content' + "\n```\n\n";
    AppendFive(content, "### ", fileName, "\n", "```\n", Escape(fileContent), "\n```\n\n");
  }

  /** The loop over `Object.entries(files)` that appends the sections. */
  method AppendSections(content: string, files: Dict<string>) returns (content': string)
    ensures content' == content + Sections(files)
  {
    content' := content;
    for i := 0 to |files|
      invariant content' == content + ConcatPieces(files[..i], Piece)
    {
      var (filePath, fileContent) := files[i];
      ConcatPiecesSnoc(files, i, Piece);
      content' := AppendSection(content', filePath, fileContent);
    }
    assert files[..|files|] == files;
  }

  /** `fileListReducer(files)`: the title, the outline and then, in key order,
      a section for every file whose content is not blank; the whole trimmed. */
  method FileListReducer(files: Dict<string>) returns (r: Result<Prompt, ReduceError>)
    ensures r == Compiled(files)
  {
    if files == [] {
      return Failure(NoFiles);
    }
    var projectName := ProjectName(Keys(files)[0]);
    var content := Title + projectName + "\n\n";
    content := content + "## Directory Structure\n";
    var outline := GenerateFolderStructure(files);
    content := content + outline + "\n\n";
    content := content + "## File Contents\n\n";
    content := AppendSections(content, files);
    r := Success(Prompt(Trim(content), projectName));
  }
}
