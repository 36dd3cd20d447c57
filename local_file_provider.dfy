/** The folder-backed source provider of src/core/LocalFileProvider.ts. The
    browser's directory handle is replaced by an in-memory tree: a directory is
    the sequence of its entries in the order the handle enumerates them, and a
    file handle carries the file's size and text. `getDirectoryHandle` and
    `getFileHandle` of a directory handle become lookups in that sequence. */
module LocalFileProvider {
  import opened Results
  import opened Types
  import opened Strings
  import opened OrderedDict

  /** What `fileHandle.getFile()` yields: the file's size and its `text()`. */
  datatype FileHandle = FileHandle(size: nat, text: string)

  datatype Node = File(handle: FileHandle) | Dir(children: seq<Entry>)

  /** One `[name, handle]` pair of `dirHandle.entries()`. */
  datatype Entry = Entry(name: string, node: Node)

  /** The handle passed to `loadContents`: a named directory. */
  datatype Directory = Directory(name: string, children: seq<Entry>)

  datatype ProviderError =
    | NoDirectoryLoaded       // "No directory loaded"
    | InvalidName(name: string)   // TypeError: not a valid entry name
    | NotFound(name: string)      // NotFoundError: no entry of that name
    | TypeMismatch(name: string)  // TypeMismatchError: the entry is a file, not a directory

  /** A name the handle lookups accept: not empty, not "." or "..", no slash. */
  predicate ValidName(name: string)
  {
    name != "" && name != "." && name != ".." && '/' !in name
  }

  /** The first entry of a directory with the given name. */
  function Find(children: seq<Entry>, name: string): (r: Option<Node>)
    ensures r.Some? ==> exists i :: 0 <= i < |children| && children[i].name == name && children[i].node == r.value
  {
    if children == [] then None
    else if children[0].name == name then Some(children[0].node)
    else
      var r := Find(children[1..], name);
      if r.Some? then
        var i :| 0 <= i < |children[1..]| && children[1..][i].name == name && children[1..][i].node == r.value;
        assert children[i + 1] == children[1..][i];
        r
      else r
  }

  /** The lookup finds nothing exactly when no entry has the name. */
  lemma {:induction false} FindAbsent(children: seq<Entry>, name: string)
    ensures Find(children, name).None? <==> forall i :: 0 <= i < |children| ==> children[i].name != name
  {
    if children != [] {
      FindAbsent(children[1..], name);
      assert forall i :: 1 <= i < |children| ==> children[i] == children[1..][i - 1];
    }
  }

  /** `dirHandle.getDirectoryHandle(name)`: the sub-directory, or the exception it throws. */
  function GetDirectoryHandle(children: seq<Entry>, name: string): (r: Result<seq<Entry>, ProviderError>)
    ensures r.Success? <==> ValidName(name) && Find(children, name).Some? && Find(children, name).value.Dir?
    ensures r.Success? ==> Find(children, name) == Some(Dir(r.value))
    ensures !ValidName(name) ==> r == Failure(InvalidName(name))
    ensures ValidName(name) && Find(children, name).None? ==> r == Failure(NotFound(name))
    ensures ValidName(name) && Find(children, name).Some? && Find(children, name).value.File? ==> r == Failure(TypeMismatch(name))
  {
    if !ValidName(name) then Failure(InvalidName(name))
    else
      match Find(children, name)
      case None => Failure(NotFound(name))
      case Some(File(_)) => Failure(TypeMismatch(name))
      case Some(Dir(cs)) => Success(cs)
  }

  /** `dirHandle.getFileHandle(name)` inside the `try`: any exception becomes `null`. */
  function LookupFile(children: seq<Entry>, name: string): (r: Option<FileHandle>)
    ensures r.Some? <==> ValidName(name) && Find(children, name).Some? && Find(children, name).value.File?
    ensures r.Some? ==> Find(children, name) == Some(File(r.value))
  {
    if !ValidName(name) then None
    else
      match Find(children, name)
      case Some(File(h)) => Some(h)
      case _ => None
  }

  /** `path ? `${path}/${name}` : name`. */
  function EntryPath(path: string, name: string): string
  {
    if path == "" then name else path + "/" + name
  }

  /** The listing the traversal appends for entries `k..` of a directory at
      relative path `path`, depth first. */
  function ListFrom(children: seq<Entry>, k: nat, path: string, rootName: string, mime: string -> string): seq<FileInfo>
    requires k <= |children|
    decreases Dir(children), |children| - k
  {
    if k == |children| then []
    else ListEntry(children[k], path, rootName, mime) + ListFrom(children, k + 1, path, rootName, mime)
  }

  /** What one entry contributes: a text file its full name and size, a
      directory everything listed beneath it. */
  function ListEntry(e: Entry, path: string, rootName: string, mime: string -> string): seq<FileInfo>
    decreases e, 0
  {
    var entryPath := EntryPath(path, e.name);
    match e.node
    case File(h) =>
      if Includes(mime(entryPath), "text") then [FileInfo(rootName + "/" + entryPath, h.size)] else []
    case Dir(cs) => ListFrom(cs, 0, entryPath, rootName, mime)
  }

  /** The segments `getFileHandle` walks: the path split on '/', without the
      first one when it is the root's name. */
  function HandleParts(path: string, rootName: string): seq<string>
  {
    var parts := Split(path, '/');
    if parts[0] == rootName then parts[1..] else parts
  }

  /** The directories walked: all segments but the last. */
  function DirParts(parts: seq<string>): seq<string>
  {
    if parts == [] then [] else parts[..|parts| - 1]
  }

  /** The name looked up last: `parts[parts.length - 1]`, which is `undefined`
      (looked up as the name "undefined") when no segment is left. */
  function LastPart(parts: seq<string>): string
  {
    if parts == [] then "undefined" else parts[|parts| - 1]
  }

  /** Walking `getDirectoryHandle` down the given names; the first failure is thrown. */
  function WalkDirs(children: seq<Entry>, names: seq<string>): Result<seq<Entry>, ProviderError>
  {
    if names == [] then Success(children)
    else
      match GetDirectoryHandle(children, names[0])
      case Failure(e) => Failure(e)
      case Success(cs) => WalkDirs(cs, names[1..])
  }

  /** One step of the walk from name `i` on: the lookup of that name, then the rest. */
  lemma WalkDirsStep(children: seq<Entry>, names: seq<string>, i: nat)
    requires i < |names|
    ensures GetDirectoryHandle(children, names[i]).Failure? ==>
              WalkDirs(children, names[i..]) == Failure(GetDirectoryHandle(children, names[i]).error)
    ensures GetDirectoryHandle(children, names[i]).Success? ==>
              WalkDirs(children, names[i..]) == WalkDirs(GetDirectoryHandle(children, names[i]).value, names[i + 1..])
  {
    assert names[i..][0] == names[i] && names[i..][1..] == names[i + 1..];
  }

  /** `getFileHandle(path)`: a thrown directory lookup, or the file handle or `null`. */
  function ResolveFile(root: seq<Entry>, path: string, rootName: string): Result<Option<FileHandle>, ProviderError>
  {
    var parts := HandleParts(path, rootName);
    match WalkDirs(root, DirParts(parts))
    case Failure(e) => Failure(e)
    case Success(cs) => Success(LookupFile(cs, LastPart(parts)))
  }

  /** The `getFileContents` loop from request `names[0]` on, with `acc` filled so far. */
  function ContentsFrom(root: seq<Entry>, rootName: string, names: seq<string>, acc: Dict<string>): Result<Dict<string>, ProviderError>
  {
    if names == [] then Success(acc)
    else
      match ResolveFile(root, names[0], rootName)
      case Failure(e) => Failure(e)
      case Success(None) => ContentsFrom(root, rootName, names[1..], acc)
      case Success(Some(h)) => ContentsFrom(root, rootName, names[1..], Put(acc, names[0], h.text))
  }

  /** A request that names an existing file. */
  predicate Resolved(root: seq<Entry>, rootName: string, name: string)
  {
    var r := ResolveFile(root, name, rootName);
    r.Success? && r.value.Some?
  }

  /** Every listed name is the root's name, a slash and the relative path of a
      file whose MIME type mentions "text". */
  lemma {:induction false} ListedNamesAreText(children: seq<Entry>, k: nat, path: string, rootName: string, mime: string -> string)
    requires k <= |children|
    ensures forall info :: info in ListFrom(children, k, path, rootName, mime) ==>
              |rootName| + 1 <= |info.name| && info.name[..|rootName| + 1] == rootName + "/"
              && Includes(mime(info.name[|rootName| + 1..]), "text")
    decreases Dir(children), |children| - k
  {
    if k < |children| {
      ListedNamesAreText(children, k + 1, path, rootName, mime);
      var e := children[k];
      var entryPath := EntryPath(path, e.name);
      match e.node {
        case File(h) =>
          var full := rootName + "/" + entryPath;
          assert full[..|rootName| + 1] == rootName + "/" && full[|rootName| + 1..] == entryPath;
        case Dir(cs) =>
          ListedNamesAreText(cs, 0, entryPath, rootName, mime);
      }
    }
  }

  /** A text file among entries `k..` is listed with its full name and size. */
  lemma {:induction false} TextFileListed(children: seq<Entry>, k: nat, j: nat, path: string, rootName: string, mime: string -> string)
    requires k <= j < |children| && children[j].node.File?
    requires Includes(mime(EntryPath(path, children[j].name)), "text")
    ensures FileInfo(rootName + "/" + EntryPath(path, children[j].name), children[j].node.handle.size)
              in ListFrom(children, k, path, rootName, mime)
    decreases j - k
  {
    var info := FileInfo(rootName + "/" + EntryPath(path, children[j].name), children[j].node.handle.size);
    var after := ListFrom(children, k + 1, path, rootName, mime);
    assert ListFrom(children, k, path, rootName, mime) == ListEntry(children[k], path, rootName, mime) + after;
    if k < j {
      TextFileListed(children, k + 1, j, path, rootName, mime);
    } else {
      assert ListEntry(children[k], path, rootName, mime) == [info];
    }
  }

  /** Depth first: the listing of a sub-directory sits, in one piece, where the
      directory is met, followed by the listing of the entries after it. */
  lemma {:induction false} SubdirectoryListedInPlace(children: seq<Entry>, k: nat, j: nat, path: string, rootName: string, mime: string -> string)
    requires k <= j < |children| && children[j].node.Dir?
    ensures exists before :: ListFrom(children, k, path, rootName, mime)
              == before + ListFrom(children[j].node.children, 0, EntryPath(path, children[j].name), rootName, mime)
                 + ListFrom(children, j + 1, path, rootName, mime)
    decreases j - k
  {
    var sub := ListFrom(children[j].node.children, 0, EntryPath(path, children[j].name), rootName, mime);
    var after := ListFrom(children, j + 1, path, rootName, mime);
    if k == j {
      assert ListFrom(children, k, path, rootName, mime) == [] + sub + after;
    } else {
      SubdirectoryListedInPlace(children, k + 1, j, path, rootName, mime);
      var before :| ListFrom(children, k + 1, path, rootName, mime) == before + sub + after;
      var head := ListEntry(children[k], path, rootName, mime);
      assert ListFrom(children, k, path, rootName, mime) == (head + before) + sub + after;
    }
  }

  /** Sibling names are valid and distinct, all the way down. */
  predicate WellFormed(children: seq<Entry>)
    decreases Dir(children)
  {
    && (forall i :: 0 <= i < |children| ==> ValidName(children[i].name))
    && (forall i, j :: 0 <= i < j < |children| ==> children[i].name != children[j].name)
    && (forall i :: 0 <= i < |children| && children[i].node.Dir? ==> WellFormed(children[i].node.children))
  }

  /** Among distinct names the lookup finds the entry itself. */
  lemma {:induction false} FindDistinct(children: seq<Entry>, k: nat)
    requires k < |children|
    requires forall i, j :: 0 <= i < j < |children| ==> children[i].name != children[j].name
    ensures Find(children, children[k].name) == Some(children[k].node)
  {
    if k > 0 {
      assert children[0].name != children[k].name;
      FindDistinct(children[1..], k - 1);
    }
  }

  /** Walking a path in two pieces walks the first piece and then the second. */
  lemma {:induction false} WalkDirsAppend(children: seq<Entry>, a: seq<string>, b: seq<string>)
    ensures WalkDirs(children, a + b) ==
              match WalkDirs(children, a)
              case Failure(e) => Failure(e)
              case Success(cs) => WalkDirs(cs, b)
  {
    if a == [] {
      assert a + b == b;
    } else {
      assert (a + b)[0] == a[0] && (a + b)[1..] == a[1..] + b;
      match GetDirectoryHandle(children, a[0]) {
        case Failure(e) =>
        case Success(cs) => WalkDirsAppend(cs, a[1..], b);
      }
    }
  }

  /** The relative path of an entry under the directory reached by `segs`. */
  lemma EntryPathJoin(segs: seq<string>, name: string)
    requires forall i :: 0 <= i < |segs| ==> segs[i] != ""
    ensures EntryPath(Join(segs, '/'), name) == Join(segs + [name], '/')
  {
    if segs == [] {
      assert segs + [name] == [name];
    } else {
      if |segs| >= 2 {
        JoinCons(segs, '/');
      }
      assert Join(segs, '/') != "";
      JoinSnoc(segs, name, '/');
    }
  }

  /** The full name of a file reached by `segs` and `name` resolves back to it. */
  lemma ResolveListedName(root: seq<Entry>, segs: seq<string>, name: string, rootName: string, children: seq<Entry>)
    requires '/' !in rootName
    requires forall i :: 0 <= i < |segs| ==> ValidName(segs[i])
    requires ValidName(name)
    requires WalkDirs(root, segs) == Success(children)
    ensures ResolveFile(root, rootName + "/" + Join(segs + [name], '/'), rootName) == Success(LookupFile(children, name))
  {
    var parts := segs + [name];
    var rel := Join(parts, '/');
    SplitJoin(parts, '/');
    SplitAfterSep(rootName, rel, '/');
    assert rootName + "/" + rel == rootName + ['/'] + rel;
    assert HandleParts(rootName + "/" + rel, rootName) == parts;
    assert DirParts(parts) == segs && LastPart(parts) == name;
  }

  /** A listed name that `getFileHandle` finds again, as a file of the listed size. */
  predicate ResolvesAs(root: seq<Entry>, rootName: string, info: FileInfo)
  {
    var r := ResolveFile(root, info.name, rootName);
    r.Success? && r.value.Some? && r.value.value.size == info.byteLength
  }

  /** Every listed file resolves back through `getFileHandle` to a file of the
      listed size, when sibling names are valid and distinct and the root's
      name has no slash. `segs` is the path from the root to `children`. */
  lemma {:induction false} ListedFilesResolveFrom(root: seq<Entry>, children: seq<Entry>, k: nat, segs: seq<string>, rootName: string, mime: string -> string)
    requires k <= |children|
    requires WellFormed(children)
    requires '/' !in rootName
    requires forall i :: 0 <= i < |segs| ==> ValidName(segs[i])
    requires WalkDirs(root, segs) == Success(children)
    ensures forall info :: info in ListFrom(children, k, Join(segs, '/'), rootName, mime) ==>
              ResolvesAs(root, rootName, info)
    decreases Dir(children), |children| - k, 1
  {
    if k < |children| {
      var path := Join(segs, '/');
      ListedFilesResolveFrom(root, children, k + 1, segs, rootName, mime);
      ListedEntryResolves(root, children, k, segs, rootName, mime);
      var head, tail := ListEntry(children[k], path, rootName, mime), ListFrom(children, k + 1, path, rootName, mime);
      assert ListFrom(children, k, path, rootName, mime) == head + tail;
      forall info | info in head + tail
        ensures ResolvesAs(root, rootName, info)
      {
        assert info in head || info in tail;
      }
    }
  }

  /** The same for what entry `k` of the directory contributes. */
  lemma {:induction false} ListedEntryResolves(root: seq<Entry>, children: seq<Entry>, k: nat, segs: seq<string>, rootName: string, mime: string -> string)
    requires k < |children|
    requires WellFormed(children)
    requires '/' !in rootName
    requires forall i :: 0 <= i < |segs| ==> ValidName(segs[i])
    requires WalkDirs(root, segs) == Success(children)
    ensures forall info :: info in ListEntry(children[k], Join(segs, '/'), rootName, mime) ==>
              ResolvesAs(root, rootName, info)
    decreases Dir(children), |children| - k, 0
  {
    var e := children[k];
    EntryPathJoin(segs, e.name);
    FindDistinct(children, k);
    match e.node {
      case File(h) =>
        ResolveListedName(root, segs, e.name, rootName, children);
      case Dir(cs) =>
        WalkDirsAppend(root, segs, [e.name]);
        assert WalkDirs(root, segs + [e.name]) == Success(cs);
        ListedFilesResolveFrom(root, cs, 0, segs + [e.name], rootName, mime);
    }
  }

  /** What `getTextFileInfo` lists, `getFileContents` can read back: each listed
      name resolves to a file whose size is the listed byte length. */
  lemma ListedFilesResolve(root: Directory, mime: string -> string)
    requires WellFormed(root.children)
    requires '/' !in root.name
    ensures forall info :: info in ListFrom(root.children, 0, "", root.name, mime) ==>
              var r := ResolveFile(root.children, info.name, root.name);
              r.Success? && r.value.Some? && r.value.value.size == info.byteLength
  {
    ListedFilesResolveFrom(root.children, root.children, 0, [], root.name, mime);
    assert Join([], '/') == "";
    forall info | info in ListFrom(root.children, 0, "", root.name, mime)
      ensures ResolvesAs(root.children, root.name, info)
    {
    }
  }

  /** The contents loop succeeds exactly when no requested path hits a failing
      directory lookup. */
  lemma {:induction false} ContentsFromSucceeds(root: seq<Entry>, rootName: string, names: seq<string>, acc: Dict<string>)
    ensures ContentsFrom(root, rootName, names, acc).Success? <==>
              forall i :: 0 <= i < |names| ==> ResolveFile(root, names[i], rootName).Success?
  {
    if names != [] {
      var rest := names[1..];
      assert forall i :: 1 <= i < |names| ==> names[i] == rest[i - 1];
      var r := ResolveFile(root, names[0], rootName);
      if r.Success? && r.value.None? {
        ContentsFromSucceeds(root, rootName, rest, acc);
      } else if r.Success? {
        ContentsFromSucceeds(root, rootName, rest, Put(acc, names[0], r.value.value.text));
      }
    }
  }

  /** On success the keys are those already present plus the requested names
      that name a file, each with that file's text, and keys stay distinct. */
  lemma {:induction false} ContentsFromSpec(root: seq<Entry>, rootName: string, names: seq<string>, acc: Dict<string>)
    ensures ContentsFrom(root, rootName, names, acc).Success? <==>
              forall i :: 0 <= i < |names| ==> ResolveFile(root, names[i], rootName).Success?
    ensures ContentsFrom(root, rootName, names, acc).Success? ==>
              var d := ContentsFrom(root, rootName, names, acc).value;
              && (UniqueKeys(acc) ==> UniqueKeys(d))
              && (forall k :: k in Keys(d) <==> k in Keys(acc) || (k in names && Resolved(root, rootName, k)))
              && (forall k :: k in names && Resolved(root, rootName, k) ==>
                    Get(d, k) == Some(ResolveFile(root, k, rootName).value.value.text))
              && (forall k :: k !in names ==> Get(d, k) == Get(acc, k))
  {
    ContentsFromSucceeds(root, rootName, names, acc);
    if names != [] {
      var rest := names[1..];
      assert forall k :: k in names <==> k == names[0] || k in rest;
      var r := ResolveFile(root, names[0], rootName);
      if r.Success? && r.value.None? {
        assert ContentsFrom(root, rootName, names, acc) == ContentsFrom(root, rootName, rest, acc);
        ContentsFromSpec(root, rootName, rest, acc);
      } else if r.Success? {
        var acc' := Put(acc, names[0], r.value.value.text);
        assert ContentsFrom(root, rootName, names, acc) == ContentsFrom(root, rootName, rest, acc');
        ContentsFromSpec(root, rootName, rest, acc');
      }
    }
  }

  /** The requested names that name an existing file, in request order,
      repeats kept. */
  function ResolvedNames(root: seq<Entry>, rootName: string, names: seq<string>): (r: seq<string>)
    ensures forall k :: k in r <==> k in names && Resolved(root, rootName, k)
  {
    if names == [] then []
    else
      assert forall k :: k in names <==> k == names[0] || k in names[1..];
      (if Resolved(root, rootName, names[0]) then [names[0]] else []) + ResolvedNames(root, rootName, names[1..])
  }

  /** The contents loop assigns keys in request order: when the keys already
      present are distinct, the keys afterwards are the first occurrences of
      those keys followed by the requested names that resolve. */
  lemma {:induction false} ContentsFromOrder(root: seq<Entry>, rootName: string, names: seq<string>, acc: Dict<string>)
    requires Keys(acc) == FirstOccurrences(Keys(acc))
    ensures ContentsFrom(root, rootName, names, acc).Success? ==>
              Keys(ContentsFrom(root, rootName, names, acc).value)
              == FirstOccurrences(Keys(acc) + ResolvedNames(root, rootName, names))
  {
    if names == [] {
      assert Keys(acc) + ResolvedNames(root, rootName, names) == Keys(acc);
    } else {
      var rest := names[1..];
      var r := ResolveFile(root, names[0], rootName);
      if r.Success? && r.value.None? {
        assert ContentsFrom(root, rootName, names, acc) == ContentsFrom(root, rootName, rest, acc);
        assert ResolvedNames(root, rootName, names) == ResolvedNames(root, rootName, rest);
        ContentsFromOrder(root, rootName, rest, acc);
      } else if r.Success? {
        var acc' := Put(acc, names[0], r.value.value.text);
        assert ContentsFrom(root, rootName, names, acc) == ContentsFrom(root, rootName, rest, acc');
        assert ResolvedNames(root, rootName, names) == [names[0]] + ResolvedNames(root, rootName, rest);
        PutOrder(acc, names[0], r.value.value.text, ResolvedNames(root, rootName, rest));
        ContentsFromOrder(root, rootName, rest, acc');
      }
    }
  }

  /** `getFileContents` on a loaded folder: the keys are the requested names
      that name a file, each once, in the order in which each is first
      requested, a request whose file is missing is left out while the
      others go on, and a failing directory lookup fails the whole batch. */
  lemma GetFileContentsSpec(root: seq<Entry>, rootName: string, names: seq<string>)
    ensures ContentsFrom(root, rootName, names, []).Success? <==>
              forall i :: 0 <= i < |names| ==> ResolveFile(root, names[i], rootName).Success?
    ensures ContentsFrom(root, rootName, names, []).Success? ==>
              var d := ContentsFrom(root, rootName, names, []).value;
              && UniqueKeys(d)
              && (forall k :: k in Keys(d) <==> k in names && Resolved(root, rootName, k))
              && Keys(d) == FirstOccurrences(ResolvedNames(root, rootName, names))
              && (forall k :: k in Keys(d) ==> Get(d, k) == Some(ResolveFile(root, k, rootName).value.value.text))
  {
    ContentsFromSpec(root, rootName, names, []);
    ContentsFromOrder(root, rootName, names, []);
    assert Keys<string>([]) + ResolvedNames(root, rootName, names) == ResolvedNames(root, rootName, names);
  }

  /** The provider object: nothing is loaded until `loadContents`. */
  class LocalFileProvider {
    var rootHandle: Option<Directory>
    var rootName: string

    constructor ()
      ensures rootHandle == None && rootName == ""
    {
      rootHandle := None;
      rootName := "";
    }

    /** `loadContents(directoryHandle)`. */
    method LoadContents(directoryHandle: Directory)
      modifies this
      ensures rootHandle == Some(directoryHandle) && rootName == directoryHandle.name
    {
      rootHandle := Some(directoryHandle);
      rootName := directoryHandle.name;
    }

    /** `getTextFileInfo()`. */
    method GetTextFileInfo(mime: string -> string) returns (r: Result<seq<FileInfo>, ProviderError>)
      ensures rootHandle.None? ==> r == Failure(NoDirectoryLoaded)
      ensures rootHandle.Some? ==> r == Success(ListFrom(rootHandle.value.children, 0, "", rootName, mime))
    {
      if rootHandle.None? {
        return Failure(NoDirectoryLoaded);
      }
      var fileInfos := TraverseDirectory(rootHandle.value.children, "", [], mime);
      assert [] + ListFrom(rootHandle.value.children, 0, "", rootName, mime) == ListFrom(rootHandle.value.children, 0, "", rootName, mime);
      r := Success(fileInfos);
    }

    /** `traverseDirectory(dirHandle, path, fileInfos)`: the shared array is
        threaded through as `fileInfos` in and `infos` out. */
    method TraverseDirectory(children: seq<Entry>, path: string, fileInfos: seq<FileInfo>, mime: string -> string)
      returns (infos: seq<FileInfo>)
      ensures infos == fileInfos + ListFrom(children, 0, path, rootName, mime)
      decreases Dir(children)
    {
      infos := fileInfos;
      var i := 0;
      while i < |children|
        invariant 0 <= i <= |children|
        invariant fileInfos + ListFrom(children, 0, path, rootName, mime) == infos + ListFrom(children, i, path, rootName, mime)
      {
        var name, handle := children[i].name, children[i].node;
        var entryPath := EntryPath(path, name);
        var fullPath := rootName + "/" + entryPath;
        match handle {
          case File(h) =>
            if Includes(mime(entryPath), "text") {
              infos := infos + [FileInfo(fullPath, h.size)];
            }
          case Dir(cs) =>
            infos := TraverseDirectory(cs, entryPath, infos, mime);
        }
        i := i + 1;
      }
      assert infos + ListFrom(children, i, path, rootName, mime) == infos + [];
    }

    /** `getFileHandle(path)`. */
    method GetFileHandle(path: string) returns (r: Result<Option<FileHandle>, ProviderError>)
      requires rootHandle.Some?
      ensures r == ResolveFile(rootHandle.value.children, path, rootName)
    {
      var parts := Split(path, '/');
      if parts[0] == rootName {
        parts := parts[1..];
      }
      ghost var dirs := DirParts(parts);
      var current := rootHandle.value.children;
      var i := 0;
      while i < |parts| - 1
        invariant 0 <= i <= |dirs|
        invariant WalkDirs(rootHandle.value.children, dirs) == WalkDirs(current, dirs[i..])
      {
        assert parts[i] == dirs[i];
        WalkDirsStep(current, dirs, i);
        var next := GetDirectoryHandle(current, parts[i]);
        if next.Failure? {
          return Failure(next.error);
        }
        current := next.value;
        i := i + 1;
      }
      r := Success(LookupFile(current, LastPart(parts)));
    }

    /** `getFileContents(fileNames)`. */
    method GetFileContents(fileNames: seq<string>) returns (r: Result<Dict<string>, ProviderError>)
      ensures rootHandle.None? ==> r == Failure(NoDirectoryLoaded)
      ensures rootHandle.Some? ==> r == ContentsFrom(rootHandle.value.children, rootName, fileNames, [])
    {
      if rootHandle.None? {
        return Failure(NoDirectoryLoaded);
      }
      var contents: Dict<string> := [];
      for i := 0 to |fileNames|
        invariant ContentsFrom(rootHandle.value.children, rootName, fileNames, [])
                  == ContentsFrom(rootHandle.value.children, rootName, fileNames[i..], contents)
      {
        assert fileNames[i..][1..] == fileNames[i + 1..];
        var fileHandle := GetFileHandle(fileNames[i]);
        if fileHandle.Failure? {
          return Failure(fileHandle.error);
        }
        if fileHandle.value.Some? {
          contents := Put(contents, fileNames[i], fileHandle.value.value.text);
        }
      }
      assert fileNames[|fileNames|..] == [];
      r := Success(contents);
    }
  }
}
