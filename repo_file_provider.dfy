/** The archive-backed source provider of src/core/RepoFileProvider.ts. The
    zip reader is replaced by the sequence of its entries in reader order; what
    reading an entry's data does (`getData` with a text writer) is part of each
    entry. Downloading the archive (`downloadWithProgress`) is outside the model:
    `LoadContents` receives the entries it would have produced. */
module RepoFileProvider {
  import opened Results
  import opened Types
  import opened OrderedDict
  import opened Strings
  import opened FileUtils

  /** What `entry.getData(new TextWriter())` does for an entry. */
  datatype EntryData =
    | Text(content: string)  // resolves to the decoded text
    | ReadThrows             // rejects (corrupt or undecodable data)
    | NoGetData              // the entry has no getData function

  datatype ZipEntry = ZipEntry(filename: string, uncompressedSize: nat, data: EntryData)

  datatype ProviderError = ReaderNotLoaded

  /** The listing record of one entry. */
  function InfoOf(e: ZipEntry): FileInfo
  {
    FileInfo(e.filename, e.uncompressedSize)
  }

  /** The filter `getTextFileInfo` applies to entry names: `isTextFile`. */
  function TextFilter(mime: string -> string): string -> bool
  {
    name => IsTextFile(name, mime)
  }

  /** `entries.filter(e => isText(e.filename)).map(...)`. */
  function TextFileInfo(entries: seq<ZipEntry>, isText: string -> bool): (infos: seq<FileInfo>)
    ensures |infos| <= |entries|
    ensures forall i :: 0 <= i < |infos| ==> isText(infos[i].name)
  {
    if entries == [] then []
    else (if isText(entries[0].filename) then [InfoOf(entries[0])] else []) + TextFileInfo(entries[1..], isText)
  }

  /** The listing keeps reader order: listing a concatenation lists each part in turn. */
  lemma {:induction false} TextFileInfoAppend(a: seq<ZipEntry>, b: seq<ZipEntry>, isText: string -> bool)
    ensures TextFileInfo(a + b, isText) == TextFileInfo(a, isText) + TextFileInfo(b, isText)
  {
    if a != [] {
      TextFileInfoAppend(a[1..], b, isText);
      assert (a + b)[1..] == a[1..] + b;
      assert (a + b)[0] == a[0];
    } else {
      assert a + b == b;
    }
  }

  /** Every text entry is listed, with its name and uncompressed size. */
  lemma {:induction false} TextFileInfoListsText(entries: seq<ZipEntry>, isText: string -> bool, i: nat)
    requires i < |entries| && isText(entries[i].filename)
    ensures InfoOf(entries[i]) in TextFileInfo(entries, isText)
  {
    if i > 0 {
      TextFileInfoListsText(entries[1..], isText, i - 1);
    }
  }

  /** Only text entries are listed. */
  lemma {:induction false} TextFileInfoOnlyText(entries: seq<ZipEntry>, isText: string -> bool, info: FileInfo)
    requires info in TextFileInfo(entries, isText)
    ensures exists i :: 0 <= i < |entries| && isText(entries[i].filename) && info == InfoOf(entries[i])
  {
    if !(isText(entries[0].filename) && info == InfoOf(entries[0])) {
      TextFileInfoOnlyText(entries[1..], isText, info);
      var i :| 0 <= i < |entries[1..]| && isText(entries[1..][i].filename) && info == InfoOf(entries[1..][i]);
      assert entries[i + 1] == entries[1..][i];
    }
  }

  /** With the `isTextFile` filter: an entry whose name carries an allow-listed
      extension is listed whatever its MIME type. */
  lemma ListsAllowListedExtension(entries: seq<ZipEntry>, mime: string -> string, i: nat, prefix: string, x: string)
    requires i < |entries| && entries[i].filename == prefix + x
    requires ToLower(x) in TextFileExtensions
    ensures InfoOf(entries[i]) in TextFileInfo(entries, TextFilter(mime))
  {
    ListedExtensionIsText(prefix, x, mime);
    TextFileInfoListsText(entries, TextFilter(mime), i);
  }

  /** The text an entry contributes: its content, or '' when its read throws. */
  function ReadText(data: EntryData): string
  {
    if data.Text? then data.content else ""
  }

  /** `entries.filter(entry => typeof entry.getData === 'function')`. */
  function ValidEntries(entries: seq<ZipEntry>): (valid: seq<ZipEntry>)
    ensures |valid| <= |entries|
    ensures forall e :: e in valid <==> e in entries && !e.data.NoGetData?
  {
    if entries == [] then []
    else
      var init, last := entries[..|entries| - 1], entries[|entries| - 1];
      assert entries == init + [last];
      ValidEntries(init) + (if last.data.NoGetData? then [] else [last])
  }

  /** The per-entry reads, each caught on its own (`Promise.all` keeps their order). */
  function ReadAll(valid: seq<ZipEntry>): (pairs: seq<(string, string)>)
    ensures |pairs| == |valid|
    ensures forall i :: 0 <= i < |valid| ==> pairs[i] == (valid[i].filename, ReadText(valid[i].data))
  {
    if valid == [] then []
    else
      var init, last := valid[..|valid| - 1], valid[|valid| - 1];
      ReadAll(init) + [(last.filename, ReadText(last.data))]
  }

  /** The dictionary `getFileContents` ends up with when every readable entry is
      assigned in turn. */
  function AssignAll(entries: seq<ZipEntry>): Dict<string>
  {
    if entries == [] then []
    else
      var init, last := entries[..|entries| - 1], entries[|entries| - 1];
      if last.data.NoGetData? then AssignAll(init) else Put(AssignAll(init), last.filename, ReadText(last.data))
  }

  lemma ReadAllSnoc(valid: seq<ZipEntry>, e: ZipEntry)
    ensures ReadAll(valid + [e]) == ReadAll(valid) + [(e.filename, ReadText(e.data))]
  {
    assert (valid + [e])[..|valid|] == valid;
  }

  /** Filtering, reading and `Object.fromEntries` amount to assigning every
      readable entry in turn. */
  lemma {:induction false} ComposedIsAssignAll(entries: seq<ZipEntry>)
    ensures FromEntries(ReadAll(ValidEntries(entries))) == AssignAll(entries)
  {
    if entries != [] {
      var init, last := entries[..|entries| - 1], entries[|entries| - 1];
      ComposedIsAssignAll(init);
      var v := ValidEntries(init);
      if !last.data.NoGetData? {
        assert ValidEntries(entries) == v + [last];
        ReadAllSnoc(v, last);
        FromEntriesSnoc(ReadAll(v), last.filename, ReadText(last.data));
      } else {
        assert ValidEntries(entries) == v + [];
        assert v + [] == v;
      }
    }
  }

  /** The file names of the entries that have `getData`. */
  ghost function ReadableNames(entries: seq<ZipEntry>): set<string>
  {
    set i | 0 <= i < |entries| && !entries[i].data.NoGetData? :: entries[i].filename
  }

  lemma ReadableNamesSnoc(entries: seq<ZipEntry>)
    requires entries != []
    ensures ReadableNames(entries) ==
              ReadableNames(entries[..|entries| - 1])
              + (if entries[|entries| - 1].data.NoGetData? then {} else {entries[|entries| - 1].filename})
  {
    var init := entries[..|entries| - 1];
    forall k | k in ReadableNames(entries) && k !in ReadableNames(init)
      ensures !entries[|entries| - 1].data.NoGetData? && k == entries[|entries| - 1].filename
    {
      var i :| 0 <= i < |entries| && !entries[i].data.NoGetData? && entries[i].filename == k;
    }
    forall k | k in ReadableNames(init) ensures k in ReadableNames(entries) {
      var i :| 0 <= i < |init| && !init[i].data.NoGetData? && init[i].filename == k;
      assert entries[i] == init[i];
    }
  }

  /** The keys assigned are exactly the names of the readable entries. */
  lemma {:induction false} AssignAllKeys(entries: seq<ZipEntry>)
    ensures forall k :: k in Keys(AssignAll(entries)) <==> k in ReadableNames(entries)
  {
    if entries != [] {
      AssignAllKeys(entries[..|entries| - 1]);
      ReadableNamesSnoc(entries);
    }
  }

  /** The last readable entry with a given name decides its text. */
  lemma {:induction false} AssignAllLastWins(entries: seq<ZipEntry>, j: nat)
    requires j < |entries| && !entries[j].data.NoGetData?
    requires forall i :: j < i < |entries| && entries[i].filename == entries[j].filename ==> entries[i].data.NoGetData?
    ensures Get(AssignAll(entries), entries[j].filename) == Some(ReadText(entries[j].data))
  {
    if j < |entries| - 1 {
      var init := entries[..|entries| - 1];
      AssignAllLastWins(init, j);
    }
  }

  /** The file names of the readable entries, in archive order, repeats kept. */
  function ReadableNameSeq(entries: seq<ZipEntry>): (names: seq<string>)
    ensures |names| == |ValidEntries(entries)|
    ensures forall i :: 0 <= i < |names| ==> names[i] == ValidEntries(entries)[i].filename
  {
    var valid := ValidEntries(entries);
    seq(|valid|, i requires 0 <= i < |valid| => valid[i].filename)
  }

  /** `getFileContents(entries)`: every entry that has `getData` is read, a read
      that throws gives '' instead of failing the batch, and the pairs are
      joined by `Object.fromEntries`. The keys are the file names of the
      readable entries, each once, in the order in which each first occurs in
      the archive, and when a file name occurs more than once the last readable
      entry decides its text. */
  function GetFileContents(entries: seq<ZipEntry>): (d: Dict<string>)
    ensures UniqueKeys(d)
    ensures forall k :: k in Keys(d) <==> k in ReadableNames(entries)
    ensures Keys(d) == FirstOccurrences(ReadableNameSeq(entries))
    ensures forall j :: 0 <= j < |entries| && !entries[j].data.NoGetData?
              && (forall i :: j < i < |entries| && entries[i].filename == entries[j].filename ==> entries[i].data.NoGetData?)
              ==> Get(d, entries[j].filename) == Some(ReadText(entries[j].data))
  {
    var d := FromEntries(ReadAll(ValidEntries(entries)));
    ComposedIsAssignAll(entries);
    AssignAllKeys(entries);
    FromEntriesKeys(ReadAll(ValidEntries(entries)));
    assert Keys(ReadAll(ValidEntries(entries))) == ReadableNameSeq(entries);
    forall j | 0 <= j < |entries| && !entries[j].data.NoGetData?
              && (forall i :: j < i < |entries| && entries[i].filename == entries[j].filename ==> entries[i].data.NoGetData?)
      ensures Get(d, entries[j].filename) == Some(ReadText(entries[j].data))
    {
      AssignAllLastWins(entries, j);
    }
    d
  }

  /** The provider object: its reader is set once the archive is loaded. */
  class RepoFileProvider {
    const url: string
    var reader: Option<seq<ZipEntry>>

    constructor (url: string)
      ensures this.url == url && reader == None
    {
      this.url := url;
      reader := None;
    }

    /** `loadContents()`, with the downloaded archive's entries as a parameter. */
    method LoadContents(archive: seq<ZipEntry>)
      modifies this
      ensures reader == Some(archive)
    {
      reader := Some(archive);
    }

    /** `getEntries()`: the reader's entries; dereferencing a missing reader throws. */
    method GetEntries() returns (r: Result<seq<ZipEntry>, ProviderError>)
      ensures reader.None? ==> r == Failure(ReaderNotLoaded)
      ensures reader.Some? ==> r == Success(reader.value)
    {
      if reader.None? {
        return Failure(ReaderNotLoaded);
      }
      r := Success(reader.value);
    }

    /** `getTextFileInfo()`: the text entries of the loaded archive, in reader order. */
    method GetTextFileInfo(mime: string -> string) returns (r: Result<seq<FileInfo>, ProviderError>)
      ensures reader.None? ==> r == Failure(ReaderNotLoaded)
      ensures reader.Some? ==> r == Success(TextFileInfo(reader.value, TextFilter(mime)))
    {
      var entries := GetEntries();
      if entries.Failure? {
        return Failure(entries.error);
      }
      r := Success(TextFileInfo(entries.value, TextFilter(mime)));
    }
  }
}
