/** The text-file classifier of src/utils/fileUtils.ts: a name counts as text when
    its MIME type mentions "text", or when its lower-cased extension is on a
    fixed allow-list. The MIME lookup (zip.js `getMimeType`) is outside the model
    and is passed in as the function `mime`. */
module FileUtils {
  import opened Strings

  /** TEXT_FILE_EXTENSIONS, in the order the source lists them. */
  const TextFileExtensions: seq<string> := [
    ".txt", ".md", ".js", ".ts", ".jsx", ".tsx", ".php", ".py", ".rb", ".java",
    ".c", ".cpp", ".h", ".hpp", ".cs", ".go", ".rs", ".swift", ".kt", ".scala",
    ".html", ".css", ".scss", ".sass", ".less", ".json", ".xml", ".yaml", ".yml",
    ".ini", ".conf", ".sh", ".bash", ".zsh", ".fish", ".ps1", ".bat", ".cmd",
    ".sql", ".graphql", ".prisma", ".env"
  ]

  /** `fileName.slice(fileName.lastIndexOf('.'))`: the suffix from the last dot;
      without a dot `lastIndexOf` is -1 and the slice is the last character alone. */
  function Extension(fileName: string): (ext: string)
    ensures '.' in fileName ==> 1 <= |ext| <= |fileName| && ext[0] == '.' && '.' !in ext[1..]
                                && fileName == fileName[..|fileName| - |ext|] + ext
    ensures '.' !in fileName ==> ext == if fileName == [] then [] else [fileName[|fileName| - 1]]
  {
    var i := LastIndexOf(fileName, '.');
    var ext := SliceFrom(fileName, i);
    assert '.' in fileName ==> ext == fileName[i..] && fileName == fileName[..i] + ext;
    assert '.' in fileName ==> forall k :: 1 <= k < |ext| ==> ext[k] == fileName[i + k];
    ext
  }

  /** `list.includes(x)`, written as a search so that proofs unfold it only on demand. */
  predicate Listed(x: string, list: seq<string>)
  {
    list != [] && (list[0] == x || Listed(x, list[1..]))
  }

  lemma {:induction false} ListedIff(x: string, list: seq<string>)
    ensures Listed(x, list) <==> x in list
  {
    if list != [] {
      ListedIff(x, list[1..]);
      assert list == [list[0]] + list[1..];
    }
  }

  /** `isTextFile(fileName)`: the MIME type mentions "text", or the lower-cased
      extension is one of the allow-listed ones. */
  predicate IsTextFile(fileName: string, mime: string -> string): (b: bool)
    ensures b <==> Includes(mime(fileName), "text") || ToLower(Extension(fileName)) in TextFileExtensions
  {
    ListedIff(ToLower(Extension(fileName)), TextFileExtensions);
    Includes(mime(fileName), "text") || Listed(ToLower(Extension(fileName)), TextFileExtensions)
  }

  /** A dot followed by lower-case ASCII letters and digits, at least one. */
  predicate PlainExtension(e: string)
  {
    |e| >= 2 && e[0] == '.' && forall k :: 1 <= k < |e| ==> 'a' <= e[k] <= 'z' || '0' <= e[k] <= '9'
  }

  // The list is checked in slices of seven so that each proof stays small.
  lemma ExtensionsShape0() ensures forall i :: 0 <= i < 7 ==> PlainExtension(TextFileExtensions[i]) {}
  lemma ExtensionsShape1() ensures forall i :: 7 <= i < 14 ==> PlainExtension(TextFileExtensions[i]) {}
  lemma ExtensionsShape2() ensures forall i :: 14 <= i < 21 ==> PlainExtension(TextFileExtensions[i]) {}
  lemma ExtensionsShape3() ensures forall i :: 21 <= i < 28 ==> PlainExtension(TextFileExtensions[i]) {}
  lemma ExtensionsShape4() ensures forall i :: 28 <= i < 35 ==> PlainExtension(TextFileExtensions[i]) {}
  lemma ExtensionsShape5() ensures forall i :: 35 <= i < 42 ==> PlainExtension(TextFileExtensions[i]) {}

  /** Every allow-listed extension is a dot followed by at least one lower-case
      ASCII letter or digit. */
  lemma ExtensionsShape()
    ensures forall e :: e in TextFileExtensions ==> PlainExtension(e)
  {
    ExtensionsShape0(); ExtensionsShape1(); ExtensionsShape2();
    ExtensionsShape3(); ExtensionsShape4(); ExtensionsShape5();
  }

  /** A name ending in a dot followed by dot-free text has that suffix as its extension. */
  lemma ExtensionOfDotSuffix(prefix: string, x: string)
    requires |x| >= 1 && x[0] == '.' && '.' !in x[1..]
    ensures Extension(prefix + x) == x
  {
    var name := prefix + x;
    assert name[|prefix|] == '.';
    var r := LastIndexOf(name, '.');
    assert forall k :: |prefix| < k < |name| ==> name[k] == x[1..][k - |prefix| - 1];
    assert r == |prefix|;
    assert name[r..] == x;
  }

  /** A name ending in `x`, where `x` lower-cases to an allow-listed extension, is
      text whatever its MIME type: the comparison ignores ASCII case, so `.env`,
      `x.ENV` and `Main.Java` all qualify. */
  lemma ListedExtensionIsText(prefix: string, x: string, mime: string -> string)
    requires ToLower(x) in TextFileExtensions
    ensures Extension(prefix + x) == x
    ensures IsTextFile(prefix + x, mime)
  {
    ExtensionsShape();
    var e := ToLower(x);
    assert PlainExtension(e);
    assert x[0] == '.' by { assert LowerChar(x[0]) == e[0]; }
    assert '.' !in x[1..] by {
      forall k | 1 <= k < |x| ensures x[k] != '.' {
        assert LowerChar(x[k]) == e[k];
      }
    }
    ExtensionOfDotSuffix(prefix, x);
    ListedIff(e, TextFileExtensions);
  }

  /** A dot-free name has a one-character extension, which is never on the
      list, so only its MIME type can make it text. */
  lemma DotlessNameOnlyByMime(fileName: string, mime: string -> string)
    requires '.' !in fileName
    ensures IsTextFile(fileName, mime) <==> Includes(mime(fileName), "text")
  {
    ExtensionsShape();
    ListedIff(ToLower(Extension(fileName)), TextFileExtensions);
    assert |ToLower(Extension(fileName))| <= 1;
  }

  /** The extension is cut from the whole path: when the last dot sits in a
      directory name (`a.d/Makefile`) the extension contains a slash and never
      matches the list, so only the MIME type counts. */
  lemma DottedDirectoryOnlyByMime(dir: string, file: string, mime: string -> string)
    requires '.' !in file
    requires '.' in dir
    ensures '/' in Extension(dir + "/" + file)
    ensures IsTextFile(dir + "/" + file, mime) <==> Includes(mime(dir + "/" + file), "text")
  {
    var j := ExtensionHasSlash(dir, file);
    var e := ToLower(Extension(dir + "/" + file));
    assert e[j] == '/';
    NotListedWithSlash(e, j);
    ListedIff(e, TextFileExtensions);
  }

  /** The extension of `dir/file`, with the last dot in `dir`, has a slash at `j`. */
  lemma ExtensionHasSlash(dir: string, file: string) returns (j: nat)
    requires '.' !in file
    requires '.' in dir
    ensures j < |Extension(dir + "/" + file)| && Extension(dir + "/" + file)[j] == '/'
  {
    var name := dir + "/" + file;
    var ext := Extension(name);
    var i := |name| - |ext|;
    assert name[i] == '.' && name[i..] == ext;
    assert forall k :: |dir| <= k < |name| ==> name[k] != '.';
    assert i < |dir|;
    j := |dir| - i;
    assert name[|dir|] == '/' && ext[j] == name[|dir|];
  }

  /** A string with a slash in it is not on the allow-list. */
  lemma NotListedWithSlash(e: string, j: nat)
    requires j < |e| && e[j] == '/'
    ensures e !in TextFileExtensions
  {
    ExtensionsShape();
    assert !PlainExtension(e);
  }
}
