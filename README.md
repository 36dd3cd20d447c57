# prompt-repo-extension core, in Dafny

This project models the file-ingestion and prompt-compilation core of the
prompt-repo-extension browser extension and proves properties of the model.
The extension lets a user pick files from a GitHub repository archive or a
local folder, and compiles the chosen files into one Markdown document to
paste into a chat prompt.

Modules, one per source file plus shared helpers:

- `FileListReducer` (`src/core/fileListReducer.ts`): the prompt compiler.
  It escapes backticks, builds the nested directory outline and renders it.
  Then it lays out the title, the outline and one fenced section per non-blank
  file, and trims the result.
- `FileTree` (`src/components/FileTree.tsx`): `buildFileTree` builds a table
  keyed by cumulative path in two imperative loops, then picks the root with the
  top-level sort. The module also has `highlightSearchText`, the expanded-path
  collection of the component's effect, and the `handleCheck` selection merge.
- `LocalFileProvider` (`src/core/LocalFileProvider.ts`): the folder provider as
  a class with `rootHandle` and `rootName`. A directory handle is an in-memory
  tree of named entries.
- `RepoFileProvider` (`src/core/RepoFileProvider.ts`): the archive provider as
  a class holding its reader. The zip reader is the sequence of its entries.
- `FileUtils` (`src/utils/fileUtils.ts`): the text-file classifier and its
  extension allow-list.
- `GitHubUtils` (`src/utils/githubUtils.ts`): the repository URL parser and the
  archive URL builder.
- `Strings`, `OrderedDict`, `Results`, `Types`: the JavaScript string
  operations the core uses, plain objects as insertion-ordered dictionaries, an
  `Option`/`Result` pair, and the `FileInfo` record.

The source's exceptions are modelled as `Failure` results. Examples: an empty
file map in the compiler, a provider used before `loadContents`, a thrown
directory lookup, and a URL that does not match. The MIME lookup of zip.js
(`getMimeType`) is a function parameter `mime`.

Behaviour of the code that a reader might not expect, and that the model keeps:

- `buildFileTree` sorts only the top-level nodes, to pick the root. Deeper
  children keep their first-creation order.
- When two paths disagree on whether a cumulative path is a file or a folder,
  the first insertion decides. A path first created as a leaf stays a leaf, and
  the nodes created below it are attached to no parent.
- Nothing is excluded by name or pattern: every file the providers list, and
  every key handed to the compiler, takes part.
- In the folder provider only the final file lookup is caught. A missing
  intermediate directory throws, and the whole `getFileContents` batch fails.

## Model

| member | source | states |
|---|---|---|
| `FileListReducer.Escape` | src/core/fileListReducer.ts:35-37 | the escaped text is longer by the number of backticks, and every backtick in it has a backslash right before it |
| `FileListReducer.UnescapeEscape` | src/core/fileListReducer.ts:35-37 | reading a backslash-backtick pair back as a backtick recovers the original content, so escaping changes nothing but backticks |
| `FileListReducer.NoAdjacentBackticks` | src/core/fileListReducer.ts:36 | escaped content never has two backticks next to each other |
| `FileListReducer.NoFenceInEscaped` | src/core/fileListReducer.ts:55-57 | escaped content never contains the ```` ``` ```` fence that closes its block |
| `FileListReducer.Lookup` | src/core/fileListReducer.ts:15 | reading `current[part]` finds a value exactly when the key is present |
| `FileListReducer.Assign` | src/core/fileListReducer.ts:13-15 | assigning `current[part]` keeps an existing key where it stands and appends a new one |
| `FileListReducer.AssignLookup` | src/core/fileListReducer.ts:13-15 | after the assignment the key holds the new value and every other key looks up as before |
| `FileListReducer.Segments` | src/core/fileListReducer.ts:9 | the segments are the non-empty pieces of the path split on slashes, in order; each is non-empty and slash-free |
| `FileListReducer.NonEmpty` | src/core/fileListReducer.ts:9 | `filter(Boolean)` keeps exactly the non-empty pieces and never adds any |
| `FileListReducer.NonEmptyAppend` | src/core/fileListReducer.ts:9 | the filter keeps the pieces in order: filtering a concatenation filters each part |
| `FileListReducer.NonEmptyKeepsAll` | src/core/fileListReducer.ts:9 | with no empty piece, nothing is dropped |
| `FileListReducer.NonEmptyDropsEmpty` | src/core/fileListReducer.ts:9 | an empty piece (from a leading, trailing or doubled slash) disappears and its neighbours close up |
| `FileListReducer.SegmentsJoin` | src/core/fileListReducer.ts:9 | a path joined from non-empty, slash-free names splits back into exactly those names |
| `FileListReducer.InsertPathEndsInFile` | src/core/fileListReducer.ts:11-13 | after a path is inserted, following its segments from the top reaches a file |
| `FileListReducer.InsertPathMakesFolders` | src/core/fileListReducer.ts:14-17 | after a path is inserted, each of its proper prefixes reaches a folder |
| `FileListReducer.InsertPathTopLevel` | src/core/fileListReducer.ts:10-17 | inserting a path changes only the top-level key of its first segment, which keeps its place when present and is appended otherwise (first-insertion order) |
| `FileListReducer.PassingThroughFile` | src/core/fileListReducer.ts:15-16 | a path that passes through a name marked as a file turns it into a fresh folder holding only the rest of the path |
| `FileListReducer.EndingAtFolder` | src/core/fileListReducer.ts:12-13 | a path that ends at a name holding a folder resets it to a file |
| `FileListReducer.OutlineHasFirstSegments` | src/core/fileListReducer.ts:8-18 | every key with a segment, blank content or not, has its first segment among the outline's top-level names |
| `FileListReducer.LastKeyIsFile` | src/core/fileListReducer.ts:8-18 | in the finished outline the last key's path reaches a file |
| `FileListReducer.RenderIsRows` | src/core/fileListReducer.ts:21-30 | the rendered outline is one line per key, top to bottom, indented two spaces per level, with `/` after folders only, each folder's contents right below it |
| `FileListReducer.Stringify` | src/core/fileListReducer.ts:21-30 | the `result +=` loop with its recursion produces the rendered outline |
| `FileListReducer.StringifyEntry` | src/core/fileListReducer.ts:23-28 | one key's turn yields its line, and for a folder its contents one level deeper, as rendered |
| `FileListReducer.GenerateFolderStructure` | src/core/fileListReducer.ts:5-33 | the loop inserting every key's path in key order, then the fenced rendering, gives the folder structure of the keys |
| `FileListReducer.OutlineSnoc` | src/core/fileListReducer.ts:8-18 | one more key's turn inserts that key's path into the outline of the keys before it |
| `FileListReducer.ProjectNameIsFirstSegment` | src/core/fileListReducer.ts:40 | the project name is the first key up to its first slash, or the whole key when it has no slash |
| `FileListReducer.HeadingDropsFirstSegment` | src/core/fileListReducer.ts:52-53 | a section heading is the path after its first slash, and empty when the path has no slash |
| `FileListReducer.SectionOfFile` | src/core/fileListReducer.ts:48-58 | each file adds its own section at its place in key order, and a blank file adds nothing |
| `FileListReducer.AppendSection` | src/core/fileListReducer.ts:49-57 | one loop turn appends nothing for blank content, and otherwise the heading, the opening fence, the escaped content and the closing fence |
| `FileListReducer.AppendSections` | src/core/fileListReducer.ts:48-58 | the loop over the entries appends the sections of all files in key order |
| `FileListReducer.Compiled` | src/core/fileListReducer.ts:39-61 | `fileListReducer` fails exactly on an empty file map, and then with the no-files error; otherwise the root is the whole first segment of the first key: slash-free, and ending at the key's first slash or at its end |
| `FileListReducer.CompiledDocument` | src/core/fileListReducer.ts:39-61 | compiling fails only for an empty file map; otherwise the document starts with `# Codebase: ` and the project name, continues past it, and ends in a non-white-space character |
| `FileListReducer.TitleSurvivesTrim` | src/core/fileListReducer.ts:41-60 | trimming the laid-out document keeps the title in front and leaves no trailing white space |
| `FileListReducer.FileListReducer` | src/core/fileListReducer.ts:39-61 | the reducer returns `NoFiles` for an empty map, and otherwise the trimmed layout of title, outline and sections together with the project name |
| `FileTree.HighlightSearchText` | src/components/FileTree.tsx:86-96 | the text is returned plain exactly when the search is empty or has no ASCII-case-insensitive match; otherwise before ++ emphasis ++ after is the text, the emphasis has the search's length and matches it ignoring case, and no earlier position matches |
| `FileTree.HighlightAt` | src/components/FileTree.tsx:89-95 | a case-insensitive match cuts the text into before, match and after, the match equal to the search up to case |
| `FileTree.KeptHidden` | src/components/FileTree.tsx:145 | a previous selection is kept exactly when it is neither newly checked nor among the matched files; the kept list is a subsequence of the previous selection, in its order, with each kept item as many times as it occurred there |
| `FileTree.KeptHiddenAppend` | src/components/FileTree.tsx:145 | the kept selections stay in their previous order: filtering a concatenation filters each part |
| `FileTree.HandleCheck` | src/components/FileTree.tsx:142-147 | the merge starts with the new selection; it holds exactly the new selection and the hidden previous selections, and never a visible item that was unticked; after the new selection comes exactly the filtered previous selection, in its order |
| `FileTree.FilterBySearch` | src/components/FileTree.tsx:39-42 | a file survives the search exactly when its lower-cased name contains the lower-cased search |
| `FileTree.FilterBySearchAppend` | src/components/FileTree.tsx:40-42 | filtering keeps the input order |
| `FileTree.InsertKeepsInvariant` | src/components/FileTree.tsx:57-68 | one inner-loop turn keeps the table invariant: each node's value is its key, keys are listed once in creation order, parents exist, and each folder's children are exactly the nodes whose parent key it is, in creation order |
| `FileTree.InsertKeepsKeys` | src/components/FileTree.tsx:57-68 | a turn that adds a key keeps values equal to keys, the order free of repeats and in step with the nodes, and every parent present |
| `FileTree.InsertKeepsChildren` | src/components/FileTree.tsx:57-68 | after a turn that adds a key, every folder's children are still exactly the keys whose parent it is, in creation order |
| `FileTree.ChildrenInSnoc` | src/components/FileTree.tsx:63-66 | a newly created key joins the children of its own parent only, at the end |
| `FileTree.BuildKeys` | src/components/FileTree.tsx:49-71 | the table holds exactly the cumulative paths met by the loops, one node each |
| `FileTree.BuildInvariant` | src/components/FileTree.tsx:49-71 | the table built by the loops satisfies the table invariant |
| `FileTree.FirstInsertionDecides` | src/components/FileTree.tsx:57-64 | the first turn that reaches a cumulative path decides for good whether its node is a folder and what its label is |
| `FileTree.InsertKeepsNode` | src/components/FileTree.tsx:57 | a later turn never changes whether an existing node is a folder, nor its label |
| `FileTree.StepsOfNameWellFormed` | src/components/FileTree.tsx:50-55 | the turns for one name start from the empty path and extend the path by one slash-free part each |
| `FileTree.PathOfSnoc` | src/components/FileTree.tsx:53 | the next `currentPath` is the previous path extended by the next part |
| `FileTree.StepsOfWellFormed` | src/components/FileTree.tsx:49-70 | the turns for a list of files are well formed and each starts from the previous path or from the empty path |
| `FileTree.StrLeTotal` | src/components/FileTree.tsx:78 | the string order standing in for `localeCompare` is total |
| `FileTree.StrLeTrans` | src/components/FileTree.tsx:78 | that string order is transitive |
| `FileTree.NodeLeTotal` | src/components/FileTree.tsx:74-80 | the comparator "folders first, then by value" is total |
| `FileTree.NodeLeTrans` | src/components/FileTree.tsx:74-80 | the comparator is transitive |
| `FileTree.InsertSorted` | src/components/FileTree.tsx:73-80 | inserting into a sorted list keeps it sorted and adds exactly the new node |
| `FileTree.BeforeSorted` | src/components/FileTree.tsx:73-80 | a node that sorts before the head of a sorted list sorts before all of it |
| `FileTree.HeadBeforeRest` | src/components/FileTree.tsx:73-80 | the head of a sorted list sorts before every node of its tail with a later node added |
| `FileTree.SortNodes` | src/components/FileTree.tsx:73-80 | `sortNodes` returns a permutation of its input, sorted under the comparator |
| `FileTree.RootNode` | src/components/FileTree.tsx:82 | the first sorted node exists exactly when there is a top-level node, is one of them, and comes before or equals every other |
| `FileTree.TopLevel` | src/components/FileTree.tsx:82 | the top-level candidates are table nodes whose value has no slash |
| `FileTree.TopLevelContains` | src/components/FileTree.tsx:82 | every created node whose value has no slash is a top-level candidate, so with `TopLevel` the candidates are exactly those nodes |
| `FileTree.InsertPart` | src/components/FileTree.tsx:53-69 | one inner-loop turn on `tree` (create the node if missing, push it into a folder parent) is the table step |
| `FileTree.InsertName` | src/components/FileTree.tsx:50-70 | the inner loop over one name's parts, threading `path`, applies that name's turns |
| `FileTree.BuildFileTree` | src/components/FileTree.tsx:36-84 | `buildFileTree` returns the root and the matched names that the table specification gives |
| `FileTree.BuildFileTreeResult` | src/components/FileTree.tsx:36-84 | the result is `(null, [])` exactly when no file survives the filter; the matched names are the surviving names in input order; the root is a top-level node that comes first under "folders before leaves, then by value" |
| `FileTree.SubtreesValues` | src/components/FileTree.tsx:59-67 | child keys present in the table, each node keyed by its own key, yield one subtree each, in the same order |
| `FileTree.TreeOfChildren` | src/components/FileTree.tsx:59-67 | in a table that keeps the invariant, a node object carries its key, is a folder exactly for a folder node, and holds as subtrees the nodes created under it, in creation order |
| `FileTree.BuildFileTreeShape` | src/components/FileTree.tsx:45-83 | the returned root exists exactly when some file survives the filter; it is the object of the chosen top-level node, and its subtrees are the nodes created under it, in creation order |
| `FileTree.AddAllContents` | src/components/FileTree.tsx:124-130 | adding values to the `Set` keeps each value once and holds exactly the old and the added values |
| `FileTree.CollectPaths` | src/components/FileTree.tsx:124-129 | `collectPaths` adds the node's value and then its children's subtrees in order |
| `FileTree.ExpandedPaths` | src/components/FileTree.tsx:116-131 | without a search only the root is expanded; with one, every node value of the tree is expanded, each once |
| `LocalFileProvider.GetDirectoryHandle` | src/core/LocalFileProvider.ts:70 | a directory lookup succeeds exactly for a valid name whose first entry is a sub-directory, and returns that sub-directory; an invalid name throws TypeError, a name that no entry has NotFoundError, a file TypeMismatchError |
| `LocalFileProvider.WalkDirsStep` | src/core/LocalFileProvider.ts:69-71 | one turn of the directory loop: a failing lookup ends the walk with its error, a successful one continues from the sub-directory |
| `LocalFileProvider.Find` | src/core/LocalFileProvider.ts:70-74 | what the lookup by name finds is the node of an entry with that name |
| `LocalFileProvider.FindAbsent` | src/core/LocalFileProvider.ts:70-74 | the lookup finds nothing exactly when no entry has the name |
| `LocalFileProvider.LookupFile` | src/core/LocalFileProvider.ts:73-77 | the caught file lookup gives a handle exactly when a valid name names a file, and `null` otherwise |
| `LocalFileProvider.ListedNamesAreText` | src/core/LocalFileProvider.ts:27-39 | every listed name is the root name, a slash and a relative path whose MIME type contains "text" |
| `LocalFileProvider.TextFileListed` | src/core/LocalFileProvider.ts:31-39 | every text file is listed with its full name and its size as byte length |
| `LocalFileProvider.SubdirectoryListedInPlace` | src/core/LocalFileProvider.ts:40-42 | a sub-directory's listing appears in one piece where the directory is met, followed by the entries after it (depth first) |
| `LocalFileProvider.WalkDirsAppend` | src/core/LocalFileProvider.ts:69-71 | walking directories in two pieces is walking the first and then the second, and the first failure stops the walk |
| `LocalFileProvider.EntryPathJoin` | src/core/LocalFileProvider.ts:28 | the relative path built during traversal is the slash-join of the segments |
| `LocalFileProvider.ResolveListedName` | src/core/LocalFileProvider.ts:60-78 | a full name built from the root name and valid segments resolves through `getFileHandle` to the file lookup in the directory those segments reach |
| `LocalFileProvider.ListedFilesResolveFrom` | src/core/LocalFileProvider.ts:60-78 | every file listed below a reachable directory resolves back to a file of the listed size |
| `LocalFileProvider.ListedEntryResolves` | src/core/LocalFileProvider.ts:60-78 | every file listed for one entry of a reachable directory resolves back to a file of the listed size |
| `LocalFileProvider.ListedFilesResolve` | src/core/LocalFileProvider.ts:14-78 | what `getTextFileInfo` lists, `getFileHandle` finds again, with the listed size, when sibling names are valid and distinct and the root name has no slash |
| `LocalFileProvider.ContentsFromSpec` | src/core/LocalFileProvider.ts:49-57 | the contents loop succeeds exactly when no request hits a failing directory lookup; then it adds exactly the requests that name a file, each with its text, keeps keys distinct and leaves other keys alone |
| `LocalFileProvider.GetFileContentsSpec` | src/core/LocalFileProvider.ts:46-58 | the result keys are exactly the requested names that resolve to a file, each with that file's text, once each, in the order in which each is first requested; a missing final file is skipped and a failing directory lookup fails the batch |
| `LocalFileProvider.ContentsFromSucceeds` | src/core/LocalFileProvider.ts:49-57 | the contents loop succeeds exactly when no request hits a failing directory lookup |
| `LocalFileProvider.ResolvedNames` | src/core/LocalFileProvider.ts:50-55 | the requests that name a file are exactly the requested names that resolve, kept in request order |
| `LocalFileProvider.ContentsFromOrder` | src/core/LocalFileProvider.ts:49-57 | the loop assigns keys in request order: the keys afterwards are the first occurrences of the keys before followed by the requests that name a file |
| `LocalFileProvider.LocalFileProvider.constructor` | src/core/LocalFileProvider.ts:5-6 | a new provider has no root handle and an empty root name |
| `LocalFileProvider.LocalFileProvider.LoadContents` | src/core/LocalFileProvider.ts:8-12 | `loadContents` stores the handle and sets the root name to the handle's name |
| `LocalFileProvider.LocalFileProvider.GetTextFileInfo` | src/core/LocalFileProvider.ts:14-20 | before loading it fails with "No directory loaded"; after loading it returns the depth-first text listing of the root |
| `LocalFileProvider.LocalFileProvider.TraverseDirectory` | src/core/LocalFileProvider.ts:22-44 | the traversal appends the listing of the directory to the shared array |
| `LocalFileProvider.LocalFileProvider.GetFileHandle` | src/core/LocalFileProvider.ts:60-78 | the loop drops a leading root-name segment, walks the directories of all but the last segment, and then looks up the last one under the catch |
| `LocalFileProvider.LocalFileProvider.GetFileContents` | src/core/LocalFileProvider.ts:46-58 | before loading it fails with "No directory loaded"; after loading it runs the contents loop over the requested names |
| `RepoFileProvider.TextFileInfo` | src/core/RepoFileProvider.ts:20-29 | the listing has at most one item per entry and lists only names that pass the filter |
| `RepoFileProvider.TextFileInfoAppend` | src/core/RepoFileProvider.ts:22-28 | the listing keeps reader order |
| `RepoFileProvider.TextFileInfoListsText` | src/core/RepoFileProvider.ts:22-28 | every entry whose name passes the filter is listed, with name = filename and byte length = uncompressed size |
| `RepoFileProvider.TextFileInfoOnlyText` | src/core/RepoFileProvider.ts:22-28 | every listed item comes from an entry whose name passes the filter |
| `RepoFileProvider.ListsAllowListedExtension` | src/core/RepoFileProvider.ts:22 | with the `isTextFile` filter, an entry whose name ends in an allow-listed extension is listed whatever its MIME type |
| `RepoFileProvider.ValidEntries` | src/core/RepoFileProvider.ts:36 | the kept entries are exactly those that have `getData` |
| `RepoFileProvider.ReadAll` | src/core/RepoFileProvider.ts:37-46 | one pair per kept entry, in order: its name with its text, or with the empty string when its read throws |
| `RepoFileProvider.ComposedIsAssignAll` | src/core/RepoFileProvider.ts:35-50 | filtering, reading and `Object.fromEntries` together assign every readable entry in turn |
| `RepoFileProvider.AssignAllKeys` | src/core/RepoFileProvider.ts:35-50 | the assigned keys are exactly the file names of the entries that have `getData` |
| `RepoFileProvider.AssignAllLastWins` | src/core/RepoFileProvider.ts:48-49 | the last readable entry with a given name decides that name's text |
| `RepoFileProvider.GetFileContents` | src/core/RepoFileProvider.ts:35-50 | keys are distinct and exactly the names of entries with `getData`; a read that throws gives `''` without stopping the others; the last readable entry for a name decides its text; the keys come in the order in which each name first occurs among the readable entries in the archive |
| `RepoFileProvider.RepoFileProvider.constructor` | src/core/RepoFileProvider.ts:9-11 | a new provider keeps its URL and has no reader |
| `RepoFileProvider.RepoFileProvider.LoadContents` | src/core/RepoFileProvider.ts:13-18 | `loadContents` installs the reader over the downloaded archive |
| `RepoFileProvider.RepoFileProvider.GetEntries` | src/core/RepoFileProvider.ts:31-33 | the reader's entries, or a failure when no reader is loaded |
| `RepoFileProvider.RepoFileProvider.GetTextFileInfo` | src/core/RepoFileProvider.ts:20-29 | the text entries of the loaded archive in reader order, or a failure when no reader is loaded |
| `FileUtils.Extension` | src/utils/fileUtils.ts:12 | the extension is the suffix from the last dot; without a dot it is the last character alone |
| `FileUtils.ListedIff` | src/utils/fileUtils.ts:14 | the list search holds exactly when the value is on the list |
| `FileUtils.ExtensionsShape` | src/utils/fileUtils.ts:3-9 | every allow-listed extension is a dot followed by lower-case letters and digits |
| `FileUtils.IsTextFile` | src/utils/fileUtils.ts:11-15 | a name is text exactly when its MIME type mentions "text" or its lower-cased extension is on the allow-list |
| `FileUtils.ExtensionOfDotSuffix` | src/utils/fileUtils.ts:12 | a name ending in a dot and dot-free text has that suffix as its extension |
| `FileUtils.ListedExtensionIsText` | src/utils/fileUtils.ts:11-15 | a name whose extension lower-cases to an allow-listed one is text whatever its MIME type (so `.env` and `x.ENV` qualify) |
| `FileUtils.DotlessNameOnlyByMime` | src/utils/fileUtils.ts:11-15 | a dot-free name is text exactly when its MIME type contains "text" |
| `FileUtils.DottedDirectoryOnlyByMime` | src/utils/fileUtils.ts:11-15 | when the last dot is in a directory name, the extension contains a slash and only the MIME type decides |
| `GitHubUtils.SegmentEnd` | src/utils/githubUtils.ts:9 | the greedy `[^\/]+` run ends at a slash or at the end of the URL |
| `GitHubUtils.MatchAtComplete` | src/utils/githubUtils.ts:9 | where the pattern matches, the matcher finds the same owner and name |
| `GitHubUtils.MatchAt` | src/utils/githubUtils.ts:9 | what the matcher finds at a position is a match of the pattern there, with those groups |
| `GitHubUtils.MatchAtIff` | src/utils/githubUtils.ts:9 | the matcher at a position finds an owner and name exactly when the pattern matches there with them |
| `GitHubUtils.FirstMatchFrom` | src/utils/githubUtils.ts:9 | the search returns the leftmost matching position, or none when nothing matches |
| `GitHubUtils.ParseGitHubUrl` | src/utils/githubUtils.ts:8-17 | parsing fails with "Invalid GitHub URL" exactly when the pattern matches nowhere; otherwise owner and name are those of the leftmost match: non-empty, slash-free and maximal |
| `GitHubUtils.NoMatchInScheme` | src/utils/githubUtils.ts:29 | no match can start inside the `https://` prefix |
| `GitHubUtils.MatchAfterPrefix` | src/utils/githubUtils.ts:9 | the pattern matches right after any prefix followed by `github.com/`, an owner, a slash, a name and a slash |
| `GitHubUtils.DownloadUrlRoundTrip` | src/utils/githubUtils.ts:28-30 | parsing the archive URL of a repository gives that repository back, for any branch, when owner and name are non-empty and slash-free |
| `GitHubUtils.GetDownloadUrl` | src/utils/githubUtils.ts:28-30 | the archive URL is an https github.com URL ending in ".zip", and parsing it gives the repository back when owner and name are non-empty and slash-free |
| `Strings.Split` | src/core/fileListReducer.ts:9 | `split` gives at least one part, and no part contains the separator |
| `Strings.JoinSplit` | src/core/fileListReducer.ts:52-53 | joining the parts of a split gives the string back |
| `Strings.SplitJoin` | src/components/FileTree.tsx:50 | splitting a join of separator-free parts gives the parts back |
| `Strings.IndexOf` | src/components/FileTree.tsx:88 | `indexOf` returns the first occurrence, or -1 exactly when there is none |
| `Strings.LastIndexOf` | src/utils/fileUtils.ts:12 | `lastIndexOf` returns the last occurrence, or -1 exactly when there is none |
| `Strings.SliceFrom` | src/utils/fileUtils.ts:12 | `slice(start)` counts a negative start from the end |
| `Strings.ToLower` | src/components/FileTree.tsx:39-41 | lower-casing keeps the length and folds each ASCII capital |
| `Strings.TrimStart` | src/core/fileListReducer.ts:60 | trimming the front removes exactly the leading white space |
| `Strings.TrimEnd` | src/core/fileListReducer.ts:60 | trimming the back removes exactly the trailing white space |
| `Strings.TrimEmptyIff` | src/core/fileListReducer.ts:49 | `trim()` is empty exactly when the content is white space only |
| `Strings.TrimEndAppend` | src/core/fileListReducer.ts:60 | trimming the back of `a + b` leaves `a` alone when `b` is not all white space |
| `OrderedDict.Put` | src/core/LocalFileProvider.ts:54 | assigning a key keeps an existing key in place and appends a new one; that key gets the value and other keys are unchanged |
| `OrderedDict.FromEntriesKeys` | src/core/RepoFileProvider.ts:49 | `Object.fromEntries` has exactly the keys of its pairs, in the order in which each key first occurs among them |
| `OrderedDict.FirstOccurrences` | src/core/RepoFileProvider.ts:49 | the key order of an object assigned keys in a given order: each distinct key once, with exactly the keys of the input and never more of them |
| `OrderedDict.FirstOccurrencesIdempotent` | src/core/RepoFileProvider.ts:49 | keeping first occurrences of a key order already kept that way changes nothing |
| `OrderedDict.FirstOccurrencesAppend` | src/core/LocalFileProvider.ts:50-55 | keys assigned after a prefix see only the prefix's first occurrences |
| `OrderedDict.FirstOccurrencesSnoc` | src/core/LocalFileProvider.ts:54 | assigning one key and then more gives the same key order as assigning them all at once |
| `OrderedDict.PutKeysOrder` | src/core/LocalFileProvider.ts:54 | an assignment appends its key exactly where a first-occurrence key order puts it |
| `OrderedDict.PutOrder` | src/core/LocalFileProvider.ts:54 | after an assignment the keys are still each once, and later keys follow as if the assigned key had been appended to the key list |
| `OrderedDict.FromEntriesLastWins` | src/core/RepoFileProvider.ts:49 | in `Object.fromEntries` the last pair for a key decides its value |

## Left out

- User interface: React rendering, hooks, debouncing, icons and modals. A label is modelled as the text it shows, with the emphasised part split out.
- Extension plumbing: background messaging, content scripts, DOM helpers and site configuration. These are browser runtime glue.
- Network access: `downloadWithProgress` and `getPrimaryBranch` are HTTP calls. `RepoFileProvider.RepoFileProvider.LoadContents` receives the entries the download would have produced.
- zip.js and the File System Access API are foreign libraries. The MIME lookup is a function parameter. The archive is a sequence of entries. A directory handle is an in-memory tree.
- `LocalFileProvider.ValidName` rejects only `/` as a separator. The File System Access API also rejects the platform's own path separator, for example `\` on Windows. Platforms are not modelled.
- Logging: the `console.error` call when an archive entry cannot be read is left out. It has no effect on the result.
- `getFile()` and `text()` failures in the folder provider are not modelled. A file handle always yields its size and text.
- `bytesToSize` and the byte total of the app use floating point and are UI.
- `fileProviderFactory` only dispatches to the two providers. Its folder `compilePrompt` is `fileListReducer` applied to `getFileContents`.
- Asynchrony: `for await`, `Promise.all` and the promise wrappers. The model runs reads one after another. Only the per-entry isolation of failures is kept.
- JavaScript objects enumerate integer-like keys first, in numeric order. The model keeps every key in insertion order. This differs from the source for segments such as `2023` in the outline and for such keys in the content dictionaries.
- Prototype keys are not modelled. For example `constructor` or `__proto__` as a path segment would read an inherited value in the outline and in the tree table.
- `toLowerCase` is modelled for ASCII letters only. `trim` uses the ECMAScript white-space and line-terminator set.
- `localeCompare` is locale-dependent and is replaced by character-code lexicographic order.
- `FileListReducer.GenerateFolderStructure`: the nested objects updated through the moving `current` pointer are modelled as a recursive update of nested values (`InsertPath`). The pointer walk itself is not modelled. Each nested object is reachable only through its parent, so no aliasing is lost.
- `FileTree.BuildFileTree`: the table maps keys to nodes and a folder holds its children's keys. In the source a folder holds the node objects themselves, and they are the same objects as the table's entries. `nodes.sort` sorts a fresh array in place. The model specifies it as a stable insertion sort (`SortNodes`), and only its result is used.
- `LocalFileProvider.LocalFileProvider.TraverseDirectory`: the shared `fileInfos` array is passed in and returned rather than mutated in place.
- `LocalFileProvider.LocalFileProvider.GetFileHandle` requires a loaded folder. The source calls it only after `getFileContents` has checked for one, and it dereferences the handle with `!`.
- `FileListReducer.FileListReducer` accepts any sequence of pairs. A JavaScript object never has a repeated key, and the model does not need that fact.
