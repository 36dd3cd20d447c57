/** The selection tree of src/components/FileTree.tsx: `buildFileTree`, which
    turns the flat list of file names into a tree keyed by cumulative path and
    picks its root, the label helper `highlightSearchText`, the expanded-path
    collection of the component's effect, and the `handleCheck` selection merge.
    React rendering is not part of the model; a label is the text it shows,
    with the emphasised part split out. */
module FileTree {
  import opened Results
  import opened Types
  import opened Strings

  // ---------------------------------------------------------------------------
  // Labels

  /** A node label: the raw text, or the text split around the emphasised match. */
  datatype Label = Plain(text: string) | Highlighted(before: string, emphasis: string, after: string)

  /** `highlightSearchText(text, search)`: the first match of the search,
      ignoring ASCII case, is emphasised; without a search or a match the text
      is returned as it is. */
  function HighlightSearchText(text: string, search: string): (l: Label)
    ensures l.Plain? <==> search == "" || IndexOf(ToLower(text), ToLower(search)) == -1
    ensures l.Plain? ==> l.text == text
    ensures l.Highlighted? ==>
              && l.before + l.emphasis + l.after == text
              && |l.emphasis| == |search|
              && ToLower(l.emphasis) == ToLower(search)
              && (forall i :: 0 <= i < |l.before| ==> !OccursAt(ToLower(text), ToLower(search), i))
  {
    if search == "" then Plain(text)
    else
      var index := IndexOf(ToLower(text), ToLower(search));
      if index == -1 then Plain(text)
      else
        HighlightAt(text, search, index);
        var end := index + |search|;
        Highlighted(text[..index], text[index..end], text[end..])
  }

  /** A case-insensitive match at `index` cuts the text into three parts, the
      middle one equal to the search up to case. */
  lemma HighlightAt(text: string, search: string, index: nat)
    requires OccursAt(ToLower(text), ToLower(search), index)
    ensures index + |search| <= |text|
    ensures text[..index] + text[index..index + |search|] + text[index + |search|..] == text
    ensures ToLower(text[index..index + |search|]) == ToLower(search)
  {
    ToLowerSlice(text, index, index + |search|);
  }

  /** The label a new node gets: `search ? highlightSearchText(part, search) : part`. */
  function LabelOf(part: string, search: string): Label
  {
    if search == "" then Plain(part) else HighlightSearchText(part, search)
  }

  // ---------------------------------------------------------------------------
  // The selection merge

  /** `sub` is `s` with some elements removed, the rest in their order. */
  predicate IsSubsequence(sub: seq<string>, s: seq<string>)
    decreases |s|
  {
    if sub == [] then true
    else if s == [] then false
    else (sub[0] == s[0] && IsSubsequence(sub[1..], s[1..])) || IsSubsequence(sub, s[1..])
  }

  /** `checked.filter(c => !newChecked.includes(c) && !matchedFiles.includes(c))`:
      every kept selection appears as often as in `checked`, in its order. */
  function KeptHidden(checked: seq<string>, newChecked: seq<string>, matched: seq<string>): (kept: seq<string>)
    ensures forall c :: c in kept <==> c in checked && c !in newChecked && c !in matched
    ensures |kept| <= |checked|
    ensures IsSubsequence(kept, checked)
    ensures forall c :: multiset(kept)[c] == if c !in newChecked && c !in matched then multiset(checked)[c] else 0
  {
    if checked == [] then []
    else
      var rest := KeptHidden(checked[1..], newChecked, matched);
      assert forall c :: c in checked <==> c == checked[0] || c in checked[1..];
      assert checked == [checked[0]] + checked[1..];
      if checked[0] !in newChecked && checked[0] !in matched then [checked[0]] + rest else rest
  }

  /** `handleCheck(newChecked)`: what is passed to `onCheckedChange`. It starts
      with the new selection; a previous selection hidden by the search
      survives, and a visible one the user unticked is dropped. */
  function HandleCheck(newChecked: seq<string>, checked: seq<string>, matched: seq<string>): (r: seq<string>)
    ensures |newChecked| <= |r| && r[..|newChecked|] == newChecked
    ensures forall c :: c in r <==> c in newChecked || (c in checked && c !in matched)
    ensures forall c :: c in matched && c !in newChecked ==> c !in r
    ensures r[|newChecked|..] == KeptHidden(checked, newChecked, matched)
  {
    var kept := KeptHidden(checked, newChecked, matched);
    assert (newChecked + kept)[..|newChecked|] == newChecked;
    assert (newChecked + kept)[|newChecked|..] == kept;
    newChecked + kept
  }

  /** The kept selections stay in their previous order: filtering a
      concatenation filters each part. */
  lemma {:induction false} KeptHiddenAppend(a: seq<string>, b: seq<string>, newChecked: seq<string>, matched: seq<string>)
    ensures KeptHidden(a + b, newChecked, matched) == KeptHidden(a, newChecked, matched) + KeptHidden(b, newChecked, matched)
  {
    if a == [] {
      assert a + b == b;
    } else {
      assert (a + b)[0] == a[0] && (a + b)[1..] == a[1..] + b;
      KeptHiddenAppend(a[1..], b, newChecked, matched);
    }
  }

  // ---------------------------------------------------------------------------
  // Filtering by the search

  /** `f.name.toLowerCase().includes(searchLower)`. */
  predicate MatchesSearch(name: string, search: string)
  {
    Includes(ToLower(name), ToLower(search))
  }

  /** `files.filter(...)` by the search. */
  function FilterBySearch(files: seq<FileInfo>, search: string): (kept: seq<FileInfo>)
    ensures |kept| <= |files|
    ensures forall f :: f in kept <==> f in files && MatchesSearch(f.name, search)
  {
    if files == [] then []
    else
      var rest := FilterBySearch(files[1..], search);
      assert forall f :: f in files <==> f == files[0] || f in files[1..];
      if MatchesSearch(files[0].name, search) then [files[0]] + rest else rest
  }

  /** The files the tree is built from: all of them without a search. */
  function FilteredFiles(files: seq<FileInfo>, search: string): seq<FileInfo>
  {
    if search == "" then files else FilterBySearch(files, search)
  }

  /** `filteredFiles.map(f => f.name)`. */
  function Names(files: seq<FileInfo>): (names: seq<string>)
    ensures |names| == |files|
    ensures forall i :: 0 <= i < |files| ==> names[i] == files[i].name
  {
    seq(|files|, i requires 0 <= i < |files| => files[i].name)
  }

  /** Filtering keeps the input order: filtering a concatenation filters each part. */
  lemma {:induction false} FilterBySearchAppend(a: seq<FileInfo>, b: seq<FileInfo>, search: string)
    ensures FilterBySearch(a + b, search) == FilterBySearch(a, search) + FilterBySearch(b, search)
  {
    if a == [] {
      assert a + b == b;
    } else {
      assert (a + b)[0] == a[0] && (a + b)[1..] == a[1..] + b;
      FilterBySearchAppend(a[1..], b, search);
    }
  }

  // ---------------------------------------------------------------------------
  // The node table

  /** One entry of `tree`: a folder has `children` (the keys of the nodes
      pushed into it, in push order), a leaf has none. Children are held by
      key: a pushed node is the same object as the table's entry. */
  datatype TreeNode = TreeNode(value: string, caption: Label, children: Option<seq<string>>)

  /** `tree`, with its keys in insertion order (the order `Object.values` lists them). */
  datatype Table = Table(nodes: map<string, TreeNode>, order: seq<string>)

  /** One turn of the inner loop: the previous `path`, `currentPath`, the part and `isLast`. */
  datatype Step = Step(parent: string, key: string, part: string, isLast: bool)

  /** `path ? `${path}/${part}` : part`. */
  function CumPath(path: string, part: string): string
  {
    if path == "" then part else path + "/" + part
  }

  /** The value of `path` after the given parts. */
  function PathOf(parts: seq<string>): string
  {
    if parts == [] then "" else CumPath(PathOf(parts[..|parts| - 1]), parts[|parts| - 1])
  }

  /** The turns of the inner loop for one file name. */
  function StepsOfName(name: string): (steps: seq<Step>)
    ensures |steps| == |Split(name, '/')|
  {
    var parts := Split(name, '/');
    seq(|parts|, i requires 0 <= i < |parts| =>
      Step(PathOf(parts[..i]), PathOf(parts[..i + 1]), parts[i], i == |parts| - 1))
  }

  /** The turns of both loops for a list of files. */
  function StepsOf(files: seq<FileInfo>): seq<Step>
  {
    if files == [] then [] else StepsOf(files[..|files| - 1]) + StepsOfName(files[|files| - 1].name)
  }

  /** One turn of the inner loop on the table: a new cumulative path gets a
      node (a leaf for the last part, a folder otherwise), which is pushed into
      its parent when the parent path is non-empty and its node is a folder;
      a path already present is left alone. */
  function Insert(t: Table, s: Step, search: string): Table
  {
    if s.key in t.nodes then t
    else
      var node := TreeNode(s.key, LabelOf(s.part, search), if s.isLast then None else Some([]));
      var nodes := t.nodes[s.key := node];
      var nodes' :=
        if s.parent != "" && s.parent in nodes && nodes[s.parent].children.Some? then
          nodes[s.parent := nodes[s.parent].(children := Some(nodes[s.parent].children.value + [s.key]))]
        else nodes;
      Table(nodes', t.order + [s.key])
  }

  /** The table `t` after the given turns. */
  function Apply(t: Table, steps: seq<Step>, search: string): Table
  {
    if steps == [] then t
    else Insert(Apply(t, steps[..|steps| - 1], search), steps[|steps| - 1], search)
  }

  /** The table after the given turns, starting from `{}`. */
  function Build(steps: seq<Step>, search: string): Table
  {
    Apply(Table(map[], []), steps, search)
  }

  /** Turns in two batches: the second batch continues from the first one's table. */
  lemma {:induction false} ApplyAppend(t: Table, a: seq<Step>, b: seq<Step>, search: string)
    ensures Apply(t, a + b, search) == Apply(Apply(t, a, search), b, search)
  {
    if b == [] {
      assert a + b == a;
    } else {
      assert (a + b)[..|a + b| - 1] == a + b[..|b| - 1];
      assert (a + b)[|a + b| - 1] == b[|b| - 1];
      ApplyAppend(t, a, b[..|b| - 1], search);
    }
  }

  /** The keys of the turns, in order. */
  function StepKeys(steps: seq<Step>): (keys: seq<string>)
    ensures |keys| == |steps|
    ensures forall i :: 0 <= i < |steps| ==> keys[i] == steps[i].key
  {
    if steps == [] then [] else StepKeys(steps[..|steps| - 1]) + [steps[|steps| - 1].key]
  }

  /** The prefix before the last slash: the key of a node's parent. */
  function ParentKey(c: string): string
    requires '/' in c
  {
    c[..LastIndexOf(c, '/')]
  }

  /** The keys in `order` whose parent key is `k`, in order. */
  function ChildrenIn(order: seq<string>, k: string): (cs: seq<string>)
    ensures forall c :: c in cs ==> c in order && '/' in c && ParentKey(c) == k
  {
    if order == [] then []
    else
      var last := order[|order| - 1];
      ChildrenIn(order[..|order| - 1], k) + (if '/' in last && ParentKey(last) == k then [last] else [])
  }

  /** Nothing in `order` has `k` as its parent key. */
  lemma {:induction false} NoChildrenIn(order: seq<string>, k: string)
    requires forall c :: c in order && '/' in c ==> ParentKey(c) != k
    ensures ChildrenIn(order, k) == []
  {
    if order != [] {
      assert order[|order| - 1] in order;
      assert forall c :: c in order[..|order| - 1] ==> c in order;
      NoChildrenIn(order[..|order| - 1], k);
    }
  }

  /** No key occurs twice. */
  predicate Distinct(s: seq<string>)
  {
    forall i, j :: 0 <= i < j < |s| ==> s[i] != s[j]
  }

  /** What every table built by the loops satisfies: each node's value is its
      key, `order` lists every key once, every nested key's parent is present,
      and a folder's children are exactly the nodes whose parent key it is, in
      creation order. */
  ghost predicate TableInvariant(t: Table)
  {
    KeyedNodes(t) && ChildrenListed(t)
  }

  /** The key part of the invariant: values, order and parents. */
  ghost predicate KeyedNodes(t: Table)
  {
    && (forall k :: k in t.nodes ==> t.nodes[k].value == k)
    && Distinct(t.order)
    && (forall k :: k in t.order <==> k in t.nodes)
    && (forall c :: c in t.nodes && '/' in c ==> ParentKey(c) in t.nodes)
  }

  /** The children part of the invariant. */
  ghost predicate ChildrenListed(t: Table)
  {
    forall k :: k in t.nodes && t.nodes[k].children.Some? ==> t.nodes[k].children.value == ChildrenIn(t.order, k)
  }

  /** A turn as the loops make it: the key extends the parent by a slash-free part. */
  predicate WellFormedStep(s: Step)
  {
    '/' !in s.part && s.key == CumPath(s.parent, s.part)
  }

  /** Each turn's parent is the previous turn's key, or empty. */
  predicate Chained(steps: seq<Step>)
  {
    forall i :: 0 <= i < |steps| && steps[i].parent != "" ==> i > 0 && steps[i - 1].key == steps[i].parent
  }

  lemma ParentKeyOf(p: string, part: string)
    requires p != "" && '/' !in part
    ensures '/' in p + "/" + part
    ensures ParentKey(p + "/" + part) == p
  {
    var c := p + "/" + part;
    assert c[|p|] == '/';
    assert forall i :: |p| < i < |c| ==> c[i] == part[i - |p| - 1];
    assert LastIndexOf(c, '/') == |p|;
  }

  /** Appending a key to the order adds it to its parent's children only. */
  lemma ChildrenInSnoc(order: seq<string>, x: string, k: string)
    ensures ChildrenIn(order + [x], k) == ChildrenIn(order, k) + (if '/' in x && ParentKey(x) == k then [x] else [])
  {
    assert (order + [x])[..|order|] == order;
  }

  /** After a turn that adds a key, each folder's children are still those
      whose parent key it is. */
  lemma InsertKeepsChildren(t: Table, s: Step, search: string, k: string)
    requires TableInvariant(t)
    requires WellFormedStep(s)
    requires s.parent != "" ==> s.parent in t.nodes
    requires s.key !in t.nodes
    requires k in Insert(t, s, search).nodes && Insert(t, s, search).nodes[k].children.Some?
    ensures Insert(t, s, search).nodes[k].children.value == ChildrenIn(t.order + [s.key], k)
  {
    ChildrenInSnoc(t.order, s.key, k);
    if s.parent != "" {
      ParentKeyOf(s.parent, s.part);
    }
    if k == s.key {
      NoChildrenIn(t.order, k);
    }
  }

  /** A turn that adds a key keeps values, order and parents in step. */
  lemma InsertKeepsKeys(t: Table, s: Step, search: string)
    requires KeyedNodes(t)
    requires WellFormedStep(s)
    requires s.parent != "" ==> s.parent in t.nodes
    requires s.key !in t.nodes
    ensures KeyedNodes(Insert(t, s, search))
  {
    var order' := t.order + [s.key];
    if s.parent != "" {
      ParentKeyOf(s.parent, s.part);
    }
    assert Distinct(order') by {
      forall i, j | 0 <= i < j < |order'| ensures order'[i] != order'[j] {
        if j == |order'| - 1 {
          assert order'[i] in t.order;
        }
      }
    }
  }

  /** One turn keeps the invariant, when the parent is already present. */
  lemma InsertKeepsInvariant(t: Table, s: Step, search: string)
    requires TableInvariant(t)
    requires WellFormedStep(s)
    requires s.parent != "" ==> s.parent in t.nodes
    ensures TableInvariant(Insert(t, s, search))
  {
    if s.key !in t.nodes {
      var t' := Insert(t, s, search);
      InsertKeepsKeys(t, s, search);
      assert ChildrenListed(t') by {
        forall k | k in t'.nodes && t'.nodes[k].children.Some?
          ensures t'.nodes[k].children.value == ChildrenIn(t'.order, k)
        {
          InsertKeepsChildren(t, s, search, k);
        }
      }
    }
  }

  /** The table holds exactly the cumulative paths of the turns. */
  lemma {:induction false} BuildKeys(steps: seq<Step>, search: string)
    ensures forall k :: k in Build(steps, search).nodes <==> k in StepKeys(steps)
  {
    if steps != [] {
      BuildKeys(steps[..|steps| - 1], search);
    }
  }

  /** Turns as the loops make them keep the table invariant. */
  lemma {:induction false} BuildInvariant(steps: seq<Step>, search: string)
    requires forall i :: 0 <= i < |steps| ==> WellFormedStep(steps[i])
    requires Chained(steps)
    ensures TableInvariant(Build(steps, search))
  {
    if steps != [] {
      var init := steps[..|steps| - 1];
      var s := steps[|steps| - 1];
      assert Chained(init);
      BuildInvariant(init, search);
      if s.parent != "" {
        BuildKeys(init, search);
        assert StepKeys(init)[|steps| - 2] == s.parent;
      }
      InsertKeepsInvariant(Build(init, search), s, search);
    }
  }

  /** The first turn that reaches a cumulative path decides its node for good:
      a folder unless it was the last part, labelled by that turn's part. */
  lemma {:induction false} FirstInsertionDecides(steps: seq<Step>, search: string, i: nat)
    requires i < |steps| && steps[i].key !in StepKeys(steps[..i])
    ensures steps[i].key in Build(steps, search).nodes
    ensures Build(steps, search).nodes[steps[i].key].children.Some? <==> !steps[i].isLast
    ensures Build(steps, search).nodes[steps[i].key].caption == LabelOf(steps[i].part, search)
  {
    var init := steps[..|steps| - 1];
    var t := Build(init, search);
    assert Build(steps, search) == Insert(t, steps[|steps| - 1], search);
    if i == |steps| - 1 {
      BuildKeys(init, search);
      assert init == steps[..i];
    } else {
      assert init[..i] == steps[..i];
      FirstInsertionDecides(init, search, i);
      InsertKeepsNode(t, steps[|steps| - 1], search, steps[i].key);
    }
  }

  /** A turn never changes whether an existing node is a folder, nor its label. */
  lemma InsertKeepsNode(t: Table, s: Step, search: string, k: string)
    requires k in t.nodes
    ensures k in Insert(t, s, search).nodes
    ensures Insert(t, s, search).nodes[k].children.Some? == t.nodes[k].children.Some?
    ensures Insert(t, s, search).nodes[k].caption == t.nodes[k].caption
  {
  }

  /** The turns of one file name are well formed and chained. */
  lemma StepsOfNameWellFormed(name: string)
    ensures forall i :: 0 <= i < |StepsOfName(name)| ==> WellFormedStep(StepsOfName(name)[i])
    ensures Chained(StepsOfName(name))
    ensures StepsOfName(name)[0].parent == ""
  {
    var parts := Split(name, '/');
    var steps := StepsOfName(name);
    forall i | 0 <= i < |steps| ensures WellFormedStep(steps[i]) {
      PathOfSnoc(parts, i);
    }
    forall i | 0 < i < |steps| ensures steps[i - 1].key == steps[i].parent {
      assert parts[..i - 1 + 1] == parts[..i];
    }
  }

  /** One more part extends the cumulative path by that part. */
  lemma PathOfSnoc(parts: seq<string>, i: nat)
    requires i < |parts|
    ensures PathOf(parts[..i + 1]) == CumPath(PathOf(parts[..i]), parts[i])
  {
    assert parts[..i + 1][..i] == parts[..i];
  }

  /** The turns of a list of files are well formed and chained. */
  lemma {:induction false} StepsOfWellFormed(files: seq<FileInfo>)
    ensures forall i :: 0 <= i < |StepsOf(files)| ==> WellFormedStep(StepsOf(files)[i])
    ensures Chained(StepsOf(files))
  {
    if files != [] {
      var a := StepsOf(files[..|files| - 1]);
      var b := StepsOfName(files[|files| - 1].name);
      StepsOfWellFormed(files[..|files| - 1]);
      StepsOfNameWellFormed(files[|files| - 1].name);
      var steps := a + b;
      assert forall i :: |a| <= i < |steps| ==> steps[i] == b[i - |a|];
      assert forall i :: 0 <= i < |a| ==> steps[i] == a[i];
    }
  }

  // ---------------------------------------------------------------------------
  // Picking the root

  /** Character-code lexicographic order, standing in for `localeCompare`. */
  predicate StrLe(a: string, b: string)
  {
    a == [] || (b != [] && (a[0] < b[0] || (a[0] == b[0] && StrLe(a[1..], b[1..]))))
  }

  lemma {:induction false} StrLeTotal(a: string, b: string)
    ensures StrLe(a, b) || StrLe(b, a)
  {
    if a != [] && b != [] && a[0] == b[0] {
      StrLeTotal(a[1..], b[1..]);
    }
  }

  lemma {:induction false} StrLeTrans(a: string, b: string, c: string)
    requires StrLe(a, b) && StrLe(b, c)
    ensures StrLe(a, c)
  {
    if a != [] && b != [] && c != [] && a[0] == b[0] == c[0] {
      StrLeTrans(a[1..], b[1..], c[1..]);
    }
  }

  /** The comparator of `sortNodes`: folders before leaves, then by value. */
  predicate NodeLe(a: TreeNode, b: TreeNode)
  {
    if a.children.Some? == b.children.Some? then StrLe(a.value, b.value) else a.children.Some?
  }

  lemma NodeLeTotal(a: TreeNode, b: TreeNode)
    ensures NodeLe(a, b) || NodeLe(b, a)
  {
    StrLeTotal(a.value, b.value);
  }

  lemma NodeLeTrans(a: TreeNode, b: TreeNode, c: TreeNode)
    requires NodeLe(a, b) && NodeLe(b, c)
    ensures NodeLe(a, c)
  {
    if a.children.Some? == b.children.Some? == c.children.Some? {
      StrLeTrans(a.value, b.value, c.value);
    }
  }

  predicate SortedNodes(s: seq<TreeNode>)
  {
    forall i, j :: 0 <= i < j < |s| ==> NodeLe(s[i], s[j])
  }

  /** What comes before the head of a sorted sequence comes before all of it. */
  lemma BeforeSorted(x: TreeNode, s: seq<TreeNode>)
    requires SortedNodes(s) && s != [] && NodeLe(x, s[0])
    ensures forall j :: 0 <= j < |s| ==> NodeLe(x, s[j])
  {
    forall j | 0 < j < |s| ensures NodeLe(x, s[j]) {
      NodeLeTrans(x, s[0], s[j]);
    }
  }

  /** The head of a sorted sequence comes before everything in its tail with
      an element that comes after it added. */
  lemma HeadBeforeRest(x: TreeNode, s: seq<TreeNode>, rest: seq<TreeNode>)
    requires SortedNodes(s) && s != [] && NodeLe(s[0], x)
    requires multiset(rest) == multiset(s[1..]) + multiset{x}
    ensures forall j :: 0 <= j < |rest| ==> NodeLe(s[0], rest[j])
  {
    forall j | 0 <= j < |rest| ensures NodeLe(s[0], rest[j]) {
      assert rest[j] in multiset(rest);
      if rest[j] != x {
        assert rest[j] in multiset(s[1..]);
        var k :| 0 <= k < |s[1..]| && s[1..][k] == rest[j];
        assert s[k + 1] == rest[j];
      }
    }
  }

  /** Places `x` before the first element it does not come after. */
  function InsertSorted(x: TreeNode, s: seq<TreeNode>): (r: seq<TreeNode>)
    requires SortedNodes(s)
    ensures SortedNodes(r)
    ensures multiset(r) == multiset(s) + multiset{x}
  {
    if s == [] then [x]
    else if NodeLe(x, s[0]) then
      BeforeSorted(x, s);
      [x] + s
    else
      NodeLeTotal(x, s[0]);
      var rest := InsertSorted(x, s[1..]);
      HeadBeforeRest(x, s, rest);
      assert s == [s[0]] + s[1..];
      [s[0]] + rest
  }

  /** `sortNodes(nodes)`: a stable insertion sort under the comparator. */
  function SortNodes(s: seq<TreeNode>): (r: seq<TreeNode>)
    ensures SortedNodes(r)
    ensures multiset(r) == multiset(s)
  {
    if s == [] then []
    else
      assert s == [s[0]] + s[1..];
      InsertSorted(s[0], SortNodes(s[1..]))
  }

  lemma {:induction false} StrLeRefl(a: string)
    ensures StrLe(a, a)
  {
    if a != [] {
      StrLeRefl(a[1..]);
    }
  }

  /** `sortNodes(...)[0] || null`: the first node under the comparator, which
      comes before or equals every other. */
  function RootNode(top: seq<TreeNode>): (r: Option<TreeNode>)
    ensures r.None? <==> top == []
    ensures r.Some? ==> r.value in top && forall m :: m in top ==> NodeLe(r.value, m)
  {
    var sorted := SortNodes(top);
    if sorted == [] then
      assert multiset(top) == multiset{};
      None
    else
      assert sorted[0] in multiset(top);
      assert forall m :: m in top ==> NodeLe(sorted[0], m) by {
        forall m | m in top ensures NodeLe(sorted[0], m) {
          assert m in multiset(sorted);
          var j :| 0 <= j < |sorted| && sorted[j] == m;
          if j == 0 {
            StrLeRefl(m.value);
          }
        }
      }
      Some(sorted[0])
  }

  /** `Object.values(tree).filter(node => !node.value.includes('/'))`. */
  function TopLevel(nodes: map<string, TreeNode>, order: seq<string>): (top: seq<TreeNode>)
    ensures forall n :: n in top ==> n in nodes.Values && '/' !in n.value
  {
    if order == [] then []
    else
      var k := order[|order| - 1];
      TopLevel(nodes, order[..|order| - 1]) + (if k in nodes && '/' !in nodes[k].value then [nodes[k]] else [])
  }

  // ---------------------------------------------------------------------------
  // The returned tree

  /** A node object as reached from the returned root: a leaf has no
      `children` array, a folder has one. */
  datatype Tree =
    | Leaf(value: string, caption: Label)
    | Folder(value: string, caption: Label, children: seq<Tree>)

  /** The nodes reached through the given child keys; each node is looked up
      in the table without its own key, so a walk never revisits a key. */
  function Subtrees(nodes: map<string, TreeNode>, keys: seq<string>): seq<Tree>
    decreases nodes, |keys|
  {
    if keys == [] then []
    else
      var rest := Subtrees(nodes, keys[1..]);
      if keys[0] in nodes then
        var n := nodes[keys[0]];
        var below := nodes - {keys[0]};
        [if n.children.None? then Leaf(n.value, n.caption) else Folder(n.value, n.caption, Subtrees(below, n.children.value))] + rest
      else rest
  }

  /** The object a table node stands for, with its children reached through the table. */
  function TreeOf(nodes: map<string, TreeNode>, n: TreeNode): Tree
  {
    if n.children.None? then Leaf(n.value, n.caption) else Folder(n.value, n.caption, Subtrees(nodes - {n.value}, n.children.value))
  }

  /** The values of a sequence of subtrees. */
  function Values(trees: seq<Tree>): (vs: seq<string>)
    ensures |vs| == |trees|
    ensures forall i :: 0 <= i < |trees| ==> vs[i] == trees[i].value
  {
    seq(|trees|, i requires 0 <= i < |trees| => trees[i].value)
  }

  /** Child keys that are all in the table, each node keyed by its own key,
      come back as one subtree each, in the same order. */
  lemma {:induction false} SubtreesValues(nodes: map<string, TreeNode>, keys: seq<string>)
    requires forall c :: c in keys ==> c in nodes && nodes[c].value == c
    ensures Values(Subtrees(nodes, keys)) == keys
    decreases |keys|
  {
    if keys != [] {
      assert forall c :: c in keys[1..] ==> c in keys;
      SubtreesValues(nodes, keys[1..]);
      var rest := Subtrees(nodes, keys[1..]);
      var r := Subtrees(nodes, keys);
      var head := TreeOf(nodes, nodes[keys[0]]);
      assert r == [head] + rest;
      assert head.value == keys[0];
      assert Values(r) == [keys[0]] + Values(rest) by {
        forall i | 0 <= i < |r|
          ensures Values(r)[i] == ([keys[0]] + Values(rest))[i]
        {
          if i > 0 {
            assert r[i] == rest[i - 1];
          }
        }
      }
      assert keys == [keys[0]] + keys[1..];
    }
  }

  /** In a table that keeps the invariant, the object of a node is a leaf
      exactly for a leaf node, carries the node's key, and a folder's subtrees
      are the nodes whose parent key it is, in creation order. */
  lemma TreeOfChildren(t: Table, k: string)
    requires TableInvariant(t)
    requires k in t.nodes
    ensures TreeOf(t.nodes, t.nodes[k]).value == k
    ensures TreeOf(t.nodes, t.nodes[k]).Folder? <==> t.nodes[k].children.Some?
    ensures TreeOf(t.nodes, t.nodes[k]).Folder? ==> Values(TreeOf(t.nodes, t.nodes[k]).children) == ChildrenIn(t.order, k)
  {
    var n := t.nodes[k];
    if n.children.Some? {
      var cs := ChildrenIn(t.order, k);
      var below := t.nodes - {k};
      forall c | c in cs ensures c in below && below[c].value == c {
        assert c in t.order;
        assert |ParentKey(c)| < |c|;
      }
      SubtreesValues(below, cs);
    }
  }

  /** `buildFileTree(files, search)`: the root node (or none) and the matched names. */
  function BuildSpec(files: seq<FileInfo>, search: string): (Option<Tree>, seq<string>)
  {
    var filtered := FilteredFiles(files, search);
    if |files| == 0 || |filtered| == 0 then (None, [])
    else
      var t := Build(StepsOf(filtered), search);
      var root := RootNode(TopLevel(t.nodes, t.order));
      (if root.None? then None else Some(TreeOf(t.nodes, root.value)), Names(filtered))
  }

  /** One turn of the inner loop of `buildFileTree` on the table. */
  method InsertPart(nodes: map<string, TreeNode>, order: seq<string>, path: string, part: string, isLast: bool, search: string)
    returns (nodes': map<string, TreeNode>, order': seq<string>)
    ensures Table(nodes', order') == Insert(Table(nodes, order), Step(path, CumPath(path, part), part, isLast), search)
  {
    nodes', order' := nodes, order;
    var currentPath := if path == "" then part else path + "/" + part;
    if currentPath !in nodes' {
      var caption := if search == "" then Plain(part) else HighlightSearchText(part, search);
      nodes' := nodes'[currentPath := TreeNode(currentPath, caption, if isLast then None else Some([]))];
      order' := order' + [currentPath];
      if path != "" && path in nodes' && nodes'[path].children.Some? {
        nodes' := nodes'[path := nodes'[path].(children := Some(nodes'[path].children.value + [currentPath]))];
      }
    }
  }

  /** The inner loop of `buildFileTree` (`parts.forEach`) for one file name. */
  method InsertName(nodes: map<string, TreeNode>, order: seq<string>, name: string, search: string)
    returns (nodes': map<string, TreeNode>, order': seq<string>)
    ensures Table(nodes', order') == Apply(Table(nodes, order), StepsOfName(name), search)
  {
    nodes', order' := nodes, order;
    var parts := Split(name, '/');
    var path := "";
    ghost var steps := StepsOfName(name);
    for idx := 0 to |parts|
      invariant path == PathOf(parts[..idx])
      invariant Table(nodes', order') == Apply(Table(nodes, order), steps[..idx], search)
    {
      var part := parts[idx];
      var isLast := idx == |parts| - 1;
      assert parts[..idx + 1][..idx] == parts[..idx];
      assert steps[idx] == Step(path, CumPath(path, part), part, isLast);
      assert steps[..idx + 1][..idx] == steps[..idx];
      nodes', order' := InsertPart(nodes', order', path, part, isLast, search);
      path := if path == "" then part else path + "/" + part;
    }
    assert steps[..|parts|] == steps;
  }

  /** `buildFileTree`, with the two loops over files and parts. */
  method BuildFileTree(files: seq<FileInfo>, search: string) returns (root: Option<Tree>, matchedFiles: seq<string>)
    ensures (root, matchedFiles) == BuildSpec(files, search)
  {
    if |files| == 0 {
      return None, [];
    }
    var filteredFiles := FilteredFiles(files, search);
    if |filteredFiles| == 0 {
      return None, [];
    }
    var nodes: map<string, TreeNode> := map[];
    var order: seq<string> := [];
    matchedFiles := Names(filteredFiles);
    for i := 0 to |filteredFiles|
      invariant Table(nodes, order) == Build(StepsOf(filteredFiles[..i]), search)
    {
      assert filteredFiles[..i + 1][..i] == filteredFiles[..i];
      ApplyAppend(Table(map[], []), StepsOf(filteredFiles[..i]), StepsOfName(filteredFiles[i].name), search);
      nodes, order := InsertName(nodes, order, filteredFiles[i].name, search);
    }
    assert filteredFiles[..|filteredFiles|] == filteredFiles;
    var top := RootNode(TopLevel(nodes, order));
    root := if top.None? then None else Some(TreeOf(nodes, top.value));
  }

  /** The first turn of a non-empty list of files starts from the empty path. */
  lemma {:induction false} StepsOfFirst(files: seq<FileInfo>)
    requires files != []
    ensures StepsOf(files) != [] && StepsOf(files)[0].parent == ""
  {
    StepsOfNameWellFormed(files[|files| - 1].name);
    if |files| > 1 {
      StepsOfFirst(files[..|files| - 1]);
    }
  }

  lemma {:induction false} TopLevelContains(nodes: map<string, TreeNode>, order: seq<string>, k: string)
    requires k in order && k in nodes && '/' !in nodes[k].value
    ensures nodes[k] in TopLevel(nodes, order)
  {
    if order[|order| - 1] != k {
      assert k in order[..|order| - 1] by {
        var j :| 0 <= j < |order| && order[j] == k;
        assert order[..|order| - 1][j] == k;
      }
      TopLevelContains(nodes, order[..|order| - 1], k);
    }
  }

  /** `buildFileTree` returns `[null, []]` exactly when no file is left after the
      search filter; otherwise the matched names are the filtered names in
      input order, and the root is a top-level node (its value has no slash)
      that comes first under "folders before leaves, then by value". */
  lemma BuildFileTreeResult(files: seq<FileInfo>, search: string)
    ensures BuildSpec(files, search).0.None? <==> FilteredFiles(files, search) == []
    ensures FilteredFiles(files, search) == [] ==> BuildSpec(files, search).1 == []
    ensures BuildSpec(files, search).1 == Names(FilteredFiles(files, search))
    ensures FilteredFiles(files, search) != [] ==>
              var t := Build(StepsOf(FilteredFiles(files, search)), search);
              var top := TopLevel(t.nodes, t.order);
              var root := RootNode(top).value;
              && BuildSpec(files, search).0 == Some(TreeOf(t.nodes, root))
              && '/' !in root.value
              && (forall m :: m in top ==> NodeLe(root, m))
  {
    var filtered := FilteredFiles(files, search);
    if filtered != [] {
      assert files != [] by {
        if search != "" {
          assert |filtered| <= |files|;
        }
      }
      var steps := StepsOf(filtered);
      var t := Build(steps, search);
      StepsOfFirst(filtered);
      StepsOfWellFormed(filtered);
      BuildKeys(steps, search);
      BuildInvariant(steps, search);
      var k := steps[0].key;
      assert k == steps[0].part && '/' !in k by {
        assert WellFormedStep(steps[0]);
      }
      assert StepKeys(steps)[0] == k;
      TopLevelContains(t.nodes, t.order, k);
    }
  }

  /** The returned root is the object of its table node: its folders hold, in
      creation order, exactly the nodes created under them. */
  lemma BuildFileTreeShape(files: seq<FileInfo>, search: string)
    ensures BuildSpec(files, search).0.Some? <==> FilteredFiles(files, search) != []
    ensures FilteredFiles(files, search) != [] ==>
              var t := Build(StepsOf(FilteredFiles(files, search)), search);
              var root := RootNode(TopLevel(t.nodes, t.order)).value;
              var tree := BuildSpec(files, search).0.value;
              && tree.value == root.value
              && (tree.Folder? <==> root.children.Some?)
              && (tree.Folder? ==> Values(tree.children) == ChildrenIn(t.order, root.value))
  {
    var filtered := FilteredFiles(files, search);
    if filtered != [] {
      BuildFileTreeResult(files, search);
      var steps := StepsOf(filtered);
      var t := Build(steps, search);
      StepsOfWellFormed(filtered);
      BuildInvariant(steps, search);
      var root := RootNode(TopLevel(t.nodes, t.order)).value;
      assert root in t.nodes.Values;
      var k :| k in t.nodes && t.nodes[k] == root;
      TreeOfChildren(t, k);
    }
  }

  // ---------------------------------------------------------------------------
  // Expanded paths

  function ChildCount(t: Tree): nat
  {
    if t.Leaf? then 0 else |t.children|
  }

  /** The values of a tree, node first, then each child's subtree in turn. */
  function Preorder(t: Tree): seq<string>
    decreases t, ChildCount(t) + 1
  {
    [t.value] + PreorderFrom(t, 0)
  }

  /** The values below `t`, from its child `i` on. */
  function PreorderFrom(t: Tree, i: nat): seq<string>
    decreases t, ChildCount(t) - i
  {
    if i >= ChildCount(t) then []
    else
      assert t.children[i] in t.children;
      Preorder(t.children[i]) + PreorderFrom(t, i + 1)
  }

  /** `set.add(x)` on a `Set` kept as its insertion-ordered contents. */
  function SetAdd(s: seq<string>, x: string): seq<string>
  {
    if x in s then s else s + [x]
  }

  /** Adding the given values one after another. */
  function AddAll(s: seq<string>, xs: seq<string>): seq<string>
    decreases |xs|
  {
    if xs == [] then s else AddAll(SetAdd(s, xs[0]), xs[1..])
  }

  lemma {:induction false} AddAllAppend(s: seq<string>, a: seq<string>, b: seq<string>)
    ensures AddAll(s, a + b) == AddAll(AddAll(s, a), b)
    decreases |a|
  {
    if a == [] {
      assert a + b == b;
    } else {
      assert (a + b)[0] == a[0] && (a + b)[1..] == a[1..] + b;
      AddAllAppend(SetAdd(s, a[0]), a[1..], b);
    }
  }

  /** A set's contents: every added value once, nothing else. */
  lemma {:induction false} AddAllContents(s: seq<string>, xs: seq<string>)
    requires Distinct(s)
    ensures Distinct(AddAll(s, xs))
    ensures forall x :: x in AddAll(s, xs) <==> x in s || x in xs
    decreases |xs|
  {
    if xs != [] {
      var s' := SetAdd(s, xs[0]);
      assert Distinct(s') by {
        if xs[0] !in s {
          forall i, j | 0 <= i < j < |s'| ensures s'[i] != s'[j] {
            if j == |s| {
              assert s'[i] in s;
            }
          }
        }
      }
      AddAllContents(s', xs[1..]);
      assert forall x :: x in xs <==> x == xs[0] || x in xs[1..];
    }
  }

  /** `collectPaths(node)`: adds the node's value, then recurses into its children. */
  method CollectPaths(node: Tree, paths: seq<string>) returns (paths': seq<string>)
    ensures paths' == AddAll(paths, Preorder(node))
    decreases node
  {
    paths' := SetAdd(paths, node.value);
    assert paths' == AddAll(paths, [node.value]);
    AddAllAppend(paths, [node.value], PreorderFrom(node, 0));
    if node.Folder? {
      var children := node.children;
      for i := 0 to |children|
        invariant AddAll(paths', PreorderFrom(node, i)) == AddAll(paths, Preorder(node))
      {
        AddAllAppend(paths', Preorder(children[i]), PreorderFrom(node, i + 1));
        paths' := CollectPaths(children[i], paths');
      }
    }
  }

  /** The expanded paths the effect sets for a root: the root alone without a
      search, every collected value with one (`Array.from(paths)`). */
  method ExpandedPaths(root: Tree, search: string) returns (expanded: seq<string>)
    ensures search == "" ==> expanded == [root.value]
    ensures search != "" ==> Distinct(expanded) && forall x :: x in expanded <==> x in Preorder(root)
  {
    if search == "" {
      return [root.value];
    }
    expanded := CollectPaths(root, []);
    AddAllContents([], Preorder(root));
  }
}
