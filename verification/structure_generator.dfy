/**
 * The project-structure generator: `generate_tree` lists a directory in
 * sorted name order, one line per entry indented by depth, descending into
 * sub-directories and skipping the ignored names; `save_tree_to_file`
 * writes the root path followed by that listing.
 */
module StructureGenerator {
  import opened Wrappers
  import Paths

  /** A directory entry as the file system shows it: a directory with its entries, a file, or anything else. */
  datatype Node = Dir(name: string, children: seq<Node>) | File(name: string) | Other(name: string)

  /** The names of the directories and of the files to leave out. */
  datatype IgnoreLists = IgnoreLists(dirs: seq<string>, files: seq<string>)

  const DefaultIgnoreDirs: seq<string> := [".git", "__pycache__", "venv", "env", ".venv"]
  const DefaultIgnoreFiles: seq<string> := [".gitignore", ".DS_Store"]

  /** A list that is not given is replaced by its default. */
  function ResolveIgnores(dirs: Option<seq<string>>, files: Option<seq<string>>): IgnoreLists {
    IgnoreLists(
      match dirs case None => DefaultIgnoreDirs case Some(d) => d,
      match files case None => DefaultIgnoreFiles case Some(f) => f)
  }

  const AsciiBranch := "|-- "
  const UnicodeBranch := "├── "

  /** The marker in front of every name. */
  function Branch(useAscii: bool): string {
    if useAscii then AsciiBranch else UnicodeBranch
  }

  /** Four spaces per level. */
  function Indent(depth: nat): (r: string)
    ensures |r| == 4 * depth
    ensures forall k :: 0 <= k < |r| ==> r[k] == ' '
  {
    if depth == 0 then "" else "    " + Indent(depth - 1)
  }

  /** An ignored directory is named in the directory list; an ignored file in the file list. */
  predicate Ignored(n: Node, ig: IgnoreLists) {
    (n.Dir? && n.name in ig.dirs) || (n.File? && n.name in ig.files)
  }

  /** Python's `a <= b` on strings: lexicographic on code points. */
  predicate NameLe(a: string, b: string)
    decreases |a|
  {
    a == [] || (b != [] && (a[0] < b[0] || (a[0] == b[0] && NameLe(a[1..], b[1..]))))
  }

  lemma {:induction false} NameLeTotal(a: string, b: string)
    ensures NameLe(a, b) || NameLe(b, a)
    decreases |a|
  {
    if a != [] && b != [] && a[0] == b[0] {
      NameLeTotal(a[1..], b[1..]);
    }
  }

  lemma {:induction false} NameLeTransitive(a: string, b: string, c: string)
    requires NameLe(a, b) && NameLe(b, c)
    ensures NameLe(a, c)
    decreases |a|
  {
    if a != [] && a[0] == b[0] && b[0] == c[0] {
      NameLeTransitive(a[1..], b[1..], c[1..]);
    }
  }

  lemma {:induction false} NameLeAntisymmetric(a: string, b: string)
    requires NameLe(a, b) && NameLe(b, a)
    ensures a == b
    decreases |a|
  {
    if a != [] {
      NameLeAntisymmetric(a[1..], b[1..]);
      assert a == [a[0]] + a[1..] && b == [b[0]] + b[1..];
    }
  }

  predicate SortedByName(xs: seq<Node>) {
    forall i, j :: 0 <= i < j < |xs| ==> NameLe(xs[i].name, xs[j].name)
  }

  /** Inserts `x` into a list after the entries whose names do not follow its own. */
  function Insert(x: Node, xs: seq<Node>): (r: seq<Node>)
    ensures multiset(r) == multiset(xs) + multiset{x}
  {
    if xs == [] || NameLe(x.name, xs[0].name) then [x] + xs
    else
      assert xs == [xs[0]] + xs[1..];
      [xs[0]] + Insert(x, xs[1..])
  }

  /** Inserting into a sorted list keeps it sorted. */
  lemma {:induction false} InsertSorted(x: Node, xs: seq<Node>)
    requires SortedByName(xs)
    ensures SortedByName(Insert(x, xs))
  {
    if xs == [] || NameLe(x.name, xs[0].name) {
      forall j | 0 < j < |xs| ensures NameLe(x.name, xs[j].name) {
        NameLeTransitive(x.name, xs[0].name, xs[j].name);
      }
      ConsSorted(x, xs);
    } else {
      NameLeTotal(x.name, xs[0].name);
      var rest := Insert(x, xs[1..]);
      InsertSorted(x, xs[1..]);
      forall k | 0 <= k < |rest| ensures NameLe(xs[0].name, rest[k].name) {
        assert rest[k] in multiset(rest);
        if rest[k] != x {
          assert rest[k] in multiset(xs[1..]);
        }
      }
      ConsSorted(xs[0], rest);
    }
  }

  /** A sorted list stays sorted behind an entry whose name precedes all of its names. */
  lemma ConsSorted(y: Node, rest: seq<Node>)
    requires SortedByName(rest)
    requires forall k :: 0 <= k < |rest| ==> NameLe(y.name, rest[k].name)
    ensures SortedByName([y] + rest)
  {
    var r := [y] + rest;
    forall i, j | 0 <= i < j < |r| ensures NameLe(r[i].name, r[j].name) {
      if i > 0 {
        assert r[i] == rest[i - 1] && r[j] == rest[j - 1];
      } else {
        assert r[j] == rest[j - 1];
      }
    }
  }

  /** `items.sort()`: the same entries, in name order. */
  function SortByName(xs: seq<Node>): (r: seq<Node>)
    ensures multiset(r) == multiset(xs)
    ensures SortedByName(r)
  {
    if xs == [] then []
    else
      assert xs == [xs[0]] + xs[1..];
      InsertSorted(xs[0], SortByName(xs[1..]));
      Insert(xs[0], SortByName(xs[1..]))
  }

  /** A line of the listing: the entry's name and its depth below the root. */
  datatype Line = Line(depth: nat, name: string)

  /** The lines `generate_tree` emits for the directory `dir`, whose entries sit at `depth`. */
  function Outline(dir: Node, depth: nat, ig: IgnoreLists): seq<Line>
    requires dir.Dir?
    decreases dir, 1, 0
  {
    var items := SortByName(dir.children);
    assert forall x :: x in items ==> x in multiset(dir.children);
    OutlineItems(items, dir, depth, ig)
  }

  /** The lines for the entries `items` of `dir`, in the given order. */
  function OutlineItems(items: seq<Node>, dir: Node, depth: nat, ig: IgnoreLists): seq<Line>
    requires dir.Dir? && forall x :: x in items ==> x in dir.children
    decreases dir, 0, |items|
  {
    if items == [] then [] else ItemLines(items[0], dir, depth, ig) + OutlineItems(items[1..], dir, depth, ig)
  }

  /**
   * The lines of one entry: none when it is ignored; otherwise its own line,
   * followed at once, for a directory, by the lines of its contents one
   * level deeper.
   */
  function ItemLines(item: Node, dir: Node, depth: nat, ig: IgnoreLists): seq<Line>
    requires dir.Dir? && item in dir.children
    decreases dir, 0, 0
  {
    if Ignored(item, ig) then []
    else [Line(depth, item.name)] + (if item.Dir? then Outline(item, depth + 1, ig) else [])
  }

  /** One line as written: indentation, branch marker, name and newline. */
  function Render(l: Line, useAscii: bool): string {
    Indent(l.depth) + Branch(useAscii) + l.name + "\n"
  }

  /** The text of a listing: its lines rendered one after the other. */
  function Text(ls: seq<Line>, useAscii: bool): string {
    if ls == [] then "" else Render(ls[0], useAscii) + Text(ls[1..], useAscii)
  }

  lemma {:induction false} TextAppend(a: seq<Line>, b: seq<Line>, useAscii: bool)
    ensures Text(a + b, useAscii) == Text(a, useAscii) + Text(b, useAscii)
  {
    if a != [] {
      assert (a + b)[0] == a[0] && (a + b)[1..] == a[1..] + b;
      TextAppend(a[1..], b, useAscii);
      var head := Render(a[0], useAscii);
      assert Text(a + b, useAscii) == head + Text(a[1..] + b, useAscii);
      assert Text(a, useAscii) == head + Text(a[1..], useAscii);
    } else {
      assert a + b == b;
    }
  }

  /**
   * The number of lines an entry contributes, counted over the entries as
   * listed (unsorted): none for an ignored entry, so nothing below an
   * ignored directory; otherwise one, plus those of a directory's entries.
   */
  function Weight(n: Node, ig: IgnoreLists): nat
    decreases n
  {
    if Ignored(n, ig) then 0 else 1 + (if n.Dir? then Count(n.children, ig) else 0)
  }

  function Count(cs: seq<Node>, ig: IgnoreLists): nat
    decreases cs
  {
    if cs == [] then 0 else Weight(cs[0], ig) + Count(cs[1..], ig)
  }

  lemma {:induction false} CountInsert(x: Node, xs: seq<Node>, ig: IgnoreLists)
    ensures Count(Insert(x, xs), ig) == Weight(x, ig) + Count(xs, ig)
  {
    if xs != [] && !NameLe(x.name, xs[0].name) {
      CountInsert(x, xs[1..], ig);
    }
  }

  /** Sorting does not change how many lines the entries contribute. */
  lemma {:induction false} CountSorted(xs: seq<Node>, ig: IgnoreLists)
    ensures Count(SortByName(xs), ig) == Count(xs, ig)
  {
    if xs != [] {
      CountSorted(xs[1..], ig);
      CountInsert(xs[0], SortByName(xs[1..]), ig);
    }
  }

  /** The listing has one line per entry that is reachable without passing through an ignored directory and is not itself ignored. */
  lemma {:induction false} OutlineCount(dir: Node, depth: nat, ig: IgnoreLists)
    requires dir.Dir?
    ensures |Outline(dir, depth, ig)| == Count(dir.children, ig)
    decreases dir, 1, 0
  {
    var items := SortByName(dir.children);
    assert forall x :: x in items ==> x in multiset(dir.children);
    OutlineItemsCount(items, dir, depth, ig);
    CountSorted(dir.children, ig);
  }

  lemma {:induction false} OutlineItemsCount(items: seq<Node>, dir: Node, depth: nat, ig: IgnoreLists)
    requires dir.Dir? && forall x :: x in items ==> x in dir.children
    ensures |OutlineItems(items, dir, depth, ig)| == Count(items, ig)
    decreases dir, 0, |items|
  {
    if items != [] {
      var item := items[0];
      assert item in items;
      if !Ignored(item, ig) && item.Dir? {
        OutlineCount(item, depth + 1, ig);
      }
      OutlineItemsCount(items[1..], dir, depth, ig);
    }
  }

  /** Every line of a directory's listing sits at least as deep as its entries. */
  lemma {:induction false} OutlineDepths(dir: Node, depth: nat, ig: IgnoreLists)
    requires dir.Dir?
    ensures forall l :: l in Outline(dir, depth, ig) ==> l.depth >= depth
    decreases dir, 1, 0
  {
    var items := SortByName(dir.children);
    assert forall x :: x in items ==> x in multiset(dir.children);
    OutlineItemsDepths(items, dir, depth, ig);
  }

  lemma {:induction false} OutlineItemsDepths(items: seq<Node>, dir: Node, depth: nat, ig: IgnoreLists)
    requires dir.Dir? && forall x :: x in items ==> x in dir.children
    ensures forall l :: l in OutlineItems(items, dir, depth, ig) ==> l.depth >= depth
    decreases dir, 0, |items|
  {
    if items != [] {
      var item := items[0];
      assert item in items;
      if !Ignored(item, ig) && item.Dir? {
        OutlineDepths(item, depth + 1, ig);
      }
      OutlineItemsDepths(items[1..], dir, depth, ig);
    }
  }

  /** The names of the lines at `depth`, in order. */
  function NamesAt(ls: seq<Line>, depth: nat): seq<string> {
    if ls == [] then [] else (if ls[0].depth == depth then [ls[0].name] else []) + NamesAt(ls[1..], depth)
  }

  lemma {:induction false} NamesAtAppend(a: seq<Line>, b: seq<Line>, depth: nat)
    ensures NamesAt(a + b, depth) == NamesAt(a, depth) + NamesAt(b, depth)
  {
    if a != [] {
      assert (a + b)[0] == a[0] && (a + b)[1..] == a[1..] + b;
      NamesAtAppend(a[1..], b, depth);
    } else {
      assert a + b == b;
    }
  }

  lemma {:induction false} NamesAtDeeper(ls: seq<Line>, depth: nat)
    requires forall l :: l in ls ==> l.depth > depth
    ensures NamesAt(ls, depth) == []
  {
    if ls != [] {
      assert ls[0] in ls;
      assert forall l :: l in ls[1..] ==> l in ls;
      NamesAtDeeper(ls[1..], depth);
    }
  }

  /** The names of the entries that are not ignored, in order. */
  function VisibleNames(items: seq<Node>, ig: IgnoreLists): (r: seq<string>)
    ensures forall s :: s in r <==> exists x :: x in items && !Ignored(x, ig) && x.name == s
  {
    if items == [] then []
    else
      assert forall x :: x in items <==> x == items[0] || x in items[1..];
      (if Ignored(items[0], ig) then [] else [items[0].name]) + VisibleNames(items[1..], ig)
  }

  /** An entry's lines name it at its own level, and nothing else there. */
  lemma ItemTopNames(item: Node, dir: Node, depth: nat, ig: IgnoreLists)
    requires dir.Dir? && item in dir.children
    ensures NamesAt(ItemLines(item, dir, depth, ig), depth) == (if Ignored(item, ig) then [] else [item.name])
  {
    if !Ignored(item, ig) {
      var head := ItemLines(item, dir, depth, ig);
      var below := if item.Dir? then Outline(item, depth + 1, ig) else [];
      if item.Dir? {
        OutlineDepths(item, depth + 1, ig);
      }
      NamesAtDeeper(below, depth);
      assert head == [Line(depth, item.name)] + below;
      assert head[0] == Line(depth, item.name) && head[1..] == below;
    }
  }

  lemma {:induction false} OutlineItemsTopNames(items: seq<Node>, dir: Node, depth: nat, ig: IgnoreLists)
    requires dir.Dir? && forall x :: x in items ==> x in dir.children
    ensures NamesAt(OutlineItems(items, dir, depth, ig), depth) == VisibleNames(items, ig)
    decreases |items|
  {
    if items != [] {
      assert items[0] in items;
      ItemTopNames(items[0], dir, depth, ig);
      NamesAtAppend(ItemLines(items[0], dir, depth, ig), OutlineItems(items[1..], dir, depth, ig), depth);
      OutlineItemsTopNames(items[1..], dir, depth, ig);
    }
  }

  /**
   * The lines at a directory's own level name its entries that are not
   * ignored, in sorted name order: everything in between belongs to a
   * sub-directory and sits deeper.
   */
  lemma TopLevelNames(dir: Node, depth: nat, ig: IgnoreLists)
    requires dir.Dir?
    ensures NamesAt(Outline(dir, depth, ig), depth) == VisibleNames(SortByName(dir.children), ig)
    ensures SortedByName(SortByName(dir.children))
  {
    var items := SortByName(dir.children);
    assert forall x :: x in items ==> x in multiset(dir.children);
    OutlineItemsTopNames(items, dir, depth, ig);
  }

  /** The text one entry adds: nothing when ignored, else its line and, for a directory, its contents. */
  function EntryText(item: Node, depth: nat, ig: IgnoreLists, useAscii: bool): string {
    if Ignored(item, ig) then ""
    else if item.Dir? then Render(Line(depth, item.name), useAscii) + Text(Outline(item, depth + 1, ig), useAscii)
    else Render(Line(depth, item.name), useAscii)
  }

  /** The text of the entries of `dir` from the `i`-th on. */
  function TextFrom(items: seq<Node>, i: nat, dir: Node, depth: nat, ig: IgnoreLists, useAscii: bool): string
    requires dir.Dir? && forall x :: x in items ==> x in dir.children
    requires i <= |items|
  {
    Text(OutlineItems(items[i..], dir, depth, ig), useAscii)
  }

  /** The text from the `i`-th entry on is that entry's own text, then the rest. */
  lemma TextFromStep(items: seq<Node>, i: nat, dir: Node, depth: nat, ig: IgnoreLists, useAscii: bool)
    requires dir.Dir? && forall x :: x in items ==> x in dir.children
    requires i < |items|
    ensures TextFrom(items, i, dir, depth, ig, useAscii) ==
      EntryText(items[i], depth, ig, useAscii) + TextFrom(items, i + 1, dir, depth, ig, useAscii)
  {
    var item := items[i];
    assert items[i..][0] == item;
    assert items[i..][1..] == items[i + 1..];
    var rest := OutlineItems(items[i + 1..], dir, depth, ig);
    TextAppend(ItemLines(item, dir, depth, ig), rest, useAscii);
    if !Ignored(item, ig) {
      var below := if item.Dir? then Outline(item, depth + 1, ig) else [];
      TextAppend([Line(depth, item.name)], below, useAscii);
      assert Text([Line(depth, item.name)], useAscii) == Render(Line(depth, item.name), useAscii) + Text([], useAscii);
    }
  }

  /**
   * `generate_tree(root_dir, ignore_dirs, ignore_files, indent, use_ascii)`,
   * with the directory's contents in place of `os.listdir`: missing ignore
   * lists take their defaults, and the resolved lists are passed down.
   */
  method GenerateTree(root: Node, ignoreDirs: Option<seq<string>>, ignoreFiles: Option<seq<string>>,
                      indent: nat, useAscii: bool) returns (structure: string)
    requires root.Dir?
    ensures structure == Text(Outline(root, indent, ResolveIgnores(ignoreDirs, ignoreFiles)), useAscii)
    decreases root, 1
  {
    var ig := ResolveIgnores(ignoreDirs, ignoreFiles);
    var items := SortByName(root.children);
    assert forall x :: x in items ==> x in multiset(root.children);
    structure := ListEntries(root, items, ig, indent, useAscii);
  }

  /** The loop of `generate_tree` over the sorted entries of `root`. */
  method ListEntries(root: Node, items: seq<Node>, ig: IgnoreLists, indent: nat, useAscii: bool)
      returns (structure: string)
    requires root.Dir? && forall x :: x in items ==> x in root.children
    ensures structure == Text(OutlineItems(items, root, indent, ig), useAscii)
    decreases root, 0
  {
    structure := "";
    var i := 0;
    while i < |items|
      invariant 0 <= i <= |items|
      invariant structure + TextFrom(items, i, root, indent, ig, useAscii) == TextFrom(items, 0, root, indent, ig, useAscii)
    {
      assert items[i] in items;
      var text := ListEntry(items[i], ig, indent, useAscii);
      TextFromStep(items, i, root, indent, ig, useAscii);
      structure := structure + text;
      i := i + 1;
    }
    assert items[0..] == items && items[|items|..] == [];
  }

  /** One pass of that loop: an ignored entry is skipped; otherwise its line, then a directory's contents. */
  method ListEntry(item: Node, ig: IgnoreLists, indent: nat, useAscii: bool) returns (text: string)
    ensures text == EntryText(item, indent, ig, useAscii)
    decreases item, 2
  {
    var branch := if useAscii then AsciiBranch else UnicodeBranch;
    if (item.Dir? && item.name in ig.dirs) || (item.File? && item.name in ig.files) {
      return "";
    }
    text := Indent(indent) + branch + item.name + "\n";
    if item.Dir? {
      var sub := GenerateTree(item, Some(ig.dirs), Some(ig.files), indent + 1, useAscii);
      text := text + sub;
    }
  }

  /** The number of newlines in `s`. */
  function Newlines(s: string): nat {
    if s == [] then 0 else Newlines(s[..|s| - 1]) + (if s[|s| - 1] == '\n' then 1 else 0)
  }

  lemma {:induction false} NewlinesAppend(a: string, b: string)
    ensures Newlines(a + b) == Newlines(a) + Newlines(b)
    decreases |b|
  {
    if b == [] {
      assert a + b == a;
    } else {
      assert (a + b)[..|a + b| - 1] == a + b[..|b| - 1];
      NewlinesAppend(a, b[..|b| - 1]);
    }
  }

  lemma {:induction false} NewlinesNone(s: string)
    requires '\n' !in s
    ensures Newlines(s) == 0
    decreases |s|
  {
    if s != [] {
      assert s[..|s| - 1] <= s;
      NewlinesNone(s[..|s| - 1]);
    }
  }

  /** No name in the listing contains a newline. */
  predicate PlainNames(ls: seq<Line>) {
    forall l :: l in ls ==> '\n' !in l.name
  }

  /** A listing whose names hold no newline has exactly one text line per entry. */
  lemma {:induction false} TextNewlines(ls: seq<Line>, useAscii: bool)
    requires PlainNames(ls)
    ensures Newlines(Text(ls, useAscii)) == |ls|
  {
    if ls != [] {
      var l := ls[0];
      assert l in ls;
      assert forall m :: m in ls[1..] ==> m in ls;
      TextNewlines(ls[1..], useAscii);
      NewlinesNone(Indent(l.depth) + Branch(useAscii) + l.name);
      NewlinesAppend(Indent(l.depth) + Branch(useAscii) + l.name, "\n");
      assert Newlines("\n") == Newlines("") + 1;
      NewlinesAppend(Render(l, useAscii), Text(ls[1..], useAscii));
    }
  }

  /** The default name of the saved file, inside the project directory. */
  const StructureFileName := "project_structure.txt"

  /** The root path on the first line, then the listing. */
  function Document(rootPath: string, root: Node, useAscii: bool, ig: IgnoreLists): string
    requires root.Dir?
  {
    rootPath + "\n" + Text(Outline(root, 0, ig), useAscii)
  }

  /** The file `save_tree_to_file` writes: the given one, or project_structure.txt joined to the root. */
  function OutputTarget(rootPath: string, output: Option<string>): string {
    match output case Some(o) => o case None => Paths.Join(rootPath, StructureFileName)
  }

  /** Whether that file lies directly in the project directory, so that the listing sees it. */
  predicate OutputInRoot(rootPath: string, output: Option<string>) {
    output.None? || Paths.Dirname(output.value) == rootPath
  }

  /** `dir` holds an entry called `name`. */
  predicate HasEntry(dir: Node, name: string)
    requires dir.Dir?
  {
    exists x :: x in dir.children && x.name == name
  }

  /** `dir` holds a sub-directory called `name`, which `open(..., 'w')` cannot open. */
  predicate HasDirEntry(dir: Node, name: string)
    requires dir.Dir?
  {
    exists x :: x in dir.children && x.name == name && x.Dir?
  }

  /**
   * The project as `generate_tree` lists it. `open(output_file, 'w')` runs
   * before the listing, so an output file directly in the project is there,
   * empty, when the root is listed; an existing file of that name is only
   * truncated, and a file elsewhere leaves the tree as it was.
   */
  function ListedTree(root: Node, inRoot: bool, name: string): (r: Node)
    requires root.Dir?
    ensures r.Dir? && r.name == root.name
    ensures forall x :: x in root.children ==> x in r.children
    ensures forall x :: x in r.children ==> x in root.children || x == File(name)
    ensures inRoot && !HasDirEntry(root, name) ==> exists x :: x in r.children && x.name == name && !x.Dir?
    ensures !inRoot ==> r == root
  {
    if inRoot && !HasEntry(root, name) then
      var r := Dir(root.name, root.children + [File(name)]);
      assert File(name) in r.children;
      r
    else
      assert inRoot && !HasDirEntry(root, name) ==> exists x :: x in root.children && x.name == name && !x.Dir? by {
        if inRoot && !HasDirEntry(root, name) {
          var x :| x in root.children && x.name == name;
          assert !x.Dir?;
        }
      }
      root
  }

  /**
   * What `save_tree_to_file` writes into its target: nothing when the target
   * is a directory of the project (`open` raises IsADirectoryError), else the
   * root path and the listing of the tree as `open` has left it.
   */
  function Written(rootPath: string, root: Node, output: Option<string>, useAscii: bool, ig: IgnoreLists): Option<string>
    requires root.Dir?
  {
    var inRoot := OutputInRoot(rootPath, output);
    var name := Paths.Basename(OutputTarget(rootPath, output));
    if inRoot && HasDirEntry(root, name) then None
    else Some(Document(rootPath, ListedTree(root, inRoot, name), useAscii, ig))
  }

  /**
   * `save_tree_to_file(root_dir, output_file, use_ascii)`: the file written
   * (the given one, or project_structure.txt inside the project) and what
   * it holds; `generate_tree` is called without ignore lists, so the
   * defaults apply.
   */
  function SaveTreeToFile(rootPath: string, root: Node, output: Option<string>, useAscii: bool): (r: (string, Option<string>))
    requires root.Dir?
    ensures output.Some? ==> r.0 == output.value
    ensures output.None? ==> r.0 == Paths.Join(rootPath, StructureFileName)
    ensures output.None? ==> Paths.Basename(r.0) == StructureFileName
    ensures output.None? && rootPath != [] && rootPath[|rootPath| - 1] != '/' ==> Paths.Dirname(r.0) == rootPath
    ensures r.1 == Written(rootPath, root, output, useAscii, ResolveIgnores(None, None))
  {
    Paths.BasenameJoin(rootPath, StructureFileName);
    assert rootPath != [] && rootPath[|rootPath| - 1] != '/' ==>
      Paths.Dirname(Paths.Join(rootPath, StructureFileName)) == rootPath by {
      if rootPath != [] && rootPath[|rootPath| - 1] != '/' {
        Paths.DirnameJoin(rootPath, StructureFileName);
      }
    }
    (OutputTarget(rootPath, output), Written(rootPath, root, output, useAscii, ResolveIgnores(None, None)))
  }

  /**
   * An output file directly in the project lists itself: unless a directory
   * bears its name, the saved listing names it at the top level whenever the
   * file list does not hide it.
   */
  lemma ListsOutputFile(rootPath: string, root: Node, output: Option<string>, useAscii: bool, ig: IgnoreLists)
    requires root.Dir? && OutputInRoot(rootPath, output)
    requires !HasDirEntry(root, Paths.Basename(OutputTarget(rootPath, output)))
    requires Paths.Basename(OutputTarget(rootPath, output)) !in ig.files
    ensures var name := Paths.Basename(OutputTarget(rootPath, output));
      var listed := ListedTree(root, true, name);
      && Written(rootPath, root, output, useAscii, ig) == Some(Document(rootPath, listed, useAscii, ig))
      && name in NamesAt(Outline(listed, 0, ig), 0)
  {
    var name := Paths.Basename(OutputTarget(rootPath, output));
    var listed := ListedTree(root, true, name);
    TopLevelNames(listed, 0, ig);
    var x :| x in listed.children && x.name == name && !x.Dir?;
    assert x in multiset(SortByName(listed.children));
    assert !Ignored(x, ig);
  }

  /** A default run lists project_structure.txt itself, unless a directory bears that name. */
  lemma DefaultRunListsItself(rootPath: string, root: Node, useAscii: bool)
    requires root.Dir? && !HasDirEntry(root, StructureFileName)
    ensures var r := SaveTreeToFile(rootPath, root, None, useAscii);
      var listed := ListedTree(root, true, StructureFileName);
      && r.1 == Some(Document(rootPath, listed, useAscii, ResolveIgnores(None, None)))
      && StructureFileName in NamesAt(Outline(listed, 0, ResolveIgnores(None, None)), 0)
  {
    Paths.BasenameJoin(rootPath, StructureFileName);
    ListsOutputFile(rootPath, root, None, useAscii, ResolveIgnores(None, None));
  }

  /**
   * The saved document has one line for the root and one per listed entry,
   * provided no name holds a newline.
   */
  lemma DocumentLines(rootPath: string, root: Node, useAscii: bool, ig: IgnoreLists)
    requires root.Dir? && '\n' !in rootPath && PlainNames(Outline(root, 0, ig))
    ensures Newlines(Document(rootPath, root, useAscii, ig)) == 1 + Count(root.children, ig)
  {
    var listing := Text(Outline(root, 0, ig), useAscii);
    TextNewlines(Outline(root, 0, ig), useAscii);
    OutlineCount(root, 0, ig);
    NewlinesNone(rootPath);
    NewlinesAppend(rootPath, "\n");
    assert Newlines("\n") == Newlines("") + 1;
    NewlinesAppend(rootPath + "\n", listing);
  }

  /** A directory with a single entry lists just that entry's lines. */
  lemma SingleEntry(name: string, item: Node, depth: nat, ig: IgnoreLists)
    ensures Outline(Dir(name, [item]), depth, ig) == ItemLines(item, Dir(name, [item]), depth, ig)
  {
    var dir := Dir(name, [item]);
    assert SortByName([]) == [];
    assert [item][1..] == [];
    assert SortByName([item]) == Insert(item, []) == [item];
    assert item in dir.children;
    assert OutlineItems([item], dir, depth, ig) == ItemLines(item, dir, depth, ig) + OutlineItems([], dir, depth, ig);
  }

  /** An empty directory lists nothing. */
  lemma EmptyDir(name: string, depth: nat, ig: IgnoreLists)
    ensures Outline(Dir(name, []), depth, ig) == []
  {
    assert SortByName([]) == [];
  }

  /** By default a directory named ".git" is left out with all it holds. */
  lemma DefaultIgnoresGitDir()
    ensures Outline(Dir("p", [Dir(".git", [File("HEAD")])]), 0, ResolveIgnores(None, None)) == []
  {
    SingleEntry("p", Dir(".git", [File("HEAD")]), 0, ResolveIgnores(None, None));
  }

  /**
   * A file is hidden only by the file list, whatever the directory list
   * holds: on its own in a directory it is listed unless its name is there.
   */
  lemma LoneFileListedUnlessIgnored(parent: string, name: string, depth: nat, ig: IgnoreLists)
    ensures Outline(Dir(parent, [File(name)]), depth, ig) ==
      (if name in ig.files then [] else [Line(depth, name)])
  {
    SingleEntry(parent, File(name), depth, ig);
  }

  /** By default a file named ".DS_Store" is left out. */
  lemma DefaultIgnoresDsStoreFile()
    ensures Outline(Dir("p", [File(".DS_Store")]), 0, ResolveIgnores(None, None)) == []
  {
    SingleEntry("p", File(".DS_Store"), 0, ResolveIgnores(None, None));
  }

  /**
   * A directory is hidden only by the directory list, whatever the file list
   * holds: on its own in a directory it is listed, followed by its own
   * outline one level deeper, unless its name is there.
   */
  lemma LoneDirListedUnlessIgnored(parent: string, name: string, children: seq<Node>, depth: nat, ig: IgnoreLists)
    ensures Outline(Dir(parent, [Dir(name, children)]), depth, ig) ==
      (if name in ig.dirs then [] else [Line(depth, name)] + Outline(Dir(name, children), depth + 1, ig))
  {
    SingleEntry(parent, Dir(name, children), depth, ig);
  }

  /** The command-line options of `main`. */
  datatype Arguments = Arguments(path: Option<string>, output: Option<string>, ignoreDirs: Option<seq<string>>,
                                 ignoreFiles: Option<seq<string>>, ascii: bool)

  /**
   * `main` as written: ASCII when asked or on Windows, and the tree of the
   * project directory saved; the ignore options are parsed but never handed
   * on. The project path (the script's directory, or the given path made
   * absolute) and its tree are parameters.
   */
  function Main(args: Arguments, onWindows: bool, projectPath: string, root: Node): (r: (string, Option<string>))
    requires root.Dir?
    ensures args.output.Some? ==> r.0 == args.output.value
    ensures args.output.None? ==> r.0 == Paths.Join(projectPath, StructureFileName)
    ensures args.output.None? ==> Paths.Basename(r.0) == StructureFileName
    ensures args.output.None? && projectPath != [] && projectPath[|projectPath| - 1] != '/' ==>
      Paths.Dirname(r.0) == projectPath
    ensures r.1 == Written(projectPath, root, args.output, args.ascii || onWindows, ResolveIgnores(None, None))
  {
    SaveTreeToFile(projectPath, root, args.output, args.ascii || onWindows)
  }

  /**
   * A directory named with `--ignore-dirs` is still listed by `main` as
   * written; the default output file lists itself after it.
   */
  lemma IgnoreOptionIsDropped()
    ensures var args := Arguments(None, None, Some(["build"]), None, true);
      Main(args, false, "p", Dir("p", [Dir("build", [])])).1
        == Some("p" + "\n" + (AsciiBranch + "build" + "\n" + (AsciiBranch + StructureFileName + "\n")))
  {
    BuildListed();
  }

  /** Two entries already in name order stay as they are. */
  lemma SortTwo(a: Node, b: Node)
    requires NameLe(a.name, b.name)
    ensures SortByName([a, b]) == [a, b]
  {
    assert [a, b][1..] == [b] && [b][1..] == [];
    assert SortByName([b]) == Insert(b, []) == [b];
  }

  /** A directory with two entries in name order lists the first entry's lines, then the second's. */
  lemma TwoEntries(name: string, a: Node, b: Node, depth: nat, ig: IgnoreLists)
    requires NameLe(a.name, b.name)
    ensures Outline(Dir(name, [a, b]), depth, ig) ==
      ItemLines(a, Dir(name, [a, b]), depth, ig) + ItemLines(b, Dir(name, [a, b]), depth, ig)
  {
    var dir := Dir(name, [a, b]);
    SortTwo(a, b);
    assert a in dir.children && b in dir.children;
    assert [a, b][1..] == [b] && [b][1..] == [];
    assert OutlineItems([b], dir, depth, ig) == ItemLines(b, dir, depth, ig) + OutlineItems([], dir, depth, ig);
    assert OutlineItems([a, b], dir, depth, ig) == ItemLines(a, dir, depth, ig) + OutlineItems([b], dir, depth, ig);
  }

  /**
   * The outline of that project once the output file is created: the line
   * of "build", then the line of the output file, in name order.
   */
  lemma BuildOutline()
    ensures Outline(Dir("p", [Dir("build", []), File(StructureFileName)]), 0, ResolveIgnores(None, None))
      == [Line(0, "build"), Line(0, StructureFileName)]
  {
    var b, f := Dir("build", []), File(StructureFileName);
    var ig := ResolveIgnores(None, None);
    EmptyDir("build", 1, ig);
    assert "build" !in ig.dirs && StructureFileName !in ig.files;
    assert NameLe("build", StructureFileName);
    TwoEntries("p", b, f, 0, ig);
  }

  /** Creating the default output file adds it beside "build". */
  lemma BuildTree()
    ensures ListedTree(Dir("p", [Dir("build", [])]), true, StructureFileName)
      == Dir("p", [Dir("build", []), File(StructureFileName)])
  {
    var root := Dir("p", [Dir("build", [])]);
    assert !HasEntry(root, StructureFileName) by {
      forall x | x in root.children ensures x.name != StructureFileName {
        assert x == Dir("build", []);
      }
    }
  }

  /** Two ASCII lines at the top level are the branch, the name and a newline, twice. */
  lemma TopLinesText(x: string, y: string)
    ensures Text([Line(0, x), Line(0, y)], true) == AsciiBranch + x + "\n" + (AsciiBranch + y + "\n")
  {
    var l0, l1 := Line(0, x), Line(0, y);
    assert Text([l1], true) == Render(l1, true) + Text([], true);
    assert [l0, l1][1..] == [l1];
    assert Text([l0, l1], true) == Render(l0, true) + Text([l1], true);
  }

  /**
   * With the default ignore lists and the default output, a project holding
   * only an empty "build" directory is saved as the root line, the line of
   * "build" and the line of project_structure.txt.
   */
  lemma BuildListed()
    ensures Written("p", Dir("p", [Dir("build", [])]), None, true, ResolveIgnores(None, None))
      == Some("p" + "\n" + (AsciiBranch + "build" + "\n" + (AsciiBranch + StructureFileName + "\n")))
  {
    var root := Dir("p", [Dir("build", [])]);
    var listed := Dir("p", [Dir("build", []), File(StructureFileName)]);
    var ig := ResolveIgnores(None, None);
    BuildWritesListed();
    BuildOutline();
    TopLinesText("build", StructureFileName);
    var text := Text([Line(0, "build"), Line(0, StructureFileName)], true);
    assert Document("p", listed, true, ig) == "p" + "\n" + text;
  }

  /** The default run writes the listing of the tree with the output file added. */
  lemma BuildWritesListed()
    ensures Written("p", Dir("p", [Dir("build", [])]), None, true, ResolveIgnores(None, None))
      == Some(Document("p", Dir("p", [Dir("build", []), File(StructureFileName)]), true, ResolveIgnores(None, None)))
  {
    var root := Dir("p", [Dir("build", [])]);
    Paths.BasenameJoin("p", StructureFileName);
    assert Paths.Basename(OutputTarget("p", None)) == StructureFileName;
    BuildTree();
    assert !HasDirEntry(root, StructureFileName) by {
      forall x | x in root.children ensures x.name != StructureFileName {
        assert x == Dir("build", []);
      }
    }
  }

  /** `main` with the ignore options passed on to `generate_tree`, as their help text promises. */
  function MainCorrected(args: Arguments, onWindows: bool, projectPath: string, root: Node): (r: (string, Option<string>))
    requires root.Dir?
    ensures args.output.Some? ==> r.0 == args.output.value
    ensures args.output.None? ==> r.0 == Paths.Join(projectPath, StructureFileName)
    ensures args.output.None? ==> Paths.Basename(r.0) == StructureFileName
    ensures args.output.None? && projectPath != [] && projectPath[|projectPath| - 1] != '/' ==>
      Paths.Dirname(r.0) == projectPath
    ensures r.1 == Written(projectPath, root, args.output, args.ascii || onWindows,
                           ResolveIgnores(args.ignoreDirs, args.ignoreFiles))
  {
    var target := SaveTreeToFile(projectPath, root, args.output, args.ascii || onWindows).0;
    (target, Written(projectPath, root, args.output, args.ascii || onWindows, ResolveIgnores(args.ignoreDirs, args.ignoreFiles)))
  }

  /**
   * With the options passed on, the top level of the saved listing names
   * none of the directories given with `--ignore-dirs` (unless a file or
   * other entry bears the same name) and lists the rest in sorted order.
   */
  lemma IgnoreOptionRespected(root: Node, dirs: seq<string>, files: Option<seq<string>>, name: string)
    requires root.Dir? && name in dirs
    requires forall x :: x in root.children && x.name == name ==> x.Dir?
    ensures var ig := ResolveIgnores(Some(dirs), files);
      name !in NamesAt(Outline(root, 0, ig), 0) &&
      NamesAt(Outline(root, 0, ig), 0) == VisibleNames(SortByName(root.children), ig)
  {
    var ig := ResolveIgnores(Some(dirs), files);
    TopLevelNames(root, 0, ig);
    forall x | x in SortByName(root.children) && !Ignored(x, ig) ensures x.name != name {
      assert x in multiset(root.children);
    }
  }
}
