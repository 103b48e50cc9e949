/**
 * `makeTree` as it runs: the nested `Directory` records are updated in place
 * through a moving `current` reference, then `traverse` pushes one line per
 * entry onto a shared list. Each record is addressed by its path from the
 * root, so the records form a store keyed by path and `current` is such a key.
 */
module TreeBuilder {
  import opened Strings
  import opened TreeSpec

  /** The names leading from the root record to a record. */
  type Path = seq<string>

  /** One mutable `Directory` record: its files, and the keys of its `directories`, in insertion order. */
  datatype Record = Record(files: seq<string>, directories: seq<string>)

  const Fresh := Record([], [])

  /** The records stored at `at` and below it spell out the directory value `d`. */
  ghost predicate Stores(store: map<Path, Record>, d: Directory, at: Path)
    decreases d
  {
    && at in store
    && store[at].files == d.files
    && store[at].directories == Names(d.dirs)
    && forall i :: 0 <= i < |d.dirs| ==> Stores(store, d.dirs[i].dir, at + [d.dirs[i].name])
  }

  /** Every key listed by a record leads to a stored record. */
  ghost predicate Closed(store: map<Path, Record>) {
    forall k, n :: k in store && n in store[k].directories ==> k + [n] in store
  }

  /** `store` and `after` hold the same records at every path below `c`. */
  ghost predicate AgreeBelow(store: map<Path, Record>, after: map<Path, Record>, c: Path) {
    forall k :: k in store && c <= k ==> k in after && after[k] == store[k]
  }

  /** `store` and `after` hold the same records at every path outside `c`. */
  ghost predicate AgreeOutside(store: map<Path, Record>, after: map<Path, Record>, c: Path) {
    forall k :: k in store && !(c <= k) ==> k in after && after[k] == store[k]
  }

  /**
   * The walk of one file's segments from the record at `cur`: every segment
   * but the last names a directory, created when the key is missing and then
   * entered; the last segment is pushed onto the files of the record reached.
   */
  function Walk(store: map<Path, Record>, cur: Path, parts: Segments): map<Path, Record>
    decreases |parts|
  {
    var r := if cur in store then store[cur] else Fresh;
    if |parts| == 1 then store[cur := r.(files := r.files + [parts[0]])]
    else
      var child := cur + [parts[0]];
      if parts[0] in r.directories then Walk(store, child, parts[1..])
      else Walk(store[cur := r.(directories := r.directories + [parts[0]])][child := Fresh], child, parts[1..])
  }

  lemma {:induction false} StoresAgree(store: map<Path, Record>, after: map<Path, Record>, d: Directory, at: Path)
    requires Stores(store, d, at) && AgreeBelow(store, after, at)
    ensures Stores(after, d, at)
    decreases d
  {
    forall i | 0 <= i < |d.dirs| ensures Stores(after, d.dirs[i].dir, at + [d.dirs[i].name]) {
      StoresAgree(store, after, d.dirs[i].dir, at + [d.dirs[i].name]);
    }
  }

  /** Paths below two different children of `at` are different. */
  lemma SiblingsApart(at: Path, n: string, m: string, k: Path)
    requires n != m && at + [n] <= k
    ensures !(at + [m] <= k)
  {
    assert k[|at|] == (at + [n])[|at|] == n;
  }

  /** A subdirectory not called `n` keeps its records when only paths below `at + [n]` change. */
  lemma KeepSibling(store: map<Path, Record>, after: map<Path, Record>, d: Directory, at: Path, m: string, n: string)
    requires m != n && Stores(store, d, at + [m]) && AgreeOutside(store, after, at + [n])
    ensures Stores(after, d, at + [m])
  {
    forall k | k in store && at + [m] <= k ensures k in after && after[k] == store[k] {
      SiblingsApart(at, m, n, k);
    }
    StoresAgree(store, after, d, at + [m]);
  }

  /** Creating the record of a new key `n` keeps the records below a sibling `m`. */
  lemma FreshKeepsSibling(store: map<Path, Record>, d: Directory, at: Path, m: string, n: string, r: Record)
    requires m != n && Stores(store, d, at + [m])
    ensures Stores(store[at := r][at + [n] := Fresh], d, at + [m])
  {
    var mid := store[at := r][at + [n] := Fresh];
    forall k | k in store && at + [m] <= k ensures k in mid && mid[k] == store[k] {
      SiblingsApart(at, m, n, k);
      assert k != at;
    }
    StoresAgree(store, mid, d, at + [m]);
  }

  /**
   * Walking a path from the records that spell out `t` leaves records that
   * spell out `Insert(t, parts)`, and touches nothing outside `at`.
   */
  lemma {:induction false} WalkInserts(store: map<Path, Record>, t: Directory, at: Path, parts: Segments)
    requires Valid(t) && Stores(store, t, at)
    ensures Stores(Walk(store, at, parts), Insert(t, parts), at)
    ensures AgreeOutside(store, Walk(store, at, parts), at)
    decreases |parts|, 1
  {
    if |parts| == 1 {
      var after := Walk(store, at, parts);
      forall i | 0 <= i < |t.dirs| ensures Stores(after, t.dirs[i].dir, at + [t.dirs[i].name]) {
        StoresAgree(store, after, t.dirs[i].dir, at + [t.dirs[i].name]);
      }
    } else if parts[0] in store[at].directories {
      WalkExisting(store, t, at, parts);
    } else {
      WalkNew(store, t, at, parts);
    }
  }

  /** The walk enters a directory that exists already. */
  lemma {:induction false} WalkExisting(store: map<Path, Record>, t: Directory, at: Path, parts: Segments)
    requires Valid(t) && Stores(store, t, at)
    requires |parts| > 1 && parts[0] in store[at].directories
    ensures Stores(Walk(store, at, parts), Insert(t, parts), at)
    ensures AgreeOutside(store, Walk(store, at, parts), at)
    decreases |parts|, 0
  {
    var n, rest, c := parts[0], parts[1..], at + [parts[0]];
    var after := Walk(store, at, parts);
    var i := Lookup(t.dirs, n);
    LookupFinds(t.dirs, n);
    WalkInserts(store, t.dirs[i].dir, c, rest);
    var t' := Insert(t, parts);
    assert t' == t.(dirs := t.dirs[i := Entry(n, Insert(t.dirs[i].dir, rest))]);
    assert Names(t'.dirs) == Names(t.dirs);
    forall j | 0 <= j < |t'.dirs| && j != i ensures Stores(after, t'.dirs[j].dir, at + [t'.dirs[j].name]) {
      assert Names(t.dirs)[j] != Names(t.dirs)[i];
      KeepSibling(store, after, t.dirs[j].dir, at, t.dirs[j].name, n);
    }
  }

  /** The walk creates a directory under a new key and enters it. */
  lemma {:induction false} WalkNew(store: map<Path, Record>, t: Directory, at: Path, parts: Segments)
    requires Valid(t) && Stores(store, t, at)
    requires |parts| > 1 && parts[0] !in store[at].directories
    ensures Stores(Walk(store, at, parts), Insert(t, parts), at)
    ensures AgreeOutside(store, Walk(store, at, parts), at)
    decreases |parts|, 0
  {
    var n, rest, c := parts[0], parts[1..], at + [parts[0]];
    var r := store[at];
    var after := Walk(store, at, parts);
    LookupFinds(t.dirs, n);
    var mid := store[at := r.(directories := r.directories + [n])][c := Fresh];
    assert Stores(mid, Empty, c);
    WalkInserts(mid, Empty, c, rest);
    var t' := Insert(t, parts);
    assert t' == t.(dirs := t.dirs + [Entry(n, Insert(Empty, rest))]);
    assert Names(t'.dirs) == Names(t.dirs) + [n];
    forall j | 0 <= j < |t.dirs| ensures Stores(after, t'.dirs[j].dir, at + [t'.dirs[j].name]) {
      assert Names(t.dirs)[j] != n;
      FreshKeepsSibling(store, t.dirs[j].dir, at, t.dirs[j].name, n, r.(directories := r.directories + [n]));
      KeepSibling(mid, after, t.dirs[j].dir, at, t.dirs[j].name, n);
    }
  }

  /** A fresh directory record and a file pushed onto a record keep every listed key stored. */
  lemma ClosedSteps(store: map<Path, Record>, cur: Path, part: string)
    requires Closed(store) && cur in store
    ensures var r := store[cur];
      Closed(store[cur := r.(files := r.files + [part])])
    ensures var r := store[cur];
      Closed(store[cur := r.(directories := r.directories + [part])][cur + [part] := Fresh])
  {
  }

  /**
   * `makeTree`: the relative paths, sorted, are walked one by one into the
   * records, which are then traversed from the root; the lines are joined
   * with line breaks. The text is the one `TreeText` describes.
   */
  method MakeTree(files: seq<string>, baseDirectory: string) returns (text: string)
    ensures text == TreeText(files, baseDirectory)
  {
    var relative := Relativize(baseDirectory, files);
    var sorted := Sort(relative);
    var store := FoldPaths(sorted);
    var lines := Traverse(store, [], 0, [], Fold(SplitPaths(sorted)));
    assert lines == TreeLines(files, baseDirectory);
    text := Join(lines, "\n");
  }

  /**
   * The `sortedFiles.forEach` loop of `makeTree`: starting from a fresh root
   * record, each path in turn is walked into the records.
   */
  method FoldPaths(sorted: seq<string>) returns (store: map<Path, Record>)
    ensures Stores(store, Fold(SplitPaths(sorted)), [])
  {
    store := map[[] := Fresh];
    ghost var root := Empty;
    var i := 0;
    while i < |sorted|
      invariant 0 <= i <= |sorted|
      invariant root == Fold(SplitPaths(sorted)[..i])
      invariant Stores(store, root, []) && Closed(store)
    {
      var parts := Split(sorted[i], '/');
      ghost var before := store;
      store := AddPath(store, parts);
      FoldStoresStep(before, store, sorted, i);
      root := Insert(root, parts);
      i := i + 1;
    }
    assert SplitPaths(sorted)[..i] == SplitPaths(sorted);
  }

  /** Walking the next path keeps the records spelling out the fold of the paths so far. */
  lemma FoldStoresStep(store: map<Path, Record>, after: map<Path, Record>, sorted: seq<string>, i: nat)
    requires i < |sorted|
    requires Stores(store, Fold(SplitPaths(sorted)[..i]), [])
    requires after == Walk(store, [], Split(sorted[i], '/'))
    ensures Stores(after, Fold(SplitPaths(sorted)[..i + 1]), [])
    ensures Fold(SplitPaths(sorted)[..i + 1]) == Insert(Fold(SplitPaths(sorted)[..i]), Split(sorted[i], '/'))
  {
    var ps := SplitPaths(sorted);
    FoldValid(ps[..i]);
    WalkInserts(store, Fold(ps[..i]), [], ps[i]);
    assert ps[..i + 1][..i] == ps[..i];
  }

  /**
   * The `parts.forEach` loop of `makeTree`: from the root record, every
   * segment but the last is looked up among the keys of the current record,
   * created when missing, and made current; the last is pushed onto the
   * current record's files.
   */
  method AddPath(store: map<Path, Record>, parts: Segments) returns (after: map<Path, Record>)
    requires [] in store && Closed(store)
    ensures after == Walk(store, [], parts)
    ensures [] in after && Closed(after)
  {
    after := store;
    var current: Path := [];
    var index := 0;
    while index < |parts|
      invariant 0 <= index <= |parts|
      invariant current in after && Closed(after)
      invariant index < |parts| ==> Walk(after, current, parts[index..]) == Walk(store, [], parts)
      invariant index == |parts| ==> after == Walk(store, [], parts)
    {
      var part := parts[index];
      var record := after[current];
      ClosedSteps(after, current, part);
      if index == |parts| - 1 {
        after := after[current := record.(files := record.files + [part])];
      } else {
        assert parts[index..][1..] == parts[index + 1..];
        if part !in record.directories {
          after := after[current := record.(directories := record.directories + [part])][current + [part] := Fresh];
        }
        current := current + [part];
      }
      index := index + 1;
    }
    WalkKeepsRoot(store, [], parts);
  }

  /** A walk only adds records: every stored path stays stored. */
  lemma {:induction false} WalkKeepsRoot(store: map<Path, Record>, cur: Path, parts: Segments)
    requires [] in store
    ensures [] in Walk(store, cur, parts)
    decreases |parts|
  {
    if |parts| > 1 {
      var r := if cur in store then store[cur] else Fresh;
      var child := cur + [parts[0]];
      if parts[0] in r.directories {
        WalkKeepsRoot(store, child, parts[1..]);
      } else {
        WalkKeepsRoot(store[cur := r.(directories := r.directories + [parts[0]])][child := Fresh], child, parts[1..]);
      }
    }
  }

  /** After the keys come the files, and then the outline of the record is complete. */
  lemma TraverseEnd(start: seq<string>, middle: seq<string>, lines: seq<string>, d: Directory, depth: nat)
    requires middle == start + Texts(DirRows(d, depth, |d.dirs|))
    requires lines == middle + Texts(FileRows(d.files, depth))
    ensures lines == start + Texts(Outline(d, depth))
  {
    TextsAppend(DirRows(d, depth, |d.dirs|), FileRows(d.files, depth));
  }

  /** One pass of the key loop of `traverse`: the key's line and then its directory's lines. */
  lemma TraverseStep(start: seq<string>, before: seq<string>, after: seq<string>, d: Directory, depth: nat, k: nat)
    requires k < |d.dirs|
    requires before == start + Texts(DirRows(d, depth, k))
    requires after == before + [Repeat(Indent, depth) + Branch + d.dirs[k].name] + Texts(Outline(d.dirs[k].dir, depth + 1))
    ensures after == start + Texts(DirRows(d, depth, k + 1))
  {
    DirRowsStep(d, depth, k);
  }

  /** The lines of the first `k + 1` subdirectories: those of the first `k`, the next key's line, and its own lines. */
  lemma DirRowsStep(d: Directory, depth: nat, k: nat)
    requires k < |d.dirs|
    ensures Texts(DirRows(d, depth, k + 1))
      == Texts(DirRows(d, depth, k)) + [Repeat(Indent, depth) + Branch + d.dirs[k].name] + Texts(Outline(d.dirs[k].dir, depth + 1))
  {
    TextsAppend(DirRows(d, depth, k), [Row(depth, d.dirs[k].name, true)]);
    TextsAppend(DirRows(d, depth, k) + [Row(depth, d.dirs[k].name, true)], Outline(d.dirs[k].dir, depth + 1));
  }

  lemma FileRowsStep(files: seq<string>, depth: nat, j: nat)
    requires j < |files|
    ensures Texts(FileRows(files[..j + 1], depth))
      == Texts(FileRows(files[..j], depth)) + [Repeat(Indent, depth) + Branch + files[j]]
  {
  }

  /** The records below `at` spell out `d`: its files, its keys, and each key's own records. */
  lemma StoresUnfold(store: map<Path, Record>, d: Directory, at: Path)
    requires Stores(store, d, at)
    ensures at in store && store[at].files == d.files && |store[at].directories| == |d.dirs|
    ensures forall k :: 0 <= k < |d.dirs| ==>
      store[at].directories[k] == d.dirs[k].name && Stores(store, d.dirs[k].dir, at + [d.dirs[k].name])
  {
  }

  /**
   * `traverse(dir, depth)`: pushes `.` first when at depth 0, then for every
   * key of the record its line followed by that directory's own lines one
   * level deeper, then one line per file. The shared list is passed in as
   * `tree` and handed back with the lines pushed.
   */
  method Traverse(store: map<Path, Record>, at: Path, depth: nat, tree: seq<string>, ghost d: Directory)
    returns (lines: seq<string>)
    requires Stores(store, d, at)
    ensures lines == tree + (if depth == 0 then ["."] else []) + Texts(Outline(d, depth))
    decreases d, 1
  {
    StoresUnfold(store, d, at);
    lines := tree;
    if depth == 0 {
      lines := lines + ["."];
    }
    ghost var start := lines;
    lines := PushDirectories(store, at, depth, lines, d);
    ghost var middle := lines;
    lines := PushFiles(lines, store[at].files, depth);
    TraverseEnd(start, middle, lines, d, depth);
  }

  /**
   * The `Object.entries(dir.directories)` loop of `traverse`: for every key,
   * in order, its line and then that directory's own lines one level deeper.
   */
  method PushDirectories(store: map<Path, Record>, at: Path, depth: nat, tree: seq<string>, ghost d: Directory)
    returns (lines: seq<string>)
    requires Stores(store, d, at)
    ensures lines == tree + Texts(DirRows(d, depth, |d.dirs|))
    decreases d, 0
  {
    StoresUnfold(store, d, at);
    lines := tree;
    var names := store[at].directories;
    var k := 0;
    while k < |names|
      invariant 0 <= k <= |names|
      invariant lines == tree + Texts(DirRows(d, depth, k))
    {
      var name := names[k];
      ghost var before := lines;
      lines := lines + [Repeat(Indent, depth) + Branch + name];
      lines := Traverse(store, at + [name], depth + 1, lines, d.dirs[k].dir);
      TraverseStep(tree, before, lines, d, depth, k);
      k := k + 1;
    }
  }

  /** The `for (const file of dir.files)` loop of `traverse`: one line per file, in order. */
  method PushFiles(tree: seq<string>, files: seq<string>, depth: nat) returns (lines: seq<string>)
    ensures lines == tree + Texts(FileRows(files, depth))
  {
    lines := tree;
    var j := 0;
    while j < |files|
      invariant 0 <= j <= |files|
      invariant lines == tree + Texts(FileRows(files[..j], depth))
    {
      lines := lines + [Repeat(Indent, depth) + Branch + files[j]];
      FileRowsStep(files, depth, j);
      j := j + 1;
    }
    assert files[..j] == files;
  }
}
