# A Dafny model of the markdown bundler's core

The bundler collects the files matching a set of glob patterns below a base
directory and writes one markdown document. The document has a title, a
drawing of the directory tree of the collected files, and each file's
contents in a fenced block. This project models the three functions of
`src/lib.ts` that do the work, and proves what they promise:

- `gatherFiles` (module `Collector`). Each inclusion pattern is joined onto
  the base directory and expanded by the glob library, always with the same
  ignore list. The matches go into an insertion-ordered set, and every match
  is logged. The glob library is a function parameter. The method keeps the
  source's two nested loops (the inner one as `AddMatches`) and is proved
  against `Dedup` of all matches (module `Seqs`).
- `makeTree`, in two layers.
  - Module `TreeSpec` describes the tree as values. Paths are made relative,
    sorted and split on `/`. They are folded into a `Directory` record whose
    subdirectories keep their key insertion order. A depth-first outline lists
    rows (depth, name, is-directory). The text is `"."` followed by one line
    per row: `"│   "` repeated depth times, then `"├── "`, then the name.
  - Module `TreeBuilder` is the imperative code. A loop walks each path's
    segments with a moving `current` record and creates missing directories
    on the way. A recursive `traverse` pushes lines onto the tree. Both are
    proved to produce exactly the text `TreeSpec` describes.
- `createMarkdownContent` (module `Assembler`). It builds one block per file
  (language tag, relative path, content), then the header and the tree
  section. It joins everything with blank lines and makes one left-to-right
  pass replacing `"\n\n\n"` by `"\n\n"`. File contents come from a map from
  path to content. A path missing from the map is a read failure, which ends
  the call with that path.

Modules `Strings` and `Paths` hold the pieces of JavaScript's string API and
Node's `path` module that the core uses: `split`, `join`, `repeat`, the
default `sort`, `path.join`, `path.relative` and `path.extname`.

Where the documented behaviour and the code differ, the model follows the
code:

- Every match is logged, including repeat matches of a path already
  collected, not only newly added ones.
- Subdirectories are drawn before the files of the same directory. For `a.ts`
  and `sub/b.md` the tree is `.`, `├── sub`, `│   ├── b.md`, `├── a.ts`, not
  `a.ts` first (`TreeSpec.SubdirectoryFirst`).
- The tree section is always written. `includeTree` and `includeConfig` are
  accepted and never read.
- Only the `├──` connector is drawn. The `└──` of the drawing in the comment
  at `src/lib.ts:111-132` never appears.
- The newline replacement is one pass, not a collapse to a fixed point. A run
  of four line breaks becomes three, not two (`Assembler.SinglePass`).

## Model

| member | source | states |
|---|---|---|
| Seqs.Dedup | src/lib.ts:17-27 | the insertion-ordered `Set` after adding the elements one by one; described by DedupNoDup, DedupMembers, DedupFirstOccurrenceOrder and DedupLength |
| Seqs.DedupNoDup | src/lib.ts:17-27 | the insertion-ordered set never holds a path twice |
| Seqs.DedupMembers | src/lib.ts:23 | a path is in the set exactly when it was added at least once |
| Seqs.DedupFirstOccurrenceOrder | src/lib.ts:17-27 | the set lists paths in the order of their first addition |
| Seqs.DedupLength | src/lib.ts:27 | the set has no more elements than there were additions |
| Collector.IgnoreList | src/lib.ts:20 | the exclusion patterns each joined onto the base directory; GatherFiles states that every glob call receives it |
| Collector.AllMatches | src/lib.ts:18-25 | the matches of all patterns in pattern order, each pattern's in glob order; described by AllMatchesMembers, and GatherFiles and AddMatches are proved against it |
| Collector.GatherFiles | src/lib.ts:6-28 | the returned paths are the set built from all matches of all patterns, in pattern order; one glob call per pattern, each with the base-joined pattern and the same base-joined ignore list; one "Matched file" log entry per match, repeats included, in match order |
| Collector.AddMatches | src/lib.ts:22-25 | the inner loop leaves the set equal to the set of all matches so far plus this pattern's matches, and extends the log by one "Matched file" entry per match, in order |
| Collector.AllMatchesMembers | src/lib.ts:18-26 | a path is matched exactly when some pattern's glob call returns it |
| Collector.CollectedFiles | src/lib.ts:17-27 | the result has no duplicates, holds exactly the paths some pattern matched, orders them by first match, and is no longer than the list of matches |
| Paths.DirPrefix | src/lib.ts:19-20 | the directory prefix `path.join` puts before a pattern: it ends in the separator and is the base itself (the root `/`, say) or the base with one `/` appended; RelativeToRoot uses the first case |
| Paths.JoinPath | src/lib.ts:19-20 | `path.join` of a base and a relative pattern; RelativeOfJoin and JoinOfRelative relate it to Relative |
| Paths.Relative | src/lib.ts:48 | `path.relative` for a file equal to or below the base; RelativeOfJoin and JoinOfRelative show it is the inverse of JoinPath |
| Paths.Basename | src/lib.ts:47 | the last path component, which Extname reads; ExtnameOfDottedName, ExtnameWithoutDot and the two tag lemmas are stated on it |
| Paths.RelativeOfJoin | src/lib.ts:147 | the path relative to the base of the base joined with r is r |
| Paths.JoinOfRelative | src/lib.ts:48 | joining the base with a file's relative path gives the file back, for a file below the base |
| Paths.RelativeToRoot | src/lib.ts:48 | relative to the root `/`, an absolute path loses only its leading separator |
| Paths.Extname | src/lib.ts:47 | the extension is empty, or a leading dot followed by text without dots or separators |
| Paths.ExtnameOfDottedName | src/lib.ts:47 | a basename stem.ext with a non-empty stem and an ext without dots has extension .ext |
| Strings.Split | src/lib.ts:160 | `split` on one separator character, never empty; SplitPartsAvoidSeparator, JoinSplit and SplitJoin describe it |
| Strings.Join | src/lib.ts:50-52 | `join` with a separator; JoinSplit and SplitJoin show it inverts Split |
| Strings.Repeat | src/lib.ts:183 | `repeat`; described by RepeatLength |
| Strings.Sort | src/lib.ts:148 | the default `sort`; SortCorrect, SortedUnique and SortIgnoresOrder describe its result without reference to the algorithm |
| Strings.SplitJoin | src/lib.ts:160 | splitting a join of at least one separator-free part gives the parts back |
| Strings.JoinSplit | src/lib.ts:160 | joining the parts of a split with the separator gives the text back |
| Strings.SplitPartsAvoidSeparator | src/lib.ts:160 | no part of a split contains the separator |
| Strings.RepeatLength | src/lib.ts:183 | the indentation repeated n times is n times as long |
| Strings.SortCorrect | src/lib.ts:148 | the sorted paths are a permutation of the input in lexicographic order |
| Strings.SortedUnique | src/lib.ts:148 | two sorted permutations of the same paths are equal |
| Strings.SortIgnoresOrder | src/lib.ts:148 | sorting two permutations of the same paths gives the same sequence |
| Strings.LessEqTotal | src/lib.ts:148 | any two strings are comparable in the sort order |
| Strings.LessEqTransitive | src/lib.ts:148 | the sort order is transitive |
| TreeSpec.Insert | src/lib.ts:160-174 | one path walked into the record, missing directories created and the last segment added as a file; InsertValid keeps the keys distinct and WalkInserts ties the imperative walk to it |
| TreeSpec.Fold | src/lib.ts:159-175 | all sorted paths inserted in turn into an empty root; described by FoldShape, FoldValid, FoldFileCount, FoldDirPathsSound and FoldDirPathsComplete |
| TreeSpec.Outline | src/lib.ts:178-189 | the rows traverse pushes, depth first, keys before files; described by SiblingRows, OutlineSize and OutlineDepths, and Traverse is proved to push their text |
| TreeSpec.TreeText | src/lib.ts:177-192 | the string makeTree returns; described by TreeTextRoot, TreeTextLines, LineCount, TreeOrderIndependent and SubdirectoryFirst, and MakeTree is proved to return it |
| TreeSpec.Lookup | src/lib.ts:166 | the lookup finds the first subdirectory with the name, or reports none |
| TreeSpec.LookupFinds | src/lib.ts:166-172 | a subdirectory is found exactly when one has that name |
| TreeSpec.FoldValid | src/lib.ts:159-175 | the fold never creates a second subdirectory with the same name, at any level |
| TreeSpec.FoldShape | src/lib.ts:159-175 | the root's files are the one-segment paths in order; its subdirectories are the distinct first segments of longer paths, in first-encounter order; each holds the fold of the remaining segments of the paths below it |
| TreeSpec.FoldFileCount | src/lib.ts:163-164 | every path adds exactly one file to the tree |
| TreeSpec.DirPathsNoDup | src/lib.ts:166-172 | no directory of the tree appears twice |
| TreeSpec.FoldDirPathsSound | src/lib.ts:165-173 | every directory of the tree is a proper prefix of some input path |
| TreeSpec.FoldDirPathsComplete | src/lib.ts:165-173 | every proper prefix of an input path is a directory of the tree |
| TreeSpec.OutlineSize | src/lib.ts:182-188 | the outline has one row per directory and one per file |
| TreeSpec.FoldLineCount | src/lib.ts:159-190 | the outline of the fold has one row per distinct directory prefix and one per path |
| TreeSpec.OutlineDepths | src/lib.ts:183-187 | every row of a subtree lies at the subtree's depth or deeper |
| TreeSpec.SiblingRows | src/lib.ts:182-188 | at a directory's own depth, its subdirectories come in key order before its files in push order |
| TreeSpec.RootLevel | src/lib.ts:159-188 | at depth 0 the rows are the distinct first directory segments in first-encounter order over the sorted paths, then the root files |
| TreeSpec.RelativizePermutation | src/lib.ts:147 | relativizing permuted files gives permuted relative paths |
| TreeSpec.TreeOrderIndependent | src/lib.ts:147-148 | the tree lines and text depend only on the multiset of input files, not their order |
| TreeSpec.LineCount | src/lib.ts:147-192 | the tree has 1 + (distinct directory prefixes) + (number of files) lines |
| TreeSpec.TreeTextRoot | src/lib.ts:179-192 | no files give exactly "."; otherwise the text starts with ".\n" |
| TreeSpec.RootFile | src/lib.ts:160-164 | a file whose relative path has no separator is a depth-0 row, drawn as "├── " + its name |
| TreeSpec.FoldAvoids | src/lib.ts:159-175 | a character absent from every segment is absent from every name in the tree |
| TreeSpec.TreeTextLines | src/lib.ts:177-192 | when no file's relative path contains a line break, splitting the text at line breaks gives "." and then, for each outline row, "│   " repeated depth times + "├── " + name, and nothing else |
| TreeSpec.SubdirectoryFirst | src/lib.ts:147-192 | for r/a.ts and r/sub/b.md below r the lines are ".", "├── sub", "│   ├── b.md", "├── a.ts": the subdirectory before the file |
| TreeBuilder.Walk | src/lib.ts:161-174 | the segment walk over the stored records; WalkInserts states what it does to them and AddPath is proved to perform it |
| TreeBuilder.WalkInserts | src/lib.ts:162-174 | walking a path's segments through the stored records makes them spell out the tree with that path inserted, and leaves every record outside the walked directory alone |
| TreeBuilder.AddPath | src/lib.ts:160-174 | the segment loop with its moving current record performs that walk, and every listed subdirectory still has a record |
| TreeBuilder.FoldPaths | src/lib.ts:149-175 | starting from a fresh root record, the path loop leaves records that spell out the fold of all the sorted paths |
| TreeBuilder.FoldStoresStep | src/lib.ts:159-175 | after the i-th path the records spell out the fold of the first i+1 sorted paths |
| TreeBuilder.Traverse | src/lib.ts:178-189 | traverse appends "." at depth 0 and then the lines of the outline of the stored directory, after the lines already there |
| TreeBuilder.PushDirectories | src/lib.ts:182-185 | the key loop appends, for every key in order, its line and then that directory's lines one level deeper |
| TreeBuilder.PushFiles | src/lib.ts:186-188 | the file loop appends one line per file, in order |
| TreeBuilder.MakeTree | src/lib.ts:110-193 | the returned text is the tree text of the files relative to the base |
| Assembler.LanguageTag | src/lib.ts:47 | the tag is never empty and has no dot or separator |
| Assembler.LanguageTagOfExtension | src/lib.ts:47 | a file named stem.ext, with a non-empty stem and a non-empty ext without dots, is tagged ext |
| Assembler.LanguageTagDefault | src/lib.ts:47 | a name without a dot, ending in a dot, or whose only dot is its first character is tagged txt |
| Assembler.FileBlock | src/lib.ts:46-52 | one file's fenced block; written out by FileBlockText, and ContentLines gives one per file |
| Assembler.FileBlockText | src/lib.ts:50-52 | a block is "```" + tag + " " + relative path + "\n" + content + "\n```" |
| Assembler.ReadablePrefix | src/lib.ts:45-46 | the files before the first unreadable one are readable, and all are readable exactly when none is unreadable |
| Assembler.ContentLines | src/lib.ts:45-53 | blocks exist exactly when every file can be read: one per file, in input order; otherwise the first unreadable file is reported |
| Assembler.CollapseTriples | src/lib.ts:66 | the replacement pass never lengthens the text |
| Assembler.CollapseShortens | src/lib.ts:66 | the pass shortens the text exactly when it holds three line breaks in a row |
| Assembler.CollapseWithoutTriple | src/lib.ts:66 | text without three line breaks in a row is unchanged |
| Assembler.CollapseSplit | src/lib.ts:66 | the pass works piecewise across any character that is not a line break |
| Assembler.CollapseRun | src/lib.ts:66 | a run of n line breaks becomes n - n/3 line breaks |
| Assembler.SinglePass | src/lib.ts:66 | four line breaks become three, and only a second pass would make them two |
| Assembler.JoinedUnchanged | src/lib.ts:62-66 | non-empty lines without line breaks, joined with blank lines, pass unchanged |
| Assembler.CreateMarkdownContent | src/lib.ts:30-68 | the whole document and its log; described by DocumentLayout (every file readable), UnreadableFile (some file unreadable) and NoFiles (no files) |
| Assembler.DocumentLayout | src/lib.ts:45-67 | when every file is readable, the document is the pass over ["# "+title, "## Directory Tree", "```", tree, "```"] + the blocks in input order, joined with blank lines, whatever the two flags are; one "Reading file" log entry per file, in order |
| Assembler.UnreadableFile | src/lib.ts:45-49 | when some file cannot be read there is no document; the first unreadable file is reported, and only the files before it were logged |
| Assembler.NoFiles | src/lib.ts:54-67 | with no files, and a title without line breaks, the document is "# title", "## Directory Tree", "```", ".", "```" joined with blank lines and left alone by the pass, and nothing is logged |

## Left out

- Glob matching and its `ignore` semantics belong to a third-party library. `Collector.Glob` is a function parameter, so nothing about exclusion is proved. Calling it twice with the same arguments is assumed to give the same matches.
- File I/O: `fs.readFileSync` is the `disk` map, and its failure is a `Failure` result. `fs.writeFileSync` and the orchestration in `generateMarkdown` are not modelled.
- `src/index.ts` (option parsing, console output, overwrite handling) is not part of this model.
- Paths.Relative: it covers only a file equal to the base or below it (a base ending in the separator, such as the root `/`, is its own directory prefix); any other path is kept as given, where `path.relative` would produce `..` segments. Neither `path.join` nor `path.relative` normalises `.`, `..` or repeated separators here. The separator is `/`.
- Paths.Extname: for names made only of dots (such as `..`) it follows the common rule, suffix after the last dot of the basename when that dot is not its first character, rather than Node's special cases.
- Strings.LessEq: compares characters, not UTF-16 code units. `Strings.Sort` is an insertion sort; any correct sort returns the same sequence, by `Strings.SortedUnique`.
- TreeBuilder.Traverse: `Object.entries` is modelled as key insertion order. The rule that integer-like keys come first is not modelled.
- TreeBuilder.AddPath: the `!current.directories[part]` test is modelled as key membership. Its misfire on inherited names such as `constructor` is not modelled.
- TreeBuilder.MakeTree: records are stored in a map keyed by their path from the root, not as heap objects reached by reference. Aliasing between records is therefore not modelled. The path loop, its segment loop, and traverse's key and file loops are separate methods (`FoldPaths`, `AddPath`, `PushDirectories`, `PushFiles`).
- TreeBuilder.Traverse: the shared `tree` array that the nested function pushes onto is a sequence passed in and handed back.
- The commented-out code at `src/lib.ts:65` and `src/lib.ts:134-145` is not modelled.
- The defaults `baseDirectory = process.cwd()` and `title = "Generated Markdown"` of `createMarkdownContent` (src/lib.ts:32-33) are not modelled: both are parameters here. `generateMarkdown` always passes both (src/lib.ts:96-103), so that call path loses nothing.
- Logger calls are returned as a sequence of entries instead of being made through a callback.
