/**
 * The document assembler (`createMarkdownContent`): one fenced block per
 * file, tagged with the file's extension and labelled with its path relative
 * to the base directory, behind a title and the directory tree; the sections
 * are joined with blank lines and one left-to-right pass then replaces every
 * run of three line breaks it meets by two. File contents come from `disk`,
 * a map from path to content; a path missing from it is a file that cannot be
 * read, which ends the assembly with that path.
 */
module Assembler {
  import opened Strings
  import opened Paths
  import opened Collector
  import opened TreeSpec

  datatype Result<T> = Success(value: T) | Failure(unreadable: string)

  /** What a call produces: the document or the first unreadable path, and the log written on the way. */
  datatype Outcome = Outcome(content: Result<string>, log: seq<LogEntry>)

  /** The log entry written for each file read. */
  function Reading(file: string): LogEntry {
    LogEntry("Reading file: " + file, true)
  }

  /** `path.extname(file).slice(1) || "txt"`: the extension without its dot, or `txt` when that is empty. */
  function LanguageTag(file: string): (tag: string)
    ensures tag != "" && '.' !in tag && '/' !in tag
  {
    var e := Extname(file);
    var sliced := if e == "" then "" else e[1..];
    if sliced == "" then "txt" else sliced
  }

  /** A name with a stem and a dot-free extension is tagged with that extension. */
  lemma LanguageTagOfExtension(file: string, stem: string, ext: string)
    requires stem != "" && ext != "" && '.' !in ext
    requires Basename(file) == stem + "." + ext
    ensures LanguageTag(file) == ext
  {
    ExtnameOfDottedName(file, stem, ext);
  }

  /**
   * A name without a dot, a name whose only dot leads it, and any name ending
   * in a dot are all tagged `txt`.
   */
  lemma LanguageTagDefault(file: string, stem: string)
    requires || ('.' !in stem && (Basename(file) == stem || Basename(file) == "." + stem))
             || Basename(file) == stem + "."
    ensures LanguageTag(file) == "txt"
  {
    var b := Basename(file);
    if b == stem + "." {
      assert b[|b| - 1] == '.';
      assert LastIndexOfChar(b, '.') == |stem|;
      assert Extname(file) == "" || Extname(file) == ".";
    } else if b == stem {
      ExtnameWithoutDot(file);
    } else {
      assert b[0] == '.';
      assert forall j :: 0 < j < |b| ==> b[j] == stem[j - 1];
      assert LastIndexOfChar(b, '.') == 0;
    }
  }

  /** One file's fenced block: the opening fence with tag and relative path, the content, the closing fence. */
  function FileBlock(file: string, content: string, base: string): string {
    Join(["```" + LanguageTag(file) + " " + Relative(base, file), content, "```"], "\n")
  }

  /** The block, written out as one string. */
  lemma FileBlockText(file: string, content: string, base: string)
    ensures FileBlock(file, content, base)
      == "```" + LanguageTag(file) + " " + Relative(base, file) + "\n" + content + "\n```"
  {
    JoinThree("```" + LanguageTag(file) + " " + Relative(base, file), content, "```", "\n");
  }

  /** How many files, from the first, can be read before the first that cannot. */
  function ReadablePrefix(files: seq<string>, disk: map<string, string>): (n: nat)
    ensures n <= |files|
    ensures forall j :: 0 <= j < n ==> files[j] in disk
    ensures n < |files| ==> files[n] !in disk
    ensures n == |files| <==> forall f :: f in files ==> f in disk
  {
    if files == [] || files[0] !in disk then 0 else 1 + ReadablePrefix(files[1..], disk)
  }

  /**
   * `files.map(...)`: the blocks in input order, or the first file that
   * cannot be read.
   */
  function ContentLines(files: seq<string>, disk: map<string, string>, base: string): (r: Result<seq<string>>)
    ensures r.Success? <==> forall f :: f in files ==> f in disk
    ensures r.Success? ==> |r.value| == |files|
    ensures r.Success? ==> forall i :: 0 <= i < |files| ==> r.value[i] == FileBlock(files[i], disk[files[i]], base)
    ensures r.Failure? ==> r.unreadable == files[ReadablePrefix(files, disk)]
  {
    if files == [] then Success([])
    else if files[0] !in disk then Failure(files[0])
    else
      match ContentLines(files[1..], disk, base)
      case Failure(f) => Failure(f)
      case Success(rest) => Success([FileBlock(files[0], disk[files[0]], base)] + rest)
  }

  /** The header, the tree section, and the blocks, in that order. */
  function Sections(title: string, tree: string, blocks: seq<string>): seq<string> {
    ["# " + title, "## Directory Tree", "```", tree, "```"] + blocks
  }

  /** Three line breaks starting at `i`. */
  predicate TripleAt(s: string, i: int) {
    0 <= i && i + 3 <= |s| && s[i] == '\n' && s[i + 1] == '\n' && s[i + 2] == '\n'
  }

  /**
   * `.replace(/\n\n\n/g, "\n\n")`: scanning from the left, each run of three
   * line breaks found is replaced by two and the scan resumes after it.
   */
  function CollapseTriples(s: string): (r: string)
    ensures |r| <= |s|
    decreases |s|
  {
    if TripleAt(s, 0) then "\n\n" + CollapseTriples(s[3..])
    else if s == [] then []
    else [s[0]] + CollapseTriples(s[1..])
  }

  /** The pass shortens the text exactly when the text holds three line breaks in a row. */
  lemma {:induction false} CollapseShortens(s: string)
    ensures (exists i :: TripleAt(s, i)) <==> |CollapseTriples(s)| < |s|
    decreases |s|
  {
    if !TripleAt(s, 0) && s != [] {
      CollapseShortens(s[1..]);
      forall i | TripleAt(s, i) ensures TripleAt(s[1..], i - 1) { }
      forall i | TripleAt(s[1..], i) ensures TripleAt(s, i + 1) { }
    }
  }

  /** Text without three line breaks in a row is left as it is. */
  lemma {:induction false} CollapseWithoutTriple(s: string)
    requires forall i :: !TripleAt(s, i)
    ensures CollapseTriples(s) == s
    decreases |s|
  {
    if s != [] {
      assert !TripleAt(s, 0);
      forall i ensures !TripleAt(s[1..], i) {
        assert !TripleAt(s, i + 1);
      }
      CollapseWithoutTriple(s[1..]);
    }
  }

  /** Text without line breaks is left as it is. */
  lemma NoBreakUnchanged(s: string)
    requires '\n' !in s
    ensures CollapseTriples(s) == s
  {
    forall i ensures !TripleAt(s, i) {
      if 0 <= i < |s| {
        assert s[i] in s;
      }
    }
    CollapseWithoutTriple(s);
  }

  /** The pass splits at any character other than a line break: no run of three straddles it. */
  lemma {:induction false} CollapseSplit(s: string, t: string)
    requires s != [] && s[|s| - 1] != '\n'
    ensures CollapseTriples(s + t) == CollapseTriples(s) + CollapseTriples(t)
    decreases |s|
  {
    var st := s + t;
    var b := CollapseTriples(t);
    if TripleAt(s, 0) {
      var a := CollapseTriples(s[3..]);
      assert CollapseTriples(st) == "\n\n" + CollapseTriples(s[3..] + t) by {
        assert TripleAt(st, 0) && st[3..] == s[3..] + t;
        CollapseTriple(st);
      }
      assert CollapseTriples(s[3..] + t) == a + b by {
        assert |s| > 3;
        CollapseSplit(s[3..], t);
      }
      assert CollapseTriples(s) == "\n\n" + a by {
        CollapseTriple(s);
      }
      assert "\n\n" + (a + b) == ("\n\n" + a) + b;
    } else {
      var a := CollapseTriples(s[1..]);
      assert CollapseTriples(st) == [s[0]] + CollapseTriples(s[1..] + t) by {
        assert !TripleAt(st, 0) by {
          if |s| < 3 {
            assert |s| - 1 <= 2 && st[|s| - 1] == s[|s| - 1];
          }
        }
        assert st[1..] == s[1..] + t;
        CollapseOther(st);
      }
      assert CollapseTriples(s[1..] + t) == a + b by {
        if |s| > 1 {
          CollapseSplit(s[1..], t);
        } else {
          assert s[1..] == [];
        }
      }
      assert CollapseTriples(s) == [s[0]] + a by {
        CollapseOther(s);
      }
      assert [s[0]] + (a + b) == ([s[0]] + a) + b;
    }
  }

  /** Three line breaks at the front become two. */
  lemma CollapseTriple(s: string)
    requires TripleAt(s, 0)
    ensures CollapseTriples(s) == "\n\n" + CollapseTriples(s[3..])
  {
  }

  /** Any other first character is kept. */
  lemma CollapseOther(s: string)
    requires s != [] && !TripleAt(s, 0)
    ensures CollapseTriples(s) == [s[0]] + CollapseTriples(s[1..])
  {
  }

  /** A run of `n` line breaks becomes `n - n / 3`: every full three is cut to two, the rest kept. */
  lemma {:induction false} CollapseRun(n: nat)
    ensures CollapseTriples(Repeat("\n", n)) == Repeat("\n", n - n / 3)
  {
    var s := Repeat("\n", n);
    RepeatLength("\n", n);
    if n >= 3 {
      RepeatAppend("\n", 3, n - 3);
      assert Repeat("\n", 3) == "\n\n\n";
      assert s == "\n\n\n" + Repeat("\n", n - 3);
      assert TripleAt(s, 0);
      assert s[3..] == Repeat("\n", n - 3);
      CollapseRun(n - 3);
      assert n - n / 3 == 2 + (n - 3) - (n - 3) / 3;
      RepeatAppend("\n", 2, (n - 3) - (n - 3) / 3);
      assert Repeat("\n", 2) == "\n\n";
    } else {
      assert forall i :: !TripleAt(s, i);
      CollapseWithoutTriple(s);
    }
  }

  /** The pass is not repeated to a fixed point: four line breaks become three, which a second pass would cut again. */
  lemma SinglePass()
    ensures CollapseTriples("\n\n\n\n") == "\n\n\n"
    ensures CollapseTriples(CollapseTriples("\n\n\n\n")) == "\n\n"
  {
    CollapseRun(4);
    CollapseRun(3);
    assert Repeat("\n", 4) == "\n\n\n\n";
    assert Repeat("\n", 3) == "\n\n\n";
    assert Repeat("\n", 2) == "\n\n";
  }

  /**
   * `createMarkdownContent`: the blocks are made first (each file read and
   * logged in turn), then the tree of the same files; the sections are joined
   * with blank lines and the replacement pass runs over the whole text.
   * `includeTree` and `includeConfig` are accepted and never read.
   */
  function CreateMarkdownContent(files: seq<string>, disk: map<string, string>, baseDirectory: string,
                                 title: string, includeTree: bool, includeConfig: bool): Outcome
  {
    var read := ReadablePrefix(files, disk);
    var log := seq(read, j requires 0 <= j < read => Reading(files[j]));
    match ContentLines(files, disk, baseDirectory)
    case Failure(f) => Outcome(Failure(f), log)
    case Success(blocks) =>
      Outcome(Success(CollapseTriples(Join(Sections(title, TreeText(files, baseDirectory), blocks), "\n\n"))), log)
  }

  /**
   * When every file can be read: the document is the header, the tree
   * section and one block per file in input order, joined with blank lines
   * and passed once through the replacement, whatever the two flags are; one
   * log entry per file.
   */
  lemma DocumentLayout(files: seq<string>, disk: map<string, string>, baseDirectory: string,
                       title: string, includeTree: bool, includeConfig: bool)
    requires forall f :: f in files ==> f in disk
    ensures var out := CreateMarkdownContent(files, disk, baseDirectory, title, includeTree, includeConfig);
      var blocks := seq(|files|, i requires 0 <= i < |files| =>
        "```" + LanguageTag(files[i]) + " " + Relative(baseDirectory, files[i]) + "\n" + disk[files[i]] + "\n```");
      && out.content == Success(CollapseTriples(Join(
           ["# " + title, "## Directory Tree", "```", TreeText(files, baseDirectory), "```"] + blocks, "\n\n")))
      && |out.log| == |files|
      && forall i :: 0 <= i < |files| ==> out.log[i] == LogEntry("Reading file: " + files[i], true)
  {
    var r := ContentLines(files, disk, baseDirectory);
    var blocks := seq(|files|, i requires 0 <= i < |files| =>
      "```" + LanguageTag(files[i]) + " " + Relative(baseDirectory, files[i]) + "\n" + disk[files[i]] + "\n```");
    forall i | 0 <= i < |files| ensures r.value[i] == blocks[i] {
      FileBlockText(files[i], disk[files[i]], baseDirectory);
    }
    assert r.value == blocks;
  }

  /**
   * When some file cannot be read: no document, the first such file is
   * reported, and only the files before it were logged.
   */
  lemma UnreadableFile(files: seq<string>, disk: map<string, string>, baseDirectory: string,
                       title: string, includeTree: bool, includeConfig: bool)
    requires exists f :: f in files && f !in disk
    ensures var out := CreateMarkdownContent(files, disk, baseDirectory, title, includeTree, includeConfig);
      && out.content.Failure?
      && exists i :: 0 <= i < |files| && files[i] == out.content.unreadable && files[i] !in disk &&
           (forall j :: 0 <= j < i ==> files[j] in disk) &&
           out.log == seq(i, j requires 0 <= j < i => LogEntry("Reading file: " + files[j], true))
  {
    var n := ReadablePrefix(files, disk);
    assert n < |files|;
  }

  /**
   * With no files the document is the header and the tree section around
   * the lone root line, joined with blank lines and left alone by the pass;
   * nothing is logged.
   */
  lemma NoFiles(disk: map<string, string>, baseDirectory: string, title: string, includeTree: bool, includeConfig: bool)
    requires '\n' !in title
    ensures CreateMarkdownContent([], disk, baseDirectory, title, includeTree, includeConfig)
      == Outcome(Success(Join(["# " + title, "## Directory Tree", "```", ".", "```"], "\n\n")), [])
  {
    var parts := ["# " + title, "## Directory Tree", "```", ".", "```"];
    assert Sections(title, ".", []) == parts;
    assert CreateMarkdownContent([], disk, baseDirectory, title, includeTree, includeConfig)
      == Outcome(Success(CollapseTriples(Join(parts, "\n\n"))), []) by {
      TreeTextRoot([], baseDirectory);
      assert ContentLines([], disk, baseDirectory) == Success([]);
    }
    assert '\n' !in parts[0] by {
      assert parts[0] == "# " + title;
    }
    JoinedUnchanged(parts);
  }

  /** Lines without line breaks, joined by blank lines, pass unchanged. */
  lemma {:induction false} JoinedUnchanged(parts: seq<string>)
    requires forall i :: 0 <= i < |parts| ==> parts[i] != [] && '\n' !in parts[i]
    ensures CollapseTriples(Join(parts, "\n\n")) == Join(parts, "\n\n")
  {
    if |parts| == 1 {
      NoBreakUnchanged(parts[0]);
    } else if |parts| > 1 {
      var first, rest := parts[0], parts[1..];
      var tail := Join(rest, "\n\n");
      assert forall i :: 0 <= i < |rest| ==> rest[i] == parts[i + 1];
      JoinedUnchanged(rest);
      assert tail[0] == rest[0][0] by {
        assert rest[0] != [] && (|rest| == 1 || tail == rest[0] + "\n\n" + Join(rest[1..], "\n\n"));
      }
      assert rest[0][0] in rest[0];
      PrependLine(first, tail);
    }
  }

  /** A line without line breaks, a blank line, and text the pass leaves alone pass unchanged together. */
  lemma PrependLine(first: string, tail: string)
    requires first != [] && '\n' !in first
    requires tail != [] && tail[0] != '\n' && CollapseTriples(tail) == tail
    ensures CollapseTriples(first + "\n\n" + tail) == first + "\n\n" + tail
  {
    var rest := "\n\n" + tail;
    assert first + "\n\n" + tail == first + rest;
    assert CollapseTriples(rest) == rest by {
      BreakThen(tail);
    }
    assert CollapseTriples(first) == first && first[|first| - 1] != '\n' by {
      NoBreakUnchanged(first);
      assert first[|first| - 1] in first;
    }
    CollapseSplit(first, rest);
  }

  /** A blank-line separator in front of text that does not start with a line break passes unchanged. */
  lemma BreakThen(x: string)
    requires x != [] && x[0] != '\n' && CollapseTriples(x) == x
    ensures CollapseTriples("\n\n" + x) == "\n\n" + x
  {
    var s := "\n\n" + x;
    assert !TripleAt(s, 0) && s[1..] == "\n" + x;
    assert !TripleAt(s[1..], 0) && s[1..][1..] == x;
  }
}
