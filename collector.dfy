/**
 * The path collector (`gatherFiles`): every inclusion pattern is joined onto
 * the base directory and expanded by the glob library with the same ignore
 * list; the matches are added to an insertion-ordered set and each match is
 * reported to the logger.
 */
module Collector {
  import opened Seqs
  import opened Paths

  /** `glob.sync(pattern, { ignore })`: the library's matches, in the library's order. */
  type Glob = (string, seq<string>) -> seq<string>

  /** One call of the injected logger. */
  datatype LogEntry = LogEntry(message: string, verbose: bool)

  /** The arguments of one `glob.sync` call. */
  datatype GlobCall = GlobCall(pattern: string, ignore: seq<string>)

  /** Every exclusion pattern joined onto the base directory. */
  function IgnoreList(baseDir: string, excludeGlobs: seq<string>): seq<string> {
    seq(|excludeGlobs|, i requires 0 <= i < |excludeGlobs| => JoinPath(baseDir, excludeGlobs[i]))
  }

  /** The log entry written for a matched path. */
  function Matched(file: string): LogEntry {
    LogEntry("Matched file: " + file, true)
  }

  /** The matches of all patterns, pattern after pattern, repeats included. */
  function AllMatches(glob: Glob, baseDir: string, patterns: seq<string>, excludeGlobs: seq<string>): seq<string> {
    if patterns == [] then []
    else
      AllMatches(glob, baseDir, patterns[..|patterns| - 1], excludeGlobs)
      + glob(JoinPath(baseDir, patterns[|patterns| - 1]), IgnoreList(baseDir, excludeGlobs))
  }

  /**
   * `gatherFiles`: the deduplicated matches in first-occurrence order, the
   * glob calls made (one per pattern, all with the same ignore list) and the
   * log written (one entry per match, repeats included).
   */
  method GatherFiles(patterns: seq<string>, baseDir: string, excludeGlobs: seq<string>, glob: Glob)
    returns (files: seq<string>, calls: seq<GlobCall>, log: seq<LogEntry>)
    ensures files == Dedup(AllMatches(glob, baseDir, patterns, excludeGlobs))
    ensures |calls| == |patterns|
    ensures forall i :: 0 <= i < |patterns| ==>
      calls[i] == GlobCall(JoinPath(baseDir, patterns[i]), IgnoreList(baseDir, excludeGlobs))
    ensures |log| == |AllMatches(glob, baseDir, patterns, excludeGlobs)|
    ensures forall k :: 0 <= k < |log| ==> log[k] == Matched(AllMatches(glob, baseDir, patterns, excludeGlobs)[k])
  {
    files, calls, log := [], [], [];
    var i := 0;
    while i < |patterns|
      invariant 0 <= i <= |patterns|
      invariant files == Dedup(AllMatches(glob, baseDir, patterns[..i], excludeGlobs))
      invariant |calls| == i
      invariant forall c :: 0 <= c < i ==>
        calls[c] == GlobCall(JoinPath(baseDir, patterns[c]), IgnoreList(baseDir, excludeGlobs))
      invariant |log| == |AllMatches(glob, baseDir, patterns[..i], excludeGlobs)|
      invariant forall k :: 0 <= k < |log| ==> log[k] == Matched(AllMatches(glob, baseDir, patterns[..i], excludeGlobs)[k])
    {
      ghost var before := AllMatches(glob, baseDir, patterns[..i], excludeGlobs);
      var pattern := JoinPath(baseDir, patterns[i]);
      var ignore := IgnoreList(baseDir, excludeGlobs);
      var matchedFiles := glob(pattern, ignore);
      calls := calls + [GlobCall(pattern, ignore)];
      files, log := AddMatches(files, log, before, matchedFiles);
      assert AllMatches(glob, baseDir, patterns[..i + 1], excludeGlobs) == before + matchedFiles by {
        assert patterns[..i + 1][..i] == patterns[..i];
      }
      i := i + 1;
    }
    assert patterns[..i] == patterns;
  }

  /**
   * The inner `matchedFiles.forEach`: each match is added to the set and
   * logged, in order, whether or not the set already held it.
   */
  method AddMatches(files: seq<string>, log: seq<LogEntry>, ghost before: seq<string>, matchedFiles: seq<string>)
    returns (files': seq<string>, log': seq<LogEntry>)
    requires files == Dedup(before)
    requires |log| == |before| && forall k :: 0 <= k < |log| ==> log[k] == Matched(before[k])
    ensures files' == Dedup(before + matchedFiles)
    ensures |log'| == |before + matchedFiles|
    ensures forall k :: 0 <= k < |log'| ==> log'[k] == Matched((before + matchedFiles)[k])
  {
    files', log' := files, log;
    var j := 0;
    assert before + matchedFiles[..0] == before;
    while j < |matchedFiles|
      invariant 0 <= j <= |matchedFiles|
      invariant files' == Dedup(before + matchedFiles[..j])
      invariant |log'| == |before + matchedFiles[..j]|
      invariant forall k :: 0 <= k < |log'| ==> log'[k] == Matched((before + matchedFiles[..j])[k])
    {
      var file := matchedFiles[j];
      assert (before + matchedFiles[..j + 1])[..|before| + j] == before + matchedFiles[..j];
      if file !in files' {
        files' := files' + [file];
      }
      log' := log' + [Matched(file)];
      j := j + 1;
    }
    assert matchedFiles[..j] == matchedFiles;
  }

  /** A path is matched exactly when some pattern's glob call returns it. */
  lemma {:induction false} AllMatchesMembers(glob: Glob, baseDir: string, patterns: seq<string>, excludeGlobs: seq<string>, x: string)
    ensures x in AllMatches(glob, baseDir, patterns, excludeGlobs) <==>
      exists i :: 0 <= i < |patterns| && x in glob(JoinPath(baseDir, patterns[i]), IgnoreList(baseDir, excludeGlobs))
  {
    if patterns != [] {
      var init := patterns[..|patterns| - 1];
      AllMatchesMembers(glob, baseDir, init, excludeGlobs, x);
      assert forall i :: 0 <= i < |init| ==> init[i] == patterns[i];
    }
  }

  /**
   * What `gatherFiles` returns: no path twice, exactly the paths some
   * pattern matched, each in the position of its first match, and no more
   * paths than log entries.
   */
  lemma CollectedFiles(glob: Glob, baseDir: string, patterns: seq<string>, excludeGlobs: seq<string>)
    ensures NoDup(Dedup(AllMatches(glob, baseDir, patterns, excludeGlobs)))
    ensures forall x :: x in Dedup(AllMatches(glob, baseDir, patterns, excludeGlobs)) <==>
      exists i :: 0 <= i < |patterns| && x in glob(JoinPath(baseDir, patterns[i]), IgnoreList(baseDir, excludeGlobs))
    ensures forall x :: x in Dedup(AllMatches(glob, baseDir, patterns, excludeGlobs)) ==>
      x in AllMatches(glob, baseDir, patterns, excludeGlobs)
    ensures forall i, j :: 0 <= i < j < |Dedup(AllMatches(glob, baseDir, patterns, excludeGlobs))| ==>
      var all := AllMatches(glob, baseDir, patterns, excludeGlobs);
      FirstIndex(all, Dedup(all)[i]) < FirstIndex(all, Dedup(all)[j])
    ensures |Dedup(AllMatches(glob, baseDir, patterns, excludeGlobs))| <= |AllMatches(glob, baseDir, patterns, excludeGlobs)|
  {
    var all := AllMatches(glob, baseDir, patterns, excludeGlobs);
    DedupNoDup(all);
    DedupMembers(all);
    DedupFirstOccurrenceOrder(all);
    DedupLength(all);
    forall x ensures x in Dedup(all) <==>
      exists i :: 0 <= i < |patterns| && x in glob(JoinPath(baseDir, patterns[i]), IgnoreList(baseDir, excludeGlobs))
    {
      AllMatchesMembers(glob, baseDir, patterns, excludeGlobs, x);
    }
  }
}
