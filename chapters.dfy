/** The batched synthesis tab: a JSON file's chapters become a list of
    paragraphs kept between the two handlers, and the batch handler writes one
    audio file per chapter into the output directory, skipping the chapters
    whose synthesis fails. Reading and parsing the file and the synthesis are
    not modelled: the file arrives already parsed (or with the error its
    reading raised) and the synthesis is a parameter telling, for each chapter
    index and text, whether the file was written. */
module Chapters {
  import opened Strings

  /** The uploaded file: the message of the exception reading it raised, or the
      (title, content) pairs of its "chapters" object in order (none when the
      object is missing or empty). */
  datatype JsonFile = Unreadable(error: string) | Parsed(chapters: seq<(string, string)>)

  const NoChaptersFound := "Error: No chapters found."
  const NoChaptersAvailable := "Error: No chapters available for synthesis."

  /** f"{title} {content}" for each chapter. */
  function Paragraphs(chapters: seq<(string, string)>): (r: seq<string>)
    ensures |r| == |chapters|
    ensures forall i :: 0 <= i < |r| ==> r[i] == chapters[i].0 + " " + chapters[i].1
  {
    seq(|chapters|, i requires 0 <= i < |chapters| => chapters[i].0 + " " + chapters[i].1)
  }

  /** The chapter list after a file is processed: it is reset first, so an
      error leaves it empty. */
  function ChaptersFrom(file: JsonFile): (r: seq<string>)
    ensures file.Parsed? ==> |r| == |file.chapters|
  {
    if file.Unreadable? then [] else Paragraphs(file.chapters)
  }

  /** The preview the handler shows: the paragraphs one per line, or an error. */
  function PreviewOf(file: JsonFile): string {
    if file.Unreadable? then "Error: " + file.error
    else if file.chapters == [] then NoChaptersFound
    else JoinLines(Paragraphs(file.chapters))
  }

  /** f"chapter_{idx + 1}.wav" */
  function ChapterFileName(idx: nat): (r: string)
    ensures |r| > 0 && r[0] == 'c'
  {
    "chapter_" + NatToString(idx + 1) + ".wav"
  }

  /** Where chapter idx's file is written. */
  function ChapterPath(outputDir: string, idx: nat): string {
    JoinPath(outputDir, ChapterFileName(idx))
  }

  /** Different chapters are written to different paths. */
  lemma ChapterPathInjective(outputDir: string, i: nat, j: nat)
    ensures ChapterPath(outputDir, i) == ChapterPath(outputDir, j) ==> i == j
  {
    JoinPathInjective(outputDir, ChapterFileName(i), ChapterFileName(j));
    ChapterFileNameInjective(i, j);
  }

  /** The paths of the files written, in chapter order. */
  function FilePaths(outputDir: string, chapters: seq<string>, written: (nat, string) -> bool): (r: seq<string>)
    ensures |r| <= |chapters|
    decreases |chapters|
  {
    if chapters == [] then []
    else
      var n := |chapters| - 1;
      FilePaths(outputDir, chapters[..n], written)
        + (if written(n, chapters[n]) then [ChapterPath(outputDir, n)] else [])
  }

  /** What the batch handler returns: an error when there are no chapters,
      otherwise the written paths one per line. */
  function BatchMessage(outputDir: string, chapters: seq<string>, written: (nat, string) -> bool): string {
    if chapters == [] then NoChaptersAvailable else JoinLines(FilePaths(outputDir, chapters, written))
  }

  /** The chapter list shared by the two handlers. */
  class ChapterStore {
    var chapters: seq<string>

    constructor ()
      ensures chapters == []
    {
      chapters := [];
    }

    method ProcessJsonFile(file: JsonFile) returns (preview: string)
      modifies this
      ensures chapters == ChaptersFrom(file)
      ensures preview == PreviewOf(file)
    {
      chapters := [];
      if file.Unreadable? {
        return "Error: " + file.error;
      }
      var items := file.chapters;
      if items == [] {
        return NoChaptersFound;
      }
      for i := 0 to |items|
        invariant chapters == Paragraphs(items[..i])
      {
        var (title, content) := items[i];
        chapters := chapters + [title + " " + content];
      }
      assert items[..|items|] == items;
      preview := JoinLines(chapters);
    }

    method BatchTtsSynthesize(outputDir: string, written: (nat, string) -> bool) returns (message: string)
      ensures message == BatchMessage(outputDir, chapters, written)
    {
      if chapters == [] {
        return NoChaptersAvailable;
      }
      var filePaths := [];
      for idx := 0 to |chapters|
        invariant filePaths == FilePaths(outputDir, chapters[..idx], written)
      {
        assert chapters[..idx + 1][..idx] == chapters[..idx];
        if written(idx, chapters[idx]) {
          filePaths := filePaths + [ChapterPath(outputDir, idx)];
        }
      }
      assert chapters[..|chapters|] == chapters;
      message := JoinLines(filePaths);
    }
  }

  /** A failed file leaves no chapters behind, and its preview is an error. */
  lemma ErrorLeavesNoChapters(file: JsonFile, outputDir: string, written: (nat, string) -> bool)
    requires file.Unreadable? || file.chapters == []
    ensures ChaptersFrom(file) == []
    ensures PreviewOf(file)[..7] == "Error: "
    ensures BatchMessage(outputDir, ChaptersFrom(file), written) == NoChaptersAvailable
  {
  }

  /** When no title or content holds a newline, the preview lists exactly the
      chapters, one per line. */
  lemma PreviewLines(chapters: seq<(string, string)>)
    requires chapters != []
    requires forall i :: 0 <= i < |chapters| ==> '\n' !in chapters[i].0 && '\n' !in chapters[i].1
    ensures SplitLines(PreviewOf(Parsed(chapters))) == ChaptersFrom(Parsed(chapters))
  {
    var p := Paragraphs(chapters);
    forall i | 0 <= i < |p| ensures '\n' !in p[i] {
      assert p[i] == chapters[i].0 + " " + chapters[i].1;
    }
    SplitJoinLines(p);
  }

  /** Different chapters get different file names. */
  lemma ChapterFileNameInjective(i: nat, j: nat)
    ensures ChapterFileName(i) == ChapterFileName(j) ==> i == j
  {
    var a, b := ChapterFileName(i), ChapterFileName(j);
    assert a[8..|a| - 4] == NatToString(i + 1);
    assert b[8..|b| - 4] == NatToString(j + 1);
    NatToStringInjective(i + 1, j + 1);
  }

  /** Every path names a chapter that was written, with a smaller index than
      the number of chapters. */
  lemma {:induction false} FilePathsSound(outputDir: string, chapters: seq<string>, written: (nat, string) -> bool, p: string)
    requires p in FilePaths(outputDir, chapters, written)
    ensures exists i: nat :: i < |chapters| && written(i, chapters[i]) && p == ChapterPath(outputDir, i)
    decreases |chapters|
  {
    var n := |chapters| - 1;
    if p in FilePaths(outputDir, chapters[..n], written) {
      FilePathsSound(outputDir, chapters[..n], written, p);
      var i: nat :| i < n && written(i, chapters[..n][i]) && p == ChapterPath(outputDir, i);
      assert chapters[..n][i] == chapters[i];
    } else {
      assert written(n, chapters[n]) && p == ChapterPath(outputDir, n);
    }
  }

  /** Every chapter that was written has its path in the list. */
  lemma {:induction false} FilePathsComplete(outputDir: string, chapters: seq<string>, written: (nat, string) -> bool, i: nat)
    requires i < |chapters| && written(i, chapters[i])
    ensures ChapterPath(outputDir, i) in FilePaths(outputDir, chapters, written)
    decreases |chapters|
  {
    var n := |chapters| - 1;
    var before := FilePaths(outputDir, chapters[..n], written);
    var tail := if written(n, chapters[n]) then [ChapterPath(outputDir, n)] else [];
    assert FilePaths(outputDir, chapters, written) == before + tail;
    if i < n {
      assert chapters[..n][i] == chapters[i];
      FilePathsComplete(outputDir, chapters[..n], written, i);
      InPrefix(ChapterPath(outputDir, i), before, tail);
    } else {
      InSuffix(ChapterPath(outputDir, i), before, tail);
    }
  }

  lemma InPrefix<T>(x: T, a: seq<T>, b: seq<T>)
    requires x in a
    ensures x in a + b
  {
  }

  lemma InSuffix<T>(x: T, a: seq<T>, b: seq<T>)
    requires b == [x]
    ensures x in a + b
  {
    assert (a + b)[|a|] == x;
  }

  ghost predicate NoRepeats(paths: seq<string>) {
    forall a, b :: 0 <= a < b < |paths| ==> paths[a] != paths[b]
  }

  /** No path appears twice. */
  lemma {:induction false} FilePathsDistinct(outputDir: string, chapters: seq<string>, written: (nat, string) -> bool)
    ensures NoRepeats(FilePaths(outputDir, chapters, written))
    decreases |chapters|
  {
    if chapters != [] {
      var n := |chapters| - 1;
      var before := FilePaths(outputDir, chapters[..n], written);
      FilePathsDistinct(outputDir, chapters[..n], written);
      if written(n, chapters[n]) {
        var q := ChapterPath(outputDir, n);
        if q in before {
          FilePathsSound(outputDir, chapters[..n], written, q);
          var i: nat :| i < n && q == ChapterPath(outputDir, i);
          ChapterPathInjective(outputDir, i, n);
          assert false;
        }
        var paths := before + [q];
        assert FilePaths(outputDir, chapters, written) == paths;
        forall a, b | 0 <= a < b < |paths| ensures paths[a] != paths[b] {
          if b == |before| {
            assert paths[a] == before[a];
          } else {
            assert paths[a] == before[a] && paths[b] == before[b];
          }
        }
      }
    }
  }

  /** A path holds no newline when the output directory holds none. */
  lemma JoinPathNoNewline(dir: string, name: string)
    requires '\n' !in dir && '\n' !in name
    ensures '\n' !in JoinPath(dir, name)
  {
    if !(|name| > 0 && name[0] == '/') && !(dir == [] || dir[|dir| - 1] == '/') {
      assert JoinPath(dir, name) == dir + "/" + name;
    }
  }

  /** When the output directory has no newline, the message lists exactly the
      written paths, one per line. */
  lemma {:induction false} BatchMessageLines(outputDir: string, chapters: seq<string>, written: (nat, string) -> bool)
    requires '\n' !in outputDir
    requires chapters != [] && FilePaths(outputDir, chapters, written) != []
    ensures SplitLines(BatchMessage(outputDir, chapters, written)) == FilePaths(outputDir, chapters, written)
  {
    var paths := FilePaths(outputDir, chapters, written);
    forall k | 0 <= k < |paths| ensures '\n' !in paths[k] {
      FilePathsSound(outputDir, chapters, written, paths[k]);
      var i: nat :| i < |chapters| && paths[k] == ChapterPath(outputDir, i);
      var name := ChapterFileName(i);
      assert '\n' !in NatToString(i + 1);
      assert '\n' !in name;
      JoinPathNoNewline(outputDir, name);
    }
    SplitJoinLines(paths);
  }
}
