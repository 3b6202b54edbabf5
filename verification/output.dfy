/**
 * The output folder as a trace of writes: each directory creation, text file,
 * list file and exported image is one event, in the order the run makes it.
 */
module Output {
  import opened Base
  import opened Assets

  /** The output folder and the sub-directories the diff creates in it. */
  datatype Dir = OutputRoot | AddedCodesDir | ModifiedCodesDir | AddedSpritesDir | ModifiedSpritesDir

  datatype FilePath = FilePath(dir: Dir, file: string)

  datatype Write =
    | CreateDirectory(dir: Dir)                                 // DirectoryInfo.Create
    | WriteLines(path: FilePath, lines: seq<string>)            // File.WriteAllLines, or a StreamWriter of lines
    | WriteText(path: FilePath, text: string)                   // File.WriteAllText
    | ExportPng(dir: Dir, sprite: string, frame: nat, item: PageItem)  // TextureWorker.ExportAsPNG
  {
    /** The file an image export writes: `<sprite>_<frame>.png`. */
    function PngPath(): FilePath
      requires ExportPng?
    {
      FilePath(dir, sprite + "_" + NatToString(frame) + ".png")
    }
  }

  /** Some write in the trace targets `path`. */
  predicate Wrote(writes: seq<Write>, path: FilePath)
  {
    exists k :: 0 <= k < |writes| && (writes[k].WriteText? || writes[k].WriteLines?) && writes[k].path == path
  }

  /** ExportDiffs: the added and removed names of one kind as `added<Kind>.txt` and `removed<Kind>.txt`. */
  function ExportDiffs(added: seq<string>, removed: seq<string>, kind: string): seq<Write>
  {
    [WriteLines(FilePath(OutputRoot, "added" + kind + ".txt"), added),
     WriteLines(FilePath(OutputRoot, "removed" + kind + ".txt"), removed)]
  }

  /** Appending the same suffix to two names gives the same file only for the same name. */
  lemma SuffixInjective(a: string, b: string, suffix: string)
    requires a + suffix == b + suffix
    ensures a == b
  {
    assert |a| == |b|;
    assert a == (a + suffix)[..|a|];
    assert b == (b + suffix)[..|b|];
  }

  /**
   * Two image exports of the same sprite into the same directory go to the
   * same `<sprite>_<frame>.png` exactly when they are of the same frame.
   */
  lemma PngPathFrame(a: Write, b: Write)
    requires a.ExportPng? && b.ExportPng? && a.dir == b.dir && a.sprite == b.sprite
    ensures a.PngPath() == b.PngPath() <==> a.frame == b.frame
  {
    if a.PngPath() == b.PngPath() {
      var p := a.sprite + "_";
      var x := NatToString(a.frame);
      var y := NatToString(b.frame);
      SuffixInjective(p + x, p + y, ".png");
      assert x == (p + x)[|p|..];
      assert y == (p + y)[|p|..];
    }
  }

  /** `added<a>.txt` and `removed<b>.txt` are different files, and so are the lists of two different kinds. */
  lemma ListFileNames(a: string, b: string)
    ensures "added" + a + ".txt" != "removed" + b + ".txt"
    ensures "added" + a + ".txt" == "added" + b + ".txt" ==> a == b
    ensures "removed" + a + ".txt" == "removed" + b + ".txt" ==> a == b
  {
    assert ("added" + a + ".txt")[0] == 'a';
    assert ("removed" + b + ".txt")[0] == 'r';
    if "added" + a + ".txt" == "added" + b + ".txt" {
      SuffixInjective("added" + a, "added" + b, ".txt");
      assert a == ("added" + a)[5..] && b == ("added" + b)[5..];
    }
    if "removed" + a + ".txt" == "removed" + b + ".txt" {
      SuffixInjective("removed" + a, "removed" + b, ".txt");
      assert a == ("removed" + a)[7..] && b == ("removed" + b)[7..];
    }
  }

  /**
   * ExportDiffs writes its two lists to two different files of the output
   * folder, and the list files of two different kinds never coincide, so no
   * kind's lists overwrite another's.
   */
  lemma ExportDiffsFiles(added: seq<string>, removed: seq<string>, kind: string,
                         added2: seq<string>, removed2: seq<string>, kind2: string)
    ensures var w := ExportDiffs(added, removed, kind);
      && w[0] == WriteLines(FilePath(OutputRoot, "added" + kind + ".txt"), added)
      && w[1] == WriteLines(FilePath(OutputRoot, "removed" + kind + ".txt"), removed)
      && w[0].path != w[1].path
    ensures kind != kind2 ==>
      forall k, l :: 0 <= k < 2 && 0 <= l < 2 ==>
        ExportDiffs(added, removed, kind)[k].path != ExportDiffs(added2, removed2, kind2)[l].path
  {
    ListFileNames(kind, kind);
    ListFileNames(kind, kind2);
    ListFileNames(kind2, kind);
  }
}
