/**
 * The code part of the diff (DiffUtils.AddedRemovedCodes, ModifiedCodes,
 * DiffCodes): added code is listed and decompiled, common code is compared
 * by its serialized bytes and, when those differ, diffed as text.
 */
module CodeDiff {
  import opened Base
  import opened Bytes
  import opened Assets
  import opened Classify
  import opened Output

  datatype Operation = Delete | Insert | Equal

  /** One span of a text diff (diff_match_patch.Diff). */
  datatype Diff = Diff(operation: Operation, text: string)

  /**
   * The foreign libraries the code diff calls: the burst-mode serializer, the
   * decompiler and disassembler of each data file (a failure carries the
   * exception message), diff_main and diff_prettyHtml.
   */
  datatype Collaborators = Collaborators(
    serialize: Code -> seq<byte>,
    decompile: (Side, Code) -> Result<string>,
    disassemble: (Side, Code) -> Result<string>,
    diffMain: (string, string) -> seq<Diff>,
    prettyHtml: seq<Diff> -> string)

  /** The decompiler failure after which no disassembly is attempted. */
  const NestedFunctionMessage := "This code block represents a function nested inside"

  /** A diff with no span, or with a single EQUAL span, reports nothing. */
  predicate NothingChanged(d: seq<Diff>)
  {
    |d| == 0 || (|d| == 1 && d[0].operation == Equal)
  }

  // ---------------------------------------------------------------- comparison

  /**
   * CompareUndertaleCode: serialize both entries into fresh byte arrays
   * (MemoryStream.ToArray) and compare them with UnsafeCompare.
   */
  method CompareUndertaleCode(serialize: Code -> seq<byte>, codeRef: Code, code: Code) returns (same: bool)
    ensures same <==> serialize(code) == serialize(codeRef)
  {
    var s := serialize(code);
    var bytes := new byte[|s|](k requires 0 <= k < |s| => s[k]);
    var sRef := serialize(codeRef);
    var bytesRef := new byte[|sRef|](k requires 0 <= k < |sRef| => sRef[k]);
    assert bytes[..] == s && bytesRef[..] == sRef;
    same := UnsafeCompare(bytes, bytesRef);
  }

  // ---------------------------------------------------------------- added and removed

  function AddedCodes(name: GameData, reference: GameData): seq<Code>
  {
    Except(name.code, reference.code, CodeName)
  }

  function RemovedCodes(name: GameData, reference: GameData): seq<Code>
  {
    Except(reference.code, name.code, CodeName)
  }

  function GmlPath(c: Code): FilePath
  {
    FilePath(AddedCodesDir, c.name + ".gml")
  }

  /** The `.gml` files written for `added`, one per entry that decompiles, in order. */
  function GmlWrites(ext: Collaborators, added: seq<Code>): seq<Write>
    decreases |added|
  {
    if added == [] then []
    else
      var c := added[|added| - 1];
      GmlWrites(ext, added[..|added| - 1])
      + match ext.decompile(NameSide, c)
        case Ok(text) => [WriteText(GmlPath(c), text)]
        case Err(_) => []
  }

  /** What AddedRemovedCodes writes, in order. */
  function AddedRemovedCodesWrites(ext: Collaborators, name: GameData, reference: GameData): seq<Write>
  {
    var added := AddedCodes(name, reference);
    [CreateDirectory(AddedCodesDir)]
    + GmlWrites(ext, added)
    + [WriteLines(FilePath(OutputRoot, "addedCodes.txt"), Keys(added, CodeName)),
       WriteLines(FilePath(OutputRoot, "removedCodes.txt"), Keys(RemovedCodes(name, reference), CodeName))]
  }

  /**
   * AddedRemovedCodes: every added code's name goes to `addedCodes.txt` (a
   * StreamWriter, whose lines reach the file when it is disposed); a `.gml` is
   * written for each added code that decompiles, and failures are swallowed.
   */
  method AddedRemovedCodes(ext: Collaborators, name: GameData, reference: GameData) returns (writes: seq<Write>)
    ensures writes == AddedRemovedCodesWrites(ext, name, reference)
  {
    writes := [CreateDirectory(AddedCodesDir)];
    var added := Except(name.code, reference.code, CodeName);
    var removed := Except(reference.code, name.code, CodeName);
    var lines: seq<string> := [];
    for j := 0 to |added|
      invariant lines == Keys(added[..j], CodeName)
      invariant writes == [CreateDirectory(AddedCodesDir)] + GmlWrites(ext, added[..j])
    {
      var code := added[j];
      assert added[..j + 1][..j] == added[..j];
      assert added[..j + 1] == added[..j] + [code];
      KeysSnoc(added[..j], code, CodeName);
      lines := lines + [code.name];
      match ext.decompile(NameSide, code) {
        case Ok(strCode) =>
          writes := writes + [WriteText(GmlPath(code), strCode)];
        case Err(_) =>
          // pass if failed
      }
    }
    assert added[..|added|] == added;
    writes := writes + [WriteLines(FilePath(OutputRoot, "addedCodes.txt"), lines),
                        WriteLines(FilePath(OutputRoot, "removedCodes.txt"), Keys(removed, CodeName))];
  }

  /**
   * A `.gml` write is exactly a decompiled added code: each write of
   * GmlWrites is the decompiled text of some entry, and each entry that
   * decompiles has its text written.
   */
  lemma {:induction false} GmlWritesSpec(ext: Collaborators, added: seq<Code>)
    ensures forall w :: w in GmlWrites(ext, added) <==>
      exists j :: 0 <= j < |added| && ext.decompile(NameSide, added[j]).Ok?
                  && w == WriteText(GmlPath(added[j]), ext.decompile(NameSide, added[j]).value)
    decreases |added|
  {
    if added != [] {
      var n := |added| - 1;
      var prefix := added[..n];
      GmlWritesSpec(ext, prefix);
      forall w | w in GmlWrites(ext, added)
        ensures exists j :: 0 <= j < |added| && ext.decompile(NameSide, added[j]).Ok?
                  && w == WriteText(GmlPath(added[j]), ext.decompile(NameSide, added[j]).value)
      {
        if w in GmlWrites(ext, prefix) {
          var j :| 0 <= j < |prefix| && ext.decompile(NameSide, prefix[j]).Ok?
                   && w == WriteText(GmlPath(prefix[j]), ext.decompile(NameSide, prefix[j]).value);
          assert prefix[j] == added[j];
        }
      }
      forall w | exists j :: 0 <= j < |added| && ext.decompile(NameSide, added[j]).Ok?
                  && w == WriteText(GmlPath(added[j]), ext.decompile(NameSide, added[j]).value)
        ensures w in GmlWrites(ext, added)
      {
        var j :| 0 <= j < |added| && ext.decompile(NameSide, added[j]).Ok?
                 && w == WriteText(GmlPath(added[j]), ext.decompile(NameSide, added[j]).value);
        if j < n {
          assert prefix[j] == added[j];
        }
      }
    }
  }

  /**
   * `addedCodes.txt` lists the added names as classified by name strings, and
   * its companion `removedCodes.txt` the removed ones.
   */
  lemma AddedRemovedCodesLists(ext: Collaborators, name: GameData, reference: GameData)
    ensures var w := AddedRemovedCodesWrites(ext, name, reference);
      && w[|w| - 2] == WriteLines(FilePath(OutputRoot, "addedCodes.txt"),
                                  Except(Keys(name.code, CodeName), Keys(reference.code, CodeName), Identity))
      && w[|w| - 1] == WriteLines(FilePath(OutputRoot, "removedCodes.txt"),
                                  Except(Keys(reference.code, CodeName), Keys(name.code, CodeName), Identity))
  {
    ClassifyByComparerIsByName(name.code, reference.code, CodeName);
    ClassifyByComparerIsByName(reference.code, name.code, CodeName);
  }

  /** A `.gml` exists for an added code exactly when it decompiles, holding the decompiled text. */
  lemma AddedCodesGml(ext: Collaborators, name: GameData, reference: GameData)
    ensures var added := AddedCodes(name, reference);
      forall j, text :: 0 <= j < |added| ==>
        (WriteText(GmlPath(added[j]), text) in AddedRemovedCodesWrites(ext, name, reference)
         <==> ext.decompile(NameSide, added[j]) == Ok(text))
  {
    var added := AddedCodes(name, reference);
    GmlWritesSpec(ext, added);
    forall j, text | 0 <= j < |added|
      ensures WriteText(GmlPath(added[j]), text) in AddedRemovedCodesWrites(ext, name, reference)
              <==> ext.decompile(NameSide, added[j]) == Ok(text)
    {
      var w := WriteText(GmlPath(added[j]), text);
      if w in GmlWrites(ext, added) {
        var i :| 0 <= i < |added| && ext.decompile(NameSide, added[i]).Ok?
                 && w == WriteText(GmlPath(added[i]), ext.decompile(NameSide, added[i]).value);
        SuffixInjective(added[i].name, added[j].name, ".gml");
        ExceptSpec(name.code, reference.code, CodeName);
        assert i == j;
      }
    }
  }

  // ---------------------------------------------------------------- modified

  function CommonCodes(name: GameData, reference: GameData): seq<Code>
  {
    Intersect(name.code, reference.code, CodeName)
  }

  /**
   * The codes ModifiedCodes visits: one per name both files share, the first
   * name-side code of that name, in name-side order.
   */
  lemma CommonCodesSpec(name: GameData, reference: GameData)
    ensures KeySet(CommonCodes(name, reference), CodeName) == KeySet(name.code, CodeName) * KeySet(reference.code, CodeName)
    ensures DistinctKeys(CommonCodes(name, reference), CodeName)
    ensures InFirstOccurrenceOrder(CommonCodes(name, reference), name.code, CodeName)
  {
    IntersectSpec(name.code, reference.code, CodeName);
  }

  /** The text pair the loop diffs: `strName` and `strRef`. */
  datatype CodeTexts = CodeTexts(name: string, ref: string)

  /** The message of the first decompiler failure of the try block, if any. */
  function DecompileFailure(ext: Collaborators, code: Code, codeRef: Code): Option<string>
  {
    match ext.decompile(NameSide, code)
    case Err(m) => Some(m)
    case Ok(_) =>
      match ext.decompile(RefSide, codeRef)
      case Err(m) => Some(m)
      case Ok(_) => None
  }

  /**
   * The disassembly fallback, from the texts `cur` left by the try block: no
   * attempt for a nested-function failure; otherwise each successful
   * disassembly replaces its text, and a failure leaves the rest as it was.
   */
  function Disassembled(ext: Collaborators, code: Code, codeRef: Code, cur: CodeTexts, message: string): CodeTexts
  {
    if Contains(message, NestedFunctionMessage) then cur
    else
      match ext.disassemble(NameSide, code)
      case Err(_) => cur
      case Ok(n) =>
        match ext.disassemble(RefSide, codeRef)
        case Err(_) => CodeTexts(n, cur.ref)
        case Ok(r) => CodeTexts(n, r)
  }

  /**
   * The texts after one pass of the decompile / disassemble chain, starting
   * from the texts `prev` left by earlier iterations.
   */
  function ComparableTexts(ext: Collaborators, code: Code, codeRef: Code, prev: CodeTexts): CodeTexts
  {
    match ext.decompile(NameSide, code)
    case Err(m) => Disassembled(ext, code, codeRef, prev, m)
    case Ok(n) =>
      match ext.decompile(RefSide, codeRef)
      case Ok(r) => CodeTexts(n, r)
      case Err(m) => Disassembled(ext, code, codeRef, CodeTexts(n, prev.ref), m)
  }

  function HtmlPath(c: Code): FilePath
  {
    FilePath(ModifiedCodesDir, c.name + ".html")
  }

  /** The writes of the loop so far and the texts it carries into the next iteration. */
  datatype LoopState = LoopState(writes: seq<Write>, texts: CodeTexts)

  predicate AllInReference(cs: seq<Code>, reference: seq<Code>)
  {
    forall j :: 0 <= j < |cs| ==> cs[j].name in KeySet(reference, CodeName)
  }

  /** One iteration of the ModifiedCodes loop for `code`, from the carried texts `prev`. */
  function CodeStep(ext: Collaborators, reference: seq<Code>, code: Code, prev: CodeTexts): LoopState
    requires code.name in KeySet(reference, CodeName)
  {
    var codeRef := First(reference, code.name, CodeName);
    if ext.serialize(code) == ext.serialize(codeRef) then LoopState([], prev)
    else
      var t := ComparableTexts(ext, code, codeRef, prev);
      var d := ext.diffMain(t.ref, t.name);
      if NothingChanged(d) then LoopState([], t)
      else LoopState([WriteText(HtmlPath(code), ext.prettyHtml(d))], t)
  }

  /** The ModifiedCodes loop run over `cs`, from the initial empty texts. */
  function ModifiedCodesRun(ext: Collaborators, reference: seq<Code>, cs: seq<Code>): LoopState
    requires AllInReference(cs, reference)
    decreases |cs|
  {
    if cs == [] then LoopState([], CodeTexts("", ""))
    else
      var before := ModifiedCodesRun(ext, reference, cs[..|cs| - 1]);
      var step := CodeStep(ext, reference, cs[|cs| - 1], before.texts);
      LoopState(before.writes + step.writes, step.texts)
  }

  /** What ModifiedCodes writes, in order. */
  function ModifiedCodesWrites(ext: Collaborators, name: GameData, reference: GameData): seq<Write>
  {
    var common := CommonCodes(name, reference);
    CommonHasPartner(name.code, reference.code, CodeName);
    [CreateDirectory(ModifiedCodesDir)] + ModifiedCodesRun(ext, reference.code, common).writes
  }

  /** The run over one more code is the run so far followed by that code's step. */
  lemma RunStep(ext: Collaborators, reference: seq<Code>, cs: seq<Code>, j: nat)
    requires j < |cs| && AllInReference(cs, reference)
    ensures AllInReference(cs[..j], reference) && AllInReference(cs[..j + 1], reference)
    ensures var before := ModifiedCodesRun(ext, reference, cs[..j]);
      var step := CodeStep(ext, reference, cs[j], before.texts);
      ModifiedCodesRun(ext, reference, cs[..j + 1]) == LoopState(before.writes + step.writes, step.texts)
  {
    assert cs[..j + 1][..j] == cs[..j];
  }

  /**
   * The try/catch block of ModifiedCodes: decompile both entries, and after a
   * failure whose message does not name a nested function, disassemble them;
   * each text is replaced only by a call that succeeds.
   */
  method DecompileOrDisassemble(ext: Collaborators, code: Code, codeRef: Code, name0: string, ref0: string)
    returns (strName: string, strRef: string)
    ensures CodeTexts(strName, strRef) == ComparableTexts(ext, code, codeRef, CodeTexts(name0, ref0))
  {
    strName, strRef := name0, ref0;
    var failure: Option<string> := None;
    match ext.decompile(NameSide, code) {
      case Ok(n) =>
        strName := n;
        match ext.decompile(RefSide, codeRef) {
          case Ok(r) =>
            strRef := r;
          case Err(m) =>
            failure := Some(m);
        }
      case Err(m) =>
        failure := Some(m);
    }
    if failure.Some? && !Contains(failure.value, NestedFunctionMessage) {
      match ext.disassemble(NameSide, code) {
        case Ok(n) =>
          strName := n;
          match ext.disassemble(RefSide, codeRef) {
            case Ok(r) =>
              strRef := r;
            case Err(_) =>
              // the exception is written to the console
          }
        case Err(_) =>
          // the exception is written to the console
      }
    }
  }

  /**
   * The loop of ModifiedCodes over the common codes `common`: for each, skip
   * it when its serialized bytes equal those of its reference partner;
   * otherwise decompile both (falling back to disassembly), diff the texts and
   * write `<name>.html` unless the diff shows no change. `strName` and
   * `strRef` live across iterations, starting from "".
   */
  method CommonCodesLoop(ext: Collaborators, reference: seq<Code>, common: seq<Code>) returns (reports: seq<Write>)
    requires AllInReference(common, reference)
    ensures reports == ModifiedCodesRun(ext, reference, common).writes
  {
    reports := [];
    var strName := "";
    var strRef := "";
    for j := 0 to |common|
      invariant reports == ModifiedCodesRun(ext, reference, common[..j]).writes
      invariant CodeTexts(strName, strRef) == ModifiedCodesRun(ext, reference, common[..j]).texts
    {
      var code := common[j];
      RunStep(ext, reference, common, j);
      var codeRef := First(reference, code.name, CodeName);
      ghost var before := ModifiedCodesRun(ext, reference, common[..j]);
      ghost var step := CodeStep(ext, reference, code, before.texts);
      // the source passes (code, codeRef) to the parameters (codeRef, code)
      var same := CompareUndertaleCode(ext.serialize, code, codeRef);
      if same {
        assert step == LoopState([], before.texts);
        assert before.writes + step.writes == before.writes;
        continue;
      }
      strName, strRef := DecompileOrDisassemble(ext, code, codeRef, strName, strRef);
      assert CodeTexts(strName, strRef) == step.texts;
      var diff := ext.diffMain(strRef, strName);
      if NothingChanged(diff) {
        assert step.writes == [];
        assert before.writes + step.writes == before.writes;
        continue;
      }
      var report := ext.prettyHtml(diff);
      assert step.writes == [WriteText(HtmlPath(code), report)];
      reports := reports + [WriteText(HtmlPath(code), report)];
    }
    assert common[..|common|] == common;
  }

  /**
   * ModifiedCodes: create the ModifiedCodes directory, then run the loop over
   * the codes whose names both data files share.
   */
  method ModifiedCodes(ext: Collaborators, name: GameData, reference: GameData) returns (writes: seq<Write>)
    ensures writes == ModifiedCodesWrites(ext, name, reference)
  {
    writes := [CreateDirectory(ModifiedCodesDir)];
    var common := Intersect(name.code, reference.code, CodeName);
    CommonHasPartner(name.code, reference.code, CodeName);
    var reports := CommonCodesLoop(ext, reference.code, common);
    writes := writes + reports;
  }

  /** The texts the loop carries into iteration `j`. */
  function TextsBefore(ext: Collaborators, reference: seq<Code>, cs: seq<Code>, j: nat): CodeTexts
    requires j <= |cs| && AllInReference(cs, reference)
  {
    ModifiedCodesRun(ext, reference, cs[..j]).texts
  }

  /** The diff iteration `j` computes when the serialized bytes differ. */
  function DiffAt(ext: Collaborators, reference: seq<Code>, cs: seq<Code>, j: nat): seq<Diff>
    requires j < |cs| && AllInReference(cs, reference)
  {
    var t := ComparableTexts(ext, cs[j], First(reference, cs[j].name, CodeName), TextsBefore(ext, reference, cs, j));
    ext.diffMain(t.ref, t.name)
  }

  /** Iteration `j` writes a report: the bytes differ and the diff shows a change. */
  predicate Reported(ext: Collaborators, reference: seq<Code>, cs: seq<Code>, j: nat)
    requires j < |cs| && AllInReference(cs, reference)
  {
    && ext.serialize(cs[j]) != ext.serialize(First(reference, cs[j].name, CodeName))
    && !NothingChanged(DiffAt(ext, reference, cs, j))
  }

  lemma PrefixRun(ext: Collaborators, reference: seq<Code>, cs: seq<Code>, j: nat)
    requires 0 < |cs| && j < |cs| && AllInReference(cs, reference)
    ensures AllInReference(cs[..|cs| - 1], reference)
    ensures j < |cs| - 1 ==> cs[..|cs| - 1][..j] == cs[..j]
    ensures j == |cs| - 1 ==> cs[..j] == cs[..|cs| - 1]
  {
  }

  /**
   * The loop writes only reports, each the rendered diff of one common code
   * whose serialized bytes differ from its partner's and whose diff shows a
   * change.
   */
  lemma {:induction false} ModifiedCodesSound(ext: Collaborators, reference: seq<Code>, cs: seq<Code>)
    requires AllInReference(cs, reference)
    ensures forall w :: w in ModifiedCodesRun(ext, reference, cs).writes ==>
      exists j :: 0 <= j < |cs| && Reported(ext, reference, cs, j)
                  && w == WriteText(HtmlPath(cs[j]), ext.prettyHtml(DiffAt(ext, reference, cs, j)))
    decreases |cs|
  {
    if cs != [] {
      var n := |cs| - 1;
      var prefix := cs[..n];
      PrefixRun(ext, reference, cs, n);
      ModifiedCodesSound(ext, reference, prefix);
      forall w | w in ModifiedCodesRun(ext, reference, cs).writes
        ensures exists j :: 0 <= j < |cs| && Reported(ext, reference, cs, j)
                  && w == WriteText(HtmlPath(cs[j]), ext.prettyHtml(DiffAt(ext, reference, cs, j)))
      {
        if w in ModifiedCodesRun(ext, reference, prefix).writes {
          var j :| 0 <= j < |prefix| && Reported(ext, reference, prefix, j)
                   && w == WriteText(HtmlPath(prefix[j]), ext.prettyHtml(DiffAt(ext, reference, prefix, j)));
          PrefixRun(ext, reference, cs, j);
          assert prefix[..j] == cs[..j];
          assert DiffAt(ext, reference, prefix, j) == DiffAt(ext, reference, cs, j);
        } else {
          assert Reported(ext, reference, cs, n);
        }
      }
    }
  }

  /**
   * For distinct names (as `Intersect` yields them), a `<name>.html` exists for
   * a common code exactly when its serialized bytes differ from its partner's
   * and the diff of the carried texts shows a change.
   */
  lemma ModifiedCodesComplete(ext: Collaborators, reference: seq<Code>, cs: seq<Code>)
    requires AllInReference(cs, reference)
    requires DistinctKeys(cs, CodeName)
    ensures forall j :: 0 <= j < |cs| ==>
      (Wrote(ModifiedCodesRun(ext, reference, cs).writes, HtmlPath(cs[j])) <==> Reported(ext, reference, cs, j))
  {
    forall j | 0 <= j < |cs|
      ensures Wrote(ModifiedCodesRun(ext, reference, cs).writes, HtmlPath(cs[j])) <==> Reported(ext, reference, cs, j)
    {
      ReportedIff(ext, reference, cs, j);
    }
  }

  /** One code of the loop: its report exists exactly when its iteration writes one. */
  lemma {:induction false} ReportedIff(ext: Collaborators, reference: seq<Code>, cs: seq<Code>, j: nat)
    requires j < |cs| && AllInReference(cs, reference)
    requires DistinctKeys(cs, CodeName)
    ensures Wrote(ModifiedCodesRun(ext, reference, cs).writes, HtmlPath(cs[j])) <==> Reported(ext, reference, cs, j)
    decreases |cs|
  {
    if j == |cs| - 1 {
      CompleteLast(ext, reference, cs);
    } else {
      var prefix := cs[..|cs| - 1];
      DistinctPrefix(cs);
      WroteEarlier(ext, reference, cs, j);
      ReportedPrefix(ext, reference, cs, j);
      ReportedIff(ext, reference, prefix, j);
    }
  }

  /**
   * For distinct names, whatever the loop writes to the report of the j-th
   * common code is the rendered diff of iteration j: no other iteration
   * writes (or overwrites) that file.
   */
  lemma ReportContents(ext: Collaborators, reference: seq<Code>, cs: seq<Code>, j: nat)
    requires j < |cs| && AllInReference(cs, reference)
    requires DistinctKeys(cs, CodeName)
    ensures forall w :: w in ModifiedCodesRun(ext, reference, cs).writes && w.WriteText? && w.path == HtmlPath(cs[j]) ==>
      w == WriteText(HtmlPath(cs[j]), ext.prettyHtml(DiffAt(ext, reference, cs, j)))
  {
    ModifiedCodesSound(ext, reference, cs);
    forall w | w in ModifiedCodesRun(ext, reference, cs).writes && w.WriteText? && w.path == HtmlPath(cs[j])
      ensures w == WriteText(HtmlPath(cs[j]), ext.prettyHtml(DiffAt(ext, reference, cs, j)))
    {
      var i :| 0 <= i < |cs| && Reported(ext, reference, cs, i)
               && w == WriteText(HtmlPath(cs[i]), ext.prettyHtml(DiffAt(ext, reference, cs, i)));
      SameReportPath(cs, i, j);
    }
  }

  /** Among codes with distinct names, only the code itself has its report path. */
  lemma SameReportPath(cs: seq<Code>, i: nat, j: nat)
    requires i < |cs| && j < |cs| && DistinctKeys(cs, CodeName)
    requires HtmlPath(cs[i]) == HtmlPath(cs[j])
    ensures i == j
  {
    HtmlPathNames(cs[i], cs[j]);
  }

  lemma DistinctPrefix(cs: seq<Code>)
    requires cs != [] && DistinctKeys(cs, CodeName)
    ensures DistinctKeys(cs[..|cs| - 1], CodeName)
  {
    var prefix := cs[..|cs| - 1];
    assert forall i :: 0 <= i < |prefix| ==> prefix[i] == cs[i];
  }

  /** The writes of the last iteration: at most the report of its own code. */
  lemma LastStep(ext: Collaborators, reference: seq<Code>, cs: seq<Code>)
    requires cs != [] && AllInReference(cs, reference)
    ensures AllInReference(cs[..|cs| - 1], reference)
    ensures var before := ModifiedCodesRun(ext, reference, cs[..|cs| - 1]);
      var step := CodeStep(ext, reference, cs[|cs| - 1], before.texts);
      && ModifiedCodesRun(ext, reference, cs).writes == before.writes + step.writes
      && (forall p :: Wrote(step.writes, p) ==> p == HtmlPath(cs[|cs| - 1]))
      && (Wrote(step.writes, HtmlPath(cs[|cs| - 1])) <==> Reported(ext, reference, cs, |cs| - 1))
  {
    var n := |cs| - 1;
    var before := ModifiedCodesRun(ext, reference, cs[..n]);
    assert TextsBefore(ext, reference, cs, n) == before.texts;
    var step := CodeStep(ext, reference, cs[n], before.texts);
    assert |step.writes| <= 1;
    assert step.writes != [] ==> step.writes[0].path == HtmlPath(cs[n]);
    assert step.writes != [] ==> Wrote(step.writes, HtmlPath(cs[n]));
  }

  /** The last iteration does not write the report of an earlier code (names are distinct). */
  lemma WroteEarlier(ext: Collaborators, reference: seq<Code>, cs: seq<Code>, j: nat)
    requires j < |cs| - 1 && AllInReference(cs, reference)
    requires DistinctKeys(cs, CodeName)
    ensures AllInReference(cs[..|cs| - 1], reference)
    ensures Wrote(ModifiedCodesRun(ext, reference, cs).writes, HtmlPath(cs[j]))
            <==> Wrote(ModifiedCodesRun(ext, reference, cs[..|cs| - 1]).writes, HtmlPath(cs[j]))
  {
    var n := |cs| - 1;
    LastStep(ext, reference, cs);
    var before := ModifiedCodesRun(ext, reference, cs[..n]);
    var step := CodeStep(ext, reference, cs[n], before.texts);
    WroteConcat(before.writes, step.writes, HtmlPath(cs[j]));
    assert CodeName(cs[j]) != CodeName(cs[n]);
    HtmlPathNames(cs[j], cs[n]);
  }

  /** An earlier iteration reports the same in the prefix run as in the whole run. */
  lemma ReportedPrefix(ext: Collaborators, reference: seq<Code>, cs: seq<Code>, j: nat)
    requires j < |cs| - 1 && AllInReference(cs, reference)
    ensures AllInReference(cs[..|cs| - 1], reference)
    ensures Reported(ext, reference, cs[..|cs| - 1], j) <==> Reported(ext, reference, cs, j)
  {
    var prefix := cs[..|cs| - 1];
    assert prefix[..j] == cs[..j];
    assert prefix[j] == cs[j];
    assert DiffAt(ext, reference, prefix, j) == DiffAt(ext, reference, cs, j);
  }

  lemma CompleteLast(ext: Collaborators, reference: seq<Code>, cs: seq<Code>)
    requires cs != [] && AllInReference(cs, reference)
    requires DistinctKeys(cs, CodeName)
    ensures Wrote(ModifiedCodesRun(ext, reference, cs).writes, HtmlPath(cs[|cs| - 1]))
            <==> Reported(ext, reference, cs, |cs| - 1)
  {
    var n := |cs| - 1;
    var prefix := cs[..n];
    LastStep(ext, reference, cs);
    RunWritesOwnPaths(ext, reference, prefix);
    var before := ModifiedCodesRun(ext, reference, prefix);
    var step := CodeStep(ext, reference, cs[n], before.texts);
    WroteConcat(before.writes, step.writes, HtmlPath(cs[n]));
    forall i | 0 <= i < n
      ensures HtmlPath(prefix[i]) != HtmlPath(cs[n])
    {
      assert prefix[i] == cs[i];
      HtmlPathNames(cs[i], cs[n]);
    }
  }

  lemma HtmlPathNames(a: Code, b: Code)
    ensures HtmlPath(a) == HtmlPath(b) ==> a.name == b.name
  {
    if HtmlPath(a) == HtmlPath(b) {
      SuffixInjective(a.name, b.name, ".html");
    }
  }

  /** Every file the loop writes is the report path of one of the codes it visited. */
  lemma RunWritesOwnPaths(ext: Collaborators, reference: seq<Code>, cs: seq<Code>)
    requires AllInReference(cs, reference)
    ensures forall p :: Wrote(ModifiedCodesRun(ext, reference, cs).writes, p) ==>
      exists i :: 0 <= i < |cs| && p == HtmlPath(cs[i])
  {
    var writes := ModifiedCodesRun(ext, reference, cs).writes;
    ModifiedCodesSound(ext, reference, cs);
    forall p | Wrote(writes, p)
      ensures exists i :: 0 <= i < |cs| && p == HtmlPath(cs[i])
    {
      var k :| 0 <= k < |writes| && (writes[k].WriteText? || writes[k].WriteLines?) && writes[k].path == p;
      assert writes[k] in writes;
    }
  }

  lemma WroteConcat(a: seq<Write>, b: seq<Write>, path: FilePath)
    ensures Wrote(a + b, path) <==> Wrote(a, path) || Wrote(b, path)
  {
    if Wrote(a + b, path) {
      var k :| 0 <= k < |a + b| && ((a + b)[k].WriteText? || (a + b)[k].WriteLines?) && (a + b)[k].path == path;
      if k >= |a| {
        assert b[k - |a|] == (a + b)[k];
      }
    }
    if Wrote(b, path) {
      var k :| 0 <= k < |b| && (b[k].WriteText? || b[k].WriteLines?) && b[k].path == path;
      assert (a + b)[k + |a|] == b[k];
    }
    if Wrote(a, path) {
      var k :| 0 <= k < |a| && (a[k].WriteText? || a[k].WriteLines?) && a[k].path == path;
      assert (a + b)[k] == a[k];
    }
  }

  /** Common codes whose serialized bytes are identical never produce a report. */
  lemma IdenticalBytesNeverReported(ext: Collaborators, name: GameData, reference: GameData, j: nat)
    requires j < |CommonCodes(name, reference)|
    requires var c := CommonCodes(name, reference)[j];
      c.name in KeySet(reference.code, CodeName)
      && ext.serialize(c) == ext.serialize(First(reference.code, c.name, CodeName))
    ensures !Wrote(ModifiedCodesWrites(ext, name, reference), HtmlPath(CommonCodes(name, reference)[j]))
  {
    var cs := CommonCodes(name, reference);
    CommonHasPartner(name.code, reference.code, CodeName);
    IntersectSpec(name.code, reference.code, CodeName);
    ModifiedCodesComplete(ext, reference.code, cs);
    WroteConcat([CreateDirectory(ModifiedCodesDir)], ModifiedCodesRun(ext, reference.code, cs).writes, HtmlPath(cs[j]));
  }

  /** A code diffed against itself: every common code is its own partner, so nothing is reported. */
  lemma ModifiedCodesSelf(ext: Collaborators, s: GameData)
    ensures ModifiedCodesWrites(ext, s, s) == [CreateDirectory(ModifiedCodesDir)]
  {
    var cs := CommonCodes(s, s);
    CommonHasPartner(s.code, s.code, CodeName);
    IntersectSpec(s.code, s.code, CodeName);
    SelfRunSilent(ext, s.code, cs);
  }

  lemma {:induction false} SelfRunSilent(ext: Collaborators, reference: seq<Code>, cs: seq<Code>)
    requires AllInReference(cs, reference)
    requires forall i :: 0 <= i < |cs| ==> cs[i] == reference[FirstIndex(reference, cs[i].name, CodeName)]
    ensures ModifiedCodesRun(ext, reference, cs).writes == []
    decreases |cs|
  {
    if cs != [] {
      var n := |cs| - 1;
      PrefixRun(ext, reference, cs, n);
      SelfRunSilent(ext, reference, cs[..n]);
      assert First(reference, cs[n].name, CodeName) == cs[n];
    }
  }

  /**
   * Disassembly is consulted only after a decompiler failure whose message
   * does not mention a nested function: when both decompilations succeed, or
   * the first failure is the nested-function one, any disassembler gives the
   * same texts.
   */
  lemma DisassemblyOnlyAfterOrdinaryFailure(ext: Collaborators, code: Code, codeRef: Code, prev: CodeTexts,
                                            other: (Side, Code) -> Result<string>)
    requires DecompileFailure(ext, code, codeRef).None?
             || Contains(DecompileFailure(ext, code, codeRef).value, NestedFunctionMessage)
    ensures ComparableTexts(ext, code, codeRef, prev) == ComparableTexts(ext.(disassemble := other), code, codeRef, prev)
  {
  }

  /**
   * When the name-side code neither decompiles nor disassembles, the texts
   * carried from the previous iteration are kept unchanged, so the diff of
   * that iteration is computed on them; before the first iteration both are "".
   */
  lemma StaleTextsOnTotalFailure(ext: Collaborators, reference: seq<Code>, cs: seq<Code>, j: nat)
    requires j < |cs| && AllInReference(cs, reference)
    requires ext.decompile(NameSide, cs[j]).Err?
    requires !Contains(ext.decompile(NameSide, cs[j]).message, NestedFunctionMessage)
    requires ext.disassemble(NameSide, cs[j]).Err?
    ensures TextsBefore(ext, reference, cs, 0) == CodeTexts("", "")
    ensures DiffAt(ext, reference, cs, j)
            == ext.diffMain(TextsBefore(ext, reference, cs, j).ref, TextsBefore(ext, reference, cs, j).name)
    ensures ext.serialize(cs[j]) != ext.serialize(First(reference, cs[j].name, CodeName))
            ==> TextsBefore(ext, reference, cs, j + 1) == TextsBefore(ext, reference, cs, j)
  {
    assert cs[..j + 1][..j] == cs[..j];
    assert cs[..0] == [];
  }

  /** DiffCodes: the added/removed part, then the modified part. */
  method DiffCodes(ext: Collaborators, name: GameData, reference: GameData) returns (writes: seq<Write>)
    ensures writes == AddedRemovedCodesWrites(ext, name, reference) + ModifiedCodesWrites(ext, name, reference)
  {
    var added := AddedRemovedCodes(ext, name, reference);
    var modified := ModifiedCodes(ext, name, reference);
    writes := added + modified;
  }
}
