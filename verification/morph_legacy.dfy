/**
 * The older, stand-alone morph driver: it keeps its own seven-word action
 * tables, a worker that cannot open a file or load an image returns
 * FAILURE, and return codes are the morph interface's own ten-value
 * `ReturnCode`.
 */
module MorphLegacy {
  import opened Wrappers
  import Util
  import Pool
  import Workers
  import Morph

  /** The driver's own `Action` enumeration, in declaration order. */
  datatype Action =
    | DetectNonScannedMorph | DetectScannedMorph | DetectUnknownMorph
    | DetectNonScannedMorphWithProbeImg | DetectScannedMorphWithProbeImg | DetectUnknownMorphWithProbeImg
    | Compare

  /** The `mapActionToString` table. */
  function ActionName(a: Action): string {
    match a
    case DetectNonScannedMorph => "detectNonScannedMorph"
    case DetectScannedMorph => "detectScannedMorph"
    case DetectUnknownMorph => "detectUnknownMorph"
    case DetectNonScannedMorphWithProbeImg => "detectNonScannedMorphWithProbeImg"
    case DetectScannedMorphWithProbeImg => "detectScannedMorphWithProbeImg"
    case DetectUnknownMorphWithProbeImg => "detectUnknownMorphWithProbeImg"
    case Compare => "compare"
  }

  /** The `mapStringToAction` table, looked up without inserting: `None` for a word it lacks. */
  function ParseAction(s: string): Option<Action> {
    if s == "detectNonScannedMorph" then Some(DetectNonScannedMorph)
    else if s == "detectScannedMorph" then Some(DetectScannedMorph)
    else if s == "detectUnknownMorph" then Some(DetectUnknownMorph)
    else if s == "detectNonScannedMorphWithProbeImg" then Some(DetectNonScannedMorphWithProbeImg)
    else if s == "detectScannedMorphWithProbeImg" then Some(DetectScannedMorphWithProbeImg)
    else if s == "detectUnknownMorphWithProbeImg" then Some(DetectUnknownMorphWithProbeImg)
    else if s == "compare" then Some(Compare)
    else None
  }

  /** The two tables are inverse bijections over the same seven words. */
  lemma ActionTablesInverse(a: Action, s: string)
    ensures ParseAction(ActionName(a)) == Some(a)
    ensures ParseAction(s).Some? ==> ActionName(ParseAction(s).value) == s
    ensures ParseAction(s).Some? <==> exists b :: ActionName(b) == s
  {
    if ParseAction(s).Some? {
      assert ActionName(ParseAction(s).value) == s;
    }
  }

  /** The action of the shared harness with the same name. */
  function Common(a: Action): Util.Action {
    match a
    case DetectNonScannedMorph => Util.DetectNonScannedMorph
    case DetectScannedMorph => Util.DetectScannedMorph
    case DetectUnknownMorph => Util.DetectUnknownMorph
    case DetectNonScannedMorphWithProbeImg => Util.DetectNonScannedMorphWithProbeImg
    case DetectScannedMorphWithProbeImg => Util.DetectScannedMorphWithProbeImg
    case DetectUnknownMorphWithProbeImg => Util.DetectUnknownMorphWithProbeImg
    case Compare => Util.Compare
  }

  /** The local tables spell every action as the shared harness's tables do. */
  lemma NamesAgreeWithCommon(a: Action)
    ensures ActionName(a) == Util.ActionName(Common(a))
    ensures Util.ParseAction(ActionName(a)) == Some(Common(a))
  {
    assert ActionName(a) == Util.ActionName(Common(a));
    Util.ActionTablesInverse(Common(a), Util.ActionName(Common(a)));
  }

  /** The morph interface's `ReturnCode`, in declaration order. */
  datatype ReturnCode =
    | Success | ConfigError | RefuseInput | ExtractError | ParseError
    | MatchError | FaceDetectionError | MemoryError | NotImplemented | VendorError

  /** The integer a code is stored as, which is what the logs print. */
  function CodeValue(c: ReturnCode): (n: nat)
    ensures n < 10
  {
    match c
    case Success => 0
    case ConfigError => 1
    case RefuseInput => 2
    case ExtractError => 3
    case ParseError => 4
    case MatchError => 5
    case FaceDetectionError => 6
    case MemoryError => 7
    case NotImplemented => 8
    case VendorError => 9
  }

  /** Distinct codes print as distinct integers, so a logged row never reads as NotImplemented's 8. */
  lemma CodeValueInjective(c: ReturnCode, d: ReturnCode)
    ensures CodeValue(c) == CodeValue(d) ==> c == d
    ensures CodeValue(c) == 8 <==> c == NotImplemented
  {
  }

  predicate IsDetect(a: Action) {
    a != Compare
  }

  /**
   * How a detect action runs. The label comes from `getLabel`, which is not
   * part of this model; it is taken to follow the action's name, as the
   * shared harness's `mapActionToMorphLabel` does.
   */
  function ModeOf(a: Action): (m: Morph.Mode)
    requires IsDetect(a)
    ensures m.differential <==> a in {DetectNonScannedMorphWithProbeImg, DetectScannedMorphWithProbeImg,
                                      DetectUnknownMorphWithProbeImg}
  {
    match a
    case DetectNonScannedMorph => Morph.Mode(Morph.NonScanned, false)
    case DetectScannedMorph => Morph.Mode(Morph.Scanned, false)
    case DetectUnknownMorph => Morph.Mode(Morph.Unknown, false)
    case DetectNonScannedMorphWithProbeImg => Morph.Mode(Morph.NonScanned, true)
    case DetectScannedMorphWithProbeImg => Morph.Mode(Morph.Scanned, true)
    case DetectUnknownMorphWithProbeImg => Morph.Mode(Morph.Unknown, true)
  }

  // --------------------------------------------- the action word, as written

  /**
   * `mapStringToAction[actionstr]` as written: `operator[]` inserts a
   * value-initialised `Action` for a word the table lacks, and that is the
   * first enumerator, DetectNonScannedMorph.
   */
  function LookupAction(s: string): (a: Action)
    ensures ParseAction(s).Some? ==> a == ParseAction(s).value
    ensures ParseAction(s).None? ==> a == DetectNonScannedMorph
  {
    match ParseAction(s)
    case Some(a) => a
    case None => DetectNonScannedMorph
  }

  /**
   * An unknown word never reaches the switch's usage branch: it is run as
   * DetectNonScannedMorph, as any word the table lacks would be.
   */
  lemma UnknownWordRunsDetection(s: string)
    requires ParseAction(s).None?
    ensures LookupAction(s) == DetectNonScannedMorph
    ensures ParseAction("detect").None? && LookupAction("detect") == DetectNonScannedMorph
  {
  }

  // ------------------------------------------------- the header, as written

  /**
   * The header `detectMorph` writes as written: the `else if` that picks the
   * five-column header leaves out DetectUnknownMorphWithProbeImg, whose log
   * then has no header line.
   */
  function HeaderAsWritten(a: Action): (h: Option<seq<string>>)
    requires IsDetect(a)
    ensures h.None? <==> a == DetectUnknownMorphWithProbeImg
  {
    if a in {DetectNonScannedMorph, DetectScannedMorph, DetectUnknownMorph} then
      Some(["image", "isMorph", "score", "returnCode"])
    else if a in {DetectNonScannedMorphWithProbeImg, DetectScannedMorphWithProbeImg} then
      Some(["image", "probeImage", "isMorph", "score", "returnCode"])
    else None
  }

  /**
   * The rows of a DetectUnknownMorphWithProbeImg run print the probe image
   * and so five fields, yet no header line names them.
   */
  lemma HeaderlessProbeRows(line: string, disk: Workers.Disk, r: Morph.DetectAnswer<ReturnCode>)
    requires Morph.Loads(line, ModeOf(DetectUnknownMorphWithProbeImg), disk)
    ensures HeaderAsWritten(DetectUnknownMorphWithProbeImg).None?
    ensures var row := Morph.DetectRowOf(line, ModeOf(DetectUnknownMorphWithProbeImg), disk, r);
      row.probeImage.Some? && Morph.RowWidth(row) == 5
  {
  }

  /** The header every detect action evidently should write: one column per field of its rows. */
  function Header(a: Action): (h: seq<string>)
    requires IsDetect(a)
    ensures forall line, disk, r: Morph.DetectAnswer<ReturnCode> | Morph.Loads(line, ModeOf(a), disk) ::
      Morph.RowWidth(Morph.DetectRowOf(line, ModeOf(a), disk, r)) == |h| &&
      (h[1] == "probeImage" <==> Morph.DetectRowOf(line, ModeOf(a), disk, r).probeImage.Some?)
    ensures a != DetectUnknownMorphWithProbeImg ==> HeaderAsWritten(a) == Some(h)
  {
    Morph.DetectColumns(ModeOf(a))
  }

  // ---------------------------------------------------------------- workers

  /**
   * `detectMorph` for detect action `a`, with the header of `Header`: a
   * file that does not open or an image that does not load returns
   * FAILURE. Every logged row has as many fields as the header has
   * columns, and none carries NotImplemented.
   */
  method DetectMorph(a: Action, input: Option<seq<string>>, logOpens: bool, unset: ReturnCode,
                     disk: Workers.Disk, detect: nat -> Morph.DetectAnswer<ReturnCode>)
    returns (end: Pool.WorkerEnd, log: Option<Morph.Log<Morph.DetectRow<ReturnCode>>>,
             inputRemoved: bool, calls: seq<Morph.MorphCall>)
    requires IsDetect(a)
    ensures input.None? || !logOpens ==> end == Pool.Returned(Pool.FAILURE) && log.None? && !inputRemoved && calls == []
    ensures input.Some? && logOpens ==>
      Morph.DetectOutcome(input.value, Some(Header(a)), ModeOf(a), Pool.Returned(Pool.FAILURE),
                          NotImplemented, unset, disk, detect, end, log, inputRemoved, calls)
    ensures end == Pool.Returned(Pool.FAILURE) <==> !inputRemoved
    ensures log.Some? ==> log.value.header == Some(Header(a))
    ensures log.Some? ==> forall j :: 0 <= j < |log.value.rows| ==>
      Morph.RowWidth(log.value.rows[j]) == |Header(a)| && log.value.rows[j].returnCode != NotImplemented
  {
    var mode := ModeOf(a);
    var header := Some(Header(a));
    end, log, inputRemoved, calls :=
      Morph.DetectWorker(input, logOpens, header, mode, Pool.Returned(Pool.FAILURE), NotImplemented, unset, disk, detect);
    if input.Some? && logOpens {
      Morph.DetectLog(input.value, header, mode, Pool.Returned(Pool.FAILURE), NotImplemented, unset, disk, detect,
                      end, log, inputRemoved, calls);
    }
  }

  /** `compare`: a file that does not open or an image that does not load returns FAILURE. */
  method CompareWorker(input: Option<string>, logOpens: bool, unset: ReturnCode,
                      disk: Workers.Disk, compare: nat -> Morph.CompareAnswer<ReturnCode>)
    returns (end: Pool.WorkerEnd, log: Option<Morph.Log<Morph.CompareRow<ReturnCode>>>,
             inputRemoved: bool, calls: seq<Morph.MorphCall>)
    ensures input.None? || !logOpens ==> end == Pool.Returned(Pool.FAILURE) && log.None? && !inputRemoved && calls == []
    ensures input.Some? && logOpens ==>
      Morph.CompareOutcome(Morph.ComparePairs(input.value), Pool.Returned(Pool.FAILURE), NotImplemented, unset,
                           disk, compare, end, log, inputRemoved, calls)
    ensures end == Pool.Returned(Pool.FAILURE) <==> !inputRemoved
    ensures log.Some? ==> forall j :: 0 <= j < |log.value.rows| ==> log.value.rows[j].returnCode != NotImplemented
  {
    end, log, inputRemoved, calls :=
      Morph.CompareWorker(input, logOpens, Pool.Returned(Pool.FAILURE), NotImplemented, unset, disk, compare);
    if input.Some? && logOpens {
      Morph.CompareLog(Morph.ComparePairs(input.value), Pool.Returned(Pool.FAILURE), NotImplemented, unset,
                       disk, compare, end, log, inputRemoved, calls);
    }
  }

  // ------------------------------------------------------------------- main

  /**
   * `main`, once the arguments are in hand, with the action word read as
   * evidently intended: a word the table lacks ends in the usage message
   * and EXIT_FAILURE. A failed initialisation or split ends in FAILURE;
   * otherwise the last worker reaped decides.
   */
  method Run(command: string, initOk: bool, split: Option<seq<string>>, numForks: int,
             workerEnds: seq<Pool.WorkerEnd>)
    returns (exitStatus: int)
    requires split.Some? ==> |workerEnds| == if numForks > 0 then numForks else 0
    ensures ParseAction(command).None? || !initOk || split.None? ==> exitStatus == Pool.FAILURE
    ensures ParseAction(command).Some? && initOk && split.Some? ==>
      exitStatus == if workerEnds == [] then Pool.SUCCESS
                    else match workerEnds[|workerEnds| - 1]
                      case Returned(v) => Pool.ExitStatus(v)
                      case Killed => Pool.FAILURE
  {
    var action := ParseAction(command);
    if action.None? {
      return Pool.FAILURE;
    }
    if !initOk || split.None? {
      return Pool.FAILURE;
    }
    exitStatus := Pool.LastWinsExit(numForks, workerEnds);
  }
}
