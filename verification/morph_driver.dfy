/**
 * The morph test driver built on the shared harness utilities: its action
 * words are the common table's, a worker that cannot open a file or load
 * an image raises SIGTERM, and return codes are the common `ReturnCode`.
 */
module MorphDriver {
  import opened Wrappers
  import Structs
  import Util
  import Pool
  import Workers
  import Morph

  /** The six detect actions. */
  predicate IsDetectAction(a: Util.Action) {
    a in {Util.DetectNonScannedMorph, Util.DetectScannedMorph, Util.DetectUnknownMorph,
          Util.DetectNonScannedMorphWithProbeImg, Util.DetectScannedMorphWithProbeImg,
          Util.DetectUnknownMorphWithProbeImg}
  }

  /**
   * The action `main` runs for its first argument: `mapStringToAction[s]`
   * yields CreateTemplate for a word it does not know, and the switch
   * sends everything but the seven morph actions to the usage message.
   */
  function ParseCommand(s: string): (r: Option<Util.Action>)
    ensures r.Some? <==> s in {"detectNonScannedMorph", "detectScannedMorph", "detectUnknownMorph",
                               "detectNonScannedMorphWithProbeImg", "detectScannedMorphWithProbeImg",
                               "detectUnknownMorphWithProbeImg", "compare"}
    ensures r.Some? ==> Util.ActionName(r.value) == s && (IsDetectAction(r.value) || r.value == Util.Compare)
  {
    var a := Util.LookupAction(s);
    if IsDetectAction(a) || a == Util.Compare then Some(a) else None
  }

  /** How a detect action runs: its `mapActionToMorphLabel` entry, and whether it reads a probe image. */
  function ModeOf(a: Util.Action): Morph.Mode
    requires IsDetectAction(a)
  {
    match a
    case DetectNonScannedMorph => Morph.Mode(Morph.NonScanned, false)
    case DetectScannedMorph => Morph.Mode(Morph.Scanned, false)
    case DetectUnknownMorph => Morph.Mode(Morph.Unknown, false)
    case DetectNonScannedMorphWithProbeImg => Morph.Mode(Morph.NonScanned, true)
    case DetectScannedMorphWithProbeImg => Morph.Mode(Morph.Scanned, true)
    case DetectUnknownMorphWithProbeImg => Morph.Mode(Morph.Unknown, true)
  }

  /**
   * The six detect actions and the six modes correspond one to one: every
   * label is run with and without a probe image, each by one action.
   */
  lemma ModesOneToOne(a: Util.Action, b: Util.Action, m: Morph.Mode)
    requires IsDetectAction(a) && IsDetectAction(b)
    ensures ModeOf(a) == ModeOf(b) ==> a == b
    ensures exists c :: IsDetectAction(c) && ModeOf(c) == m
  {
    var c := match m.kind
      case NonScanned => if m.differential then Util.DetectNonScannedMorphWithProbeImg else Util.DetectNonScannedMorph
      case Scanned => if m.differential then Util.DetectScannedMorphWithProbeImg else Util.DetectScannedMorph
      case Unknown => if m.differential then Util.DetectUnknownMorphWithProbeImg else Util.DetectUnknownMorph;
    assert IsDetectAction(c) && ModeOf(c) == m;
  }

  /**
   * `detectMorph` for detect action `a`: the header names the columns of
   * the action's mode, and a file that does not open or an image that does
   * not load kills the worker. Every logged row has as many fields as the
   * header has columns.
   */
  method DetectMorph(a: Util.Action, input: Option<seq<string>>, logOpens: bool, unset: Structs.ReturnCode,
                     disk: Workers.Disk, detect: nat -> Morph.DetectAnswer<Structs.ReturnCode>)
    returns (end: Pool.WorkerEnd, log: Option<Morph.Log<Morph.DetectRow<Structs.ReturnCode>>>,
             inputRemoved: bool, calls: seq<Morph.MorphCall>)
    requires IsDetectAction(a)
    ensures input.None? || !logOpens ==> end == Pool.Killed && log.None? && !inputRemoved && calls == []
    ensures input.Some? && logOpens ==>
      Morph.DetectOutcome(input.value, Some(Morph.DetectColumns(ModeOf(a))), ModeOf(a), Pool.Killed,
                          Structs.NotImplemented, unset, disk, detect, end, log, inputRemoved, calls)
    ensures end.Returned? ==> (log.None? <==> end.value == Pool.NOT_IMPLEMENTED) && inputRemoved
    ensures log.Some? ==> log.value.header == Some(Morph.DetectColumns(ModeOf(a)))
    ensures log.Some? ==> forall j :: 0 <= j < |log.value.rows| ==>
      Morph.RowWidth(log.value.rows[j]) == |Morph.DetectColumns(ModeOf(a))| &&
      log.value.rows[j].returnCode != Structs.NotImplemented
  {
    var mode := ModeOf(a);
    var header := Some(Morph.DetectColumns(mode));
    end, log, inputRemoved, calls :=
      Morph.DetectWorker(input, logOpens, header, mode, Pool.Killed, Structs.NotImplemented, unset, disk, detect);
    if input.Some? && logOpens {
      Morph.DetectLog(input.value, header, mode, Pool.Killed, Structs.NotImplemented, unset, disk, detect,
                      end, log, inputRemoved, calls);
    }
  }

  /**
   * `compare`: a file that does not open or an image that does not load
   * kills the worker.
   */
  method Compare(input: Option<string>, logOpens: bool, unset: Structs.ReturnCode,
                 disk: Workers.Disk, compare: nat -> Morph.CompareAnswer<Structs.ReturnCode>)
    returns (end: Pool.WorkerEnd, log: Option<Morph.Log<Morph.CompareRow<Structs.ReturnCode>>>,
             inputRemoved: bool, calls: seq<Morph.MorphCall>)
    ensures input.None? || !logOpens ==> end == Pool.Killed && log.None? && !inputRemoved && calls == []
    ensures input.Some? && logOpens ==>
      Morph.CompareOutcome(Morph.ComparePairs(input.value), Pool.Killed, Structs.NotImplemented, unset,
                           disk, compare, end, log, inputRemoved, calls)
    ensures end.Returned? ==> (log.None? <==> end.value == Pool.NOT_IMPLEMENTED) && inputRemoved
    ensures log.Some? ==> forall j :: 0 <= j < |log.value.rows| ==> log.value.rows[j].returnCode != Structs.NotImplemented
  {
    end, log, inputRemoved, calls :=
      Morph.CompareWorker(input, logOpens, Pool.Killed, Structs.NotImplemented, unset, disk, compare);
    if input.Some? && logOpens {
      Morph.CompareLog(Morph.ComparePairs(input.value), Pool.Killed, Structs.NotImplemented, unset, disk, compare,
                       end, log, inputRemoved, calls);
    }
  }

  /** The `frvt_structs.h` version this driver expects. */
  const StructsVersion: (int, int) := (1, 1)

  /** The morph API version this driver expects. */
  const ApiVersion: (int, int) := (2, 0)

  /**
   * `main`, once the arguments are in hand: the library's header versions,
   * whether `initialize` succeeded, how `splitInputFile` ended, and how
   * the forked workers ended in the order they are reaped. A version
   * mismatch, an unknown action word, a failed initialisation or split
   * end in FAILURE; a split that divides by zero (no lines, or `-t 0`)
   * kills the process with SIGFPE; otherwise the last worker reaped decides.
   */
  method Run(command: string, structsVersion: (int, int), apiVersion: (int, int), initOk: bool,
             split: Util.SplitStatus, numForks: int, workerEnds: seq<Pool.WorkerEnd>)
    returns (end: Pool.WorkerEnd)
    requires split == Util.SplitSuccess ==> |workerEnds| == if numForks > 0 then numForks else 0
    ensures structsVersion != StructsVersion || apiVersion != ApiVersion ==> end == Pool.Returned(Pool.FAILURE)
    ensures ParseCommand(command).None? || !initOk || split == Util.SplitFailure ==> end == Pool.Returned(Pool.FAILURE)
    ensures (structsVersion == StructsVersion && apiVersion == ApiVersion &&
             ParseCommand(command).Some? && initOk && split == Util.DivisionByZero) ==>
      end == Pool.Killed
    ensures (structsVersion == StructsVersion && apiVersion == ApiVersion &&
             ParseCommand(command).Some? && initOk && split == Util.SplitSuccess) ==>
      end == Pool.Returned(if workerEnds == [] then Pool.SUCCESS
                           else match workerEnds[|workerEnds| - 1]
                             case Returned(v) => Pool.ExitStatus(v)
                             case Killed => Pool.FAILURE)
  {
    if structsVersion != StructsVersion || apiVersion != ApiVersion {
      return Pool.Returned(Pool.FAILURE);
    }
    var action := ParseCommand(command);
    if action.None? {
      return Pool.Returned(Pool.FAILURE);
    }
    if !initOk || split == Util.SplitFailure {
      return Pool.Returned(Pool.FAILURE);
    }
    if split == Util.DivisionByZero {
      return Pool.Killed;
    }
    var status := Pool.LastWinsExit(numForks, workerEnds);
    end := Pool.Returned(status);
  }
}
