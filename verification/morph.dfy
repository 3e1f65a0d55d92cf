/**
 * What the two morph drivers share: the detect worker, which reads one
 * line per image (two images per line for the differential actions), and
 * the compare worker, which reads image pairs word by word. Both stop at
 * the first call the implementation does not implement, delete their log
 * and return NOT_IMPLEMENTED.
 *
 * The drivers differ in how a worker ends when a file does not open or an
 * image does not load (a signal in one, FAILURE in the other), in the
 * header line of some logs, and in how return codes are numbered; those
 * are parameters here. `C` is the driver's return-code type and
 * `notImplemented` its NotImplemented code.
 */
module Morph {
  import opened Wrappers
  import Structs
  import Text
  import Util
  import Pool
  import Workers
  import Decimal

  /** The kind of image a detect call is told it gets. */
  datatype MorphLabel = NonScanned | Scanned | Unknown

  /** How a detect worker runs: the label it passes (`kind`), and whether each line names a probe image as well. */
  datatype Mode = Mode(kind: MorphLabel, differential: bool)

  /**
   * What one detect call returns: its code, and the `isMorph` flag and
   * score it wrote, `None` when it left them as they were.
   */
  datatype DetectAnswer<C> = DetectAnswer(code: C, isMorph: Option<bool>, score: Option<real>)

  /** What one compare call returns: its code and the similarity it wrote, if any. */
  datatype CompareAnswer<C> = CompareAnswer(code: C, similarity: Option<real>)

  /** The calls a worker makes on the implementation. */
  datatype MorphCall =
    | DetectMorph(image: Structs.Image, kind: MorphLabel)
    | DetectMorphDifferentially(image: Structs.Image, kind: MorphLabel, probe: Structs.Image)
    | CompareImages(enroll: Structs.Image, verif: Structs.Image)

  /** One row of a detect log: `image [probeImage] isMorph score returnCode`. */
  datatype DetectRow<C> = DetectRow(image: string, probeImage: Option<string>, isMorph: bool, score: real, returnCode: C)

  /** One row of a compare log: `enrollImage verifImage score returnCode`. */
  datatype CompareRow<C> = CompareRow(enrollImage: string, verifImage: string, score: real, returnCode: C)

  /** A log file: the header line's column names, if a header was written, and the rows. */
  datatype Log<R> = Log(header: Option<seq<string>>, rows: seq<R>)

  /** The score and similarity a worker logs when the implementation leaves it unset. */
  const UnsetScore: real := -1.0

  /** An output parameter after the call: what the call wrote, or its initial value `unset`. */
  function Written<T>(o: Option<T>, unset: T): T {
    if o.Some? then o.value else unset
  }

  /** The columns of a detect log's header. */
  function DetectColumns(mode: Mode): (cols: seq<string>)
    ensures |cols| == if mode.differential then 5 else 4
    ensures cols[0] == "image" && cols[|cols| - 1] == "returnCode"
  {
    if mode.differential then ["image", "probeImage", "isMorph", "score", "returnCode"]
    else ["image", "isMorph", "score", "returnCode"]
  }

  /** The columns of a compare log's header. */
  const CompareColumns: seq<string> := ["enrollImage", "verifImage", "score", "returnCode"]

  /** The number of fields a detect row prints. */
  function RowWidth<C>(row: DetectRow<C>): nat {
    if row.probeImage.Some? then 5 else 4
  }

  // ---------------------------------------------------------------- detect

  /**
   * The images of a line load: its first word, and for a differential run
   * its second word as well. A differential line with one word has no
   * second word to load and counts as one that does not load.
   */
  predicate Loads(line: string, mode: Mode, disk: Workers.Disk) {
    var imgs := Util.SpaceWords(line);
    imgs[0] in disk && (mode.differential ==> |imgs| >= 2 && imgs[1] in disk)
  }

  /** The call a loading line makes. */
  function DetectCallOf(line: string, mode: Mode, disk: Workers.Disk): (c: MorphCall)
    requires Loads(line, mode, disk)
    ensures c.DetectMorphDifferentially? <==> mode.differential
    ensures !c.CompareImages? && c.image == disk[Util.SpaceWords(line)[0]] && c.kind == mode.kind
  {
    var imgs := Util.SpaceWords(line);
    if mode.differential then DetectMorphDifferentially(disk[imgs[0]], mode.kind, disk[imgs[1]])
    else DetectMorph(disk[imgs[0]], mode.kind)
  }

  /** The row a loading line logs when the call returned `r`. */
  function DetectRowOf<C>(line: string, mode: Mode, disk: Workers.Disk, r: DetectAnswer<C>): (row: DetectRow<C>)
    requires Loads(line, mode, disk)
    ensures row.image == Util.SpaceWords(line)[0] && row.returnCode == r.code
    ensures row.probeImage.Some? <==> mode.differential
    ensures mode.differential ==> row.probeImage == Some(Util.SpaceWords(line)[1])
    ensures row.isMorph == (r.isMorph.Some? && r.isMorph.value)
    ensures row.score == if r.score.Some? then r.score.value else UnsetScore
  {
    var imgs := Util.SpaceWords(line);
    DetectRow(imgs[0], if mode.differential then Some(imgs[1]) else None,
              Written(r.isMorph, false), Written(r.score, UnsetScore), r.code)
  }

  /** Line `j` ends the loop: its images do not load, or its call is not implemented. */
  predicate DetectHalts<C(==)>(lines: seq<string>, mode: Mode, disk: Workers.Disk,
                               detect: nat -> DetectAnswer<C>, notImplemented: C, j: nat)
    requires j < |lines|
  {
    !Loads(lines[j], mode, disk) || detect(j).code == notImplemented
  }

  /** The first line at or after `from` that ends the loop, or the line count. */
  function DetectStop<C(==)>(lines: seq<string>, mode: Mode, disk: Workers.Disk,
                             detect: nat -> DetectAnswer<C>, notImplemented: C, from: nat): (m: nat)
    requires from <= |lines|
    ensures from <= m <= |lines|
    ensures forall j :: from <= j < m ==> !DetectHalts(lines, mode, disk, detect, notImplemented, j)
    ensures m < |lines| ==> DetectHalts(lines, mode, disk, detect, notImplemented, m)
    decreases |lines| - from
  {
    if from == |lines| then from
    else if DetectHalts(lines, mode, disk, detect, notImplemented, from) then from
    else DetectStop(lines, mode, disk, detect, notImplemented, from + 1)
  }

  /** `calls` begins with the calls of lines `0..k`. */
  predicate DetectCallsUpTo(lines: seq<string>, mode: Mode, disk: Workers.Disk, k: nat, calls: seq<MorphCall>) {
    && k <= |lines| && |calls| >= k
    && forall j :: 0 <= j < k ==> Loads(lines[j], mode, disk) && calls[j] == DetectCallOf(lines[j], mode, disk)
  }

  /** `rows` are the rows of lines `0..k`. */
  predicate DetectRowsUpTo<C(==)>(lines: seq<string>, mode: Mode, disk: Workers.Disk, detect: nat -> DetectAnswer<C>,
                              k: nat, rows: seq<DetectRow<C>>)
  {
    && k <= |lines| && |rows| == k
    && forall j :: 0 <= j < k ==> Loads(lines[j], mode, disk) && rows[j] == DetectRowOf(lines[j], mode, disk, detect(j))
  }

  /** `rows` and `calls` are those of lines `0..k`. */
  predicate DetectedUpTo<C(==)>(lines: seq<string>, mode: Mode, disk: Workers.Disk, detect: nat -> DetectAnswer<C>,
                            k: nat, rows: seq<DetectRow<C>>, calls: seq<MorphCall>)
  {
    DetectRowsUpTo(lines, mode, disk, detect, k, rows) && DetectCallsUpTo(lines, mode, disk, k, calls)
  }

  /**
   * How a detect worker whose input and log opened ends, with `m` the
   * first line that ends the loop:
   * - the images of line `m` do not load: the worker ends as `failEnd`,
   *   leaving the log with the rows so far and the input file in place;
   * - line `m`'s call is not implemented: the call is made, the log is
   *   deleted, the input removed, and the worker returns NOT_IMPLEMENTED;
   * - every line was logged: the input is removed and the worker returns
   *   SUCCESS, unless there was no line at all and the never-assigned
   *   status happens to read NotImplemented (`unset`).
   */
  predicate DetectOutcome<C(==)>(lines: seq<string>, header: Option<seq<string>>, mode: Mode,
                                 failEnd: Pool.WorkerEnd, notImplemented: C, unset: C,
                                 disk: Workers.Disk, detect: nat -> DetectAnswer<C>,
                                 end: Pool.WorkerEnd, log: Option<Log<DetectRow<C>>>,
                                 inputRemoved: bool, calls: seq<MorphCall>)
  {
    var m := DetectStop(lines, mode, disk, detect, notImplemented, 0);
    var deleted := if m < |lines| then Loads(lines[m], mode, disk) else m == 0 && unset == notImplemented;
    && (m < |lines| && !Loads(lines[m], mode, disk) ==> end == failEnd && !inputRemoved && |calls| == m)
    && (m < |lines| && Loads(lines[m], mode, disk) ==>
          && end == Pool.Returned(Pool.NOT_IMPLEMENTED) && inputRemoved
          && |calls| == m + 1 && calls[m] == DetectCallOf(lines[m], mode, disk))
    && (m == |lines| ==>
          && inputRemoved && |calls| == m
          && end == Pool.Returned(if deleted then Pool.NOT_IMPLEMENTED else Pool.SUCCESS))
    && (deleted <==> log.None?)
    && (log.Some? ==> log.value.header == header && DetectRowsUpTo(lines, mode, disk, detect, m, log.value.rows))
    && DetectCallsUpTo(lines, mode, disk, m, calls)
  }

  /**
   * `detectMorph`: opens the input (`None` when it does not open) and the
   * log, writes the header, then runs one call per line until the first
   * that does not load or is not implemented.
   */
  method DetectWorker<C(==)>(input: Option<seq<string>>, logOpens: bool, header: Option<seq<string>>, mode: Mode,
                             failEnd: Pool.WorkerEnd, notImplemented: C, unset: C,
                             disk: Workers.Disk, detect: nat -> DetectAnswer<C>)
    returns (end: Pool.WorkerEnd, log: Option<Log<DetectRow<C>>>, inputRemoved: bool, calls: seq<MorphCall>)
    ensures input.None? || !logOpens ==> end == failEnd && log.None? && !inputRemoved && calls == []
    ensures input.Some? && logOpens ==>
      DetectOutcome(input.value, header, mode, failEnd, notImplemented, unset, disk, detect, end, log, inputRemoved, calls)
  {
    if input.None? || !logOpens {
      return failEnd, None, false, [];
    }
    var lines := input.value;
    ghost var m := DetectStop(lines, mode, disk, detect, notImplemented, 0);
    var rows: seq<DetectRow<C>> := [];
    calls := [];
    var code := unset;
    var k := 0;
    while k < |lines|
      invariant k <= m
      invariant DetectedUpTo(lines, mode, disk, detect, k, rows, calls) && |calls| == k
      invariant code == if k == 0 then unset else detect(k - 1).code
      invariant k > 0 ==> code != notImplemented
    {
      var imgs := Util.Split(lines[k], ' ');
      Util.SplitShape(lines[k], ' ');
      if imgs[0] !in disk {
        DetectFailsAt(lines, header, mode, failEnd, notImplemented, unset, disk, detect, k, rows, calls);
        return failEnd, Some(Log(header, rows)), false, calls;
      }
      if mode.differential && (|imgs| < 2 || imgs[1] !in disk) {
        DetectFailsAt(lines, header, mode, failEnd, notImplemented, unset, disk, detect, k, rows, calls);
        return failEnd, Some(Log(header, rows)), false, calls;
      }
      var r := detect(k);
      var call := if mode.differential then DetectMorphDifferentially(disk[imgs[0]], mode.kind, disk[imgs[1]])
                  else DetectMorph(disk[imgs[0]], mode.kind);
      assert call == DetectCallOf(lines[k], mode, disk);
      calls := calls + [call];
      code := r.code;
      if code == notImplemented {
        DetectNotImplementedAt(lines, header, mode, failEnd, notImplemented, unset, disk, detect, k, rows, calls);
        return Pool.Returned(Pool.NOT_IMPLEMENTED), None, true, calls;
      }
      var row := DetectRow(imgs[0], if mode.differential then Some(imgs[1]) else None,
                           Written(r.isMorph, false), Written(r.score, UnsetScore), code);
      assert row == DetectRowOf(lines[k], mode, disk, r);
      DetectStep(lines, mode, disk, detect, notImplemented, k, rows, calls);
      rows := rows + [row];
      k := k + 1;
    }
    inputRemoved := true;
    if code == notImplemented {
      end, log := Pool.Returned(Pool.NOT_IMPLEMENTED), None;
    } else {
      end, log := Pool.Returned(Pool.SUCCESS), Some(Log(header, rows));
    }
    DetectCompletes(lines, header, mode, failEnd, notImplemented, unset, disk, detect, rows, calls, end, log);
  }

  /** The first line that ends the loop is `k` when no earlier one does and `k` does. */
  lemma DetectStopsAt<C>(lines: seq<string>, mode: Mode, disk: Workers.Disk,
                             detect: nat -> DetectAnswer<C>, notImplemented: C, k: nat)
    requires k < |lines| && k <= DetectStop(lines, mode, disk, detect, notImplemented, 0)
    requires DetectHalts(lines, mode, disk, detect, notImplemented, k)
    ensures DetectStop(lines, mode, disk, detect, notImplemented, 0) == k
  {
  }

  lemma DetectFailsAt<C>(lines: seq<string>, header: Option<seq<string>>, mode: Mode,
                             failEnd: Pool.WorkerEnd, notImplemented: C, unset: C,
                             disk: Workers.Disk, detect: nat -> DetectAnswer<C>,
                             k: nat, rows: seq<DetectRow<C>>, calls: seq<MorphCall>)
    requires k < |lines| && k <= DetectStop(lines, mode, disk, detect, notImplemented, 0)
    requires !Loads(lines[k], mode, disk)
    requires DetectedUpTo(lines, mode, disk, detect, k, rows, calls) && |calls| == k
    ensures DetectOutcome(lines, header, mode, failEnd, notImplemented, unset, disk, detect,
                          failEnd, Some(Log(header, rows)), false, calls)
  {
    DetectStopsAt(lines, mode, disk, detect, notImplemented, k);
  }

  lemma DetectNotImplementedAt<C>(lines: seq<string>, header: Option<seq<string>>, mode: Mode,
                                      failEnd: Pool.WorkerEnd, notImplemented: C, unset: C,
                                      disk: Workers.Disk, detect: nat -> DetectAnswer<C>,
                                      k: nat, rows: seq<DetectRow<C>>, calls: seq<MorphCall>)
    requires k < |lines| && k <= DetectStop(lines, mode, disk, detect, notImplemented, 0)
    requires Loads(lines[k], mode, disk) && detect(k).code == notImplemented
    requires |calls| == k + 1 && calls[k] == DetectCallOf(lines[k], mode, disk)
    requires DetectedUpTo(lines, mode, disk, detect, k, rows, calls[..k])
    ensures DetectOutcome(lines, header, mode, failEnd, notImplemented, unset, disk, detect,
                          Pool.Returned(Pool.NOT_IMPLEMENTED), None, true, calls)
  {
    DetectStopsAt(lines, mode, disk, detect, notImplemented, k);
  }

  lemma DetectStep<C>(lines: seq<string>, mode: Mode, disk: Workers.Disk, detect: nat -> DetectAnswer<C>,
                          notImplemented: C, k: nat, rows: seq<DetectRow<C>>, calls: seq<MorphCall>)
    requires k < |lines| && Loads(lines[k], mode, disk)
    requires |calls| == k + 1 && calls[k] == DetectCallOf(lines[k], mode, disk)
    requires DetectedUpTo(lines, mode, disk, detect, k, rows, calls[..k])
    requires k <= DetectStop(lines, mode, disk, detect, notImplemented, 0) && detect(k).code != notImplemented
    ensures DetectedUpTo(lines, mode, disk, detect, k + 1, rows + [DetectRowOf(lines[k], mode, disk, detect(k))], calls)
    ensures k + 1 <= DetectStop(lines, mode, disk, detect, notImplemented, 0)
  {
  }

  lemma DetectCompletes<C>(lines: seq<string>, header: Option<seq<string>>, mode: Mode,
                               failEnd: Pool.WorkerEnd, notImplemented: C, unset: C,
                               disk: Workers.Disk, detect: nat -> DetectAnswer<C>,
                               rows: seq<DetectRow<C>>, calls: seq<MorphCall>,
                               end: Pool.WorkerEnd, log: Option<Log<DetectRow<C>>>)
    requires |lines| <= DetectStop(lines, mode, disk, detect, notImplemented, 0)
    requires DetectedUpTo(lines, mode, disk, detect, |lines|, rows, calls) && |calls| == |lines|
    requires var code := if |lines| == 0 then unset else detect(|lines| - 1).code;
      if code == notImplemented then end == Pool.Returned(Pool.NOT_IMPLEMENTED) && log.None?
      else end == Pool.Returned(Pool.SUCCESS) && log == Some(Log(header, rows))
    ensures DetectOutcome(lines, header, mode, failEnd, notImplemented, unset, disk, detect, end, log, true, calls)
  {
    if |lines| > 0 {
      assert !DetectHalts(lines, mode, disk, detect, notImplemented, |lines| - 1);
    }
  }

  /**
   * What a detect worker leaves behind: the log is deleted exactly when it
   * returns NOT_IMPLEMENTED; it otherwise holds one row per line read, in
   * order, none with the NotImplemented code, each naming its line's first
   * word (and second word when differential) and carrying the header it
   * was given; the input file is removed exactly when the worker returns
   * rather than ending as `failEnd`.
   */
  lemma DetectLog<C>(lines: seq<string>, header: Option<seq<string>>, mode: Mode,
                         failEnd: Pool.WorkerEnd, notImplemented: C, unset: C,
                         disk: Workers.Disk, detect: nat -> DetectAnswer<C>,
                         end: Pool.WorkerEnd, log: Option<Log<DetectRow<C>>>,
                         inputRemoved: bool, calls: seq<MorphCall>)
    requires failEnd != Pool.Returned(Pool.NOT_IMPLEMENTED) && failEnd != Pool.Returned(Pool.SUCCESS)
    requires DetectOutcome(lines, header, mode, failEnd, notImplemented, unset, disk, detect, end, log, inputRemoved, calls)
    ensures log.None? <==> end == Pool.Returned(Pool.NOT_IMPLEMENTED)
    ensures inputRemoved <==> end != failEnd
    ensures end == Pool.Returned(Pool.SUCCESS) ==> log.Some? && |log.value.rows| == |lines|
    ensures log.Some? ==> log.value.header == header && |log.value.rows| <= |lines|
    ensures log.Some? ==> forall j :: 0 <= j < |log.value.rows| ==>
      && log.value.rows[j].returnCode != notImplemented
      && log.value.rows[j].image == Util.SpaceWords(lines[j])[0]
      && (log.value.rows[j].probeImage.Some? <==> mode.differential)
      && RowWidth(log.value.rows[j]) == |DetectColumns(mode)|
  {
    var m := DetectStop(lines, mode, disk, detect, notImplemented, 0);
    if log.Some? {
      forall j | 0 <= j < |log.value.rows|
        ensures log.value.rows[j].returnCode != notImplemented
      {
        assert !DetectHalts(lines, mode, disk, detect, notImplemented, j);
      }
    }
  }

  // --------------------------------------------------------------- compare

  /** The image pairs `while (in >> enroll >> verif)` reads from an input file. */
  function ComparePairs(text: string): seq<Text.Pair> {
    Text.Pairs(Text.Tokens(text, Text.Blanks))
  }

  /** Pair `j` ends the loop: one of its images does not load, or its call is not implemented. */
  predicate CompareHalts<C(==)>(pairs: seq<Text.Pair>, disk: Workers.Disk,
                                compare: nat -> CompareAnswer<C>, notImplemented: C, j: nat)
    requires j < |pairs|
  {
    pairs[j].first !in disk || pairs[j].second !in disk || compare(j).code == notImplemented
  }

  /** The first pair at or after `from` that ends the loop, or the pair count. */
  function CompareStop<C(==)>(pairs: seq<Text.Pair>, disk: Workers.Disk,
                              compare: nat -> CompareAnswer<C>, notImplemented: C, from: nat): (m: nat)
    requires from <= |pairs|
    ensures from <= m <= |pairs|
    ensures forall j :: from <= j < m ==> !CompareHalts(pairs, disk, compare, notImplemented, j)
    ensures m < |pairs| ==> CompareHalts(pairs, disk, compare, notImplemented, m)
    decreases |pairs| - from
  {
    if from == |pairs| then from
    else if CompareHalts(pairs, disk, compare, notImplemented, from) then from
    else CompareStop(pairs, disk, compare, notImplemented, from + 1)
  }

  /** The row a loaded pair logs when the call returned `r`. */
  function CompareRowOf<C>(p: Text.Pair, r: CompareAnswer<C>): (row: CompareRow<C>)
    ensures row.enrollImage == p.first && row.verifImage == p.second && row.returnCode == r.code
    ensures row.score == if r.similarity.Some? then r.similarity.value else UnsetScore
  {
    CompareRow(p.first, p.second, Written(r.similarity, UnsetScore), r.code)
  }

  /** `calls` begins with the calls of pairs `0..k`. */
  predicate CompareCallsUpTo(pairs: seq<Text.Pair>, disk: Workers.Disk, k: nat, calls: seq<MorphCall>) {
    && k <= |pairs| && |calls| >= k
    && forall j :: 0 <= j < k ==>
         pairs[j].first in disk && pairs[j].second in disk &&
         calls[j] == CompareImages(disk[pairs[j].first], disk[pairs[j].second])
  }

  /** `rows` are the rows of pairs `0..k`. */
  predicate CompareRowsUpTo<C(==)>(pairs: seq<Text.Pair>, compare: nat -> CompareAnswer<C>, k: nat, rows: seq<CompareRow<C>>) {
    && k <= |pairs| && |rows| == k
    && forall j :: 0 <= j < k ==> rows[j] == CompareRowOf(pairs[j], compare(j))
  }

  /** `rows` and `calls` are those of pairs `0..k`. */
  predicate ComparedUpTo<C(==)>(pairs: seq<Text.Pair>, disk: Workers.Disk, compare: nat -> CompareAnswer<C>,
                            k: nat, rows: seq<CompareRow<C>>, calls: seq<MorphCall>)
  {
    CompareRowsUpTo(pairs, compare, k, rows) && CompareCallsUpTo(pairs, disk, k, calls)
  }

  /** How a compare worker whose input and log opened ends; the cases are those of `DetectOutcome`. */
  predicate CompareOutcome<C(==)>(pairs: seq<Text.Pair>, failEnd: Pool.WorkerEnd, notImplemented: C, unset: C,
                                  disk: Workers.Disk, compare: nat -> CompareAnswer<C>,
                                  end: Pool.WorkerEnd, log: Option<Log<CompareRow<C>>>,
                                  inputRemoved: bool, calls: seq<MorphCall>)
  {
    var m := CompareStop(pairs, disk, compare, notImplemented, 0);
    var loads := m < |pairs| && pairs[m].first in disk && pairs[m].second in disk;
    var deleted := if m < |pairs| then loads else m == 0 && unset == notImplemented;
    && (m < |pairs| && !loads ==> end == failEnd && !inputRemoved && |calls| == m)
    && (loads ==>
          && end == Pool.Returned(Pool.NOT_IMPLEMENTED) && inputRemoved
          && |calls| == m + 1 && calls[m] == CompareImages(disk[pairs[m].first], disk[pairs[m].second]))
    && (m == |pairs| ==>
          && inputRemoved && |calls| == m
          && end == Pool.Returned(if deleted then Pool.NOT_IMPLEMENTED else Pool.SUCCESS))
    && (deleted <==> log.None?)
    && (log.Some? ==> log.value.header == Some(CompareColumns) && CompareRowsUpTo(pairs, compare, m, log.value.rows))
    && CompareCallsUpTo(pairs, disk, m, calls)
  }

  /**
   * `compare`: opens the input (its text, `None` when it does not open)
   * and the scores log, writes the header, then runs one call per pair
   * until the first that does not load or is not implemented.
   */
  method CompareWorker<C(==)>(input: Option<string>, logOpens: bool,
                              failEnd: Pool.WorkerEnd, notImplemented: C, unset: C,
                              disk: Workers.Disk, compare: nat -> CompareAnswer<C>)
    returns (end: Pool.WorkerEnd, log: Option<Log<CompareRow<C>>>, inputRemoved: bool, calls: seq<MorphCall>)
    ensures input.None? || !logOpens ==> end == failEnd && log.None? && !inputRemoved && calls == []
    ensures input.Some? && logOpens ==>
      CompareOutcome(ComparePairs(input.value), failEnd, notImplemented, unset, disk, compare, end, log, inputRemoved, calls)
  {
    if input.None? || !logOpens {
      return failEnd, None, false, [];
    }
    var pairs := ComparePairs(input.value);
    ghost var m := CompareStop(pairs, disk, compare, notImplemented, 0);
    var rows: seq<CompareRow<C>> := [];
    calls := [];
    var code := unset;
    var k := 0;
    while k < |pairs|
      invariant k <= m
      invariant ComparedUpTo(pairs, disk, compare, k, rows, calls) && |calls| == k
      invariant code == if k == 0 then unset else compare(k - 1).code
      invariant k > 0 ==> code != notImplemented
    {
      var enroll := pairs[k].first;
      var verif := pairs[k].second;
      if enroll !in disk || verif !in disk {
        CompareFailsAt(pairs, failEnd, notImplemented, unset, disk, compare, k, rows, calls);
        return failEnd, Some(Log(Some(CompareColumns), rows)), false, calls;
      }
      var r := compare(k);
      calls := calls + [CompareImages(disk[enroll], disk[verif])];
      code := r.code;
      if code == notImplemented {
        CompareNotImplementedAt(pairs, failEnd, notImplemented, unset, disk, compare, k, rows, calls);
        return Pool.Returned(Pool.NOT_IMPLEMENTED), None, true, calls;
      }
      CompareStep(pairs, disk, compare, notImplemented, k, rows, calls);
      rows := rows + [CompareRow(enroll, verif, Written(r.similarity, UnsetScore), code)];
      k := k + 1;
    }
    inputRemoved := true;
    if code == notImplemented {
      end, log := Pool.Returned(Pool.NOT_IMPLEMENTED), None;
    } else {
      end, log := Pool.Returned(Pool.SUCCESS), Some(Log(Some(CompareColumns), rows));
    }
    CompareCompletes(pairs, failEnd, notImplemented, unset, disk, compare, rows, calls, end, log);
  }

  /** The first pair that ends the loop is `k` when no earlier one does and `k` does. */
  lemma CompareStopsAt<C>(pairs: seq<Text.Pair>, disk: Workers.Disk,
                          compare: nat -> CompareAnswer<C>, notImplemented: C, k: nat)
    requires k < |pairs| && k <= CompareStop(pairs, disk, compare, notImplemented, 0)
    requires CompareHalts(pairs, disk, compare, notImplemented, k)
    ensures CompareStop(pairs, disk, compare, notImplemented, 0) == k
  {
  }

  lemma CompareFailsAt<C>(pairs: seq<Text.Pair>, failEnd: Pool.WorkerEnd, notImplemented: C, unset: C,
                          disk: Workers.Disk, compare: nat -> CompareAnswer<C>,
                          k: nat, rows: seq<CompareRow<C>>, calls: seq<MorphCall>)
    requires k < |pairs| && k <= CompareStop(pairs, disk, compare, notImplemented, 0)
    requires pairs[k].first !in disk || pairs[k].second !in disk
    requires ComparedUpTo(pairs, disk, compare, k, rows, calls) && |calls| == k
    ensures CompareOutcome(pairs, failEnd, notImplemented, unset, disk, compare,
                           failEnd, Some(Log(Some(CompareColumns), rows)), false, calls)
  {
    CompareStopsAt(pairs, disk, compare, notImplemented, k);
  }

  lemma CompareNotImplementedAt<C>(pairs: seq<Text.Pair>, failEnd: Pool.WorkerEnd, notImplemented: C, unset: C,
                                   disk: Workers.Disk, compare: nat -> CompareAnswer<C>,
                                   k: nat, rows: seq<CompareRow<C>>, calls: seq<MorphCall>)
    requires k < |pairs| && k <= CompareStop(pairs, disk, compare, notImplemented, 0)
    requires pairs[k].first in disk && pairs[k].second in disk && compare(k).code == notImplemented
    requires |calls| == k + 1 && calls[k] == CompareImages(disk[pairs[k].first], disk[pairs[k].second])
    requires ComparedUpTo(pairs, disk, compare, k, rows, calls[..k])
    ensures CompareOutcome(pairs, failEnd, notImplemented, unset, disk, compare,
                           Pool.Returned(Pool.NOT_IMPLEMENTED), None, true, calls)
  {
    CompareStopsAt(pairs, disk, compare, notImplemented, k);
  }

  lemma CompareStep<C>(pairs: seq<Text.Pair>, disk: Workers.Disk, compare: nat -> CompareAnswer<C>,
                       notImplemented: C, k: nat, rows: seq<CompareRow<C>>, calls: seq<MorphCall>)
    requires k < |pairs| && pairs[k].first in disk && pairs[k].second in disk
    requires |calls| == k + 1 && calls[k] == CompareImages(disk[pairs[k].first], disk[pairs[k].second])
    requires ComparedUpTo(pairs, disk, compare, k, rows, calls[..k])
    requires k <= CompareStop(pairs, disk, compare, notImplemented, 0) && compare(k).code != notImplemented
    ensures ComparedUpTo(pairs, disk, compare, k + 1, rows + [CompareRowOf(pairs[k], compare(k))], calls)
    ensures k + 1 <= CompareStop(pairs, disk, compare, notImplemented, 0)
  {
  }

  lemma CompareCompletes<C>(pairs: seq<Text.Pair>, failEnd: Pool.WorkerEnd, notImplemented: C, unset: C,
                            disk: Workers.Disk, compare: nat -> CompareAnswer<C>,
                            rows: seq<CompareRow<C>>, calls: seq<MorphCall>,
                            end: Pool.WorkerEnd, log: Option<Log<CompareRow<C>>>)
    requires |pairs| <= CompareStop(pairs, disk, compare, notImplemented, 0)
    requires ComparedUpTo(pairs, disk, compare, |pairs|, rows, calls) && |calls| == |pairs|
    requires var code := if |pairs| == 0 then unset else compare(|pairs| - 1).code;
      if code == notImplemented then end == Pool.Returned(Pool.NOT_IMPLEMENTED) && log.None?
      else end == Pool.Returned(Pool.SUCCESS) && log == Some(Log(Some(CompareColumns), rows))
    ensures CompareOutcome(pairs, failEnd, notImplemented, unset, disk, compare, end, log, true, calls)
  {
    if |pairs| > 0 {
      assert !CompareHalts(pairs, disk, compare, notImplemented, |pairs| - 1);
    }
  }

  /**
   * What a compare worker leaves behind: the log is deleted exactly when it
   * returns NOT_IMPLEMENTED; it otherwise carries the four-column header
   * and one row per pair read, in order, none with the NotImplemented code.
   */
  lemma CompareLog<C>(pairs: seq<Text.Pair>, failEnd: Pool.WorkerEnd, notImplemented: C, unset: C,
                          disk: Workers.Disk, compare: nat -> CompareAnswer<C>,
                          end: Pool.WorkerEnd, log: Option<Log<CompareRow<C>>>,
                          inputRemoved: bool, calls: seq<MorphCall>)
    requires failEnd != Pool.Returned(Pool.NOT_IMPLEMENTED) && failEnd != Pool.Returned(Pool.SUCCESS)
    requires CompareOutcome(pairs, failEnd, notImplemented, unset, disk, compare, end, log, inputRemoved, calls)
    ensures log.None? <==> end == Pool.Returned(Pool.NOT_IMPLEMENTED)
    ensures inputRemoved <==> end != failEnd
    ensures end == Pool.Returned(Pool.SUCCESS) ==> log.Some? && |log.value.rows| == |pairs|
    ensures log.Some? ==> log.value.header == Some(CompareColumns) && |log.value.rows| <= |pairs|
    ensures log.Some? ==> forall j :: 0 <= j < |log.value.rows| ==>
      && log.value.rows[j].returnCode != notImplemented
      && log.value.rows[j].enrollImage == pairs[j].first
      && log.value.rows[j].verifImage == pairs[j].second
  {
    if log.Some? {
      forall j | 0 <= j < |log.value.rows|
        ensures log.value.rows[j].returnCode != notImplemented
      {
        assert !CompareHalts(pairs, disk, compare, notImplemented, j);
      }
    }
  }

  // ------------------------------------------------------------ main's part

  /** What a worker runs: detection in some mode, or comparison. */
  datatype Job = DetectJob(mode: Mode) | CompareJob

  /** The log of worker `i`: `outputDir/stem.log.i`. */
  function WorkerLogPath(outputDir: string, stem: string, i: nat): string {
    outputDir + "/" + stem + ".log." + Decimal.NatToString(i)
  }

  /** Workers never share a log. */
  lemma WorkerLogsDistinct(outputDir: string, stem: string, i: nat, j: nat)
    requires i != j
    ensures WorkerLogPath(outputDir, stem, i) != WorkerLogPath(outputDir, stem, j)
  {
    Workers.IndexedDistinct(outputDir + "/" + stem + ".log.", i, j);
  }
}
