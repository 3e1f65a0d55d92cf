/**
 * The 2018 1:N validation driver: its enrollment, finalization, search and
 * insert-and-delete workers, the accepted actions and what `main` returns.
 *
 * Unlike the current driver, a worker that meets a missing file returns
 * FAILURE instead of raising SIGTERM; a description that is not a label
 * makes `getLabel` throw, and the uncaught exception aborts the worker
 * (`Pool.Killed`). The parent ignores how its workers ended.
 */
module Driver2018 {
  import opened Structs
  import opened IdentInterface
  import opened Wrappers
  import Text
  import Edb
  import Search
  import Seqs
  import Pool
  import Workers
  import LegacyUtil
  import Util
  import NullGallery
  import Decimal
  import Driver1N

  // ------------------------------------------------------------- records

  /** A record the worker gets past: its image loads and its description is a label. */
  predicate Admitted(p: Text.Triple, disk: Workers.Disk) {
    p.second in disk && LegacyUtil.GetLabel(p.third).Ok?
  }

  /** The index of the first record the worker stops at, or the record count when there is none. */
  function FirstBad(probes: seq<Text.Triple>, disk: Workers.Disk): (m: nat)
    ensures m <= |probes|
    ensures forall j :: 0 <= j < m ==> Admitted(probes[j], disk)
    ensures m < |probes| ==> !Admitted(probes[m], disk)
    decreases |probes|
  {
    if probes == [] then 0
    else if !Admitted(probes[0], disk) then 0
    else
      var m := 1 + FirstBad(probes[1..], disk);
      assert forall j :: 1 <= j < m ==> probes[j] == probes[1..][j - 1];
      m
  }

  /** Walking the records in order: the next one either is admitted or is where the worker stops. */
  lemma FirstBadStep(probes: seq<Text.Triple>, disk: Workers.Disk, k: nat)
    requires k <= FirstBad(probes, disk) && k < |probes|
    ensures Admitted(probes[k], disk) ==> k + 1 <= FirstBad(probes, disk)
    ensures !Admitted(probes[k], disk) ==> FirstBad(probes, disk) == k
  {
  }

  /** The face of an admitted record: its image, labelled by `getLabel`. */
  function Face(p: Text.Triple, disk: Workers.Disk): (img: Image)
    requires Admitted(p, disk)
    ensures LegacyUtil.LabelName(img.description) == p.third
  {
    Workers.Loaded(disk, p.second, LegacyUtil.GetLabel(p.third).value)
  }

  /**
   * How the worker ends at a record it cannot get past: FAILURE when the
   * image does not load (checked first), Killed when the description is
   * not a label.
   */
  function Stop(p: Text.Triple, disk: Workers.Disk): (end: Pool.WorkerEnd)
    requires !Admitted(p, disk)
    ensures end == Pool.Returned(Pool.FAILURE) <==> p.second !in disk
    ensures end == Pool.Killed <==> p.second in disk && LegacyUtil.GetLabel(p.third).Err?
  {
    if p.second !in disk then Pool.Returned(Pool.FAILURE) else Pool.Killed
  }

  /**
   * Loading a record's image and labelling it: the face when the record is
   * admitted, otherwise how the worker ends there.
   */
  method ReadRecord(p: Text.Triple, disk: Workers.Disk) returns (stop: Option<Pool.WorkerEnd>, face: Image)
    ensures stop.None? <==> Admitted(p, disk)
    ensures stop.Some? ==> stop.value == Stop(p, disk)
    ensures stop.None? ==> face == Face(p, disk)
  {
    face := DefaultImage;
    if p.second !in disk {
      return Some(Pool.Returned(Pool.FAILURE)), face;
    }
    var tag := LegacyUtil.GetLabel(p.third);
    if tag.Err? {
      return Some(Pool.Killed), face;
    }
    face := Workers.Loaded(disk, p.second, tag.value);
    stop := None;
  }

  /** How a worker that reads every record it can ends. */
  function Ended(probes: seq<Text.Triple>, disk: Workers.Disk): Pool.WorkerEnd {
    var n := FirstBad(probes, disk);
    if n == |probes| then Pool.Returned(Pool.SUCCESS) else Stop(probes[n], disk)
  }

  /**
   * The end of a worker that got through its records. Only records it
   * could not get past stop it; what the implementation returns never
   * does.
   */
  lemma EndedMeaning(probes: seq<Text.Triple>, disk: Workers.Disk)
    ensures Ended(probes, disk) == Pool.Returned(Pool.SUCCESS) <==> forall j :: 0 <= j < |probes| ==> Admitted(probes[j], disk)
    ensures Ended(probes, disk) == Pool.Killed <==>
      exists j :: 0 <= j < |probes| && !Admitted(probes[j], disk) && probes[FirstBad(probes, disk)].second in disk
  {
    var n := FirstBad(probes, disk);
    if n < |probes| {
      assert !Admitted(probes[n], disk);
    }
  }

  // ----------------------------------------------------------- enrollment

  /**
   * The log row of an enrolled record: the first eye pair the
   * implementation returned, or an unassigned pair at (0, 0) when it
   * returned none. The number of eye pairs is not checked.
   */
  function EnrollRowOf(p: Text.Triple, r: CreateResult): (row: Workers.EnrollRow)
    ensures row.id == p.first && row.image == p.second && row.templateSizeBytes == |r.templ|
    ensures CodeOfValue(row.returnCode) == Some(r.code)
    ensures r.eyes != [] ==> row.eyes == r.eyes[0]
    ensures r.eyes == [] ==> !row.eyes.isLeftAssigned && !row.eyes.isRightAssigned
  {
    var eyes := if |r.eyes| > 0 then r.eyes[0] else DefaultEyePair;
    CodeNumbering(r.code, 0);
    Workers.EnrollRow(p.first, p.second, |r.templ|, CodeValue(r.code), eyes)
  }

  /** The state after the first `n` records enrolled: a record, a log row and a call for each. */
  predicate EnrolledUpTo(probes: seq<Text.Triple>, disk: Workers.Disk, create: nat -> CreateResult, n: nat,
                         records: seq<Edb.Record>, log: seq<Workers.EnrollRow>, calls: seq<Call>)
  {
    && n <= FirstBad(probes, disk)
    && |records| == |log| == |calls| == n
    && (forall k :: 0 <= k < n ==> records[k] == Edb.Record(probes[k].first, create(k).templ))
    && (forall k :: 0 <= k < n ==> log[k] == EnrollRowOf(probes[k], create(k)))
    && (forall k :: 0 <= k < n ==> calls[k] == CreateTemplate([Face(probes[k], disk)], Enrollment1N))
  }

  /** What an enrollment worker with open streams leaves behind: every record up to the first it cannot get past enrolled. */
  predicate EnrollOutcome(probes: seq<Text.Triple>, disk: Workers.Disk, create: nat -> CreateResult,
                          end: Pool.WorkerEnd, records: seq<Edb.Record>, log: seq<Workers.EnrollRow>, calls: seq<Call>)
  {
    && end == Ended(probes, disk)
    && EnrolledUpTo(probes, disk, create, FirstBad(probes, disk), records, log, calls)
  }

  lemma EnrollStep(probes: seq<Text.Triple>, disk: Workers.Disk, create: nat -> CreateResult, k: nat,
                   records: seq<Edb.Record>, log: seq<Workers.EnrollRow>, calls: seq<Call>)
    requires EnrolledUpTo(probes, disk, create, k, records, log, calls)
    requires k < |probes| && Admitted(probes[k], disk)
    ensures EnrolledUpTo(probes, disk, create, k + 1, records + [Edb.Record(probes[k].first, create(k).templ)],
                         log + [EnrollRowOf(probes[k], create(k))],
                         calls + [CreateTemplate([Face(probes[k], disk)], Enrollment1N)])
  {
    FirstBadStep(probes, disk, k);
    SnocKeeps(records, Edb.Record(probes[k].first, create(k).templ));
    SnocKeeps(log, EnrollRowOf(probes[k], create(k)));
    SnocKeeps(calls, CreateTemplate([Face(probes[k], disk)], Enrollment1N));
  }

  /** Appending an element keeps the elements already there. */
  lemma SnocKeeps<T>(s: seq<T>, x: T)
    ensures |s + [x]| == |s| + 1 && (s + [x])[|s|] == x
    ensures forall i :: 0 <= i < |s| ==> (s + [x])[i] == s[i]
  {
  }

  /**
   * `enroll`. `input` is the text of the input file, None when it does not
   * open; `outputsOpen` says whether the log, EDB and manifest streams
   * opened; `create(k)` is what createTemplate returns for record `k`.
   */
  method Enroll(input: Option<string>, outputsOpen: bool, disk: Workers.Disk, create: nat -> CreateResult)
    returns (end: Pool.WorkerEnd, records: seq<Edb.Record>, edb: seq<Byte>, manifest: string,
             log: seq<Workers.EnrollRow>, calls: seq<Call>)
    ensures edb == Edb.Bytes(records)
    ensures manifest == Edb.Render(Edb.Manifest(records))
    ensures input.None? || !outputsOpen ==> end == Pool.Returned(Pool.FAILURE) && records == [] && log == [] && calls == []
    ensures input.Some? && outputsOpen ==> EnrollOutcome(Workers.Probes(input.value), disk, create, end, records, log, calls)
  {
    records, edb, manifest, log, calls := [], [], "", [], [];
    if input.None? || !outputsOpen {
      return Pool.Returned(Pool.FAILURE), records, edb, manifest, log, calls;
    }
    var probes := Workers.Probes(input.value);
    var k := 0;
    while k < |probes|
      invariant 0 <= k <= |probes|
      invariant EnrolledUpTo(probes, disk, create, k, records, log, calls)
      invariant edb == Edb.Bytes(records)
      invariant manifest == Edb.Render(Edb.Manifest(records))
    {
      var p := probes[k];
      FirstBadStep(probes, disk, k);
      var stop, face := ReadRecord(p, disk);
      if stop.Some? {
        return stop.value, records, edb, manifest, log, calls;
      }
      EnrollStep(probes, disk, create, k, records, log, calls);
      var r := create(k);
      calls := calls + [CreateTemplate([face], Enrollment1N)];
      records, edb, manifest := Workers.WriteRecord(records, edb, manifest, Edb.Record(p.first, r.templ));
      log := log + [EnrollRowOf(p, r)];
      k := k + 1;
    }
    end := Pool.Returned(Pool.SUCCESS);
  }

  /**
   * An enrollment's files load back into the null implementation's gallery
   * as what was enrolled: the ids `>>` reads are single words, so every
   * manifest row parses back, and each id maps to the template of its first
   * record. No precondition on the input is needed.
   */
  lemma EnrollThenLoad(text: string, disk: Workers.Disk, create: nat -> CreateResult, end: Pool.WorkerEnd,
                       records: seq<Edb.Record>, log: seq<Workers.EnrollRow>, calls: seq<Call>)
    requires EnrollOutcome(Workers.Probes(text), disk, create, end, records, log, calls)
    ensures var g := NullGallery.Load(map[], false, Edb.ParseManifest(Edb.Render(Edb.Manifest(records))), Edb.Bytes(records));
      && g == NullGallery.FirstWins(records)
      && (forall id :: id in g <==> exists k :: 0 <= k < |records| && Workers.Probes(text)[k].first == id)
      && forall k :: 0 <= k < |records| && (forall i :: 0 <= i < k ==> records[i].id != records[k].id) ==>
           g[records[k].id] == create(k).templ
  {
    var probes := Workers.Probes(text);
    Workers.ProbeIdsAreWords(text);
    assert EnrolledUpTo(probes, disk, create, FirstBad(probes, disk), records, log, calls);
    forall k | 0 <= k < |records|
      ensures records[k].id == probes[k].first && Edb.IsWord(records[k].id) && records[k].templ == create(k).templ
    {
    }
    NullGallery.LoadAfterEnroll(records);
    NullGallery.FirstWinsMeaning(records);
    var g := NullGallery.FirstWins(records);
    forall id
      ensures id in g <==> exists k :: 0 <= k < |records| && probes[k].first == id
    {
      if id in g {
        var j :| 0 <= j < |records| && records[j].id == id;
        assert probes[j].first == id;
      }
    }
  }

  // ------------------------------------------------------------- finalize

  /**
   * `finalize`: FAILURE unless both `edbDir/edb` and `edbDir/manifest`
   * exist (among `present`); otherwise finalizeEnrollment is asked to take
   * them, and its return code (`answer`) decides.
   */
  function Finalize(edbDir: string, enrollDir: string, present: set<string>, answer: ReturnCode)
    : (r: (int, seq<Call>))
    ensures var edb, manifest := edbDir + "/edb", edbDir + "/manifest";
      && (r.1 != [] <==> edb in present && manifest in present)
      && (r.1 != [] ==> r.1 == [FinalizeEnrollment(enrollDir, edb, manifest, Unconsolidated)])
      && (r.0 == Pool.SUCCESS <==> edb in present && manifest in present && answer == Success)
      && (r.0 != Pool.SUCCESS ==> r.0 == Pool.FAILURE)
  {
    var edb, manifest := edbDir + "/edb", edbDir + "/manifest";
    if !(edb in present && manifest in present) then (Pool.FAILURE, [])
    else
      var calls := [FinalizeEnrollment(enrollDir, edb, manifest, Unconsolidated)];
      if answer != Success then (Pool.FAILURE, calls) else (Pool.SUCCESS, calls)
  }

  /** The two drivers finalize alike; they differ only in how they report a failure. */
  lemma FinalizeLikeCurrent(edbDir: string, enrollDir: string, present: set<string>, answer: ReturnCode)
    ensures Finalize(edbDir, enrollDir, present, answer).1 == Driver1N.Finalize(edbDir, enrollDir, present, answer).1
    ensures Finalize(edbDir, enrollDir, present, answer).0 == Pool.SUCCESS <==>
      Driver1N.Finalize(edbDir, enrollDir, present, answer).0 == Pool.Returned(Pool.SUCCESS)
  {
  }

  // --------------------------------------------------------------- search

  /** The calls for the first `n` probes: templating as Search1N, then the search if templating succeeded. */
  function SearchTrace(probes: seq<Text.Triple>, disk: Workers.Disk, create: nat -> CreateResult, n: nat): seq<Call>
    requires n <= FirstBad(probes, disk)
  {
    if n == 0 then []
    else
      SearchTrace(probes, disk, create, n - 1)
      + [CreateTemplate([Face(probes[n - 1], disk)], Search1N)]
      + Search.SearchCalls(create(n - 1).templ, create(n - 1).code)
  }

  /** What a search worker with open streams leaves behind: one logged block per probe up to the first it cannot get past. */
  predicate SearchOutcome(probes: seq<Text.Triple>, disk: Workers.Disk, create: nat -> CreateResult,
                          identify: nat -> IdentifyResult, end: Pool.WorkerEnd, log: seq<Search.CandRow>,
                          calls: seq<Call>, blocks: seq<seq<Search.CandRow>>)
  {
    var n := FirstBad(probes, disk);
    && |blocks| == n
    && log == Seqs.Join(blocks)
    && (forall j :: 0 <= j < n ==> Search.SearchLogged(blocks[j], probes[j].first, create(j).code, identify(j)))
    && calls == SearchTrace(probes, disk, create, n)
    && end == Ended(probes, disk)
  }

  /**
   * `search`. `input` is the text of the input file, None when it does not
   * open; `logOpens` says whether the candidate-list log opened;
   * `create(j)` and `identify(j)` answer for probe `j`. `blocks` groups the
   * log by probe.
   */
  method SearchWorker(input: Option<string>, logOpens: bool, disk: Workers.Disk,
                      create: nat -> CreateResult, identify: nat -> IdentifyResult)
    returns (end: Pool.WorkerEnd, log: seq<Search.CandRow>, calls: seq<Call>, ghost blocks: seq<seq<Search.CandRow>>)
    ensures input.None? || !logOpens ==> end == Pool.Returned(Pool.FAILURE) && log == [] && calls == [] && blocks == []
    ensures input.Some? && logOpens ==>
      SearchOutcome(Workers.Probes(input.value), disk, create, identify, end, log, calls, blocks)
  {
    log, calls, blocks := [], [], [];
    if input.None? || !logOpens {
      return Pool.Returned(Pool.FAILURE), log, calls, blocks;
    }
    var probes := Workers.Probes(input.value);
    var j := 0;
    while j < |probes|
      invariant SearchedUpTo(probes, disk, create, identify, j, log, calls, blocks)
    {
      var p := probes[j];
      FirstBadStep(probes, disk, j);
      var stop, face := ReadRecord(p, disk);
      if stop.Some? {
        return stop.value, log, calls, blocks;
      }
      var r := create(j);
      var rows, searchCalls := Search.SearchAndLog(p.first, r.templ, r.code, identify(j));
      SearchStep(probes, disk, create, identify, j, log, calls, blocks, rows);
      calls := calls + [CreateTemplate([face], Search1N)] + searchCalls;
      log := log + rows;
      blocks := blocks + [rows];
      j := j + 1;
    }
    end := Pool.Returned(Pool.SUCCESS);
  }

  /** The search loop's state after the first `j` probes. */
  predicate SearchedUpTo(probes: seq<Text.Triple>, disk: Workers.Disk, create: nat -> CreateResult,
                         identify: nat -> IdentifyResult, j: nat, log: seq<Search.CandRow>,
                         calls: seq<Call>, blocks: seq<seq<Search.CandRow>>)
  {
    && j <= FirstBad(probes, disk)
    && |blocks| == j
    && log == Seqs.Join(blocks)
    && (forall i :: 0 <= i < j ==> Search.SearchLogged(blocks[i], probes[i].first, create(i).code, identify(i)))
    && calls == SearchTrace(probes, disk, create, j)
  }

  lemma SearchStep(probes: seq<Text.Triple>, disk: Workers.Disk, create: nat -> CreateResult,
                   identify: nat -> IdentifyResult, j: nat, log: seq<Search.CandRow>,
                   calls: seq<Call>, blocks: seq<seq<Search.CandRow>>, rows: seq<Search.CandRow>)
    requires SearchedUpTo(probes, disk, create, identify, j, log, calls, blocks)
    requires j < |probes| && Admitted(probes[j], disk)
    requires Search.SearchLogged(rows, probes[j].first, create(j).code, identify(j))
    ensures SearchedUpTo(probes, disk, create, identify, j + 1, log + rows,
                         calls + [CreateTemplate([Face(probes[j], disk)], Search1N)]
                           + Search.SearchCalls(create(j).templ, create(j).code),
                         blocks + [rows])
  {
    FirstBadStep(probes, disk, j);
    Seqs.JoinSnoc(blocks, rows);
  }

  // ----------------------------------------------------- insert and delete

  /** The createTemplate calls for the first `n` records of an insert-and-delete run, the first as the probe. */
  function TemplatingTrace(probes: seq<Text.Triple>, disk: Workers.Disk, n: nat): (cs: seq<Call>)
    requires n <= FirstBad(probes, disk)
    ensures |cs| == n
    ensures forall j :: 0 <= j < n ==> cs[j] == CreateTemplate([Face(probes[j], disk)], Workers.RoleOf(j))
  {
    if n == 0 then []
    else TemplatingTrace(probes, disk, n - 1) + [CreateTemplate([Face(probes[n - 1], disk)], Workers.RoleOf(n - 1))]
  }

  /**
   * What an insert-and-delete worker leaves behind. A record it cannot
   * get past stops it during templating, and a log that does not open
   * makes it return FAILURE after templating; otherwise each later record
   * is inserted in turn, then each deleted in turn, and the probe is
   * searched after every step, always under the probe's own id.
   */
  predicate InsertDeleteOutcome(probes: seq<Text.Triple>, disk: Workers.Disk, logOpens: bool,
                                create: nat -> CreateResult, identify: nat -> IdentifyResult, end: Pool.WorkerEnd,
                                log: seq<Search.CandRow>, calls: seq<Call>, blocks: seq<seq<Search.CandRow>>)
  {
    var m := FirstBad(probes, disk);
    var s := Workers.StepCount(|probes|);
    if m < |probes| || !logOpens then
      && end == (if m < |probes| then Stop(probes[m], disk) else Pool.Returned(Pool.FAILURE))
      && log == [] && blocks == [] && calls == TemplatingTrace(probes, disk, m)
    else
      && end == Pool.Returned(Pool.SUCCESS)
      && |blocks| == 2 * s
      && log == Seqs.Join(blocks)
      && (forall b :: 0 <= b < |blocks| ==>
            Search.SearchLogged(blocks[b], probes[0].first, create(0).code, identify(b)))
      && calls == TemplatingTrace(probes, disk, |probes|)
                  + Workers.InsertTrace(probes, create, s) + Workers.DeleteTrace(probes, create, s)
  }

  /**
   * `insertAndDelete`. `input` is the text of the input file, None when it
   * does not open; `create(j)` answers for record `j`, `identify(b)` for
   * the `b`-th search (the n - 1 insert steps' searches, then the delete
   * steps'). Insert and delete return codes are not looked at.
   */
  method InsertAndDelete(input: Option<string>, logOpens: bool, disk: Workers.Disk,
                         create: nat -> CreateResult, identify: nat -> IdentifyResult)
    returns (end: Pool.WorkerEnd, log: seq<Search.CandRow>, calls: seq<Call>, ghost blocks: seq<seq<Search.CandRow>>)
    ensures input.None? ==> end == Pool.Returned(Pool.FAILURE) && log == [] && calls == [] && blocks == []
    ensures input.Some? ==>
      InsertDeleteOutcome(Workers.Probes(input.value), disk, logOpens, create, identify, end, log, calls, blocks)
  {
    log, calls, blocks := [], [], [];
    if input.None? {
      return Pool.Returned(Pool.FAILURE), log, calls, blocks;
    }
    var probes := Workers.Probes(input.value);
    var halt, ids, templates, retCodes;
    halt, ids, templates, retCodes, calls := TemplateRecords(probes, disk, create);
    if halt.Some? {
      return halt.value, log, calls, blocks;
    }
    if !logOpens {
      return Pool.Returned(Pool.FAILURE), log, calls, blocks;
    }
    var stepCalls;
    log, stepCalls, blocks := Steps(probes, create, identify, ids, templates, retCodes);
    calls := calls + stepCalls;
    end := Pool.Returned(Pool.SUCCESS);
  }

  /**
   * The reading loop of `insertAndDelete`: every record is templated in
   * order, the first as the probe, until one it cannot get past (`stop`
   * then says how the worker ends).
   */
  method TemplateRecords(probes: seq<Text.Triple>, disk: Workers.Disk, create: nat -> CreateResult)
    returns (stop: Option<Pool.WorkerEnd>, ids: seq<string>, templates: seq<seq<Byte>>, retCodes: seq<ReturnCode>,
             calls: seq<Call>)
    ensures stop.None? <==> FirstBad(probes, disk) == |probes|
    ensures stop.Some? ==> stop.value == Stop(probes[FirstBad(probes, disk)], disk)
    ensures calls == TemplatingTrace(probes, disk, FirstBad(probes, disk))
    ensures stop.None? ==> |ids| == |probes| && Workers.Templated(probes, create, ids, templates, retCodes)
  {
    ids, templates, retCodes, calls := [], [], [], [];
    var j := 0;
    while j < |probes|
      invariant 0 <= j <= FirstBad(probes, disk)
      invariant |ids| == j && Workers.Templated(probes, create, ids, templates, retCodes)
      invariant calls == TemplatingTrace(probes, disk, j)
    {
      var p := probes[j];
      ids := ids + [p.first];
      FirstBadStep(probes, disk, j);
      var halt, face := ReadRecord(p, disk);
      if halt.Some? {
        return halt, ids, templates, retCodes, calls;
      }
      var role := if j == 0 then Search1N else Enrollment1N;
      var r := create(j);
      Workers.TemplatedStep(probes, create, ids[..j], templates, retCodes);
      assert ids == ids[..j] + [probes[j].first];
      calls := calls + [CreateTemplate([face], role)];
      retCodes := retCodes + [r.code];
      templates := templates + [r.templ];
      j := j + 1;
    }
    stop := None;
  }

  /** The two step loops of `insertAndDelete`: insert records 1 .. n - 1, then delete them, searching after each step. */
  method Steps(probes: seq<Text.Triple>, create: nat -> CreateResult, identify: nat -> IdentifyResult,
               ids: seq<string>, templates: seq<seq<Byte>>, retCodes: seq<ReturnCode>)
    returns (log: seq<Search.CandRow>, calls: seq<Call>, ghost blocks: seq<seq<Search.CandRow>>)
    requires |ids| == |probes| && Workers.Templated(probes, create, ids, templates, retCodes)
    ensures |blocks| == 2 * Workers.StepCount(|probes|)
    ensures log == Seqs.Join(blocks)
    ensures forall b :: 0 <= b < |blocks| ==>
      Search.SearchLogged(blocks[b], probes[0].first, create(0).code, identify(b))
    ensures calls == Workers.InsertTrace(probes, create, Workers.StepCount(|probes|))
                     + Workers.DeleteTrace(probes, create, Workers.StepCount(|probes|))
  {
    var insertCalls, deleteCalls, inserted;
    ghost var insertBlocks;
    inserted, insertCalls, insertBlocks := InsertLoop(probes, create, identify, ids, templates, retCodes);
    log, deleteCalls, blocks := DeleteLoop(probes, create, identify, ids, templates, retCodes, inserted, insertBlocks);
    calls := insertCalls + deleteCalls;
  }

  /** Every block so far logs a search with the probe, the `b`-th answered by `identify(b)`. */
  predicate ProbeSearches(probes: seq<Text.Triple>, create: nat -> CreateResult, identify: nat -> IdentifyResult,
                          log: seq<Search.CandRow>, blocks: seq<seq<Search.CandRow>>)
  {
    && log == Seqs.Join(blocks)
    && (blocks != [] ==> probes != [])
    && forall b :: 0 <= b < |blocks| ==>
         probes != [] && Search.SearchLogged(blocks[b], probes[0].first, create(0).code, identify(b))
  }

  lemma ProbeSearchStep(probes: seq<Text.Triple>, create: nat -> CreateResult, identify: nat -> IdentifyResult,
                        log: seq<Search.CandRow>, blocks: seq<seq<Search.CandRow>>, rows: seq<Search.CandRow>)
    requires ProbeSearches(probes, create, identify, log, blocks) && probes != []
    requires Search.SearchLogged(rows, probes[0].first, create(0).code, identify(|blocks|))
    ensures ProbeSearches(probes, create, identify, log + rows, blocks + [rows])
  {
    Seqs.JoinSnoc(blocks, rows);
  }

  /** The insert loop: for i = 1 .. n - 1, insert record `i`, then search with record 0. */
  method InsertLoop(probes: seq<Text.Triple>, create: nat -> CreateResult, identify: nat -> IdentifyResult,
                    ids: seq<string>, templates: seq<seq<Byte>>, retCodes: seq<ReturnCode>)
    returns (log: seq<Search.CandRow>, calls: seq<Call>, ghost blocks: seq<seq<Search.CandRow>>)
    requires |ids| == |probes| && Workers.Templated(probes, create, ids, templates, retCodes)
    ensures |blocks| == Workers.StepCount(|probes|)
    ensures ProbeSearches(probes, create, identify, log, blocks)
    ensures calls == Workers.InsertTrace(probes, create, Workers.StepCount(|probes|))
  {
    log, calls, blocks := [], [], [];
    var i := 1;
    while i < |ids|
      invariant 1 <= i <= if |ids| == 0 then 1 else |ids|
      invariant |blocks| == i - 1
      invariant ProbeSearches(probes, create, identify, log, blocks)
      invariant calls == Workers.InsertTrace(probes, create, i - 1)
    {
      var rows, searchCalls := Search.SearchAndLog(ids[0], templates[0], retCodes[0], identify(i - 1));
      ProbeSearchStep(probes, create, identify, log, blocks, rows);
      calls := calls + [GalleryInsertID(templates[i], ids[i])] + searchCalls;
      log := log + rows;
      blocks := blocks + [rows];
      i := i + 1;
    }
  }

  /**
   * The delete loop: for i = 1 .. n - 1, delete record `i`, then search
   * with record 0, appending to the insert loop's log; the searches are
   * answered from `identify(n - 1)` on.
   */
  method DeleteLoop(probes: seq<Text.Triple>, create: nat -> CreateResult, identify: nat -> IdentifyResult,
                    ids: seq<string>, templates: seq<seq<Byte>>, retCodes: seq<ReturnCode>,
                    log0: seq<Search.CandRow>, ghost blocks0: seq<seq<Search.CandRow>>)
    returns (log: seq<Search.CandRow>, calls: seq<Call>, ghost blocks: seq<seq<Search.CandRow>>)
    requires |ids| == |probes| && Workers.Templated(probes, create, ids, templates, retCodes)
    requires |blocks0| == Workers.StepCount(|probes|)
    requires ProbeSearches(probes, create, identify, log0, blocks0)
    ensures |blocks| == 2 * Workers.StepCount(|probes|)
    ensures ProbeSearches(probes, create, identify, log, blocks)
    ensures calls == Workers.DeleteTrace(probes, create, Workers.StepCount(|probes|))
  {
    log, calls, blocks := log0, [], blocks0;
    var base := Workers.StepCount(|ids|);
    var i := 1;
    while i < |ids|
      invariant 1 <= i <= if |ids| == 0 then 1 else |ids|
      invariant DeletedUpTo(probes, create, identify, base, i - 1, log, calls, blocks)
    {
      var rows, searchCalls := Search.SearchAndLog(ids[0], templates[0], retCodes[0], identify(base + i - 1));
      DeleteStepLogged(probes, create, identify, ids, templates, retCodes, base, i, log, calls, blocks, rows);
      calls := calls + [GalleryDeleteID(ids[i])] + searchCalls;
      log := log + rows;
      blocks := blocks + [rows];
      i := i + 1;
    }
    assert i - 1 == base == Workers.StepCount(|probes|);
  }

  /** The delete loop's invariant: delete steps 1 to `s` done, their searches logged after `base` blocks. */
  predicate DeletedUpTo(probes: seq<Text.Triple>, create: nat -> CreateResult, identify: nat -> IdentifyResult,
                        base: nat, s: nat, log: seq<Search.CandRow>, calls: seq<Call>, blocks: seq<seq<Search.CandRow>>)
  {
    && (s == 0 || s < |probes|)
    && |blocks| == base + s
    && ProbeSearches(probes, create, identify, log, blocks)
    && calls == Workers.DeleteTrace(probes, create, s)
  }

  lemma DeleteStepLogged(probes: seq<Text.Triple>, create: nat -> CreateResult, identify: nat -> IdentifyResult,
                         ids: seq<string>, templates: seq<seq<Byte>>, retCodes: seq<ReturnCode>, base: nat, i: nat,
                         log: seq<Search.CandRow>, calls: seq<Call>, blocks: seq<seq<Search.CandRow>>,
                         rows: seq<Search.CandRow>)
    requires |ids| == |probes| && Workers.Templated(probes, create, ids, templates, retCodes)
    requires 1 <= i < |ids|
    requires DeletedUpTo(probes, create, identify, base, i - 1, log, calls, blocks)
    requires Search.SearchLogged(rows, ids[0], retCodes[0], identify(base + i - 1))
    ensures DeletedUpTo(probes, create, identify, base, i, log + rows,
                        calls + [GalleryDeleteID(ids[i])] + Search.SearchCalls(templates[0], retCodes[0]),
                        blocks + [rows])
  {
    assert ids[0] == probes[0].first && templates[0] == create(0).templ && retCodes[0] == create(0).code;
    assert ids[i] == probes[i].first;
    ProbeSearchStep(probes, create, identify, log, blocks, rows);
  }

  /**
   * Against an implementation that keeps its side of identifyTemplate, a
   * completed run over `n` records logs CandListLength rows for each of
   * its 2(n - 1) searches, every one under the probe's id, ranked from 0.
   */
  lemma InsertDeleteLogShape(probes: seq<Text.Triple>, disk: Workers.Disk, create: nat -> CreateResult,
                             identify: nat -> IdentifyResult, end: Pool.WorkerEnd, log: seq<Search.CandRow>,
                             calls: seq<Call>, blocks: seq<seq<Search.CandRow>>)
    requires InsertDeleteOutcome(probes, disk, true, create, identify, end, log, calls, blocks)
    requires end == Pool.Returned(Pool.SUCCESS)
    requires forall b :: 0 <= b < |blocks| ==> IdentifyConforms(Search.CandListLength, identify(b))
    ensures |log| == Search.CandListLength * 2 * Workers.StepCount(|probes|)
    ensures forall i :: 0 <= i < |log| ==>
      log[i].searchId == probes[0].first && log[i].rank == i % Search.CandListLength
  {
    var ids := seq(|blocks|, b requires 0 <= b < |blocks| => probes[0].first);
    var codes := seq(|blocks|, b requires 0 <= b < |blocks| => create(0).code);
    var answers := seq(|blocks|, b requires 0 <= b < |blocks| => identify(b));
    Search.RowsOfSearches(blocks, ids, codes, answers);
  }

  /**
   * Run against the null implementation, a completed insert-and-delete run
   * leaves its gallery as it found it, less the ids of records 1 to n - 1:
   * an entry that was enrolled under one of those ids is deleted too.
   */
  lemma RunRestoresGallery(probes: seq<Text.Triple>, disk: Workers.Disk, create: nat -> CreateResult,
                           identify: nat -> IdentifyResult, end: Pool.WorkerEnd, log: seq<Search.CandRow>,
                           calls: seq<Call>, blocks: seq<seq<Search.CandRow>>, g: map<string, seq<Byte>>)
    requires InsertDeleteOutcome(probes, disk, true, create, identify, end, log, calls, blocks)
    requires end == Pool.Returned(Pool.SUCCESS)
    ensures NullGallery.Replay(g, calls) == g - Workers.Entries(probes, Workers.StepCount(|probes|))
    ensures (forall i :: 1 <= i < |probes| ==> probes[i].first !in g) ==> NullGallery.Replay(g, calls) == g
  {
    var s := Workers.StepCount(|probes|);
    assert calls == TemplatingTrace(probes, disk, |probes|) + Workers.InsertTrace(probes, create, s)
                    + Workers.DeleteTrace(probes, create, s);
    GalleryAfterRun(probes, disk, create, g);
    if forall i :: 1 <= i < |probes| ==> probes[i].first !in g {
      Workers.RemoveAbsent(probes, s, g);
    }
  }

  lemma GalleryAfterRun(probes: seq<Text.Triple>, disk: Workers.Disk, create: nat -> CreateResult, g: map<string, seq<Byte>>)
    requires FirstBad(probes, disk) == |probes|
    ensures var s := Workers.StepCount(|probes|);
      var calls := TemplatingTrace(probes, disk, |probes|) + Workers.InsertTrace(probes, create, s)
                    + Workers.DeleteTrace(probes, create, s);
      NullGallery.Replay(g, calls) == g - Workers.Entries(probes, s)
  {
    var s := Workers.StepCount(|probes|);
    var gone := Workers.Entries(probes, s);
    var t := TemplatingTrace(probes, disk, |probes|);
    var ins := Workers.InsertTrace(probes, create, s);
    var del := Workers.DeleteTrace(probes, create, s);
    var h := NullGallery.Replay(g, t + ins);
    assert Workers.Grown(g, h, gone) by {
      NullGallery.ReplayQuiet(g, t);
      NullGallery.ReplayAppend(g, t, ins);
      Workers.InsertsAdd(probes, create, g, s);
    }
    assert NullGallery.Replay(g, t + ins + del) == h - gone by {
      NullGallery.ReplayAppend(g, t + ins, del);
      Workers.DeletesRemove(probes, create, h, s);
    }
    SameOutside(h, g, gone);
  }

  /** A gallery that only gained the ids in `gone` is the old one once they are removed again. */
  lemma SameOutside(h: map<string, seq<Byte>>, g: map<string, seq<Byte>>, gone: set<string>)
    requires Workers.Grown(g, h, gone)
    ensures h - gone == g - gone
  {
  }

  // -------------------------------------------------------------- main

  /** The log of worker `i`: `outputDir/stem.action.i`. */
  function WorkerLogPath(outputDir: string, stem: string, a: LegacyUtil.Action, i: nat): string {
    outputDir + "/" + stem + "." + LegacyUtil.ActionToString(a) + "." + Decimal.NatToString(i)
  }

  /** Two workers never share a log, and logs of different actions never coincide. */
  lemma WorkerLogsDisjoint(outputDir: string, stem: string, a: LegacyUtil.Action, b: LegacyUtil.Action, i: nat, j: nat)
    requires i != j || a != b
    ensures WorkerLogPath(outputDir, stem, a, i) != WorkerLogPath(outputDir, stem, b, j)
  {
    if a == b {
      Workers.IndexedDistinct(outputDir + "/" + stem + "." + LegacyUtil.ActionToString(a) + ".", i, j);
    } else {
      // the four action words start with four different letters
      var p := outputDir + "/" + stem + ".";
      var wa, wb := LegacyUtil.ActionToString(a), LegacyUtil.ActionToString(b);
      assert WorkerLogPath(outputDir, stem, a, i) == p + wa + "." + Decimal.NatToString(i);
      assert WorkerLogPath(outputDir, stem, b, j) == p + wb + "." + Decimal.NatToString(j);
      assert WorkerLogPath(outputDir, stem, a, i)[|p|] == wa[0];
      assert WorkerLogPath(outputDir, stem, b, j)[|p|] == wb[0];
    }
  }

  /**
   * `main`, once the action word, the flags and the implementation are in
   * hand. `initOk` is whether `initialize` succeeded, `split` how
   * `splitInputFile` ended (a zero divisor traps, and the parent dies of
   * SIGFPE); the workers' ends and the insert-and-delete
   * pass's end are given, and finalize runs on the files in `present` with
   * the implementation answering `finalizeAnswer`. An unknown word ends in the usage message and
   * EXIT_FAILURE. The parent of the enroll and search workers waits for
   * as many children as were asked for and ignores how they ended.
   */
  method Dispatch(command: string, initOk: bool, split: Util.SplitStatus, numForks: int,
                  workerEnds: seq<Pool.WorkerEnd>, outputDir: string, enrollDir: string,
                  present: set<string>, finalizeAnswer: ReturnCode, insertEnd: Pool.WorkerEnd)
    returns (end: Pool.WorkerEnd)
    requires split == Util.SplitSuccess ==> |workerEnds| == if numForks > 0 then numForks else 0
    ensures LegacyUtil.ParseCommand(command).None? ==> end == Pool.Returned(Pool.FAILURE)
    ensures command in {"enroll", "search"} ==>
      end == if initOk && split == Util.DivisionByZero then Pool.Killed
             else Pool.Returned(if initOk && split == Util.SplitSuccess then Pool.SUCCESS else Pool.FAILURE)
    ensures command == "finalize" ==> end == Pool.Returned(Finalize(outputDir, enrollDir, present, finalizeAnswer).0)
    ensures command == "insertAndDelete" ==> end == if initOk then insertEnd else Pool.Returned(Pool.FAILURE)
  {
    var action := LegacyUtil.ParseCommand(command);
    if action.None? {
      return Pool.Returned(Pool.FAILURE);
    }
    match action.value {
      case Enroll =>
        end := ForkAndWait(initOk, split, numForks, workerEnds);
      case Search =>
        end := ForkAndWait(initOk, split, numForks, workerEnds);
      case Finalize =>
        end := Pool.Returned(Finalize(outputDir, enrollDir, present, finalizeAnswer).0);
      case InsertAndDelete =>
        end := if initOk then insertEnd else Pool.Returned(Pool.FAILURE);
    }
  }

  /**
   * The enroll and search branch of `main`: initialize, split, fork, and
   * wait for the children, ignoring how they ended. A split that divides
   * by zero kills the parent.
   */
  method ForkAndWait(initOk: bool, split: Util.SplitStatus, numForks: int, workerEnds: seq<Pool.WorkerEnd>)
    returns (end: Pool.WorkerEnd)
    requires split == Util.SplitSuccess ==> |workerEnds| == if numForks > 0 then numForks else 0
    ensures end == if initOk && split == Util.DivisionByZero then Pool.Killed
                   else Pool.Returned(if initOk && split == Util.SplitSuccess then Pool.SUCCESS else Pool.FAILURE)
  {
    if !initOk {
      return Pool.Returned(Pool.FAILURE);
    }
    if split == Util.DivisionByZero {
      return Pool.Killed;
    }
    if split == Util.SplitFailure {
      return Pool.Returned(Pool.FAILURE);
    }
    var outcomes := seq(|workerEnds|, i requires 0 <= i < |workerEnds| => Pool.OutcomeOf(workerEnds[i]));
    var status := Pool.WaitForChildren(Pool.Ignored, numForks, outcomes);
    Pool.IgnoredAlwaysSucceeds(outcomes);
    end := Pool.Returned(status);
  }
}
