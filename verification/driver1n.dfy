/**
 * The 1:N validation driver (the current interface): the enrollment,
 * finalization, search and insert workers, the names of their output
 * files, the accepted actions, and how the parent reports its children.
 *
 * A worker that raises SIGTERM ends as `Pool.Killed`. Its outputs are what
 * it handed to its streams; EDB bytes still buffered at the kill need not
 * reach the file.
 */
module Driver1N {
  import opened Wrappers
  import opened Structs
  import opened IdentInterface
  import Util
  import Text
  import Decimal
  import Edb
  import Search
  import Seqs
  import Pool
  import Workers
  import NullGallery

  // ------------------------------------------------------ enrollment lines

  /** The number of (image path, description) pairs after the id; a dangling odd word is ignored. */
  function ImageCount(tokens: seq<string>): (n: nat)
    requires |tokens| >= 1
    ensures 2 * n + 1 <= |tokens| <= 2 * n + 2
  {
    (|tokens| - 1) / 2
  }

  function PathAt(tokens: seq<string>, i: nat): string
    requires |tokens| >= 1 && i < ImageCount(tokens)
  {
    tokens[2 * i + 1]
  }

  function DescAt(tokens: seq<string>, i: nat): string
    requires |tokens| >= 1 && i < ImageCount(tokens)
  {
    tokens[2 * i + 2]
  }

  /** Every image of the line loads. */
  predicate Readable(tokens: seq<string>, disk: Workers.Disk)
    requires |tokens| >= 1
  {
    forall i :: 0 <= i < ImageCount(tokens) ==> PathAt(tokens, i) in disk
  }

  /** The faces of a line whose images all load, each labelled through `mapStringToImgLabel`. */
  function FacesOf(tokens: seq<string>, disk: Workers.Disk): (faces: seq<Image>)
    requires |tokens| >= 1 && Readable(tokens, disk)
    ensures |faces| == ImageCount(tokens)
  {
    seq(ImageCount(tokens), i requires 0 <= i < ImageCount(tokens) =>
      Workers.Loaded(disk, PathAt(tokens, i), Util.LookupImgLabel(DescAt(tokens, i))))
  }

  /**
   * The image loop of `enroll`: loads each pair's image and labels it;
   * None when an image fails to load (the worker then raises SIGTERM).
   */
  method ReadFaces(tokens: seq<string>, disk: Workers.Disk) returns (faces: Option<seq<Image>>)
    requires |tokens| >= 1
    ensures faces.Some? <==> Readable(tokens, disk)
    ensures faces.Some? ==> faces.value == FacesOf(tokens, disk)
  {
    var numImages := (|tokens| - 1) / 2;
    var fs: seq<Image> := [];
    var i := 0;
    while i < numImages
      invariant 0 <= i <= numImages
      invariant |fs| == i
      invariant forall j :: 0 <= j < i ==> PathAt(tokens, j) in disk
      invariant forall j :: 0 <= j < i ==>
        fs[j] == Workers.Loaded(disk, PathAt(tokens, j), Util.LookupImgLabel(DescAt(tokens, j)))
    {
      var imagePath := tokens[i * 2 + 1];
      var desc := tokens[i * 2 + 2];
      if imagePath !in disk {
        assert PathAt(tokens, i) !in disk;
        return None;
      }
      fs := fs + [Workers.Loaded(disk, imagePath, Util.LookupImgLabel(desc))];
      i := i + 1;
    }
    return Some(fs);
  }

  /** The line passes the eye check: one eye pair per image. */
  predicate EyesMatch(tokens: seq<string>, r: CreateResult)
    requires |tokens| >= 1
  {
    |r.eyes| == ImageCount(tokens)
  }

  /** A line that enrolls without stopping the worker: its images load and the eye check passes. */
  predicate LineEnrolls(line: string, disk: Workers.Disk, r: CreateResult) {
    Readable(Util.SpaceWords(line), disk) && EyesMatch(Util.SpaceWords(line), r)
  }

  /** The log rows of an enrolled line, one per image, each with that image's eye pair. */
  function LineRows(tokens: seq<string>, r: CreateResult): (rows: seq<Workers.EnrollRow>)
    requires |tokens| >= 1 && EyesMatch(tokens, r)
    ensures |rows| == ImageCount(tokens)
  {
    seq(ImageCount(tokens), i requires 0 <= i < ImageCount(tokens) =>
      Workers.EnrollRow(tokens[0], PathAt(tokens, i), |r.templ|, CodeValue(r.code), r.eyes[i]))
  }

  /** The enrollment log after the first `n` lines enrolled. */
  function EnrollLog(lines: seq<string>, disk: Workers.Disk, create: nat -> CreateResult, n: nat): seq<Workers.EnrollRow>
    requires n <= |lines|
    requires forall k :: 0 <= k < n ==> LineEnrolls(lines[k], disk, create(k))
  {
    if n == 0 then []
    else
      assert LineEnrolls(lines[n - 1], disk, create(n - 1));
      EnrollLog(lines, disk, create, n - 1) + LineRows(Util.SpaceWords(lines[n - 1]), create(n - 1))
  }

  /** The record a line adds to the EDB: the line's id and the template made for it. */
  function LineRecord(line: string, r: CreateResult): Edb.Record {
    Edb.Record(Util.SpaceWords(line)[0], r.templ)
  }

  /** The createTemplate calls for the first `n` lines. */
  function EnrollCalls(lines: seq<string>, disk: Workers.Disk, n: nat): (cs: seq<Call>)
    requires n <= |lines|
    requires forall k :: 0 <= k < n ==> Readable(Util.SpaceWords(lines[k]), disk)
    ensures |cs| == n
  {
    if n == 0 then []
    else EnrollCalls(lines, disk, n - 1) + [CreateTemplate(FacesOf(Util.SpaceWords(lines[n - 1]), disk), Enrollment1N)]
  }

  /**
   * The log loop of `enroll` for one line whose eye check passed.
   */
  method LogLine(tokens: seq<string>, r: CreateResult) returns (rows: seq<Workers.EnrollRow>)
    requires |tokens| >= 1 && EyesMatch(tokens, r)
    ensures rows == LineRows(tokens, r)
  {
    rows := [];
    var i := 0;
    while i < |r.eyes|
      invariant 0 <= i <= |r.eyes|
      invariant rows == LineRows(tokens, r)[..i]
    {
      rows := rows + [Workers.EnrollRow(tokens[0], tokens[i * 2 + 1], |r.templ|, CodeValue(r.code), r.eyes[i])];
      i := i + 1;
    }
  }

  /**
   * `enroll`. `input` holds the lines `getline` returns, None when the
   * input does not open; `outputsOpen` says whether the log, EDB and
   * manifest streams opened; `create(k)` is what createTemplate returns for
   * line `k`; `edb` and `manifest` are what the worker handed to those
   * streams. The worker ends Killed when a stream does not open, when an
   * image does not load (before that line's template is made) or when the
   * eye count differs from the image count (after that line's manifest row
   * and bytes were handed to the streams); otherwise it returns SUCCESS.
   */
  method Enroll(input: Option<seq<string>>, outputsOpen: bool, disk: Workers.Disk, create: nat -> CreateResult)
    returns (end: Pool.WorkerEnd, records: seq<Edb.Record>, edb: seq<Byte>, manifest: string,
             log: seq<Workers.EnrollRow>, calls: seq<Call>)
    ensures edb == Edb.Bytes(records)
    ensures manifest == Edb.Render(Edb.Manifest(records))
    ensures input.None? || !outputsOpen ==> end == Pool.Killed && records == [] && log == [] && calls == []
    ensures input.Some? && outputsOpen ==> EnrollOutcome(input.value, disk, create, end, records, log, calls)
  {
    if input.None? || !outputsOpen {
      return Pool.Killed, [], [], "", [], [];
    }
    end, records, edb, manifest, log, calls := EnrollLines(input.value, disk, create);
  }

  /** What enrolling `lines` leaves behind once the streams are open. */
  predicate EnrollOutcome(lines: seq<string>, disk: Workers.Disk, create: nat -> CreateResult,
                          end: Pool.WorkerEnd, records: seq<Edb.Record>, log: seq<Workers.EnrollRow>, calls: seq<Call>)
  {
    && |records| <= |lines|
    && (forall k :: 0 <= k < |records| ==>
          Readable(Util.SpaceWords(lines[k]), disk) && records[k] == LineRecord(lines[k], create(k)))
    && (forall k :: 0 <= k < |records| - 1 ==> EyesMatch(Util.SpaceWords(lines[k]), create(k)))
    && calls == EnrollCalls(lines, disk, |records|)
    && (end == Pool.Killed || end == Pool.Returned(Pool.SUCCESS))
    && (end == Pool.Returned(Pool.SUCCESS) <==> forall k :: 0 <= k < |lines| ==> LineEnrolls(lines[k], disk, create(k)))
    && (end == Pool.Returned(Pool.SUCCESS) ==> |records| == |lines| && log == EnrollLog(lines, disk, create, |records|))
    && (end == Pool.Killed ==>
          var n := |records|;
          if 0 < n && !EyesMatch(Util.SpaceWords(lines[n - 1]), create(n - 1)) then
            log == EnrollLog(lines, disk, create, n - 1)
          else
            n < |lines| && !Readable(Util.SpaceWords(lines[n]), disk) && log == EnrollLog(lines, disk, create, n))
  }

  /** The state after the first `k` lines enrolled. */
  predicate EnrolledSoFar(lines: seq<string>, disk: Workers.Disk, create: nat -> CreateResult, k: nat,
                          records: seq<Edb.Record>, log: seq<Workers.EnrollRow>, calls: seq<Call>)
  {
    && k <= |lines|
    && |records| == k
    && (forall j :: 0 <= j < k ==> LineEnrolls(lines[j], disk, create(j)))
    && (forall j :: 0 <= j < k ==> records[j] == LineRecord(lines[j], create(j)))
    && calls == EnrollCalls(lines, disk, k)
    && log == EnrollLog(lines, disk, create, k)
  }

  lemma AllLinesEnrolled(lines: seq<string>, disk: Workers.Disk, create: nat -> CreateResult,
                         records: seq<Edb.Record>, log: seq<Workers.EnrollRow>, calls: seq<Call>)
    requires EnrolledSoFar(lines, disk, create, |lines|, records, log, calls)
    ensures EnrollOutcome(lines, disk, create, Pool.Returned(Pool.SUCCESS), records, log, calls)
  {
  }

  lemma KilledAtImage(lines: seq<string>, disk: Workers.Disk, create: nat -> CreateResult, k: nat,
                      records: seq<Edb.Record>, log: seq<Workers.EnrollRow>, calls: seq<Call>)
    requires EnrolledSoFar(lines, disk, create, k, records, log, calls)
    requires k < |lines| && !Readable(Util.SpaceWords(lines[k]), disk)
    ensures EnrollOutcome(lines, disk, create, Pool.Killed, records, log, calls)
  {
    assert !LineEnrolls(lines[k], disk, create(k));
  }

  lemma KilledAtEyes(lines: seq<string>, disk: Workers.Disk, create: nat -> CreateResult, k: nat,
                     records: seq<Edb.Record>, log: seq<Workers.EnrollRow>, calls: seq<Call>)
    requires EnrolledSoFar(lines, disk, create, k, records, log, calls)
    requires k < |lines| && Readable(Util.SpaceWords(lines[k]), disk) && !EyesMatch(Util.SpaceWords(lines[k]), create(k))
    ensures var calls' := calls + [CreateTemplate(FacesOf(Util.SpaceWords(lines[k]), disk), Enrollment1N)];
      EnrollOutcome(lines, disk, create, Pool.Killed, records + [LineRecord(lines[k], create(k))], log, calls')
  {
    assert !LineEnrolls(lines[k], disk, create(k));
    var records' := records + [LineRecord(lines[k], create(k))];
    assert forall j :: 0 <= j < k ==> records'[j] == records[j];
  }

  lemma NextLineEnrolled(lines: seq<string>, disk: Workers.Disk, create: nat -> CreateResult, k: nat,
                         records: seq<Edb.Record>, log: seq<Workers.EnrollRow>, calls: seq<Call>)
    requires EnrolledSoFar(lines, disk, create, k, records, log, calls)
    requires k < |lines| && LineEnrolls(lines[k], disk, create(k))
    ensures var tokens := Util.SpaceWords(lines[k]);
      EnrolledSoFar(lines, disk, create, k + 1, records + [LineRecord(lines[k], create(k))],
                    log + LineRows(tokens, create(k)),
                    calls + [CreateTemplate(FacesOf(tokens, disk), Enrollment1N)])
  {
  }

  /** The line loop of `enroll`. */
  method EnrollLines(lines: seq<string>, disk: Workers.Disk, create: nat -> CreateResult)
    returns (end: Pool.WorkerEnd, records: seq<Edb.Record>, edb: seq<Byte>, manifest: string,
             log: seq<Workers.EnrollRow>, calls: seq<Call>)
    ensures edb == Edb.Bytes(records)
    ensures manifest == Edb.Render(Edb.Manifest(records))
    ensures EnrollOutcome(lines, disk, create, end, records, log, calls)
  {
    records, edb, manifest, log, calls := [], [], "", [], [];
    var k := 0;
    while k < |lines|
      invariant EnrolledSoFar(lines, disk, create, k, records, log, calls)
      invariant edb == Edb.Bytes(records)
      invariant manifest == Edb.Render(Edb.Manifest(records))
    {
      var tokens := Util.Split(lines[k], ' ');
      assert tokens == Util.SpaceWords(lines[k]);
      var id := tokens[0];
      var faces := ReadFaces(tokens, disk);
      if faces.None? {
        KilledAtImage(lines, disk, create, k, records, log, calls);
        return Pool.Killed, records, edb, manifest, log, calls;
      }
      var r := create(k);
      var record := Edb.Record(id, r.templ);
      assert record == LineRecord(lines[k], create(k));
      if |faces.value| != |r.eyes| {
        KilledAtEyes(lines, disk, create, k, records, log, calls);
        calls := calls + [CreateTemplate(faces.value, Enrollment1N)];
        records, edb, manifest := Workers.WriteRecord(records, edb, manifest, record);
        return Pool.Killed, records, edb, manifest, log, calls;
      }
      NextLineEnrolled(lines, disk, create, k, records, log, calls);
      calls := calls + [CreateTemplate(faces.value, Enrollment1N)];
      records, edb, manifest := Workers.WriteRecord(records, edb, manifest, record);
      var rows := LogLine(tokens, r);
      log := log + rows;
      k := k + 1;
    }
    AllLinesEnrolled(lines, disk, create, records, log, calls);
    end := Pool.Returned(Pool.SUCCESS);
  }

  /**
   * The files an enrollment leaves behind read back as what was enrolled:
   * with single-word ids, row `k` of the manifest names line `k`'s id and
   * its template's size, and the EDB bytes at the row's offset are that
   * template, whatever createTemplate returned for it.
   */
  lemma EnrolledRecordsReadBack(lines: seq<string>, create: nat -> CreateResult, records: seq<Edb.Record>)
    requires |records| <= |lines|
    requires forall k :: 0 <= k < |records| ==> records[k] == LineRecord(lines[k], create(k))
    requires forall k :: 0 <= k < |records| ==> Edb.IsWord(records[k].id)
    ensures var m, edb := Edb.ParseManifest(Edb.Render(Edb.Manifest(records))), Edb.Bytes(records);
      && |m| == |records|
      && forall k :: 0 <= k < |records| ==>
           && m[k].id == Util.SpaceWords(lines[k])[0]
           && m[k].size == |create(k).templ|
           && m[k].offset + m[k].size <= |edb|
           && edb[m[k].offset..m[k].offset + m[k].size] == create(k).templ
  {
    Edb.ReadBack(records);
    forall k | 0 <= k < |records|
      ensures Edb.RowReadsBack(Edb.Manifest(records)[k], Edb.Bytes(records), Edb.Record(Util.SpaceWords(lines[k])[0], create(k).templ))
    {
      assert records[k] == LineRecord(lines[k], create(k));
    }
  }

  // ------------------------------------------------------------- finalize

  /**
   * `finalize`: Killed unless both `edbDir/edb` and `edbDir/manifest`
   * exist (among `present`); otherwise finalizeEnrollment is asked to
   * take them, and a return code other than Success (`answer`) kills the
   * worker too.
   */
  function Finalize(edbDir: string, enrollDir: string, present: set<string>, answer: ReturnCode)
    : (r: (Pool.WorkerEnd, seq<Call>))
    ensures var edb, manifest := edbDir + "/edb", edbDir + "/manifest";
      && (r.1 != [] <==> edb in present && manifest in present)
      && (r.1 != [] ==> r.1 == [FinalizeEnrollment(enrollDir, edb, manifest, Unconsolidated)])
      && (r.0 == Pool.Returned(Pool.SUCCESS) <==> edb in present && manifest in present && answer == Success)
      && (r.0 != Pool.Returned(Pool.SUCCESS) ==> r.0 == Pool.Killed)
  {
    var edb, manifest := edbDir + "/edb", edbDir + "/manifest";
    if !(edb in present && manifest in present) then (Pool.Killed, [])
    else
      var calls := [FinalizeEnrollment(enrollDir, edb, manifest, Unconsolidated)];
      if answer != Success then (Pool.Killed, calls) else (Pool.Returned(Pool.SUCCESS), calls)
  }

  // --------------------------------------------------------------- search

  /** A probe's face: its image, labelled through `mapStringToImgLabel`. */
  function ProbeFace(disk: Workers.Disk, p: Text.Triple): Image
    requires p.second in disk
  {
    Workers.Loaded(disk, p.second, Util.LookupImgLabel(p.third))
  }

  /** The calls for the first `n` probes: templating as Search1N, then the search if templating succeeded. */
  function SearchTrace(probes: seq<Text.Triple>, disk: Workers.Disk, create: nat -> CreateResult, n: nat): seq<Call>
    requires n <= |probes|
    requires forall j :: 0 <= j < n ==> probes[j].second in disk
  {
    if n == 0 then []
    else
      SearchTrace(probes, disk, create, n - 1)
      + [CreateTemplate([ProbeFace(disk, probes[n - 1])], Search1N)]
      + Search.SearchCalls(create(n - 1).templ, create(n - 1).code)
  }

  /**
   * What a search worker with open streams leaves behind: one logged block
   * per probe up to the first whose image does not load, where it is
   * killed.
   */
  predicate SearchOutcome(probes: seq<Text.Triple>, disk: Workers.Disk, create: nat -> CreateResult,
                          identify: nat -> IdentifyResult, end: Pool.WorkerEnd, log: seq<Search.CandRow>,
                          calls: seq<Call>, blocks: seq<seq<Search.CandRow>>)
  {
    var n := Workers.FirstMissing(probes, disk);
    && |blocks| == n
    && log == Seqs.Join(blocks)
    && (forall j :: 0 <= j < n ==> Search.SearchLogged(blocks[j], probes[j].first, create(j).code, identify(j)))
    && calls == SearchTrace(probes, disk, create, n)
    && (end == Pool.Returned(Pool.SUCCESS) <==> n == |probes|)
    && (end != Pool.Returned(Pool.SUCCESS) ==> end == Pool.Killed)
  }

  /**
   * `search`. `input` is the text of the input file, None when it does not
   * open; `logOpens` says whether the candidate-list log opened;
   * `create(j)` and `identify(j)` answer for probe `j`. `blocks` groups the
   * log by probe.
   */
  method SearchWorker(input: Option<string>, logOpens: bool, disk: Workers.Disk,
                      create: nat -> CreateResult, identify: nat -> IdentifyResult)
    returns (end: Pool.WorkerEnd, log: seq<Search.CandRow>, calls: seq<Call>, ghost blocks: seq<seq<Search.CandRow>>)
    ensures input.None? || !logOpens ==> end == Pool.Killed && log == [] && calls == [] && blocks == []
    ensures input.Some? && logOpens ==>
      SearchOutcome(Workers.Probes(input.value), disk, create, identify, end, log, calls, blocks)
  {
    log, calls, blocks := [], [], [];
    if input.None? || !logOpens {
      return Pool.Killed, log, calls, blocks;
    }
    var probes := Workers.Probes(input.value);
    var j := 0;
    while j < |probes|
      invariant SearchedUpTo(probes, disk, create, identify, j, log, calls, blocks)
    {
      var p := probes[j];
      if p.second !in disk {
        SearchStopsAt(probes, disk, j);
        return Pool.Killed, log, calls, blocks;
      }
      var face := Workers.Loaded(disk, p.second, Util.LookupImgLabel(p.third));
      var r := create(j);
      var rows, searchCalls := Search.SearchAndLog(p.first, r.templ, r.code, identify(j));
      SearchStep(probes, disk, create, identify, j, log, calls, blocks, rows);
      calls := calls + [CreateTemplate([face], Search1N)] + searchCalls;
      log := log + rows;
      blocks := blocks + [rows];
      j := j + 1;
    }
    end := Pool.Returned(Pool.SUCCESS);
  }

  /** The search loop's invariant: the first `j` probes are searched and logged. */
  predicate SearchedUpTo(probes: seq<Text.Triple>, disk: Workers.Disk, create: nat -> CreateResult,
                         identify: nat -> IdentifyResult, j: nat, log: seq<Search.CandRow>,
                         calls: seq<Call>, blocks: seq<seq<Search.CandRow>>)
  {
    && j <= |probes|
    && (forall i :: 0 <= i < j ==> probes[i].second in disk)
    && |blocks| == j
    && log == Seqs.Join(blocks)
    && (forall i :: 0 <= i < j ==> Search.SearchLogged(blocks[i], probes[i].first, create(i).code, identify(i)))
    && calls == SearchTrace(probes, disk, create, j)
  }

  lemma SearchStep(probes: seq<Text.Triple>, disk: Workers.Disk, create: nat -> CreateResult,
                   identify: nat -> IdentifyResult, j: nat, log: seq<Search.CandRow>,
                   calls: seq<Call>, blocks: seq<seq<Search.CandRow>>, rows: seq<Search.CandRow>)
    requires SearchedUpTo(probes, disk, create, identify, j, log, calls, blocks)
    requires j < |probes| && probes[j].second in disk
    requires Search.SearchLogged(rows, probes[j].first, create(j).code, identify(j))
    ensures SearchedUpTo(probes, disk, create, identify, j + 1, log + rows,
                         calls + [CreateTemplate([ProbeFace(disk, probes[j])], Search1N)]
                           + Search.SearchCalls(create(j).templ, create(j).code),
                         blocks + [rows])
  {
    Seqs.JoinSnoc(blocks, rows);
  }

  /** A probe whose image does not load, after all before it did, is the first such. */
  lemma SearchStopsAt(probes: seq<Text.Triple>, disk: Workers.Disk, j: nat)
    requires j < |probes| && probes[j].second !in disk
    requires forall i :: 0 <= i < j ==> probes[i].second in disk
    ensures Workers.FirstMissing(probes, disk) == j
  {
  }

  // --------------------------------------------------------------- insert

  /** The createTemplate calls for the first `n` records of an insert run, the first as the probe. */
  function TemplatingTrace(probes: seq<Text.Triple>, disk: Workers.Disk, n: nat): (cs: seq<Call>)
    requires n <= |probes|
    requires forall j :: 0 <= j < n ==> probes[j].second in disk
    ensures |cs| == n
  {
    if n == 0 then []
    else TemplatingTrace(probes, disk, n - 1) + [CreateTemplate([ProbeFace(disk, probes[n - 1])], Workers.RoleOf(n - 1))]
  }

  /** The search id of insert step `i`: the probe's id, a dot, and the step number. */
  function InsertSearchId(probeId: string, i: nat): string {
    probeId + "." + Decimal.NatToString(i)
  }

  /** Each insert step logs under its own search id. */
  lemma InsertSearchIdsDistinct(probeId: string, i: nat, j: nat)
    requires InsertSearchId(probeId, i) == InsertSearchId(probeId, j)
    ensures i == j
  {
    var pre := probeId + ".";
    assert InsertSearchId(probeId, i)[|pre|..] == Decimal.NatToString(i);
    assert InsertSearchId(probeId, j)[|pre|..] == Decimal.NatToString(j);
    Decimal.NatToStringInjective(i, j);
  }

  /**
   * What an insert worker leaves behind. An image that does not load
   * kills it during templating; a candidate-list log that does not open
   * kills it after templating; otherwise each later record is inserted in
   * turn and the probe searched after each insert.
   */
  predicate InsertOutcome(probes: seq<Text.Triple>, disk: Workers.Disk, logOpens: bool,
                          create: nat -> CreateResult, identify: nat -> IdentifyResult, end: Pool.WorkerEnd,
                          log: seq<Search.CandRow>, calls: seq<Call>, blocks: seq<seq<Search.CandRow>>)
  {
    var m := Workers.FirstMissing(probes, disk);
    if m < |probes| || !logOpens then
      end == Pool.Killed && log == [] && blocks == [] && calls == TemplatingTrace(probes, disk, m)
    else
      && end == Pool.Returned(Pool.SUCCESS)
      && |blocks| == Workers.StepCount(|probes|)
      && log == Seqs.Join(blocks)
      && (forall b :: 0 <= b < |blocks| ==>
            Search.SearchLogged(blocks[b], InsertSearchId(probes[0].first, b + 1), create(0).code, identify(b)))
      && calls == TemplatingTrace(probes, disk, |probes|) + Workers.InsertTrace(probes, create, |blocks|)
  }

  /**
   * `insert`. `input` is the text of the input file, None when it does not
   * open; `create(j)` answers for record `j`, `identify(b)` for the search
   * of step `b + 1`. Insert return codes are not looked at.
   */
  method InsertWorker(input: Option<string>, logOpens: bool, disk: Workers.Disk,
                      create: nat -> CreateResult, identify: nat -> IdentifyResult)
    returns (end: Pool.WorkerEnd, log: seq<Search.CandRow>, calls: seq<Call>, ghost blocks: seq<seq<Search.CandRow>>)
    ensures input.None? ==> end == Pool.Killed && log == [] && calls == [] && blocks == []
    ensures input.Some? ==>
      InsertOutcome(Workers.Probes(input.value), disk, logOpens, create, identify, end, log, calls, blocks)
  {
    log, calls, blocks := [], [], [];
    if input.None? {
      return Pool.Killed, log, calls, blocks;
    }
    var probes := Workers.Probes(input.value);
    var ok, ids, templates, retCodes;
    ok, ids, templates, retCodes, calls := TemplateRecords(probes, disk, create);
    if !ok || !logOpens {
      return Pool.Killed, log, calls, blocks;
    }
    var stepCalls;
    log, stepCalls, blocks := InsertSteps(probes, create, identify, ids, templates, retCodes);
    calls := calls + stepCalls;
    end := Pool.Returned(Pool.SUCCESS);
  }

  /**
   * The reading loop of `insert`: every record is templated in order, the
   * first as the probe, until an image does not load (`ok` false).
   */
  method TemplateRecords(probes: seq<Text.Triple>, disk: Workers.Disk, create: nat -> CreateResult)
    returns (ok: bool, ids: seq<string>, templates: seq<seq<Byte>>, retCodes: seq<ReturnCode>, calls: seq<Call>)
    ensures ok <==> Workers.FirstMissing(probes, disk) == |probes|
    ensures calls == TemplatingTrace(probes, disk, Workers.FirstMissing(probes, disk))
    ensures ok ==> |ids| == |probes| && Workers.Templated(probes, create, ids, templates, retCodes)
  {
    ids, templates, retCodes, calls := [], [], [], [];
    var j := 0;
    while j < |probes|
      invariant TemplatedUpTo(probes, disk, create, j, ids, templates, retCodes, calls)
    {
      var p := probes[j];
      if p.second !in disk {
        SearchStopsAt(probes, disk, j);
        return false, ids + [p.first], templates, retCodes, calls;
      }
      var face := Workers.Loaded(disk, p.second, Util.LookupImgLabel(p.third));
      var role := if j == 0 then Search1N else Enrollment1N;
      var r := create(j);
      TemplatingStep(probes, disk, create, j, ids, templates, retCodes, calls);
      ids := ids + [p.first];
      calls := calls + [CreateTemplate([face], role)];
      retCodes := retCodes + [r.code];
      templates := templates + [r.templ];
      j := j + 1;
    }
    ok := true;
  }

  /** The reading loop's invariant: the first `j` records loaded and were templated in order. */
  predicate TemplatedUpTo(probes: seq<Text.Triple>, disk: Workers.Disk, create: nat -> CreateResult, j: nat,
                          ids: seq<string>, templates: seq<seq<Byte>>, retCodes: seq<ReturnCode>, calls: seq<Call>)
  {
    && j <= |probes|
    && (forall i :: 0 <= i < j ==> probes[i].second in disk)
    && |ids| == j && Workers.Templated(probes, create, ids, templates, retCodes)
    && calls == TemplatingTrace(probes, disk, j)
  }

  lemma TemplatingStep(probes: seq<Text.Triple>, disk: Workers.Disk, create: nat -> CreateResult, j: nat,
                       ids: seq<string>, templates: seq<seq<Byte>>, retCodes: seq<ReturnCode>, calls: seq<Call>)
    requires TemplatedUpTo(probes, disk, create, j, ids, templates, retCodes, calls)
    requires j < |probes| && probes[j].second in disk
    ensures TemplatedUpTo(probes, disk, create, j + 1, ids + [probes[j].first], templates + [create(j).templ],
                          retCodes + [create(j).code],
                          calls + [CreateTemplate([ProbeFace(disk, probes[j])], if j == 0 then Search1N else Enrollment1N)])
  {
    Workers.TemplatedStep(probes, create, ids, templates, retCodes);
  }

  /** The step loop of `insert`: for i = 1 .. n - 1, insert record `i`, then search with record 0. */
  method InsertSteps(probes: seq<Text.Triple>, create: nat -> CreateResult, identify: nat -> IdentifyResult,
                     ids: seq<string>, templates: seq<seq<Byte>>, retCodes: seq<ReturnCode>)
    returns (log: seq<Search.CandRow>, calls: seq<Call>, ghost blocks: seq<seq<Search.CandRow>>)
    requires |ids| == |probes| && Workers.Templated(probes, create, ids, templates, retCodes)
    ensures |blocks| == Workers.StepCount(|probes|)
    ensures log == Seqs.Join(blocks)
    ensures forall b :: 0 <= b < |blocks| ==>
      Search.SearchLogged(blocks[b], InsertSearchId(probes[0].first, b + 1), create(0).code, identify(b))
    ensures calls == Workers.InsertTrace(probes, create, |blocks|)
  {
    log, calls, blocks := [], [], [];
    var i := 1;
    while i < |ids|
      invariant 1 <= i <= if |ids| == 0 then 1 else |ids|
      invariant InsertedUpTo(probes, create, identify, i - 1, log, calls, blocks)
    {
      var rows, searchCalls := Search.SearchAndLog(ids[0] + "." + Decimal.NatToString(i), templates[0], retCodes[0], identify(i - 1));
      InsertStepLogged(probes, create, identify, i - 1, log, calls, blocks, rows);
      calls := calls + [GalleryInsertID(templates[i], ids[i])] + searchCalls;
      log := log + rows;
      blocks := blocks + [rows];
      i := i + 1;
    }
  }

  /** The step loop's invariant: steps 1 to `s` inserted their records and logged their searches. */
  predicate InsertedUpTo(probes: seq<Text.Triple>, create: nat -> CreateResult, identify: nat -> IdentifyResult,
                         s: nat, log: seq<Search.CandRow>, calls: seq<Call>, blocks: seq<seq<Search.CandRow>>)
  {
    && (s == 0 || s < |probes|)
    && |blocks| == s
    && log == Seqs.Join(blocks)
    && (forall b :: 0 <= b < s ==>
          Search.SearchLogged(blocks[b], InsertSearchId(probes[0].first, b + 1), create(0).code, identify(b)))
    && calls == Workers.InsertTrace(probes, create, s)
  }

  lemma InsertStepLogged(probes: seq<Text.Triple>, create: nat -> CreateResult, identify: nat -> IdentifyResult,
                         s: nat, log: seq<Search.CandRow>, calls: seq<Call>, blocks: seq<seq<Search.CandRow>>,
                         rows: seq<Search.CandRow>)
    requires InsertedUpTo(probes, create, identify, s, log, calls, blocks)
    requires s + 1 < |probes|
    requires Search.SearchLogged(rows, InsertSearchId(probes[0].first, s + 1), create(0).code, identify(s))
    ensures InsertedUpTo(probes, create, identify, s + 1, log + rows,
                         calls + Workers.InsertStep(create(s + 1).templ, probes[s + 1].first, create(0)),
                         blocks + [rows])
  {
    Seqs.JoinSnoc(blocks, rows);
  }

  /**
   * Against an implementation that keeps its side of identifyTemplate, an
   * insert run over `n` records logs CandListLength rows for each of its
   * n - 1 steps, step `b + 1`'s block under its own search id.
   */
  lemma InsertLogShape(probes: seq<Text.Triple>, disk: Workers.Disk, create: nat -> CreateResult,
                       identify: nat -> IdentifyResult, end: Pool.WorkerEnd, log: seq<Search.CandRow>,
                       calls: seq<Call>, blocks: seq<seq<Search.CandRow>>)
    requires InsertOutcome(probes, disk, true, create, identify, end, log, calls, blocks)
    requires end == Pool.Returned(Pool.SUCCESS)
    requires forall b :: 0 <= b < |blocks| ==> IdentifyConforms(Search.CandListLength, identify(b))
    ensures |log| == Search.CandListLength * Workers.StepCount(|probes|)
    ensures forall b :: 0 <= b < |blocks| ==>
      var rows := log[Search.CandListLength * b..Search.CandListLength * b + Search.CandListLength];
      forall r :: 0 <= r < |rows| ==> rows[r].searchId == InsertSearchId(probes[0].first, b + 1) && rows[r].rank == r
  {
    var ids := seq(|blocks|, b requires 0 <= b < |blocks| => InsertSearchId(probes[0].first, b + 1));
    var codes := seq(|blocks|, b requires 0 <= b < |blocks| => create(0).code);
    var answers := seq(|blocks|, b requires 0 <= b < |blocks| => identify(b));
    assert forall b :: 0 <= b < |blocks| ==>
      ids[b] == InsertSearchId(probes[0].first, b + 1) && codes[b] == create(0).code && answers[b] == identify(b);
    Search.LogOfSearches(blocks, ids, codes, answers);
    forall b | 0 <= b < |blocks|
      ensures var rows := log[Search.CandListLength * b..Search.CandListLength * b + Search.CandListLength];
        forall r :: 0 <= r < |rows| ==> rows[r].searchId == InsertSearchId(probes[0].first, b + 1) && rows[r].rank == r
    {
      assert log[Search.CandListLength * b..Search.CandListLength * b + Search.CandListLength] == blocks[b];
      assert ids[b] == InsertSearchId(probes[0].first, b + 1);
    }
  }

  /** Templating calls leave the gallery as it was. */
  lemma {:induction false} TemplatingKeepsGallery(probes: seq<Text.Triple>, disk: Workers.Disk, n: nat,
                                                  g: map<string, seq<Byte>>)
    requires n <= |probes|
    requires forall j :: 0 <= j < n ==> probes[j].second in disk
    ensures NullGallery.Replay(g, TemplatingTrace(probes, disk, n)) == g
  {
    if n > 0 {
      var t := TemplatingTrace(probes, disk, n);
      assert t[..n - 1] == TemplatingTrace(probes, disk, n - 1);
      TemplatingKeepsGallery(probes, disk, n - 1, g);
    }
  }

  /**
   * Run against the null implementation, a completed insert run adds the
   * ids of records 1 to n - 1 to its gallery and leaves every template
   * already there as it was; nothing is removed.
   */
  lemma InsertRunGrowsGallery(probes: seq<Text.Triple>, disk: Workers.Disk, create: nat -> CreateResult,
                              identify: nat -> IdentifyResult, end: Pool.WorkerEnd, log: seq<Search.CandRow>,
                              calls: seq<Call>, blocks: seq<seq<Search.CandRow>>, g: map<string, seq<Byte>>)
    requires InsertOutcome(probes, disk, true, create, identify, end, log, calls, blocks)
    requires end == Pool.Returned(Pool.SUCCESS)
    ensures NullGallery.Replay(g, calls).Keys == g.Keys + Workers.Entries(probes, Workers.StepCount(|probes|))
    ensures forall x :: x in g ==> NullGallery.Replay(g, calls)[x] == g[x]
  {
    var s := Workers.StepCount(|probes|);
    var t := TemplatingTrace(probes, disk, |probes|);
    var ins := Workers.InsertTrace(probes, create, s);
    assert calls == t + ins;
    TemplatingKeepsGallery(probes, disk, |probes|, g);
    NullGallery.ReplayAppend(g, t, ins);
    Workers.InsertsAdd(probes, create, g, s);
  }

  // ------------------------------------------------------ main and naming

  /** The actions this driver runs; `mapStringToAction[s]` is taken, and anything else ends in usage. */
  function ParseCommand(s: string): (r: Option<Util.Action>)
    ensures r.Some? <==> s in {"enroll_1N", "finalize_1N", "search_1N", "insert"}
    ensures r.Some? ==> Util.ActionName(r.value) == s
  {
    var a := Util.LookupAction(s);
    if a in {Util.Enroll1N, Util.Finalize1N, Util.Search1N, Util.Insert} then Some(a) else None
  }

  /** The `frvt_structs.h` and API versions this driver was written against. */
  const StructsVersion: (int, int) := (1, 1)
  const ApiVersion: (int, int) := (1, 0)

  /**
   * `main`, once the flags are parsed. The library's versions are given;
   * `initOk` is whether every initialization call `initialize` makes
   * succeeded (on a failure it raises SIGTERM, so its EXIT_FAILURE check in
   * `main` is never taken); `split` is how `splitInputFile` ended and
   * `fileVector` the shard list it produced, with one worker end per shard
   * in the order `wait` reaped them. A zero divisor in `splitInputFile`
   * (no lines, or `-t 0`) traps, and the parent dies of SIGFPE. The finalize branch runs `finalize` on the files
   * in `present`; the insert worker's end is given.
   */
  method Dispatch(command: string, structsVersion: (int, int), apiVersion: (int, int), initOk: bool,
                  split: Util.SplitStatus, fileVector: seq<string>, workerEnds: seq<Pool.WorkerEnd>,
                  outputDir: string, enrollDir: string, present: set<string>, finalizeAnswer: ReturnCode,
                  insertEnd: Pool.WorkerEnd)
    returns (end: Pool.WorkerEnd)
    requires split == Util.SplitSuccess ==> |workerEnds| == |fileVector|
    ensures structsVersion != StructsVersion || apiVersion != ApiVersion || ParseCommand(command).None? ==>
      end == Pool.Returned(Pool.FAILURE)
    ensures structsVersion == StructsVersion && apiVersion == ApiVersion ==>
      && (command in {"enroll_1N", "search_1N"} ==>
            end == if !initOk || split == Util.DivisionByZero then Pool.Killed
                   else if split == Util.SplitFailure then Pool.Returned(Pool.FAILURE)
                   else if workerEnds == [] then Pool.Returned(Pool.SUCCESS)
                   else Pool.Returned(match workerEnds[|workerEnds| - 1]
                                        case Returned(v) => Pool.ExitStatus(v)
                                        case Killed => Pool.FAILURE))
      && (command == "finalize_1N" ==> end == Finalize(outputDir, enrollDir, present, finalizeAnswer).0)
      && (command == "insert" ==> end == if initOk then insertEnd else Pool.Killed)
  {
    if structsVersion != StructsVersion || apiVersion != ApiVersion {
      return Pool.Returned(Pool.FAILURE);
    }
    var action := ParseCommand(command);
    if action.None? {
      // the usage message exits with EXIT_FAILURE
      return Pool.Returned(Pool.FAILURE);
    }
    match action.value {
      case Finalize1N =>
        end := Finalize(outputDir, enrollDir, present, finalizeAnswer).0;
      case Insert =>
        end := if initOk then insertEnd else Pool.Killed;
      case _ =>
        if !initOk || split == Util.DivisionByZero {
          return Pool.Killed;
        }
        if split == Util.SplitFailure {
          return Pool.Returned(Pool.FAILURE);
        }
        // after a successful split `numForks` is the number of shards
        var status := Pool.LastWinsExit(|fileVector|, workerEnds);
        end := Pool.Returned(status);
    }
  }

  /** The log of worker `i`: `outputDir/stem.action.i`. */
  function WorkerLogPath(outputDir: string, stem: string, a: Util.Action, i: nat): string {
    outputDir + "/" + stem + "." + Util.ActionName(a) + "." + Decimal.NatToString(i)
  }

  /** The EDB of enrollment worker `i`: `outputDir/edb.i`. */
  function EdbPath(outputDir: string, i: nat): string {
    outputDir + "/edb." + Decimal.NatToString(i)
  }

  /** The manifest of enrollment worker `i`: `outputDir/manifest.i`. */
  function ManifestPath(outputDir: string, i: nat): string {
    outputDir + "/manifest." + Decimal.NatToString(i)
  }

  /** The insert worker's single log: `outputDir/stem.insert`, with no index. */
  function InsertLogPath(outputDir: string, stem: string): string {
    outputDir + "/" + stem + "." + Util.ActionName(Util.Insert)
  }

  /** Two workers never share an output file: every name carries the worker's index. */
  lemma WorkerOutputsDisjoint(outputDir: string, stem: string, a: Util.Action, i: nat, j: nat)
    requires i != j
    ensures WorkerLogPath(outputDir, stem, a, i) != WorkerLogPath(outputDir, stem, a, j)
    ensures EdbPath(outputDir, i) != EdbPath(outputDir, j)
    ensures ManifestPath(outputDir, i) != ManifestPath(outputDir, j)
    ensures EdbPath(outputDir, i) != ManifestPath(outputDir, j)
  {
    var lp := outputDir + "/" + stem + "." + Util.ActionName(a) + ".";
    Workers.IndexedDistinct(lp, i, j);
    Workers.IndexedDistinct(outputDir + "/edb.", i, j);
    Workers.IndexedDistinct(outputDir + "/manifest.", i, j);
    assert EdbPath(outputDir, i)[|outputDir| + 1] == 'e';
    assert ManifestPath(outputDir, j)[|outputDir| + 1] == 'm';
  }
}
