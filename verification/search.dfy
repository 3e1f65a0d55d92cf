/**
 * Candidate-list shaping and logging (`searchAndLog`, the same code in both
 * 1:N drivers): search when the probe template was created, pad with
 * default candidates when creation or the search failed, and log one row
 * per candidate.
 */
module Search {
  import opened Structs
  import opened IdentInterface
  import Seqs

  /** The number of candidates every search asks for. */
  const CandListLength: nat := 20

  /** `vector::resize(k)`: keep the first `k` entries, padding with default candidates. */
  function Resize(cs: seq<Candidate>, k: nat): (r: seq<Candidate>)
    ensures |r| == k
    ensures forall i :: 0 <= i < k ==> r[i] == if i < |cs| then cs[i] else DefaultCandidate
  {
    if k <= |cs| then cs[..k] else cs + seq(k - |cs|, _ => DefaultCandidate)
  }

  /** One row of the candidate-list log: `searchId candidateRank searchRetCode isAssigned templateId score decision`. */
  datatype CandRow = CandRow(searchId: string, rank: nat, searchRetCode: nat,
                             isAssigned: bool, templateId: string, score: real, decision: bool)

  /** The rows logged for `list`, ranked from 0, all carrying the same code and decision. */
  predicate LogsList(rows: seq<CandRow>, id: string, code: ReturnCode, list: seq<Candidate>, decision: bool) {
    && |rows| == |list|
    && forall i :: 0 <= i < |rows| ==>
         rows[i] == CandRow(id, i, CodeValue(code), list[i].isAssigned, list[i].templateId,
                            list[i].similarityScore, decision)
  }

  /**
   * The rows one search logs: on a failed creation CandListLength default
   * candidates with the creation's code and decision false; on a failed
   * search the returned list resized to CandListLength with the search's
   * code; on success the returned list as it is.
   */
  predicate SearchLogged(rows: seq<CandRow>, id: string, templGenRet: ReturnCode, answer: IdentifyResult) {
    && (templGenRet != Success ==>
          LogsList(rows, id, templGenRet, seq(CandListLength, _ => DefaultCandidate), false))
    && (templGenRet == Success && answer.code != Success ==>
          LogsList(rows, id, answer.code, Resize(answer.candidates, CandListLength), answer.decision))
    && (templGenRet == Success && answer.code == Success ==>
          LogsList(rows, id, Success, answer.candidates, answer.decision))
  }

  /** What one search asks of the implementation: identifyTemplate only when the probe template was created. */
  function SearchCalls(templ: seq<Byte>, templGenRet: ReturnCode): seq<Call> {
    if templGenRet == Success then [IdentifyTemplate(templ, CandListLength)] else []
  }

  /**
   * `searchAndLog`. `answer` is what identifyTemplate returns if it is
   * called; `calls` is what was asked of the implementation.
   */
  method SearchAndLog(id: string, templ: seq<Byte>, templGenRet: ReturnCode, answer: IdentifyResult)
    returns (rows: seq<CandRow>, calls: seq<Call>)
    ensures calls == SearchCalls(templ, templGenRet)
    ensures SearchLogged(rows, id, templGenRet, answer)
  {
    var candidateList: seq<Candidate> := [];
    var decision := false;
    var ret: ReturnCode;
    calls := [];
    if templGenRet == Success {
      calls := [IdentifyTemplate(templ, CandListLength)];
      ret, candidateList, decision := answer.code, answer.candidates, answer.decision;
      if ret != Success {
        candidateList := Resize(candidateList, CandListLength);
      }
    } else {
      ret := templGenRet;
      candidateList := Resize(candidateList, CandListLength);
    }
    rows := [];
    var i := 0;
    while i < |candidateList|
      invariant 0 <= i <= |candidateList|
      invariant LogsList(rows, id, ret, candidateList[..i], decision)
    {
      var c := candidateList[i];
      rows := rows + [CandRow(id, i, CodeValue(ret), c.isAssigned, c.templateId, c.similarityScore, decision)];
      i := i + 1;
    }
    assert candidateList[..i] == candidateList;
  }

  /**
   * With an implementation that keeps its side of identifyTemplate, every
   * path logs exactly CandListLength rows, ranked 0 to 19; a failed step
   * shows its own return code on every row, and a failed creation logs only
   * unassigned candidates with decision false.
   */
  lemma TwentyRowsEveryPath(rows: seq<CandRow>, id: string, templGenRet: ReturnCode, answer: IdentifyResult)
    requires IdentifyConforms(CandListLength, answer)
    requires SearchLogged(rows, id, templGenRet, answer)
    ensures |rows| == CandListLength
    ensures forall i :: 0 <= i < |rows| ==> rows[i].rank == i && rows[i].searchId == id
    ensures templGenRet != Success ==> forall i :: 0 <= i < |rows| ==>
      rows[i].searchRetCode == CodeValue(templGenRet) && !rows[i].isAssigned && !rows[i].decision
    ensures templGenRet == Success ==> forall i :: 0 <= i < |rows| ==>
      rows[i].searchRetCode == CodeValue(answer.code)
    ensures templGenRet == Success && answer.code == Success ==>
      forall i, j :: 0 <= i < j < |rows| ==> rows[j].score <= rows[i].score
  {
    if templGenRet == Success && answer.code == Success {
      forall i, j | 0 <= i < j < |rows|
        ensures rows[j].score <= rows[i].score
      {
        assert rows[i].score == answer.candidates[i].similarityScore;
        assert rows[j].score == answer.candidates[j].similarityScore;
      }
    }
  }

  /**
   * A failed search keeps what the implementation returned: the first
   * min(n, 20) candidates are logged as returned, and defaults fill the
   * rest.
   */
  lemma FailedSearchKeepsPartialList(rows: seq<CandRow>, id: string, answer: IdentifyResult, i: nat)
    requires answer.code != Success
    requires LogsList(rows, id, answer.code, Resize(answer.candidates, CandListLength), answer.decision)
    requires i < CandListLength
    ensures i < |answer.candidates| ==>
      rows[i].isAssigned == answer.candidates[i].isAssigned
      && rows[i].templateId == answer.candidates[i].templateId
      && rows[i].score == answer.candidates[i].similarityScore
    ensures |answer.candidates| <= i ==>
      !rows[i].isAssigned && rows[i].templateId == "" && rows[i].score == 0.0
  {
    assert rows[i].isAssigned == Resize(answer.candidates, CandListLength)[i].isAssigned;
  }

  /**
   * A successful search is logged verbatim, however long: an implementation
   * that returns three candidates gets three rows.
   */
  lemma SuccessLengthNotEnforced(rows: seq<CandRow>, id: string, answer: IdentifyResult)
    requires answer == IdentifyResult(Success, [DefaultCandidate, DefaultCandidate, DefaultCandidate], false)
    requires LogsList(rows, id, Success, answer.candidates, answer.decision)
    ensures |rows| == 3 != CandListLength
  {
  }

  /**
   * A log of successive searches against a conforming implementation:
   * CandListLength rows per search, in search order, each block carrying
   * its own search id and ranks 0 to 19.
   */
  lemma LogOfSearches(blocks: seq<seq<CandRow>>, ids: seq<string>, codes: seq<ReturnCode>, answers: seq<IdentifyResult>)
    requires |blocks| == |ids| == |codes| == |answers|
    requires forall j :: 0 <= j < |blocks| ==>
      SearchLogged(blocks[j], ids[j], codes[j], answers[j]) && IdentifyConforms(CandListLength, answers[j])
    ensures |Seqs.Join(blocks)| == CandListLength * |blocks|
    ensures forall j :: 0 <= j < |blocks| ==>
      var b := Seqs.Join(blocks)[CandListLength * j..CandListLength * j + CandListLength];
      b == blocks[j] && forall i :: 0 <= i < |b| ==> b[i].searchId == ids[j] && b[i].rank == i
  {
    forall j | 0 <= j < |blocks|
      ensures |blocks[j]| == CandListLength
      ensures forall i :: 0 <= i < |blocks[j]| ==> blocks[j][i].searchId == ids[j] && blocks[j][i].rank == i
    {
      TwentyRowsEveryPath(blocks[j], ids[j], codes[j], answers[j]);
    }
    Seqs.JoinUniform(blocks, CandListLength);
  }

  /**
   * Row `i` of such a log belongs to search `i / CandListLength` and has
   * rank `i % CandListLength`.
   */
  lemma RowsOfSearches(blocks: seq<seq<CandRow>>, ids: seq<string>, codes: seq<ReturnCode>, answers: seq<IdentifyResult>)
    requires |blocks| == |ids| == |codes| == |answers|
    requires forall j :: 0 <= j < |blocks| ==>
      SearchLogged(blocks[j], ids[j], codes[j], answers[j]) && IdentifyConforms(CandListLength, answers[j])
    ensures |Seqs.Join(blocks)| == CandListLength * |blocks|
    ensures forall i :: 0 <= i < |Seqs.Join(blocks)| ==>
      Seqs.Join(blocks)[i].searchId == ids[i / CandListLength] && Seqs.Join(blocks)[i].rank == i % CandListLength
  {
    var k, log := CandListLength, Seqs.Join(blocks);
    forall j | 0 <= j < |blocks|
      ensures |blocks[j]| == k
    {
      TwentyRowsEveryPath(blocks[j], ids[j], codes[j], answers[j]);
    }
    Seqs.JoinUniform(blocks, k);
    forall i | 0 <= i < |log|
      ensures log[i].searchId == ids[i / k] && log[i].rank == i % k
    {
      Seqs.DivModBlock(i, k, |blocks|);
      var b, r := i / k, i % k;
      TwentyRowsEveryPath(blocks[b], ids[b], codes[b], answers[b]);
      Seqs.InBlock(log, k, |blocks|, b, r);
    }
  }
}
