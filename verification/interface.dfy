/**
 * The 1:N implementation interface as the harness sees it. The
 * implementation is a collaborator outside the model: what it answers is
 * given to the drivers as oracles (the answer to the j-th call of each
 * kind), and what the harness asks of it is recorded as a trace of calls.
 * The promises the interface documentation makes on either side are
 * predicates here.
 */
module IdentInterface {
  import opened Structs

  /** What createTemplate hands back: its status, the template and the eye coordinates. */
  datatype CreateResult = CreateResult(code: ReturnCode, templ: seq<Byte>, eyes: seq<EyePair>)

  /** What identifyTemplate hands back: its status, the candidate list and the decision flag. */
  datatype IdentifyResult = IdentifyResult(code: ReturnCode, candidates: seq<Candidate>, decision: bool)

  /** A call the harness makes on the implementation. */
  datatype Call =
    | CreateTemplate(faces: seq<Image>, role: TemplateRole)
    | IdentifyTemplate(templ: seq<Byte>, candidateListLength: nat)
    | GalleryInsertID(templ: seq<Byte>, id: string)
    | GalleryDeleteID(id: string)
    | FinalizeEnrollment(enrollmentDir: string, edbName: string, manifestName: string, galleryType: GalleryType)

  /** Most similar first. */
  predicate Descending(cs: seq<Candidate>) {
    forall i, j :: 0 <= i < j < |cs| ==> cs[j].similarityScore <= cs[i].similarityScore
  }

  /**
   * The implementation's side of identifyTemplate: a successful search
   * returns `candidateListLength` candidates in descending order of
   * similarity.
   */
  predicate IdentifyConforms(k: nat, r: IdentifyResult) {
    r.code == Success ==> |r.candidates| == k && Descending(r.candidates)
  }
}
