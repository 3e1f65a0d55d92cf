/**
 * The value types of the 1:N interface: return codes, image labels, images,
 * eye pairs and candidates, with the defaults their constructors give.
 */
module Structs {
  import opened Wrappers

  /** An 8-bit byte of a template or an EDB. */
  type Byte = bv8

  /** The unsigned 16-bit fields of an Image and an EyePair. */
  newtype U16 = x: int | 0 <= x < 0x1_0000

  /** The unsigned 8-bit depth field of an Image. */
  newtype U8 = x: int | 0 <= x < 0x100

  /** Truncation of a non-negative count to 16 bits, as a C++ conversion to uint16_t does. */
  function ToU16(n: nat): (r: U16)
    ensures r as int == n % 0x1_0000
    ensures n < 0x1_0000 ==> r as int == n
  {
    (n % 0x1_0000) as U16
  }

  /** The status codes every interface function returns, in declaration order. */
  datatype ReturnCode =
    | Success
    | ConfigError
    | RefuseInput
    | ExtractError
    | ParseError
    | TemplateCreationError
    | VerifTemplateError
    | FaceDetectionError
    | NumDataError
    | TemplateFormatError
    | EnrollDirError
    | InputLocationError
    | MemoryError
    | NotImplemented
    | VendorError

  /** Number of ReturnCode enumerators. */
  const CodeCount: nat := 15

  /** The integer a ReturnCode is stored as, which is what every log prints. */
  function CodeValue(c: ReturnCode): (n: nat)
    ensures n < CodeCount
    ensures n == 0 <==> c == Success
  {
    match c
    case Success => 0
    case ConfigError => 1
    case RefuseInput => 2
    case ExtractError => 3
    case ParseError => 4
    case TemplateCreationError => 5
    case VerifTemplateError => 6
    case FaceDetectionError => 7
    case NumDataError => 8
    case TemplateFormatError => 9
    case EnrollDirError => 10
    case InputLocationError => 11
    case MemoryError => 12
    case NotImplemented => 13
    case VendorError => 14
  }

  /** The enumerator stored as integer `n`, if there is one. */
  function CodeOfValue(n: int): (r: Option<ReturnCode>)
    ensures r.Some? <==> 0 <= n < CodeCount
    ensures r.Some? ==> CodeValue(r.value) == n
  {
    if n == 0 then Some(Success)
    else if n == 1 then Some(ConfigError)
    else if n == 2 then Some(RefuseInput)
    else if n == 3 then Some(ExtractError)
    else if n == 4 then Some(ParseError)
    else if n == 5 then Some(TemplateCreationError)
    else if n == 6 then Some(VerifTemplateError)
    else if n == 7 then Some(FaceDetectionError)
    else if n == 8 then Some(NumDataError)
    else if n == 9 then Some(TemplateFormatError)
    else if n == 10 then Some(EnrollDirError)
    else if n == 11 then Some(InputLocationError)
    else if n == 12 then Some(MemoryError)
    else if n == 13 then Some(NotImplemented)
    else if n == 14 then Some(VendorError)
    else None
  }

  /** The numbering is a bijection between the fifteen codes and 0..14. */
  lemma CodeNumbering(c: ReturnCode, n: int)
    ensures CodeOfValue(CodeValue(c)) == Some(c)
    ensures 0 <= n < CodeCount ==> CodeOfValue(n).Some? && CodeValue(CodeOfValue(n).value) == n
    ensures forall d: ReturnCode :: CodeValue(d) == CodeValue(c) ==> d == c
  {
    forall d: ReturnCode | CodeValue(d) == CodeValue(c)
      ensures d == c
    {
      assert CodeOfValue(CodeValue(d)) == Some(d);
    }
  }

  /** The message the stream output operator prints for an enumerator. */
  function Message(c: ReturnCode): string {
    match c
    case Success => "Success"
    case ConfigError => "Error reading configuration files"
    case RefuseInput => "Elective refusal to process the input"
    case ExtractError => "Involuntary failure to process the image"
    case ParseError => "Cannot parse the input data"
    case TemplateCreationError => "Elective refusal to produce a template"
    case VerifTemplateError => "Either or both of the input templates were result of failed feature extraction"
    case FaceDetectionError => "Unable to detect a face in the image"
    case NumDataError => "Number of input images not supported"
    case TemplateFormatError => "Template file is an incorrect format or defective"
    case EnrollDirError => "An operation on the enrollment directory failed"
    case InputLocationError => "Cannot locate the input data - the input files or names seem incorrect"
    case MemoryError => "Memory allocation failed (e.g. out of memory)"
    case NotImplemented => "Function is not implemented"
    case VendorError => "Vendor-defined error"
  }

  /** What the stream output operator prints for a value that is no enumerator. */
  const UndefinedError: string := "Undefined error"

  /** The message the stream output operator prints for a code stored as integer `n`. */
  function Describe(n: int): (s: string)
    ensures forall c :: CodeValue(c) == n ==> s == Message(c)
    ensures !(0 <= n < CodeCount) ==> s == UndefinedError
  {
    match CodeOfValue(n)
    case Some(c) =>
      CodeNumbering(c, n);
      Message(c)
    case None => UndefinedError
  }

  /**
   * A status as an interface function returns it. The default-constructed
   * status leaves `code` uninitialised, modelled as None: it must be assigned
   * before it is read.
   */
  datatype ReturnStatus = ReturnStatus(code: Option<ReturnCode>, info: string)

  /** The status `ReturnStatus()` constructs. */
  const UninitialisedStatus: ReturnStatus := ReturnStatus(None, "")

  /** The status `ReturnStatus(code)` constructs. */
  function StatusOf(c: ReturnCode): (s: ReturnStatus)
    ensures s.code == Some(c) && s.info == ""
  {
    ReturnStatus(Some(c), "")
  }

  /** The six image descriptions, stored as 0..5. */
  datatype ImageLabel = Unknown | Iso | Mugshot | Photojournalism | Exploitation | Wild

  /** Intended use of a template. */
  datatype TemplateRole = Enrollment11 | Verification11 | Enrollment1N | Search1N

  /** Composition of a gallery, passed through to finalization uninterpreted. */
  datatype GalleryType = Consolidated | Unconsolidated

  /** An image header; the pixel buffer itself is not part of this model. */
  datatype Image = Image(width: U16, height: U16, depth: U8, description: ImageLabel)

  /** The image `Image()` constructs: empty, 24 bits deep, label UNKNOWN. */
  const DefaultImage: Image := Image(0, 0, 24, Unknown)

  /**
   * The number of bytes of raster data an image carries.  The source forms
   * the products `width * height` and then `* (depth / 8)` in a 32-bit
   * signed `int`, where overflow is undefined, so the model asks for both
   * to fit.
   */
  function ImageSize(img: Image): (n: nat)
    requires img.width as int * img.height as int < 0x8000_0000
    requires img.width as int * img.height as int * (img.depth as int / 8) < 0x8000_0000
    ensures n < 0x8000_0000
    ensures img.depth == 24 ==> n == 3 * img.width as int * img.height as int
    ensures img.depth == 8 ==> n == img.width as int * img.height as int
    ensures img.depth < 8 ==> n == 0
  {
    img.width as int * img.height as int * (img.depth as int / 8)
  }

  /** Eye coordinates of one face. */
  datatype EyePair = EyePair(isLeftAssigned: bool, isRightAssigned: bool,
                             xleft: U16, yleft: U16, xright: U16, yright: U16)

  /** The eye pair `EyePair()` constructs: nothing assigned, all coordinates zero. */
  const DefaultEyePair: EyePair := EyePair(false, false, 0, 0, 0, 0)

  /**
   * One entry of a candidate list. Similarity scores are kept as exact reals;
   * floating-point rounding is not modelled.
   */
  datatype Candidate = Candidate(isAssigned: bool, templateId: string, similarityScore: real)

  /** The candidate `Candidate()` constructs, which is also what `resize` pads with. */
  const DefaultCandidate: Candidate := Candidate(false, "", 0.0)
}
