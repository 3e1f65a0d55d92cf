/**
 * The lookup functions of the 2018 1:N driver's utilities: the label parser
 * that throws on an unknown description, and the two `to_string` tables.
 * Its `splitInputFile` is the same code as the shared utilities' and is
 * modelled once, by `Util.SplitInputFile`.
 */
module LegacyUtil {
  import opened Wrappers
  import opened Structs
  import Util

  /** The message of the `runtime_error` thrown for an unknown description. */
  function UnknownLabelMessage(desc: string): string {
    "Unknown Image::Label value: " + desc
  }

  /** `getLabel`: one of the six label names, or the exception it throws. */
  function GetLabel(desc: string): (r: Result<ImageLabel, string>)
    ensures r.Ok? ==> LabelName(r.value) == desc
    ensures r.Err? ==> r.error == UnknownLabelMessage(desc)
    ensures r.Err? <==> forall l: ImageLabel :: LabelName(l) != desc
  {
    if desc == "UNKNOWN" then Ok(Unknown)
    else if desc == "ISO" then Ok(Iso)
    else if desc == "MUGSHOT" then Ok(Mugshot)
    else if desc == "PHOTOJOURNALISM" then Ok(Photojournalism)
    else if desc == "EXPLOITATION" then Ok(Exploitation)
    else if desc == "WILD" then Ok(Wild)
    else Err(UnknownLabelMessage(desc))
  }

  /** The enumerator name of each label, the string an input line carries. */
  function LabelName(l: ImageLabel): string {
    match l
    case Unknown => "UNKNOWN"
    case Iso => "ISO"
    case Mugshot => "MUGSHOT"
    case Photojournalism => "PHOTOJOURNALISM"
    case Exploitation => "EXPLOITATION"
    case Wild => "WILD"
  }

  /**
   * `getLabel` accepts every label's name and nothing else, and it accepts
   * exactly the descriptions the shared `mapStringToImgLabel` table lists,
   * to the same label.
   */
  lemma GetLabelTable(l: ImageLabel, desc: string)
    ensures GetLabel(LabelName(l)) == Ok(l)
    ensures GetLabel(desc).Ok? <==> Util.ParseImgLabel(desc).Some?
    ensures GetLabel(desc).Ok? ==> GetLabel(desc).value == Util.ParseImgLabel(desc).value
  {
  }

  /** `to_string(ReturnCode)` on a valid code: its enumerator name. */
  function CodeName(c: ReturnCode): string {
    match c
    case Success => "Success"
    case ConfigError => "ConfigError"
    case RefuseInput => "RefuseInput"
    case ExtractError => "ExtractError"
    case ParseError => "ParseError"
    case TemplateCreationError => "TemplateCreationError"
    case VerifTemplateError => "VerifTemplateError"
    case FaceDetectionError => "FaceDetectionError"
    case NumDataError => "NumDataError"
    case TemplateFormatError => "TemplateFormatError"
    case EnrollDirError => "EnrollDirError"
    case InputLocationError => "InputLocationError"
    case MemoryError => "MemoryError"
    case NotImplemented => "NotImplemented"
    case VendorError => "VendorError"
  }

  const UnknownCodeName: string := "Unknown ReturnCode"

  /**
   * `to_string(ReturnCode)` on the integer a ReturnCode variable holds: a
   * value outside the fifteen enumerators takes the `default` branch.
   */
  function ReturnCodeToString(n: int): (s: string)
    ensures 0 <= n < CodeCount ==> s == CodeName(CodeOfValue(n).value)
    ensures s == UnknownCodeName <==> !(0 <= n < CodeCount)
  {
    match CodeOfValue(n)
    case Some(c) => CodeName(c)
    case None => UnknownCodeName
  }

  /** The fifteen names are pairwise distinct, so a logged name identifies its code. */
  lemma CodeNamesDistinct(a: ReturnCode, b: ReturnCode)
    requires CodeName(a) == CodeName(b)
    ensures a == b
  {
  }

  /** The 2018 driver's four actions, in enumeration order (`Action` of its `util.h`). */
  datatype Action =
    | Enroll      // Enroll_1N
    | Finalize    // Finalize_1N
    | Search      // Search_1N
    | InsertAndDelete

  /** `to_string(Action)`: the command-line word and output-file infix of each action. */
  function ActionToString(a: Action): string {
    match a
    case Enroll => "enroll"
    case Finalize => "finalize"
    case Search => "search"
    case InsertAndDelete => "insertAndDelete"
  }

  /**
   * The action word parsing in the 2018 driver's `main`: the four names
   * `to_string(Action)` gives, and nothing else (the caller prints the usage
   * and exits for None).
   */
  function ParseCommand(s: string): (r: Option<Action>)
    ensures r.Some? ==> ActionToString(r.value) == s
    ensures r.None? ==> forall a: Action :: ActionToString(a) != s
  {
    if s == "enroll" then Some(Enroll)
    else if s == "finalize" then Some(Finalize)
    else if s == "search" then Some(Search)
    else if s == "insertAndDelete" then Some(InsertAndDelete)
    else None
  }

  /** Printing an action and parsing the word back gives the action again; the words are distinct. */
  lemma ActionWordsRoundTrip(a: Action, b: Action)
    ensures ParseCommand(ActionToString(a)) == Some(a)
    ensures ActionToString(a) == ActionToString(b) ==> a == b
  {
  }
}
