/**
 * The shared driver utilities: the `split` tokenizer, the work partitioner
 * that cuts an input file into per-worker shard files, and the constant
 * tables between action names, actions and image labels.
 */
module Util {
  import opened Wrappers
  import Structs
  import Text
  import Decimal

  // ---------------------------------------------------------------- split

  /**
   * What `split(str, delimiter)` returns: the maximal delimiter-free runs of
   * `str`, or `[str]` itself, delimiters and all, when no run exists.
   */
  function SplitOf(str: string, delimiter: char): seq<string> {
    var ts := Text.Tokens(str, {delimiter});
    if ts == [] then [str] else ts
  }

  /** The tokenizer: grows the current token and pushes it at each delimiter. */
  method Split(str: string, delimiter: char) returns (ret: seq<string>)
    ensures ret == SplitOf(str, delimiter)
  {
    ret := [];
    var cur := "";
    var i := 0;
    assert cur + str[i..] == str;
    while i < |str|
      invariant 0 <= i <= |str|
      invariant Scanned(ret, cur, str, i, delimiter)
    {
      if str[i] == delimiter {
        SplitAtDelimiter(ret, cur, str, i, delimiter);
        if cur != "" {
          ret := ret + [cur];
          cur := "";
        }
      } else {
        SplitAtCharacter(ret, cur, str, i, delimiter);
        cur := cur + [str[i]];
      }
      i := i + 1;
    }
    assert cur + str[i..] == cur;
    if cur != "" {
      Text.WordIsOneToken(cur, {delimiter});
      ret := ret + [cur];
    }
    if |ret| == 0 {
      ret := ret + [str];
    }
  }

  /**
   * The tokenizer's state after `i` characters: the tokens pushed so far,
   * then those of the current token followed by the rest, are all of
   * `str`'s tokens.
   */
  predicate Scanned(ret: seq<string>, cur: string, str: string, i: nat, delimiter: char)
    requires i <= |str|
  {
    Text.FreeOf(cur, {delimiter}) &&
    ret + Text.Tokens(cur + str[i..], {delimiter}) == Text.Tokens(str, {delimiter})
  }

  /** A delimiter closes the token built so far, if any, and is skipped. */
  lemma SplitAtDelimiter(ret: seq<string>, cur: string, str: string, i: nat, delimiter: char)
    requires i < |str| && str[i] == delimiter && Scanned(ret, cur, str, i, delimiter)
    ensures Scanned(if cur != "" then ret + [cur] else ret, "", str, i + 1, delimiter)
  {
    var rest := str[i..];
    assert rest[1..] == str[i + 1..];
    Text.ScanDelimiter(cur, rest, {delimiter});
    assert "" + str[i + 1..] == str[i + 1..];
  }

  /** Any other character extends the token built so far. */
  lemma SplitAtCharacter(ret: seq<string>, cur: string, str: string, i: nat, delimiter: char)
    requires i < |str| && str[i] != delimiter && Scanned(ret, cur, str, i, delimiter)
    ensures Scanned(ret, cur + [str[i]], str, i + 1, delimiter)
  {
    assert cur + str[i..] == (cur + [str[i]]) + str[i + 1..];
  }

  /**
   * What callers may rely on: the result is never empty; without any
   * non-delimiter character it is exactly `[str]`; otherwise every token is
   * non-empty and delimiter-free and the tokens, concatenated, are `str`
   * with its delimiters deleted.
   */
  lemma SplitShape(str: string, delimiter: char)
    ensures |SplitOf(str, delimiter)| >= 1
    ensures (forall i :: 0 <= i < |str| ==> str[i] == delimiter) ==> SplitOf(str, delimiter) == [str]
    ensures (exists i :: 0 <= i < |str| && str[i] != delimiter) ==>
              && SplitOf(str, delimiter) == Text.Tokens(str, {delimiter})
              && (forall j :: 0 <= j < |SplitOf(str, delimiter)| ==>
                    SplitOf(str, delimiter)[j] != "" && Text.FreeOf(SplitOf(str, delimiter)[j], {delimiter}))
              && Text.Concat(SplitOf(str, delimiter)) == Text.Strip(str, {delimiter})
  {
    Text.NoTokensIffAllDelimiters(str, {delimiter});
    Text.TokensAreWords(str, {delimiter});
    Text.TokensConcat(str, {delimiter});
  }

  /**
   * The words `split(line, ' ')` yields for one input line, as the 1:N and
   * morph workers read them: never empty, so the first word always exists.
   */
  function SpaceWords(line: string): (ws: seq<string>)
    ensures |ws| >= 1
  {
    SplitShape(line, ' ');
    SplitOf(line, ' ')
  }

  // ------------------------------------------------------------ partition

  /**
   * An input file: its newline-terminated lines (without the newline) and
   * whatever follows the last newline.
   */
  datatype InputFile = InputFile(lines: seq<string>, tail: string)

  predicate NoNewline(s: string) {
    forall i :: 0 <= i < |s| ==> s[i] != '\n'
  }

  predicate WellFormedInput(f: InputFile) {
    (forall j :: 0 <= j < |f.lines| ==> NoNewline(f.lines[j])) && NoNewline(f.tail)
  }

  /** Text of lines written one per line with `endl`. */
  function LinesText(ls: seq<string>): string {
    if ls == [] then "" else ls[0] + "\n" + LinesText(ls[1..])
  }

  /** The bytes of the input file. */
  function Content(f: InputFile): string {
    LinesText(f.lines) + f.tail
  }

  /**
   * The successive results of `getline` on the file: every terminated line,
   * then the unterminated tail if it is not empty.
   */
  function GetLines(f: InputFile): (ls: seq<string>)
    ensures |ls| == |f.lines| + (if f.tail == "" then 0 else 1)
    ensures ls[..|f.lines|] == f.lines
  {
    f.lines + (if f.tail == "" then [] else [f.tail])
  }

  /** The request after `(uint32_t)` conversion: a negative int wraps to a large unsigned value. */
  function AsUnsigned32(x: int): (r: nat)
    requires -0x8000_0000 <= x < 0x8000_0000
    ensures 0 <= x ==> r == x
    ensures x < 0 ==> r == x + 0x1_0000_0000
  {
    x % 0x1_0000_0000
  }

  /** The fork count after the clamp to the line count. */
  function ClampForks(numLines: nat, requested: int): int
    requires -0x8000_0000 <= requested < 0x8000_0000
  {
    if numLines < AsUnsigned32(requested) then numLines else requested
  }

  /** Integer division of `a` by `b` rounded up, as the source writes it. */
  function CeilDiv(a: nat, b: nat): (c: nat)
    requires b > 0
    ensures (c - 1) * b < a <= c * b || (a == 0 && c == 0)
  {
    a / b + (if a % b > 0 then 1 else 0)
  }

  /** How many lines every shard but the last holds. */
  function LinesPerFork(numLines: nat, requested: int): (p: nat)
    requires 1 <= numLines < 0x8000_0000
    requires -0x8000_0000 <= requested < 0x8000_0000 && requested != 0
  {
    ClampFacts(numLines, requested);
    CeilDiv(numLines, ClampForks(numLines, requested))
  }

  /** The rewritten fork count handed back to the caller. */
  function FinalForks(numLines: nat, requested: int): (n: nat)
    requires 1 <= numLines < 0x8000_0000
    requires -0x8000_0000 <= requested < 0x8000_0000 && requested != 0
  {
    PartitionArithmetic(numLines, requested);
    CeilDiv(numLines, LinesPerFork(numLines, requested))
  }

  /**
   * The clamp leaves a count in 1..numLines, or 0 exactly when there are no
   * lines or none were requested (the division that follows then traps).
   */
  lemma ClampFacts(numLines: nat, requested: int)
    requires numLines < 0x8000_0000
    requires -0x8000_0000 <= requested < 0x8000_0000
    ensures ClampForks(numLines, requested) == 0 <==> numLines == 0 || requested == 0
    ensures ClampForks(numLines, requested) != 0 ==> 1 <= ClampForks(numLines, requested) <= numLines
    ensures requested < 0 ==> ClampForks(numLines, requested) == numLines
    ensures 0 < requested ==> ClampForks(numLines, requested) == if requested < numLines then requested else numLines
  {
  }

  /**
   * The partition arithmetic: at least one line per shard, never more shards
   * than asked for (a negative request counts as "more than the lines"),
   * every shard but the last full, and one shard per line when at least as
   * many shards as lines were requested.
   */
  lemma PartitionArithmetic(numLines: nat, requested: int)
    requires 1 <= numLines < 0x8000_0000
    requires -0x8000_0000 <= requested < 0x8000_0000 && requested != 0
    ensures LinesPerFork(numLines, requested) >= 1
    ensures var p, n := LinesPerFork(numLines, requested), CeilDiv(numLines, LinesPerFork(numLines, requested));
      && 1 <= n <= ClampForks(numLines, requested)
      && (0 < requested ==> n <= requested)
      && (n - 1) * p < numLines <= n * p
      && (requested < 0 || numLines <= requested ==> p == 1 && n == numLines)
  {
    ClampFacts(numLines, requested);
    var m := ClampForks(numLines, requested);
    var p := CeilDiv(numLines, m);
    assert (p - 1) * m < numLines <= p * m;
    assert p >= 1;
    var n := CeilDiv(numLines, p);
    assert (n - 1) * p < numLines <= n * p;
    assert n >= 1;
    MulCancel(n - 1, m, p);
    if m == numLines {
      MulCancel(p - 1, 1, m);
      assert p == 1;
      assert n == numLines;
    }
  }

  /** Cancelling a positive factor on both sides of a strict inequality. */
  lemma MulCancel(a: int, b: int, c: nat)
    requires c > 0 && a * c < b * c
    ensures a < b
  {
  }

  /** Lines `[i*p, min((i+1)*p, |avail|))` of the getline results: shard `i`. */
  function ShardLines(avail: seq<string>, p: nat, i: nat): (s: seq<string>)
    ensures |s| <= p
  {
    var lo := if i * p < |avail| then i * p else |avail|;
    var hi := if (i + 1) * p < |avail| then (i + 1) * p else |avail|;
    assert (i + 1) * p == i * p + p;
    avail[lo..hi]
  }

  /** Shards 0..n-1 laid end to end. */
  function Flatten(shards: seq<seq<string>>): seq<string> {
    if shards == [] then [] else Flatten(shards[..|shards| - 1]) + shards[|shards| - 1]
  }

  const InputFileStem: string := "input.txt."

  /** Path of shard `i`: `outputDir/input.txt.i`. */
  function ShardPath(outputDir: string, i: nat): string {
    outputDir + "/" + InputFileStem + Decimal.NatToString(i)
  }

  /** Different shard indexes name different files. */
  lemma ShardPathsDistinct(outputDir: string, i: nat, j: nat)
    requires ShardPath(outputDir, i) == ShardPath(outputDir, j)
    ensures i == j
  {
    var pre := outputDir + "/" + InputFileStem;
    assert ShardPath(outputDir, i) == pre + Decimal.NatToString(i);
    assert ShardPath(outputDir, j) == pre + Decimal.NatToString(j);
    assert Decimal.NatToString(i) == ShardPath(outputDir, i)[|pre|..];
    assert Decimal.NatToString(j) == ShardPath(outputDir, j)[|pre|..];
    Decimal.NatToStringInjective(i, j);
  }

  /** How `splitInputFile` ended. */
  datatype SplitStatus =
    | SplitSuccess        // returned SUCCESS
    | SplitFailure        // returned FAILURE: an input or shard stream did not open
    | DivisionByZero      // the ceiling division trapped on a zero divisor

  /**
   * The partitioner. `input` is None when the input file cannot be opened;
   * `unopenable` holds the paths whose output stream fails to open. The fork
   * count is returned in `forks`: the request unchanged when the input did
   * not open, the rewritten count otherwise.
   */
  method SplitInputFile(input: Option<InputFile>, outputDir: string, numForks: int, unopenable: set<string>)
    returns (status: SplitStatus, forks: int, fileVector: seq<string>, shards: seq<seq<string>>)
    requires -0x8000_0000 <= numForks < 0x8000_0000
    requires input.Some? ==> |input.value.lines| < 0x8000_0000
    ensures input.None? ==> status == SplitFailure && forks == numForks && fileVector == [] && shards == []
    ensures input.Some? ==>
      (status == DivisionByZero <==> |input.value.lines| == 0 || numForks == 0)
    ensures status == DivisionByZero ==> fileVector == [] && shards == []
    ensures input.Some? && status != DivisionByZero ==>
      var L := |input.value.lines|;
      var p := LinesPerFork(L, numForks);
      && forks == FinalForks(L, numForks)
      && |fileVector| == |shards| <= forks
      && (forall i :: 0 <= i < |shards| ==>
            fileVector[i] == ShardPath(outputDir, i) && fileVector[i] !in unopenable
            && shards[i] == ShardLines(GetLines(input.value), p, i))
      && (status == SplitSuccess <==> |shards| == forks)
      && (status == SplitFailure ==> ShardPath(outputDir, |shards|) in unopenable)
  {
    if input.None? {
      return SplitFailure, numForks, [], [];
    }
    var numLines := |input.value.lines|;
    forks := numForks;
    if numLines < AsUnsigned32(forks) {
      forks := numLines;
    }
    ClampFacts(numLines, numForks);
    if forks == 0 {
      return DivisionByZero, forks, [], [];
    }
    var perFork := numLines / forks + (if numLines % forks > 0 then 1 else 0);
    PartitionArithmetic(numLines, numForks);
    forks := numLines / perFork + (if numLines % perFork > 0 then 1 else 0);

    var avail := GetLines(input.value);
    var written;
    written, fileVector, shards := WriteShards(avail, outputDir, perFork, forks, unopenable);
    status := if written then SplitSuccess else SplitFailure;
  }

  /** Files `0..|shards|` are named, openable, and hold shards `0..|shards|` of `avail`. */
  predicate ShardsWritten(avail: seq<string>, outputDir: string, p: nat, unopenable: set<string>,
                          fileVector: seq<string>, shards: seq<seq<string>>)
  {
    && |fileVector| == |shards|
    && forall k :: 0 <= k < |shards| ==>
         fileVector[k] == ShardPath(outputDir, k) && fileVector[k] !in unopenable
         && shards[k] == ShardLines(avail, p, k)
  }

  /**
   * The loop over the `forks` shard files: each is opened and filled with
   * the next `p` getline results; the first that does not open stops it.
   */
  method WriteShards(avail: seq<string>, outputDir: string, p: nat, forks: nat, unopenable: set<string>)
    returns (written: bool, fileVector: seq<string>, shards: seq<seq<string>>)
    ensures ShardsWritten(avail, outputDir, p, unopenable, fileVector, shards)
    ensures |shards| <= forks
    ensures written <==> |shards| == forks
    ensures !written ==> ShardPath(outputDir, |shards|) in unopenable
  {
    var pos := 0;
    fileVector, shards := [], [];
    var i := 0;
    while i < forks
      invariant 0 <= i <= forks && |shards| == i
      invariant pos == Start(avail, p, i)
      invariant ShardsWritten(avail, outputDir, p, unopenable, fileVector, shards)
    {
      var filepath := outputDir + "/" + InputFileStem + Decimal.NatToString(i);
      if filepath in unopenable {
        return false, fileVector, shards;
      }
      fileVector := fileVector + [filepath];
      var shard;
      ShardFrom(avail, p, i);
      shard, pos := CopyShard(avail, pos, p);
      shards := shards + [shard];
      i := i + 1;
    }
    written := true;
  }

  /** Index of the first getline result shard `i` receives. */
  function Start(avail: seq<string>, p: nat, i: nat): (lo: nat)
    ensures lo <= |avail|
  {
    if i * p < |avail| then i * p else |avail|
  }

  /** Shard `i` is the next (up to) `p` results from where shard `i - 1` stopped. */
  lemma ShardFrom(avail: seq<string>, p: nat, i: nat)
    ensures Start(avail, p, i + 1) == if Start(avail, p, i) + p < |avail| then Start(avail, p, i) + p else |avail|
    ensures ShardLines(avail, p, i) == avail[Start(avail, p, i)..Start(avail, p, i + 1)]
  {
    assert (i + 1) * p == i * p + p;
  }

  /**
   * The inner loop: up to `p` successive getline results, stopping early at
   * end of file, each written to the shard file.
   */
  method CopyShard(avail: seq<string>, start: nat, p: nat) returns (shard: seq<string>, pos: nat)
    requires start <= |avail|
    ensures pos == if start + p < |avail| then start + p else |avail|
    ensures shard == avail[start..pos]
  {
    shard := [];
    pos := start;
    var lineNum := 1;
    while lineNum < p + 1
      invariant 1 <= lineNum <= p + 1
      invariant start <= pos <= |avail|
      invariant pos - start <= lineNum - 1
      invariant pos < |avail| ==> pos - start == lineNum - 1
      invariant shard == avail[start..pos]
    {
      if pos < |avail| {
        shard := shard + [avail[pos]];
        pos := pos + 1;
      } else {
        break;
      }
      lineNum := lineNum + 1;
    }
  }

  /** Shards 0..n-1 together hold the first min(n*p, |avail|) getline results, in order. */
  lemma {:induction false} ShardsCover(avail: seq<string>, p: nat, n: nat)
    ensures var hi := if n * p < |avail| then n * p else |avail|;
      Flatten(seq(n, i requires 0 <= i => ShardLines(avail, p, i))) == avail[..hi]
    decreases n
  {
    var shards := seq(n, i requires 0 <= i => ShardLines(avail, p, i));
    if n > 0 {
      var lo, hi := Start(avail, p, n - 1), Start(avail, p, n);
      assert Flatten(shards[..n - 1]) == avail[..lo] by {
        ShardsCover(avail, p, n - 1);
        assert shards[..n - 1] == seq(n - 1, i requires 0 <= i => ShardLines(avail, p, i));
      }
      assert shards[n - 1] == avail[lo..hi] by {
        ShardFrom(avail, p, n - 1);
      }
      assert lo <= hi by {
        MulMono(n - 1, n, p);
      }
      assert Flatten(shards) == avail[..lo] + avail[lo..hi];
      assert avail[..lo] + avail[lo..hi] == avail[..hi];
    }
  }

  /**
   * What the shards of a successful split hold: none is empty, all but the
   * last have exactly `p` lines, and laid end to end they are the input's
   * lines, followed by its unterminated tail when the last shard had room
   * for it.
   */
  lemma ShardContents(f: InputFile, requested: int)
    requires 1 <= |f.lines| < 0x8000_0000
    requires -0x8000_0000 <= requested < 0x8000_0000 && requested != 0
    ensures var p, n := LinesPerFork(|f.lines|, requested), FinalForks(|f.lines|, requested);
      var avail := GetLines(f);
      && (forall i :: 0 <= i < n ==> ShardLines(avail, p, i) != [])
      && (forall i :: 0 <= i < n - 1 ==> |ShardLines(avail, p, i)| == p)
      && Flatten(seq(n, i requires 0 <= i => ShardLines(avail, p, i)))
           == f.lines + (if f.tail != "" && n * p > |f.lines| then [f.tail] else [])
  {
    var L := |f.lines|;
    var p, n := LinesPerFork(L, requested), FinalForks(L, requested);
    PartitionArithmetic(L, requested);
    var avail := GetLines(f);
    forall i | 0 <= i < n
      ensures ShardLines(avail, p, i) != []
      ensures i < n - 1 ==> |ShardLines(avail, p, i)| == p
    {
      ShardSize(avail, p, n, i);
    }
    ShardsCover(avail, p, n);
    CoverIsInput(f, p, n);
  }

  /** Every shard below the last full one is full; every shard up to it is non-empty. */
  lemma ShardSize(avail: seq<string>, p: nat, n: nat, i: nat)
    requires p >= 1 && (n - 1) * p < |avail| && i < n
    ensures ShardLines(avail, p, i) != []
    ensures i < n - 1 ==> |ShardLines(avail, p, i)| == p
  {
    ShardFrom(avail, p, i);
    MulMono(i, n - 1, p);
    if i < n - 1 {
      MulMono(i + 1, n - 1, p);
      assert (i + 1) * p == i * p + p;
    }
  }

  /** Multiplying by a non-negative factor keeps the order. */
  lemma MulMono(a: int, b: int, c: nat)
    requires a <= b
    ensures a * c <= b * c
  {
  }

  /** The first min(n*p, |GetLines(f)|) getline results are the lines, plus the tail when reached. */
  lemma CoverIsInput(f: InputFile, p: nat, n: nat)
    requires |f.lines| <= n * p
    ensures var avail := GetLines(f);
      avail[..if n * p < |avail| then n * p else |avail|]
        == f.lines + (if f.tail != "" && n * p > |f.lines| then [f.tail] else [])
  {
    var avail := GetLines(f);
    if f.tail == "" || n * p <= |f.lines| {
      assert avail[..|f.lines|] == f.lines;
    } else {
      assert avail[..|avail|] == avail;
    }
  }

  /** With seven lines and three requested forks the shards hold 3, 3 and 1 lines. */
  lemma SevenLinesThreeForks()
    ensures LinesPerFork(7, 3) == 3 && FinalForks(7, 3) == 3
  {
  }

  // ---------------------------------------------------------- action table

  /** The harness actions of every driver sharing these utilities, in enumeration order. */
  datatype Action =
    | CreateTemplate | Match
    | Enroll1N | Finalize1N | Search1N | Insert
    | DetectNonScannedMorph | DetectScannedMorph | DetectUnknownMorph
    | DetectNonScannedMorphWithProbeImg | DetectScannedMorphWithProbeImg | DetectUnknownMorphWithProbeImg
    | Compare
    | ScalarQ | ScalarQWithReference | ScalarImageQ | ScalarSubjectQ | VectorQ

  /** The `mapActionToString` table. */
  function ActionName(a: Action): string {
    match a
    case CreateTemplate => "createTemplate"
    case Match => "match"
    case Enroll1N => "enroll_1N"
    case Finalize1N => "finalize_1N"
    case Search1N => "search_1N"
    case Insert => "insert"
    case DetectNonScannedMorph => "detectNonScannedMorph"
    case DetectScannedMorph => "detectScannedMorph"
    case DetectUnknownMorph => "detectUnknownMorph"
    case DetectNonScannedMorphWithProbeImg => "detectNonScannedMorphWithProbeImg"
    case DetectScannedMorphWithProbeImg => "detectScannedMorphWithProbeImg"
    case DetectUnknownMorphWithProbeImg => "detectUnknownMorphWithProbeImg"
    case Compare => "compare"
    case ScalarQ => "scalarQ"
    case ScalarQWithReference => "scalarQWithReference"
    case ScalarImageQ => "scalarImageQ"
    case ScalarSubjectQ => "scalarSubjectQ"
    case VectorQ => "vectorQ"
  }

  /** The `mapStringToAction` table: the action named `s`, if any. */
  function ParseAction(s: string): (r: Option<Action>)
    ensures r.Some? ==> ActionName(r.value) == s
    ensures forall a: Action :: ActionName(a) == s ==> r == Some(a)
  {
    if s == "createTemplate" then Some(CreateTemplate)
    else if s == "match" then Some(Match)
    else if s == "enroll_1N" then Some(Enroll1N)
    else if s == "finalize_1N" then Some(Finalize1N)
    else if s == "search_1N" then Some(Search1N)
    else if s == "insert" then Some(Insert)
    else if s == "detectNonScannedMorph" then Some(DetectNonScannedMorph)
    else if s == "detectScannedMorph" then Some(DetectScannedMorph)
    else if s == "detectUnknownMorph" then Some(DetectUnknownMorph)
    else if s == "detectNonScannedMorphWithProbeImg" then Some(DetectNonScannedMorphWithProbeImg)
    else if s == "detectScannedMorphWithProbeImg" then Some(DetectScannedMorphWithProbeImg)
    else if s == "detectUnknownMorphWithProbeImg" then Some(DetectUnknownMorphWithProbeImg)
    else if s == "compare" then Some(Compare)
    else if s == "scalarQ" then Some(ScalarQ)
    else if s == "scalarQWithReference" then Some(ScalarQWithReference)
    else if s == "scalarImageQ" then Some(ScalarImageQ)
    else if s == "scalarSubjectQ" then Some(ScalarSubjectQ)
    else if s == "vectorQ" then Some(VectorQ)
    else None
  }

  /**
   * `mapStringToAction[s]`: `operator[]` inserts and returns a value-initialised
   * Action, the first enumerator, for a name not in the table.
   */
  function LookupAction(s: string): (a: Action)
    ensures ParseAction(s).Some? ==> a == ParseAction(s).value
    ensures ParseAction(s).None? ==> a == CreateTemplate
  {
    match ParseAction(s)
    case Some(a) => a
    case None => CreateTemplate
  }

  /** The two tables are inverse bijections over the same eighteen names. */
  lemma ActionTablesInverse(a: Action, s: string)
    ensures ParseAction(ActionName(a)) == Some(a)
    ensures ParseAction(s).Some? <==> exists b: Action :: ActionName(b) == s
  {
  }

  // ----------------------------------------------------------- label table

  /** The `mapStringToImgLabel` table. */
  function ParseImgLabel(s: string): (r: Option<Structs.ImageLabel>)
    ensures r.Some? <==> s in {"UNKNOWN", "ISO", "MUGSHOT", "PHOTOJOURNALISM", "EXPLOITATION", "WILD"}
  {
    if s == "UNKNOWN" then Some(Structs.Unknown)
    else if s == "ISO" then Some(Structs.Iso)
    else if s == "MUGSHOT" then Some(Structs.Mugshot)
    else if s == "PHOTOJOURNALISM" then Some(Structs.Photojournalism)
    else if s == "EXPLOITATION" then Some(Structs.Exploitation)
    else if s == "WILD" then Some(Structs.Wild)
    else None
  }

  /** `mapStringToImgLabel[s]`: an unlisted description becomes the value-initialised label, Unknown. */
  function LookupImgLabel(s: string): (l: Structs.ImageLabel)
    ensures ParseImgLabel(s).None? ==> l == Structs.Unknown
    ensures ParseImgLabel(s).Some? ==> l == ParseImgLabel(s).value
  {
    match ParseImgLabel(s)
    case Some(l) => l
    case None => Structs.Unknown
  }
}
