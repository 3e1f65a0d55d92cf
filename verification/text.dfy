/**
 * Tokens of a text: the maximal runs of characters outside a delimiter set,
 * left to right. With the single delimiter of `split` this is what that
 * function collects; with the blank characters it is what successive
 * `stream >> word` extractions read.
 */
module Text {

  /** The characters `operator>>` on a string skips. */
  const Blanks: set<char> := {' ', '\t', '\n', '\r', '\U{B}', '\U{C}'}

  predicate FreeOf(w: string, delims: set<char>) {
    forall i :: 0 <= i < |w| ==> w[i] !in delims
  }

  /** Number of characters before the first delimiter. */
  function RunLength(s: string, delims: set<char>): (k: nat)
    ensures k <= |s|
    ensures FreeOf(s[..k], delims)
    ensures k < |s| ==> s[k] in delims
  {
    if s == [] || s[0] in delims then 0 else 1 + RunLength(s[1..], delims)
  }

  /** The maximal delimiter-free runs of `s`, in order. */
  function Tokens(s: string, delims: set<char>): (ts: seq<string>)
    decreases |s|
  {
    if s == [] then []
    else if s[0] in delims then Tokens(s[1..], delims)
    else
      var k := RunLength(s, delims);
      [s[..k]] + Tokens(s[k..], delims)
  }

  /** `s` with every delimiter deleted. */
  function Strip(s: string, delims: set<char>): (r: string)
    ensures |r| <= |s|
    ensures FreeOf(r, delims)
  {
    if s == [] then []
    else if s[0] in delims then Strip(s[1..], delims)
    else [s[0]] + Strip(s[1..], delims)
  }

  function Concat(ts: seq<string>): string {
    if ts == [] then [] else ts[0] + Concat(ts[1..])
  }

  lemma {:induction false} RunOfFree(w: string, delims: set<char>)
    requires FreeOf(w, delims)
    ensures RunLength(w, delims) == |w|
    decreases |w|
  {
    if w != [] {
      RunOfFree(w[1..], delims);
    }
  }

  /** The run stops at the first delimiter, whatever follows it. */
  lemma {:induction false} RunOfPrefix(a: string, b: string, delims: set<char>)
    requires exists i :: 0 <= i < |a| && a[i] in delims
    ensures RunLength(a + b, delims) == RunLength(a, delims)
    decreases |a|
  {
    if a[0] !in delims {
      assert (a + b)[1..] == a[1..] + b;
      var i :| 0 <= i < |a| && a[i] in delims;
      assert a[1..][i - 1] in delims;
      RunOfPrefix(a[1..], b, delims);
    }
  }

  /** A non-empty delimiter-free word is exactly one token. */
  lemma WordIsOneToken(w: string, delims: set<char>)
    requires w != [] && FreeOf(w, delims)
    ensures Tokens(w, delims) == [w]
  {
    RunOfFree(w, delims);
    assert w[..|w|] == w;
  }

  /** A word followed by a delimiter yields that word, then the tokens of the rest. */
  lemma WordThenDelimiter(w: string, rest: string, delims: set<char>)
    requires w != [] && FreeOf(w, delims)
    requires rest != [] && rest[0] in delims
    ensures Tokens(w + rest, delims) == [w] + Tokens(rest[1..], delims)
  {
    var s := w + rest;
    RunOfFree(w, delims);
    assert s[|w|] == rest[0];
    assert RunLength(s, delims) == |w| by {
      var a := w + [rest[0]];
      assert a[|w|] in delims;
      RunOfPrefix(a, rest[1..], delims);
      assert s == a + rest[1..];
      RunPrefixExact(w, rest[0], delims);
    }
    assert s[..|w|] == w;
    assert s[|w|..] == rest;
  }

  /**
   * One step of a left-to-right scan: a delimiter after the token built so
   * far closes it (if it is non-empty) and is then skipped.
   */
  lemma ScanDelimiter(cur: string, rest: string, delims: set<char>)
    requires FreeOf(cur, delims)
    requires rest != [] && rest[0] in delims
    ensures Tokens(cur + rest, delims) == (if cur == [] then [] else [cur]) + Tokens(rest[1..], delims)
  {
    if cur == [] {
      assert cur + rest == rest;
    } else {
      WordThenDelimiter(cur, rest, delims);
    }
  }

  lemma {:induction false} RunPrefixExact(w: string, c: char, delims: set<char>)
    requires FreeOf(w, delims) && c in delims
    ensures RunLength(w + [c], delims) == |w|
    decreases |w|
  {
    if w != [] {
      assert (w + [c])[1..] == w[1..] + [c];
      RunPrefixExact(w[1..], c, delims);
    }
  }

  /**
   * Tokens never straddle a delimiter: text cut just after a delimiter
   * splits into the tokens of the two halves.
   */
  lemma {:induction false} TokensAppend(a: string, b: string, delims: set<char>)
    requires a == [] || a[|a| - 1] in delims
    ensures Tokens(a + b, delims) == Tokens(a, delims) + Tokens(b, delims)
    decreases |a|
  {
    if a == [] {
      assert a + b == b;
    } else if a[0] in delims {
      assert (a + b)[1..] == a[1..] + b;
      TokensAppend(a[1..], b, delims);
    } else {
      RunOfPrefix(a, b, delims);
      var k := RunLength(a, delims);
      assert k < |a|;
      assert (a + b)[..k] == a[..k];
      assert (a + b)[k..] == a[k..] + b;
      TokensAppend(a[k..], b, delims);
    }
  }

  /** Every token is non-empty and free of delimiters. */
  lemma {:induction false} TokensAreWords(s: string, delims: set<char>)
    ensures forall j :: 0 <= j < |Tokens(s, delims)| ==>
              Tokens(s, delims)[j] != [] && FreeOf(Tokens(s, delims)[j], delims)
    decreases |s|
  {
    if s != [] {
      if s[0] in delims {
        TokensAreWords(s[1..], delims);
      } else {
        var k := RunLength(s, delims);
        TokensAreWords(s[k..], delims);
      }
    }
  }

  lemma {:induction false} StripAppend(a: string, b: string, delims: set<char>)
    ensures Strip(a + b, delims) == Strip(a, delims) + Strip(b, delims)
    decreases |a|
  {
    if a == [] {
      assert a + b == b;
    } else {
      assert (a + b)[1..] == a[1..] + b;
      StripAppend(a[1..], b, delims);
    }
  }

  lemma {:induction false} StripFree(w: string, delims: set<char>)
    requires FreeOf(w, delims)
    ensures Strip(w, delims) == w
    decreases |w|
  {
    if w != [] {
      StripFree(w[1..], delims);
    }
  }

  /** The tokens, put back together, are the text with its delimiters deleted. */
  lemma {:induction false} TokensConcat(s: string, delims: set<char>)
    ensures Concat(Tokens(s, delims)) == Strip(s, delims)
    decreases |s|
  {
    if s != [] {
      if s[0] in delims {
        TokensConcat(s[1..], delims);
      } else {
        var k := RunLength(s, delims);
        TokensConcat(s[k..], delims);
        assert s == s[..k] + s[k..];
        StripAppend(s[..k], s[k..], delims);
        StripFree(s[..k], delims);
        var ts := Tokens(s, delims);
        assert ts[1..] == Tokens(s[k..], delims);
      }
    }
  }

  /** A text has no tokens exactly when every character of it is a delimiter. */
  lemma {:induction false} NoTokensIffAllDelimiters(s: string, delims: set<char>)
    ensures Tokens(s, delims) == [] <==> (forall i :: 0 <= i < |s| ==> s[i] in delims)
    decreases |s|
  {
    if s != [] {
      NoTokensIffAllDelimiters(s[1..], delims);
      if s[0] in delims {
        assert forall i :: 1 <= i < |s| ==> s[i] == s[1..][i - 1];
      }
    }
  }

  // ------------------------------------------------- three-word extraction

  /** The three words one `stream >> a >> b >> c` reads. */
  datatype Triple = Triple(first: string, second: string, third: string)

  /**
   * Successive three-word extractions from a stream whose words are `ws`;
   * an incomplete group at the end fails the stream and ends the loop.
   */
  function Triples(ws: seq<string>): (ts: seq<Triple>)
    ensures |ts| == |ws| / 3
    decreases |ws|
  {
    if |ws| < 3 then [] else [Triple(ws[0], ws[1], ws[2])] + Triples(ws[3..])
  }

  lemma {:induction false} TriplesAppend(ws: seq<string>, a: string, b: string, c: string)
    requires |ws| % 3 == 0
    ensures Triples(ws + [a, b, c]) == Triples(ws) + [Triple(a, b, c)]
    decreases |ws|
  {
    if ws == [] {
      assert Triples([a, b, c]) == [Triple(a, b, c)] + Triples([]);
    } else {
      assert (ws + [a, b, c])[3..] == ws[3..] + [a, b, c];
      TriplesAppend(ws[3..], a, b, c);
    }
  }

  /** The `j`-th extraction reads words `3j`, `3j + 1` and `3j + 2`. */
  lemma {:induction false} TripleAt(ws: seq<string>, j: nat)
    requires j < |ws| / 3
    ensures Triples(ws)[j] == Triple(ws[3 * j], ws[3 * j + 1], ws[3 * j + 2])
    decreases j
  {
    if j > 0 {
      TripleAt(ws[3..], j - 1);
    }
  }

  // --------------------------------------------------- two-word extraction

  /** The two words one `stream >> a >> b` reads. */
  datatype Pair = Pair(first: string, second: string)

  /**
   * Successive two-word extractions from a stream whose words are `ws`; a
   * lone word at the end fails the stream and ends the loop.
   */
  function Pairs(ws: seq<string>): (ps: seq<Pair>)
    ensures |ps| == |ws| / 2
    decreases |ws|
  {
    if |ws| < 2 then [] else [Pair(ws[0], ws[1])] + Pairs(ws[2..])
  }

  /** The `j`-th extraction reads words `2j` and `2j + 1`. */
  lemma {:induction false} PairAt(ws: seq<string>, j: nat)
    requires j < |ws| / 2
    ensures Pairs(ws)[j] == Pair(ws[2 * j], ws[2 * j + 1])
    decreases j
  {
    if j > 0 {
      PairAt(ws[2..], j - 1);
    }
  }
}
