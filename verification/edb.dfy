/**
 * The enrolled-template database (EDB) and its manifest, as the enrollment
 * workers of both 1:N drivers write them: for each record, a manifest row
 * `id size offset` whose offset is the EDB write position before the
 * append, then the template's bytes appended to the EDB. The manifest is
 * text; the EDB is bytes.
 */
module Edb {
  import opened Structs
  import Text
  import Decimal
  import Seqs

  /** One enrolled record: the id from the input line and the template bytes createTemplate produced. */
  datatype Record = Record(id: string, templ: seq<Byte>)

  /** A manifest row. */
  datatype ManifestEntry = ManifestEntry(id: string, size: nat, offset: nat)

  /** The EDB once the records' templates were appended in order. */
  function Bytes(rs: seq<Record>): seq<Byte>
    decreases |rs|
  {
    if rs == [] then [] else Bytes(rs[..|rs| - 1]) + rs[|rs| - 1].templ
  }

  /**
   * The manifest once the records were appended in order: each row takes
   * the record's id and template size, and the EDB length before the append
   * as its offset.
   */
  function Manifest(rs: seq<Record>): (m: seq<ManifestEntry>)
    ensures |m| == |rs|
    decreases |rs|
  {
    if rs == [] then []
    else
      var prior := rs[..|rs| - 1];
      var r := rs[|rs| - 1];
      Manifest(prior) + [ManifestEntry(r.id, |r.templ|, |Bytes(prior)|)]
  }

  /** Sum of the sizes of manifest rows. */
  function SizeSum(m: seq<ManifestEntry>): nat
    decreases |m|
  {
    if m == [] then 0 else SizeSum(m[..|m| - 1]) + m[|m| - 1].size
  }

  /** Appending records never rewrites what earlier records put in the manifest or the EDB. */
  lemma {:induction false} ManifestPrefix(rs: seq<Record>, j: nat)
    requires j <= |rs|
    ensures Manifest(rs)[..j] == Manifest(rs[..j])
    ensures Bytes(rs[..j]) <= Bytes(rs)
    decreases |rs|
  {
    if j < |rs| {
      var prior := rs[..|rs| - 1];
      ManifestPrefix(prior, j);
      assert prior[..j] == rs[..j];
    } else {
      assert rs[..j] == rs;
    }
  }

  /** The EDB is exactly as long as the manifest's sizes add up to. */
  lemma {:induction false} BytesSize(rs: seq<Record>)
    ensures |Bytes(rs)| == SizeSum(Manifest(rs))
    decreases |rs|
  {
    if rs != [] {
      var prior := rs[..|rs| - 1];
      BytesSize(prior);
      assert Manifest(rs)[..|rs| - 1] == Manifest(prior);
    }
  }

  /** Row `j` is written from record `j` and the EDB length before it; the EDB then holds its bytes. */
  lemma EntryOfPrefix(rs: seq<Record>, j: nat)
    requires j < |rs|
    ensures Manifest(rs)[j] == ManifestEntry(rs[j].id, |rs[j].templ|, |Bytes(rs[..j])|)
    ensures Bytes(rs[..j]) + rs[j].templ <= Bytes(rs)
  {
    var upto := rs[..j + 1];
    ManifestPrefix(rs, j + 1);
    assert upto[..j] == rs[..j];
    assert upto[j] == rs[j];
    assert Manifest(rs)[j] == Manifest(rs)[..j + 1][j];
  }

  /**
   * Row `j` names record `j`, gives its template size, and its offset is
   * the sum of the sizes of the rows before it; the EDB bytes at
   * `[offset, offset + size)` are exactly that record's template.
   */
  lemma EntryFacts(rs: seq<Record>, j: nat)
    requires j < |rs|
    ensures var e := Manifest(rs)[j];
      && e.id == rs[j].id
      && e.size == |rs[j].templ|
      && e.offset == SizeSum(Manifest(rs)[..j])
      && e.offset + e.size <= |Bytes(rs)|
      && Bytes(rs)[e.offset..e.offset + e.size] == rs[j].templ
  {
    EntryOfPrefix(rs, j);
    ManifestPrefix(rs, j);
    BytesSize(rs[..j]);
    Seqs.AfterPrefix(Bytes(rs[..j]), rs[j].templ, Bytes(rs));
  }

  /** Template sizes 10, 0 and 5 give offsets 0, 10 and 10, and an EDB of 15 bytes. */
  lemma SizesTenZeroFive(rs: seq<Record>)
    requires |rs| == 3 && |rs[0].templ| == 10 && |rs[1].templ| == 0 && |rs[2].templ| == 5
    ensures Manifest(rs)[0].offset == 0 && Manifest(rs)[1].offset == 10 && Manifest(rs)[2].offset == 10
    ensures |Bytes(rs)| == 15
  {
    EntryOfPrefix(rs, 0);
    EntryOfPrefix(rs, 1);
    EntryOfPrefix(rs, 2);
    assert rs[..1][..0] == [];
    assert |Bytes(rs[..1])| == 10;
    assert rs[..2][..1] == rs[..1];
    assert |Bytes(rs[..2])| == 10;
    assert rs[..3] == rs && rs[..3][..2] == rs[..2];
  }

  // ------------------------------------------------------- manifest text

  /** A row as `stream << id << " " << size << " " << offset << endl` prints it. */
  function Row(e: ManifestEntry): string {
    e.id + (" " + (Decimal.NatToString(e.size) + (" " + (Decimal.NatToString(e.offset) + "\n"))))
  }

  /** The manifest file once its rows were printed in order. */
  function Render(m: seq<ManifestEntry>): string
    decreases |m|
  {
    if m == [] then [] else Render(m[..|m| - 1]) + Row(m[|m| - 1])
  }

  /** A manifest file read back row by row, sizes and offsets through `atol`. */
  function ParseManifest(text: string): (m: seq<ManifestEntry>)
    ensures |m| == |Text.Tokens(text, Text.Blanks)| / 3
  {
    Entries(Text.Triples(Text.Tokens(text, Text.Blanks)))
  }

  /** Each triple as a manifest row, size and offset through `atol`. */
  function Entries(ts: seq<Text.Triple>): (m: seq<ManifestEntry>)
    ensures |m| == |ts|
    decreases |ts|
  {
    if ts == [] then []
    else
      var t := ts[|ts| - 1];
      Entries(ts[..|ts| - 1]) + [ManifestEntry(t.first, Decimal.Atol(t.second), Decimal.Atol(t.third))]
  }

  /** An id that reads back as one word: non-empty and free of blanks. */
  predicate IsWord(id: string) {
    id != [] && Text.FreeOf(id, Text.Blanks)
  }

  /** The words of the rendered rows, in order. */
  function Words(m: seq<ManifestEntry>): (ws: seq<string>)
    ensures |ws| == 3 * |m|
    decreases |m|
  {
    if m == [] then []
    else
      var e := m[|m| - 1];
      Words(m[..|m| - 1]) + [e.id, Decimal.NatToString(e.size), Decimal.NatToString(e.offset)]
  }

  lemma DecimalIsWord(n: nat)
    ensures IsWord(Decimal.NatToString(n))
  {
    var s := Decimal.NatToString(n);
    forall i | 0 <= i < |s|
      ensures s[i] !in Text.Blanks
    {
      assert Decimal.IsDigit(s[i]);
    }
  }

  /** One printed row reads back as its three words. */
  lemma RowTokens(e: ManifestEntry)
    requires IsWord(e.id)
    ensures Text.Tokens(Row(e), Text.Blanks) == [e.id, Decimal.NatToString(e.size), Decimal.NatToString(e.offset)]
  {
    var ds, dof := Decimal.NatToString(e.size), Decimal.NatToString(e.offset);
    DecimalIsWord(e.size);
    DecimalIsWord(e.offset);
    var tail3 := "\n";
    var tail2 := " " + (dof + tail3);
    var tail1 := " " + (ds + tail2);
    Text.WordThenDelimiter(e.id, tail1, Text.Blanks);
    assert tail1[1..] == ds + tail2;
    Text.WordThenDelimiter(ds, tail2, Text.Blanks);
    assert tail2[1..] == dof + tail3;
    Text.WordThenDelimiter(dof, tail3, Text.Blanks);
    assert tail3[1..] == [];
  }

  /** Every row ends with a newline, so the rendered file reads as the rows' words. */
  lemma {:induction false} RenderTokens(m: seq<ManifestEntry>)
    requires forall j :: 0 <= j < |m| ==> IsWord(m[j].id)
    ensures Text.Tokens(Render(m), Text.Blanks) == Words(m)
    decreases |m|
  {
    if m != [] {
      var prior := m[..|m| - 1];
      var e := m[|m| - 1];
      RenderTokens(prior);
      var r := Render(prior);
      if r != [] {
        var p2 := prior[..|prior| - 1];
        assert r == Render(p2) + Row(prior[|prior| - 1]);
        assert r[|r| - 1] == '\n';
      }
      Text.TokensAppend(r, Row(e), Text.Blanks);
      RowTokens(e);
    }
  }

  /** The rendered rows' words, read back three at a time, are the rows again. */
  lemma {:induction false} WordsTriples(m: seq<ManifestEntry>)
    ensures Entries(Text.Triples(Words(m))) == m
    decreases |m|
  {
    if m != [] {
      var prior := m[..|m| - 1];
      var e := m[|m| - 1];
      var ds, dof := Decimal.NatToString(e.size), Decimal.NatToString(e.offset);
      WordsTriples(prior);
      Text.TriplesAppend(Words(prior), e.id, ds, dof);
      var ts := Text.Triples(Words(prior)) + [Text.Triple(e.id, ds, dof)];
      assert ts[..|ts| - 1] == Text.Triples(Words(prior));
      Decimal.ParseNatToString(e.size);
      Decimal.ParseNatToString(e.offset);
    }
  }

  /**
   * Round trip: a manifest whose ids are single words reads back, row by
   * row, as the entries that were printed.
   */
  lemma ManifestRoundTrip(m: seq<ManifestEntry>)
    requires forall j :: 0 <= j < |m| ==> IsWord(m[j].id)
    ensures ParseManifest(Render(m)) == m
  {
    RenderTokens(m);
    WordsTriples(m);
  }

  /** A manifest row names a record, its size, and where in the EDB its template lies. */
  predicate RowReadsBack(e: ManifestEntry, edb: seq<Byte>, r: Record) {
    && e.id == r.id
    && e.size == |r.templ|
    && e.offset + e.size <= |edb|
    && edb[e.offset..e.offset + e.size] == r.templ
  }

  /**
   * An EDB and its manifest read back as the records written: row `k` of
   * the parsed manifest names record `k` and its size, and the EDB bytes
   * at the row's offset are record `k`'s template.
   */
  lemma ReadBack(rs: seq<Record>)
    requires forall k :: 0 <= k < |rs| ==> IsWord(rs[k].id)
    ensures ParseManifest(Render(Manifest(rs))) == Manifest(rs)
    ensures forall k :: 0 <= k < |rs| ==> RowReadsBack(Manifest(rs)[k], Bytes(rs), rs[k])
  {
    forall k | 0 <= k < |rs| {
      EntryFacts(rs, k);
    }
    ManifestRoundTrip(Manifest(rs));
  }
}
