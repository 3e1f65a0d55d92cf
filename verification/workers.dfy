/**
 * What the 1:N worker processes of both drivers share: the images a worker
 * can load, the probe records it reads three words at a time, and the
 * calls each insert or delete step makes on the implementation.
 */
module Workers {
  import opened Structs
  import opened IdentInterface
  import Text
  import Search
  import Edb
  import Decimal
  import NullGallery

  /**
   * The images `readImage` can load, by path: loading succeeds exactly for
   * the paths present, and yields the image stored under the path.
   */
  type Disk = map<string, Image>

  /** An image as loaded from `path`, given its description tag. */
  function Loaded(disk: Disk, path: string, tag: ImageLabel): (img: Image)
    requires path in disk
    ensures img.description == tag
    ensures img.width == disk[path].width && img.height == disk[path].height && img.depth == disk[path].depth
  {
    disk[path].(description := tag)
  }

  /**
   * The records `while (in >> id >> imagePath >> desc)` reads from an input
   * file: its blank-separated words, three at a time (`first` the id,
   * `second` the image path, `third` the description).
   */
  function Probes(text: string): seq<Text.Triple> {
    Text.Triples(Text.Tokens(text, Text.Blanks))
  }

  /** The index of the first record whose image does not load, or the record count when all load. */
  function FirstMissing(probes: seq<Text.Triple>, disk: Disk): (m: nat)
    ensures m <= |probes|
    ensures forall j :: 0 <= j < m ==> probes[j].second in disk
    ensures m < |probes| ==> probes[m].second !in disk
    decreases |probes|
  {
    if probes == [] then 0
    else if probes[0].second !in disk then 0
    else
      var m := 1 + FirstMissing(probes[1..], disk);
      assert forall j :: 1 <= j < m ==> probes[j] == probes[1..][j - 1];
      m
  }

  /** The role of the `j`-th record in an insert run: the first is the probe, the rest are gallery entries. */
  function RoleOf(j: nat): (role: TemplateRole)
    ensures role == Search1N <==> j == 0
  {
    if j == 0 then Search1N else Enrollment1N
  }

  /** One insert step: insert the entry, then search with the probe template. */
  function InsertStep(templ: seq<Byte>, id: string, probe: CreateResult): seq<Call> {
    [GalleryInsertID(templ, id)] + Search.SearchCalls(probe.templ, probe.code)
  }

  /** One delete step: delete the entry, then search with the probe template. */
  function DeleteStep(id: string, probe: CreateResult): seq<Call> {
    [GalleryDeleteID(id)] + Search.SearchCalls(probe.templ, probe.code)
  }

  /**
   * The ids a worker reads with `>>` are single words, so the manifest
   * rows it writes for them read back as written.
   */
  lemma ProbeIdsAreWords(text: string)
    ensures forall j :: 0 <= j < |Probes(text)| ==> Edb.IsWord(Probes(text)[j].first)
  {
    var ws := Text.Tokens(text, Text.Blanks);
    Text.TokensAreWords(text, Text.Blanks);
    forall j | 0 <= j < |Probes(text)|
      ensures Edb.IsWord(Probes(text)[j].first)
    {
      Text.TripleAt(ws, j);
      assert Probes(text)[j].first == ws[3 * j];
    }
  }

  /** One row of an enrollment log: `id image templateSizeBytes returnCode` and an eye pair. */
  datatype EnrollRow = EnrollRow(id: string, image: string, templateSizeBytes: nat, returnCode: nat, eyes: EyePair)

  /** Names that differ only in a trailing index differ when the indexes do. */
  lemma IndexedDistinct(prefix: string, i: nat, j: nat)
    requires i != j
    ensures prefix + Decimal.NatToString(i) != prefix + Decimal.NatToString(j)
  {
    if prefix + Decimal.NatToString(i) == prefix + Decimal.NatToString(j) {
      assert (prefix + Decimal.NatToString(i))[|prefix|..] == Decimal.NatToString(i);
      assert (prefix + Decimal.NatToString(j))[|prefix|..] == Decimal.NatToString(j);
      Decimal.NatToStringInjective(i, j);
    }
  }

  // ------------------------------------------------- EDB and manifest writes

  /** Appending a record appends its manifest row and its bytes. */
  lemma AppendRecord(rs: seq<Edb.Record>, r: Edb.Record)
    ensures Edb.Bytes(rs + [r]) == Edb.Bytes(rs) + r.templ
    ensures Edb.Render(Edb.Manifest(rs + [r])) ==
      Edb.Render(Edb.Manifest(rs)) + Edb.Row(Edb.ManifestEntry(r.id, |r.templ|, |Edb.Bytes(rs)|))
  {
    var all := rs + [r];
    assert all[..|all| - 1] == rs;
    var m := Edb.Manifest(all);
    assert m[..|m| - 1] == Edb.Manifest(rs);
  }

  /**
   * The two writes of one record: its manifest row, whose offset is the EDB
   * write position (`tellp`) before the append, then its bytes.
   */
  method WriteRecord(records: seq<Edb.Record>, edb: seq<Byte>, manifest: string, r: Edb.Record)
    returns (records': seq<Edb.Record>, edb': seq<Byte>, manifest': string)
    requires edb == Edb.Bytes(records) && manifest == Edb.Render(Edb.Manifest(records))
    ensures records' == records + [r]
    ensures edb' == Edb.Bytes(records') && manifest' == Edb.Render(Edb.Manifest(records'))
  {
    AppendRecord(records, r);
    manifest' := manifest + Edb.Row(Edb.ManifestEntry(r.id, |r.templ|, |edb|));
    edb' := edb + r.templ;
    records' := records + [r];
  }

  // ------------------------------------------------------- gallery updates

  /** The number of insert steps for `n` records. */
  function StepCount(n: nat): nat {
    if n == 0 then 0 else n - 1
  }

  /** The calls of insert steps 1 to `s`: insert record `i`, then search with record 0. */
  function InsertTrace(probes: seq<Text.Triple>, create: nat -> CreateResult, s: nat): seq<Call>
    requires s == 0 || s < |probes|
  {
    if s == 0 then []
    else InsertTrace(probes, create, s - 1) + InsertStep(create(s).templ, probes[s].first, create(0))
  }

  /** The calls of delete steps 1 to `s`: delete record `i`, then search with record 0. */
  function DeleteTrace(probes: seq<Text.Triple>, create: nat -> CreateResult, s: nat): seq<Call>
    requires s == 0 || s < |probes|
  {
    if s == 0 then []
    else DeleteTrace(probes, create, s - 1) + DeleteStep(probes[s].first, create(0))
  }

  /** The ids of records 1 to `s`, the ones the steps insert or delete. */
  function Entries(probes: seq<Text.Triple>, s: nat): set<string>
    requires s == 0 || s < |probes|
  {
    set i | 1 <= i <= s :: probes[i].first
  }

  lemma EntriesStep(probes: seq<Text.Triple>, s: nat)
    requires 0 < s < |probes|
    ensures Entries(probes, s) == Entries(probes, s - 1) + {probes[s].first}
  {
  }

  /** Removing entries none of which is in `g` leaves `g` as it is. */
  lemma RemoveAbsent(probes: seq<Text.Triple>, s: nat, g: map<string, seq<Byte>>)
    requires s == 0 || s < |probes|
    requires forall i :: 1 <= i <= s ==> probes[i].first !in g
    ensures g - Entries(probes, s) == g
  {
    assert forall x :: x in Entries(probes, s) ==> x !in g;
  }

  /** The search calls of a step leave the gallery as it was. */
  lemma SearchKeepsGallery(g: map<string, seq<Byte>>, probe: CreateResult)
    ensures NullGallery.Replay(g, Search.SearchCalls(probe.templ, probe.code)) == g
  {
    NullGallery.ReplayQuiet(g, Search.SearchCalls(probe.templ, probe.code));
  }

  /**
   * The insert steps add the entries' ids to the null implementation's
   * gallery and leave the templates already there untouched.
   */
  lemma {:induction false} InsertsAdd(probes: seq<Text.Triple>, create: nat -> CreateResult,
                                      g: map<string, seq<Byte>>, s: nat)
    requires s == 0 || s < |probes|
    ensures Grown(g, NullGallery.Replay(g, InsertTrace(probes, create, s)), Entries(probes, s))
    decreases s
  {
    if s > 0 {
      var prior := InsertTrace(probes, create, s - 1);
      var x, t := probes[s].first, create(s).templ;
      InsertsAdd(probes, create, g, s - 1);
      InsertStepReplay(g, prior, x, t, create(0));
      assert InsertTrace(probes, create, s) == prior + InsertStep(t, x, create(0));
      EntriesStep(probes, s);
      InsertGrows(g, NullGallery.Replay(g, prior), NullGallery.Replay(g, InsertTrace(probes, create, s)),
                  Entries(probes, s - 1), x, t);
    }
  }

  /** One insert step inserts into the gallery; its search leaves it alone. */
  lemma InsertStepReplay(g: map<string, seq<Byte>>, prior: seq<Call>, x: string, t: seq<Byte>, probe: CreateResult)
    ensures NullGallery.Replay(g, prior + InsertStep(t, x, probe)) == NullGallery.Inserted(NullGallery.Replay(g, prior), x, t)
  {
    var ins: seq<Call> := [GalleryInsertID(t, x)];
    var sc := Search.SearchCalls(probe.templ, probe.code);
    assert NullGallery.Replay(g, prior + ins) == NullGallery.Inserted(NullGallery.Replay(g, prior), x, t) by {
      NullGallery.ReplayAppend(g, prior, ins);
      assert ins[..0] == [];
    }
    assert prior + InsertStep(t, x, probe) == prior + ins + sc;
    NullGallery.ReplayAppend(g, prior + ins, sc);
    SearchKeepsGallery(NullGallery.Replay(g, prior + ins), probe);
  }

  /** One delete step deletes from the gallery; its search leaves it alone. */
  lemma DeleteStepReplay(g: map<string, seq<Byte>>, prior: seq<Call>, x: string, probe: CreateResult)
    ensures NullGallery.Replay(g, prior + DeleteStep(x, probe)) == NullGallery.Replay(g, prior) - {x}
  {
    var del: seq<Call> := [GalleryDeleteID(x)];
    var sc := Search.SearchCalls(probe.templ, probe.code);
    assert NullGallery.Replay(g, prior + del) == NullGallery.Replay(g, prior) - {x} by {
      NullGallery.ReplayAppend(g, prior, del);
      assert del[..0] == [];
    }
    assert prior + DeleteStep(x, probe) == prior + del + sc;
    NullGallery.ReplayAppend(g, prior + del, sc);
    SearchKeepsGallery(NullGallery.Replay(g, prior + del), probe);
  }

  /** `r` is `g` with the ids `added` inserted and every template already in `g` untouched. */
  predicate Grown(g: map<string, seq<Byte>>, r: map<string, seq<Byte>>, added: set<string>) {
    r.Keys == g.Keys + added && forall y :: y in g ==> r[y] == g[y]
  }

  /** One more insert into a gallery grown from `g`. */
  lemma InsertGrows(g: map<string, seq<Byte>>, h: map<string, seq<Byte>>, r: map<string, seq<Byte>>,
                    before: set<string>, x: string, t: seq<Byte>)
    requires Grown(g, h, before)
    requires r == NullGallery.Inserted(h, x, t)
    ensures Grown(g, r, before + {x})
  {
    NullGallery.InsertNeverOverwrites(h, x, t);
  }

  /** The delete steps remove the entries' ids from the null implementation's gallery, and nothing else. */
  lemma {:induction false} DeletesRemove(probes: seq<Text.Triple>, create: nat -> CreateResult,
                                         g: map<string, seq<Byte>>, s: nat)
    requires s == 0 || s < |probes|
    ensures NullGallery.Replay(g, DeleteTrace(probes, create, s)) == g - Entries(probes, s)
    decreases s
  {
    if s == 0 {
      assert g - Entries(probes, s) == g;
    } else {
      var prior := DeleteTrace(probes, create, s - 1);
      DeletesRemove(probes, create, g, s - 1);
      DeleteStepReplay(g, prior, probes[s].first, create(0));
      EntriesStep(probes, s);
      RemoveOneMore(g, Entries(probes, s - 1), probes[s].first);
    }
  }

  lemma RemoveOneMore(g: map<string, seq<Byte>>, ks: set<string>, k: string)
    ensures (g - ks) - {k} == g - (ks + {k})
  {
  }

  // ------------------------------------------------------ insert templating

  lemma TemplatedStep(probes: seq<Text.Triple>, create: nat -> CreateResult,
                      ids: seq<string>, templates: seq<seq<Byte>>, retCodes: seq<ReturnCode>)
    requires Templated(probes, create, ids, templates, retCodes) && |ids| < |probes|
    ensures var j := |ids|;
      Templated(probes, create, ids + [probes[j].first], templates + [create(j).templ], retCodes + [create(j).code])
  {
  }

  /** The ids, templates and return codes kept for the records templated so far. */
  predicate Templated(probes: seq<Text.Triple>, create: nat -> CreateResult,
                      ids: seq<string>, templates: seq<seq<Byte>>, retCodes: seq<ReturnCode>)
  {
    && |ids| == |templates| == |retCodes| <= |probes|
    && forall i :: 0 <= i < |ids| ==>
         ids[i] == probes[i].first && templates[i] == create(i).templ && retCodes[i] == create(i).code
  }
}
