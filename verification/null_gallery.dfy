/**
 * The reference 1:N implementation of the 2018 harness: a gallery held in a
 * map from template id to template bytes, loaded from the enrollment files
 * and changed by insert and delete.
 */
module NullGallery {
  import opened Structs
  import Decimal
  import Edb
  import StringOrder
  import IdentInterface

  /** The text every template carries after the face count. */
  const TemplatePhrase: string := " " + Lyric
  const Lyric: string := "Somewhere out there, beneath the pale moon light\n"

  /** The files finalization writes into the enrollment directory. */
  const EdbFile: string := "mei.edb"
  const ManifestFile: string := "mei.manifest"

  /** The bytes of a string, as `memcpy` from `c_str()` copies them. */
  function Ascii(s: string): (b: seq<Byte>)
    ensures |b| == |s|
  {
    seq(|s|, i requires 0 <= i < |s| => (s[i] as int % 256) as Byte)
  }

  /** Bytes read back as characters. */
  function Chars(b: seq<Byte>): (s: string)
    ensures |s| == |b|
  {
    seq(|b|, i requires 0 <= i < |b| => (b[i] as int) as char)
  }

  /** The template made for `n` faces: the decimal count, then the phrase. */
  function TemplateBytes(n: nat): seq<Byte> {
    Ascii(Decimal.NatToString(n) + TemplatePhrase)
  }

  /**
   * The template starts with the face count in decimal, so `atol` of its
   * text recovers the count. Nothing in the implementation reads a template
   * back; this lemma checks the model's template layout.
   */
  lemma TemplateCountReadsBack(n: nat)
    ensures Decimal.Atol(Chars(TemplateBytes(n))) == n
    ensures |TemplateBytes(n)| == |Decimal.NatToString(n)| + |TemplatePhrase|
  {
    var d := Decimal.NatToString(n);
    var t := Chars(TemplateBytes(n));
    var rest := t[|d|..];
    forall i | 0 <= i < |d|
      ensures t[i] == d[i]
    {
      assert Decimal.IsDigit(d[i]);
    }
    assert t == d + rest;
    var text := d + TemplatePhrase;
    assert text[|d|] == TemplatePhrase[0] == ' ';
    assert t[|d|] == ' ';
    assert rest[0] == ' ';
    Decimal.AtolOfPrefix(n, rest);
  }

  /** A store of files: text files and binary files by path. */
  datatype FileStore = FileStore(texts: map<string, string>, binaries: map<string, seq<Byte>>)

  /** `n` zero bytes: what a vector of `n` bytes holds before anything is read into it. */
  function Zeros(n: nat): (z: seq<Byte>)
    ensures |z| == n
  {
    seq(n, _ => 0 as Byte)
  }

  /**
   * `seekg(offset)` then `read(size)` into a zeroed buffer of `size` bytes on
   * an EDB stream, with the stream's failure state before and after. A read
   * that finds fewer than `size` bytes fails the stream; a failed stream
   * ignores every later seek and read.
   */
  function ReadAt(edb: seq<Byte>, offset: nat, size: nat, failed: bool): (r: (seq<Byte>, bool))
    ensures |r.0| == size
    ensures failed ==> r == (Zeros(size), true)
    ensures !failed && offset + size <= |edb| ==> r == (edb[offset..offset + size], false)
    ensures !failed && offset + size > |edb| && size > 0 ==> r.1
  {
    if failed then (Zeros(size), true)
    else if offset + size <= |edb| then (edb[offset..offset + size], false)
    else
      var hi := if offset + size <= |edb| then offset + size else |edb|;
      var avail := if offset <= |edb| then edb[offset..hi] else [];
      (avail + Zeros(size - |avail|), |avail| < size)
  }

  /**
   * The manifest loop of `initializeIdentification`: each row's bytes are
   * read and inserted under its id unless the id is already present.
   */
  function Load(acc: map<string, seq<Byte>>, failed: bool, entries: seq<Edb.ManifestEntry>, edb: seq<Byte>)
    : map<string, seq<Byte>>
    decreases |entries|
  {
    if entries == [] then acc
    else
      var e := entries[0];
      var r := ReadAt(edb, e.offset, e.size, failed);
      Load(if e.id in acc then acc else acc[e.id := r.0], r.1, entries[1..], edb)
  }

  /** Each record's id mapped to the template of its first occurrence. */
  function FirstWins(rs: seq<Edb.Record>): map<string, seq<Byte>>
    decreases |rs|
  {
    if rs == [] then map[]
    else
      var m := FirstWins(rs[..|rs| - 1]);
      var r := rs[|rs| - 1];
      if r.id in m then m else m[r.id := r.templ]
  }

  /** FirstWins holds every record's id, mapped to the template of its earliest record. */
  lemma {:induction false} FirstWinsMeaning(rs: seq<Edb.Record>)
    ensures forall id :: id in FirstWins(rs) <==> exists j :: 0 <= j < |rs| && rs[j].id == id
    ensures forall j :: 0 <= j < |rs| && (forall i :: 0 <= i < j ==> rs[i].id != rs[j].id) ==>
      rs[j].id in FirstWins(rs) && FirstWins(rs)[rs[j].id] == rs[j].templ
    decreases |rs|
  {
    if rs != [] {
      var prior := rs[..|rs| - 1];
      FirstWinsMeaning(prior);
      forall id | id in FirstWins(rs)
        ensures exists j :: 0 <= j < |rs| && rs[j].id == id
      {
        if id in FirstWins(prior) {
          var j :| 0 <= j < |prior| && prior[j].id == id;
          assert rs[j].id == id;
        } else {
          assert rs[|rs| - 1].id == id;
        }
      }
      forall id | exists j :: 0 <= j < |rs| && rs[j].id == id
        ensures id in FirstWins(rs)
      {
        var j :| 0 <= j < |rs| && rs[j].id == id;
        if j < |prior| {
          assert prior[j].id == id;
        }
      }
      forall j | 0 <= j < |rs| && (forall i :: 0 <= i < j ==> rs[i].id != rs[j].id)
        ensures rs[j].id in FirstWins(rs) && FirstWins(rs)[rs[j].id] == rs[j].templ
      {
        if j < |prior| {
          assert prior[j] == rs[j];
          assert forall i :: 0 <= i < j ==> prior[i] == rs[i];
        } else {
          assert forall i :: 0 <= i < |prior| ==> prior[i].id == rs[i].id;
        }
      }
    }
  }

  /** Loading the rest of the manifest on top of the first `j` records' gallery completes it. */
  lemma {:induction false} LoadSuffix(rs: seq<Edb.Record>, j: nat)
    requires j <= |rs|
    ensures Load(FirstWins(rs[..j]), false, Edb.Manifest(rs)[j..], Edb.Bytes(rs)) == FirstWins(rs)
    decreases |rs| - j
  {
    if j == |rs| {
      assert rs[..j] == rs;
      assert Edb.Manifest(rs)[j..] == [];
    } else {
      var m := Edb.Manifest(rs);
      var e := m[j];
      Edb.EntryFacts(rs, j);
      assert m[j..][1..] == m[j + 1..];
      var upto := rs[..j + 1];
      assert upto[..j] == rs[..j];
      assert upto[j] == rs[j];
      LoadSuffix(rs, j + 1);
    }
  }

  /**
   * Round trip: the manifest and EDB an enrollment writes, read back by the
   * manifest loop into an empty gallery, map each id to the template
   * enrolled first under it.
   */
  lemma LoadAfterEnroll(rs: seq<Edb.Record>)
    requires forall j :: 0 <= j < |rs| ==> Edb.IsWord(rs[j].id)
    ensures Load(map[], false, Edb.ParseManifest(Edb.Render(Edb.Manifest(rs))), Edb.Bytes(rs)) == FirstWins(rs)
  {
    Edb.ManifestRoundTrip(Edb.Manifest(rs));
    LoadSuffix(rs, 0);
    assert rs[..0] == [];
    assert Edb.Manifest(rs)[0..] == Edb.Manifest(rs);
  }

  /** The gallery after `galleryInsertID`: `map::insert` adds, never replaces. */
  function Inserted(m: map<string, seq<Byte>>, id: string, t: seq<Byte>): map<string, seq<Byte>> {
    if id in m then m else m[id := t]
  }

  /**
   * The null implementation's gallery after the harness's calls, in order:
   * an insert adds an id that is not there yet, a delete removes it, and
   * every other call leaves the gallery as it was.
   */
  function Replay(g: map<string, seq<Byte>>, calls: seq<IdentInterface.Call>): map<string, seq<Byte>>
    decreases |calls|
  {
    if calls == [] then g
    else
      var prior := Replay(g, calls[..|calls| - 1]);
      match calls[|calls| - 1]
      case GalleryInsertID(t, id) => Inserted(prior, id, t)
      case GalleryDeleteID(id) => prior - {id}
      case _ => prior
  }

  /** Replaying two call sequences one after the other is replaying their concatenation. */
  lemma {:induction false} ReplayAppend(g: map<string, seq<Byte>>, a: seq<IdentInterface.Call>, b: seq<IdentInterface.Call>)
    ensures Replay(g, a + b) == Replay(Replay(g, a), b)
    decreases |b|
  {
    if b == [] {
      assert a + b == a;
    } else {
      assert (a + b)[..|a + b| - 1] == a + b[..|b| - 1];
      ReplayAppend(g, a, b[..|b| - 1]);
    }
  }

  /** Calls that neither insert nor delete leave the gallery as it was. */
  lemma {:induction false} ReplayQuiet(g: map<string, seq<Byte>>, calls: seq<IdentInterface.Call>)
    requires forall i :: 0 <= i < |calls| ==> !calls[i].GalleryInsertID? && !calls[i].GalleryDeleteID?
    ensures Replay(g, calls) == g
    decreases |calls|
  {
    if calls != [] {
      ReplayQuiet(g, calls[..|calls| - 1]);
    }
  }

  /** An insert keeps every existing entry as it was and leaves `id` present. */
  lemma InsertNeverOverwrites(m: map<string, seq<Byte>>, id: string, t: seq<Byte>)
    ensures Inserted(m, id, t).Keys == m.Keys + {id}
    ensures forall x :: x in m ==> Inserted(m, id, t)[x] == m[x]
    ensures id !in m ==> Inserted(m, id, t)[id] == t
    ensures Inserted(Inserted(m, id, t), id, t) == Inserted(m, id, t)
  {
  }

  /** Deleting removes `id` and nothing else; deleting again changes nothing. */
  lemma DeleteIdempotent(m: map<string, seq<Byte>>, id: string)
    ensures id !in m - {id}
    ensures forall x :: x in m && x != id ==> x in m - {id} && (m - {id})[x] == m[x]
    ensures (m - {id}) - {id} == m - {id}
  {
  }

  class NullImpl {
    /** The loaded gallery: template id to template bytes. */
    var templates: map<string, seq<Byte>>

    constructor ()
      ensures templates == map[]
    {
      templates := map[];
    }

    /** `createTemplate`: the count template and one eye pair per face; always Success. */
    method CreateTemplate(faces: seq<Image>, role: TemplateRole)
      returns (code: ReturnCode, templ: seq<Byte>, eyes: seq<EyePair>)
      ensures code == Success
      ensures templ == TemplateBytes(|faces|)
      ensures |eyes| == |faces|
      ensures forall i :: 0 <= i < |faces| ==>
        eyes[i] == EyePair(true, true, ToU16(i), ToU16(i), ToU16(i + 1), ToU16(i + 1))
    {
      templ := TemplateBytes(|faces|);
      eyes := [];
      var i := 0;
      while i < |faces|
        invariant 0 <= i <= |faces|
        invariant |eyes| == i
        invariant forall j :: 0 <= j < i ==>
          eyes[j] == EyePair(true, true, ToU16(j), ToU16(j), ToU16(j + 1), ToU16(j + 1))
      {
        eyes := eyes + [EyePair(true, true, ToU16(i), ToU16(i), ToU16(i + 1), ToU16(i + 1))];
        i := i + 1;
      }
      code := Success;
    }

    /**
     * `finalizeEnrollment`: copies the EDB and the manifest into the
     * enrollment directory as `mei.edb` and `mei.manifest`. A source that
     * does not open leaves an empty copy. Always Success.
     */
    method FinalizeEnrollment(configDir: string, enrollmentDir: string, edbName: string,
                              manifestName: string, galleryType: GalleryType, fs: FileStore)
      returns (code: ReturnCode, fs': FileStore)
      ensures code == Success
      ensures var ep, mp := enrollmentDir + "/" + EdbFile, enrollmentDir + "/" + ManifestFile;
        && ep in fs'.binaries && mp in fs'.texts
        && fs'.binaries[ep] == (if edbName in fs.binaries then fs.binaries[edbName] else [])
        && fs'.texts[mp] == (if manifestName in fs.texts then fs.texts[manifestName] else "")
        && (forall p :: p in fs.binaries && p != ep ==> p in fs'.binaries && fs'.binaries[p] == fs.binaries[p])
        && (forall p :: p in fs.texts && p != mp ==> p in fs'.texts && fs'.texts[p] == fs.texts[p])
        && fs'.binaries.Keys == fs.binaries.Keys + {ep}
        && fs'.texts.Keys == fs.texts.Keys + {mp}
    {
      var edbBytes := if edbName in fs.binaries then fs.binaries[edbName] else [];
      var manifestText := if manifestName in fs.texts then fs.texts[manifestName] else "";
      fs' := FileStore(fs.texts[enrollmentDir + "/" + ManifestFile := manifestText],
                       fs.binaries[enrollmentDir + "/" + EdbFile := edbBytes]);
      code := Success;
    }

    /**
     * `initializeIdentification`: ConfigError when the manifest or the EDB
     * in the enrollment directory does not open; otherwise every manifest
     * row's bytes are loaded into the gallery, the first row of an id
     * winning over later ones and over entries already present.
     */
    method InitializeIdentification(configDir: string, enrollmentDir: string, fs: FileStore)
      returns (code: ReturnCode)
      modifies this
      ensures var ep, mp := enrollmentDir + "/" + EdbFile, enrollmentDir + "/" + ManifestFile;
        if mp !in fs.texts || ep !in fs.binaries then
          code == ConfigError && templates == old(templates)
        else
          code == Success
          && templates == Load(old(templates), false, Edb.ParseManifest(fs.texts[mp]), fs.binaries[ep])
    {
      var mp := enrollmentDir + "/" + ManifestFile;
      var ep := enrollmentDir + "/" + EdbFile;
      if mp !in fs.texts {
        return ConfigError;
      }
      if ep !in fs.binaries {
        return ConfigError;
      }
      var entries := Edb.ParseManifest(fs.texts[mp]);
      var edb := fs.binaries[ep];
      var failed := false;
      var i := 0;
      while i < |entries|
        invariant 0 <= i <= |entries|
        invariant Load(templates, failed, entries[i..], edb) == Load(old(templates), false, entries, edb)
      {
        var e := entries[i];
        var templData: seq<Byte>;
        templData, failed := ReadAt(edb, e.offset, e.size, failed).0, ReadAt(edb, e.offset, e.size, failed).1;
        if e.id !in templates {
          templates := templates[e.id := templData];
        }
        assert entries[i..][1..] == entries[i + 1..];
        i := i + 1;
      }
      code := Success;
    }

    /**
     * `identifyTemplate`: `k` candidates, all assigned, cycling through the
     * gallery's ids in key order, with scores k, k-1, ..., 1; the decision is
     * true. The ids are taken modulo the gallery size, so a non-empty
     * request needs a non-empty gallery.
     */
    method IdentifyTemplate(idTemplate: seq<Byte>, k: nat)
      returns (code: ReturnCode, candidates: seq<Candidate>, decision: bool)
      requires k < 0x1_0000_0000
      requires k == 0 || templates != map[]
      ensures code == Success && decision
      ensures |candidates| == k
      ensures forall i :: 0 <= i < k ==>
        candidates[i] == Candidate(true, StringOrder.Sorted(templates.Keys)[i % |templates.Keys|], (k - i) as real)
      ensures forall i, j :: 0 <= i < j < k ==> candidates[j].similarityScore < candidates[i].similarityScore
      ensures forall i :: 0 <= i < k ==> candidates[i].templateId in templates
      ensures IdentInterface.IdentifyConforms(k, IdentInterface.IdentifyResult(code, candidates, decision))
    {
      var templateIds := SortedIds(templates.Keys);
      StringOrder.SortedFacts(templates.Keys);
      candidates := [];
      var i := 0;
      while i < k
        invariant 0 <= i <= k
        invariant |candidates| == i
        invariant forall j :: 0 <= j < i ==>
          candidates[j] == Candidate(true, templateIds[j % |templateIds|], (k - j) as real)
      {
        candidates := candidates + [Candidate(true, templateIds[i % |templateIds|], (k - i) as real)];
        i := i + 1;
      }
      decision := true;
      code := Success;
      forall j | 0 <= j < k
        ensures candidates[j].templateId in templates
      {
        assert templateIds[j % |templateIds|] in templateIds;
      }
    }

    /** The keys of the gallery in the order a `std::map` iterates them. */
    static method SortedIds(keys: set<string>) returns (ids: seq<string>)
      ensures ids == StringOrder.Sorted(keys)
    {
      var remaining := keys;
      ids := [];
      while remaining != {}
        invariant remaining <= keys
        invariant ids + StringOrder.Sorted(remaining) == StringOrder.Sorted(keys)
        decreases |remaining|
      {
        StringOrder.LeastExists(remaining);
        var x :| StringOrder.IsLeast(x, remaining);
        StringOrder.SortedStep(remaining, x);
        ids := ids + [x];
        remaining := remaining - {x};
      }
    }

    /** `galleryInsertID`: adds the template unless the id is already present; always Success. */
    method GalleryInsertID(templ: seq<Byte>, id: string) returns (code: ReturnCode)
      modifies this
      ensures code == Success
      ensures templates == Inserted(old(templates), id, templ)
    {
      if id !in templates {
        templates := templates[id := templ];
      }
      code := Success;
    }

    /** `galleryDeleteID`: removes the id if present; always Success. */
    method GalleryDeleteID(id: string) returns (code: ReturnCode)
      modifies this
      ensures code == Success
      ensures templates == old(templates) - {id}
    {
      templates := templates - {id};
      code := Success;
    }
  }
}
