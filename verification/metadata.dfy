/**
 * The metadata document as an in-memory value: original file name -> version
 * key -> record. The document is JSON edited by nobody but the engine in
 * normal use, but it is read back as arbitrary JSON, so a history or a record
 * may be some other JSON value, and a record may lack fields; the model keeps
 * those shapes so that the engine's reaction to them is visible.
 */
module MetadataStore {
  import opened Results
  import opened Paths
  import opened Timestamps

  /** The value under a version key: a dict with the three fields (each possibly absent), or anything else. */
  datatype Version =
    | Record(encryptedFile: Option<string>, sha256: Option<string>, timestamp: Option<string>)
    | NotARecord

  /** The value under an original name: a dict of versions, or anything else. */
  datatype History = Versions(versions: map<string, Version>) | NotAHistory

  type Metadata = map<string, History>

  /** The record `encrypt_file` writes. */
  function NewRecord(encryptedFile: string, sha256: string, timestamp: string): Version
  {
    Record(Some(encryptedFile), Some(sha256), Some(timestamp))
  }

  /** The versions stored under `name`; none when the name is absent or not a dict. */
  function VersionsOf(m: Metadata, name: string): map<string, Version>
  {
    if name in m && m[name].Versions? then m[name].versions else map[]
  }

  // ---------------------------------------------------------------------
  // Recording a version
  // ---------------------------------------------------------------------

  /** A version can be recorded under `name`: the name is new or holds a dict. */
  predicate Recordable(m: Metadata, name: string)
  {
    name !in m || m[name].Versions?
  }

  /**
   * `metadata[name][ts] = record`, creating an empty history for a new name
   * first. Fails (Python raises on item assignment) when the name holds
   * something other than a dict. On success the new record is stored under
   * `(name, ts)`, the history gains exactly the key `ts`, every other version
   * of `name` and every other name is untouched, and a first encryption leaves
   * a history of exactly one version.
   */
  function RecordVersion(m: Metadata, name: string, ts: string, v: Version): (r: Result<Metadata>)
    ensures r.Ok? <==> Recordable(m, name)
    ensures r.Err? ==> r.error == MalformedEntry
    ensures r.Ok? ==> r.value.Keys == m.Keys + {name}
    ensures r.Ok? ==> forall n :: n in m && n != name ==> r.value[n] == m[n]
    ensures r.Ok? ==> r.value[name].Versions?
    ensures r.Ok? ==> r.value[name].versions.Keys == VersionsOf(m, name).Keys + {ts}
    ensures r.Ok? ==> r.value[name].versions[ts] == v
    ensures r.Ok? ==> forall t :: t in VersionsOf(m, name) && t != ts ==>
                       r.value[name].versions[t] == VersionsOf(m, name)[t]
    ensures name !in m ==> r.Ok? && r.value[name].versions == map[ts := v]
  {
    if name !in m then Ok(m[name := Versions(map[ts := v])])
    else if m[name].NotAHistory? then Err(MalformedEntry)
    else Ok(m[name := Versions(m[name].versions[ts := v])])
  }

  /** Recording the same `(name, ts)` twice keeps only the second record: last write wins. */
  lemma LastWriteWins(m: Metadata, name: string, ts: string, v1: Version, v2: Version)
    requires RecordVersion(m, name, ts, v1).Ok?
    ensures RecordVersion(RecordVersion(m, name, ts, v1).value, name, ts, v2) == RecordVersion(m, name, ts, v2)
  {
    var m1 := RecordVersion(m, name, ts, v1).value;
    RecordShape(m, name, ts, v1);
    assert RecordVersion(m1, name, ts, v2).Ok?;
    RecordShape(m1, name, ts, v2);
    RecordShape(m, name, ts, v2);
    assert VersionsOf(m1, name) == VersionsOf(m, name)[ts := v1];
    var h2 := Versions(VersionsOf(m, name)[ts := v2]);
    assert VersionsOf(m, name)[ts := v1][ts := v2] == VersionsOf(m, name)[ts := v2];
    assert m1[name := h2] == m[name := h2];
  }

  /** The document with `v` stored under `(name, ts)`, as a plain map update. */
  function Put(m: Metadata, name: string, ts: string, v: Version): Metadata
  {
    m[name := Versions(VersionsOf(m, name)[ts := v])]
  }

  /** A successful recording is that map update. */
  lemma RecordShape(m: Metadata, name: string, ts: string, v: Version)
    requires RecordVersion(m, name, ts, v).Ok?
    ensures RecordVersion(m, name, ts, v).value == Put(m, name, ts, v)
  {
  }

  /** Map updates under different keys commute. */
  lemma PutCommutes(m: Metadata, n1: string, t1: string, v1: Version, n2: string, t2: string, v2: Version)
    requires n1 != n2 || t1 != t2
    ensures Put(Put(m, n1, t1, v1), n2, t2, v2) == Put(Put(m, n2, t2, v2), n1, t1, v1)
  {
    var h1, h2 := VersionsOf(m, n1), VersionsOf(m, n2);
    if n1 == n2 {
      assert VersionsOf(Put(m, n1, t1, v1), n2) == h1[t1 := v1];
      assert VersionsOf(Put(m, n2, t2, v2), n1) == h2[t2 := v2];
      assert h1[t1 := v1][t2 := v2] == h2[t2 := v2][t1 := v1];
    } else {
      assert VersionsOf(Put(m, n1, t1, v1), n2) == h2;
      assert VersionsOf(Put(m, n2, t2, v2), n1) == h1;
      assert m[n1 := Versions(h1[t1 := v1])][n2 := Versions(h2[t2 := v2])]
          == m[n2 := Versions(h2[t2 := v2])][n1 := Versions(h1[t1 := v1])];
    }
  }

  /**
   * Two recordings under different keys commute, so the document does not
   * depend on the order in which versions were recorded.
   */
  lemma RecordOrderIrrelevant(m: Metadata, n1: string, t1: string, v1: Version,
                              n2: string, t2: string, v2: Version)
    requires n1 != n2 || t1 != t2
    requires RecordVersion(m, n1, t1, v1).Ok? && RecordVersion(m, n2, t2, v2).Ok?
    ensures RecordVersion(RecordVersion(m, n1, t1, v1).value, n2, t2, v2).Ok?
    ensures RecordVersion(RecordVersion(m, n2, t2, v2).value, n1, t1, v1).Ok?
    ensures RecordVersion(RecordVersion(m, n1, t1, v1).value, n2, t2, v2).value
         == RecordVersion(RecordVersion(m, n2, t2, v2).value, n1, t1, v1).value
  {
    var m1, m2 := RecordVersion(m, n1, t1, v1).value, RecordVersion(m, n2, t2, v2).value;
    RecordShape(m, n1, t1, v1);
    RecordShape(m, n2, t2, v2);
    assert RecordVersion(m1, n2, t2, v2).Ok?;
    assert RecordVersion(m2, n1, t1, v1).Ok?;
    RecordShape(m1, n2, t2, v2);
    RecordShape(m2, n1, t1, v1);
    PutCommutes(m, n1, t1, v1, n2, t2, v2);
  }

  // ---------------------------------------------------------------------
  // The latest version
  // ---------------------------------------------------------------------

  /** `t` is the greatest key of `keys` under Python string order. */
  ghost predicate IsLatest(t: string, keys: set<string>)
  {
    t in keys && forall k :: k in keys && k != t ==> LexLess(k, t)
  }

  /** At most one key is the latest, so the choice does not depend on iteration order. */
  lemma LatestUnique(a: string, b: string, keys: set<string>)
    requires IsLatest(a, keys) && IsLatest(b, keys)
    ensures a == b
  {
    if a != b {
      LexAsymmetric(a, b);
    }
  }

  /**
   * `sorted(versions.keys())[-1]`: the greatest version key under Python
   * string order, and nothing (Python's `IndexError`) for an empty history.
   */
  method LatestVersion(versions: map<string, Version>) returns (r: Option<string>)
    ensures r.None? <==> versions == map[]
    ensures r.Some? ==> IsLatest(r.value, versions.Keys)
  {
    r := None;
    var rest := versions.Keys;
    while rest != {}
      invariant rest <= versions.Keys
      invariant r.None? <==> rest == versions.Keys
      invariant r.Some? ==> IsLatest(r.value, versions.Keys - rest)
      decreases rest
    {
      var k :| k in rest;
      if r.None? {
        r := Some(k);
      } else if LexLess(r.value, k) {
        forall j | j in versions.Keys - rest && j != r.value
          ensures LexLess(j, k)
        {
          LexTransitive(j, r.value, k);
        }
        r := Some(k);
      } else {
        LexTotal(r.value, k);
      }
      rest := rest - {k};
    }
    if r.None? {
      assert versions.Keys == {};
    }
  }

  /**
   * Recording a version whose key exceeds every existing key of the history
   * makes it the latest one.
   */
  lemma NewerRecordIsLatest(m: Metadata, name: string, ts: string, v: Version)
    requires RecordVersion(m, name, ts, v).Ok?
    requires forall k :: k in VersionsOf(m, name) ==> LexLess(k, ts)
    ensures IsLatest(ts, RecordVersion(m, name, ts, v).value[name].versions.Keys)
  {
  }

  // ---------------------------------------------------------------------
  // Reverse lookup
  // ---------------------------------------------------------------------

  /**
   * The record at `(n, t)` is a dict whose `encrypted_file` (the empty string
   * when absent) has basename `q`.
   */
  ghost predicate Locates(m: Metadata, q: string, n: string, t: string)
  {
    n in m && m[n].Versions? && t in m[n].versions && Names(m[n].versions[t], q)
  }

  /** `isinstance(details, dict) and q == os.path.basename(details.get('encrypted_file', ''))` */
  predicate Names(details: Version, q: string)
  {
    details.Record? && Basename(details.encryptedFile.GetOr("")) == q
  }

  /**
   * `find_file_in_metadata`: scans every history and every version, skipping
   * values that are not dicts, and returns the `(name, version)` of a record
   * whose encrypted file has basename `q`; nothing when there is none.
   */
  method FindFileInMetadata(m: Metadata, q: string) returns (r: Option<(string, string)>)
    ensures r.Some? ==> Locates(m, q, r.value.0, r.value.1)
    ensures r.None? ==> forall n, t :: !Locates(m, q, n, t)
  {
    var names := m.Keys;
    while names != {}
      invariant names <= m.Keys
      invariant forall n, t :: n !in names ==> !Locates(m, q, n, t)
      decreases names
    {
      var n :| n in names;
      if m[n].Versions? {
        var versions := m[n].versions;
        var keys := versions.Keys;
        while keys != {}
          invariant keys <= versions.Keys
          invariant forall t :: t !in keys ==> !Locates(m, q, n, t)
          decreases keys
        {
          var t :| t in keys;
          if Names(versions[t], q) {
            return Some((n, t));
          }
          keys := keys - {t};
        }
      }
      names := names - {n};
    }
    return None;
  }

  /**
   * The document as the engine writes it: every record sits under a version
   * key of timestamp width and its encrypted file is named after the
   * original name and that key.
   */
  ghost predicate Consistent(m: Metadata)
  {
    forall q, n, t :: Locates(m, q, n, t) ==> |t| == StampWidth && q == ArtefactName(n, t)
  }

  /** Recording a correctly named record keeps the document consistent. */
  lemma RecordKeepsConsistent(m: Metadata, name: string, ts: string, encPath: string, v: Version)
    requires Consistent(m)
    requires |ts| == StampWidth
    requires v.Record? && v.encryptedFile == Some(encPath) && Basename(encPath) == ArtefactName(name, ts)
    requires RecordVersion(m, name, ts, v).Ok?
    ensures Consistent(RecordVersion(m, name, ts, v).value)
  {
    var m' := RecordVersion(m, name, ts, v).value;
    forall q, n, t | Locates(m', q, n, t)
      ensures |t| == StampWidth && q == ArtefactName(n, t)
    {
      if n != name || t != ts {
        assert Locates(m, q, n, t);
      }
    }
  }

  /**
   * In a consistent document, looking up the artefact name of a recorded
   * version finds that version and no other: recording and then reverse
   * lookup is a round trip.
   */
  lemma LookupFindsRecorded(m: Metadata, name: string, ts: string)
    requires Consistent(m)
    requires name in m && m[name].Versions? && ts in m[name].versions
    requires m[name].versions[ts].Record?
    requires Basename(m[name].versions[ts].encryptedFile.GetOr("")) == ArtefactName(name, ts)
    ensures Locates(m, ArtefactName(name, ts), name, ts)
    ensures forall n, t :: Locates(m, ArtefactName(name, ts), n, t) ==> n == name && t == ts
  {
    assert Locates(m, ArtefactName(name, ts), name, ts);
    assert |ts| == StampWidth;
    forall n, t | Locates(m, ArtefactName(name, ts), n, t)
      ensures n == name && t == ts
    {
      ArtefactNameInjective(n, t, name, ts);
    }
  }
}
