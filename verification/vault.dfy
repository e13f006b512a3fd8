/**
 * The encryption and decryption pipelines (`encrypt_file`, `decrypt_file`)
 * over an abstract authenticated cipher and an abstract SHA-256. File
 * contents are values: the plaintext to encrypt is passed in, and the
 * encrypted artefacts on disk are a map from path to token.
 */
module Vault {
  import opened Bytes
  import opened Results
  import opened ContentHasher
  import opened KeyDeriver
  import opened Timestamps
  import opened Paths
  import opened MetadataStore

  /**
   * The authenticated cipher (Fernet) over raw 32-byte keys. `seal(key, nonce,
   * plaintext)` builds a token, where `nonce` stands for the random IV and
   * clock reading the cipher draws itself; `open(key, token)` returns the
   * plaintext, or nothing when the cipher raises `InvalidToken`.
   */
  datatype Cipher = Cipher(seal: (seq<byte>, seq<byte>, seq<byte>) -> seq<byte>,
                           open: (seq<byte>, seq<byte>) -> Option<seq<byte>>)

  /** Opening a token with the key that sealed it gives the plaintext back. */
  ghost predicate RoundTrips(c: Cipher)
  {
    forall k, n, p :: c.open(k, c.seal(k, n, p)) == Some(p)
  }

  /**
   * Fernet splits its 32-byte key into a signing half (`key[:16]`, the HMAC
   * key) and an encryption half (`key[16:]`, the AES key). The token's HMAC
   * makes a token sealed under one key fail to open under any key with a
   * different signing half; a key sharing the signing half passes the HMAC
   * check and may yield garbage, so nothing is required of it.
   */
  ghost predicate RejectsOtherKeys(c: Cipher)
  {
    forall k1, k2, n, p :: |k1| == 32 && |k2| == 32 && k1[..16] != k2[..16] ==> c.open(k2, c.seal(k1, n, p)) == None
  }

  // ---------------------------------------------------------------------
  // Encryption
  // ---------------------------------------------------------------------

  /** The encrypted files on disk: path to token. */
  type Files = map<string, seq<byte>>

  /** What a successful encryption leaves behind. */
  datatype Encrypted = Encrypted(metadata: Metadata, encPath: string, token: seq<byte>)

  /** The disk after an encryption, with the outcome of recording it. */
  datatype Encryption = Encryption(files: Files, outcome: Result<Encrypted>)

  /**
   * `os.path.join(output_dir, f"{file_name}_{timestamp}.enc")`: the artefact
   * lies in the output directory under the name `<basename>_<stamp>.enc`.
   */
  function ArtefactPath(filePath: string, outputDir: string, stampedAt: DateTime): (r: string)
    requires Valid(stampedAt)
    ensures Basename(r) == ArtefactName(Basename(filePath), Stamp(stampedAt))
    ensures |outputDir| <= |r| && r[..|outputDir|] == outputDir
    ensures |outputDir| > 0 && outputDir[|outputDir| - 1] != '/' ==>
              r == outputDir + "/" + ArtefactName(Basename(filePath), Stamp(stampedAt))
    ensures |outputDir| == 0 || outputDir[|outputDir| - 1] == '/' ==>
              r == outputDir + ArtefactName(Basename(filePath), Stamp(stampedAt))
  {
    var name := ArtefactName(Basename(filePath), Stamp(stampedAt));
    StampSlashFree(stampedAt);
    ArtefactNameSlashFree(Basename(filePath), Stamp(stampedAt));
    BasenameOfJoin(outputDir, name);
    Join(outputDir, name)
  }

  /**
   * `encrypt_file(file_path, password, output_dir)`: seal the contents under
   * the password's key and write the token to the artefact path, then record
   * the artefact under the basename and version key with the hex digest of
   * the contents and the `isoformat()` of a second clock reading. The only
   * failure is a name whose history is not a dict, and the artefact has been
   * written by then.
   */
  function EncryptFile(c: Cipher, sha: seq<byte> -> Digest, m: Metadata, files: Files, filePath: string,
                       data: seq<byte>, password: string, outputDir: string, nonce: seq<byte>,
                       stampedAt: DateTime, recordedAt: DateTime): (r: Encryption)
    requires Valid(stampedAt) && Valid(recordedAt)
    ensures r.files == files[ArtefactPath(filePath, outputDir, stampedAt) := c.seal(sha(Utf8(password)), nonce, data)]
    ensures r.outcome.Ok? <==> Recordable(m, Basename(filePath))
    ensures r.outcome.Err? ==> r.outcome.error == MalformedEntry
    ensures r.outcome.Ok? ==> r.outcome.value.encPath == ArtefactPath(filePath, outputDir, stampedAt)
    ensures r.outcome.Ok? ==> r.outcome.value.token == c.seal(sha(Utf8(password)), nonce, data)
    ensures r.outcome.Ok? ==> RecordVersion(m, Basename(filePath), Stamp(stampedAt),
                                            NewRecord(r.outcome.value.encPath, Hex(sha(data)), Iso(recordedAt)))
                              == Ok(r.outcome.value.metadata)
  {
    DerivedKeyAccepted(sha, password);
    var raw := CipherKey(DeriveKey(sha, password)).value;
    var token := c.seal(raw, nonce, data);
    var encPath := ArtefactPath(filePath, outputDir, stampedAt);
    var written := files[encPath := token];
    var rec := NewRecord(encPath, Hex(sha(data)), Iso(recordedAt));
    match RecordVersion(m, Basename(filePath), Stamp(stampedAt), rec)
    case Err(e) => Encryption(written, Err(e))
    case Ok(m') => Encryption(written, Ok(Encrypted(m', encPath, token)))
  }

  lemma StampSlashFree(d: DateTime)
    requires Valid(d)
    ensures '/' !in Stamp(d)
  {
    var s := Stamp(d);
    forall i | 0 <= i < |s|
      ensures s[i] != '/'
    {
      if i != 8 {
        assert IsDigit(s[i]);
      }
    }
  }

  // ---------------------------------------------------------------------
  // Decryption
  // ---------------------------------------------------------------------

  /** What a successful decryption returns: the plaintext for a preview, or the path it was saved to. */
  datatype Decrypted = Preview(plaintext: seq<byte>) | Saved(path: string, plaintext: seq<byte>)

  /** The record stored under `(name, version)`, if that is a dict naming an encrypted file. */
  ghost predicate HasRecord(m: Metadata, name: string, version: string)
  {
    name in m && m[name].Versions? && version in m[name].versions
    && m[name].versions[version].Record? && m[name].versions[version].encryptedFile.Some?
  }

  /**
   * `os.path.join(BASE_DIR, f"decrypted_{file_name}")`: the output file of a
   * full decryption lies in the base directory under `decrypted_<name>`.
   */
  function OutputPath(baseDir: string, fileName: string): (r: string)
    ensures '/' !in fileName ==> Basename(r) == "decrypted_" + fileName
    ensures |baseDir| <= |r| && r[..|baseDir|] == baseDir
    ensures |baseDir| > 0 && baseDir[|baseDir| - 1] != '/' ==> r == baseDir + "/" + ("decrypted_" + fileName)
    ensures |baseDir| == 0 || baseDir[|baseDir| - 1] == '/' ==> r == baseDir + ("decrypted_" + fileName)
  {
    var name := "decrypted_" + fileName;
    assert name[0] == 'd';
    if '/' in fileName then Join(baseDir, name)
    else
      PrefixedSlashFree("decrypted_", fileName);
      BasenameOfJoin(baseDir, name);
      Join(baseDir, name)
  }

  lemma PrefixedSlashFree(prefix: string, name: string)
    requires '/' !in prefix && '/' !in name
    ensures '/' !in prefix + name
  {
    var s := prefix + name;
    forall i | 0 <= i < |s|
      ensures s[i] != '/'
    {
      if i < |prefix| {
        assert s[i] == prefix[i];
      } else {
        assert s[i] == name[i - |prefix|];
      }
    }
  }

  /**
   * `decrypt_file` once the version key is known. An unknown name is
   * `FileNotFound`; an unknown version or an ill-shaped entry fails; the
   * artefact is opened with the password's key; a preview returns the
   * plaintext without looking at the stored digest; a full decryption
   * succeeds only when the hex digest of the plaintext equals the stored one
   * and fails with `HashMismatch` when it differs.
   */
  function DecryptVersion(c: Cipher, sha: seq<byte> -> Digest, m: Metadata, files: Files,
                          fileName: string, version: string, password: string, preview: bool,
                          baseDir: string): (r: Result<Decrypted>)
    ensures fileName !in m ==> r == Err(FileNotFound)
    ensures fileName in m && m[fileName].Versions? && version !in m[fileName].versions ==> r == Err(UnknownVersion)
    ensures r.Ok? ==> HasRecord(m, fileName, version)
    ensures r.Ok? ==> var path := m[fileName].versions[version].encryptedFile.value;
                      path in files && c.open(sha(Utf8(password)), files[path]) == Some(r.value.plaintext)
    ensures r.Ok? ==> (r.value.Preview? <==> preview)
    ensures r.Ok? && !preview ==> r.value.path == OutputPath(baseDir, fileName)
                                  && m[fileName].versions[version].sha256 == Some(Hex(sha(r.value.plaintext)))
    ensures HasRecord(m, fileName, version) ==>
              var rec := m[fileName].versions[version];
              var path := rec.encryptedFile.value;
              path in files && c.open(sha(Utf8(password)), files[path]).Some?
              && (preview || rec.sha256 == Some(Hex(sha(c.open(sha(Utf8(password)), files[path]).value))))
              ==> r.Ok?
    ensures HasRecord(m, fileName, version) && m[fileName].versions[version].encryptedFile.value !in files
            ==> r == Err(MissingArtefact)
    ensures HasRecord(m, fileName, version) ==>
              var path := m[fileName].versions[version].encryptedFile.value;
              path in files && c.open(sha(Utf8(password)), files[path]).None? ==> r == Err(InvalidToken)
    ensures preview ==> r != Err(HashMismatch)
    ensures !preview && HasRecord(m, fileName, version) ==>
              var rec := m[fileName].versions[version];
              rec.encryptedFile.value in files && rec.sha256.Some? ==>
              var plain := c.open(sha(Utf8(password)), files[rec.encryptedFile.value]);
              plain.Some? && rec.sha256.value != Hex(sha(plain.value)) ==> r == Err(HashMismatch)
  {
    if fileName !in m then Err(FileNotFound)
    else if m[fileName].NotAHistory? then Err(MalformedEntry)
    else if version !in m[fileName].versions then Err(UnknownVersion)
    else
      var rec := m[fileName].versions[version];
      if rec.NotARecord? || rec.encryptedFile.None? then Err(MalformedEntry)
      else
        var encPath := rec.encryptedFile.value;
        DerivedKeyAccepted(sha, password);
        match CipherKey(DeriveKey(sha, password))
        case Err(e) => Err(e)
        case Ok(raw) =>
          if encPath !in files then Err(MissingArtefact)
          else
            match c.open(raw, files[encPath])
            case None => Err(InvalidToken)
            case Some(plain) =>
              if preview then Ok(Preview(plain))
              else if rec.sha256.None? then Err(MalformedEntry)
              else if Hex(sha(plain)) != rec.sha256.value then Err(HashMismatch)
              else Ok(Saved(OutputPath(baseDir, fileName), plain))
  }

  /** `if not version`: no version, or the empty string, asks for the latest. */
  predicate AsksForLatest(version: Option<string>)
  {
    version.None? || version.value == ""
  }

  /**
   * `decrypt_file(file_name, password, version, preview_only)`: an unknown
   * name is `FileNotFound`; asking for the latest version picks the greatest
   * version key, failing on a history that is not a dict or is empty; any
   * other version is taken as given.
   */
  method DecryptFile(c: Cipher, sha: seq<byte> -> Digest, m: Metadata, files: Files,
                     fileName: string, version: Option<string>, password: string, preview: bool,
                     baseDir: string) returns (r: Result<Decrypted>)
    ensures fileName !in m ==> r == Err(FileNotFound)
    ensures !AsksForLatest(version) ==>
              r == DecryptVersion(c, sha, m, files, fileName, version.value, password, preview, baseDir)
    ensures AsksForLatest(version) && fileName in m && m[fileName].NotAHistory? ==> r == Err(MalformedEntry)
    ensures AsksForLatest(version) && fileName in m && m[fileName] == Versions(map[]) ==> r == Err(NoVersions)
    ensures AsksForLatest(version) && fileName in m && m[fileName].Versions? ==>
              forall t :: IsLatest(t, m[fileName].versions.Keys) ==>
                r == DecryptVersion(c, sha, m, files, fileName, t, password, preview, baseDir)
  {
    if fileName !in m {
      return Err(FileNotFound);
    }
    var chosen: string;
    if AsksForLatest(version) {
      if m[fileName].NotAHistory? {
        return Err(MalformedEntry);
      }
      var latest := LatestVersion(m[fileName].versions);
      if latest.None? {
        return Err(NoVersions);
      }
      chosen := latest.value;
      forall t | IsLatest(t, m[fileName].versions.Keys)
        ensures t == chosen
      {
        LatestUnique(t, chosen, m[fileName].versions.Keys);
      }
    } else {
      chosen := version.value;
    }
    r := DecryptVersion(c, sha, m, files, fileName, chosen, password, preview, baseDir);
  }

  // ---------------------------------------------------------------------
  // End-to-end properties
  // ---------------------------------------------------------------------

  /**
   * Encrypting a file and then decrypting that version with the same
   * password, on the disk the encryption left, gives the contents back: as a
   * preview, or saved to the output path with the integrity check passing.
   */
  lemma EncryptThenDecrypt(c: Cipher, sha: seq<byte> -> Digest, m: Metadata, files: Files, filePath: string,
                           data: seq<byte>, password: string, outputDir: string, nonce: seq<byte>,
                           stampedAt: DateTime, recordedAt: DateTime, preview: bool, baseDir: string)
    requires RoundTrips(c)
    requires Valid(stampedAt) && Valid(recordedAt)
    requires Recordable(m, Basename(filePath))
    ensures var e := EncryptFile(c, sha, m, files, filePath, data, password, outputDir, nonce, stampedAt, recordedAt);
            && e.outcome.Ok?
            && DecryptVersion(c, sha, e.outcome.value.metadata, e.files, Basename(filePath), Stamp(stampedAt),
                              password, preview, baseDir)
               == Ok(if preview then Preview(data) else Saved(OutputPath(baseDir, Basename(filePath)), data))
  {
    var e := EncryptFile(c, sha, m, files, filePath, data, password, outputDir, nonce, stampedAt, recordedAt);
    var enc := e.outcome.value;
    var name, ts := Basename(filePath), Stamp(stampedAt);
    var rec := NewRecord(enc.encPath, Hex(sha(data)), Iso(recordedAt));
    assert RecordVersion(m, name, ts, rec) == Ok(enc.metadata);
    assert e.files[enc.encPath] == c.seal(sha(Utf8(password)), nonce, data);
    assert c.open(sha(Utf8(password)), e.files[enc.encPath]) == Some(data);
    OpensRecorded(c, sha, enc.metadata, e.files, name, ts, password, preview, baseDir, enc.encPath, data, Iso(recordedAt));
  }

  /**
   * An artefact encrypted under one password is refused, with `InvalidToken`,
   * when decrypted under a password whose key has a different signing half.
   */
  lemma WrongPasswordRejected(c: Cipher, sha: seq<byte> -> Digest, m: Metadata, files: Files, filePath: string,
                              data: seq<byte>, password: string, outputDir: string, nonce: seq<byte>,
                              stampedAt: DateTime, recordedAt: DateTime,
                              other: string, preview: bool, baseDir: string)
    requires RejectsOtherKeys(c)
    requires sha(Utf8(other))[..16] != sha(Utf8(password))[..16]
    requires Valid(stampedAt) && Valid(recordedAt)
    requires Recordable(m, Basename(filePath))
    ensures var e := EncryptFile(c, sha, m, files, filePath, data, password, outputDir, nonce, stampedAt, recordedAt);
            && e.outcome.Ok?
            && DecryptVersion(c, sha, e.outcome.value.metadata, e.files, Basename(filePath), Stamp(stampedAt),
                              other, preview, baseDir)
               == Err(InvalidToken)
  {
    var e := EncryptFile(c, sha, m, files, filePath, data, password, outputDir, nonce, stampedAt, recordedAt);
    var enc := e.outcome.value;
    var name, ts := Basename(filePath), Stamp(stampedAt);
    var rec := NewRecord(enc.encPath, Hex(sha(data)), Iso(recordedAt));
    assert RecordVersion(m, name, ts, rec) == Ok(enc.metadata);
    assert e.files[enc.encPath] == c.seal(sha(Utf8(password)), nonce, data);
    assert c.open(sha(Utf8(other)), e.files[enc.encPath]) == None;
    RefusesRecorded(c, sha, enc.metadata, e.files, name, ts, other, preview, baseDir, enc.encPath, rec);
  }

  /**
   * Whatever the cipher does under a wrong key, a full decryption of a fresh
   * version under any password either fails or returns contents with the
   * digest of the encrypted contents: the integrity check lets through
   * nothing else.
   */
  lemma SavedMatchesDigest(c: Cipher, sha: seq<byte> -> Digest, m: Metadata, files: Files, filePath: string,
                           data: seq<byte>, password: string, outputDir: string, nonce: seq<byte>,
                           stampedAt: DateTime, recordedAt: DateTime, other: string, baseDir: string)
    requires Valid(stampedAt) && Valid(recordedAt)
    requires Recordable(m, Basename(filePath))
    ensures var e := EncryptFile(c, sha, m, files, filePath, data, password, outputDir, nonce, stampedAt, recordedAt);
            && e.outcome.Ok?
            && var r := DecryptVersion(c, sha, e.outcome.value.metadata, e.files, Basename(filePath),
                                       Stamp(stampedAt), other, false, baseDir);
               r.Ok? ==> sha(r.value.plaintext) == sha(data)
  {
    var e := EncryptFile(c, sha, m, files, filePath, data, password, outputDir, nonce, stampedAt, recordedAt);
    var enc := e.outcome.value;
    var name, ts := Basename(filePath), Stamp(stampedAt);
    var rec := NewRecord(enc.encPath, Hex(sha(data)), Iso(recordedAt));
    assert RecordVersion(m, name, ts, rec) == Ok(enc.metadata);
    assert enc.metadata[name].versions[ts].sha256 == Some(Hex(sha(data)));
    var r := DecryptVersion(c, sha, enc.metadata, e.files, name, ts, other, false, baseDir);
    if r.Ok? {
      HexInjective(sha(r.value.plaintext), sha(data));
    }
  }

  /** Decrypting a stored record whose artefact opens under the password's key. */
  lemma OpensRecorded(c: Cipher, sha: seq<byte> -> Digest, m: Metadata, files: Files,
                      name: string, ts: string, password: string, preview: bool, baseDir: string,
                      path: string, data: seq<byte>, iso: string)
    requires name in m && m[name].Versions? && ts in m[name].versions
    requires m[name].versions[ts] == NewRecord(path, Hex(sha(data)), iso)
    requires path in files && c.open(sha(Utf8(password)), files[path]) == Some(data)
    ensures DecryptVersion(c, sha, m, files, name, ts, password, preview, baseDir)
            == Ok(if preview then Preview(data) else Saved(OutputPath(baseDir, name), data))
  {
    var rec := m[name].versions[ts];
    assert rec.encryptedFile == Some(path) && rec.sha256 == Some(Hex(sha(data)));
    DerivedKeyAccepted(sha, password);
  }

  /** Decrypting a stored record whose artefact the password's key does not open. */
  lemma RefusesRecorded(c: Cipher, sha: seq<byte> -> Digest, m: Metadata, files: Files,
                        name: string, ts: string, password: string, preview: bool, baseDir: string,
                        path: string, rec: Version)
    requires name in m && m[name].Versions? && ts in m[name].versions
    requires m[name].versions[ts] == rec && rec.Record? && rec.encryptedFile == Some(path)
    requires path in files && c.open(sha(Utf8(password)), files[path]) == None
    ensures DecryptVersion(c, sha, m, files, name, ts, password, preview, baseDir) == Err(InvalidToken)
  {
    DerivedKeyAccepted(sha, password);
  }

  /**
   * A preview does not look at the stored digest: replacing the record's
   * `sha256` field by anything, or removing it, changes nothing.
   */
  lemma PreviewIgnoresDigest(c: Cipher, sha: seq<byte> -> Digest, m: Metadata, files: Files,
                             fileName: string, version: string, password: string, baseDir: string,
                             digest: Option<string>)
    requires fileName in m && m[fileName].Versions? && version in m[fileName].versions
    requires m[fileName].versions[version].Record?
    ensures var rec := m[fileName].versions[version];
            var m' := m[fileName := Versions(m[fileName].versions[version := rec.(sha256 := digest)])];
            DecryptVersion(c, sha, m', files, fileName, version, password, true, baseDir)
            == DecryptVersion(c, sha, m, files, fileName, version, password, true, baseDir)
  {
  }

  /**
   * Encrypting at a clock reading later, to the second, than every version
   * already recorded for the name makes the new version the latest, so a
   * decryption that asks for the latest version opens the new artefact.
   * `readings` gives the clock reading each existing version key was stamped from.
   */
  lemma LaterEncryptionIsLatest(c: Cipher, sha: seq<byte> -> Digest, m: Metadata, files: Files, filePath: string,
                                data: seq<byte>, password: string, outputDir: string, nonce: seq<byte>,
                                stampedAt: DateTime, recordedAt: DateTime, readings: map<string, DateTime>)
    requires Valid(stampedAt) && Valid(recordedAt)
    requires Recordable(m, Basename(filePath))
    requires forall k :: k in VersionsOf(m, Basename(filePath)) ==>
               k in readings && Valid(readings[k]) && Stamp(readings[k]) == k && SecondBefore(readings[k], stampedAt)
    ensures var e := EncryptFile(c, sha, m, files, filePath, data, password, outputDir, nonce, stampedAt, recordedAt);
            && e.outcome.Ok?
            && IsLatest(Stamp(stampedAt), e.outcome.value.metadata[Basename(filePath)].versions.Keys)
  {
    var name, ts := Basename(filePath), Stamp(stampedAt);
    forall k | k in VersionsOf(m, name)
      ensures LexLess(k, ts)
    {
      StampOrder(readings[k], stampedAt);
    }
    var e := EncryptFile(c, sha, m, files, filePath, data, password, outputDir, nonce, stampedAt, recordedAt);
    NewerRecordIsLatest(m, name, ts, NewRecord(e.outcome.value.encPath, Hex(sha(data)), Iso(recordedAt)));
  }

  /**
   * Version keys follow the local wall clock, not the order of encryptions:
   * when the clock has gone back (a daylight-saving change, a manual
   * correction) below the reading of a version already recorded, the new
   * version is not the latest, and a decryption that asks for the latest
   * version opens an older artefact.
   */
  lemma ClockSetBackHidesNewest(c: Cipher, sha: seq<byte> -> Digest, m: Metadata, files: Files, filePath: string,
                                data: seq<byte>, password: string, outputDir: string, nonce: seq<byte>,
                                stampedAt: DateTime, recordedAt: DateTime, earlier: DateTime)
    requires Valid(stampedAt) && Valid(recordedAt) && Valid(earlier)
    requires Recordable(m, Basename(filePath))
    requires Stamp(earlier) in VersionsOf(m, Basename(filePath))
    requires SecondBefore(stampedAt, earlier)
    ensures var e := EncryptFile(c, sha, m, files, filePath, data, password, outputDir, nonce, stampedAt, recordedAt);
            && e.outcome.Ok?
            && !IsLatest(Stamp(stampedAt), e.outcome.value.metadata[Basename(filePath)].versions.Keys)
  {
    var name, ts, prior := Basename(filePath), Stamp(stampedAt), Stamp(earlier);
    StampOrder(stampedAt, earlier);
    LexAsymmetric(ts, prior);
    var e := EncryptFile(c, sha, m, files, filePath, data, password, outputDir, nonce, stampedAt, recordedAt);
    var keys := e.outcome.value.metadata[name].versions.Keys;
    assert prior in keys && prior != ts;
    assert !LexLess(prior, ts);
  }

  /**
   * Whatever the document held before, the reverse lookup of a fresh
   * artefact's file name has at least one match: the new version.
   */
  lemma EncryptThenLocate(c: Cipher, sha: seq<byte> -> Digest, m: Metadata, files: Files, filePath: string,
                          data: seq<byte>, password: string, outputDir: string, nonce: seq<byte>,
                          stampedAt: DateTime, recordedAt: DateTime)
    requires Valid(stampedAt) && Valid(recordedAt)
    requires Recordable(m, Basename(filePath))
    ensures var e := EncryptFile(c, sha, m, files, filePath, data, password, outputDir, nonce, stampedAt, recordedAt);
            && e.outcome.Ok?
            && Locates(e.outcome.value.metadata, Basename(e.outcome.value.encPath), Basename(filePath), Stamp(stampedAt))
  {
  }

  /**
   * Encryption keeps the document consistent, and afterwards the reverse
   * lookup of the artefact's file name finds exactly the new version.
   */
  lemma EncryptThenFind(c: Cipher, sha: seq<byte> -> Digest, m: Metadata, files: Files, filePath: string,
                        data: seq<byte>, password: string, outputDir: string, nonce: seq<byte>,
                        stampedAt: DateTime, recordedAt: DateTime)
    requires Consistent(m)
    requires Valid(stampedAt) && Valid(recordedAt)
    requires Recordable(m, Basename(filePath))
    ensures var e := EncryptFile(c, sha, m, files, filePath, data, password, outputDir, nonce, stampedAt, recordedAt);
            && e.outcome.Ok?
            && Consistent(e.outcome.value.metadata)
            && Locates(e.outcome.value.metadata, Basename(e.outcome.value.encPath), Basename(filePath), Stamp(stampedAt))
            && forall n, t :: Locates(e.outcome.value.metadata, Basename(e.outcome.value.encPath), n, t) ==>
                 n == Basename(filePath) && t == Stamp(stampedAt)
  {
    var e := EncryptFile(c, sha, m, files, filePath, data, password, outputDir, nonce, stampedAt, recordedAt);
    var enc := e.outcome.value;
    var name, ts := Basename(filePath), Stamp(stampedAt);
    var rec := NewRecord(enc.encPath, Hex(sha(data)), Iso(recordedAt));
    RecordKeepsConsistent(m, name, ts, enc.encPath, rec);
    LookupFindsRecorded(enc.metadata, name, ts);
  }
}
