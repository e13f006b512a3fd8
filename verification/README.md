# Secure File Vault — a Dafny model of the vault engine

The vault encrypts a file under a key derived from a password, writes the
token next to other versions as `<basename>_<YYYYMMDD_HHMMSS>.enc`, and
records every version in a JSON document mapping original file name →
version key → `{encrypted_file, sha256, timestamp}`. Decryption picks a
version (the greatest key when none is asked for), opens the token, and —
unless only a preview is wanted — saves the plaintext as `decrypted_<name>`
and refuses it when its SHA-256 differs from the recorded one.

The model keeps the engine's data and decisions and abstracts what it cannot
see:

- `results.dfy` — `Option`, `Result` and one `VaultError` per exception the engine lets escape.
- `bytes.dfy` — bytes, the lowercase hex rendering of a digest, UTF-8 encoding (both injective).
- `base64url.dfy` — url-safe Base64 with padding: encoder, strict decoder, round trip, injectivity.
- `hashing.dfy` — the 4096-byte chunked digest loop over an abstract SHA-256.
- `keys.dfy` — password → key derivation and the cipher's key check.
- `passwords.dfy` — the strong-password generator, with the random draws as an oracle.
- `timestamps.dfy` — `strftime("%Y%m%d_%H%M%S")`, `isoformat()`, Python string order, and the proof that both renderings sort chronologically.
- `paths.dfy` — `os.path.basename`, two-argument `os.path.join`, artefact naming.
- `metadata.dfy` — the metadata document (histories and records that may be any JSON shape), recording a version, the latest version, reverse lookup.
- `vault.dfy` — `encrypt_file` and `decrypt_file` over an abstract authenticated cipher, with the end-to-end properties.

SHA-256 is a parameter `sha: seq<byte> -> Digest` (any function to 32-byte
strings). The Fernet cipher is a parameter `Cipher(seal, open)`; the
properties that need it to be a working authenticated cipher require
`RoundTrips(c)` (opening with the sealing key gives the plaintext back) or
`RejectsOtherKeys(c)`: Fernet signs its token with the first half of the
32-byte key, so a key with a different signing half is refused, while a key
sharing that half may open the token to garbage, against which only the
stored digest check of a full decryption protects (`Vault.SavedMatchesDigest`). File contents, the clock
(`datetime.now()`), the cipher's IV and clock, and the random source of the
password generator are parameters too. The encrypted files on disk are a map
from path to token: encryption writes the artefact into it, decryption reads
it back.

Version keys follow the local wall clock, not the order of encryptions: when
the clock is set back (a daylight-saving change, a manual correction) below
the reading of a version already recorded, the newer encryption gets the
smaller key, and a decryption without a version opens the older artefact
(`Vault.ClockSetBackHidesNewest`).

## Model

| member | source | states |
|---|---|---|
| Bytes.Hex | main.py:34 | `hexdigest()` of n bytes has 2n characters, each a lowercase hex digit |
| Bytes.HexInjective | main.py:34 | two digests have the same hex text exactly when they are equal, so comparing hex strings compares digests |
| Bytes.Utf8Injective | main.py:37 | `password.encode()` is injective: distinct passwords give distinct byte strings |
| Base64Url.EncodeLength | main.py:38 | the encoding has four characters per started group of three bytes |
| Base64Url.EncodeShape | main.py:38 | the url-safe encoding uses only the url-safe alphabet, with exactly `(3 - n mod 3) mod 3` trailing `=` and nowhere else |
| Base64Url.RoundTrip | main.py:38 | decoding the url-safe encoding of any byte string gives the byte string back |
| Base64Url.EncodeInjective | main.py:38 | two byte strings have the same encoding exactly when they are equal |
| ContentHasher.ReadChunk | main.py:32 | `f.read(4096)` returns at most 4096 bytes, the empty string only at end of file, and a short read only when it reaches end of file |
| ContentHasher.FileDigest | main.py:29-34 | the chunk loop feeds the whole file, in order, in non-empty chunks all full but the last, so its hex digest is the digest of the contents |
| KeyDeriver.DeriveKey | main.py:36-38 | the key is 44 characters, 43 url-safe ones and a final `=`, and decodes to the full SHA-256 digest of the UTF-8 password (`key[:32]` drops nothing) |
| KeyDeriver.CipherKey | main.py:81 | the cipher accepts a key exactly when it decodes to 32 bytes, and otherwise raises |
| KeyDeriver.DerivedKeyAccepted | main.py:80-81 | a derived key is always accepted, and the cipher's raw key is the password's digest |
| KeyDeriver.KeysCollide | main.py:36-38 | two passwords give the same key exactly when their digests collide; key derivation is deterministic and unsalted |
| PasswordGenerator.AlphabetIsVisibleAscii | main.py:41 | letters, digits and punctuation are exactly the 94 visible ASCII characters |
| PasswordGenerator.GenerateStrongPassword | main.py:40-42 | the password has `length` characters (none for a negative length), the i-th being the i-th random draw, all visible ASCII |
| PasswordGenerator.GenerateDefaultPassword | main.py:40-42 | called with its default length the generator returns sixteen visible ASCII characters, the i-th being the i-th draw |
| Timestamps.LexTransitive | main.py:126 | Python string order, used by `sorted`, is transitive |
| Timestamps.LexTotal | main.py:126 | Python string order is total: of two distinct strings one is smaller |
| Timestamps.Stamp | main.py:88 | the version key is 15 characters, digits except for one `_` at position 8 |
| Timestamps.StampOrder | main.py:88 | one version key is smaller than another exactly when its clock reading lies in an earlier second; two keys are equal exactly when the readings share a second |
| Timestamps.IsoOrder | main.py:102 | the record's `isoformat()` timestamp, which the engine stores but never compares, sorts chronologically to the microsecond and is equal only for equal readings |
| Paths.Basename | main.py:87 | the basename is slash-free, a suffix of the path, and preceded by `/` when shorter than it |
| Paths.Join | main.py:90 | an absolute second part replaces the first; otherwise the result is the first part, one `/` unless the first part is empty or already ends in `/`, then the second part |
| Paths.BasenameOfJoin | main.py:90 | joining a directory and a slash-free name and taking the basename gives the name back |
| Paths.ArtefactNameInjective | main.py:89 | with fixed-width version keys, `<name>_<ts>.enc` determines the name and the version key |
| MetadataStore.RecordVersion | main.py:97-103 | recording fails only on a name whose history is not a dict; otherwise it adds exactly the version key, stores the record, leaves every other version and name untouched, and a first encryption leaves one version |
| MetadataStore.LastWriteWins | main.py:99-103 | recording the same name and version key twice keeps only the second record |
| MetadataStore.RecordOrderIrrelevant | main.py:97-103 | recordings under different keys commute |
| MetadataStore.LatestUnique | main.py:126 | at most one key is the greatest, so the latest version does not depend on iteration order |
| MetadataStore.LatestVersion | main.py:125-126 | `sorted(keys)[-1]` fails exactly on an empty history and otherwise returns the greatest key |
| MetadataStore.NewerRecordIsLatest | main.py:99-126 | a version whose key exceeds every existing key becomes the latest |
| MetadataStore.FindFileInMetadata | main.py:111-118 | a returned pair names a dict record whose encrypted file has the queried basename; no result means no record anywhere matches; non-dict values are skipped |
| MetadataStore.RecordKeepsConsistent | main.py:87-103 | recording a correctly named artefact keeps every record named `<name>_<ts>.enc` after its own name and key |
| MetadataStore.LookupFindsRecorded | main.py:111-118 | in such a document the reverse lookup of a recorded artefact name finds that version and no other |
| Vault.ArtefactPath | main.py:89-90 | the artefact path is the output directory, a `/` unless the directory is empty or already ends in one, then `<basename>_<stamp>.enc`, which is its basename |
| Vault.EncryptFile | main.py:79-104 | the token sealing the contents under the password's digest is written to the artefact path whether or not recording then fails; recording fails only on a non-dict history; on success the document is the old one plus the new record with the artefact path and the contents' hex digest |
| Vault.OutputPath | main.py:139 | the output path is the base directory, a `/` unless the directory is empty or already ends in one, then `decrypted_<name>`, which is its basename for a slash-free name |
| Vault.DecryptVersion | main.py:128-147 | an unknown name or version fails; a success opened the recorded artefact under the password's key; a preview returns the plaintext and never reports tampering; a full decryption returns the output path only when the plaintext's digest equals the stored one, and reports tampering when it differs; when the record and artefact exist, the token opens, and (for a full decryption) the digests agree, decryption succeeds; a recorded artefact missing from disk is `MissingArtefact` and a token the key does not open is `InvalidToken` |
| Vault.DecryptFile | main.py:120-147 | an unknown name is `FileNotFound`; asking for no version (or an empty one) decrypts the greatest key, failing on a non-dict or empty history; any other version is used as given |
| Vault.EncryptThenDecrypt | main.py:79-147 | on the disk the encryption leaves, decrypting the fresh version with the same password gives the contents back, as a preview or saved to `decrypted_<name>` with the hash check passing |
| Vault.WrongPasswordRejected | main.py:129-135 | on the disk the encryption leaves, a password whose key differs in its signing half is refused with `InvalidToken` |
| Vault.SavedMatchesDigest | main.py:129-147 | whatever the cipher returns under a wrong key, a full decryption of the fresh version either fails or returns contents with the digest of the encrypted ones |
| Vault.PreviewIgnoresDigest | main.py:136-137 | a preview's outcome does not depend on the stored `sha256` field |
| Vault.LaterEncryptionIsLatest | main.py:88-126 | an encryption in a later second than every recorded version gets the greatest version key, the one a decryption without a version picks |
| Vault.ClockSetBackHidesNewest | main.py:88-126 | an encryption whose clock reading lies in an earlier second than an already recorded version does not get the greatest key, so a decryption without a version does not open it |
| Vault.EncryptThenLocate | main.py:87-118 | after encryption into any document the reverse lookup of the new artefact name has a match, the new version |
| Vault.EncryptThenFind | main.py:87-118 | encryption keeps the document consistent, and the reverse lookup of the new artefact name finds exactly the new version |

## Left out

- The top level of the metadata document is taken to be a JSON object; the engine would fail on any other top-level value.
- File and JSON input and output (`load_metadata`, `save_metadata`, `load_config`, `save_config`, reading and writing files): the document and file contents are values, the artefacts on disk a map from path to token.
- `shred_file` and the `shred` flag: overwriting with `os.urandom` and deleting a file is pure I/O.
- The `SecureStorageApp` window class, its bcrypt login and its metadata search box: user interface.
- The internals of Fernet and SHA-256: parameters, with the cipher properties stated as predicates the lemmas require.
- `datetime.now()`, the cipher's IV and clock, and `secrets.choice`: parameters (`stampedAt`, `recordedAt`, `nonce`, `choice`).
- The text decode of a preview (`decode(errors='ignore')`): the preview returns the plaintext bytes.
- Vault.EncryptFile: the digest is of the contents read at the start, whereas the source reads the file again after writing the artefact; the two agree unless the file changes in between.
- Vault.DecryptVersion: the plaintext a full decryption saves to `decrypted_<name>` is returned in `Saved` rather than written into the file map; the source writes it before the hash check, so a failed check or a missing `sha256` leaves it behind.
- Vault.DecryptFile: a `version` argument of another falsy kind than `None` or `""` is not modelled; version keys are strings.
- MetadataStore.FindFileInMetadata: returns some matching record, not necessarily the first in document order, because the document is an unordered map.
- Vault.DecryptVersion: record fields are strings or absent; a stored `sha256` of another JSON type, which the source compares unequal and reports as tampering, is not modelled.
- MetadataStore.FindFileInMetadata: record fields are strings or absent; an `encrypted_file` of `null`, on which the source's `os.path.basename` raises, is not modelled.
- Timestamps.Stamp: years are always written with four digits; CPython's `%Y` for years below 1000 depends on the platform.
- KeyDeriver.CipherKey: the key check uses the strict decoder, whereas the cipher decodes keys with Python's lenient `urlsafe_b64decode`; they agree on every derived key, which is all the engine passes.
- Paths.Basename: only POSIX path semantics are modelled; on Windows `os.path` also splits at `\` and after a drive such as `C:`.
- Paths.Join: only POSIX path semantics are modelled; on Windows `os.path.join` also treats `\` and drive letters specially.
- Base64Url.RoundTrip: the decoder is strict, while Python's default decoder skips characters outside the alphabet; they agree on every encoder output, which is all the engine decodes.
- Bytes.Utf8: strings are sequences of Unicode scalar values, so Python's error on lone surrogates cannot occur.
