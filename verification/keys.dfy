/**
 * Password-to-key derivation (`generate_key_from_password`): the url-safe
 * Base64 text of the SHA-256 digest of the UTF-8 password. No salt, no work
 * factor: the key is a function of the password alone.
 */
module KeyDeriver {
  import opened Bytes
  import opened Results
  import opened Base64Url
  import opened ContentHasher

  /** Length of the encoding of a 32-byte digest: ten full groups and one padded group. */
  const KeyLength: nat := 44

  /**
   * The key for `password`: 44 characters, the first 43 from the url-safe
   * alphabet and the last `=`, and it decodes to the complete digest (taking
   * the first 32 bytes of a 32-byte digest drops nothing).
   */
  function DeriveKey(sha: seq<byte> -> Digest, password: string): (key: string)
    ensures |key| == KeyLength
    ensures forall i :: 0 <= i < KeyLength - 1 ==> IsUrlSafeChar(key[i])
    ensures key[KeyLength - 1] == '='
    ensures Decode(key) == Some(sha(Utf8(password)))
  {
    var digest := sha(Utf8(password));
    var prefix := digest[..32];
    assert prefix == digest;
    DigestEncoding(digest);
    Encode(prefix)
  }

  /** The encoding of a digest: 44 characters, one of them padding, decoding back to the digest. */
  lemma DigestEncoding(d: Digest)
    ensures |Encode(d)| == KeyLength
    ensures PaddedShape(Encode(d), 1)
    ensures Decode(Encode(d)) == Some(d)
  {
    var b: seq<byte> := d;
    EncodeLength(b);
    EncodeShape(b);
    RoundTrip(b);
    PaddingOfDigest(|b|);
  }

  lemma PaddingOfDigest(n: nat)
    requires n == DigestSize
    ensures PadCount(n) == 1 && (n + 2) / 3 * 4 == KeyLength
  {
  }

  /**
   * What the cipher does with the key it is given: decode it and insist on
   * 32 bytes, refusing anything else with a `ValueError`.
   */
  function CipherKey(key: string): (r: Result<seq<byte>>)
    ensures r.Ok? <==> Decode(key).Some? && |Decode(key).value| == 32
    ensures r.Ok? ==> |r.value| == 32 && Decode(key) == Some(r.value)
    ensures r.Err? ==> r.error == BadKey
  {
    var raw := Decode(key);
    if raw.Some? && |raw.value| == 32 then Ok(raw.value) else Err(BadKey)
  }

  /** A derived key is always accepted by the cipher, and carries the password's digest. */
  lemma DerivedKeyAccepted(sha: seq<byte> -> Digest, password: string)
    ensures CipherKey(DeriveKey(sha, password)) == Ok(sha(Utf8(password)))
  {
  }

  /**
   * Two passwords share a key exactly when SHA-256 maps their UTF-8 encodings
   * to the same digest; for distinct passwords that is a hash collision on
   * distinct inputs.
   */
  lemma KeysCollide(sha: seq<byte> -> Digest, w1: string, w2: string)
    ensures DeriveKey(sha, w1) == DeriveKey(sha, w2) <==> sha(Utf8(w1)) == sha(Utf8(w2))
    ensures w1 != w2 ==> Utf8(w1) != Utf8(w2)
  {
    EncodeInjective(sha(Utf8(w1)), sha(Utf8(w2)));
    assert sha(Utf8(w1))[..32] == sha(Utf8(w1));
    assert sha(Utf8(w2))[..32] == sha(Utf8(w2));
    Utf8Injective(w1, w2);
  }
}
