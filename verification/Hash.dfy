/** Password credentials under an abstract hasher. */
module Hash {

  type Octet = x: nat | x < 256
  type Bytes = seq<Octet>

  /** Digests are compared bit by bit. */
  type Digest = seq<bv8>

  datatype Scheme = Argon2id | Blake3Placeholder

  /** The pluggable hasher: the scheme it stamps and the digest it computes. */
  datatype Hasher = Hasher(scheme: Scheme, digest: (Bytes, Bytes) -> Digest)

  datatype Credential = Credential(scheme: Scheme, salt: Bytes, hash: Digest)

  function MakeCredential(h: Hasher, password: Bytes, salt: Bytes): Credential {
    Credential(h.scheme, salt, h.digest(password, salt))
  }

  lemma OrXorZero(d: bv8, x: bv8, y: bv8)
    ensures (d | (x ^ y)) == 0 <==> d == 0 && x == y
  {
  }

  /** The accumulated difference is zero exactly for equal slices. */
  method CtEq(a: Digest, b: Digest) returns (r: bool)
    ensures r <==> a == b
  {
    if |a| != |b| { return false; }
    var diff: bv8 := 0;
    for i := 0 to |a|
      invariant diff == 0 <==> a[..i] == b[..i]
    {
      OrXorZero(diff, a[i], b[i]);
      assert a[..i + 1] == a[..i] + [a[i]] && b[..i + 1] == b[..i] + [b[i]];
      diff := diff | (a[i] ^ b[i]);
    }
    assert a[..|a|] == a && b[..|b|] == b;
    r := diff == 0;
  }

  predicate Verifies(h: Hasher, c: Credential, password: Bytes) {
    h.scheme == c.scheme && h.digest(password, c.salt) == c.hash
  }

  method Verify(h: Hasher, c: Credential, password: Bytes) returns (r: bool)
    ensures r <==> Verifies(h, c, password)
    ensures r <==> h.scheme == c.scheme && h.digest(password, c.salt) == c.hash
  {
    if h.scheme != c.scheme { return false; }
    var candidate := h.digest(password, c.salt);
    r := CtEq(candidate, c.hash);
  }
}
