/** Password digests (JGP.Security/PasswordService.cs): a digest is a 16-byte
    salt followed by the 20 bytes that a key derivation function computes from
    the password and that salt with 10,000 iterations. Hashing builds that
    36-byte array; verifying re-derives the key from the stored salt and
    compares it byte by byte with the stored key. */
module PasswordService {

  newtype byte = x: int | 0 <= x < 256

  type Bytes = seq<byte>

  /** Length of the derived key (HashSize in PasswordService.cs). */
  const HashSize: nat := 20

  /** Length of the salt (SaltSize in PasswordService.cs). */
  const SaltSize: nat := 16

  /** The iteration count that the public Hash and Verify both use. */
  const Iterations: nat := 10000

  /** Length of a digest before its Base64 encoding. */
  const DigestSize: nat := SaltSize + HashSize

  /** A deterministic key derivation function, standing for PBKDF2 (section
      5.2 of RFC 2898): from a password, a salt, an iteration count and an
      output length it computes exactly that many bytes. */
  type Kdf = f: (string, Bytes, nat, nat) -> Bytes
    | forall password, salt, iterations, len :: |f(password, salt, iterations, len)| == len
    witness (password: string, salt: Bytes, iterations: nat, len: nat) => seq(len, _ => 0 as byte)

  /** The exceptions that escape the C# methods Hash and Verify. */
  datatype Fault =
    | ArgumentException          // Array.Copy: the source array is too short
    | IndexOutOfRangeException   // array indexing past the end

  /** How a call of a C# method ends: it returns a value or throws. */
  datatype Completion<T> = Returned(value: T) | Threw(fault: Fault)

  // ---------------------------------------------------------------------
  // The digest layout

  /** The digest built from a salt and a derived key. */
  function Layout(salt: Bytes, key: Bytes): (digest: Bytes)
    requires |salt| == SaltSize && |key| == HashSize
    ensures |digest| == DigestSize
    ensures SaltOf(digest) == salt && StoredKeyOf(digest) == key
  {
    salt + key
  }

  /** The salt of a digest: its first SaltSize bytes. */
  function SaltOf(hashBytes: Bytes): (salt: Bytes)
    requires |hashBytes| >= SaltSize
    ensures |salt| == SaltSize
    ensures forall i :: 0 <= i < SaltSize ==> salt[i] == hashBytes[i]
  {
    hashBytes[..SaltSize]
  }

  /** The stored key of a digest: bytes SaltSize up to DigestSize. */
  function StoredKeyOf(hashBytes: Bytes): (key: Bytes)
    requires |hashBytes| >= DigestSize
    ensures |key| == HashSize
    ensures forall i :: 0 <= i < HashSize ==> key[i] == hashBytes[SaltSize + i]
  {
    hashBytes[SaltSize..DigestSize]
  }

  /** Splitting a digest and laying the parts out again gives the digest
      back, so Layout and the split are inverse to each other. */
  lemma SplitThenLayout(hashBytes: Bytes)
    requires |hashBytes| == DigestSize
    ensures Layout(SaltOf(hashBytes), StoredKeyOf(hashBytes)) == hashBytes
  {
  }

  // ---------------------------------------------------------------------
  // The meaning of Verify

  /** The comparison loop of Verify from index i on, given the decoded bytes
      and the re-derived key: it stops with false at the first stored byte
      that differs from the key, throws when it reads past the end of the
      decoded bytes, and returns true when all HashSize bytes agree. */
  function CompareFrom(hashBytes: Bytes, key: Bytes, i: nat): (c: Completion<bool>)
    requires |key| == HashSize && i <= HashSize
    ensures c == Returned(true) <==>
      (i < HashSize ==> DigestSize <= |hashBytes|) &&
      forall j :: i <= j < HashSize ==> hashBytes[SaltSize + j] == key[j]
    ensures c.Threw? ==> c.fault == IndexOutOfRangeException && |hashBytes| < DigestSize
    ensures DigestSize <= |hashBytes| ==> c.Returned?
    decreases HashSize - i
  {
    if i == HashSize then Returned(true)
    else if SaltSize + i >= |hashBytes| then Threw(IndexOutOfRangeException)
    else if hashBytes[SaltSize + i] != key[i] then Returned(false)
    else CompareFrom(hashBytes, key, i + 1)
  }

  /** How Verify ends on the decoded bytes `hashBytes`: copying the salt
      throws when there are fewer than SaltSize bytes; otherwise the key is
      re-derived from the salt and compared with the stored bytes. */
  function Verdict(kdf: Kdf, password: string, hashBytes: Bytes): (v: Completion<bool>)
    ensures v == Threw(ArgumentException) <==> |hashBytes| < SaltSize
    ensures v == Threw(IndexOutOfRangeException) ==> SaltSize <= |hashBytes| < DigestSize
    ensures v == Returned(true) ==> DigestSize <= |hashBytes|
  {
    if |hashBytes| < SaltSize then Threw(ArgumentException)
    else CompareFrom(hashBytes, kdf(password, SaltOf(hashBytes), Iterations, HashSize), 0)
  }

  /** On at least DigestSize bytes Verify never throws, and it returns true
      exactly when the stored key equals the key re-derived from the stored
      salt with the same iteration count and length that hashing uses. */
  lemma VerdictOnFullDigest(kdf: Kdf, password: string, hashBytes: Bytes)
    requires |hashBytes| >= DigestSize
    ensures Verdict(kdf, password, hashBytes)
         == Returned(StoredKeyOf(hashBytes) == kdf(password, SaltOf(hashBytes), Iterations, HashSize))
  {
    var key := kdf(password, SaltOf(hashBytes), Iterations, HashSize);
    var stored := StoredKeyOf(hashBytes);
    if stored != key {
      var j :| 0 <= j < HashSize && stored[j] != key[j];
      assert hashBytes[SaltSize + j] != key[j];
      assert CompareFrom(hashBytes, key, 0) != Returned(true);
      assert !CompareFrom(hashBytes, key, 0).value;
    } else {
      forall j | 0 <= j < HashSize
        ensures hashBytes[SaltSize + j] == key[j]
      {
        assert stored[j] == hashBytes[SaltSize + j];
      }
    }
  }

  /** Bytes after the first DigestSize never influence Verify. */
  lemma TrailingBytesIgnored(kdf: Kdf, password: string, hashBytes: Bytes)
    requires |hashBytes| >= DigestSize
    ensures Verdict(kdf, password, hashBytes) == Verdict(kdf, password, hashBytes[..DigestSize])
  {
    var prefix := hashBytes[..DigestSize];
    VerdictOnFullDigest(kdf, password, hashBytes);
    VerdictOnFullDigest(kdf, password, prefix);
    assert SaltOf(prefix) == SaltOf(hashBytes);
    assert StoredKeyOf(prefix) == StoredKeyOf(hashBytes);
  }

  /** The loop from index i on returns false as soon as it meets a
      mismatch at index m that lies within the decoded bytes. */
  lemma {:induction false} CompareFromMismatch(hashBytes: Bytes, key: Bytes, i: nat, m: nat)
    requires |key| == HashSize && i <= m < HashSize && SaltSize + m < |hashBytes|
    requires hashBytes[SaltSize + m] != key[m]
    ensures CompareFrom(hashBytes, key, i) == Returned(false)
    decreases m - i
  {
    if i < m && hashBytes[SaltSize + i] == key[i] {
      CompareFromMismatch(hashBytes, key, i + 1, m);
    }
  }

  /** On too few bytes the loop from index i on throws unless it meets a
      mismatch before it runs past the end. */
  lemma {:induction false} CompareFromShort(hashBytes: Bytes, key: Bytes, i: nat)
    requires |key| == HashSize && SaltSize + i <= |hashBytes| < DigestSize
    ensures CompareFrom(hashBytes, key, i)
         == if exists j :: i <= j < |hashBytes| - SaltSize && hashBytes[SaltSize + j] != key[j]
            then Returned(false) else Threw(IndexOutOfRangeException)
    decreases HashSize - i
  {
    if SaltSize + i < |hashBytes| {
      if hashBytes[SaltSize + i] != key[i] {
        assert i <= i < |hashBytes| - SaltSize && hashBytes[SaltSize + i] != key[i];
      } else {
        CompareFromShort(hashBytes, key, i + 1);
        if exists j :: i <= j < |hashBytes| - SaltSize && hashBytes[SaltSize + j] != key[j] {
          var j :| i <= j < |hashBytes| - SaltSize && hashBytes[SaltSize + j] != key[j];
          assert i + 1 <= j;
        }
      }
    }
  }

  /** Decoded input shorter than a digest never verifies: under SaltSize
      bytes copying the salt throws; otherwise Verify returns false if it
      meets a mismatch among the stored bytes that exist, and throws when it
      runs past the end. */
  lemma ShortDigest(kdf: Kdf, password: string, hashBytes: Bytes)
    requires |hashBytes| < DigestSize
    ensures |hashBytes| < SaltSize ==> Verdict(kdf, password, hashBytes) == Threw(ArgumentException)
    ensures SaltSize <= |hashBytes| ==>
      var key := kdf(password, SaltOf(hashBytes), Iterations, HashSize);
      Verdict(kdf, password, hashBytes)
        == if exists j :: 0 <= j < |hashBytes| - SaltSize && hashBytes[SaltSize + j] != key[j]
           then Returned(false) else Threw(IndexOutOfRangeException)
    ensures Verdict(kdf, password, hashBytes) != Returned(true)
  {
    if SaltSize <= |hashBytes| {
      CompareFromShort(hashBytes, kdf(password, SaltOf(hashBytes), Iterations, HashSize), 0);
    }
  }

  /** Once a stored byte at index m differs from the re-derived key, Verify
      returns false, and so it does for every input that agrees on the bytes
      up to and including that one: the bytes after a mismatch never affect
      the result. */
  lemma MismatchDecides(kdf: Kdf, password: string, hashBytes: Bytes, other: Bytes, m: nat)
    requires m < HashSize && SaltSize + m < |hashBytes|
    requires hashBytes[SaltSize + m] != kdf(password, SaltOf(hashBytes), Iterations, HashSize)[m]
    requires SaltSize + m < |other| && other[..SaltSize + m + 1] == hashBytes[..SaltSize + m + 1]
    ensures Verdict(kdf, password, hashBytes) == Returned(false)
    ensures Verdict(kdf, password, other) == Returned(false)
  {
    var key := kdf(password, SaltOf(hashBytes), Iterations, HashSize);
    CompareFromMismatch(hashBytes, key, 0, m);
    assert SaltOf(other) == other[..SaltSize + m + 1][..SaltSize];
    assert SaltOf(hashBytes) == hashBytes[..SaltSize + m + 1][..SaltSize];
    assert other[SaltSize + m] == other[..SaltSize + m + 1][SaltSize + m];
    CompareFromMismatch(other, key, 0, m);
  }

  /** Verifying `candidate` against a digest of `password` made with any
      salt and iteration count succeeds exactly when the derived keys agree
      (so a different password or a different iteration count is rejected
      unless the KDF collides). */
  lemma VerifyAgainstDigest(kdf: Kdf, password: string, candidate: string, salt: Bytes, iterations: nat)
    requires |salt| == SaltSize
    ensures Verdict(kdf, candidate, Layout(salt, kdf(password, salt, iterations, HashSize)))
         == Returned(kdf(candidate, salt, Iterations, HashSize) == kdf(password, salt, iterations, HashSize))
  {
    VerdictOnFullDigest(kdf, candidate, Layout(salt, kdf(password, salt, iterations, HashSize)));
  }

  /** Round trip: for any deterministic KDF, verifying a password against the
      digest that hashing made from it succeeds, whatever the salt. */
  lemma RoundTrip(kdf: Kdf, password: string, salt: Bytes)
    requires |salt| == SaltSize
    ensures Verdict(kdf, password, Layout(salt, kdf(password, salt, Iterations, HashSize))) == Returned(true)
  {
  }

  // ---------------------------------------------------------------------
  // The imperative operations

  /** Array.Copy: copies `length` elements of `src` from `srcIndex` into
      `dst` from `dstIndex`, or throws without changing `dst` when either
      range runs past the end of its array. */
  method ArrayCopy(src: array<byte>, srcIndex: nat, dst: array<byte>, dstIndex: nat, length: nat)
    returns (r: Completion<()>)
    requires src != dst
    modifies dst
    ensures r == if srcIndex + length <= src.Length && dstIndex + length <= dst.Length
                 then Returned(()) else Threw(ArgumentException)
    ensures r.Returned? ==> forall j :: 0 <= j < dst.Length ==>
      dst[j] == if dstIndex <= j < dstIndex + length then src[srcIndex + (j - dstIndex)] else old(dst[j])
    ensures r.Threw? ==> dst[..] == old(dst[..])
  {
    if srcIndex + length > src.Length || dstIndex + length > dst.Length {
      return Threw(ArgumentException);
    }
    for k := 0 to length
      invariant forall j :: 0 <= j < dst.Length ==>
        dst[j] == if dstIndex <= j < dstIndex + k then src[srcIndex + (j - dstIndex)] else old(dst[j])
    {
      dst[dstIndex + k] := src[srcIndex + k];
    }
    return Returned(());
  }

  /** The private helper Hash(password, iterations): the salt comes from the
      random source (here the parameter `randomSalt`), the key from the KDF,
      and the result is their layout (Base64 encoding is not modelled). */
  method HashWithIterations(kdf: Kdf, password: string, randomSalt: Bytes, iterations: nat)
    returns (hashBytes: array<byte>)
    requires |randomSalt| == SaltSize
    ensures fresh(hashBytes)
    ensures hashBytes[..] == Layout(randomSalt, kdf(password, randomSalt, iterations, HashSize))
  {
    var salt := new byte[SaltSize](i requires 0 <= i < SaltSize => randomSalt[i]);
    var key := kdf(password, salt[..], iterations, HashSize);
    var hash := new byte[HashSize](i requires 0 <= i < HashSize => key[i]);
    hashBytes := new byte[SaltSize + HashSize];
    var saltCopied := ArrayCopy(salt, 0, hashBytes, 0, SaltSize);
    var hashCopied := ArrayCopy(hash, 0, hashBytes, SaltSize, HashSize);
    assert saltCopied == Returned(()) && hashCopied == Returned(());
    assert salt[..] == randomSalt;
    assert hashBytes[..] == Layout(randomSalt, key) by {
      forall j | 0 <= j < DigestSize
        ensures hashBytes[j] == Layout(randomSalt, key)[j]
      {
        if j < SaltSize {
          assert hashBytes[j] == salt[j];
        } else {
          assert hashBytes[j] == hash[j - SaltSize];
        }
      }
    }
  }

  /** The public Hash(password): the digest of the password with the fixed
      iteration count, laid out as salt followed by key. */
  method Hash(kdf: Kdf, password: string, randomSalt: Bytes) returns (hashBytes: array<byte>)
    requires |randomSalt| == SaltSize
    ensures fresh(hashBytes)
    ensures hashBytes.Length == DigestSize
    ensures hashBytes[..SaltSize] == randomSalt
    ensures hashBytes[SaltSize..] == kdf(password, randomSalt, Iterations, HashSize)
  {
    hashBytes := HashWithIterations(kdf, password, randomSalt, Iterations);
    assert hashBytes[..SaltSize] == SaltOf(hashBytes[..]);
    assert hashBytes[SaltSize..] == StoredKeyOf(hashBytes[..]);
  }

  /** Verify(password, hashedPassword) on the decoded bytes: copy the salt,
      re-derive the key, compare it with the stored key and return false at
      the first difference. Its result is the Verdict, so the lemmas above
      hold of it. */
  method Verify(kdf: Kdf, password: string, hashBytes: array<byte>) returns (r: Completion<bool>)
    ensures r == Verdict(kdf, password, hashBytes[..])
  {
    var salt := new byte[SaltSize];
    var copied := ArrayCopy(hashBytes, 0, salt, 0, SaltSize);
    if copied.Threw? {
      return Threw(copied.fault);
    }
    assert salt[..] == SaltOf(hashBytes[..]);
    var hash := kdf(password, salt[..], Iterations, HashSize);
    for i := 0 to HashSize
      invariant CompareFrom(hashBytes[..], hash, 0) == CompareFrom(hashBytes[..], hash, i)
    {
      if i + SaltSize >= hashBytes.Length {
        return Threw(IndexOutOfRangeException);
      }
      if hashBytes[i + SaltSize] != hash[i] {
        return Returned(false);
      }
    }
    return Returned(true);
  }

  /** A password verifies against the digest that Hash made from it: the
      round trip of the two methods, for any deterministic KDF and salt. */
  method HashThenVerify(kdf: Kdf, password: string, randomSalt: Bytes) returns (r: Completion<bool>)
    requires |randomSalt| == SaltSize
    ensures r == Returned(true)
  {
    var hashBytes := Hash(kdf, password, randomSalt);
    assert hashBytes[..] == Layout(randomSalt, kdf(password, randomSalt, Iterations, HashSize));
    r := Verify(kdf, password, hashBytes);
    RoundTrip(kdf, password, randomSalt);
  }
}
