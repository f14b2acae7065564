/** One decryption attempt: derive the key a candidate second would have
    produced, run authenticated decryption on the file's fields, and fold
    every kind of failure into "no plaintext". */
module Attempt {
  import opened Layout

  const KeyLength: nat := 16

  /** A 16-byte AES key. */
  type Key = k: seq<byte> | |k| == KeyLength witness seq(16, _ => 0)

  datatype Option<T> = None | Some(value: T)

  /** What one call of the cipher layer can end in. Decryption either
      verifies, fails the tag comparison, or raises some other error (an
      empty nonce, say); the source catches both failures alike. */
  datatype Outcome = Verified(plaintext: seq<byte>) | TagMismatch | CipherError

  /** The two pieces of foreign code an attempt calls. `keyOf` stands for
      seeding the library's pseudo-random generator with an integer and
      drawing 16 bytes; `cipher` stands for AES in GCM mode (NIST SP 800-38D)
      applied to a key, a nonce, a tag and a body. Both are fixed functions,
      so an attempt is a function of its inputs. */
  datatype Primitives = Primitives(
    keyOf: int -> Key,
    cipher: (Key, seq<byte>, seq<byte>, seq<byte>) -> Outcome)

  /** Runs the cipher on a container under a given key. */
  function Decipher(p: Primitives, key: Key, c: Container): Outcome
  {
    p.cipher(key, c.nonce, c.tag, c.body)
  }

  /** Tries the key seeded by `timestamp` on the file. Yields the plaintext
      when authenticated decryption verifies and None on every failure,
      short files included; no error ever reaches the caller. */
  function TryDecrypt(p: Primitives, file: seq<byte>, timestamp: int): (r: Option<seq<byte>>)
    ensures r.None? <==> Decipher(p, p.keyOf(timestamp), Split(file)) in {TagMismatch, CipherError}
    ensures r.Some? ==> Decipher(p, p.keyOf(timestamp), Split(file)) == Verified(r.value)
  {
    match Decipher(p, p.keyOf(timestamp), Split(file))
    case Verified(plaintext) => Some(plaintext)
    case _ => None
  }

  /** The length rules of GCM as the cipher layer enforces them: an empty
      nonce is refused when the cipher is built, and a tag that is not the
      full 16 bytes never verifies (NIST SP 800-38D fixes the tag length at
      the one the encryptor used, here 16 bytes). */
  ghost predicate GcmLengthRules(p: Primitives)
  {
    forall k, n, t, b :: (|n| == 0 || |t| != TagLength) ==> !p.cipher(k, n, t, b).Verified?
  }

  /** A file shorter than the 32-byte header never decrypts: its nonce is
      empty or its tag is short, the cipher layer fails, and the failure
      becomes None like any other. */
  lemma ShortFileNeverDecrypts(p: Primitives, file: seq<byte>, timestamp: int)
    requires GcmLengthRules(p)
    requires |file| < HeaderLength
    ensures TryDecrypt(p, file, timestamp) == None
  {
  }

  /** For a well-formed file the attempt sees exactly the fields it was
      assembled from. */
  lemma TryDecryptOnContainer(p: Primitives, c: Container, timestamp: int)
    requires c.WellFormed()
    ensures TryDecrypt(p, c.Bytes(), timestamp).Some?
        <==> Decipher(p, p.keyOf(timestamp), c).Verified?
    ensures TryDecrypt(p, c.Bytes(), timestamp).Some?
        ==> TryDecrypt(p, c.Bytes(), timestamp).value == Decipher(p, p.keyOf(timestamp), c).plaintext
  {
  }
}
