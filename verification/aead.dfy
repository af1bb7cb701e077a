/** AES-256-GCM (NIST SP 800-38D) as an abstract authenticated cipher.

    The block cipher and GHASH cannot be verified here, so the cipher is a
    pair of total functions `seal` and `open` constrained by `Valid`: sealing
    appends a 16-byte tag, and opening succeeds on exactly the ciphertexts
    that sealing produces for that key and nonce. No associated data is ever
    passed by the system, so it does not appear. */
module Aead {
  import opened Common

  const KeySize: nat := 32
  const NonceSize: nat := 12
  const TagSize: nat := 16

  /** Longest plaintext the `aes-gcm` crate encrypts: its `P_MAX`, 2^36
      bytes. This is 32 bytes above the 2^39 - 256 bits of section 5.2.1.1
      of NIST SP 800-38D; the crate's bound is the one the program meets. */
  const MaxPlaintext: nat := 0x10_0000_0000

  datatype AeadError = AeadError

  /** `seal(key, nonce, plaintext)` and `open(key, nonce, ciphertext)`. */
  datatype Cipher = Cipher(seal: (Bytes, Bytes, Bytes) -> Bytes,
                           open: (Bytes, Bytes, Bytes) -> Option<Bytes>)

  ghost predicate Valid(c: Cipher) {
    && (forall k, n, p {:trigger c.seal(k, n, p)} ::
          |k| == KeySize && |n| == NonceSize && |p| <= MaxPlaintext ==>
            |c.seal(k, n, p)| == |p| + TagSize && c.open(k, n, c.seal(k, n, p)) == Some(p))
    && (forall k, n, x {:trigger c.open(k, n, x)} ::
          |k| == KeySize && |n| == NonceSize && c.open(k, n, x).Some? ==>
            |c.open(k, n, x).value| <= MaxPlaintext && x == c.seal(k, n, c.open(k, n, x).value))
  }

  /** `Aead::encrypt`: fails only for a plaintext beyond the GCM limit. */
  function Encrypt(c: Cipher, key: Bytes, nonce: Bytes, plaintext: Bytes): (r: Result<Bytes, AeadError>)
    requires Valid(c) && |key| == KeySize && |nonce| == NonceSize
    ensures r.Ok? <==> |plaintext| <= MaxPlaintext
    ensures r.Ok? ==> |r.value| == |plaintext| + TagSize
    ensures r.Ok? ==> c.open(key, nonce, r.value) == Some(plaintext)
  {
    if |plaintext| > MaxPlaintext then Err(AeadError) else Ok(c.seal(key, nonce, plaintext))
  }

  /** `Aead::decrypt`: verifies the tag and returns the whole plaintext, or
      fails and returns nothing. */
  function Decrypt(c: Cipher, key: Bytes, nonce: Bytes, ciphertext: Bytes): (r: Result<Bytes, AeadError>)
    requires Valid(c) && |key| == KeySize && |nonce| == NonceSize
    ensures r.Ok? ==> Encrypt(c, key, nonce, r.value) == Ok(ciphertext)
    ensures r.Err? <==> forall p :: Encrypt(c, key, nonce, p) != Ok(ciphertext)
  {
    match c.open(key, nonce, ciphertext)
    case Some(p) => Ok(p)
    case None => Err(AeadError)
  }

  /** Decryption inverts encryption under the same key and nonce. */
  lemma DecryptInvertsEncrypt(c: Cipher, key: Bytes, nonce: Bytes, plaintext: Bytes)
    requires Valid(c) && |key| == KeySize && |nonce| == NonceSize
    requires |plaintext| <= MaxPlaintext
    ensures Decrypt(c, key, nonce, Encrypt(c, key, nonce, plaintext).value) == Ok(plaintext)
  {
  }

  /** A ciphertext that differs from the sealed one never opens to the same
      plaintext: decryption is injective. */
  lemma ModifiedCiphertextNeverYieldsOriginal(c: Cipher, key: Bytes, nonce: Bytes, plaintext: Bytes, tampered: Bytes)
    requires Valid(c) && |key| == KeySize && |nonce| == NonceSize
    requires Encrypt(c, key, nonce, plaintext).Ok?
    requires tampered != Encrypt(c, key, nonce, plaintext).value
    ensures Decrypt(c, key, nonce, tampered) != Ok(plaintext)
  {
  }

  /** The contract `Valid` can be met: a cipher that appends a zero tag. It
      is no cipher at all and exists only to show the assumption is
      consistent. */
  lemma ValidIsSatisfiable()
    ensures exists c :: Valid(c)
  {
    var seal := (k: Bytes, n: Bytes, p: Bytes) => p + seq(TagSize, _ => 0 as byte);
    var open := (k: Bytes, n: Bytes, x: Bytes) =>
      if |x| >= TagSize && |x| - TagSize <= MaxPlaintext && x[|x| - TagSize..] == seq(TagSize, _ => 0 as byte)
      then Some(x[..|x| - TagSize]) else None;
    var c := Cipher(seal, open);
    forall k, n, p | |k| == KeySize && |n| == NonceSize && |p| <= MaxPlaintext
      ensures |c.seal(k, n, p)| == |p| + TagSize && c.open(k, n, c.seal(k, n, p)) == Some(p)
    {
      var x := c.seal(k, n, p);
      assert x[..|x| - TagSize] == p;
      assert x[|x| - TagSize..] == seq(TagSize, _ => 0 as byte);
    }
    forall k, n, x | |k| == KeySize && |n| == NonceSize && c.open(k, n, x).Some?
      ensures |c.open(k, n, x).value| <= MaxPlaintext && x == c.seal(k, n, c.open(k, n, x).value)
    {
      assert x == x[..|x| - TagSize] + x[|x| - TagSize..];
    }
    assert Valid(c);
  }
}
