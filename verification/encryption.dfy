/** The AEAD engine of `src/encryption.rs`: key generation, encryption with
    a freshly drawn nonce, and all-or-nothing decryption.

    The operating-system random source is an oracle: `drawn` stands for the
    bytes `fill_bytes` writes into the key or nonce array. */
module Encryption {
  import opened Common
  import Aead

  /** `generate_aes_key`: the 32 bytes drawn from the random source become
      the key. */
  function GenerateAesKey(drawn: Bytes): (key: Bytes)
    requires |drawn| == Aead.KeySize
    ensures |key| == Aead.KeySize
    ensures key == drawn
  {
    drawn
  }

  /** `encrypt_data`: returns `(ciphertext, nonce)` in that order, the nonce
      being the 12 drawn bytes and independent of key and plaintext. */
  function EncryptData(c: Aead.Cipher, key: Bytes, plaintext: Bytes, drawn: Bytes)
    : (r: Result<(Bytes, Bytes), Aead.AeadError>)
    requires Aead.Valid(c) && |key| == Aead.KeySize && |drawn| == Aead.NonceSize
    ensures r.Ok? <==> |plaintext| <= Aead.MaxPlaintext
    ensures r.Ok? ==> r.value.1 == drawn && |r.value.1| == Aead.NonceSize
    ensures r.Ok? ==> |r.value.0| == |plaintext| + Aead.TagSize
    ensures r.Ok? ==> Aead.Decrypt(c, key, drawn, r.value.0) == Ok(plaintext)
  {
    var nonce := drawn;
    match Aead.Encrypt(c, key, nonce, plaintext)
    case Ok(ciphertext) => Ok((ciphertext, nonce))
    case Err(e) => Err(e)
  }

  /** `decrypt_data`: the nonce slice must be exactly 12 bytes, because
      `Nonce::from_slice` panics otherwise. On success the result is the
      complete plaintext that seals to `ciphertext`; on failure nothing. */
  function DecryptData(c: Aead.Cipher, key: Bytes, ciphertext: Bytes, nonceBytes: Bytes)
    : (r: Result<Bytes, Aead.AeadError>)
    requires Aead.Valid(c) && |key| == Aead.KeySize && |nonceBytes| == Aead.NonceSize
    ensures r.Ok? ==> EncryptData(c, key, r.value, nonceBytes) == Ok((ciphertext, nonceBytes))
    ensures r.Err? <==> forall p :: EncryptData(c, key, p, nonceBytes) != Ok((ciphertext, nonceBytes))
  {
    var nonce := nonceBytes;
    Aead.Decrypt(c, key, nonce, ciphertext)
  }

  /** Round trip: what `encrypt_data` returns, fed back to `decrypt_data`
      with the same key, gives back the plaintext. */
  lemma RoundTrip(c: Aead.Cipher, key: Bytes, plaintext: Bytes, drawn: Bytes, ciphertext: Bytes, nonce: Bytes)
    requires Aead.Valid(c) && |key| == Aead.KeySize && |drawn| == Aead.NonceSize
    requires EncryptData(c, key, plaintext, drawn) == Ok((ciphertext, nonce))
    ensures |nonce| == Aead.NonceSize
    ensures DecryptData(c, key, ciphertext, nonce) == Ok(plaintext)
  {
  }

  /** An empty plaintext encrypts to the bare 16-byte tag and decrypts back
      to the empty plaintext. */
  lemma EmptyPlaintextIsTagOnly(c: Aead.Cipher, key: Bytes, drawn: Bytes)
    requires Aead.Valid(c) && |key| == Aead.KeySize && |drawn| == Aead.NonceSize
    ensures EncryptData(c, key, [], drawn).Ok?
    ensures |EncryptData(c, key, [], drawn).value.0| == Aead.TagSize
    ensures DecryptData(c, key, EncryptData(c, key, [], drawn).value.0, drawn) == Ok([])
  {
  }

  /** Decryption is all-or-nothing: whenever it yields bytes they are a
      plaintext that seals to exactly this ciphertext, so a ciphertext other
      than the one produced never gives back the original plaintext. */
  lemma NoPartialPlaintext(c: Aead.Cipher, key: Bytes, plaintext: Bytes, drawn: Bytes, tampered: Bytes)
    requires Aead.Valid(c) && |key| == Aead.KeySize && |drawn| == Aead.NonceSize
    requires EncryptData(c, key, plaintext, drawn).Ok?
    requires tampered != EncryptData(c, key, plaintext, drawn).value.0
    ensures DecryptData(c, key, tampered, drawn) != Ok(plaintext)
  {
    Aead.ModifiedCiphertextNeverYieldsOriginal(c, key, drawn, plaintext, tampered);
  }
}
