/** The WebAssembly boundary of `src/lib.rs`.

    The guest's linear memory is modelled as a table of live buffers keyed
    by address. `wasm_alloc` hands out a buffer and forgets it; the host
    writes into it, passes (address, length) pairs back in, and finally
    returns it with `wasm_dealloc`. Results cross as one dynamic JS value
    that is either a success shape or a string. */
module WasmBoundary {
  import opened Common
  import Aead
  import Encryption

  /** A wasm32 pointer. */
  type Addr = nat

  /** The pointer `Vec::with_capacity(0)` returns for `u8` without
      allocating: `NonNull::dangling()`, the alignment 1. */
  const Dangling: Addr := 1

  /** `isize::MAX` on wasm32: the largest capacity `Vec::with_capacity`
      accepts for bytes before panicking with a capacity overflow. */
  const IsizeMax: nat := 0x7FFF_FFFF

  /** A live allocation: its capacity and the prefix the host has written. */
  datatype Buffer = Buffer(capacity: nat, data: Bytes)

  datatype Heap = Heap(live: map<Addr, Buffer>, next: Addr)

  /** Why a call into the guest traps instead of returning. */
  datatype TrapReason = CapacityOverflow | OutOfMemory | KeyLength | NonceLength

  /** The outcome of a call into the guest: it returns (with the heap after
      the call) or it traps. */
  datatype Call<+T> = Returned(heap: Heap, value: T) | Trapped(reason: TrapReason)

  /** The dynamic value a boundary function returns: a string (the error
      channel), a `Uint8Array`, or the object `{ nonce, ciphertext }`. */
  datatype JsValue =
    | JsStr(text: string)
    | JsBytes(bytes: Bytes)
    | JsEncrypted(nonce: Bytes, ciphertext: Bytes)

  const EncryptErrorText: string := "Encryption error (AES): Error"
  const DecryptErrorText: string := "Decryption error (AES): Error"

  predicate Valid(h: Heap) {
    && h.next > Dangling
    && forall a | a in h.live ::
         && Dangling < a < h.next
         && 0 < h.live[a].capacity <= IsizeMax
         && |h.live[a].data| <= h.live[a].capacity
  }

  /** Whether `wasm_alloc(size)` returns, given the allocator's answer
      `granted`. A zero size never consults the allocator
      (`Vec::with_capacity(0)` does not allocate); any other size must be
      at most `isize::MAX` and granted. */
  predicate AllocReturns(size: nat, granted: bool) {
    size <= IsizeMax && (size == 0 || granted)
  }

  /** `wasm_alloc(size)`. A zero size allocates nothing and yields the
      dangling pointer; otherwise a fresh buffer becomes live. A size beyond
      `isize::MAX` panics with a capacity overflow, and a non-zero request
      the allocator cannot satisfy (`granted` false) aborts the guest. */
  function Alloc(h: Heap, size: nat, granted: bool): (r: Call<Addr>)
    requires Valid(h)
    ensures r.Returned? <==> AllocReturns(size, granted)
    ensures r.Trapped? ==> r.reason == (if size > IsizeMax then CapacityOverflow else OutOfMemory)
    ensures r.Returned? ==> Valid(r.heap) && r.value != 0
    ensures r.Returned? && size == 0 ==> r.value == Dangling && r.heap == h
    ensures r.Returned? && size > 0 ==>
      && r.value !in h.live
      && r.value in r.heap.live && r.heap.live[r.value] == Buffer(size, [])
      && r.heap.live - {r.value} == h.live
  {
    if size > IsizeMax then Trapped(CapacityOverflow)
    else if size == 0 then Returned(h, Dangling)
    else if !granted then Trapped(OutOfMemory)
    else Returned(Heap(h.live[h.next := Buffer(size, [])], h.next + 1), h.next)
  }

  /** What `wasm_dealloc(addr, size)` demands: a non-null pointer, and the
      capacity the buffer was allocated with; a pointer that is not live is
      the dangling pointer of a zero-size allocation. */
  predicate CanRelease(h: Heap, addr: Addr, size: nat) {
    addr != 0 && if addr in h.live then h.live[addr].capacity == size else size == 0
  }

  /** `wasm_dealloc(addr, size)`: rebuilds the vector and drops it. Exactly
      `addr` stops being live; a zero size frees nothing. */
  function Dealloc(h: Heap, addr: Addr, size: nat): (h': Heap)
    requires Valid(h) && CanRelease(h, addr, size)
    ensures Valid(h')
    ensures addr !in h'.live
    ensures h'.live.Keys == h.live.Keys - {addr}
    ensures forall a | a in h'.live :: h'.live[a] == h.live[a]
    ensures size == 0 ==> h' == h
  {
    if size == 0 then h else Heap(h.live - {addr}, h.next)
  }

  /** The host's `new Uint8Array(memory.buffer, addr, n).set(bytes)`. */
  predicate Writable(h: Heap, addr: Addr, n: nat) {
    addr != 0 && (n == 0 || (addr in h.live && n <= h.live[addr].capacity))
  }

  function Write(h: Heap, addr: Addr, bytes: Bytes): (h': Heap)
    requires Valid(h) && Writable(h, addr, |bytes|)
    ensures Valid(h')
    ensures h'.live.Keys == h.live.Keys
    ensures forall a | a in h.live && a != addr :: h'.live[a] == h.live[a]
    ensures |bytes| > 0 ==> h'.live[addr].capacity == h.live[addr].capacity
    ensures |bytes| > 0 ==> |bytes| <= |h'.live[addr].data| && h'.live[addr].data[..|bytes|] == bytes
    ensures |bytes| == 0 ==> h' == h
  {
    if |bytes| == 0 then h
    else
      var b := h.live[addr];
      var data := if |b.data| <= |bytes| then bytes else bytes + b.data[|bytes|..];
      Heap(h.live[addr := Buffer(b.capacity, data)], h.next)
  }

  /** What `slice::from_raw_parts(addr, n)` demands: a non-null pointer and
      `n` initialised bytes behind it. */
  predicate Readable(h: Heap, addr: Addr, n: nat) {
    addr != 0 && (n == 0 || (addr in h.live && n <= |h.live[addr].data|))
  }

  function Read(h: Heap, addr: Addr, n: nat): (r: Bytes)
    requires Readable(h, addr, n)
    ensures |r| == n
    ensures n > 0 ==> r == h.live[addr].data[..n]
  {
    if n == 0 then [] else h.live[addr].data[..n]
  }

  /** `generate_aes_key_wasm`: the 32 drawn bytes as a `Uint8Array`. */
  function GenerateAesKeyWasm(drawn: Bytes): (v: JsValue)
    requires |drawn| == Aead.KeySize
    ensures v.JsBytes? && |v.bytes| == Aead.KeySize && v.bytes == drawn
  {
    JsBytes(drawn)
  }

  /** `encrypt_data_wasm` when it returns: reads the key and plaintext
      buffers in place and returns `{ nonce, ciphertext }`. It returns only
      with a 32-byte key (`Key::from_slice` panics otherwise) and once the
      ciphertext vector of `plaintextLen + 16` bytes has been allocated
      (see `InvokeEncrypt`); such a plaintext is far below the GCM limit,
      so the error string is never produced. */
  function EncryptDataWasm(c: Aead.Cipher, h: Heap, keyPtr: Addr, keyLen: nat,
                           plaintextPtr: Addr, plaintextLen: nat, drawn: Bytes): (v: JsValue)
    requires Aead.Valid(c) && Valid(h)
    requires Readable(h, keyPtr, keyLen) && Readable(h, plaintextPtr, plaintextLen)
    requires keyLen == Aead.KeySize && |drawn| == Aead.NonceSize
    requires plaintextLen + Aead.TagSize <= IsizeMax
    ensures v.JsEncrypted?
    ensures v.nonce == drawn
    ensures |v.ciphertext| == plaintextLen + Aead.TagSize
    ensures Encryption.DecryptData(c, Read(h, keyPtr, keyLen), v.ciphertext, v.nonce)
            == Ok(Read(h, plaintextPtr, plaintextLen))
  {
    var key := Read(h, keyPtr, keyLen);
    var plaintext := Read(h, plaintextPtr, plaintextLen);
    match Aead.Encrypt(c, key, drawn, plaintext)
    case Ok(ciphertext) => JsEncrypted(drawn, ciphertext)
    case Err(_) => JsStr(EncryptErrorText)
  }

  /** `decrypt_data_wasm`: the key must be 32 bytes and the nonce 12
      (`Key::from_slice` and `Nonce::from_slice` panic otherwise). Returns
      the whole plaintext as a `Uint8Array`, or the error string. */
  function DecryptDataWasm(c: Aead.Cipher, h: Heap, keyPtr: Addr, keyLen: nat,
                           ciphertextPtr: Addr, ciphertextLen: nat,
                           noncePtr: Addr, nonceLen: nat): (v: JsValue)
    requires Aead.Valid(c) && Valid(h)
    requires Readable(h, keyPtr, keyLen) && Readable(h, ciphertextPtr, ciphertextLen)
    requires Readable(h, noncePtr, nonceLen)
    requires keyLen == Aead.KeySize && nonceLen == Aead.NonceSize
    ensures v.JsBytes? || v.JsStr?
    ensures v.JsBytes? ==>
      Encryption.EncryptData(c, Read(h, keyPtr, keyLen), v.bytes, Read(h, noncePtr, nonceLen))
      == Ok((Read(h, ciphertextPtr, ciphertextLen), Read(h, noncePtr, nonceLen)))
    ensures v.JsStr? <==>
      Encryption.DecryptData(c, Read(h, keyPtr, keyLen), Read(h, ciphertextPtr, ciphertextLen),
                             Read(h, noncePtr, nonceLen)).Err?
    ensures v.JsStr? ==> v.text == DecryptErrorText
  {
    var key := Read(h, keyPtr, keyLen);
    var ciphertext := Read(h, ciphertextPtr, ciphertextLen);
    var nonce := Read(h, noncePtr, nonceLen);
    match Aead.Decrypt(c, key, nonce, ciphertext)
    case Ok(plaintext) => JsBytes(plaintext)
    case Err(_) => JsStr(DecryptErrorText)
  }

  /** The capacity `format!` gives the error message of
      `decrypt_data_wasm`: twice the 24 bytes of its literal part, which the
      29-byte message fills without growing. */
  const ErrorMessageCapacity: nat := 48

  /** A call of `encrypt_data_wasm` with an arbitrary key length. The
      length check inside `Key::from_slice` becomes a trap. So does the
      guest's own allocation of the ciphertext vector
      (`Vec::with_capacity(plaintext.len() + 16)` in `Aead::encrypt`): it
      panics beyond `isize::MAX` and aborts when the allocator, whose
      answer is `outputGrant`, refuses. The host sees a trap as an
      exception. The vector is dropped before the call returns. */
  function InvokeEncrypt(c: Aead.Cipher, h: Heap, keyPtr: Addr, keyLen: nat,
                         plaintextPtr: Addr, plaintextLen: nat, drawn: Bytes,
                         outputGrant: bool): (r: Call<JsValue>)
    requires Aead.Valid(c) && Valid(h)
    requires Readable(h, keyPtr, keyLen) && Readable(h, plaintextPtr, plaintextLen)
    requires |drawn| == Aead.NonceSize
    ensures r.Trapped? <==> keyLen != Aead.KeySize || !AllocReturns(plaintextLen + Aead.TagSize, outputGrant)
    ensures r.Trapped? ==>
      r.reason == (if keyLen != Aead.KeySize then KeyLength
                   else if plaintextLen + Aead.TagSize > IsizeMax then CapacityOverflow
                   else OutOfMemory)
    ensures r.Returned? ==> r.heap == h
    ensures r.Returned? ==> r.value == EncryptDataWasm(c, h, keyPtr, keyLen, plaintextPtr, plaintextLen, drawn)
  {
    if keyLen != Aead.KeySize then Trapped(KeyLength)
    else if plaintextLen + Aead.TagSize > IsizeMax then Trapped(CapacityOverflow)
    else if !outputGrant then Trapped(OutOfMemory)
    else Returned(h, EncryptDataWasm(c, h, keyPtr, keyLen, plaintextPtr, plaintextLen, drawn))
  }

  /** A call of `decrypt_data_wasm` with arbitrary lengths. The length
      checks inside `from_slice` become traps. So do the guest's own
      allocations when the allocator refuses: the copy of the ciphertext
      that `Aead::decrypt` decrypts in place (answer `copyGrant`; an empty
      copy allocates nothing), and, when decryption fails, the `String` of
      the error message (answer `messageGrant`). The ciphertext comes from
      a live buffer, so the copy never overflows the capacity. The host
      sees a trap as an exception. */
  function InvokeDecrypt(c: Aead.Cipher, h: Heap, keyPtr: Addr, keyLen: nat,
                         ciphertextPtr: Addr, ciphertextLen: nat,
                         noncePtr: Addr, nonceLen: nat,
                         copyGrant: bool, messageGrant: bool): (r: Call<JsValue>)
    requires Aead.Valid(c) && Valid(h)
    requires Readable(h, keyPtr, keyLen) && Readable(h, ciphertextPtr, ciphertextLen)
    requires Readable(h, noncePtr, nonceLen)
    ensures r.Trapped? <==>
      || keyLen != Aead.KeySize || nonceLen != Aead.NonceSize
      || !AllocReturns(ciphertextLen, copyGrant)
      || (DecryptDataWasm(c, h, keyPtr, keyLen, ciphertextPtr, ciphertextLen, noncePtr, nonceLen).JsStr?
          && !messageGrant)
    ensures r.Trapped? ==>
      r.reason == (if keyLen != Aead.KeySize then KeyLength
                   else if nonceLen != Aead.NonceSize then NonceLength
                   else OutOfMemory)
    ensures r.Returned? ==> r.heap == h
    ensures r.Returned? ==>
      r.value == DecryptDataWasm(c, h, keyPtr, keyLen, ciphertextPtr, ciphertextLen, noncePtr, nonceLen)
  {
    if keyLen != Aead.KeySize then Trapped(KeyLength)
    else if nonceLen != Aead.NonceSize then Trapped(NonceLength)
    else if !AllocReturns(ciphertextLen, copyGrant) then
      Trapped(if ciphertextLen > IsizeMax then CapacityOverflow else OutOfMemory)
    else
      var v := DecryptDataWasm(c, h, keyPtr, keyLen, ciphertextPtr, ciphertextLen, noncePtr, nonceLen);
      if v.JsStr? && !AllocReturns(ErrorMessageCapacity, messageGrant) then Trapped(OutOfMemory)
      else Returned(h, v)
  }

  /** Allocating and then releasing with the same size restores the live
      buffers exactly. */
  lemma AllocThenDeallocRestores(h: Heap, size: nat)
    requires Valid(h) && size <= IsizeMax
    ensures Alloc(h, size, true).Returned?
    ensures CanRelease(Alloc(h, size, true).heap, Alloc(h, size, true).value, size)
    ensures Dealloc(Alloc(h, size, true).heap, Alloc(h, size, true).value, size).live == h.live
  {
    var r := Alloc(h, size, true);
    if size > 0 {
      assert r.heap.live.Keys == h.live.Keys + {r.value};
    }
  }

  /** A released buffer cannot be released again with its size. */
  lemma NoDoubleRelease(h: Heap, addr: Addr, size: nat)
    requires Valid(h) && CanRelease(h, addr, size) && size > 0
    ensures !CanRelease(Dealloc(h, addr, size), addr, size)
  {
  }

  /** Bytes written through a buffer's address read back unchanged, and
      every other live buffer is untouched, until the buffer is released. */
  lemma WriteThenRead(h: Heap, addr: Addr, bytes: Bytes, other: Addr, n: nat)
    requires Valid(h) && Writable(h, addr, |bytes|)
    requires other != addr && Readable(h, other, n)
    ensures Readable(Write(h, addr, bytes), addr, |bytes|)
    ensures Read(Write(h, addr, bytes), addr, |bytes|) == bytes
    ensures Readable(Write(h, addr, bytes), other, n)
    ensures Read(Write(h, addr, bytes), other, n) == Read(h, other, n)
  {
  }

  /** The boundary round trip: the `nonce` and `ciphertext` of
      `encrypt_data_wasm`, placed in buffers and passed to
      `decrypt_data_wasm` with the same key bytes, give back the plaintext
      that was read from the host's buffer. */
  lemma BoundaryRoundTrip(c: Aead.Cipher, h: Heap, keyPtr: Addr, plaintextPtr: Addr, plaintextLen: nat,
                          drawn: Bytes, h': Heap, keyPtr': Addr, ciphertextPtr: Addr, noncePtr: Addr)
    requires Aead.Valid(c) && Valid(h) && Valid(h')
    requires Readable(h, keyPtr, Aead.KeySize) && Readable(h, plaintextPtr, plaintextLen)
    requires |drawn| == Aead.NonceSize && plaintextLen + Aead.TagSize <= IsizeMax
    requires var v := EncryptDataWasm(c, h, keyPtr, Aead.KeySize, plaintextPtr, plaintextLen, drawn);
      && Readable(h', keyPtr', Aead.KeySize) && Read(h', keyPtr', Aead.KeySize) == Read(h, keyPtr, Aead.KeySize)
      && Readable(h', ciphertextPtr, |v.ciphertext|) && Read(h', ciphertextPtr, |v.ciphertext|) == v.ciphertext
      && Readable(h', noncePtr, Aead.NonceSize) && Read(h', noncePtr, Aead.NonceSize) == v.nonce
    ensures var v := EncryptDataWasm(c, h, keyPtr, Aead.KeySize, plaintextPtr, plaintextLen, drawn);
      DecryptDataWasm(c, h', keyPtr', Aead.KeySize, ciphertextPtr, |v.ciphertext|, noncePtr, Aead.NonceSize)
      == JsBytes(Read(h, plaintextPtr, plaintextLen))
  {
    var v := EncryptDataWasm(c, h, keyPtr, Aead.KeySize, plaintextPtr, plaintextLen, drawn);
    var key := Read(h, keyPtr, Aead.KeySize);
    var pt := Read(h, plaintextPtr, plaintextLen);
    Encryption.RoundTrip(c, key, pt, drawn, v.ciphertext, v.nonce);
  }
}
