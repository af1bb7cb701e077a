# merkeziyetsiz-veri-koruma: a Dafny model of the encryption core

This project models the core of a decentralised file-protection system.
A file is encrypted with AES-256-GCM under a fresh 32-byte key. The key is
protected through the Lit network, and the ciphertext, nonce and protected
key are stored as one archive on Arweave. The model covers five parts of
the system:

- **`src/encryption.rs`** is the AEAD engine: `generate_aes_key`,
  `encrypt_data` (a fresh 12-byte nonce, result `(ciphertext, nonce)`) and
  `decrypt_data` (all or nothing). AES-GCM itself is an abstract cipher
  (module `Aead`). It is a pair of total functions `seal`/`open`
  constrained by `Aead.Valid`:
  - sealing adds a 16-byte tag;
  - opening succeeds on exactly the sealed ciphertexts;
  - the plaintext limit is the `aes-gcm` crate's `P_MAX` of 2^36 bytes.

  The random source is an oracle parameter (`drawn`).
- **`src/lib.rs`** is the WebAssembly boundary (module `WasmBoundary`).
  - The guest heap is a map from address to buffer (capacity and
    initialised prefix).
  - `wasm_alloc` returns the dangling pointer 1 for size 0 without asking
    the allocator. It traps on a capacity beyond `isize::MAX` (2^31 − 1 on
    wasm32), or when the allocator refuses a non-zero size.
  - `wasm_dealloc` with size 0 frees nothing.
  - The encrypt and decrypt entry points read caller buffers by
    (pointer, length). They return one dynamic value: `{nonce, ciphertext}`,
    a `Uint8Array`, or an error string.
  - A wrong key or nonce length panics inside `from_slice`. This is a
    precondition on the entry points, and a trap in `InvokeEncrypt` and
    `InvokeDecrypt`.
- **`merkeziyetsiz-ui/src/components/FileProcessor.tsx`** is the browser
  client (module `FileProcessor`):
  - `bytesToHex` and `compareUint8Arrays`;
  - the 32-byte check on a generated key;
  - the two handlers, which allocate guest buffers, fill them, call the
    boundary, and release everything in `finally`. The allocations, copies
    and releases are `AllocEach`, `WriteEach` and `ReleaseEach`. The
    invariant `Holds` ties them together.
- **`key_manager_lit/encrypt_string.js`** (module `EncryptString`) covers:
  - `hexToUint8Array`, with `parseInt(…, 16)` modelled exactly: leading
    whitespace, sign, `0x` prefix, longest digit run, `NaN` stored as 0;
  - the order of checks in `main`.
- **`src/main.rs`** (modules `Cli`, `OutputName`, `RustStr`) covers:
  - how standard output of the helper scripts is trimmed and split into
    lines, with Rust's `trim` and `lines().last()`;
  - the final decrypt-and-compare step;
  - the de-duplicating choice of the output file name. `Path::file_stem`
    and `Path::extension` are modelled on the final path component, and
    the file-exists query is membership in a finite set.

The decoder in `encrypt_string.js` checks only that the length is even. A
pair that is not hexadecimal still yields a byte: `NonDigitPairBecomesZero`
and `TrailingNonDigitIsIgnored` state what it yields. On the encoder's
output it is exact (`HexRoundTrip`).

On wasm32 no buffer can exceed `isize::MAX` bytes, so `encrypt_data_wasm`
never reaches its AES error string: it returns the success object or it
traps. It traps when the key is not 32 bytes. It also traps when the guest
cannot allocate its own ciphertext vector, whose capacity is the plaintext
length plus the 16-byte tag. Beyond `isize::MAX` that is a capacity-overflow
panic; otherwise an allocator refusal aborts. `InvokeEncrypt` states when
each trap happens, and `EncryptDataWasm` is the value of a call that
returns. The string check in `handleEncryptAndUpload` is therefore dead
code, while a trap reaches its `catch` as an exception. In the same way,
`decrypt_data_wasm` traps when the guest cannot allocate its copy of the
ciphertext, or the message string of a failed decryption (`InvokeDecrypt`).

## Model

| member | source | states |
|---|---|---|
| Aead.Encrypt | src/encryption.rs:21 | Encryption fails exactly for plaintexts beyond the crate's 2^36-byte limit; the ciphertext is the plaintext length plus a 16-byte tag, and it opens to the plaintext |
| Aead.Decrypt | src/encryption.rs:35 | A successful result is a plaintext that encrypts to exactly this ciphertext; failure happens exactly when no plaintext does |
| Aead.DecryptInvertsEncrypt | src/encryption.rs:21-35 | Decrypting an encryption under the same key and nonce returns the plaintext |
| Aead.ModifiedCiphertextNeverYieldsOriginal | src/encryption.rs:35 | Any ciphertext other than the sealed one never decrypts to the original plaintext |
| Encryption.GenerateAesKey | src/encryption.rs:46-51 | The key is exactly 32 bytes, the bytes drawn from the random source |
| Encryption.EncryptData | src/encryption.rs:11-25 | The result is `(ciphertext, nonce)` in that order; the nonce is the 12 drawn bytes, whatever the key and plaintext; the ciphertext is 16 bytes longer than the plaintext and decrypts to it; encryption fails only beyond the GCM limit |
| Encryption.DecryptData | src/encryption.rs:30-38 | With a 12-byte nonce (anything else panics), success returns the whole plaintext that `encrypt_data` maps to this ciphertext and nonce; failure happens exactly when there is no such plaintext |
| Encryption.RoundTrip | src/encryption.rs:11-38 | The output of `encrypt_data`, passed to `decrypt_data` with the same key, gives back the plaintext |
| Encryption.EmptyPlaintextIsTagOnly | src/encryption.rs:21 | An empty plaintext encrypts to a tag-only ciphertext of 16 bytes, which decrypts to the empty plaintext |
| Encryption.NoPartialPlaintext | src/encryption.rs:35-37 | A tampered ciphertext never decrypts to the original plaintext; the `?` returns the error and no bytes |
| WasmBoundary.Alloc | src/lib.rs:19-24 | A returned pointer is never null. Size 0 never traps: it gives the dangling pointer and leaves the heap alone. Any other size gives a buffer of that capacity that was not live before, and no other buffer changes. It traps exactly on capacity overflow, or on allocator refusal of a non-zero size, with that reason |
| WasmBoundary.Dealloc | src/lib.rs:28-32 | With a matching size, exactly the given buffer stops being live and every other buffer is unchanged; size 0 is a no-op |
| WasmBoundary.Write | merkeziyetsiz-ui/src/components/FileProcessor.tsx:206-207 | The host's copy into a buffer puts the bytes at its start, keeps its capacity and changes no other buffer |
| WasmBoundary.Read | src/lib.rs:51-52 | `from_raw_parts(ptr, len)` sees exactly the first `len` initialised bytes of the buffer |
| WasmBoundary.GenerateAesKeyWasm | src/lib.rs:35-39 | The result is a 32-byte `Uint8Array` of drawn bytes |
| WasmBoundary.EncryptDataWasm | src/lib.rs:42-80 | For a call that returns (a 32-byte key, and plaintext plus tag within `isize::MAX`), the result is always the `{nonce, ciphertext}` object. The nonce is the 12 drawn bytes, the ciphertext is 16 bytes longer than the plaintext, and `decrypt_data` maps it back to the bytes in the caller's buffer |
| WasmBoundary.DecryptDataWasm | src/lib.rs:83-107 | With a 32-byte key and 12-byte nonce, the result is a `Uint8Array` or a string, never the success object. Bytes are returned only when they encrypt to the given ciphertext. The string `Decryption error (AES): Error` is returned exactly when `decrypt_data` fails |
| WasmBoundary.InvokeEncrypt | src/lib.rs:54-61 | The call traps exactly when the key is not 32 bytes or the guest cannot allocate its ciphertext vector of plaintext length plus 16. The reason is the key length, then capacity overflow beyond `isize::MAX`, then out of memory. Otherwise it returns the value of `encrypt_data_wasm` and leaves the heap unchanged |
| WasmBoundary.InvokeDecrypt | src/lib.rs:93-104 | The call traps exactly when the key is not 32 bytes, or the nonce is not 12, or the allocator refuses the non-empty copy of the ciphertext, or decryption fails and the allocator refuses the error message. The reason is the key, then the nonce, then out of memory; it is never capacity overflow, since the ciphertext already fits a live buffer. Otherwise the call returns the value of `decrypt_data_wasm` and leaves the heap unchanged |
| WasmBoundary.AllocThenDeallocRestores | src/lib.rs:19-32 | `wasm_alloc(n)` followed by `wasm_dealloc(p, n)` restores the live buffers exactly |
| WasmBoundary.NoDoubleRelease | src/lib.rs:28-32 | A released non-empty buffer no longer meets the precondition of `wasm_dealloc` |
| WasmBoundary.WriteThenRead | merkeziyetsiz-ui/src/components/FileProcessor.tsx:206-210 | Bytes the host copies in read back unchanged inside the guest, and other buffers read as before |
| WasmBoundary.BoundaryRoundTrip | src/lib.rs:42-107 | The nonce and ciphertext from `encrypt_data_wasm`, placed in buffers with the same key, make `decrypt_data_wasm` return the original plaintext |
| Hex.ToRadix16 | merkeziyetsiz-ui/src/components/FileProcessor.tsx:14 | `toString(16)` of a byte is one lowercase digit below 16 and two otherwise, never with a leading zero; the last digit is the value mod 16 and a first of two is the value div 16 |
| Hex.PadStart2 | merkeziyetsiz-ui/src/components/FileProcessor.tsx:14 | `padStart(2, '0')` keeps the text at the end, at least two characters long, with only `0`s added in front |
| Hex.ByteToHex | merkeziyetsiz-ui/src/components/FileProcessor.tsx:14 | `toString(16).padStart(2, '0')` yields the high and low nibble as lowercase digits |
| Hex.BytesToHex | merkeziyetsiz-ui/src/components/FileProcessor.tsx:13-15 | The output is twice as long as the input |
| Hex.BytesToHexDigits | merkeziyetsiz-ui/src/components/FileProcessor.tsx:13-15 | Characters `2i` and `2i+1` of the output are the high and low digits of byte `i`, so `reduce` keeps the bytes in order |
| Hex.BytesToHexIsLowercaseHex | merkeziyetsiz-ui/src/components/FileProcessor.tsx:14 | Every output character is a lowercase hex digit |
| EncryptString.IsJsWhitespace | key_manager_lit/encrypt_string.js:14 | No character `parseInt` skips as whitespace is a hex digit or a sign |
| EncryptString.TrimStartJs | key_manager_lit/encrypt_string.js:14 | `parseInt`'s whitespace skip leaves a suffix of its input that does not start with whitespace |
| EncryptString.LeadingHexDigits | key_manager_lit/encrypt_string.js:14 | The digits `parseInt` reads form a prefix of the text and are all hex digits |
| EncryptString.HexValue | key_manager_lit/encrypt_string.js:14 | `n` hex digits have a value below 16^n; one digit is worth its digit value |
| EncryptString.StripSign | key_manager_lit/encrypt_string.js:14 | The sign is negative exactly on a leading `-`; at most one leading `-` or `+` is removed, and only such a character |
| EncryptString.StripHexPrefix | key_manager_lit/encrypt_string.js:14 | Exactly a leading `0x` or `0X` is removed, and nothing else |
| EncryptString.ParseIntHex | key_manager_lit/encrypt_string.js:14 | A number read from `n` characters is less than 16^n in magnitude |
| EncryptString.LeadingDigitParses | key_manager_lit/encrypt_string.js:14 | Text starting with a hex digit (other than a `0x` prefix) parses to a non-negative number, never `NaN` |
| EncryptString.ToUint8 | key_manager_lit/encrypt_string.js:14 | Storing into a `Uint8Array` turns `NaN` into 0 and keeps a value in 0..255; any other number is stored as its residue modulo 256 |
| EncryptString.HexToUint8Array | key_manager_lit/encrypt_string.js:7-17 | An odd-length input throws the even-length message, and only such an input throws; otherwise the output is half as long as the input |
| EncryptString.DecodePair | key_manager_lit/encrypt_string.js:13-15 | On two hex digits at `2i` and `2i+1`, output byte `i` is 16 times the first digit's value plus the second's |
| EncryptString.ParsePairOfDigits | key_manager_lit/encrypt_string.js:14 | `parseInt` of two hex digits in radix 16 is 16 times the first digit plus the second |
| EncryptString.DecodesDigitPairs | key_manager_lit/encrypt_string.js:13-15 | On an even-length hex string, output byte `i` is the base-16 value of characters `2i` and `2i+1`, high digit first |
| EncryptString.DecodesEncodedPair | key_manager_lit/encrypt_string.js:13-15 | Each pair of digits the web client writes for a byte decodes back to that byte |
| EncryptString.HexRoundTrip | key_manager_lit/encrypt_string.js:7-17 | For any bytes `b`, `hexToUint8Array(bytesToHex(b)) == b` |
| EncryptString.EmptyDecodesToEmpty | key_manager_lit/encrypt_string.js:12-16 | The empty string decodes to the empty array |
| EncryptString.NonDigitPairBecomesZero | key_manager_lit/encrypt_string.js:14 | A pair whose first character is not a digit, sign or whitespace parses to `NaN` and is stored as 0; it is not an error |
| EncryptString.TrailingNonDigitIsIgnored | key_manager_lit/encrypt_string.js:14 | A digit followed by a non-digit parses to the one digit's value |
| EncryptString.Main | key_manager_lit/encrypt_string.js:19-89 | Fewer than two arguments fail. Something is printed only with a ready session, a decodable key, and a Lit result whose ciphertext and hash are both present and non-empty; those two strings are what is printed |
| EncryptString.ArgumentCountCheckedFirst | key_manager_lit/encrypt_string.js:21-25 | With fewer than two arguments the outcome does not depend on the Lit session or on encryption |
| EncryptString.EncodedKeyReachesLit | key_manager_lit/encrypt_string.js:64-81 | A key hex-encoded by the client reaches Lit as the original bytes. The script prints exactly when both result fields are present, and prints them |
| RustStr.TrimStart | src/main.rs:166 | `trim_start` leaves a suffix of its input that does not start with whitespace, and everything it dropped is whitespace |
| RustStr.TrimEnd | src/main.rs:166 | `trim_end` leaves a prefix of its input that does not end with whitespace, and everything it dropped is whitespace |
| RustStr.Trim | src/main.rs:74 | `trim` leaves a result that neither starts nor ends with whitespace and is no longer than its input |
| RustStr.TrimIsSlice | src/main.rs:74 | The result of `trim` is a contiguous piece of its input with only whitespace before and after it |
| RustStr.TrimCharacterization | src/main.rs:74 | Conversely, whitespace, then a piece whose ends are not whitespace, then whitespace, trims to exactly that piece |
| RustStr.TrimOfAllWhitespace | src/main.rs:74 | Text made only of whitespace trims to nothing from either end |
| RustStr.LineStart | src/main.rs:166 | The line holding a position starts at 0 or just after a `\n`, at or before the position, with no `\n` in between |
| RustStr.LineStartUnique | src/main.rs:166 | Any position with those three properties is that line start |
| RustStr.LastIndexOf | src/main.rs:166 | The search for the last line break finds a position holding it with none after; finding nothing means there is none |
| RustStr.LastLine | src/main.rs:166 | `lines().last()` is absent only for empty input and contains no line break; without a final newline it is the text after the last line break |
| RustStr.TrimEndDropsAppendedWhitespace | src/main.rs:166 | Trailing whitespace, such as the newline `console.log` adds, does not survive `trim` |
| RustStr.TrimStartOfConcat | src/main.rs:166 | Leading trimming stops before a part that starts with non-whitespace |
| RustStr.TrimAddsNoChar | src/main.rs:166 | `trim` introduces no character absent from its input |
| RustStr.LastIndexOfConcat | src/main.rs:166 | Appending text without a line break does not move the last line break |
| Cli.LitEncryptOutput | src/main.rs:73-76 | An empty trimmed output from `encrypt_string.js` is an error; otherwise the trimmed text goes on to JSON parsing |
| Cli.ArweaveTransactionId | src/main.rs:124-126 | The transaction id is the trimmed output, and an empty one is an error |
| Cli.LastLineOrEmpty | src/main.rs:166 | `lines().last().unwrap_or("")` contains no line break and is empty for empty input; on text not ending in a line break it is the text from the start of the last line |
| Cli.RecoveredKeyHex | src/main.rs:165-167 | The key hex is recovered exactly when the trimmed output is not empty; it is then non-empty, has no whitespace at either end and spans one line; otherwise the error is the empty-key error |
| Cli.RecoveredKeyIsEndOfOutput | src/main.rs:166 | The recovered key ends the trimmed output, and on its line only whitespace precedes it |
| Cli.KeyIsReadFromLastPrintedLine | src/main.rs:165-167 | A whitespace-free key printed as the last line, after any log output, is read back exactly |
| Cli.PrintedLineIsReadBack | src/main.rs:73-76 | A printed line whose ends are not whitespace is read back exactly, both as the Lit output and as the transaction id |
| Cli.DecryptAndVerify | src/main.rs:180-216 | The step panics exactly when the key is not 32 bytes or the nonce is not 12. It succeeds exactly when the original bytes encrypt, under that key and nonce, to the stored ciphertext. A content mismatch is reported only after decryption succeeded |
| Cli.EncryptThenVerifySucceeds | src/main.rs:90-216 | A file encrypted in step 2 passes the final comparison in step 6 with the same key and the stored nonce |
| OutputName.BaseFileName | src/main.rs:189 | The base name is `decrypted_` followed by the archived name |
| OutputName.FinalComponent | src/main.rs:190-196 | The final component is the end of the path after its last `/` (or the whole path), and contains no `/` |
| OutputName.RSplitFileAtDot | src/main.rs:195-196 | With both parts, the name is a non-empty part, a dot and a dot-free part; with no part before, the name has no dot; with no part after, the name is `..` or its only dot leads it |
| OutputName.FileStem | src/main.rs:195 | The stem of an ordinary name is a non-empty prefix of the final component |
| OutputName.Extension | src/main.rs:196 | The extension is a dot-free suffix of the final component, shorter than it, and preceded by a dot when non-empty |
| OutputName.StemAndExtensionRebuildName | src/main.rs:195-196 | Stem, dot and extension rebuild the final path component |
| OutputName.FileNameStem | src/main.rs:195 | The stem of a non-empty file name is a non-empty prefix of it |
| OutputName.FileExtension | src/main.rs:196 | The extension of a non-empty file name is a dot-free suffix, shorter than the name, and preceded by a dot when non-empty |
| OutputName.StemAndExtensionRebuildFileName | src/main.rs:195-196 | Stem, dot and extension rebuild a non-empty file name; the dot is lost only when the extension is empty |
| OutputName.Decimal | src/main.rs:201-203 | `format!` writes a counter as at least one decimal digit and nothing else |
| OutputName.DecimalHasNoLeadingZero | src/main.rs:201-203 | Only zero is written with a leading `0` |
| OutputName.DecimalValueOfDecimal | src/main.rs:201-203 | The counter written in decimal reads back as the counter |
| OutputName.CandidateShape | src/main.rs:200-204 | A replacement name starts with the stem and `_`, ends with `.` and the extension when there is one, and otherwise ends in a digit |
| OutputName.CandidateInjective | src/main.rs:198-205 | Distinct counters give distinct replacement names |
| OutputName.CandidatesBeforeStep | src/main.rs:198-205 | Each new counter adds one untried name to the names already tried |
| OutputName.FirstFreeName | src/main.rs:198-205 | The loop ends on a free name: the base name exactly when it is free, otherwise `stem_k[.ext]` for the smallest `k ≥ 1` whose name is free |
| OutputName.ChooseOutputName | src/main.rs:189-205 | The chosen name is never an existing file. It is the base name exactly when the base name is free; otherwise it is `stem_k[.ext]` for the smallest free `k ≥ 1`, with stem and extension taken from the base name. The loop terminates |
| FileProcessor.CompareUint8Arrays | merkeziyetsiz-ui/src/components/FileProcessor.tsx:18-24 | The result is false when the lengths differ, and true exactly when the arrays are equal element by element |
| FileProcessor.AcceptGeneratedKey | merkeziyetsiz-ui/src/components/FileProcessor.tsx:116 | A key is accepted exactly when the value is a 32-byte `Uint8Array`, and it is accepted unchanged |
| FileProcessor.GeneratedKeyIsAccepted | merkeziyetsiz-ui/src/components/FileProcessor.tsx:113-118 | Every key from `generate_aes_key_wasm` passes the client's check |
| FileProcessor.AllocEach | merkeziyetsiz-ui/src/components/FileProcessor.tsx:314-317 | Consecutive `wasm_alloc` calls return buffers of the requested sizes. They are fresh, non-null and pairwise distinct, and the earlier buffers are untouched. Each held buffer's allocation returned, so a size-0 request always succeeds. The first allocation that does not return stops the sequence, with the trap for that size |
| FileProcessor.WriteEach | merkeziyetsiz-ui/src/components/FileProcessor.tsx:321-323 | The copies keep every held buffer held and leave all other buffers untouched |
| FileProcessor.WriteEachFills | merkeziyetsiz-ui/src/components/FileProcessor.tsx:321-323 | After the copies, each buffer reads back its own payload; later copies never overwrite earlier ones |
| FileProcessor.Stage | merkeziyetsiz-ui/src/components/FileProcessor.tsx:314-323 | The buffers are those allocated before the first allocation that does not return, with the payload sizes; a size-0 payload never stops staging. Staging completes exactly when every allocation returns, and then every buffer holds its payload |
| FileProcessor.StagedCount | merkeziyetsiz-ui/src/components/FileProcessor.tsx:314-316 | A first buffer is held exactly when the first allocation returns, and all of them exactly when every allocation returns |
| FileProcessor.HeldHandles | merkeziyetsiz-ui/src/components/FileProcessor.tsx:317 | No held pointer is null, and no two non-empty held buffers share an address |
| FileProcessor.ReleaseEach | merkeziyetsiz-ui/src/components/FileProcessor.tsx:358-360 | Releasing each held buffer with its allocation length leaves exactly the buffers that were live before the handler |
| FileProcessor.Finish | merkeziyetsiz-ui/src/components/FileProcessor.tsx:356-361 | The `finally` block keeps the outcome and leaves exactly the buffers live before the handler; every non-empty buffer it acquired was new, non-null and distinct from the others |
| FileProcessor.EncryptCall | merkeziyetsiz-ui/src/components/FileProcessor.tsx:210-237 | Upload succeeds exactly with a 32-byte key, a ciphertext vector the guest can allocate, and a non-empty transaction id. A wrong key length throws the key trap. An unallocatable vector throws capacity overflow or out of memory, and nothing is uploaded. After an upload, the archive holds the drawn nonce and a ciphertext that decrypts to the file. A string from the boundary never occurs |
| FileProcessor.EncryptAndUpload | merkeziyetsiz-ui/src/components/FileProcessor.tsx:198-247 | The handler releases exactly the buffers it acquired, each once with its length. A trap in the second allocation still releases the first. The handler succeeds exactly when both allocations return, the key is 32 bytes, the guest allocates its ciphertext vector and the upload returns an id. With a 32-byte key and an unallocatable vector, it ends in that trap; then the ciphertext decrypts to the file content |
| FileProcessor.Verify | merkeziyetsiz-ui/src/components/FileProcessor.tsx:341-348 | The content is compared only when a file is selected under the archived name, and a match is reported exactly when the bytes are equal |
| FileProcessor.DecryptCall | merkeziyetsiz-ui/src/components/FileProcessor.tsx:314-348 | A trapped allocation ends the run with that trap. A wrong key or nonce length traps. Otherwise the file is decrypted exactly when the guest can copy the ciphertext and `decrypt_data` succeeds, and the returned bytes encrypt to the archived ciphertext. A failure is the boundary's error string, or an out-of-memory trap when the copy or the error message cannot be allocated |
| FileProcessor.DecryptUnlocked | merkeziyetsiz-ui/src/components/FileProcessor.tsx:314-361 | The unlocked run releases exactly the buffers it acquired, which are those staging obtained. Fewer than three buffers means a trap. With all three and the right key and nonce lengths, decryption succeeds exactly when the guest copies the ciphertext and `decrypt_data` succeeds. A failure is then the error string, or an out-of-memory trap. Decrypted bytes encrypt to the archived ciphertext and are compared with the selected file |
| FileProcessor.DecryptUnlockedCount | merkeziyetsiz-ui/src/components/FileProcessor.tsx:314-316 | The key buffer is held exactly when its allocation returns, and all three exactly when every allocation returns |
| FileProcessor.DecryptArchive | merkeziyetsiz-ui/src/components/FileProcessor.tsx:267-362 | All three buffers, or those obtained before a trap, are released once with their lengths, and the live heap ends as it began. No buffer is allocated when the archive is unavailable. Decrypted bytes always encrypt to the archived ciphertext. A decryption failure surfaces as the boundary's error string, unless the guest cannot allocate its ciphertext copy or error message; that surfaces as an out-of-memory trap |
| FileProcessor.UploadThenDecrypt | merkeziyetsiz-ui/src/components/FileProcessor.tsx:179-362 | A file uploaded by the encrypt handler and decrypted from that archive with the same key comes back unchanged, and the comparison reports a match |

## Left out

- AES-256-GCM internals (key schedule, CTR, GHASH) are abstracted as `Aead.Cipher`. The operating-system random source is an oracle argument.
- Nonce uniqueness and tag forgery are probabilistic, cryptographic properties. The model states only the functional contract of authenticated decryption.
- The `Reflect::set` failure branches of `encrypt_data_wasm` (src/lib.rs:69-74) are left out. Setting a property on a freshly created plain object cannot fail.
- `set_panic_hook` (src/lib.rs:11) is left out: its body is elided in the source, and it does not affect results.
- `Key::from_slice` and `Nonce::from_slice` panics on the direct entry points (`EncryptDataWasm`, `DecryptDataWasm`, `Encryption.DecryptData`) are modelled as preconditions. `InvokeEncrypt`, `InvokeDecrypt` and `Cli.DecryptAndVerify` model them as traps or panics.
- WasmBoundary.Alloc: lengths are assumed below 2^32. On wasm32 `usize` is 32 bits, so a JavaScript length of 2^32 or more would wrap on its way into `wasm_alloc`, and `new Uint8Array(buffer, ptr, len)` would then throw a `RangeError`; the model instead traps with a capacity overflow.
- FileProcessor.EncryptAndUpload: the live heap is restored only if no other handler runs while this one awaits the upload (FileProcessor.tsx:232). The buttons are not disabled during a run (FileProcessor.tsx:381-382), so another handler could allocate or free in between. The model states what holds without such interleaving; each handler still releases exactly what it acquired.
- WasmBoundary.InvokeEncrypt, WasmBoundary.InvokeDecrypt: the guest frees its own vectors before the call returns, so the model returns the heap unchanged. The allocator's internal bookkeeping is not modelled. The `Uint8Array` and object results are allocated by the host, which the model treats as never failing.
- FileProcessor.DecryptArchive: `h` is the heap at its first `wasm_alloc`. Its `await`s all come before the allocations, so nothing else can run between its allocations and its `finally` block.
- OutputName.ChooseOutputName requires the base name's final component to be an ordinary name, not empty, `.` or `..`. After the `decrypted_` prefix this excludes archived names ending in `/`, `/.` or `/..`. For those, Rust's path normalisation decides the stem and extension, and the model does not follow it. The model treats only `/` as a separator.
- OutputName.ChooseOutputName: the counter is an unbounded natural. The source's `i32` would overflow only after 2^31 existing files.
- `hex::decode` of the recovered key (src/main.rs:168) is left out: it is a library call. The key bytes reach `Cli.DecryptAndVerify` as a parameter.
- Base64 and JSON (de)serialisation in `src/main.rs` and the archive object in FileProcessor.tsx are left out: they are library code. Their decoded values are parameters.
- Child processes, environment loading, file reads and writes, the Arweave HTTP fetch, and the Lit and Arweave services are left out: they are I/O. Their results are oracle parameters (`stdout` strings, `archive`, `txId`, `session`, `encrypt`).
- React state, messages, rendering and `handleEncryptAesKeyWithLit` are left out: they are UI wiring and network orchestration.
- The `ptr === 0` / `!ptr` checks after `wasm_alloc` (FileProcessor.tsx:203, 317) are left out. They can never fire, because `WasmBoundary.Alloc` never returns null.
- Non-BMP characters are left out: one `char` stands for one UTF-16 code unit in the JavaScript parts.
- `decrypt_string.js` is not part of this model. Only the shape of its output (log lines, then the key on the last line) is assumed, in `Cli.KeyIsReadFromLastPrintedLine`.
